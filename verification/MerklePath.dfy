/** Single-leaf openings of a zero-padded tree (`crates/ligerito-escrow/src/shares.rs`). */
module MerklePath {
  import opened Powers
  import opened MerkleTree
  import opened MerkleBatch
  import opened MerkleBinding

  /** The root computed from a leaf hash and its path. */
  function RootFrom<L, H>(X: Hasher<L, H>, index: nat, leaf: H, proof: seq<H>): H
    decreases |proof|
  {
    if proof == [] then leaf
    else RootFrom(X, index / 2, if index % 2 == 0 then X.Node(leaf, proof[0]) else X.Node(proof[0], leaf), proof[1..])
  }

  /** `compute_merkle_root` */
  method ComputeRoot<L, H>(X: Hasher<L, H>, index: nat, leaf: H, proof: seq<H>) returns (current: H)
    ensures current == RootFrom(X, index, leaf, proof)
  {
    current := leaf;
    var idx := index;
    assert proof[0..] == proof;
    for i := 0 to |proof|
      invariant RootFrom(X, index, leaf, proof) == RootFrom(X, idx, current, proof[i..])
    {
      assert proof[i..][1..] == proof[i + 1..];
      if idx % 2 == 0 {
        current := X.Node(current, proof[i]);
      } else {
        current := X.Node(proof[i], current);
      }
      idx := idx / 2;
    }
  }

  /** The siblings on the way from leaf `index` to the root. */
  function Path<H>(layers: seq<seq<H>>, index: nat): (r: seq<H>)
    requires Halving(layers) && layers != [] && index < |layers[0]|
    ensures |r| == |layers| - 1
    decreases |layers|
  {
    if |layers| == 1 then [] else [layers[0][Sibling(index)]] + Path(layers[1..], index / 2)
  }

  /** The honest path leads to the root. */
  lemma {:induction false} PathRoot<L, H>(X: Hasher<L, H>, layers: seq<seq<H>>, index: nat)
    requires layers != [] && Linked(X, layers) && Halving(layers) && index < |layers[0]| && |layers[|layers| - 1]| == 1
    ensures RootFrom(X, index, layers[0][index], Path(layers, index)) == layers[|layers| - 1][0]
    decreases |layers|
  {
    if |layers| > 1 {
      hide RootFrom, Path, Above;
      PathStep(X, layers, index);
      PathRoot(X, layers[1..], index / 2);
    }
  }

  lemma PathStep<L, H>(X: Hasher<L, H>, layers: seq<seq<H>>, index: nat)
    requires |layers| > 1 && Linked(X, layers) && Halving(layers) && index < |layers[0]|
    ensures index / 2 < |layers[1]|
    ensures RootFrom(X, index, layers[0][index], Path(layers, index)) == RootFrom(X, index / 2, layers[1][index / 2], Path(layers[1..], index / 2))
  {
    AboveAt(X, layers[0], index);
    var p := Path(layers, index);
    assert p[1..] == Path(layers[1..], index / 2) && p[0] == layers[0][Sibling(index)];
  }

  /** The pairs hashed along a path. */
  ghost function PathPairs<L, H(!new)>(X: Hasher<L, H>, index: nat, leaf: H, proof: seq<H>): set<(H, H)>
    decreases |proof|
  {
    if proof == [] then {}
    else
      var t := if index % 2 == 0 then (leaf, proof[0]) else (proof[0], leaf);
      {t} + PathPairs(X, index / 2, X.Node(t.0, t.1), proof[1..])
  }

  lemma PathPairsStep<L, H(!new)>(X: Hasher<L, H>, index: nat, leaf: H, proof: seq<H>)
    requires proof != []
    ensures var t := if index % 2 == 0 then (leaf, proof[0]) else (proof[0], leaf);
      t in PathPairs(X, index, leaf, proof) && PathPairs(X, index / 2, X.Node(t.0, t.1), proof[1..]) <= PathPairs(X, index, leaf, proof)
  {
  }

  /** Unless two of the pairs hashed collide, a path of full length to the root carries the tree's leaf, and is the honest
      path. */
  lemma {:induction false} PathBinding<L, H(!new)>(
    X: Hasher<L, H>, seen: set<(H, H)>, layers: seq<seq<H>>, index: nat, leaf: H, proof: seq<H>)
    requires layers != [] && Linked(X, layers) && Halving(layers) && index < |layers[0]| && |layers[|layers| - 1]| == 1
    requires NodesApart(X, seen) && TreePairs(layers) <= seen && PathPairs(X, index, leaf, proof) <= seen
    requires |proof| == |layers| - 1 && RootFrom(X, index, leaf, proof) == layers[|layers| - 1][0]
    ensures leaf == layers[0][index] && proof == Path(layers, index)
    decreases |layers|
  {
    hide *;
    PathDef(layers, index);
    RootStep(X, index, leaf, proof);
    if |layers| > 1 {
      var t := if index % 2 == 0 then (leaf, proof[0]) else (proof[0], leaf);
      LinkedStep(X, layers);
      TreePairsStep(layers);
      PathPairsStep(X, index, leaf, proof);
      PathBinding(X, seen, layers[1..], index / 2, X.Node(t.0, t.1), proof[1..]);
      PairAt(X, layers[0], index);
      SiblingIs(index);
      NodeParts(X, seen, t, if index % 2 == 0 then (layers[0][index], layers[0][index + 1]) else (layers[0][index - 1], layers[0][index]));
      assert proof == [proof[0]] + proof[1..];
    }
  }

  lemma LinkedStep<L, H>(X: Hasher<L, H>, layers: seq<seq<H>>)
    requires |layers| > 1 && Linked(X, layers) && Halving(layers)
    ensures |layers[0]| == 2 * |layers[1]| && layers[1] == Above(X, layers[0]) && Linked(X, layers[1..]) && Halving(layers[1..])
  {
  }

  lemma PathDef<H>(layers: seq<seq<H>>, index: nat)
    requires Halving(layers) && layers != [] && index < |layers[0]|
    ensures |layers| == 1 ==> Path(layers, index) == []
    ensures |layers| > 1 ==>
      && Halving(layers[1..]) && index / 2 < |layers[1]| && Sibling(index) < |layers[0]|
      && Path(layers, index) == [layers[0][Sibling(index)]] + Path(layers[1..], index / 2)
  {
  }

  lemma RootStep<L, H>(X: Hasher<L, H>, index: nat, leaf: H, proof: seq<H>)
    ensures proof == [] ==> RootFrom(X, index, leaf, proof) == leaf
    ensures proof != [] ==>
      var up := if index % 2 == 0 then X.Node(leaf, proof[0]) else X.Node(proof[0], leaf);
      RootFrom(X, index, leaf, proof) == RootFrom(X, index / 2, up, proof[1..])
  {
  }

  /** The exponent of `next_power_of_two`. */
  function CeilLog(n: nat): nat {
    if n <= 1 then 0 else 1 + CeilLog((n + 1) / 2)
  }

  lemma {:induction false} CeilLogBounds(n: nat)
    requires n > 0
    ensures n <= Pow2(CeilLog(n)) && (n > 1 ==> Pow2(CeilLog(n)) < 2 * n)
  {
    if n > 1 {
      CeilLogBounds((n + 1) / 2);
      CeilLogTight(n);
    }
  }

  lemma {:induction false} CeilLogTight(n: nat)
    requires n > 1
    ensures Pow2(CeilLog(n)) <= 2 * (n - 1)
  {
    if n > 2 {
      CeilLogTight((n + 1) / 2);
    } else {
      assert CeilLog(2) == 1 + CeilLog(1);
    }
  }

  /** The leaves, padded with blank hashes to a power of two. */
  function PadLeaves<L, H>(X: Hasher<L, H>, leaves: seq<H>): (r: seq<H>)
    requires leaves != []
    ensures |r| == Pow2(CeilLog(|leaves|)) && leaves <= r
  {
    CeilLogBounds(|leaves|);
    leaves + seq(Pow2(CeilLog(|leaves|)) - |leaves|, _ => X.blank)
  }

  /** `layers` is the tree over the padded leaves. */
  ghost predicate IsPaddedTree<L, H>(X: Hasher<L, H>, leaves: seq<H>, layers: seq<seq<H>>) {
    && leaves != [] && layers != [] && layers[0] == PadLeaves(X, leaves)
    && Linked(X, layers) && Halving(layers) && |layers[|layers| - 1]| == 1
  }

  /** `build_merkle_tree`: the root and one path per leaf. */
  method BuildTree<L, H>(X: Hasher<L, H>, leaves: seq<H>) returns (root: H, proofs: seq<seq<H>>, ghost layers: seq<seq<H>>)
    ensures leaves == [] ==> root == X.blank && proofs == []
    ensures leaves != [] ==> IsPaddedTree(X, leaves, layers) && root == layers[|layers| - 1][0]
    ensures leaves != [] ==> |proofs| == |leaves| && forall i :: 0 <= i < |leaves| ==> proofs[i] == Path(layers, i)
  {
    hide Path, Linked, Halving, PadLeaves, CeilLog, Pow2;
    var n := |leaves|;
    if n == 0 {
      return X.blank, [], [];
    }
    if n == 1 {
      layers := [PadLeaves(X, leaves)];
      OneLeaf(X, leaves);
      return leaves[0], [[]], layers;
    }
    var levels := BuildLevels(X, PadLeaves(X, leaves), CeilLog(n));
    layers := levels;
    root := levels[|levels| - 1][0];
    proofs := [];
    for i := 0 to n
      invariant |proofs| == i && forall j :: 0 <= j < i ==> proofs[j] == Path(levels, j)
    {
      var proof := OnePath(X, levels, i);
      proofs := proofs + [proof];
    }
  }

  lemma OneLeaf<L, H>(X: Hasher<L, H>, leaves: seq<H>)
    requires |leaves| == 1
    ensures var layers := [PadLeaves(X, leaves)]; IsPaddedTree(X, leaves, layers) && PadLeaves(X, leaves) == leaves && Path(layers, 0) == []
  {
    assert CeilLog(1) == 0;
  }

  /** The bottom-up loop. */
  method BuildLevels<L, H>(X: Hasher<L, H>, base: seq<H>, ghost d: nat) returns (levels: seq<seq<H>>)
    requires |base| == Pow2(d)
    ensures levels != [] && levels[0] == base && Linked(X, levels) && Halving(levels) && |levels[|levels| - 1]| == 1
  {
    var current := base;
    levels := [current];
    ghost var e: nat := d;
    while |current| > 1
      invariant |current| == Pow2(e) && |levels| > 0 && levels[|levels| - 1] == current && levels[0] == base
      invariant forall i :: 0 <= i < |levels| - 1 ==> Steps(X, levels[i], levels[i + 1])
      decreases e
    {
      assert e != 0;
      current := Above(X, current);
      levels := levels + [current];
      e := e - 1;
    }
    Pow2Larger(e);
    StepsLinked(X, levels, 0);
    LinkedHalving(X, levels);
    assert levels[0..] == levels;
  }

  ghost predicate Steps<L, H>(X: Hasher<L, H>, low: seq<H>, high: seq<H>) {
    |low| == 2 * |high| && high == Above(X, low)
  }

  lemma {:induction false} StepsLinked<L, H>(X: Hasher<L, H>, levels: seq<seq<H>>, r: nat)
    requires r <= |levels| && forall i :: 0 <= i < |levels| - 1 ==> Steps(X, levels[i], levels[i + 1])
    ensures Linked(X, levels[r..]) && (r == 0 ==> Linked(X, levels))
    decreases |levels| - r
  {
    if r < |levels| {
      StepsLinked(X, levels, r + 1);
      assert levels[r..][1..] == levels[r + 1..];
      if r + 1 < |levels| {
        assert Steps(X, levels[r], levels[r + 1]);
      }
    }
    assert levels[0..] == levels;
  }

  /** The proof of one leaf; the out-of-range branch never applies to a padded tree. */
  method OnePath<L, H>(X: Hasher<L, H>, levels: seq<seq<H>>, i: nat) returns (proof: seq<H>)
    requires levels != [] && Halving(levels) && i < |levels[0]|
    ensures proof == Path(levels, i)
  {
    proof := [];
    var idx: nat := i;
    assert levels[0..] == levels;
    for r := 0 to |levels| - 1
      invariant Halving(levels[r..]) && idx < |levels[r]|
      invariant Path(levels, i) == proof + Path(levels[r..], idx)
    {
      var level := levels[r];
      assert levels[r..][1..] == levels[r + 1..] && levels[r..][1] == levels[r + 1];
      var siblingIdx := if idx % 2 == 0 then idx + 1 else idx - 1;
      if siblingIdx < |level| {
        proof := proof + [level[siblingIdx]];
      } else {
        proof := proof + [X.blank];
      }
      idx := idx / 2;
    }
  }

  lemma {:induction false} HalvingDepth<H>(layers: seq<seq<H>>, d: nat)
    requires layers != [] && Halving(layers) && |layers[|layers| - 1]| == 1 && |layers[0]| == Pow2(d)
    ensures |layers| == d + 1
    decreases |layers|
  {
    if |layers| == 1 {
      assert d > 0 ==> Pow2(d) >= 2;
    } else {
      assert |layers[1]| >= 1 by { LastPositive(layers[1..]); }
      assert d > 0;
      HalvingDepth(layers[1..], d - 1);
    }
  }

  lemma {:induction false} LastPositive<H>(layers: seq<seq<H>>)
    requires layers != [] && Halving(layers) && |layers[|layers| - 1]| == 1
    ensures |layers[0]| >= 1
    decreases |layers|
  {
    if |layers| > 1 {
      LastPositive(layers[1..]);
    }
  }

  /** The depth of the padded tree over n leaves is the exponent of `next_power_of_two`. */
  lemma PaddedDepth<L, H>(X: Hasher<L, H>, leaves: seq<H>, layers: seq<seq<H>>)
    requires IsPaddedTree(X, leaves, layers)
    ensures |layers| == CeilLog(|leaves|) + 1
  {
    HalvingDepth(layers, CeilLog(|leaves|));
  }

  /** The bottom layer has the least power of two from n on as its length: the leaves, filled up with blanks. */
  lemma PaddedLeaves<L, H>(X: Hasher<L, H>, leaves: seq<H>, layers: seq<seq<H>>)
    requires IsPaddedTree(X, leaves, layers)
    ensures |leaves| <= |layers[0]| == Pow2(CeilLog(|leaves|)) && (|leaves| > 1 ==> |layers[0]| < 2 * |leaves|)
    ensures forall i :: 0 <= i < |layers[0]| ==> layers[0][i] == if i < |leaves| then leaves[i] else X.blank
  {
    CeilLogBounds(|leaves|);
  }
}
