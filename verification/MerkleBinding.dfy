/** What an accepted batched opening proves (`verify_batch` of `merkle-tree/src/batch.rs`), for every index list. */
module MerkleBinding {
  import opened Wrappers
  import opened Powers
  import opened MerkleTree
  import opened MerkleBatch

  // ----- what the verifier hashes -----

  /** The two hashes combined for the first query of a layer. */
  function HeadPair<L, H>(X: Hasher<L, H>, hs: seq<H>, qs: seq<nat>, proof: seq<H>, p: nat): (H, H)
    requires |hs| == |qs| > 0
  {
    if Paired(qs) then (hs[0], hs[1])
    else if qs[0] % 2 != 0 then (Read(X, proof, p), hs[0])
    else (hs[0], Read(X, proof, p))
  }

  /** The pairs hashed in one layer of verification. */
  ghost function FoldPairs<L, H(!new)>(X: Hasher<L, H>, hs: seq<H>, qs: seq<nat>, proof: seq<H>, p: nat): set<(H, H)>
    requires |hs| == |qs|
    decreases |qs|
  {
    if qs == [] then {}
    else if Paired(qs) then {HeadPair(X, hs, qs, proof, p)} + FoldPairs(X, hs[1..][1..], qs[1..][1..], proof, p)
    else {HeadPair(X, hs, qs, proof, p)} + FoldPairs(X, hs[1..], qs[1..], proof, p + 1)
  }

  /** The pairs hashed in `depth` layers. */
  ghost function ClimbPairs<L, H(!new)>(X: Hasher<L, H>, depth: nat, hs: seq<H>, qs: seq<nat>, proof: seq<H>, p: nat): set<(H, H)>
    requires |hs| == |qs|
    decreases depth
  {
    if depth == 0 then {}
    else
      var above := ClimbPairs(X, depth - 1, Fold(X, hs, qs, proof, p), Parents(qs), proof, p + Missing(qs));
      FoldPairs(X, hs, qs, proof, p) + above
  }

  lemma HeadIs<L, H(!new)>(X: Hasher<L, H>, hs: seq<H>, qs: seq<nat>, proof: seq<H>, p: nat)
    requires |hs| == |qs| > 0
    ensures var h := HeadPair(X, hs, qs, proof, p);
      && Fold(X, hs, qs, proof, p)[0] == X.Node(h.0, h.1)
      && h in FoldPairs(X, hs, qs, proof, p)
    ensures Paired(qs) ==> FoldPairs(X, hs[1..][1..], qs[1..][1..], proof, p) <= FoldPairs(X, hs, qs, proof, p)
    ensures !Paired(qs) ==> FoldPairs(X, hs[1..], qs[1..], proof, p + 1) <= FoldPairs(X, hs, qs, proof, p)
    ensures Paired(qs) ==> HeadPair(X, hs, qs, proof, p) == (hs[0], hs[1])
    ensures !Paired(qs) ==>
      HeadPair(X, hs, qs, proof, p) == if qs[0] % 2 != 0 then (Read(X, proof, p), hs[0]) else (hs[0], Read(X, proof, p))
  {
  }

  /** The pair of the tree above which query q lies. */
  lemma PairAt<L, H(!new)>(X: Hasher<L, H>, layer: seq<H>, q: nat)
    requires |layer| % 2 == 0 && q < |layer|
    ensures Sibling(q) < |layer|
    ensures var t := if q % 2 == 0 then (layer[q], layer[q + 1]) else (layer[q - 1], layer[q]);
      t in LayerPairs(layer) && Above(X, layer)[q / 2] == X.Node(t.0, t.1)
  {
    var i := q / 2;
    assert (layer[2 * i], layer[2 * i + 1]) in LayerPairs(layer);
    AboveAt(X, layer, q);
  }

  lemma NodeParts<L, H(!new)>(X: Hasher<L, H>, seen: set<(H, H)>, p: (H, H), q: (H, H))
    requires NodesApart(X, seen) && p in seen && q in seen && X.Node(p.0, p.1) == X.Node(q.0, q.1)
    ensures p == q
  {
  }

  // ----- binding and canonicity -----

  /** If the computed layer is the tree's, then so are the inputs and every sibling read. */
  lemma {:induction false} FoldBinding<L, H(!new)>(
    X: Hasher<L, H>, seen: set<(H, H)>, layer: seq<H>, hs: seq<H>, qs: seq<nat>, proof: seq<H>, p: nat)
    requires |layer| % 2 == 0 && InRange(qs, |layer|) && |hs| == |qs|
    requires NodesApart(X, seen) && LayerPairs(layer) <= seen && FoldPairs(X, hs, qs, proof, p) <= seen
    requires InRange(Parents(qs), |layer| / 2)
    requires Fold(X, hs, qs, proof, p) == Pick(Above(X, layer), Parents(qs))
    ensures hs == Pick(layer, qs) && Reads(X, proof, p, Missing(qs)) == Siblings(layer, qs)
    decreases |qs|
  {
    hide *;
    if qs == [] {
      NothingToRead(X, layer, proof, p);
    } else {
      if Paired(qs) {
        PairedMeans(qs);
      }
      ParentsStep(qs);
      FoldStep(X, hs, qs, proof, p);
      SiblingsStep(X, layer, qs, proof, p);
      PickStep(layer, qs);
      PickStep(Above(X, layer), Parents(qs));
      var up, f := Above(X, layer), Fold(X, hs, qs, proof, p);
      var rest := if Paired(qs) then qs[1..][1..] else qs[1..];
      assert Parents(qs)[0] == qs[0] / 2 && Parents(qs)[1..] == Parents(rest);
      assert f[0] == up[qs[0] / 2] && f[1..] == Pick(up, Parents(rest));
      HeadIs(X, hs, qs, proof, p);
      PairAt(X, layer, qs[0]);
      SiblingIs(qs[0]);
      var t := if qs[0] % 2 == 0 then (layer[qs[0]], layer[qs[0] + 1]) else (layer[qs[0] - 1], layer[qs[0]]);
      NodeParts(X, seen, HeadPair(X, hs, qs, proof, p), t);
      if Paired(qs) {
        PickStep(layer, qs[1..]);
        FoldBinding(X, seen, layer, hs[1..][1..], rest, proof, p);
        assert hs == [hs[0]] + ([hs[1]] + hs[1..][1..]);
      } else {
        FoldBinding(X, seen, layer, hs[1..], rest, proof, p + 1);
        assert hs == [hs[0]] + hs[1..];
      }
    }
  }

  lemma NothingToRead<L, H>(X: Hasher<L, H>, layer: seq<H>, proof: seq<H>, p: nat)
    requires |layer| % 2 == 0 && InRange([], |layer|)
    ensures Pick(layer, []) == [] && Reads(X, proof, p, Missing([])) == [] == Siblings(layer, [])
  {
  }

  lemma TreePairsStep<H(!new)>(layers: seq<seq<H>>)
    requires |layers| > 1
    ensures LayerPairs(layers[0]) <= TreePairs(layers) && TreePairs(layers[1..]) <= TreePairs(layers)
  {
    hide LayerPairs;
  }

  /** From the root down: an accepted climb fixes every hash and every sibling. */
  lemma {:induction false} ClimbBinding<L, H(!new)>(
    X: Hasher<L, H>, seen: set<(H, H)>, layers: seq<seq<H>>, hs: seq<H>, qs: seq<nat>, proof: seq<H>, p: nat)
    requires layers != [] && Linked(X, layers) && Halving(layers)
    requires InRange(qs, |layers[0]|) && |hs| == |qs|
    requires NodesApart(X, seen) && TreePairs(layers) <= seen && ClimbPairs(X, |layers| - 1, hs, qs, proof, p) <= seen
    requires var d := |layers| - 1; var r := Climb(X, d, hs, qs, proof, p);
      InRange(r.1, |layers[d]|) ==> r.0 == Pick(layers[d], r.1)
    ensures hs == Pick(layers[0], qs)
    ensures var n := |Proof(layers, qs)|;
      Climb(X, |layers| - 1, hs, qs, proof, p).2 == p + n && Reads(X, proof, p, n) == Proof(layers, qs)
    decreases |layers|
  {
    hide Fold, Siblings, Pick, InRange, Parents, Missing, Proof, Climb, Reads, Above, NodesApart, FoldPairs, LayerPairs, TreePairs, ClimbPairs;
    ClimbStep(X, |layers| - 1, hs, qs, proof, p);
    if |layers| == 1 {
      NoQueries(layers, qs);
      ReadsNone(X, proof, p);
    } else {
      TreePairsStep(layers);
      ClimbUnfold(X, |layers| - 1, hs, qs, proof, p);
      ProofStep(layers, qs);
      MissingCount(layers[0], qs);
      ClimbBinding(X, seen, layers[1..], Fold(X, hs, qs, proof, p), Parents(qs), proof, p + Missing(qs));
      FoldBinding(X, seen, layers[0], hs, qs, proof, p);
      ReadsSplit(X, proof, p, Missing(qs), |Proof(layers[1..], Parents(qs))|);
    }
  }

  lemma ReadsNone<L, H>(X: Hasher<L, H>, proof: seq<H>, p: nat)
    ensures Reads(X, proof, p, 0) == []
  {
  }

  lemma {:induction false} ClimbQueries<L, H>(X: Hasher<L, H>, layers: seq<seq<H>>, hs: seq<H>, qs: seq<nat>, proof: seq<H>, p: nat)
    requires layers != [] && Halving(layers) && InRange(qs, |layers[0]|) && |hs| == |qs|
    ensures InRange(Climb(X, |layers| - 1, hs, qs, proof, p).1, |layers[|layers| - 1]|)
    decreases |layers|
  {
    if |layers| > 1 {
      ProofStep(layers, qs);
      ClimbQueries(X, layers[1..], Fold(X, hs, qs, proof, p), Parents(qs), proof, p + Missing(qs));
    }
  }

  lemma BindingAbove<L, H(!new)>(X: Hasher<L, H>, layers: seq<seq<H>>, hs: seq<H>, indices: seq<nat>, proof: seq<H>)
    requires |layers| > 1 && Linked(X, layers) && Halving(layers) && |layers[|layers| - 1]| == 1
    requires InRange(indices, |layers[0]|) && |hs| == |indices|
    requires NodesApart(X, TreePairs(layers) + ClimbPairs(X, |layers| - 1, hs, indices, proof, 0))
    requires var r := Climb(X, |layers| - 1, hs, indices, proof, 0);
      |r.1| == 1 && r.2 == |proof| && r.0 == [layers[|layers| - 1][0]]
    ensures hs == Pick(layers[0], indices) && proof == Proof(layers, indices)
  {
    hide *;
    var d := |layers| - 1;
    ClimbQueries(X, layers, hs, indices, proof, 0);
    TopPick(layers[d], Climb(X, d, hs, indices, proof, 0).1);
    ClimbBinding(X, TreePairs(layers) + ClimbPairs(X, d, hs, indices, proof, 0), layers, hs, indices, proof, 0);
    ReadsAll(X, proof, 0);
    assert proof[0..] == proof;
  }

  lemma TreeBase<L, H>(X: Hasher<L, H>, tree: seq<L>, layers: seq<seq<H>>, d: nat)
    requires IsTree(X, tree, layers, d)
    ensures |layers| == d + 1 && layers[0] == HashLeaves(X, tree) && |layers[0]| == |tree|
    ensures d == 0 ==> |tree| == 1
  {
  }

  lemma AcceptsMeans<L, H>(X: Hasher<L, H>, layers: seq<seq<H>>, d: nat, proof: seq<H>, leaves: seq<L>, indices: seq<nat>)
    requires |leaves| == |indices| && Accepts(X, Root(layers), proof, d, leaves, indices) && |layers| == d + 1 && |layers[d]| == 1
    ensures d == 0 ==> |leaves| == 1 && indices == [0] && X.Leaf(leaves[0]) == layers[0][0]
    ensures d > 0 ==>
      var r := Climb(X, d, HashLeaves(X, leaves), indices, proof, 0);
      |r.1| == 1 && r.2 == |proof| && r.0 == [layers[d][0]]
  {
    var hs := HashLeaves(X, leaves);
    assert hs[..|indices|] == hs;
  }

  lemma HashesFix<L(!new), H>(X: Hasher<L, H>, seen: set<L>, a: seq<L>, b: seq<L>)
    requires LeavesApart(X, seen) && HashLeaves(X, a) == HashLeaves(X, b)
    requires forall l :: l in a || l in b ==> l in seen
    ensures a == b
  {
    assert |a| == |HashLeaves(X, a)| == |b|;
    forall i | 0 <= i < |a| ensures a[i] == b[i] {
      assert HashLeaves(X, a)[i] == HashLeaves(X, b)[i];
    }
  }

  lemma {:induction false} PickedFrom<L>(leaves: seq<L>, indices: seq<nat>)
    requires InRange(indices, |leaves|)
    ensures forall l :: l in LeavesAt(leaves, indices) ==> l in leaves
  {
    if indices != [] {
      PickedFrom(leaves, indices[1..]);
    }
  }

  lemma BindingInRange<L(!new), H(!new)>(
    X: Hasher<L, H>, tree: seq<L>, layers: seq<seq<H>>, d: nat, proof: seq<H>, leaves: seq<L>, indices: seq<nat>)
    requires IsTree(X, tree, layers, d) && InRange(indices, |tree|) && |leaves| == |indices|
    requires NodesApart(X, TreePairs(layers) + ClimbPairs(X, d, HashLeaves(X, leaves), indices, proof, 0))
    requires LeavesApart(X, (set l | l in tree) + (set l | l in leaves))
    requires Accepts(X, Root(layers), proof, d, leaves, indices)
    ensures leaves == LeavesAt(tree, indices)
    ensures Halving(layers) && InRange(indices, |layers[0]|)
    ensures d > 0 ==> proof == Proof(layers, indices)
  {
    hide *;
    TreeLinked(X, tree, layers, d, 0);
    TreeBase(X, tree, layers, d);
    assert layers[0..] == layers;
    LinkedHalving(X, layers);
    HashPick(X, tree, indices);
    AcceptsMeans(X, layers, d, proof, leaves, indices);
    PickedFrom(tree, indices);
    if d == 0 {
      SingleLeaf(X, tree, layers, indices);
      OneLeafHash(X, leaves, tree, layers);
    } else {
      BindingAbove(X, layers, HashLeaves(X, leaves), indices, proof);
    }
    HashesFix(X, (set l | l in tree) + (set l | l in leaves), leaves, LeavesAt(tree, indices));
  }

  lemma OneLeafHash<L, H>(X: Hasher<L, H>, leaves: seq<L>, tree: seq<L>, layers: seq<seq<H>>)
    requires |leaves| == |tree| == 1 && layers != [] && layers[0] == HashLeaves(X, tree) && X.Leaf(leaves[0]) == layers[0][0]
    ensures HashLeaves(X, leaves) == HashLeaves(X, tree)
  {
  }

  // ----- index lists beyond the tree -----

  /** The same list, moved by c. */
  ghost predicate Moved(qs: seq<nat>, rs: seq<nat>, c: nat) {
    |qs| == |rs| && forall i :: 0 <= i < |qs| ==> qs[i] == rs[i] + c
  }

  lemma MovedPaired(qs: seq<nat>, rs: seq<nat>, c: nat)
    requires Moved(qs, rs, 2 * c)
    ensures Paired(qs) <==> Paired(rs)
    ensures qs != [] ==> qs[0] % 2 == rs[0] % 2 && qs[0] / 2 == rs[0] / 2 + c && Moved(qs[1..], rs[1..], 2 * c)
    ensures Paired(qs) ==> Moved(qs[1..][1..], rs[1..][1..], 2 * c)
  {
  }

  lemma MovedCons(a: nat, qs: seq<nat>, rs: seq<nat>, c: nat)
    requires Moved(qs, rs, c)
    ensures Moved([a + c] + qs, [a] + rs, c)
  {
  }

  lemma FoldPairsStep<L, H(!new)>(X: Hasher<L, H>, hs: seq<H>, qs: seq<nat>, proof: seq<H>, p: nat)
    requires |hs| == |qs| > 0
    ensures Paired(qs) ==> |qs| > 1 && FoldPairs(X, hs, qs, proof, p) == {(hs[0], hs[1])} + FoldPairs(X, hs[1..][1..], qs[1..][1..], proof, p)
    ensures !Paired(qs) ==>
      var t := if qs[0] % 2 != 0 then (Read(X, proof, p), hs[0]) else (hs[0], Read(X, proof, p));
      FoldPairs(X, hs, qs, proof, p) == {t} + FoldPairs(X, hs[1..], qs[1..], proof, p + 1)
  {
  }

  lemma NoFold<L, H(!new)>(X: Hasher<L, H>, hs: seq<H>, qs: seq<nat>, rs: seq<nat>, proof: seq<H>, p: nat, c: nat)
    requires hs == [] && qs == [] && rs == []
    ensures Moved(Parents(qs), Parents(rs), c) && Missing(qs) == Missing(rs)
    ensures Fold(X, hs, qs, proof, p) == Fold(X, hs, rs, proof, p) && FoldPairs(X, hs, qs, proof, p) == FoldPairs(X, hs, rs, proof, p)
  {
  }

  /** A layer of verification depends only on the parity and the adjacency of the queries. */
  lemma {:induction false} FoldMoved<L, H(!new)>(X: Hasher<L, H>, hs: seq<H>, qs: seq<nat>, rs: seq<nat>, proof: seq<H>, p: nat, c: nat)
    requires |hs| == |qs| && Moved(qs, rs, 2 * c)
    ensures |qs| == |rs| && Moved(Parents(qs), Parents(rs), c) && Missing(qs) == Missing(rs)
    ensures Fold(X, hs, qs, proof, p) == Fold(X, hs, rs, proof, p) && FoldPairs(X, hs, qs, proof, p) == FoldPairs(X, hs, rs, proof, p)
    decreases |qs|
  {
    MovedPaired(qs, rs, c);
    if qs == [] {
      NoFold(X, hs, qs, rs, proof, p, c);
    } else {
      hide *;
      ParentsStep(qs);
      ParentsStep(rs);
      FoldStep(X, hs, qs, proof, p);
      FoldStep(X, hs, rs, proof, p);
      FoldPairsStep(X, hs, qs, proof, p);
      FoldPairsStep(X, hs, rs, proof, p);
      if Paired(qs) {
        FoldMoved(X, hs[1..][1..], qs[1..][1..], rs[1..][1..], proof, p, c);
        MovedCons(rs[0] / 2, Parents(qs[1..][1..]), Parents(rs[1..][1..]), c);
      } else {
        FoldMoved(X, hs[1..], qs[1..], rs[1..], proof, p + 1, c);
        MovedCons(rs[0] / 2, Parents(qs[1..]), Parents(rs[1..]), c);
      }
    }
  }

  lemma ClimbUnfold<L, H(!new)>(X: Hasher<L, H>, depth: nat, hs: seq<H>, qs: seq<nat>, proof: seq<H>, p: nat)
    requires |hs| == |qs|
    ensures depth == 0 ==> ClimbPairs(X, depth, hs, qs, proof, p) == {} && Climb(X, depth, hs, qs, proof, p) == (hs, qs, p)
    ensures depth > 0 ==>
      var up, next := Fold(X, hs, qs, proof, p), p + Missing(qs);
      && ClimbPairs(X, depth, hs, qs, proof, p) == FoldPairs(X, hs, qs, proof, p) + ClimbPairs(X, depth - 1, up, Parents(qs), proof, next)
      && Climb(X, depth, hs, qs, proof, p) == Climb(X, depth - 1, up, Parents(qs), proof, next)
  {
    hide FoldPairs, Fold, Parents, Missing;
  }

  /** Moving every query by a multiple of 2^depth changes nothing but the queries. */
  lemma {:induction false} ClimbMoved<L, H(!new)>(X: Hasher<L, H>, depth: nat, hs: seq<H>, qs: seq<nat>, rs: seq<nat>, proof: seq<H>, p: nat, c: nat)
    requires |hs| == |qs| && Moved(qs, rs, Pow2(depth) * c)
    ensures |qs| == |rs|
    ensures var a, b := Climb(X, depth, hs, qs, proof, p), Climb(X, depth, hs, rs, proof, p);
      a.0 == b.0 && |a.1| == |b.1| && a.2 == b.2
    ensures ClimbPairs(X, depth, hs, qs, proof, p) == ClimbPairs(X, depth, hs, rs, proof, p)
    decreases depth
  {
    hide FoldPairs, Fold, Parents, Missing, Climb, ClimbPairs;
    ClimbUnfold(X, depth, hs, qs, proof, p);
    ClimbUnfold(X, depth, hs, rs, proof, p);
    if depth > 0 {
      var half := Pow2(depth - 1) * c;
      assert Pow2(depth) * c == 2 * half;
      FoldMoved(X, hs, qs, rs, proof, p, half);
      ClimbMoved(X, depth - 1, Fold(X, hs, qs, proof, p), Parents(qs), Parents(rs), proof, p + Missing(qs), c);
    }
  }

  lemma {:induction false} ClimbAncestors<L, H>(X: Hasher<L, H>, depth: nat, hs: seq<H>, qs: seq<nat>, proof: seq<H>, p: nat)
    requires |hs| == |qs|
    ensures Climb(X, depth, hs, qs, proof, p).1 == Ancestors(qs, depth)
    decreases depth
  {
    if depth > 0 {
      ClimbAncestors(X, depth - 1, Fold(X, hs, qs, proof, p), Parents(qs), proof, p + Missing(qs));
    }
  }

  lemma {:induction false} ParentIn(qs: seq<nat>, q: nat)
    requires q in qs
    ensures q / 2 in Parents(qs)
    decreases |qs|
  {
    ParentsStep(qs);
    if Paired(qs) {
      if q != qs[0] && q != qs[1] {
        var i :| 0 <= i < |qs| && qs[i] == q;
        assert q == qs[1..][1..][i - 2];
        ParentIn(qs[1..][1..], q);
      }
    } else if q != qs[0] {
      ParentIn(qs[1..], q);
    }
  }

  lemma HalfOfQuotient(q: nat, r: nat)
    ensures (q / 2) / Pow2(r) == q / Pow2(r + 1)
  {
    hide Pow2;
    Pow2Step(r);
    HalfThenDivide(q, Pow2(r));
  }

  lemma HalfThenDivide(q: nat, p: nat)
    requires p > 0
    ensures (q / 2) / p == q / (2 * p)
  {
    var a, b := DoubleSplit(q, p);
    QuotientIs(q, 2 * p, a, b);
    QuotientIs(q / 2, p, a, b / 2);
  }

  lemma QuotientIs(x: nat, m: nat, i: nat, t: nat)
    requires t < m && x == m * i + t
    ensures x / m == i
  {
    DivModSplit(m, i, t);
  }

  lemma DoubleSplit(q: nat, p: nat) returns (a: nat, b: nat)
    requires p > 0
    ensures q == 2 * p * a + b && b < 2 * p && q / 2 == p * a + b / 2
  {
    a, b := q / (2 * p), q % (2 * p);
    assert 2 * p * a == 2 * (p * a);
  }

  lemma {:induction false} AncestorIn(qs: seq<nat>, r: nat, q: nat)
    requires q in qs
    ensures q / Pow2(r) in Ancestors(qs, r)
    decreases r
  {
    hide Parents;
    if r > 0 {
      ParentIn(qs, q);
      AncestorIn(Parents(qs), r - 1, q / 2);
      HalfOfQuotient(q, r - 1);
    }
  }

  ghost predicate SameQuotient(qs: seq<nat>, n: nat)
    requires n > 0
  {
    forall i, j :: 0 <= i < j < |qs| ==> qs[i] / n == qs[j] / n
  }

  function Remainders(qs: seq<nat>, n: nat): (r: seq<nat>)
    requires n > 0
    ensures |r| == |qs| && forall i :: 0 <= i < |qs| ==> r[i] == qs[i] % n
  {
    seq(|qs|, i requires 0 <= i < |qs| => qs[i] % n)
  }

  lemma SameQuotientMoves(qs: seq<nat>, n: nat)
    requires n > 0 && qs != [] && SameQuotient(qs, n)
    ensures Moved(qs, Remainders(qs, n), n * (qs[0] / n))
  {
    forall i | 0 <= i < |qs| ensures qs[i] == qs[i] % n + n * (qs[0] / n) {
      assert qs[i] / n == qs[0] / n;
    }
  }

  /** For every index list: `verify_batch` accepts exactly when all indices lie in the same block of 2^depth and the list of
      positions in that block is accepted; it never compares an index with the size of the tree. */
  lemma AcceptedByBlock<L, H(!new)>(X: Hasher<L, H>, root: Option<H>, proof: seq<H>, d: nat, leaves: seq<L>, indices: seq<nat>)
    requires d > 0 && |indices| <= |leaves|
    ensures Accepts(X, root, proof, d, leaves, indices) <==>
      SameQuotient(indices, Pow2(d)) && Accepts(X, root, proof, d, leaves, Remainders(indices, Pow2(d)))
    ensures SameQuotient(indices, Pow2(d)) && indices != [] ==>
      var hs := HashLeaves(X, leaves)[..|indices|];
      ClimbPairs(X, d, hs, indices, proof, 0) == ClimbPairs(X, d, hs, Remainders(indices, Pow2(d)), proof, 0)
  {
    hide Climb, ClimbPairs, Ancestors, Pow2, SameQuotient;
    var hs, n := HashLeaves(X, leaves)[..|indices|], Pow2(d);
    if SameQuotient(indices, n) && indices != [] {
      SameQuotientMoves(indices, n);
      ClimbMoved(X, d, hs, indices, Remainders(indices, n), proof, 0, indices[0] / n);
    } else if indices == [] {
      assert Remainders(indices, n) == indices;
    } else if Accepts(X, root, proof, d, leaves, indices) {
      ClimbAncestors(X, d, hs, indices, proof, 0);
      OneAncestor(indices, d);
    }
    if indices == [] {
      NoneAccepted(X, d, hs, indices, proof);
    }
  }

  lemma OneAncestor(qs: seq<nat>, d: nat)
    requires |Ancestors(qs, d)| == 1
    ensures SameQuotient(qs, Pow2(d))
  {
    hide Ancestors, Pow2;
    var n := Pow2(d);
    forall i, j | 0 <= i < j < |qs| ensures qs[i] / n == qs[j] / n {
      AncestorIn(qs, d, qs[i]);
      AncestorIn(qs, d, qs[j]);
    }
  }

  lemma {:induction false} NoneAccepted<L, H>(X: Hasher<L, H>, depth: nat, hs: seq<H>, qs: seq<nat>, proof: seq<H>)
    requires hs == [] && qs == []
    ensures Climb(X, depth, hs, qs, proof, 0).1 == []
    decreases depth
  {
    if depth > 0 {
      NoneAccepted(X, depth - 1, Fold(X, hs, qs, proof, 0), Parents(qs), proof);
    }
  }

  lemma {:induction false} RemaindersInRange(qs: seq<nat>, n: nat)
    requires n > 0
    ensures InRange(Remainders(qs, n), n)
    decreases |qs|
  {
    if qs != [] {
      RemaindersInRange(qs[1..], n);
      assert Remainders(qs, n)[1..] == Remainders(qs[1..], n);
    }
  }

  /** Unless two of the values that tree and verifier hash collide, an accepted opening shows, for every index list, exactly
      the tree's leaves at the positions of the indices in their block; for a tree of positive depth the sibling list is
      exactly the prover's. */
  lemma Binding<L(!new), H(!new)>(
    X: Hasher<L, H>, tree: seq<L>, layers: seq<seq<H>>, d: nat, proof: seq<H>, leaves: seq<L>, indices: seq<nat>)
    requires IsTree(X, tree, layers, d) && |leaves| == |indices|
    requires NodesApart(X, TreePairs(layers) + ClimbPairs(X, d, HashLeaves(X, leaves), indices, proof, 0))
    requires LeavesApart(X, (set l | l in tree) + (set l | l in leaves))
    requires Accepts(X, Root(layers), proof, d, leaves, indices)
    ensures |tree| == Pow2(d) && SameQuotient(indices, |tree|)
    ensures var at := Remainders(indices, |tree|);
      && InRange(at, |tree|) && leaves == LeavesAt(tree, at)
      && Halving(layers) && InRange(at, |layers[0]|) && (d > 0 ==> proof == Proof(layers, at))
  {
    hide *;
    TreeBase(X, tree, layers, d);
    TreeSize(X, tree, layers, d);
    var at := Remainders(indices, |tree|);
    RemaindersInRange(indices, |tree|);
    WholeLeaves(X, leaves, indices);
    if d == 0 {
      OnlyZero(X, layers, proof, leaves, indices);
    } else {
      AcceptedByBlock(X, Root(layers), proof, d, leaves, indices);
      if indices == [] {
        assert at == indices;
      }
    }
    BindingInRange(X, tree, layers, d, proof, leaves, at);
  }

  lemma TreeSize<L, H>(X: Hasher<L, H>, tree: seq<L>, layers: seq<seq<H>>, d: nat)
    requires IsTree(X, tree, layers, d)
    ensures |tree| == Pow2(d)
  {
  }

  lemma WholeLeaves<L, H>(X: Hasher<L, H>, leaves: seq<L>, indices: seq<nat>)
    requires |leaves| == |indices|
    ensures HashLeaves(X, leaves)[..|indices|] == HashLeaves(X, leaves)
  {
  }

  lemma OnlyZero<L, H>(X: Hasher<L, H>, layers: seq<seq<H>>, proof: seq<H>, leaves: seq<L>, indices: seq<nat>)
    requires |leaves| == |indices| && Accepts(X, Root(layers), proof, 0, leaves, indices)
    ensures indices == [0] == Remainders(indices, 1) && SameQuotient(indices, 1)
  {
  }

  /** The positions of every honest opening, moved by whole blocks, are accepted as well: on a tree of two leaves a, b the leaf
      a opens at index 2. */
  lemma BeyondTheTree<L, H(!new)>(X: Hasher<L, H>, leaves: seq<L>, layers: seq<seq<H>>, d: nat, qs: seq<nat>, indices: seq<nat>, c: nat)
    requires d > 0 && IsTree(X, leaves, layers, d) && InRange(qs, |leaves|) && Moved(indices, qs, |leaves| * c)
    requires qs != [] && Increasing(qs)
    ensures Halving(layers) && InRange(qs, |layers[0]|)
    ensures Accepts(X, Root(layers), Proof(layers, qs), d, LeavesAt(leaves, qs), indices)
  {
    hide Climb, ClimbPairs, Proof, LeavesAt, HashLeaves, Pow2;
    Completeness(X, leaves, layers, d, qs);
    TreeSize(X, leaves, layers, d);
    var given := LeavesAt(leaves, qs);
    ClimbMoved(X, d, HashLeaves(X, given)[..|qs|], indices, qs, Proof(layers, qs), 0, c);
  }

  /** Depth 0 and empty roots: only the one leaf at index 0 is accepted, and nothing without a root. */
  lemma DepthZeroExactly<L, H>(X: Hasher<L, H>, root: Option<H>, proof: seq<H>, depth: nat, leaves: seq<L>, indices: seq<nat>)
    requires |indices| <= |leaves|
    ensures Accepts(X, root, proof, 0, leaves, indices) <==> |leaves| == 1 && indices == [0] && root == Some(X.Leaf(leaves[0]))
    ensures root.None? ==> !Accepts(X, root, proof, depth, leaves, indices)
  {
  }

  /** Canonicity fails for a tree of a single leaf: `verify_batch` never looks at its sibling list. */
  lemma SingleLeafIgnoresProof<L, H>(X: Hasher<L, H>, leaf: L, layers: seq<seq<H>>, proof: seq<H>)
    requires IsTree(X, [leaf], layers, 0)
    ensures Accepts(X, Root(layers), proof, 0, [leaf], [0])
  {
  }
}
