/** Complete Merkle trees (`merkle-tree/src/lib.rs`). Hashes are arbitrary functions. */
module MerkleTree {
  import opened Wrappers
  import opened Powers

  /** `hash_leaf`, `hash_siblings` and the all-zero hash used for missing siblings. */
  datatype Hasher<!L, !H> = Hasher(leaf: L -> H, node: (H, H) -> H, blank: H) {
    function Leaf(l: L): H { leaf(l) }
    function Node(a: H, b: H): H { node(a, b) }
  }

  /** No two different pairs among `seen` have the same node hash. */
  ghost predicate NodesApart<L, H(!new)>(X: Hasher<L, H>, seen: set<(H, H)>) {
    forall p, q :: p in seen && q in seen && X.Node(p.0, p.1) == X.Node(q.0, q.1) ==> p == q
  }

  /** No two different leaves among `seen` have the same leaf hash. */
  ghost predicate LeavesApart<L(!new), H>(X: Hasher<L, H>, seen: set<L>) {
    forall a, b :: a in seen && b in seen && X.Leaf(a) == X.Leaf(b) ==> a == b
  }

  /** The pairs of a layer that are hashed together. */
  ghost function LayerPairs<H(!new)>(layer: seq<H>): set<(H, H)> {
    set i | 0 <= i < |layer| / 2 :: (layer[2 * i], layer[2 * i + 1])
  }

  /** All pairs hashed in building the layers. */
  ghost function TreePairs<H(!new)>(layers: seq<seq<H>>): set<(H, H)>
    decreases |layers|
  {
    if |layers| <= 1 then {} else LayerPairs(layers[0]) + TreePairs(layers[1..])
  }

  function HashLeaves<L, H>(X: Hasher<L, H>, leaves: seq<L>): (r: seq<H>)
    ensures |r| == |leaves|
  {
    seq(|leaves|, i requires 0 <= i < |leaves| => X.Leaf(leaves[i]))
  }

  /** The layer above: the hashes of consecutive pairs. */
  function Above<L, H>(X: Hasher<L, H>, layer: seq<H>): (r: seq<H>)
    ensures |r| == |layer| / 2
  {
    seq(|layer| / 2, i requires 0 <= i < |layer| / 2 => X.Node(layer[2 * i], layer[2 * i + 1]))
  }

  /** `layers` is the tree over 2^d leaf hashes, leaves first. */
  ghost predicate IsTree<L, H>(X: Hasher<L, H>, leaves: seq<L>, layers: seq<seq<H>>, d: nat) {
    && |leaves| == Pow2(d)
    && |layers| == d + 1
    && layers[0] == HashLeaves(X, leaves)
    && forall i :: 0 <= i < d ==> layers[i + 1] == Above(X, layers[i])
  }

  lemma {:induction false} LayerSize<L, H>(X: Hasher<L, H>, leaves: seq<L>, layers: seq<seq<H>>, d: nat, i: nat)
    requires IsTree(X, leaves, layers, d) && i <= d
    ensures |layers[i]| == Pow2(d - i)
  {
    if i != 0 {
      LayerSize(X, leaves, layers, d, i - 1);
      assert layers[i - 1 + 1] == Above(X, layers[i - 1]);
      Pow2Step(d - i);
    }
  }

  /** `build_merkle_tree`: no layers for no leaves, otherwise the whole tree. */
  method Build<L, H>(X: Hasher<L, H>, leaves: seq<L>, ghost d: nat) returns (layers: seq<seq<H>>)
    requires leaves == [] || |leaves| == Pow2(d)
    ensures leaves == [] ==> layers == []
    ensures leaves != [] ==> IsTree(X, leaves, layers, d)
  {
    if leaves == [] {
      return [];
    }
    var current := HashLeaves(X, leaves);
    layers := [current];
    ghost var e: nat := d;
    while |current| > 1
      invariant e <= d && |current| == Pow2(e) && |layers| == d - e + 1 && layers[d - e] == current
      invariant layers[0] == HashLeaves(X, leaves)
      invariant forall i :: 0 <= i < d - e ==> layers[i + 1] == Above(X, layers[i])
      decreases e
    {
      assert e != 0;
      current := Above(X, current);
      layers := layers + [current];
      e := e - 1;
    }
    Pow2Larger(e);
  }

  /** `get_root` */
  function Root<H>(layers: seq<seq<H>>): Option<H> {
    if layers == [] || layers[|layers| - 1] == [] then None else Some(layers[|layers| - 1][0])
  }

  /** `get_depth` */
  function Depth<H>(layers: seq<seq<H>>): nat {
    if layers == [] then 0 else |layers| - 1
  }
}
