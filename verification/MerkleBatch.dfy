/** Batched openings (`merkle-tree/src/batch.rs`): prover and verifier compact the queries layer by layer. */
module MerkleBatch {
  import opened Wrappers
  import opened Powers
  import opened MerkleTree

  /** `query ^ 1` */
  function Sibling(q: nat): nat {
    if q % 2 == 0 then q + 1 else q - 1
  }

  /** The head of the list and its right sibling are both queried. */
  predicate Paired(qs: seq<nat>) {
    |qs| > 1 && qs[0] % 2 == 0 && qs[1] == Sibling(qs[0])
  }

  /** The compacted queries for the next layer. */
  function Parents(qs: seq<nat>): (r: seq<nat>)
    ensures |r| <= |qs| && (r == [] <==> qs == [])
  {
    if qs == [] then []
    else [qs[0] / 2] + Parents(if Paired(qs) then qs[1..][1..] else qs[1..])
  }

  predicate InRange(qs: seq<nat>, n: nat) {
    qs == [] || (qs[0] < n && InRange(qs[1..], n))
  }

  /** The entries of a layer at the queried positions. */
  function Pick<H>(layer: seq<H>, qs: seq<nat>): (r: seq<H>)
    requires InRange(qs, |layer|)
    ensures |r| == |qs|
  {
    if qs == [] then [] else [layer[qs[0]]] + Pick(layer, qs[1..])
  }

  /** The siblings that are not queried themselves, in order: what one layer adds to the proof. */
  function Siblings<H>(layer: seq<H>, qs: seq<nat>): seq<H>
    requires |layer| % 2 == 0 && InRange(qs, |layer|)
  {
    if qs == [] then []
    else if Paired(qs) then assert InRange(qs[1..], |layer|); Siblings(layer, qs[1..][1..])
    else [layer[Sibling(qs[0])]] + Siblings(layer, qs[1..])
  }

  lemma {:induction false} ParentsInRange(qs: seq<nat>, n: nat)
    requires InRange(qs, 2 * n)
    ensures InRange(Parents(qs), n)
  {
    if qs != [] {
      var rest := if Paired(qs) then qs[1..][1..] else qs[1..];
      ParentsInRange(rest, n);
      ParentsStep(qs);
      assert Parents(qs)[1..] == Parents(rest);
    }
  }

  lemma ParentsStep(qs: seq<nat>)
    requires qs != []
    ensures Paired(qs) ==> Parents(qs) == [qs[0] / 2] + Parents(qs[1..][1..])
    ensures !Paired(qs) ==> Parents(qs) == [qs[0] / 2] + Parents(qs[1..])
  {
  }

  /** The queries after `r` layers. */
  function Ancestors(qs: seq<nat>, r: nat): seq<nat>
    decreases r
  {
    if r == 0 then qs else Ancestors(Parents(qs), r - 1)
  }

  // ----- the prover -----

  /** Where the prover stands inside a layer: `rest` is still to be compacted. */
  ghost predicate ProverAt<H>(layer: seq<H>, q0: seq<nat>, rest: seq<nat>, done: seq<nat>, proof: seq<H>, out: seq<H>) {
    && |layer| % 2 == 0 && InRange(q0, |layer|) && InRange(rest, |layer|)
    && Parents(q0) == done + Parents(rest)
    && proof + Siblings(layer, q0) == out + Siblings(layer, rest)
  }

  lemma ProverSingle<H>(layer: seq<H>, q0: seq<nat>, rest: seq<nat>, done: seq<nat>, proof: seq<H>, out: seq<H>)
    requires ProverAt(layer, q0, rest, done, proof, out) && rest != [] && !Paired(rest)
    ensures Sibling(rest[0]) < |layer|
    ensures ProverAt(layer, q0, rest[1..], done + [rest[0] / 2], proof, out + [layer[Sibling(rest[0])]])
  {
    ParentsStep(rest);
    var s := layer[Sibling(rest[0])];
    assert Siblings(layer, rest) == [s] + Siblings(layer, rest[1..]);
    assert out + ([s] + Siblings(layer, rest[1..])) == (out + [s]) + Siblings(layer, rest[1..]);
    assert done + ([rest[0] / 2] + Parents(rest[1..])) == (done + [rest[0] / 2]) + Parents(rest[1..]);
  }

  lemma ProverPair<H>(layer: seq<H>, q0: seq<nat>, rest: seq<nat>, done: seq<nat>, proof: seq<H>, out: seq<H>)
    requires ProverAt(layer, q0, rest, done, proof, out) && Paired(rest)
    ensures ProverAt(layer, q0, rest[2..], done + [rest[0] / 2], proof, out)
  {
    ParentsStep(rest);
    assert rest[1..][1..] == rest[2..] && InRange(rest[1..], |layer|);
    assert done + ([rest[0] / 2] + Parents(rest[2..])) == (done + [rest[0] / 2]) + Parents(rest[2..]);
  }

  lemma ProverStart<H>(layer: seq<H>, q0: seq<nat>, proof: seq<H>)
    requires |layer| % 2 == 0 && InRange(q0, |layer|)
    ensures ProverAt(layer, q0, q0, [], proof, proof)
  {
  }

  lemma ProverEnd<H>(layer: seq<H>, q0: seq<nat>, rest: seq<nat>, done: seq<nat>, proof: seq<H>, out: seq<H>)
    requires ProverAt(layer, q0, rest, done, proof, out) && rest == []
    ensures |layer| % 2 == 0 && InRange(q0, |layer|)
    ensures done == Parents(q0) && out == proof + Siblings(layer, q0)
  {
  }

  /** Writing position `next` of the buffer leaves the part still to be read alone. */
  lemma Compact<T>(before: seq<T>, after: seq<T>, next: nat, i: nat, cnt: nat, x: T)
    requires next <= i < cnt <= |before| && after == before[next := x]
    ensures after[..next + 1] == before[..next] + [x]
    ensures after[i + 1..cnt] == before[i..cnt][1..]
    ensures i + 1 < cnt ==> after[i + 1] == before[i..cnt][1] && after[i + 2..cnt] == before[i..cnt][2..]
  {
  }

  /** One layer of `prove_batch`: compacts the first `cnt` queries in place and appends siblings. */
  method IthLayer<H>(layer: seq<H>, cnt: nat, queries: array<nat>, proof: seq<H>) returns (next: nat, out: seq<H>)
    requires cnt <= queries.Length && |layer| % 2 == 0 && InRange(queries[..cnt], |layer|)
    modifies queries
    ensures next <= cnt && queries[..next] == Parents(old(queries[..cnt]))
    ensures out == proof + Siblings(layer, old(queries[..cnt]))
  {
    hide Parents, Siblings, InRange, ProverAt, Sibling;
    ghost var q0 := queries[..cnt];
    next := 0;
    out := proof;
    var i := 0;
    ghost var rest := q0;
    ProverStart(layer, q0, proof);
    assert queries[..0] == [] && queries[0..cnt] == q0;
    while i < cnt
      invariant 0 <= next <= i <= cnt <= queries.Length
      invariant queries[..][i..cnt] == rest
      invariant ProverAt(layer, q0, rest, queries[..][..next], proof, out)
    {
      ghost var before := queries[..];
      var query := queries[i];
      var sibling := Sibling(query);
      queries[next] := query / 2;
      next := next + 1;
      Compact(before, queries[..], next - 1, i, cnt, query / 2);
      if i == cnt - 1 {
        ProverSingle(layer, q0, rest, before[..next - 1], proof, out);
        out := out + [layer[sibling]];
        rest := rest[1..];
        break;
      }
      if query % 2 != 0 {
        ProverSingle(layer, q0, rest, before[..next - 1], proof, out);
        out := out + [layer[sibling]];
        i := i + 1;
        rest := rest[1..];
      } else if queries[i + 1] != sibling {
        ProverSingle(layer, q0, rest, before[..next - 1], proof, out);
        out := out + [layer[sibling]];
        i := i + 1;
        rest := rest[1..];
      } else {
        ProverPair(layer, q0, rest, before[..next - 1], proof, out);
        i := i + 2;
        rest := rest[2..];
      }
    }
    ProverEnd(layer, q0, rest, queries[..][..next], proof, out);
    assert queries[..][..next] == queries[..next];
  }

  /** The siblings of all layers from `layers[0]` up to the root, concatenated. */
  function Proof<H>(layers: seq<seq<H>>, qs: seq<nat>): seq<H>
    requires Halving(layers) && layers != [] && InRange(qs, |layers[0]|)
    decreases |layers|
  {
    if |layers| == 1 then []
    else
      ParentsInRange(qs, |layers[1]|);
      Siblings(layers[0], qs) + Proof(layers[1..], Parents(qs))
  }

  /** Each layer is half as long as the one below. */
  predicate Halving<H>(layers: seq<seq<H>>) {
    |layers| <= 1 || (|layers[0]| == 2 * |layers[1]| && Halving(layers[1..]))
  }

  /** `prove_batch` */
  method ProveBatch<H>(layers: seq<seq<H>>, queries: seq<nat>) returns (siblings: seq<H>)
    requires Halving(layers) && (layers != [] ==> InRange(queries, |layers[0]|))
    ensures Depth(layers) == 0 || queries == [] ==> siblings == []
    ensures layers != [] ==> siblings == Proof(layers, queries)
  {
    hide Siblings, Parents, InRange, Proof, Halving;
    siblings := [];
    var depth := Depth(layers);
    if depth == 0 || queries == [] {
      if layers != [] {
        NoQueries(layers, queries);
      }
      return;
    }
    var buffer := new nat[|queries|](i requires 0 <= i < |queries| => queries[i]);
    var cnt: nat := buffer.Length;
    assert buffer[..cnt] == queries && layers[0..] == layers;
    for r := 0 to depth
      invariant cnt <= buffer.Length
      invariant Halving(layers[r..]) && InRange(buffer[..cnt], |layers[r]|)
      invariant Proof(layers, queries) == siblings + Proof(layers[r..], buffer[..cnt])
    {
      ghost var qs := buffer[..cnt];
      ProofStep(layers[r..], qs);
      assert layers[r..][1..] == layers[r + 1..];
      cnt, siblings := IthLayer(layers[r], cnt, buffer, siblings);
    }
    NoQueries(layers[depth..], buffer[..cnt]);
  }

  lemma ProofStep<H>(layers: seq<seq<H>>, qs: seq<nat>)
    requires Halving(layers) && |layers| > 1 && InRange(qs, |layers[0]|)
    ensures |layers[0]| == 2 * |layers[1]| && Halving(layers[1..]) && InRange(Parents(qs), |layers[1]|)
    ensures Proof(layers, qs) == Siblings(layers[0], qs) + Proof(layers[1..], Parents(qs))
  {
    ParentsInRange(qs, |layers[1]|);
  }

  lemma {:induction false} NoQueries<H>(layers: seq<seq<H>>, qs: seq<nat>)
    requires Halving(layers) && layers != [] && InRange(qs, |layers[0]|) && (|layers| == 1 || qs == [])
    ensures Proof(layers, qs) == []
    decreases |layers|
  {
    if |layers| > 1 {
      ProofStep(layers, qs);
      NoQueries(layers[1..], Parents(qs));
    }
  }

  // ----- the verifier -----

  /** `proof.get(p).copied().unwrap_or_default()` */
  function Read<L, H>(X: Hasher<L, H>, proof: seq<H>, p: nat): H {
    if p < |proof| then proof[p] else X.blank
  }

  /** How many siblings a layer consumes. */
  function Missing(qs: seq<nat>): nat {
    if qs == [] then 0 else if Paired(qs) then Missing(qs[1..][1..]) else 1 + Missing(qs[1..])
  }

  /** The hashes of the next layer that the verifier computes from `hs` and the proof from `p` on. */
  function Fold<L, H>(X: Hasher<L, H>, hs: seq<H>, qs: seq<nat>, proof: seq<H>, p: nat): (r: seq<H>)
    requires |hs| == |qs|
    ensures |r| == |Parents(qs)|
    decreases |qs|
  {
    if qs == [] then []
    else if Paired(qs) then [X.Node(hs[0], hs[1])] + Fold(X, hs[1..][1..], qs[1..][1..], proof, p)
    else
      var sibling := Read(X, proof, p);
      [if qs[0] % 2 != 0 then X.Node(sibling, hs[0]) else X.Node(hs[0], sibling)] + Fold(X, hs[1..], qs[1..], proof, p + 1)
  }

  ghost predicate VerifierAt<L, H>(
    X: Hasher<L, H>, proof: seq<H>, q0: seq<nat>, h0: seq<H>, p0: nat,
    rest: seq<nat>, hs: seq<H>, p: nat, doneQ: seq<nat>, doneH: seq<H>)
  {
    && |h0| == |q0| && |hs| == |rest|
    && Parents(q0) == doneQ + Parents(rest)
    && Fold(X, h0, q0, proof, p0) == doneH + Fold(X, hs, rest, proof, p)
    && p0 + Missing(q0) == p + Missing(rest)
  }

  lemma VerifierSingle<L, H>(
    X: Hasher<L, H>, proof: seq<H>, q0: seq<nat>, h0: seq<H>, p0: nat,
    rest: seq<nat>, hs: seq<H>, p: nat, doneQ: seq<nat>, doneH: seq<H>, h: H)
    requires VerifierAt(X, proof, q0, h0, p0, rest, hs, p, doneQ, doneH) && rest != [] && |hs| > 0 && !Paired(rest)
    requires h == if rest[0] % 2 != 0 then X.Node(Read(X, proof, p), hs[0]) else X.Node(hs[0], Read(X, proof, p))
    ensures VerifierAt(X, proof, q0, h0, p0, rest[1..], hs[1..], p + 1, doneQ + [rest[0] / 2], doneH + [h])
  {
    ParentsStep(rest);
    var f := Fold(X, hs[1..], rest[1..], proof, p + 1);
    assert Fold(X, hs, rest, proof, p) == [h] + f;
    assert doneH + ([h] + f) == (doneH + [h]) + f;
    assert doneQ + ([rest[0] / 2] + Parents(rest[1..])) == (doneQ + [rest[0] / 2]) + Parents(rest[1..]);
  }

  lemma VerifierPair<L, H>(
    X: Hasher<L, H>, proof: seq<H>, q0: seq<nat>, h0: seq<H>, p0: nat,
    rest: seq<nat>, hs: seq<H>, p: nat, doneQ: seq<nat>, doneH: seq<H>)
    requires VerifierAt(X, proof, q0, h0, p0, rest, hs, p, doneQ, doneH) && Paired(rest) && |hs| == |rest|
    ensures VerifierAt(X, proof, q0, h0, p0, rest[2..], hs[2..], p, doneQ + [rest[0] / 2], doneH + [X.Node(hs[0], hs[1])])
  {
    ParentsStep(rest);
    assert rest[1..][1..] == rest[2..] && hs[1..][1..] == hs[2..];
    var f, h := Fold(X, hs[2..], rest[2..], proof, p), X.Node(hs[0], hs[1]);
    assert Fold(X, hs, rest, proof, p) == [h] + f;
    assert doneH + ([h] + f) == (doneH + [h]) + f;
    assert doneQ + ([rest[0] / 2] + Parents(rest[2..])) == (doneQ + [rest[0] / 2]) + Parents(rest[2..]);
  }

  lemma VerifierStart<L, H>(X: Hasher<L, H>, proof: seq<H>, q0: seq<nat>, h0: seq<H>, p0: nat)
    requires |h0| == |q0|
    ensures VerifierAt(X, proof, q0, h0, p0, q0, h0, p0, [], [])
  {
  }

  lemma VerifierEnd<L, H>(
    X: Hasher<L, H>, proof: seq<H>, q0: seq<nat>, h0: seq<H>, p0: nat,
    rest: seq<nat>, hs: seq<H>, p: nat, doneQ: seq<nat>, doneH: seq<H>)
    requires VerifierAt(X, proof, q0, h0, p0, rest, hs, p, doneQ, doneH) && rest == [] && |h0| == |q0|
    ensures doneQ == Parents(q0) && doneH == Fold(X, h0, q0, proof, p0) && p == p0 + Missing(q0)
  {
  }

  /** The two buffers with `next` entries compacted, entries from `i` on still to do. */
  ghost predicate Compacting<L, H>(
    X: Hasher<L, H>, proof: seq<H>, q0: seq<nat>, h0: seq<H>, p0: nat, qs: seq<nat>, ls: seq<H>, next: nat, i: nat, cnt: nat, p: nat)
  {
    && next <= i <= cnt <= |qs| && cnt <= |ls|
    && VerifierAt(X, proof, q0, h0, p0, qs[i..cnt], ls[i..cnt], p, qs[..next], ls[..next])
  }

  lemma CompactSingle<L, H>(
    X: Hasher<L, H>, proof: seq<H>, q0: seq<nat>, h0: seq<H>, p0: nat, qs: seq<nat>, ls: seq<H>, next: nat, i: nat, cnt: nat, p: nat, h: H)
    requires Compacting(X, proof, q0, h0, p0, qs, ls, next, i, cnt, p) && i < cnt
    requires i + 1 == cnt || qs[i] % 2 != 0 || qs[i + 1] != Sibling(qs[i])
    requires h == if qs[i] % 2 != 0 then X.Node(Read(X, proof, p), ls[i]) else X.Node(ls[i], Read(X, proof, p))
    ensures Compacting(X, proof, q0, h0, p0, qs[next := qs[i] / 2], ls[next := h], next + 1, i + 1, cnt, p + 1)
  {
    hide Parents, Fold, Missing, VerifierAt;
    VerifierSingle(X, proof, q0, h0, p0, qs[i..cnt], ls[i..cnt], p, qs[..next], ls[..next], h);
    Compact(qs, qs[next := qs[i] / 2], next, i, cnt, qs[i] / 2);
    Compact(ls, ls[next := h], next, i, cnt, h);
  }

  lemma CompactPair<L, H>(
    X: Hasher<L, H>, proof: seq<H>, q0: seq<nat>, h0: seq<H>, p0: nat, qs: seq<nat>, ls: seq<H>, next: nat, i: nat, cnt: nat, p: nat)
    requires Compacting(X, proof, q0, h0, p0, qs, ls, next, i, cnt, p) && i + 1 < cnt
    requires qs[i] % 2 == 0 && qs[i + 1] == Sibling(qs[i])
    ensures Compacting(X, proof, q0, h0, p0, qs[next := qs[i] / 2], ls[next := X.Node(ls[i], ls[i + 1])], next + 1, i + 2, cnt, p)
  {
    hide Parents, Fold, Missing, Sibling;
    VerifierPair(X, proof, q0, h0, p0, qs[i..cnt], ls[i..cnt], p, qs[..next], ls[..next]);
    Compact(qs, qs[next := qs[i] / 2], next, i, cnt, qs[i] / 2);
    Compact(ls, ls[next := X.Node(ls[i], ls[i + 1])], next, i, cnt, X.Node(ls[i], ls[i + 1]));
  }

  lemma CompactStart<L, H>(X: Hasher<L, H>, proof: seq<H>, p0: nat, qs: seq<nat>, ls: seq<H>, cnt: nat)
    requires cnt <= |qs| && cnt <= |ls|
    ensures Compacting(X, proof, qs[..cnt], ls[..cnt], p0, qs, ls, 0, 0, cnt, p0)
  {
    VerifierStart(X, proof, qs[..cnt], ls[..cnt], p0);
    assert qs[..0] == [] && ls[..0] == [];
  }

  lemma CompactEnd<L, H>(
    X: Hasher<L, H>, proof: seq<H>, q0: seq<nat>, h0: seq<H>, p0: nat, qs: seq<nat>, ls: seq<H>, next: nat, cnt: nat, p: nat)
    requires |q0| == |h0| && Compacting(X, proof, q0, h0, p0, qs, ls, next, cnt, cnt, p)
    ensures next <= cnt <= |qs| && cnt <= |ls|
    ensures qs[..next] == Parents(q0) && ls[..next] == Fold(X, h0, q0, proof, p0) && p == p0 + Missing(q0)
  {
    VerifierEnd(X, proof, q0, h0, p0, qs[cnt..cnt], ls[cnt..cnt], p, qs[..next], ls[..next]);
  }

  /** One layer of `verify_batch`: compacts queries and hashes in place and consumes siblings. */
  method VerifyIthLayer<L, H>(X: Hasher<L, H>, layer: array<H>, queries: array<nat>, cnt: nat, proof: seq<H>, start: nat)
    returns (next: nat, p: nat)
    requires layer as object != queries as object && cnt <= queries.Length && cnt <= layer.Length
    modifies layer, queries
    ensures next <= cnt
    ensures queries[..next] == Parents(old(queries[..cnt]))
    ensures layer[..next] == Fold(X, old(layer[..cnt]), old(queries[..cnt]), proof, start)
    ensures p == start + Missing(old(queries[..cnt]))
  {
    hide Parents, Fold, Missing, VerifierAt, Sibling;
    ghost var q0, h0 := queries[..cnt], layer[..cnt];
    next := 0;
    p := start;
    var i := 0;
    ghost var at := 0;
    CompactStart(X, proof, start, queries[..], layer[..], cnt);
    assert queries[..][..cnt] == q0 && layer[..][..cnt] == h0;
    while i < cnt
      invariant at == i && Compacting(X, proof, q0, h0, start, queries[..], layer[..], next, i, cnt, p)
    {
      ghost var qs, ls := queries[..], layer[..];
      var query := queries[i];
      var sibling := Sibling(query);
      queries[next] := query / 2;
      next := next + 1;
      assert queries[..] == qs[next - 1 := query / 2];
      if i == cnt - 1 {
        p := p + 1;
        var pp := Read(X, proof, p - 1);
        layer[next - 1] := if query % 2 != 0 then X.Node(pp, layer[i]) else X.Node(layer[i], pp);
        CompactSingle(X, proof, q0, h0, start, qs, ls, next - 1, i, cnt, p - 1, layer[next - 1]);
        assert layer[..] == ls[next - 1 := layer[next - 1]];
        at := i + 1;
        break;
      }
      if query % 2 != 0 {
        p := p + 1;
        var pp := Read(X, proof, p - 1);
        layer[next - 1] := X.Node(pp, layer[i]);
        CompactSingle(X, proof, q0, h0, start, qs, ls, next - 1, i, cnt, p - 1, layer[next - 1]);
        i := i + 1;
      } else if queries[i + 1] != sibling {
        p := p + 1;
        var pp := Read(X, proof, p - 1);
        layer[next - 1] := X.Node(layer[i], pp);
        CompactSingle(X, proof, q0, h0, start, qs, ls, next - 1, i, cnt, p - 1, layer[next - 1]);
        i := i + 1;
      } else {
        layer[next - 1] := X.Node(layer[i], layer[i + 1]);
        CompactPair(X, proof, q0, h0, start, qs, ls, next - 1, i, cnt, p);
        i := i + 2;
      }
      assert layer[..] == ls[next - 1 := layer[next - 1]];
      at := i;
    }
    CompactEnd(X, proof, q0, h0, start, queries[..], layer[..], next, cnt, p);
    assert queries[..][..next] == queries[..next] && layer[..][..next] == layer[..next];
  }

  /** Hashes, queries and siblings consumed after `depth` layers of verification. */
  function Climb<L, H>(X: Hasher<L, H>, depth: nat, hs: seq<H>, qs: seq<nat>, proof: seq<H>, p: nat): (r: (seq<H>, seq<nat>, nat))
    requires |hs| == |qs|
    ensures |r.0| == |r.1|
    decreases depth
  {
    if depth == 0 then (hs, qs, p)
    else Climb(X, depth - 1, Fold(X, hs, qs, proof, p), Parents(qs), proof, p + Missing(qs))
  }

  /** What `verify_batch` answers; with a positive depth every index needs a leaf. */
  predicate Accepts<L, H(==)>(X: Hasher<L, H>, root: Option<H>, proof: seq<H>, depth: nat, leaves: seq<L>, indices: seq<nat>)
    requires depth > 0 ==> |indices| <= |leaves|
  {
    && root.Some?
    && if depth == 0 then |leaves| == 1 && indices == [0] && X.Leaf(leaves[0]) == root.value
       else
         var r := Climb(X, depth, HashLeaves(X, leaves)[..|indices|], indices, proof, 0);
         |r.1| == 1 && r.2 == |proof| && r.0[0] == root.value
  }

  /** `verify_batch` */
  method VerifyBatch<L, H(==)>(X: Hasher<L, H>, root: Option<H>, proof: seq<H>, depth: nat, leaves: seq<L>, indices: seq<nat>)
    returns (accepted: bool)
    requires depth > 0 ==> |indices| <= |leaves|
    ensures accepted == Accepts(X, root, proof, depth, leaves, indices)
  {
    hide Fold, Parents, Missing, Climb;
    if root.None? {
      return false;
    }
    var expected := root.value;
    if depth == 0 {
      if |leaves| == 1 && |indices| == 1 && indices[0] == 0 {
        return X.Leaf(leaves[0]) == expected;
      }
      return false;
    }
    ghost var h0 := HashLeaves(X, leaves)[..|indices|];
    var layer := new H[|leaves|](i requires 0 <= i < |leaves| => X.Leaf(leaves[i]));
    var queries := new nat[|indices|](i requires 0 <= i < |indices| => indices[i]);
    var cnt: nat := queries.Length;
    var p := 0;
    assert layer[..cnt] == h0 && queries[..cnt] == indices;
    for r := 0 to depth
      invariant cnt <= queries.Length && cnt <= layer.Length
      invariant Climb(X, depth, h0, indices, proof, 0) == Climb(X, depth - r, layer[..cnt], queries[..cnt], proof, p)
    {
      ClimbStep(X, depth - r, layer[..cnt], queries[..cnt], proof, p);
      cnt, p := VerifyIthLayer(X, layer, queries, cnt, proof, p);
    }
    ClimbStep(X, 0, layer[..cnt], queries[..cnt], proof, p);
    accepted := cnt == 1 && p == |proof| && layer[0] == expected;
    assert cnt == 1 ==> layer[..cnt][0] == layer[0];
  }

  lemma ClimbStep<L, H>(X: Hasher<L, H>, depth: nat, hs: seq<H>, qs: seq<nat>, proof: seq<H>, p: nat)
    requires |hs| == |qs|
    ensures depth == 0 ==> Climb(X, depth, hs, qs, proof, p) == (hs, qs, p)
    ensures depth > 0 ==>
      Climb(X, depth, hs, qs, proof, p) == Climb(X, depth - 1, Fold(X, hs, qs, proof, p), Parents(qs), proof, p + Missing(qs))
  {
  }

  // ----- lockstep and completeness -----

  /** Every layer is the layer above the one below it. */
  ghost predicate Linked<L, H>(X: Hasher<L, H>, layers: seq<seq<H>>) {
    |layers| <= 1 || (
      && |layers[0]| == 2 * |layers[1]| && layers[1] == Above(X, layers[0])
      && Linked(X, layers[1..]))
  }

  lemma {:induction false} LinkedHalving<L, H>(X: Hasher<L, H>, layers: seq<seq<H>>)
    requires Linked(X, layers)
    ensures Halving(layers)
    decreases |layers|
  {
    if |layers| > 1 {
      LinkedHalving(X, layers[1..]);
    }
  }

  lemma {:induction false} TreeLinked<L, H>(X: Hasher<L, H>, leaves: seq<L>, layers: seq<seq<H>>, d: nat, r: nat)
    requires IsTree(X, leaves, layers, d) && r <= d
    ensures Linked(X, layers[r..]) && |layers[d]| == 1
    decreases d - r
  {
    LayerSize(X, leaves, layers, d, d);
    if r < d {
      TreeLinked(X, leaves, layers, d, r + 1);
      LayerSize(X, leaves, layers, d, r);
      LayerSize(X, leaves, layers, d, r + 1);
      Pow2Step(d - r - 1);
      assert layers[r..][1..] == layers[r + 1..];
    }
  }

  lemma {:induction false} MissingCount<H>(layer: seq<H>, qs: seq<nat>)
    requires |layer| % 2 == 0 && InRange(qs, |layer|)
    ensures |Siblings(layer, qs)| == Missing(qs)
    decreases |qs|
  {
    if qs != [] {
      assert InRange(qs[1..], |layer|);
      MissingCount(layer, if Paired(qs) then qs[1..][1..] else qs[1..]);
    }
  }

  lemma PairedMeans(qs: seq<nat>)
    requires Paired(qs)
    ensures |qs| > 1 && qs[0] % 2 == 0 && qs[1] == Sibling(qs[0])
  {
  }

  lemma ReadAt<L, H>(X: Hasher<L, H>, proof: seq<H>, p: nat)
    requires p < |proof|
    ensures Read(X, proof, p) == proof[p]
  {
  }

  /** With the honest siblings the verifier computes the entries of the layer above. */
  lemma {:induction false} FoldHonest<L, H>(X: Hasher<L, H>, layer: seq<H>, qs: seq<nat>, proof: seq<H>, p: nat)
    requires |layer| % 2 == 0 && InRange(qs, |layer|)
    requires p <= |proof| && Siblings(layer, qs) <= proof[p..]
    ensures InRange(Parents(qs), |layer| / 2)
    ensures Fold(X, Pick(layer, qs), qs, proof, p) == Pick(Above(X, layer), Parents(qs))
    decreases |qs|
  {
    ParentsInRange(qs, |layer| / 2);
    if qs == [] {
      assert Pick(layer, qs) == [] == Pick(Above(X, layer), Parents(qs));
    } else {
      hide *;
      SiblingsStep(X, layer, qs, proof, p);
      if Paired(qs) {
        ParentsInRange(qs[1..][1..], |layer| / 2);
        FoldHonest(X, layer, qs[1..][1..], proof, p);
        HonestPair(X, layer, qs, proof, p);
      } else {
        ParentsInRange(qs[1..], |layer| / 2);
        NextSibling(proof, p, layer[Sibling(qs[0])], Siblings(layer, qs[1..]));
        FoldHonest(X, layer, qs[1..], proof, p + 1);
        HonestSingle(X, layer, qs, proof, p);
      }
    }
  }

  lemma NextSibling<H>(proof: seq<H>, p: nat, s: H, rest: seq<H>)
    requires p <= |proof| && [s] + rest <= proof[p..]
    ensures p < |proof| && proof[p] == s && rest <= proof[p + 1..]
  {
    assert proof[p..][0] == s && proof[p..][1..] == proof[p + 1..];
    assert ([s] + rest)[1..] == rest;
  }

  lemma HonestPair<L, H>(X: Hasher<L, H>, layer: seq<H>, qs: seq<nat>, proof: seq<H>, p: nat)
    requires |layer| % 2 == 0 && InRange(qs, |layer|) && Paired(qs) && InRange(qs[1..][1..], |layer|)
    requires InRange(Parents(qs), |layer| / 2) && InRange(Parents(qs[1..][1..]), |layer| / 2)
    requires Fold(X, Pick(layer, qs[1..][1..]), qs[1..][1..], proof, p) == Pick(Above(X, layer), Parents(qs[1..][1..]))
    ensures Fold(X, Pick(layer, qs), qs, proof, p) == Pick(Above(X, layer), Parents(qs))
  {
    hide *;
    PairedMeans(qs);
    ParentsStep(qs);
    PickStep(layer, qs);
    PickStep(layer, qs[1..]);
    FoldStep(X, Pick(layer, qs), qs, proof, p);
    AboveAt(X, layer, qs[0]);
    SiblingIs(qs[0]);
    PickCons(Above(X, layer), qs[0] / 2, Parents(qs[1..][1..]));
  }

  lemma HonestSingle<L, H>(X: Hasher<L, H>, layer: seq<H>, qs: seq<nat>, proof: seq<H>, p: nat)
    requires |layer| % 2 == 0 && qs != [] && InRange(qs, |layer|) && !Paired(qs) && InRange(qs[1..], |layer|)
    requires InRange(Parents(qs), |layer| / 2) && InRange(Parents(qs[1..]), |layer| / 2)
    requires Sibling(qs[0]) < |layer| && p < |proof| && proof[p] == layer[Sibling(qs[0])]
    requires Fold(X, Pick(layer, qs[1..]), qs[1..], proof, p + 1) == Pick(Above(X, layer), Parents(qs[1..]))
    ensures Fold(X, Pick(layer, qs), qs, proof, p) == Pick(Above(X, layer), Parents(qs))
  {
    hide *;
    ParentsStep(qs);
    PickStep(layer, qs);
    FoldStep(X, Pick(layer, qs), qs, proof, p);
    ReadAt(X, proof, p);
    AboveAt(X, layer, qs[0]);
    SiblingIs(qs[0]);
    PickCons(Above(X, layer), qs[0] / 2, Parents(qs[1..]));
  }

  lemma PickCons<H>(layer: seq<H>, q: nat, qs: seq<nat>)
    requires q < |layer| && InRange(qs, |layer|)
    ensures InRange([q] + qs, |layer|) && Pick(layer, [q] + qs) == [layer[q]] + Pick(layer, qs)
  {
  }

  /** Lockstep: from any layer on, the verifier reads exactly the prover's siblings and ends at the top entries. */
  lemma {:induction false} ClimbHonest<L, H>(X: Hasher<L, H>, layers: seq<seq<H>>, qs: seq<nat>, proof: seq<H>, p: nat)
    requires layers != [] && Linked(X, layers) && Halving(layers) && InRange(qs, |layers[0]|)
    requires p <= |proof| && proof[p..] == Proof(layers, qs)
    ensures var d := |layers| - 1; var top := Ancestors(qs, d);
      InRange(top, |layers[d]|) && Climb(X, d, Pick(layers[0], qs), qs, proof, p) == (Pick(layers[d], top), top, |proof|)
    decreases |layers|
  {
    hide Fold, Siblings, Pick, InRange, Parents, Missing, Proof, Climb;
    if |layers| == 1 {
      NoQueries(layers, qs);
      ClimbStep(X, 0, Pick(layers[0], qs), qs, proof, p);
    } else {
      ProofStep(layers, qs);
      MissingCount(layers[0], qs);
      var s := Siblings(layers[0], qs);
      assert proof[p + |s|..] == proof[p..][|s|..];
      FoldHonest(X, layers[0], qs, proof, p);
      ClimbStep(X, |layers| - 1, Pick(layers[0], qs), qs, proof, p);
      ClimbHonest(X, layers[1..], Parents(qs), proof, p + |s|);
    }
  }

  predicate Increasing(qs: seq<nat>) {
    |qs| <= 1 || (qs[0] < qs[1] && Increasing(qs[1..]))
  }

  /** Compaction neither creates nor repairs disorder. */
  lemma {:induction false} ParentsIncreasing(qs: seq<nat>)
    ensures Increasing(Parents(qs)) <==> Increasing(qs)
    decreases |qs|
  {
    if |qs| > 1 {
      ParentsStep(qs);
      var rest := if Paired(qs) then qs[1..][1..] else qs[1..];
      ParentsIncreasing(rest);
      var up := Parents(qs);
      assert up[1..] == Parents(rest);
      if rest != [] {
        ParentsStep(rest);
        assert up[1] == rest[0] / 2;
      }
      assert Paired(qs) ==> (Increasing(qs[1..]) <==> rest == [] || (qs[1] < rest[0] && Increasing(rest)));
    } else if |qs| == 1 {
      assert Parents(qs[1..]) == [];
    }
  }

  lemma {:induction false} AncestorsIncreasing(qs: seq<nat>, r: nat)
    ensures Increasing(Ancestors(qs, r)) <==> Increasing(qs)
    ensures Ancestors(qs, r) == [] <==> qs == []
    decreases r
  {
    if r != 0 {
      ParentsIncreasing(qs);
      AncestorsIncreasing(Parents(qs), r - 1);
    }
  }

  lemma AtTop(qs: seq<nat>)
    requires InRange(qs, 1)
    ensures |qs| == 1 <==> qs != [] && Increasing(qs)
    ensures qs != [] ==> qs[0] == 0
  {
    if |qs| > 1 {
      assert InRange(qs[1..], 1);
    }
  }

  /** The tree's own leaves at the given indices. */
  function LeavesAt<L>(leaves: seq<L>, indices: seq<nat>): (r: seq<L>)
    requires InRange(indices, |leaves|)
    ensures |r| == |indices|
  {
    Pick(leaves, indices)
  }

  lemma {:induction false} HashPick<L, H>(X: Hasher<L, H>, leaves: seq<L>, indices: seq<nat>)
    requires InRange(indices, |leaves|)
    ensures HashLeaves(X, LeavesAt(leaves, indices)) == Pick(HashLeaves(X, leaves), indices)
  {
    if indices != [] {
      HashPick(X, leaves, indices[1..]);
      var a := HashLeaves(X, LeavesAt(leaves, indices));
      assert LeavesAt(leaves, indices)[1..] == LeavesAt(leaves, indices[1..]);
      assert a[1..] == HashLeaves(X, LeavesAt(leaves, indices[1..]));
      assert a == [a[0]] + a[1..];
    }
  }

  /** `verify_batch` accepts the output of `prove_batch` exactly for non-empty strictly increasing queries. */
  lemma Completeness<L, H>(X: Hasher<L, H>, leaves: seq<L>, layers: seq<seq<H>>, d: nat, qs: seq<nat>)
    requires IsTree(X, leaves, layers, d) && InRange(qs, |leaves|)
    ensures Halving(layers) && InRange(qs, |layers[0]|)
    ensures Accepts(X, Root(layers), Proof(layers, qs), d, LeavesAt(leaves, qs), qs) <==> qs != [] && Increasing(qs)
  {
    hide Fold, Siblings, Pick, InRange, Parents, Missing, Proof, Climb, Above, Linked, Halving, Ancestors, LeavesAt, HashLeaves;
    TreeLinked(X, leaves, layers, d, 0);
    assert layers[0..] == layers;
    LinkedHalving(X, layers);
    HashPick(X, leaves, qs);
    var hs, proof := Pick(layers[0], qs), Proof(layers, qs);
    assert HashLeaves(X, LeavesAt(leaves, qs))[..|qs|] == hs && proof[0..] == proof;
    ClimbHonest(X, layers, qs, proof, 0);
    AncestorsIncreasing(qs, d);
    AtTop(Ancestors(qs, d));
    TopPick(layers[d], Ancestors(qs, d));
    if d == 0 {
      SingleLeaf(X, leaves, layers, qs);
    }
  }

  lemma TopPick<H>(top: seq<H>, qs: seq<nat>)
    requires |top| == 1 && InRange(qs, 1)
    ensures |qs| == 1 ==> Pick(top, qs) == [top[0]]
  {
  }

  lemma SingleLeaf<L, H>(X: Hasher<L, H>, leaves: seq<L>, layers: seq<seq<H>>, qs: seq<nat>)
    requires IsTree(X, leaves, layers, 0) && InRange(qs, |leaves|)
    ensures qs == [0] <==> qs != [] && Increasing(qs)
    ensures qs == [0] ==> LeavesAt(leaves, qs) == leaves && X.Leaf(leaves[0]) == layers[0][0]
  {
    AtTop(qs);
  }

  // ----- what the verifier reads -----

  /** The n values the verifier reads from position p on. */
  function Reads<L, H>(X: Hasher<L, H>, proof: seq<H>, p: nat, n: nat): (r: seq<H>)
    ensures |r| == n
    decreases n
  {
    if n == 0 then [] else [Read(X, proof, p)] + Reads(X, proof, p + 1, n - 1)
  }

  lemma {:induction false} ReadsSplit<L, H>(X: Hasher<L, H>, proof: seq<H>, p: nat, m: nat, n: nat)
    ensures Reads(X, proof, p, m + n) == Reads(X, proof, p, m) + Reads(X, proof, p + m, n)
    decreases m
  {
    if m != 0 {
      ReadsSplit(X, proof, p + 1, m - 1, n);
    }
  }

  lemma {:induction false} ReadsAll<L, H>(X: Hasher<L, H>, proof: seq<H>, p: nat)
    requires p <= |proof|
    ensures Reads(X, proof, p, |proof| - p) == proof[p..]
    decreases |proof| - p
  {
    if p < |proof| {
      ReadsAll(X, proof, p + 1);
    }
  }

  /** The entry above a query is the hash of the query's entry and its sibling's. */
  lemma AboveAt<L, H>(X: Hasher<L, H>, layer: seq<H>, q: nat)
    requires |layer| % 2 == 0 && q < |layer|
    ensures Sibling(q) < |layer|
    ensures Above(X, layer)[q / 2] == if q % 2 == 0 then X.Node(layer[q], layer[q + 1]) else X.Node(layer[q - 1], layer[q])
  {
    var e := 2 * (q / 2);
    assert Above(X, layer)[q / 2] == X.Node(layer[e], layer[e + 1]);
  }

  lemma PickStep<H>(layer: seq<H>, qs: seq<nat>)
    requires qs != [] && InRange(qs, |layer|)
    ensures qs[0] < |layer| && InRange(qs[1..], |layer|)
    ensures Pick(layer, qs) == [layer[qs[0]]] + Pick(layer, qs[1..])
  {
  }

  lemma FoldStep<L, H>(X: Hasher<L, H>, hs: seq<H>, qs: seq<nat>, proof: seq<H>, p: nat)
    requires |hs| == |qs| > 0
    ensures Missing(qs) == if Paired(qs) then Missing(qs[1..][1..]) else 1 + Missing(qs[1..])
    ensures Paired(qs) ==> Fold(X, hs, qs, proof, p) == [X.Node(hs[0], hs[1])] + Fold(X, hs[1..][1..], qs[1..][1..], proof, p)
    ensures !Paired(qs) ==>
      var h := if qs[0] % 2 != 0 then X.Node(Read(X, proof, p), hs[0]) else X.Node(hs[0], Read(X, proof, p));
      Fold(X, hs, qs, proof, p) == [h] + Fold(X, hs[1..], qs[1..], proof, p + 1)
  {
  }

  lemma SiblingsStep<L, H>(X: Hasher<L, H>, layer: seq<H>, qs: seq<nat>, proof: seq<H>, p: nat)
    requires |layer| % 2 == 0 && qs != [] && InRange(qs, |layer|)
    ensures InRange(qs[1..], |layer|) && Sibling(qs[0]) < |layer|
    ensures Paired(qs) ==> InRange(qs[1..][1..], |layer|) && Siblings(layer, qs) == Siblings(layer, qs[1..][1..])
    ensures !Paired(qs) ==> Siblings(layer, qs) == [layer[Sibling(qs[0])]] + Siblings(layer, qs[1..])
    ensures Reads(X, proof, p, 1 + Missing(qs[1..])) == [Read(X, proof, p)] + Reads(X, proof, p + 1, Missing(qs[1..]))
  {
    assert InRange(qs[1..], |layer|);
  }

  lemma SiblingIs(q: nat)
    ensures Sibling(q) == if q % 2 == 0 then q + 1 else q - 1
  {
  }
}
