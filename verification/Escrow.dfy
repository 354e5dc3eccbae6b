/** Verifiable Shamir sharing of a 32-byte secret (`crates/ligerito-escrow`). */
module Escrow {
  import opened Wrappers
  import opened Bytes
  import opened Fields
  import opened Polynomials
  import opened Interpolation
  import opened MerkleTree
  import opened MerkleBatch
  import opened MerklePath

  datatype Error =
    | InsufficientShares(have: nat, need: nat)
    | DuplicateShareIndex
    | InvalidThreshold
    | MerkleProofInvalid
    | IndexOutOfBounds

  /** `ShareField::from` and `poly().value()`: field elements are the 32-bit words. */
  datatype Codec<!T> = Codec(of: word -> T, to: T -> word) {
    function Of(w: word): T { of(w) }
    function To(t: T): word { to(t) }
  }

  ghost predicate IsCodec<T(!new)>(F: Field<T>, W: Codec<T>) {
    && (forall w :: W.To(W.Of(w)) == w)
    && (forall t :: W.Of(W.To(t)) == t)
    && W.Of(0) == F.zero
  }

  datatype Share<T, H> = Share(index: word, values: seq<T>, proof: seq<H>)

  datatype ShareSet<T, H> = ShareSet(threshold: nat, numShares: nat, shares: seq<Share<T, H>>, commitment: H)

  // ----- bytes and field elements -----

  function ToElements<T>(W: Codec<T>, bytes: seq<byte>): (r: seq<T>)
    requires |bytes| % 4 == 0
    ensures |r| == |bytes| / 4
  {
    if bytes == [] then [] else [W.Of(WordOf(bytes[..4]))] + ToElements(W, bytes[4..])
  }

  /** `field_elements_to_bytes` on up to 8 elements, before the zero padding. */
  function ToBytes<T>(W: Codec<T>, elements: seq<T>): (r: seq<byte>)
    ensures |r| == 4 * |elements|
  {
    if elements == [] then [] else BytesOf(W.To(elements[0])) + ToBytes(W, elements[1..])
  }

  lemma {:induction false} ElementsRoundTrip<T(!new)>(F: Field<T>, W: Codec<T>, bytes: seq<byte>)
    requires IsCodec(F, W) && |bytes| % 4 == 0
    ensures ToBytes(W, ToElements(W, bytes)) == bytes
  {
    if bytes != [] {
      ElementsRoundTrip(F, W, bytes[4..]);
      BytesRoundTrip(bytes[..4]);
      var e := ToElements(W, bytes);
      assert e[1..] == ToElements(W, bytes[4..]);
      assert bytes == bytes[..4] + bytes[4..];
    }
  }

  /** Element e is made of bytes 4e to 4e + 3. */
  lemma {:induction false} ElementAt<T>(W: Codec<T>, bytes: seq<byte>, e: nat)
    requires |bytes| % 4 == 0 && e < |bytes| / 4
    ensures ToElements(W, bytes)[e] == W.Of(WordOf(bytes[4 * e..4 * e + 4]))
  {
    if e != 0 {
      ElementAt(W, bytes[4..], e - 1);
      assert bytes[4..][4 * (e - 1)..4 * (e - 1) + 4] == bytes[4 * e..4 * e + 4];
    }
  }

  // ----- polynomials -----

  /** `evaluate_polynomial`: Horner from the highest coefficient down. */
  method EvaluatePolynomial<T(!new)>(F: Field<T>, coeffs: seq<T>, x: T) returns (result: T)
    requires IsField(F)
    ensures result == Eval(F, coeffs, x)
  {
    result := F.zero;
    for i := |coeffs| downto 0
      invariant result == Eval(F, coeffs[i..], x)
    {
      result := F.Add(F.Mul(result, x), coeffs[i]);
      assert coeffs[i..][1..] == coeffs[i + 1..];
    }
  }

  // ----- reconstruction -----

  /** The evaluation point of a share: its index plus one, as a 32-bit word. */
  function XCoord<T>(W: Codec<T>, index: word): T {
    W.Of((index + 1) % 0x1_0000_0000)
  }

  function XCoords<T, H>(W: Codec<T>, shares: seq<Share<T, H>>): (r: seq<T>)
    ensures |r| == |shares|
  {
    seq(|shares|, i requires 0 <= i < |shares| => XCoord(W, shares[i].index))
  }

  function YCoords<T, H>(shares: seq<Share<T, H>>, e: nat): (r: seq<T>)
    requires forall i :: 0 <= i < |shares| ==> e < |shares[i].values|
    ensures |r| == |shares|
  {
    seq(|shares|, i requires 0 <= i < |shares| => shares[i].values[e])
  }

  predicate DistinctIndices<T, H>(shares: seq<Share<T, H>>) {
    forall i, j :: 0 <= i < j < |shares| ==> shares[i].index != shares[j].index
  }

  /** The shares used have at least as many values as the first one, and at most 8 elements are rebuilt. */
  predicate Usable<T, H>(shares: seq<Share<T, H>>, threshold: nat) {
    0 < threshold && (threshold <= |shares| ==>
      |shares[0].values| <= 8 && forall i :: 0 <= i < threshold ==> |shares[0].values| <= |shares[i].values|)
  }

  /** The elements rebuilt from `used`, for e < n. */
  function Rebuilt<T, H>(F: Field<T>, W: Codec<T>, used: seq<Share<T, H>>, n: nat): (r: seq<T>)
    requires forall i :: 0 <= i < |used| ==> n <= |used[i].values|
    ensures |r| == n
  {
    if n == 0 then []
    else Rebuilt(F, W, used, n - 1) + [Interpolate(F, XCoords(W, used), YCoords(used, n - 1), F.zero, |used|)]
  }

  function Padded(bytes: seq<byte>): (r: seq<byte>)
    requires |bytes| <= 32
    ensures |r| == 32 && bytes <= r
  {
    bytes + seq(32 - |bytes|, _ => 0)
  }

  /** What `reconstruct_secret` answers. */
  function Reconstructed<T, H>(F: Field<T>, W: Codec<T>, shares: seq<Share<T, H>>, threshold: nat): Result<seq<byte>, Error>
    requires Usable(shares, threshold)
  {
    if |shares| < threshold then Failure(InsufficientShares(|shares|, threshold))
    else if !DistinctIndices(shares) then Failure(DuplicateShareIndex)
    else Success(Padded(ToBytes(W, Rebuilt(F, W, shares[..threshold], |shares[0].values|))))
  }

  /** What is refused: too few shares, and otherwise every list with an index twice, wherever it stands. */
  lemma ReconstructRefuses<T, H>(F: Field<T>, W: Codec<T>, shares: seq<Share<T, H>>, threshold: nat)
    requires Usable(shares, threshold)
    ensures |shares| < threshold <==> Reconstructed(F, W, shares, threshold) == Failure(InsufficientShares(|shares|, threshold))
    ensures |shares| >= threshold && (exists i, j :: 0 <= i < j < |shares| && shares[i].index == shares[j].index) <==>
      Reconstructed(F, W, shares, threshold) == Failure(DuplicateShareIndex)
  {
  }

  /** `reconstruct_secret` */
  method ReconstructSecret<T(!new), H>(F: Field<T>, W: Codec<T>, shares: seq<Share<T, H>>, threshold: nat) returns (r: Result<seq<byte>, Error>)
    requires IsBinary(F) && IsCodec(F, W) && Usable(shares, threshold)
    ensures r == Reconstructed(F, W, shares, threshold)
  {
    if |shares| < threshold {
      return Failure(InsufficientShares(|shares|, threshold));
    }
    var distinct := CheckDistinct(shares);
    if !distinct {
      return Failure(DuplicateShareIndex);
    }
    var rebuilt := Rebuild(F, W, shares[..threshold]);
    assert shares[..threshold][0] == shares[0];
    r := Success(Padded(ToBytes(W, rebuilt)));
  }

  /** The pairwise duplicate check. */
  method CheckDistinct<T, H>(shares: seq<Share<T, H>>) returns (ok: bool)
    ensures ok == DistinctIndices(shares)
  {
    for i := 0 to |shares|
      invariant forall a, b :: 0 <= a < i && a < b < |shares| ==> shares[a].index != shares[b].index
    {
      for j := i + 1 to |shares|
        invariant forall b :: i < b < j ==> shares[i].index != shares[b].index
      {
        if shares[i].index == shares[j].index {
          return false;
        }
      }
    }
    return true;
  }

  /** The element loop. */
  method Rebuild<T(!new), H>(F: Field<T>, W: Codec<T>, used: seq<Share<T, H>>) returns (rebuilt: seq<T>)
    requires IsBinary(F) && IsCodec(F, W) && DistinctIndices(used) && used != []
    requires forall i :: 0 <= i < |used| ==> |used[0].values| <= |used[i].values|
    ensures rebuilt == Rebuilt(F, W, used, |used[0].values|)
  {
    hide Interpolate, IsBinary, IsCodec;
    var xs := XCoords(W, used);
    XCoordsDistinct(F, W, used);
    var numElements := |used[0].values|;
    rebuilt := [];
    for e := 0 to numElements
      invariant rebuilt == Rebuilt(F, W, used, e)
    {
      var ys := YCoords(used, e);
      var secretElem := LagrangeAtZero(F, xs, ys);
      rebuilt := rebuilt + [secretElem];
    }
  }

  lemma XCoordsDistinct<T(!new), H>(F: Field<T>, W: Codec<T>, shares: seq<Share<T, H>>)
    requires IsCodec(F, W) && DistinctIndices(shares)
    ensures Distinct(XCoords(W, shares))
  {
    var xs := XCoords(W, shares);
    forall i, j | 0 <= i < j < |xs| ensures xs[i] != xs[j] {
      var a: int, b: int := shares[i].index, shares[j].index;
      assert (a + 1) % 0x1_0000_0000 != (b + 1) % 0x1_0000_0000;
      assert W.To(xs[i]) == (a + 1) % 0x1_0000_0000 && W.To(xs[j]) == (b + 1) % 0x1_0000_0000;
    }
  }

  // ----- sharing -----

  /** The values of the share with this index: polynomial e at the share's point. */
  function ShareValues<T>(F: Field<T>, W: Codec<T>, polys: seq<seq<T>>, index: word): (r: seq<T>)
    ensures |r| == |polys|
  {
    seq(|polys|, e requires 0 <= e < |polys| => Eval(F, polys[e], XCoord(W, index)))
  }

  /** Polynomial e: the secret's element, then the random coefficients. */
  function Polys<T>(W: Codec<T>, secret: seq<T>, random: seq<seq<word>>): (r: seq<seq<T>>)
    requires |random| == |secret|
    ensures |r| == |secret|
  {
    seq(|secret|, e requires 0 <= e < |secret| => [secret[e]] + Elements(W, random[e]))
  }

  function Elements<T>(W: Codec<T>, ws: seq<word>): (r: seq<T>)
    ensures |r| == |ws|
  {
    seq(|ws|, i requires 0 <= i < |ws| => W.Of(ws[i]))
  }

  /** Any threshold-many shares with distinct indices, in any order, rebuild the secret's elements. */
  lemma {:induction false} RebuiltIsSecret<T(!new), H>(
    F: Field<T>, W: Codec<T>, polys: seq<seq<T>>, used: seq<Share<T, H>>, secret: seq<T>, n: nat)
    requires IsField(F) && IsCodec(F, W) && DistinctIndices(used) && used != []
    requires n <= |secret| == |polys|
    requires forall e :: 0 <= e < |polys| ==> |polys[e]| == |used| && polys[e][0] == secret[e]
    requires forall i :: 0 <= i < |used| ==> used[i].values == ShareValues(F, W, polys, used[i].index)
    ensures forall i :: 0 <= i < |used| ==> |used[i].values| == |polys|
    ensures Rebuilt(F, W, used, n) == secret[..n]
  {
    hide Interpolate, Eval;
    if n != 0 {
      RebuiltIsSecret(F, W, polys, used, secret, n - 1);
      var xs, ys, p := XCoords(W, used), YCoords(used, n - 1), polys[n - 1];
      XCoordsDistinct(F, W, used);
      forall i | 0 <= i < |xs| ensures ys[i] == Eval(F, p, xs[i]) {
        assert used[i].values[n - 1] == ShareValues(F, W, polys, used[i].index)[n - 1];
      }
      InterpolationExact(F, p, xs, ys, F.zero);
      EvalAtZero(F, p);
    }
  }

  /** `SecretSharer::new` */
  function NewSharer(threshold: nat, numShares: nat): (r: Result<(nat, nat), Error>)
    ensures r.Success? <==> 2 <= threshold <= numShares
    ensures r.Failure? ==> r.error == InvalidThreshold
  {
    if threshold < 2 then Failure(InvalidThreshold)
    else if threshold > numShares then Failure(InvalidThreshold)
    else Success((threshold, numShares))
  }

  function Index(i: nat): word {
    i % 0x1_0000_0000
  }

  /** `set` is a sharing of `secret` with these random coefficients; `layers` is the tree behind the commitment. */
  ghost predicate Dealt<T, H>(
    F: Field<T>, W: Codec<T>, X: Hasher<seq<T>, H>, k: nat, n: nat, secret: seq<byte>, random: seq<seq<word>>,
    dealing: ShareSet<T, H>, layers: seq<seq<H>>)
  {
    && |secret| == 32 && |random| == 8
    && dealing.threshold == k && dealing.numShares == n && |dealing.shares| == n
    && IsPaddedTree(X, HashValues(X, dealing.shares), layers)
    && dealing.commitment == layers[|layers| - 1][0]
    && forall i :: 0 <= i < n ==>
         && dealing.shares[i].index == Index(i)
         && dealing.shares[i].values == ShareValues(F, W, Polys(W, ToElements(W, secret), random), Index(i))
         && dealing.shares[i].proof == Path(layers, i)
  }

  function HashValues<T, H>(X: Hasher<seq<T>, H>, shares: seq<Share<T, H>>): (r: seq<H>)
    ensures |r| == |shares|
  {
    seq(|shares|, i requires 0 <= i < |shares| => X.Leaf(shares[i].values))
  }

  /** `share_secret_with_rng`; the random words are a parameter. */
  method ShareSecret<T(!new), H>(
    F: Field<T>, W: Codec<T>, X: Hasher<seq<T>, H>, k: nat, n: nat, secret: seq<byte>, random: seq<seq<word>>)
    returns (dealing: ShareSet<T, H>, ghost layers: seq<seq<H>>)
    requires IsField(F) && 2 <= k <= n && |secret| == 32
    requires |random| == 8 && forall e :: 0 <= e < 8 ==> |random[e]| == k - 1
    ensures Dealt(F, W, X, k, n, secret, random, dealing, layers)
  {
    var elems := ToElements(W, secret);
    var all := AllShareValues(F, W, n, elems, random);
    hide Eval, Path, IsPaddedTree, Polys, ToElements;
    var root, proofs;
    root, proofs, layers := BuildTree(X, seq(n, i requires 0 <= i < n => X.Leaf(all[i])));
    var shares := seq(n, i requires 0 <= i < n => Share(Index(i), all[i], proofs[i]));
    dealing := ShareSet(k, n, shares, root);
    assert HashValues(X, shares) == seq(n, i requires 0 <= i < n => X.Leaf(all[i]));
  }

  /** The double loop over secret elements and evaluation points. */
  method AllShareValues<T(!new)>(F: Field<T>, W: Codec<T>, n: nat, elems: seq<T>, random: seq<seq<word>>) returns (all: seq<seq<T>>)
    requires IsField(F) && |elems| == |random|
    ensures |all| == n && forall i :: 0 <= i < n ==> all[i] == ShareValues(F, W, Polys(W, elems, random), Index(i))
  {
    hide Eval;
    ghost var polys := Polys(W, elems, random);
    all := seq(n, _ => []);
    for e := 0 to |elems|
      invariant |all| == n && forall i :: 0 <= i < n ==> all[i] == ShareValues(F, W, polys[..e], Index(i))
    {
      var coeffs := [elems[e]];
      for c := 0 to |random[e]|
        invariant coeffs == [elems[e]] + Elements(W, random[e][..c])
      {
        coeffs := coeffs + [W.Of(random[e][c])];
        assert Elements(W, random[e][..c + 1]) == Elements(W, random[e][..c]) + [W.Of(random[e][c])];
      }
      assert random[e][..|random[e]|] == random[e] && coeffs == polys[e];
      all := ExtendAll(F, W, all, coeffs, polys[..e]);
      assert polys[..e + 1] == polys[..e] + [coeffs];
    }
    assert polys[..|elems|] == polys;
  }

  /** The inner loop: every share gets its value of one more polynomial. */
  method ExtendAll<T(!new)>(F: Field<T>, W: Codec<T>, before: seq<seq<T>>, coeffs: seq<T>, ghost polys: seq<seq<T>>) returns (all: seq<seq<T>>)
    requires IsField(F)
    requires forall i :: 0 <= i < |before| ==> before[i] == ShareValues(F, W, polys, Index(i))
    ensures |all| == |before| && forall i :: 0 <= i < |all| ==> all[i] == ShareValues(F, W, polys + [coeffs], Index(i))
  {
    hide Eval;
    all := before;
    for i := 0 to |all|
      invariant |all| == |before|
      invariant forall j :: 0 <= j < i ==> all[j] == ShareValues(F, W, polys + [coeffs], Index(j))
      invariant forall j :: i <= j < |all| ==> all[j] == before[j]
    {
      var x := W.Of((i + 1) % 0x1_0000_0000);
      PointOf(W, i);
      var y := EvaluatePolynomial(F, coeffs, x);
      all := all[i := all[i] + [y]];
      assert all[i] == ShareValues(F, W, polys + [coeffs], Index(i));
    }
  }

  lemma PointOf<T>(W: Codec<T>, i: nat)
    ensures XCoord(W, Index(i)) == W.Of((i + 1) % 0x1_0000_0000)
  {
    assert (i % 0x1_0000_0000 + 1) % 0x1_0000_0000 == (i + 1) % 0x1_0000_0000;
  }

  /** Any `k` or more shares of a sharing, with distinct indices and in any order, reconstruct the 32 bytes. */
  lemma SharesReconstruct<T(!new), H>(
    F: Field<T>, W: Codec<T>, X: Hasher<seq<T>, H>, k: nat, n: nat, secret: seq<byte>, random: seq<seq<word>>,
    dealing: ShareSet<T, H>, layers: seq<seq<H>>, list: seq<Share<T, H>>)
    requires IsField(F) && IsCodec(F, W) && 2 <= k <= n
    requires Dealt(F, W, X, k, n, secret, random, dealing, layers)
    requires forall e :: 0 <= e < 8 ==> |random[e]| == k - 1
    requires |list| >= k && DistinctIndices(list) && forall i :: 0 <= i < |list| ==> list[i] in dealing.shares
    ensures Usable(list, k) && Reconstructed(F, W, list, k) == Success(secret)
  {
    hide Eval, Rebuilt, IsPaddedTree, Path, ToElements, Interpolate, ToBytes;
    var elems := ToElements(W, secret);
    var polys := Polys(W, elems, random);
    var used := list[..k];
    forall i | 0 <= i < |list| ensures list[i].values == ShareValues(F, W, polys, list[i].index) {
      var j :| 0 <= j < n && dealing.shares[j] == list[i];
    }
    RebuiltIsSecret(F, W, polys, used, elems, 8);
    assert elems[..8] == elems && used[0] == list[0];
    ElementsRoundTrip(F, W, secret);
    assert Padded(secret) == secret;
  }

  /** `verify_share` */
  method VerifyShare<T, H(==)>(X: Hasher<seq<T>, H>, dealing: ShareSet<T, H>, share: Share<T, H>) returns (r: Result<(), Error>)
    ensures share.index >= dealing.numShares <==> r == Failure(IndexOutOfBounds)
    ensures r.Success? <==> Verifies(X, dealing, share)
    ensures r.Failure? ==> r.error in {IndexOutOfBounds, MerkleProofInvalid}
  {
    if share.index >= dealing.numShares {
      return Failure(IndexOutOfBounds);
    }
    var leafHash := X.Leaf(share.values);
    var computed := ComputeRoot(X, share.index, leafHash, share.proof);
    if computed == dealing.commitment {
      return Success(());
    } else {
      return Failure(MerkleProofInvalid);
    }
  }

  predicate Verifies<T, H(==)>(X: Hasher<seq<T>, H>, dealing: ShareSet<T, H>, share: Share<T, H>) {
    share.index < dealing.numShares && RootFrom(X, share.index, X.Leaf(share.values), share.proof) == dealing.commitment
  }

  /** Every share that was dealt verifies (an index is a 32-bit word, so there are at most 2^32 of them). */
  lemma EveryShareVerifies<T(!new), H>(
    F: Field<T>, W: Codec<T>, X: Hasher<seq<T>, H>, k: nat, n: nat, secret: seq<byte>, random: seq<seq<word>>,
    dealing: ShareSet<T, H>, layers: seq<seq<H>>, i: nat)
    requires Dealt(F, W, X, k, n, secret, random, dealing, layers) && i < n <= 0x1_0000_0000
    ensures Verifies(X, dealing, dealing.shares[i])
  {
    hide RootFrom, Path, Linked, Halving, ShareValues;
    LeafOf(X, dealing.shares, layers, i);
    PathRoot(X, layers, i);
  }

  lemma LeafOf<T, H>(X: Hasher<seq<T>, H>, shares: seq<Share<T, H>>, layers: seq<seq<H>>, i: nat)
    requires IsPaddedTree(X, HashValues(X, shares), layers) && i < |shares|
    ensures i < |layers[0]| && layers[0][i] == X.Leaf(shares[i].values)
  {
    var hs := HashValues(X, shares);
    assert hs <= layers[0];
    assert layers[0][i] == hs[i];
  }

  /** Unless two of the values hashed collide, a share that verifies is the dealt one exactly when its path has the depth of
      the tree, which `verify_share` leaves to the caller. */
  lemma VerifiedShareIsDealt<T(!new), H(!new)>(
    F: Field<T>, W: Codec<T>, X: Hasher<seq<T>, H>, k: nat, n: nat, secret: seq<byte>, random: seq<seq<word>>,
    dealing: ShareSet<T, H>, layers: seq<seq<H>>, share: Share<T, H>)
    requires Dealt(F, W, X, k, n, secret, random, dealing, layers) && n <= 0x1_0000_0000 && Verifies(X, dealing, share)
    requires NodesApart(X, TreePairs(layers) + PathPairs(X, share.index, X.Leaf(share.values), share.proof))
    requires LeavesApart(X, {share.values, dealing.shares[share.index].values})
    ensures share == dealing.shares[share.index] <==> |share.proof| == CeilLog(n)
  {
    hide RootFrom, Path, Linked, Halving, ShareValues, NodesApart, TreePairs, PathPairs, CeilLog;
    LeafOf(X, dealing.shares, layers, share.index);
    PaddedDepth(X, HashValues(X, dealing.shares), layers);
    if |share.proof| == |layers| - 1 {
      var seen := TreePairs(layers) + PathPairs(X, share.index, X.Leaf(share.values), share.proof);
      PathBinding(X, seen, layers, share.index, X.Leaf(share.values), share.proof);
    }
  }

  /** Nothing hashed in checking the share collides with what was hashed in dealing. */
  ghost predicate NoCollision<T(!new), H(!new)>(X: Hasher<seq<T>, H>, dealing: ShareSet<T, H>, layers: seq<seq<H>>, share: Share<T, H>) {
    && NodesApart(X, TreePairs(layers) + PathPairs(X, share.index, X.Leaf(share.values), share.proof))
    && share.index < |dealing.shares| && LeavesApart(X, {share.values, dealing.shares[share.index].values})
  }

  /** From verification to the secret: whoever sent them, k or more shares with distinct indices that pass `verify_share` with
      paths of the right length reconstruct the 32 bytes. */
  lemma VerifiedSharesReconstruct<T(!new), H(!new)>(
    F: Field<T>, W: Codec<T>, X: Hasher<seq<T>, H>, k: nat, n: nat, secret: seq<byte>, random: seq<seq<word>>,
    dealing: ShareSet<T, H>, layers: seq<seq<H>>, list: seq<Share<T, H>>)
    requires IsField(F) && IsCodec(F, W) && 2 <= k <= n <= 0x1_0000_0000
    requires Dealt(F, W, X, k, n, secret, random, dealing, layers)
    requires forall e :: 0 <= e < 8 ==> |random[e]| == k - 1
    requires |list| >= k && DistinctIndices(list)
    requires forall i :: 0 <= i < |list| ==>
      Verifies(X, dealing, list[i]) && |list[i].proof| == CeilLog(n) && NoCollision(X, dealing, layers, list[i])
    ensures Usable(list, k) && Reconstructed(F, W, list, k) == Success(secret)
  {
    hide RootFrom, IsCodec, DistinctIndices, Usable, Reconstructed, NodesApart, LeavesApart, TreePairs, PathPairs, CeilLog, IsPaddedTree, Path, ShareValues;
    forall i | 0 <= i < |list| ensures list[i] in dealing.shares {
      VerifiedShareIsDealt(F, W, X, k, n, secret, random, dealing, layers, list[i]);
    }
    SharesReconstruct(F, W, X, k, n, secret, random, dealing, layers, list);
  }

  /** Leaves and nodes are hashed by one function of bytes: four bytes a value, and the 32 bytes of either child. */
  ghost predicate OneHash<T(!new), H(!new)>(W: Codec<T>, X: Hasher<seq<T>, H>, sha: seq<byte> -> H, enc: H -> seq<byte>) {
    && (forall vs :: X.Leaf(vs) == sha(ToBytes(W, vs)))
    && (forall a, b :: X.Node(a, b) == sha(enc(a) + enc(b)))
    && (forall a :: |enc(a)| == 32)
  }

  /** The two hashes below a node, read as values, hash to that node. */
  lemma ChildrenAsValues<T(!new), H(!new)>(
    F: Field<T>, W: Codec<T>, X: Hasher<seq<T>, H>, sha: seq<byte> -> H, enc: H -> seq<byte>, a: H, b: H) returns (values: seq<T>)
    requires IsCodec(F, W) && OneHash(W, X, sha, enc)
    ensures |values| == 16 && X.Leaf(values) == X.Node(a, b)
  {
    hide IsCodec, ToElements, ToBytes;
    values := ToElements(W, enc(a) + enc(b));
    ElementsRoundTrip(F, W, enc(a) + enc(b));
  }

  /** The length is needed for every dealing: the two hashes below an inner node, read as 16 values, verify with the rest of
      that node's path. */
  lemma ShortPathVerifies<T(!new), H(!new)>(
    F: Field<T>, W: Codec<T>, X: Hasher<seq<T>, H>, sha: seq<byte> -> H, enc: H -> seq<byte>, k: nat, n: nat, secret: seq<byte>,
    random: seq<seq<word>>, dealing: ShareSet<T, H>, layers: seq<seq<H>>) returns (share: Share<T, H>)
    requires Dealt(F, W, X, k, n, secret, random, dealing, layers) && n >= 2
    requires IsCodec(F, W) && OneHash(W, X, sha, enc)
    ensures Verifies(X, dealing, share) && |share.values| == 16 && |share.proof| == CeilLog(n) - 1
    ensures share != dealing.shares[share.index]
  {
    hide RootFrom, Path, ShareValues, IsCodec, OneHash, ToElements, ToBytes;
    PaddedDepth(X, HashValues(X, dealing.shares), layers);
    assert CeilLog(n) >= 1;
    LinkedStep(X, layers);
    LastPositive(layers[1..]);
    var values := ChildrenAsValues(F, W, X, sha, enc, layers[0][0], layers[0][1]);
    assert X.Leaf(values) == layers[1][0];
    share := Share(0, values, Path(layers[1..], 0));
    PathRoot(X, layers[1..], 0);
  }

  /** Threshold hiding: for any k - 1 shares (none at the point 0), any values of theirs and any candidate secret,
      exactly one choice of random words makes the sharing loop produce those values. */
  lemma ThresholdHiding<T(!new)>(F: Field<T>, W: Codec<T>, indices: seq<word>, ys: seq<T>, secret: T) returns (random: seq<word>)
    requires IsField(F) && IsCodec(F, W) && |ys| == |indices| && Distinct(indices)
    requires forall i :: 0 <= i < |indices| ==> indices[i] != 0xFFFF_FFFF
    ensures |random| == |indices| && Produces(F, W, secret, random, indices, ys)
    ensures forall r: seq<word> :: |r| == |indices| && Produces(F, W, secret, r, indices, ys) ==> r == random
  {
    hide Eval, Produces, InterpolatingPoly, Interpolate, IsCodec;
    var xs := [F.zero] + seq(|indices|, i requires 0 <= i < |indices| => XCoord(W, indices[i]));
    PointsDistinct(F, W, indices, xs);
    var p := InterpolatingPoly(F, xs, [secret] + ys, |xs|);
    forall i | 0 <= i < |xs| ensures Eval(F, p, xs[i]) == ([secret] + ys)[i] {
      InterpolatingPolyEval(F, xs, [secret] + ys, |xs|, xs[i]);
      InterpolateAt(F, xs, [secret] + ys, |xs|, i);
    }
    random := seq(|indices|, i requires 0 <= i < |indices| => W.To(p[i + 1]));
    HidingExists(F, W, indices, ys, secret, xs, p, random);
    forall r: seq<word> | |r| == |indices| && Produces(F, W, secret, r, indices, ys) ensures r == random {
      HidingUnique(F, W, indices, ys, secret, xs, r, random);
    }
  }

  /** Share i of the dealing holds data[i], for the given shares. */
  ghost predicate Shows<T, H>(dealing: ShareSet<T, H>, indices: seq<word>, data: seq<seq<T>>)
    requires |indices| == |data|
  {
    forall i :: 0 <= i < |indices| ==> indices[i] < |dealing.shares| && dealing.shares[indices[i]].values == data[i]
  }

  /** Element e of the data. */
  function Column<T>(data: seq<seq<T>>, e: nat): (ys: seq<T>)
    requires forall i :: 0 <= i < |data| ==> |data[i]| == 8
    requires e < 8
    ensures |ys| == |data|
  {
    seq(|data|, i requires 0 <= i < |data| => data[i][e])
  }

  ghost predicate RandomFor(random: seq<seq<word>>, k: nat) {
    |random| == 8 && forall e :: 0 <= e < 8 ==> |random[e]| == k - 1
  }

  /** r is the one list of words with which the polynomial takes the given values. */
  ghost predicate OnlyOne<T>(F: Field<T>, W: Codec<T>, secret: T, indices: seq<word>, ys: seq<T>, r: seq<word>)
    requires |indices| == |ys|
  {
    |r| == |indices| && forall other: seq<word> :: |other| == |indices| ==> (Produces(F, W, secret, other, indices, ys) <==> other == r)
  }

  lemma {:induction false} ColumnsHide<T(!new)>(F: Field<T>, W: Codec<T>, elems: seq<T>, indices: seq<word>, data: seq<seq<T>>, n: nat)
    returns (random: seq<seq<word>>)
    requires IsField(F) && IsCodec(F, W) && Distinct(indices) && |data| == |indices| && |elems| == 8 && n <= 8
    requires forall i :: 0 <= i < |indices| ==> indices[i] != 0xFFFF_FFFF && |data[i]| == 8
    ensures |random| == n && forall e :: 0 <= e < n ==> OnlyOne(F, W, elems[e], indices, Column(data, e), random[e])
  {
    hide Produces, IsField, IsCodec, Distinct, Column;
    random := [];
    if n != 0 {
      random := ColumnsHide(F, W, elems, indices, data, n - 1);
      var r := ThresholdHiding(F, W, indices, Column(data, n - 1), elems[n - 1]);
      random := random + [r];
    }
  }

  /** Which values the shares of a dealing hold, polynomial by polynomial. */
  lemma DealtProduces<T(!new), H(!new)>(
    F: Field<T>, W: Codec<T>, X: Hasher<seq<T>, H>, k: nat, n: nat, secret: seq<byte>, random: seq<seq<word>>,
    dealing: ShareSet<T, H>, layers: seq<seq<H>>, indices: seq<word>, data: seq<seq<T>>)
    requires Dealt(F, W, X, k, n, secret, random, dealing, layers) && |indices| == |data|
    requires forall i :: 0 <= i < |indices| ==> indices[i] < n && |data[i]| == 8
    ensures Shows(dealing, indices, data) <==>
      forall e :: 0 <= e < 8 ==> Produces(F, W, ToElements(W, secret)[e], random[e], indices, Column(data, e))
  {
    hide Eval, IsPaddedTree, Path, ToElements, HashValues;
    var polys := Polys(W, ToElements(W, secret), random);
    forall i | 0 <= i < |indices|
      ensures |dealing.shares[indices[i]].values| == 8
      ensures forall e :: 0 <= e < 8 ==> dealing.shares[indices[i]].values[e] == Eval(F, polys[e], XCoord(W, indices[i]))
    {
      assert dealing.shares[indices[i]].values == ShareValues(F, W, polys, Index(indices[i]));
    }
    if Shows(dealing, indices, data) {
      forall e | 0 <= e < 8 ensures Produces(F, W, ToElements(W, secret)[e], random[e], indices, Column(data, e)) {
        forall i | 0 <= i < |indices| ensures Eval(F, polys[e], XCoord(W, indices[i])) == Column(data, e)[i] {
        }
      }
    }
    if forall e :: 0 <= e < 8 ==> Produces(F, W, ToElements(W, secret)[e], random[e], indices, Column(data, e)) {
      forall i | 0 <= i < |indices| ensures dealing.shares[indices[i]].values == data[i] {
        forall e | 0 <= e < 8 ensures dealing.shares[indices[i]].values[e] == data[i][e] {
          assert Column(data, e)[i] == data[i][e];
        }
      }
    }
  }

  /** The point of a share is a 32-bit word: in a dealing of 2^32 shares the last of them lies at 0, where every polynomial has its
      constant coefficient. */
  lemma LastPointIsZero<T(!new), H>(
    F: Field<T>, W: Codec<T>, X: Hasher<seq<T>, H>, k: nat, n: nat, secret: seq<byte>, random: seq<seq<word>>,
    dealing: ShareSet<T, H>, layers: seq<seq<H>>)
    requires IsField(F) && IsCodec(F, W) && Dealt(F, W, X, k, n, secret, random, dealing, layers) && n >= 0x1_0000_0000
    ensures dealing.shares[0xFFFF_FFFF].values == ToElements(W, secret)
  {
    hide Eval, IsPaddedTree, Path, ToElements, HashValues;
    var elems := ToElements(W, secret);
    var polys := Polys(W, elems, random);
    forall e | 0 <= e < 8 ensures Eval(F, polys[e], XCoord(W, 0xFFFF_FFFF)) == elems[e] {
      EvalAtZero(F, polys[e]);
    }
    assert ShareValues(F, W, polys, 0xFFFF_FFFF) == elems;
  }

  /** Hiding for whole dealings: any k - 1 shares of a dealing other than that one, whatever they hold, are consistent with every
      32-byte secret, through exactly one choice of all the random words. */
  lemma DealingHides<T(!new), H(!new)>(
    F: Field<T>, W: Codec<T>, X: Hasher<seq<T>, H>, k: nat, n: nat, secret: seq<byte>, indices: seq<word>, data: seq<seq<T>>)
    returns (random: seq<seq<word>>)
    requires IsField(F) && IsCodec(F, W) && 2 <= k <= n && |secret| == 32
    requires |indices| == |data| == k - 1 && Distinct(indices)
    requires forall i :: 0 <= i < |indices| ==> indices[i] < n && indices[i] != 0xFFFF_FFFF && |data[i]| == 8
    ensures RandomFor(random, k)
    ensures forall other: seq<seq<word>>, dealing: ShareSet<T, H>, layers: seq<seq<H>> ::
      RandomFor(other, k) && Dealt(F, W, X, k, n, secret, other, dealing, layers) ==> (Shows(dealing, indices, data) <==> other == random)
  {
    hide *;
    var elems := ToElements(W, secret);
    random := ColumnsHide(F, W, elems, indices, data, 8);
    Shaped(F, W, elems, indices, data, random, k);
    forall other: seq<seq<word>>, dealing: ShareSet<T, H>, layers: seq<seq<H>>
      | RandomFor(other, k) && Dealt(F, W, X, k, n, secret, other, dealing, layers)
      ensures Shows(dealing, indices, data) <==> other == random
    {
      EightLists(other, k);
      DealtProduces(F, W, X, k, n, secret, other, dealing, layers, indices, data);
      SameRandom(F, W, elems, indices, data, random, other, k);
    }
  }

  lemma EightLists(random: seq<seq<word>>, k: nat)
    requires RandomFor(random, k)
    ensures |random| == 8
  {
  }

  lemma Shaped<T>(F: Field<T>, W: Codec<T>, elems: seq<T>, indices: seq<word>, data: seq<seq<T>>, random: seq<seq<word>>, k: nat)
    requires |elems| == |random| == 8 && |data| == |indices| == k - 1 && forall i :: 0 <= i < |data| ==> |data[i]| == 8
    requires forall e :: 0 <= e < 8 ==> OnlyOne(F, W, elems[e], indices, Column(data, e), random[e])
    ensures RandomFor(random, k)
  {
  }

  lemma SameRandom<T>(F: Field<T>, W: Codec<T>, elems: seq<T>, indices: seq<word>, data: seq<seq<T>>, random: seq<seq<word>>, other: seq<seq<word>>, k: nat)
    requires |elems| == |random| == 8 && |data| == |indices| == k - 1 && forall i :: 0 <= i < |data| ==> |data[i]| == 8
    requires RandomFor(other, k) && forall e :: 0 <= e < 8 ==> OnlyOne(F, W, elems[e], indices, Column(data, e), random[e])
    ensures other == random <==> forall e :: 0 <= e < 8 ==> Produces(F, W, elems[e], other[e], indices, Column(data, e))
  {
    hide Produces, Column;
    forall e | 0 <= e < 8 ensures other[e] == random[e] <==> Produces(F, W, elems[e], other[e], indices, Column(data, e)) {
    }
    if forall e :: 0 <= e < 8 ==> Produces(F, W, elems[e], other[e], indices, Column(data, e)) {
      assert forall e :: 0 <= e < 8 ==> other[e] == random[e];
      assert other == random;
    }
  }

  lemma HidingExists<T(!new)>(F: Field<T>, W: Codec<T>, indices: seq<word>, ys: seq<T>, secret: T, xs: seq<T>, p: seq<T>, random: seq<word>)
    requires IsField(F) && IsCodec(F, W) && |ys| == |indices| == |random| && |p| == |xs| == |indices| + 1 && xs[0] == F.zero
    requires forall i :: 0 <= i < |indices| ==> xs[i + 1] == XCoord(W, indices[i])
    requires forall i :: 0 <= i < |xs| ==> Eval(F, p, xs[i]) == ([secret] + ys)[i]
    requires forall i :: 0 <= i < |random| ==> random[i] == W.To(p[i + 1])
    ensures Produces(F, W, secret, random, indices, ys)
  {
    hide Eval;
    assert Eval(F, p, xs[0]) == secret;
    EvalAtZero(F, p);
    assert [secret] + Elements(W, random) == p;
    forall i | 0 <= i < |indices| ensures Eval(F, p, XCoord(W, indices[i])) == ys[i] {
      assert Eval(F, p, xs[i + 1]) == ([secret] + ys)[i + 1];
    }
  }

  lemma HidingUnique<T(!new)>(F: Field<T>, W: Codec<T>, indices: seq<word>, ys: seq<T>, secret: T, xs: seq<T>, r: seq<word>, r': seq<word>)
    requires IsField(F) && IsCodec(F, W) && |ys| == |indices| == |r| == |r'| && |xs| == |indices| + 1 && xs[0] == F.zero && Distinct(xs)
    requires forall i :: 0 <= i < |indices| ==> xs[i + 1] == XCoord(W, indices[i])
    requires Produces(F, W, secret, r, indices, ys) && Produces(F, W, secret, r', indices, ys)
    ensures r == r'
  {
    hide Eval;
    var p, q := [secret] + Elements(W, r), [secret] + Elements(W, r');
    EvalAtZero(F, p);
    EvalAtZero(F, q);
    forall i | 0 <= i < |xs| ensures Eval(F, p, xs[i]) == Eval(F, q, xs[i]) {
      if i > 0 {
        assert xs[i - 1 + 1] == XCoord(W, indices[i - 1]);
      }
    }
    Agreement(F, p, q, xs);
    forall i | 0 <= i < |r| ensures r[i] == r'[i] {
      assert p[i + 1] == W.Of(r[i]) && q[i + 1] == W.Of(r'[i]);
      assert W.To(W.Of(r[i])) == r[i] && W.To(W.Of(r'[i])) == r'[i];
    }
  }

  /** The sharing polynomial with this secret and these random words takes the values ys at the shares' points. */
  ghost predicate Produces<T>(F: Field<T>, W: Codec<T>, secret: T, random: seq<word>, indices: seq<word>, ys: seq<T>)
    requires |indices| == |ys|
  {
    forall i :: 0 <= i < |indices| ==> Eval(F, [secret] + Elements(W, random), XCoord(W, indices[i])) == ys[i]
  }

  lemma PointsDistinct<T(!new)>(F: Field<T>, W: Codec<T>, indices: seq<word>, xs: seq<T>)
    requires IsCodec(F, W) && Distinct(indices)
    requires forall i :: 0 <= i < |indices| ==> indices[i] != 0xFFFF_FFFF
    requires |xs| == |indices| + 1 && xs[0] == F.zero
    requires forall i :: 0 <= i < |indices| ==> xs[i + 1] == XCoord(W, indices[i])
    ensures Distinct(xs)
  {
    forall i, j | 0 <= i < j < |xs| ensures xs[i] != xs[j] {
      assert xs[j - 1 + 1] == XCoord(W, indices[j - 1]);
      assert W.To(xs[j]) == indices[j - 1] as int + 1;
      if i > 0 {
        assert xs[i - 1 + 1] == XCoord(W, indices[i - 1]);
        assert W.To(xs[i]) == indices[i - 1] as int + 1;
      } else {
        assert W.To(W.Of(0)) == 0;
      }
    }
  }
}
