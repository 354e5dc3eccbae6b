/** The threshold OPRF (`crates/ghettobox/src/oprf.rs`): interpolation in the exponent. */
module Oprf {
  import opened Wrappers
  import opened Fields
  import opened Polynomials
  import opened Interpolation

  datatype Error = InvalidThreshold | NotEnoughShares(have: nat, need: nat) | InvalidPoint

  /** A group of points P over scalars S with encodings E, and the hashes of the protocol. */
  datatype Group<!P, !S, !E, !I, !K> = Group(
    identity: P, base: P, add: (P, P) -> P, scale: (P, S) -> P,
    compress: P -> E, decompress: E -> Option<P>,
    hashToGroup: I -> P, deriveKey: E -> K, challenge: (P, P, P, P, P, P) -> S)
  {
    function Add(p: P, q: P): P { add(p, q) }
    function Scale(p: P, a: S): P { scale(p, a) }
    function Compress(p: P): E { compress(p) }
    function Decompress(e: E): Option<P> { decompress(e) }
    function Challenge(a: P, b: P, c: P, d: P, e: P, f: P): S { challenge(a, b, c, d, e, f) }
  }

  /** What the protocol needs of the group: scalars act on points, and encodings can be read back. */
  ghost predicate IsGroup<P(!new), S(!new), E(!new), I, K>(F: Field<S>, G: Group<P, S, E, I, K>) {
    && IsField(F)
    && (forall p :: G.Scale(p, F.one) == p)
    && (forall p :: G.Scale(p, F.zero) == G.identity)
    && (forall p, a, b :: G.Scale(G.Scale(p, a), b) == G.Scale(p, F.Mul(a, b)))
    && (forall p, a, b :: G.Add(G.Scale(p, a), G.Scale(p, b)) == G.Scale(p, F.Add(a, b)))
    && (forall p :: G.Decompress(G.Compress(p)) == Some(p))
  }

  /** `Scalar::from(u64)` */
  function OfNat<S>(F: Field<S>, n: nat): S {
    if n == 0 then F.zero else F.Add(OfNat(F, n - 1), F.one)
  }

  /** The 256 possible server indices are distinct scalars. */
  ghost predicate DistinctIndices<S>(F: Field<S>) {
    forall i, j :: 0 <= i < j < 256 ==> OfNat(F, i) != OfNat(F, j)
  }

  // ----- dealing -----

  datatype Share<P, S> = Share(index: nat, scalar: S, publicKey: P)

  /** What `deal` hands to server i: the polynomial at i, under the index i as one byte. */
  function Dealt<P, S, E, I, K>(F: Field<S>, G: Group<P, S, E, I, K>, coeffs: seq<S>, i: nat): Share<P, S> {
    var s := Eval(F, coeffs, OfNat(F, i));
    Share(i % 256, s, G.Scale(G.base, s))
  }

  /** `OprfDealer::deal`; the random coefficients are a parameter. */
  method Deal<P(!new), S(!new), E, I, K>(F: Field<S>, G: Group<P, S, E, I, K>, threshold: nat, total: nat, coeffs: seq<S>)
    returns (r: Result<(E, seq<Share<P, S>>), Error>)
    requires IsField(F) && |coeffs| == threshold
    ensures r.Failure? <==> threshold > total || threshold == 0
    ensures r.Failure? ==> r.error == InvalidThreshold
    ensures r.Success? ==> r.value.0 == G.Compress(G.Scale(G.base, coeffs[0]))
    ensures r.Success? ==> |r.value.1| == total && forall i :: 1 <= i <= total ==> r.value.1[i - 1] == Dealt(F, G, coeffs, i)
  {
    if threshold > total || threshold == 0 {
      return Failure(InvalidThreshold);
    }
    hide Eval, OfNat;
    var publicKey := G.Compress(G.Scale(G.base, coeffs[0]));
    var shares: seq<Share<P, S>> := [];
    for i := 1 to total + 1
      invariant |shares| == i - 1 && forall j :: 1 <= j < i ==> shares[j - 1] == Dealt(F, G, coeffs, j)
    {
      var x := OfNat(F, i);
      var s := EvaluateByPowers(F, coeffs, x);
      shares := shares + [Share(i % 256, s, G.Scale(G.base, s))];
    }
    r := Success((publicKey, shares));
  }

  /** Share i lies on the polynomial under the index it carries. */
  ghost predicate Usable<P, S, E, I, K>(F: Field<S>, G: Group<P, S, E, I, K>, coeffs: seq<S>, i: nat) {
    var share := Dealt(F, G, coeffs, i);
    share.scalar == Eval(F, coeffs, OfNat(F, share.index))
  }

  /** The index is one byte: every share of every dealing is usable exactly when the polynomial is constant, there are at
      most 255 shares, or 256 is zero among the scalars. */
  lemma DealtUsable<P(!new), S(!new), E, I, K>(F: Field<S>, G: Group<P, S, E, I, K>, threshold: nat, total: nat)
    requires IsField(F) && 1 <= threshold <= total
    ensures (forall coeffs: seq<S>, i :: |coeffs| == threshold && 1 <= i <= total ==> Usable(F, G, coeffs, i))
      <==> threshold == 1 || total <= 255 || OfNat(F, 256) == F.zero
  {
    hide Eval, OfNat;
    if threshold == 1 || total <= 255 || OfNat(F, 256) == F.zero {
      forall coeffs: seq<S>, i | |coeffs| == threshold && 1 <= i <= total ensures Usable(F, G, coeffs, i) {
        if threshold == 1 {
          EvalConstant(F, coeffs, OfNat(F, i));
          EvalConstant(F, coeffs, OfNat(F, i % 256));
        } else if total > 255 {
          OfNatWraps(F, i);
        }
      }
    } else {
      var coeffs := [F.zero, F.one] + seq(threshold - 2, _ => F.zero);
      EvalIdentity(F, coeffs, OfNat(F, 256));
      EvalIdentity(F, coeffs, F.zero);
      OfZero(F);
      assert !Usable(F, G, coeffs, 256);
    }
  }

  lemma EvalConstant<S(!new)>(F: Field<S>, coeffs: seq<S>, x: S)
    requires IsField(F) && |coeffs| == 1
    ensures Eval(F, coeffs, x) == coeffs[0]
  {
    MulZero(F, x);
    assert Eval(F, coeffs[1..], x) == F.zero;
  }

  lemma EvalIdentity<S(!new)>(F: Field<S>, coeffs: seq<S>, x: S)
    requires IsField(F) && |coeffs| >= 2 && coeffs[0] == F.zero && coeffs[1] == F.one
    requires forall k :: 2 <= k < |coeffs| ==> coeffs[k] == F.zero
    ensures Eval(F, coeffs, x) == x
  {
    hide Eval;
    EvalStep(F, coeffs, x);
    EvalStep(F, coeffs[1..], x);
    EvalZero(F, coeffs[1..][1..], x);
    MulZero(F, x);
  }

  lemma {:induction false} OfNatAdd<S(!new)>(F: Field<S>, m: nat, n: nat)
    requires IsField(F)
    ensures OfNat(F, m + n) == F.Add(OfNat(F, m), OfNat(F, n))
  {
    if n != 0 {
      OfNatAdd(F, m, n - 1);
      AddAssoc(F, OfNat(F, m), OfNat(F, n - 1), F.one);
    }
  }

  lemma {:induction false} OfNatWraps<S(!new)>(F: Field<S>, i: nat)
    requires IsField(F) && OfNat(F, 256) == F.zero
    ensures OfNat(F, i) == OfNat(F, i % 256)
  {
    hide OfNat;
    if i >= 256 {
      OfNatAdd(F, i - 256, 256);
      OfNatWraps(F, i - 256);
    }
  }

  lemma OfZero<S>(F: Field<S>)
    ensures OfNat(F, 0) == F.zero
  {
  }

  // ----- evaluation and finalisation -----

  /** `OprfClient`, with the blinding scalar r. */
  datatype Client<P, S> = Client(r: S, blinded: P)

  function NewClient<P, S, E, I, K>(G: Group<P, S, E, I, K>, input: I, r: S): Client<P, S> {
    Client(r, G.Scale(G.hashToGroup(input), r))
  }

  /** `OprfShare::evaluate` */
  function Evaluate<P, S, E, I, K>(G: Group<P, S, E, I, K>, share: Share<P, S>, blinded: E): (r: Result<E, Error>)
    ensures G.Decompress(blinded).None? <==> r == Failure(InvalidPoint)
  {
    match G.Decompress(blinded)
    case None => Failure(InvalidPoint)
    case Some(p) => Success(G.Compress(G.Scale(p, share.scalar)))
  }

  function Indices<P, S>(F: Field<S>, points: seq<(nat, P)>): (r: seq<S>)
    ensures |r| == |points|
  {
    seq(|points|, i requires 0 <= i < |points| => OfNat(F, points[i].0))
  }

  /** `lagrange_coefficient`: the i-th basis polynomial at zero. */
  method LagrangeCoefficient<S(!new)>(F: Field<S>, i: nat, xs: seq<S>) returns (lambda: S)
    requires IsField(F) && i < |xs|
    ensures lambda == Basis(F, xs, i, F.zero)
  {
    var xi := xs[i];
    var num, den := F.one, F.one;
    for j := 0 to |xs|
      invariant num == SkipProduct(F, F.zero, xs, i, j)
      invariant den == SkipProduct(F, xi, xs, i, j)
    {
      if i != j {
        num := F.Mul(num, F.Sub(F.zero, xs[j]));
        den := F.Mul(den, F.Sub(xi, xs[j]));
      }
    }
    lambda := F.Mul(num, F.Inv(den));
  }

  /** The sum of point i times basis polynomial i at zero, over i < n. */
  function CombinePoints<P, S, E, I, K>(F: Field<S>, G: Group<P, S, E, I, K>, points: seq<(nat, P)>, n: nat): P
    requires n <= |points|
  {
    if n == 0 then G.identity
    else G.Add(CombinePoints(F, G, points, n - 1), G.Scale(points[n - 1].1, Basis(F, Indices(F, points), n - 1, F.zero)))
  }

  /** `lagrange_interpolate_points` */
  method InterpolatePoints<P(!new), S(!new), E, I, K>(F: Field<S>, G: Group<P, S, E, I, K>, points: seq<(nat, P)>) returns (result: P)
    requires IsField(F)
    ensures result == CombinePoints(F, G, points, |points|)
  {
    hide Basis, OfNat;
    result := G.identity;
    var xs := Indices(F, points);
    for i := 0 to |points|
      invariant result == CombinePoints(F, G, points, i)
    {
      var lambda := LagrangeCoefficient(F, i, xs);
      result := G.Add(result, G.Scale(points[i].1, lambda));
    }
  }

  /** Interpolation in the exponent: combining B * y_i gives B * (interpolation of the y_i). */
  lemma {:induction false} CombineInExponent<P(!new), S(!new), E(!new), I, K>(
    F: Field<S>, G: Group<P, S, E, I, K>, b: P, points: seq<(nat, P)>, ys: seq<S>, n: nat)
    requires IsGroup(F, G) && n <= |points| == |ys|
    requires forall i :: 0 <= i < |points| ==> points[i].1 == G.Scale(b, ys[i])
    ensures CombinePoints(F, G, points, n) == G.Scale(b, Interpolate(F, Indices(F, points), ys, F.zero, n))
  {
    hide Basis, OfNat;
    if n != 0 {
      CombineInExponent(F, G, b, points, ys, n - 1);
    }
  }

  /** The decompressed prefix, or nothing if some encoding is not a point. */
  function DecompressAll<P, S, E, I, K>(G: Group<P, S, E, I, K>, rs: seq<(nat, E)>): (r: Option<seq<(nat, P)>>)
    ensures r.Some? ==> |r.value| == |rs|
  {
    if rs == [] then Some([])
    else
      var rest := DecompressAll(G, rs[..|rs| - 1]);
      var last := rs[|rs| - 1];
      if rest.None? || G.Decompress(last.1).None? then None else Some(rest.value + [(last.0, G.Decompress(last.1).value)])
  }

  /** What `finalize` answers. */
  function Finalized<P, S, E, I, K>(F: Field<S>, G: Group<P, S, E, I, K>, client: Client<P, S>, rs: seq<(nat, E)>, threshold: nat): Result<K, Error> {
    if |rs| < threshold then Failure(NotEnoughShares(|rs|, threshold))
    else
      match DecompressAll(G, rs[..threshold])
      case None => Failure(InvalidPoint)
      case Some(points) =>
        Success(G.deriveKey(G.Compress(G.Scale(CombinePoints(F, G, points, threshold), F.Inv(client.r)))))
  }

  /** `OprfClient::finalize` */
  method Finalize<P(!new), S(!new), E, I, K>(F: Field<S>, G: Group<P, S, E, I, K>, client: Client<P, S>, rs: seq<(nat, E)>, threshold: nat)
    returns (r: Result<K, Error>)
    requires IsField(F)
    ensures r == Finalized(F, G, client, rs, threshold)
  {
    if |rs| < threshold {
      return Failure(NotEnoughShares(|rs|, threshold));
    }
    hide CombinePoints;
    var points: seq<(nat, P)> := [];
    var used := rs[..threshold];
    for i := 0 to threshold
      invariant |points| == i && DecompressAll(G, used[..i]) == Some(points)
    {
      assert used[..i + 1][..i] == used[..i];
      match G.Decompress(used[i].1) {
        case None =>
          DecompressNone(G, used, i + 1);
          return Failure(InvalidPoint);
        case Some(p) =>
          points := points + [(used[i].0, p)];
      }
    }
    assert used[..threshold] == used;
    var combined := InterpolatePoints(F, G, points);
    var unblinded := G.Scale(combined, F.Inv(client.r));
    r := Success(G.deriveKey(G.Compress(unblinded)));
  }

  lemma {:induction false} DecompressFails<P, S, E, I, K>(G: Group<P, S, E, I, K>, rs: seq<(nat, E)>)
    ensures DecompressAll(G, rs).None? <==> exists i :: 0 <= i < |rs| && G.Decompress(rs[i].1).None?
  {
    if rs != [] {
      DecompressFails(G, rs[..|rs| - 1]);
      assert forall i :: 0 <= i < |rs| - 1 ==> rs[..|rs| - 1][i] == rs[i];
    }
  }

  /** The two failures of `finalize`, and nothing else: too few responses, or a bad encoding among those it uses. */
  lemma FinalizeFails<P, S, E, I, K>(F: Field<S>, G: Group<P, S, E, I, K>, client: Client<P, S>, rs: seq<(nat, E)>, threshold: nat)
    ensures Finalized(F, G, client, rs, threshold).Failure? <==>
      |rs| < threshold || exists i :: 0 <= i < threshold && G.Decompress(rs[i].1).None?
    ensures var r := Finalized(F, G, client, rs, threshold);
      r.Failure? ==> r.error == if |rs| < threshold then NotEnoughShares(|rs|, threshold) else InvalidPoint
  {
    hide DecompressAll, CombinePoints;
    if |rs| >= threshold {
      DecompressFails(G, rs[..threshold]);
      assert forall i :: 0 <= i < threshold ==> rs[..threshold][i] == rs[i];
    }
  }

  lemma {:induction false} DecompressNone<P, S, E, I, K>(G: Group<P, S, E, I, K>, rs: seq<(nat, E)>, i: nat)
    requires i <= |rs| && DecompressAll(G, rs[..i]).None?
    ensures DecompressAll(G, rs).None?
    decreases |rs| - i
  {
    if i == |rs| {
      assert rs[..i] == rs;
    } else {
      assert rs[..i + 1][..i] == rs[..i];
      DecompressNone(G, rs, i + 1);
    }
  }

  /** A response an honest server of this dealing gives to this client. */
  ghost predicate Honest<P, S, E, I, K>(F: Field<S>, G: Group<P, S, E, I, K>, coeffs: seq<S>, client: Client<P, S>, r: (nat, E)) {
    r.0 < 256 && r.1 == G.Compress(G.Scale(client.blinded, Eval(F, coeffs, OfNat(F, r.0))))
  }

  /** A usable share, so every one of the first 255, answers honestly under its own index. */
  lemma DealtIsHonest<P(!new), S(!new), E(!new), I, K>(F: Field<S>, G: Group<P, S, E, I, K>, coeffs: seq<S>, client: Client<P, S>, i: nat)
    requires IsGroup(F, G) && (i <= 255 || Usable(F, G, coeffs, i))
    ensures var share := Dealt(F, G, coeffs, i);
      exists e :: Evaluate(G, share, G.Compress(client.blinded)) == Success(e) && Honest(F, G, coeffs, client, (share.index, e))
  {
    hide Eval, OfNat;
    var share := Dealt(F, G, coeffs, i);
    var e := G.Compress(G.Scale(client.blinded, share.scalar));
    assert Evaluate(G, share, G.Compress(client.blinded)) == Success(e);
    assert Honest(F, G, coeffs, client, (share.index, e));
  }

  ghost predicate DistinctServers<E>(rs: seq<(nat, E)>) {
    forall i, j :: 0 <= i < j < |rs| ==> rs[i].0 != rs[j].0
  }

  lemma {:induction false} DecompressHonest<P(!new), S(!new), E(!new), I, K>(
    F: Field<S>, G: Group<P, S, E, I, K>, coeffs: seq<S>, client: Client<P, S>, rs: seq<(nat, E)>)
    requires IsGroup(F, G) && forall i :: 0 <= i < |rs| ==> Honest(F, G, coeffs, client, rs[i])
    ensures var d := DecompressAll(G, rs); d.Some? && forall i :: 0 <= i < |rs| ==>
      d.value[i] == (rs[i].0, G.Scale(client.blinded, Eval(F, coeffs, OfNat(F, rs[i].0))))
  {
    hide Eval, OfNat;
    if rs != [] {
      DecompressHonest(F, G, coeffs, client, rs[..|rs| - 1]);
      assert Honest(F, G, coeffs, client, rs[|rs| - 1]);
    }
  }

  /** The key depends only on the input and the dealer's constant coefficient: any blinding r, any threshold-many
      honest responses with distinct indices, in any order, and whatever follows them. */
  lemma KeyIsDetermined<P(!new), S(!new), E(!new), I, K>(
    F: Field<S>, G: Group<P, S, E, I, K>, coeffs: seq<S>, input: I, r: S, rs: seq<(nat, E)>)
    requires IsGroup(F, G) && DistinctIndices(F) && r != F.zero && coeffs != [] && |rs| >= |coeffs|
    requires DistinctServers(rs[..|coeffs|])
    requires forall i :: 0 <= i < |coeffs| ==> Honest(F, G, coeffs, NewClient(G, input, r), rs[i])
    ensures Finalized(F, G, NewClient(G, input, r), rs, |coeffs|) ==
      Success(G.deriveKey(G.Compress(G.Scale(G.hashToGroup(input), coeffs[0]))))
  {
    hide Eval, OfNat, Interpolate, CombinePoints, DecompressAll, IsGroup;
    var client, used := NewClient(G, input, r), rs[..|coeffs|];
    GroupField(F, G);
    DecompressHonest(F, G, coeffs, client, used);
    var points := DecompressAll(G, used).value;
    var xs := Indices(F, points);
    var ys := seq(|xs|, i requires 0 <= i < |xs| => Eval(F, coeffs, xs[i]));
    forall i, j | 0 <= i < j < |xs| ensures xs[i] != xs[j] {
      assert Honest(F, G, coeffs, client, used[i]) && Honest(F, G, coeffs, client, used[j]);
      assert used[i].0 < used[j].0 || used[j].0 < used[i].0;
    }
    CombineInExponent(F, G, client.blinded, points, ys, |points|);
    InterpolationExact(F, coeffs, xs, ys, F.zero);
    EvalAtZero(F, coeffs);
    Unblind(F, G, G.hashToGroup(input), r, coeffs[0]);
  }

  lemma GroupField<P(!new), S(!new), E(!new), I, K>(F: Field<S>, G: Group<P, S, E, I, K>)
    requires IsGroup(F, G)
    ensures IsField(F)
  {
  }

  lemma Unblind<P(!new), S(!new), E(!new), I, K>(F: Field<S>, G: Group<P, S, E, I, K>, p: P, r: S, s: S)
    requires IsGroup(F, G) && r != F.zero
    ensures G.Scale(G.Scale(G.Scale(p, r), s), F.Inv(r)) == G.Scale(p, s)
  {
    MulAssoc(F, s, r, F.Inv(r));
    assert F.Mul(F.Mul(r, s), F.Inv(r)) == s;
  }

  // ----- DLEQ proofs -----

  datatype Dleq<S> = Dleq(c: S, s: S)

  /** `DleqProof::create` with the random nonce k. */
  function CreateDleq<P, S, E, I, K>(F: Field<S>, G: Group<P, S, E, I, K>, secret: S, blinded: P, response: P, publicKey: P, k: S): Dleq<S> {
    var c := G.Challenge(G.base, publicKey, blinded, response, G.Scale(G.base, k), G.Scale(blinded, k));
    Dleq(c, F.Sub(k, F.Mul(c, secret)))
  }

  /** `DleqProof::verify` */
  predicate VerifyDleq<P, S(==), E, I, K>(G: Group<P, S, E, I, K>, proof: Dleq<S>, blinded: P, response: P, publicKey: P) {
    var r1 := G.Add(G.Scale(G.base, proof.s), G.Scale(publicKey, proof.c));
    var r2 := G.Add(G.Scale(blinded, proof.s), G.Scale(response, proof.c));
    proof.c == G.Challenge(G.base, publicKey, blinded, response, r1, r2)
  }

  /** Honest proofs always verify. */
  lemma HonestDleqVerifies<P(!new), S(!new), E(!new), I, K>(F: Field<S>, G: Group<P, S, E, I, K>, secret: S, blinded: P, k: S)
    requires IsGroup(F, G)
    ensures var response, publicKey := G.Scale(blinded, secret), G.Scale(G.base, secret);
      VerifyDleq(G, CreateDleq(F, G, secret, blinded, response, publicKey, k), blinded, response, publicKey)
  {
    var response, publicKey := G.Scale(blinded, secret), G.Scale(G.base, secret);
    var proof := CreateDleq(F, G, secret, blinded, response, publicKey, k);
    Nonce(F, G, G.base, secret, proof.c, k);
    Nonce(F, G, blinded, secret, proof.c, k);
  }

  /** Addition of points is associative and commutative. */
  ghost predicate IsAbelian<P(!new), S, E, I, K>(G: Group<P, S, E, I, K>) {
    && (forall p, q :: G.Add(p, q) == G.Add(q, p))
    && (forall p, q, r {:trigger At(p, q, r)} :: At(p, q, r) ==> G.Add(G.Add(p, q), r) == G.Add(p, G.Add(q, r)))
  }

  /** (c, s) answers the commitments r1, r2 for the claim that one scalar takes base to publicKey and blinded to response. */
  ghost predicate Answers<P, S, E, I, K>(G: Group<P, S, E, I, K>, blinded: P, response: P, publicKey: P, r1: P, r2: P, c: S, s: S) {
    && r1 == G.Add(G.Scale(G.base, s), G.Scale(publicKey, c))
    && r2 == G.Add(G.Scale(blinded, s), G.Scale(response, c))
  }

  /** A proof is accepted exactly when it answers some commitments at the challenge hashed from the claim and them. */
  lemma DleqAccepts<P(!new), S, E, I, K>(G: Group<P, S, E, I, K>, proof: Dleq<S>, blinded: P, response: P, publicKey: P)
    ensures VerifyDleq(G, proof, blinded, response, publicKey) <==>
      exists r1, r2 :: Answers(G, blinded, response, publicKey, r1, r2, proof.c, proof.s)
        && proof.c == G.Challenge(G.base, publicKey, blinded, response, r1, r2)
  {
    var r1 := G.Add(G.Scale(G.base, proof.s), G.Scale(publicKey, proof.c));
    var r2 := G.Add(G.Scale(blinded, proof.s), G.Scale(response, proof.c));
    assert Answers(G, blinded, response, publicKey, r1, r2, proof.c, proof.s);
  }

  /** Soundness: if no scalar takes base to publicKey and blinded to response, then any commitments can be answered at one
      challenge at most, so a proof is accepted only if the hash hits that one. */
  lemma DleqSound<P(!new), S(!new), E(!new), I, K>(
    F: Field<S>, G: Group<P, S, E, I, K>, blinded: P, response: P, publicKey: P, r1: P, r2: P, c: S, s: S, c': S, s': S)
    requires IsGroup(F, G) && IsAbelian(G)
    requires Answers(G, blinded, response, publicKey, r1, r2, c, s) && Answers(G, blinded, response, publicKey, r1, r2, c', s')
    ensures c == c' || exists x :: publicKey == G.Scale(G.base, x) && response == G.Scale(blinded, x)
  {
    if c != c' {
      hide IsGroup, IsAbelian;
      var x := F.Mul(F.Sub(s', s), F.Inv(F.Sub(c, c')));
      SameExponent(F, G, G.base, publicKey, c, s, c', s');
      SameExponent(F, G, blinded, response, c, s, c', s');
      assert publicKey == G.Scale(G.base, x) && response == G.Scale(blinded, x);
    }
  }

  lemma Regroup<P(!new), S, E, I, K>(G: Group<P, S, E, I, K>, p: P, q: P, r: P, t: P)
    requires IsAbelian(G)
    ensures G.Add(G.Add(p, q), G.Add(r, t)) == G.Add(G.Add(p, r), G.Add(q, t))
  {
    assert At(p, q, G.Add(r, t)) && At(q, r, t) && At(r, q, t) && At(p, r, G.Add(q, t));
  }

  /** Two ways to write one point: from a s + b c == a s' + b c' follows b (c - c') == a (s' - s). */
  lemma Cross<P(!new), S(!new), E(!new), I, K>(F: Field<S>, G: Group<P, S, E, I, K>, a: P, b: P, c: S, s: S, c': S, s': S)
    requires IsGroup(F, G) && IsAbelian(G)
    requires G.Add(G.Scale(a, s), G.Scale(b, c)) == G.Add(G.Scale(a, s'), G.Scale(b, c'))
    ensures G.Scale(b, F.Sub(c, c')) == G.Scale(a, F.Sub(s', s))
  {
    hide IsAbelian;
    var back := G.Add(G.Scale(a, F.Neg(s)), G.Scale(b, F.Neg(c')));
    Regroup(G, G.Scale(a, s), G.Scale(b, c), G.Scale(a, F.Neg(s)), G.Scale(b, F.Neg(c')));
    Regroup(G, G.Scale(a, s'), G.Scale(b, c'), G.Scale(a, F.Neg(s)), G.Scale(b, F.Neg(c')));
    AddScalars(F, G, a, s, F.Neg(s));
    AddScalars(F, G, b, c, F.Neg(c'));
    AddScalars(F, G, a, s', F.Neg(s));
    AddScalars(F, G, b, c', F.Neg(c'));
    NothingAdded(F, G, a, b, F.Sub(c, c'));
    NothingAdded(F, G, b, a, F.Sub(s', s));
    assert G.Add(G.Add(G.Scale(a, s), G.Scale(b, c)), back) == G.Add(G.Scale(a, F.zero), G.Scale(b, F.Sub(c, c')));
    assert G.Add(G.Add(G.Scale(a, s'), G.Scale(b, c')), back) == G.Add(G.Scale(a, F.Sub(s', s)), G.Scale(b, F.zero));
    PointsCommute(G, G.Scale(a, F.Sub(s', s)), G.Scale(b, F.zero));
  }

  lemma PointsCommute<P(!new), S, E, I, K>(G: Group<P, S, E, I, K>, p: P, q: P)
    requires IsAbelian(G)
    ensures G.Add(p, q) == G.Add(q, p)
  {
  }

  lemma AddScalars<P(!new), S(!new), E(!new), I, K>(F: Field<S>, G: Group<P, S, E, I, K>, p: P, a: S, b: S)
    requires IsGroup(F, G)
    ensures G.Add(G.Scale(p, a), G.Scale(p, b)) == G.Scale(p, F.Add(a, b))
  {
  }

  lemma NothingAdded<P(!new), S(!new), E(!new), I, K>(F: Field<S>, G: Group<P, S, E, I, K>, p: P, q: P, a: S)
    requires IsGroup(F, G)
    ensures G.Add(G.Scale(p, F.zero), G.Scale(q, a)) == G.Scale(q, a)
  {
    assert G.Scale(p, F.zero) == G.Scale(q, F.zero);
    AddScalars(F, G, q, F.zero, a);
    assert F.Add(F.zero, a) == F.Add(a, F.zero) == a;
  }

  lemma SameExponent<P(!new), S(!new), E(!new), I, K>(F: Field<S>, G: Group<P, S, E, I, K>, a: P, b: P, c: S, s: S, c': S, s': S)
    requires IsGroup(F, G) && IsAbelian(G) && c != c'
    requires G.Add(G.Scale(a, s), G.Scale(b, c)) == G.Add(G.Scale(a, s'), G.Scale(b, c'))
    ensures b == G.Scale(a, F.Mul(F.Sub(s', s), F.Inv(F.Sub(c, c'))))
  {
    hide IsAbelian;
    Cross(F, G, a, b, c, s, c', s');
    var d, e := F.Sub(c, c'), F.Sub(s', s);
    SubZero(F, c, c');
    assert G.Scale(G.Scale(b, d), F.Inv(d)) == G.Scale(b, F.Mul(d, F.Inv(d))) == b;
    assert G.Scale(G.Scale(a, e), F.Inv(d)) == G.Scale(a, F.Mul(e, F.Inv(d)));
  }

  /** p * (k - c x) + (p * x) * c == p * k */
  lemma Nonce<P(!new), S(!new), E(!new), I, K>(F: Field<S>, G: Group<P, S, E, I, K>, p: P, x: S, c: S, k: S)
    requires IsGroup(F, G)
    ensures G.Add(G.Scale(p, F.Sub(k, F.Mul(c, x))), G.Scale(G.Scale(p, x), c)) == G.Scale(p, k)
  {
    SubZero(F, k, F.Mul(c, x));
    assert F.Mul(x, c) == F.Mul(c, x);
  }
}
