/** Two-of-three sharing of 32 bytes over GF(256) (`crates/ghettobox/src/vss.rs`). */
module Vss {
  import opened Wrappers
  import opened Powers
  import opened Fields
  import opened Polynomials
  import opened Interpolation
  import opened BinaryPoly
  import opened BinaryElem
  import opened GaloisField
  import opened AesField

  /** A byte as the set of its bits. */
  type Byte = p: Poly | Below(p, 8) witness {}

  function Bytes(): Carrier<Byte> {
    var bits: Byte -> Poly := (b: Byte) => b;
    var byte: Poly -> Byte := (p: Poly) => Low(p, 8);
    Carrier(bits, byte)
  }

  lemma BytesCarry()
    ensures IsCarrier(Bytes(), 8)
  {
    forall p: Poly | Below(p, 8) ensures Low(p, 8) == p {
    }
  }

  /** The field in which `gf256_mul`, `gf256_inv` and exclusive or compute. */
  ghost function Gf256(): Field<Byte> {
    BytesCarry();
    AesIrreducible();
    ResidueField(Bytes(), 8, AES)
  }

  lemma Gf256IsBinary()
    ensures IsBinary(Gf256())
  {
    BytesCarry();
    AesIrreducible();
    ResidueFieldIsBinary(Bytes(), 8, AES);
  }

  /** Its product is the one `gf256_mul` computes and its sum is exclusive or. */
  lemma Gf256Operations(a: Byte, b: Byte)
    ensures Gf256().Mul(a, b) == MulMod(a, b, Modulus({4, 3, 1, 0}, 8)) && Gf256().Add(a, b) == Xor(a, b)
  {
    BytesCarry();
    AesIrreducible();
    CarrierBits(Bytes(), 8, AES, a, b);
  }

  /** `gf256_inv` computes a^254, and a times a^254 is 1 for every byte other than 0. */
  lemma Gf256Inverse(a: Byte)
    requires a != {}
    ensures MulMod(a, Pow(Gf256(), a, 254), AES) == {0} && Pow(Gf256(), a, 254) == Gf256().Inv(a)
  {
    hide Pow;
    BytesCarry();
    AesIrreducible();
    InverseIsPower(Bytes(), 8, AES, a);
    assert Pow2(8) == 256 by { Pow2Eight(); }
    CarrierBits(Bytes(), 8, AES, a, Pow(Gf256(), a, 254));
  }

  lemma Pow2Eight()
    ensures Pow2(8) == 256
  {
    assert Pow2(4) == 16;
  }

  // ----- shares -----

  datatype Error = InvalidSecretLength | NotEnoughShares(have: nat, need: nat)

  datatype Share = Share(index: nat, data: seq<Byte>)

  const THRESHOLD := 2

  /** The byte `index`. */
  function IndexByte(index: nat): Byte
    requires index < 256
  {
    Pow2Eight();
    BitsOfBelow(index, 8);
    BitsOf(index)
  }

  function ShareOf(F: Field<Byte>, secret: seq<Byte>, coeffs: seq<Byte>, index: nat): (s: Share)
    requires |secret| <= |coeffs| && index < 256
    ensures s.index == index && |s.data| == |secret|
  {
    Share(index, seq(|secret|, k requires 0 <= k < |secret| => Eval(F, [secret[k], coeffs[k]], IndexByte(index))))
  }

  function Dealt(F: Field<Byte>, secret: seq<Byte>, coeffs: seq<Byte>): seq<Share>
    requires |secret| <= |coeffs|
  {
    [ShareOf(F, secret, coeffs, 1), ShareOf(F, secret, coeffs, 2), ShareOf(F, secret, coeffs, 3)]
  }

  /** `split_secret`; `coeffs` are the random bytes. */
  method SplitSecret(F: Field<Byte>, secret: seq<Byte>, coeffs: seq<Byte>) returns (r: Result<seq<Share>, Error>)
    requires IsField(F) && |coeffs| == 32
    ensures r == if |secret| != 32 then Failure(InvalidSecretLength) else Success(Dealt(F, secret, coeffs))
  {
    if |secret| != 32 {
      return Failure(InvalidSecretLength);
    }
    hide Eval;
    var d1, d2, d3: seq<Byte> := [], [], [];
    for i := 0 to 32
      invariant |d1| == |d2| == |d3| == i
      invariant d1 == ShareOf(F, secret, coeffs, 1).data[..i]
      invariant d2 == ShareOf(F, secret, coeffs, 2).data[..i]
      invariant d3 == ShareOf(F, secret, coeffs, 3).data[..i]
    {
      var y1 := EvaluateByPowers(F, [secret[i], coeffs[i]], IndexByte(1));
      var y2 := EvaluateByPowers(F, [secret[i], coeffs[i]], IndexByte(2));
      var y3 := EvaluateByPowers(F, [secret[i], coeffs[i]], IndexByte(3));
      d1, d2, d3 := d1 + [y1], d2 + [y2], d3 + [y3];
    }
    WholeData(ShareOf(F, secret, coeffs, 1).data);
    WholeData(ShareOf(F, secret, coeffs, 2).data);
    WholeData(ShareOf(F, secret, coeffs, 3).data);
    r := Success([Share(1, d1), Share(2, d2), Share(3, d3)]);
  }

  /** What two shares interpolate to. */
  function Combined(F: Field<Byte>, a: Share, b: Share, n: nat): (r: seq<Byte>)
    requires a.index < 256 && b.index < 256 && n <= |a.data| && n <= |b.data|
    ensures |r| == n
  {
    seq(n, k requires 0 <= k < n => Interpolate(F, [IndexByte(a.index), IndexByte(b.index)], [a.data[k], b.data[k]], F.zero, 2))
  }

  /** The first two shares hold 32 bytes each. */
  predicate Usable(shares: seq<Share>) {
    |shares| >= THRESHOLD ==> forall i :: 0 <= i < THRESHOLD ==> shares[i].index < 256 && |shares[i].data| >= 32
  }

  /** `combine_shares`: only the first two shares count. */
  method CombineShares(F: Field<Byte>, shares: seq<Share>) returns (r: Result<seq<Byte>, Error>)
    requires IsBinary(F) && Usable(shares)
    ensures r == if |shares| < 2 then Failure(NotEnoughShares(|shares|, 2))
                 else Success(Combined(F, shares[0], shares[1], 32))
  {
    if |shares| < THRESHOLD {
      return Failure(NotEnoughShares(|shares|, THRESHOLD));
    }
    hide Interpolate;
    var secret: seq<Byte> := [];
    for i := 0 to 32
      invariant secret == Combined(F, shares[0], shares[1], 32)[..i]
    {
      var y := LagrangeAtZero(F, [IndexByte(shares[0].index), IndexByte(shares[1].index)], [shares[0].data[i], shares[1].data[i]]);
      secret := secret + [y];
    }
    WholeData(Combined(F, shares[0], shares[1], 32));
    r := Success(secret);
  }

  lemma WholeData(d: seq<Byte>)
    requires |d| == 32
    ensures d[..32] == d
  {
  }

  // ----- any two shares recover the secret -----

  lemma PointsDiffer(i: nat, j: nat)
    requires i < 256 && j < 256 && i != j
    ensures IndexByte(i) != IndexByte(j)
  {
    if IndexByte(i) == IndexByte(j) {
      BitsOfInjective(i, j);
    }
  }

  lemma ByteRecovered(F: Field<Byte>, s: Byte, c: Byte, i: nat, j: nat)
    requires IsField(F) && i < 256 && j < 256 && i != j
    ensures Interpolate(F, [IndexByte(i), IndexByte(j)], [Eval(F, [s, c], IndexByte(i)), Eval(F, [s, c], IndexByte(j))], F.zero, 2) == s
  {
    hide Eval, Interpolate, BitsOf;
    PointsDiffer(i, j);
    InterpolationExact(F, [s, c], [IndexByte(i), IndexByte(j)], [Eval(F, [s, c], IndexByte(i)), Eval(F, [s, c], IndexByte(j))], F.zero);
    EvalAtZero(F, [s, c]);
  }

  /** With a repeated point both denominators are 0, and `gf256_inv` maps 0 to 0. */
  lemma ByteLost(F: Field<Byte>, x: Byte, y: Byte, y': Byte)
    requires IsBinary(F) && F.Inv(F.zero) == F.zero
    ensures Interpolate(F, [x, x], [y, y'], F.zero, 2) == F.zero
  {
    var xs, ys := [x, x], [y, y'];
    forall i | 0 <= i < 2 ensures Basis(F, xs, i, F.zero) == F.zero {
      SkipProductZero(F, x, xs, i, 2, 1 - i);
      MulZero(F, SkipProduct(F, F.zero, xs, i, 2));
    }
    MulZero(F, y);
    MulZero(F, y');
    assert Interpolate(F, xs, ys, F.zero, 0) == F.zero;
    assert Interpolate(F, xs, ys, F.zero, 1) == F.zero;
  }

  lemma InvZero()
    ensures Gf256().Inv(Gf256().zero) == Gf256().zero == {}
  {
    BytesCarry();
    AesIrreducible();
    CarrierBits(Bytes(), 8, AES, Gf256().zero, Gf256().zero);
  }

  lemma CombinedByte(F: Field<Byte>, secret: seq<Byte>, coeffs: seq<Byte>, i: nat, j: nat, k: nat)
    requires IsBinary(F) && F.Inv(F.zero) == F.zero && |secret| == |coeffs| == 32 && i < 256 && j < 256 && k < 32
    ensures Combined(F, ShareOf(F, secret, coeffs, i), ShareOf(F, secret, coeffs, j), 32)[k] == if i != j then secret[k] else F.zero
  {
    hide Eval, Interpolate, BitsOf;
    var y, y' := Eval(F, [secret[k], coeffs[k]], IndexByte(i)), Eval(F, [secret[k], coeffs[k]], IndexByte(j));
    if i != j {
      ByteRecovered(F, secret[k], coeffs[k], i, j);
    } else {
      ByteLost(F, IndexByte(i), y, y');
    }
  }

  /** For every 32-byte secret and all random bytes: combining any list that starts with two of the three shares gives
      back the secret exactly when the two are different shares, or the secret is all zero. */
  lemma CombineExactly(secret: seq<Byte>, coeffs: seq<Byte>, i: nat, j: nat)
    requires |secret| == |coeffs| == 32 && i < 3 && j < 3
    ensures var shares := Dealt(Gf256(), secret, coeffs);
      Combined(Gf256(), shares[i], shares[j], 32) == secret <==> i != j || forall k :: 0 <= k < 32 ==> secret[k] == {}
  {
    hide Gf256, Combined, ShareOf, IsBinary;
    var F := Gf256();
    Gf256IsBinary();
    InvZero();
    var shares := Dealt(F, secret, coeffs);
    assert shares[i] == ShareOf(F, secret, coeffs, i + 1) && shares[j] == ShareOf(F, secret, coeffs, j + 1);
    var r := Combined(F, shares[i], shares[j], 32);
    forall k | 0 <= k < 32 ensures r[k] == if i != j then secret[k] else {} {
      CombinedByte(F, secret, coeffs, i + 1, j + 1, k);
    }
    if i != j {
      assert r == secret;
    }
  }

  // ----- one share tells nothing -----

  lemma Line<T(!new)>(F: Field<T>, s: T, c: T, x: T)
    requires IsField(F)
    ensures Eval(F, [s, c], x) == F.Add(s, F.Mul(x, c))
  {
    hide Eval;
    EvalStep(F, [s, c], x);
    EvalStep(F, [c], x);
    EvalZero(F, [], x);
    MulZero(F, x);
    assert [s, c][1..] == [c] && [c][1..] == [];
  }

  /** Away from 0 exactly one slope takes s to y. */
  lemma SlopeThrough<T(!new)>(F: Field<T>, s: T, x: T, y: T) returns (c: T)
    requires IsField(F) && x != F.zero
    ensures forall d :: Eval(F, [s, d], x) == y <==> d == c
  {
    hide Eval;
    var inv := F.Inv(x);
    c := F.Mul(inv, F.Sub(y, s));
    forall d ensures Eval(F, [s, d], x) == y <==> d == c {
      Line(F, s, d, x);
      Slope(F, s, x, y, d, c);
    }
  }

  lemma Slope<T(!new)>(F: Field<T>, s: T, x: T, y: T, d: T, c: T)
    requires IsField(F) && x != F.zero && c == F.Mul(F.Inv(x), F.Sub(y, s))
    ensures F.Add(s, F.Mul(x, d)) == y <==> d == c
  {
    var inv, t := F.Inv(x), F.Sub(y, s);
    SubZero(F, y, s);
    MulAssoc(F, x, inv, t);
    MulAssoc(F, inv, x, d);
    if F.Add(s, F.Mul(x, d)) == y {
      AddAssoc(F, F.Mul(x, d), s, F.Neg(s));
      assert t == F.Mul(x, d);
    }
  }

  lemma IndexNotZero(i: nat)
    requires 1 <= i < 256
    ensures IndexByte(i) != {}
  {
    PointsDiffer(i, 0);
  }

  /** c is the one slope that takes s to y at x. */
  ghost predicate Fits(F: Field<Byte>, s: Byte, x: Byte, y: Byte, c: Byte) {
    forall d: Byte :: Eval(F, [s, d], x) == y <==> d == c
  }

  lemma {:induction false} Slopes(F: Field<Byte>, secret: seq<Byte>, x: Byte, data: seq<Byte>) returns (coeffs: seq<Byte>)
    requires IsField(F) && x != F.zero && |secret| == |data|
    ensures |coeffs| == |data| && forall k :: 0 <= k < |data| ==> Fits(F, secret[k], x, data[k], coeffs[k])
    decreases |data|
  {
    hide *;
    coeffs := [];
    if data != [] {
      var n := |data| - 1;
      var rest := Slopes(F, secret[..n], x, data[..n]);
      var c := SlopeThrough(F, secret[n], x, data[n]);
      FitsMeans(F, secret[n], x, data[n], c);
      coeffs := rest + [c];
    }
  }

  lemma FitsMeans(F: Field<Byte>, s: Byte, x: Byte, y: Byte, c: Byte)
    ensures Fits(F, s, x, y, c) <==> forall d: Byte :: Eval(F, [s, d], x) == y <==> d == c
  {
  }

  lemma FitsShare(F: Field<Byte>, secret: seq<Byte>, data: seq<Byte>, coeffs: seq<Byte>, other: seq<Byte>, i: nat)
    requires i < 256 && |secret| == |data| == |coeffs| == |other|
    requires forall k :: 0 <= k < |data| ==> Fits(F, secret[k], IndexByte(i), data[k], coeffs[k])
    ensures ShareOf(F, secret, other, i) == Share(i, data) <==> other == coeffs
  {
    hide Eval, IndexByte, Fits;
    var share := ShareOf(F, secret, other, i);
    forall k | 0 <= k < |data| ensures share.data[k] == data[k] <==> other[k] == coeffs[k] {
      FitsMeans(F, secret[k], IndexByte(i), data[k], coeffs[k]);
    }
    if other == coeffs {
      assert share.data == data;
    }
    if share.data == data {
      assert other == coeffs;
    }
  }

  lemma DealtAt(F: Field<Byte>, secret: seq<Byte>, coeffs: seq<Byte>, i: nat)
    requires |secret| <= |coeffs| && i < 3
    ensures |Dealt(F, secret, coeffs)| == 3 && Dealt(F, secret, coeffs)[i] == ShareOf(F, secret, coeffs, i + 1)
  {
    hide ShareOf;
  }

  /** `split_secret` hides: the shares are numbered 1, 2, 3, and whatever one of them holds, every secret is consistent with it,
      through exactly one choice of the random bytes. */
  lemma OneShareHides(secret: seq<Byte>, data: seq<Byte>, i: nat) returns (coeffs: seq<Byte>)
    requires |secret| == |data| == 32 && i < 3
    ensures |coeffs| == 32
    ensures forall other: seq<Byte> :: |other| == 32 ==>
      |Dealt(Gf256(), secret, other)| == 3 && (Dealt(Gf256(), secret, other)[i] == Share(i + 1, data) <==> other == coeffs)
  {
    hide *;
    var F := Gf256();
    Gf256IsBinary();
    BinaryIsField(F);
    InvZero();
    IndexNotZero(i + 1);
    coeffs := Slopes(F, secret, IndexByte(i + 1), data);
    forall other: seq<Byte> | |other| == 32
      ensures |Dealt(F, secret, other)| == 3 && (Dealt(F, secret, other)[i] == Share(i + 1, data) <==> other == coeffs)
    {
      DealtAt(F, secret, other, i);
      FitsShare(F, secret, data, coeffs, other, i + 1);
    }
  }

  lemma SmallIndices()
    ensures IndexByte(1) == {0} && IndexByte(2) == {1} && IndexByte(3) == {0, 1}
  {
    assert BitsOf(0) == {};
    assert BitsOf(1) == {0};
    assert BitsOf(2) == {1};
    assert BitsOf(3) == {0, 1};
  }

  /** The three shares carry the indices 1, 2, 3, and byte k of them is s + c, s + x c and s + (x + 1) c for the k-th bytes s
      of the secret and c of the random bytes. */
  lemma SharesAreLines(secret: seq<Byte>, coeffs: seq<Byte>, i: nat, k: nat)
    requires |secret| == |coeffs| == 32 && i < 3 && k < 32
    ensures var shares, point := Dealt(Gf256(), secret, coeffs), if i == 0 then {0} else if i == 1 then {1} else {0, 1};
      && |shares| == 3 && shares[i].index == i + 1 && |shares[i].data| == 32
      && shares[i].data[k] == Xor(secret[k], MulMod(point, coeffs[k], Modulus({4, 3, 1, 0}, 8)))
  {
    hide Gf256, IndexByte, MulMod, IsBinary;
    var F, x := Gf256(), IndexByte(i + 1);
    DealtAt(F, secret, coeffs, i);
    SmallIndices();
    Gf256IsBinary();
    BinaryIsField(F);
    Line(F, secret[k], coeffs[k], x);
    Gf256Operations(x, coeffs[k]);
    Gf256Operations(secret[k], F.Mul(x, coeffs[k]));
  }
}
