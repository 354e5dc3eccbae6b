/** GF(2)[x] modulo an irreducible polynomial is a field; `BinaryElem16`, `BinaryElem32` and `BinaryElem128`
    are its instances. */
module GaloisField {
  import opened Powers
  import opened Fields
  import opened Polynomials
  import opened SubspacePolynomials
  import opened FieldInverse
  import opened BinaryPoly
  import opened BinaryElem

  /** No factorisation into two polynomials of positive degree. */
  ghost predicate Irreducible(m: Poly) {
    Len(m) >= 2 && forall q, r :: Mul(q, r) == m ==> Len(q) == 1 || Len(r) == 1
  }

  lemma LenOne(a: Poly)
    requires Len(a) == 1
    ensures a == {0}
  {
  }

  lemma MulModOne(a: Poly, m: Poly)
    requires Len(a) < Len(m)
    ensures MulMod(a, {0}, m) == a
  {
    MulMonomial(a, 0);
    ShiftShift(a, 0, 0);
    RemSmall(a, m);
  }

  /** Every non-zero residue has an inverse: Euclid's algorithm on m and the residue. */
  lemma {:induction false} InverseExists(a: Poly, m: Poly) returns (b: Poly)
    requires Irreducible(m) && a != {} && Len(a) < Len(m)
    ensures Len(b) < Len(m) && MulMod(a, b, m) == {0}
    decreases Len(a)
  {
    hide Mul, Xor, Shift, Rem;
    LenIs({0}, 1);
    if Len(a) == 1 {
      LenOne(a);
      MulModOne(a, m);
      b := {0};
    } else {
      var q := RemDivides(m, a);
      var r := Rem(m, a);
      if r == {} {
        XorBasics(Mul(q, a), {});
        MulLen(q, a);
        assert false;
      }
      var b' := InverseExists(r, m);
      b := MulMod(q, b', m);
      InverseStep(a, m, q, r, b');
    }
  }

  /** m = q a + r and r b' = 1 give a (q b') = 1. */
  lemma InverseStep(a: Poly, m: Poly, q: Poly, r: Poly, b': Poly)
    requires m != {} && m == Xor(Mul(q, a), r) && Len(a) < Len(m) && Len(r) < Len(m) && MulMod(r, b', m) == {0}
    ensures MulMod(a, MulMod(q, b', m), m) == {0}
  {
    hide Mul, Xor, Rem;
    MulModAssociates(a, q, b', m);
    MulCommutes(a, q);
    XorBasics(m, r);
    XorBasics(Mul(q, a), r);
    assert Mul(q, a) == Xor(m, r);
    RemXor(m, r, m);
    RemSelf(m);
    RemSmall(r, m);
    XorBasics(r, {});
    assert MulMod(a, q, m) == r;
  }

  lemma RemSelf(m: Poly)
    requires m != {}
    ensures Rem(m, m) == {}
  {
    MulMonomial(m, 0);
    ShiftShift(m, 0, 0);
    RemMultiple({0}, m);
  }

  ghost function InvMod(a: Poly, m: Poly): (b: Poly)
    requires Irreducible(m) && a != {} && Len(a) < Len(m)
    ensures Len(b) < Len(m) && MulMod(a, b, m) == {0}
  {
    InverseHere(a, m);
    var b :| Len(b) < Len(m) && MulMod(a, b, m) == {0};
    b
  }

  lemma InverseHere(a: Poly, m: Poly)
    requires Irreducible(m) && a != {} && Len(a) < Len(m)
    ensures exists b :: Len(b) < Len(m) && MulMod(a, b, m) == {0}
  {
    var b := InverseExists(a, m);
  }

  // ----- listing the residues -----

  function WithBit(s: seq<Poly>, n: nat): (r: seq<Poly>)
    ensures |r| == |s|
  {
    seq(|s|, i requires 0 <= i < |s| => s[i] + {n})
  }

  /** All polynomials below n, each once. */
  function Residues(n: nat): (r: seq<Poly>)
    ensures |r| == Pow2(n)
  {
    if n == 0 then [{}] else Residues(n - 1) + WithBit(Residues(n - 1), n - 1)
  }

  lemma {:induction false} ResiduesBelow(n: nat, i: nat)
    requires i < |Residues(n)|
    ensures Below(Residues(n)[i], n)
  {
    if n != 0 {
      var h := Pow2(n - 1);
      ResiduesBelow(n - 1, if i < h then i else i - h);
    }
  }

  /** Setting a bit that none of the elements has keeps them distinct, from each other and from the old ones. */
  lemma WithBitDistinct(s: seq<Poly>, k: nat)
    requires Distinct(s) && forall i :: 0 <= i < |s| ==> Below(s[i], k)
    ensures Distinct(s + WithBit(s, k))
  {
    var t := WithBit(s, k);
    forall i | 0 <= i < |s| ensures k !in s[i] && k in t[i] && t[i] - {k} == s[i] {
    }
    hide WithBit, Below;
    forall i, j | 0 <= i < j < |s + t| ensures (s + t)[i] != (s + t)[j] {
    }
  }

  lemma {:induction false} ResiduesDistinct(n: nat)
    ensures Distinct(Residues(n))
  {
    if n != 0 {
      ResiduesDistinct(n - 1);
      var s := Residues(n - 1);
      forall i | 0 <= i < |s| ensures Below(s[i], n - 1) {
        ResiduesBelow(n - 1, i);
      }
      WithBitDistinct(s, n - 1);
    }
  }

  lemma {:induction false} ResiduesComplete(n: nat, p: Poly)
    requires Below(p, n)
    ensures p in Residues(n)
  {
    if n == 0 {
      assert p == {};
    } else {
      var s := Residues(n - 1);
      ResiduesComplete(n - 1, p - {n - 1});
      var i :| 0 <= i < |s| && s[i] == p - {n - 1};
      if n - 1 in p {
        assert Residues(n)[|s| + i] == p;
      } else {
        assert p - {n - 1} == p;
        assert Residues(n)[i] == p;
      }
    }
  }

  // ----- indices as points -----

  /** The word j as a polynomial. */
  function BitsOf(j: nat): Poly {
    if j == 0 then {} else Xor(if j % 2 == 1 then {0} else {}, Shift(BitsOf(j / 2), 1))
  }

  lemma {:induction false} BitsOfBelow(j: nat, k: nat)
    requires j < Pow2(k)
    ensures Below(BitsOf(j), k)
  {
    if j != 0 {
      BitsOfBelow(j / 2, k - 1);
    }
  }

  lemma {:induction false} BitsOfInjective(i: nat, j: nat)
    requires BitsOf(i) == BitsOf(j)
    ensures i == j
    decreases i + j
  {
    BitsOfParity(i);
    BitsOfParity(j);
    if i != 0 || j != 0 {
      BitsOfHalf(i);
      BitsOfHalf(j);
      BitsOfInjective(i / 2, j / 2);
    }
  }

  lemma BitsOfParity(j: nat)
    ensures 0 in BitsOf(j) <==> j % 2 == 1
  {
  }

  lemma BitsOfHalf(j: nat)
    ensures BitsOf(j / 2) == Down(BitsOf(j), 1)
  {
    if j != 0 {
      forall y: nat ensures y in BitsOf(j / 2) <==> y + 1 in BitsOf(j) {
      }
    }
  }

  // ----- the field of residues -----

  /** How a machine type holds the polynomials below n. */
  datatype Carrier<!T> = Carrier(bits: T -> Poly, of: Poly -> T)

  ghost predicate IsCarrier<T(!new)>(C: Carrier<T>, n: nat) {
    && (forall x :: Below(C.bits(x), n) && C.of(C.bits(x)) == x)
    && (forall p :: Below(p, n) ==> C.bits(C.of(p)) == p)
  }

  ghost predicate IsModulus(m: Poly, n: nat) {
    Irreducible(m) && Len(m) == n + 1
  }

  /** Addition is exclusive or, multiplication is reduced modulo m, and every element is its own negative. */
  ghost function ResidueField<T(!new)>(C: Carrier<T>, n: nat, m: Poly): Field<T>
    requires IsCarrier(C, n) && IsModulus(m, n)
  {
    Field(C.of({}), C.of({0}), (a, b) => C.of(Xor(C.bits(a), C.bits(b))), (a, b) => C.of(MulMod(C.bits(a), C.bits(b), m)),
      a => a, a => if C.bits(a) == {} then a else LenBelow(C.bits(a), n); C.of(InvMod(C.bits(a), m)))
  }

  lemma CarrierBits<T(!new)>(C: Carrier<T>, n: nat, m: Poly, a: T, b: T)
    requires IsCarrier(C, n) && IsModulus(m, n)
    ensures var F := ResidueField(C, n, m);
      C.bits(F.Add(a, b)) == Xor(C.bits(a), C.bits(b)) && C.bits(F.Mul(a, b)) == MulMod(C.bits(a), C.bits(b), m)
    ensures C.bits(ResidueField(C, n, m).zero) == {} && C.bits(ResidueField(C, n, m).one) == {0}
    ensures C.bits(a) == C.bits(b) ==> a == b
    ensures Len(C.bits(a)) < Len(m)
  {
    LenBelow(C.bits(a), n);
  }

  lemma CarrierLaws<T(!new)>(C: Carrier<T>, n: nat, m: Poly, a: T, b: T, c: T)
    requires IsCarrier(C, n) && IsModulus(m, n)
    ensures var F := ResidueField(C, n, m);
      && F.Add(F.Add(a, b), c) == F.Add(a, F.Add(b, c))
      && F.Mul(F.Mul(a, b), c) == F.Mul(a, F.Mul(b, c))
      && F.Mul(a, F.Add(b, c)) == F.Add(F.Mul(a, b), F.Mul(a, c))
  {
    hide *;
    var F := ResidueField(C, n, m);
    var x, y, z := C.bits(a), C.bits(b), C.bits(c);
    CarrierBits(C, n, m, a, b);
    CarrierBits(C, n, m, b, c);
    CarrierBits(C, n, m, a, c);
    CarrierBits(C, n, m, F.Add(a, b), c);
    CarrierBits(C, n, m, a, F.Add(b, c));
    CarrierBits(C, n, m, F.Mul(a, b), c);
    CarrierBits(C, n, m, a, F.Mul(b, c));
    CarrierBits(C, n, m, F.Mul(a, b), F.Mul(a, c));
    CarrierBits(C, n, m, F.Add(F.Add(a, b), c), F.Add(a, F.Add(b, c)));
    CarrierBits(C, n, m, F.Mul(F.Mul(a, b), c), F.Mul(a, F.Mul(b, c)));
    CarrierBits(C, n, m, F.Mul(a, F.Add(b, c)), F.Add(F.Mul(a, b), F.Mul(a, c)));
    XorAssoc(x, y, z);
    MulModAssociates(x, y, z, m);
    MulModDistributes(x, y, z, m);
  }

  lemma CarrierUnits<T(!new)>(C: Carrier<T>, n: nat, m: Poly, a: T, b: T)
    requires IsCarrier(C, n) && IsModulus(m, n)
    ensures var F := ResidueField(C, n, m);
      && F.zero != F.one && F.Add(a, b) == F.Add(b, a) && F.Mul(a, b) == F.Mul(b, a)
      && F.Add(a, F.zero) == a && F.Mul(a, F.one) == a && F.Add(a, a) == F.zero && F.Neg(a) == a
      && (a != F.zero ==> F.Mul(a, F.Inv(a)) == F.one)
  {
    hide Mul, Xor, MulMod;
    var F := ResidueField(C, n, m);
    var x, y := C.bits(a), C.bits(b);
    CarrierBits(C, n, m, a, b);
    XorBasics(x, y);
    MulModCommutes(x, y, m);
    MulModOne(x, m);
    if a != F.zero {
      CarrierBits(C, n, m, a, F.zero);
      var i := InvMod(x, m);
      LenBelow(i, n);
      CarrierBits(C, n, m, a, F.Inv(a));
    }
  }

  /** An irreducible modulus of degree n makes the n-bit words a field of characteristic 2. */
  lemma ResidueFieldIsBinary<T(!new)>(C: Carrier<T>, n: nat, m: Poly)
    requires IsCarrier(C, n) && IsModulus(m, n)
    ensures IsBinary(ResidueField(C, n, m))
  {
    hide ResidueField, Irreducible, Len;
    var F := ResidueField(C, n, m);
    forall a
      ensures F.Add(a, F.zero) == a && F.Mul(a, F.one) == a && F.Add(a, a) == F.zero && F.Neg(a) == a
      ensures F.Add(a, F.Neg(a)) == F.zero && (a != F.zero ==> F.Mul(a, F.Inv(a)) == F.one)
    {
      CarrierUnits(C, n, m, a, a);
    }
    forall a, b ensures F.Add(a, b) == F.Add(b, a) {
      CarrierUnits(C, n, m, a, b);
    }
    forall a, b ensures F.Mul(a, b) == F.Mul(b, a) {
      CarrierUnits(C, n, m, a, b);
    }
    forall a, b, c {:trigger At(a, b, c)}
      ensures F.Add(F.Add(a, b), c) == F.Add(a, F.Add(b, c)) && F.Mul(F.Mul(a, b), c) == F.Mul(a, F.Mul(b, c))
      ensures F.Mul(a, F.Add(b, c)) == F.Add(F.Mul(a, b), F.Mul(a, c))
    {
      CarrierLaws(C, n, m, a, b, c);
    }
    CarrierUnits(C, n, m, F.zero, F.zero);
  }

  // ----- inverses and evaluation points -----

  ghost function Elements<T>(C: Carrier<T>, n: nat): (r: seq<T>)
    ensures |r| == Pow2(n)
  {
    seq(Pow2(n), i requires 0 <= i < Pow2(n) => C.of(Residues(n)[i]))
  }

  lemma ElementsEnumerate<T(!new)>(C: Carrier<T>, n: nat)
    requires IsCarrier(C, n)
    ensures Enumerates(Elements(C, n))
  {
    hide Residues;
    var all, s := Elements(C, n), Residues(n);
    ResiduesDistinct(n);
    forall i | 0 <= i < |s| ensures C.bits(all[i]) == s[i] {
      ResiduesBelow(n, i);
    }
    forall i, j | 0 <= i < j < |all| ensures all[i] != all[j] {
      assert s[i] != s[j];
    }
    forall x ensures x in all {
      ResiduesComplete(n, C.bits(x));
      var i :| 0 <= i < |s| && s[i] == C.bits(x);
      assert all[i] == x;
    }
  }

  /** a^(2^n - 2), which every inversion of the repository computes, inverts each non-zero element. */
  lemma InverseIsPower<T(!new)>(C: Carrier<T>, n: nat, m: Poly, a: T)
    requires IsCarrier(C, n) && IsModulus(m, n) && C.bits(a) != {}
    ensures var F := ResidueField(C, n, m);
      C.bits(F.Mul(a, Pow(F, a, Pow2(n) - 2))) == {0} && Pow(F, a, Pow2(n) - 2) == F.Inv(a)
  {
    hide Elements, Pow;
    var F := ResidueField(C, n, m);
    ResidueFieldIsBinary(C, n, m);
    ElementsEnumerate(C, n);
    CarrierBits(C, n, m, a, a);
    InverseCorrect(F, Elements(C, n), n, a);
  }

  /** `from_bits` with the element x as generator reads the word j off as a polynomial. */
  lemma {:induction false} PointIsBits<T(!new)>(C: Carrier<T>, n: nat, m: Poly, j: nat, k: nat)
    requires IsCarrier(C, n) && IsModulus(m, n) && 2 <= n && k <= n && j < Pow2(k)
    ensures C.bits(Point(ResidueField(C, n, m), C.of({1}), j)) == BitsOf(j)
  {
    hide ResidueField, Mul, Xor, Irreducible;
    var F, g := ResidueField(C, n, m), C.of({1});
    if j == 0 {
      CarrierBits(C, n, m, F.zero, F.zero);
    } else {
      PointIsBits(C, n, m, j / 2, k - 1);
      BitsOfBelow(j / 2, k - 1);
      var t, h := Point(F, g, j / 2), if j % 2 == 1 then F.one else F.zero;
      CarrierBits(C, n, m, g, t);
      CarrierBits(C, n, m, h, F.Mul(g, t));
      MulMonomial(C.bits(t), 1);
      LenBelow(Shift(C.bits(t), 1), n);
      RemSmall(Shift(C.bits(t), 1), m);
    }
  }

  /** A block of any length up to the size of the field has distinct evaluation points. */
  lemma PointsAreDistinct<T(!new)>(C: Carrier<T>, n: nat, m: Poly)
    requires IsCarrier(C, n) && IsModulus(m, n) && 2 <= n
    ensures DistinctPoints(ResidueField(C, n, m), C.of({1}), Pow2(n))
  {
    hide ResidueField, Irreducible, BitsOf;
    forall i, j | 0 <= i < j < Pow2(n)
      ensures Point(ResidueField(C, n, m), C.of({1}), i) != Point(ResidueField(C, n, m), C.of({1}), j)
    {
      PointIsBits(C, n, m, i, n);
      PointIsBits(C, n, m, j, n);
      if BitsOf(i) == BitsOf(j) {
        BitsOfInjective(i, j);
      }
    }
  }
}
