/** When a modulus is irreducible: no factor of degree d divides it if x^(2^d) + x is invertible modulo it. */
module Irreducibility {
  import opened Powers
  import opened FiniteOrder
  import opened BinaryPoly
  import opened BinaryElem
  import opened GaloisField

  // ----- factors -----

  lemma FactorLens(q: Poly, r: Poly, m: Poly)
    requires Mul(q, r) == m && m != {} && Len(q) != 1 && Len(r) != 1
    ensures 2 <= Len(q) && 2 <= Len(r) && Len(m) == Len(q) + Len(r) - 1
  {
    MulLen(q, r);
  }

  lemma {:induction false} FactorExists(a: Poly) returns (p: Poly, c: Poly)
    requires Len(a) >= 2
    ensures Irreducible(p) && Mul(c, p) == a && Len(p) <= Len(a)
    decreases Len(a)
  {
    if Irreducible(a) {
      p, c := a, {0};
      MulMonomial(a, 0);
      ShiftShift(a, 0, 0);
    } else {
      var q, r :| Mul(q, r) == a && Len(q) != 1 && Len(r) != 1;
      FactorLens(q, r, a);
      var c';
      p, c' := FactorExists(q);
      c := Mul(c', r);
      MulAssociates(c', p, r);
      MulCommutes(p, r);
      MulAssociates(c', r, p);
    }
  }

  /** A remainder modulo m still gives the remainder modulo a factor of m. */
  lemma RemFactor(a: Poly, m: Poly, p: Poly, c: Poly)
    requires p != {} && m != {} && Mul(c, p) == m
    ensures Rem(Rem(a, m), p) == Rem(a, p)
  {
    hide Mul, Rem, Xor;
    var q := RemDivides(a, m);
    MulAssociates(q, c, p);
    RemXor(Mul(q, m), Rem(a, m), p);
    RemMultiple(Mul(q, c), p);
    XorBasics(Rem(Rem(a, m), p), {});
  }

  // ----- the residues modulo an irreducible polynomial -----

  ghost function Multiply(p: Poly): Product<Poly>
    requires p != {}
  {
    Product({0}, (a, b) => MulMod(a, b, p))
  }

  lemma ResidueCancel(a: Poly, b: Poly, c: Poly, p: Poly, d: nat)
    requires IsModulus(p, d) && Len(a) <= d && Len(b) <= d && Len(c) <= d && c != {} && MulMod(a, c, p) == MulMod(b, c, p)
    ensures a == b
  {
    hide Mul, Rem, Irreducible;
    var i := InvMod(c, p);
    MulModAssociates(a, c, i, p);
    MulModAssociates(b, c, i, p);
    MulModOne(a, p);
    MulModOne(b, p);
  }

  lemma ResidueProduct(a: Poly, b: Poly, p: Poly, d: nat)
    requires IsModulus(p, d) && Len(a) <= d && Len(b) <= d && a != {} && b != {}
    ensures MulMod(a, b, p) != {} && Below(MulMod(a, b, p), d)
  {
    hide Irreducible;
    MulMonomial(b, 0);
    if MulMod(a, b, p) == {} {
      RemSmall({}, p);
      ResidueCancel(a, {}, b, p, d);
    }
  }

  lemma PositiveDegree(p: Poly, d: nat)
    requires IsModulus(p, d)
    ensures d >= 1 && Len({0}) < Len(p)
  {
    LenIs({0}, 1);
  }

  lemma NonzeroResidues(p: Poly, d: nat) returns (units: seq<Poly>)
    requires IsModulus(p, d)
    ensures IsCommutative(Multiply(p)) && IsUnits(Multiply(p), units)
    ensures |units| == Pow2(d) - 1 && forall a :: a in units <==> a != {} && Below(a, d)
  {
    hide Irreducible, Residues, Rem, Mul, MulMod;
    PositiveDegree(p, d);
    var all := Residues(d);
    ResiduesComplete(d, {});
    var i :| 0 <= i < |all| && all[i] == {};
    ResiduesDistinct(d);
    units := Without(all, i);
    WithoutDistinct(all, i);
    forall a ensures a in all <==> Below(a, d) {
      if Below(a, d) {
        ResiduesComplete(d, a);
      }
      if a in all {
        var j :| 0 <= j < |all| && all[j] == a;
        ResiduesBelow(d, j);
      }
    }
    var M := Multiply(p);
    forall a, b ensures M.Mul(a, b) == M.Mul(b, a) {
      MulModCommutes(a, b, p);
    }
    forall a, b, c {:trigger Named(a, b, c)}
      ensures M.Mul(M.Mul(a, b), c) == M.Mul(a, M.Mul(b, c))
      ensures a in units && b in units && c in units && M.Mul(a, c) == M.Mul(b, c) ==> a == b
    {
      MulModAssociates(a, b, c, p);
      if a in units && b in units && c in units && M.Mul(a, c) == M.Mul(b, c) {
        LenBelow(a, d);
        LenBelow(b, d);
        LenBelow(c, d);
        ResidueCancel(a, b, c, p, d);
      }
    }
    forall a, b | a in units && b in units ensures M.Mul(a, b) in units && M.Mul(a, M.one) == a {
      LenBelow(a, d);
      LenBelow(b, d);
      ResidueProduct(a, b, p, d);
      MulModOne(a, p);
    }
  }

  /** a^(2^k) modulo p, by repeated squaring. */
  ghost function Squared(a: Poly, k: nat, p: Poly): Poly
    requires p != {}
  {
    if k == 0 then Rem(a, p) else MulMod(Squared(a, k - 1, p), Squared(a, k - 1, p), p)
  }

  lemma {:induction false} PowerAdd<T(!new)>(M: Product<T>, units: seq<T>, a: T, m: nat, n: nat)
    requires IsCommutative(M) && IsUnits(M, units) && a in units
    ensures Power(M, a, m + n) == M.Mul(Power(M, a, m), Power(M, a, n))
  {
    PowerIn(M, units, a, n);
    if m != 0 {
      PowerAdd(M, units, a, m - 1, n);
      Assoc(M, a, Power(M, a, m - 1), Power(M, a, n));
    }
  }

  lemma {:induction false} SquaredIsPower(a: Poly, k: nat, p: Poly, units: seq<Poly>)
    requires p != {} && Len(a) < Len(p) && IsCommutative(Multiply(p)) && IsUnits(Multiply(p), units) && a in units
    ensures Squared(a, k, p) == Power(Multiply(p), a, Pow2(k))
  {
    hide MulMod, Rem;
    if k == 0 {
      RemSmall(a, p);
      assert Power(Multiply(p), a, 1) == Multiply(p).Mul(a, Power(Multiply(p), a, 0));
    } else {
      SquaredIsPower(a, k - 1, p, units);
      PowerAdd(Multiply(p), units, a, Pow2(k - 1), Pow2(k - 1));
    }
  }

  lemma {:induction false} SquaredZero(k: nat, p: Poly)
    requires p != {}
    ensures Squared({}, k, p) == {}
  {
    RemSmall({}, p);
    MulMonomial({}, 0);
    if k != 0 {
      SquaredZero(k - 1, p);
    }
  }

  /** Modulo an irreducible polynomial of degree d, squaring d times is the identity. */
  lemma Frobenius(a: Poly, p: Poly, d: nat)
    requires IsModulus(p, d) && Below(a, d)
    ensures Squared(a, d, p) == a
  {
    hide Irreducible, MulMod, Squared, Rem;
    LenBelow(a, d);
    if a == {} {
      SquaredZero(d, p);
    } else {
      var units := NonzeroResidues(p, d);
      OrderTheorem(Multiply(p), units, a);
      SquaredIsPower(a, d, p, units);
      assert Power(Multiply(p), a, Pow2(d)) == Multiply(p).Mul(a, Power(Multiply(p), a, Pow2(d) - 1));
    }
  }

  lemma {:induction false} SquaredFactor(a: Poly, k: nat, m: Poly, p: Poly, c: Poly)
    requires p != {} && m != {} && Mul(c, p) == m
    ensures Rem(Squared(a, k, m), p) == Squared(Rem(a, p), k, p)
  {
    hide Mul, Rem;
    if k == 0 {
      RemFactor(a, m, p, c);
      RemSmall(Rem(a, p), p);
    } else {
      SquaredFactor(a, k - 1, m, p, c);
      var s := Squared(a, k - 1, m);
      RemFactor(Mul(s, s), m, p, c);
      RemMul(s, s, p);
      MulModCommutes(Rem(s, p), s, p);
      RemMul(s, Rem(s, p), p);
    }
  }

  // ----- the criterion -----

  /** x^(2^d) + x is invertible modulo m. */
  ghost predicate Coprime(m: Poly, d: nat)
    requires m != {}
  {
    exists u :: MulMod(Xor(Squared({1}, d, m), {1}), u, m) == {0}
  }

  lemma {:induction false} SquaredAgain(a: Poly, j: nat, k: nat, p: Poly)
    requires p != {}
    ensures Squared(a, j + k, p) == Squared(Squared(a, j, p), k, p)
  {
    hide MulMod, Rem;
    if k == 0 {
      SquaredSmall(a, j, p);
      RemSmall(Squared(a, j, p), p);
    } else {
      SquaredAgain(a, j, k - 1, p);
    }
  }

  lemma SquaredSmall(a: Poly, k: nat, p: Poly)
    requires p != {}
    ensures Len(Squared(a, k, p)) < Len(p)
  {
  }

  lemma {:induction false} FrobeniusAgain(a: Poly, p: Poly, d: nat, j: nat)
    requires IsModulus(p, d) && Below(a, d)
    ensures Squared(a, j * d, p) == a
  {
    hide Irreducible, MulMod, Squared, Rem;
    if j == 0 {
      SquaredNone(a, p, d);
    } else {
      FrobeniusAgain(a, p, d, j - 1);
      assert j * d == (j - 1) * d + d;
      SquaredAgain(a, (j - 1) * d, d, p);
      Frobenius(a, p, d);
    }
  }

  lemma SquaredNone(a: Poly, p: Poly, d: nat)
    requires IsModulus(p, d) && Below(a, d)
    ensures Squared(a, 0, p) == a
  {
    LenBelow(a, d);
    RemSmall(a, p);
  }

  lemma NoFactor(m: Poly, p: Poly, c: Poly, d: nat, j: nat)
    requires IsModulus(p, d) && m != {} && Mul(c, p) == m
    ensures !Coprime(m, j * d)
  {
    hide Mul, Rem, Xor, Squared, Irreducible;
    var e := j * d;
    var f := Xor(Squared({1}, e, m), {1});
    SquaredFactor({1}, e, m, p, c);
    LenBelow(Rem({1}, p), d);
    FrobeniusAgain(Rem({1}, p), p, d, j);
    RemXor(Squared({1}, e, m), {1}, p);
    XorBasics(Rem({1}, p), {});
    assert Rem(f, p) == {};
    forall u ensures MulMod(f, u, m) != {0} {
      RemFactor(Mul(f, u), m, p, c);
      RemMul(f, u, p);
      MulMonomial(u, 0);
      RemSmall({}, p);
      PositiveDegree(p, d);
      RemSmall({0}, p);
    }
  }

  /** x^(2^e) + x is invertible modulo m for some multiple e of d. */
  ghost predicate Screened(m: Poly, d: nat)
    requires m != {}
  {
    exists j: nat :: Coprime(m, j * d)
  }

  /** A polynomial of degree n is irreducible if every d up to n / 2 has a multiple e such that x^(2^e) + x is invertible modulo
      it. */
  lemma IrreducibleByScreening(m: Poly, n: nat)
    requires n >= 1 && Len(m) == n + 1 && forall d :: 1 <= d && 2 * d <= n ==> Screened(m, d)
    ensures IsModulus(m, n)
  {
    hide Mul, Coprime;
    forall q, r | Mul(q, r) == m ensures Len(q) == 1 || Len(r) == 1 {
      if Len(q) != 1 && Len(r) != 1 {
        FactorLens(q, r, m);
        MulCommutes(q, r);
        var small, large := if Len(q) <= Len(r) then q else r, if Len(q) <= Len(r) then r else q;
        var p, c := FactorExists(small);
        MulAssociates(c, p, large);
        MulCommutes(p, large);
        MulAssociates(c, large, p);
        var d := Len(p) - 1;
        assert Screened(m, d);
        var j: nat :| Coprime(m, j * d);
        NoFactor(m, p, Mul(c, large), d, j);
      }
    }
  }
}
