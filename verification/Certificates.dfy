/** Products of given words modulo x^n + low, checked as identities between numbers. */
module Certificates {
  import opened BinaryPoly
  import opened BinaryElem
  import opened Kronecker
  import opened GaloisField
  import opened Irreducibility

  /** A number of 64 bytes, each at most 15, bit by bit: the low and the high words of each plane. */
  function FourPlanes(l0: bv32, l1: bv32, l2: bv32, l3: bv32, h0: bv32, h1: bv32, h2: bv32, h3: bv32): nat {
    (Spread(l0) + WORD * Spread(h0)) + 2 * (Spread(l1) + WORD * Spread(h1))
    + 4 * (Spread(l2) + WORD * Spread(h2)) + 8 * (Spread(l3) + WORD * Spread(h3))
  }

  lemma NotNegative(a: nat, b: nat)
    ensures a * b >= 0
  {
  }

  lemma OnePlane(l: bv32, h: bv32) returns (d: nat)
    ensures d == Spread(l) + WORD * Spread(h) && Small(d, 1)
  {
    hide *;
    SpreadSmall(l);
    SpreadSmall(h);
    NotNegative(WORD, Spread(h));
    Wide(Spread(l), Spread(h));
    d := Spread(l) + WORD * Spread(h);
  }

  lemma FourPlanesSmall(l0: bv32, l1: bv32, l2: bv32, l3: bv32, h0: bv32, h1: bv32, h2: bv32, h3: bv32)
    ensures Small(FourPlanes(l0, l1, l2, l3, h0, h1, h2, h3), 15)
  {
    hide Spread, Small;
    var d0 := OnePlane(l0, h0);
    var d1 := OnePlane(l1, h1);
    var d2 := OnePlane(l2, h2);
    var d3 := OnePlane(l3, h3);
    Planes(d0, d1, d2, d3);
  }

  /** The certificate of a b = q (x^n + low) + r: the three numbers add up to twice the one with the given planes. */
  predicate Checks(p: nat, low: bv32, a: bv32, b: bv32, q: bv32, r: bv32,
                   l0: bv32, l1: bv32, l2: bv32, l3: bv32, h0: bv32, h1: bv32, h2: bv32, h3: bv32)
  {
    && Spread(low) < p && Spread(r) < p
    && Spread(a) * Spread(b) + Spread(q) * (p + Spread(low)) + Spread(r) == 2 * FourPlanes(l0, l1, l2, l3, h0, h1, h2, h3)
  }

  ghost predicate IsProduct(p: nat, low: bv32, a: bv32, b: bv32, r: bv32) {
    exists q, l0, l1, l2, l3, h0, h1, h2, h3 :: Checks(p, low, a, b, q, r, l0, l1, l2, l3, h0, h1, h2, h3)
  }

  lemma ChecksMeans(p: nat, low: bv32, a: bv32, b: bv32, q: bv32, r: bv32,
                    l0: bv32, l1: bv32, l2: bv32, l3: bv32, h0: bv32, h1: bv32, h2: bv32, h3: bv32) returns (x: nat, y: nat, e: nat)
    requires Checks(p, low, a, b, q, r, l0, l1, l2, l3, h0, h1, h2, h3)
    ensures Spread(low) < p && Spread(r) < p && Small(e, 15)
    ensures x == Spread(a) * Spread(b) && y == Spread(q) * (p + Spread(low)) && x + y + Spread(r) == 2 * e
  {
    hide Spread, Small, FourPlanes;
    FourPlanesSmall(l0, l1, l2, l3, h0, h1, h2, h3);
    NotNegative(Spread(a), Spread(b));
    NotNegative(Spread(q), p + Spread(low));
    x, y, e := Spread(a) * Spread(b), Spread(q) * (p + Spread(low)), FourPlanes(l0, l1, l2, l3, h0, h1, h2, h3);
  }

  lemma Checked(n: nat, p: nat, low: bv32, a: bv32, b: bv32, q: bv32, r: bv32, x: nat, y: nat, e: nat)
    requires p == P256(n) && Spread(low) < p && Spread(r) < p && Small(e, 15)
    requires x == Spread(a) * Spread(b) && y == Spread(q) * (p + Spread(low)) && x + y + Spread(r) == 2 * e
    ensures MulMod(OfWord(a), OfWord(b), Modulus(OfWord(low), n)) == OfWord(r)
  {
    hide *;
    WordHolds(low);
    WordHolds(a);
    WordHolds(b);
    WordHolds(q);
    WordHolds(r);
    ReducedBy(n, Spread(low), Spread(a), Spread(b), Spread(q), Spread(r), x, y, e,
      OfWord(low), OfWord(a), OfWord(b), OfWord(q), OfWord(r));
  }

  lemma Certified(n: nat, p: nat, low: bv32, a: bv32, b: bv32, r: bv32)
    requires p == P256(n) && IsProduct(p, low, a, b, r)
    ensures MulMod(OfWord(a), OfWord(b), Modulus(OfWord(low), n)) == OfWord(r)
  {
    hide Spread, P256, Checks, OfWord, MulMod, Modulus, Small;
    var q, l0, l1, l2, l3, h0, h1, h2, h3 :| Checks(p, low, a, b, q, r, l0, l1, l2, l3, h0, h1, h2, h3);
    var x, y, e := ChecksMeans(p, low, a, b, q, r, l0, l1, l2, l3, h0, h1, h2, h3);
    Checked(n, p, low, a, b, q, r, x, y, e);
  }

  /** The two words differ in the bit of p. */
  predicate Differ(p: nat, s: bv32, f: bv32) {
    Spread(f) == Spread(s) + p || Spread(s) == Spread(f) + p
  }

  lemma Plus(k: nat, p: nat, s: bv32, f: bv32)
    requires p == P256(k) && Differ(p, s, f)
    ensures OfWord(f) == Xor(OfWord(s), {k})
  {
    hide Spread, Small, Coeffs, Xor, P256;
    SpreadSmall(s);
    SpreadSmall(f);
    PowerCoeffs(k);
    AddCoeffs(Spread(s), p, 1, 1);
    AddCoeffs(Spread(f), p, 1, 1);
    XorBasics(OfWord(f), {k});
  }

  lemma FirstSteps()
    ensures Spread(0) == 0 && Differ(1, 0, 1) && Differ(256, 0, 2) && P256(0) == 1 && P256(1) == 256
  {
  }

  lemma FirstWords()
    ensures OfWord(0) == {} && OfWord(1) == {0} && OfWord(2) == {1}
  {
    hide Spread, Differ, P256;
    FirstSteps();
    Plus(0, 1, 0, 1);
    Plus(1, 256, 0, 2);
  }

  // ----- the squarings of x and their sums with x -----

  predicate Fits(p: nat, low: bv32) {
    Spread(low) < p
  }

  lemma Degree(n: nat, p: nat, low: bv32)
    requires p == P256(n) && Fits(p, low)
    ensures Len(Modulus(OfWord(low), n)) == n + 1
  {
    hide Spread, Small, Coeffs, Modulus, Len, P256;
    SpreadSmall(low);
    ModulusCoeffs(Spread(low), n);
  }

  lemma Start(n: nat, p: nat, low: bv32)
    requires n >= 2 && p == P256(n) && Fits(p, low)
    ensures Squared({1}, 0, Modulus(OfWord(low), n)) == OfWord(2)
  {
    hide OfWord, Modulus, Len, Rem, Fits, P256, MulMod;
    FirstWords();
    LenOfX();
    Degree(n, p, low);
    RemSmall({1}, Modulus(OfWord(low), n));
  }

  lemma LenOfX()
    ensures Len({1}) == 2
  {
    LenIs({1}, 2);
  }

  lemma Next(n: nat, p: nat, low: bv32, d: nat, w: bv32, v: bv32)
    requires p == P256(n) && IsProduct(p, low, w, w, v) && Squared({1}, d, Modulus(OfWord(low), n)) == OfWord(w)
    ensures Squared({1}, d + 1, Modulus(OfWord(low), n)) == OfWord(v)
  {
    hide OfWord, MulMod, IsProduct, P256;
    Certified(n, p, low, w, w, v);
  }

  lemma InverseFound(n: nat, p: nat, low: bv32, d: nat, s: bv32, f: bv32, u: bv32)
    requires p == P256(n) && IsProduct(p, low, f, u, 1) && Differ(256, s, f)
    requires Squared({1}, d, Modulus(OfWord(low), n)) == OfWord(s)
    ensures Coprime(Modulus(OfWord(low), n), d)
  {
    hide Differ, OfWord, MulMod, Squared, Xor, IsProduct, P256;
    FirstSteps();
    Plus(1, 256, s, f);
    FirstWords();
    Certified(n, p, low, f, u, 1);
  }

  /** Every d up to h has a multiple in the upper half of 1 ... h. */
  lemma UpperMultiple(h: nat, d: nat) returns (j: nat)
    requires 1 <= d <= h
    ensures h < 2 * (j * d) && j * d <= h
  {
    j := h / d;
    assert h == j * d + h % d;
    if 2 * d > h {
      assert j == 1 by { DivIsOne(h, d); }
    }
  }

  lemma DivIsOne(h: nat, d: nat)
    requires 1 <= d <= h < 2 * d
    ensures h / d == 1
  {
  }

  lemma ScreenedAbove(m: Poly, h: nat)
    requires h >= 1 && Len(m) == 2 * h + 1 && forall e :: h < 2 * e && e <= h ==> Coprime(m, e)
    ensures IsModulus(m, 2 * h)
  {
    hide Coprime, Len, IsModulus;
    forall d | 1 <= d && 2 * d <= 2 * h ensures Screened(m, d) {
      var j := UpperMultiple(h, d);
      assert Coprime(m, j * d);
    }
    IrreducibleByScreening(m, 2 * h);
  }
}
