/** Polynomials over GF(2) as sets of exponents: machine words are sets of bit positions, XOR is symmetric
    difference, a left shift adds to every exponent and drops what leaves the word. */
module BinaryPoly {

  type Poly = set<nat>

  function Xor(a: Poly, b: Poly): Poly {
    (a - b) + (b - a)
  }

  function Shift(a: Poly, i: nat): (r: Poly)
    ensures forall y: nat :: y in r <==> y >= i && y - i in a
  {
    ShiftMembers(a, i);
    set x | x in a :: x + i
  }

  lemma ShiftMembers(a: Poly, i: nat)
    ensures var r := set x | x in a :: x + i; forall y: nat :: y in r <==> y >= i && y - i in a
  {
    var r := set x | x in a :: x + i;
    forall y: nat ensures y in r <==> y >= i && y - i in a {
      if y >= i && y - i in a {
        var x := y - i;
        assert x in a && x + i == y;
      }
    }
  }

  /** The exponents below n: what survives in a word of n bits. */
  function Low(a: Poly, n: nat): Poly {
    set x | x in a && x < n
  }

  predicate Below(a: Poly, n: nat) {
    forall x :: x in a ==> x < n
  }

  /** The carryless product of `a` with the part of `b` below n. */
  function MulLow(a: Poly, b: Poly, n: nat): Poly {
    if n == 0 then {}
    else if n - 1 in b then Xor(MulLow(a, b, n - 1), Shift(a, n - 1))
    else MulLow(a, b, n - 1)
  }

  lemma {:induction false} MaxExists(a: Poly) returns (m: nat)
    requires a != {}
    ensures m in a && forall x :: x in a ==> x <= m
    decreases |a|
  {
    m :| m in a;
    if a != {m} {
      assert a - {m} != {};
      var k := MaxExists(a - {m});
      assert forall x :: x in a ==> x == m || x in a - {m};
      if k > m {
        m := k;
      }
    }
  }

  lemma LenExists(a: Poly)
    ensures exists n: nat :: IsLen(a, n)
  {
    if a == {} {
      assert IsLen(a, 0);
    } else {
      var m := MaxExists(a);
      assert IsLen(a, m + 1);
    }
  }

  predicate IsLen(a: Poly, n: nat) {
    Below(a, n) && (n > 0 ==> n - 1 in a)
  }

  /** The bit length: one more than the degree, 0 for the zero polynomial. */
  ghost function Len(a: Poly): (n: nat)
    ensures Below(a, n) && (n > 0 ==> n - 1 in a)
    ensures n == 0 <==> a == {}
  {
    LenExists(a);
    var n: nat :| IsLen(a, n);
    n
  }

  lemma LenIs(a: Poly, n: nat)
    requires IsLen(a, n)
    ensures Len(a) == n
  {
  }

  lemma LenBelow(a: Poly, n: nat)
    requires Below(a, n)
    ensures Len(a) <= n
  {
  }

  /** The carryless product. */
  ghost function Mul(a: Poly, b: Poly): Poly {
    MulLow(a, b, Len(b))
  }

  // ----- addition and shifts -----

  lemma XorAssoc(a: Poly, b: Poly, c: Poly)
    ensures Xor(Xor(a, b), c) == Xor(a, Xor(b, c))
  {
  }

  lemma XorSwap(a: Poly, b: Poly, c: Poly, d: Poly)
    ensures Xor(Xor(a, b), Xor(c, d)) == Xor(Xor(a, c), Xor(b, d))
  {
  }

  lemma XorBasics(a: Poly, b: Poly)
    ensures Xor(a, b) == Xor(b, a)
    ensures Xor(a, a) == {} && Xor(a, {}) == a
    ensures Xor(Xor(a, b), b) == a
    ensures Xor(a, b) == {} <==> a == b
  {
    if Xor(a, b) == {} {
      assert forall x: nat :: x in a - b ==> x in Xor(a, b);
      assert forall x: nat :: x in b - a ==> x in Xor(a, b);
    }
  }

  lemma ShiftXor(a: Poly, b: Poly, i: nat)
    ensures Shift(Xor(a, b), i) == Xor(Shift(a, i), Shift(b, i))
  {
  }

  lemma ShiftShift(a: Poly, i: nat, j: nat)
    ensures Shift(Shift(a, i), j) == Shift(a, i + j)
    ensures Shift(a, 0) == a && Shift({}, i) == {}
  {
  }

  lemma LowXor(a: Poly, b: Poly, n: nat)
    ensures Low(Xor(a, b), n) == Xor(Low(a, n), Low(b, n))
  {
  }

  // ----- multiplication -----

  lemma {:induction false} MulLowStable(a: Poly, b: Poly, m: nat, n: nat)
    requires m <= n && Below(b, m)
    ensures MulLow(a, b, n) == MulLow(a, b, m)
  {
    if m < n {
      MulLowStable(a, b, m, n - 1);
    }
  }

  lemma MulIs(a: Poly, b: Poly, n: nat)
    requires Below(b, n)
    ensures Mul(a, b) == MulLow(a, b, n)
  {
    LenBelow(b, n);
    MulLowStable(a, b, Len(b), n);
  }

  lemma {:induction false} MulLowXorLeft(a: Poly, a': Poly, b: Poly, n: nat)
    ensures MulLow(Xor(a, a'), b, n) == Xor(MulLow(a, b, n), MulLow(a', b, n))
  {
    if n != 0 {
      MulLowXorLeft(a, a', b, n - 1);
      ShiftXor(a, a', n - 1);
      XorSwap(MulLow(a, b, n - 1), MulLow(a', b, n - 1), Shift(a, n - 1), Shift(a', n - 1));
    }
  }

  lemma {:induction false} MulLowXorRight(a: Poly, b: Poly, b': Poly, n: nat)
    ensures MulLow(a, Xor(b, b'), n) == Xor(MulLow(a, b, n), MulLow(a, b', n))
  {
    if n != 0 {
      hide Shift;
      MulLowXorRight(a, b, b', n - 1);
      var x, y, s := MulLow(a, b, n - 1), MulLow(a, b', n - 1), Shift(a, n - 1);
      XorSwap(x, s, y, s);
      XorBasics(s, s);
      XorSwap(x, s, y, {});
      XorSwap(x, {}, y, s);
      XorBasics(x, y);
      XorBasics(y, s);
      XorBasics(s, {});
    }
  }

  lemma {:induction false} MulLowShiftLeft(a: Poly, b: Poly, i: nat, n: nat)
    ensures MulLow(Shift(a, i), b, n) == Shift(MulLow(a, b, n), i)
  {
    hide Shift, Xor;
    if n == 0 {
      ShiftShift({}, i, 0);
    } else {
      MulLowShiftLeft(a, b, i, n - 1);
      ShiftShift(a, i, n - 1);
      ShiftShift(a, n - 1, i);
      ShiftXor(MulLow(a, b, n - 1), Shift(a, n - 1), i);
    }
  }

  /** x^i times (the part below n of) b is b shifted. */
  lemma {:induction false} MulLowMonomial(b: Poly, i: nat, n: nat)
    ensures MulLow({i}, b, n) == Shift(Low(b, n), i)
  {
    if n != 0 {
      MulLowMonomial(b, i, n - 1);
      assert Shift({i}, n - 1) == {i + n - 1};
    }
  }

  lemma MulXorLeft(a: Poly, a': Poly, b: Poly)
    ensures Mul(Xor(a, a'), b) == Xor(Mul(a, b), Mul(a', b))
  {
    MulLowXorLeft(a, a', b, Len(b));
  }

  lemma MulXorRight(a: Poly, b: Poly, b': Poly)
    ensures Mul(a, Xor(b, b')) == Xor(Mul(a, b), Mul(a, b'))
  {
    var n := Len(b) + Len(b');
    MulIs(a, Xor(b, b'), n);
    MulIs(a, b, n);
    MulIs(a, b', n);
    MulLowXorRight(a, b, b', n);
  }

  lemma MulMonomial(a: Poly, i: nat)
    ensures Mul({i}, a) == Shift(a, i) && Mul(a, {i}) == Shift(a, i)
    ensures Mul({}, a) == {} && Mul(a, {}) == {}
  {
    MulLowMonomial(a, i, Len(a));
    assert Low(a, Len(a)) == a;
    MulIs(a, {i}, i + 1);
    MulLowStable(a, {}, 0, i);
    assert Low({i}, i) == Low({}, i);
    MulLowSame(a, {i}, {}, i);
    MulXorLeft({}, {}, a);
    XorBasics({}, {});
    XorBasics(Mul({}, a), {});
    XorBasics(Shift(a, i), {});
  }

  lemma {:induction false} MulLowSame(a: Poly, b: Poly, b': Poly, n: nat)
    requires Low(b, n) == Low(b', n)
    ensures MulLow(a, b, n) == MulLow(a, b', n)
  {
    if n != 0 {
      assert forall x: nat :: x in Low(b, n) <==> x in Low(b', n);
      assert Low(b, n - 1) == Low(Low(b, n), n - 1) && Low(b', n - 1) == Low(Low(b', n), n - 1);
      MulLowSame(a, b, b', n - 1);
      assert n - 1 in Low(b, n) <==> n - 1 in b;
      assert n - 1 in Low(b', n) <==> n - 1 in b';
    }
  }

  lemma MulShiftRight(a: Poly, b: Poly, i: nat)
    ensures Mul(a, Shift(b, i)) == Shift(Mul(a, b), i)
  {
    MulCommutes(a, Shift(b, i));
    MulLowShiftLeft(b, a, i, Len(a));
    MulCommutes(a, b);
  }

  lemma MulCommutes(a: Poly, b: Poly)
    ensures Mul(a, b) == Mul(b, a)
  {
    MulLowCommutes(a, b, Len(b));
    assert Low(b, Len(b)) == b;
  }

  lemma {:induction false} MulLowCommutes(a: Poly, b: Poly, n: nat)
    ensures MulLow(a, b, n) == Mul(Low(b, n), a)
  {
    if n == 0 {
      assert Low(b, 0) == {};
      MulMonomial(a, 0);
    } else {
      MulLowCommutes(a, b, n - 1);
      if n - 1 in b {
        assert Low(b, n) == Xor(Low(b, n - 1), {n - 1});
        MulXorLeft(Low(b, n - 1), {n - 1}, a);
        MulMonomial(a, n - 1);
      } else {
        assert Low(b, n) == Low(b, n - 1);
      }
    }
  }

  lemma MulAssociates(a: Poly, b: Poly, c: Poly)
    ensures Mul(Mul(a, b), c) == Mul(a, Mul(b, c))
  {
    MulLowAssociates(a, b, c, Len(c));
  }

  lemma {:induction false} MulLowAssociates(a: Poly, b: Poly, c: Poly, n: nat)
    ensures MulLow(Mul(a, b), c, n) == Mul(a, MulLow(b, c, n))
  {
    hide Shift, Xor, Mul;
    if n == 0 {
      MulMonomial(a, 0);
    } else {
      MulLowAssociates(a, b, c, n - 1);
      if n - 1 in c {
        MulXorRight(a, MulLow(b, c, n - 1), Shift(b, n - 1));
        MulShiftRight(a, b, n - 1);
      }
    }
  }

  /** The degree of a product is the sum of the degrees. */
  lemma {:induction false} MulLowLen(a: Poly, b: Poly, n: nat)
    requires a != {} && n > 0
    ensures Below(MulLow(a, b, n), Len(a) + n - 1)
    ensures n - 1 in b ==> Len(a) + n - 2 in MulLow(a, b, n)
  {
    if n > 1 {
      MulLowLen(a, b, n - 1);
    }
    assert Len(a) - 1 in a;
  }

  lemma MulLen(a: Poly, b: Poly)
    ensures a != {} && b != {} ==> Len(Mul(a, b)) == Len(a) + Len(b) - 1
    ensures Mul(a, b) == {} <==> a == {} || b == {}
  {
    MulMonomial(a, 0);
    MulMonomial(b, 0);
    if a != {} && b != {} {
      MulLowLen(a, b, Len(b));
      LenIs(Mul(a, b), Len(a) + Len(b) - 1);
    }
  }
}
