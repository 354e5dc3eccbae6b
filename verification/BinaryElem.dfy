/** Word-level multiplication, division and reduction (`binary-fields/src/poly.rs`, `binary-fields/src/elem.rs`,
    `crates/ghettobox/src/vss.rs`), all equal to one remainder of the carryless product. */
module BinaryElem {
  import opened BinaryPoly

  // ----- remainders -----

  /** Cancelling the leading term shortens the polynomial. */
  lemma LenDrops(a: Poly, m: Poly)
    requires m != {} && Len(a) >= Len(m)
    ensures Len(Xor(a, Shift(m, Len(a) - Len(m)))) < Len(a)
  {
    var b := Xor(a, Shift(m, Len(a) - Len(m)));
    assert Below(b, Len(a));
    assert Len(a) - 1 !in b;
  }

  ghost function Rem(a: Poly, m: Poly): (r: Poly)
    requires m != {}
    ensures Len(r) < Len(m)
    decreases Len(a)
  {
    if Len(a) < Len(m) then a
    else
      LenDrops(a, m);
      Rem(Xor(a, Shift(m, Len(a) - Len(m))), m)
  }

  lemma {:induction false} RemDivides(a: Poly, m: Poly) returns (q: Poly)
    requires m != {}
    ensures a == Xor(Mul(q, m), Rem(a, m))
    decreases Len(a)
  {
    hide Xor, Shift, Mul;
    if Len(a) < Len(m) {
      q := {};
      MulMonomial(m, 0);
      XorBasics(a, {});
    } else {
      var s := Len(a) - Len(m);
      LenDrops(a, m);
      var b := Xor(a, Shift(m, s));
      var q' := RemDivides(b, m);
      q := Xor(q', {s});
      MulXorLeft(q', {s}, m);
      MulMonomial(m, s);
      XorBasics(a, Shift(m, s));
      XorAssoc(Mul(q', m), Shift(m, s), Rem(a, m));
      XorAssoc(Mul(q', m), Rem(a, m), Shift(m, s));
      XorBasics(Shift(m, s), Rem(a, m));
    }
  }

  lemma XorLen(a: Poly, b: Poly, n: nat)
    requires Len(a) <= n && Len(b) <= n
    ensures Len(Xor(a, b)) <= n
  {
    LenBelow(Xor(a, b), n);
  }

  /** Quotient and remainder are unique. */
  lemma DivisionUnique(m: Poly, q: Poly, r: Poly, q': Poly, r': Poly)
    requires Len(r) < Len(m) && Len(r') < Len(m)
    requires Xor(Mul(q, m), r) == Xor(Mul(q', m), r')
    ensures q == q' && r == r'
  {
    hide Mul;
    var d := Xor(q, q');
    MulXorLeft(q, q', m);
    assert Mul(d, m) == Xor(r, r') by {
      assert forall x: nat :: x in Xor(Mul(q, m), r) <==> x in Xor(Mul(q', m), r');
    }
    XorLen(r, r', Len(m) - 1);
    MulLen(d, m);
    XorBasics(q, q');
    XorBasics(r, r');
  }

  lemma RemIs(a: Poly, m: Poly, q: Poly, r: Poly)
    requires m != {} && Len(r) < Len(m) && a == Xor(Mul(q, m), r)
    ensures Rem(a, m) == r
  {
    var q' := RemDivides(a, m);
    DivisionUnique(m, q, r, q', Rem(a, m));
  }

  lemma RemSmall(a: Poly, m: Poly)
    requires m != {} && Len(a) < Len(m)
    ensures Rem(a, m) == a
  {
  }

  lemma RemXor(a: Poly, b: Poly, m: Poly)
    requires m != {}
    ensures Rem(Xor(a, b), m) == Xor(Rem(a, m), Rem(b, m))
  {
    hide Xor, Mul, Rem;
    var q := RemDivides(a, m);
    var q' := RemDivides(b, m);
    var r, r' := Rem(a, m), Rem(b, m);
    MulXorLeft(q, q', m);
    XorSwap(Mul(q, m), r, Mul(q', m), r');
    XorLen(r, r', Len(m) - 1);
    RemIs(Xor(a, b), m, Xor(q, q'), Xor(r, r'));
  }

  /** Multiples of m have remainder zero. */
  lemma RemMultiple(q: Poly, m: Poly)
    requires m != {}
    ensures Rem(Mul(q, m), m) == {}
  {
    XorBasics(Mul(q, m), {});
    RemIs(Mul(q, m), m, q, {});
  }

  /** A factor may be reduced before multiplying. */
  lemma RemMul(a: Poly, b: Poly, m: Poly)
    requires m != {}
    ensures Rem(Mul(Rem(a, m), b), m) == Rem(Mul(a, b), m)
  {
    hide Xor, Mul, Rem;
    var q := RemDivides(a, m);
    var r := Rem(a, m);
    MulXorLeft(Mul(q, m), r, b);
    MulAssociates(q, m, b);
    MulCommutes(m, b);
    MulAssociates(q, b, m);
    RemMultiple(Mul(q, b), m);
    RemXor(Mul(Mul(q, m), b), Mul(r, b), m);
    XorBasics(Rem(Mul(r, b), m), {});
  }

  /** Multiplication in GF(2)[x] / m. */
  ghost function MulMod(a: Poly, b: Poly, m: Poly): (r: Poly)
    requires m != {}
    ensures Len(r) < Len(m)
  {
    Rem(Mul(a, b), m)
  }

  lemma MulModCommutes(a: Poly, b: Poly, m: Poly)
    requires m != {}
    ensures MulMod(a, b, m) == MulMod(b, a, m)
  {
    MulCommutes(a, b);
  }

  lemma MulModAssociates(a: Poly, b: Poly, c: Poly, m: Poly)
    requires m != {}
    ensures MulMod(MulMod(a, b, m), c, m) == MulMod(a, MulMod(b, c, m), m)
  {
    hide Mul, Rem;
    RemMul(Mul(a, b), c, m);
    MulAssociates(a, b, c);
    MulCommutes(a, Rem(Mul(b, c), m));
    RemMul(Mul(b, c), a, m);
    MulCommutes(a, Mul(b, c));
  }

  lemma MulModDistributes(a: Poly, b: Poly, c: Poly, m: Poly)
    requires m != {}
    ensures MulMod(a, Xor(b, c), m) == Xor(MulMod(a, b, m), MulMod(a, c, m))
  {
    MulXorRight(a, b, c);
    RemXor(Mul(a, b), Mul(a, c), m);
  }

  // ----- words -----

  /** `width - leading_zeros`: the bit length, by scanning down from the top. */
  function BitLen(p: Poly, width: nat): (n: nat)
    requires Below(p, width)
    ensures n == Len(p) && n <= width
  {
    if width == 0 then LenIs(p, 0); 0
    else if width - 1 in p then LenIs(p, width); width
    else BitLen(p, width - 1)
  }

  /** `BinaryPoly*::mul`: the carryless product truncated to the word. */
  method PolyMul(a: Poly, b: Poly, width: nat) returns (result: Poly)
    requires Below(a, width) && Below(b, width)
    ensures result == Low(Mul(a, b), width)
  {
    result := {};
    for i := 0 to width
      invariant result == Low(MulLow(a, b, i), width)
    {
      if i in b {
        LowXor(MulLow(a, b, i), Shift(a, i), width);
        result := Xor(result, Low(Shift(a, i), width));
      }
    }
    MulIs(a, b, width);
  }

  /** `div_rem`: schoolbook division, for a non-zero divisor. */
  method DivRem(a: Poly, divisor: Poly, width: nat) returns (quotient: Poly, remainder: Poly)
    requires Below(a, width) && Below(divisor, width) && divisor != {}
    ensures a == Xor(Mul(quotient, divisor), remainder)
    ensures Len(remainder) < Len(divisor) && remainder == Rem(a, divisor)
  {
    hide Mul, Shift, Xor, Rem;
    quotient := {};
    remainder := a;
    MulMonomial(divisor, 0);
    XorBasics(a, {});
    if remainder == {} {
      LenIs({}, 0);
      RemSmall(a, divisor);
      return;
    }
    var divisorBits := BitLen(divisor, width);
    var remainderBits := BitLen(remainder, width);
    while remainderBits >= divisorBits && remainder != {}
      invariant Below(remainder, width) && remainderBits == Len(remainder)
      invariant a == Xor(Mul(quotient, divisor), remainder)
      invariant forall x :: x in quotient ==> x + Len(divisor) > Len(remainder)
      decreases Len(remainder)
    {
      var shift := remainderBits - divisorBits;
      DivisionStep(a, quotient, divisor, remainder, shift, width);
      quotient := quotient + {shift};
      remainder := Xor(remainder, Low(Shift(divisor, shift), width));
      remainderBits := BitLen(remainder, width);
    }
    RemIs(a, divisor, quotient, remainder);
  }

  lemma DivisionStep(a: Poly, q: Poly, d: Poly, r: Poly, s: nat, width: nat)
    requires d != {} && Len(r) >= Len(d) && s == Len(r) - Len(d) && Below(r, width)
    requires a == Xor(Mul(q, d), r) && forall x :: x in q ==> x + Len(d) > Len(r)
    ensures Low(Shift(d, s), width) == Shift(d, s)
    ensures var r' := Xor(r, Shift(d, s));
      && Len(r') < Len(r) && Below(r', width) && a == Xor(Mul(q + {s}, d), r')
      && forall x :: x in q + {s} ==> x + Len(d) > Len(r')
  {
    hide Mul;
    LenBelow(r, width);
    LenDrops(r, d);
    QuotientStep(a, q, d, r, s);
  }

  lemma QuotientStep(a: Poly, q: Poly, d: Poly, r: Poly, s: nat)
    requires a == Xor(Mul(q, d), r) && s !in q
    ensures a == Xor(Mul(q + {s}, d), Xor(r, Shift(d, s)))
  {
    hide Mul, Shift;
    assert q + {s} == Xor(q, {s});
    hide Xor;
    MulXorLeft(q, {s}, d);
    MulMonomial(d, s);
    XorSwap(Mul(q, d), Shift(d, s), r, Shift(d, s));
    XorBasics(Shift(d, s), {});
    XorBasics(Xor(Mul(q, d), r), {});
  }

  /** The highest set bit at or above n, or 0. */
  function HighBit(p: Poly, n: nat, width: nat): nat {
    if width <= n then 0 else if width - 1 in p then width - 1 else HighBit(p, n, width - 1)
  }

  lemma {:induction false} HighBitIs(p: Poly, n: nat, width: nat)
    requires Below(p, width) && 0 < n
    ensures HighBit(p, n, width) >= n <==> Len(p) > n
    ensures HighBit(p, n, width) >= n ==> HighBit(p, n, width) == Len(p) - 1
  {
    if width <= n {
      LenBelow(p, n);
    } else if width - 1 in p {
      LenIs(p, width);
    } else {
      HighBitIs(p, n, width - 1);
    }
  }

  /** `mod_irreducible_wide`: clear the highest bit at or above n until none is left. */
  method ModIrreducibleWide(poly: Poly, irr: Poly, n: nat, width: nat) returns (r: Poly)
    requires 0 < n && Below(poly, width) && Len(irr) == n + 1
    ensures r == Rem(poly, irr)
  {
    hide Rem, Xor, Shift, Len;
    var p := poly;
    var highBit := HighBit(p, n, width);
    HighBitIs(p, n, width);
    while highBit >= n
      invariant Below(p, width) && Rem(p, irr) == Rem(poly, irr)
      invariant highBit >= n <==> Len(p) > n
      invariant highBit >= n ==> highBit == Len(p) - 1
      decreases Len(p)
    {
      ReduceStep(p, irr, n, width);
      p := Xor(p, Low(Shift(irr, highBit - n), width));
      highBit := HighBit(p, n, width);
      HighBitIs(p, n, width);
      if highBit < n {
        break;
      }
    }
    RemSmall(p, irr);
    LowSmall(p, n);
    r := Low(p, n);
  }

  lemma LowSmall(p: Poly, n: nat)
    requires Len(p) <= n
    ensures Low(p, n) == p && Below(p, n)
  {
  }

  lemma ReduceStep(p: Poly, irr: Poly, n: nat, width: nat)
    requires Len(irr) == n + 1 && Len(p) > n && Below(p, width)
    ensures var s := Shift(irr, Len(p) - 1 - n);
      Low(s, width) == s && Below(Xor(p, s), width) && Len(Xor(p, s)) < Len(p) && Rem(Xor(p, s), irr) == Rem(p, irr)
  {
    hide Rem;
    LenBelow(p, width);
    LenDrops(p, irr);
    var k := Len(p) - 1 - n;
    RemXor(p, Shift(irr, k), irr);
    MulMonomial(irr, k);
    RemMultiple({k}, irr);
    XorBasics(Rem(p, irr), {});
  }

  /** `mul` of the 16- and 32-bit elements: the double-width product, then reduction. */
  method ElemMul(a: Poly, b: Poly, irr: Poly, n: nat) returns (r: Poly)
    requires 0 < n && Below(a, n) && Below(b, n) && Len(irr) == n + 1
    ensures r == MulMod(a, b, irr)
  {
    var wide := PolyMul(a, b, 2 * n);
    WideFits(a, b, n);
    r := ModIrreducibleWide(wide, irr, n, 2 * n);
  }

  lemma WideFits(a: Poly, b: Poly, n: nat)
    requires Below(a, n) && Below(b, n)
    ensures Low(Mul(a, b), 2 * n) == Mul(a, b) && Below(Mul(a, b), 2 * n)
  {
    hide Mul;
    LenBelow(a, n);
    LenBelow(b, n);
    MulLen(a, b);
    LowSmall(Mul(a, b), 2 * n);
  }

  /** The modulus x^n + low. */
  function Modulus(low: Poly, n: nat): Poly {
    low + {n}
  }

  /** One doubling step: shift out of the word and fold x^n back in as `low`. */
  function Double(t: Poly, low: Poly, n: nat): Poly {
    var s := Low(Shift(t, 1), n);
    if n - 1 in t then Xor(s, low) else s
  }

  lemma DoubleIs(t: Poly, low: Poly, n: nat)
    requires 0 < n && Below(low, n) && Below(t, n)
    ensures Len(Modulus(low, n)) == n + 1 && Below(Double(t, low, n), n)
    ensures Double(t, low, n) == Rem(Shift(t, 1), Modulus(low, n))
  {
    hide Rem, Mul, Double, Shift, Xor, Modulus;
    var m, d := Modulus(low, n), Double(t, low, n);
    DoubleBits(t, low, n);
    LenIs(m, n + 1);
    LenBelow(d, n);
    if n - 1 in t {
      MulMonomial(m, 0);
      ShiftShift(m, 0, 0);
      RemIs(Shift(t, 1), m, {0}, d);
    } else {
      RemSmall(d, m);
    }
  }

  lemma DoubleBits(t: Poly, low: Poly, n: nat)
    requires 0 < n && Below(low, n) && Below(t, n)
    ensures IsLen(Modulus(low, n), n + 1) && Below(Double(t, low, n), n)
    ensures Shift(t, 1) == if n - 1 in t then Xor(Modulus(low, n), Double(t, low, n)) else Double(t, low, n)
  {
  }

  /** Reducing before a shift does not change the remainder after it. */
  lemma ShiftRem(a: Poly, i: nat, m: Poly)
    requires m != {}
    ensures Rem(Shift(Rem(Shift(a, i), m), 1), m) == Rem(Shift(a, i + 1), m)
  {
    hide Rem, Mul;
    MulMonomial(Rem(Shift(a, i), m), 1);
    MulMonomial(Shift(a, i), 1);
    RemMul(Shift(a, i), {1}, m);
    ShiftShift(a, i, 1);
  }

  /** `BinaryElem128::mul`: interleaved shift-and-reduce over the n bits of b. */
  method InterleavedMul(a: Poly, b: Poly, low: Poly, n: nat) returns (result: Poly)
    requires 0 < n && Below(a, n) && Below(b, n) && Below(low, n)
    ensures result == MulMod(a, b, Modulus(low, n))
  {
    hide Rem, Shift, Double, Xor, Mul;
    ghost var m := Modulus(low, n);
    result := {};
    var temp := a;
    InterleavedStart(a, low, n);
    for i := 0 to n
      invariant Below(temp, n) && temp == Rem(Shift(a, i), m)
      invariant result == Rem(MulLow(a, b, i), m)
    {
      RemXor(MulLow(a, b, i), Shift(a, i), m);
      if i in b {
        result := Xor(result, temp);
      }
      DoubleIs(temp, low, n);
      ShiftRem(a, i, m);
      temp := Double(temp, low, n);
    }
    MulIs(a, b, n);
  }

  lemma InterleavedStart(a: Poly, low: Poly, n: nat)
    requires 0 < n && Below(a, n)
    ensures var m := Modulus(low, n); Below(low, n) ==> Len(m) == n + 1 && Rem(Shift(a, 0), m) == a && Rem({}, m) == {}
  {
    var m := Modulus(low, n);
    if Below(low, n) {
      LenIs(m, n + 1);
      LenBelow(a, n);
      ShiftShift(a, 0, 0);
      RemSmall(a, m);
      LenIs({}, 0);
      RemSmall({}, m);
    }
  }

  /** `b >> i` */
  function Down(b: Poly, i: nat): (r: Poly)
    ensures forall y: nat :: y in r <==> y + i in b
  {
    DownMembers(b, i);
    set x | x in b && x >= i :: x - i
  }

  lemma DownMembers(b: Poly, i: nat)
    ensures var r := set x | x in b && x >= i :: x - i; forall y: nat :: y in r <==> y + i in b
  {
    var r := set x | x in b && x >= i :: x - i;
    forall y: nat ensures y in r <==> y + i in b {
      if y + i in b {
        var x := y + i;
        assert x in b && x >= i && x - i == y;
      }
    }
  }

  /** `gf256_mul`: the same interleaving, stopping as soon as the shifted b is zero. */
  method Gf256Mul(a0: Poly, b0: Poly, low: Poly, n: nat) returns (result: Poly)
    requires 0 < n && Below(a0, n) && Below(b0, n) && Below(low, n)
    ensures result == MulMod(a0, b0, Modulus(low, n))
  {
    hide Rem, Shift, Double, Xor, Mul, Down;
    ghost var m := Modulus(low, n);
    result := {};
    var a, b := a0, b0;
    InterleavedStart(a0, low, n);
    DownStep(b0, 0, n);
    ghost var i := 0;
    while b != {}
      invariant i <= n && b == Down(b0, i)
      invariant Below(a, n) && a == Rem(Shift(a0, i), m)
      invariant result == Rem(MulLow(a0, b0, i), m)
      decreases n - i
    {
      DownStep(b0, i, n);
      RemXor(MulLow(a0, b0, i), Shift(a0, i), m);
      if 0 in b {
        result := Xor(result, a);
      }
      DoubleIs(a, low, n);
      ShiftRem(a0, i, m);
      a := Double(a, low, n);
      b := Down(b, 1);
      i := i + 1;
    }
    DownDone(b0, i);
    MulIs(a0, b0, i);
  }

  lemma DownStep(b: Poly, i: nat, n: nat)
    requires Below(b, n)
    ensures Down(b, 0) == b && Down(Down(b, i), 1) == Down(b, i + 1)
    ensures 0 in Down(b, i) <==> i in b
    ensures Down(b, i) != {} ==> i < n
  {
    if Down(b, i) != {} {
      var y :| y in Down(b, i);
      assert y + i in b;
    }
  }

  lemma DownDone(b: Poly, i: nat)
    requires Down(b, i) == {}
    ensures Below(b, i)
  {
    forall x | x in b ensures x < i {
      assert x >= i ==> x - i in Down(b, i);
    }
  }
}
