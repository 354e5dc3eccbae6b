/** Polynomials over GF(2) as numbers, one byte a coefficient: products become products of numbers, and the parity of each byte
    is the coefficient. Identities between given polynomials are then identities between given numbers. */
module Kronecker {
  import opened BinaryPoly
  import opened BinaryElem

  function Constant(odd: bool): Poly {
    if odd then {0} else {}
  }

  /** The bytes of n that are odd. */
  function Coeffs(n: nat): Poly {
    if n == 0 then {} else Xor(Constant(n % 2 == 1), Shift(Coeffs(n / 256), 1))
  }

  /** Every byte of n is at most c. */
  predicate Small(n: nat, c: nat) {
    n == 0 || (n % 256 <= c && Small(n / 256, c))
  }

  function P256(k: nat): (r: nat)
    ensures r > 0
  {
    if k == 0 then 1 else 256 * P256(k - 1)
  }

  lemma PowerStep(k: nat)
    ensures P256(0) == 1 && P256(k + 1) == 256 * P256(k)
  {
  }

  lemma Unfold(n: nat, c: nat)
    ensures Coeffs(n) == Xor(Constant(n % 2 == 1), Shift(Coeffs(n / 256), 1))
    ensures Small(n, c) ==> Small(n / 256, c) && n % 256 <= c
    ensures n % 256 <= c && Small(n / 256, c) ==> Small(n, c)
  {
    if n == 0 {
      ShiftShift({}, 1, 0);
    }
  }

  lemma Zero(c: nat)
    ensures Coeffs(0) == {} && Small(0, c)
  {
  }

  lemma XorUnfold(a: Poly, b: Poly, x: bool, y: bool)
    ensures Xor(Xor(Constant(x), Shift(a, 1)), Xor(Constant(y), Shift(b, 1))) == Xor(Constant(x != y), Shift(Xor(a, b), 1))
  {
    hide Shift;
    ShiftXor(a, b, 1);
  }

  // ----- sums and products -----

  /** Adding without a carry out of the lowest byte. */
  lemma AddBytes(m: nat, n: nat, c: nat, d: nat)
    requires m % 256 <= c && n % 256 <= d && c + d < 256
    ensures (m + n) / 256 == m / 256 + n / 256 && (m + n) % 256 <= c + d
    ensures (m + n) % 2 == 1 <==> (m % 2 == 1) != (n % 2 == 1)
    ensures m + n > 0 ==> m / 256 + n / 256 < m + n
  {
    ByteOf(m / 256, m % 256);
    ByteOf(n / 256, n % 256);
    ByteOf(m / 256 + n / 256, m % 256 + n % 256);
    assert m + n == 256 * (m / 256 + n / 256) + (m % 256 + n % 256);
  }

  lemma ByteOf(q: nat, r: nat)
    requires r < 256
    ensures (256 * q + r) / 256 == q && (256 * q + r) % 256 == r && (256 * q + r) % 2 == r % 2
  {
  }

  lemma {:induction false} AddCoeffs(m: nat, n: nat, c: nat, d: nat)
    requires Small(m, c) && Small(n, d) && c + d < 256
    ensures Small(m + n, c + d) && Coeffs(m + n) == Xor(Coeffs(m), Coeffs(n))
    decreases m + n
  {
    hide *;
    if m == 0 && n == 0 {
      Zero(c + d);
      XorBasics({}, {});
    } else {
      Unfold(m, c);
      Unfold(n, d);
      AddBytes(m, n, c, d);
      AddCoeffs(m / 256, n / 256, c, d);
      Unfold(m + n, c + d);
      XorUnfold(Coeffs(m / 256), Coeffs(n / 256), m % 2 == 1, n % 2 == 1);
    }
  }

  lemma ShiftCoeffs(n: nat, c: nat)
    requires Small(n, c)
    ensures Small(256 * n, c) && Coeffs(256 * n) == Shift(Coeffs(n), 1)
  {
    hide *;
    Unfold(256 * n, c);
    XorBasics(Shift(Coeffs(n), 1), {});
    NoConstant();
  }

  lemma NoConstant()
    ensures Constant(false) == {} && Constant(true) == {0}
  {
  }

  lemma TwiceCoeffs(n: nat, c: nat)
    requires Small(n, c) && 2 * c < 256
    ensures Small(2 * n, 2 * c) && Coeffs(2 * n) == {}
  {
    hide *;
    AddCoeffs(n, n, c, c);
    XorBasics(Coeffs(n), Coeffs(n));
  }

  lemma {:induction false} ScaleCoeffs(t: nat, n: nat, d: nat)
    requires Small(n, d) && t * d < 256
    ensures Small(t * n, t * d) && Coeffs(t * n) == if t % 2 == 1 then Coeffs(n) else {}
  {
    hide *;
    if t == 0 {
      Zero(0);
    } else {
      assert t * d == (t - 1) * d + d && t * n == (t - 1) * n + n;
      ScaleCoeffs(t - 1, n, d);
      AddCoeffs((t - 1) * n, n, (t - 1) * d, d);
      XorBasics(Coeffs(n), Coeffs(n));
      XorBasics(Coeffs(n), {});
    }
  }

  lemma {:induction false} Relax(n: nat, c: nat, d: nat)
    requires Small(n, c) && c <= d
    ensures Small(n, d)
  {
    if n != 0 {
      Relax(n / 256, c, d);
    }
  }

  lemma ProductStep(a: Poly, b: Poly, odd: bool)
    ensures Mul(Xor(Constant(odd), Shift(a, 1)), b) == Xor(if odd then b else {}, Shift(Mul(a, b), 1))
  {
    hide Mul, Shift;
    MulXorLeft(Constant(odd), Shift(a, 1), b);
    MulMonomial(b, 0);
    ShiftShift(b, 0, 0);
    MulCommutes(Shift(a, 1), b);
    MulShiftRight(b, a, 1);
    MulCommutes(a, b);
  }

  lemma SplitProduct(a: nat, b: nat)
    ensures a * b == (a % 256) * b + 256 * ((a / 256) * b)
  {
    var q, r := a / 256, a % 256;
    assert a == 256 * q + r;
    assert (256 * q + r) * b == 256 * (q * b) + r * b;
  }

  lemma MulStep(a: nat, b: nat, tb: nat, qb: nat, ab: nat, w: nat, v: nat)
    requires Small(tb, w) && Small(qb, v) && v + w < 256 && ab == tb + 256 * qb
    requires Coeffs(tb) == (if a % 2 == 1 then Coeffs(b) else {}) && Coeffs(qb) == Mul(Coeffs(a / 256), Coeffs(b))
    ensures Small(ab, v + w) && Coeffs(ab) == Mul(Coeffs(a), Coeffs(b))
  {
    hide *;
    Unfold(a, 0);
    ShiftCoeffs(qb, v);
    AddCoeffs(tb, 256 * qb, w, v);
    ProductStep(Coeffs(a / 256), Coeffs(b), a % 2 == 1);
  }

  lemma Times(k: nat, w: nat)
    requires k > 0
    ensures k * w == (k - 1) * w + w
  {
  }

  /** A product of k bytes at most c with bytes at most d, where c d is at most w. */
  lemma {:induction false} MulCoeffs(a: nat, b: nat, k: nat, c: nat, d: nat, w: nat)
    requires a < P256(k) && Small(a, c) && Small(b, d) && c * d <= w && k * w < 256
    ensures Small(a * b, k * w) && Coeffs(a * b) == Mul(Coeffs(a), Coeffs(b))
    decreases k
  {
    hide *;
    if k == 0 {
      PowerStep(0);
      Zero(0);
      MulMonomial(Coeffs(b), 0);
    } else {
      PowerStep(k - 1);
      Unfold(a, c);
      Times(k, w);
      MulCoeffs(a / 256, b, k - 1, c, d, w);
      ByteTimes(a % 256, b, c, d, w);
      SplitProduct(a, b);
      ParityOfByte(a);
      MulStep(a, b, (a % 256) * b, (a / 256) * b, a * b, w, (k - 1) * w);
    }
  }

  lemma ParityOfByte(a: nat)
    ensures a % 256 % 2 == a % 2
  {
  }

  lemma ByteTimes(t: nat, b: nat, c: nat, d: nat, w: nat)
    requires t <= c && Small(b, d) && c * d <= w < 256
    ensures Small(t * b, w) && Coeffs(t * b) == if t % 2 == 1 then Coeffs(b) else {}
  {
    hide *;
    TimesMono(t, c, d);
    ScaleCoeffs(t, b, d);
    Relax(t * b, t * d, w);
  }

  lemma TimesMono(t: nat, c: nat, d: nat)
    requires t <= c
    ensures t * d <= c * d
  {
    assert (c - t) * d >= 0;
  }

  lemma {:induction false} CoeffsBelow(n: nat, k: nat)
    requires n < P256(k)
    ensures Below(Coeffs(n), k)
    decreases k
  {
    if k == 0 {
      Zero(0);
    } else {
      Unfold(n, 255);
      CoeffsBelow(n / 256, k - 1);
    }
  }

  // ----- words -----

  const ROW: nat := 0x1_0000_0000_0000_0000
  const WORD: nat := 0x1_0000_0000_0000_0000_0000_0000_0000_0000_0000_0000_0000_0000_0000_0000_0000_0000

  /** The bits of a word, one byte each, eight at a time. */
  function FirstEight(w: bv32): nat {
    (if w & 0x1 != 0 then 0x1 else 0) + (if w & 0x2 != 0 then 0x100 else 0) +
    (if w & 0x4 != 0 then 0x1_0000 else 0) + (if w & 0x8 != 0 then 0x100_0000 else 0) +
    (if w & 0x10 != 0 then 0x1_0000_0000 else 0) + (if w & 0x20 != 0 then 0x100_0000_0000 else 0) +
    (if w & 0x40 != 0 then 0x1_0000_0000_0000 else 0) + (if w & 0x80 != 0 then 0x100_0000_0000_0000 else 0)
  }

  function SecondEight(w: bv32): nat {
    (if w & 0x100 != 0 then 0x1_0000_0000_0000_0000 else 0) + (if w & 0x200 != 0 then 0x100_0000_0000_0000_0000 else 0) +
    (if w & 0x400 != 0 then 0x1_0000_0000_0000_0000_0000 else 0) + (if w & 0x800 != 0 then 0x100_0000_0000_0000_0000_0000 else 0) +
    (if w & 0x1000 != 0 then 0x1_0000_0000_0000_0000_0000_0000 else 0) + (if w & 0x2000 != 0 then 0x100_0000_0000_0000_0000_0000_0000 else 0) +
    (if w & 0x4000 != 0 then 0x1_0000_0000_0000_0000_0000_0000_0000 else 0) + (if w & 0x8000 != 0 then 0x100_0000_0000_0000_0000_0000_0000_0000 else 0)
  }

  function ThirdEight(w: bv32): nat {
    (if w & 0x10000 != 0 then 0x1_0000_0000_0000_0000_0000_0000_0000_0000 else 0) + (if w & 0x20000 != 0 then 0x100_0000_0000_0000_0000_0000_0000_0000_0000 else 0) +
    (if w & 0x40000 != 0 then 0x1_0000_0000_0000_0000_0000_0000_0000_0000_0000 else 0) + (if w & 0x80000 != 0 then 0x100_0000_0000_0000_0000_0000_0000_0000_0000_0000 else 0) +
    (if w & 0x100000 != 0 then 0x1_0000_0000_0000_0000_0000_0000_0000_0000_0000_0000 else 0) + (if w & 0x200000 != 0 then 0x100_0000_0000_0000_0000_0000_0000_0000_0000_0000_0000 else 0) +
    (if w & 0x400000 != 0 then 0x1_0000_0000_0000_0000_0000_0000_0000_0000_0000_0000_0000 else 0) + (if w & 0x800000 != 0 then 0x100_0000_0000_0000_0000_0000_0000_0000_0000_0000_0000_0000 else 0)
  }

  function FourthEight(w: bv32): nat {
    (if w & 0x1000000 != 0 then 0x1_0000_0000_0000_0000_0000_0000_0000_0000_0000_0000_0000_0000 else 0) + (if w & 0x2000000 != 0 then 0x100_0000_0000_0000_0000_0000_0000_0000_0000_0000_0000_0000_0000 else 0) +
    (if w & 0x4000000 != 0 then 0x1_0000_0000_0000_0000_0000_0000_0000_0000_0000_0000_0000_0000_0000 else 0) + (if w & 0x8000000 != 0 then 0x100_0000_0000_0000_0000_0000_0000_0000_0000_0000_0000_0000_0000_0000 else 0) +
    (if w & 0x10000000 != 0 then 0x1_0000_0000_0000_0000_0000_0000_0000_0000_0000_0000_0000_0000_0000_0000 else 0) + (if w & 0x20000000 != 0 then 0x100_0000_0000_0000_0000_0000_0000_0000_0000_0000_0000_0000_0000_0000_0000 else 0) +
    (if w & 0x40000000 != 0 then 0x1_0000_0000_0000_0000_0000_0000_0000_0000_0000_0000_0000_0000_0000_0000_0000 else 0) + (if w & 0x80000000 != 0 then 0x100_0000_0000_0000_0000_0000_0000_0000_0000_0000_0000_0000_0000_0000_0000_0000 else 0)
  }

  function Spread(w: bv32): nat {
    FirstEight(w) + SecondEight(w) + ThirdEight(w) + FourthEight(w)
  }

  /** One more bit on top. */
  lemma BitThen(n: nat, k: nat, p: nat, t: nat)
    requires Small(n, 1) && n < p == P256(k) && (t == 0 || t == p)
    ensures Small(n + t, 1) && n + t < 256 * p == P256(k + 1)
  {
    hide P256;
    PowerStep(k);
    Concat(n, if t == 0 then 0 else 1, k, 1);
  }

  lemma NibbleThen(n: nat, k: nat, p: nat, t0: nat, t1: nat, t2: nat, t3: nat) returns (r: nat)
    requires Small(n, 1) && n < p == P256(k)
    requires (t0 == 0 || t0 == p) && (t1 == 0 || t1 == 0x100 * p) && (t2 == 0 || t2 == 0x1_0000 * p) && (t3 == 0 || t3 == 0x100_0000 * p)
    ensures r == n + t0 + t1 + t2 + t3 && Small(r, 1) && r < 0x1_0000_0000 * p == P256(k + 4)
  {
    hide Small, P256;
    BitThen(n, k, p, t0);
    BitThen(n + t0, k + 1, 0x100 * p, t1);
    BitThen(n + t0 + t1, k + 2, 0x1_0000 * p, t2);
    BitThen(n + t0 + t1 + t2, k + 3, 0x100_0000 * p, t3);
    r := n + t0 + t1 + t2 + t3;
  }

  function Bit(on: bool, value: nat): nat {
    if on then value else 0
  }

  lemma BitIs(on: bool, value: nat)
    ensures Bit(on, value) == 0 || Bit(on, value) == value
  {
  }

  lemma NibbleOf(n: nat, k: nat, p: nat, b0: bool, b1: bool, b2: bool, b3: bool) returns (r: nat)
    requires Small(n, 1) && n < p == P256(k)
    ensures r == n + Bit(b0, p) + Bit(b1, 0x100 * p) + Bit(b2, 0x1_0000 * p) + Bit(b3, 0x100_0000 * p)
    ensures Small(r, 1) && r < 0x1_0000_0000 * p == P256(k + 4)
  {
    hide *;
    BitIs(b0, p);
    BitIs(b1, 0x100 * p);
    BitIs(b2, 0x1_0000 * p);
    BitIs(b3, 0x100_0000 * p);
    r := NibbleThen(n, k, p, Bit(b0, p), Bit(b1, 0x100 * p), Bit(b2, 0x1_0000 * p), Bit(b3, 0x100_0000 * p));
  }

  lemma FirstEightIs(w: bv32)
    ensures FirstEight(w) ==
      Bit(w & 0x1 != 0, 0x1) + Bit(w & 0x2 != 0, 0x100) +
      Bit(w & 0x4 != 0, 0x1_0000) + Bit(w & 0x8 != 0, 0x100_0000) +
      Bit(w & 0x10 != 0, 0x1_0000_0000) + Bit(w & 0x20 != 0, 0x100_0000_0000) +
      Bit(w & 0x40 != 0, 0x1_0000_0000_0000) + Bit(w & 0x80 != 0, 0x100_0000_0000_0000)
  {
  }

  lemma SecondEightIs(w: bv32)
    ensures SecondEight(w) ==
      Bit(w & 0x100 != 0, 0x1_0000_0000_0000_0000) + Bit(w & 0x200 != 0, 0x100_0000_0000_0000_0000) +
      Bit(w & 0x400 != 0, 0x1_0000_0000_0000_0000_0000) + Bit(w & 0x800 != 0, 0x100_0000_0000_0000_0000_0000) +
      Bit(w & 0x1000 != 0, 0x1_0000_0000_0000_0000_0000_0000) + Bit(w & 0x2000 != 0, 0x100_0000_0000_0000_0000_0000_0000) +
      Bit(w & 0x4000 != 0, 0x1_0000_0000_0000_0000_0000_0000_0000) + Bit(w & 0x8000 != 0, 0x100_0000_0000_0000_0000_0000_0000_0000)
  {
  }

  lemma ThirdEightIs(w: bv32)
    ensures ThirdEight(w) ==
      Bit(w & 0x10000 != 0, 0x1_0000_0000_0000_0000_0000_0000_0000_0000) + Bit(w & 0x20000 != 0, 0x100_0000_0000_0000_0000_0000_0000_0000_0000) +
      Bit(w & 0x40000 != 0, 0x1_0000_0000_0000_0000_0000_0000_0000_0000_0000) + Bit(w & 0x80000 != 0, 0x100_0000_0000_0000_0000_0000_0000_0000_0000_0000) +
      Bit(w & 0x100000 != 0, 0x1_0000_0000_0000_0000_0000_0000_0000_0000_0000_0000) + Bit(w & 0x200000 != 0, 0x100_0000_0000_0000_0000_0000_0000_0000_0000_0000_0000) +
      Bit(w & 0x400000 != 0, 0x1_0000_0000_0000_0000_0000_0000_0000_0000_0000_0000_0000) + Bit(w & 0x800000 != 0, 0x100_0000_0000_0000_0000_0000_0000_0000_0000_0000_0000_0000)
  {
  }

  lemma FourthEightIs(w: bv32)
    ensures FourthEight(w) ==
      Bit(w & 0x1000000 != 0, 0x1_0000_0000_0000_0000_0000_0000_0000_0000_0000_0000_0000_0000) + Bit(w & 0x2000000 != 0, 0x100_0000_0000_0000_0000_0000_0000_0000_0000_0000_0000_0000_0000) +
      Bit(w & 0x4000000 != 0, 0x1_0000_0000_0000_0000_0000_0000_0000_0000_0000_0000_0000_0000_0000) + Bit(w & 0x8000000 != 0, 0x100_0000_0000_0000_0000_0000_0000_0000_0000_0000_0000_0000_0000_0000) +
      Bit(w & 0x10000000 != 0, 0x1_0000_0000_0000_0000_0000_0000_0000_0000_0000_0000_0000_0000_0000_0000) + Bit(w & 0x20000000 != 0, 0x100_0000_0000_0000_0000_0000_0000_0000_0000_0000_0000_0000_0000_0000_0000) +
      Bit(w & 0x40000000 != 0, 0x1_0000_0000_0000_0000_0000_0000_0000_0000_0000_0000_0000_0000_0000_0000_0000) + Bit(w & 0x80000000 != 0, 0x100_0000_0000_0000_0000_0000_0000_0000_0000_0000_0000_0000_0000_0000_0000_0000)
  {
  }

  lemma SpreadIs(w: bv32)
    ensures Spread(w) == FirstEight(w) + SecondEight(w) + ThirdEight(w) + FourthEight(w)
  {
  }

  lemma SpreadSmall(w: bv32)
    ensures Small(Spread(w), 1) && Spread(w) < P256(32)
  {
    hide *;
    Zero(1);
    PowerStep(0);
    var r0 := NibbleOf(0, 0, 0x1, w & 0x1 != 0, w & 0x2 != 0, w & 0x4 != 0, w & 0x8 != 0);
    var r1 := NibbleOf(r0, 4, 0x1_0000_0000, w & 0x10 != 0, w & 0x20 != 0, w & 0x40 != 0, w & 0x80 != 0);
    var r2 := NibbleOf(r1, 8, 0x1_0000_0000_0000_0000, w & 0x100 != 0, w & 0x200 != 0, w & 0x400 != 0, w & 0x800 != 0);
    var r3 := NibbleOf(r2, 12, 0x1_0000_0000_0000_0000_0000_0000, w & 0x1000 != 0, w & 0x2000 != 0, w & 0x4000 != 0, w & 0x8000 != 0);
    var r4 := NibbleOf(r3, 16, 0x1_0000_0000_0000_0000_0000_0000_0000_0000, w & 0x10000 != 0, w & 0x20000 != 0, w & 0x40000 != 0, w & 0x80000 != 0);
    var r5 := NibbleOf(r4, 20, 0x1_0000_0000_0000_0000_0000_0000_0000_0000_0000_0000, w & 0x100000 != 0, w & 0x200000 != 0, w & 0x400000 != 0, w & 0x800000 != 0);
    var r6 := NibbleOf(r5, 24, 0x1_0000_0000_0000_0000_0000_0000_0000_0000_0000_0000_0000_0000, w & 0x1000000 != 0, w & 0x2000000 != 0, w & 0x4000000 != 0, w & 0x8000000 != 0);
    var r7 := NibbleOf(r6, 28, 0x1_0000_0000_0000_0000_0000_0000_0000_0000_0000_0000_0000_0000_0000_0000, w & 0x10000000 != 0, w & 0x20000000 != 0, w & 0x40000000 != 0, w & 0x80000000 != 0);
    FirstEightIs(w);
    SecondEightIs(w);
    ThirdEightIs(w);
    FourthEightIs(w);
    SpreadIs(w);
    assert r7 == Spread(w);
  }

  lemma {:induction false} PowerCoeffs(k: nat)
    ensures Small(P256(k), 1) && Coeffs(P256(k)) == {k}
  {
    hide *;
    PowerStep(if k == 0 then 0 else k - 1);
    if k == 0 {
      One();
    } else {
      PowerCoeffs(k - 1);
      ShiftCoeffs(P256(k - 1), 1);
      ShiftOne(k - 1);
    }
  }

  lemma One()
    ensures Small(1, 1) && Coeffs(1) == {0}
  {
    ShiftShift({}, 1, 0);
  }

  lemma ShiftOne(k: nat)
    ensures Shift({k}, 1) == {k + 1}
  {
  }

  /** x^n plus a polynomial of lower degree. */
  lemma ModulusCoeffs(low: nat, n: nat)
    requires Small(low, 1) && low < P256(n)
    ensures Small(P256(n) + low, 2) && Coeffs(P256(n) + low) == Modulus(Coeffs(low), n) && Len(Coeffs(P256(n) + low)) == n + 1
  {
    hide Coeffs, Small, P256;
    PowerCoeffs(n);
    AddCoeffs(P256(n), low, 1, 1);
    CoeffsBelow(low, n);
    assert Xor({n}, Coeffs(low)) == Coeffs(low) + {n};
    LenIs(Modulus(Coeffs(low), n), n + 1);
  }

  lemma PowersOf256()
    ensures P256(8) == ROW && P256(16) == ROW * ROW && P256(32) == WORD
  {
    hide P256;
    PowerRow();
    PowerSum(8, 8);
    PowerSum(16, 16);
  }

  lemma PowerRow()
    ensures P256(8) == ROW
  {
  }

  lemma {:induction false} PowerSum(j: nat, k: nat)
    ensures P256(j + k) == P256(j) * P256(k)
  {
    if j != 0 {
      PowerSum(j - 1, k);
    }
  }

  lemma LowestByte(lo: nat, q: nat, p: nat)
    requires lo < 256 * q
    ensures (lo + 256 * p) % 256 == lo % 256 && (lo + 256 * p) / 256 == lo / 256 + p && lo / 256 < q
  {
  }

  lemma Regroup(p: nat, q: nat, hi: nat)
    requires p == 256 * q
    ensures p * hi == 256 * (q * hi)
  {
  }

  lemma {:induction false} Concat(lo: nat, hi: nat, k: nat, c: nat)
    requires Small(lo, c) && Small(hi, c) && lo < P256(k)
    ensures Small(lo + P256(k) * hi, c)
    decreases k
  {
    hide *;
    if k == 0 {
      PowerStep(0);
    } else {
      PowerStep(k - 1);
      Unfold(lo, c);
      LowestByte(lo, P256(k - 1), P256(k - 1) * hi);
      Concat(lo / 256, hi, k - 1, c);
      Regroup(P256(k), P256(k - 1), hi);
      Unfold(lo + 256 * (P256(k - 1) * hi), c);
    }
  }

  lemma Wide(lo: nat, hi: nat)
    requires Small(lo, 1) && Small(hi, 1) && lo < P256(32)
    ensures Small(lo + WORD * hi, 1)
  {
    hide Small, P256;
    PowersOf256();
    Concat(lo, hi, 32, 1);
  }

  /** Coefficients of at most 15, bit by bit. */
  lemma Planes(d0: nat, d1: nat, d2: nat, d3: nat)
    requires Small(d0, 1) && Small(d1, 1) && Small(d2, 1) && Small(d3, 1)
    ensures Small(d0 + 2 * d1 + 4 * d2 + 8 * d3, 15)
  {
    hide *;
    ScaleCoeffs(2, d1, 1);
    ScaleCoeffs(4, d2, 1);
    ScaleCoeffs(8, d3, 1);
    AddCoeffs(d0, 2 * d1, 1, 2);
    AddCoeffs(d0 + 2 * d1, 4 * d2, 3, 4);
    AddCoeffs(d0 + 2 * d1 + 4 * d2, 8 * d3, 7, 8);
  }

  /** The bits of a word as a number of up to 32 bytes, and as the polynomial p. */
  ghost predicate Holds(n: nat, p: Poly) {
    Small(n, 1) && n < P256(32) && p == Coeffs(n)
  }

  ghost predicate HoldsProduct(n: nat, p: Poly, c: nat) {
    Small(n, c) && p == Coeffs(n)
  }

  /** The polynomial with the bits of a word. */
  function OfWord(w: bv32): Poly {
    Coeffs(Spread(w))
  }

  lemma WordHolds(w: bv32)
    ensures Holds(Spread(w), OfWord(w))
  {
    hide Coeffs, Small, P256, Spread;
    SpreadSmall(w);
  }

  lemma ModulusHolds(n: nat, low: nat, m: nat, p: Poly)
    requires Holds(low, p) && low < P256(n) && m == P256(n) + low
    ensures HoldsProduct(m, Modulus(p, n), 2) && Len(Modulus(p, n)) == n + 1
  {
    hide Coeffs, Small, P256, Modulus;
    ModulusCoeffs(low, n);
  }

  lemma WordIsProduct(b: nat, p: Poly)
    requires Holds(b, p)
    ensures HoldsProduct(b, p, 1)
  {
  }

  lemma ProductHolds(a: nat, b: nat, p: Poly, q: Poly, d: nat)
    requires Holds(a, p) && HoldsProduct(b, q, d) && d <= 2
    ensures HoldsProduct(a * b, Mul(p, q), 32 * d)
  {
    hide Coeffs, Small, P256, Mul;
    MulCoeffs(a, b, 32, 1, d, d);
  }

  lemma SumHolds(x: nat, y: nat, r: nat, e: nat, p: Poly, q: Poly, s: Poly, n: nat)
    requires HoldsProduct(x, p, 32) && HoldsProduct(y, q, 64) && Holds(r, s) && Small(e, 15) && x + y + r == 2 * e && r < P256(n)
    ensures p == Xor(q, s) && Below(s, n)
  {
    hide Coeffs, Small, P256, Xor;
    SumIsTwice(x, y, r, e);
    CoeffsBelow(r, n);
  }

  /** a b = q m + r over GF(2), where m = x^n + low: the three numbers add up to twice a number with small bytes. */
  lemma ReducedBy(n: nat, low: nat, a: nat, b: nat, q: nat, r: nat, x: nat, y: nat, e: nat, l: Poly, pa: Poly, pb: Poly, pq: Poly, pr: Poly)
    requires Holds(low, l) && Holds(a, pa) && Holds(b, pb) && Holds(q, pq) && Holds(r, pr) && Small(e, 15)
    requires low < P256(n) && r < P256(n) && x == a * b && y == q * (P256(n) + low) && x + y + r == 2 * e
    ensures MulMod(pa, pb, Modulus(l, n)) == pr
  {
    hide *;
    ModulusHolds(n, low, P256(n) + low, l);
    WordIsProduct(b, pb);
    ProductHolds(a, b, pa, pb, 1);
    ProductHolds(q, P256(n) + low, pq, Modulus(l, n), 2);
    SumHolds(x, y, r, e, Mul(pa, pb), Mul(pq, Modulus(l, n)), pr, n);
    Remainder(pa, pb, Modulus(l, n), pq, pr, Mul(pa, pb), n);
  }

  lemma Remainder(a: Poly, b: Poly, m: Poly, q: Poly, r: Poly, x: Poly, n: nat)
    requires x == Mul(a, b) && x == Xor(Mul(q, m), r) && Len(m) == n + 1 && Below(r, n)
    ensures MulMod(a, b, m) == r
  {
    hide *;
    LenBelow(r, n);
    RemIs(x, m, q, r);
    MulModIs(a, b, m);
  }

  lemma MulModIs(a: Poly, b: Poly, m: Poly)
    requires m != {}
    ensures MulMod(a, b, m) == Rem(Mul(a, b), m)
  {
  }

  lemma SumIsTwice(x: nat, y: nat, r: nat, e: nat)
    requires Small(x, 32) && Small(y, 64) && Small(r, 1) && Small(e, 15) && x + y + r == 2 * e
    ensures Coeffs(x) == Xor(Coeffs(y), Coeffs(r))
  {
    hide *;
    AddCoeffs(x, y, 32, 64);
    AddCoeffs(x + y, r, 96, 1);
    TwiceCoeffs(e, 15);
    XorBasics(Xor(Coeffs(x), Coeffs(y)), Coeffs(r));
    XorBasics(Coeffs(x), Coeffs(y));
    XorBasics(Coeffs(y), Coeffs(r));
  }
}
