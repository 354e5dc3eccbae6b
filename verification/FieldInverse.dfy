/** Powers and inverses by squaring (`pow`, `inv` of `binary-fields/src/elem.rs`, `gf256_inv`). */
module FieldInverse {
  import opened Fields
  import opened Powers
  import opened Polynomials
  import opened FiniteOrder

  lemma {:induction false} PowSquare<T(!new)>(F: Field<T>, a: T, n: nat)
    requires IsField(F)
    ensures Pow(F, F.Mul(a, a), n) == Pow(F, a, 2 * n)
  {
    PowMul(F, a, a, n);
    PowAdd(F, a, n, n);
  }

  /** `pow`: square and multiply; zero stays zero even for the exponent 0. */
  method PowBySquaring<T(!new, ==)>(F: Field<T>, a: T, exponent: nat) returns (result: T)
    requires IsField(F)
    ensures result == if a == F.zero then F.zero else Pow(F, a, exponent)
  {
    if a == F.zero {
      return F.zero;
    }
    hide Pow;
    result := F.one;
    var base, exp := a, exponent;
    while exp > 0
      invariant F.Mul(result, Pow(F, base, exp)) == Pow(F, a, exponent)
    {
      PowHalve(F, result, base, exp);
      if exp % 2 == 1 {
        result := F.Mul(result, base);
      }
      base := F.Mul(base, base);
      exp := exp / 2;
    }
    PowZero(F, base);
  }

  lemma PowZero<T>(F: Field<T>, a: T)
    ensures Pow(F, a, 0) == F.one
  {
  }

  lemma PowHalve<T(!new)>(F: Field<T>, r: T, b: T, e: nat)
    requires IsField(F) && e > 0
    ensures F.Mul(r, Pow(F, b, e)) == F.Mul(if e % 2 == 1 then F.Mul(r, b) else r, Pow(F, F.Mul(b, b), e / 2))
  {
    PowSquare(F, b, e / 2);
    assert e == 2 * (e / 2) + e % 2;
    if e % 2 == 1 {
      assert Pow(F, b, e) == F.Mul(b, Pow(F, b, e - 1));
      MulAssoc(F, r, b, Pow(F, b, e - 1));
    }
  }

  lemma PowOne<T(!new)>(F: Field<T>, a: T)
    requires IsField(F)
    ensures Pow(F, a, 1) == a && Pow(F, a, 2) == F.Mul(a, a)
  {
    assert Pow(F, a, 0) == F.one;
  }

  /** `inv` for large fields: a^2 a^4 ... a^(2^(n-1)), computed with n - 2 squarings after the first. */
  method InvByChain<T(!new)>(F: Field<T>, a: T, n: nat) returns (result: T)
    requires IsField(F) && n >= 2
    ensures result == Pow(F, a, Pow2(n) - 2)
  {
    hide Pow;
    var acc := F.Mul(a, a);
    result := acc;
    PowOne(F, a);
    assert Pow2(1) == 2 && Pow2(2) == 4;
    for i := 2 to n
      invariant acc == Pow(F, a, Pow2(i - 1)) && result == Pow(F, a, Pow2(i) - 2)
    {
      PowAdd(F, a, Pow2(i - 1), Pow2(i - 1));
      PowAdd(F, a, Pow2(i) - 2, Pow2(i));
      acc := F.Mul(acc, acc);
      result := F.Mul(result, acc);
    }
  }

  /** `inv` for fields of at most 16 bits: exponentiation by 2^n - 2. */
  method InvByPow<T(!new, ==)>(F: Field<T>, a: T, n: nat) returns (result: T)
    requires IsField(F) && n >= 1 && a != F.zero
    ensures result == Pow(F, a, Pow2(n) - 2)
  {
    result := PowBySquaring(F, a, Pow2(n) - 2);
  }

  lemma RoundStep<T(!new)>(F: Field<T>, a: T, e: nat)
    requires IsField(F)
    ensures F.Mul(Pow(F, a, e), Pow(F, a, e)) == Pow(F, a, 2 * e)
    ensures F.Mul(Pow(F, a, 2 * e), a) == Pow(F, a, 2 * e + 1)
  {
    PowAdd(F, a, e, e);
  }

  /** `gf256_inv` (n = 8): n - 2 rounds of square-and-multiply by a, then one squaring; zero maps to zero. */
  method InvByRounds<T(!new, ==)>(F: Field<T>, a: T, n: nat) returns (result: T)
    requires IsField(F) && n >= 2
    ensures result == if a == F.zero then F.zero else Pow(F, a, Pow2(n) - 2)
  {
    hide Pow, Pow2;
    if a == F.zero {
      return F.zero;
    }
    result := a;
    PowOne(F, a);
    Pow2Step(0);
    for i := 0 to n - 2
      invariant result == Pow(F, a, Pow2(i + 1) - 1)
    {
      Pow2Step(i + 1);
      RoundStep(F, a, Pow2(i + 1) - 1);
      result := F.Mul(result, result);
      result := F.Mul(result, a);
    }
    Pow2Step(n - 1);
    RoundStep(F, a, Pow2(n - 1) - 1);
    result := F.Mul(result, result);
  }

  /** `all` lists every element once: the field is finite. */
  ghost predicate Enumerates<T(!new)>(all: seq<T>) {
    Distinct(all) && forall x :: x in all
  }

  function AsProduct<T>(F: Field<T>): Product<T> {
    Product(F.one, (a, b) => F.Mul(a, b))
  }

  lemma {:induction false} PowerIsPow<T>(F: Field<T>, a: T, n: nat)
    ensures Power(AsProduct(F), a, n) == Pow(F, a, n)
  {
    if n != 0 {
      PowerIsPow(F, a, n - 1);
    }
  }

  lemma NonzeroUnits<T(!new)>(F: Field<T>, all: seq<T>) returns (units: seq<T>)
    requires IsField(F) && Enumerates(all)
    ensures IsCommutative(AsProduct(F)) && IsUnits(AsProduct(F), units)
    ensures |units| == |all| - 1 && forall x :: x in units <==> x != F.zero
  {
    assert F.zero in all;
    var i :| 0 <= i < |all| && all[i] == F.zero;
    units := Without(all, i);
    WithoutDistinct(all, i);
    var M := AsProduct(F);
    forall a, b, c {:trigger Named(a, b, c)}
      ensures M.Mul(M.Mul(a, b), c) == M.Mul(a, M.Mul(b, c))
      ensures c != F.zero && M.Mul(a, c) == M.Mul(b, c) ==> a == b
    {
      MulAssoc(F, a, b, c);
      if c != F.zero && M.Mul(a, c) == M.Mul(b, c) {
        MulCancel(F, a, b, c);
      }
    }
    forall a, b ensures M.Mul(a, b) == F.Mul(a, b) && (a != F.zero && b != F.zero ==> M.Mul(a, b) != F.zero) {
      NoZeroDivisors(F, a, b);
    }
  }

  /** In a field of 2^n elements, a^(2^n - 2) is the inverse of every non-zero a. */
  lemma InverseCorrect<T(!new)>(F: Field<T>, all: seq<T>, n: nat, a: T)
    requires IsField(F) && Enumerates(all) && n > 0 && |all| == Pow2(n) && a != F.zero
    ensures F.Mul(a, Pow(F, a, Pow2(n) - 2)) == F.one
    ensures Pow(F, a, Pow2(n) - 2) == F.Inv(a)
    ensures Pow(F, a, Pow2(n) - 1) == F.one
  {
    var units := NonzeroUnits(F, all);
    OrderTheorem(AsProduct(F), units, a);
    PowerIsPow(F, a, Pow2(n) - 1);
    MulCancel(F, Pow(F, a, Pow2(n) - 2), F.Inv(a), a);
  }
}
