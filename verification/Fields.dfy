/** Fields as values: every result about Reed-Solomon codes, sharing and folding is stated for
    an arbitrary field `F` with `IsField(F)`, and for `IsBinary(F)` where characteristic 2 matters. */
module Fields {

  /** The operations of `BinaryFieldElement` (and of the curve's scalars, which also negate). */
  datatype Field<!T> = Field(zero: T, one: T, add: (T, T) -> T, mul: (T, T) -> T, neg: T -> T, inv: T -> T) {
    function Add(a: T, b: T): T { add(a, b) }
    function Mul(a: T, b: T): T { mul(a, b) }
    function Neg(a: T): T { neg(a) }
    function Inv(a: T): T { inv(a) }
    function Sub(a: T, b: T): T { Add(a, Neg(b)) }
  }

  /** Names a triple of elements; the associative and distributive laws are only used at named triples. */
  ghost predicate At<T>(a: T, b: T, c: T) { true }

  ghost predicate IsField<T(!new)>(F: Field<T>) {
    && F.zero != F.one
    && (forall a, b :: F.Add(a, b) == F.Add(b, a))
    && (forall a, b :: F.Mul(a, b) == F.Mul(b, a))
    && (forall a :: F.Add(a, F.zero) == a)
    && (forall a :: F.Mul(a, F.one) == a)
    && (forall a :: F.Add(a, F.Neg(a)) == F.zero)
    && (forall a :: a != F.zero ==> F.Mul(a, F.Inv(a)) == F.one)
    && (forall a, b, c {:trigger At(a, b, c)} :: At(a, b, c) ==>
          && F.Add(F.Add(a, b), c) == F.Add(a, F.Add(b, c))
          && F.Mul(F.Mul(a, b), c) == F.Mul(a, F.Mul(b, c))
          && F.Mul(a, F.Add(b, c)) == F.Add(F.Mul(a, b), F.Mul(a, c)))
  }

  /** A field of characteristic 2: addition is its own inverse. */
  ghost predicate IsBinary<T(!new)>(F: Field<T>) {
    && IsField(F)
    && (forall a :: F.Add(a, a) == F.zero)
    && (forall a :: F.Neg(a) == a)
  }

  lemma BinaryIsField<T(!new)>(F: Field<T>)
    requires IsBinary(F)
    ensures IsField(F)
  {
  }

  lemma AddAssoc<T(!new)>(F: Field<T>, a: T, b: T, c: T)
    requires IsField(F)
    ensures F.Add(F.Add(a, b), c) == F.Add(a, F.Add(b, c))
  {
    assert At(a, b, c);
  }

  lemma MulAssoc<T(!new)>(F: Field<T>, a: T, b: T, c: T)
    requires IsField(F)
    ensures F.Mul(F.Mul(a, b), c) == F.Mul(a, F.Mul(b, c))
  {
    assert At(a, b, c);
  }

  lemma Distrib<T(!new)>(F: Field<T>, a: T, b: T, c: T)
    requires IsField(F)
    ensures F.Mul(a, F.Add(b, c)) == F.Add(F.Mul(a, b), F.Mul(a, c))
    ensures F.Mul(F.Add(b, c), a) == F.Add(F.Mul(b, a), F.Mul(c, a))
  {
    assert At(a, b, c);
  }

  lemma AddSwap<T(!new)>(F: Field<T>, a: T, b: T, c: T, d: T)
    requires IsField(F)
    ensures F.Add(F.Add(a, b), F.Add(c, d)) == F.Add(F.Add(a, c), F.Add(b, d))
  {
    AddAssoc(F, a, b, F.Add(c, d));
    AddAssoc(F, b, c, d);
    AddAssoc(F, c, b, d);
    AddAssoc(F, a, c, F.Add(b, d));
  }

  lemma MulSwap<T(!new)>(F: Field<T>, a: T, b: T, c: T, d: T)
    requires IsField(F)
    ensures F.Mul(F.Mul(a, b), F.Mul(c, d)) == F.Mul(F.Mul(a, c), F.Mul(b, d))
  {
    MulAssoc(F, a, b, F.Mul(c, d));
    MulAssoc(F, b, c, d);
    MulAssoc(F, c, b, d);
    MulAssoc(F, a, c, F.Mul(b, d));
  }

  lemma AddCancel<T(!new)>(F: Field<T>, a: T, b: T, c: T)
    requires IsField(F) && F.Add(a, c) == F.Add(b, c)
    ensures a == b
  {
    AddAssoc(F, a, c, F.Neg(c));
    AddAssoc(F, b, c, F.Neg(c));
  }

  lemma MulZero<T(!new)>(F: Field<T>, a: T)
    requires IsField(F)
    ensures F.Mul(a, F.zero) == F.zero && F.Mul(F.zero, a) == F.zero
  {
    Distrib(F, a, F.zero, F.zero);
    AddCancel(F, F.Mul(a, F.zero), F.zero, F.Mul(a, F.zero));
  }

  lemma MulCancel<T(!new)>(F: Field<T>, a: T, b: T, c: T)
    requires IsField(F) && c != F.zero && F.Mul(a, c) == F.Mul(b, c)
    ensures a == b
  {
    MulAssoc(F, a, c, F.Inv(c));
    MulAssoc(F, b, c, F.Inv(c));
  }

  lemma NoZeroDivisors<T(!new)>(F: Field<T>, a: T, b: T)
    requires IsField(F)
    ensures F.Mul(a, b) == F.zero <==> a == F.zero || b == F.zero
  {
    MulZero(F, a);
    MulZero(F, b);
    if F.Mul(a, b) == F.zero && b != F.zero {
      MulCancel(F, a, F.zero, b);
    }
  }

  lemma NegMul<T(!new)>(F: Field<T>, a: T, b: T)
    requires IsField(F)
    ensures F.Mul(F.Neg(a), b) == F.Neg(F.Mul(a, b))
  {
    Distrib(F, b, a, F.Neg(a));
    MulZero(F, b);
    AddCancel(F, F.Mul(F.Neg(a), b), F.Neg(F.Mul(a, b)), F.Mul(a, b));
  }

  lemma SubZero<T(!new)>(F: Field<T>, a: T, b: T)
    requires IsField(F)
    ensures F.Sub(a, b) == F.zero <==> a == b
    ensures F.Add(F.Sub(a, b), b) == a
  {
    AddAssoc(F, a, F.Neg(b), b);
  }

  /** In characteristic 2 an addend moves to the other side unchanged. */
  lemma Flip<T(!new)>(F: Field<T>, a: T, b: T)
    requires IsBinary(F)
    ensures F.Add(F.Add(a, b), b) == a
    ensures F.Add(a, b) == F.zero <==> a == b
  {
    AddAssoc(F, a, b, b);
  }

  lemma Uncover<T(!new)>(F: Field<T>, a: T, b: T)
    requires IsBinary(F)
    ensures F.Add(F.Add(a, b), a) == b
  {
    Flip(F, b, a);
  }

  lemma Annihilate<T(!new)>(F: Field<T>, a: T, b: T)
    requires IsField(F) && (a == F.zero || b == F.zero)
    ensures F.Mul(a, b) == F.zero
  {
    MulZero(F, a);
    MulZero(F, b);
  }

  function Pow<T>(F: Field<T>, a: T, n: nat): T {
    if n == 0 then F.one else F.Mul(a, Pow(F, a, n - 1))
  }

  lemma {:induction false} PowAdd<T(!new)>(F: Field<T>, a: T, m: nat, n: nat)
    requires IsField(F)
    ensures Pow(F, a, m + n) == F.Mul(Pow(F, a, m), Pow(F, a, n))
  {
    if m != 0 {
      PowAdd(F, a, m - 1, n);
      MulAssoc(F, a, Pow(F, a, m - 1), Pow(F, a, n));
    }
  }

  lemma {:induction false} PowMul<T(!new)>(F: Field<T>, a: T, b: T, n: nat)
    requires IsField(F)
    ensures Pow(F, F.Mul(a, b), n) == F.Mul(Pow(F, a, n), Pow(F, b, n))
  {
    if n != 0 {
      PowMul(F, a, b, n - 1);
      MulSwap(F, a, b, Pow(F, a, n - 1), Pow(F, b, n - 1));
    }
  }

  /** Squaring is additive in characteristic 2. */
  lemma SquareAdd<T(!new)>(F: Field<T>, a: T, b: T)
    requires IsBinary(F)
    ensures var s := F.Add(a, b); F.Mul(s, s) == F.Add(F.Mul(a, a), F.Mul(b, b))
  {
    var s := F.Add(a, b);
    Distrib(F, s, a, b);
    Distrib(F, a, a, b);
    Distrib(F, b, a, b);
    AddAssoc(F, F.Mul(a, a), F.Mul(a, b), F.Add(F.Mul(a, b), F.Mul(b, b)));
    AddAssoc(F, F.Mul(a, b), F.Mul(a, b), F.Mul(b, b));
  }
}
