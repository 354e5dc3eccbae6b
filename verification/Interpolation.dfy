/** Lagrange interpolation over any field: the common core of secret sharing and of the threshold OPRF. */
module Interpolation {
  import opened Fields
  import opened Polynomials

  /** The product of (z - xs[j]) over j < n, j != i. */
  function SkipProduct<T>(F: Field<T>, z: T, xs: seq<T>, i: nat, n: nat): T
    requires n <= |xs|
  {
    if n == 0 then F.one
    else
      var p := SkipProduct(F, z, xs, i, n - 1);
      if n - 1 == i then p else F.Mul(p, F.Sub(z, xs[n - 1]))
  }

  /** The i-th Lagrange basis polynomial at z. */
  function Basis<T>(F: Field<T>, xs: seq<T>, i: nat, z: T): T
    requires i < |xs|
  {
    F.Mul(SkipProduct(F, z, xs, i, |xs|), F.Inv(SkipProduct(F, xs[i], xs, i, |xs|)))
  }

  /** The sum of ys[i] times the i-th basis polynomial at z, over i < n. */
  function Interpolate<T>(F: Field<T>, xs: seq<T>, ys: seq<T>, z: T, n: nat): T
    requires n <= |xs| == |ys|
  {
    if n == 0 then F.zero
    else F.Add(Interpolate(F, xs, ys, z, n - 1), F.Mul(ys[n - 1], Basis(F, xs, n - 1, z)))
  }

  // ----- the interpolating polynomial -----

  /** Coefficients of the product of (x - xs[j]) over j < n, j != i. */
  function SkipPoly<T>(F: Field<T>, xs: seq<T>, i: nat, n: nat): (p: seq<T>)
    requires n <= |xs|
    ensures |p| == if i < n then n else n + 1
  {
    if n == 0 then [F.one]
    else
      var p := SkipPoly(F, xs, i, n - 1);
      if n - 1 == i then p else MulLinear(F, p, xs[n - 1])
  }

  lemma {:induction false} SkipPolyEval<T(!new)>(F: Field<T>, xs: seq<T>, i: nat, n: nat, z: T)
    requires IsField(F) && n <= |xs|
    ensures Eval(F, SkipPoly(F, xs, i, n), z) == SkipProduct(F, z, xs, i, n)
  {
    if n == 0 {
      MulZero(F, z);
      assert Eval(F, [F.one][1..], z) == F.zero;
    } else {
      SkipPolyEval(F, xs, i, n - 1, z);
      if n - 1 != i {
        EvalMulLinear(F, SkipPoly(F, xs, i, n - 1), xs[n - 1], z);
      }
    }
  }

  /** Coefficients of the interpolating polynomial, summed over i < n. */
  function InterpolatingPoly<T>(F: Field<T>, xs: seq<T>, ys: seq<T>, n: nat): (p: seq<T>)
    requires n <= |xs| == |ys|
    ensures |p| == |xs|
  {
    if n == 0 then seq(|xs|, _ => F.zero)
    else
      var den := SkipProduct(F, xs[n - 1], xs, n - 1, |xs|);
      Plus(F, InterpolatingPoly(F, xs, ys, n - 1), Scale(F, F.Mul(ys[n - 1], F.Inv(den)), SkipPoly(F, xs, n - 1, |xs|)))
  }

  lemma {:induction false} InterpolatingPolyEval<T(!new)>(F: Field<T>, xs: seq<T>, ys: seq<T>, n: nat, z: T)
    requires IsField(F) && n <= |xs| == |ys|
    ensures Eval(F, InterpolatingPoly(F, xs, ys, n), z) == Interpolate(F, xs, ys, z, n)
  {
    hide Eval, SkipProduct, SkipPoly;
    if n == 0 {
      EvalZero(F, InterpolatingPoly(F, xs, ys, n), z);
    } else {
      var i := n - 1;
      var num, inv := SkipProduct(F, z, xs, i, |xs|), F.Inv(SkipProduct(F, xs[i], xs, i, |xs|));
      InterpolatingPolyEval(F, xs, ys, i, z);
      EvalPlus(F, InterpolatingPoly(F, xs, ys, i), Scale(F, F.Mul(ys[i], inv), SkipPoly(F, xs, i, |xs|)), z);
      EvalScale(F, F.Mul(ys[i], inv), SkipPoly(F, xs, i, |xs|), z);
      SkipPolyEval(F, xs, i, |xs|, z);
      MulAssoc(F, ys[i], inv, num);
    }
  }

  lemma {:induction false} SkipProductZero<T(!new)>(F: Field<T>, z: T, xs: seq<T>, i: nat, n: nat, k: nat)
    requires IsField(F) && k < n <= |xs| && k != i && z == xs[k]
    ensures SkipProduct(F, z, xs, i, n) == F.zero
  {
    SubZero(F, z, xs[n - 1]);
    var p := SkipProduct(F, z, xs, i, n - 1);
    if k == n - 1 {
      MulZero(F, p);
    } else {
      SkipProductZero(F, z, xs, i, n - 1, k);
      MulZero(F, F.Sub(z, xs[n - 1]));
    }
  }

  lemma {:induction false} SkipProductNonzero<T(!new)>(F: Field<T>, xs: seq<T>, i: nat, n: nat)
    requires IsField(F) && Distinct(xs) && i < |xs| && n <= |xs|
    ensures SkipProduct(F, xs[i], xs, i, n) != F.zero
  {
    if n != 0 {
      SkipProductNonzero(F, xs, i, n - 1);
      if n - 1 != i {
        SubZero(F, xs[i], xs[n - 1]);
        NoZeroDivisors(F, SkipProduct(F, xs[i], xs, i, n - 1), F.Sub(xs[i], xs[n - 1]));
      }
    }
  }

  /** Basis polynomial i is 1 at xs[i] and 0 at the other points. */
  lemma BasisDelta<T(!new)>(F: Field<T>, xs: seq<T>, i: nat, k: nat)
    requires IsField(F) && Distinct(xs) && i < |xs| && k < |xs|
    ensures Basis(F, xs, i, xs[k]) == if i == k then F.one else F.zero
  {
    if i == k {
      SkipProductNonzero(F, xs, i, |xs|);
    } else {
      SkipProductZero(F, xs[k], xs, i, |xs|, k);
      MulZero(F, F.Inv(SkipProduct(F, xs[i], xs, i, |xs|)));
    }
  }

  lemma {:induction false} InterpolateAt<T(!new)>(F: Field<T>, xs: seq<T>, ys: seq<T>, n: nat, k: nat)
    requires IsField(F) && Distinct(xs) && n <= |xs| == |ys| && k < |xs|
    ensures Interpolate(F, xs, ys, xs[k], n) == if k < n then ys[k] else F.zero
  {
    hide Basis;
    if n != 0 {
      InterpolateAt(F, xs, ys, n - 1, k);
      BasisDelta(F, xs, n - 1, k);
      MulZero(F, ys[n - 1]);
    }
  }

  /** Interpolation through as many points as coefficients gives back the polynomial, hence its value anywhere. */
  lemma InterpolationExact<T(!new)>(F: Field<T>, p: seq<T>, xs: seq<T>, ys: seq<T>, z: T)
    requires IsField(F) && Distinct(xs) && |p| == |xs| == |ys|
    requires forall i :: 0 <= i < |xs| ==> ys[i] == Eval(F, p, xs[i])
    ensures InterpolatingPoly(F, xs, ys, |xs|) == p
    ensures Interpolate(F, xs, ys, z, |xs|) == Eval(F, p, z)
  {
    hide InterpolatingPoly, Interpolate, Eval;
    var q := InterpolatingPoly(F, xs, ys, |xs|);
    forall i | 0 <= i < |xs| ensures Eval(F, q, xs[i]) == Eval(F, p, xs[i]) {
      InterpolatingPolyEval(F, xs, ys, |xs|, xs[i]);
      InterpolateAt(F, xs, ys, |xs|, i);
    }
    Agreement(F, q, p, xs);
    InterpolatingPolyEval(F, xs, ys, |xs|, z);
  }

  lemma EvalAtZero<T(!new)>(F: Field<T>, p: seq<T>)
    requires IsField(F) && p != []
    ensures Eval(F, p, F.zero) == p[0]
  {
    MulZero(F, Eval(F, p[1..], F.zero));
  }

  lemma SkipStart<T>(F: Field<T>, z: T, xs: seq<T>, i: nat)
    ensures SkipProduct(F, z, xs, i, 0) == F.one
  {
  }

  lemma SkipStep<T>(F: Field<T>, z: T, xs: seq<T>, i: nat, j: nat)
    requires j < |xs|
    ensures SkipProduct(F, z, xs, i, j + 1) ==
      if i == j then SkipProduct(F, z, xs, i, j) else F.Mul(SkipProduct(F, z, xs, i, j), F.Sub(z, xs[j]))
  {
  }

  lemma BinarySub<T(!new)>(F: Field<T>, a: T, b: T)
    requires IsBinary(F)
    ensures F.Sub(a, b) == F.Add(a, b) && F.Sub(F.zero, b) == b
  {
  }

  /** `lagrange_interpolate_at_zero` and `lagrange_interpolate`: in characteristic 2 both 0 - x_j and x_i - x_j are sums. */
  method LagrangeAtZero<T(!new)>(F: Field<T>, xs: seq<T>, ys: seq<T>) returns (result: T)
    requires IsBinary(F) && |xs| == |ys|
    ensures result == Interpolate(F, xs, ys, F.zero, |xs|)
  {
    hide Basis, IsBinary;
    result := F.zero;
    for i := 0 to |xs|
      invariant result == Interpolate(F, xs, ys, F.zero, i)
    {
      var basis := BasisAtZero(F, xs, i);
      result := F.Add(result, F.Mul(ys[i], basis));
    }
  }

  /** The inner loop: numerator and denominator of basis polynomial i at zero. */
  method BasisAtZero<T(!new)>(F: Field<T>, xs: seq<T>, i: nat) returns (basis: T)
    requires IsBinary(F) && i < |xs|
    ensures basis == Basis(F, xs, i, F.zero)
  {
    hide IsBinary, SkipProduct;
    var numerator, denominator := F.one, F.one;
    SkipStart(F, F.zero, xs, i);
    SkipStart(F, xs[i], xs, i);
    for j := 0 to |xs|
      invariant numerator == SkipProduct(F, F.zero, xs, i, j)
      invariant denominator == SkipProduct(F, xs[i], xs, i, j)
    {
      SkipStep(F, F.zero, xs, i, j);
      SkipStep(F, xs[i], xs, i, j);
      BinarySub(F, xs[i], xs[j]);
      if i != j {
        numerator := F.Mul(numerator, xs[j]);
        denominator := F.Mul(denominator, F.Add(xs[i], xs[j]));
      }
    }
    basis := F.Mul(numerator, F.Inv(denominator));
  }
}
