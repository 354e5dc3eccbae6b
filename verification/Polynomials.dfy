/** Polynomials over a field as coefficient lists, lowest degree first: root counting and interpolation. */
module Polynomials {
  import opened Fields

  /** Horner evaluation. */
  function Eval<T>(F: Field<T>, p: seq<T>, x: T): T {
    if p == [] then F.zero else F.Add(p[0], F.Mul(x, Eval(F, p[1..], x)))
  }

  function Plus<T>(F: Field<T>, p: seq<T>, q: seq<T>): (r: seq<T>)
    requires |p| == |q|
    ensures |r| == |p|
  {
    seq(|p|, i requires 0 <= i < |p| => F.Add(p[i], q[i]))
  }

  function Scale<T>(F: Field<T>, c: T, p: seq<T>): (r: seq<T>)
    ensures |r| == |p|
  {
    seq(|p|, i requires 0 <= i < |p| => F.Mul(c, p[i]))
  }

  /** (x - r) p(x) */
  function MulLinear<T>(F: Field<T>, p: seq<T>, r: T): (q: seq<T>)
    ensures |q| == |p| + 1
  {
    Plus(F, [F.zero] + p, Scale(F, F.Neg(r), p + [F.zero]))
  }

  predicate AllZero<T(==)>(F: Field<T>, p: seq<T>) {
    forall i :: 0 <= i < |p| ==> p[i] == F.zero
  }

  predicate Distinct<T(==)>(xs: seq<T>) {
    forall i, j :: 0 <= i < j < |xs| ==> xs[i] != xs[j]
  }

  lemma EvalStep<T>(F: Field<T>, p: seq<T>, x: T)
    ensures p == [] ==> Eval(F, p, x) == F.zero
    ensures p != [] ==> Eval(F, p, x) == F.Add(p[0], F.Mul(x, Eval(F, p[1..], x)))
  {
  }

  lemma {:induction false} EvalPlus<T(!new)>(F: Field<T>, p: seq<T>, q: seq<T>, x: T)
    requires IsField(F) && |p| == |q|
    ensures Eval(F, Plus(F, p, q), x) == F.Add(Eval(F, p, x), Eval(F, q, x))
  {
    if p != [] {
      assert Plus(F, p, q)[1..] == Plus(F, p[1..], q[1..]);
      EvalPlus(F, p[1..], q[1..], x);
      var a, b := Eval(F, p[1..], x), Eval(F, q[1..], x);
      Distrib(F, x, a, b);
      AddSwap(F, p[0], q[0], F.Mul(x, a), F.Mul(x, b));
    }
  }

  lemma {:induction false} EvalScale<T(!new)>(F: Field<T>, c: T, p: seq<T>, x: T)
    requires IsField(F)
    ensures Eval(F, Scale(F, c, p), x) == F.Mul(c, Eval(F, p, x))
  {
    if p == [] {
      MulZero(F, c);
    } else {
      assert Scale(F, c, p)[1..] == Scale(F, c, p[1..]);
      EvalScale(F, c, p[1..], x);
      var a := Eval(F, p[1..], x);
      Distrib(F, c, p[0], F.Mul(x, a));
      MulAssoc(F, x, c, a);
      MulAssoc(F, c, x, a);
    }
  }

  lemma {:induction false} EvalPad<T(!new)>(F: Field<T>, p: seq<T>, x: T)
    requires IsField(F)
    ensures Eval(F, p + [F.zero], x) == Eval(F, p, x)
  {
    if p == [] {
      MulZero(F, x);
      assert Eval(F, ([F.zero])[1..], x) == F.zero;
    } else {
      assert (p + [F.zero])[1..] == p[1..] + [F.zero];
      EvalPad(F, p[1..], x);
    }
  }

  lemma EvalMulLinear<T(!new)>(F: Field<T>, p: seq<T>, r: T, x: T)
    requires IsField(F)
    ensures Eval(F, MulLinear(F, p, r), x) == F.Mul(F.Sub(x, r), Eval(F, p, x))
  {
    EvalPlus(F, [F.zero] + p, Scale(F, F.Neg(r), p + [F.zero]), x);
    EvalScale(F, F.Neg(r), p + [F.zero], x);
    EvalPad(F, p, x);
    assert ([F.zero] + p)[1..] == p;
    Distrib(F, Eval(F, p, x), x, F.Neg(r));
  }

  /** Synthetic division: the quotient of p by (x - r). */
  function Quotient<T>(F: Field<T>, p: seq<T>, r: T): (q: seq<T>)
    ensures |q| == if p == [] then 0 else |p| - 1
  {
    if |p| <= 1 then [] else [Eval(F, p[1..], r)] + Quotient(F, p[1..], r)
  }

  /** p(x) = (x - r) q(x) + p(r) */
  lemma {:induction false} QuotientEval<T(!new)>(F: Field<T>, p: seq<T>, r: T, x: T)
    requires IsField(F)
    ensures Eval(F, p, x) == F.Add(F.Mul(F.Sub(x, r), Eval(F, Quotient(F, p, r), x)), Eval(F, p, r))
  {
    if |p| <= 1 {
      MulZero(F, F.Sub(x, r));
      if p != [] {
        MulZero(F, x);
        MulZero(F, r);
      }
    } else {
      hide *;
      EvalStep(F, p, x);
      EvalStep(F, p, r);
      var p' := p[1..];
      QuotientEval(F, p', r, x);
      var q := Quotient(F, p', r);
      QuotientStep(F, p, r);
      EvalStep(F, Quotient(F, p, r), x);
      DivisionStep(F, x, r, p[0], Eval(F, p', r), Eval(F, q, x));
    }
  }

  lemma QuotientStep<T>(F: Field<T>, p: seq<T>, r: T)
    requires |p| > 1
    ensures var q := Quotient(F, p, r); |q| > 0 && q[0] == Eval(F, p[1..], r) && q[1..] == Quotient(F, p[1..], r)
  {
  }

  /** c + x ((x - r) q + e) == (x - r) (e + x q) + (c + r e) */
  lemma DivisionStep<T(!new)>(F: Field<T>, x: T, r: T, c: T, e: T, q: T)
    requires IsField(F)
    ensures F.Add(c, F.Mul(x, F.Add(F.Mul(F.Sub(x, r), q), e))) ==
      F.Add(F.Mul(F.Sub(x, r), F.Add(e, F.Mul(x, q))), F.Add(c, F.Mul(r, e)))
  {
    var d := F.Sub(x, r);
    var dxq := F.Mul(d, F.Mul(x, q));
    Distrib(F, x, F.Mul(d, q), e);
    MulAssoc(F, x, d, q);
    MulAssoc(F, d, x, q);
    assert F.Mul(x, F.Add(F.Mul(d, q), e)) == F.Add(dxq, F.Mul(x, e));
    Distrib(F, d, e, F.Mul(x, q));
    SubZero(F, x, r);
    Distrib(F, e, d, r);
    assert F.Mul(x, e) == F.Add(F.Mul(d, e), F.Mul(r, e));
    AddSwap(F, dxq, F.Mul(d, e), c, F.Mul(r, e));
    AddSwap(F, c, dxq, F.Mul(r, e), F.Mul(d, e));
    AddAssoc(F, c, dxq, F.Mul(x, e));
  }

  lemma {:induction false} EvalZero<T(!new)>(F: Field<T>, p: seq<T>, x: T)
    requires IsField(F) && AllZero(F, p)
    ensures Eval(F, p, x) == F.zero
  {
    if p != [] {
      EvalZero(F, p[1..], x);
      MulZero(F, x);
    }
  }

  lemma {:induction false} QuotientZero<T(!new)>(F: Field<T>, p: seq<T>, r: T)
    requires IsField(F) && AllZero(F, Quotient(F, p, r)) && Eval(F, p, r) == F.zero
    ensures AllZero(F, p)
  {
    if p != [] {
      var p' := p[1..];
      if |p| > 1 {
        QuotientStep(F, p, r);
        var q := Quotient(F, p, r);
        assert forall i :: 0 <= i < |p'| - 1 ==> q[1..][i] == q[i + 1];
        QuotientZero(F, p', r);
      }
      EvalZero(F, p', r);
      MulZero(F, r);
      forall i | 0 <= i < |p| ensures p[i] == F.zero {
        if i > 0 {
          assert p[i] == p'[i - 1];
        }
      }
    }
  }

  /** A polynomial with at least as many distinct roots as coefficients is zero. */
  lemma {:induction false} RootBound<T(!new)>(F: Field<T>, p: seq<T>, xs: seq<T>)
    requires IsField(F) && Distinct(xs) && |p| <= |xs|
    requires forall i :: 0 <= i < |xs| ==> Eval(F, p, xs[i]) == F.zero
    ensures AllZero(F, p)
    decreases |p|
  {
    if p != [] {
      hide Eval, Quotient;
      var r := xs[0];
      var q := Quotient(F, p, r);
      var ys := xs[1..];
      forall i | 0 <= i < |ys| ensures Eval(F, q, ys[i]) == F.zero {
        assert ys[i] == xs[i + 1];
        QuotientEval(F, p, r, ys[i]);
        SubZero(F, ys[i], r);
        NoZeroDivisors(F, F.Sub(ys[i], r), Eval(F, q, ys[i]));
      }
      RootBound(F, q, ys);
      QuotientZero(F, p, r);
    }
  }

  /** Polynomials that agree at as many distinct points as they have coefficients are equal. */
  lemma Agreement<T(!new)>(F: Field<T>, p: seq<T>, q: seq<T>, xs: seq<T>)
    requires IsField(F) && Distinct(xs) && |p| == |q| <= |xs|
    requires forall i :: 0 <= i < |xs| ==> Eval(F, p, xs[i]) == Eval(F, q, xs[i])
    ensures p == q
  {
    var m := F.Neg(F.one);
    var d := Plus(F, p, Scale(F, m, q));
    forall i | 0 <= i < |xs| ensures Eval(F, d, xs[i]) == F.zero {
      EvalPlus(F, p, Scale(F, m, q), xs[i]);
      EvalScale(F, m, q, xs[i]);
      NegMul(F, F.one, Eval(F, q, xs[i]));
    }
    RootBound(F, d, xs);
    forall i | 0 <= i < |p| ensures p[i] == q[i] {
      assert d[i] == F.zero;
      NegMul(F, F.one, q[i]);
      SubZero(F, p[i], q[i]);
    }
  }

  /** `poly_eval` of `vss.rs` and the inner loop of `deal`: the sum of coefficient times power, with a running power of x. */
  method EvaluateByPowers<S(!new)>(F: Field<S>, coeffs: seq<S>, x: S) returns (share: S)
    requires IsField(F)
    ensures share == Eval(F, coeffs, x)
  {
    share := F.zero;
    var xPower := F.one;
    assert coeffs[0..] == coeffs;
    for i := 0 to |coeffs|
      invariant Eval(F, coeffs, x) == F.Add(share, F.Mul(xPower, Eval(F, coeffs[i..], x)))
    {
      assert coeffs[i..][1..] == coeffs[i + 1..];
      PowerStep(F, share, coeffs[i], xPower, x, Eval(F, coeffs[i + 1..], x));
      share := F.Add(share, F.Mul(coeffs[i], xPower));
      xPower := F.Mul(xPower, x);
    }
    MulZero(F, xPower);
  }

  lemma PowerStep<S(!new)>(F: Field<S>, s: S, c: S, p: S, x: S, e: S)
    requires IsField(F)
    ensures F.Add(s, F.Mul(p, F.Add(c, F.Mul(x, e)))) == F.Add(F.Add(s, F.Mul(c, p)), F.Mul(F.Mul(p, x), e))
  {
    Distrib(F, p, c, F.Mul(x, e));
    MulAssoc(F, p, x, e);
    AddAssoc(F, s, F.Mul(p, c), F.Mul(p, F.Mul(x, e)));
  }
}
