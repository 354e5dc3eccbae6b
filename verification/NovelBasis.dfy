/** What the additive FFT computes: the values of sum_i v[i] X_i, where X_i is the product of the
    normalised subspace polynomials over the set bits of i. */
module NovelBasis {
  import opened Fields
  import opened Powers
  import opened SubspacePolynomials
  import opened AdditiveFft

  /** The product of f[b] over the set bits b of `i`. */
  function BitProduct<T>(F: Field<T>, f: seq<T>, i: nat): T
    requires i < Pow2(|f|)
  {
    if |f| == 0 then F.one
    else
      var rest := BitProduct(F, f[1..], i / 2);
      if i % 2 == 1 then F.Mul(f[0], rest) else rest
  }

  /** The sum of c[i] times the product of f over the set bits of i. */
  function Combine<T>(F: Field<T>, c: seq<T>, f: seq<T>): T
    requires |c| <= Pow2(|f|)
  {
    if c == [] then F.zero
    else
      var n := |c| - 1;
      F.Add(Combine(F, c[..n], f), F.Mul(c[n], BitProduct(F, f, n)))
  }

  lemma {:induction false} TopBit<T(!new)>(F: Field<T>, f: seq<T>, x: T, i: nat)
    requires IsField(F) && i < Pow2(|f|)
    ensures Pow2(|f + [x]|) == 2 * Pow2(|f|)
    ensures BitProduct(F, f + [x], i) == BitProduct(F, f, i)
    ensures BitProduct(F, f + [x], Pow2(|f|) + i) == F.Mul(BitProduct(F, f, i), x)
  {
    if |f| == 0 {
      assert (f + [x])[1..] == [];
      assert BitProduct(F, f + [x], 0) == BitProduct(F, (f + [x])[1..], 0);
      assert BitProduct(F, f + [x], 1) == F.Mul(x, BitProduct(F, (f + [x])[1..], 0));
    } else {
      var p := Pow2(|f| - 1);
      assert (f + [x])[1..] == f[1..] + [x];
      TopBit(F, f[1..], x, i / 2);
      assert (Pow2(|f|) + i) / 2 == p + i / 2 && (Pow2(|f|) + i) % 2 == i % 2;
      MulAssoc(F, f[0], BitProduct(F, f[1..], i / 2), x);
    }
  }

  lemma CombineStep<T>(F: Field<T>, c: seq<T>, y: T, f: seq<T>)
    requires |c| < Pow2(|f|)
    ensures Combine(F, c + [y], f) == F.Add(Combine(F, c, f), F.Mul(y, BitProduct(F, f, |c|)))
    ensures Combine(F, [], f) == F.zero
  {
    assert (c + [y])[..|c|] == c;
  }

  lemma {:induction false} CombineWiden<T(!new)>(F: Field<T>, c: seq<T>, f: seq<T>, x: T)
    requires IsField(F) && |c| <= Pow2(|f|)
    ensures Pow2(|f + [x]|) == 2 * Pow2(|f|)
    ensures Combine(F, c, f + [x]) == Combine(F, c, f)
  {
    if c != [] {
      var n := |c| - 1;
      CombineWiden(F, c[..n], f, x);
      TopBit(F, f, x, n);
    }
  }

  /** Splitting off the top bit: P(x) = U(x) + x_top W(x). */
  lemma {:induction false} CombineSplit<T(!new)>(F: Field<T>, u: seq<T>, w: seq<T>, f: seq<T>, x: T)
    requires IsField(F) && |w| <= Pow2(|f|) == |u|
    ensures Pow2(|f + [x]|) == 2 * Pow2(|f|)
    ensures Combine(F, u + w, f + [x]) == F.Add(Combine(F, u, f), F.Mul(x, Combine(F, w, f)))
  {
    hide Pow2, BitProduct, Combine;
    Pow2Step(|f|);
    if w == [] {
      assert u + w == u;
      CombineWiden(F, u, f, x);
      CombineZero(F, f);
      MulZero(F, x);
    } else {
      var n := |w| - 1;
      var w', y := w[..n], w[n];
      CombineSplit(F, u, w', f, x);
      TopBit(F, f, x, n);
      CombineStep(F, u + w', y, f + [x]);
      CombineStep(F, w', y, f);
      assert w == w' + [y] && u + w == (u + w') + [y];
      SplitStep(F, Combine(F, u, f), Combine(F, w', f), x, y, BitProduct(F, f, n));
    }
  }

  lemma CombineZero<T>(F: Field<T>, f: seq<T>)
    ensures Combine(F, [], f) == F.zero
  {
  }

  lemma SplitStep<T(!new)>(F: Field<T>, u: T, w: T, x: T, y: T, p: T)
    requires IsField(F)
    ensures F.Add(F.Add(u, F.Mul(x, w)), F.Mul(y, F.Mul(p, x))) == F.Add(u, F.Mul(x, F.Add(w, F.Mul(y, p))))
  {
    MulAssoc(F, y, p, x);
    Distrib(F, x, w, F.Mul(y, p));
    AddAssoc(F, u, F.Mul(x, w), F.Mul(x, F.Mul(y, p)));
  }

  /** `Combine` is linear in the coefficients. */
  lemma {:induction false} CombineLinear<T(!new)>(F: Field<T>, c: seq<T>, u: seq<T>, w: seq<T>, m: T, f: seq<T>)
    requires IsField(F) && |c| == |u| == |w| <= Pow2(|f|)
    requires forall i :: 0 <= i < |c| ==> c[i] == F.Add(u[i], F.Mul(m, w[i]))
    ensures Combine(F, c, f) == F.Add(Combine(F, u, f), F.Mul(m, Combine(F, w, f)))
  {
    if c == [] {
      MulZero(F, m);
    } else {
      var n := |c| - 1;
      CombineLinear(F, c[..n], u[..n], w[..n], m, f);
      LinearStep(F, Combine(F, u[..n], f), Combine(F, w[..n], f), m, u[n], w[n], BitProduct(F, f, n));
    }
  }

  lemma LinearStep<T(!new)>(F: Field<T>, cu: T, cw: T, m: T, u: T, w: T, p: T)
    requires IsField(F)
    ensures F.Add(F.Add(cu, F.Mul(m, cw)), F.Mul(F.Add(u, F.Mul(m, w)), p)) ==
      F.Add(F.Add(cu, F.Mul(u, p)), F.Mul(m, F.Add(cw, F.Mul(w, p))))
  {
    Distrib(F, p, u, F.Mul(m, w));
    MulAssoc(F, m, w, p);
    Distrib(F, m, cw, F.Mul(w, p));
    AddSwap(F, cu, F.Mul(m, cw), F.Mul(u, p), F.Mul(m, F.Mul(w, p)));
  }

  /** s_k(x) / s_k(v_k) */
  function NormS<T>(F: Field<T>, g: T, k: nat, x: T): T {
    F.Mul(F.Inv(SRoot(F, g, k)), S(F, g, k, x))
  }

  /** The values of the first k normalised subspace polynomials at x. */
  function Norms<T>(F: Field<T>, g: T, k: nat, x: T): (r: seq<T>)
    ensures |r| == k
  {
    if k == 0 then [] else Norms(F, g, k - 1, x) + [NormS(F, g, k - 1, x)]
  }

  lemma NormSAdd<T(!new)>(F: Field<T>, g: T, k: nat, x: T, y: T)
    requires IsBinary(F)
    ensures NormS(F, g, k, F.Add(x, y)) == F.Add(NormS(F, g, k, x), NormS(F, g, k, y))
  {
    hide S, SRoot;
    SAdd(F, g, k, x, y);
    Distrib(F, F.Inv(SRoot(F, g, k)), S(F, g, k, x), S(F, g, k, y));
  }

  lemma NormSLow<T(!new)>(F: Field<T>, g: T, k: nat, t: nat)
    requires IsBinary(F) && t < Pow2(k)
    ensures NormS(F, g, k, Point(F, g, t)) == F.zero
  {
    hide S, SRoot, Point;
    SVanish(F, g, k, t);
    MulZero(F, F.Inv(SRoot(F, g, k)));
  }

  lemma NormSRoot<T(!new)>(F: Field<T>, g: T, k: nat)
    requires IsBinary(F) && SRoot(F, g, k) != F.zero
    ensures NormS(F, g, k, Point(F, g, Pow2(k))) == F.one
  {
    hide S, Point;
  }

  /** The table below heap position `idx` holds the twiddles of the coset base + span(v_0..v_{l-1}). */
  ghost predicate TwiddleTree<T>(F: Field<T>, g: T, l: nat, base: T, tw: seq<T>, idx: nat) {
    l == 0 || (
      && 0 < idx <= |tw|
      && tw[idx - 1] == NormS(F, g, l - 1, base)
      && TwiddleTree(F, g, l - 1, base, tw, 2 * idx)
      && TwiddleTree(F, g, l - 1, F.Add(base, Point(F, g, Pow2(l - 1))), tw, 2 * idx + 1))
  }

  lemma TreeStep<T>(F: Field<T>, g: T, l: nat, base: T, tw: seq<T>, idx: nat)
    requires l > 0 && TwiddleTree(F, g, l, base, tw, idx)
    ensures 0 < idx <= |tw| && tw[idx - 1] == NormS(F, g, l - 1, base)
    ensures TwiddleTree(F, g, l - 1, base, tw, 2 * idx)
    ensures TwiddleTree(F, g, l - 1, F.Add(base, Point(F, g, Pow2(l - 1))), tw, 2 * idx + 1)
  {
  }

  /** The FFT is evaluation: output t is the combination of the X_i at the point base + point(t). */
  lemma {:induction false} FftEvaluates<T(!new)>(
    F: Field<T>, g: T, l: nat, v: seq<T>, tw: seq<T>, idx: nat, base: T, t: nat)
    requires IsBinary(F) && Regular(F, g, l) && |v| == Pow2(l) && t < Pow2(l)
    requires TwiddleTree(F, g, l, base, tw, idx)
    ensures Fft(F, l, v, tw, idx)[t] == Combine(F, v, Norms(F, g, l, F.Add(base, Point(F, g, t))))
    decreases l
  {
    hide *;
    BinaryIsField(F);
    FftStep(F, l, v, tw, idx);
    Pow2One(l);
    var x := F.Add(base, Point(F, g, t));
    if l == 0 {
      EvaluateOne(F, g, v, x);
    } else {
      var h := Pow2(l - 1);
      var u, w := v[..h], v[h..];
      var b := Butterfly(F, u, w, tw, idx);
      TreeStep(F, g, l, base, tw, idx);
      RegularLess(F, g, l - 1);
      NormsStep(F, g, l - 1, x);
      var f := Norms(F, g, l - 1, x);
      assert v == u + w;
      CombineSplit(F, u, w, f, NormS(F, g, l - 1, x));
      NormSAdd(F, g, l - 1, base, Point(F, g, t));
      if t < h {
        NormSLow(F, g, l - 1, t);
        AddZero(F, NormS(F, g, l - 1, base));
        ButterflyLow(F, u, w, tw, idx);
        CombineLinear(F, b.0, u, w, tw[idx - 1], f);
        FftEvaluates(F, g, l - 1, b.0, tw, 2 * idx, base, t);
      } else {
        var root := Point(F, g, h);
        PointHigh(F, g, l - 1, t - h);
        AddAssoc(F, base, root, Point(F, g, t - h));
        NormSAdd(F, g, l - 1, root, Point(F, g, t - h));
        NormSLow(F, g, l - 1, t - h);
        NormSRoot(F, g, l - 1);
        AddZero(F, F.one);
        ButterflyHigh(F, u, w, tw, idx);
        CombineLinear(F, b.1, u, w, F.Add(tw[idx - 1], F.one), f);
        FftEvaluates(F, g, l - 1, b.1, tw, 2 * idx + 1, F.Add(base, root), t - h);
      }
    }
  }

  lemma EvaluateOne<T(!new)>(F: Field<T>, g: T, v: seq<T>, x: T)
    requires IsField(F) && |v| == 1
    ensures Combine(F, v, Norms(F, g, 0, x)) == v[0]
  {
    assert Combine(F, v[..0], []) == F.zero;
  }

  lemma NormsStep<T>(F: Field<T>, g: T, k: nat, x: T)
    ensures Norms(F, g, k + 1, x) == Norms(F, g, k, x) + [NormS(F, g, k, x)]
  {
  }

  lemma RegularLess<T>(F: Field<T>, g: T, k: nat)
    requires Regular(F, g, k + 1)
    ensures Regular(F, g, k) && SRoot(F, g, k) != F.zero
  {
  }

  lemma AddZero<T(!new)>(F: Field<T>, a: T)
    requires IsField(F)
    ensures F.Add(a, F.zero) == a
  {
  }

  lemma ButterflyLow<T(!new)>(F: Field<T>, u: seq<T>, w: seq<T>, tw: seq<T>, idx: nat)
    requires IsField(F) && |u| == |w| && 0 < idx <= |tw|
    ensures var b := Butterfly(F, u, w, tw, idx);
      forall i :: 0 <= i < |u| ==> b.0[i] == F.Add(u[i], F.Mul(tw[idx - 1], w[i]))
  {
  }

  lemma ButterflyHigh<T(!new)>(F: Field<T>, u: seq<T>, w: seq<T>, tw: seq<T>, idx: nat)
    requires IsField(F) && |u| == |w| && 0 < idx <= |tw|
    ensures var b := Butterfly(F, u, w, tw, idx);
      forall i :: 0 <= i < |u| ==> b.1[i] == F.Add(u[i], F.Mul(F.Add(tw[idx - 1], F.one), w[i]))
  {
    var b, lambda := Butterfly(F, u, w, tw, idx), tw[idx - 1];
    forall i | 0 <= i < |u| ensures b.1[i] == F.Add(u[i], F.Mul(F.Add(lambda, F.one), w[i])) {
      Distrib(F, w[i], lambda, F.one);
      AddAssoc(F, u[i], F.Mul(lambda, w[i]), w[i]);
    }
  }
}
