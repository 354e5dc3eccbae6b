/** Multilinear folding: the Lagrange basis over the Boolean cube and the in-place partial evaluation. */
module Multilinear {
  import opened Powers
  import opened Fields

  /** The weight of the Boolean point whose i-th coordinate, most significant bit first, is bit |rs|-1-i of j:
      the product of r_i or 1 + r_i. */
  function Weight<T>(F: Field<T>, rs: seq<T>, j: nat): T
    decreases |rs|
  {
    if rs == [] then F.one
    else
      var r := rs[|rs| - 1];
      F.Mul(Weight(F, rs[..|rs| - 1], j / 2), if j % 2 == 1 then r else F.Add(F.one, r))
  }

  ghost predicate IsBasis<T>(F: Field<T>, rs: seq<T>, basis: seq<T>) {
    |basis| == Pow2(|rs|) && forall j :: 0 <= j < |basis| ==> basis[j] == Weight(F, rs, j)
  }

  /** `evaluate_lagrange_basis`. */
  method EvaluateLagrangeBasis<T(!new)>(F: Field<T>, rs: seq<T>) returns (basis: seq<T>)
    requires IsField(F)
    ensures IsBasis(F, rs, basis)
  {
    if |rs| == 0 {
      return [F.one];
    }
    basis := [F.Add(F.one, rs[0]), rs[0]];
    FirstLayer(F, rs[0]);
    assert rs[..1] == [rs[0]];
    var i := 1;
    while i < |rs|
      invariant 1 <= i <= |rs|
      invariant IsBasis(F, rs[..i], basis)
    {
      basis := NextLayer(F, rs[..i], basis, rs[i]);
      assert rs[..i + 1] == rs[..i] + [rs[i]];
      i := i + 1;
    }
    assert rs[..i] == rs;
  }

  lemma FirstLayer<T(!new)>(F: Field<T>, r: T)
    requires IsField(F)
    ensures IsBasis(F, [r], [F.Add(F.one, r), r])
  {
    var one := F.Add(F.one, r);
    assert [r][..0] == [];
    assert F.Mul(F.one, one) == one && F.Mul(F.one, r) == r;
    assert Pow2(1) == 2;
  }

  method NextLayer<T(!new)>(F: Field<T>, ghost rs: seq<T>, layer: seq<T>, r: T) returns (next: seq<T>)
    requires IsBasis(F, rs, layer)
    ensures IsBasis(F, rs + [r], next)
  {
    next := [];
    ghost var ext := rs + [r];
    assert ext[..|rs|] == rs;
    for j := 0 to |layer|
      invariant |next| == 2 * j
      invariant forall k :: 0 <= k < |next| ==> next[k] == Weight(F, ext, k)
    {
      next := next + [F.Mul(layer[j], F.Add(F.one, r)), F.Mul(layer[j], r)];
    }
  }

  /** One challenge: entry i is p0 + e (p1 + p0) for the pair at 2i, 2i + 1. */
  function Fold<T>(F: Field<T>, s: seq<T>, e: T): (r: seq<T>)
    ensures |r| == |s| / 2
  {
    seq(|s| / 2, i requires 0 <= i < |s| / 2 => F.Add(s[2 * i], F.Mul(e, F.Add(s[2 * i + 1], s[2 * i]))))
  }

  /** The challenges in order. */
  function Folded<T>(F: Field<T>, s: seq<T>, evals: seq<T>): seq<T>
    decreases |evals|
  {
    if evals == [] then s else Folded(F, Fold(F, s, evals[0]), evals[1..])
  }

  lemma {:induction false} FoldedLast<T>(F: Field<T>, s: seq<T>, evals: seq<T>, e: T)
    ensures Folded(F, s, evals + [e]) == Fold(F, Folded(F, s, evals), e)
    decreases |evals|
  {
    if evals == [] {
      assert ([] + [e])[1..] == [];
    } else {
      assert (evals + [e])[1..] == evals[1..] + [e];
      FoldedLast(F, Fold(F, s, evals[0]), evals[1..], e);
    }
  }

  /** `partial_eval_multilinear`: folds inside the buffer; `n` is the length it is truncated to. */
  method PartialEvalMultilinear<T>(F: Field<T>, poly: array<T>, evals: seq<T>) returns (n: nat)
    modifies poly
    ensures n <= poly.Length && poly[..n] == Folded(F, old(poly[..]), evals)
  {
    n := poly.Length;
    ghost var s := poly[..];
    assert poly[..n] == s;
    for k := 0 to |evals|
      invariant n <= poly.Length && poly[..n] == Folded(F, s, evals[..k])
    {
      FoldedLast(F, s, evals[..k], evals[k]);
      assert evals[..k + 1] == evals[..k] + [evals[k]];
      n := FoldInPlace(F, poly, n, evals[k]);
    }
    assert evals[..|evals|] == evals;
  }

  /** After i rounds: the first i entries are folded, the others up to the size untouched. */
  ghost predicate FoldedTo<T>(F: Field<T>, s: seq<T>, e: T, now: seq<T>, i: nat) {
    && i <= |s| / 2 && |s| <= |now|
    && (forall k :: 0 <= k < i ==> now[k] == Fold(F, s, e)[k])
    && (forall k :: i <= k < |s| ==> now[k] == s[k])
  }

  lemma FoldRound<T>(F: Field<T>, s: seq<T>, e: T, now: seq<T>, i: nat)
    requires FoldedTo(F, s, e, now, i) && i < |s| / 2
    ensures 2 * i + 1 < |s| && now[2 * i] == s[2 * i] && now[2 * i + 1] == s[2 * i + 1]
    ensures FoldedTo(F, s, e, now[i := F.Add(s[2 * i], F.Mul(e, F.Add(s[2 * i + 1], s[2 * i])))], i + 1)
  {
    hide Fold;
    FoldAt(F, s, e, i);
  }

  lemma FoldDone<T>(F: Field<T>, s: seq<T>, e: T, now: seq<T>)
    requires FoldedTo(F, s, e, now, |s| / 2)
    ensures now[..|s| / 2] == Fold(F, s, e)
  {
    hide Fold;
  }

  method FoldInPlace<T>(F: Field<T>, poly: array<T>, size: nat, e: T) returns (n: nat)
    requires size <= poly.Length
    modifies poly
    ensures n <= poly.Length && poly[..n] == Fold(F, old(poly[..size]), e)
  {
    hide Fold;
    n := size / 2;
    ghost var s := poly[..size];
    for i := 0 to n
      invariant FoldedTo(F, s, e, poly[..], i)
    {
      FoldRound(F, s, e, poly[..], i);
      var p0, p1 := poly[2 * i], poly[2 * i + 1];
      ghost var now := poly[..];
      poly[i] := F.Add(p0, F.Mul(e, F.Add(p1, p0)));
      assert poly[..] == now[i := poly[i]];
    }
    FoldDone(F, s, e, poly[..]);
    assert poly[..][..n] == poly[..n];
  }

  // ----- what folding computes -----

  function Reversed<T>(s: seq<T>): (r: seq<T>)
    ensures |r| == |s|
  {
    if s == [] then [] else Reversed(s[1..]) + [s[0]]
  }

  /** The block of s that starts at `base`, weighted by the first n entries of the basis. */
  function Blend<T>(F: Field<T>, s: seq<T>, base: nat, basis: seq<T>, n: nat): T
    requires base + n <= |s| && n <= |basis|
  {
    if n == 0 then F.zero else F.Add(Blend(F, s, base, basis, n - 1), F.Mul(s[base + n - 1], basis[n - 1]))
  }

  function Weights<T>(F: Field<T>, rs: seq<T>): (basis: seq<T>)
    ensures IsBasis(F, rs, basis)
  {
    seq(Pow2(|rs|), j requires 0 <= j < Pow2(|rs|) => Weight(F, rs, j))
  }

  lemma WeightLast<T>(F: Field<T>, rs: seq<T>, e: T, k: nat)
    ensures Weight(F, rs + [e], k) == F.Mul(Weight(F, rs, k / 2), if k % 2 == 1 then e else F.Add(F.one, e))
  {
    assert (rs + [e])[..|rs|] == rs;
  }

  lemma WeightPair<T>(F: Field<T>, rs: seq<T>, e: T, j: nat)
    ensures Weight(F, rs + [e], 2 * j) == F.Mul(Weight(F, rs, j), F.Add(F.one, e))
    ensures Weight(F, rs + [e], 2 * j + 1) == F.Mul(Weight(F, rs, j), e)
  {
    hide *;
    WeightLast(F, rs, e, 2 * j);
    WeightLast(F, rs, e, 2 * j + 1);
  }

  /** p0 + e (p1 + p0), times w, splits into p0 w (1 + e) and p1 w e. */
  lemma PairSplit<T(!new)>(F: Field<T>, p0: T, p1: T, e: T, w: T)
    requires IsField(F)
    ensures F.Mul(F.Add(p0, F.Mul(e, F.Add(p1, p0))), w)
         == F.Add(F.Mul(p0, F.Mul(w, F.Add(F.one, e))), F.Mul(p1, F.Mul(w, e)))
  {
    var ew := F.Mul(w, e);
    calc {
      F.Mul(F.Add(p0, F.Mul(e, F.Add(p1, p0))), w);
      { Distrib(F, w, p0, F.Mul(e, F.Add(p1, p0))); MulAssoc(F, w, e, F.Add(p1, p0)); }
      F.Add(F.Mul(p0, w), F.Mul(ew, F.Add(p1, p0)));
      { Distrib(F, ew, p1, p0); }
      F.Add(F.Mul(p0, w), F.Add(F.Mul(p1, ew), F.Mul(p0, ew)));
      { AddAssoc(F, F.Mul(p0, w), F.Mul(p0, ew), F.Mul(p1, ew)); Distrib(F, p0, w, ew); }
      F.Add(F.Mul(p0, F.Add(w, ew)), F.Mul(p1, ew));
      { Distrib(F, w, F.one, e); }
      F.Add(F.Mul(p0, F.Mul(w, F.Add(F.one, e))), F.Mul(p1, ew));
    }
  }

  lemma BlendTwo<T(!new)>(F: Field<T>, s: seq<T>, base: nat, basis: seq<T>, n: nat)
    requires IsField(F) && base + n + 2 <= |s| && n + 2 <= |basis|
    ensures Blend(F, s, base, basis, n + 2)
         == F.Add(Blend(F, s, base, basis, n), F.Add(F.Mul(s[base + n], basis[n]), F.Mul(s[base + n + 1], basis[n + 1])))
  {
    var b := Blend(F, s, base, basis, n);
    assert Blend(F, s, base, basis, n + 1) == F.Add(b, F.Mul(s[base + n], basis[n]));
    AddAssoc(F, b, F.Mul(s[base + n], basis[n]), F.Mul(s[base + n + 1], basis[n + 1]));
  }

  lemma BlendUnfold<T>(F: Field<T>, s: seq<T>, base: nat, basis: seq<T>, n: nat)
    requires base + n <= |s| && n <= |basis|
    ensures Blend(F, s, base, basis, 0) == F.zero
    ensures n > 0 ==> Blend(F, s, base, basis, n) == F.Add(Blend(F, s, base, basis, n - 1), F.Mul(s[base + n - 1], basis[n - 1]))
  {
  }

  lemma WeightsAt<T>(F: Field<T>, rs: seq<T>, j: nat)
    requires j < Pow2(|rs|)
    ensures |Weights(F, rs)| == Pow2(|rs|) && Weights(F, rs)[j] == Weight(F, rs, j)
  {
  }

  lemma FoldAt<T>(F: Field<T>, s: seq<T>, e: T, i: nat)
    requires i < |s| / 2
    ensures Fold(F, s, e)[i] == F.Add(s[2 * i], F.Mul(e, F.Add(s[2 * i + 1], s[2 * i])))
  {
  }

  lemma {:induction false} BlendFold<T(!new)>(F: Field<T>, s: seq<T>, base: nat, rs: seq<T>, e: T, n: nat)
    requires IsField(F) && n <= Pow2(|rs|) && base + n <= |s| / 2
    requires |Weights(F, rs)| == Pow2(|rs|) && |Weights(F, rs + [e])| == 2 * Pow2(|rs|)
    ensures Blend(F, Fold(F, s, e), base, Weights(F, rs), n) == Blend(F, s, 2 * base, Weights(F, rs + [e]), 2 * n)
  {
    hide *;
    var short, long, t := Weights(F, rs), Weights(F, rs + [e]), Fold(F, s, e);
    BlendUnfold(F, t, base, short, n);
    if n == 0 {
      BlendUnfold(F, s, 2 * base, long, 0);
    } else {
      BlendFold(F, s, base, rs, e, n - 1);
      var i := base + n - 1;
      FoldAt(F, s, e, i);
      Pow2Step(|rs|);
      WeightsAt(F, rs, n - 1);
      WeightsAt(F, rs + [e], 2 * n - 2);
      WeightsAt(F, rs + [e], 2 * n - 1);
      WeightPair(F, rs, e, n - 1);
      PairSplit(F, s[2 * i], s[2 * i + 1], e, Weight(F, rs, n - 1));
      BlendTwo(F, s, 2 * base, long, 2 * n - 2);
    }
  }

  lemma DoubleBlock(f: nat, p: nat)
    ensures f * (2 * p) == 2 * (f * p)
  {
  }

  lemma NextBlock(f: nat, p: nat)
    ensures (f + 1) * p == f * p + p
  {
  }

  lemma HalfBounds(l: nat, h: nat, f: nat, p: nat)
    requires h == l / 2 && f * p <= h < f * p + p
    ensures f * (2 * p) <= l < f * (2 * p) + 2 * p
  {
    DoubleBlock(f, p);
  }

  /** Each challenge halves the table and drops an odd last entry: the quotient of |s| by 2^m is left. */
  lemma {:induction false} FoldedLength<T>(F: Field<T>, s: seq<T>, evals: seq<T>)
    ensures var f, p := |Folded(F, s, evals)|, Pow2(|evals|); f * p <= |s| < f * p + p
    decreases |evals|
  {
    hide Pow2, Fold;
    if evals == [] {
      Pow2Step(0);
    } else {
      var t, k := Fold(F, s, evals[0]), |evals| - 1;
      FoldedLength(F, t, evals[1..]);
      Pow2Step(k);
      HalfBounds(|s|, |t|, |Folded(F, s, evals)|, Pow2(k));
    }
  }

  lemma {:induction false} BlockFits(f: nat, p: nat, i: nat)
    requires i < f
    ensures i * p + p <= f * p
  {
    NextBlock(f - 1, p);
    if i < f - 1 {
      BlockFits(f - 1, p, i);
    }
  }

  /** Folding by the challenges, first challenge first, evaluates each block of 2^m table entries with the Lagrange basis
      of the challenges in reverse order. */
  lemma {:induction false} FoldedIsBlend<T(!new)>(F: Field<T>, s: seq<T>, evals: seq<T>, basis: seq<T>, i: nat)
    requires IsField(F) && IsBasis(F, Reversed(evals), basis) && i < |Folded(F, s, evals)|
    ensures i * |basis| + |basis| <= |s| && Folded(F, s, evals)[i] == Blend(F, s, i * |basis|, basis, |basis|)
    decreases |evals|
  {
    hide Weight, Blend, Pow2, Fold;
    FoldedLength(F, s, evals);
    BlockFits(|Folded(F, s, evals)|, |basis|, i);
    assert basis == Weights(F, Reversed(evals));
    if evals == [] {
      Pow2Step(0);
      WeightEmpty(F);
      BlendUnfold(F, s, i, basis, 1);
    } else {
      var t, es := Fold(F, s, evals[0]), evals[1..];
      var short := Weights(F, Reversed(es));
      FoldedIsBlend(F, t, es, short, i);
      Pow2Step(|es|);
      DoubleBlock(i, |short|);
      BlendFold(F, s, i * |short|, Reversed(es), evals[0], |short|);
    }
  }

  lemma WeightEmpty<T>(F: Field<T>)
    ensures Weight(F, [], 0) == F.one
  {
  }

  // ----- what the basis is -----

  function SumOf<T>(F: Field<T>, s: seq<T>, n: nat): T
    requires n <= |s|
  {
    if n == 0 then F.zero else F.Add(SumOf(F, s, n - 1), s[n - 1])
  }

  lemma SumOfStep<T>(F: Field<T>, s: seq<T>, n: nat)
    requires n <= |s|
    ensures SumOf(F, s, 0) == F.zero && (n > 0 ==> SumOf(F, s, n) == F.Add(SumOf(F, s, n - 1), s[n - 1]))
  {
  }

  /** w (1 + e) and w e add up to w. */
  lemma PairSum<T(!new)>(F: Field<T>, b: T, w: T, e: T)
    requires IsBinary(F)
    ensures F.Add(F.Add(b, F.Mul(w, F.Add(F.one, e))), F.Mul(w, e)) == F.Add(b, w)
  {
    AddAssoc(F, b, F.Mul(w, F.Add(F.one, e)), F.Mul(w, e));
    Distrib(F, w, F.Add(F.one, e), e);
    AddAssoc(F, F.one, e, e);
  }

  lemma {:induction false} WeightsHalve<T(!new)>(F: Field<T>, rs: seq<T>, e: T, n: nat)
    requires IsBinary(F) && n <= Pow2(|rs|)
    requires |Weights(F, rs)| == Pow2(|rs|) && |Weights(F, rs + [e])| == 2 * Pow2(|rs|)
    ensures SumOf(F, Weights(F, rs + [e]), 2 * n) == SumOf(F, Weights(F, rs), n)
  {
    hide *;
    var short, long := Weights(F, rs), Weights(F, rs + [e]);
    SumOfStep(F, short, n);
    SumOfStep(F, long, 2 * n);
    if n != 0 {
      WeightsHalve(F, rs, e, n - 1);
      SumOfStep(F, long, 2 * n - 1);
      Pow2Step(|rs|);
      WeightsAt(F, rs, n - 1);
      WeightsAt(F, rs + [e], 2 * n - 2);
      WeightsAt(F, rs + [e], 2 * n - 1);
      WeightPair(F, rs, e, n - 1);
      PairSum(F, SumOf(F, long, 2 * n - 2), Weight(F, rs, n - 1), e);
    }
  }

  /** The basis is a partition of unity. */
  lemma {:induction false} BasisSumsToOne<T(!new)>(F: Field<T>, rs: seq<T>, basis: seq<T>)
    requires IsBinary(F) && IsBasis(F, rs, basis)
    ensures SumOf(F, basis, |basis|) == F.one
    decreases |rs|
  {
    hide Weight;
    assert basis == Weights(F, rs);
    if rs == [] {
      WeightEmpty(F);
      assert SumOf(F, basis, 1) == F.Add(SumOf(F, basis, 0), basis[0]);
    } else {
      var front, e := rs[..|rs| - 1], rs[|rs| - 1];
      assert rs == front + [e];
      BasisSumsToOne(F, front, Weights(F, front));
      WeightsHalve(F, front, e, Pow2(|front|));
    }
  }

  /** The coordinates of a Boolean point, most significant bit first. */
  function Corner<T>(F: Field<T>, m: nat, b: nat): (r: seq<T>)
    ensures |r| == m
  {
    if m == 0 then [] else Corner(F, m - 1, b / 2) + [if b % 2 == 1 then F.one else F.zero]
  }

  /** At a Boolean point the basis is the indicator of that point. */
  lemma {:induction false} CornerSelects<T(!new)>(F: Field<T>, m: nat, b: nat, j: nat)
    requires IsBinary(F) && b < Pow2(m) && j < Pow2(m)
    ensures Weight(F, Corner(F, m, b), j) == if j == b then F.one else F.zero
  {
    if m != 0 {
      hide Weight;
      CornerSelects(F, m - 1, b / 2, j / 2);
      var front, e := Corner(F, m - 1, b / 2), if b % 2 == 1 then F.one else F.zero;
      WeightPair(F, front, e, j / 2);
      var w, v := Weight(F, front, j / 2), if j % 2 == 1 then e else F.Add(F.one, e);
      assert v == if j % 2 == b % 2 then F.one else F.zero;
      if w == F.zero || v == F.zero {
        Annihilate(F, w, v);
      }
    } else {
      WeightEmpty(F);
    }
  }

  lemma {:induction false} BlendCorner<T(!new)>(F: Field<T>, s: seq<T>, m: nat, b: nat, n: nat)
    requires IsBinary(F) && |s| == Pow2(m) && b < Pow2(m) && n <= Pow2(m)
    ensures Blend(F, s, 0, Weights(F, Corner(F, m, b)), n) == if b < n then s[b] else F.zero
  {
    hide Weight, Corner;
    if n != 0 {
      BlendCorner(F, s, m, b, n - 1);
      CornerSelects(F, m, b, n - 1);
      MulZero(F, s[n - 1]);
    }
  }

  /** Evaluating a full table at a Boolean point reads the table there. */
  lemma FoldedAtCorner<T(!new)>(F: Field<T>, s: seq<T>, evals: seq<T>, b: nat)
    requires IsBinary(F) && |s| == Pow2(|evals|) && b < |s| && Reversed(evals) == Corner(F, |evals|, b)
    ensures Folded(F, s, evals) == [s[b]]
  {
    hide Weight, Corner, Blend, Folded, Pow2;
    var basis := Weights(F, Reversed(evals));
    FoldedLength(F, s, evals);
    var f, p := |Folded(F, s, evals)|, |s|;
    if f >= 2 {
      BlockFits(f, p, 1);
    }
    FoldedIsBlend(F, s, evals, basis, 0);
    BlendCorner(F, s, |evals|, b, p);
  }
}
