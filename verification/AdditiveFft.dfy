/** The additive FFT of `reed-solomon/src/fft.rs`: in-place butterflies over a heap-ordered table. */
module AdditiveFft {
  import opened Fields
  import opened Powers

  /** One round of `fft_mul`: the upper entry uses the already updated lower entry. */
  function Mix<T>(F: Field<T>, lambda: T, a: T, b: T): (T, T) {
    var u := F.Add(a, F.Mul(lambda, b));
    (u, F.Add(b, u))
  }

  /** One round of `ifft_mul`: the upper entry first, then the lower entry from it. */
  function Unmix<T>(F: Field<T>, lambda: T, a: T, b: T): (T, T) {
    var w := F.Add(b, a);
    (F.Add(a, F.Mul(lambda, w)), w)
  }

  function Mixer<T>(F: Field<T>, lambda: T): (T, T) -> (T, T) { (a, b) => Mix(F, lambda, a, b) }

  function Unmixer<T>(F: Field<T>, lambda: T): (T, T) -> (T, T) { (a, b) => Unmix(F, lambda, a, b) }

  /** The two halves after every pair (u[i], w[i]) went through `f`. */
  function Pairwise<T>(f: (T, T) -> (T, T), u: seq<T>, w: seq<T>): (r: (seq<T>, seq<T>))
    requires |u| == |w|
    ensures |r.0| == |r.1| == |u|
  {
    (seq(|u|, i requires 0 <= i < |u| => f(u[i], w[i]).0), seq(|u|, i requires 0 <= i < |u| => f(u[i], w[i]).1))
  }

  /** The butterfly of heap position `idx`; a position outside the table leaves the halves alone. */
  function Butterfly<T>(F: Field<T>, u: seq<T>, w: seq<T>, tw: seq<T>, idx: nat): (r: (seq<T>, seq<T>))
    requires |u| == |w|
    ensures |r.0| == |r.1| == |u|
  {
    if 0 < idx <= |tw| then Pairwise(Mixer(F, tw[idx - 1]), u, w) else (u, w)
  }

  function Unbutterfly<T>(F: Field<T>, u: seq<T>, w: seq<T>, tw: seq<T>, idx: nat): (r: (seq<T>, seq<T>))
    requires |u| == |w|
    ensures |r.0| == |r.1| == |u|
  {
    if 0 < idx <= |tw| then Pairwise(Unmixer(F, tw[idx - 1]), u, w) else (u, w)
  }

  /** What `fft_recursive` leaves in a block of 2^l values that sits at heap position `idx`. */
  function Fft<T>(F: Field<T>, l: nat, v: seq<T>, tw: seq<T>, idx: nat): (r: seq<T>)
    requires |v| == Pow2(l)
    ensures |r| == |v|
    decreases l
  {
    if l == 0 then v
    else
      var h := Pow2(l - 1);
      var (u, w) := Butterfly(F, v[..h], v[h..], tw, idx);
      Fft(F, l - 1, u, tw, 2 * idx) + Fft(F, l - 1, w, tw, 2 * idx + 1)
  }

  /** What `ifft_recursive` leaves in a block of 2^l values that sits at heap position `idx`. */
  function Ifft<T>(F: Field<T>, l: nat, v: seq<T>, tw: seq<T>, idx: nat): (r: seq<T>)
    requires |v| == Pow2(l)
    ensures |r| == |v|
    decreases l
  {
    if l == 0 then v
    else
      var h := Pow2(l - 1);
      var (u, w) := Unbutterfly(F, Ifft(F, l - 1, v[..h], tw, 2 * idx), Ifft(F, l - 1, v[h..], tw, 2 * idx + 1), tw, idx);
      u + w
  }

  lemma MixInverse<T(!new)>(F: Field<T>, lambda: T, a: T, b: T)
    requires IsBinary(F)
    ensures var m := Mix(F, lambda, a, b); Unmix(F, lambda, m.0, m.1) == (a, b)
    ensures var m := Unmix(F, lambda, a, b); Mix(F, lambda, m.0, m.1) == (a, b)
  {
    Flip(F, b, F.Add(a, F.Mul(lambda, b)));
    Flip(F, a, F.Mul(lambda, b));
    Flip(F, a, F.Mul(lambda, F.Add(b, a)));
    Flip(F, b, a);
  }

  lemma ButterflyInverse<T(!new)>(F: Field<T>, u: seq<T>, w: seq<T>, tw: seq<T>, idx: nat)
    requires IsBinary(F) && |u| == |w|
    ensures var b := Butterfly(F, u, w, tw, idx); Unbutterfly(F, b.0, b.1, tw, idx) == (u, w)
    ensures var b := Unbutterfly(F, u, w, tw, idx); Butterfly(F, b.0, b.1, tw, idx) == (u, w)
  {
    if 0 < idx <= |tw| {
      var b := Butterfly(F, u, w, tw, idx);
      var c := Unbutterfly(F, u, w, tw, idx);
      var b', c' := Unbutterfly(F, b.0, b.1, tw, idx), Butterfly(F, c.0, c.1, tw, idx);
      forall i | 0 <= i < |u|
        ensures b'.0[i] == u[i] && b'.1[i] == w[i] && c'.0[i] == u[i] && c'.1[i] == w[i]
      {
        MixInverse(F, tw[idx - 1], u[i], w[i]);
      }
      assert b'.0 == u && b'.1 == w && c'.0 == u && c'.1 == w;
    }
  }

  /** `ifft` undoes `fft`, for every table of twiddles whatsoever. */
  lemma {:induction false} IfftFft<T(!new)>(F: Field<T>, l: nat, v: seq<T>, tw: seq<T>, idx: nat)
    requires IsBinary(F) && |v| == Pow2(l)
    ensures Ifft(F, l, Fft(F, l, v, tw, idx), tw, idx) == v
    decreases l
  {
    hide *;
    FftStep(F, l, v, tw, idx);
    IfftStep(F, l, v, tw, idx);
    Pow2One(l);
    if l != 0 {
      var h := Pow2(l - 1);
      var (u, w) := Butterfly(F, v[..h], v[h..], tw, idx);
      var r := Fft(F, l, v, tw, idx);
      assert r[..h] == Fft(F, l - 1, u, tw, 2 * idx);
      assert r[h..] == Fft(F, l - 1, w, tw, 2 * idx + 1);
      IfftStep(F, l, r, tw, idx);
      IfftFft(F, l - 1, u, tw, 2 * idx);
      IfftFft(F, l - 1, w, tw, 2 * idx + 1);
      ButterflyInverse(F, v[..h], v[h..], tw, idx);
      assert v[..h] + v[h..] == v;
    } else {
      IfftStep(F, l, Fft(F, l, v, tw, idx), tw, idx);
    }
  }

  /** `fft` undoes `ifft`, for every table of twiddles whatsoever. */
  lemma {:induction false} FftIfft<T(!new)>(F: Field<T>, l: nat, v: seq<T>, tw: seq<T>, idx: nat)
    requires IsBinary(F) && |v| == Pow2(l)
    ensures Fft(F, l, Ifft(F, l, v, tw, idx), tw, idx) == v
    decreases l
  {
    hide *;
    FftStep(F, l, v, tw, idx);
    IfftStep(F, l, v, tw, idx);
    Pow2One(l);
    if l != 0 {
      var h := Pow2(l - 1);
      var lo, hi := Ifft(F, l - 1, v[..h], tw, 2 * idx), Ifft(F, l - 1, v[h..], tw, 2 * idx + 1);
      var (u, w) := Unbutterfly(F, lo, hi, tw, idx);
      var r := Ifft(F, l, v, tw, idx);
      assert r[..h] == u && r[h..] == w;
      FftStep(F, l, r, tw, idx);
      ButterflyInverse(F, lo, hi, tw, idx);
      FftIfft(F, l - 1, v[..h], tw, 2 * idx);
      FftIfft(F, l - 1, v[h..], tw, 2 * idx + 1);
      assert v[..h] + v[h..] == v;
    } else {
      FftStep(F, l, Ifft(F, l, v, tw, idx), tw, idx);
    }
  }

  /** Outside the `n` entries at `lo`, `w` is as `v`. */
  ghost predicate Kept<T>(w: seq<T>, v: seq<T>, lo: nat, n: nat) {
    |w| == |v| && forall k :: 0 <= k < |v| && !(lo <= k < lo + n) ==> w[k] == v[k]
  }

  /** The butterfly on the block of 2h entries at `lo`, in place. */
  method FftMul<T(!new)>(F: Field<T>, a: array<T>, lo: nat, h: nat, lambda: T)
    requires lo + 2 * h <= a.Length
    modifies a
    ensures Kept(a[..], old(a[..]), lo, 2 * h)
    ensures (a[..][lo..lo + h], a[..][lo + h..lo + 2 * h]) ==
      Pairwise(Mixer(F, lambda), old(a[..])[lo..lo + h], old(a[..])[lo + h..lo + 2 * h])
  {
    ghost var f := Mixer(F, lambda);
    ghost var v := a[..];
    ghost var w := v;
    for i := 0 to h
      invariant a[..] == w && |w| == |v|
      invariant Rounds(f, v, w, lo, h, i)
    {
      a[lo + i] := F.Add(a[lo + i], F.Mul(lambda, a[lo + h + i]));
      a[lo + h + i] := F.Add(a[lo + h + i], a[lo + i]);
      Round(f, v, w, lo, h, i);
      w := w[lo + i := f(w[lo + i], w[lo + i + h]).0][lo + i + h := f(w[lo + i], w[lo + i + h]).1];
    }
    RoundsDone(f, v, w, lo, h);
  }

  /** The inverse butterfly on the block of 2h entries at `lo`, in place. */
  method IfftMul<T(!new)>(F: Field<T>, a: array<T>, lo: nat, h: nat, lambda: T)
    requires lo + 2 * h <= a.Length
    modifies a
    ensures Kept(a[..], old(a[..]), lo, 2 * h)
    ensures (a[..][lo..lo + h], a[..][lo + h..lo + 2 * h]) ==
      Pairwise(Unmixer(F, lambda), old(a[..])[lo..lo + h], old(a[..])[lo + h..lo + 2 * h])
  {
    ghost var f := Unmixer(F, lambda);
    ghost var v := a[..];
    ghost var w := v;
    for i := 0 to h
      invariant a[..] == w && |w| == |v|
      invariant Rounds(f, v, w, lo, h, i)
    {
      a[lo + h + i] := F.Add(a[lo + h + i], a[lo + i]);
      a[lo + i] := F.Add(a[lo + i], F.Mul(lambda, a[lo + h + i]));
      Round(f, v, w, lo, h, i);
      w := w[lo + i := f(w[lo + i], w[lo + i + h]).0][lo + i + h := f(w[lo + i], w[lo + i + h]).1];
    }
    RoundsDone(f, v, w, lo, h);
  }

  /** `w` is `v` after `f` has been applied to the first `i` pairs (k, k + h) from `lo` on. */
  ghost predicate Rounds<T>(f: (T, T) -> (T, T), v: seq<T>, w: seq<T>, lo: nat, h: nat, i: nat)
    requires i <= h && lo + 2 * h <= |v| == |w|
  {
    && (forall k :: 0 <= k < |v| && !(lo <= k < lo + i) && !(lo + h <= k < lo + h + i) ==> w[k] == v[k])
    && (forall k :: lo <= k < lo + i ==> RoundAt(f, v, w, h, k))
  }

  ghost predicate RoundAt<T>(f: (T, T) -> (T, T), v: seq<T>, w: seq<T>, h: nat, k: nat)
    requires k + h < |v| == |w|
  {
    (w[k], w[k + h]) == f(v[k], v[k + h])
  }

  lemma Round<T>(f: (T, T) -> (T, T), v: seq<T>, w: seq<T>, lo: nat, h: nat, i: nat)
    requires i < h && lo + 2 * h <= |v| == |w| && Rounds(f, v, w, lo, h, i)
    ensures var p := f(w[lo + i], w[lo + i + h]);
      Rounds(f, v, w[lo + i := p.0][lo + i + h := p.1], lo, h, i + 1)
  {
    var p := f(w[lo + i], w[lo + i + h]);
    var z := w[lo + i := p.0][lo + i + h := p.1];
    forall k | lo <= k < lo + i + 1 ensures RoundAt(f, v, z, h, k) {
      assert k < lo + i ==> RoundAt(f, v, w, h, k);
    }
  }

  lemma RoundsDone<T>(f: (T, T) -> (T, T), v: seq<T>, w: seq<T>, lo: nat, h: nat)
    requires lo + 2 * h <= |v| == |w| && Rounds(f, v, w, lo, h, h)
    ensures Kept(w, v, lo, 2 * h)
    ensures (w[lo..lo + h], w[lo + h..lo + 2 * h]) == Pairwise(f, v[lo..lo + h], v[lo + h..lo + 2 * h])
  {
    var r := Pairwise(f, v[lo..lo + h], v[lo + h..lo + 2 * h]);
    forall k | 0 <= k < h ensures w[lo..lo + h][k] == r.0[k] && w[lo + h..lo + 2 * h][k] == r.1[k] {
      assert RoundAt(f, v, w, h, lo + k);
    }
    assert w[lo..lo + h] == r.0 && w[lo + h..lo + 2 * h] == r.1;
  }

  /** `fft_recursive` on the block of `len` entries at `lo`; the rest of `a` is untouched. */
  method FftRecursive<T(!new)>(F: Field<T>, a: array<T>, lo: nat, len: nat, tw: seq<T>, idx: nat, ghost l: nat)
    requires len == Pow2(l) && lo + len <= a.Length
    modifies a
    ensures Kept(a[..], old(a[..]), lo, len)
    ensures a[..][lo..lo + len] == Fft(F, l, old(a[..])[lo..lo + len], tw, idx)
    decreases l
  {
    hide *;
    ghost var s0 := a[..];
    Pow2One(l);
    FftStep(F, l, s0[lo..lo + len], tw, idx);
    if len == 1 {
      KeptRefl(s0, lo, len);
      return;
    }
    var mid := len / 2;
    Halve(s0, lo, mid);
    KeptRefl(s0, lo, len);
    if idx > 0 && idx - 1 < |tw| {
      FftMul(F, a, lo, mid, tw[idx - 1]);
    }
    ghost var s1 := a[..];
    ButterflyCases(F, s0[lo..lo + mid], s0[lo + mid..lo + len], tw, idx);
    ghost var b := Butterfly(F, s0[lo..lo + mid], s0[lo + mid..lo + len], tw, idx);
    assert s1[lo..lo + mid] == b.0 && s1[lo + mid..lo + len] == b.1;
    FftRecursive(F, a, lo, mid, tw, 2 * idx, l - 1);
    ghost var s2 := a[..];
    FftRecursive(F, a, lo + mid, mid, tw, 2 * idx + 1, l - 1);
    ghost var s3 := a[..];
    KeptTwice(s0, s1, s2, s3, lo, mid);
    assert s3[lo..lo + mid] == Fft(F, l - 1, b.0, tw, 2 * idx);
    assert s3[lo + mid..lo + len] == Fft(F, l - 1, b.1, tw, 2 * idx + 1);
  }

  /** `ifft_recursive` on the block of `len` entries at `lo`; the rest of `a` is untouched. */
  method IfftRecursive<T(!new)>(F: Field<T>, a: array<T>, lo: nat, len: nat, tw: seq<T>, idx: nat, ghost l: nat)
    requires len == Pow2(l) && lo + len <= a.Length
    modifies a
    ensures Kept(a[..], old(a[..]), lo, len)
    ensures a[..][lo..lo + len] == Ifft(F, l, old(a[..])[lo..lo + len], tw, idx)
    decreases l
  {
    hide Ifft, Pairwise, Pow2, Unmixer, Kept;
    ghost var s0 := a[..];
    Pow2One(l);
    IfftStep(F, l, s0[lo..lo + len], tw, idx);
    if len == 1 {
      KeptRefl(s0, lo, len);
      return;
    }
    var mid := len / 2;
    Halve(s0, lo, mid);
    KeptRefl(s0, lo, len);
    IfftRecursive(F, a, lo, mid, tw, 2 * idx, l - 1);
    ghost var s1 := a[..];
    IfftRecursive(F, a, lo + mid, mid, tw, 2 * idx + 1, l - 1);
    ghost var s2 := a[..];
    KeptTwice(s0, s0, s1, s2, lo, mid);
    if idx > 0 && idx - 1 < |tw| {
      IfftMul(F, a, lo, mid, tw[idx - 1]);
      KeptAgain(s0, s2, a[..], lo, len);
    }
    Halve(a[..], lo, mid);
  }

  lemma Halve<T>(s: seq<T>, lo: nat, mid: nat)
    requires lo + 2 * mid <= |s|
    ensures var v := s[lo..lo + 2 * mid];
      v[..mid] == s[lo..lo + mid] && v[mid..] == s[lo + mid..lo + 2 * mid] && v == v[..mid] + v[mid..]
  {
  }

  lemma KeptRefl<T>(s: seq<T>, lo: nat, n: nat)
    ensures Kept(s, s, lo, n)
  {
  }

  lemma KeptAgain<T>(s0: seq<T>, s1: seq<T>, s2: seq<T>, lo: nat, n: nat)
    requires Kept(s1, s0, lo, n) && Kept(s2, s1, lo, n)
    ensures Kept(s2, s0, lo, n)
  {
  }

  /** Editing the left and then the right half of a block edits only the block. */
  lemma KeptTwice<T>(s0: seq<T>, s1: seq<T>, s2: seq<T>, s3: seq<T>, lo: nat, mid: nat)
    requires lo + 2 * mid <= |s0|
    requires Kept(s1, s0, lo, 2 * mid) && Kept(s2, s1, lo, mid) && Kept(s3, s2, lo + mid, mid)
    ensures Kept(s3, s0, lo, 2 * mid) && |s0| == |s1| == |s2| == |s3|
    ensures s2[lo + mid..lo + 2 * mid] == s1[lo + mid..lo + 2 * mid] && s3[lo..lo + mid] == s2[lo..lo + mid]
    ensures s3[lo..lo + 2 * mid] == s3[lo..lo + mid] + s3[lo + mid..lo + 2 * mid]
  {
  }

  lemma ButterflyCases<T>(F: Field<T>, u: seq<T>, w: seq<T>, tw: seq<T>, idx: nat)
    requires |u| == |w|
    ensures 0 < idx <= |tw| ==> Butterfly(F, u, w, tw, idx) == Pairwise(Mixer(F, tw[idx - 1]), u, w)
    ensures !(0 < idx <= |tw|) ==> Butterfly(F, u, w, tw, idx) == (u, w)
  {
  }

  lemma FftStep<T>(F: Field<T>, l: nat, v: seq<T>, tw: seq<T>, idx: nat)
    requires |v| == Pow2(l)
    ensures l == 0 ==> Fft(F, l, v, tw, idx) == v
    ensures l > 0 ==>
      var h := Pow2(l - 1);
      var b := Butterfly(F, v[..h], v[h..], tw, idx);
      Fft(F, l, v, tw, idx) == Fft(F, l - 1, b.0, tw, 2 * idx) + Fft(F, l - 1, b.1, tw, 2 * idx + 1)
  {
  }

  lemma IfftStep<T>(F: Field<T>, l: nat, v: seq<T>, tw: seq<T>, idx: nat)
    requires |v| == Pow2(l)
    ensures l == 0 ==> Ifft(F, l, v, tw, idx) == v
    ensures l > 0 ==>
      var h := Pow2(l - 1);
      var lo, hi := Ifft(F, l - 1, v[..h], tw, 2 * idx), Ifft(F, l - 1, v[h..], tw, 2 * idx + 1);
      var b := Unbutterfly(F, lo, hi, tw, idx);
      Ifft(F, l, v, tw, idx) == b.0 + b.1
  {
  }

  lemma Pow2One(l: nat)
    ensures Pow2(l) == 1 <==> l == 0
    ensures l > 0 ==> Pow2(l) / 2 == Pow2(l - 1) && Pow2(l) == 2 * Pow2(l - 1)
  {
  }

  /** `fft`: the length must be a power of two. */
  method FftInPlace<T(!new)>(F: Field<T>, a: array<T>, tw: seq<T>, ghost l: nat)
    requires a.Length == Pow2(l)
    modifies a
    ensures a[..] == Fft(F, l, old(a[..]), tw, 1)
  {
    Pow2One(l);
    if a.Length == 1 {
      return;
    }
    assert a[..][0..a.Length] == a[..];
    FftRecursive(F, a, 0, a.Length, tw, 1, l);
    assert a[..][0..a.Length] == a[..];
  }

  /** `ifft` on the prefix of `len` entries; the length must be a power of two. */
  method IfftInPlace<T(!new)>(F: Field<T>, a: array<T>, len: nat, tw: seq<T>, ghost l: nat)
    requires len == Pow2(l) && len <= a.Length
    modifies a
    ensures a[..] == Ifft(F, l, old(a[..])[..len], tw, 1) + old(a[..])[len..]
  {
    Pow2One(l);
    ghost var s := a[..];
    if len == 1 {
      assert s == s[..1] + s[1..];
      return;
    }
    assert s[0..len] == s[..len];
    IfftRecursive(F, a, 0, len, tw, 1, l);
    assert a[..] == a[..][0..len] + s[len..];
  }
}
