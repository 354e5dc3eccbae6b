/** `compute_twiddles` and `short_from_long_twiddles`: the heap-ordered twiddle table. */
module Twiddles {
  import opened Fields
  import opened Powers
  import opened SubspacePolynomials
  import opened NovelBasis

  /** Entry `i` of depth `d` of a heap-ordered table. */
  function Entry<T>(tw: seq<T>, d: nat, i: nat): T
    requires i < Pow2(d) && Pow2(d + 1) <= |tw| + 1
  {
    tw[Pow2(d) - 1 + i]
  }

  /** s_l at the first point of the i-th coset of span(v_0..v_l), shifted by beta. */
  function Leaf<T>(F: Field<T>, g: T, l: nat, beta: T, i: nat): T {
    S(F, g, l, F.Add(beta, Point(F, g, Pow2(l + 1) * i)))
  }

  /** The twiddle of layer `l`: normalised, or zero once some s_k(v_k) with k <= l has vanished. */
  ghost function Twiddle<T>(F: Field<T>, g: T, l: nat, beta: T, i: nat): T {
    if Regular(F, g, l + 1) then F.Mul(F.Inv(SRoot(F, g, l)), Leaf(F, g, l, beta, i)) else F.zero
  }

  /** The layers below `upto` are filled in: layer l is depth n - 1 - l of the heap. The rest is zero. */
  ghost predicate Filled<T>(F: Field<T>, g: T, n: nat, beta: T, tw: seq<T>, upto: nat)
    requires |tw| == Pow2(n) - 1 && upto <= n
  {
    && (forall d, i :: n - upto <= d < n && 0 <= i < Pow2(d) && Fits(n, d) ==> Entry(tw, d, i) == Twiddle(F, g, n - 1 - d, beta, i))
    && (forall p :: 0 <= p < Pow2(n - upto) - 1 && p < |tw| ==> tw[p] == F.zero)
  }

  predicate Fits(n: nat, d: nat) {
    Pow2(d + 1) <= Pow2(n)
  }

  /** The whole table of `compute_twiddles(n, beta)`. */
  ghost predicate IsTable<T>(F: Field<T>, g: T, n: nat, beta: T, tw: seq<T>) {
    && |tw| == Pow2(n) - 1
    && Filled(F, g, n, beta, tw, n)
  }

  lemma LeafStep<T(!new)>(F: Field<T>, g: T, l: nat, beta: T, i: nat)
    ensures Leaf(F, g, l + 1, beta, i) == NextS(F, Leaf(F, g, l, beta, 2 * i), SRoot(F, g, l))
  {
    hide Point;
    Pow2Step(l + 1);
    assert Pow2(l + 1) * (2 * i) == Pow2(l + 2) * i;
  }

  /** The sum of the first two leaves is s_l(v_{l+1}), from which `compute_twiddles` gets s_{l+1}(v_{l+1}). */
  lemma LeafRoot<T(!new)>(F: Field<T>, g: T, l: nat, beta: T)
    requires IsBinary(F)
    ensures NextS(F, F.Add(Leaf(F, g, l, beta, 1), Leaf(F, g, l, beta, 0)), SRoot(F, g, l)) == SRoot(F, g, l + 1)
  {
    var v := Point(F, g, Pow2(l + 1));
    LeafAt(F, g, l, beta);
    Uncover(F, S(F, g, l, beta), S(F, g, l, v));
  }

  lemma LeafAt<T(!new)>(F: Field<T>, g: T, l: nat, beta: T)
    requires IsBinary(F)
    ensures Leaf(F, g, l, beta, 0) == S(F, g, l, beta)
    ensures Leaf(F, g, l, beta, 1) == F.Add(S(F, g, l, beta), S(F, g, l, Point(F, g, Pow2(l + 1))))
  {
    hide Point, S;
    PointZero(F, g);
    SAdd(F, g, l, beta, Point(F, g, Pow2(l + 1)));
  }

  /** The first `len` entries of `w` are next_s of the even entries of `v`. */
  ghost predicate Advanced<T>(F: Field<T>, v: seq<T>, w: seq<T>, len: nat, sPrevAtRoot: T) {
    && 2 * len <= |v| == |w|
    && forall i :: 0 <= i < len ==> w[i] == NextS(F, v[2 * i], sPrevAtRoot)
  }

  /** `tw'` is `tw` with `row` written at `start`. */
  ghost predicate Written<T>(tw: seq<T>, tw': seq<T>, start: nat, row: seq<T>) {
    && start + |row| <= |tw| == |tw'|
    && forall p :: 0 <= p < |tw| ==> tw'[p] == (if start <= p < start + |row| then row[p - start] else tw[p])
  }

  function Scaled<T>(F: Field<T>, c: T, v: seq<T>): (r: seq<T>)
    ensures |r| == |v|
  {
    seq(|v|, i requires 0 <= i < |v| => F.Mul(c, v[i]))
  }

  /** In-place update of the layer buffer: entry idx becomes next_s of entry 2 idx. */
  method AdvanceLayer<T(!new)>(F: Field<T>, layer: array<T>, len: nat, sPrevAtRoot: T)
    requires 2 * len <= layer.Length
    modifies layer
    ensures Advanced(F, old(layer[..]), layer[..], len, sPrevAtRoot)
  {
    ghost var v := layer[..];
    for idx := 0 to len
      invariant forall i :: 0 <= i < idx ==> layer[i] == NextS(F, v[2 * i], sPrevAtRoot)
      invariant forall j :: idx <= j < layer.Length ==> layer[j] == v[j]
    {
      if idx * 2 < layer.Length {
        var sPrev := layer[idx * 2];
        layer[idx] := NextS(F, sPrev, sPrevAtRoot);
      }
    }
  }

  /** Normalise the first `len` entries of the layer into the table from `start` on. */
  method StoreLayer<T(!new)>(F: Field<T>, tw: array<T>, layer: array<T>, start: nat, len: nat, sInv: T)
    requires tw != layer && start + len <= tw.Length && len <= layer.Length
    modifies tw
    ensures Written(old(tw[..]), tw[..], start, Scaled(F, sInv, layer[..len]))
  {
    for i := 0 to len
      invariant forall p :: 0 <= p < tw.Length ==>
        tw[p] == (if start <= p < start + i then F.Mul(sInv, layer[p - start]) else old(tw[p]))
    {
      if start + i < tw.Length && i < layer.Length {
        tw[start + i] := F.Mul(sInv, layer[i]);
      }
    }
  }

  /** Storing layer `l` extends the filled part of the table by one layer. */
  lemma FilledStep<T(!new)>(F: Field<T>, g: T, n: nat, beta: T, tw: seq<T>, tw': seq<T>, l: nat, row: seq<T>)
    requires |tw| == |tw'| == Pow2(n) - 1 && l < n
    requires Filled(F, g, n, beta, tw, l)
    requires |row| == Pow2(n - 1 - l)
    requires forall i :: 0 <= i < |row| ==> row[i] == Twiddle(F, g, l, beta, i)
    requires Written(tw, tw', |row| - 1, row)
    ensures Filled(F, g, n, beta, tw', l + 1)
  {
    hide Pow2, Twiddle;
    var w := |row|;
    Pow2Step(n - 1 - l);
    forall d, i | n - l - 1 <= d < n && 0 <= i < Pow2(d) && Fits(n, d)
      ensures Entry(tw', d, i) == Twiddle(F, g, n - 1 - d, beta, i)
    {
      Pow2Step(d);
      Pow2Mono(d + 1, n);
      if d == n - 1 - l {
        assert tw'[w - 1 + i] == row[i];
      } else {
        Pow2Mono(n - l, d);
        assert Entry(tw, d, i) == Twiddle(F, g, n - 1 - d, beta, i);
      }
    }
    assert Pow2(n - (l + 1)) == w && Pow2(n - l) == 2 * w;
  }

  /** Once some s_l(v_l) is zero, the zeros left in the table are what every later layer should hold. */
  lemma FilledRest<T(!new)>(F: Field<T>, g: T, n: nat, beta: T, tw: seq<T>, l: nat)
    requires |tw| == Pow2(n) - 1 && l <= n
    requires Filled(F, g, n, beta, tw, l)
    requires l < n ==> SRoot(F, g, l) == F.zero
    ensures Filled(F, g, n, beta, tw, n)
  {
    hide Pow2, SRoot, Leaf;
    Pow2Step(0);
    forall d, i | 0 <= d < n && 0 <= i < Pow2(d) && Fits(n, d)
      ensures Entry(tw, d, i) == Twiddle(F, g, n - 1 - d, beta, i)
    {
      Pow2Step(d);
      Pow2Mono(d + 1, n);
      if d < n - l {
        Pow2Mono(d + 1, n - l);
        assert tw[Pow2(d) - 1 + i] == F.zero;
      }
    }
    assert Pow2(n - n) == 1;
  }

  /** The loop state of `compute_twiddles` after layer `l`. */
  ghost predicate Stage<T>(F: Field<T>, g: T, n: nat, beta: T, layer: seq<T>, tw: seq<T>, l: nat, s: T) {
    && l < n && |tw| == Pow2(n) - 1 && |layer| == Pow2(n - 1) && Pow2(n - 1 - l) <= |layer|
    && (forall j :: 0 <= j < Pow2(n - 1 - l) ==> layer[j] == Leaf(F, g, l, beta, j))
    && s == SRoot(F, g, l) && Regular(F, g, l + 1)
    && Filled(F, g, n, beta, tw, l + 1)
  }

  lemma FirstStage<T(!new)>(F: Field<T>, g: T, n: nat, beta: T, layer: seq<T>, tw: seq<T>, tw': seq<T>)
    requires IsField(F) && n > 0 && |layer| == Pow2(n - 1) && |tw| == Pow2(n) - 1
    requires forall p :: 0 <= p < |tw| ==> tw[p] == F.zero
    requires forall j :: 0 <= j < |layer| ==> layer[j] == Leaf(F, g, 0, beta, j)
    requires Written(tw, tw', |layer| - 1, layer)
    ensures Stage(F, g, n, beta, layer, tw', 0, F.one)
  {
    hide Leaf, Point, Pow2, Filled, Twiddle, SRoot;
    FilledNone(F, g, n, beta, tw);
    FirstRoot(F, g);
    FirstTwiddles(F, g, beta, layer);
    FilledStep(F, g, n, beta, tw, tw', 0, layer);
  }

  lemma StageRoot<T(!new)>(F: Field<T>, g: T, n: nat, beta: T, layer: seq<T>, tw: seq<T>, l: nat, s: T)
    requires IsBinary(F) && l + 1 < n && Stage(F, g, n, beta, layer, tw, l, s)
    ensures |layer| >= 2 && NextS(F, F.Add(layer[1], layer[0]), s) == SRoot(F, g, l + 1)
  {
    hide Leaf, Point, Filled, SRoot, NextS;
    LeafRoot(F, g, l, beta);
    Pow2Step(n - 2 - l);
  }

  lemma NextStage<T(!new)>(
    F: Field<T>, g: T, n: nat, beta: T, layer: seq<T>, layer': seq<T>, tw: seq<T>, tw': seq<T>, l: nat, s: T, w: nat)
    requires IsBinary(F) && l + 1 < n && Stage(F, g, n, beta, layer, tw, l, s)
    requires w == Pow2(n - 2 - l) && Advanced(F, layer, layer', w, s)
    requires SRoot(F, g, l + 1) != F.zero
    requires Written(tw, tw', w - 1, Scaled(F, F.Inv(SRoot(F, g, l + 1)), layer'[..w]))
    ensures Stage(F, g, n, beta, layer', tw', l + 1, SRoot(F, g, l + 1))
  {
    hide Leaf, Point, Pow2, Filled, Twiddle, SRoot, NextS;
    Pow2Step(n - 2 - l);
    forall j | 0 <= j < w ensures layer'[j] == Leaf(F, g, l + 1, beta, j) {
      LeafStep(F, g, l, beta, j);
    }
    var row := Scaled(F, F.Inv(SRoot(F, g, l + 1)), layer'[..w]);
    NextTwiddles(F, g, l + 1, beta, layer'[..w], row);
    FilledStep(F, g, n, beta, tw, tw', l + 1, row);
  }

  lemma LastStage<T(!new)>(F: Field<T>, g: T, n: nat, beta: T, layer: seq<T>, tw: seq<T>, l: nat, s: T)
    requires Stage(F, g, n, beta, layer, tw, l, s)
    requires l + 1 < n ==> SRoot(F, g, l + 1) == F.zero
    ensures IsTable(F, g, n, beta, tw)
  {
    hide Leaf, Point, Pow2, Filled, SRoot;
    FilledRest(F, g, n, beta, tw, l + 1);
  }

  /** Layer 0: beta + from_bits(2 i). */
  method InitialLayer<T(!new)>(F: Field<T>, g: T, len: nat, beta: T) returns (layer: array<T>)
    requires IsField(F) && 2 * len <= Pow2(64)
    ensures fresh(layer) && layer.Length == len
    ensures forall j :: 0 <= j < len ==> layer[..][j] == Leaf(F, g, 0, beta, j)
  {
    hide *;
    layer := new T[len](_ => F.zero);
    for i := 0 to len
      invariant forall j :: 0 <= j < i ==> layer[j] == Leaf(F, g, 0, beta, j)
    {
      var bits := FromBits(F, g, 2 * i);
      layer[i] := F.Add(beta, bits);
      FirstLeaf(F, g, beta, i);
    }
  }

  /** `compute_twiddles`: one reused layer buffer and a table filled from its last row upwards. */
  method ComputeTwiddles<T(!new, ==)>(F: Field<T>, g: T, logN: nat, beta: T) returns (tw: array<T>)
    requires IsBinary(F) && logN < 64
    ensures fresh(tw) && IsTable(F, g, logN, beta, tw[..])
  {
    hide *;
    BinaryIsField(F);
    Pow2Step(0);
    if logN == 0 {
      tw := new T[0];
      EmptyTable(F, g, beta);
      assert tw[..] == [];
      return;
    }
    var n := Pow2(logN);
    Pow2Step(logN - 1);
    tw := new T[n - 1](_ => F.zero);
    Pow2Mono(logN, 64);
    var layer := InitialLayer(F, g, n / 2, beta);
    var writeAt := n / 2;
    ghost var tw0 := tw[..];
    CopyLayer(tw, layer, writeAt - 1, writeAt);
    assert layer[..writeAt] == layer[..];
    FirstStage(F, g, logN, beta, layer[..], tw0, tw[..]);
    var sPrevAtRoot := F.one;
    var layerNum := 1;
    while layerNum < logN
      invariant 1 <= layerNum <= logN && writeAt == Pow2(logN - layerNum)
      invariant Stage(F, g, logN, beta, layer[..], tw[..], layerNum - 1, sPrevAtRoot)
    {
      writeAt := writeAt / 2;
      Pow2Step(logN - layerNum - 1);
      StageRoot(F, g, logN, beta, layer[..], tw[..], layerNum - 1, sPrevAtRoot);
      var sAtRoot := F.zero;
      if layer.Length >= 2 {
        sAtRoot := NextS(F, F.Add(layer[1], layer[0]), sPrevAtRoot);
      }
      if sAtRoot == F.zero {
        break;
      }
      NextLevel(F, g, logN, beta, tw, layer, writeAt, layerNum - 1, sPrevAtRoot, sAtRoot);
      sPrevAtRoot := sAtRoot;
      layerNum := layerNum + 1;
    }
    LastStage(F, g, logN, beta, layer[..], tw[..], layerNum - 1, sPrevAtRoot);
  }

  /** The rest of the loop body: the layer is advanced in place and its normalised row stored. */
  method NextLevel<T(!new)>(
    F: Field<T>, g: T, ghost n: nat, ghost beta: T, tw: array<T>, layer: array<T>, writeAt: nat, ghost l: nat, s: T, sAtRoot: T)
    requires IsBinary(F) && tw != layer && l + 1 < n && writeAt == Pow2(n - 2 - l)
    requires Stage(F, g, n, beta, layer[..], tw[..], l, s) && sAtRoot == SRoot(F, g, l + 1) != F.zero
    modifies tw, layer
    ensures Stage(F, g, n, beta, layer[..], tw[..], l + 1, sAtRoot)
  {
    hide *;
    ghost var layer0, tw0 := layer[..], tw[..];
    StageSizes(F, g, n, beta, layer0, tw0, l, s);
    AdvanceLayer(F, layer, writeAt, s);
    StoreLayer(F, tw, layer, writeAt - 1, writeAt, F.Inv(sAtRoot));
    NextStage(F, g, n, beta, layer0, layer[..], tw0, tw[..], l, s, writeAt);
  }

  lemma StageSizes<T>(F: Field<T>, g: T, n: nat, beta: T, layer: seq<T>, tw: seq<T>, l: nat, s: T)
    requires l + 1 < n && Stage(F, g, n, beta, layer, tw, l, s)
    ensures 2 * Pow2(n - 2 - l) <= |layer| && 2 * Pow2(n - 2 - l) - 1 <= |tw|
  {
    hide Leaf, Point, Pow2, Filled, SRoot;
    Pow2Step(n - 2 - l);
    Pow2Mono(n - 1 - l, n);
  }

  lemma EmptyTable<T>(F: Field<T>, g: T, beta: T)
    ensures IsTable(F, g, 0, beta, [])
  {
  }

  /** `copy_from_slice` of the first layer. */
  method CopyLayer<T>(tw: array<T>, layer: array<T>, start: nat, len: nat)
    requires tw != layer && start + len <= tw.Length && len <= layer.Length
    modifies tw
    ensures Written(old(tw[..]), tw[..], start, layer[..len])
  {
    for i := 0 to len
      invariant forall p :: 0 <= p < tw.Length ==> tw[p] == (if start <= p < start + i then layer[p - start] else old(tw[p]))
    {
      tw[start + i] := layer[i];
    }
  }

  lemma FilledNone<T>(F: Field<T>, g: T, n: nat, beta: T, tw: seq<T>)
    requires |tw| == Pow2(n) - 1
    requires forall p :: 0 <= p < |tw| ==> tw[p] == F.zero
    ensures Filled(F, g, n, beta, tw, 0)
  {
  }

  lemma FirstLeaf<T>(F: Field<T>, g: T, beta: T, i: nat)
    ensures Leaf(F, g, 0, beta, i) == F.Add(beta, Point(F, g, 2 * i))
  {
    Pow2Step(0);
  }

  lemma FirstRoot<T(!new)>(F: Field<T>, g: T)
    requires IsField(F)
    ensures SRoot(F, g, 0) == F.one && Regular(F, g, 1)
  {
    PointCons(F, g, 0, 1);
    MulZero(F, g);
  }

  lemma FirstTwiddles<T(!new)>(F: Field<T>, g: T, beta: T, row: seq<T>)
    requires IsField(F) && SRoot(F, g, 0) == F.one && Regular(F, g, 1)
    requires forall i :: 0 <= i < |row| ==> row[i] == Leaf(F, g, 0, beta, i)
    ensures forall i :: 0 <= i < |row| ==> row[i] == Twiddle(F, g, 0, beta, i)
  {
    hide Leaf, SRoot, Regular;
    assert F.Mul(F.one, F.Inv(F.one)) == F.one;
    assert F.Inv(F.one) == F.one;
  }

  lemma NextTwiddles<T(!new)>(F: Field<T>, g: T, l: nat, beta: T, leaves: seq<T>, row: seq<T>)
    requires Regular(F, g, l) && SRoot(F, g, l) != F.zero && |leaves| == |row|
    requires forall i :: 0 <= i < |row| ==> leaves[i] == Leaf(F, g, l, beta, i)
    requires forall i :: 0 <= i < |row| ==> row[i] == F.Mul(F.Inv(SRoot(F, g, l)), leaves[i])
    ensures forall i :: 0 <= i < |row| ==> row[i] == Twiddle(F, g, l, beta, i)
    ensures Regular(F, g, l + 1)
  {
    hide Leaf, SRoot;
  }

  /** A regular table is the twiddle tree of every coset: heap position 2^d + i covers beta + point(2^l i). */
  lemma {:induction false} TableIsTree<T(!new)>(F: Field<T>, g: T, n: nat, beta: T, tw: seq<T>, l: nat, i: nat)
    requires IsBinary(F) && IsTable(F, g, n, beta, tw) && Regular(F, g, n)
    requires l <= n && i < Pow2(n - l)
    ensures TwiddleTree(F, g, l, F.Add(beta, Point(F, g, Pow2(l) * i)), tw, Pow2(n - l) + i)
    decreases l
  {
    hide *;
    BinaryIsField(F);
    var base, idx := F.Add(beta, Point(F, g, Pow2(l) * i)), Pow2(n - l) + i;
    if l == 0 {
      TreeLeaf(F, g, base, tw, idx);
    } else {
      var d := n - l;
      var root := Point(F, g, Pow2(l - 1));
      Pow2Step(d);
      Pow2Step(l - 1);
      Pow2Mono(d + 1, n);
      assert Pow2(d + 1) <= |tw| + 1 && Entry(tw, d, i) == NormS(F, g, l - 1, base) by {
        TableEntry(F, g, n, beta, tw, d, i);
      }
      EntryAt(tw, d, i);
      Doubled(Pow2(l - 1), i);
      TableIsTree(F, g, n, beta, tw, l - 1, 2 * i);
      PointSplit(F, g, l, i, Pow2(l - 1));
      PointSplit(F, g, l, i, 0);
      PointZero(F, g);
      AddZero(F, F.Mul(Pow(F, g, l), Point(F, g, i)));
      AddAssoc(F, beta, Point(F, g, Pow2(l) * i), root);
      TableIsTree(F, g, n, beta, tw, l - 1, 2 * i + 1);
      TreeNode(F, g, l, base, tw, idx);
    }
  }

  lemma Doubled(p: nat, i: nat)
    ensures p * (2 * i) == (p + p) * i && p * (2 * i + 1) == (p + p) * i + p
  {
  }

  lemma TreeLeaf<T>(F: Field<T>, g: T, base: T, tw: seq<T>, idx: nat)
    ensures TwiddleTree(F, g, 0, base, tw, idx)
  {
  }

  lemma TreeNode<T>(F: Field<T>, g: T, l: nat, base: T, tw: seq<T>, idx: nat)
    requires l > 0 && 0 < idx <= |tw| && tw[idx - 1] == NormS(F, g, l - 1, base)
    requires TwiddleTree(F, g, l - 1, base, tw, 2 * idx)
    requires TwiddleTree(F, g, l - 1, F.Add(base, Point(F, g, Pow2(l - 1))), tw, 2 * idx + 1)
    ensures TwiddleTree(F, g, l, base, tw, idx)
  {
  }

  lemma EntryAt<T>(tw: seq<T>, d: nat, i: nat)
    requires i < Pow2(d) && Pow2(d + 1) <= |tw| + 1
    ensures 0 < Pow2(d) + i <= |tw| && Entry(tw, d, i) == tw[Pow2(d) + i - 1]
  {
    Pow2Step(d);
  }

  lemma TableEntry<T(!new)>(F: Field<T>, g: T, n: nat, beta: T, tw: seq<T>, d: nat, i: nat)
    requires IsTable(F, g, n, beta, tw) && d < n && i < Pow2(d) && Pow2(d + 1) <= Pow2(n)
    requires Regular(F, g, n)
    ensures |tw| == Pow2(n) - 1
    ensures Entry(tw, d, i) == NormS(F, g, n - 1 - d, F.Add(beta, Point(F, g, Pow2(n - d) * i)))
  {
    hide S, SRoot, Point;
    assert Fits(n, d);
    assert Regular(F, g, n - d);
  }

  /** Depth d of the short table is the start of depth d + (n - k) of the long one, for d < upto. */
  ghost predicate Shortened<T>(long: seq<T>, short: seq<T>, n: nat, k: nat, upto: nat)
    requires k <= n
  {
    && |long| == Pow2(n) - 1 && |short| == Pow2(k) - 1
    && forall d, j :: 0 <= d < upto && d < k && 0 <= j < Pow2(d) && Fits(k, d) && Fits(n, d + (n - k)) && Pow2(d) <= Pow2(d + (n - k)) ==>
         Entry(short, d, j) == Entry(long, d + (n - k), j)
  }

  /** `short_from_long_twiddles` */
  method ShortFromLong<T(!new)>(F: Field<T>, long: seq<T>, logN: nat, logK: nat) returns (short: array<T>)
    requires logK <= logN && |long| == Pow2(logN) - 1
    ensures fresh(short) && Shortened(long, short[..], logN, logK, logK)
  {
    hide *;
    var k := Pow2(logK);
    short := new T[k - 1](_ => F.zero);
    var jump := Pow2(logN - logK);
    ShortNone(long, short[..], logN, logK);
    Pow2Step(0);
    if logK > 0 {
      ShortSizes(logN, logK, 0);
    }
    if jump > 0 && jump <= |long| {
      short[0] := long[jump - 1];
      ShortFirst(long, short[..], logN, logK);
    }
    var idx := 1;
    var i := 1;
    while i < logK
      invariant logK == 0 || 1 <= i <= logK
      invariant idx == Pow2(i) - 1 && jump == Pow2(logN - logK + i - 1)
      invariant Shortened(long, short[..], logN, logK, if logK == 0 then 0 else i)
    {
      Pow2Step(logN - logK + i - 1);
      Pow2Step(i);
      jump := jump * 2;
      var take := Pow2(i);
      ShortSizes(logN, logK, i);
      ghost var before := short[..];
      CopyRow(short, long, idx, jump - 1, take);
      ShortStep(long, before, short[..], logN, logK, i);
      idx := idx + take;
      i := i + 1;
    }
  }

  /** The guarded inner copy of `short_from_long_twiddles`. */
  method CopyRow<T>(short: array<T>, long: seq<T>, idx: nat, from: nat, take: nat)
    requires idx + take <= short.Length && from + take <= |long|
    modifies short
    ensures Written(old(short[..]), short[..], idx, long[from..from + take])
  {
    for j := 0 to take
      invariant forall p :: 0 <= p < short.Length ==>
        short[p] == (if idx <= p < idx + j then long[from + (p - idx)] else old(short[p]))
    {
      if from + j < |long| && idx + j < short.Length {
        short[idx + j] := long[from + j];
      }
    }
  }

  lemma ShortSizes(n: nat, k: nat, i: nat)
    requires i < k <= n
    ensures Pow2(i + 1) <= Pow2(k) && Pow2(i + 1) == Pow2(i) + Pow2(i)
    ensures Pow2(n - k + i) + Pow2(i) <= Pow2(n)
  {
    Pow2Step(i);
    Pow2Step(n - k + i);
    Pow2Mono(i, n - k + i);
    Pow2Mono(i + 1, k);
    Pow2Mono(n - k + i + 1, n);
  }

  lemma ShortNone<T>(long: seq<T>, short: seq<T>, n: nat, k: nat)
    requires k <= n && |long| == Pow2(n) - 1 && |short| == Pow2(k) - 1
    ensures Shortened(long, short, n, k, 0) && Pow2(0) == 1
    ensures k == 0 ==> Pow2(n - k) > |long|
  {
  }

  lemma ShortFirst<T>(long: seq<T>, short: seq<T>, n: nat, k: nat)
    requires 0 < k <= n && |long| == Pow2(n) - 1 && |short| == Pow2(k) - 1 > 0
    requires Pow2(n - k) <= |long| && short[0] == long[Pow2(n - k) - 1]
    ensures Shortened(long, short, n, k, 1)
  {
    forall d, j | 0 <= d < 1 && 0 <= j < Pow2(d) && Fits(k, d) && Fits(n, d + (n - k)) && Pow2(d) <= Pow2(d + (n - k))
      ensures Entry(short, d, j) == Entry(long, d + (n - k), j)
    {
      assert d == 0 && j == 0;
    }
  }

  lemma ShortStep<T>(long: seq<T>, short: seq<T>, short': seq<T>, n: nat, k: nat, i: nat)
    requires i < k <= n && Shortened(long, short, n, k, i)
    requires Pow2(n - k + i) - 1 + Pow2(i) <= |long|
    requires Written(short, short', Pow2(i) - 1, long[Pow2(n - k + i) - 1..Pow2(n - k + i) - 1 + Pow2(i)])
    ensures Shortened(long, short', n, k, i + 1)
  {
    hide Pow2;
    forall d, j | 0 <= d < i + 1 && d < k && 0 <= j < Pow2(d) && Fits(k, d) && Fits(n, d + (n - k)) && Pow2(d) <= Pow2(d + (n - k))
      ensures Entry(short', d, j) == Entry(long, d + (n - k), j)
    {
      Pow2Step(d);
      if d < i {
        Pow2Mono(d + 1, i);
        assert Entry(short, d, j) == Entry(long, d + (n - k), j);
      }
    }
  }

  lemma {:induction false} HeapRow(p: nat) returns (d: nat)
    ensures Pow2(d) - 1 <= p < Pow2(d + 1) - 1
  {
    if p == 0 {
      d := 0;
    } else {
      d := HeapRow(p - 1);
      if p == Pow2(d + 1) - 1 {
        d := d + 1;
      }
    }
  }

  /** The table is determined by its parameters. */
  lemma TableUnique<T(!new)>(F: Field<T>, g: T, n: nat, beta: T, tw: seq<T>, tw': seq<T>)
    requires IsTable(F, g, n, beta, tw) && IsTable(F, g, n, beta, tw')
    ensures tw == tw'
  {
    hide Pow2, Twiddle;
    forall p | 0 <= p < |tw| ensures tw[p] == tw'[p] {
      var d := HeapRow(p);
      if d >= n {
        Pow2Mono(n, d);
      }
      Pow2Mono(d + 1, n);
      Pow2Step(d);
      assert Fits(n, d);
      assert Entry(tw, d, p - (Pow2(d) - 1)) == Entry(tw', d, p - (Pow2(d) - 1));
    }
  }

  /** Shortening the table of 2^n points gives the table of 2^k points, for the same beta. */
  lemma ShortTable<T(!new)>(F: Field<T>, g: T, n: nat, beta: T, long: seq<T>, k: nat, short: seq<T>)
    requires k <= n && IsTable(F, g, n, beta, long) && Shortened(long, short, n, k, k)
    ensures IsTable(F, g, k, beta, short)
  {
    hide Pow2, Twiddle;
    forall d, i | 0 <= d < k && 0 <= i < Pow2(d) && Fits(k, d)
      ensures Entry(short, d, i) == Twiddle(F, g, k - 1 - d, beta, i)
    {
      Pow2Mono(d, d + (n - k));
      Pow2Mono(d + (n - k) + 1, n);
      assert Entry(long, d + (n - k), i) == Twiddle(F, g, n - 1 - (d + (n - k)), beta, i);
    }
    Pow2Step(0);
    assert Pow2(k - k) == 1;
  }
}
