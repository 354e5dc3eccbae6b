/** The encoder of `reed-solomon/src/encode.rs` and its parameters from `reed-solomon/src/lib.rs`. */
module ReedSolomon {
  import opened Fields
  import opened Powers
  import opened Polynomials
  import opened SubspacePolynomials
  import opened AdditiveFft
  import opened NovelBasis
  import opened Twiddles

  // ----- subtrees of the table -----

  /** The subtree of `a` at heap position i equals the subtree of `b` at heap position j, to depth l. */
  ghost predicate SameTree<T>(a: seq<T>, b: seq<T>, l: nat, i: nat, j: nat) {
    l == 0 || (
      && 0 < i <= |a| && 0 < j <= |b| && a[i - 1] == b[j - 1]
      && SameTree(a, b, l - 1, 2 * i, 2 * j)
      && SameTree(a, b, l - 1, 2 * i + 1, 2 * j + 1))
  }

  lemma {:induction false} SameIfft<T>(F: Field<T>, a: seq<T>, b: seq<T>, l: nat, v: seq<T>, i: nat, j: nat)
    requires |v| == Pow2(l) && SameTree(a, b, l, i, j)
    ensures Ifft(F, l, v, a, i) == Ifft(F, l, v, b, j)
    decreases l
  {
    if l != 0 {
      var h := Pow2(l - 1);
      SameIfft(F, a, b, l - 1, v[..h], 2 * i, 2 * j);
      SameIfft(F, a, b, l - 1, v[h..], 2 * i + 1, 2 * j + 1);
    }
  }

  /** A short table is a subtree of the long one: position 2^d + j sits at 2^(d+n-k) + j. */
  lemma {:induction false} ShortIsSubtree<T>(long: seq<T>, short: seq<T>, n: nat, k: nat, d: nat, j: nat)
    requires d <= k <= n && Shortened(long, short, n, k, k) && j < Pow2(d)
    ensures SameTree(short, long, k - d, Pow2(d) + j, Pow2(d + (n - k)) + j)
    decreases k - d
  {
    hide Pow2;
    if d < k {
      var e := d + (n - k);
      Pow2Step(d);
      Pow2Step(e);
      Pow2Mono(d, e);
      Pow2Mono(d + 1, k);
      Pow2Mono(e + 1, n);
      EntryAt(short, d, j);
      EntryAt(long, e, j);
      ShortIsSubtree(long, short, n, k, d + 1, 2 * j);
      ShortIsSubtree(long, short, n, k, d + 1, 2 * j + 1);
    }
  }

  // ----- encoding -----

  /** What `encode_in_place` leaves in a slice of 2^l values, with the table for 2^n: the first 2^k values are turned into
      coefficients, then all are evaluated. A codeword of the code has l = n. */
  function Codeword<T>(F: Field<T>, tw: seq<T>, n: nat, k: nat, l: nat, data: seq<T>): (r: seq<T>)
    requires k <= n && |data| == Pow2(l) && Pow2(k) <= Pow2(l)
    ensures |r| == |data|
  {
    Fft(F, l, Ifft(F, k, data[..Pow2(k)], tw, Pow2(n - k)) + data[Pow2(k)..], tw, 1)
  }

  /** `encode_in_place` */
  method EncodeInPlace<T(!new)>(F: Field<T>, tw: seq<T>, logBlock: nat, logMessage: nat, data: array<T>, logData: nat)
    requires logMessage <= logBlock && |tw| == Pow2(logBlock) - 1
    requires data.Length == Pow2(logData) && Pow2(logMessage) <= Pow2(logData)
    modifies data
    ensures data[..] == Codeword(F, tw, logBlock, logMessage, logData, old(data[..]))
  {
    hide *;
    var messageLen := Pow2(logMessage);
    var short := ShortFromLong(F, tw, logBlock, logMessage);
    ghost var v := data[..];
    ShortIsSubtree(tw, short[..], logBlock, logMessage, 0, 0);
    Pow2Step(0);
    SameIfft(F, short[..], tw, logMessage, v[..messageLen], 1, Pow2(logBlock - logMessage));
    IfftInPlace(F, data, messageLen, short[..], logMessage);
    FftInPlace(F, data, tw, logData);
    CodewordDef(F, tw, logBlock, logMessage, logData, v);
  }

  lemma CodewordDef<T>(F: Field<T>, tw: seq<T>, n: nat, k: nat, l: nat, data: seq<T>)
    requires k <= n && |data| == Pow2(l) && Pow2(k) <= Pow2(l)
    ensures Codeword(F, tw, n, k, l, data) ==
      Fft(F, l, Ifft(F, k, data[..Pow2(k)], tw, Pow2(n - k)) + data[Pow2(k)..], tw, 1)
  {
  }

  /** With beta = 0 every twiddle on the leftmost path is zero. */
  lemma LeftmostTwiddle<T(!new)>(F: Field<T>, g: T, n: nat, tw: seq<T>, d: nat)
    requires IsBinary(F) && IsTable(F, g, n, F.zero, tw) && d < n
    ensures 0 < Pow2(d) <= |tw| && tw[Pow2(d) - 1] == F.zero
  {
    Pow2Step(d);
    Pow2Mono(d + 1, n);
    assert Entry(tw, d, 0) == Twiddle(F, g, n - 1 - d, F.zero, 0) by {
      assert Fits(n, d);
    }
    LeftmostZero(F, g, n - 1 - d);
  }

  lemma LeftmostZero<T(!new)>(F: Field<T>, g: T, l: nat)
    requires IsBinary(F)
    ensures Twiddle(F, g, l, F.zero, 0) == F.zero
  {
    hide S, Point, SRoot;
    PointZero(F, g);
    SVanish(F, g, l, 0);
    MulZero(F, F.Inv(SRoot(F, g, l)));
  }

  /** Along the leftmost path the lower half is never mixed, so a prefix is transformed on its own. */
  lemma {:induction false} FftPrefix<T(!new)>(F: Field<T>, g: T, n: nat, tw: seq<T>, l: nat, k: nat, v: seq<T>)
    requires IsBinary(F) && IsTable(F, g, n, F.zero, tw)
    requires k <= l <= n && |v| == Pow2(l) && Pow2(k) <= Pow2(l)
    ensures Fft(F, l, v, tw, Pow2(n - l))[..Pow2(k)] == Fft(F, k, v[..Pow2(k)], tw, Pow2(n - k))
    decreases l
  {
    hide *;
    var r := Fft(F, l, v, tw, Pow2(n - l));
    if k == l {
      assert v[..Pow2(k)] == v && r[..Pow2(k)] == r;
    } else {
      var h, idx := Pow2(l - 1), Pow2(n - l);
      Pow2Step(l - 1);
      Pow2Step(n - l);
      Pow2Mono(k, l - 1);
      LeftmostTwiddle(F, g, n, tw, n - l);
      UnmixedHalf(F, v[..h], v[h..], tw, idx);
      FftStep(F, l, v, tw, idx);
      FftPrefix(F, g, n, tw, l - 1, k, v[..h]);
      assert v[..h][..Pow2(k)] == v[..Pow2(k)];
    }
  }

  lemma UnmixedHalf<T(!new)>(F: Field<T>, u: seq<T>, w: seq<T>, tw: seq<T>, idx: nat)
    requires IsBinary(F) && |u| == |w| && 0 < idx <= |tw| && tw[idx - 1] == F.zero
    ensures Butterfly(F, u, w, tw, idx).0 == u
  {
    ButterflyLow(F, u, w, tw, idx);
    forall i | 0 <= i < |u| ensures Butterfly(F, u, w, tw, idx).0[i] == u[i] {
      MulZero(F, w[i]);
    }
  }

  /** Encoding is systematic: the first 2^k symbols are the message, whatever follows it in the block. */
  lemma EncodeSystematic<T(!new)>(F: Field<T>, g: T, tw: seq<T>, n: nat, k: nat, data: seq<T>)
    requires IsBinary(F) && IsTable(F, g, n, F.zero, tw)
    requires k <= n && |data| == Pow2(n) && Pow2(k) <= Pow2(n)
    ensures Codeword(F, tw, n, k, n, data)[..Pow2(k)] == data[..Pow2(k)]
  {
    hide *;
    var c := Ifft(F, k, data[..Pow2(k)], tw, Pow2(n - k));
    var v := c + data[Pow2(k)..];
    CodewordDef(F, tw, n, k, n, data);
    Pow2Step(0);
    FftPrefix(F, g, n, tw, n, k, v);
    assert v[..Pow2(k)] == c;
    FftIfft(F, k, data[..Pow2(k)], tw, Pow2(n - k));
  }

  // ----- distance -----

  function Zeros<T>(F: Field<T>, n: nat): (r: seq<T>)
    ensures |r| == n && forall i :: 0 <= i < n ==> r[i] == F.zero
  {
    seq(n, _ => F.zero)
  }

  /** `encode`: the message, padded with zeros to the block length. */
  function Encoding<T>(F: Field<T>, tw: seq<T>, n: nat, k: nat, message: seq<T>): (r: seq<T>)
    requires k <= n && |message| == Pow2(k) && Pow2(k) <= Pow2(n)
    ensures |r| == Pow2(n)
  {
    Codeword(F, tw, n, k, n, message + Zeros(F, Pow2(n) - Pow2(k)))
  }

  /** Zero coefficients contribute nothing, so higher basis polynomials may be ignored. */
  lemma {:induction false} CombineZeros<T(!new)>(F: Field<T>, c: seq<T>, m: nat, f: seq<T>)
    requires IsField(F) && |c| + m <= Pow2(|f|)
    ensures Combine(F, c + Zeros(F, m), f) == Combine(F, c, f)
    decreases m
  {
    hide Combine, BitProduct, Pow2;
    if m == 0 {
      assert c + Zeros(F, m) == c;
    } else {
      CombineZeros(F, c, m - 1, f);
      assert c + Zeros(F, m) == (c + Zeros(F, m - 1)) + [F.zero];
      CombineStep(F, c + Zeros(F, m - 1), F.zero, f);
      MulZero(F, BitProduct(F, f, |c| + m - 1));
    }
  }

  lemma {:induction false} CombineNarrow<T(!new)>(F: Field<T>, g: T, c: seq<T>, k: nat, n: nat, x: T)
    requires IsField(F) && k <= n && |c| <= Pow2(k) <= Pow2(n)
    ensures Combine(F, c, Norms(F, g, n, x)) == Combine(F, c, Norms(F, g, k, x))
    decreases n
  {
    hide *;
    if k < n {
      Pow2Mono(k, n - 1);
      NormsStep(F, g, n - 1, x);
      CombineWiden(F, c, Norms(F, g, n - 1, x), NormS(F, g, n - 1, x));
      CombineNarrow(F, g, c, k, n - 1, x);
    }
  }

  /** Every symbol is a value of one combination of the first 2^k basis polynomials. */
  lemma EncodeEvaluates<T(!new)>(F: Field<T>, g: T, tw: seq<T>, n: nat, k: nat, message: seq<T>, j: nat)
    requires IsBinary(F) && IsTable(F, g, n, F.zero, tw) && DistinctPoints(F, g, Pow2(n))
    requires k <= n && |message| == Pow2(k) <= Pow2(n) && j < Pow2(n)
    ensures Encoding(F, tw, n, k, message)[j] ==
      Combine(F, Ifft(F, k, message, tw, Pow2(n - k)), Norms(F, g, k, Point(F, g, j)))
  {
    hide *;
    BinaryIsField(F);
    RegularIffDistinct(F, g, n);
    var c := Ifft(F, k, message, tw, Pow2(n - k));
    var pad := Zeros(F, Pow2(n) - Pow2(k));
    EncodeDef(F, tw, n, k, message);
    FftEvaluatesAll(F, g, n, F.zero, tw, c + pad, j);
    AddZero(F, Point(F, g, j));
    AddComm(F, F.zero, Point(F, g, j));
    CombineZeros(F, c, Pow2(n) - Pow2(k), Norms(F, g, n, Point(F, g, j)));
    CombineNarrow(F, g, c, k, n, Point(F, g, j));
  }

  lemma AddComm<T(!new)>(F: Field<T>, a: T, b: T)
    requires IsField(F)
    ensures F.Add(a, b) == F.Add(b, a)
  {
  }

  lemma EncodeDef<T>(F: Field<T>, tw: seq<T>, n: nat, k: nat, message: seq<T>)
    requires k <= n && |message| == Pow2(k) && Pow2(k) <= Pow2(n)
    ensures Encoding(F, tw, n, k, message) ==
      Fft(F, n, Ifft(F, k, message, tw, Pow2(n - k)) + Zeros(F, Pow2(n) - Pow2(k)), tw, 1)
  {
    var data := message + Zeros(F, Pow2(n) - Pow2(k));
    assert data[..Pow2(k)] == message && data[Pow2(k)..] == Zeros(F, Pow2(n) - Pow2(k));
  }

  /** `fft` with `compute_twiddles(n, beta)` evaluates sum_i v[i] X_i at beta + point(j), for every j. */
  lemma FftEvaluatesAll<T(!new)>(F: Field<T>, g: T, n: nat, beta: T, tw: seq<T>, v: seq<T>, j: nat)
    requires IsBinary(F) && IsTable(F, g, n, beta, tw) && Regular(F, g, n)
    requires |v| == Pow2(n) && j < Pow2(n)
    ensures Fft(F, n, v, tw, 1)[j] == Combine(F, v, Norms(F, g, n, F.Add(beta, Point(F, g, j))))
  {
    hide *;
    BinaryIsField(F);
    Pow2Step(0);
    TableIsTree(F, g, n, beta, tw, n, 0);
    PointZero(F, g);
    AddZero(F, beta);
    FftEvaluates(F, g, n, v, tw, 1, beta, j);
  }

  /** Multiplying a polynomial by s_k: one linear factor for each of the 2^k points. */
  lemma {:induction false} TimesRoots<T(!new)>(F: Field<T>, g: T, w: seq<T>, n: nat) returns (p: seq<T>)
    requires IsBinary(F)
    ensures |p| == |w| + n
    ensures forall x :: Eval(F, p, x) == F.Mul(RootProduct(F, g, x, n), Eval(F, w, x))
  {
    hide Point, Eval;
    if n == 0 {
      p := w;
    } else {
      var q := TimesRoots(F, g, w, n - 1);
      var r := Point(F, g, n - 1);
      p := MulLinear(F, q, r);
      forall x ensures Eval(F, p, x) == F.Mul(RootProduct(F, g, x, n), Eval(F, w, x)) {
        EvalMulLinear(F, q, r, x);
        MulAssoc(F, F.Add(x, r), RootProduct(F, g, x, n - 1), Eval(F, w, x));
      }
    }
  }

  /** A combination of the first 2^k basis polynomials is a polynomial with 2^k coefficients. */
  lemma {:induction false} LowDegree<T(!new)>(F: Field<T>, g: T, k: nat, c: seq<T>) returns (p: seq<T>)
    requires IsBinary(F) && |c| == Pow2(k)
    ensures |p| == Pow2(k)
    ensures forall x :: Eval(F, p, x) == Combine(F, c, Norms(F, g, k, x))
    decreases k
  {
    hide *;
    BinaryIsField(F);
    if k == 0 {
      Pow2Step(0);
      p := c;
      forall x ensures Eval(F, p, x) == Combine(F, c, Norms(F, g, k, x)) {
        EvaluateOne(F, g, c, x);
        ConstantEval(F, c, x);
      }
    } else {
      var h := Pow2(k - 1);
      Pow2Step(k - 1);
      var u, w := c[..h], c[h..];
      var pu := LowDegree(F, g, k - 1, u);
      var pw := LowDegree(F, g, k - 1, w);
      var q := TimesRoots(F, g, pw, h);
      var m := F.Inv(SRoot(F, g, k - 1));
      p := Plus(F, pu + Zeros(F, h), Scale(F, m, q));
      forall x ensures Eval(F, p, x) == Combine(F, c, Norms(F, g, k, x)) {
        EvalPlus(F, pu + Zeros(F, h), Scale(F, m, q), x);
        EvalScale(F, m, q, x);
        EvalZeros(F, pu, h, x);
        NormFactor(F, g, k - 1, x, Eval(F, pw, x));
        NormsStep(F, g, k - 1, x);
        assert c == u + w;
        CombineSplit(F, u, w, Norms(F, g, k - 1, x), NormS(F, g, k - 1, x));
      }
    }
  }

  lemma NormFactor<T(!new)>(F: Field<T>, g: T, k: nat, x: T, y: T)
    requires IsBinary(F)
    ensures F.Mul(F.Inv(SRoot(F, g, k)), F.Mul(RootProduct(F, g, x, Pow2(k)), y)) == F.Mul(NormS(F, g, k, x), y)
  {
    hide S, SRoot, RootProduct, Pow2;
    SIsRootProduct(F, g, k, x);
    MulAssoc(F, F.Inv(SRoot(F, g, k)), S(F, g, k, x), y);
  }

  lemma ConstantEval<T(!new)>(F: Field<T>, c: seq<T>, x: T)
    requires IsField(F) && |c| == 1
    ensures Eval(F, c, x) == c[0]
  {
    MulZero(F, x);
  }

  lemma {:induction false} EvalZeros<T(!new)>(F: Field<T>, p: seq<T>, m: nat, x: T)
    requires IsField(F)
    ensures Eval(F, p + Zeros(F, m), x) == Eval(F, p, x)
  {
    if m == 0 {
      assert p + Zeros(F, m) == p;
    } else {
      EvalZeros(F, p, m - 1, x);
      assert p + Zeros(F, m) == (p + Zeros(F, m - 1)) + [F.zero];
      EvalPad(F, p + Zeros(F, m - 1), x);
    }
  }

  /** Any 2^k distinct positions of a codeword determine the message. */
  lemma PositionsDetermine<T(!new)>(F: Field<T>, g: T, tw: seq<T>, n: nat, k: nat, m: seq<T>, m': seq<T>, at: seq<nat>)
    requires IsBinary(F) && IsTable(F, g, n, F.zero, tw) && DistinctPoints(F, g, Pow2(n))
    requires k <= n && |m| == |m'| == Pow2(k) <= Pow2(n)
    requires Distinct(at) && |at| >= Pow2(k) && forall i :: 0 <= i < |at| ==> at[i] < Pow2(n)
    requires forall i :: 0 <= i < |at| ==> Encoding(F, tw, n, k, m)[at[i]] == Encoding(F, tw, n, k, m')[at[i]]
    ensures m == m'
  {
    hide Ifft, Combine, Norms, Encoding, Eval, Pow2, Point, Codeword;
    BinaryIsField(F);
    var idx := Pow2(n - k);
    var c, c' := Ifft(F, k, m, tw, idx), Ifft(F, k, m', tw, idx);
    var p := LowDegree(F, g, k, c);
    var p' := LowDegree(F, g, k, c');
    var xs := seq(|at|, i requires 0 <= i < |at| => Point(F, g, at[i]));
    forall i | 0 <= i < |xs| ensures Eval(F, p, xs[i]) == Eval(F, p', xs[i]) {
      EncodeEvaluates(F, g, tw, n, k, m, at[i]);
      EncodeEvaluates(F, g, tw, n, k, m', at[i]);
    }
    forall i, j | 0 <= i < j < |xs| ensures xs[i] != xs[j] {
      assert at[i] < at[j] || at[j] < at[i];
    }
    Agreement(F, p, p', xs);
    forall j | 0 <= j < Pow2(k) ensures m[j] == m'[j] {
      EncodeEvaluates(F, g, tw, n, k, m, j);
      EncodeEvaluates(F, g, tw, n, k, m', j);
      EncodeSymbol(F, g, tw, n, k, m, j);
      EncodeSymbol(F, g, tw, n, k, m', j);
    }
  }

  lemma EncodeSymbol<T(!new)>(F: Field<T>, g: T, tw: seq<T>, n: nat, k: nat, m: seq<T>, j: nat)
    requires IsBinary(F) && IsTable(F, g, n, F.zero, tw)
    requires k <= n && |m| == Pow2(k) <= Pow2(n) && j < Pow2(k)
    ensures Encoding(F, tw, n, k, m)[j] == m[j]
  {
    hide Codeword, Pow2;
    var data := m + Zeros(F, Pow2(n) - Pow2(k));
    EncodeSystematic(F, g, tw, n, k, data);
    assert Codeword(F, tw, n, k, n, data)[..Pow2(k)][j] == data[..Pow2(k)][j];
  }

  lemma {:induction false} Enumerate(s: set<nat>) returns (q: seq<nat>)
    ensures |q| == |s| && Distinct(q) && forall i :: 0 <= i < |q| ==> q[i] in s
    decreases |s|
  {
    if s == {} {
      q := [];
    } else {
      var x :| x in s;
      var rest := Enumerate(s - {x});
      q := [x] + rest;
      forall i | 0 <= i < |q| ensures q[i] in s && (i > 0 ==> q[i] in s - {x}) {
        assert i > 0 ==> q[i] == rest[i - 1];
      }
    }
  }

  /** The positions below `n` where two words agree. */
  ghost function Agree<T>(a: seq<T>, b: seq<T>, n: nat): set<nat>
    requires |a| == |b| == n
  {
    set j: nat | j < n && a[j] == b[j]
  }

  /** Different messages of length 2^k agree in fewer than 2^k positions. */
  lemma MinimumDistance<T(!new)>(F: Field<T>, g: T, tw: seq<T>, n: nat, k: nat, m: seq<T>, m': seq<T>)
    requires IsBinary(F) && IsTable(F, g, n, F.zero, tw) && DistinctPoints(F, g, Pow2(n))
    requires k <= n && |m| == |m'| == Pow2(k) <= Pow2(n) && m != m'
    ensures |Agree(Encoding(F, tw, n, k, m), Encoding(F, tw, n, k, m'), Pow2(n))| < Pow2(k)
  {
    hide Encoding, Pow2, Point;
    var a := Agree(Encoding(F, tw, n, k, m), Encoding(F, tw, n, k, m'), Pow2(n));
    var at := Enumerate(a);
    if |a| >= Pow2(k) {
      PositionsDetermine(F, g, tw, n, k, m, m', at);
    }
  }

  /** The bound is met: messages that differ in one symbol agree in exactly 2^k - 1 positions. */
  lemma DistanceIsTight<T(!new)>(F: Field<T>, g: T, tw: seq<T>, n: nat, k: nat, m: seq<T>, i: nat, y: T)
    requires IsBinary(F) && IsTable(F, g, n, F.zero, tw) && DistinctPoints(F, g, Pow2(n))
    requires k <= n && |m| == Pow2(k) <= Pow2(n) && i < |m| && y != m[i]
    ensures |Agree(Encoding(F, tw, n, k, m), Encoding(F, tw, n, k, m[i := y]), Pow2(n))| == Pow2(k) - 1
  {
    hide Encoding, Pow2, Point;
    var m' := m[i := y];
    var a := Agree(Encoding(F, tw, n, k, m), Encoding(F, tw, n, k, m'), Pow2(n));
    MinimumDistance(F, g, tw, n, k, m, m');
    var same := Below(Pow2(k)) - {i};
    forall j | j in same ensures j in a {
      EncodeSymbol(F, g, tw, n, k, m, j);
      EncodeSymbol(F, g, tw, n, k, m', j);
    }
    SubsetSize(same, a);
  }

  function Below(n: nat): (s: set<nat>)
    ensures |s| == n && forall j: nat :: j in s <==> j < n
  {
    if n == 0 then {} else Below(n - 1) + {n - 1}
  }

  lemma {:induction false} SubsetSize(a: set<nat>, b: set<nat>)
    requires a <= b
    ensures |a| <= |b|
    decreases |a|
  {
    if a != {} {
      var x :| x in a;
      SubsetSize(a - {x}, b - {x});
    }
  }

  // ----- parameters -----

  /** `trailing_zeros` */
  function TrailingZeros(n: nat): nat
    requires n > 0
  {
    if n % 2 == 1 then 0 else 1 + TrailingZeros(n / 2)
  }

  predicate IsPowerOfTwo(n: nat) {
    n > 0 && n == Pow2(TrailingZeros(n))
  }

  /** s_b(v_b) for b < k */
  function SRoots<T>(F: Field<T>, g: T, k: nat): (r: seq<T>)
    ensures |r| == k
  {
    if k == 0 then [] else SRoots(F, g, k - 1) + [SRoot(F, g, k - 1)]
  }

  /** s_b(x) for b < k */
  function SValues<T>(F: Field<T>, g: T, k: nat, x: T): (r: seq<T>)
    ensures |r| == k
  {
    if k == 0 then [] else SValues(F, g, k - 1, x) + [S(F, g, k - 1, x)]
  }

  lemma {:induction false} SRootsAt<T>(F: Field<T>, g: T, k: nat, b: nat)
    requires b < k
    ensures SRoots(F, g, k)[b] == SRoot(F, g, b)
  {
    if b < k - 1 {
      SRootsAt(F, g, k - 1, b);
    }
  }

  /** s_i(v_b) */
  function SAtBasis<T>(F: Field<T>, g: T, i: nat, b: nat): T {
    S(F, g, i, Point(F, g, Pow2(b)))
  }

  lemma SAtBasisStep<T>(F: Field<T>, g: T, i: nat, b: nat)
    ensures SAtBasis(F, g, i + 1, b) == NextS(F, SAtBasis(F, g, i, b), SRoot(F, g, i))
    ensures SAtBasis(F, g, i, i) == SRoot(F, g, i)
    ensures SAtBasis(F, g, 0, b) == Point(F, g, Pow2(b))
  {
  }

  /** v_1, v_2, ..., v_m */
  method BasisLayer<T(!new)>(F: Field<T>, g: T, m: nat) returns (layer: array<T>)
    requires IsField(F) && m < 64
    ensures fresh(layer) && layer.Length == m
    ensures forall j :: 0 <= j < m ==> layer[..][j] == SAtBasis(F, g, 0, j + 1)
  {
    hide *;
    layer := new T[m](_ => F.zero);
    for i := 0 to m
      invariant forall j :: 0 <= j < i ==> layer[j] == SAtBasis(F, g, 0, j + 1)
    {
      Pow2Strict(i + 1, 64);
      layer[i] := FromBits(F, g, Pow2(i + 1));
      SAtBasisStep(F, g, 0, i + 1);
    }
  }

  /** One round of `eval_sk_at_vks`: record next_s of the head of the layer, shift next_s of the rest down. */
  method SkRound<T(!new)>(F: Field<T>, layer: array<T>, sks: array<T>, i: nat, curLen: nat)
    requires layer != sks && curLen <= layer.Length && i + 1 < sks.Length
    modifies layer, sks
    ensures curLen > 0 ==> sks[..] == old(sks[..])[i + 1 := NextS(F, old(layer[0]), old(sks[i]))]
    ensures forall q :: 0 <= q < curLen - 1 ==> layer[..][q] == NextS(F, old(layer[..])[q + 1], old(sks[i]))
  {
    hide NextS;
    ghost var v, s := layer[..], sks[i];
    for j := 0 to curLen
      invariant sks[..] == if j == 0 then old(sks[..]) else old(sks[..])[i + 1 := NextS(F, v[0], s)]
      invariant forall q :: 0 <= q < j - 1 ==> layer[q] == NextS(F, v[q + 1], s)
      invariant forall q :: j - 1 <= q < curLen && 0 <= q ==> layer[q] == v[q]
    {
      assert sks[i] == sks[..][i];
      var skAtVk := NextS(F, layer[j], sks[i]);
      if j == 0 {
        sks[i + 1] := skAtVk;
      }
      if j > 0 {
        layer[j - 1] := skAtVk;
      }
    }
  }

  /** The state of `eval_sk_at_vks` before round i: s_q(v_q) for q <= i, and s_i(v_{i+1}), s_i(v_{i+2}), ... */
  ghost predicate SkState<T>(F: Field<T>, g: T, m: nat, layer: seq<T>, sks: seq<T>, i: nat) {
    && i <= m == |layer| && |sks| == m + 1
    && (forall q :: 0 <= q <= i ==> sks[q] == SRoot(F, g, q))
    && (forall j :: 0 <= j < m - i ==> layer[j] == SAtBasis(F, g, i, i + 1 + j))
  }

  lemma SkStep<T>(F: Field<T>, g: T, m: nat, layer: seq<T>, layer': seq<T>, sks: seq<T>, i: nat)
    requires i < m && SkState(F, g, m, layer, sks, i) && |layer'| == m
    requires forall q :: 0 <= q < m - i - 1 ==> layer'[q] == NextS(F, layer[q + 1], sks[i])
    ensures SkState(F, g, m, layer', sks[i + 1 := NextS(F, layer[0], sks[i])], i + 1)
  {
    hide SAtBasis, SRoot, NextS;
    SAtBasisStep(F, g, i, i + 1);
    SAtBasisStep(F, g, i + 1, i + 1);
    forall j | 0 <= j < m - i - 1 ensures layer'[j] == SAtBasis(F, g, i + 1, i + 2 + j) {
      SAtBasisStep(F, g, i, i + 2 + j);
    }
  }

  /** `eval_sk_at_vks` */
  method EvalSkAtVks<T(!new)>(F: Field<T>, g: T, n: nat) returns (sks: array<T>)
    requires IsField(F) && IsPowerOfTwo(n) && TrailingZeros(n) < 64
    ensures fresh(sks) && sks[..] == SRoots(F, g, TrailingZeros(n) + 1)
  {
    var m := TrailingZeros(n);
    sks := new T[m + 1](_ => F.zero);
    sks[0] := F.one;
    FirstRoot(F, g);
    var layer := BasisLayer(F, g, m);
    SkStart(F, g, m, layer[..], sks[..]);
    var curLen := m;
    for i := 0 to m
      invariant curLen == m - i && SkState(F, g, m, layer[..], sks[..], i)
    {
      hide *;
      ghost var v, s := layer[..], sks[..];
      SkRound(F, layer, sks, i, curLen);
      SkStep(F, g, m, v, layer[..], s, i);
      curLen := curLen - 1;
    }
    SkEnd(F, g, m, layer[..], sks[..]);
  }

  lemma SkStart<T>(F: Field<T>, g: T, m: nat, layer: seq<T>, sks: seq<T>)
    requires |layer| == m && |sks| == m + 1 && sks[0] == SRoot(F, g, 0)
    requires forall j :: 0 <= j < m ==> layer[j] == SAtBasis(F, g, 0, j + 1)
    ensures SkState(F, g, m, layer, sks, 0)
  {
    hide SAtBasis, SRoot;
  }

  lemma SkEnd<T>(F: Field<T>, g: T, m: nat, layer: seq<T>, sks: seq<T>)
    requires SkState(F, g, m, layer, sks, m)
    ensures sks == SRoots(F, g, m + 1)
  {
    hide SAtBasis, SRoot;
    forall b | 0 <= b < m + 1 ensures sks[b] == SRoots(F, g, m + 1)[b] {
      SRootsAt(F, g, m + 1, b);
    }
  }

  /** Each s_k(v_k) is the product of v_k + u over all 2^k subset sums u of v_0..v_{k-1}. */
  lemma SRootIsProduct<T(!new)>(F: Field<T>, g: T, k: nat)
    requires IsBinary(F)
    ensures SRoot(F, g, k) == RootProduct(F, g, Pow(F, g, k), Pow2(k))
    ensures SRoot(F, g, k) == F.zero <==> exists j :: 0 <= j < Pow2(k) && Pow(F, g, k) == Point(F, g, j)
  {
    hide Point, RootProduct, S, Pow;
    PointBasis(F, g, k);
    SIsRootProduct(F, g, k, Point(F, g, Pow2(k)));
    SZero(F, g, k, Point(F, g, Pow2(k)));
  }

  /** `compute_pis`: pis[i] is the product of sks over the set bits of i; the last entry of sks is not used. */
  method ComputePis<T(!new)>(F: Field<T>, n: nat, sks: seq<T>) returns (pis: array<T>)
    requires IsField(F) && |sks| > 0 && n == Pow2(|sks| - 1)
    ensures fresh(pis) && pis.Length == n
    ensures forall i :: 0 <= i < n ==> pis[i] == BitProduct(F, sks[..|sks| - 1], i)
  {
    hide *;
    pis := new T[n](_ => F.zero);
    Pow2Step(0);
    pis[0] := F.one;
    EmptyProduct(F);
    assert sks[..0] == [];
    for i := 1 to |sks|
      invariant pis.Length == n
      invariant forall q :: 0 <= q < Pow2(i - 1) ==> Pow2(i - 1) <= n && pis[q] == BitProduct(F, sks[..i - 1], q)
    {
      var skVk := sks[i - 1];
      var currentLen := Pow2(i - 1);
      Pow2Step(i - 1);
      Pow2Mono(i, |sks| - 1);
      assert sks[..i] == sks[..i - 1] + [skVk];
      forall q | 0 <= q < currentLen ensures BitProduct(F, sks[..i], q) == BitProduct(F, sks[..i - 1], q) {
        TopBit(F, sks[..i - 1], skVk, q);
      }
      for j := 0 to currentLen
        invariant forall q :: 0 <= q < currentLen ==> pis[q] == BitProduct(F, sks[..i - 1], q)
        invariant forall q :: 0 <= q < currentLen + j ==> pis[q] == BitProduct(F, sks[..i], q)
      {
        TopBit(F, sks[..i - 1], skVk, j);
        pis[currentLen + j] := F.Mul(pis[j], skVk);
      }
    }
  }

  lemma EmptyProduct<T>(F: Field<T>)
    ensures Pow2(0) == 1 && BitProduct(F, [], 0) == F.one
  {
  }

  // ----- the code -----

  /** `ReedSolomon` */
  datatype Code<T> = Code(logMessage: nat, logBlock: nat, twiddles: seq<T>, pis: seq<T>)

  /** What `ReedSolomon::new` establishes. */
  ghost predicate IsCode<T>(F: Field<T>, g: T, rs: Code<T>) {
    && rs.logMessage < rs.logBlock && Pow2(rs.logMessage) < Pow2(rs.logBlock)
    && IsTable(F, g, rs.logBlock, F.zero, rs.twiddles)
    && |rs.pis| == Pow2(rs.logMessage)
    && forall i :: 0 <= i < |rs.pis| ==> rs.pis[i] == BitProduct(F, SRoots(F, g, rs.logMessage), i)
  }

  /** `ReedSolomon::new`; the lengths are powers of two that fit a machine word. */
  method New<T(!new, ==)>(F: Field<T>, g: T, messageLength: nat, blockLength: nat) returns (rs: Code<T>)
    requires IsBinary(F)
    requires IsPowerOfTwo(messageLength) && IsPowerOfTwo(blockLength) && messageLength < blockLength < Pow2(64)
    ensures IsCode(F, g, rs)
    ensures Pow2(rs.logMessage) == messageLength && Pow2(rs.logBlock) == blockLength
  {
    var logMessage, logBlock := TrailingZeros(messageLength), TrailingZeros(blockLength);
    assert messageLength == Pow2(logMessage) && blockLength == Pow2(logBlock);
    NewSizes(logMessage, logBlock);
    hide SRoot, Pow2, Filled, BitProduct;
    var twiddles := ComputeTwiddles(F, g, logBlock, F.zero);
    var sks := EvalSkAtVks(F, g, messageLength);
    var pis := ComputePis(F, messageLength, sks[..]);
    SRootsPrefix(F, g, logMessage);
    rs := Code(logMessage, logBlock, twiddles[..], pis[..]);
  }

  lemma NewSizes(a: nat, b: nat)
    requires Pow2(a) < Pow2(b) < Pow2(64)
    ensures a < b < 64
  {
    hide Pow2;
    if b <= a {
      Pow2Mono(b, a);
    }
    if 64 <= b {
      Pow2Mono(64, b);
    }
  }

  lemma SRootsPrefix<T>(F: Field<T>, g: T, k: nat)
    ensures SRoots(F, g, k + 1)[..k] == SRoots(F, g, k)
  {
  }

  /** `encode`: any message that fits the block, padded with zeros. */
  method Encode<T(!new)>(F: Field<T>, g: T, rs: Code<T>, message: seq<T>) returns (encoded: array<T>)
    requires IsCode(F, g, rs) && |message| <= Pow2(rs.logBlock)
    ensures fresh(encoded)
    ensures encoded[..] == Codeword(F, rs.twiddles, rs.logBlock, rs.logMessage, rs.logBlock, message + Zeros(F, Pow2(rs.logBlock) - |message|))
    ensures |message| == Pow2(rs.logMessage) ==> encoded[..] == Encoding(F, rs.twiddles, rs.logBlock, rs.logMessage, message)
  {
    hide Codeword, Pow2, Filled;
    encoded := new T[Pow2(rs.logBlock)](i requires 0 <= i < Pow2(rs.logBlock) => if i < |message| then message[i] else F.zero);
    assert encoded[..] == message + Zeros(F, Pow2(rs.logBlock) - |message|);
    EncodeInPlace(F, rs.twiddles, rs.logBlock, rs.logMessage, encoded, rs.logBlock);
  }

  /** The block after the first |pis| entries have been multiplied by pis. */
  function PiScaled<T>(F: Field<T>, pis: seq<T>, data: seq<T>): (r: seq<T>)
    requires |pis| <= |data|
    ensures |r| == |data|
  {
    seq(|data|, i requires 0 <= i < |data| => if i < |pis| then F.Mul(data[i], pis[i]) else data[i])
  }

  /** `encode_non_systematic` */
  method EncodeNonSystematic<T(!new)>(F: Field<T>, g: T, rs: Code<T>, data: array<T>)
    requires IsCode(F, g, rs) && data.Length == Pow2(rs.logBlock)
    modifies data
    ensures data[..] == Fft(F, rs.logBlock, PiScaled(F, rs.pis, old(data[..])), rs.twiddles, 1)
  {
    hide Fft, Pow2, Filled, BitProduct, SRoots;
    ghost var v := data[..];
    for i := 0 to Pow2(rs.logMessage)
      invariant forall j :: 0 <= j < data.Length ==> data[j] == if j < i then F.Mul(v[j], rs.pis[j]) else v[j]
    {
      data[i] := F.Mul(data[i], rs.pis[i]);
    }
    assert data[..] == PiScaled(F, rs.pis, v);
    FftInPlace(F, data, rs.twiddles, rs.logBlock);
  }

  /** Non-systematic encoding of a zero-padded message evaluates it in the unnormalised basis prod s_b. */
  lemma NonSystematicEvaluates<T(!new)>(F: Field<T>, g: T, rs: Code<T>, message: seq<T>, j: nat)
    requires IsBinary(F) && IsCode(F, g, rs) && DistinctPoints(F, g, Pow2(rs.logBlock))
    requires |message| == Pow2(rs.logMessage) && j < Pow2(rs.logBlock)
    ensures var data := message + Zeros(F, Pow2(rs.logBlock) - |message|);
      Fft(F, rs.logBlock, PiScaled(F, rs.pis, data), rs.twiddles, 1)[j] ==
      Combine(F, message, SValues(F, g, rs.logMessage, Point(F, g, j)))
  {
    hide Fft, Pow2, Filled, BitProduct, SRoots, Point, Combine, Norms, SValues;
    var n, k, x := rs.logBlock, rs.logMessage, Point(F, g, j);
    RegularIffDistinct(F, g, n);
    var data := message + Zeros(F, Pow2(n) - |message|);
    var c := PiScaled(F, rs.pis, message);
    assert PiScaled(F, rs.pis, data) == c + Zeros(F, Pow2(n) - Pow2(k));
    FftEvaluatesAll(F, g, n, F.zero, rs.twiddles, c + Zeros(F, Pow2(n) - Pow2(k)), j);
    assert F.Add(F.zero, x) == x;
    CombineZeros(F, c, Pow2(n) - Pow2(k), Norms(F, g, n, x));
    CombineNarrow(F, g, c, k, n, x);
    RegularBelow(F, g, n, k);
    UnnormalisedCombine(F, g, k, message, c, x);
  }

  lemma RegularBelow<T>(F: Field<T>, g: T, n: nat, k: nat)
    requires k <= n && Regular(F, g, n)
    ensures Regular(F, g, k)
  {
  }

  /** Scaling coefficient i by prod s_b(v_b) cancels the normalisation of X_i. */
  lemma {:induction false} UnnormalisedProduct<T(!new)>(F: Field<T>, g: T, k: nat, i: nat, x: T)
    requires IsField(F) && Regular(F, g, k) && i < Pow2(k)
    ensures F.Mul(BitProduct(F, SRoots(F, g, k), i), BitProduct(F, Norms(F, g, k, x), i)) == BitProduct(F, SValues(F, g, k, x), i)
  {
    hide *;
    if k == 0 {
      EmptyBases(F, g, x);
    } else {
      var h, b := Pow2(k - 1), k - 1;
      Pow2Step(b);
      RegularLess(F, g, b);
      BasesStep(F, g, b, x);
      var r, u, v := SRoots(F, g, b), Norms(F, g, b, x), SValues(F, g, b, x);
      var t := if i < h then i else i - h;
      UnnormalisedProduct(F, g, b, t, x);
      TopBit(F, r, SRoot(F, g, b), t);
      TopBit(F, u, NormS(F, g, b, x), t);
      TopBit(F, v, S(F, g, b, x), t);
      MulSwap(F, BitProduct(F, r, t), SRoot(F, g, b), BitProduct(F, u, t), NormS(F, g, b, x));
      NormSTimesRoot(F, g, b, x);
    }
  }

  lemma EmptyBases<T(!new)>(F: Field<T>, g: T, x: T)
    requires IsField(F)
    ensures Pow2(0) == 1 && F.Mul(BitProduct(F, SRoots(F, g, 0), 0), BitProduct(F, Norms(F, g, 0, x), 0)) == BitProduct(F, SValues(F, g, 0, x), 0)
  {
  }

  lemma BasesStep<T>(F: Field<T>, g: T, k: nat, x: T)
    ensures SRoots(F, g, k + 1) == SRoots(F, g, k) + [SRoot(F, g, k)]
    ensures Norms(F, g, k + 1, x) == Norms(F, g, k, x) + [NormS(F, g, k, x)]
    ensures SValues(F, g, k + 1, x) == SValues(F, g, k, x) + [S(F, g, k, x)]
  {
  }

  lemma NormSTimesRoot<T(!new)>(F: Field<T>, g: T, k: nat, x: T)
    requires IsField(F) && SRoot(F, g, k) != F.zero
    ensures F.Mul(SRoot(F, g, k), NormS(F, g, k, x)) == S(F, g, k, x)
  {
    hide S, SRoot;
    MulAssoc(F, SRoot(F, g, k), F.Inv(SRoot(F, g, k)), S(F, g, k, x));
  }

  lemma {:induction false} UnnormalisedCombine<T(!new)>(F: Field<T>, g: T, k: nat, m: seq<T>, c: seq<T>, x: T)
    requires IsField(F) && Regular(F, g, k) && |m| == |c| <= Pow2(k)
    requires forall i :: 0 <= i < |m| ==> c[i] == F.Mul(m[i], BitProduct(F, SRoots(F, g, k), i))
    ensures Combine(F, c, Norms(F, g, k, x)) == Combine(F, m, SValues(F, g, k, x))
    decreases |m|
  {
    hide BitProduct, Pow2, SRoots, Norms, SValues, Regular;
    if m != [] {
      var n := |m| - 1;
      UnnormalisedCombine(F, g, k, m[..n], c[..n], x);
      UnnormalisedProduct(F, g, k, n, x);
      MulAssoc(F, m[n], BitProduct(F, SRoots(F, g, k), n), BitProduct(F, Norms(F, g, k, x), n));
    }
  }
}
