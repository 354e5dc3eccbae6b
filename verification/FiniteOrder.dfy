/** The order argument: multiplying all units by one of them permutes them, so a^(number of units) = 1. */
module FiniteOrder {
  import opened Polynomials

  /** A multiplication with a unit. */
  datatype Product<!T> = Product(one: T, mul: (T, T) -> T) {
    function Mul(a: T, b: T): T { mul(a, b) }
  }

  ghost predicate Named<T>(a: T, b: T, c: T) { true }

  /** Commutative and associative everywhere. */
  ghost predicate IsCommutative<T(!new)>(M: Product<T>) {
    && (forall a, b :: M.Mul(a, b) == M.Mul(b, a))
    && (forall a, b, c {:trigger Named(a, b, c)} :: Named(a, b, c) ==> M.Mul(M.Mul(a, b), c) == M.Mul(a, M.Mul(b, c)))
  }

  /** `units` lists, without repetition, a set that contains 1, is closed under multiplication, on which 1 is neutral
      and multiplication can be cancelled. */
  ghost predicate IsUnits<T(!new)>(M: Product<T>, units: seq<T>) {
    && Distinct(units) && M.one in units
    && (forall a, b :: a in units && b in units ==> M.Mul(a, b) in units)
    && (forall a :: a in units ==> M.Mul(a, M.one) == a)
    && (forall a, b, c {:trigger Named(a, b, c)} :: Named(a, b, c) && a in units && b in units && c in units && M.Mul(a, c) == M.Mul(b, c) ==> a == b)
  }

  function Power<T>(M: Product<T>, a: T, n: nat): T {
    if n == 0 then M.one else M.Mul(a, Power(M, a, n - 1))
  }

  function Total<T>(M: Product<T>, s: seq<T>): T {
    if s == [] then M.one else M.Mul(s[0], Total(M, s[1..]))
  }

  lemma Assoc<T(!new)>(M: Product<T>, a: T, b: T, c: T)
    requires IsCommutative(M)
    ensures M.Mul(M.Mul(a, b), c) == M.Mul(a, M.Mul(b, c))
  {
    assert Named(a, b, c);
  }

  lemma Swap<T(!new)>(M: Product<T>, a: T, b: T, c: T, d: T)
    requires IsCommutative(M)
    ensures M.Mul(M.Mul(a, b), M.Mul(c, d)) == M.Mul(M.Mul(a, c), M.Mul(b, d))
  {
    Assoc(M, a, b, M.Mul(c, d));
    Assoc(M, b, c, d);
    Assoc(M, c, b, d);
    Assoc(M, a, c, M.Mul(b, d));
  }

  function Without<T>(s: seq<T>, i: nat): (r: seq<T>)
    requires i < |s|
    ensures |r| == |s| - 1
  {
    s[..i] + s[i + 1..]
  }

  lemma {:induction false} TotalPull<T(!new)>(M: Product<T>, s: seq<T>, i: nat)
    requires IsCommutative(M) && i < |s|
    ensures Total(M, s) == M.Mul(s[i], Total(M, Without(s, i)))
  {
    if i == 0 {
      assert Without(s, 0) == s[1..];
    } else {
      TotalPull(M, s[1..], i - 1);
      var w := Without(s, i);
      assert w[0] == s[0] && w[1..] == Without(s[1..], i - 1);
      var rest := Total(M, Without(s[1..], i - 1));
      Assoc(M, s[0], s[i], rest);
      Assoc(M, s[i], s[0], rest);
    }
  }

  lemma WithoutDistinct<T(!new)>(s: seq<T>, i: nat)
    requires i < |s| && Distinct(s)
    ensures Distinct(Without(s, i)) && forall x :: x in Without(s, i) <==> x in s && x != s[i]
  {
    var w := Without(s, i);
    forall x ensures x in w <==> x in s && x != s[i] {
      if x in s && x != s[i] {
        var k :| 0 <= k < |s| && s[k] == x;
        assert w[if k < i then k else k - 1] == x;
      }
      if x in w {
        var k :| 0 <= k < |w| && w[k] == x;
        assert s[if k < i then k else k + 1] == x;
      }
    }
  }

  /** Two repetition-free lists of the same elements have the same product. */
  lemma {:induction false} TotalPermuted<T(!new)>(M: Product<T>, s: seq<T>, t: seq<T>)
    requires IsCommutative(M) && Distinct(s) && Distinct(t) && |s| == |t|
    requires forall x :: x in s ==> x in t
    ensures Total(M, s) == Total(M, t)
    decreases |s|
  {
    if s != [] {
      assert s[0] in t;
      var i :| 0 <= i < |t| && t[i] == s[0];
      TotalPull(M, t, i);
      WithoutDistinct(t, i);
      assert Without(s, 0) == s[1..];
      WithoutDistinct(s, 0);
      TotalPermuted(M, s[1..], Without(t, i));
    }
  }

  lemma {:induction false} TotalIn<T(!new)>(M: Product<T>, units: seq<T>, s: seq<T>)
    requires IsUnits(M, units) && forall x :: x in s ==> x in units
    ensures Total(M, s) in units
  {
    if s != [] {
      TotalIn(M, units, s[1..]);
    }
  }

  lemma {:induction false} PowerIn<T(!new)>(M: Product<T>, units: seq<T>, a: T, n: nat)
    requires IsUnits(M, units) && a in units
    ensures Power(M, a, n) in units
  {
    if n != 0 {
      PowerIn(M, units, a, n - 1);
    }
  }

  function Times<T>(M: Product<T>, a: T, s: seq<T>): (r: seq<T>)
    ensures |r| == |s|
  {
    seq(|s|, i requires 0 <= i < |s| => M.Mul(a, s[i]))
  }

  lemma {:induction false} TotalTimes<T(!new)>(M: Product<T>, units: seq<T>, a: T, s: seq<T>)
    requires IsCommutative(M) && IsUnits(M, units) && a in units
    ensures Total(M, Times(M, a, s)) == M.Mul(Power(M, a, |s|), Total(M, s))
  {
    if s == [] {
      assert M.Mul(M.one, M.one) == M.one;
    } else {
      assert Times(M, a, s)[1..] == Times(M, a, s[1..]);
      TotalTimes(M, units, a, s[1..]);
      Swap(M, a, s[0], Power(M, a, |s| - 1), Total(M, s[1..]));
    }
  }

  lemma TimesDistinct<T(!new)>(M: Product<T>, units: seq<T>, a: T)
    requires IsCommutative(M) && IsUnits(M, units) && a in units
    ensures Distinct(Times(M, a, units)) && forall x :: x in Times(M, a, units) ==> x in units
  {
    var t := Times(M, a, units);
    forall i, j | 0 <= i < j < |t| ensures t[i] != t[j] {
      assert Named(units[i], units[j], a);
    }
  }

  /** a to the number of units is 1. */
  lemma OrderTheorem<T(!new)>(M: Product<T>, units: seq<T>, a: T)
    requires IsCommutative(M) && IsUnits(M, units) && a in units
    ensures Power(M, a, |units|) == M.one
  {
    hide Power, Total, Times;
    var p, q := Total(M, units), Power(M, a, |units|);
    TimesDistinct(M, units, a);
    TotalPermuted(M, Times(M, a, units), units);
    TotalTimes(M, units, a, units);
    TotalIn(M, units, units);
    PowerIn(M, units, a, |units|);
    assert M.Mul(M.one, p) == p;
    assert Named(q, M.one, p);
  }
}
