/** Finite sums over sets, independent of the order of summation. */
module Sums {

  ghost function Sum<K(!new)>(s: set<K>, f: K -> nat): nat
    decreases |s|
  {
    if s == {} then 0 else var x :| x in s; f(x) + Sum(s - {x}, f)
  }

  lemma {:induction false} SumRemove<K(!new)>(s: set<K>, f: K -> nat, x: K)
    requires x in s
    ensures Sum(s, f) == f(x) + Sum(s - {x}, f)
    decreases |s|
  {
    var y :| y in s && Sum(s, f) == f(y) + Sum(s - {y}, f);
    if y != x {
      SumRemove(s - {y}, f, x);
      SumRemove(s - {x}, f, y);
      assert s - {x} - {y} == s - {y} - {x};
    }
  }

  lemma SumInsert<K(!new)>(s: set<K>, f: K -> nat, x: K)
    requires x !in s
    ensures Sum(s + {x}, f) == f(x) + Sum(s, f)
  {
    SumRemove(s + {x}, f, x);
    assert s + {x} - {x} == s;
  }

  lemma SumEmpty<K(!new)>(f: K -> nat)
    ensures Sum({}, f) == 0
  {
  }

  lemma {:induction false} SumUnion<K(!new)>(s: set<K>, t: set<K>, f: K -> nat)
    requires s !! t
    ensures Sum(s + t, f) == Sum(s, f) + Sum(t, f)
    decreases |t|
  {
    hide Sum;
    SumEmpty(f);
    if t == {} {
      assert s + t == s;
    } else {
      var x :| x in t;
      SumUnion(s, t - {x}, f);
      SumRemove(t, f, x);
      SumRemove(s + t, f, x);
      assert s + t - {x} == s + (t - {x});
    }
  }

  lemma {:induction false} SumMono<K(!new)>(s: set<K>, t: set<K>, f: K -> nat, g: K -> nat)
    requires s <= t && forall x :: x in s ==> f(x) <= g(x)
    ensures Sum(s, f) <= Sum(t, g)
    decreases |s|
  {
    if s != {} {
      var x :| x in s;
      SumRemove(s, f, x);
      SumRemove(t, g, x);
      SumMono(s - {x}, t - {x}, f, g);
    }
  }

  lemma SumEqual<K(!new)>(s: set<K>, f: K -> nat, g: K -> nat)
    requires forall x :: x in s ==> f(x) == g(x)
    ensures Sum(s, f) == Sum(s, g)
  {
    SumMono(s, s, f, g);
    SumMono(s, s, g, f);
  }

  lemma {:induction false} SumAdd<K(!new)>(s: set<K>, f: K -> nat, g: K -> nat, h: K -> nat)
    requires forall x :: x in s ==> h(x) == f(x) + g(x)
    ensures Sum(s, h) == Sum(s, f) + Sum(s, g)
    decreases |s|
  {
    if s != {} {
      var x :| x in s;
      SumRemove(s, f, x);
      SumRemove(s, g, x);
      SumRemove(s, h, x);
      SumAdd(s - {x}, f, g, h);
    }
  }

  ghost function Image<N(!new), K(!new)>(s: set<N>, m: map<N, K>): set<K> {
    set n | n in s && n in m :: m[n]
  }

  /** Summing over the domain of an injective map is summing over its values. */
  lemma {:induction false} SumImage<N(!new), K(!new)>(s: set<N>, m: map<N, K>, f: K -> nat, g: N -> nat)
    requires forall n :: n in s ==> n in m && g(n) == f(m[n])
    requires forall n, n' :: n in s && n' in s && m[n] == m[n'] ==> n == n'
    ensures Sum(s, g) == Sum(Image(s, m), f)
    decreases |s|
  {
    var image := Image(s, m);
    if s == {} {
      assert image == {};
    } else {
      var n :| n in s;
      SumImage(s - {n}, m, f, g);
      SumRemove(s, g, n);
      SumRemove(image, f, m[n]);
      assert image - {m[n]} == Image(s - {n}, m);
    }
  }

  ghost function Members<K(!new), V(!new)>(s: set<K>, groupOf: K -> V, v: V): set<K> {
    set k | k in s && groupOf(k) == v
  }

  /** Summing group by group, each member belonging to the group `groupOf` gives. */
  lemma {:induction false} SumGroups<K(!new), V(!new)>(s: set<K>, groups: set<V>, groupOf: K -> V, f: K -> nat, inGroup: V -> nat)
    requires forall k :: k in s ==> groupOf(k) in groups
    requires forall v :: v in groups ==> inGroup(v) == Sum(Members(s, groupOf, v), f)
    ensures Sum(groups, inGroup) == Sum(s, f)
    decreases |groups|
  {
    hide Sum;
    SumEmpty(f);
    SumEmpty(inGroup);
    if groups == {} {
      assert s == {};
    } else {
      var v :| v in groups;
      var mine := Members(s, groupOf, v);
      var rest := s - mine;
      assert s == mine + rest;
      SumUnion(mine, rest, f);
      SumRemove(groups, inGroup, v);
      forall w | w in groups - {v} ensures inGroup(w) == Sum(Members(rest, groupOf, w), f) {
        assert Members(rest, groupOf, w) == Members(s, groupOf, w);
      }
      SumGroups(rest, groups - {v}, groupOf, f, inGroup);
    }
  }
}
