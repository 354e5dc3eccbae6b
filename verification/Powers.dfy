/** Powers of two and the positions of a complete binary heap. */
module Powers {

  function Pow2(k: nat): (r: nat)
    ensures r > 0
  {
    if k == 0 then 1 else 2 * Pow2(k - 1)
  }

  lemma Pow2Step(k: nat)
    ensures Pow2(k + 1) == Pow2(k) + Pow2(k) && Pow2(0) == 1
  {
  }

  lemma {:induction false} Pow2Mono(a: nat, b: nat)
    requires a <= b
    ensures Pow2(a) <= Pow2(b)
  {
    if a < b {
      Pow2Mono(a, b - 1);
    }
  }

  lemma Pow2Strict(a: nat, b: nat)
    requires a < b
    ensures Pow2(a) < Pow2(b)
  {
    Pow2Mono(a + 1, b);
  }

  lemma {:induction false} Pow2Larger(a: nat)
    ensures a < Pow2(a)
  {
    if a != 0 {
      Pow2Larger(a - 1);
    }
  }

  lemma SmallMod(n: nat, m: nat)
    requires n < m
    ensures n % m == n
  {
  }

  lemma Apart(m: nat, low: nat, high: nat)
    requires low < high
    ensures m * low + m <= m * high
  {
    var gap := high - low - 1;
    assert m * high == m * low + m + m * gap && m * gap >= 0;
  }

  /** The quotient and remainder of `m * i + t` by `m`. */
  lemma DivModSplit(m: nat, i: nat, t: nat)
    requires t < m
    ensures (m * i + t) / m == i && (m * i + t) % m == t
  {
    var n := m * i + t;
    var q, r := n / m, n % m;
    assert n == m * q + r;
    if q < i {
      Apart(m, q, i);
    } else if i < q {
      Apart(m, i, q);
    }
  }
}
