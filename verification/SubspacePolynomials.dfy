/** The linear map from indices to field points (`from_bits`) and the subspace polynomials s_k
    that vanish on the first 2^k of those points. */
module SubspacePolynomials {
  import opened Fields
  import opened Powers

  /** The field point of index `j`: the sum of g^b over the set bits b of `j`. */
  function Point<T>(F: Field<T>, g: T, j: nat): T {
    if j == 0 then F.zero
    else F.Add(if j % 2 == 1 then F.one else F.zero, F.Mul(g, Point(F, g, j / 2)))
  }

  /** `from_bits`: 64 rounds over a machine word, doubling `power` by the generator `g`. */
  method FromBits<T(!new)>(F: Field<T>, g: T, bits: nat) returns (result: T)
    requires IsField(F) && bits < Pow2(64)
    ensures result == Point(F, g, bits)
  {
    PointZero(F, g);
    assert bits % Pow2(0) == 0;
    hide Point, Pow2;
    result := F.zero;
    var power := F.one;
    for i := 0 to 64
      invariant power == Pow(F, g, if i < 64 then i else 63)
      invariant result == Point(F, g, bits % Pow2(i))
    {
      PointLowBits(F, g, bits, i);
      if (bits / Pow2(i)) % 2 == 1 {
        result := F.Add(result, power);
      }
      if i < 63 {
        power := F.Mul(power, g);
      }
    }
    SmallMod(bits, Pow2(64));
  }

  lemma PointCons<T(!new)>(F: Field<T>, g: T, j: nat, b: nat)
    requires IsField(F) && b < 2
    ensures Point(F, g, 2 * j + b) == F.Add(if b == 1 then F.one else F.zero, F.Mul(g, Point(F, g, j)))
  {
    MulZero(F, g);
  }

  lemma PointZero<T(!new)>(F: Field<T>, g: T)
    ensures Point(F, g, 0) == F.zero
  {
  }

  /** Concatenating bits adds points: the high part and the low part contribute independently. */
  lemma {:induction false} PointSplit<T(!new)>(F: Field<T>, g: T, l: nat, i: nat, t: nat)
    requires IsField(F) && t < Pow2(l)
    ensures Point(F, g, Pow2(l) * i + t) == F.Add(F.Mul(Pow(F, g, l), Point(F, g, i)), Point(F, g, t))
  {
    hide Point, Pow2;
    if l == 0 {
      PointZero(F, g);
      Pow2Step(0);
    } else {
      var h, u, b := Pow2(l - 1) * i, t / 2, t % 2;
      Pow2Step(l - 1);
      PointSplit(F, g, l - 1, i, u);
      PointCons(F, g, h + u, b);
      PointCons(F, g, u, b);
      Halve(Pow2(l - 1), i, t);
      PointStep(F, g, if b == 1 then F.one else F.zero, F.Mul(Pow(F, g, l - 1), Point(F, g, i)), Point(F, g, u));
      MulAssoc(F, g, Pow(F, g, l - 1), Point(F, g, i));
    }
  }

  lemma PointStep<T(!new)>(F: Field<T>, g: T, c: T, x: T, y: T)
    requires IsField(F)
    ensures F.Add(c, F.Mul(g, F.Add(x, y))) == F.Add(F.Mul(g, x), F.Add(c, F.Mul(g, y)))
  {
    Distrib(F, g, x, y);
    AddAssoc(F, c, F.Mul(g, x), F.Mul(g, y));
    AddAssoc(F, F.Mul(g, x), c, F.Mul(g, y));
  }

  lemma Halve(p: nat, i: nat, t: nat)
    ensures 2 * p * i + t == 2 * (p * i + t / 2) + t % 2
  {
  }

  /** The basis vector v_b is g^b. */
  lemma PointBasis<T(!new)>(F: Field<T>, g: T, b: nat)
    requires IsField(F)
    ensures Point(F, g, Pow2(b)) == Pow(F, g, b)
  {
    PointSplit(F, g, b, 1, 0);
    PointCons(F, g, 0, 1);
    MulZero(F, g);
  }

  /** Setting bit k adds v_k. */
  lemma PointHigh<T(!new)>(F: Field<T>, g: T, k: nat, t: nat)
    requires IsField(F) && t < Pow2(k)
    ensures Point(F, g, Pow2(k) + t) == F.Add(Point(F, g, Pow2(k)), Point(F, g, t))
  {
    hide Point;
    PointZero(F, g);
    PointSplit(F, g, k, 1, t);
    PointSplit(F, g, k, 1, 0);
  }

  lemma PointLowBits<T(!new)>(F: Field<T>, g: T, bits: nat, i: nat)
    requires IsField(F)
    ensures Point(F, g, bits % Pow2(i + 1)) ==
      if (bits / Pow2(i)) % 2 == 1 then F.Add(Point(F, g, bits % Pow2(i)), Pow(F, g, i))
      else Point(F, g, bits % Pow2(i))
  {
    var p := Pow2(i);
    LowBits(bits, p);
    if (bits / p) % 2 == 1 {
      PointHigh(F, g, i, bits % p);
      PointBasis(F, g, i);
    }
  }

  lemma LowBits(bits: nat, p: nat)
    requires p > 0
    ensures bits % (2 * p) == bits % p + if (bits / p) % 2 == 1 then p else 0
  {
    var q, t := bits / p, bits % p;
    var r, b := q / 2, q % 2;
    assert bits == p * (2 * r + b) + t;
    assert p * (2 * r + b) == (2 * p) * r + p * b;
    assert p * b == if b == 1 then p else 0;
    DivModSplit(2 * p, r, p * b + t);
  }

  /** s_0(x) = x and s_{k+1}(x) = s_k(x)^2 + s_k(v_k) s_k(x). */
  function S<T>(F: Field<T>, g: T, k: nat, x: T): T
    decreases k, 1
  {
    if k == 0 then x else NextS(F, S(F, g, k - 1, x), SRoot(F, g, k - 1))
  }

  /** s_k(v_k) */
  function SRoot<T>(F: Field<T>, g: T, k: nat): T
    decreases k, 2
  {
    S(F, g, k, Point(F, g, Pow2(k)))
  }

  /** `next_s` */
  function NextS<T>(F: Field<T>, sPrev: T, sPrevAtRoot: T): T {
    F.Add(F.Mul(sPrev, sPrev), F.Mul(sPrevAtRoot, sPrev))
  }

  lemma {:induction false} SAdd<T(!new)>(F: Field<T>, g: T, k: nat, x: T, y: T)
    requires IsBinary(F)
    ensures S(F, g, k, F.Add(x, y)) == F.Add(S(F, g, k, x), S(F, g, k, y))
  {
    if k != 0 {
      SAdd(F, g, k - 1, x, y);
      var a, b, r := S(F, g, k - 1, x), S(F, g, k - 1, y), SRoot(F, g, k - 1);
      SquareAdd(F, a, b);
      Distrib(F, r, a, b);
      AddSwap(F, F.Mul(a, a), F.Mul(b, b), F.Mul(r, a), F.Mul(r, b));
    }
  }

  /** s_{k+1}(x) = s_k(x) s_k(x + v_k) */
  lemma SFactor<T(!new)>(F: Field<T>, g: T, k: nat, x: T)
    requires IsBinary(F)
    ensures S(F, g, k + 1, x) == F.Mul(S(F, g, k, x), S(F, g, k, F.Add(x, Point(F, g, Pow2(k)))))
  {
    SAdd(F, g, k, x, Point(F, g, Pow2(k)));
    Distrib(F, S(F, g, k, x), S(F, g, k, x), SRoot(F, g, k));
  }

  /** s_k is zero on all 2^k points below index 2^k. */
  lemma {:induction false} SVanish<T(!new)>(F: Field<T>, g: T, k: nat, t: nat)
    requires IsBinary(F) && t < Pow2(k)
    ensures S(F, g, k, Point(F, g, t)) == F.zero
  {
    hide *;
    BinaryIsField(F);
    if k == 0 {
      Pow2Step(0);
      PointZero(F, g);
      SBase(F, g, Point(F, g, t));
    } else {
      var p, x := Pow2(k - 1), Point(F, g, t);
      Pow2Step(k - 1);
      SFactor(F, g, k - 1, x);
      if t < p {
        SVanish(F, g, k - 1, t);
      } else {
        PointHigh(F, g, k - 1, t - p);
        Uncover(F, Point(F, g, p), Point(F, g, t - p));
        SVanish(F, g, k - 1, t - p);
      }
      Annihilate(F, S(F, g, k - 1, x), S(F, g, k - 1, F.Add(x, Point(F, g, p))));
    }
  }

  /** The product of (x + point(j)) over j < n. */
  function RootProduct<T>(F: Field<T>, g: T, x: T, n: nat): T {
    if n == 0 then F.one else F.Mul(RootProduct(F, g, x, n - 1), F.Add(x, Point(F, g, n - 1)))
  }

  lemma {:induction false} RootProductShift<T(!new)>(F: Field<T>, g: T, x: T, k: nat, n: nat)
    requires IsBinary(F) && n <= Pow2(k)
    ensures RootProduct(F, g, x, Pow2(k) + n) ==
      F.Mul(RootProduct(F, g, x, Pow2(k)), RootProduct(F, g, F.Add(x, Point(F, g, Pow2(k))), n))
  {
    hide *;
    BinaryIsField(F);
    var p := Pow2(k);
    var y := F.Add(x, Point(F, g, p));
    if n == 0 {
      RootProductStep(F, g, x, p);
      RootProductStep(F, g, y, 0);
    } else {
      var u := Point(F, g, n - 1);
      RootProductShift(F, g, x, k, n - 1);
      RootProductStep(F, g, x, p + n - 1);
      RootProductStep(F, g, y, n - 1);
      PointHigh(F, g, k, n - 1);
      AddAssoc(F, x, Point(F, g, p), u);
      MulAssoc(F, RootProduct(F, g, x, p), RootProduct(F, g, y, n - 1), F.Add(y, u));
    }
  }

  lemma RootProductStep<T(!new)>(F: Field<T>, g: T, x: T, n: nat)
    requires IsField(F)
    ensures RootProduct(F, g, x, n + 1) == F.Mul(RootProduct(F, g, x, n), F.Add(x, Point(F, g, n)))
    ensures F.Mul(RootProduct(F, g, x, n), F.one) == RootProduct(F, g, x, n) && RootProduct(F, g, x, 0) == F.one
  {
  }

  /** s_k is exactly the vanishing polynomial: the product of (x + u) over the span of v_0..v_{k-1}. */
  lemma {:induction false} SIsRootProduct<T(!new)>(F: Field<T>, g: T, k: nat, x: T)
    requires IsBinary(F)
    ensures S(F, g, k, x) == RootProduct(F, g, x, Pow2(k))
  {
    hide *;
    if k == 0 {
      SBase(F, g, x);
    } else {
      var p := Pow2(k - 1);
      Pow2Step(k - 1);
      SIsRootProduct(F, g, k - 1, x);
      SIsRootProduct(F, g, k - 1, F.Add(x, Point(F, g, p)));
      SFactor(F, g, k - 1, x);
      RootProductShift(F, g, x, k - 1, p);
    }
  }

  lemma SBase<T(!new)>(F: Field<T>, g: T, x: T)
    requires IsBinary(F)
    ensures S(F, g, 0, x) == x == RootProduct(F, g, x, Pow2(0))
  {
    assert RootProduct(F, g, x, 1) == F.Mul(F.one, F.Add(x, Point(F, g, 0)));
  }

  lemma {:induction false} RootProductZero<T(!new)>(F: Field<T>, g: T, x: T, n: nat)
    requires IsBinary(F)
    ensures RootProduct(F, g, x, n) == F.zero <==> exists j :: 0 <= j < n && x == Point(F, g, j)
  {
    hide Point;
    if n != 0 {
      RootProductZero(F, g, x, n - 1);
      assert x == Point(F, g, n - 1) ==> exists j :: 0 <= j < n && x == Point(F, g, j);
      assert (exists j :: 0 <= j < n - 1 && x == Point(F, g, j)) ==> exists j :: 0 <= j < n && x == Point(F, g, j);
      NoZeroDivisors(F, RootProduct(F, g, x, n - 1), F.Add(x, Point(F, g, n - 1)));
      Flip(F, x, Point(F, g, n - 1));
    }
  }

  /** The roots of s_k are exactly the first 2^k points. */
  lemma SZero<T(!new)>(F: Field<T>, g: T, k: nat, x: T)
    requires IsBinary(F)
    ensures S(F, g, k, x) == F.zero <==> exists j :: 0 <= j < Pow2(k) && x == Point(F, g, j)
  {
    SIsRootProduct(F, g, k, x);
    RootProductZero(F, g, x, Pow2(k));
  }

  /** `from_bits` is injective on the indices below `n`. */
  ghost predicate DistinctPoints<T>(F: Field<T>, g: T, n: nat) {
    forall i, j :: 0 <= i < j < n ==> Point(F, g, i) != Point(F, g, j)
  }

  /** No s_b(v_b) with b < k is zero. */
  ghost predicate Regular<T>(F: Field<T>, g: T, k: nat) {
    forall b :: 0 <= b < k ==> SRoot(F, g, b) != F.zero
  }

  /** The twiddles are well defined exactly when the 2^k points are distinct. */
  lemma {:induction false} RegularIffDistinct<T(!new)>(F: Field<T>, g: T, k: nat)
    requires IsBinary(F)
    ensures Regular(F, g, k) <==> DistinctPoints(F, g, Pow2(k))
  {
    hide Point;
    if k != 0 {
      var p := Pow2(k - 1);
      RegularIffDistinct(F, g, k - 1);
      SZero(F, g, k - 1, Point(F, g, p));
      if Regular(F, g, k) {
        forall i, j | 0 <= i < j < 2 * p ensures Point(F, g, i) != Point(F, g, j) {
          DistinctStep(F, g, k - 1, i, j);
        }
      }
    }
  }

  lemma DistinctStep<T(!new)>(F: Field<T>, g: T, k: nat, i: nat, j: nat)
    requires IsBinary(F) && DistinctPoints(F, g, Pow2(k)) && SRoot(F, g, k) != F.zero
    requires i < j < Pow2(k + 1)
    ensures Point(F, g, i) != Point(F, g, j)
  {
    hide Point;
    var p := Pow2(k);
    if j >= p {
      PointHigh(F, g, k, j - p);
      if i >= p {
        PointHigh(F, g, k, i - p);
        if Point(F, g, i) == Point(F, g, j) {
          AddCancel(F, Point(F, g, i - p), Point(F, g, j - p), Point(F, g, p));
        }
      } else if Point(F, g, i) == Point(F, g, j) {
        SVanish(F, g, k, i);
        SAdd(F, g, k, Point(F, g, p), Point(F, g, j - p));
        SVanish(F, g, k, j - p);
      }
    }
  }
}
