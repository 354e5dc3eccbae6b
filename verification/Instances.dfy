/** The hypotheses of the sharing, OPRF and Merkle results can be met. */
module Instances {
  import opened Wrappers
  import opened Bytes
  import opened Powers
  import opened Fields
  import opened BinaryPoly
  import opened BinaryElem
  import opened GaloisField
  import opened BinaryElements
  import opened ElemField32
  import Escrow
  import opened MerkleTree
  import Oprf

  // ----- 32-bit words as elements of `BinaryElem32` -----

  /** The number with the given bits. */
  function NumberOf(p: Poly, n: nat): nat
    decreases n
  {
    if n == 0 then 0 else (if 0 in p then 1 else 0) + 2 * NumberOf(Down(p, 1), n - 1)
  }

  lemma {:induction false} NumberOfBits(j: nat, n: nat)
    requires j < Pow2(n)
    ensures Below(BitsOf(j), n) && NumberOf(BitsOf(j), n) == j
  {
    BitsOfBelow(j, n);
    BitsOfHalf(j);
    if n != 0 {
      NumberOfBits(j / 2, n - 1);
    }
  }

  lemma Split(p: Poly)
    ensures p == Xor(if 0 in p then {0} else {}, Shift(Down(p, 1), 1))
  {
    forall y: nat ensures y in p <==> y in Xor(if 0 in p then {0} else {}, Shift(Down(p, 1), 1)) {
      if y > 0 {
        assert y - 1 in Down(p, 1) <==> y in p;
        assert y in Shift(Down(p, 1), 1) <==> y - 1 in Down(p, 1);
      }
    }
  }

  lemma BitsOfNext(bit: bool, k: nat)
    ensures BitsOf((if bit then 1 else 0) + 2 * k) == Xor(if bit then {0} else {}, Shift(BitsOf(k), 1))
  {
    var j := (if bit then 1 else 0) + 2 * k;
    assert j / 2 == k && (j % 2 == 1 <==> bit);
  }

  lemma {:induction false} BitsOfNumber(p: Poly, n: nat)
    requires Below(p, n)
    ensures NumberOf(p, n) < Pow2(n) && BitsOf(NumberOf(p, n)) == p
    decreases n
  {
    hide Xor, Shift, BitsOf;
    if n == 0 {
      BitsOfNone();
    } else {
      BitsOfNumber(Down(p, 1), n - 1);
      BitsOfNext(0 in p, NumberOf(Down(p, 1), n - 1));
      Split(p);
    }
  }

  lemma BitsOfNone()
    ensures BitsOf(0) == {}
  {
  }

  lemma Pow2Word()
    ensures Pow2(32) == 0x1_0000_0000
  {
    assert Pow2(8) == 256;
    assert Pow2(16) == 0x1_0000;
    assert Pow2(24) == 0x100_0000;
  }

  function ElemOf(w: word): Elem32 {
    Pow2Word();
    BitsOfBelow(w, 32);
    BitsOf(w)
  }

  function WordOfElem(p: Elem32): word {
    Pow2Word();
    BitsOfNumber(p, 32);
    NumberOf(p, 32)
  }

  function WordCodec(): Escrow.Codec<Elem32> {
    Escrow.Codec((w: word) => ElemOf(w), (p: Elem32) => WordOfElem(p))
  }

  /** `BinaryElem32` is a field whose elements are the 32-bit words. */
  lemma EscrowHypotheses()
    ensures IsField(Field32()) && Escrow.IsCodec(Field32(), WordCodec())
  {
    hide Field32, IsBinary;
    Elem32IsField({}, {});
    BinaryIsField(Field32());
    Field32Zero();
    Pow2Word();
    forall w: word ensures WordOfElem(ElemOf(w)) == w {
      NumberOfBits(w, 32);
    }
    forall p: Elem32 ensures ElemOf(WordOfElem(p)) == p {
      BitsOfNumber(p, 32);
    }
  }

  lemma Field32Zero()
    ensures Field32().zero == {}
  {
    Elem32Irreducible();
    WordsCarry();
    CarrierBits(Words32(), 32, ELEM32, {}, {});
  }

  // ----- the reals as scalars and points -----

  function Reals(): Field<real> {
    Field(0.0, 1.0, (a, b) => a + b, (a, b) => a * b, a => -a, a => if a == 0.0 then 0.0 else 1.0 / a)
  }

  function RealGroup(): Oprf.Group<real, real, real, real, real> {
    Oprf.Group(0.0, 1.0, (a, b) => a + b, (p, s) => p * s, p => p, e => Some(e), i => i, e => e, (a, b, c, d, e, f) => a)
  }

  lemma {:induction false} OfNatReal(n: nat)
    ensures Oprf.OfNat(Reals(), n) == n as real
  {
    if n != 0 {
      OfNatReal(n - 1);
    }
  }

  lemma RealLaws(a: real, b: real, c: real)
    ensures (a * b) * c == a * (b * c) && a * (b + c) == a * b + a * c
    ensures a != 0.0 ==> a * (1.0 / a) == 1.0
  {
  }

  lemma RealsAreField()
    ensures IsField(Reals())
  {
    var F := Reals();
    forall a: real, b: real, c: real {:trigger At(a, b, c)} | At(a, b, c)
      ensures F.Add(F.Add(a, b), c) == F.Add(a, F.Add(b, c))
      ensures F.Mul(F.Mul(a, b), c) == F.Mul(a, F.Mul(b, c)) && F.Mul(a, F.Add(b, c)) == F.Add(F.Mul(a, b), F.Mul(a, c))
    {
      RealLaws(a, b, c);
    }
    forall a | a != 0.0 ensures F.Mul(a, F.Inv(a)) == 1.0 {
      RealLaws(a, a, a);
    }
  }

  /** Scalars that act on points, with encodings that can be read back and 256 distinct indices. */
  lemma OprfHypotheses()
    ensures Oprf.IsGroup(Reals(), RealGroup()) && Oprf.IsAbelian(RealGroup()) && Oprf.DistinctIndices(Reals())
  {
    hide IsField, Oprf.OfNat;
    RealsAreField();
    var F, G := Reals(), RealGroup();
    forall p: real, a: real, b: real
      ensures G.Scale(G.Scale(p, a), b) == G.Scale(p, F.Mul(a, b)) && G.Add(G.Scale(p, a), G.Scale(p, b)) == G.Scale(p, F.Add(a, b))
    {
      RealLaws(p, a, b);
    }
    forall i: nat, j: nat | i < j < 256 ensures Oprf.OfNat(Reals(), i) != Oprf.OfNat(Reals(), j) {
      OfNatReal(i);
      OfNatReal(j);
    }
  }

  // ----- hashes without collisions -----

  datatype Tree<L> = Blank | Leaf(value: L) | Node(left: Tree<L>, right: Tree<L>)

  function FreeHasher<L>(): Hasher<L, Tree<L>> {
    Hasher(l => Leaf(l), (a, b) => Node(a, b), Blank)
  }

  lemma HashHypotheses<L(!new)>(pairs: set<(Tree<L>, Tree<L>)>, leaves: set<L>)
    ensures NodesApart(FreeHasher<L>(), pairs) && LeavesApart(FreeHasher<L>(), leaves)
  {
  }
}
