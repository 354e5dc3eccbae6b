/** `BinaryElem16` and `BinaryElem32` (`binary-fields/src/elem.rs`): the results on binary fields without hypotheses. */
module BinaryElements {
  import opened Powers
  import opened Fields
  import opened SubspacePolynomials
  import opened BinaryPoly
  import opened BinaryElem
  import opened GaloisField
  import opened ElemField16
  import opened ElemField32
  import opened Twiddles
  import opened ReedSolomon

  type Elem16 = p: Poly | BinaryPoly.Below(p, 16) witness {}

  type Elem32 = p: Poly | BinaryPoly.Below(p, 32) witness {}

  function Words16(): Carrier<Elem16> {
    var bits: Elem16 -> Poly := (b: Elem16) => b;
    var word: Poly -> Elem16 := (p: Poly) => Low(p, 16);
    Carrier(bits, word)
  }

  function Words32(): Carrier<Elem32> {
    var bits: Elem32 -> Poly := (b: Elem32) => b;
    var word: Poly -> Elem32 := (p: Poly) => Low(p, 32);
    Carrier(bits, word)
  }

  lemma WordsCarry()
    ensures IsCarrier(Words16(), 16) && IsCarrier(Words32(), 32)
  {
    forall p: Poly | BinaryPoly.Below(p, 16) ensures Low(p, 16) == p {
    }
    forall p: Poly | BinaryPoly.Below(p, 32) ensures Low(p, 32) == p {
    }
  }

  ghost function Field16(): Field<Elem16> {
    WordsCarry();
    Elem16Irreducible();
    ResidueField(Words16(), 16, ELEM16)
  }

  ghost function Field32(): Field<Elem32> {
    WordsCarry();
    Elem32Irreducible();
    ResidueField(Words32(), 32, ELEM32)
  }

  lemma ResidueInverse<T(!new)>(C: Carrier<T>, n: nat, m: Poly, a: T)
    requires IsCarrier(C, n) && IsModulus(m, n) && n >= 1 && C.bits(a) != {}
    ensures Pow2(n) >= 2 && MulMod(C.bits(a), C.bits(Pow(ResidueField(C, n, m), a, Pow2(n) - 2)), m) == {0}
  {
    hide Pow, MulMod, ResidueField, IsModulus;
    Pow2Mono(1, n);
    InverseIsPower(C, n, m, a);
    CarrierBits(C, n, m, a, Pow(ResidueField(C, n, m), a, Pow2(n) - 2));
  }

  /** Sums are exclusive or, products are reduced by 0x1002D, and a^(2^16 - 2) inverts every element other than 0. */
  lemma Elem16IsField(a: Elem16, b: Elem16)
    ensures IsBinary(Field16())
    ensures Field16().Add(a, b) == Xor(a, b) && Field16().Mul(a, b) == MulMod(a, b, Modulus({5, 3, 2, 0}, 16))
    ensures a != {} ==> MulMod(a, Pow(Field16(), a, Pow2(16) - 2), Modulus({5, 3, 2, 0}, 16)) == {0}
  {
    hide Pow, Pow2, MulMod, Low, ResidueField, IsModulus, IsBinary;
    WordsCarry();
    Elem16Irreducible();
    ResidueFieldIsBinary(Words16(), 16, ELEM16);
    CarrierBits(Words16(), 16, ELEM16, a, b);
    if a != {} {
      ResidueInverse(Words16(), 16, ELEM16, a);
    }
  }

  lemma Elem32IsField(a: Elem32, b: Elem32)
    ensures IsBinary(Field32())
    ensures Field32().Add(a, b) == Xor(a, b) && Field32().Mul(a, b) == MulMod(a, b, Modulus({15, 9, 7, 4, 3, 0}, 32))
    ensures a != {} ==> MulMod(a, Pow(Field32(), a, Pow2(32) - 2), Modulus({15, 9, 7, 4, 3, 0}, 32)) == {0}
  {
    hide Pow, Pow2, MulMod, Low, ResidueField, IsModulus, IsBinary;
    WordsCarry();
    Elem32Irreducible();
    ResidueFieldIsBinary(Words32(), 32, ELEM32);
    CarrierBits(Words32(), 32, ELEM32, a, b);
    if a != {} {
      ResidueInverse(Words32(), 32, ELEM32, a);
    }
  }

  /** The code over the residues of an irreducible modulus of degree b, for every block of at most 2^b symbols. */
  lemma ResidueDistance<T(!new)>(C: Carrier<T>, b: nat, modulus: Poly, tw: seq<T>, n: nat, k: nat, m: seq<T>, m': seq<T>)
    requires IsCarrier(C, b) && IsModulus(modulus, b) && 2 <= b && k <= n <= b
    requires var F := ResidueField(C, b, modulus); IsTable(F, C.of({1}), n, F.zero, tw)
    requires |m| == |m'| == Pow2(k) <= Pow2(n) && m != m'
    ensures IsBinary(ResidueField(C, b, modulus)) && Encoding(ResidueField(C, b, modulus), tw, n, k, m)[..Pow2(k)] == m
    ensures var F := ResidueField(C, b, modulus);
      |Agree(Encoding(F, tw, n, k, m), Encoding(F, tw, n, k, m'), Pow2(n))| < Pow2(k)
  {
    hide ResidueField, IsTable, Encoding, Agree, Point, IsModulus, Pow2;
    var F, g := ResidueField(C, b, modulus), C.of({1});
    ResidueFieldIsBinary(C, b, modulus);
    PointsAreDistinct(C, b, modulus);
    Pow2Mono(n, b);
    assert DistinctPoints(F, g, Pow2(n));
    MinimumDistance(F, g, tw, n, k, m, m');
    forall j | 0 <= j < Pow2(k) ensures Encoding(F, tw, n, k, m)[j] == m[j] {
      EncodeSymbol(F, g, tw, n, k, m, j);
    }
  }

  /** Reed-Solomon over `BinaryElem16`: systematic, and different messages agree in fewer than message_length symbols. */
  lemma CodeOverElem16(tw: seq<Elem16>, n: nat, k: nat, m: seq<Elem16>, m': seq<Elem16>)
    requires k <= n <= 16 && IsTable(Field16(), {1}, n, {}, tw)
    requires |m| == |m'| == Pow2(k) <= Pow2(n) && m != m'
    ensures IsBinary(Field16()) && Encoding(Field16(), tw, n, k, m)[..Pow2(k)] == m
    ensures |Agree(Encoding(Field16(), tw, n, k, m), Encoding(Field16(), tw, n, k, m'), Pow2(n))| < Pow2(k)
  {
    hide IsTable, Encoding, Agree, IsModulus, Pow2, ResidueField;
    WordsCarry();
    Elem16Irreducible();
    CarrierBits(Words16(), 16, ELEM16, {1}, {1});
    ResidueDistance(Words16(), 16, ELEM16, tw, n, k, m, m');
  }

  lemma CodeOverElem32(tw: seq<Elem32>, n: nat, k: nat, m: seq<Elem32>, m': seq<Elem32>)
    requires k <= n <= 32 && IsTable(Field32(), {1}, n, {}, tw)
    requires |m| == |m'| == Pow2(k) <= Pow2(n) && m != m'
    ensures IsBinary(Field32()) && Encoding(Field32(), tw, n, k, m)[..Pow2(k)] == m
    ensures |Agree(Encoding(Field32(), tw, n, k, m), Encoding(Field32(), tw, n, k, m'), Pow2(n))| < Pow2(k)
  {
    hide IsTable, Encoding, Agree, IsModulus, Pow2, ResidueField;
    WordsCarry();
    Elem32Irreducible();
    CarrierBits(Words32(), 32, ELEM32, {1}, {1});
    ResidueDistance(Words32(), 32, ELEM32, tw, n, k, m, m');
  }
}
