/** The field of `gf256_mul`: x^8 + x^4 + x^3 + x + 1 is irreducible. */
module AesField {
  import opened BinaryPoly
  import opened BinaryElem
  import opened Certificates
  import opened GaloisField
  import opened Irreducibility
  import opened Kronecker

  const AES: Poly := {8, 4, 3, 1, 0}

  // ----- x^(2^d) for d up to 4 -----

  lemma Square1()
    ensures IsProduct(ROW, 0x1B, 0x2, 0x2, 0x4)
  {
    assert Checks(ROW, 0x1B, 0x2, 0x2, 0, 0x4, 0x4, 0, 0, 0, 0, 0, 0, 0);
  }

  lemma Square2()
    ensures IsProduct(ROW, 0x1B, 0x4, 0x4, 0x10)
  {
    assert Checks(ROW, 0x1B, 0x4, 0x4, 0, 0x10, 0x10, 0, 0, 0, 0, 0, 0, 0);
  }

  lemma Square3()
    ensures IsProduct(ROW, 0x1B, 0x10, 0x10, 0x1B)
  {
    assert Checks(ROW, 0x1B, 0x10, 0x10, 0x1, 0x1B, 0x11B, 0, 0, 0, 0, 0, 0, 0);
  }

  lemma Square4()
    ensures IsProduct(ROW, 0x1B, 0x1B, 0x1B, 0x5E)
  {
    assert Checks(ROW, 0x1B, 0x1B, 0x1B, 0x1, 0x5E, 0x1F5, 0x1A, 0, 0, 0, 0, 0, 0);
  }

  lemma Squares()
    ensures Squared({1}, 3, Modulus(OfWord(0x1B), 8)) == OfWord(0x1B)
    ensures Squared({1}, 4, Modulus(OfWord(0x1B), 8)) == OfWord(0x5E)
  {
    hide *;
    PowersOf256();
    LowFits();
    Start(8, ROW, 0x1B);
    Square1();
    Next(8, ROW, 0x1B, 0, 0x2, 0x4);
    Square2();
    Next(8, ROW, 0x1B, 1, 0x4, 0x10);
    Square3();
    Next(8, ROW, 0x1B, 2, 0x10, 0x1B);
    Square4();
    Next(8, ROW, 0x1B, 3, 0x1B, 0x5E);
  }

  // ----- inverses of x^(2^d) + x -----

  lemma Inverse3()
    ensures IsProduct(ROW, 0x1B, 0x19, 0x3F, 1) && Differ(256, 0x1B, 0x19)
  {
    assert Checks(ROW, 0x1B, 0x19, 0x3F, 0x2, 0x1, 0x3CF, 0x30, 0, 0, 0, 0, 0, 0);
  }

  lemma Inverse4()
    ensures IsProduct(ROW, 0x1B, 0x5C, 0x51, 1) && Differ(256, 0x5E, 0x5C)
  {
    assert Checks(ROW, 0x1B, 0x5C, 0x51, 0x13, 0x1, 0x16EF, 0x110, 0, 0, 0, 0, 0, 0);
  }

  lemma Inverses(d: nat)
    requires 2 < d <= 4
    ensures Coprime(Modulus(OfWord(0x1B), 8), d)
  {
    hide *;
    PowersOf256();
    Squares();
    match d
    case 3 =>
      Inverse3();
      InverseFound(8, ROW, 0x1B, 3, 0x1B, 0x19, 0x3F);
    case _ =>
      Inverse4();
      InverseFound(8, ROW, 0x1B, 4, 0x5E, 0x5C, 0x51);
  }

  // ----- the modulus -----

  lemma LowFits()
    ensures Fits(ROW, 0x1B)
  {
  }

  lemma LowSteps()
    ensures Differ(0x1, 0, 0x1)
    ensures Differ(0x100, 0x1, 0x3)
    ensures Differ(0x100_0000, 0x3, 0xB)
    ensures Differ(0x1_0000_0000, 0xB, 0x1B)
  {
  }

  lemma LowPowers()
    ensures P256(0) == 0x1 && P256(1) == 0x100 && P256(3) == 0x100_0000 && P256(4) == 0x1_0000_0000
  {
  }

  lemma LowBits()
    ensures OfWord(0x1B) == {4, 3, 1, 0} && Modulus(OfWord(0x1B), 8) == AES
  {
    hide OfWord, Differ, P256;
    FirstWords();
    LowSteps();
    LowPowers();
    Plus(0, 0x1, 0, 0x1);
    Plus(1, 0x100, 0x1, 0x3);
    Plus(3, 0x100_0000, 0x3, 0xB);
    Plus(4, 0x1_0000_0000, 0xB, 0x1B);
  }

  lemma AesIrreducible()
    ensures IsModulus(AES, 8) && AES == Modulus({4, 3, 1, 0}, 8)
  {
    hide Coprime, Len, OfWord, IsModulus, P256, Fits;
    forall d | 4 < 2 * d && d <= 4 ensures Coprime(Modulus(OfWord(0x1B), 8), d) {
      Inverses(d);
    }
    PowersOf256();
    LowFits();
    Degree(8, ROW, 0x1B);
    ScreenedAbove(Modulus(OfWord(0x1B), 8), 4);
    LowBits();
  }
}
