/** The field of `BinaryElem16`: x^16 + x^5 + x^3 + x^2 + 1 is irreducible. */
module ElemField16 {
  import opened BinaryPoly
  import opened BinaryElem
  import opened Certificates
  import opened GaloisField
  import opened Irreducibility
  import opened Kronecker

  const ELEM16: Poly := {16, 5, 3, 2, 0}

  // ----- x^(2^d) for d up to 8 -----

  lemma Square1()
    ensures IsProduct(ROW * ROW, 0x2D, 0x2, 0x2, 0x4)
  {
    assert Checks(ROW * ROW, 0x2D, 0x2, 0x2, 0, 0x4, 0x4, 0, 0, 0, 0, 0, 0, 0);
  }

  lemma Square2()
    ensures IsProduct(ROW * ROW, 0x2D, 0x4, 0x4, 0x10)
  {
    assert Checks(ROW * ROW, 0x2D, 0x4, 0x4, 0, 0x10, 0x10, 0, 0, 0, 0, 0, 0, 0);
  }

  lemma Square3()
    ensures IsProduct(ROW * ROW, 0x2D, 0x10, 0x10, 0x100)
  {
    assert Checks(ROW * ROW, 0x2D, 0x10, 0x10, 0, 0x100, 0x100, 0, 0, 0, 0, 0, 0, 0);
  }

  lemma Square4()
    ensures IsProduct(ROW * ROW, 0x2D, 0x100, 0x100, 0x2D)
  {
    assert Checks(ROW * ROW, 0x2D, 0x100, 0x100, 0x1, 0x2D, 0x1002D, 0, 0, 0, 0, 0, 0, 0);
  }

  lemma Square5()
    ensures IsProduct(ROW * ROW, 0x2D, 0x2D, 0x2D, 0x451)
  {
    assert Checks(ROW * ROW, 0x2D, 0x2D, 0x2D, 0, 0x451, 0x5DD, 0x20, 0, 0, 0, 0, 0, 0);
  }

  lemma Square6()
    ensures IsProduct(ROW * ROW, 0x2D, 0x451, 0x451, 0x13D1)
  {
    assert Checks(ROW * ROW, 0x2D, 0x451, 0x451, 0x10, 0x13D1, 0x115381, 0x450, 0, 0, 0, 0, 0, 0);
  }

  lemma Square7()
    ensures IsProduct(ROW * ROW, 0x2D, 0x13D1, 0x13D1, 0x7C98)
  {
    assert Checks(ROW * ROW, 0x2D, 0x13D1, 0x13D1, 0x105, 0x7C98, 0x13B326D, 0x5FD90, 0, 0, 0, 0, 0, 0);
  }

  lemma Square8()
    ensures IsProduct(ROW * ROW, 0x2D, 0x7C98, 0x7C98, 0x18A)
  {
    assert Checks(ROW * ROW, 0x2D, 0x7C98, 0x7C98, 0x1552, 0x18A, 0x1908D21A, 0x7F5EDC0, 0x20000, 0, 0, 0, 0, 0);
  }

  lemma Squares()
    ensures Squared({1}, 5, Modulus(OfWord(0x2D), 16)) == OfWord(0x451)
    ensures Squared({1}, 6, Modulus(OfWord(0x2D), 16)) == OfWord(0x13D1)
    ensures Squared({1}, 7, Modulus(OfWord(0x2D), 16)) == OfWord(0x7C98)
    ensures Squared({1}, 8, Modulus(OfWord(0x2D), 16)) == OfWord(0x18A)
  {
    hide *;
    PowersOf256();
    LowFits();
    Start(16, ROW * ROW, 0x2D);
    Square1();
    Next(16, ROW * ROW, 0x2D, 0, 0x2, 0x4);
    Square2();
    Next(16, ROW * ROW, 0x2D, 1, 0x4, 0x10);
    Square3();
    Next(16, ROW * ROW, 0x2D, 2, 0x10, 0x100);
    Square4();
    Next(16, ROW * ROW, 0x2D, 3, 0x100, 0x2D);
    Square5();
    Next(16, ROW * ROW, 0x2D, 4, 0x2D, 0x451);
    Square6();
    Next(16, ROW * ROW, 0x2D, 5, 0x451, 0x13D1);
    Square7();
    Next(16, ROW * ROW, 0x2D, 6, 0x13D1, 0x7C98);
    Square8();
    Next(16, ROW * ROW, 0x2D, 7, 0x7C98, 0x18A);
  }

  // ----- inverses of x^(2^d) + x -----

  lemma Inverse5()
    ensures IsProduct(ROW * ROW, 0x2D, 0x453, 0x366E, 1) && Differ(256, 0x451, 0x453)
  {
    assert Checks(ROW * ROW, 0x2D, 0x453, 0x366E, 0xD7, 0x1, 0xDEC3C3, 0x13EFC, 0, 0, 0, 0, 0, 0);
  }

  lemma Inverse6()
    ensures IsProduct(ROW * ROW, 0x2D, 0x13D3, 0x2166, 1) && Differ(256, 0x13D1, 0x13D3)
  {
    assert Checks(ROW * ROW, 0x2D, 0x13D3, 0x2166, 0x26F, 0x1, 0x27DC373, 0x27FEC, 0, 0, 0, 0, 0, 0);
  }

  lemma Inverse7()
    ensures IsProduct(ROW * ROW, 0x2D, 0x7C9A, 0xA708, 1) && Differ(256, 0x7C98, 0x7C9A)
  {
    assert Checks(ROW * ROW, 0x2D, 0x7C9A, 0xA708, 0x30AD, 0x1, 0x3F010B5D, 0xFFF4A0, 0, 0, 0, 0, 0, 0);
  }

  lemma Inverse8()
    ensures IsProduct(ROW * ROW, 0x2D, 0x188, 0x5538, 1) && Differ(256, 0x18A, 0x188)
  {
    assert Checks(ROW * ROW, 0x2D, 0x188, 0x5538, 0x7D, 0x1, 0x7FB61D, 0x9E0, 0, 0, 0, 0, 0, 0);
  }

  lemma Inverses(d: nat)
    requires 4 < d <= 8
    ensures Coprime(Modulus(OfWord(0x2D), 16), d)
  {
    hide *;
    PowersOf256();
    Squares();
    match d
    case 5 =>
      Inverse5();
      InverseFound(16, ROW * ROW, 0x2D, 5, 0x451, 0x453, 0x366E);
    case 6 =>
      Inverse6();
      InverseFound(16, ROW * ROW, 0x2D, 6, 0x13D1, 0x13D3, 0x2166);
    case 7 =>
      Inverse7();
      InverseFound(16, ROW * ROW, 0x2D, 7, 0x7C98, 0x7C9A, 0xA708);
    case _ =>
      Inverse8();
      InverseFound(16, ROW * ROW, 0x2D, 8, 0x18A, 0x188, 0x5538);
  }

  // ----- the modulus -----

  lemma LowFits()
    ensures Fits(ROW * ROW, 0x2D)
  {
  }

  lemma LowSteps()
    ensures Differ(0x1, 0, 0x1)
    ensures Differ(0x1_0000, 0x1, 0x5)
    ensures Differ(0x100_0000, 0x5, 0xD)
    ensures Differ(0x100_0000_0000, 0xD, 0x2D)
  {
  }

  lemma LowPowers()
    ensures P256(0) == 0x1 && P256(2) == 0x1_0000 && P256(3) == 0x100_0000 && P256(5) == 0x100_0000_0000
  {
  }

  lemma LowBits()
    ensures OfWord(0x2D) == {5, 3, 2, 0} && Modulus(OfWord(0x2D), 16) == ELEM16
  {
    hide OfWord, Differ, P256;
    FirstWords();
    LowSteps();
    LowPowers();
    Plus(0, 0x1, 0, 0x1);
    Plus(2, 0x1_0000, 0x1, 0x5);
    Plus(3, 0x100_0000, 0x5, 0xD);
    Plus(5, 0x100_0000_0000, 0xD, 0x2D);
  }

  lemma Elem16Irreducible()
    ensures IsModulus(ELEM16, 16) && ELEM16 == Modulus({5, 3, 2, 0}, 16)
  {
    hide Coprime, Len, OfWord, IsModulus, P256, Fits;
    forall d | 8 < 2 * d && d <= 8 ensures Coprime(Modulus(OfWord(0x2D), 16), d) {
      Inverses(d);
    }
    PowersOf256();
    LowFits();
    Degree(16, ROW * ROW, 0x2D);
    ScreenedAbove(Modulus(OfWord(0x2D), 16), 8);
    LowBits();
  }
}
