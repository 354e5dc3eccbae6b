/** The field of `BinaryElem32`: x^32 + x^15 + x^9 + x^7 + x^4 + x^3 + 1 is irreducible. */
module ElemField32 {
  import opened BinaryPoly
  import opened BinaryElem
  import opened Certificates
  import opened GaloisField
  import opened Irreducibility
  import opened Kronecker

  const ELEM32: Poly := {32, 15, 9, 7, 4, 3, 0}

  // ----- x^(2^d) for d up to 16 -----

  lemma Square1()
    ensures IsProduct(WORD, 0x8299, 0x2, 0x2, 0x4)
  {
    assert Checks(WORD, 0x8299, 0x2, 0x2, 0, 0x4, 0x4, 0, 0, 0, 0, 0, 0, 0);
  }

  lemma Square2()
    ensures IsProduct(WORD, 0x8299, 0x4, 0x4, 0x10)
  {
    assert Checks(WORD, 0x8299, 0x4, 0x4, 0, 0x10, 0x10, 0, 0, 0, 0, 0, 0, 0);
  }

  lemma Square3()
    ensures IsProduct(WORD, 0x8299, 0x10, 0x10, 0x100)
  {
    assert Checks(WORD, 0x8299, 0x10, 0x10, 0, 0x100, 0x100, 0, 0, 0, 0, 0, 0, 0);
  }

  lemma Square4()
    ensures IsProduct(WORD, 0x8299, 0x100, 0x100, 0x10000)
  {
    assert Checks(WORD, 0x8299, 0x100, 0x100, 0, 0x10000, 0x10000, 0, 0, 0, 0, 0, 0, 0);
  }

  lemma Square5()
    ensures IsProduct(WORD, 0x8299, 0x10000, 0x10000, 0x8299)
  {
    assert Checks(WORD, 0x8299, 0x10000, 0x10000, 0x1, 0x8299, 0x8299, 0, 0, 0, 0x1, 0, 0, 0);
  }

  lemma Square6()
    ensures IsProduct(WORD, 0x8299, 0x8299, 0x8299, 0x40044141)
  {
    assert Checks(WORD, 0x8299, 0x8299, 0x8299, 0, 0x40044141, 0x4149FF59, 0x40080, 0, 0, 0, 0, 0, 0);
  }

  lemma Square7()
    ensures IsProduct(WORD, 0x8299, 0x40044141, 0x40044141, 0x840934E0)
  {
    assert Checks(WORD, 0x8299, 0x40044141, 0x40044141, 0x10000839, 0x840934E0, 0xD149EE39, 0x41451C0, 0, 0, 0x10011868, 0x11, 0, 0);
  }

  lemma Square8()
    ensures IsProduct(WORD, 0x8299, 0x840934E0, 0x840934E0, 0x7CA554E7)
  {
    assert Checks(WORD, 0x8299, 0x840934E0, 0x840934E0, 0x401020EF, 0x7CA554E7, 0x6CD7151F, 0xB7FFFEE0, 0, 0, 0x42149E45, 0x20FB, 0, 0);
  }

  lemma Square9()
    ensures IsProduct(WORD, 0x8299, 0x7CA554E7, 0x7CA554E7, 0xD430FBCD)
  {
    assert Checks(WORD, 0x8299, 0x7CA554E7, 0x7CA554E7, 0x15504E98, 0xD430FBCD, 0x5384D5F3, 0xE600874C, 0xEDFF7880, 0x10000000, 0x190049A9, 0x7FFE94A, 0x16BF, 0);
  }

  lemma Square10()
    ensures IsProduct(WORD, 0x8299, 0xD430FBCD, 0xD430FBCD, 0x2318CDAC)
  {
    assert Checks(WORD, 0x8299, 0xD430FBCD, 0xD430FBCD, 0x51102D05, 0x2318CDAC, 0x3F709D11, 0x1292D5EC, 0xFDFFEA00, 0, 0x7E47A0F9, 0x1187056, 0xFAF, 0);
  }

  lemma Square11()
    ensures IsProduct(WORD, 0x8299, 0x2318CDAC, 0x2318CDAC, 0xBD0F5DD8)
  {
    assert Checks(WORD, 0x8299, 0x2318CDAC, 0x2318CDAC, 0x4050348, 0xBD0F5DD8, 0x19CC8038, 0x1198CBC0, 0xEE673400, 0, 0x4643323, 0x31953, 0x8C, 0);
  }

  lemma Square12()
    ensures IsProduct(WORD, 0x8299, 0xBD0F5DD8, 0xBD0F5DD8, 0xB0674B3B)
  {
    assert Checks(WORD, 0x8299, 0xBD0F5DD8, 0xBD0F5DD8, 0x45512253, 0xB0674B3B, 0xCEE50E6B, 0xF1501F90, 0xFFFFE000, 0, 0x588BDA86, 0x7F5F077, 0x2FF7, 0x8);
  }

  lemma Square13()
    ensures IsProduct(WORD, 0x8299, 0xB0674B3B, 0xB0674B3B, 0xB62D0A96)
  {
    assert Checks(WORD, 0x8299, 0xB0674B3B, 0xB0674B3B, 0x4500363B, 0xB62D0A96, 0xE5A79EA5, 0x3C88CEA, 0xFE7F7310, 0, 0x5F3907C0, 0x6DD43, 0x20BF, 0);
  }

  lemma Square14()
    ensures IsProduct(WORD, 0x8299, 0xB62D0A96, 0xB62D0A96, 0x8DD66319)
  {
    assert Checks(WORD, 0x8299, 0xB62D0A96, 0xB62D0A96, 0x45142675, 0x8DD66319, 0x4022985, 0xCD3BDD78, 0x7AD42200, 0, 0x5CAD3DFF, 0x35677D4, 0x802B, 0);
  }

  lemma Square15()
    ensures IsProduct(WORD, 0x8299, 0x8DD66319, 0x8DD66319, 0x615E1CAB)
  {
    assert Checks(WORD, 0x8299, 0x8DD66319, 0x8DD66319, 0x4051719A, 0x615E1CAB, 0xD380ABE3, 0x9F4A6D98, 0xECF71000, 0, 0x46935203, 0x6FCF4B, 0x31BC, 0);
  }

  lemma Square16()
    ensures IsProduct(WORD, 0x8299, 0x615E1CAB, 0x615E1CAB, 0x7A48E67A)
  {
    assert Checks(WORD, 0x8299, 0x615E1CAB, 0x615E1CAB, 0x14011B77, 0x7A48E67A, 0xBAD9D275, 0x740142FA, 0xEBFEBD00, 0, 0x1C7D0682, 0x3DCC2, 0x33D, 0);
  }

  lemma Squares()
    ensures Squared({1}, 9, Modulus(OfWord(0x8299), 32)) == OfWord(0xD430FBCD)
    ensures Squared({1}, 10, Modulus(OfWord(0x8299), 32)) == OfWord(0x2318CDAC)
    ensures Squared({1}, 11, Modulus(OfWord(0x8299), 32)) == OfWord(0xBD0F5DD8)
    ensures Squared({1}, 12, Modulus(OfWord(0x8299), 32)) == OfWord(0xB0674B3B)
    ensures Squared({1}, 13, Modulus(OfWord(0x8299), 32)) == OfWord(0xB62D0A96)
    ensures Squared({1}, 14, Modulus(OfWord(0x8299), 32)) == OfWord(0x8DD66319)
    ensures Squared({1}, 15, Modulus(OfWord(0x8299), 32)) == OfWord(0x615E1CAB)
    ensures Squared({1}, 16, Modulus(OfWord(0x8299), 32)) == OfWord(0x7A48E67A)
  {
    hide *;
    PowersOf256();
    LowFits();
    Start(32, WORD, 0x8299);
    Square1();
    Next(32, WORD, 0x8299, 0, 0x2, 0x4);
    Square2();
    Next(32, WORD, 0x8299, 1, 0x4, 0x10);
    Square3();
    Next(32, WORD, 0x8299, 2, 0x10, 0x100);
    Square4();
    Next(32, WORD, 0x8299, 3, 0x100, 0x10000);
    Square5();
    Next(32, WORD, 0x8299, 4, 0x10000, 0x8299);
    Square6();
    Next(32, WORD, 0x8299, 5, 0x8299, 0x40044141);
    Square7();
    Next(32, WORD, 0x8299, 6, 0x40044141, 0x840934E0);
    Square8();
    Next(32, WORD, 0x8299, 7, 0x840934E0, 0x7CA554E7);
    Square9();
    Next(32, WORD, 0x8299, 8, 0x7CA554E7, 0xD430FBCD);
    Square10();
    Next(32, WORD, 0x8299, 9, 0xD430FBCD, 0x2318CDAC);
    Square11();
    Next(32, WORD, 0x8299, 10, 0x2318CDAC, 0xBD0F5DD8);
    Square12();
    Next(32, WORD, 0x8299, 11, 0xBD0F5DD8, 0xB0674B3B);
    Square13();
    Next(32, WORD, 0x8299, 12, 0xB0674B3B, 0xB62D0A96);
    Square14();
    Next(32, WORD, 0x8299, 13, 0xB62D0A96, 0x8DD66319);
    Square15();
    Next(32, WORD, 0x8299, 14, 0x8DD66319, 0x615E1CAB);
    Square16();
    Next(32, WORD, 0x8299, 15, 0x615E1CAB, 0x7A48E67A);
  }

  // ----- inverses of x^(2^d) + x -----

  lemma Inverse9()
    ensures IsProduct(WORD, 0x8299, 0xD430FBCF, 0xE78966E, 1) && Differ(256, 0xD430FBCD, 0xD430FBCF)
  {
    assert Checks(WORD, 0x8299, 0xD430FBCF, 0xE78966E, 0x47D2AD3, 0x1, 0xC354A197, 0x3CE101F8, 0xFFFFFE00, 0, 0x7C200FF, 0x3DECE2, 0x31F, 0);
  }

  lemma Inverse10()
    ensures IsProduct(WORD, 0x8299, 0x2318CDAE, 0x265F143B, 1) && Differ(256, 0x2318CDAC, 0x2318CDAE)
  {
    assert Checks(WORD, 0x8299, 0x2318CDAE, 0x265F143B, 0x4A24DCB, 0x1, 0xAFF0B1C7, 0xC04133F8, 0x7FBECC00, 0, 0x4ED83AD, 0x27FEC, 0x13, 0);
  }

  lemma Inverse11()
    ensures IsProduct(WORD, 0x8299, 0xBD0F5DDA, 0xCC9B55F4, 1) && Differ(256, 0xBD0F5DD8, 0xBD0F5DDA)
  {
    assert Checks(WORD, 0x8299, 0xBD0F5DDA, 0xCC9B55F4, 0x76895B11, 0x1, 0xCCE98379, 0xF5940780, 0xFFFFF800, 0, 0x7931CE01, 0x6CFC479, 0x3BF9, 0x6);
  }

  lemma Inverse12()
    ensures IsProduct(WORD, 0x8299, 0xB0674B39, 0x6EFBD20B, 1) && Differ(256, 0xB0674B3B, 0xB0674B39)
  {
    assert Checks(WORD, 0x8299, 0xB0674B39, 0x6EFBD20B, 0x3C5A4132, 0x1, 0xF21675CB, 0xE485DB30, 0xFFFA0000, 0, 0x3BA9ECD8, 0x45FE4A7, 0x1B7F, 0);
  }

  lemma Inverse13()
    ensures IsProduct(WORD, 0x8299, 0xB62D0A94, 0x9F63BA9A, 1) && Differ(256, 0xB62D0A96, 0xB62D0A94)
  {
    assert Checks(WORD, 0x8299, 0xB62D0A94, 0x9F63BA9A, 0x56FD03D1, 0x1, 0x86E5A879, 0x7027FF80, 0xFFD80000, 0, 0x5C34F1E5, 0x3FFF08B, 0xF7F, 0);
  }

  lemma Inverse14()
    ensures IsProduct(WORD, 0x8299, 0x8DD6631B, 0x159ED88A, 1) && Differ(256, 0x8DD66319, 0x8DD6631B)
  {
    assert Checks(WORD, 0x8299, 0x8DD6631B, 0x159ED88A, 0xA2EF1A7, 0x1, 0x2390F84F, 0x18205FB0, 0xFFFF8000, 0, 0xAF438A8, 0xFB88D, 0x4777, 0);
  }

  lemma Inverse15()
    ensures IsProduct(WORD, 0x8299, 0x615E1CA9, 0x5E2A74B, 1) && Differ(256, 0x615E1CAB, 0x615E1CA9)
  {
    assert Checks(WORD, 0x8299, 0x615E1CA9, 0x5E2A74B, 0x1C00AC2, 0x1, 0xCB18CBB, 0xABDF40, 0xFF542000, 0, 0x1FD8A6E, 0x7F7C, 0x83, 0);
  }

  lemma Inverse16()
    ensures IsProduct(WORD, 0x8299, 0x7A48E678, 0x8A3A3186, 1) && Differ(256, 0x7A48E67A, 0x7A48E678)
  {
    assert Checks(WORD, 0x8299, 0x7A48E678, 0x8A3A3186, 0x3E097949, 0x1, 0xE6941B39, 0x31C7CC0, 0xFCE38000, 0, 0x3FF8566F, 0x7FEE2, 0x11D, 0);
  }

  lemma Inverses(d: nat)
    requires 8 < d <= 16
    ensures Coprime(Modulus(OfWord(0x8299), 32), d)
  {
    hide *;
    PowersOf256();
    Squares();
    match d
    case 9 =>
      Inverse9();
      InverseFound(32, WORD, 0x8299, 9, 0xD430FBCD, 0xD430FBCF, 0xE78966E);
    case 10 =>
      Inverse10();
      InverseFound(32, WORD, 0x8299, 10, 0x2318CDAC, 0x2318CDAE, 0x265F143B);
    case 11 =>
      Inverse11();
      InverseFound(32, WORD, 0x8299, 11, 0xBD0F5DD8, 0xBD0F5DDA, 0xCC9B55F4);
    case 12 =>
      Inverse12();
      InverseFound(32, WORD, 0x8299, 12, 0xB0674B3B, 0xB0674B39, 0x6EFBD20B);
    case 13 =>
      Inverse13();
      InverseFound(32, WORD, 0x8299, 13, 0xB62D0A96, 0xB62D0A94, 0x9F63BA9A);
    case 14 =>
      Inverse14();
      InverseFound(32, WORD, 0x8299, 14, 0x8DD66319, 0x8DD6631B, 0x159ED88A);
    case 15 =>
      Inverse15();
      InverseFound(32, WORD, 0x8299, 15, 0x615E1CAB, 0x615E1CA9, 0x5E2A74B);
    case _ =>
      Inverse16();
      InverseFound(32, WORD, 0x8299, 16, 0x7A48E67A, 0x7A48E678, 0x8A3A3186);
  }

  // ----- the modulus -----

  lemma LowFits()
    ensures Fits(WORD, 0x8299)
  {
  }

  lemma LowSteps()
    ensures Differ(0x1, 0, 0x1)
    ensures Differ(0x100_0000, 0x1, 0x9)
    ensures Differ(0x1_0000_0000, 0x9, 0x19)
    ensures Differ(0x100_0000_0000_0000, 0x19, 0x99)
    ensures Differ(0x100_0000_0000_0000_0000, 0x99, 0x299)
    ensures Differ(0x100_0000_0000_0000_0000_0000_0000_0000, 0x299, 0x8299)
  {
  }

  lemma LowPowers()
    ensures P256(0) == 0x1 && P256(3) == 0x100_0000 && P256(4) == 0x1_0000_0000 && P256(7) == 0x100_0000_0000_0000 && P256(9) == 0x100_0000_0000_0000_0000 && P256(15) == 0x100_0000_0000_0000_0000_0000_0000_0000
  {
    PowersOf256();
    PowerSum(8, 1);
    PowerSum(8, 7);
  }

  lemma LowBits()
    ensures OfWord(0x8299) == {15, 9, 7, 4, 3, 0} && Modulus(OfWord(0x8299), 32) == ELEM32
  {
    hide OfWord, Differ, P256;
    FirstWords();
    LowSteps();
    LowPowers();
    Plus(0, 0x1, 0, 0x1);
    Plus(3, 0x100_0000, 0x1, 0x9);
    Plus(4, 0x1_0000_0000, 0x9, 0x19);
    Plus(7, 0x100_0000_0000_0000, 0x19, 0x99);
    Plus(9, 0x100_0000_0000_0000_0000, 0x99, 0x299);
    Plus(15, 0x100_0000_0000_0000_0000_0000_0000_0000, 0x299, 0x8299);
  }

  lemma Elem32Irreducible()
    ensures IsModulus(ELEM32, 32) && ELEM32 == Modulus({15, 9, 7, 4, 3, 0}, 32)
  {
    hide Coprime, Len, OfWord, IsModulus, P256, Fits;
    forall d | 16 < 2 * d && d <= 16 ensures Coprime(Modulus(OfWord(0x8299), 32), d) {
      Inverses(d);
    }
    PowersOf256();
    LowFits();
    Degree(32, WORD, 0x8299);
    ScreenedAbove(Modulus(OfWord(0x8299), 32), 16);
    LowBits();
  }
}
