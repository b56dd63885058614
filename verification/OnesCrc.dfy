// The CRC of 192 bytes 0xFF, computed: a block that passes the check never looks like erased flash.
module OnesCrc {
  import opened Bytes
  import opened Crc32
  import opened CrcDetection

  function FourSteps(r: bv32): bv32 {
    BitStep(BitStep(BitStep(BitStep(r))))
  }

  function SixteenSteps(r: bv32): bv32 {
    FourSteps(FourSteps(FourSteps(FourSteps(r))))
  }

  // The register after four bytes 0xFF.
  function OnesWord(r: bv32): bv32 {
    SixteenSteps(SixteenSteps(r ^ 0xFFFFFFFF))
  }

  lemma IterFour(n: nat, r: bv32)
    ensures Iter(n + 4, r) == Iter(n, FourSteps(r))
  {
    hide BitStep;
    assert Iter(n + 4, r) == Iter(n + 2, BitStep(BitStep(r)));
  }

  lemma IterSixteen(n: nat, r: bv32)
    ensures Iter(n + 16, r) == Iter(n, SixteenSteps(r))
  {
    hide Iter, FourSteps;
    IterFour(n + 12, r);
    IterFour(n + 8, FourSteps(r));
    IterFour(n + 4, FourSteps(FourSteps(r)));
    IterFour(n, FourSteps(FourSteps(FourSteps(r))));
  }

  lemma WordOfOnes(a: byte)
    ensures a == 0xFF ==> Join(a, a, a, a) == 0xFFFFFFFF
  {
  }

  lemma OnesWordIsReg(r: bv32)
    ensures Reg(r, Ones(4)) == OnesWord(r)
  {
    hide Reg, SixteenSteps, Xor, Join, Iter;
    var s := Ones(4);
    WordOfOnes(s[0]);
    RegFourBytes(r, s);
    XorIs(r, 0xFFFFFFFF);
    var x := r ^ 0xFFFFFFFF;
    IterSixteen(16, x);
    IterSixteen(0, SixteenSteps(x));
    NoSteps(SixteenSteps(SixteenSteps(x)));
  }

  lemma NoSteps(r: bv32)
    ensures Iter(0, r) == r
  {
  }

  lemma RegOnes(r: bv32, m: nat, n: nat)
    ensures Reg(r, Ones(m + n)) == Reg(Reg(r, Ones(m)), Ones(n))
  {
    hide Reg;
    assert Ones(m + n) == Ones(m) + Ones(n);
    RegConcat(r, Ones(m), Ones(n));
  }

  lemma NextWord(n: nat, r: bv32, s: bv32)
    requires Reg(INIT, Ones(n)) == r && OnesWord(r) == s
    ensures Reg(INIT, Ones(n + 4)) == s
  {
    hide Reg, OnesWord;
    RegOnes(INIT, n, 4);
    OnesWordIsReg(r);
  }

  // Sixteen bytes more; the four words are computed where this is called.
  lemma NextBlock(n: nat, a: bv32, b: bv32, c: bv32, d: bv32, e: bv32)
    ensures Reg(INIT, Ones(n)) == a && OnesWord(a) == b && OnesWord(b) == c && OnesWord(c) == d && OnesWord(d) == e
            ==> Reg(INIT, Ones(n + 16)) == e
  {
    hide Reg, OnesWord;
    if Reg(INIT, Ones(n)) == a && OnesWord(a) == b && OnesWord(b) == c && OnesWord(c) == d && OnesWord(d) == e {
      NextWord(n, a, b);
      NextWord(n + 4, b, c);
      NextWord(n + 8, c, d);
      NextWord(n + 12, d, e);
    }
  }

  lemma Ones0()
    ensures Reg(INIT, Ones(0)) == INIT
  {
    assert Ones(0) == [];
  }

  lemma Ones16()
    ensures Reg(INIT, Ones(16)) == 0xC04C39E5
  {
    hide Reg;
    Ones0();
    NextBlock(0, 0xFFFFFFFF, 0x00000000, 0xDEBB20E3, 0x44660075, 0xC04C39E5);
  }

  lemma Ones32()
    ensures Reg(INIT, Ones(32)) == 0x009354F4
  {
    hide Reg;
    Ones16();
    NextBlock(16, 0xC04C39E5, 0xD3088D4F, 0x2322E93D, 0x7F1CDCE2, 0x009354F4);
  }

  lemma Ones48()
    ensures Reg(INIT, Ones(48)) == 0x19E7E821
  {
    hide Reg;
    Ones32();
    NextBlock(32, 0x009354F4, 0xE666FEA6, 0x732FB38C, 0x653C71C2, 0x19E7E821);
  }

  lemma Ones64()
    ensures Reg(INIT, Ones(64)) == 0xF09E7845
  {
    hide Reg;
    Ones48();
    NextBlock(48, 0x19E7E821, 0x1490A44B, 0x27445404, 0x0B730EB2, 0xF09E7845);
  }

  lemma Ones80()
    ensures Reg(INIT, Ones(80)) == 0x7A3E6F15
  {
    hide Reg;
    Ones64();
    NextBlock(64, 0xF09E7845, 0x7AECE48C, 0x95C475DE, 0x65F93173, 0x7A3E6F15);
  }

  lemma Ones96()
    ensures Reg(INIT, Ones(96)) == 0xB926E32F
  {
    hide Reg;
    Ones80();
    NextBlock(80, 0x7A3E6F15, 0x0BE2880C, 0x80D19D85, 0x846C3A37, 0xB926E32F);
  }

  lemma Ones112()
    ensures Reg(INIT, Ones(112)) == 0x4239BF97
  {
    hide Reg;
    Ones96();
    NextBlock(96, 0xB926E32F, 0xFC2D797E, 0x9A5A404B, 0xB2BABD9B, 0x4239BF97);
  }

  lemma Ones128()
    ensures Reg(INIT, Ones(128)) == 0x9AD2ABB3
  {
    hide Reg;
    Ones112();
    NextBlock(112, 0x4239BF97, 0xA678EDD5, 0xB658DF98, 0x70FA5A40, 0x9AD2ABB3);
  }

  lemma Ones144()
    ensures Reg(INIT, Ones(144)) == 0x24B7FC48
  {
    hide Reg;
    Ones128();
    NextBlock(128, 0x9AD2ABB3, 0xA785AED1, 0x9DF3D430, 0x153F1829, 0x24B7FC48);
  }

  lemma Ones160()
    ensures Reg(INIT, Ones(160)) == 0xBDE447FC
  {
    hide Reg;
    Ones144();
    NextBlock(144, 0x24B7FC48, 0xAB42062B, 0x2E4E2389, 0xC6CD4EAF, 0xBDE447FC);
  }

  lemma Ones176()
    ensures Reg(INIT, Ones(176)) == 0x5076339B
  {
    hide Reg;
    Ones160();
    NextBlock(160, 0xBDE447FC, 0xE81CEB60, 0x088CDFB6, 0xF99A1CDD, 0x5076339B);
  }

  lemma Ones192()
    ensures Reg(INIT, Ones(192)) == 0xF5F471B2
  {
    hide Reg;
    Ones176();
    NextBlock(176, 0x5076339B, 0x80D9920B, 0x4A6F360A, 0xE58C8643, 0xF5F471B2);
  }

  // So 192 bytes 0xFF are not followed by four more.
  lemma OnesFailTheCrc()
    ensures Crc(Ones(192)) != 0xFFFFFFFF
  {
    hide Reg, Xor;
    Ones192();
    XorIs(0xF5F471B2, 0xFFFFFFFF);
  }
}
