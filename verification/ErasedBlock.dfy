/** The CRC-32 of an erased boot block: 252 bytes of 0xFF do not hash to 0xFFFFFFFF, so a partition whose first
    sector is erased is never taken for a firmware. The remainder is computed eight bytes at a time. */
module ErasedBlock {
  import opened Bits
  import opened SectorFlash
  import Crc

  function Bit(c: bv32): bv32
  {
    if c >> 31 == 1 then (c << 1) ^ 0x04C11DB7 else c << 1
  }

  /** The effect of one 0xFF byte. */
  function Ones(c: bv32): bv32
  {
    Bit(Bit(Bit(Bit(Bit(Bit(Bit(Bit(c ^ 0xFF00_0000))))))))
  }

  function Run(n: nat, c: bv32): bv32
    decreases n
  {
    if n == 0 then c else Run(n - 1, Ones(c))
  }

  lemma Block0() ensures Run(8, 0x00000000) == 0xAE006622 {}
  lemma Block1() ensures Run(8, 0xAE006622) == 0xF2B110CB {}
  lemma Block2() ensures Run(8, 0xF2B110CB) == 0x473B38FE {}
  lemma Block3() ensures Run(8, 0x473B38FE) == 0x657F6667 {}
  lemma Block4() ensures Run(8, 0x657F6667) == 0x438E3CA6 {}
  lemma Block5() ensures Run(8, 0x438E3CA6) == 0xD2250928 {}
  lemma Block6() ensures Run(8, 0xD2250928) == 0x4D70CED0 {}
  lemma Block7() ensures Run(8, 0x4D70CED0) == 0x3127375E {}
  lemma Block8() ensures Run(8, 0x3127375E) == 0xCE8C9FA6 {}
  lemma Block9() ensures Run(8, 0xCE8C9FA6) == 0x301147D0 {}
  lemma Block10() ensures Run(8, 0x301147D0) == 0xEC5C3621 {}
  lemma Block11() ensures Run(8, 0xEC5C3621) == 0x7E9EB43F {}
  lemma Block12() ensures Run(8, 0x7E9EB43F) == 0xD9BD5D4D {}
  lemma Block13() ensures Run(8, 0xD9BD5D4D) == 0xABB71E65 {}
  lemma Block14() ensures Run(8, 0xABB71E65) == 0x025A5F0E {}
  lemma Block15() ensures Run(8, 0x025A5F0E) == 0x8B75A1E5 {}
  lemma Block16() ensures Run(8, 0x8B75A1E5) == 0x9418FCA8 {}
  lemma Block17() ensures Run(8, 0x9418FCA8) == 0xD46042D5 {}
  lemma Block18() ensures Run(8, 0xD46042D5) == 0xF572B363 {}
  lemma Block19() ensures Run(8, 0xF572B363) == 0x06D73817 {}
  lemma Block20() ensures Run(8, 0x06D73817) == 0xBB38599F {}
  lemma Block21() ensures Run(8, 0xBB38599F) == 0xD0499B01 {}
  lemma Block22() ensures Run(8, 0xD0499B01) == 0xC26131A7 {}
  lemma Block23() ensures Run(8, 0xC26131A7) == 0xFD612F81 {}
  lemma Block24() ensures Run(8, 0xFD612F81) == 0xD99BCF45 {}
  lemma Block25() ensures Run(8, 0xD99BCF45) == 0xA0926C89 {}
  lemma Block26() ensures Run(8, 0xA0926C89) == 0xD52B0AC7 {}
  lemma Block27() ensures Run(8, 0xD52B0AC7) == 0x8096ECF1 {}
  lemma Block28() ensures Run(8, 0x8096ECF1) == 0xD198D43D {}
  lemma Block29() ensures Run(8, 0xD198D43D) == 0x200AB400 {}
  lemma Block30() ensures Run(8, 0x200AB400) == 0x0B8FD31A {}

  lemma {:induction false} RunAdd(m: nat, n: nat, c: bv32)
    ensures Run(m + n, c) == Run(n, Run(m, c))
    decreases m
  {
    hide Ones;
    if m != 0 {
      RunAdd(m - 1, n, Ones(c));
    }
  }

  lemma FirstHalf()
    ensures Run(128, 0x00000000) == 0x8B75A1E5
  {
    hide Ones, Run;
    Block0(); RunAdd(8, 120, 0x00000000);
    Block1(); RunAdd(8, 112, 0xAE006622);
    Block2(); RunAdd(8, 104, 0xF2B110CB);
    Block3(); RunAdd(8, 96, 0x473B38FE);
    Block4(); RunAdd(8, 88, 0x657F6667);
    Block5(); RunAdd(8, 80, 0x438E3CA6);
    Block6(); RunAdd(8, 72, 0xD2250928);
    Block7(); RunAdd(8, 64, 0x4D70CED0);
    Block8(); RunAdd(8, 56, 0x3127375E);
    Block9(); RunAdd(8, 48, 0xCE8C9FA6);
    Block10(); RunAdd(8, 40, 0x301147D0);
    Block11(); RunAdd(8, 32, 0xEC5C3621);
    Block12(); RunAdd(8, 24, 0x7E9EB43F);
    Block13(); RunAdd(8, 16, 0xD9BD5D4D);
    Block14(); RunAdd(8, 8, 0xABB71E65);
    Block15();
  }

  lemma SecondHalf()
    ensures Run(120, 0x8B75A1E5) == 0x0B8FD31A
  {
    hide Ones, Run;
    Block16(); RunAdd(8, 112, 0x8B75A1E5);
    Block17(); RunAdd(8, 104, 0x9418FCA8);
    Block18(); RunAdd(8, 96, 0xD46042D5);
    Block19(); RunAdd(8, 88, 0xF572B363);
    Block20(); RunAdd(8, 80, 0x06D73817);
    Block21(); RunAdd(8, 72, 0xBB38599F);
    Block22(); RunAdd(8, 64, 0xD0499B01);
    Block23(); RunAdd(8, 56, 0xC26131A7);
    Block24(); RunAdd(8, 48, 0xFD612F81);
    Block25(); RunAdd(8, 40, 0xD99BCF45);
    Block26(); RunAdd(8, 32, 0xA0926C89);
    Block27(); RunAdd(8, 24, 0xD52B0AC7);
    Block28(); RunAdd(8, 16, 0x8096ECF1);
    Block29(); RunAdd(8, 8, 0xD198D43D);
    Block30();
  }

  /** After four 0xFF bytes have cancelled the initial value, 248 more are left. */
  lemma RestOfBlock()
    ensures Run(248, 0) == 0x0B8FD31A
  {
    hide Ones, Run;
    FirstHalf();
    SecondHalf();
    RunAdd(128, 120, 0);
  }

  // ----- Link to the reference CRC

  lemma StepIsBit(c: bv32)
    ensures Crc.Step(Crc.U32(c)) == Crc.U32(Bit(c))
  {
    hide Crc.Step, Bit;
    if c >> 31 == 1 {
      StepIsBitSet(c);
    } else {
      StepIsBitClear(c);
    }
  }

  lemma StepIsBitSet(c: bv32)
    requires c >> 31 == 1
    ensures Crc.Step(Crc.U32(c)) == Crc.U32(Bit(c))
  {
  }

  lemma StepIsBitClear(c: bv32)
    requires c >> 31 != 1
    ensures Crc.Step(Crc.U32(c)) == Crc.U32(Bit(c))
  {
  }

  lemma OnesIsEightSteps(c: bv32)
    ensures Crc.Steps(8, Crc.U32(c ^ 0xFF00_0000)) == Crc.U32(Ones(c))
  {
    hide Crc.Step, Bit;
    var c0 := c ^ 0xFF00_0000;
    var c1 := Bit(c0);
    var c2 := Bit(c1);
    var c3 := Bit(c2);
    var c4 := Bit(c3);
    var c5 := Bit(c4);
    var c6 := Bit(c5);
    var c7 := Bit(c6);
    StepIsBit(c0);
    StepIsBit(c1);
    StepIsBit(c2);
    StepIsBit(c3);
    StepIsBit(c4);
    StepIsBit(c5);
    StepIsBit(c6);
    StepIsBit(c7);
    assert Crc.Steps(8, Crc.U32(c0)) == Crc.Steps(7, Crc.U32(c1)) == Crc.Steps(6, Crc.U32(c2));
    assert Crc.Steps(6, Crc.U32(c2)) == Crc.Steps(5, Crc.U32(c3)) == Crc.Steps(4, Crc.U32(c4));
    assert Crc.Steps(4, Crc.U32(c4)) == Crc.Steps(3, Crc.U32(c5)) == Crc.Steps(2, Crc.U32(c6));
    assert Crc.Steps(2, Crc.U32(c6)) == Crc.Steps(1, Crc.U32(c7)) == Crc.Steps(0, Crc.U32(Bit(c7)));
  }

  lemma XorWithTopOnes(c: bv32)
    ensures Crc.XorU32(Crc.U32(c), Crc.Top(0xFF)) == Crc.U32(c ^ 0xFF00_0000)
  {
  }

  lemma FeedOnes(c: bv32)
    ensures Crc.FeedBits(Crc.U32(c), 0xFF, 8) == Crc.U32(Ones(c))
  {
    hide *;
    Crc.FeedByte(Crc.U32(c), 0xFF);
    XorWithTopOnes(c);
    OnesIsEightSteps(c);
  }

  lemma OnesConversion()
    ensures (0xFF as byte) as bv8 == 0xFF
  {
  }

  lemma {:induction false} CrcOfOnes(n: nat, c: bv32)
    ensures Crc.CrcFrom(Crc.U32(c), Filled(n, 0xFF)) == Crc.U32(Run(n, c))
    decreases n
  {
    hide Ones, Crc.FeedBits, Crc.CrcFrom;
    if n == 0 {
      EmptyCrc(Crc.U32(c), Filled(n, 0xFF));
    } else {
      Crc.CrcFromFront(Crc.U32(c), Filled(n, 0xFF));
      assert Filled(n, 0xFF)[1..] == Filled(n - 1, 0xFF);
      OnesConversion();
      FeedOnes(c);
      CrcOfOnes(n - 1, Ones(c));
    }
  }

  lemma EmptyCrc(c: Crc.U32, data: seq<byte>)
    requires |data| == 0
    ensures Crc.CrcFrom(c, data) == c
  {
  }

  lemma FirstFour()
    ensures Run(4, 0xFFFF_FFFF) == 0
  {
  }

  lemma RegisterValue()
    ensures (0x0B8FD31A as bv32) as nat != 0xFFFF_FFFF
  {
  }

  lemma ErasedSectorIsInvalid()
    ensures !BootBlockValid(ERASED)
  {
    hide Run, Ones, Crc.CrcFrom;
    assert ERASED[..252] == Filled(252, 0xFF);
    CrcOfOnes(252, 0xFFFF_FFFF);
    RunAdd(4, 248, 0xFFFF_FFFF);
    FirstFour();
    RestOfBlock();
    RegisterValue();
  }
}
