/**
 * The bit loop on single bytes, 40 and 48 turns forwards and 56 turns backwards, as
 * sums of fixed words, and three systems of linear equations over the two-element
 * field in those words that have no solution but zero.
 */
module CrcTurns {
  import opened Words
  import opened Crc32
  import opened Crc32Laws

  // ----- The bit loop on one byte -----

  lemma {:induction false} BitStepsAdd(crc: bv32, a: nat, b: nat)
    ensures BitSteps(crc, a + b) == BitSteps(BitSteps(crc, a), b)
    decreases a
  {
    hide BitStep;
    if a > 0 {
      BitStepsAdd(BitStep(crc), a - 1, b);
    }
  }

  lemma BitStepsSnoc(crc: bv32, count: nat)
    ensures BitSteps(crc, count + 1) == BitStep(BitSteps(crc, count))
  {
    hide BitStep;
    BitStepsAdd(crc, count, 1);
    BitStepsNext(BitSteps(crc, count), 1);
    BitStepsDone(BitStep(BitSteps(crc, count)), 0);
  }

  lemma {:induction false} BitStepsOfZero(count: nat)
    ensures BitSteps(0, count) == 0
    decreases count
  {
    if count > 0 {
      assert BitStep(0) == 0;
      BitStepsOfZero(count - 1);
    }
  }

  // Forty and forty-eight turns from a byte, as the exclusive or of what its bits
  // contribute, and the register from which fifty-six turns lead to a byte.

  function Turns40(a: byte): bv32 {
    (if a & 0x01 != 0 then 0x3D60_29B0 else 0) ^ (if a & 0x02 != 0 then 0x7AC0_5360 else 0)
    ^ (if a & 0x04 != 0 then 0xF580_A6C0 else 0) ^ (if a & 0x08 != 0 then 0x3070_4BC1 else 0)
    ^ (if a & 0x10 != 0 then 0x60E0_9782 else 0) ^ (if a & 0x20 != 0 then 0xC1C1_2F04 else 0)
    ^ (if a & 0x40 != 0 then 0x58F3_5849 else 0) ^ (if a & 0x80 != 0 then 0xB1E6_B092 else 0)
  }

  function Turns48(a: byte): bv32 {
    (if a & 0x01 != 0 then 0xCB5C_D3A5 else 0) ^ (if a & 0x02 != 0 then 0x4DC8_A10B else 0)
    ^ (if a & 0x04 != 0 then 0x9B91_4216 else 0) ^ (if a & 0x08 != 0 then 0xEC53_826D else 0)
    ^ (if a & 0x10 != 0 then 0x03D6_029B else 0) ^ (if a & 0x20 != 0 then 0x07AC_0536 else 0)
    ^ (if a & 0x40 != 0 then 0x0F58_0A6C else 0) ^ (if a & 0x80 != 0 then 0x1EB0_14D8 else 0)
  }

  function Back56(a: byte): bv32 {
    (if a & 0x01 != 0 then 0x3F03_6DC2 else 0) ^ (if a & 0x02 != 0 then 0x7E06_DB84 else 0)
    ^ (if a & 0x04 != 0 then 0xFC0D_B708 else 0) ^ (if a & 0x08 != 0 then 0x236A_6851 else 0)
    ^ (if a & 0x10 != 0 then 0x46D4_D0A2 else 0) ^ (if a & 0x20 != 0 then 0x8DA9_A144 else 0)
    ^ (if a & 0x40 != 0 then 0xC022_44C9 else 0) ^ (if a & 0x80 != 0 then 0x5B35_8FD3 else 0)
  }

  ghost predicate Right(a: byte) {
    && BitSteps(Widen(a), 40) == Turns40(a)
    && BitSteps(Widen(a), 48) == Turns48(a)
    && BitSteps(Back56(a), 56) == Widen(a)
  }

  /** One more bit. */
  lemma RightByBit(a: byte, rest: byte, bit: bv32, turned40: bv32, turned48: bv32, back: bv32)
    requires Right(rest)
    requires BitSteps(bit, 40) == turned40 && BitSteps(bit, 48) == turned48 && BitSteps(back, 56) == bit
    requires Widen(a) == Xor(Widen(rest), bit)
    requires Turns40(a) == Xor(Turns40(rest), turned40)
    requires Turns48(a) == Xor(Turns48(rest), turned48)
    requires Back56(a) == Xor(Back56(rest), back)
    ensures Right(a)
  {
    hide BitSteps, Widen, Xor, Turns40, Turns48, Back56;
    BitStepsOfXor(Widen(rest), bit, 40);
    BitStepsOfXor(Widen(rest), bit, 48);
    BitStepsOfXor(Back56(rest), back, 56);
  }

  // What the lowest bit of a byte contributes, bit by bit.

  lemma LowestBit0(a: byte)
    requires a & 0xFF == a && a & 0x01 != 0
    ensures (a & 0xFE) & 0xFE == a & 0xFE
    ensures Widen(a) == Xor(Widen(a & 0xFE), 0x01)
    ensures Turns40(a) == Xor(Turns40(a & 0xFE), 0x3D60_29B0)
    ensures Turns48(a) == Xor(Turns48(a & 0xFE), 0xCB5C_D3A5)
    ensures Back56(a) == Xor(Back56(a & 0xFE), 0x3F03_6DC2)
  {}

  lemma LowestBit1(a: byte)
    requires a & 0xFE == a && a & 0x02 != 0
    ensures (a & 0xFD) & 0xFC == a & 0xFD
    ensures Widen(a) == Xor(Widen(a & 0xFD), 0x02)
    ensures Turns40(a) == Xor(Turns40(a & 0xFD), 0x7AC0_5360)
    ensures Turns48(a) == Xor(Turns48(a & 0xFD), 0x4DC8_A10B)
    ensures Back56(a) == Xor(Back56(a & 0xFD), 0x7E06_DB84)
  {}

  lemma LowestBit2(a: byte)
    requires a & 0xFC == a && a & 0x04 != 0
    ensures (a & 0xFB) & 0xF8 == a & 0xFB
    ensures Widen(a) == Xor(Widen(a & 0xFB), 0x04)
    ensures Turns40(a) == Xor(Turns40(a & 0xFB), 0xF580_A6C0)
    ensures Turns48(a) == Xor(Turns48(a & 0xFB), 0x9B91_4216)
    ensures Back56(a) == Xor(Back56(a & 0xFB), 0xFC0D_B708)
  {}

  lemma LowestBit3(a: byte)
    requires a & 0xF8 == a && a & 0x08 != 0
    ensures (a & 0xF7) & 0xF0 == a & 0xF7
    ensures Widen(a) == Xor(Widen(a & 0xF7), 0x08)
    ensures Turns40(a) == Xor(Turns40(a & 0xF7), 0x3070_4BC1)
    ensures Turns48(a) == Xor(Turns48(a & 0xF7), 0xEC53_826D)
    ensures Back56(a) == Xor(Back56(a & 0xF7), 0x236A_6851)
  {}

  lemma LowestBit4(a: byte)
    requires a & 0xF0 == a && a & 0x10 != 0
    ensures (a & 0xEF) & 0xE0 == a & 0xEF
    ensures Widen(a) == Xor(Widen(a & 0xEF), 0x10)
    ensures Turns40(a) == Xor(Turns40(a & 0xEF), 0x60E0_9782)
    ensures Turns48(a) == Xor(Turns48(a & 0xEF), 0x03D6_029B)
    ensures Back56(a) == Xor(Back56(a & 0xEF), 0x46D4_D0A2)
  {}

  lemma LowestBit5(a: byte)
    requires a & 0xE0 == a && a & 0x20 != 0
    ensures (a & 0xDF) & 0xC0 == a & 0xDF
    ensures Widen(a) == Xor(Widen(a & 0xDF), 0x20)
    ensures Turns40(a) == Xor(Turns40(a & 0xDF), 0xC1C1_2F04)
    ensures Turns48(a) == Xor(Turns48(a & 0xDF), 0x07AC_0536)
    ensures Back56(a) == Xor(Back56(a & 0xDF), 0x8DA9_A144)
  {}

  lemma LowestBit6(a: byte)
    requires a & 0xC0 == a && a & 0x40 != 0
    ensures (a & 0xBF) & 0x80 == a & 0xBF
    ensures Widen(a) == Xor(Widen(a & 0xBF), 0x40)
    ensures Turns40(a) == Xor(Turns40(a & 0xBF), 0x58F3_5849)
    ensures Turns48(a) == Xor(Turns48(a & 0xBF), 0x0F58_0A6C)
    ensures Back56(a) == Xor(Back56(a & 0xBF), 0xC022_44C9)
  {}

  lemma LowestBit7(a: byte)
    requires a & 0x80 == a && a & 0x80 != 0
    ensures (a & 0x7F) & 0x00 == a & 0x7F
    ensures Widen(a) == Xor(Widen(a & 0x7F), 0x80)
    ensures Turns40(a) == Xor(Turns40(a & 0x7F), 0xB1E6_B092)
    ensures Turns48(a) == Xor(Turns48(a & 0x7F), 0x1EB0_14D8)
    ensures Back56(a) == Xor(Back56(a & 0x7F), 0x5B35_8FD3)
  {}

  // Bytes without their lowest bits are right, from the empty byte up.

  lemma RightFrom0(a: byte)
    requires a & 0xFF == a
    ensures Right(a)
  {
    hide Right, BitSteps, Widen, Xor, Turns40, Turns48, Back56;
    if a & 0x01 != 0 {
      LowestBit0(a);
      RightFrom1(a & 0xFE);
      BitsTurned();
      RightByBit(a, a & 0xFE, 0x01, 0x3D60_29B0, 0xCB5C_D3A5, 0x3F03_6DC2);
    } else {
      RightFrom1(a);
    }
  }

  lemma RightFrom1(a: byte)
    requires a & 0xFE == a
    ensures Right(a)
  {
    hide Right, BitSteps, Widen, Xor, Turns40, Turns48, Back56;
    if a & 0x02 != 0 {
      LowestBit1(a);
      RightFrom2(a & 0xFD);
      BitsTurned();
      RightByBit(a, a & 0xFD, 0x02, 0x7AC0_5360, 0x4DC8_A10B, 0x7E06_DB84);
    } else {
      RightFrom2(a);
    }
  }

  lemma RightFrom2(a: byte)
    requires a & 0xFC == a
    ensures Right(a)
  {
    hide Right, BitSteps, Widen, Xor, Turns40, Turns48, Back56;
    if a & 0x04 != 0 {
      LowestBit2(a);
      RightFrom3(a & 0xFB);
      BitsTurned();
      RightByBit(a, a & 0xFB, 0x04, 0xF580_A6C0, 0x9B91_4216, 0xFC0D_B708);
    } else {
      RightFrom3(a);
    }
  }

  lemma RightFrom3(a: byte)
    requires a & 0xF8 == a
    ensures Right(a)
  {
    hide Right, BitSteps, Widen, Xor, Turns40, Turns48, Back56;
    if a & 0x08 != 0 {
      LowestBit3(a);
      RightFrom4(a & 0xF7);
      BitsTurned();
      RightByBit(a, a & 0xF7, 0x08, 0x3070_4BC1, 0xEC53_826D, 0x236A_6851);
    } else {
      RightFrom4(a);
    }
  }

  lemma RightFrom4(a: byte)
    requires a & 0xF0 == a
    ensures Right(a)
  {
    hide Right, BitSteps, Widen, Xor, Turns40, Turns48, Back56;
    if a & 0x10 != 0 {
      LowestBit4(a);
      RightFrom5(a & 0xEF);
      BitsTurned();
      RightByBit(a, a & 0xEF, 0x10, 0x60E0_9782, 0x03D6_029B, 0x46D4_D0A2);
    } else {
      RightFrom5(a);
    }
  }

  lemma RightFrom5(a: byte)
    requires a & 0xE0 == a
    ensures Right(a)
  {
    hide Right, BitSteps, Widen, Xor, Turns40, Turns48, Back56;
    if a & 0x20 != 0 {
      LowestBit5(a);
      RightFrom6(a & 0xDF);
      BitsTurned();
      RightByBit(a, a & 0xDF, 0x20, 0xC1C1_2F04, 0x07AC_0536, 0x8DA9_A144);
    } else {
      RightFrom6(a);
    }
  }

  lemma RightFrom6(a: byte)
    requires a & 0xC0 == a
    ensures Right(a)
  {
    hide Right, BitSteps, Widen, Xor, Turns40, Turns48, Back56;
    if a & 0x40 != 0 {
      LowestBit6(a);
      RightFrom7(a & 0xBF);
      BitsTurned();
      RightByBit(a, a & 0xBF, 0x40, 0x58F3_5849, 0x0F58_0A6C, 0xC022_44C9);
    } else {
      RightFrom7(a);
    }
  }

  lemma RightFrom7(a: byte)
    requires a & 0x80 == a
    ensures Right(a)
  {
    hide Right, BitSteps, Widen, Xor, Turns40, Turns48, Back56;
    if a & 0x80 != 0 {
      LowestBit7(a);
      RightFrom8(a & 0x7F);
      BitsTurned();
      RightByBit(a, a & 0x7F, 0x80, 0xB1E6_B092, 0x1EB0_14D8, 0x5B35_8FD3);
    } else {
      RightFrom8(a);
    }
  }

  lemma RightFrom8(a: byte)
    requires a & 0x00 == a
    ensures Right(a)
  {
    BitStepsOfZero(40);
    BitStepsOfZero(48);
    BitStepsOfZero(56);
  }

  lemma AllRight(a: byte)
    ensures Right(a)
  {
    hide Right;
    RightFrom0(a);
  }

  // ----- The words in these sums -----

  lemma BitsTurned()
    ensures BitSteps(0x01, 40) == 0x3D60_29B0 && BitSteps(0x01, 48) == 0xCB5C_D3A5
    ensures BitSteps(0x02, 40) == 0x7AC0_5360 && BitSteps(0x02, 48) == 0x4DC8_A10B
    ensures BitSteps(0x04, 40) == 0xF580_A6C0 && BitSteps(0x04, 48) == 0x9B91_4216
    ensures BitSteps(0x08, 40) == 0x3070_4BC1 && BitSteps(0x08, 48) == 0xEC53_826D
    ensures BitSteps(0x10, 40) == 0x60E0_9782 && BitSteps(0x10, 48) == 0x03D6_029B
    ensures BitSteps(0x20, 40) == 0xC1C1_2F04 && BitSteps(0x20, 48) == 0x07AC_0536
    ensures BitSteps(0x40, 40) == 0x58F3_5849 && BitSteps(0x40, 48) == 0x0F58_0A6C
    ensures BitSteps(0x80, 40) == 0xB1E6_B092 && BitSteps(0x80, 48) == 0x1EB0_14D8
    ensures BitSteps(0x3F03_6DC2, 56) == 0x01
    ensures BitSteps(0x7E06_DB84, 56) == 0x02
    ensures BitSteps(0xFC0D_B708, 56) == 0x04
    ensures BitSteps(0x236A_6851, 56) == 0x08
    ensures BitSteps(0x46D4_D0A2, 56) == 0x10
    ensures BitSteps(0x8DA9_A144, 56) == 0x20
    ensures BitSteps(0xC022_44C9, 56) == 0x40
    ensures BitSteps(0x5B35_8FD3, 56) == 0x80
  {
    Powers();
    BackTurned();
    OneBits();
    hide BitSteps;
    BitStepsAdd(0x02, 1, 39);
    BitStepsAdd(0x02, 1, 47);
    BitStepsAdd(0x04, 2, 38);
    BitStepsAdd(0x04, 2, 46);
    BitStepsAdd(0x08, 3, 37);
    BitStepsAdd(0x08, 3, 45);
    BitStepsAdd(0x10, 4, 36);
    BitStepsAdd(0x10, 4, 44);
    BitStepsAdd(0x20, 5, 35);
    BitStepsAdd(0x20, 5, 43);
    BitStepsAdd(0x40, 6, 34);
    BitStepsAdd(0x40, 6, 42);
    BitStepsAdd(0x80, 7, 33);
    BitStepsAdd(0x80, 7, 41);
  }

  lemma OneBits()
    ensures BitSteps(0x02, 1) == 1
    ensures BitSteps(0x04, 2) == 1
    ensures BitSteps(0x08, 3) == 1
    ensures BitSteps(0x10, 4) == 1
    ensures BitSteps(0x20, 5) == 1
    ensures BitSteps(0x40, 6) == 1
    ensures BitSteps(0x80, 7) == 1
  {}

  lemma PowerOf16()
    ensures BitSteps(1, 16) == 0x191B_3141
  {
    assert BitSteps(1, 8) == 0x7707_3096;
    BitStepsAdd(1, 8, 8);
    assert BitSteps(0x7707_3096, 8) == 0x191B_3141;
  }

  lemma SixteenMore()
    ensures BitSteps(0x191B_3141, 16) == 0xB8BC_6765
  {
    assert BitSteps(0x191B_3141, 8) == 0x01C2_6A37;
    BitStepsAdd(0x191B_3141, 8, 8);
    assert BitSteps(0x01C2_6A37, 8) == 0xB8BC_6765;
  }

  lemma Powers()
    ensures BitSteps(1, 33) == 0xB1E6_B092
    ensures BitSteps(1, 34) == 0x58F3_5849
    ensures BitSteps(1, 35) == 0xC1C1_2F04
    ensures BitSteps(1, 36) == 0x60E0_9782
    ensures BitSteps(1, 37) == 0x3070_4BC1
    ensures BitSteps(1, 38) == 0xF580_A6C0
    ensures BitSteps(1, 39) == 0x7AC0_5360
    ensures BitSteps(1, 40) == 0x3D60_29B0
    ensures BitSteps(1, 41) == 0x1EB0_14D8
    ensures BitSteps(1, 42) == 0x0F58_0A6C
    ensures BitSteps(1, 43) == 0x07AC_0536
    ensures BitSteps(1, 44) == 0x03D6_029B
    ensures BitSteps(1, 45) == 0xEC53_826D
    ensures BitSteps(1, 46) == 0x9B91_4216
    ensures BitSteps(1, 47) == 0x4DC8_A10B
    ensures BitSteps(1, 48) == 0xCB5C_D3A5
  {
    hide BitSteps;
    PowerOf16();
    SixteenMore();
    BitStepsAdd(1, 16, 16);
    PowersFrom32();
  }

  lemma PowersFrom32()
    requires BitSteps(1, 32) == 0xB8BC_6765
    ensures BitSteps(1, 33) == 0xB1E6_B092
    ensures BitSteps(1, 34) == 0x58F3_5849
    ensures BitSteps(1, 35) == 0xC1C1_2F04
    ensures BitSteps(1, 36) == 0x60E0_9782
    ensures BitSteps(1, 37) == 0x3070_4BC1
    ensures BitSteps(1, 38) == 0xF580_A6C0
    ensures BitSteps(1, 39) == 0x7AC0_5360
    ensures BitSteps(1, 40) == 0x3D60_29B0
    ensures BitSteps(1, 41) == 0x1EB0_14D8
    ensures BitSteps(1, 42) == 0x0F58_0A6C
    ensures BitSteps(1, 43) == 0x07AC_0536
    ensures BitSteps(1, 44) == 0x03D6_029B
    ensures BitSteps(1, 45) == 0xEC53_826D
    ensures BitSteps(1, 46) == 0x9B91_4216
    ensures BitSteps(1, 47) == 0x4DC8_A10B
    ensures BitSteps(1, 48) == 0xCB5C_D3A5
  {
    hide BitSteps;
    assert BitStep(0xB8BC_6765) == 0xB1E6_B092;
    BitStepsSnoc(1, 32);
    assert BitStep(0xB1E6_B092) == 0x58F3_5849;
    BitStepsSnoc(1, 33);
    assert BitStep(0x58F3_5849) == 0xC1C1_2F04;
    BitStepsSnoc(1, 34);
    assert BitStep(0xC1C1_2F04) == 0x60E0_9782;
    BitStepsSnoc(1, 35);
    assert BitStep(0x60E0_9782) == 0x3070_4BC1;
    BitStepsSnoc(1, 36);
    assert BitStep(0x3070_4BC1) == 0xF580_A6C0;
    BitStepsSnoc(1, 37);
    assert BitStep(0xF580_A6C0) == 0x7AC0_5360;
    BitStepsSnoc(1, 38);
    assert BitStep(0x7AC0_5360) == 0x3D60_29B0;
    BitStepsSnoc(1, 39);
    assert BitStep(0x3D60_29B0) == 0x1EB0_14D8;
    BitStepsSnoc(1, 40);
    assert BitStep(0x1EB0_14D8) == 0x0F58_0A6C;
    BitStepsSnoc(1, 41);
    assert BitStep(0x0F58_0A6C) == 0x07AC_0536;
    BitStepsSnoc(1, 42);
    assert BitStep(0x07AC_0536) == 0x03D6_029B;
    BitStepsSnoc(1, 43);
    assert BitStep(0x03D6_029B) == 0xEC53_826D;
    BitStepsSnoc(1, 44);
    assert BitStep(0xEC53_826D) == 0x9B91_4216;
    BitStepsSnoc(1, 45);
    assert BitStep(0x9B91_4216) == 0x4DC8_A10B;
    BitStepsSnoc(1, 46);
    assert BitStep(0x4DC8_A10B) == 0xCB5C_D3A5;
    BitStepsSnoc(1, 47);
  }

  lemma BackTurned()
    ensures BitSteps(0x3F03_6DC2, 56) == 0x01
    ensures BitSteps(0x7E06_DB84, 56) == 0x02
    ensures BitSteps(0xFC0D_B708, 56) == 0x04
    ensures BitSteps(0x236A_6851, 56) == 0x08
    ensures BitSteps(0x46D4_D0A2, 56) == 0x10
    ensures BitSteps(0x8DA9_A144, 56) == 0x20
    ensures BitSteps(0xC022_44C9, 56) == 0x40
    ensures BitSteps(0x5B35_8FD3, 56) == 0x80
  {
    BackBy48();
    BackToFirst();
    LastTurns();
    hide BitSteps;
    BitStepsAdd(0x3F03_6DC2, 48, 8);
    BitStepsAdd(0x7E06_DB84, 1, 55);
    BitStepsAdd(0x3F03_6DC2, 48, 7);
    BitStepsAdd(0xFC0D_B708, 2, 54);
    BitStepsAdd(0x3F03_6DC2, 48, 6);
    BitStepsAdd(0x236A_6851, 3, 53);
    BitStepsAdd(0x3F03_6DC2, 48, 5);
    BitStepsAdd(0x46D4_D0A2, 4, 52);
    BitStepsAdd(0x3F03_6DC2, 48, 4);
    BitStepsAdd(0x8DA9_A144, 5, 51);
    BitStepsAdd(0x3F03_6DC2, 48, 3);
    BitStepsAdd(0xC022_44C9, 6, 50);
    BitStepsAdd(0x3F03_6DC2, 48, 2);
    BitStepsAdd(0x5B35_8FD3, 7, 49);
    BitStepsAdd(0x3F03_6DC2, 48, 1);
  }

  lemma BackToFirst()
    ensures BitSteps(0x7E06_DB84, 1) == 0x3F03_6DC2
    ensures BitSteps(0xFC0D_B708, 2) == 0x3F03_6DC2
    ensures BitSteps(0x236A_6851, 3) == 0x3F03_6DC2
    ensures BitSteps(0x46D4_D0A2, 4) == 0x3F03_6DC2
    ensures BitSteps(0x8DA9_A144, 5) == 0x3F03_6DC2
    ensures BitSteps(0xC022_44C9, 6) == 0x3F03_6DC2
    ensures BitSteps(0x5B35_8FD3, 7) == 0x3F03_6DC2
  {}

  lemma LastTurns()
    ensures BitSteps(0x0000_0100, 8) == 0x01
    ensures BitSteps(0x0000_0100, 7) == 0x02
    ensures BitSteps(0x0000_0100, 6) == 0x04
    ensures BitSteps(0x0000_0100, 5) == 0x08
    ensures BitSteps(0x0000_0100, 4) == 0x10
    ensures BitSteps(0x0000_0100, 3) == 0x20
    ensures BitSteps(0x0000_0100, 2) == 0x40
    ensures BitSteps(0x0000_0100, 1) == 0x80
  {}

  lemma BackBy48()
    ensures BitSteps(0x3F03_6DC2, 48) == 0x0000_0100
  {
    BackBy24();
    assert BitSteps(0xDB71_0641, 8) == 0x0100_0000;
    BitStepsAdd(0x3F03_6DC2, 24, 8);
    assert BitSteps(0x0100_0000, 8) == 0x0001_0000;
    BitStepsAdd(0x3F03_6DC2, 32, 8);
    assert BitSteps(0x0001_0000, 8) == 0x0000_0100;
    BitStepsAdd(0x3F03_6DC2, 40, 8);
  }

  lemma BackBy24()
    ensures BitSteps(0x3F03_6DC2, 24) == 0xDB71_0641
  {
    assert BitSteps(0x3F03_6DC2, 8) == 0x7555_A0F1;
    BitStepsAdd(0x3F03_6DC2, 8, 8);
    assert BitSteps(0x7555_A0F1, 8) == 0xCACF_972A;
    BitStepsAdd(0x3F03_6DC2, 16, 8);
    assert BitSteps(0xCACF_972A, 8) == 0xDB71_0641;
  }

  // ----- The three systems have no solution but zero -----

  lemma Rank1(a: byte)
    requires Turns40(a) >> 24 == 0
    ensures a == 0
  {}

  lemma Rank2(a: byte, b: byte)
    requires Xor(Turns48(a), Turns40(b)) >> 16 == 0
    ensures a == 0 && b == 0
  {}

  lemma Rank3(d: byte)
    requires Back56(d) >> 24 == 0
    ensures d == 0
  {}
}
