/**
 * More laws of the CRC: it is affine over exclusive or of messages of equal
 * length, eight turns of the bit loop are one look-up in a table of 256 words,
 * and the loop can be run backwards.
 */
module Crc32Laws {
  import opened Words
  import opened Crc32

  function XorByte(a: byte, b: byte): byte { a ^ b }

  /** Byte-wise exclusive or. */
  function XorBytes(a: seq<byte>, b: seq<byte>): (x: seq<byte>)
    requires |a| == |b|
    ensures |x| == |a|
  {
    seq(|a|, i requires 0 <= i < |a| => XorByte(a[i], b[i]))
  }

  lemma XorMiddle(a: bv32, b: bv32, c: bv32, d: bv32)
    ensures Xor(Xor(a, b), Xor(c, d)) == Xor(Xor(a, c), Xor(b, d))
  {
    hide Xor;
    XorAssociates(a, b, Xor(c, d));
    XorAssociates(b, c, d);
    XorCommutes(b, c);
    XorAssociates(c, b, d);
    XorAssociates(a, c, Xor(b, d));
  }

  lemma XorAssociates(a: bv32, b: bv32, c: bv32)
    ensures Xor(Xor(a, b), c) == Xor(a, Xor(b, c))
  {}

  lemma XorCommutes(a: bv32, b: bv32)
    ensures Xor(a, b) == Xor(b, a)
  {}

  lemma XorSelf(a: bv32)
    ensures Xor(a, a) == 0 && Xor(a, 0) == a && Xor(0, a) == a
  {}

  lemma WidenOfXor(a: byte, b: byte)
    ensures Widen(XorByte(a, b)) == Xor(Widen(a), Widen(b))
  {}

  // ----- Linearity -----

  lemma BitStepOfXor(a: bv32, b: bv32)
    ensures BitStep(Xor(a, b)) == Xor(BitStep(a), BitStep(b))
  {
    OddOfXor(a, b);
    ShrOfXor(a, b);
    hide Xor, Shr, Odd;
    var pa := if Odd(a) then POLYNOMIAL else 0;
    var pb := if Odd(b) then POLYNOMIAL else 0;
    XorMiddle(Shr(a), pa, Shr(b), pb);
    XorSelf(Shr(a));
    XorSelf(Shr(b));
    XorSelf(Xor(Shr(a), Shr(b)));
    XorSelf(POLYNOMIAL);
    XorSelf(0);
  }

  lemma {:induction false} BitStepsOfXor(a: bv32, b: bv32, count: nat)
    ensures BitSteps(Xor(a, b), count) == Xor(BitSteps(a, count), BitSteps(b, count))
    decreases count
  {
    hide BitStep, Xor;
    if count > 0 {
      BitStepOfXor(a, b);
      BitStepsOfXor(BitStep(a), BitStep(b), count - 1);
    }
  }

  lemma ByteStepOfXor(a: bv32, b: bv32, x: byte, y: byte)
    ensures ByteStep(Xor(a, b), XorByte(x, y)) == Xor(ByteStep(a, x), ByteStep(b, y))
  {
    hide BitSteps, Xor, Widen, XorByte;
    WidenOfXor(x, y);
    XorMiddle(a, b, Widen(x), Widen(y));
    BitStepsOfXor(Xor(a, Widen(x)), Xor(b, Widen(y)), 8);
  }

  /** The register is linear in its start value and the message together. */
  lemma {:induction false} UpdateOfXor(a: bv32, b: bv32, left: seq<byte>, right: seq<byte>)
    requires |left| == |right|
    ensures Update(Xor(a, b), XorBytes(left, right)) == Xor(Update(a, left), Update(b, right))
    decreases left
  {
    hide ByteStep, Xor, XorByte;
    if left != [] {
      ByteStepOfXor(a, b, left[0], right[0]);
      UpdateOfXor(ByteStep(a, left[0]), ByteStep(b, right[0]), left[1..], right[1..]);
      assert XorBytes(left, right)[1..] == XorBytes(left[1..], right[1..]);
    }
  }

  /**
   * The CRC is affine: the CRC of the exclusive or of three messages of equal
   * length is the exclusive or of their CRCs.
   */
  lemma CrcAffine(a: seq<byte>, b: seq<byte>, c: seq<byte>)
    requires |a| == |b| == |c|
    ensures Crc(XorBytes(XorBytes(a, b), c)) == Xor(Xor(Crc(a), Crc(b)), Crc(c))
  {
    UpdateOfXor(ONES, ONES, a, b);
    UpdateOfXor(Xor(ONES, ONES), ONES, XorBytes(a, b), c);
    hide Xor, Update;
    XorSelf(ONES);
    ThreeNots(Update(ONES, a), Update(ONES, b), Update(ONES, c));
  }

  lemma ThreeNots(a: bv32, b: bv32, c: bv32)
    ensures Not(Xor(Xor(a, b), c)) == Xor(Xor(Not(a), Not(b)), Not(c))
  {}

  /** How two CRCs differ depends only on how the messages differ, and starts from zero. */
  lemma CrcDifference(a: seq<byte>, b: seq<byte>)
    requires |a| == |b|
    ensures Xor(Crc(a), Crc(b)) == Update(0, XorBytes(a, b))
  {
    UpdateOfXor(ONES, ONES, a, b);
    hide Xor, Update;
    XorSelf(ONES);
    TwoNots(Update(ONES, a), Update(ONES, b));
  }

  lemma TwoNots(a: bv32, b: bv32)
    ensures Xor(Not(a), Not(b)) == Xor(a, b)
  {}

  // ----- The table form -----

  function LowOf(a: bv32): byte { (a & 0xFF) as byte }
  function HighOf(a: bv32): bv32 { a & 0xFFFF_FF00 }

  /** Entry `index` of the table: eight turns of the bit loop from that byte. */
  function TableEntry(index: byte): bv32 {
    BitSteps(Widen(index), 8)
  }

  lemma Halves(a: bv32)
    ensures a == Xor(Widen(LowOf(a)), HighOf(a))
    ensures Shr8(HighOf(a)) == Shr8(a)
  {}

  lemma Shr8OfByte(a: bv32, b: byte)
    ensures Shr8(Xor(a, Widen(b))) == Shr8(a)
  {}

  function ShrTimes(a: bv32, count: nat): bv32
    decreases count
  {
    if count == 0 then a else ShrTimes(Shr(a), count - 1)
  }

  /** While only zeros are shifted out the bit loop is a shift. */
  lemma {:induction false} ZerosShiftOut(a: bv32, count: nat)
    requires forall i :: 0 <= i < count ==> !Bit(a, i)
    ensures BitSteps(a, count) == ShrTimes(a, count)
    decreases count
  {
    hide Shr, Odd, Xor;
    if count > 0 {
      assert !Bit(a, 0);
      forall i | 0 <= i < count - 1 ensures !Bit(Shr(a), i) {
        assert Bit(Shr(a), i) == Bit(a, i + 1);
      }
      ZerosShiftOut(Shr(a), count - 1);
    }
  }

  lemma ShrTimesEight(a: bv32)
    ensures ShrTimes(a, 8) == Shr8(a)
  {
    ShrEightTimes(a);
    hide Shr, Shr8;
    assert ShrTimes(a, 8) == ShrTimes(Shr(Shr(a)), 6) == ShrTimes(Shr(Shr(Shr(Shr(a)))), 4);
    assert ShrTimes(Shr(Shr(Shr(Shr(a)))), 4) == ShrTimes(Shr(Shr(Shr(Shr(Shr(Shr(a)))))), 2);
  }

  lemma HighHasNoLowBits(a: bv32, word: bv32, index: nat)
    requires index < 8 && word == HighOf(a)
    ensures !Bit(word, index)
  {
    LowBitsZero(a);
    hide HighOf, Odd, Shr;
    EightBits(word);
  }

  lemma LowBitsZero(a: bv32)
    ensures var w := HighOf(a);
      && !Odd(w) && !Odd(Shr(w)) && !Odd(Shr(Shr(w))) && !Odd(Shr(Shr(Shr(w))))
      && !Odd(Shr(Shr(Shr(Shr(w))))) && !Odd(Shr(Shr(Shr(Shr(Shr(w))))))
      && !Odd(Shr(Shr(Shr(Shr(Shr(Shr(w))))))) && !Odd(Shr(Shr(Shr(Shr(Shr(Shr(Shr(w))))))))
  {}

  /** The usual byte-wise form of the same CRC. */
  lemma TableForm(crc: bv32, b: byte)
    ensures ByteStep(crc, b) == Xor(TableEntry(LowOf(Xor(crc, Widen(b)))), Shr8(crc))
  {
    var x := Xor(crc, Widen(b));
    Halves(x);
    Shr8OfByte(crc, b);
    hide Xor, Widen, LowOf, HighOf, Shr8, BitSteps;
    BitStepsOfXor(Widen(LowOf(x)), HighOf(x), 8);
    forall i | 0 <= i < 8 ensures !Bit(HighOf(x), i) {
      HighHasNoLowBits(x, HighOf(x), i);
    }
    ZerosShiftOut(HighOf(x), 8);
    ShrTimesEight(HighOf(x));
  }

  // ----- The loop backwards -----

  /** Undoes one turn of the inner loop: the top bit says whether the polynomial was added. */
  function BitBack(crc: bv32): bv32 {
    if crc >= 0x8000_0000 then ((crc ^ POLYNOMIAL) << 1) | 1 else crc << 1
  }

  function BitsBack(crc: bv32, count: nat): bv32
    decreases count
  {
    if count == 0 then crc else BitBack(BitsBack(crc, count - 1))
  }

  function ByteBack(crc: bv32, b: byte): bv32 {
    Xor(BitsBack(crc, 8), Widen(b))
  }

  /** The register before the message, from the register after it. */
  function Rewind(crc: bv32, bytes: seq<byte>): bv32 {
    if bytes == [] then crc else ByteBack(Rewind(crc, bytes[1..]), bytes[0])
  }

  lemma BitBackOfStep(crc: bv32)
    ensures BitBack(BitStep(crc)) == crc
  {}

  lemma BitStepOfBack(crc: bv32)
    ensures BitStep(BitBack(crc)) == crc
  {
    if crc >= 0x8000_0000 {
      OddBack(crc);
    } else {
      EvenBack(crc);
    }
  }

  lemma OddBack(crc: bv32)
    requires crc >= 0x8000_0000
    ensures Odd(BitBack(crc)) && Xor(Shr(BitBack(crc)), POLYNOMIAL) == crc
  {
    assert (((crc ^ 0xEDB88320) << 1) | 1) >> 1 == crc ^ 0xEDB88320;
    assert (((crc ^ 0xEDB88320) << 1) | 1) & 1 == 1;
    assert (crc ^ 0xEDB88320) ^ 0xEDB88320 == crc;
  }

  lemma EvenBack(crc: bv32)
    requires crc < 0x8000_0000
    ensures !Odd(BitBack(crc)) && Shr(BitBack(crc)) == crc
  {
    ShlThenShr(crc);
    hide Odd, Shr;
    assert BitBack(crc) == crc << 1;
  }

  lemma ShlThenShr(crc: bv32)
    requires crc < 0x8000_0000
    ensures Shr(crc << 1) == crc && !Odd(crc << 1)
  {
    hide BitBack;
  }

  lemma {:induction false} BitsBackOfSteps(crc: bv32, count: nat)
    ensures BitsBack(BitSteps(crc, count), count) == crc
    decreases count
  {
    hide BitStep, BitBack;
    if count > 0 {
      BitsBackOfSteps(BitStep(crc), count - 1);
      BitBackOfStep(crc);
    }
  }

  lemma {:induction false} BitStepsOfBack(crc: bv32, count: nat)
    ensures BitSteps(BitsBack(crc, count), count) == crc
    decreases count
  {
    hide BitStep, BitBack;
    if count > 0 {
      BitStepOfBack(BitsBack(crc, count - 1));
      BitStepsOfBack(crc, count - 1);
    }
  }

  lemma XorTwice(a: bv32, b: bv32)
    ensures Xor(Xor(a, b), b) == a
  {}

  /** Rewinding undoes a message. */
  lemma {:induction false} RewindOfUpdate(crc: bv32, bytes: seq<byte>)
    ensures Rewind(Update(crc, bytes), bytes) == crc
    decreases bytes
  {
    hide BitSteps, BitsBack, Xor, Widen;
    if bytes != [] {
      var seeded := Xor(crc, Widen(bytes[0]));
      ByteStepUnfolds(crc, bytes[0]);
      RewindOfUpdate(ByteStep(crc, bytes[0]), bytes[1..]);
      BitsBackOfSteps(seeded, 8);
      XorTwice(crc, Widen(bytes[0]));
    }
  }

  /** Every register is reached: from the rewound register the message leads to it. */
  lemma {:induction false} UpdateOfRewind(crc: bv32, bytes: seq<byte>)
    ensures Update(Rewind(crc, bytes), bytes) == crc
    decreases bytes
  {
    hide BitSteps, BitsBack, Xor, Widen;
    if bytes != [] {
      var before := Rewind(crc, bytes[1..]);
      XorTwice(BitsBack(before, 8), Widen(bytes[0]));
      ByteStepUnfolds(ByteBack(before, bytes[0]), bytes[0]);
      BitStepsOfBack(before, 8);
      UpdateOfRewind(crc, bytes[1..]);
    }
  }

  // ----- A check value -----

  lemma CheckTurns0()
    ensures ByteStep(0xFFFF_FFFF, 0x31) == 0x7C23_1048
    ensures ByteStep(0x7C23_1048, 0x32) == 0xB0AC_BB32
    ensures ByteStep(0xB0AC_BB32, 0x33) == 0x77B7_9C2D
  {}

  lemma CheckTurns1()
    ensures ByteStep(0x77B7_9C2D, 0x34) == 0x641C_1F5C
    ensures ByteStep(0x641C_1F5C, 0x35) == 0x340A_C5E3
    ensures ByteStep(0x340A_C5E3, 0x36) == 0xF68D_2C9E
  {}

  lemma CheckTurns2()
    ensures ByteStep(0xF68D_2C9E, 0x37) == 0xAFFC_9660
    ensures ByteStep(0xAFFC_9660, 0x38) == 0x651F_2550
    ensures ByteStep(0x651F_2550, 0x39) == 0x340B_C6D9
  {}

  /** The usual check value: the CRC of the digits from 1 to 9. */
  lemma CheckValue()
    ensures Crc([0x31, 0x32, 0x33, 0x34, 0x35, 0x36, 0x37, 0x38, 0x39]) == 0xCBF4_3926
  {
    CheckTurns0();
    CheckTurns1();
    CheckTurns2();
    hide ByteStep;
    var digits: seq<byte> := [0x31, 0x32, 0x33, 0x34, 0x35, 0x36, 0x37, 0x38, 0x39];
    assert digits[..0] == [] && digits[..9] == digits;
    PrefixUpdate(ONES, digits, 0);
    PrefixUpdate(ONES, digits, 1);
    PrefixUpdate(ONES, digits, 2);
    PrefixUpdate(ONES, digits, 3);
    PrefixUpdate(ONES, digits, 4);
    PrefixUpdate(ONES, digits, 5);
    PrefixUpdate(ONES, digits, 6);
    PrefixUpdate(ONES, digits, 7);
    PrefixUpdate(ONES, digits, 8);
  }

  lemma PrefixUpdate(crc: bv32, bytes: seq<byte>, k: nat)
    requires k < |bytes|
    ensures Update(crc, bytes[..k + 1]) == ByteStep(Update(crc, bytes[..k]), bytes[k])
  {
    hide ByteStep;
    UpdateSnoc(crc, bytes[..k], bytes[k]);
    assert bytes[..k + 1] == bytes[..k] + [bytes[k]];
  }
}
