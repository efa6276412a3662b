/**
 * A message followed by its own CRC, computed with the CRC field zeroed: no change
 * confined to four consecutive bytes goes unnoticed, not even one that straddles
 * the message and the field.
 *
 * A change of the last `j` bytes of the message together with the first `4 - j` of
 * the field could only go unnoticed if the difference of the CRCs lay in the bytes
 * of the field that changed. For each `j` this is one of the systems of `CrcTurns`.
 */
module CrcField {
  import opened Words
  import opened LittleEndian
  import opened Crc32
  import opened Crc32Laws
  import opened CrcTurns

  ghost predicate AgreeOutside(a: seq<byte>, b: seq<byte>, at: nat) {
    |a| == |b| && forall i :: 0 <= i < |a| && !(at <= i < at + 4) ==> a[i] == b[i]
  }

  // ----- Messages that end in zeros -----

  lemma {:induction false} UpdateSplit(crc: bv32, a: seq<byte>, b: seq<byte>)
    ensures Update(crc, a + b) == Update(Update(crc, a), b)
    decreases a
  {
    hide ByteStep;
    if a == [] {
      assert a + b == b;
    } else {
      assert (a + b)[1..] == a[1..] + b;
      UpdateSplit(ByteStep(crc, a[0]), a[1..], b);
    }
  }

  lemma ZeroByte(crc: bv32)
    ensures ByteStep(crc, 0) == BitSteps(crc, 8)
  {
    assert Xor(crc, Widen(0)) == crc;
    ByteStepUnfolds(crc, 0);
    hide BitSteps, ByteStep;
  }

  lemma {:induction false} UpdateZeros(crc: bv32, n: nat)
    ensures Update(crc, Zeros(n)) == BitSteps(crc, 8 * n)
    decreases n
  {
    hide BitSteps, ByteStep;
    if n == 0 {
      BitStepsDone(crc, 0);
    } else {
      assert Zeros(n)[0] == 0 && Zeros(n)[1..] == Zeros(n - 1);
      ZeroByte(crc);
      UpdateZeros(BitSteps(crc, 8), n - 1);
      BitStepsAdd(crc, 8, 8 * (n - 1));
    }
  }

  lemma FirstByte(b: byte)
    ensures ByteStep(0, b) == BitSteps(Widen(b), 8)
  {
    assert Xor(0, Widen(b)) == Widen(b);
    ByteStepUnfolds(0, b);
    hide BitSteps, ByteStep;
  }

  lemma XorZeros(bytes: seq<byte>)
    ensures XorBytes(Zeros(|bytes|), bytes) == bytes
  {
    forall i | 0 <= i < |bytes| ensures XorByte(0, bytes[i]) == bytes[i] {
      ZeroXor(bytes[i]);
    }
  }

  lemma ZeroXor(b: byte)
    ensures XorByte(0, b) == b
  {}

  /** From zero, the first byte and the rest contribute separately. */
  lemma Spread(x: seq<byte>, zeros: nat)
    requires x != []
    ensures Update(0, x + Zeros(zeros))
         == Xor(BitSteps(Widen(x[0]), 8 * (|x| + zeros)), Update(0, x[1..] + Zeros(zeros)))
  {
    hide Update, BitSteps, ByteStep, Xor, Widen;
    var rest := x[1..] + Zeros(zeros);
    var first := BitSteps(Widen(x[0]), 8);
    assert (x + Zeros(zeros))[1..] == rest;
    UpdateNext(0, x + Zeros(zeros));
    FirstByte(x[0]);
    FromZero(first, rest);
    BitStepsAdd(Widen(x[0]), 8, 8 * |rest|);
    assert 8 + 8 * |rest| == 8 * (|x| + zeros);
  }

  lemma UpdateNext(crc: bv32, bytes: seq<byte>)
    requires bytes != []
    ensures Update(crc, bytes) == Update(ByteStep(crc, bytes[0]), bytes[1..])
  {
    hide ByteStep;
  }

  lemma FromZero(crc: bv32, bytes: seq<byte>)
    ensures Update(crc, bytes) == Xor(BitSteps(crc, 8 * |bytes|), Update(0, bytes))
  {
    hide Update, BitSteps, Xor, XorBytes;
    XorSelf(crc);
    XorZeros(bytes);
    UpdateOfXor(crc, 0, Zeros(|bytes|), bytes);
    UpdateZeros(crc, |bytes|);
  }

  lemma ZerosFromZero(n: nat)
    ensures Update(0, Zeros(n)) == 0
  {
    UpdateZeros(0, n);
    BitStepsOfZero(8 * n);
    hide BitSteps, Update;
  }

  // ----- A change of the last one, two or three bytes -----

  lemma LastByte(x: byte)
    requires Update(0, [x] + Zeros(4)) >> 24 == 0
    ensures x == 0
  {
    hide Update, BitSteps, Xor, Widen, Turns40, Turns48, Back56;
    LastByteTurns(x);
    AllRight(x);
    Rank1(x);
  }

  lemma LastByteTurns(x: byte)
    ensures Update(0, [x] + Zeros(4)) == BitSteps(Widen(x), 40)
  {
    hide Update, BitSteps, Xor, Widen;
    Spread([x], 4);
    assert [x][1..] + Zeros(4) == Zeros(4);
    ZerosFromZero(4);
    XorSelf(BitSteps(Widen(x), 40));
  }

  lemma LastTwoTurns(x: byte, y: byte)
    ensures Update(0, [x, y] + Zeros(4)) == Xor(BitSteps(Widen(x), 48), BitSteps(Widen(y), 40))
  {
    hide Update, BitSteps, Xor, Widen;
    Spread([x, y], 4);
    assert [x, y][1..] == [y];
    LastByteTurns(y);
  }

  lemma LastTwo(x: byte, y: byte)
    requires Update(0, [x, y] + Zeros(4)) >> 16 == 0
    ensures x == 0 && y == 0
  {
    hide Update, BitSteps, Xor, Widen, Turns40, Turns48, Back56;
    LastTwoTurns(x, y);
    AllRight(x);
    AllRight(y);
    Rank2(x, y);
  }

  function Shl8(a: bv32): bv32 { a << 8 }
  function Shl16(a: bv32): bv32 { a << 16 }

  lemma ShlThenShr8(a: bv32)
    requires a <= 0xFF_FFFF
    ensures Shr8(Shl8(a)) == a && LowOf(Xor(Shl8(a), Widen(0))) == 0
  {}

  /** Eight turns shift a word of three bytes out of its empty lowest byte. */
  lemma ShiftedOut(a: bv32)
    requires a <= 0xFF_FFFF
    ensures BitSteps(Shl8(a), 8) == a
  {
    ShlThenShr8(a);
    ZeroByte(Shl8(a));
    TableForm(Shl8(a), 0);
    assert Widen(0) == 0;
    hide BitSteps, ByteStep, Xor, Shl8, Shr8, LowOf, Widen;
    BitStepsOfZero(8);
    XorSelf(a);
  }

  lemma BytesAreSmall(x: byte)
    ensures Widen(x) <= 0xFF_FFFF && Shl8(Widen(x)) <= 0xFF_FFFF && Shl8(Shl8(Widen(x))) == Shl16(Widen(x))
  {}

  lemma LastThreeTurns(x: byte, y: byte, z: byte)
    ensures Update(0, [x, y, z] + Zeros(4))
         == BitSteps(Xor(Widen(x), Xor(Shl8(Widen(y)), Shl16(Widen(z)))), 56)
  {
    hide Update, BitSteps, Xor, Widen, Shl8, Shl16;
    Spread([x, y, z], 4);
    assert [x, y, z][1..] == [y, z];
    LastTwoTurns(y, z);
    BytesAreSmall(y);
    BytesAreSmall(z);
    ShiftedOut(Widen(y));
    BitStepsAdd(Shl8(Widen(y)), 8, 48);
    ShiftedOut(Widen(z));
    ShiftedOut(Shl8(Widen(z)));
    BitStepsAdd(Shl16(Widen(z)), 8, 48);
    BitStepsAdd(Shl8(Widen(z)), 8, 40);
    BitStepsOfXor(Shl8(Widen(y)), Shl16(Widen(z)), 56);
    BitStepsOfXor(Widen(x), Xor(Shl8(Widen(y)), Shl16(Widen(z))), 56);
  }

  lemma LowOfSmall(a: bv32)
    requires a >> 8 == 0
    ensures Widen(LowOf(a)) == a
  {}

  lemma ThreeBytesOfWord(x: byte, y: byte, z: byte)
    ensures Xor(Widen(x), Xor(Shl8(Widen(y)), Shl16(Widen(z)))) >> 24 == 0
    ensures Xor(Widen(x), Xor(Shl8(Widen(y)), Shl16(Widen(z)))) == 0 ==> x == 0 && y == 0 && z == 0
  {}

  lemma LastThree(x: byte, y: byte, z: byte)
    requires Update(0, [x, y, z] + Zeros(4)) >> 8 == 0
    ensures x == 0 && y == 0 && z == 0
  {
    LastThreeTurns(x, y, z);
    ThreeBytesOfWord(x, y, z);
    assert Back56(0) == 0;
    hide Update, BitSteps, Xor, Widen, Shl8, Shl16, Turns40, Turns48, Back56, LowOf;
    var word := Xor(Widen(x), Xor(Shl8(Widen(y)), Shl16(Widen(z))));
    var d := LowOf(BitSteps(word, 56));
    LowOfSmall(BitSteps(word, 56));
    AllRight(d);
    BitsBackOfSteps(word, 56);
    BitsBackOfSteps(Back56(d), 56);
    Rank3(d);
  }

  // ----- The field -----

  function Push(high: bv32, low: byte): bv32 {
    (high << 8) | (low as bv32)
  }

  lemma NumberOfPush(high: bv32, low: byte)
    requires high <= 0xFF_FFFF
    ensures Number(Push(high, low)) == 256 * Number(high) + ByteValue(low)
  {}

  lemma PushSmall(high: bv32, low: byte)
    ensures high == 0 ==> Push(high, low) <= 0xFF
    ensures high <= 0xFF ==> Push(high, low) <= 0xFFFF
    ensures high <= 0xFFFF ==> Push(high, low) <= 0xFF_FFFF
  {}

  /** The word whose bytes, least significant first, are these. */
  function Word(c: seq<byte>): bv32
    requires |c| == 4
  {
    Push(Push(Push(Push(0, c[3]), c[2]), c[1]), c[0])
  }

  lemma DecodeFour(c: seq<byte>)
    requires |c| == 4
    ensures Decode(c)
         == ByteValue(c[0]) + 256 * (ByteValue(c[1]) + 256 * (ByteValue(c[2]) + 256 * (ByteValue(c[3]) + 256 * 0)))
  {
    hide ByteValue, Decode;
    DecodeFirst(c);
    DecodeFirst(c[1..]);
    assert c[1..][1..] == c[2..];
    DecodeFirst(c[2..]);
    assert c[2..][1..] == c[3..];
    DecodeFirst(c[3..]);
    assert c[3..][1..] == [];
    DecodeNothing();
  }

  lemma DecodeFirst(c: seq<byte>)
    requires c != []
    ensures Decode(c) == ByteValue(c[0]) + 256 * Decode(c[1..])
  {
    hide ByteValue;
  }

  lemma DecodeNothing()
    ensures Decode([]) == 0
  {}

  lemma NumberOfWord(c: seq<byte>)
    requires |c| == 4
    ensures Number(Word(c)) == Decode(c)
  {
    DecodeFour(c);
    assert Number(0) == 0;
    hide Push, Number, ByteValue, Decode;
    var a := Push(0, c[3]);
    PushSmall(0, c[3]);
    NumberOfPush(0, c[3]);
    PushSmall(a, c[2]);
    NumberOfPush(a, c[2]);
    PushSmall(Push(a, c[2]), c[1]);
    NumberOfPush(Push(a, c[2]), c[1]);
    NumberOfPush(Push(Push(a, c[2]), c[1]), c[0]);
  }

  lemma WordOfCrc(message: seq<byte>, c: seq<byte>)
    requires |c| == 4 && CrcValue(message) == Decode(c)
    ensures Crc(message) == Word(c)
  {
    hide Crc, Number, Word, Decode;
    NumberOfWord(c);
    NumberInjective(Crc(message), Word(c));
  }

  lemma SameHighBytes(c: seq<byte>, d: seq<byte>)
    requires |c| == |d| == 4
    ensures c[3] == d[3] ==> Xor(Word(c), Word(d)) >> 24 == 0
    ensures c[3] == d[3] && c[2] == d[2] ==> Xor(Word(c), Word(d)) >> 16 == 0
    ensures c[3] == d[3] && c[2] == d[2] && c[1] == d[1] ==> Xor(Word(c), Word(d)) >> 8 == 0
  {}

  // ----- Message and field -----

  /** How two messages of equal length that agree before their last bytes differ in their CRCs. */
  lemma TailDifference(prefix: seq<byte>, x: seq<byte>, y: seq<byte>, zeros: nat)
    requires |x| == |y|
    ensures Xor(Crc(prefix + x + Zeros(zeros)), Crc(prefix + y + Zeros(zeros)))
         == Update(0, XorBytes(x, y) + Zeros(zeros))
  {
    hide Crc, Update, BitSteps, Xor;
    var a, b := prefix + x + Zeros(zeros), prefix + y + Zeros(zeros);
    CrcDifference(a, b);
    XorOfParts(prefix, x, y, zeros);
    UpdateSplit(0, Zeros(|prefix|), XorBytes(x, y) + Zeros(zeros));
    ZerosFromZero(|prefix|);
  }

  lemma XorOfParts(prefix: seq<byte>, x: seq<byte>, y: seq<byte>, zeros: nat)
    requires |x| == |y|
    ensures XorBytes(prefix + x + Zeros(zeros), prefix + y + Zeros(zeros))
         == Zeros(|prefix|) + (XorBytes(x, y) + Zeros(zeros))
  {
    hide XorByte;
    var a, b := prefix + x + Zeros(zeros), prefix + y + Zeros(zeros);
    var whole := Zeros(|prefix|) + (XorBytes(x, y) + Zeros(zeros));
    forall i | 0 <= i < |a| ensures XorByte(a[i], b[i]) == whole[i] {
      SameXor(a[i]);
    }
  }

  lemma SameXor(b: byte)
    ensures XorByte(b, b) == 0
  {}

  lemma XorIsZero(a: byte, b: byte)
    requires XorByte(a, b) == 0
    ensures a == b
  {}

  /** The straddling case: at most three bytes of the message, and bytes of the field that leave room for them. */
  lemma StraddlingBurst(prefix: seq<byte>, x: seq<byte>, y: seq<byte>, c: seq<byte>, d: seq<byte>)
    requires 1 <= |x| == |y| <= 3 && |c| == |d| == 4
    requires forall i :: 4 - |x| <= i < 4 ==> c[i] == d[i]
    requires CrcValue(prefix + x + Zeros(4)) == Decode(c)
    requires CrcValue(prefix + y + Zeros(4)) == Decode(d)
    ensures x == y
  {
    hide Crc, CrcValue, Update, Xor, XorByte, Word, Decode;
    WordOfCrc(prefix + x + Zeros(4), c);
    WordOfCrc(prefix + y + Zeros(4), d);
    TailDifference(prefix, x, y, 4);
    SameHighBytes(c, d);
    var difference := XorBytes(x, y);
    if |x| == 1 {
      assert difference == [difference[0]];
      LastByte(difference[0]);
    } else if |x| == 2 {
      assert difference == [difference[0], difference[1]];
      LastTwo(difference[0], difference[1]);
    } else {
      assert difference == [difference[0], difference[1], difference[2]];
      LastThree(difference[0], difference[1], difference[2]);
    }
    forall i | 0 <= i < |x| ensures x[i] == y[i] {
      XorIsZero(x[i], y[i]);
    }
  }

  lemma SameField(c: seq<byte>, d: seq<byte>)
    requires |c| == |d| == 4 && Decode(c) == Decode(d)
    ensures c == d
  {
    EncodeDecode(c);
    EncodeDecode(d);
  }

  /** The change lies in the message: the field is the same. */
  lemma MessageBurst(a: seq<byte>, b: seq<byte>, at: nat)
    requires AgreeOutside(a, b, at) && at + 4 <= |a|
    requires CrcValue(a + Zeros(4)) == CrcValue(b + Zeros(4))
    ensures a == b
  {
    hide CrcValue;
    var front, back := a[..at], a[at + 4..] + Zeros(4);
    assert b[..at] == front && b[at + 4..] == a[at + 4..];
    assert a + Zeros(4) == front + a[at..at + 4] + back;
    assert b + Zeros(4) == front + b[at..at + 4] + back;
    if a[at..at + 4] != b[at..at + 4] {
      BurstChangesValue(front, a[at..at + 4], b[at..at + 4], back);
    }
    assert a == front + a[at..at + 4] + a[at + 4..];
    assert b == front + b[at..at + 4] + b[at + 4..];
  }

  /**
   * Two messages, each followed by its CRC with the field zeroed, that agree
   * outside four consecutive bytes are the same, field included.
   */
  lemma StoredCrcBurst(a: seq<byte>, c: seq<byte>, b: seq<byte>, d: seq<byte>, at: nat)
    requires |a| == |b| && |c| == |d| == 4 && AgreeOutside(a + c, b + d, at)
    requires CrcValue(a + Zeros(4)) == Decode(c)
    requires CrcValue(b + Zeros(4)) == Decode(d)
    ensures a == b && c == d
  {
    hide CrcValue, Decode, AgreeOutside;
    PartsAgree(a, c, b, d, at);
    if at + 4 <= |a| {
      assert c == d;
      MessageBurst(a, b, at);
    } else if at < |a| {
      SameFront(a, b, at);
      StraddlingBurst(a[..at], a[at..], b[at..], c, d);
    } else {
      SameFront(a, b, |a|);
    }
    SameField(c, d);
  }

  lemma PartsAgree(a: seq<byte>, c: seq<byte>, b: seq<byte>, d: seq<byte>, at: nat)
    requires |a| == |b| && |c| == |d| && AgreeOutside(a + c, b + d, at)
    ensures AgreeOutside(a, b, at) && (at >= |a| ==> AgreeOutside(a, b, |a|))
    ensures forall i :: 0 <= i < |c| && !(at <= |a| + i < at + 4) ==> c[i] == d[i]
  {
    forall i | 0 <= i < |a| && !(at <= i < at + 4) ensures a[i] == b[i] {
      assert (a + c)[i] == (b + d)[i];
    }
    forall i | 0 <= i < |c| && !(at <= |a| + i < at + 4) ensures c[i] == d[i] {
      assert (a + c)[|a| + i] == (b + d)[|a| + i];
    }
  }

  lemma SameFront(a: seq<byte>, b: seq<byte>, at: nat)
    requires AgreeOutside(a, b, at) && at <= |a|
    ensures a[..at] == b[..at] && a == a[..at] + a[at..] && b == a[..at] + b[at..]
  {
    forall i | 0 <= i < at ensures a[i] == b[i] {}
    assert b == b[..at] + b[at..];
  }
}
