/**
 * The CRC of the write-ahead log: the bit loop, what it computes, and why a
 * short burst of changed bits can never go unnoticed.
 *
 * The loop runs on 32-bit words. What is proved about it is proved on the bits
 * of those words, least significant bit first, which is the order in which a
 * reflected CRC shifts them out.
 */
module Crc32 {
  import opened Words

  const POLYNOMIAL: bv32 := 0xEDB88320
  const ONES: bv32 := 0xFFFF_FFFF

  // The word operations of the loop, named so that proofs can reason above them.
  function Xor(a: bv32, b: bv32): bv32 { a ^ b }
  function Shr(a: bv32): bv32 { a >> 1 }
  function Not(a: bv32): bv32 { !a }
  function And(a: bv32, b: bv32): bv32 { a & b }
  function Mask(a: bv32): bv32 { 0 - (a & 1) }
  predicate Odd(a: bv32) { a & 1 == 1 }
  function Widen(b: byte): bv32 { b as bv32 }

  /** One turn of the inner loop. */
  function BitStep(crc: bv32): bv32 {
    if Odd(crc) then Xor(Shr(crc), POLYNOMIAL) else Shr(crc)
  }

  function BitSteps(crc: bv32, count: nat): bv32
    decreases count
  {
    if count == 0 then crc else BitSteps(BitStep(crc), count - 1)
  }

  /** One turn of the outer loop. */
  function ByteStep(crc: bv32, b: byte): bv32 {
    BitSteps(Xor(crc, Widen(b)), 8)
  }

  function Update(crc: bv32, bytes: seq<byte>): bv32
    decreases bytes
  {
    if bytes == [] then crc else Update(ByteStep(crc, bytes[0]), bytes[1..])
  }

  function Crc(bytes: seq<byte>): bv32 {
    Not(Update(ONES, bytes))
  }

  lemma BitStepByMask(crc: bv32)
    ensures BitStep(crc) == Xor(Shr(crc), And(POLYNOMIAL, Mask(crc)))
  {
    if crc & 1 == 1 {
      assert 0xEDB88320 & (0 - 1) == POLYNOMIAL;
    } else {
      assert crc & 1 == 0;
    }
  }

  lemma {:induction false} UpdateSnoc(crc: bv32, left: seq<byte>, b: byte)
    ensures Update(crc, left + [b]) == ByteStep(Update(crc, left), b)
    decreases left
  {
    hide ByteStep;
    if left == [] {
      assert [b][1..] == [];
      assert left + [b] == [b];
    } else {
      assert (left + [b])[1..] == left[1..] + [b];
      UpdateSnoc(ByteStep(crc, left[0]), left[1..], b);
    }
  }

  lemma BitStepsNext(crc: bv32, count: nat)
    requires count > 0
    ensures BitSteps(crc, count) == BitSteps(BitStep(crc), count - 1)
  {
    hide BitStep;
  }

  lemma BitStepsDone(crc: bv32, count: nat)
    requires count == 0
    ensures BitSteps(crc, count) == crc
  {
    hide BitStep;
  }

  lemma ByteStepUnfolds(crc: bv32, b: byte)
    ensures ByteStep(crc, b) == BitSteps(Xor(crc, Widen(b)), 8)
  {
    hide BitSteps, Xor, Widen;
  }

  /** The body of the outer loop, with its inner loop. */
  method AbsorbByte(crc: bv32, b: byte) returns (r: bv32)
    ensures r == ByteStep(crc, b)
  {
    hide BitSteps, BitStep, ByteStep, Xor, Shr, And, Mask, Widen;
    ByteStepUnfolds(crc, b);
    r := Xor(crc, Widen(b));
    ghost var seeded := r;
    for bit := 0 to 8
      invariant BitSteps(r, 8 - bit) == BitSteps(seeded, 8)
    {
      BitStepsNext(r, 8 - bit);
      BitStepByMask(r);
      var mask := Mask(r);
      r := Xor(Shr(r), And(POLYNOMIAL, mask));
    }
    BitStepsDone(r, 0);
  }

  method Crc32Bytes(data: seq<byte>) returns (r: bv32)
    ensures r == Crc(data)
  {
    hide ByteStep;
    var crc: bv32 := 0xFFFF_FFFF;
    for i := 0 to |data|
      invariant crc == Update(ONES, data[..i])
    {
      UpdateSnoc(ONES, data[..i], data[i]);
      assert data[..i + 1] == data[..i] + [data[i]];
      crc := AbsorbByte(crc, data[i]);
    }
    assert data[..|data|] == data;
    r := !crc;
  }

  // ----- Words as bit sequences -----

  type Bits = seq<bool>

  /** Bit `index` of the word, counting from the least significant. */
  predicate Bit(word: bv32, index: nat)
    decreases index
  {
    if index == 0 then Odd(word) else Bit(Shr(word), index - 1)
  }

  function ToBits(word: bv32): (bits: Bits)
    ensures |bits| == 32
    ensures forall i :: 0 <= i < 32 ==> bits[i] == Bit(word, i)
  {
    seq(32, i requires 0 <= i < 32 => Bit(word, i))
  }

  function XorBits(a: Bits, b: Bits): (x: Bits)
    requires |a| == |b|
    ensures |x| == |a|
    ensures forall i :: 0 <= i < |x| ==> x[i] == (a[i] != b[i])
  {
    seq(|a|, i requires 0 <= i < |a| => a[i] != b[i])
  }

  function NotBits(a: Bits): (n: Bits)
    ensures |n| == |a|
    ensures forall i :: 0 <= i < |n| ==> n[i] == !a[i]
  {
    seq(|a|, i requires 0 <= i < |a| => !a[i])
  }

  function Falses(n: nat): (f: Bits)
    ensures |f| == n && forall i :: 0 <= i < n ==> !f[i]
  {
    seq(n, _ => false)
  }

  function Trues(n: nat): (t: Bits)
    ensures |t| == n && forall i :: 0 <= i < n ==> t[i]
  {
    seq(n, _ => true)
  }

  lemma OddOfXor(a: bv32, b: bv32)
    ensures Odd(Xor(a, b)) == (Odd(a) != Odd(b))
  {
    if a & 1 == 1 {
      if b & 1 != 1 { assert b & 1 == 0; }
    } else {
      assert a & 1 == 0;
      if b & 1 != 1 { assert b & 1 == 0; }
    }
  }

  lemma ShrOfXor(a: bv32, b: bv32)
    ensures Shr(Xor(a, b)) == Xor(Shr(a), Shr(b))
  {}

  lemma {:induction false} BitOfXor(a: bv32, b: bv32, index: nat)
    ensures Bit(Xor(a, b), index) == (Bit(a, index) != Bit(b, index))
    decreases index
  {
    hide Xor, Shr, Odd;
    if index == 0 {
      OddOfXor(a, b);
    } else {
      ShrOfXor(a, b);
      BitOfXor(Shr(a), Shr(b), index - 1);
    }
  }

  lemma BitsOfXor(a: bv32, b: bv32)
    ensures ToBits(Xor(a, b)) == XorBits(ToBits(a), ToBits(b))
  {
    hide Xor, Bit;
    forall i | 0 <= i < 32 ensures ToBits(Xor(a, b))[i] == XorBits(ToBits(a), ToBits(b))[i] {
      BitOfXor(a, b, i);
    }
  }

  function Shr8(a: bv32): bv32 { a >> 8 }

  lemma ShrEightTimes(word: bv32)
    ensures Shr(Shr(Shr(Shr(Shr(Shr(Shr(Shr(word)))))))) == Shr8(word)
  {}

  lemma Shr8FourTimes(word: bv32)
    ensures Shr8(Shr8(Shr8(Shr8(word)))) == 0
  {}

  lemma BitByByte(word: bv32, index: nat)
    ensures Bit(word, index + 8) == Bit(Shr8(word), index)
  {
    ShrEightTimes(word);
    hide Shr, Shr8, Odd;
    var w2 := Shr(Shr(word));
    var w4 := Shr(Shr(w2));
    var w6 := Shr(Shr(w4));
    assert Bit(word, index + 8) == Bit(w2, index + 6);
    assert Bit(w2, index + 6) == Bit(w4, index + 4);
    assert Bit(w4, index + 4) == Bit(w6, index + 2);
    assert Bit(w6, index + 2) == Bit(Shr(Shr(w6)), index);
  }

  lemma {:induction false} ZeroBits(index: nat)
    ensures !Bit(0, index)
  {
    if index > 0 {
      assert Shr(0) == 0;
      ZeroBits(index - 1);
    }
  }

  lemma NoBit32(word: bv32, index: nat)
    requires index >= 32
    ensures !Bit(word, index)
  {
    hide Shr, Shr8, Odd, Bit;
    Shr8FourTimes(word);
    BitByByte(word, index - 8);
    BitByByte(Shr8(word), index - 16);
    BitByByte(Shr8(Shr8(word)), index - 24);
    BitByByte(Shr8(Shr8(Shr8(word))), index - 32);
    ZeroBits(index - 32);
  }

  lemma BitsOfShr(word: bv32)
    ensures ToBits(Shr(word)) == ToBits(word)[1..] + [false]
  {
    hide Shr, Odd;
    NoBit32(word, 32);
    forall i | 0 <= i < 32 ensures ToBits(Shr(word))[i] == (ToBits(word)[1..] + [false])[i] {
      assert Bit(Shr(word), i) == Bit(word, i + 1);
    }
  }

  /** Complement is exclusive or with all ones. */
  lemma NotIsXor(a: bv32)
    ensures Not(a) == Xor(a, ONES)
  {}

  // ----- The register as a vector of bits -----

  /** 0xEDB88320: the generator polynomial without its leading term, highest degree first. */
  const GENERATOR: Bits := [
    false, false, false, false, false, true, false, false, true, true, false, false, false, false, false, true,
    false, false, false, true, true, true, false, true, true, false, true, true, false, true, true, true]

  type Register = r: Bits | |r| == 32 witness Falses(32)

  lemma NibbleBits(word: bv32, rest: bv32, index: nat)
    requires Shr(Shr(Shr(Shr(word)))) == rest
    ensures Bit(word, index + 4) == Bit(rest, index)
  {
    hide Shr, Odd;
    assert Bit(word, index + 4) == Bit(Shr(Shr(word)), index + 2);
  }

  /** The polynomial constant, one hexadecimal digit at a time. */
  lemma DigitOfPolynomial(word: bv32, digit: nat)
    requires digit < 8
    requires word == [0xEDB88320, 0xEDB8832, 0xEDB883, 0xEDB88, 0xEDB8, 0xEDB, 0xED, 0xE][digit]
    ensures forall i :: 0 <= i < 4 ==> Bit(word, i) == GENERATOR[4 * digit + i]
  {
    assert Bit(word, 0) == Odd(word) && Bit(word, 1) == Odd(Shr(word));
    assert Bit(word, 2) == Odd(Shr(Shr(word))) && Bit(word, 3) == Odd(Shr(Shr(Shr(word))));
  }

  lemma BitOfPolynomial(index: nat, digit: nat, word: bv32)
    requires digit < 8 && 4 * digit <= index < 32
    requires word == [0xEDB88320, 0xEDB8832, 0xEDB883, 0xEDB88, 0xEDB8, 0xEDB, 0xED, 0xE][digit]
    ensures Bit(word, index - 4 * digit) == GENERATOR[index]
    decreases index - 4 * digit
  {
    if index < 4 * digit + 4 {
      DigitOfPolynomial(word, digit);
      assert GENERATOR[4 * digit + (index - 4 * digit)] == GENERATOR[index];
    } else {
      var rest := [0xEDB88320, 0xEDB8832, 0xEDB883, 0xEDB88, 0xEDB8, 0xEDB, 0xED, 0xE][digit + 1];
      BitOfPolynomial(index, digit + 1, rest);
      NibbleBits(word, rest, index - 4 * digit - 4);
    }
  }

  lemma BitsOfPolynomial()
    ensures ToBits(POLYNOMIAL) == GENERATOR
  {
    forall i | 0 <= i < 32 ensures Bit(POLYNOMIAL, i) == GENERATOR[i] {
      BitOfPolynomial(i, 0, POLYNOMIAL);
    }
  }

  /** The register after one bit has been shifted out. */
  function Step(r: Register): Register {
    XorBits(r[1..] + [false], if r[0] then GENERATOR else Falses(32))
  }

  function Steps(r: Register, count: nat): Register
    decreases count
  {
    if count == 0 then r else Steps(Step(r), count - 1)
  }

  /** The message is shifted in one bit at a time. */
  function Feed(r: Register, stream: Bits): Register
    decreases stream
  {
    if stream == [] then r else Feed(Step(r[0 := r[0] != stream[0]]), stream[1..])
  }

  /** Exclusive or of a shorter vector into the front of a longer one. */
  function XorPrefix(a: Bits, b: Bits): (x: Bits)
    requires |b| <= |a|
    ensures |x| == |a|
    ensures forall i :: 0 <= i < |b| ==> x[i] == (a[i] != b[i])
    ensures forall i :: |b| <= i < |a| ==> x[i] == a[i]
  {
    seq(|a|, i requires 0 <= i < |a| => if i < |b| then a[i] != b[i] else a[i])
  }

  /** The eight bits of a byte, least significant first. */
  function ByteBits(b: byte): (bits: Bits)
    ensures |bits| == 8
    ensures forall i :: 0 <= i < 8 ==> bits[i] == Bit(Widen(b), i)
  {
    seq(8, i requires 0 <= i < 8 => Bit(Widen(b), i))
  }

  function Stream(bytes: seq<byte>): (bits: Bits)
    ensures |bits| == 8 * |bytes|
  {
    if bytes == [] then [] else ByteBits(bytes[0]) + Stream(bytes[1..])
  }

  lemma {:induction false} StreamSplit(left: seq<byte>, right: seq<byte>)
    ensures Stream(left + right) == Stream(left) + Stream(right)
  {
    hide ByteBits;
    if left == [] {
      assert left + right == right;
    } else {
      assert (left + right)[1..] == left[1..] + right;
      StreamSplit(left[1..], right);
    }
  }

  lemma {:induction false} FeedSplit(r: Register, left: Bits, right: Bits)
    ensures Feed(r, left + right) == Feed(Feed(r, left), right)
    decreases left
  {
    hide Step;
    if left == [] {
      assert left + right == right;
    } else {
      assert (left + right)[1..] == left[1..] + right;
      FeedSplit(Step(r[0 := r[0] != left[0]]), left[1..], right);
    }
  }

  lemma StepAbsorbsPrefix(r: Register, stream: Bits)
    requires 0 < |stream| <= 32
    ensures Step(XorPrefix(r, stream)) == XorPrefix(Step(r[0 := r[0] != stream[0]]), stream[1..])
  {}

  /** Up to 32 message bits may be exclusive-ored into the register at once. */
  lemma {:induction false} FeedByPrefix(r: Register, stream: Bits)
    requires |stream| <= 32
    ensures Feed(r, stream) == Steps(XorPrefix(r, stream), |stream|)
    decreases stream
  {
    hide Step;
    if stream == [] {
      assert XorPrefix(r, stream) == r;
    } else {
      StepAbsorbsPrefix(r, stream);
      FeedByPrefix(Step(r[0 := r[0] != stream[0]]), stream[1..]);
    }
  }

  // ----- The word loop computes on these vectors -----

  lemma BitStepBits(crc: bv32)
    ensures ToBits(BitStep(crc)) == Step(ToBits(crc))
  {
    hide Xor, Shr, Odd;
    BitsOfShr(crc);
    BitsOfXor(Shr(crc), POLYNOMIAL);
    BitsOfPolynomial();
    assert ToBits(crc)[0] == Odd(crc);
    assert ToBits(BitStep(crc)) == Step(ToBits(crc));
  }

  lemma {:induction false} BitStepsBits(crc: bv32, count: nat)
    ensures ToBits(BitSteps(crc, count)) == Steps(ToBits(crc), count)
    decreases count
  {
    hide BitStep, Step;
    if count > 0 {
      BitStepBits(crc);
      BitStepsBits(BitStep(crc), count - 1);
    }
  }

  lemma HighBitsOfByte(b: byte, index: nat)
    requires 8 <= index
    ensures !Bit(Widen(b), index)
  {
    assert Shr8(Widen(b)) == 0;
    hide Widen, Shr8, Shr, Odd;
    BitByByte(Widen(b), index - 8);
    ZeroBits(index - 8);
  }

  lemma ByteIsPrefix(crc: bv32, b: byte)
    ensures ToBits(Xor(crc, Widen(b))) == XorPrefix(ToBits(crc), ByteBits(b))
  {
    hide Xor, Widen;
    BitsOfXor(crc, Widen(b));
    forall i | 8 <= i < 32 ensures !Bit(Widen(b), i) {
      HighBitsOfByte(b, i);
    }
  }

  lemma ByteStepBits(crc: bv32, b: byte)
    ensures ToBits(ByteStep(crc, b)) == Feed(ToBits(crc), ByteBits(b))
  {
    ByteStepUnfolds(crc, b);
    hide BitSteps, ByteStep, Xor, Widen, Feed, Steps;
    ByteIsPrefix(crc, b);
    BitStepsBits(Xor(crc, Widen(b)), 8);
    FeedByPrefix(ToBits(crc), ByteBits(b));
  }

  lemma {:induction false} UpdateBits(crc: bv32, bytes: seq<byte>)
    ensures ToBits(Update(crc, bytes)) == Feed(ToBits(crc), Stream(bytes))
    decreases bytes
  {
    hide ByteStep, ByteBits, Feed;
    if bytes == [] {
      FeedNothing(ToBits(crc));
    } else {
      ByteStepBits(crc, bytes[0]);
      UpdateBits(ByteStep(crc, bytes[0]), bytes[1..]);
      FeedSplit(ToBits(crc), ByteBits(bytes[0]), Stream(bytes[1..]));
    }
  }

  lemma FeedNothing(r: Register)
    ensures Feed(r, []) == r
  {}

  lemma BitOfOnes(index: nat, digit: nat, word: bv32)
    requires digit < 8 && 4 * digit <= index < 32
    requires word == [0xFFFFFFFF, 0xFFFFFFF, 0xFFFFFF, 0xFFFFF, 0xFFFF, 0xFFF, 0xFF, 0xF][digit]
    ensures Bit(word, index - 4 * digit)
    decreases index - 4 * digit
  {
    if index < 4 * digit + 4 {
      assert Bit(word, 0) == Odd(word) && Bit(word, 1) == Odd(Shr(word));
      assert Bit(word, 2) == Odd(Shr(Shr(word))) && Bit(word, 3) == Odd(Shr(Shr(Shr(word))));
    } else {
      var rest := [0xFFFFFFFF, 0xFFFFFFF, 0xFFFFFF, 0xFFFFF, 0xFFFF, 0xFFF, 0xFF, 0xF][digit + 1];
      BitOfOnes(index, digit + 1, rest);
      NibbleBits(word, rest, index - 4 * digit - 4);
    }
  }

  lemma BitsOfOnes()
    ensures ToBits(ONES) == Trues(32)
  {
    forall i | 0 <= i < 32 ensures Bit(ONES, i) {
      BitOfOnes(i, 0, ONES);
    }
  }

  lemma BitsOfNot(a: bv32)
    ensures ToBits(Not(a)) == NotBits(ToBits(a))
  {
    NotIsXor(a);
    hide Xor, Not, Shr, Odd;
    BitsOfXor(a, ONES);
    BitsOfOnes();
  }

  lemma CrcBits(bytes: seq<byte>)
    ensures ToBits(Crc(bytes)) == NotBits(Feed(Trues(32), Stream(bytes)))
  {
    hide Not, Update, Feed, Stream;
    BitsOfOnes();
    UpdateBits(ONES, bytes);
    BitsOfNot(Update(ONES, bytes));
  }

  // ----- Polynomial division -----

  /**
   * The remainder of a polynomial over the two-element field, highest degree
   * first, divided by x^32 + GENERATOR: schoolbook long division.
   */
  function Remainder(dividend: Bits): Register
    requires |dividend| >= 32
    decreases |dividend|
  {
    if |dividend| == 32 then dividend
    else Remainder(XorPrefix(dividend[1..], if dividend[0] then GENERATOR else Falses(32)))
  }

  lemma {:induction false} FeedIsRemainder(r: Register, stream: Bits)
    ensures Feed(r, stream) == Remainder(XorPrefix(stream + Falses(32), r))
    decreases stream
  {
    var dividend := XorPrefix(stream + Falses(32), r);
    if stream == [] {
      assert dividend == r;
    } else {
      var r' := Step(r[0 := r[0] != stream[0]]);
      FeedIsRemainder(r', stream[1..]);
      var next := XorPrefix(dividend[1..], if dividend[0] then GENERATOR else Falses(32));
      assert next == XorPrefix(stream[1..] + Falses(32), r') by {
        DivisionStep(r, stream);
      }
    }
  }

  lemma DivisionStep(r: Register, stream: Bits)
    requires stream != []
    ensures var dividend := XorPrefix(stream + Falses(32), r);
      XorPrefix(dividend[1..], if dividend[0] then GENERATOR else Falses(32))
      == XorPrefix(stream[1..] + Falses(32), Step(r[0 := r[0] != stream[0]]))
  {
    var dividend := XorPrefix(stream + Falses(32), r);
    var divisor := if dividend[0] then GENERATOR else Falses(32);
    var left := XorPrefix(dividend[1..], divisor);
    var right := XorPrefix(stream[1..] + Falses(32), Step(r[0 := r[0] != stream[0]]));
    forall i | 0 <= i < |left| ensures left[i] == right[i] {
      assert dividend[1..][i] == dividend[i + 1];
      assert (stream + Falses(32))[i + 1] == (stream[1..] + Falses(32))[i];
    }
  }

  /**
   * What `crc32_bytes` computes: complement the first 32 bits of the message,
   * append 32 zero bits, divide, complement the remainder.
   */
  lemma CrcIsRemainder(bytes: seq<byte>)
    ensures ToBits(Crc(bytes)) == NotBits(Remainder(XorPrefix(Stream(bytes) + Falses(32), Trues(32))))
  {
    CrcBits(bytes);
    FeedIsRemainder(Trues(32), Stream(bytes));
  }

  // ----- Bursts -----

  lemma StepInjective(a: Register, b: Register)
    requires Step(a) == Step(b)
    ensures a == b
  {
    assert Step(a)[31] == a[0] && Step(b)[31] == b[0];
    forall i | 0 < i < 32 ensures a[i] == b[i] {
      assert Step(a)[i - 1] == Step(b)[i - 1];
    }
  }

  lemma {:induction false} StepsInjective(a: Register, b: Register, count: nat)
    requires Steps(a, count) == Steps(b, count)
    ensures a == b
    decreases count
  {
    hide Step;
    if count > 0 {
      StepsInjective(Step(a), Step(b), count - 1);
      StepInjective(a, b);
    }
  }

  /** For a fixed message the register map is injective. */
  lemma {:induction false} FeedInjective(a: Register, b: Register, stream: Bits)
    requires Feed(a, stream) == Feed(b, stream)
    ensures a == b
    decreases stream
  {
    hide Step;
    if stream != [] {
      var a', b' := a[0 := a[0] != stream[0]], b[0 := b[0] != stream[0]];
      FeedInjective(Step(a'), Step(b'), stream[1..]);
      StepInjective(a', b');
      assert a == a'[0 := a'[0] != stream[0]];
      assert b == b'[0 := b'[0] != stream[0]];
    }
  }

  function LowByteOf(word: bv32): bv32 { word & 0xFF }

  lemma SameLowByte(a: bv32, b: bv32)
    requires Odd(a) == Odd(b)
    requires Odd(Shr(a)) == Odd(Shr(b))
    requires Odd(Shr(Shr(a))) == Odd(Shr(Shr(b)))
    requires Odd(Shr(Shr(Shr(a)))) == Odd(Shr(Shr(Shr(b))))
    requires Odd(Shr(Shr(Shr(Shr(a))))) == Odd(Shr(Shr(Shr(Shr(b)))))
    requires Odd(Shr(Shr(Shr(Shr(Shr(a)))))) == Odd(Shr(Shr(Shr(Shr(Shr(b))))))
    requires Odd(Shr(Shr(Shr(Shr(Shr(Shr(a))))))) == Odd(Shr(Shr(Shr(Shr(Shr(Shr(b)))))))
    requires Odd(Shr(Shr(Shr(Shr(Shr(Shr(Shr(a)))))))) == Odd(Shr(Shr(Shr(Shr(Shr(Shr(Shr(b))))))))
    ensures LowByteOf(a) == LowByteOf(b)
  {}

  lemma SameBytes(a: bv32, b: bv32)
    requires LowByteOf(a) == LowByteOf(b) && Shr8(a) == Shr8(b)
    ensures a == b
  {}

  lemma SameByteByByte(a: bv32, b: bv32)
    requires forall i :: 0 <= i < 8 ==> Bit(a, i) == Bit(b, i)
    requires Shr8(a) == Shr8(b)
    ensures a == b
  {
    hide Shr, Shr8, Odd, Bit, LowByteOf;
    EightBits(a);
    EightBits(b);
    SameLowByte(a, b);
    SameBytes(a, b);
  }

  lemma NextByteBits(a: bv32, b: bv32, count: nat)
    requires forall i :: 0 <= i < count + 8 ==> Bit(a, i) == Bit(b, i)
    ensures forall i :: 0 <= i < count ==> Bit(Shr8(a), i) == Bit(Shr8(b), i)
  {
    hide Shr8, Bit;
    forall i | 0 <= i < count ensures Bit(Shr8(a), i) == Bit(Shr8(b), i) {
      BitByByte(a, i);
      BitByByte(b, i);
      assert Bit(a, i + 8) == Bit(b, i + 8);
    }
  }

  /** A word is determined by its bits. */
  lemma ToBitsInjective(a: bv32, b: bv32)
    requires ToBits(a) == ToBits(b)
    ensures a == b
  {
    hide Shr8, Bit;
    forall i | 0 <= i < 32 ensures Bit(a, i) == Bit(b, i) {
      assert ToBits(a)[i] == ToBits(b)[i];
    }
    var a1, b1 := Shr8(a), Shr8(b);
    var a2, b2 := Shr8(a1), Shr8(b1);
    var a3, b3 := Shr8(a2), Shr8(b2);
    NextByteBits(a, b, 24);
    NextByteBits(a1, b1, 16);
    NextByteBits(a2, b2, 8);
    Shr8FourTimes(a);
    Shr8FourTimes(b);
    SameByteByByte(a3, b3);
    SameByteByByte(a2, b2);
    SameByteByByte(a1, b1);
    SameByteByByte(a, b);
  }

  /** For a fixed message the loop maps different registers to different registers. */
  lemma UpdateInjective(a: bv32, b: bv32, bytes: seq<byte>)
    requires Update(a, bytes) == Update(b, bytes)
    ensures a == b
  {
    hide Update, Feed, Stream, ToBits;
    UpdateBits(a, bytes);
    UpdateBits(b, bytes);
    FeedInjective(ToBits(a), ToBits(b), Stream(bytes));
    ToBitsInjective(a, b);
  }

  /** Streams that differ only inside one window of at most 32 bits leave different registers. */
  lemma BurstFeeds(r: Register, prefix: Bits, a: Bits, b: Bits, suffix: Bits)
    requires |a| == |b| <= 32 && a != b
    ensures Feed(r, prefix + a + suffix) != Feed(r, prefix + b + suffix)
  {
    hide Feed, Steps;
    var q := Feed(r, prefix);
    FeedSplit(r, prefix + a, suffix);
    FeedSplit(r, prefix, a);
    FeedSplit(r, prefix + b, suffix);
    FeedSplit(r, prefix, b);
    if Feed(r, prefix + a + suffix) == Feed(r, prefix + b + suffix) {
      FeedInjective(Feed(q, a), Feed(q, b), suffix);
      FeedByPrefix(q, a);
      FeedByPrefix(q, b);
      StepsInjective(XorPrefix(q, a), XorPrefix(q, b), |a|);
      XorPrefixInjective(q, a, b);
    }
  }

  lemma XorPrefixInjective(q: Bits, a: Bits, b: Bits)
    requires |a| == |b| <= |q|
    requires XorPrefix(q, a) == XorPrefix(q, b)
    ensures a == b
  {
    forall i | 0 <= i < |a| ensures a[i] == b[i] {
      assert XorPrefix(q, a)[i] == XorPrefix(q, b)[i];
    }
  }

  lemma SameEightBits(a: byte, b: byte)
    requires Odd(Widen(a)) == Odd(Widen(b))
    requires Odd(Shr(Widen(a))) == Odd(Shr(Widen(b)))
    requires Odd(Shr(Shr(Widen(a)))) == Odd(Shr(Shr(Widen(b))))
    requires Odd(Shr(Shr(Shr(Widen(a))))) == Odd(Shr(Shr(Shr(Widen(b)))))
    requires Odd(Shr(Shr(Shr(Shr(Widen(a)))))) == Odd(Shr(Shr(Shr(Shr(Widen(b))))))
    requires Odd(Shr(Shr(Shr(Shr(Shr(Widen(a))))))) == Odd(Shr(Shr(Shr(Shr(Shr(Widen(b)))))))
    requires Odd(Shr(Shr(Shr(Shr(Shr(Shr(Widen(a)))))))) == Odd(Shr(Shr(Shr(Shr(Shr(Shr(Widen(b))))))))
    requires Odd(Shr(Shr(Shr(Shr(Shr(Shr(Shr(Widen(a))))))))) == Odd(Shr(Shr(Shr(Shr(Shr(Shr(Shr(Widen(b)))))))))
    ensures a == b
  {}

  lemma EightBits(w: bv32)
    ensures Bit(w, 0) == Odd(w)
    ensures Bit(w, 1) == Odd(Shr(w))
    ensures Bit(w, 2) == Odd(Shr(Shr(w)))
    ensures Bit(w, 3) == Odd(Shr(Shr(Shr(w))))
    ensures Bit(w, 4) == Odd(Shr(Shr(Shr(Shr(w)))))
    ensures Bit(w, 5) == Odd(Shr(Shr(Shr(Shr(Shr(w))))))
    ensures Bit(w, 6) == Odd(Shr(Shr(Shr(Shr(Shr(Shr(w)))))))
    ensures Bit(w, 7) == Odd(Shr(Shr(Shr(Shr(Shr(Shr(Shr(w))))))))
  {
    hide Shr, Odd;
  }

  lemma ByteBitsInjective(a: byte, b: byte)
    requires ByteBits(a) == ByteBits(b)
    ensures a == b
  {
    hide Widen, Shr, Odd, Bit, ByteBits;
    forall i | 0 <= i < 8 ensures Bit(Widen(a), i) == Bit(Widen(b), i) {
      assert ByteBits(a)[i] == ByteBits(b)[i];
    }
    EightBits(Widen(a));
    EightBits(Widen(b));
    SameEightBits(a, b);
  }

  lemma {:induction false} StreamInjective(a: seq<byte>, b: seq<byte>)
    requires |a| == |b| && Stream(a) == Stream(b)
    ensures a == b
  {
    hide ByteBits;
    if a != [] {
      assert ByteBits(a[0]) == Stream(a)[..8] == ByteBits(b[0]);
      assert Stream(a[1..]) == Stream(a)[8..] == Stream(b[1..]);
      ByteBitsInjective(a[0], b[0]);
      StreamInjective(a[1..], b[1..]);
      assert a == [a[0]] + a[1..] && b == [b[0]] + b[1..];
    }
  }

  /** Two messages that differ only inside one window of at most four bytes have different CRCs. */
  lemma BurstDetected(prefix: seq<byte>, a: seq<byte>, b: seq<byte>, suffix: seq<byte>)
    requires |a| == |b| <= 4 && a != b
    ensures Crc(prefix + a + suffix) != Crc(prefix + b + suffix)
  {
    hide Crc, Feed, Stream;
    if Stream(a) == Stream(b) {
      StreamInjective(a, b);
    }
    CrcBits(prefix + a + suffix);
    CrcBits(prefix + b + suffix);
    StreamSplit(prefix + a, suffix);
    StreamSplit(prefix, a);
    StreamSplit(prefix + b, suffix);
    StreamSplit(prefix, b);
    BurstFeeds(Trues(32), Stream(prefix), Stream(a), Stream(b), Stream(suffix));
    if Crc(prefix + a + suffix) == Crc(prefix + b + suffix) {
      NotBitsInjective(Feed(Trues(32), Stream(prefix + a + suffix)), Feed(Trues(32), Stream(prefix + b + suffix)));
    }
  }

  lemma NotBitsInjective(a: Bits, b: Bits)
    requires NotBits(a) == NotBits(b)
    ensures a == b
  {
    assert |a| == |NotBits(a)| == |NotBits(b)| == |b|;
    forall i | 0 <= i < |a| ensures a[i] == b[i] {
      assert NotBits(a)[i] == NotBits(b)[i];
    }
  }

  // ----- The CRC as a number -----

  function Number(word: bv32): u32 {
    word as u32
  }

  lemma WordOfNumber(word: bv32)
    ensures (word as nat) as bv32 == word
  {}

  lemma NumberInjective(a: bv32, b: bv32)
    requires Number(a) == Number(b)
    ensures a == b
  {
    WordOfNumber(a);
    WordOfNumber(b);
  }

  function CrcValue(bytes: seq<byte>): u32 {
    Number(Crc(bytes))
  }

  lemma BurstChangesValue(prefix: seq<byte>, a: seq<byte>, b: seq<byte>, suffix: seq<byte>)
    requires |a| == |b| <= 4 && a != b
    ensures CrcValue(prefix + a + suffix) != CrcValue(prefix + b + suffix)
  {
    hide Crc, Number;
    BurstDetected(prefix, a, b, suffix);
    if CrcValue(prefix + a + suffix) == CrcValue(prefix + b + suffix) {
      NumberInjective(Crc(prefix + a + suffix), Crc(prefix + b + suffix));
    }
  }
}
