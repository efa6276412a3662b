/**
 * The hash of the demo by itself: it can be run backwards, so a fixed message
 * permutes the states; and what it is for the first messages, in numbers.
 */
module DemoHash {
  import opened Words
  import opened LittleEndian
  import opened WalImage
  import opened WalLayout
  import opened Demo

  // ----- Backwards -----

  /** 0xce965057aff6957b is the inverse of the prime modulo 2 to the 64. */
  function Untimes(state: bv64): bv64 { state * 0xce965057aff6957b }
  function Unfolded(state: bv64): bv64 { state ^ (state >> 29) ^ (state >> 58) }

  function HashByteBack(state: bv64, b: byte): bv64 {
    Stirred(Untimes(Unfolded(state)), b)
  }

  function HashBack(state: bv64, payload: Payload): bv64
    decreases |payload|
  {
    if payload == [] then state
    else HashBack(HashByteBack(state, payload[|payload| - 1]), payload[..|payload| - 1])
  }

  // Each operation and its inverse, first on the words themselves.

  lemma TimesIs(x: bv64)
    ensures Times(x) == x * 0x100000001b3
    ensures Untimes(x * 0x100000001b3) == x
  {}

  lemma FoldedIs(x: bv64)
    ensures Folded(x) == x ^ (x >> 29)
    ensures Unfolded(x ^ (x >> 29)) == x
  {}

  lemma UntimesTimes(x: bv64)
    ensures Untimes(Times(x)) == x
  {
    hide *;
    TimesIs(x);
  }

  lemma UnfoldedFolded(x: bv64)
    ensures Unfolded(Folded(x)) == x
  {
    hide *;
    FoldedIs(x);
  }

  lemma StirredTwice(x: bv64, b: byte)
    ensures Stirred(Stirred(x, b), b) == x
  {}

  lemma HashByteBackOfHashByte(state: bv64, b: byte)
    ensures HashByteBack(HashByte(state, b), b) == state
  {
    hide Stirred, Times, Folded, Untimes, Unfolded;
    StirredTwice(state, b);
    UntimesTimes(Stirred(state, b));
    UnfoldedFolded(Times(Stirred(state, b)));
  }

  /** The state before a message, from the state after it: no two states are confused by any message. */
  lemma {:induction false} HashBackOfHash(state: bv64, payload: Payload)
    ensures HashBack(HashPayload(state, payload), payload) == state
    decreases |payload|
  {
    hide HashByte, HashByteBack;
    if payload != [] {
      var front, last := payload[..|payload| - 1], payload[|payload| - 1];
      HashByteBackOfHashByte(HashPayload(state, front), last);
      HashBackOfHash(state, front);
    }
  }

  // ----- In numbers -----

  lemma EightBytes(value: nat, a: byte, b: byte, c: byte, d: byte)
    requires value == ByteValue(a) + 256 * (ByteValue(b) + 256 * (ByteValue(c) + 256 * ByteValue(d)))
    ensures Encode(value, 8) == [a, b, c, d, 0, 0, 0, 0]
  {
    hide Encode, LowByte, ByteValue;
    var third := ByteValue(c) + 256 * ByteValue(d);
    var second := ByteValue(b) + 256 * third;
    Strip(value, ByteValue(a), second);
    Strip(second, ByteValue(b), third);
    Strip(third, ByteValue(c), ByteValue(d));
    Strip(ByteValue(d), ByteValue(d), 0);
    LowByteIs(value, a);
    LowByteIs(second, b);
    LowByteIs(third, c);
    LowByteIs(ByteValue(d), d);
    EncodeStep(value, 8);
    EncodeStep(second, 7);
    EncodeStep(third, 6);
    EncodeStep(ByteValue(d), 5);
    EncodeZero(4);
  }

  lemma MoreByteLiterals()
    ensures ByteValue(0) == 0 && ByteValue(1) == 1 && ByteValue(0x5a) == 0x5a && ByteValue(0x5d) == 0x5d
  {}

  /** The first two payloads. */
  lemma FirstPayloads()
    ensures PayloadAt(0)
         == [0x00, 0x00, 0x00, 0x00, 0x00, 0x00, 0x00, 0x00, 0x5a, 0x5a, 0x5a, 0x5a, 0x00, 0x00, 0x00, 0x00]
    ensures PayloadAt(1)
         == [0x01, 0x00, 0x00, 0x00, 0x00, 0x00, 0x00, 0x00, 0x5d, 0x5a, 0x5a, 0x5a, 0x00, 0x00, 0x00, 0x00]
  {
    MoreByteLiterals();
    hide Encode, ByteValue;
    EightBytes(0, 0, 0, 0, 0);
    EightBytes(1, 1, 0, 0, 0);
    EightBytes(0x5a5a5a5a, 0x5a, 0x5a, 0x5a, 0x5a);
    EightBytes(0x5a5a5a5d, 0x5d, 0x5a, 0x5a, 0x5a);
  }

  lemma HashPrefix(state: bv64, payload: Payload, k: nat)
    requires k < |payload|
    ensures HashPayload(state, payload[..k + 1]) == HashByte(HashPayload(state, payload[..k]), payload[k])
  {
    hide HashByte;
    assert payload[..k + 1][..k] == payload[..k];
  }

  lemma HashNothing(state: bv64)
    ensures HashPayload(state, []) == state
  {}

  lemma Turns0()
    ensures HashByte(0x6a09e667f3bcc909, 0x00) == 0xeb9b8ba47515c752
    ensures HashByte(0xeb9b8ba47515c752, 0x00) == 0x6f159a718cad63c1
    ensures HashByte(0x6f159a718cad63c1, 0x00) == 0x6f192ff17269ff63
    ensures HashByte(0x6f192ff17269ff63, 0x00) == 0x31cbda44e4422712
    ensures HashByte(0x31cbda44e4422712, 0x00) == 0xdf8af509203fcbe8
    ensures HashByte(0xdf8af509203fcbe8, 0x00) == 0x18ea46810b354f36
    ensures HashByte(0x18ea46810b354f36, 0x00) == 0x8b65034250bd82f2
    ensures HashByte(0x8b65034250bd82f2, 0x00) == 0x9a277babe33e5c4f
    ensures HashByte(0x9a277babe33e5c4f, 0x5a) == 0x2f733a12596fa736
    ensures HashByte(0x2f733a12596fa736, 0x5a) == 0x1073192d7b21b5eb
    ensures HashByte(0x1073192d7b21b5eb, 0x5a) == 0x15497948900c7182
    ensures HashByte(0x15497948900c7182, 0x5a) == 0x384aee4d0772006e
    ensures HashByte(0x384aee4d0772006e, 0x00) == 0x19535ae36c2c6df7
    ensures HashByte(0x19535ae36c2c6df7, 0x00) == 0x3511677167f5e133
    ensures HashByte(0x3511677167f5e133, 0x00) == 0x2273f8b2b5526c34
    ensures HashByte(0x2273f8b2b5526c34, 0x00) == 0xdd7bcbacf0d3810c
  {}

  lemma HashOfPayload0()
    ensures HashPayload(0x6a09e667f3bcc909, PayloadAt(0)) == 0xdd7bcbacf0d3810c
  {
    Turns0();
    hide HashByte, HashPayload, PayloadAt;
    FirstPayloads();
    HashNothing(0x6a09e667f3bcc909);
    var payload := PayloadAt(0);
    assert payload[..0] == [] && payload[..16] == payload;
    HashPrefix(0x6a09e667f3bcc909, payload, 0);
    HashPrefix(0x6a09e667f3bcc909, payload, 1);
    HashPrefix(0x6a09e667f3bcc909, payload, 2);
    HashPrefix(0x6a09e667f3bcc909, payload, 3);
    HashPrefix(0x6a09e667f3bcc909, payload, 4);
    HashPrefix(0x6a09e667f3bcc909, payload, 5);
    HashPrefix(0x6a09e667f3bcc909, payload, 6);
    HashPrefix(0x6a09e667f3bcc909, payload, 7);
    HashPrefix(0x6a09e667f3bcc909, payload, 8);
    HashPrefix(0x6a09e667f3bcc909, payload, 9);
    HashPrefix(0x6a09e667f3bcc909, payload, 10);
    HashPrefix(0x6a09e667f3bcc909, payload, 11);
    HashPrefix(0x6a09e667f3bcc909, payload, 12);
    HashPrefix(0x6a09e667f3bcc909, payload, 13);
    HashPrefix(0x6a09e667f3bcc909, payload, 14);
    HashPrefix(0x6a09e667f3bcc909, payload, 15);
  }

  lemma Turns1()
    ensures HashByte(0xdd7bcbacf0d3810c, 0x01) == 0x2cdc23dc518557fe
    ensures HashByte(0x2cdc23dc518557fe, 0x00) == 0xbf68ed5b7ed3ee6e
    ensures HashByte(0xbf68ed5b7ed3ee6e, 0x00) == 0x1339c0781bd0272e
    ensures HashByte(0x1339c0781bd0272e, 0x00) == 0x7b493a1498fb4390
    ensures HashByte(0x7b493a1498fb4390, 0x00) == 0x78b140fc3779ca4f
    ensures HashByte(0x78b140fc3779ca4f, 0x00) == 0x8efbbb96342f18af
    ensures HashByte(0x8efbbb96342f18af, 0x00) == 0x24d86f3b8ac58888
    ensures HashByte(0x24d86f3b8ac58888, 0x00) == 0x614d8a2fc7caae7e
    ensures HashByte(0x614d8a2fc7caae7e, 0x5d) == 0x216ff231761a74fa
    ensures HashByte(0x216ff231761a74fa, 0x5a) == 0xebad2a0cf39d7bbd
    ensures HashByte(0xebad2a0cf39d7bbd, 0x5a) == 0x14ba5b01514b518a
    ensures HashByte(0x14ba5b01514b518a, 0x5a) == 0x83fa73393d2f9d99
    ensures HashByte(0x83fa73393d2f9d99, 0x00) == 0x722f63416693d0ec
    ensures HashByte(0x722f63416693d0ec, 0x00) == 0x9a5694259f98a00e
    ensures HashByte(0x9a5694259f98a00e, 0x00) == 0xd9bdc9e8fdb9b8bb
    ensures HashByte(0xd9bdc9e8fdb9b8bb, 0x00) == 0xb736d1e29b226af8
  {}

  lemma HashOfPayload1()
    ensures HashPayload(0xdd7bcbacf0d3810c, PayloadAt(1)) == 0xb736d1e29b226af8
  {
    Turns1();
    hide HashByte, HashPayload, PayloadAt;
    FirstPayloads();
    HashNothing(0xdd7bcbacf0d3810c);
    var payload := PayloadAt(1);
    assert payload[..0] == [] && payload[..16] == payload;
    HashPrefix(0xdd7bcbacf0d3810c, payload, 0);
    HashPrefix(0xdd7bcbacf0d3810c, payload, 1);
    HashPrefix(0xdd7bcbacf0d3810c, payload, 2);
    HashPrefix(0xdd7bcbacf0d3810c, payload, 3);
    HashPrefix(0xdd7bcbacf0d3810c, payload, 4);
    HashPrefix(0xdd7bcbacf0d3810c, payload, 5);
    HashPrefix(0xdd7bcbacf0d3810c, payload, 6);
    HashPrefix(0xdd7bcbacf0d3810c, payload, 7);
    HashPrefix(0xdd7bcbacf0d3810c, payload, 8);
    HashPrefix(0xdd7bcbacf0d3810c, payload, 9);
    HashPrefix(0xdd7bcbacf0d3810c, payload, 10);
    HashPrefix(0xdd7bcbacf0d3810c, payload, 11);
    HashPrefix(0xdd7bcbacf0d3810c, payload, 12);
    HashPrefix(0xdd7bcbacf0d3810c, payload, 13);
    HashPrefix(0xdd7bcbacf0d3810c, payload, 14);
    HashPrefix(0xdd7bcbacf0d3810c, payload, 15);
  }

  /** The hashes after the first one and two messages. */
  lemma FirstHashes()
    ensures ExpectedHash(1) == 0xdd7bcbacf0d3810c
    ensures ExpectedHash(2) == 0xb736d1e29b226af8
  {
    hide HashByte, HashPayload, PayloadAt;
    HashOfPayload0();
    HashOfPayload1();
    assert ExpectedHash(0) == HASH_SEED;
    assert ExpectedHash(1) == HashPayload(ExpectedHash(0), PayloadAt(0));
  }
}
