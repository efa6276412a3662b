/** Fixed-width unsigned words, bytes and the numbers they stand for. */
module Words {
  type byte = bv8
  type u16 = x: nat | x < 0x1_0000
  type u32 = x: nat | x < 0x1_0000_0000
  type u64 = x: nat | x < 0x1_0000_0000_0000_0000

  const U32_MAX: u32 := 0xFFFF_FFFF
  const U64_MAX: u64 := 0xFFFF_FFFF_FFFF_FFFF

  // Conversions between bytes and the numbers they stand for.

  function ToByte(value: nat): byte
    requires value < 256
  {
    value as byte
  }

  function ByteValue(b: byte): (value: nat)
    ensures value < 256
  {
    b as nat
  }

  function Successor(b: byte): byte { b + 1 }

  lemma ByteValueOfSuccessor(b: byte)
    requires b != 255
    ensures ByteValue(Successor(b)) == ByteValue(b) + 1
  {}

  lemma ByteValueEnds()
    ensures ByteValue(0) == 0 && ByteValue(255) == 255
  {}

  lemma ToByteOfValue(b: byte)
    ensures ToByte(ByteValue(b)) == b
  {}

  lemma {:induction false} ByteWithValue(value: nat) returns (b: byte)
    requires value < 256
    ensures ByteValue(b) == value
  {
    hide ByteValue, Successor;
    ByteValueEnds();
    if value == 0 {
      b := 0;
    } else {
      var c := ByteWithValue(value - 1);
      ByteValueOfSuccessor(c);
      b := Successor(c);
    }
  }

  lemma ByteValueOfByte(value: nat)
    requires value < 256
    ensures ByteValue(ToByte(value)) == value
  {
    hide ToByte, ByteValue;
    var b := ByteWithValue(value);
    ToByteOfValue(b);
  }

  function LowByte(value: nat): byte {
    ToByte(value % 256)
  }

  function Min(a: nat, b: nat): nat {
    if a < b then a else b
  }

  function Zeros(n: nat): (z: seq<byte>)
    ensures |z| == n
  {
    seq(n, _ => 0 as byte)
  }
}
