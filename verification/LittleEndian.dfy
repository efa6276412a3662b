/** The little-endian codec shared by both physical headers. */
module LittleEndian {
  import opened Words

  /** 256 to the power n: a right shift by 8 * n bits divides by it. */
  function Pow256(n: nat): (p: nat)
    ensures p > 0
  {
    if n == 0 then 1 else 256 * Pow256(n - 1)
  }

  /** The `width` low-order bytes of `value`, least significant first. */
  function Encode(value: nat, width: nat): (bytes: seq<byte>)
    ensures |bytes| == width
  {
    if width == 0 then [] else [LowByte(value)] + Encode(value / 256, width - 1)
  }

  function Decode(bytes: seq<byte>): (value: nat)
    ensures value < Pow256(|bytes|)
  {
    if bytes == [] then 0 else ByteValue(bytes[0]) + 256 * Decode(bytes[1..])
  }

  lemma {:induction false} DecodeEncode(value: nat, width: nat)
    requires value < Pow256(width)
    ensures Decode(Encode(value, width)) == value
  {
    if width > 0 {
      hide ToByte, ByteValue;
      ByteValueOfByte(value % 256);
      DecodeEncode(value / 256, width - 1);
      assert Encode(value, width)[1..] == Encode(value / 256, width - 1);
    }
  }

  lemma LowByteBack(b: byte, rest: nat)
    ensures LowByte(ByteValue(b) + 256 * rest) == b
    ensures (ByteValue(b) + 256 * rest) / 256 == rest
  {
    hide ToByte, ByteValue;
    ToByteOfValue(b);
    assert (ByteValue(b) + 256 * rest) % 256 == ByteValue(b);
  }

  lemma {:induction false} EncodeDecode(bytes: seq<byte>)
    ensures Encode(Decode(bytes), |bytes|) == bytes
  {
    if bytes != [] {
      EncodeDecode(bytes[1..]);
      hide LowByte;
      LowByteBack(bytes[0], Decode(bytes[1..]));
      assert bytes == [bytes[0]] + bytes[1..];
    }
  }

  /** Byte `index` of the encoding is the value shifted right by that many bytes. */
  lemma {:induction false} EncodeAt(value: nat, width: nat, index: nat)
    requires index < width
    ensures Encode(value, width)[index] == LowByte(value / Pow256(index))
  {
    hide LowByte;
    if index > 0 {
      EncodeAt(value / 256, width - 1, index - 1);
      DivDiv(value, index);
    }
  }

  lemma DivDiv(value: nat, index: nat)
    requires index > 0
    ensures value / 256 / Pow256(index - 1) == value / Pow256(index)
  {
    var p := Pow256(index - 1);
    var v := value / 256;
    var q, r := v / p, v % p;
    assert v == q * p + r;
    assert value == 256 * v + value % 256;
    MulAssoc(256, q, p);
    MulAssoc(q, 256, p);
    assert value == q * (256 * p) + (256 * r + value % 256);
    DivUnique(value, 256 * p, q, 256 * r + value % 256);
  }

  lemma DivUnique(x: nat, d: nat, q: nat, r: nat)
    requires d > 0 && x == q * d + r && r < d
    ensures x / d == q
  {
    if x / d < q { Bigger(d, x / d, x % d, q, r); }
    if q < x / d { Bigger(d, q, r, x / d, x % d); }
  }

  lemma Bigger(d: nat, q: nat, r: nat, q': nat, r': nat)
    requires r < d && q < q'
    ensures q * d + r < q' * d + r'
  {
    assert q' * d == (q' - 1) * d + d;
    if q + 1 < q' {
      Bigger(d, q, r, q' - 1, r');
    }
  }

  lemma MulAssoc(a: nat, b: nat, c: nat)
    ensures a * (b * c) == (a * b) * c
  {}

  lemma {:induction false} DecodeSnoc(bytes: seq<byte>, last: byte)
    ensures Decode(bytes + [last]) == Decode(bytes) + Pow256(|bytes|) * ByteValue(last)
  {
    if bytes == [] {
      assert (bytes + [last])[1..] == [];
    } else {
      assert (bytes + [last])[1..] == bytes[1..] + [last];
      DecodeSnoc(bytes[1..], last);
      MulAssoc(256, Pow256(|bytes| - 1), ByteValue(last));
    }
  }

  /** Writes `width` bytes of `value` at `offset` and leaves every other byte alone. */
  method StoreLe(bytes: array<byte>, offset: nat, value: nat, width: nat)
    requires offset + width <= bytes.Length
    modifies bytes
    ensures bytes[..] == old(bytes[..offset]) + Encode(value, width) + old(bytes[offset + width..])
  {
    for index := 0 to width
      invariant forall k :: 0 <= k < bytes.Length && !(offset <= k < offset + index) ==> bytes[k] == old(bytes[k])
      invariant forall k :: 0 <= k < index ==> bytes[offset + k] == Encode(value, width)[k]
    {
      EncodeAt(value, width, index);
      bytes[offset + index] := ((value / Pow256(index)) % 256) as byte;
    }
    assert forall k :: offset <= k < offset + width ==> bytes[k] == Encode(value, width)[k - offset] by {
      forall k | offset <= k < offset + width ensures bytes[k] == Encode(value, width)[k - offset] {
        assert bytes[offset + (k - offset)] == Encode(value, width)[k - offset];
      }
    }
  }

  /** Reads `width` bytes at `offset`; each step adds a byte in bits no earlier byte occupies. */
  method LoadLe(bytes: seq<byte>, offset: nat, width: nat) returns (value: nat)
    requires offset + width <= |bytes|
    ensures value == Decode(bytes[offset..offset + width])
  {
    value := 0;
    for index := 0 to width
      invariant value == Decode(bytes[offset..offset + index])
    {
      DecodeSnoc(bytes[offset..offset + index], bytes[offset + index]);
      assert bytes[offset..offset + index + 1] == bytes[offset..offset + index] + [bytes[offset + index]];
      value := value + Pow256(index) * ByteValue(bytes[offset + index]);
    }
  }
}
