/**
 * The two headers of the write-ahead log, their canonical little-endian bytes,
 * and the image that a writer with a given configuration produces.
 */
module WalFormat {
  import opened Words
  import opened LittleEndian

  const FILE_MAGIC: u32 := 0x57414c46
  const RECORD_MAGIC: u32 := 0x57414c52
  const FORMAT_VERSION: u16 := 3

  datatype FileHeader = FileHeader(
    magic: u32,
    version: u16,
    headerSize: u16,
    streamKind: u16,
    flags: u16,
    payloadSize: u32,
    payloadSchemaVersion: u32,
    alignment: u32,
    recordsOffset: u32,
    streamId: u64,
    epochId: u64,
    firstSequence: u64,
    manifestId: u64,
    headerCrc: u32)

  datatype RecordHeader = RecordHeader(
    magic: u32,
    version: u16,
    headerSize: u16,
    sequence: u64,
    payloadCrc: u32,
    headerCrc: u32)

  // ----- Field access -----

  lemma PowersOf256()
    ensures Pow256(2) == 0x1_0000 && Pow256(4) == 0x1_0000_0000 && Pow256(8) == 0x1_0000_0000_0000_0000
  {
    assert Pow256(6) == 0x1_0000_0000_0000;
  }

  function Load16(bytes: seq<byte>, offset: nat): u16
    requires offset + 2 <= |bytes|
  {
    PowersOf256();
    Decode(bytes[offset..offset + 2])
  }

  function Load32(bytes: seq<byte>, offset: nat): u32
    requires offset + 4 <= |bytes|
  {
    PowersOf256();
    Decode(bytes[offset..offset + 4])
  }

  function Load64(bytes: seq<byte>, offset: nat): u64
    requires offset + 8 <= |bytes|
  {
    PowersOf256();
    Decode(bytes[offset..offset + 8])
  }

  // ----- The file header -----

  /** Byte `index` of the canonical header: the fields tile it from first to last. */
  function FileHeaderByte(header: FileHeader, index: nat): byte
    requires index < 64
  {
    if index < 4 then Encode(header.magic, 4)[index]
    else if index < 6 then Encode(header.version, 2)[index - 4]
    else if index < 8 then Encode(header.headerSize, 2)[index - 6]
    else if index < 10 then Encode(header.streamKind, 2)[index - 8]
    else if index < 12 then Encode(header.flags, 2)[index - 10]
    else if index < 16 then Encode(header.payloadSize, 4)[index - 12]
    else if index < 20 then Encode(header.payloadSchemaVersion, 4)[index - 16]
    else if index < 24 then Encode(header.alignment, 4)[index - 20]
    else if index < 28 then Encode(header.recordsOffset, 4)[index - 24]
    else if index < 36 then Encode(header.streamId, 8)[index - 28]
    else if index < 44 then Encode(header.epochId, 8)[index - 36]
    else if index < 52 then Encode(header.firstSequence, 8)[index - 44]
    else if index < 60 then Encode(header.manifestId, 8)[index - 52]
    else Encode(header.headerCrc, 4)[index - 60]
  }

  function SerializeFileHeader(header: FileHeader): (bytes: seq<byte>)
    ensures |bytes| == 64
    ensures forall i :: 0 <= i < 64 ==> bytes[i] == FileHeaderByte(header, i)
  {
    seq(64, i requires 0 <= i < 64 => FileHeaderByte(header, i))
  }

  function DeserializeFileHeader(bytes: seq<byte>): FileHeader
    requires |bytes| == 64
  {
    FileHeader(
      Load32(bytes, 0),
      Load16(bytes, 4),
      Load16(bytes, 6),
      Load16(bytes, 8),
      Load16(bytes, 10),
      Load32(bytes, 12),
      Load32(bytes, 16),
      Load32(bytes, 20),
      Load32(bytes, 24),
      Load64(bytes, 28),
      Load64(bytes, 36),
      Load64(bytes, 44),
      Load64(bytes, 52),
      Load32(bytes, 60))
  }

  lemma FileHeaderFields(header: FileHeader, bytes: seq<byte>)
    requires bytes == SerializeFileHeader(header)
    ensures bytes[0..4] == Encode(header.magic, 4)
    ensures bytes[4..6] == Encode(header.version, 2)
    ensures bytes[6..8] == Encode(header.headerSize, 2)
    ensures bytes[8..10] == Encode(header.streamKind, 2)
    ensures bytes[10..12] == Encode(header.flags, 2)
    ensures bytes[12..16] == Encode(header.payloadSize, 4)
    ensures bytes[16..20] == Encode(header.payloadSchemaVersion, 4)
    ensures bytes[20..24] == Encode(header.alignment, 4)
    ensures bytes[24..28] == Encode(header.recordsOffset, 4)
    ensures bytes[28..36] == Encode(header.streamId, 8)
    ensures bytes[36..44] == Encode(header.epochId, 8)
    ensures bytes[44..52] == Encode(header.firstSequence, 8)
    ensures bytes[52..60] == Encode(header.manifestId, 8)
    ensures bytes[60..64] == Encode(header.headerCrc, 4)
  {
    hide Encode;
  }

  lemma DeserializeFileHeaderOfSerialize(header: FileHeader)
    ensures DeserializeFileHeader(SerializeFileHeader(header)) == header
  {
    hide Encode, Decode, SerializeFileHeader;
    var bytes := SerializeFileHeader(header);
    FileHeaderFields(header, bytes);
    PowersOf256();
    DecodeEncode(header.magic, 4);
    DecodeEncode(header.version, 2);
    DecodeEncode(header.headerSize, 2);
    DecodeEncode(header.streamKind, 2);
    DecodeEncode(header.flags, 2);
    DecodeEncode(header.payloadSize, 4);
    DecodeEncode(header.payloadSchemaVersion, 4);
    DecodeEncode(header.alignment, 4);
    DecodeEncode(header.recordsOffset, 4);
    DecodeEncode(header.streamId, 8);
    DecodeEncode(header.epochId, 8);
    DecodeEncode(header.firstSequence, 8);
    DecodeEncode(header.manifestId, 8);
    DecodeEncode(header.headerCrc, 4);
  }

  lemma SerializeFileHeaderOfDeserialize(bytes: seq<byte>)
    requires |bytes| == 64
    ensures SerializeFileHeader(DeserializeFileHeader(bytes)) == bytes
  {
    hide Encode, Decode;
    var header := DeserializeFileHeader(bytes);
    EncodeDecode(bytes[0..4]);
    EncodeDecode(bytes[4..6]);
    EncodeDecode(bytes[6..8]);
    EncodeDecode(bytes[8..10]);
    EncodeDecode(bytes[10..12]);
    EncodeDecode(bytes[12..16]);
    EncodeDecode(bytes[16..20]);
    EncodeDecode(bytes[20..24]);
    EncodeDecode(bytes[24..28]);
    EncodeDecode(bytes[28..36]);
    EncodeDecode(bytes[36..44]);
    EncodeDecode(bytes[44..52]);
    EncodeDecode(bytes[52..60]);
    EncodeDecode(bytes[60..64]);
    forall i | 0 <= i < 64 ensures SerializeFileHeader(header)[i] == bytes[i] {
    }
  }

  // ----- The record header -----

  /** Byte `index` of the canonical header: the fields tile it from first to last. */
  function RecordHeaderByte(header: RecordHeader, index: nat): byte
    requires index < 24
  {
    if index < 4 then Encode(header.magic, 4)[index]
    else if index < 6 then Encode(header.version, 2)[index - 4]
    else if index < 8 then Encode(header.headerSize, 2)[index - 6]
    else if index < 16 then Encode(header.sequence, 8)[index - 8]
    else if index < 20 then Encode(header.payloadCrc, 4)[index - 16]
    else Encode(header.headerCrc, 4)[index - 20]
  }

  function SerializeRecordHeader(header: RecordHeader): (bytes: seq<byte>)
    ensures |bytes| == 24
    ensures forall i :: 0 <= i < 24 ==> bytes[i] == RecordHeaderByte(header, i)
  {
    seq(24, i requires 0 <= i < 24 => RecordHeaderByte(header, i))
  }

  function DeserializeRecordHeader(bytes: seq<byte>): RecordHeader
    requires |bytes| == 24
  {
    RecordHeader(
      Load32(bytes, 0),
      Load16(bytes, 4),
      Load16(bytes, 6),
      Load64(bytes, 8),
      Load32(bytes, 16),
      Load32(bytes, 20))
  }

  lemma RecordHeaderFields(header: RecordHeader, bytes: seq<byte>)
    requires bytes == SerializeRecordHeader(header)
    ensures bytes[0..4] == Encode(header.magic, 4)
    ensures bytes[4..6] == Encode(header.version, 2)
    ensures bytes[6..8] == Encode(header.headerSize, 2)
    ensures bytes[8..16] == Encode(header.sequence, 8)
    ensures bytes[16..20] == Encode(header.payloadCrc, 4)
    ensures bytes[20..24] == Encode(header.headerCrc, 4)
  {
    hide Encode;
  }

  lemma DeserializeRecordHeaderOfSerialize(header: RecordHeader)
    ensures DeserializeRecordHeader(SerializeRecordHeader(header)) == header
  {
    hide Encode, Decode, SerializeRecordHeader;
    var bytes := SerializeRecordHeader(header);
    RecordHeaderFields(header, bytes);
    PowersOf256();
    DecodeEncode(header.magic, 4);
    DecodeEncode(header.version, 2);
    DecodeEncode(header.headerSize, 2);
    DecodeEncode(header.sequence, 8);
    DecodeEncode(header.payloadCrc, 4);
    DecodeEncode(header.headerCrc, 4);
  }

  lemma SerializeRecordHeaderOfDeserialize(bytes: seq<byte>)
    requires |bytes| == 24
    ensures SerializeRecordHeader(DeserializeRecordHeader(bytes)) == bytes
  {
    hide Encode, Decode;
    var header := DeserializeRecordHeader(bytes);
    EncodeDecode(bytes[0..4]);
    EncodeDecode(bytes[4..6]);
    EncodeDecode(bytes[6..8]);
    EncodeDecode(bytes[8..16]);
    EncodeDecode(bytes[16..20]);
    EncodeDecode(bytes[20..24]);
    forall i | 0 <= i < 24 ensures SerializeRecordHeader(header)[i] == bytes[i] {
    }
  }

  // ----- The same headers written and read field by field -----

  /** Stores one field of a header whose bytes before `offset` are already in place. */
  method StoreField(out: array<byte>, offset: nat, value: nat, width: nat, ghost image: seq<byte>)
    requires offset + width <= out.Length == |image|
    requires out[..offset] == image[..offset]
    requires image[offset..offset + width] == Encode(value, width)
    modifies out
    ensures out[..offset + width] == image[..offset + width]
  {
    hide Encode;
    StoreLe(out, offset, value, width);
    assert image[..offset + width] == image[..offset] + image[offset..offset + width];
  }

  method StoreFileHeader(header: FileHeader) returns (out: array<byte>)
    ensures fresh(out) && out[..] == SerializeFileHeader(header)
  {
    hide Encode, SerializeFileHeader;
    out := new byte[64](_ => 0);
    ghost var image := SerializeFileHeader(header);
    FileHeaderFields(header, image);
    StoreField(out, 0, header.magic, 4, image);
    StoreField(out, 4, header.version, 2, image);
    StoreField(out, 6, header.headerSize, 2, image);
    StoreField(out, 8, header.streamKind, 2, image);
    StoreField(out, 10, header.flags, 2, image);
    StoreField(out, 12, header.payloadSize, 4, image);
    StoreField(out, 16, header.payloadSchemaVersion, 4, image);
    StoreField(out, 20, header.alignment, 4, image);
    StoreField(out, 24, header.recordsOffset, 4, image);
    StoreField(out, 28, header.streamId, 8, image);
    StoreField(out, 36, header.epochId, 8, image);
    StoreField(out, 44, header.firstSequence, 8, image);
    StoreField(out, 52, header.manifestId, 8, image);
    StoreField(out, 60, header.headerCrc, 4, image);
    assert out[..64] == out[..] && image[..64] == image;
  }

  method StoreRecordHeader(header: RecordHeader) returns (out: array<byte>)
    ensures fresh(out) && out[..] == SerializeRecordHeader(header)
  {
    hide Encode, SerializeRecordHeader;
    out := new byte[24](_ => 0);
    ghost var image := SerializeRecordHeader(header);
    RecordHeaderFields(header, image);
    StoreField(out, 0, header.magic, 4, image);
    StoreField(out, 4, header.version, 2, image);
    StoreField(out, 6, header.headerSize, 2, image);
    StoreField(out, 8, header.sequence, 8, image);
    StoreField(out, 16, header.payloadCrc, 4, image);
    StoreField(out, 20, header.headerCrc, 4, image);
    assert out[..24] == out[..] && image[..24] == image;
  }

  method LoadFileHeader(bytes: seq<byte>) returns (header: FileHeader)
    requires |bytes| == 64
    ensures header == DeserializeFileHeader(bytes)
  {
    hide Decode;
    PowersOf256();
    var magic := LoadLe(bytes, 0, 4);
    var version := LoadLe(bytes, 4, 2);
    var headerSize := LoadLe(bytes, 6, 2);
    var streamKind := LoadLe(bytes, 8, 2);
    var flags := LoadLe(bytes, 10, 2);
    var payloadSize := LoadLe(bytes, 12, 4);
    var payloadSchemaVersion := LoadLe(bytes, 16, 4);
    var alignment := LoadLe(bytes, 20, 4);
    var recordsOffset := LoadLe(bytes, 24, 4);
    var streamId := LoadLe(bytes, 28, 8);
    var epochId := LoadLe(bytes, 36, 8);
    var firstSequence := LoadLe(bytes, 44, 8);
    var manifestId := LoadLe(bytes, 52, 8);
    var headerCrc := LoadLe(bytes, 60, 4);
    header := FileHeader(
      magic, version, headerSize, streamKind, flags, payloadSize, payloadSchemaVersion, alignment, recordsOffset,
      streamId, epochId, firstSequence, manifestId, headerCrc);
  }

  method LoadRecordHeader(bytes: seq<byte>) returns (header: RecordHeader)
    requires |bytes| == 24
    ensures header == DeserializeRecordHeader(bytes)
  {
    hide Decode;
    PowersOf256();
    var magic := LoadLe(bytes, 0, 4);
    var version := LoadLe(bytes, 4, 2);
    var headerSize := LoadLe(bytes, 6, 2);
    var sequence := LoadLe(bytes, 8, 8);
    var payloadCrc := LoadLe(bytes, 16, 4);
    var headerCrc := LoadLe(bytes, 20, 4);
    header := RecordHeader(magic, version, headerSize, sequence, payloadCrc, headerCrc);
  }
}
