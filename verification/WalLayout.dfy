/**
 * The bytes of a written log: which ones are fixed, where every field is, and
 * what the checksums are taken over.
 */
module WalLayout {
  import opened Words
  import opened LittleEndian
  import opened Crc32
  import opened WalGeometry
  import opened WalFormat
  import opened WalImage

  lemma {:induction false} EncodeZero(width: nat)
    ensures Encode(0, width) == Zeros(width)
  {
    if width > 0 {
      EncodeZero(width - 1);
    }
  }

  lemma EncodeStep(value: nat, width: nat)
    requires width > 0
    ensures Encode(value, width) == [LowByte(value)] + Encode(value / 256, width - 1)
  {}

  lemma EncodeTwo(value: nat)
    ensures Encode(value, 2) == [LowByte(value), LowByte(value / 256)]
  {
    hide LowByte;
    EncodeStep(value, 2);
    EncodeStep(value / 256, 1);
    EncodeZero(0);
    assert Encode(value / 256 / 256, 0) == [];
  }

  /** The four bytes of each magic and the two of version and header sizes. */
  lemma FixedFields()
    ensures Encode(FILE_MAGIC, 4) == [0x46, 0x4c, 0x41, 0x57]
    ensures Encode(RECORD_MAGIC, 4) == [0x52, 0x4c, 0x41, 0x57]
    ensures Encode(FORMAT_VERSION, 2) == [3, 0]
    ensures Encode(FILE_HEADER_SIZE, 2) == [64, 0] && Encode(RECORD_HEADER_SIZE, 2) == [24, 0]
    ensures Encode(0, 2) == [0, 0]
  {
    ByteLiterals();
    hide LowByte, ByteValue;
    FourBytes(FILE_MAGIC, 0x46, 0x4c, 0x41, 0x57);
    FourBytes(RECORD_MAGIC, 0x52, 0x4c, 0x41, 0x57);
    TwoBytes(FORMAT_VERSION, 3, 0);
    TwoBytes(FILE_HEADER_SIZE, 64, 0);
    TwoBytes(RECORD_HEADER_SIZE, 24, 0);
    TwoBytes(0, 0, 0);
  }

  lemma ByteLiterals()
    ensures ByteValue(0) == 0 && ByteValue(3) == 3 && ByteValue(24) == 24 && ByteValue(64) == 64
    ensures ByteValue(0x41) == 0x41 && ByteValue(0x46) == 0x46 && ByteValue(0x4c) == 0x4c
    ensures ByteValue(0x52) == 0x52 && ByteValue(0x57) == 0x57
  {}

  lemma LowByteIs(value: nat, b: byte)
    requires value % 256 == ByteValue(b)
    ensures LowByte(value) == b
  {
    ToByteOfValue(b);
    hide ToByte, ByteValue;
  }

  lemma TwoBytes(value: nat, a: byte, b: byte)
    requires value == ByteValue(a) + 256 * ByteValue(b)
    ensures Encode(value, 2) == [a, b]
  {
    EncodeTwo(value);
    hide Encode, LowByte, ByteValue;
    LowByteIs(value, a);
    LowByteIs(value / 256, b);
  }

  lemma FourBytes(value: nat, a: byte, b: byte, c: byte, d: byte)
    requires value == ByteValue(a) + 256 * (ByteValue(b) + 256 * (ByteValue(c) + 256 * ByteValue(d)))
    ensures Encode(value, 4) == [a, b, c, d]
  {
    EncodeStep(value, 4);
    EncodeStep(value / 256, 3);
    hide Encode, LowByte, ByteValue;
    var high := ByteValue(c) + 256 * ByteValue(d);
    Strip(value, ByteValue(a), ByteValue(b) + 256 * high);
    Strip(value / 256, ByteValue(b), high);
    LowByteIs(value, a);
    LowByteIs(value / 256, b);
    TwoBytes(high, c, d);
  }

  lemma Strip(value: nat, low: nat, rest: nat)
    requires low < 256 && value == low + 256 * rest
    ensures value % 256 == low && value / 256 == rest
  {}

  // ----- The file header -----

  /** The header with its CRC zeroed, as bytes. */
  lemma BlankFileBytes(header: FileHeader)
    ensures SerializeFileHeader(header.(headerCrc := 0)) == SerializeFileHeader(header)[..60] + Zeros(4)
  {
    hide Encode;
    EncodeZero(4);
    var blank := SerializeFileHeader(header.(headerCrc := 0));
    forall i | 0 <= i < 64 ensures blank[i] == (SerializeFileHeader(header)[..60] + Zeros(4))[i] {
      if i >= 60 {
        assert Encode(0, 4)[i - 60] == 0;
      }
    }
  }

  /** The head of a log, byte by byte. */
  lemma FileHeadLayout(config: WalConfig)
    requires PowerOfTwo(config.alignment)
    ensures var file := FileHead(config);
      && |file| == RecordsOffset(config) >= 64
      && file[..8] == [0x46, 0x4c, 0x41, 0x57, 3, 0, 64, 0]
      && file[8..10] == Encode(config.streamKind, 2)
      && file[10..12] == [0, 0]
      && file[12..16] == Encode(config.payloadSize, 4)
      && file[16..20] == Encode(config.payloadSchemaVersion, 4)
      && file[20..24] == Encode(config.alignment, 4)
      && file[24..28] == Encode(|file|, 4)
      && file[28..36] == Encode(config.streamId, 8)
      && file[36..44] == Encode(config.epochId, 8)
      && file[44..52] == Encode(config.firstSequence, 8)
      && file[52..60] == Encode(config.manifestId, 8)
      && file[60..64] == Encode(CrcValue(file[..60] + Zeros(4)), 4)
      && file[64..] == Zeros(|file| - 64)
  {
    hide Encode, SerializeFileHeader, CrcValue, PowerOfTwo, RecordsOffset;
    var header := WriterFileHeader(config);
    var bytes, file := SerializeFileHeader(header), FileHead(config);
    FileHeadSize(config);
    assert file[..64] == bytes;
    FileHeaderFields(header, bytes);
    FixedFields();
    SameSlices(file, bytes);
    BlankFileBytes(header);
    assert file[..8] == file[0..4] + file[4..6] + file[6..8];
    assert bytes[..60] == file[..60];
    assert header.headerCrc == FileHeaderCrc(BlankFileHeader(config));
    assert header.(headerCrc := 0) == BlankFileHeader(config).(headerCrc := 0);
  }

  lemma SameSlices(file: seq<byte>, bytes: seq<byte>)
    requires |bytes| <= |file| && file[..|bytes|] == bytes
    ensures forall i, j :: 0 <= i <= j <= |bytes| ==> file[i..j] == bytes[i..j]
  {
    forall i, j | 0 <= i <= j <= |bytes| ensures file[i..j] == bytes[i..j] {
      assert file[..|bytes|][i..j] == file[i..j];
    }
  }

  /** What a reader finds in the head of a log. */
  lemma FileHeadFields(config: WalConfig)
    requires PowerOfTwo(config.alignment)
    ensures |FileHead(config)| >= 64
    ensures var header := DeserializeFileHeader(FileHead(config)[..64]);
      && header.streamKind == config.streamKind && header.flags == 0
      && header.payloadSize == config.payloadSize && header.payloadSchemaVersion == config.payloadSchemaVersion
      && header.alignment == config.alignment && header.recordsOffset == |FileHead(config)|
      && header.streamId == config.streamId && header.epochId == config.epochId
      && header.firstSequence == config.firstSequence && header.manifestId == config.manifestId
  {
    hide SerializeFileHeader, DeserializeFileHeader, FileHeaderCrc, PowerOfTwo, RecordsOffset;
    FileHeadSize(config);
    assert FileHead(config)[..64] == SerializeFileHeader(WriterFileHeader(config));
    DeserializeFileHeaderOfSerialize(WriterFileHeader(config));
  }

  // ----- Records -----

  /** The header with its CRC zeroed, as bytes. */
  lemma BlankBytes(header: RecordHeader)
    ensures SerializeRecordHeader(header.(headerCrc := 0)) == SerializeRecordHeader(header)[..20] + Zeros(4)
  {
    hide Encode;
    EncodeZero(4);
    var blank := SerializeRecordHeader(header.(headerCrc := 0));
    forall i | 0 <= i < 24 ensures blank[i] == (SerializeRecordHeader(header)[..20] + Zeros(4))[i] {
      if i >= 20 {
        assert Encode(0, 4)[i - 20] == 0;
      }
    }
  }

  /** A record, byte by byte. */
  lemma RecordLayout(config: WalConfig, sequence: u64, payload: Payload)
    requires PowerOfTwo(config.alignment) && |payload| == config.payloadSize
    ensures var record := RecordBytes(config, sequence, payload);
      && LeastMultiple(|record|, config.alignment, 24 + |payload|)
      && record[..8] == [0x52, 0x4c, 0x41, 0x57, 3, 0, 24, 0]
      && record[8..16] == Encode(sequence, 8)
      && record[16..20] == Encode(CrcValue(payload), 4)
      && record[20..24] == Encode(CrcValue(record[..20] + Zeros(4)), 4)
      && record[24..24 + |payload|] == payload
      && record[24 + |payload|..] == Zeros(|record| - 24 - |payload|)
  {
    hide Encode, SerializeRecordHeader, CrcValue, PowerOfTwo, AlignedRecordSize, PaddingSize;
    Geometry(config);
    var header := WriterRecordHeader(sequence, payload);
    var bytes, record := SerializeRecordHeader(header), RecordBytes(config, sequence, payload);
    RecordBytesSize(config, sequence, payload);
    assert record[..24] == bytes;
    RecordHeaderFields(header, bytes);
    FixedFields();
    SameSlices(record, bytes);
    BlankBytes(header);
    assert record[..8] == record[0..4] + record[4..6] + record[6..8];
    assert bytes[..20] == record[..20];
    assert header.headerCrc == RecordHeaderCrc(BlankRecordHeader(sequence, payload));
    assert header.(headerCrc := 0) == BlankRecordHeader(sequence, payload).(headerCrc := 0);
  }
}
