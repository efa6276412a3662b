/**
 * Which error the reader reports, in terms of the bytes it finds: the order of the
 * checks, the literal values they compare with, and what they are taken over.
 */
module WalErrors {
  import opened Words
  import opened LittleEndian
  import opened Crc32
  import opened WalGeometry
  import opened WalFormat
  import opened WalImage
  import opened WalScan
  import opened WalCanonical
  import opened WalLayout

  lemma DecodeIff(bytes: seq<byte>, value: nat)
    requires value < Pow256(|bytes|)
    ensures Decode(bytes) == value <==> bytes == Encode(value, |bytes|)
  {
    EncodeDecode(bytes);
    DecodeEncode(value, |bytes|);
  }

  /** The configurations a reader accepts, in numbers: the capacity does not matter. */
  lemma ReaderConfigByFields(config: WalConfig)
    ensures ValidReaderConfig(config) <==>
      && config.payloadSize != 0 && config.firstSequence != 0
      && (exists k: nat :: 3 <= k <= 31 && config.alignment == Pow2(k))
      && config.streamKind in {0, 1, 2}
      && (config.streamKind != 0 ==> config.streamId != 0 && config.epochId != 0 && config.manifestId != 0)
  {
    hide Pow2, ValidConfig;
    ValidConfigNeverOverflows(config.(capacity := 1));
  }

  // ----- The file header -----

  /** What the header says about its own layout holds together; see `AlignmentIsPower`. */
  ghost predicate SoundLayout(header: FileHeader) {
    && header.payloadSize != 0 && header.firstSequence != 0
    && (header.streamKind != 0 ==> header.streamId != 0 && header.epochId != 0 && header.manifestId != 0)
    && header.alignment >= 8 && PowerOfTwo(header.alignment)
    && LeastMultiple(header.recordsOffset, header.alignment, 64)
  }

  /** Everything but the capacity, which is not stored. */
  predicate SameIdentity(header: FileHeader, config: WalConfig) {
    && header.streamKind == config.streamKind
    && header.streamId == config.streamId && header.epochId == config.epochId
    && header.firstSequence == config.firstSequence && header.manifestId == config.manifestId
    && header.payloadSize == config.payloadSize && header.payloadSchemaVersion == config.payloadSchemaVersion
    && header.alignment == config.alignment
  }

  lemma FileMagicByBytes(bytes: seq<byte>)
    requires |bytes| == 64
    ensures DeserializeFileHeader(bytes).magic == FILE_MAGIC <==> bytes[..4] == [0x46, 0x4c, 0x41, 0x57]
    ensures DeserializeFileHeader(bytes).version == FORMAT_VERSION <==> bytes[4..6] == [3, 0]
    ensures DeserializeFileHeader(bytes).headerSize == FILE_HEADER_SIZE <==> bytes[6..8] == [64, 0]
  {
    FixedFields();
    PowersOf256();
    hide Encode, Decode, Pow256;
    DecodeIff(bytes[0..4], FILE_MAGIC);
    DecodeIff(bytes[4..6], FORMAT_VERSION);
    DecodeIff(bytes[6..8], FILE_HEADER_SIZE);
  }

  lemma FileCrcByBytes(bytes: seq<byte>)
    requires |bytes| == 64
    ensures var header := DeserializeFileHeader(bytes);
      FileHeaderCrc(header) == header.headerCrc <==> CrcValue(bytes[..60] + Zeros(4)) == Decode(bytes[60..])
  {
    assert bytes[60..] == bytes[60..64];
    PowersOf256();
    hide Encode, Decode, CrcValue, SerializeFileHeader;
    BlankFileBytes(DeserializeFileHeader(bytes));
    SerializeFileHeaderOfDeserialize(bytes);
  }

  lemma LayoutByFields(header: FileHeader)
    requires header.streamKind <= 2
    ensures SoundLayout(header) <==>
      ValidConfig(StoredConfig(header)) && header.recordsOffset == RecordsOffset(StoredConfig(header))
  {
    hide ValidConfig, RecordsOffset, LeastMultiple, PowerOfTwo;
    var stored := StoredConfig(header);
    ValidConfigByTests(stored);
    if PowerOfTwo(header.alignment) {
      Geometry(stored);
      if LeastMultiple(header.recordsOffset, header.alignment, 64) {
        SameLeastMultiple(header.recordsOffset, RecordsOffset(stored), header.alignment, 64);
      }
    }
  }

  lemma SameLeastMultiple(m: nat, other: nat, d: nat, x: nat)
    requires LeastMultiple(m, d, x) && LeastMultiple(other, d, x)
    ensures m == other
  {
    LeastMultipleIsLeast(m, d, x, other);
    LeastMultipleIsLeast(other, d, x, m);
  }

  /** The checks of the file header, in order. */
  lemma FileHeaderErrorByBytes(bytes: seq<byte>, expected: WalConfig)
    requires |bytes| == 64
    ensures var header := DeserializeFileHeader(bytes);
      FileHeaderError(header, expected) ==
        if bytes[..4] != [0x46, 0x4c, 0x41, 0x57] then InvalidFileMagic
        else if bytes[4..6] != [3, 0] then UnsupportedFormatVersion
        else if bytes[6..8] != [64, 0] then InvalidFileHeaderSize
        else if CrcValue(bytes[..60] + Zeros(4)) != Decode(bytes[60..]) then InvalidFileHeaderCrc
        else if header.streamKind > 2 then InvalidStreamKind
        else if header.flags != 0 then UnsupportedFlags
        else if !SoundLayout(header) then InvalidPhysicalLayout
        else if !SameIdentity(header, expected) then IdentityMismatch
        else NoError
  {
    hide DeserializeFileHeader, FileHeaderCrc, CrcValue, Decode, SoundLayout, ValidConfig, RecordsOffset;
    FileMagicByBytes(bytes);
    FileCrcByBytes(bytes);
    var header := DeserializeFileHeader(bytes);
    if header.streamKind <= 2 {
      LayoutByFields(header);
    }
  }

  /**
   * A log opened under another configuration: it opens exactly if the two agree in
   * everything that is stored, and otherwise the identity is what does not match.
   */
  lemma OpenOtherLog(config: WalConfig, other: WalConfig, file: seq<byte>)
    requires ValidReaderConfig(config) && ValidReaderConfig(other) && FileHead(other) <= file
    ensures OpenError(file, config) ==
      if && other.streamKind == config.streamKind
         && other.streamId == config.streamId && other.epochId == config.epochId
         && other.firstSequence == config.firstSequence && other.manifestId == config.manifestId
         && other.payloadSize == config.payloadSize && other.payloadSchemaVersion == config.payloadSchemaVersion
         && other.alignment == config.alignment
      then NoError else IdentityMismatch
  {
    hide FileHead, OpenError, PowerOfTwo, RecordsOffset;
    FileHeadSize(other);
    OpenIffHead(file, other);
    if other.(capacity := config.capacity) == config {
      SameHead(config, other);
      OpenIffHead(file, config);
    } else {
      OtherIdentity(config, other, file);
    }
  }

  /** The capacity is not stored. */
  lemma SameHead(config: WalConfig, other: WalConfig)
    requires other.(capacity := config.capacity) == config
    ensures FileHead(other) == FileHead(config)
  {
    hide SerializeFileHeader, FileHeaderCrc;
    assert RecordsOffset(other) == RecordsOffset(config);
  }

  lemma OtherIdentity(config: WalConfig, other: WalConfig, file: seq<byte>)
    requires ValidReaderConfig(other) && |file| >= 64 && OpenError(file, other) == NoError
    requires FileHead(other) <= file && |FileHead(other)| >= 64
    requires other.(capacity := config.capacity) != config
    ensures OpenError(file, config) == IdentityMismatch
  {
    hide SerializeFileHeader, DeserializeFileHeader, FileHeaderCrc, CrcValue, Decode, SoundLayout, RecordsOffset;
    hide PaddingError, FileHead, PowerOfTwo, FileHeaderError;
    var bytes := file[..64];
    assert bytes == FileHead(other)[..64];
    FileHeaderErrorByBytes(bytes, other);
    FileHeaderErrorByBytes(bytes, config);
    assert SameIdentity(DeserializeFileHeader(bytes), other);
  }

  // ----- Records -----

  lemma RecordMagicByBytes(bytes: seq<byte>)
    requires |bytes| == 24
    ensures DeserializeRecordHeader(bytes).magic == RECORD_MAGIC <==> bytes[..4] == [0x52, 0x4c, 0x41, 0x57]
    ensures DeserializeRecordHeader(bytes).version == FORMAT_VERSION <==> bytes[4..6] == [3, 0]
    ensures DeserializeRecordHeader(bytes).headerSize == RECORD_HEADER_SIZE <==> bytes[6..8] == [24, 0]
  {
    FixedFields();
    PowersOf256();
    hide Encode, Decode, Pow256;
    DecodeIff(bytes[0..4], RECORD_MAGIC);
    DecodeIff(bytes[4..6], FORMAT_VERSION);
    DecodeIff(bytes[6..8], RECORD_HEADER_SIZE);
  }

  lemma RecordCrcByBytes(bytes: seq<byte>)
    requires |bytes| == 24
    ensures var header := DeserializeRecordHeader(bytes);
      RecordHeaderCrc(header) == header.headerCrc <==> CrcValue(bytes[..20] + Zeros(4)) == Decode(bytes[20..])
  {
    assert bytes[20..] == bytes[20..24];
    PowersOf256();
    hide Encode, Decode, CrcValue, SerializeRecordHeader;
    BlankBytes(DeserializeRecordHeader(bytes));
    SerializeRecordHeaderOfDeserialize(bytes);
  }

  /** The checks of a record header, in order. */
  lemma RecordHeaderErrorByBytes(bytes: seq<byte>, sequence: u64)
    requires |bytes| == 24
    ensures RecordHeaderError(DeserializeRecordHeader(bytes), sequence) ==
      if bytes[..4] != [0x52, 0x4c, 0x41, 0x57] then InvalidRecordMagic
      else if bytes[4..6] != [3, 0] then UnsupportedFormatVersion
      else if bytes[6..8] != [24, 0] then InvalidRecordHeaderSize
      else if CrcValue(bytes[..20] + Zeros(4)) != Decode(bytes[20..]) then InvalidRecordHeaderCrc
      else if Decode(bytes[8..16]) != sequence then UnexpectedSequence
      else NoError
  {
    PowersOf256();
    assert DeserializeRecordHeader(bytes).sequence == Decode(bytes[8..16]);
    hide DeserializeRecordHeader, RecordHeaderCrc, CrcValue, Decode;
    RecordMagicByBytes(bytes);
    RecordCrcByBytes(bytes);
  }
}
