/**
 * A record with a change confined to four consecutive bytes, whole or cut short:
 * which error the reader reports is decided by how much of the record is there and
 * where the first changed byte is.
 */
module WalRecordDamage {
  import opened Words
  import opened LittleEndian
  import opened Crc32
  import opened CrcField
  import opened WalGeometry
  import opened WalFormat
  import opened WalImage
  import opened WalScan
  import opened WalCanonical
  import opened WalErrors

  /** `damaged` first differs from `file` at `at`, and nowhere from four bytes on. */
  ghost predicate BurstAt(file: seq<byte>, damaged: seq<byte>, at: nat) {
    && |damaged| == |file| && at < |file|
    && damaged[..at] == file[..at] && damaged[at] != file[at]
    && (at + 4 < |file| ==> damaged[at + 4..] == file[at + 4..])
  }

  lemma BurstPointwise(file: seq<byte>, damaged: seq<byte>, at: nat)
    requires BurstAt(file, damaged, at)
    ensures AgreeOutside(file, damaged, at)
  {
    forall i | 0 <= i < |file| && !(at <= i < at + 4) ensures file[i] == damaged[i] {
      if i < at {
        assert file[i] == file[..at][i] == damaged[..at][i] == damaged[i];
      } else {
        assert file[i] == file[at + 4..][i - at - 4];
        assert damaged[i] == damaged[at + 4..][i - at - 4];
      }
    }
  }

  predicate Corruption(error: WalReadError) {
    ScanStatusFor(error) == ScanCorrupted
  }

  lemma PayloadBurst(payload: Payload, other: Payload, at: nat)
    requires AgreeOutside(payload, other, at) && payload != other
    ensures CrcValue(payload) != CrcValue(other)
  {
    hide CrcValue;
    var from, to := Min(at, |payload|), Min(at + 4, |payload|);
    assert payload == payload[..from] + payload[from..to] + payload[to..];
    assert other == payload[..from] + other[from..to] + payload[to..];
    BurstChangesValue(payload[..from], payload[from..to], other[from..to], payload[to..]);
  }

  // ----- Record headers -----

  /** What is reported for a record header with its first wrong byte at `position`. */
  function HeaderDamageError(position: nat): WalReadError
    requires position < 24
  {
    if position < 4 then InvalidRecordMagic
    else if position < 6 then UnsupportedFormatVersion
    else if position < 8 then InvalidRecordHeaderSize
    else InvalidRecordHeaderCrc
  }

  /**
   * The header checks alone find every change of a record header confined to four
   * bytes, and the first wrong byte decides which of them does.
   */
  lemma DamagedHeaderRefused(sequence: u64, payload: Payload, bytes: seq<byte>, position: nat)
    requires |bytes| == 24 && position < 24
    requires AgreeOutside(SerializeRecordHeader(WriterRecordHeader(sequence, payload)), bytes, position)
    requires bytes[position] != SerializeRecordHeader(WriterRecordHeader(sequence, payload))[position]
    ensures RecordHeaderError(DeserializeRecordHeader(bytes), sequence) == HeaderDamageError(position)
  {
    hide CrcValue, Encode, Decode, SerializeRecordHeader, DeserializeRecordHeader, WriterRecordHeader;
    hide RecordHeaderError;
    var original := SerializeRecordHeader(WriterRecordHeader(sequence, payload));
    DeserializeRecordHeaderOfSerialize(WriterRecordHeader(sequence, payload));
    WriterRecordHeaderAccepted(sequence, payload);
    RecordHeaderErrorByBytes(original, sequence);
    RecordHeaderErrorByBytes(bytes, sequence);
    FieldsOfDamage(original, bytes, position);
    if 8 <= position {
      DamagedSeal(original, bytes, 20, position);
    }
  }

  /** The first fields of a header: equal before the first wrong byte, different where it is. */
  lemma FieldsOfDamage(original: seq<byte>, bytes: seq<byte>, position: nat)
    requires |bytes| == |original| >= 8 && position < |bytes|
    requires AgreeOutside(original, bytes, position) && bytes[position] != original[position]
    ensures bytes[..4] == original[..4] <==> 4 <= position
    ensures 4 <= position ==> (bytes[4..6] == original[4..6] <==> 6 <= position)
    ensures 6 <= position ==> (bytes[6..8] == original[6..8] <==> 8 <= position)
  {
    if position < 4 {
      assert bytes[..4][position] != original[..4][position];
    } else if position < 6 {
      assert bytes[4..6][position - 4] != original[4..6][position - 4];
    } else if position < 8 {
      assert bytes[6..8][position - 6] != original[6..8][position - 6];
    }
  }

  /** A changed header does not carry the right CRC. */
  lemma DamagedSeal(original: seq<byte>, bytes: seq<byte>, size: nat, position: nat)
    requires |bytes| == |original| == size + 4 && position < |bytes|
    requires AgreeOutside(original, bytes, position) && bytes[position] != original[position]
    requires CrcValue(original[..size] + Zeros(4)) == Decode(original[size..])
    ensures CrcValue(bytes[..size] + Zeros(4)) != Decode(bytes[size..])
  {
    hide CrcValue, Decode, AgreeOutside;
    assert original == original[..size] + original[size..] && bytes == bytes[..size] + bytes[size..];
    if CrcValue(bytes[..size] + Zeros(4)) == Decode(bytes[size..]) {
      StoredCrcBurst(original[..size], original[size..], bytes[..size], bytes[size..], position);
    }
  }

  // ----- Padding -----

  /**
   * Padding with its first nonzero byte at `position`, perhaps cut short: seen
   * exactly if all of the chunk with that byte is there.
   */
  lemma {:induction false} DamagedPadding(
    file: seq<byte>, offset: nat, size: nat, incomplete: WalReadError, position: nat)
    requires offset + position < |file| && position < size
    requires file[offset..offset + position] == Zeros(position) && file[offset + position] != 0
    ensures PaddingError(file, offset, size, incomplete)
         == if Min(ChunkEnd(position), size) <= |file| - offset then NonZeroPadding else incomplete
    decreases size
  {
    hide ChunkEnd, Zeros;
    var chunk := Min(size, PADDING_CHUNK);
    ChunkEnds(position);
    if |file| - offset >= chunk {
      if position < chunk {
        assert file[offset..offset + chunk][position] != Zeros(chunk)[position] by { ZeroAt(chunk, position); }
      } else {
        ZeroChunks(file, offset, position, chunk);
        DamagedPadding(file, offset + chunk, size - chunk, incomplete, position - chunk);
      }
    }
  }

  lemma ZeroAt(n: nat, index: nat)
    requires index < n
    ensures Zeros(n)[index] == 0
  {}

  lemma ChunkEnds(position: nat)
    ensures position < ChunkEnd(position)
    ensures position < PADDING_CHUNK ==> ChunkEnd(position) == PADDING_CHUNK
    ensures position >= PADDING_CHUNK ==> ChunkEnd(position) == ChunkEnd(position - PADDING_CHUNK) + PADDING_CHUNK
  {}

  /** Padding is read 4096 bytes at a time: where the chunk with this position ends. */
  function ChunkEnd(position: nat): nat {
    (position / 4096 + 1) * 4096
  }

  // ----- One record -----

  /**
   * What is reported for a record with its first wrong byte at `position` when the
   * file goes on for `rest` bytes from its start.
   */
  function DamageError(config: WalConfig, rest: nat, position: nat): WalReadError {
    var body := 24 + config.payloadSize;
    if rest < 24 then IncompleteRecordHeader
    else if position < 24 then HeaderDamageError(position)
    else if rest < body then IncompletePayload
    else if position < body then InvalidPayloadCrc
    else if Min(body + ChunkEnd(position - body), AlignedRecordSize(config)) <= rest then NonZeroPadding
    else IncompletePadding
  }

  /** `rest` starts like the record, but for four bytes of which the first is wrong; either may be longer. */
  ghost predicate DamagedFrom(record: seq<byte>, rest: seq<byte>, position: nat) {
    && position < |rest| && position < |record|
    && rest[position] != record[position]
    && forall i :: 0 <= i < |rest| && i < |record| && !(position <= i < position + 4) ==> rest[i] == record[i]
  }

  lemma RecordBytesAt(config: WalConfig, sequence: u64, payload: Payload)
    requires PowerOfTwo(config.alignment) && |payload| == config.payloadSize
    ensures var record := RecordBytes(config, sequence, payload);
      && |record| == AlignedRecordSize(config) >= 24 + |payload|
      && record[..24] == SerializeRecordHeader(WriterRecordHeader(sequence, payload))
      && record[24..24 + |payload|] == payload
      && record[24 + |payload|..] == Zeros(|record| - 24 - |payload|)
  {
    hide SerializeRecordHeader, WriterRecordHeader, PowerOfTwo, AlignedRecordSize, PaddingSize;
    RecordBytesSize(config, sequence, payload);
  }

  lemma DamagedInHeader(
    config: WalConfig, count: nat, payload: Payload, record: seq<byte>, file: seq<byte>, offset: nat, position: nat)
    requires !Exhausted(config, count) && |record| >= 24
    requires record[..24] == SerializeRecordHeader(WriterRecordHeader(SequenceOf(config, count), payload))
    requires offset + 24 <= |file| && DamagedFrom(record, file[offset..], position) && position < 24
    ensures ReadRecord(file, config, offset, count) == Failed(HeaderDamageError(position))
  {
    hide SerializeRecordHeader, DeserializeRecordHeader, WriterRecordHeader, RecordHeaderError, ReadBody;
    var bytes := file[offset..offset + 24];
    assert forall i :: 0 <= i < 24 ==> bytes[i] == file[offset..][i];
    assert bytes[position] != record[..24][position];
    assert AgreeOutside(record[..24], bytes, position);
    DamagedHeaderRefused(SequenceOf(config, count), payload, bytes, position);
    assert NextSequence(config, count) == SequenceOf(config, count);
  }

  /** The header is as written: the rest decides. */
  lemma HeaderIntact(
    config: WalConfig, count: nat, payload: Payload, record: seq<byte>, file: seq<byte>, offset: nat, position: nat)
    requires !Exhausted(config, count) && |record| >= 24
    requires record[..24] == SerializeRecordHeader(WriterRecordHeader(SequenceOf(config, count), payload))
    requires offset + 24 <= |file| && DamagedFrom(record, file[offset..], position) && position >= 24
    ensures var header := WriterRecordHeader(SequenceOf(config, count), payload);
      && header.payloadCrc == CrcValue(payload)
      && ReadRecord(file, config, offset, count) ==
           if |file| - offset < 24 + config.payloadSize then Failed(IncompletePayload)
           else ReadBody(file, config, offset + 24, header)
  {
    hide SerializeRecordHeader, DeserializeRecordHeader, WriterRecordHeader, RecordHeaderError, ReadBody, CrcValue;
    var header := WriterRecordHeader(SequenceOf(config, count), payload);
    forall i | 0 <= i < 24 ensures file[offset..offset + 24][i] == record[..24][i] {
      assert file[offset..offset + 24][i] == file[offset..][i];
    }
    assert file[offset..offset + 24] == record[..24];
    DeserializeRecordHeaderOfSerialize(header);
    WriterRecordHeaderAccepted(SequenceOf(config, count), payload);
    assert NextSequence(config, count) == SequenceOf(config, count);
  }

  lemma DamagedInPayload(
    config: WalConfig, payload: Payload, record: seq<byte>, file: seq<byte>, offset: nat, position: nat,
    header: RecordHeader)
    requires |payload| == config.payloadSize && |record| >= 24 + |payload|
    requires record[24..24 + |payload|] == payload && header.payloadCrc == CrcValue(payload)
    requires offset + 24 + |payload| <= |file| && DamagedFrom(record, file[offset..], position)
    requires 24 <= position < 24 + |payload|
    ensures ReadBody(file, config, offset + 24, header) == Failed(InvalidPayloadCrc)
  {
    hide CrcValue, AlignedRecordSize;
    var other := file[offset + 24..offset + 24 + |payload|];
    forall i | 0 <= i < |payload| ensures other[i] == file[offset..][24 + i] && payload[i] == record[24 + i] {
      assert record[24..24 + |payload|][i] == record[24 + i];
    }
    assert other[position - 24] != payload[position - 24];
    PayloadBurst(payload, other, position - 24);
  }

  lemma DamagedInPadding(
    config: WalConfig, payload: Payload, record: seq<byte>, file: seq<byte>, offset: nat, position: nat,
    header: RecordHeader)
    requires |payload| == config.payloadSize && |record| == AlignedRecordSize(config) >= 24 + |payload|
    requires record[24..24 + |payload|] == payload && header.payloadCrc == CrcValue(payload)
    requires record[24 + |payload|..] == Zeros(|record| - 24 - |payload|)
    requires offset <= |file| && |record| < 0x1_0000_0000_0000_0000
    requires DamagedFrom(record, file[offset..], position) && 24 + |payload| <= position
    ensures ReadBody(file, config, offset + 24, header) ==
      Failed(if Min(24 + |payload| + ChunkEnd(position - 24 - |payload|), |record|) <= |file| - offset
             then NonZeroPadding else IncompletePadding)
  {
    hide CrcValue, AlignedRecordSize, PaddingError, ChunkEnd;
    var body, size := offset + 24 + |payload|, |record| - 24 - |payload|;
    var q := position - 24 - |payload|;
    forall i | 0 <= i < |payload| ensures file[offset + 24..body][i] == payload[i] {
      assert file[offset..][24 + i] == record[24 + i] == record[24..24 + |payload|][i];
    }
    assert file[offset + 24..body] == payload;
    forall i | 0 <= i < q ensures file[body..body + q][i] == Zeros(q)[i] {
      assert file[offset..][24 + |payload| + i] == record[24 + |payload| + i] == record[24 + |payload|..][i];
    }
    assert file[body + q] == file[offset..][position] != record[position] == record[24 + |payload|..][q];
    ModSmall(size, 0x1_0000_0000_0000_0000);
    DamagedPadding(file, body, size, IncompletePadding, q);
  }

  /** The error that a damaged record gets, whole or cut short. */
  lemma DamagedRead(
    config: WalConfig, count: nat, payload: Payload, file: seq<byte>, offset: nat, position: nat)
    requires PowerOfTwo(config.alignment) && !Exhausted(config, count) && |payload| == config.payloadSize
    requires offset <= |file|
    requires DamagedFrom(RecordBytes(config, SequenceOf(config, count), payload), file[offset..], position)
    ensures ReadRecord(file, config, offset, count) == Failed(DamageError(config, |file| - offset, position))
  {
    hide RecordBytes, SerializeRecordHeader, WriterRecordHeader, PowerOfTwo, AlignedRecordSize, CrcValue, DamagedFrom;
    hide ReadBody, ReadRecord, ChunkEnd, HeaderDamageError;
    Geometry(config);
    var record := RecordBytes(config, SequenceOf(config, count), payload);
    RecordBytesAt(config, SequenceOf(config, count), payload);
    DamagePlace(record, file, offset, position);
    if |file| - offset < 24 {
      CutInHeader(file, config, offset, count);
    } else if position < 24 {
      DamagedInHeader(config, count, payload, record, file, offset, position);
    } else {
      var header := WriterRecordHeader(SequenceOf(config, count), payload);
      HeaderIntact(config, count, payload, record, file, offset, position);
      if |file| - offset >= 24 + config.payloadSize {
        if position < 24 + config.payloadSize {
          DamagedInPayload(config, payload, record, file, offset, position, header);
        } else {
          DamagedInPadding(config, payload, record, file, offset, position, header);
        }
      }
    }
  }

  lemma CutInHeader(file: seq<byte>, config: WalConfig, offset: nat, count: nat)
    requires offset < |file| < offset + 24
    ensures ReadRecord(file, config, offset, count) == Failed(IncompleteRecordHeader)
  {}

  lemma DamagePlace(record: seq<byte>, file: seq<byte>, offset: nat, position: nat)
    requires offset <= |file| && DamagedFrom(record, file[offset..], position)
    ensures position < |file| - offset && position < |record|
  {}

  /** A whole record that carries any sequence but the one that is due, which none is when there is no more. */
  lemma MisplacedRead(
    config: WalConfig, count: nat, payload: Payload, sequence: u64, file: seq<byte>, offset: nat)
    requires PowerOfTwo(config.alignment) && |payload| == config.payloadSize
    requires sequence != config.firstSequence + count
    requires offset + AlignedRecordSize(config) <= |file|
    requires file[offset..offset + AlignedRecordSize(config)] == RecordBytes(config, sequence, payload)
    ensures ReadRecord(file, config, offset, count) == Failed(UnexpectedSequence)
  {
    hide RecordBytes, SerializeRecordHeader, DeserializeRecordHeader, WriterRecordHeader, PowerOfTwo;
    hide AlignedRecordSize, CrcValue, RecordHeaderError, ReadBody, Decode;
    RecordBytesAt(config, sequence, payload);
    var record := RecordBytes(config, sequence, payload);
    assert file[offset..offset + 24] == record[..24];
    if !Exhausted(config, count) {
      var bytes := file[offset..offset + 24];
      var header := WriterRecordHeader(sequence, payload);
      DeserializeRecordHeaderOfSerialize(header);
      WriterRecordHeaderAccepted(sequence, payload);
      RecordHeaderErrorByBytes(bytes, sequence);
      RecordHeaderErrorByBytes(bytes, NextSequence(config, count));
    }
  }

  /** With the sequence space used up nothing more is accepted. */
  lemma ExhaustedRead(config: WalConfig, count: nat, file: seq<byte>, offset: nat)
    requires Exhausted(config, count) && offset <= |file|
    ensures ReadRecord(file, config, offset, count) ==
      if offset == |file| then EndOfLog
      else if |file| < offset + 24 then Failed(IncompleteRecordHeader)
      else Failed(UnexpectedSequence)
  {}
}
