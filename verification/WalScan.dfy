/**
 * What the validating reader and the scanner compute on arbitrary bytes, and
 * why that is exactly the longest image of the configuration in the file.
 */
module WalScan {
  import opened Words
  import opened Crc32
  import opened WalGeometry
  import opened WalFormat
  import opened WalImage

  datatype WalReadError =
    | NoError
    | IoError
    | IncompleteFileHeader
    | InvalidFileMagic
    | UnsupportedFormatVersion
    | InvalidFileHeaderSize
    | InvalidFileHeaderCrc
    | InvalidStreamKind
    | UnsupportedFlags
    | IdentityMismatch
    | InvalidPhysicalLayout
    | IncompleteRecordHeader
    | InvalidRecordMagic
    | InvalidRecordHeaderSize
    | InvalidRecordHeaderCrc
    | UnexpectedSequence
    | IncompletePayload
    | InvalidPayloadCrc
    | IncompletePadding
    | NonZeroPadding

  datatype ScanStatus = ScanClean | ScanIncompleteTail | ScanCorrupted | ScanInvalidConfig | ScanIoError

  datatype ScanResult = ScanResult(
    status: ScanStatus,
    error: WalReadError,
    records: nat,
    lastSequence: u64,
    lastValidOffset: nat)

  // ----- Opening -----

  predicate ValidReaderConfig(expected: WalConfig) {
    ValidConfig(expected.(capacity := 1))
  }

  predicate SamePersistedConfig(header: FileHeader, expected: WalConfig) {
    && header.streamKind == expected.streamKind
    && header.payloadSize == expected.payloadSize
    && header.payloadSchemaVersion == expected.payloadSchemaVersion
    && header.alignment == expected.alignment
    && header.streamId == expected.streamId
    && header.epochId == expected.epochId
    && header.firstSequence == expected.firstSequence
    && header.manifestId == expected.manifestId
  }

  function StoredConfig(header: FileHeader): WalConfig {
    WalConfig(
      header.payloadSize, 1, header.alignment, header.payloadSchemaVersion, header.streamKind,
      header.streamId, header.epochId, header.firstSequence, header.manifestId)
  }

  function FileHeaderError(header: FileHeader, expected: WalConfig): WalReadError {
    if header.magic != FILE_MAGIC then InvalidFileMagic
    else if header.version != FORMAT_VERSION then UnsupportedFormatVersion
    else if header.headerSize != FILE_HEADER_SIZE then InvalidFileHeaderSize
    else if FileHeaderCrc(header) != header.headerCrc then InvalidFileHeaderCrc
    else if !KnownStreamKind(header.streamKind) then InvalidStreamKind
    else if header.flags != 0 then UnsupportedFlags
    else if !ValidConfig(StoredConfig(header)) then InvalidPhysicalLayout
    else if header.recordsOffset != RecordsOffset(StoredConfig(header)) then InvalidPhysicalLayout
    else if !SamePersistedConfig(header, expected) then IdentityMismatch
    else NoError
  }

  const PADDING_CHUNK: nat := 4096

  /**
   * Padding is read and judged in chunks, so damage in an early chunk is seen
   * even if the file ends in a later one.
   */
  function PaddingError(file: seq<byte>, offset: nat, size: nat, incomplete: WalReadError): WalReadError
    requires offset <= |file|
    decreases size
  {
    if size == 0 then NoError
    else
      var chunk := Min(size, PADDING_CHUNK);
      if |file| - offset < chunk then incomplete
      else if file[offset..offset + chunk] != Zeros(chunk) then NonZeroPadding
      else PaddingError(file, offset + chunk, size - chunk, incomplete)
  }

  function OpenError(file: seq<byte>, expected: WalConfig): WalReadError {
    if |file| < 64 then IncompleteFileHeader
    else
      var header := DeserializeFileHeader(file[..64]);
      var error := FileHeaderError(header, expected);
      if error != NoError then error
      else
        var padding := PaddingError(file, 64, (header.recordsOffset as int - 64) % 0x1_0000_0000, IncompleteFileHeader);
        if padding == NonZeroPadding then InvalidPhysicalLayout else padding
  }

  // ----- Reading one record -----

  datatype ReadOutcome = Record(payload: Payload) | EndOfLog | Failed(error: WalReadError)

  /** The sequence expected after `count` records; it stops at the largest number. */
  function NextSequence(config: WalConfig, count: nat): u64 {
    Min(config.firstSequence + count, U64_MAX)
  }

  predicate Exhausted(config: WalConfig, count: nat) {
    config.firstSequence + count > U64_MAX
  }

  function RecordHeaderError(header: RecordHeader, sequence: u64): WalReadError {
    if header.magic != RECORD_MAGIC then InvalidRecordMagic
    else if header.version != FORMAT_VERSION then UnsupportedFormatVersion
    else if header.headerSize != RECORD_HEADER_SIZE then InvalidRecordHeaderSize
    else if RecordHeaderCrc(header) != header.headerCrc then InvalidRecordHeaderCrc
    else if header.sequence != sequence then UnexpectedSequence
    else NoError
  }

  function ReadRecord(file: seq<byte>, config: WalConfig, offset: nat, count: nat): ReadOutcome
    requires offset <= |file|
  {
    var rest := |file| - offset;
    if rest == 0 then EndOfLog
    else if rest < 24 then Failed(IncompleteRecordHeader)
    else if Exhausted(config, count) then Failed(UnexpectedSequence)
    else
      var header := DeserializeRecordHeader(file[offset..offset + 24]);
      var error := RecordHeaderError(header, NextSequence(config, count));
      if error != NoError then Failed(error)
      else if rest - 24 < config.payloadSize then Failed(IncompletePayload)
      else ReadBody(file, config, offset + 24, header)
  }

  function ReadBody(file: seq<byte>, config: WalConfig, offset: nat, header: RecordHeader): ReadOutcome
    requires offset + config.payloadSize <= |file|
  {
    var payload := file[offset..offset + config.payloadSize];
    if CrcValue(payload) != header.payloadCrc then Failed(InvalidPayloadCrc)
    else
      var padding := (AlignedRecordSize(config) as int - 24 - config.payloadSize) % 0x1_0000_0000_0000_0000;
      var error := PaddingError(file, offset + config.payloadSize, padding, IncompletePadding);
      if error != NoError then Failed(error) else Record(payload)
  }

  // ----- Scanning -----

  /** The payloads read so far and why reading stopped. */
  datatype Scanned = Scanned(payloads: seq<Payload>, stop: ReadOutcome)

  lemma ZeroChunks(file: seq<byte>, offset: nat, size: nat, chunk: nat)
    requires chunk <= size && offset + size <= |file|
    ensures file[offset..offset + size] == Zeros(size)
       <==> file[offset..offset + chunk] == Zeros(chunk) && file[offset + chunk..offset + size] == Zeros(size - chunk)
  {
    var all := file[offset..offset + size];
    assert all[..chunk] == file[offset..offset + chunk] && all[chunk..] == file[offset + chunk..offset + size];
    assert Zeros(size)[..chunk] == Zeros(chunk) && Zeros(size)[chunk..] == Zeros(size - chunk);
    assert all == all[..chunk] + all[chunk..] && Zeros(size) == Zeros(chunk) + Zeros(size - chunk);
  }

  lemma {:induction false} PaddingComplete(file: seq<byte>, offset: nat, size: nat, incomplete: WalReadError)
    requires offset <= |file| && incomplete != NoError && incomplete != NonZeroPadding
    ensures PaddingError(file, offset, size, incomplete) == NoError
       <==> offset + size <= |file| && file[offset..offset + size] == Zeros(size)
    ensures PaddingError(file, offset, size, incomplete) in {NoError, NonZeroPadding, incomplete}
    decreases size
  {
    hide Zeros;
    if size == 0 {
      assert file[offset..offset] == Zeros(0);
    } else {
      var chunk := Min(size, PADDING_CHUNK);
      if |file| - offset >= chunk {
        PaddingComplete(file, offset + chunk, size - chunk, incomplete);
        if offset + size <= |file| {
          ZeroChunks(file, offset, size, chunk);
        }
      }
    }
  }

  lemma ReadProgress(file: seq<byte>, config: WalConfig, offset: nat, count: nat)
    requires PowerOfTwo(config.alignment) && offset <= |file|
    requires ReadRecord(file, config, offset, count).Record?
    ensures offset + AlignedRecordSize(config) <= |file| && AlignedRecordSize(config) >= 24
    ensures |ReadRecord(file, config, offset, count).payload| == config.payloadSize
    ensures !Exhausted(config, count)
  {
    hide DeserializeRecordHeader, RecordHeaderError, CrcValue, PowerOfTwo, AlignedRecordSize;
    Geometry(config);
    var padding := (AlignedRecordSize(config) as int - 24 - config.payloadSize) % 0x1_0000_0000_0000_0000;
    ModSmall(AlignedRecordSize(config) - 24 - config.payloadSize, 0x1_0000_0000_0000_0000);
    PaddingComplete(file, offset + 24 + config.payloadSize, padding, IncompletePadding);
  }

  function ScanFrom(file: seq<byte>, config: WalConfig, payloads: seq<Payload>): Scanned
    requires PowerOfTwo(config.alignment) && Offset(config, |payloads|) <= |file|
    decreases |file| - Offset(config, |payloads|)
  {
    match ReadRecord(file, config, Offset(config, |payloads|), |payloads|)
    case Record(payload) =>
      ReadProgress(file, config, Offset(config, |payloads|), |payloads|);
      OffsetNext(config, |payloads|);
      ScanFrom(file, config, payloads + [payload])
    case stop => Scanned(payloads, stop)
  }

  function ScanStatusFor(error: WalReadError): ScanStatus {
    match error
    case IncompleteRecordHeader => ScanIncompleteTail
    case IncompletePayload => ScanIncompleteTail
    case IncompletePadding => ScanIncompleteTail
    case IoError => ScanIoError
    case _ => ScanCorrupted
  }

  function ResultOf(config: WalConfig, scanned: Scanned): ScanResult {
    var n := |scanned.payloads|;
    var last := if n == 0 then 0 else NextSequence(config, n - 1);
    match scanned.stop
    case Failed(error) => ScanResult(ScanStatusFor(error), error, n, last, Offset(config, n))
    case _ => ScanResult(ScanClean, NoError, n, last, Offset(config, n))
  }

  lemma OpenedSize(file: seq<byte>, config: WalConfig)
    requires ValidReaderConfig(config) && OpenError(file, config) == NoError
    ensures PowerOfTwo(config.alignment) && Offset(config, 0) <= |file|
  {
    hide DeserializeFileHeader, FileHeaderCrc, AlignedRecordSize;
    var header := DeserializeFileHeader(file[..64]);
    assert RecordsOffset(StoredConfig(header)) == RecordsOffset(config);
    Geometry(config);
    ModSmall(header.recordsOffset - 64, 0x1_0000_0000);
    PaddingComplete(file, 64, header.recordsOffset - 64, IncompleteFileHeader);
  }

  /** `scan_wal` on a file that can be read without input errors. */
  function Scan(file: seq<byte>, config: WalConfig): ScanResult {
    if !ValidReaderConfig(config) then ScanResult(ScanInvalidConfig, NoError, 0, 0, 0)
    else if OpenError(file, config) != NoError then
      ScanResult(ScanCorrupted, OpenError(file, config), 0, 0, 0)
    else
      OpenedSize(file, config);
      ResultOf(config, ScanFrom(file, config, []))
  }
}
