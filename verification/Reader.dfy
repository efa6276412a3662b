/**
 * The validated sequential reader and the read-only scanner, proved to compute
 * the functions of `WalScan` except where an input error was injected.
 */
module Reader {
  import opened Words
  import opened Crc32
  import opened WalGeometry
  import opened WalFormat
  import opened WalImage
  import opened WalScan
  import opened PhysicalFile

  datatype ReaderOpenStatus = ReaderOk | ReaderInvalidConfig | ReaderFailed | ReaderAlreadyOpen

  datatype ReadStatus = ReadRecordOk | ReadEndOfLog | ReadInvalidPayloadSize | ReadFailed | ReadClosed

  datatype ReadResult = ReadResult(status: ReadStatus, error: WalReadError, sequence: u64)

  /** How `read_next` reports an outcome. */
  function Reported(outcome: ReadOutcome, sequence: u64): ReadResult {
    match outcome
    case Record(_) => ReadResult(ReadRecordOk, NoError, sequence)
    case EndOfLog => ReadResult(ReadEndOfLog, NoError, 0)
    case Failed(error) => ReadResult(ReadFailed, error, 0)
  }

  method ReadZeroPadding(reader: PhysicalWalReaderAdapter, size: u64, incomplete: WalReadError)
    returns (error: WalReadError)
    requires reader.Valid() && incomplete != NoError && incomplete != IoError
    modifies reader, reader.disk`interrupts
    ensures reader.Valid()
    ensures error == IoError || error == PaddingError(reader.disk.content, old(reader.cursor), size, incomplete)
    ensures error == IoError ==> !reader.disk.healthy
    ensures error == NoError ==> reader.cursor == old(reader.cursor) + size
  {
    hide PaddingError, ChunkError, Zeros;
    var buffer := new byte[4096];
    var left: u64 := size;
    while left != 0
      invariant reader.Valid() && fresh(buffer) && buffer.Length == 4096
      invariant left <= size && reader.cursor == old(reader.cursor) + size - left
      invariant PaddingError(reader.disk.content, reader.cursor, left, incomplete)
             == PaddingError(reader.disk.content, old(reader.cursor), size, incomplete)
    {
      var chunk := Min(left, 4096);
      PaddingUnfolds(reader.disk.content, reader.cursor, left, incomplete);
      error := ReadChunk(reader, buffer, chunk, incomplete);
      if error != NoError {
        return;
      }
      left := left - chunk;
    }
    PaddingUnfolds(reader.disk.content, reader.cursor, 0, incomplete);
    error := NoError;
  }

  /** One chunk of padding. */
  method ReadChunk(reader: PhysicalWalReaderAdapter, buffer: array<byte>, chunk: u64, incomplete: WalReadError)
    returns (error: WalReadError)
    requires reader.Valid() && 0 < chunk <= buffer.Length && incomplete != NoError && incomplete != IoError
    modifies reader, reader.disk`interrupts, buffer
    ensures reader.Valid()
    ensures error == IoError || error == ChunkError(reader.disk.content, old(reader.cursor), chunk, incomplete)
    ensures error == IoError ==> !reader.disk.healthy
    ensures error == NoError ==> reader.cursor == old(reader.cursor) + chunk
  {
    hide Received;
    ghost var position := reader.cursor;
    var status := reader.Read(buffer, chunk);
    if status == ReadIoError {
      return IoError;
    }
    if status != Complete {
      return incomplete;
    }
    assert buffer[..chunk] == reader.disk.content[position..position + chunk];
    var zero := AllZero(buffer, chunk);
    error := if zero then NoError else NonZeroPadding;
  }

  function ChunkError(file: seq<byte>, offset: nat, chunk: nat, incomplete: WalReadError): WalReadError
    requires offset <= |file|
  {
    if |file| - offset < chunk then incomplete
    else if file[offset..offset + chunk] != Zeros(chunk) then NonZeroPadding
    else NoError
  }

  lemma PaddingUnfolds(file: seq<byte>, offset: nat, size: nat, incomplete: WalReadError)
    requires offset <= |file|
    requires incomplete != NoError
    ensures var chunk := Min(size, 4096);
      PaddingError(file, offset, size, incomplete) ==
        if size == 0 then NoError
        else if ChunkError(file, offset, chunk, incomplete) != NoError then ChunkError(file, offset, chunk, incomplete)
        else PaddingError(file, offset + chunk, size - chunk, incomplete)
  {}

  method AllZero(buffer: array<byte>, count: nat) returns (zero: bool)
    requires count <= buffer.Length
    ensures zero <==> buffer[..count] == Zeros(count)
  {
    var i := 0;
    while i < count
      invariant 0 <= i <= count
      invariant buffer[..i] == Zeros(i)
    {
      if buffer[i] != 0 {
        assert buffer[..count][i] != Zeros(count)[i];
        return false;
      }
      assert Zeros(i + 1) == Zeros(i) + [0];
      i := i + 1;
    }
    zero := true;
  }

  class WalReader {
    var adapter: PhysicalWalReaderAdapter?
    var config: WalConfig
    var nextSequence: u64
    var nextOffset: u64
    var failure: WalReadError
    var sequenceExhausted: bool
    var isOpen: bool
    ghost var records: nat  // how many records have been read

    ghost predicate Valid()
      reads this, adapter, if adapter == null then {} else {adapter.disk}
    {
      isOpen ==>
        && adapter != null && adapter.Valid()
        && PowerOfTwo(config.alignment)
        && nextSequence == NextSequence(config, records)
        && sequenceExhausted == Exhausted(config, records)
        && nextOffset == Offset(config, records) <= |adapter.disk.content|
        && (failure == NoError ==> adapter.cursor == nextOffset)
    }

    constructor ()
      ensures !isOpen && Valid()
    {
      adapter := null;
      config := WalConfig(0, 0, 64, 0, GENERIC, 0, 0, 1, 0);
      nextSequence, nextOffset := 0, 0;
      failure := NoError;
      sequenceExhausted, isOpen := false, false;
      records := 0;
    }

    method Open(disk: Disk, expected: WalConfig) returns (status: ReaderOpenStatus, error: WalReadError)
      requires Valid() && disk.Valid()
      modifies this, disk`interrupts
      ensures Valid() && disk.Valid()
      ensures old(isOpen) <==> status == ReaderAlreadyOpen
      ensures status == ReaderAlreadyOpen ==> error == NoError && isOpen
      ensures !old(isOpen) ==> (status == ReaderInvalidConfig <==> !ValidReaderConfig(expected))
      ensures status == ReaderInvalidConfig ==> error == NoError
      ensures !old(isOpen) && status != ReaderInvalidConfig && error != IoError ==>
        error == OpenError(disk.content, expected)
      ensures status == ReaderFailed <==> error != NoError
      ensures !old(isOpen) && disk.healthy && disk.present ==> error != IoError
      ensures !old(isOpen) && !disk.present && ValidReaderConfig(expected) ==> error == IoError
      ensures status == ReaderOk ==>
        && isOpen && config == expected && records == 0 && failure == NoError
        && fresh(adapter) && adapter.disk == disk
    {
      hide OpenError, ValidReaderConfig, PowerOfTwo, Offset, NextSequence, Exhausted, RecordsOffset;
      if isOpen {
        return ReaderAlreadyOpen, NoError;
      }
      if !ValidReaderConfig(expected) {
        return ReaderInvalidConfig, NoError;
      }
      var found := disk.SystemOpen();
      if !found {
        return ReaderFailed, IoError;
      }
      var reader := new PhysicalWalReaderAdapter(disk);
      error := ReadHead(reader, expected);
      if error != NoError {
        return ReaderFailed, error;
      }
      Start(reader, expected);
      status := ReaderOk;
    }

    /** The state of a reader that stands before its first record. */
    method Start(reader: PhysicalWalReaderAdapter, expected: WalConfig)
      requires reader.Valid() && PowerOfTwo(expected.alignment)
      requires reader.cursor == RecordsOffset(expected) == Offset(expected, 0)
      requires expected.firstSequence == NextSequence(expected, 0) && !Exhausted(expected, 0)
      modifies this
      ensures Valid() && isOpen && adapter == reader && config == expected && records == 0 && failure == NoError
    {
      hide PowerOfTwo, Offset, NextSequence, Exhausted, RecordsOffset;
      adapter := reader;
      config := expected;
      nextSequence := expected.firstSequence;
      nextOffset := RecordsOffset(expected);
      failure := NoError;
      sequenceExhausted := false;
      isOpen := true;
      records := 0;
    }

    /** Reads and checks the file header and the padding behind it. */
    static method ReadHead(reader: PhysicalWalReaderAdapter, expected: WalConfig) returns (error: WalReadError)
      requires reader.Valid() && reader.cursor == 0 && ValidReaderConfig(expected)
      modifies reader, reader.disk`interrupts
      ensures reader.Valid()
      ensures error == IoError || error == OpenError(reader.disk.content, expected)
      ensures error == IoError ==> !reader.disk.healthy
      ensures error == NoError ==>
        && PowerOfTwo(expected.alignment)
        && reader.cursor == RecordsOffset(expected) == Offset(expected, 0)
        && expected.firstSequence == NextSequence(expected, 0) && !Exhausted(expected, 0)
    {
      hide FileHeaderError, DeserializeFileHeader, PaddingError, RecordsOffset, PowerOfTwo;
      ghost var file := reader.disk.content;
      var bytes := new byte[64];
      var got := reader.Read(bytes, 64);
      if got != Complete {
        return if got == ReadIoError then IoError else IncompleteFileHeader;
      }
      assert bytes[..64] == file[..64];
      var header := LoadFileHeader(bytes[..64]);
      error := CheckFileHeader(header, expected);
      if error != NoError {
        ErrorIsNotIo(header, expected);
        return;
      }
      AcceptedOffset(header, expected);
      var padding: u32 := (header.recordsOffset as int - 64) % 0x1_0000_0000;
      error := ReadZeroPadding(reader, padding, IncompleteFileHeader);
      if error == NonZeroPadding {
        error := InvalidPhysicalLayout;
      }
      if error == NoError {
        AfterHead(header.recordsOffset, expected);
      }
    }

    static lemma ErrorIsNotIo(header: FileHeader, expected: WalConfig)
      ensures FileHeaderError(header, expected) != IoError
    {
      hide FileHeaderCrc;
    }

    static lemma AcceptedOffset(header: FileHeader, expected: WalConfig)
      requires ValidReaderConfig(expected) && FileHeaderError(header, expected) == NoError
      ensures header.recordsOffset == RecordsOffset(expected) && PowerOfTwo(expected.alignment)
    {
      hide FileHeaderCrc;
      assert RecordsOffset(StoredConfig(header)) == RecordsOffset(expected);
    }

    static lemma AfterHead(offset: u32, config: WalConfig)
      requires PowerOfTwo(config.alignment) && offset == RecordsOffset(config)
      ensures 64 + (offset as int - 64) % 0x1_0000_0000 == offset == Offset(config, 0)
    {
      Geometry(config);
      ModSmall(offset - 64, 0x1_0000_0000);
    }

    static method CheckFileHeader(header: FileHeader, expected: WalConfig) returns (error: WalReadError)
      ensures error == FileHeaderError(header, expected)
    {
      hide Crc, Number, SerializeFileHeader, ValidConfig, RecordsOffset;
      if header.magic != FILE_MAGIC {
        return InvalidFileMagic;
      }
      if header.version != FORMAT_VERSION {
        return UnsupportedFormatVersion;
      }
      if header.headerSize != FILE_HEADER_SIZE {
        return InvalidFileHeaderSize;
      }
      var blank := StoreFileHeader(header.(headerCrc := 0));
      var crc := Crc32Bytes(blank[..]);
      if Number(crc) != header.headerCrc {
        return InvalidFileHeaderCrc;
      }
      if !KnownStreamKind(header.streamKind) {
        return InvalidStreamKind;
      }
      if header.flags != 0 {
        return UnsupportedFlags;
      }
      var actual := StoredConfig(header);
      if !ValidConfig(actual) || header.recordsOffset != RecordsOffset(actual) {
        return InvalidPhysicalLayout;
      }
      if !SamePersistedConfig(header, expected) {
        return IdentityMismatch;
      }
      error := NoError;
    }

    static method CheckRecordHeader(header: RecordHeader, sequence: u64) returns (error: WalReadError)
      ensures error == RecordHeaderError(header, sequence)
    {
      hide Crc, Number, SerializeRecordHeader;
      if header.magic != RECORD_MAGIC {
        return InvalidRecordMagic;
      }
      if header.version != FORMAT_VERSION {
        return UnsupportedFormatVersion;
      }
      if header.headerSize != RECORD_HEADER_SIZE {
        return InvalidRecordHeaderSize;
      }
      var blank := StoreRecordHeader(header.(headerCrc := 0));
      var crc := Crc32Bytes(blank[..]);
      if Number(crc) != header.headerCrc {
        return InvalidRecordHeaderCrc;
      }
      if header.sequence != sequence {
        return UnexpectedSequence;
      }
      error := NoError;
    }

    static lemma RecordErrorIsNotIo(header: RecordHeader, sequence: u64)
      ensures RecordHeaderError(header, sequence) != IoError
    {
      hide RecordHeaderCrc;
    }

    /** Reads the record at the cursor; leaves the reader's own fields to the caller. */
    method ReadBytes(payload: array<byte>) returns (outcome: ReadOutcome)
      requires Valid() && isOpen && failure == NoError
      requires payload.Length == config.payloadSize
      modifies adapter, adapter.disk`interrupts, payload
      ensures adapter.Valid()
      ensures outcome == Failed(IoError) || outcome == ReadRecord(adapter.disk.content, config, nextOffset, records)
      ensures outcome == Failed(IoError) ==> !adapter.disk.healthy
      ensures outcome.Record? ==>
        && outcome.payload == payload[..]
        && adapter.cursor == nextOffset + AlignedRecordSize(config)
      ensures outcome.EndOfLog? ==> adapter.cursor == nextOffset
      ensures outcome != Failed(NoError)
    {
      hide RecordHeaderError, DeserializeRecordHeader, Crc, Number, PowerOfTwo, Offset, NextSequence, Exhausted;
      ghost var file, start := adapter.disk.content, adapter.cursor;
      var headerBytes := new byte[24];
      var got := adapter.Read(headerBytes, 24);
      if got == EndOfFile {
        return EndOfLog;
      }
      if got != Complete {
        return Failed(if got == ReadIoError then IoError else IncompleteRecordHeader);
      }
      if sequenceExhausted {
        return Failed(UnexpectedSequence);
      }
      assert headerBytes[..24] == file[start..start + 24];
      var header := LoadRecordHeader(headerBytes[..24]);
      var error := CheckRecordHeader(header, nextSequence);
      if error != NoError {
        RecordErrorIsNotIo(header, nextSequence);
        return Failed(error);
      }
      outcome := ReadPayload(adapter, config, payload, header);
    }

    /** Reads and checks the payload and the padding behind it. */
    static method ReadPayload(
      reader: PhysicalWalReaderAdapter, config: WalConfig, payload: array<byte>, header: RecordHeader)
      returns (outcome: ReadOutcome)
      requires reader.Valid() && PowerOfTwo(config.alignment) && payload.Length == config.payloadSize
      modifies reader, reader.disk`interrupts, payload
      ensures reader.Valid()
      ensures outcome == Failed(IoError) || outcome ==
        if |reader.disk.content| - old(reader.cursor) < config.payloadSize then Failed(IncompletePayload)
        else ReadBody(reader.disk.content, config, old(reader.cursor), header)
      ensures outcome == Failed(IoError) ==> !reader.disk.healthy
      ensures outcome != Failed(NoError) && outcome != EndOfLog
      ensures outcome.Record? ==>
        && outcome.payload == payload[..]
        && reader.cursor == old(reader.cursor) - 24 + AlignedRecordSize(config)
    {
      hide Crc, CrcValue, Number, PowerOfTwo, PaddingError, AlignedRecordSize, ReadBody;
      ghost var file, start := reader.disk.content, reader.cursor;
      var got := reader.Read(payload, config.payloadSize);
      if got != Complete {
        return Failed(if got == ReadIoError then IoError else IncompletePayload);
      }
      assert payload[..config.payloadSize] == payload[..];
      BodyOutcome(file, config, start, header);
      var crc := Crc32Bytes(payload[..]);
      if Number(crc) != header.payloadCrc {
        return Failed(InvalidPayloadCrc);
      }
      var padding: u64 := (AlignedRecordSize(config) as int - 24 - config.payloadSize) % 0x1_0000_0000_0000_0000;
      var error := ReadZeroPadding(reader, padding, IncompletePadding);
      outcome := if error != NoError then Failed(error) else Record(payload[..]);
    }

    static lemma BodyOutcome(file: seq<byte>, config: WalConfig, start: nat, header: RecordHeader)
      requires PowerOfTwo(config.alignment) && start + config.payloadSize <= |file|
      ensures AlignedRecordSize(config) - 24 - config.payloadSize >= 0
      ensures (AlignedRecordSize(config) as int - 24 - config.payloadSize) % 0x1_0000_0000_0000_0000
           == AlignedRecordSize(config) - 24 - config.payloadSize
      ensures var payload := file[start..start + config.payloadSize];
        var padding := AlignedRecordSize(config) - 24 - config.payloadSize;
        var error := PaddingError(file, start + config.payloadSize, padding, IncompletePadding);
        ReadBody(file, config, start, header) ==
          if Number(Crc(payload)) != header.payloadCrc then Failed(InvalidPayloadCrc)
          else if error != NoError then Failed(error) else Record(payload)
    {
      hide Crc, Number, PowerOfTwo, PaddingError, AlignedRecordSize, PaddingSize;
      Geometry(config);
      ModSmall(AlignedRecordSize(config) - 24 - config.payloadSize, 0x1_0000_0000_0000_0000);
    }

    method ReadNext(payload: array<byte>) returns (r: ReadResult)
      requires Valid()
      modifies this, adapter, (if adapter == null then {} else {adapter.disk})`interrupts, payload
      ensures Valid() && adapter == old(adapter) && config == old(config) && isOpen == old(isOpen)
      ensures !old(isOpen) ==> r == ReadResult(ReadClosed, NoError, 0)
      ensures old(isOpen) && old(failure) != NoError ==>
        r == ReadResult(ReadFailed, old(failure), 0) && failure == old(failure)
      ensures old(isOpen) && old(failure) == NoError && payload.Length != config.payloadSize ==>
        r == ReadResult(ReadInvalidPayloadSize, NoError, 0) && records == old(records) && failure == NoError
      ensures old(isOpen) && old(failure) == NoError && payload.Length == config.payloadSize ==>
        && var outcome := ReadRecord(adapter.disk.content, config, old(nextOffset), old(records));
        || (r == Reported(outcome, old(nextSequence))
            && records == (if outcome.Record? then old(records) + 1 else old(records))
            && failure == (if outcome.Failed? then outcome.error else NoError)
            && (outcome.Record? ==> payload[..] == outcome.payload))
        || (r == Reported(Failed(IoError), 0) && !adapter.disk.healthy
            && failure == IoError && records == old(records))
    {
      hide ReadRecord, PowerOfTwo, Offset, NextSequence, Exhausted, AlignedRecordSize;
      if !isOpen {
        return ReadResult(ReadClosed, NoError, 0);
      }
      if failure != NoError {
        return ReadResult(ReadFailed, failure, 0);
      }
      if payload.Length != config.payloadSize {
        return ReadResult(ReadInvalidPayloadSize, NoError, 0);
      }
      var outcome := ReadBytes(payload);
      match outcome
      case EndOfLog =>
        r := ReadResult(ReadEndOfLog, NoError, 0);
      case Failed(error) =>
        failure := error;
        r := ReadResult(ReadFailed, error, 0);
      case Record(_) =>
        ReadProgress(adapter.disk.content, config, nextOffset, records);
        Advance(config, records);
        var sequence := nextSequence;
        if nextSequence == U64_MAX {
          sequenceExhausted := true;
        } else {
          nextSequence := nextSequence + 1;
        }
        nextOffset := nextOffset + AlignedRecordSize(config);
        records := records + 1;
        r := ReadResult(ReadRecordOk, NoError, sequence);
    }
  }

  lemma Advance(config: WalConfig, count: nat)
    requires !Exhausted(config, count)
    ensures Offset(config, count + 1) == Offset(config, count) + AlignedRecordSize(config)
    ensures Exhausted(config, count + 1) <==> NextSequence(config, count) == U64_MAX
    ensures NextSequence(config, count + 1)
         == if Exhausted(config, count + 1) then U64_MAX else NextSequence(config, count) + 1
  {}

  /** What a scan may report when an input error struck: a part of what is there. */
  ghost predicate CutShort(result: ScanResult, file: seq<byte>, config: WalConfig) {
    && result.status == ScanIoError && result.error == IoError
    && result.records <= Scan(file, config).records
    && result.lastValidOffset <= Scan(file, config).lastValidOffset
  }

  /** The loop of the scan after `payloads` have been read. */
  ghost predicate Scanning(result: ScanResult, file: seq<byte>, config: WalConfig, payloads: seq<Payload>) {
    && ValidReaderConfig(config) && OpenError(file, config) == NoError
    && PowerOfTwo(config.alignment) && Offset(config, 0) <= |file| && Offset(config, |payloads|) <= |file|
    && ScanFrom(file, config, []) == ScanFrom(file, config, payloads)
    && result == ResultOf(config, Scanned(payloads, EndOfLog))
  }

  lemma ScanningNext(result: ScanResult, file: seq<byte>, config: WalConfig, payloads: seq<Payload>, payload: Payload)
    requires Scanning(result, file, config, payloads)
    requires ReadRecord(file, config, Offset(config, |payloads|), |payloads|) == Record(payload)
    ensures Scanning(
      ScanResult(ScanClean, NoError, result.records + 1, NextSequence(config, |payloads|),
        Offset(config, |payloads| + 1)),
      file, config, payloads + [payload])
  {
    hide ReadRecord, OpenError, ValidReaderConfig, PowerOfTwo, Offset, NextSequence;
    ReadProgress(file, config, Offset(config, |payloads|), |payloads|);
    OffsetNext(config, |payloads|);
  }

  lemma ScanningStops(result: ScanResult, file: seq<byte>, config: WalConfig, payloads: seq<Payload>, stop: ReadOutcome)
    requires Scanning(result, file, config, payloads)
    requires ReadRecord(file, config, Offset(config, |payloads|), |payloads|) == stop && !stop.Record?
    ensures Scan(file, config) == if stop.Failed?
      then result.(status := ScanStatusFor(stop.error), error := stop.error) else result
  {
    hide ReadRecord, OpenError, ValidReaderConfig, PowerOfTwo, Offset, NextSequence;
  }

  lemma ScanningCutShort(result: ScanResult, file: seq<byte>, config: WalConfig, payloads: seq<Payload>)
    requires Scanning(result, file, config, payloads)
    ensures CutShort(result.(status := ScanIoError, error := IoError), file, config)
  {
    hide ReadRecord, OpenError, ValidReaderConfig, PowerOfTwo, Offset, NextSequence;
    ScanFromGrows(file, config, payloads);
    OffsetMono(config, |payloads|, |ScanFrom(file, config, payloads).payloads|);
  }

  lemma {:induction false} ScanFromGrows(file: seq<byte>, config: WalConfig, payloads: seq<Payload>)
    requires PowerOfTwo(config.alignment) && Offset(config, |payloads|) <= |file|
    ensures |payloads| <= |ScanFrom(file, config, payloads).payloads|
    decreases |file| - Offset(config, |payloads|)
  {
    hide ReadRecord, PowerOfTwo, Offset;
    var outcome := ReadRecord(file, config, Offset(config, |payloads|), |payloads|);
    if outcome.Record? {
      ReadProgress(file, config, Offset(config, |payloads|), |payloads|);
      OffsetNext(config, |payloads|);
      ScanFromGrows(file, config, payloads + [outcome.payload]);
    }
  }

  lemma ScanningStarts(file: seq<byte>, config: WalConfig)
    requires ValidReaderConfig(config) && OpenError(file, config) == NoError
    ensures Scanning(ScanResult(ScanClean, NoError, 0, 0, Offset(config, 0)), file, config, [])
  {
    hide ReadRecord, OpenError, Offset;
    OpenedSize(file, config);
  }

  method ScanWal(disk: Disk, expected: WalConfig) returns (result: ScanResult)
    requires disk.Valid()
    modifies disk`interrupts
    ensures disk.Valid()
    ensures result == Scan(disk.content, expected)
      || (!(disk.healthy && disk.present) && CutShort(result, disk.content, expected))
    ensures result.status != ScanIoError && result.status != ScanInvalidConfig ==> disk.present
  {
    hide OpenError, ValidReaderConfig, ReadRecord, ScanFrom, Scanning, Offset, NextSequence, Exhausted, PowerOfTwo;
    hide ResultOf, Scan, CutShort;
    ghost var file := disk.content;
    var reader := new WalReader();
    var status, error := reader.Open(disk, expected);
    if status != ReaderOk {
      NotOpened(file, expected, error);
      return ScanResult(
        if status == ReaderInvalidConfig then ScanInvalidConfig
        else if error == IoError then ScanIoError else ScanCorrupted,
        error, 0, 0, 0);
    }
    var payload := new byte[expected.payloadSize];
    result := ScanResult(ScanClean, NoError, 0, 0, reader.nextOffset);
    ghost var payloads: seq<Payload> := [];
    ScanningStarts(file, expected);
    while true
      invariant disk.Valid() && disk.content == file
      invariant reader.Valid() && fresh(reader) && fresh(payload) && payload.Length == expected.payloadSize
      invariant reader.isOpen && reader.config == expected && reader.failure == NoError
      invariant fresh(reader.adapter) && reader.adapter.disk == disk
      invariant reader.records == |payloads|
      invariant Scanning(result, file, expected, payloads)
      decreases |file| - reader.nextOffset
    {
      ghost var outcome := ReadRecord(file, expected, reader.nextOffset, reader.records);
      var sequence := reader.nextSequence;
      var read := reader.ReadNext(payload);
      match read.status
      case ReadRecordOk =>
        ScanningNext(result, file, expected, payloads, payload[..]);
        ReadProgress(file, expected, Offset(expected, |payloads|), |payloads|);
        OffsetNext(expected, |payloads|);
        payloads := payloads + [payload[..]];
        result := ScanResult(ScanClean, NoError, result.records + 1, read.sequence, reader.nextOffset);
      case ReadEndOfLog =>
        ScanningStops(result, file, expected, payloads, EndOfLog);
        return;
      case _ =>
        ScanningCutShort(result, file, expected, payloads);
        if outcome == Failed(read.error) {
          ScanningStops(result, file, expected, payloads, outcome);
        }
        return result.(status := ScanStatusFor(read.error), error := read.error);
    }
  }

  lemma NotOpened(file: seq<byte>, expected: WalConfig, error: WalReadError)
    ensures !ValidReaderConfig(expected) ==> Scan(file, expected) == ScanResult(ScanInvalidConfig, NoError, 0, 0, 0)
    ensures ValidReaderConfig(expected) && OpenError(file, expected) == error != NoError ==>
      Scan(file, expected) == ScanResult(ScanCorrupted, error, 0, 0, 0)
    ensures CutShort(ScanResult(ScanIoError, IoError, 0, 0, 0), file, expected)
  {
    hide OpenError, ValidReaderConfig;
  }
}
