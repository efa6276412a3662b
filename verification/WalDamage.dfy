/**
 * What the scanner says about images that were cut short or damaged.
 */
module WalDamage {
  import opened Words
  import opened LittleEndian
  import opened Crc32
  import opened WalGeometry
  import opened WalFormat
  import opened WalImage
  import opened WalScan
  import opened WalCanonical
  import opened CrcField
  import opened WalLayout
  import opened WalErrors
  import opened WalRecordDamage

  // ----- Cut images -----

  /** Why reading stops when only the first `cut` bytes of a record are there. */
  function TornStop(config: WalConfig, cut: nat): ReadOutcome {
    if cut == 0 then EndOfLog
    else if cut < 24 then Failed(IncompleteRecordHeader)
    else if cut < 24 + config.payloadSize then Failed(IncompletePayload)
    else Failed(IncompletePadding)
  }

  lemma {:induction false} TornPadding(file: seq<byte>, offset: nat, size: nat, incomplete: WalReadError)
    requires offset <= |file| < offset + size
    requires file[offset..] == Zeros(|file| - offset)
    ensures PaddingError(file, offset, size, incomplete) == incomplete
    decreases size
  {
    var chunk := Min(size, PADDING_CHUNK);
    if |file| - offset >= chunk {
      assert file[offset..][..chunk] == file[offset..offset + chunk];
      assert Zeros(|file| - offset)[..chunk] == Zeros(chunk);
      assert file[offset + chunk..] == file[offset..][chunk..];
      assert Zeros(|file| - offset)[chunk..] == Zeros(|file| - offset - chunk);
      TornPadding(file, offset + chunk, size - chunk, incomplete);
    }
  }

  lemma TornRead(file: seq<byte>, config: WalConfig, offset: nat, count: nat, payload: Payload)
    requires PowerOfTwo(config.alignment) && !Exhausted(config, count) && |payload| == config.payloadSize
    requires offset <= |file| < offset + AlignedRecordSize(config)
    requires file[offset..] <= RecordBytes(config, SequenceOf(config, count), payload)
    ensures ReadRecord(file, config, offset, count) == TornStop(config, |file| - offset)
  {
    hide SerializeRecordHeader, WriterRecordHeader, PowerOfTwo, ReadRecord, AlignedRecordSize, PaddingSize;
    if |file| - offset < 24 {
      TornInHeader(file, config, offset, count);
    } else {
      var header := WriterRecordHeader(SequenceOf(config, count), payload);
      TornParts(file, offset, SerializeRecordHeader(header), payload, Zeros(PaddingSize(config)));
      TornAfterHeader(file, config, offset, count, payload);
    }
  }

  lemma TornInHeader(file: seq<byte>, config: WalConfig, offset: nat, count: nat)
    requires offset <= |file| < offset + 24
    ensures ReadRecord(file, config, offset, count) == TornStop(config, |file| - offset)
  {}

  lemma TornParts(file: seq<byte>, offset: nat, head: seq<byte>, payload: seq<byte>, tail: seq<byte>)
    requires offset + |head| <= |file|
    requires file[offset..] <= head + payload + tail
    ensures file[offset..offset + |head|] == head
    ensures |file| >= offset + |head| + |payload| ==>
      && file[offset + |head|..offset + |head| + |payload|] == payload
      && file[offset + |head| + |payload|..] <= tail
  {
    var image, rest := head + payload + tail, file[offset..];
    var h, p := |head|, |head| + |payload|;
    assert rest == image[..|rest|];
    assert image[..h] == head && rest[..h] == image[..h];
    assert file[offset..offset + h] == rest[..h];
    if |rest| >= p {
      assert file[offset + h..offset + p] == rest[h..p] == image[h..p] == payload;
      assert file[offset + p..] == rest[p..];
      assert image[p..] == tail;
      assert rest[p..] == image[p..][..|rest| - p];
    }
  }

  lemma TornAfterHeader(file: seq<byte>, config: WalConfig, offset: nat, count: nat, payload: Payload)
    requires PowerOfTwo(config.alignment) && !Exhausted(config, count) && |payload| == config.payloadSize
    requires offset + 24 <= |file| < offset + AlignedRecordSize(config)
    requires file[offset..offset + 24] == SerializeRecordHeader(WriterRecordHeader(SequenceOf(config, count), payload))
    requires |file| >= offset + 24 + |payload| ==>
      && file[offset + 24..offset + 24 + |payload|] == payload
      && file[offset + 24 + |payload|..] <= Zeros(PaddingSize(config))
    ensures ReadRecord(file, config, offset, count) == TornStop(config, |file| - offset)
  {
    hide DeserializeRecordHeader, SerializeRecordHeader, RecordHeaderError, WriterRecordHeader;
    hide CrcValue, PowerOfTwo, AlignedRecordSize, PaddingSize, PaddingError;
    Geometry(config);
    var header := WriterRecordHeader(SequenceOf(config, count), payload);
    DeserializeRecordHeaderOfSerialize(header);
    WriterRecordHeaderAccepted(SequenceOf(config, count), payload);
    assert NextSequence(config, count) == SequenceOf(config, count);
    var body := offset + 24 + |payload|;
    if |file| >= body {
      var padding := AlignedRecordSize(config) - 24 - config.payloadSize;
      ModSmall(padding, 0x1_0000_0000_0000_0000);
      assert file[body..] == Zeros(|file| - body);
      TornPadding(file, body, padding, IncompletePadding);
    }
  }

  /** A log that ends inside its next record: everything before is trusted, and the cut decides the error. */
  lemma ScanOfTorn(file: seq<byte>, config: WalConfig, payloads: seq<Payload>, payload: Payload)
    requires ValidReaderConfig(config) && Storable(config, payloads + [payload])
    requires Storable(config, payloads) && Image(config, payloads) <= file
    requires |file| < Offset(config, |payloads| + 1)
    requires file <= Image(config, payloads + [payload])
    ensures var cut := |file| - Offset(config, |payloads|);
      && 0 <= cut < AlignedRecordSize(config)
      && Recovered(file, config) == payloads
      && Scan(file, config) == ResultOf(config, Scanned(payloads, TornStop(config, cut)))
  {
    hide Scan, Recovered, Offset, AlignedRecordSize, PowerOfTwo, Image, RecordBytes, TornStop, ReadRecord, Storable;
    hide ResultOf;
    var n := |payloads|;
    ScanStopsAfter(file, config, payloads);
    ImageSize(config, payloads);
    OffsetNext(config, n);
    StorableSnoc(config, payloads, payload);
    ImageSnoc(config, payloads, payload);
    var next := RecordBytes(config, SequenceOf(config, n), payload);
    assert file[Offset(config, n)..] <= next by { TailOfPrefix(file, Image(config, payloads), next); }
    TornRead(file, config, Offset(config, n), n, payload);
    TornStopStops(config, |file| - Offset(config, n));
  }

  lemma TornStopStops(config: WalConfig, cut: nat)
    ensures !TornStop(config, cut).Record?
  {}

  lemma TailOfPrefix(file: seq<byte>, front: seq<byte>, back: seq<byte>)
    requires front <= file <= front + back
    ensures file[|front|..] <= back
  {
    assert file == (front + back)[..|file|];
    assert file[|front|..] == back[..|file| - |front|];
  }

  /**
   * Any cut of an image at or past the record area, `cut` bytes into record
   * `whole`: the whole records are trusted, and the scan is clean exactly when
   * nothing is left over.
   */
  lemma ScanOfCut(config: WalConfig, payloads: seq<Payload>, whole: nat, cut: nat)
    requires ValidReaderConfig(config) && Storable(config, payloads)
    requires cut < AlignedRecordSize(config)
    requires Offset(config, whole) + cut <= |Image(config, payloads)|
    ensures whole <= |payloads|
    ensures var file := Image(config, payloads)[..Offset(config, whole) + cut];
      && Recovered(file, config) == payloads[..whole]
      && Scan(file, config) == ResultOf(config, Scanned(payloads[..whole], TornStop(config, cut)))
  {
    hide RecordsOffset, AlignedRecordSize, PowerOfTwo, Image, TornStop, Storable, Scan, Recovered, Offset;
    ImageSize(config, payloads);
    if whole > |payloads| {
      OffsetMono(config, |payloads| + 1, whole);
      OffsetNext(config, |payloads|);
    }
    var file := Image(config, payloads)[..Offset(config, whole) + cut];
    OffsetNext(config, whole);
    ImagePrefix(config, payloads, whole);
    ImageSize(config, payloads[..whole]);
    if whole < |payloads| {
      CutWithin(config, payloads, whole, cut);
    } else {
      assert payloads[..whole] == payloads;
      assert file == Image(config, payloads);
      ScanOfImage(config, payloads);
      CleanResult(config, payloads);
    }
  }

  /** How many whole records fit in a file of this length. */
  function WholeRecords(config: WalConfig, length: nat): nat {
    if length < RecordsOffset(config) || AlignedRecordSize(config) == 0 then 0
    else (length - RecordsOffset(config)) / AlignedRecordSize(config)
  }

  function LeftOver(config: WalConfig, length: nat): nat {
    if length < RecordsOffset(config) || AlignedRecordSize(config) == 0 then 0
    else (length - RecordsOffset(config)) % AlignedRecordSize(config)
  }

  /** The same by length alone: the quotient counts the trusted records and the remainder decides the rest. */
  lemma ScanOfLength(config: WalConfig, payloads: seq<Payload>, length: nat)
    requires ValidReaderConfig(config) && Storable(config, payloads)
    requires RecordsOffset(config) <= length <= |Image(config, payloads)|
    ensures var file, cut := Image(config, payloads)[..length], LeftOver(config, length);
      && WholeRecords(config, length) <= |payloads|
      && Recovered(file, config) == payloads[..WholeRecords(config, length)]
      && Scan(file, config).records == WholeRecords(config, length)
      && Scan(file, config).lastValidOffset == length - cut
      && (Scan(file, config).status == ScanClean <==> cut == 0)
      && (cut != 0 ==>
            && Scan(file, config).status == ScanIncompleteTail
            && Scan(file, config).error == if cut < 24 then IncompleteRecordHeader
                 else if cut < 24 + config.payloadSize then IncompletePayload else IncompletePadding)
  {
    hide *;
    StrideOf(config);
    PlaceOf(config, length);
    ScanOfCut(config, payloads, WholeRecords(config, length), LeftOver(config, length));
    CutResult(config, payloads[..WholeRecords(config, length)], LeftOver(config, length));
  }

  lemma StrideOf(config: WalConfig)
    requires ValidReaderConfig(config)
    ensures AlignedRecordSize(config) > 0
  {
    hide RecordsOffset, AlignedRecordSize;
    Geometry(config);
  }

  lemma PlaceOf(config: WalConfig, length: nat)
    requires RecordsOffset(config) <= length && AlignedRecordSize(config) > 0
    ensures Offset(config, WholeRecords(config, length)) + LeftOver(config, length) == length
    ensures LeftOver(config, length) < AlignedRecordSize(config)
  {
    hide RecordsOffset, AlignedRecordSize;
    QuotientAndRest(length - RecordsOffset(config), AlignedRecordSize(config));
  }

  lemma QuotientAndRest(x: nat, d: nat)
    requires d > 0
    ensures (x / d) * d + x % d == x && x % d < d
  {
    DivMulBound(x, d);
  }

  lemma CutResult(config: WalConfig, payloads: seq<Payload>, cut: nat)
    ensures var result := ResultOf(config, Scanned(payloads, TornStop(config, cut)));
      && result.records == |payloads| && result.lastValidOffset == Offset(config, |payloads|)
      && (result.status == ScanClean <==> cut == 0)
      && (cut != 0 ==>
            && result.status == ScanIncompleteTail
            && result.error == if cut < 24 then IncompleteRecordHeader
                 else if cut < 24 + config.payloadSize then IncompletePayload else IncompletePadding)
  {
    hide Offset, NextSequence;
  }

  lemma CleanResult(config: WalConfig, payloads: seq<Payload>)
    ensures ResultOf(config, Scanned(payloads, TornStop(config, 0))) == ScanResult(
      ScanClean, NoError, |payloads|,
      if payloads == [] then 0 else NextSequence(config, |payloads| - 1), Offset(config, |payloads|))
  {}

  lemma CutWithin(config: WalConfig, payloads: seq<Payload>, whole: nat, cut: nat)
    requires ValidReaderConfig(config) && Storable(config, payloads)
    requires cut < AlignedRecordSize(config) && whole < |payloads|
    requires Offset(config, whole) + cut <= |Image(config, payloads)|
    ensures var file := Image(config, payloads)[..Offset(config, whole) + cut];
      && Recovered(file, config) == payloads[..whole]
      && Scan(file, config) == ResultOf(config, Scanned(payloads[..whole], TornStop(config, cut)))
  {
    hide RecordsOffset, AlignedRecordSize, PowerOfTwo, Image, TornStop, Storable, Scan, Recovered, Offset;
    var image := Image(config, payloads);
    var file := image[..Offset(config, whole) + cut];
    OffsetNext(config, whole);
    ImagePrefix(config, payloads, whole);
    ImageSize(config, payloads[..whole]);
    ImagePrefix(config, payloads, whole + 1);
    ImageSize(config, payloads[..whole + 1]);
    assert payloads[..whole + 1] == payloads[..whole] + [payloads[whole]];
    assert image[..Offset(config, whole)] <= file;
    assert file <= image[..Offset(config, whole + 1)];
    ScanOfTorn(file, config, payloads[..whole], payloads[whole]);
  }

  /** A shorter cut does not even open. */
  lemma ScanOfCutHead(config: WalConfig, payloads: seq<Payload>, length: nat)
    requires ValidReaderConfig(config) && Storable(config, payloads)
    requires length < RecordsOffset(config) && length <= |Image(config, payloads)|
    ensures Scan(Image(config, payloads)[..length], config)
         == ScanResult(ScanCorrupted, IncompleteFileHeader, 0, 0, 0)
  {
    hide RecordsOffset, AlignedRecordSize, PowerOfTwo, Image, Storable, SerializeFileHeader;
    hide DeserializeFileHeader, FileHeaderError, WriterFileHeader;
    var file := Image(config, payloads)[..length];
    Geometry(config);
    ImageHead(config, payloads);
    if length >= 64 {
      var header, tail := WriterFileHeader(config), Zeros(RecordsOffset(config) - 64);
      assert FileHead(config) == SerializeFileHeader(header) + tail;
      assert file == FileHead(config)[..length];
      assert file[..64] == SerializeFileHeader(header);
      assert file[64..] == Zeros(length - 64);
      DeserializeFileHeaderOfSerialize(header);
      AcceptedFileHeader(header, config);
      HeaderOffset(config);
      ModSmall(RecordsOffset(config) - 64, 0x1_0000_0000);
      TornPadding(file, 64, RecordsOffset(config) - 64, IncompleteFileHeader);
    }
  }

  lemma ImageHead(config: WalConfig, payloads: seq<Payload>)
    requires PowerOfTwo(config.alignment) && Storable(config, payloads)
    ensures FileHead(config) <= Image(config, payloads) && |FileHead(config)| == RecordsOffset(config)
  {
    hide PowerOfTwo, RecordsOffset, AlignedRecordSize, FileHead, RecordBytes;
    FileHeadSize(config);
    ImagePrefix(config, payloads, 0);
    OffsetNext(config, 0);
    assert Image(config, payloads[..0]) == FileHead(config);
  }

  // ----- Damaged images -----

  // A change confined to four consecutive bytes that starts in the head or in a
  // whole record is always found, whatever follows: the scan stops exactly before
  // the record with the first changed byte, and damage to the file header or its
  // padding leaves nothing trusted. The place of the first changed byte decides the
  // error. `WalTornDamage` is about damage further on.

  /** What is reported for the head of a file of this length with its first wrong byte at `at`. */
  function HeadDamageError(config: WalConfig, length: nat, at: nat): WalReadError {
    if length < 64 then IncompleteFileHeader
    else if at < 4 then InvalidFileMagic
    else if at < 6 then UnsupportedFormatVersion
    else if at < 8 then InvalidFileHeaderSize
    else if at < 64 then InvalidFileHeaderCrc
    else if Min(64 + ChunkEnd(at - 64), RecordsOffset(config)) <= length then InvalidPhysicalLayout
    else IncompleteFileHeader
  }

  lemma ScanOfDamagedHead(config: WalConfig, file: seq<byte>, damaged: seq<byte>, at: nat)
    requires ValidReaderConfig(config) && (FileHead(config) <= file || file <= FileHead(config))
    requires BurstAt(file, damaged, at) && at < RecordsOffset(config)
    ensures Scan(damaged, config) == ScanResult(ScanCorrupted, HeadDamageError(config, |file|, at), 0, 0, 0)
    ensures |file| >= RecordsOffset(config) ==>
      Scan(damaged, config).error ==
        if at < 4 then InvalidFileMagic
        else if at < 6 then UnsupportedFormatVersion
        else if at < 8 then InvalidFileHeaderSize
        else if at < 64 then InvalidFileHeaderCrc
        else InvalidPhysicalLayout
  {
    hide RecordsOffset, AlignedRecordSize, PowerOfTwo, OpenError, FileHead, BurstAt, ChunkEnd;
    FileHeadSize(config);
    HeadDamagedFrom(FileHead(config), file, damaged, at);
    OpenDamagedHead(config, damaged, at);
  }

  lemma HeadDamagedFrom(head: seq<byte>, file: seq<byte>, damaged: seq<byte>, at: nat)
    requires head <= file || file <= head
    requires BurstAt(file, damaged, at) && at < |head|
    ensures DamagedFrom(head, damaged, at) && |damaged| == |file|
  {
    BurstPointwise(file, damaged, at);
  }

  lemma OpenDamagedHead(config: WalConfig, damaged: seq<byte>, at: nat)
    requires ValidReaderConfig(config) && DamagedFrom(FileHead(config), damaged, at)
    ensures OpenError(damaged, config) == HeadDamageError(config, |damaged|, at) != NoError
  {
    hide FileHead, DeserializeFileHeader, FileHeaderError, RecordsOffset, PaddingError, DamagedFrom, ChunkEnd;
    HeadPadding(config);
    if |damaged| >= 64 {
      HeadBytes(FileHead(config), damaged, at);
      if at < 64 {
        DamagedFileHeader(config, damaged[..64], at);
      } else {
        DamagedHeadPadding(config, damaged, at);
      }
    }
  }

  lemma HeadBytes(head: seq<byte>, damaged: seq<byte>, at: nat)
    requires |head| >= 64 && |damaged| >= 64 && DamagedFrom(head, damaged, at)
    ensures at < 64 ==> AgreeOutside(head[..64], damaged[..64], at) && damaged[at] != head[at]
    ensures 64 <= at ==> damaged[..64] == head[..64]
  {}

  lemma DamagedFileHeader(config: WalConfig, bytes: seq<byte>, at: nat)
    requires ValidReaderConfig(config) && |bytes| == 64 && at < 64 && |FileHead(config)| >= 64
    requires AgreeOutside(FileHead(config)[..64], bytes, at) && bytes[at] != FileHead(config)[at]
    ensures FileHeaderError(DeserializeFileHeader(bytes), config) == HeadDamageError(config, 64, at)
  {
    hide FileHead, SerializeFileHeader, DeserializeFileHeader, FileHeaderError, CrcValue, Decode, Encode, PowerOfTwo;
    hide RecordsOffset, SoundLayout;
    var original := FileHead(config)[..64];
    SealedHead(config);
    FileHeaderErrorByBytes(bytes, config);
    FieldsOfDamage(original, bytes, at);
    if 8 <= at {
      DamagedSeal(original, bytes, 60, at);
    }
  }

  /** The head as its own checks see it. */
  lemma SealedHead(config: WalConfig)
    requires ValidReaderConfig(config) && |FileHead(config)| >= 64
    ensures var original := FileHead(config)[..64];
      && FileHeaderError(DeserializeFileHeader(original), config) == NoError
      && original[..4] == [0x46, 0x4c, 0x41, 0x57] && original[4..6] == [3, 0] && original[6..8] == [64, 0]
      && CrcValue(original[..60] + Zeros(4)) == Decode(original[60..])
  {
    hide SerializeFileHeader, DeserializeFileHeader, FileHeaderError, CrcValue, Decode, PowerOfTwo, RecordsOffset;
    hide SoundLayout;
    var original := FileHead(config)[..64];
    assert original == SerializeFileHeader(WriterFileHeader(config));
    DeserializeFileHeaderOfSerialize(WriterFileHeader(config));
    AcceptedFileHeader(WriterFileHeader(config), config);
    FileHeaderErrorByBytes(original, config);
  }

  lemma DamagedHeadPadding(config: WalConfig, damaged: seq<byte>, at: nat)
    requires ValidReaderConfig(config) && DamagedFrom(FileHead(config), damaged, at)
    requires 64 <= at && |damaged| >= 64
    ensures OpenError(damaged, config) == HeadDamageError(config, |damaged|, at)
  {
    hide OpenError, PowerOfTwo, RecordsOffset, PaddingError, ChunkEnd, FileHead, DamagedFrom;
    HeadPadding(config);
    HeadBytes(FileHead(config), damaged, at);
    PaddingOfHead(FileHead(config), damaged, at);
    OpenByPadding(config, damaged);
    DamagedPadding(damaged, 64, RecordsOffset(config) - 64, IncompleteFileHeader, at - 64);
  }

  lemma HeadPadding(config: WalConfig)
    requires ValidReaderConfig(config)
    ensures |FileHead(config)| == RecordsOffset(config) >= 64
    ensures FileHead(config)[64..] == Zeros(RecordsOffset(config) - 64)
  {
    hide FileHead, RecordsOffset;
    FileHeadLayout(config);
  }

  /** With the right header in place the padding decides. */
  lemma OpenByPadding(config: WalConfig, file: seq<byte>)
    requires ValidReaderConfig(config) && |FileHead(config)| == RecordsOffset(config) >= 64
    requires |file| >= 64 && file[..64] == FileHead(config)[..64]
    ensures var error := PaddingError(file, 64, RecordsOffset(config) - 64, IncompleteFileHeader);
      OpenError(file, config) == if error == NonZeroPadding then InvalidPhysicalLayout else error
  {
    hide DeserializeFileHeader, FileHeaderError, RecordsOffset, PaddingError, FileHead, CrcValue, Decode;
    SealedHead(config);
    FileHeadFields(config);
    ModSmall(RecordsOffset(config) - 64, 0x1_0000_0000);
  }

  lemma PaddingOfHead(head: seq<byte>, damaged: seq<byte>, at: nat)
    requires 64 <= at && |head| >= 64 && head[64..] == Zeros(|head| - 64) && DamagedFrom(head, damaged, at)
    ensures at < |damaged| && at < |head|
    ensures damaged[64..at] == Zeros(at - 64) && damaged[at] != 0
  {
    forall i | 64 <= i < at ensures damaged[i] == 0 {
      assert head[i] == head[64..][i - 64];
    }
    assert head[at] == head[64..][at - 64];
  }

  /** A file that ends before its record area is refused, damaged or not. */
  lemma ScanOfShortFile(config: WalConfig, file: seq<byte>)
    requires ValidReaderConfig(config) && |file| < RecordsOffset(config)
    ensures Scan(file, config) == ScanResult(ScanCorrupted, OpenError(file, config), 0, 0, 0)
    ensures |file| < 64 ==> Scan(file, config).error == IncompleteFileHeader
  {
    hide RecordsOffset, AlignedRecordSize, PowerOfTwo, FileHead;
    FileHeadSize(config);
    OpenIffHead(file, config);
  }

  /** The first bytes of a file are as before when the damage comes after them. */
  lemma DamagedAfter(front: seq<byte>, file: seq<byte>, damaged: seq<byte>, at: nat)
    requires front <= file && BurstAt(file, damaged, at) && |front| <= at
    ensures front <= damaged
  {
    assert damaged[..|front|] == damaged[..at][..|front|] == file[..at][..|front|] == file[..|front|];
  }

  /** A record in a file, from which the damaged file differs first at `at`. */
  lemma DamagedRecordIn(record: seq<byte>, file: seq<byte>, damaged: seq<byte>, from: nat, at: nat)
    requires BurstAt(file, damaged, at) && from <= at < from + |record|
    requires from <= |file| && (record <= file[from..] || file[from..] <= record)
    ensures |damaged| == |file| && DamagedFrom(record, damaged[from..], at - from)
  {
    BurstPointwise(file, damaged, at);
    forall i | 0 <= i < |file| - from && i < |record| ensures file[from + i] == record[i] {
      assert file[from..][i] == file[from + i];
    }
  }

  lemma ScanOfDamagedRecord(
    config: WalConfig, payloads: seq<Payload>, file: seq<byte>, damaged: seq<byte>, at: nat, whole: nat)
    requires ValidReaderConfig(config) && Storable(config, payloads) && Image(config, payloads) <= file
    requires BurstAt(file, damaged, at) && whole < |payloads|
    requires Offset(config, whole) <= at < Offset(config, whole) + AlignedRecordSize(config)
    ensures Recovered(damaged, config) == payloads[..whole]
    ensures var position := at - Offset(config, whole);
      Scan(damaged, config) == ScanResult(
        ScanCorrupted,
        if position < 4 then InvalidRecordMagic
        else if position < 6 then UnsupportedFormatVersion
        else if position < 8 then InvalidRecordHeaderSize
        else if position < 24 then InvalidRecordHeaderCrc
        else if position < 24 + config.payloadSize then InvalidPayloadCrc
        else NonZeroPadding,
        whole, if whole == 0 then 0 else config.firstSequence + whole - 1, Offset(config, whole))
  {
    hide RecordsOffset, AlignedRecordSize, PowerOfTwo, Image, Storable, Offset, ReadRecord, RecordBytes, Exhausted;
    hide Scan, Recovered, ResultOf, DamageError;
    var image := Image(config, payloads);
    OffsetNext(config, whole);
    ImagePrefix(config, payloads, whole);
    ImageRecord(config, payloads, whole);
    ImageSize(config, payloads[..whole]);
    var from, end := Offset(config, whole), Offset(config, whole + 1);
    assert image[..from] <= file;
    DamagedAfter(image[..from], file, damaged, at);
    ScanStopsAfter(damaged, config, payloads[..whole]);
    StorableAt(config, payloads, whole);
    var record := RecordBytes(config, SequenceOf(config, whole), payloads[whole]);
    assert record == image[from..end] == file[from..][..end - from];
    DamagedRecordIn(record, file, damaged, from, at);
    DamagedRead(config, whole, payloads[whole], damaged, from, at - from);
    WholeDamage(config, payloads[..whole], |damaged| - from, at - from);
  }

  /** The error of a damaged record that is all there. */
  lemma WholeDamage(config: WalConfig, payloads: seq<Payload>, rest: nat, position: nat)
    requires PowerOfTwo(config.alignment) && position < AlignedRecordSize(config) <= rest
    requires payloads != [] ==> !Exhausted(config, |payloads| - 1)
    ensures ResultOf(config, Scanned(payloads, Failed(DamageError(config, rest, position)))) == ScanResult(
      ScanCorrupted,
      if position < 4 then InvalidRecordMagic
      else if position < 6 then UnsupportedFormatVersion
      else if position < 8 then InvalidRecordHeaderSize
      else if position < 24 then InvalidRecordHeaderCrc
      else if position < 24 + config.payloadSize then InvalidPayloadCrc
      else NonZeroPadding,
      |payloads|, if payloads == [] then 0 else config.firstSequence + |payloads| - 1, Offset(config, |payloads|))
  {
    hide PowerOfTwo, AlignedRecordSize, Offset, ChunkEnd;
    Geometry(config);
  }

  lemma StorableAt(config: WalConfig, payloads: seq<Payload>, n: nat)
    requires Storable(config, payloads) && n < |payloads|
    ensures !Exhausted(config, n) && |payloads[n]| == config.payloadSize
    ensures n > 0 ==> !Exhausted(config, n - 1)
  {}

  // ----- Whole records out of place -----

  /**
   * A whole record that carries another sequence than the one that is due stops the
   * scan there: a repeated, a skipped and a spliced record alike, and any record
   * once the sequence space is used up.
   */
  lemma ScanOfMisplacedRecord(
    config: WalConfig, payloads: seq<Payload>, payload: Payload, sequence: u64, file: seq<byte>)
    requires ValidReaderConfig(config) && Storable(config, payloads) && |payload| == config.payloadSize
    requires sequence != config.firstSequence + |payloads|
    requires PowerOfTwo(config.alignment) && Storable(config, payloads)
    requires Image(config, payloads) + RecordBytes(config, sequence, payload) <= file
    ensures Recovered(file, config) == payloads
    ensures Scan(file, config) == ScanResult(
      ScanCorrupted, UnexpectedSequence, |payloads|,
      if payloads == [] then 0 else config.firstSequence + |payloads| - 1, Offset(config, |payloads|))
  {
    hide RecordsOffset, AlignedRecordSize, PowerOfTwo, Image, Storable, Offset, ReadRecord, RecordBytes, Exhausted;
    hide Scan, Recovered, ResultOf;
    var image, record := Image(config, payloads), RecordBytes(config, sequence, payload);
    ImageSize(config, payloads);
    RecordBytesSize(config, sequence, payload);
    assert image <= file;
    assert file[|image|..|image| + |record|] == record;
    ScanStopsAfter(file, config, payloads);
    MisplacedRead(config, |payloads|, payload, sequence, file, |image|);
    CorruptedAfter(config, payloads, UnexpectedSequence);
  }

  lemma CorruptedAfter(config: WalConfig, payloads: seq<Payload>, error: WalReadError)
    requires Storable(config, payloads) && Corruption(error)
    ensures ResultOf(config, Scanned(payloads, Failed(error))) == ScanResult(
      ScanCorrupted, error, |payloads|,
      if payloads == [] then 0 else config.firstSequence + |payloads| - 1, Offset(config, |payloads|))
  {
    hide Offset;
  }

  /** Behind a log that has used up its sequence space there can be nothing. */
  lemma ScanPastExhaustion(config: WalConfig, payloads: seq<Payload>, file: seq<byte>)
    requires ValidReaderConfig(config) && Storable(config, payloads)
    requires config.firstSequence + |payloads| == U64_MAX + 1
    requires Image(config, payloads) <= file && Image(config, payloads) != file
    ensures Recovered(file, config) == payloads
    ensures Scan(file, config).records == |payloads|
    ensures Scan(file, config).lastSequence == U64_MAX
    ensures if |file| < |Image(config, payloads)| + 24
      then Scan(file, config).status == ScanIncompleteTail && Scan(file, config).error == IncompleteRecordHeader
      else Scan(file, config).status == ScanCorrupted && Scan(file, config).error == UnexpectedSequence
  {
    hide RecordsOffset, AlignedRecordSize, Image, Offset, ReadRecord, PowerOfTwo, Recovered, Scan;
    ScanStopsAfter(file, config, payloads);
    ImageSize(config, payloads);
    ExhaustedRead(config, |payloads|, file, Offset(config, |payloads|));
  }
}
