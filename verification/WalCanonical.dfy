/**
 * Printing and parsing agree: what the scanner trusts is, byte for byte, what
 * the writer would have written, and it always trusts as much as it can.
 */
module WalCanonical {
  import opened Words
  import opened Crc32
  import opened WalGeometry
  import opened WalFormat
  import opened WalImage
  import opened WalScan

  // ----- Headers -----

  lemma AcceptedFileHeader(header: FileHeader, config: WalConfig)
    requires ValidReaderConfig(config)
    ensures FileHeaderError(header, config) == NoError <==> header == WriterFileHeader(config)
  {
    hide FileHeaderCrc;
    assert StoredConfig(WriterFileHeader(config)) == config.(capacity := 1);
    if SamePersistedConfig(header, config) {
      assert StoredConfig(header) == config.(capacity := 1);
      assert RecordsOffset(StoredConfig(header)) == RecordsOffset(config);
    }
    assert RecordsOffset(config.(capacity := 1)) == RecordsOffset(config);
    FileHeaderCrcIgnoresItself(header);
    FileHeaderCrcIgnoresItself(WriterFileHeader(config));
    assert WriterFileHeader(config).(headerCrc := 0) == BlankFileHeader(config);
  }

  lemma FileHeaderCrcIgnoresItself(header: FileHeader)
    ensures FileHeaderCrc(header) == FileHeaderCrc(header.(headerCrc := 0))
  {
    hide SerializeFileHeader, CrcValue;
    assert header.(headerCrc := 0).(headerCrc := 0) == header.(headerCrc := 0);
  }

  lemma AcceptedRecordHeader(header: RecordHeader, sequence: u64, payload: Payload)
    requires header.payloadCrc == CrcValue(payload)
    ensures RecordHeaderError(header, sequence) == NoError <==> header == WriterRecordHeader(sequence, payload)
  {
    hide RecordHeaderCrc, CrcValue;
    RecordHeaderCrcIgnoresItself(header);
    assert WriterRecordHeader(sequence, payload).(headerCrc := 0) == BlankRecordHeader(sequence, payload);
    RecordHeaderCrcIgnoresItself(WriterRecordHeader(sequence, payload));
    if RecordHeaderError(header, sequence) == NoError {
      assert header.(headerCrc := 0) == BlankRecordHeader(sequence, payload);
    }
  }

  lemma RecordHeaderCrcIgnoresItself(header: RecordHeader)
    ensures RecordHeaderCrc(header) == RecordHeaderCrc(header.(headerCrc := 0))
  {
    hide SerializeRecordHeader, CrcValue;
    assert header.(headerCrc := 0).(headerCrc := 0) == header.(headerCrc := 0);
  }

  // ----- The file head -----

  /** Opening succeeds exactly on files that start with the writer's head for this configuration. */
  lemma OpenIffHead(file: seq<byte>, config: WalConfig)
    requires ValidReaderConfig(config)
    ensures OpenError(file, config) == NoError <==> FileHead(config) <= file
  {
    hide SerializeFileHeader, DeserializeFileHeader, FileHeaderError, WriterFileHeader, RecordsOffset, PowerOfTwo;
    Geometry(config);
    var head, tail := SerializeFileHeader(WriterFileHeader(config)), Zeros(RecordsOffset(config) - 64);
    assert FileHead(config) == head + tail;
    FrontOfPrefix(file, head, tail);
    if |file| >= 64 {
      var bytes := file[..64];
      var header := DeserializeFileHeader(bytes);
      AcceptedFileHeader(header, config);
      SerializeFileHeaderOfDeserialize(bytes);
      DeserializeFileHeaderOfSerialize(WriterFileHeader(config));
      assert FileHeaderError(header, config) == NoError <==> bytes == head;
      if bytes == head {
        assert header.recordsOffset == RecordsOffset(config) by { HeaderOffset(config); }
        ModSmall(header.recordsOffset - 64, 0x1_0000_0000);
        PaddingComplete(file, 64, header.recordsOffset - 64, IncompleteFileHeader);
        HeadThenTail(file, head, tail);
      }
    }
  }

  lemma HeaderOffset(config: WalConfig)
    ensures WriterFileHeader(config).recordsOffset == RecordsOffset(config)
  {}

  lemma FrontOfPrefix(file: seq<byte>, head: seq<byte>, tail: seq<byte>)
    ensures head + tail <= file ==> |head| <= |file| && file[..|head|] == head
  {
    if head + tail <= file {
      assert file[..|head|] == (head + tail)[..|head|];
    }
  }

  lemma HeadThenTail(file: seq<byte>, head: seq<byte>, tail: seq<byte>)
    requires |file| >= |head| && file[..|head|] == head
    ensures head + tail <= file <==> |head| + |tail| <= |file| && file[|head|..|head| + |tail|] == tail
  {
    if |head| + |tail| <= |file| {
      var both := file[..|head| + |tail|];
      assert both == head + file[|head|..|head| + |tail|];
      if head + tail <= file {
        assert both == head + tail;
        assert both[|head|..] == tail;
      }
    }
  }

  // ----- One record -----

  lemma SameRecordHeader(file: seq<byte>, offset: nat, sequence: u64, payload: Payload)
    requires offset + 24 <= |file|
    requires DeserializeRecordHeader(file[offset..offset + 24]).payloadCrc == CrcValue(payload)
    ensures RecordHeaderError(DeserializeRecordHeader(file[offset..offset + 24]), sequence) == NoError
       <==> file[offset..offset + 24] == SerializeRecordHeader(WriterRecordHeader(sequence, payload))
  {
    hide *;
    var bytes := file[offset..offset + 24];
    AcceptedRecordHeader(DeserializeRecordHeader(bytes), sequence, payload);
    SerializeRecordHeaderOfDeserialize(bytes);
    DeserializeRecordHeaderOfSerialize(WriterRecordHeader(sequence, payload));
  }

  lemma SplitRecord(file: seq<byte>, offset: nat, head: seq<byte>, payload: seq<byte>, tail: seq<byte>)
    requires offset + |head| + |payload| + |tail| <= |file|
    ensures file[offset..offset + |head| + |payload| + |tail|] == head + payload + tail <==>
      && file[offset..offset + |head|] == head
      && file[offset + |head|..offset + |head| + |payload|] == payload
      && file[offset + |head| + |payload|..offset + |head| + |payload| + |tail|] == tail
  {
    var h, p, t := |head|, |payload|, |tail|;
    SliceOfSlice(file, offset, h + p + t, 0, h);
    SliceOfSlice(file, offset, h + p + t, h, h + p);
    SliceOfSlice(file, offset, h + p + t, h + p, h + p + t);
    var all := file[offset..offset + h + p + t];
    assert all[h + p..h + p + t] == all[h + p..];
    SplitWhole(all, head, payload, tail);
  }

  lemma SliceOfSlice(s: seq<byte>, offset: nat, size: nat, i: nat, j: nat)
    requires offset + size <= |s| && i <= j <= size
    ensures s[offset..offset + size][i..j] == s[offset + i..offset + j]
  {
    var outer := s[offset..offset + size];
    forall k | 0 <= k < j - i
      ensures outer[i..j][k] == s[offset + i..offset + j][k]
    {
      assert outer[i..j][k] == outer[i + k] == s[offset + (i + k)];
    }
  }

  lemma SplitWhole(all: seq<byte>, head: seq<byte>, payload: seq<byte>, tail: seq<byte>)
    requires |all| == |head| + |payload| + |tail|
    ensures all == head + payload + tail <==>
      all[..|head|] == head && all[|head|..|head| + |payload|] == payload && all[|head| + |payload|..] == tail
  {
    var h, p := |head|, |payload|;
    assert all == all[..h] + all[h..h + p] + all[h + p..];
    var image := head + payload + tail;
    assert image[..h] == head && image[h..h + p] == payload && image[h + p..] == tail;
  }

  lemma ReadParts(file: seq<byte>, config: WalConfig, offset: nat, count: nat, payload: Payload)
    requires offset + AlignedRecordSize(config) <= |file| && AlignedRecordSize(config) >= 24 + config.payloadSize
    requires ReadRecord(file, config, offset, count) == Record(payload)
    ensures RecordHeaderError(DeserializeRecordHeader(file[offset..offset + 24]), NextSequence(config, count))
         == NoError
    ensures DeserializeRecordHeader(file[offset..offset + 24]).payloadCrc == CrcValue(payload)
    ensures payload == file[offset + 24..offset + 24 + config.payloadSize]
    ensures PaddingError(file, offset + 24 + config.payloadSize,
      AlignedRecordSize(config) - 24 - config.payloadSize, IncompletePadding) == NoError
  {
    hide DeserializeRecordHeader, RecordHeaderError, CrcValue, AlignedRecordSize, PaddingError;
    ModSmall(AlignedRecordSize(config) - 24 - config.payloadSize, 0x1_0000_0000_0000_0000);
  }

  lemma ReadGivesBytes(file: seq<byte>, config: WalConfig, offset: nat, count: nat, payload: Payload)
    requires PowerOfTwo(config.alignment) && offset <= |file|
    requires ReadRecord(file, config, offset, count) == Record(payload)
    ensures !Exhausted(config, count) && |payload| == config.payloadSize
    ensures offset + AlignedRecordSize(config) <= |file|
    ensures file[offset..offset + AlignedRecordSize(config)]
         == RecordBytes(config, config.firstSequence + count, payload)
  {
    hide DeserializeRecordHeader, SerializeRecordHeader, RecordHeaderError, WriterRecordHeader;
    hide CrcValue, PowerOfTwo, AlignedRecordSize, PaddingSize, ReadRecord, PaddingError;
    ReadProgress(file, config, offset, count);
    Geometry(config);
    ReadParts(file, config, offset, count, payload);
    var sequence: u64 := config.firstSequence + count;
    SameRecordHeader(file, offset, sequence, payload);
    var padding := AlignedRecordSize(config) - 24 - config.payloadSize;
    PaddingComplete(file, offset + 24 + config.payloadSize, padding, IncompletePadding);
    SplitRecord(file, offset, SerializeRecordHeader(WriterRecordHeader(sequence, payload)), payload, Zeros(padding));
  }

  lemma WriterRecordHeaderAccepted(sequence: u64, payload: Payload)
    ensures var header := WriterRecordHeader(sequence, payload);
      RecordHeaderError(header, sequence) == NoError && header.payloadCrc == CrcValue(payload)
  {
    hide CrcValue, SerializeRecordHeader;
    var header := WriterRecordHeader(sequence, payload);
    AcceptedRecordHeader(header, sequence, payload);
  }

  lemma BytesGiveRead(file: seq<byte>, config: WalConfig, offset: nat, count: nat, payload: Payload)
    requires PowerOfTwo(config.alignment)
    requires |payload| == config.payloadSize && !Exhausted(config, count)
    requires offset + AlignedRecordSize(config) <= |file|
    requires file[offset..offset + AlignedRecordSize(config)]
          == RecordBytes(config, config.firstSequence + count, payload)
    ensures ReadRecord(file, config, offset, count) == Record(payload)
  {
    hide DeserializeRecordHeader, SerializeRecordHeader, RecordHeaderError, WriterRecordHeader;
    hide CrcValue, PowerOfTwo, AlignedRecordSize, PaddingSize;
    Geometry(config);
    var sequence: u64 := config.firstSequence + count;
    var header := WriterRecordHeader(sequence, payload);
    var padding := AlignedRecordSize(config) - 24 - config.payloadSize;
    SplitRecord(file, offset, SerializeRecordHeader(header), payload, Zeros(padding));
    DeserializeRecordHeaderOfSerialize(header);
    WriterRecordHeaderAccepted(sequence, payload);
    assert NextSequence(config, count) == sequence;
    ModSmall(padding, 0x1_0000_0000_0000_0000);
    PaddingComplete(file, offset + 24 + config.payloadSize, padding, IncompletePadding);
  }

  // ----- Whole files -----

  /** Everything scanned so far is an image, and it is a prefix of the file. */
  ghost predicate Trusted(file: seq<byte>, config: WalConfig, payloads: seq<Payload>) {
    Storable(config, payloads) && Image(config, payloads) <= file
  }

  lemma TrustedExtends(file: seq<byte>, config: WalConfig, payloads: seq<Payload>, payload: Payload)
    requires PowerOfTwo(config.alignment) && Trusted(file, config, payloads)
    ensures Offset(config, |payloads|) <= |file|
    ensures ReadRecord(file, config, Offset(config, |payloads|), |payloads|) == Record(payload)
       <==> Trusted(file, config, payloads + [payload])
  {
    ImageSize(config, payloads);
    if ReadRecord(file, config, Offset(config, |payloads|), |payloads|) == Record(payload) {
      TrustedForward(file, config, payloads, payload);
    }
    if Trusted(file, config, payloads + [payload]) {
      TrustedBackward(file, config, payloads, payload);
    }
  }

  lemma StorableSnoc(config: WalConfig, payloads: seq<Payload>, payload: Payload)
    ensures Storable(config, payloads + [payload]) <==>
      Storable(config, payloads) && !Exhausted(config, |payloads|) && |payload| == config.payloadSize
  {
    var all := payloads + [payload];
    if Storable(config, all) {
      assert all[|payloads|] == payload;
      forall i | 0 <= i < |payloads| ensures |payloads[i]| == config.payloadSize {
        assert all[i] == payloads[i];
      }
    }
  }

  lemma TrustedForward(file: seq<byte>, config: WalConfig, payloads: seq<Payload>, payload: Payload)
    requires PowerOfTwo(config.alignment) && Trusted(file, config, payloads)
    requires Offset(config, |payloads|) <= |file|
    requires ReadRecord(file, config, Offset(config, |payloads|), |payloads|) == Record(payload)
    ensures Trusted(file, config, payloads + [payload])
  {
    hide ReadRecord, Image, RecordBytes, Offset, AlignedRecordSize, PowerOfTwo, Storable;
    var n, offset := |payloads|, Offset(config, |payloads|);
    ReadGivesBytes(file, config, offset, n, payload);
    StorableSnoc(config, payloads, payload);
    ImageSnoc(config, payloads, payload);
    ImageSize(config, payloads);
    var next := offset + AlignedRecordSize(config);
    assert file[..next] == file[..offset] + file[offset..next];
  }

  lemma TrustedBackward(file: seq<byte>, config: WalConfig, payloads: seq<Payload>, payload: Payload)
    requires PowerOfTwo(config.alignment) && Trusted(file, config, payloads + [payload])
    ensures Trusted(file, config, payloads)
    ensures Offset(config, |payloads|) <= |file|
    ensures ReadRecord(file, config, Offset(config, |payloads|), |payloads|) == Record(payload)
  {
    hide ReadRecord, Image, RecordBytes, Offset, AlignedRecordSize, PowerOfTwo, Storable;
    var n, offset := |payloads|, Offset(config, |payloads|);
    StorableSnoc(config, payloads, payload);
    ImageSnoc(config, payloads, payload);
    ImageSize(config, payloads);
    var bytes := RecordBytes(config, SequenceOf(config, n), payload);
    RecordBytesSize(config, SequenceOf(config, n), payload);
    var next := offset + AlignedRecordSize(config);
    assert file[..next] == Image(config, payloads) + bytes;
    assert file[offset..next] == file[..next][offset..];
    BytesGiveRead(file, config, offset, n, payload);
  }

  function SequenceOf(config: WalConfig, count: nat): u64
    requires !Exhausted(config, count)
  {
    config.firstSequence + count
  }

  lemma {:induction false} ScanExtends(file: seq<byte>, config: WalConfig, payloads: seq<Payload>)
    requires PowerOfTwo(config.alignment) && Trusted(file, config, payloads)
    ensures Offset(config, |payloads|) <= |file|
    ensures var scanned := ScanFrom(file, config, payloads);
      && payloads <= scanned.payloads
      && Trusted(file, config, scanned.payloads)
      && Offset(config, |scanned.payloads|) <= |file|
      && scanned.stop == ReadRecord(file, config, Offset(config, |scanned.payloads|), |scanned.payloads|)
      && !scanned.stop.Record?
    decreases |file| - |payloads|
  {
    hide ReadRecord, Trusted, Offset, PowerOfTwo;
    TrustedCount(file, config, payloads);
    var outcome := ReadRecord(file, config, Offset(config, |payloads|), |payloads|);
    if outcome.Record? {
      TrustedExtends(file, config, payloads, outcome.payload);
      TrustedCount(file, config, payloads + [outcome.payload]);
      ScanExtends(file, config, payloads + [outcome.payload]);
    }
  }

  lemma TrustedCount(file: seq<byte>, config: WalConfig, payloads: seq<Payload>)
    requires PowerOfTwo(config.alignment) && Trusted(file, config, payloads)
    ensures |payloads| <= |file| && Offset(config, |payloads|) <= |file|
  {
    hide PowerOfTwo, Image, RecordsOffset, AlignedRecordSize;
    ImageSize(config, payloads);
    Geometry(config);
    MulMono(1, AlignedRecordSize(config), |payloads|);
  }

  /** The scan passes through every image that the file starts with. */
  lemma {:induction false} ScanThrough(file: seq<byte>, config: WalConfig, payloads: seq<Payload>)
    requires PowerOfTwo(config.alignment) && Trusted(file, config, payloads)
    ensures Offset(config, 0) <= |file| && Offset(config, |payloads|) <= |file|
    ensures ScanFrom(file, config, []) == ScanFrom(file, config, payloads)
    decreases |payloads|
  {
    hide ReadRecord, Trusted, Offset, PowerOfTwo;
    TrustedCount(file, config, payloads);
    if payloads != [] {
      var n := |payloads| - 1;
      assert payloads == payloads[..n] + [payloads[n]];
      TrustedShorter(file, config, payloads, n);
      TrustedExtends(file, config, payloads[..n], payloads[n]);
      ScanThrough(file, config, payloads[..n]);
    }
  }

  lemma TrustedShorter(file: seq<byte>, config: WalConfig, payloads: seq<Payload>, n: nat)
    requires PowerOfTwo(config.alignment) && Trusted(file, config, payloads) && n <= |payloads|
    ensures Trusted(file, config, payloads[..n])
  {
    hide PowerOfTwo, Image, Offset, Storable;
    ImagePrefix(config, payloads, n);
    var image, cut := Image(config, payloads), Offset(config, n);
    assert file[..cut] == image[..cut];
  }

  lemma HeadTrusted(file: seq<byte>, config: WalConfig)
    requires ValidReaderConfig(config)
    ensures PowerOfTwo(config.alignment)
    ensures OpenError(file, config) == NoError <==> Trusted(file, config, [])
  {
    hide OpenError, FileHead, RecordsOffset, AlignedRecordSize;
    OpenIffHead(file, config);
    assert Image(config, []) == FileHead(config);
  }

  /** The payloads that are read back; none when the file does not open. */
  function Recovered(file: seq<byte>, config: WalConfig): seq<Payload> {
    if ValidReaderConfig(config) && OpenError(file, config) == NoError then
      OpenedSize(file, config);
      ScanFrom(file, config, []).payloads
    else []
  }

  /**
   * On arbitrary bytes that open, the trusted prefix is the writer's image of the
   * payloads read, and every image the file starts with is a part of it.
   */
  lemma ScanIsLongestImage(file: seq<byte>, config: WalConfig)
    requires ValidReaderConfig(config) && OpenError(file, config) == NoError
    ensures var result, payloads := Scan(file, config), Recovered(file, config);
      && Storable(config, payloads)
      && result.records == |payloads|
      && result.lastValidOffset <= |file|
      && file[..result.lastValidOffset] == Image(config, payloads)
      && (|payloads| > 0 ==> result.lastSequence == config.firstSequence + |payloads| - 1)
      && forall others :: Trusted(file, config, others) ==> others <= payloads
  {
    hide OpenError, ReadRecord, RecordsOffset, AlignedRecordSize, PowerOfTwo, Image;
    HeadTrusted(file, config);
    OpenedSize(file, config);
    ScanExtends(file, config, []);
    var payloads := Recovered(file, config);
    ImageSize(config, payloads);
    forall others | Trusted(file, config, others) ensures others <= payloads {
      ScanThrough(file, config, others);
      ScanExtends(file, config, others);
    }
  }

  lemma ImageOpens(file: seq<byte>, config: WalConfig, payloads: seq<Payload>)
    requires ValidReaderConfig(config) && Trusted(file, config, payloads)
    ensures PowerOfTwo(config.alignment) && OpenError(file, config) == NoError
  {
    hide OpenError, RecordsOffset, AlignedRecordSize, Image, Trusted;
    HeadTrusted(file, config);
    TrustedShorter(file, config, payloads, 0);
  }

  /** Once the scan is known to stop after an image, its whole result is known. */
  lemma ScanStopsAfter(file: seq<byte>, config: WalConfig, payloads: seq<Payload>)
    requires ValidReaderConfig(config) && Trusted(file, config, payloads)
    ensures PowerOfTwo(config.alignment) && Offset(config, |payloads|) <= |file|
    ensures var stop := ReadRecord(file, config, Offset(config, |payloads|), |payloads|);
      !stop.Record? ==>
        Recovered(file, config) == payloads && Scan(file, config) == ResultOf(config, Scanned(payloads, stop))
  {
    hide OpenError, Offset, PowerOfTwo, Trusted, ReadRecord, ResultOf;
    ImageOpens(file, config, payloads);
    ScanThrough(file, config, payloads);
  }

  /** Scanning what the writer wrote returns exactly what was written. */
  lemma ScanOfImage(config: WalConfig, payloads: seq<Payload>)
    requires ValidReaderConfig(config) && Storable(config, payloads)
    ensures var file := Image(config, payloads);
      && Recovered(file, config) == payloads
      && Scan(file, config) == ScanResult(
           ScanClean, NoError, |payloads|,
           if payloads == [] then 0 else NextSequence(config, |payloads| - 1), |file|)
  {
    hide Offset, PowerOfTwo, Image, Scan, Recovered, Storable;
    var file := Image(config, payloads);
    ScanStopsAfter(file, config, payloads);
    ImageSize(config, payloads);
    assert ReadRecord(file, config, Offset(config, |payloads|), |payloads|) == EndOfLog;
  }

  /** A scan is clean exactly if the whole file is an image. */
  lemma CleanIffImage(file: seq<byte>, config: WalConfig)
    requires ValidReaderConfig(config) && OpenError(file, config) == NoError
    ensures Storable(config, Recovered(file, config))
    ensures Scan(file, config).status == ScanClean <==> file == Image(config, Recovered(file, config))
  {
    hide OpenError, RecordsOffset, AlignedRecordSize, PowerOfTwo, Image, Storable, Offset;
    HeadTrusted(file, config);
    OpenedSize(file, config);
    ScanExtends(file, config, []);
    var payloads := Recovered(file, config);
    ImageSize(config, payloads);
    PrefixOfAll(file, Image(config, payloads));
    if file == Image(config, payloads) {
      ScanOfImage(config, payloads);
    } else if Scan(file, config).status == ScanClean {
      StopAtEnd(file, config, Offset(config, |payloads|), |payloads|);
    }
  }

  lemma PrefixOfAll(file: seq<byte>, image: seq<byte>)
    ensures image <= file && |image| == |file| ==> image == file
  {}

  lemma StopAtEnd(file: seq<byte>, config: WalConfig, offset: nat, count: nat)
    requires offset <= |file|
    requires match ReadRecord(file, config, offset, count)
             case Record(_) => false
             case EndOfLog => true
             case Failed(error) => ScanStatusFor(error) == ScanClean
    ensures offset == |file|
  {
    hide DeserializeRecordHeader, RecordHeaderCrc, CrcValue, PaddingError, AlignedRecordSize;
  }
}
