/**
 * Recovery of an incomplete tail, as a function of the file, and what it
 * guarantees for every file.
 */
module WalRecovery {
  import opened Words
  import opened Crc32
  import opened WalGeometry
  import opened WalFormat
  import opened WalImage
  import opened WalScan
  import opened WalCanonical
  import opened WalRecordDamage
  import opened WalDamage

  datatype RecoveryStatus =
    | RecoveryClean
    | RecoveryRecovered
    | RecoveryRefused
    | RecoveryInvalidConfig
    | RecoveryIoError

  datatype RecoveryResult = RecoveryResult(
    status: RecoveryStatus,
    error: WalReadError,
    records: nat,
    lastSequence: u64,
    lastValidOffset: nat,
    originalSize: nat,
    recoveredSize: nat,
    removedBytes: nat)

  function ResultFromScan(
    status: RecoveryStatus, scan: ScanResult, originalSize: nat, recoveredSize: nat): RecoveryResult
  {
    RecoveryResult(
      status, scan.error, scan.records, scan.lastSequence, scan.lastValidOffset, originalSize, recoveredSize,
      if originalSize >= recoveredSize then originalSize - recoveredSize else 0)
  }

  /** The check made after truncation. */
  predicate Consistent(before: ScanResult, after: ScanResult, recoveredSize: nat) {
    && after.status == ScanClean
    && recoveredSize == before.lastValidOffset
    && after.lastValidOffset == before.lastValidOffset
    && after.records == before.records
    && after.lastSequence == before.lastSequence
  }

  datatype Recovery = Recovery(result: RecoveryResult, file: seq<byte>)

  /** The result of recovery and the file it leaves, when no input or output operation fails. */
  function Recover(file: seq<byte>, config: WalConfig): Recovery {
    var before := Scan(file, config);
    match before.status
    case ScanClean => Recovery(ResultFromScan(RecoveryClean, before, |file|, |file|), file)
    case ScanInvalidConfig => Recovery(ResultFromScan(RecoveryInvalidConfig, before, |file|, |file|), file)
    case ScanCorrupted => Recovery(ResultFromScan(RecoveryRefused, before, |file|, |file|), file)
    case ScanIoError => Recovery(ResultFromScan(RecoveryIoError, before, |file|, |file|), file)
    case ScanIncompleteTail =>
      if before.lastValidOffset > |file| then
        Recovery(ResultFromScan(RecoveryIoError, before, |file|, |file|), file)
      else
        var kept := file[..before.lastValidOffset];
        var after := Scan(kept, config);
        if !Consistent(before, after, |kept|) then
          Recovery(ResultFromScan(RecoveryIoError, after, |file|, |kept|), kept)
        else
          Recovery(ResultFromScan(RecoveryRecovered, after, |file|, |kept|).(error := before.error), kept)
  }

  lemma TrustedPrefixRescans(file: seq<byte>, config: WalConfig)
    requires Scan(file, config).status == ScanIncompleteTail
    ensures var before := Scan(file, config);
      && before.lastValidOffset <= |file|
      && var kept := file[..before.lastValidOffset];
      && Storable(config, Recovered(file, config))
      && kept == Image(config, Recovered(file, config))
      && Recovered(kept, config) == Recovered(file, config)
      && Consistent(before, Scan(kept, config), |kept|)
  {
    hide Image, Storable, Recovered, OpenError;
    OpensWhenIncomplete(file, config);
    ScanIsLongestImage(file, config);
    ScanOfImage(config, Recovered(file, config));
    RecordsAndLast(file, config);
  }

  /**
   * What the check made after truncation accepts: whatever the file has become, it
   * passes exactly if all of it is an image that ends where the trusted prefix did.
   */
  lemma ConsistentIff(file: seq<byte>, kept: seq<byte>, config: WalConfig)
    requires Scan(file, config).status == ScanIncompleteTail
    ensures Consistent(Scan(file, config), Scan(kept, config), |kept|) <==>
      && OpenError(kept, config) == NoError && Storable(config, Recovered(kept, config))
      && kept == Image(config, Recovered(kept, config)) && |kept| == Scan(file, config).lastValidOffset
  {
    hide Scan, Image, Storable, Recovered, OpenError, Offset, PowerOfTwo;
    OutcomeOfScan(kept, config);
    OutcomeOfScan(file, config);
    ScanIsLongestImage(file, config);
    LastByCount(file, config);
    if OpenError(kept, config) == NoError && kept == Image(config, Recovered(kept, config)) {
      ScanOfImage(config, Recovered(kept, config));
      ImageSize(config, Recovered(kept, config));
      ImageSize(config, Recovered(file, config));
      SameCount(config, |Recovered(kept, config)|, |Recovered(file, config)|);
    }
  }

  lemma LastByCount(file: seq<byte>, config: WalConfig)
    requires Scan(file, config).status == ScanIncompleteTail
    ensures ValidReaderConfig(config) && OpenError(file, config) == NoError && PowerOfTwo(config.alignment)
    ensures var n := |Recovered(file, config)|;
      Scan(file, config).lastSequence == if n == 0 then 0 else NextSequence(config, n - 1)
  {
    hide OpenError, Recovered;
    OpensWhenIncomplete(file, config);
    RecordsAndLast(file, config);
  }

  lemma SameCount(config: WalConfig, a: nat, b: nat)
    requires PowerOfTwo(config.alignment)
    ensures Offset(config, a) == Offset(config, b) ==> a == b
  {
    hide PowerOfTwo, RecordsOffset, AlignedRecordSize;
    Geometry(config);
    OffsetNext(config, a);
    OffsetNext(config, b);
    if a < b {
      OffsetMono(config, a + 1, b);
    } else if b < a {
      OffsetMono(config, b + 1, a);
    }
  }

  lemma OpensWhenIncomplete(file: seq<byte>, config: WalConfig)
    requires Scan(file, config).status == ScanIncompleteTail
    ensures ValidReaderConfig(config) && OpenError(file, config) == NoError
  {
    hide OpenError;
  }

  lemma RecordsAndLast(file: seq<byte>, config: WalConfig)
    requires ValidReaderConfig(config) && OpenError(file, config) == NoError
    ensures var n := |Recovered(file, config)|;
      Scan(file, config).lastSequence == if n == 0 then 0 else NextSequence(config, n - 1)
  {
    hide OpenError, ValidReaderConfig, ScanFrom, Offset;
  }

  /**
   * Recovery on arbitrary bytes. Which of the four outcomes it has is decided by the
   * configuration and by what of the file is an image. It fails on no file, touches
   * only one whose tail is incomplete, cuts such a file to exactly the trusted
   * prefix, and leaves every record that was readable readable.
   */
  lemma RecoverOutcome(file: seq<byte>, config: WalConfig)
    ensures var opens := ValidReaderConfig(config) && OpenError(file, config) == NoError;
      var payloads := Recovered(file, config);
      && (opens ==> Storable(config, payloads))
      && Recover(file, config).result.status ==
           if !ValidReaderConfig(config) then RecoveryInvalidConfig
           else if opens && file == Image(config, payloads) then RecoveryClean
           else if Scan(file, config).status == ScanIncompleteTail then RecoveryRecovered
           else RecoveryRefused
    ensures var before, recovery := Scan(file, config), Recover(file, config);
      && (recovery.result.status == RecoveryRecovered <==> before.status == ScanIncompleteTail)
      && recovery.file == (if before.status == ScanIncompleteTail && before.lastValidOffset <= |file|
                           then file[..before.lastValidOffset] else file)
      && recovery.result.originalSize == |file|
      && recovery.result.recoveredSize == |recovery.file|
      && recovery.result.removedBytes + recovery.result.recoveredSize == |file|
      && recovery.result.records == before.records
      && recovery.result.lastSequence == before.lastSequence
      && recovery.result.lastValidOffset == before.lastValidOffset
      && recovery.result.error == before.error
      && Recovered(recovery.file, config) == Recovered(file, config)
  {
    hide Scan, Recovered, Image, Storable, OpenError, ValidReaderConfig;
    NeverIoError(file, config);
    OutcomeOfScan(file, config);
    if Scan(file, config).status == ScanIncompleteTail {
      TrustedPrefixRescans(file, config);
    }
  }

  /** What each answer of the scan says about the file. */
  lemma OutcomeOfScan(file: seq<byte>, config: WalConfig)
    ensures ValidReaderConfig(config) && OpenError(file, config) == NoError ==>
      && Storable(config, Recovered(file, config))
      && (Scan(file, config).status == ScanClean <==> file == Image(config, Recovered(file, config)))
    ensures !ValidReaderConfig(config) <==> Scan(file, config).status == ScanInvalidConfig
    ensures ValidReaderConfig(config) && OpenError(file, config) != NoError ==>
      Scan(file, config).status == ScanCorrupted
  {
    hide Recovered, Image, Storable, OpenError, ValidReaderConfig, ScanFrom;
    if ValidReaderConfig(config) && OpenError(file, config) == NoError {
      CleanIffImage(file, config);
    }
  }

  lemma NeverIoError(file: seq<byte>, config: WalConfig)
    ensures Scan(file, config).status != ScanIoError
  {
    hide OpenError, Offset, ReadRecord, ScanFrom, PowerOfTwo, ValidReaderConfig;
    if ValidReaderConfig(config) && OpenError(file, config) == NoError {
      OpenedSize(file, config);
      StopIsNotIo(file, config, []);
    }
  }

  lemma ReadIsNotIo(file: seq<byte>, config: WalConfig, offset: nat, count: nat)
    requires offset <= |file|
    ensures ReadRecord(file, config, offset, count) != Failed(IoError)
  {
    hide DeserializeRecordHeader, RecordHeaderCrc, CrcValue, AlignedRecordSize;
    if |file| - offset >= 24 + config.payloadSize {
      var padding := (AlignedRecordSize(config) as int - 24 - config.payloadSize) % 0x1_0000_0000_0000_0000;
      PaddingComplete(file, offset + 24 + config.payloadSize, padding, IncompletePadding);
    }
  }

  lemma {:induction false} StopIsNotIo(file: seq<byte>, config: WalConfig, payloads: seq<Payload>)
    requires PowerOfTwo(config.alignment) && Offset(config, |payloads|) <= |file|
    ensures ScanFrom(file, config, payloads).stop != Failed(IoError)
    decreases |file| - Offset(config, |payloads|)
  {
    hide ReadRecord, PowerOfTwo, Offset;
    ReadIsNotIo(file, config, Offset(config, |payloads|), |payloads|);
    var outcome := ReadRecord(file, config, Offset(config, |payloads|), |payloads|);
    if outcome.Record? {
      ReadProgress(file, config, Offset(config, |payloads|), |payloads|);
      OffsetNext(config, |payloads|);
      StopIsNotIo(file, config, payloads + [outcome.payload]);
    }
  }

  /** A second recovery finds a clean file, or refuses again, and changes nothing. */
  lemma RecoverTwice(file: seq<byte>, config: WalConfig)
    ensures var once := Recover(file, config);
      && Recover(once.file, config).file == once.file
      && (once.result.status == RecoveryRecovered ==> Recover(once.file, config).result.status == RecoveryClean)
      && (once.result.status != RecoveryRecovered ==> Recover(once.file, config) == once)
  {
    hide Scan, Recovered, Image, Storable;
    NeverIoError(file, config);
    if Scan(file, config).status == ScanIncompleteTail {
      TrustedPrefixRescans(file, config);
    }
  }

  /** Damage confined to four bytes that starts before the end of the last whole record is refused. */
  lemma RecoverRefusesDamage(
    config: WalConfig, payloads: seq<Payload>, file: seq<byte>, damaged: seq<byte>, at: nat)
    requires ValidReaderConfig(config) && Storable(config, payloads) && Image(config, payloads) <= file
    requires BurstAt(file, damaged, at) && at < |Image(config, payloads)|
    ensures Recover(damaged, config).file == damaged
    ensures Recover(damaged, config).result.status == RecoveryRefused
  {
    hide Scan, Image, Storable, BurstAt, Recovered, OpenError, Offset, FileHead, RecordsOffset;
    if at < RecordsOffset(config) {
      ImageHead(config, payloads);
      ScanOfDamagedHead(config, file, damaged, at);
    } else {
      var whole := SlotOf(config, at);
      ImageSize(config, payloads);
      if whole >= |payloads| {
        OffsetMono(config, |payloads|, whole);
      }
      ScanOfDamagedRecord(config, payloads, file, damaged, at, whole);
    }
  }

  /** A log cut before its record area is refused and left as it is. */
  lemma RecoverRefusesCutHead(config: WalConfig, payloads: seq<Payload>, length: nat)
    requires ValidReaderConfig(config) && Storable(config, payloads)
    requires length < RecordsOffset(config) && length <= |Image(config, payloads)|
    ensures var file := Image(config, payloads)[..length];
      Recover(file, config) == Recovery(
        RecoveryResult(RecoveryRefused, IncompleteFileHeader, 0, 0, 0, length, length, 0), file)
  {
    hide Scan, Image, Storable, ValidReaderConfig, RecordsOffset;
    ScanOfCutHead(config, payloads, length);
  }

  /** Every position of the record area lies in one record slot. */
  lemma SlotOf(config: WalConfig, at: nat) returns (whole: nat)
    requires PowerOfTwo(config.alignment) && RecordsOffset(config) <= at
    ensures Offset(config, whole) <= at < Offset(config, whole) + AlignedRecordSize(config)
  {
    hide *;
    Geometry(config);
    whole := WholeRecords(config, at);
    PlaceOf(config, at);
  }

  /** A crash in the middle of a record costs that record and nothing else. */
  lemma RecoverTorn(file: seq<byte>, config: WalConfig, payloads: seq<Payload>, payload: Payload)
    requires ValidReaderConfig(config) && Storable(config, payloads + [payload])
    requires Storable(config, payloads) && Image(config, payloads) <= file
    requires |file| < Offset(config, |payloads| + 1)
    requires file <= Image(config, payloads + [payload])
    ensures Recover(file, config).file == Image(config, payloads)
    ensures Recovered(Recover(file, config).file, config) == payloads
    ensures Recover(file, config).result.status in {RecoveryClean, RecoveryRecovered}
    ensures Recover(file, config).result.status == RecoveryClean <==> file == Image(config, payloads)
    ensures Recover(file, config).result.records == |payloads|
  {
    hide Scan, Image, Storable, Recovered, OpenError, Offset, Recover;
    ScanOfTorn(file, config, payloads, payload);
    ImageSize(config, payloads);
    RecoverOutcome(file, config);
    TornRecovery(file, config, payloads);
  }

  lemma TornRecovery(file: seq<byte>, config: WalConfig, payloads: seq<Payload>)
    requires Offset(config, |payloads|) <= |file|
    requires var cut := |file| - Offset(config, |payloads|);
      Scan(file, config) == ResultOf(config, Scanned(payloads, TornStop(config, cut)))
    ensures Scan(file, config).records == |payloads|
    ensures Scan(file, config).lastValidOffset == Offset(config, |payloads|)
    ensures |file| == Offset(config, |payloads|) ==>
      Scan(file, config).status == ScanClean && Recover(file, config).result.status == RecoveryClean
    ensures |file| > Offset(config, |payloads|) ==> Scan(file, config).status == ScanIncompleteTail
  {
    hide Scan, Offset;
  }
}
