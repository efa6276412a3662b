/**
 * Damage in a record that was only partly written: what the scanner and recovery
 * make of it is decided by how much of the record is there and where the first
 * changed byte is.
 */
module WalTornDamage {
  import opened Words
  import opened WalRecordDamage
  import opened WalGeometry
  import opened WalImage
  import opened WalScan
  import opened WalCanonical
  import opened WalDamage
  import opened WalRecovery

  /**
   * Damage that starts `position` bytes into a record of which `cut` bytes are
   * there is noticed: in the header once the header is there, in the payload once
   * the payload is, and in the padding once the chunk it is in is.
   */
  predicate Noticed(config: WalConfig, cut: nat, position: nat) {
    && 24 <= cut
    && (24 <= position < 24 + config.payloadSize ==> 24 + config.payloadSize <= cut)
    && (24 + config.payloadSize <= position ==>
          24 + config.payloadSize + ChunkEnd(position - 24 - config.payloadSize) <= cut)
  }

  // ----- The torn record -----

  /**
   * A log that ends inside its next record, damaged there: everything before is
   * still trusted, and what is there of the record and where the damage starts
   * decides the error, and with it whether the scan speaks of corruption or of an
   * incomplete tail.
   */
  lemma ScanOfDamagedTail(
    config: WalConfig, payloads: seq<Payload>, payload: Payload, file: seq<byte>, damaged: seq<byte>, at: nat)
    requires ValidReaderConfig(config) && Storable(config, payloads) && Storable(config, payloads + [payload])
    requires Image(config, payloads) <= file <= Image(config, payloads + [payload])
    requires |file| < Offset(config, |payloads| + 1)
    requires BurstAt(file, damaged, at) && Offset(config, |payloads|) <= at
    ensures Recovered(damaged, config) == payloads
    ensures Scan(damaged, config).records == |payloads|
    ensures Scan(damaged, config).lastValidOffset == Offset(config, |payloads|)
    ensures Scan(damaged, config).error
         == DamageError(config, |file| - Offset(config, |payloads|), at - Offset(config, |payloads|))
    ensures Scan(damaged, config).status
         == if Noticed(config, |file| - Offset(config, |payloads|), at - Offset(config, |payloads|))
            then ScanCorrupted else ScanIncompleteTail
  {
    hide Scan, Recovered, Offset, AlignedRecordSize, PowerOfTwo, Image, RecordBytes, ReadRecord, Storable, Noticed;
    hide DamageError, BurstAt, DamagedFrom, Exhausted, ResultOf;
    var n, offset := |payloads|, Offset(config, |payloads|);
    TornRecord(config, payloads, payload, file);
    DamagedAfter(Image(config, payloads), file, damaged, at);
    ScanStopsAfter(damaged, config, payloads);
    var record := RecordBytes(config, SequenceOf(config, n), payload);
    BurstInside(file, damaged, at);
    DamagedRecordIn(record, file, damaged, offset, at);
    DamagedRead(config, n, payload, damaged, offset, at - offset);
    TornStatus(config, |file| - offset, at - offset);
    FailedResult(config, payloads, DamageError(config, |file| - offset, at - offset));
  }

  lemma FailedResult(config: WalConfig, payloads: seq<Payload>, error: WalReadError)
    ensures var result := ResultOf(config, Scanned(payloads, Failed(error)));
      && result.records == |payloads| && result.lastValidOffset == Offset(config, |payloads|)
      && result.error == error && result.status == ScanStatusFor(error)
  {
    hide Offset;
  }

  /** The torn record at the end of a file. */
  lemma TornRecord(config: WalConfig, payloads: seq<Payload>, payload: Payload, file: seq<byte>)
    requires ValidReaderConfig(config) && Storable(config, payloads) && Storable(config, payloads + [payload])
    requires Image(config, payloads) <= file <= Image(config, payloads + [payload])
    requires |file| < Offset(config, |payloads| + 1)
    ensures PowerOfTwo(config.alignment) && |payload| == config.payloadSize && !Exhausted(config, |payloads|)
    ensures var record := RecordBytes(config, SequenceOf(config, |payloads|), payload);
      && |Image(config, payloads)| == Offset(config, |payloads|) <= |file|
      && |file| < Offset(config, |payloads|) + |record| && |record| == AlignedRecordSize(config)
      && file[Offset(config, |payloads|)..] <= record
  {
    hide Offset, AlignedRecordSize, PowerOfTwo, Image, RecordBytes, Storable, Exhausted;
    var n := |payloads|;
    ImageSize(config, payloads);
    OffsetNext(config, n);
    StorableSnoc(config, payloads, payload);
    ImageSnoc(config, payloads, payload);
    var record := RecordBytes(config, SequenceOf(config, n), payload);
    RecordBytesSize(config, SequenceOf(config, n), payload);
    TailOfPrefix(file, Image(config, payloads), record);
  }

  lemma TornStatus(config: WalConfig, rest: nat, position: nat)
    requires PowerOfTwo(config.alignment) && position < rest < AlignedRecordSize(config)
    ensures ScanStatusFor(DamageError(config, rest, position))
         == if Noticed(config, rest, position) then ScanCorrupted else ScanIncompleteTail
  {
    hide PowerOfTwo, AlignedRecordSize, ChunkEnd;
    Geometry(config);
  }

  // ----- Every file the writer leaves -----

  /**
   * Damage confined to four bytes that a reader must notice in a file of this
   * length: any in a file without a whole head, any that starts in the head or in a
   * whole record, and in the torn record at the end what is `Noticed`.
   */
  predicate MustNotice(config: WalConfig, length: nat, at: nat) {
    var end := Offset(config, WholeRecords(config, length));
    length < RecordsOffset(config) || at < end || Noticed(config, LeftOver(config, length), at - end)
  }

  /**
   * Every file the writer can leave, with any change confined to four bytes: the
   * change is refused and the file left alone exactly if it must be noticed;
   * otherwise it lies in the torn record at the end, which recovery cuts off, and
   * all whole records are kept.
   */
  lemma RecoverDamaged(config: WalConfig, payloads: seq<Payload>, length: nat, damaged: seq<byte>, at: nat)
    requires ValidReaderConfig(config) && Storable(config, payloads) && length <= |Image(config, payloads)|
    requires BurstAt(Image(config, payloads)[..length], damaged, at)
    ensures var whole, recovery := WholeRecords(config, length), Recover(damaged, config);
      && whole <= |payloads| && Storable(config, payloads[..whole])
      && if MustNotice(config, length, at)
         then recovery.result.status == RecoveryRefused && recovery.file == damaged
         else recovery.result.status == RecoveryRecovered && recovery.file == Image(config, payloads[..whole])
  {
    hide *;
    var file, whole := Image(config, payloads)[..length], WholeRecords(config, length);
    BurstInside(file, damaged, at);
    NoticedBy(config, length, at);
    if length < RecordsOffset(config) {
      ScanOfShortFile(config, damaged);
      NoRecords(config, payloads, length);
      RefusedWhenCorrupted(damaged, config);
    } else {
      WholeFit(config, payloads, length);
      if at < Offset(config, whole) {
        RecoverRefusesDamage(config, payloads[..whole], file, damaged, at);
      } else {
        RecoverDamagedEnd(config, payloads, length, damaged, at);
      }
    }
  }

  lemma RecoverDamagedEnd(config: WalConfig, payloads: seq<Payload>, length: nat, damaged: seq<byte>, at: nat)
    requires ValidReaderConfig(config) && Storable(config, payloads)
    requires RecordsOffset(config) <= length <= |Image(config, payloads)|
    requires BurstAt(Image(config, payloads)[..length], damaged, at)
    requires Offset(config, WholeRecords(config, length)) <= at
    ensures var whole, recovery := WholeRecords(config, length), Recover(damaged, config);
      && whole <= |payloads| && Storable(config, payloads[..whole])
      && if MustNotice(config, length, at)
         then recovery.result.status == RecoveryRefused && recovery.file == damaged
         else recovery.result.status == RecoveryRecovered && recovery.file == Image(config, payloads[..whole])
  {
    hide *;
    WholeFit(config, payloads, length);
    DamagedAtEnd(config, payloads, length, damaged, at);
    RecoverOutcome(damaged, config);
    var kept := Image(config, payloads[..WholeRecords(config, length)]);
    if MustNotice(config, length, at) {
      RefusedWhenCorrupted(damaged, config);
    } else {
      DamagedAfter(kept, Image(config, payloads)[..length], damaged, at);
      assert damaged[..|kept|] == kept;
    }
  }

  lemma NoRecords(config: WalConfig, payloads: seq<Payload>, length: nat)
    requires Storable(config, payloads) && length < RecordsOffset(config)
    ensures WholeRecords(config, length) == 0 && Storable(config, payloads[..0])
  {}

  lemma NoticedBy(config: WalConfig, length: nat, at: nat)
    ensures length < RecordsOffset(config) || at < Offset(config, WholeRecords(config, length)) ==>
      MustNotice(config, length, at)
  {}

  lemma RefusedWhenCorrupted(file: seq<byte>, config: WalConfig)
    requires Scan(file, config).status == ScanCorrupted
    ensures Recover(file, config).result.status == RecoveryRefused && Recover(file, config).file == file
  {
    hide Scan;
  }

  /** The whole records of a cut image are an image, and it ends where they do. */
  lemma WholeFit(config: WalConfig, payloads: seq<Payload>, length: nat)
    requires ValidReaderConfig(config) && Storable(config, payloads)
    requires RecordsOffset(config) <= length <= |Image(config, payloads)|
    ensures var whole := WholeRecords(config, length);
      && whole <= |payloads| && Storable(config, payloads[..whole])
      && Image(config, payloads[..whole]) <= Image(config, payloads)[..length]
      && |Image(config, payloads[..whole])| == Offset(config, whole) <= length
      && LeftOver(config, length) == length - Offset(config, whole) < AlignedRecordSize(config)
  {
    hide Scan, Image, Storable, Recovered, Offset, RecordsOffset, AlignedRecordSize, WholeRecords, LeftOver;
    hide PowerOfTwo;
    var whole := WholeRecords(config, length);
    StrideOf(config);
    PlaceOf(config, length);
    ScanOfLength(config, payloads, length);
    ImagePrefix(config, payloads, whole);
    ImageSize(config, payloads[..whole]);
    assert Image(config, payloads[..whole]) == Image(config, payloads)[..length][..Offset(config, whole)];
  }

  /** Damage behind the whole records of a cut image. */
  lemma DamagedAtEnd(config: WalConfig, payloads: seq<Payload>, length: nat, damaged: seq<byte>, at: nat)
    requires ValidReaderConfig(config) && Storable(config, payloads)
    requires RecordsOffset(config) <= length <= |Image(config, payloads)|
    requires BurstAt(Image(config, payloads)[..length], damaged, at)
    requires Offset(config, WholeRecords(config, length)) <= at
    ensures Scan(damaged, config).lastValidOffset == Offset(config, WholeRecords(config, length))
    ensures Scan(damaged, config).status
         == if MustNotice(config, length, at) then ScanCorrupted else ScanIncompleteTail
  {
    hide Scan, Image, Storable, BurstAt, Recovered, Offset, RecordsOffset, AlignedRecordSize, PowerOfTwo, Noticed;
    hide WholeRecords, LeftOver;
    var file, whole := Image(config, payloads)[..length], WholeRecords(config, length);
    WholeFit(config, payloads, length);
    BurstInside(file, damaged, at);
    ImageSize(config, payloads);
    AllOf(payloads);
    ImagePrefix(config, payloads, whole + 1);
    ImageSize(config, payloads[..whole + 1]);
    OffsetNext(config, whole);
    assert payloads[..whole + 1] == payloads[..whole] + [payloads[whole]];
    assert file <= Image(config, payloads)[..Offset(config, whole + 1)];
    ScanOfDamagedTail(config, payloads[..whole], payloads[whole], file, damaged, at);
  }

  lemma AllOf(payloads: seq<Payload>)
    ensures payloads[..|payloads|] == payloads
  {}

  lemma BurstInside(file: seq<byte>, damaged: seq<byte>, at: nat)
    requires BurstAt(file, damaged, at)
    ensures at < |file| == |damaged|
  {}
}
