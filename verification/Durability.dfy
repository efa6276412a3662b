/**
 * What a log file may look like while records are being appended, and what any
 * crash leaves recoverable.
 *
 * A crash is assumed to keep a prefix of the file no shorter than the length
 * last synchronized.
 */
module Durability {
  import opened Words
  import opened WalGeometry
  import opened WalImage
  import opened WalScan
  import opened WalCanonical
  import opened WalRecovery

  /**
   * `archived` has been appended completely, `next` (at most one record) in part,
   * and the first `durable` records have been synchronized.
   */
  ghost predicate DiskHolds(
    config: WalConfig, content: seq<byte>, synced: nat, archived: seq<Payload>, next: seq<Payload>, durable: nat)
  {
    && ValidReaderConfig(config)
    && |next| <= 1
    && Storable(config, archived) && Storable(config, archived + next)
    && Image(config, archived) <= content <= Image(config, archived + next)
    && |content| < Offset(config, |archived| + 1)
    && durable <= |archived|
    && Offset(config, durable) <= synced <= |content|
  }

  lemma ValidReaderAlignment(config: WalConfig)
    requires ValidReaderConfig(config)
    ensures PowerOfTwo(config.alignment) && AlignedRecordSize(config) >= 24
  {
    hide RecordsOffset, AlignedRecordSize, PowerOfTwo;
    Geometry(config);
  }

  /** A log that has just been created. */
  lemma CreatedDisk(config: WalConfig)
    requires ValidReaderConfig(config)
    ensures DiskHolds(config, FileHead(config), |FileHead(config)|, [], [], 0)
  {
    hide ValidReaderConfig, FileHead, RecordsOffset, AlignedRecordSize, PowerOfTwo;
    ValidReaderAlignment(config);
    assert Image(config, []) == FileHead(config);
    ImageSize(config, []);
    OffsetNext(config, 0);
    var none: seq<Payload> := [];
    assert none + none == none;
  }

  /** Starting to append `payload`. */
  lemma AppendBegins(
    config: WalConfig, content: seq<byte>, synced: nat, archived: seq<Payload>, durable: nat, payload: Payload)
    requires DiskHolds(config, content, synced, archived, [], durable)
    requires !Exhausted(config, |archived|) && |payload| == config.payloadSize
    ensures content == Image(config, archived)
    ensures DiskHolds(config, content, synced, archived, [payload], durable)
    ensures Storable(config, archived + [payload])
    ensures Image(config, archived + [payload])
         == content + RecordBytes(config, SequenceOf(config, |archived|), payload)
  {
    hide ValidReaderConfig, RecordsOffset, AlignedRecordSize, Image, RecordBytes, Offset, Storable;
    assert archived + [] == archived;
    StorableSnoc(config, archived, payload);
    ImageSnoc(config, archived, payload);
  }

  /** Some more bytes of the record have reached the file. */
  lemma AppendProceeds(
    config: WalConfig, content: seq<byte>, more: seq<byte>, synced: nat, archived: seq<Payload>, durable: nat,
    payload: Payload)
    requires DiskHolds(config, content, synced, archived, [payload], durable)
    requires content <= more <= Image(config, archived + [payload])
    ensures more == Image(config, archived + [payload]) ==>
      DiskHolds(config, more, synced, archived + [payload], [], durable)
    ensures more != Image(config, archived + [payload]) ==>
      DiskHolds(config, more, synced, archived, [payload], durable)
  {
    hide ValidReaderConfig, RecordsOffset, AlignedRecordSize, Image, Offset, Storable;
    ValidReaderAlignment(config);
    ImageSize(config, archived + [payload]);
    OffsetNext(config, |archived| + 1);
    assert archived + [payload] + [] == archived + [payload];
  }

  lemma SyncCompletes(config: WalConfig, content: seq<byte>, synced: nat, archived: seq<Payload>, durable: nat)
    requires DiskHolds(config, content, synced, archived, [], durable)
    ensures DiskHolds(config, content, |content|, archived, [], |archived|)
  {
    hide ValidReaderConfig, RecordsOffset, AlignedRecordSize, Image, Offset, Storable;
    ValidReaderAlignment(config);
    ImageSize(config, archived);
  }

  /**
   * Whatever prefix a crash leaves, recovery succeeds, keeps a prefix of the
   * archived records, and that prefix contains every durable one.
   */
  lemma CrashRecovers(
    config: WalConfig, content: seq<byte>, synced: nat, archived: seq<Payload>, next: seq<Payload>, durable: nat,
    length: nat) returns (kept: nat)
    requires DiskHolds(config, content, synced, archived, next, durable)
    requires synced <= length <= |content|
    ensures durable <= kept <= |archived| && Storable(config, archived[..kept])
    ensures var recovery := Recover(content[..length], config);
      && recovery.result.status in {RecoveryClean, RecoveryRecovered}
      && recovery.result.records == kept
      && recovery.file == Image(config, archived[..kept])
      && Recovered(recovery.file, config) == archived[..kept]
  {
    hide ValidReaderConfig, RecordsOffset, AlignedRecordSize, PowerOfTwo, Image, Offset, Storable, Recover, Recovered;
    ValidReaderAlignment(config);
    var all := archived + next;
    var file := content[..length];
    OffsetNext(config, 0);
    OffsetMono(config, 0, durable);
    kept := SlotOf(config, length);
    if kept < durable {
      OffsetMono(config, kept + 1, durable);
      OffsetNext(config, kept);
    }
    if kept > |archived| {
      OffsetMono(config, |archived| + 1, kept);
    }
    OffsetNext(config, kept);
    assert all[..kept] == archived[..kept];
    ImagePrefix(config, all, kept);
    var image := Image(config, all);
    assert file == image[..length];
    assert Image(config, archived[..kept]) <= file;
    if kept < |all| {
      ImagePrefix(config, all, kept + 1);
      assert all[..kept + 1] == archived[..kept] + [all[kept]];
      assert file <= image[..Offset(config, kept + 1)];
      RecoverTorn(file, config, archived[..kept], all[kept]);
    } else {
      assert all == archived[..kept];
      ImageSize(config, all);
      assert file == image;
      RecoverClean(config, archived[..kept]);
    }
  }

  lemma RecoverClean(config: WalConfig, payloads: seq<Payload>)
    requires ValidReaderConfig(config) && Storable(config, payloads)
    ensures var recovery := Recover(Image(config, payloads), config);
      && recovery.result.status == RecoveryClean
      && recovery.result.records == |payloads|
      && recovery.file == Image(config, payloads)
      && Recovered(recovery.file, config) == payloads
  {
    hide ValidReaderConfig, Image, Storable, Recovered, Scan;
    ScanOfImage(config, payloads);
  }
}
