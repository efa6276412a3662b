/**
 * The durable stage: append a batch, synchronize it, publish it; and once
 * anything fails, do nothing ever again.
 */
module PersistenceStage {
  import opened Words
  import opened WalGeometry
  import opened WalFormat
  import opened WalImage
  import opened WalLayout
  import opened WalScan
  import opened WalCanonical
  import opened PhysicalFile
  import opened Durability
  import T = Tape
  import S = SliderStage

  datatype PhysicalWalConfig = PhysicalWalConfig(
    alignment: u32,
    payloadSchemaVersion: u32,
    streamKind: u16,
    streamId: u64,
    epochId: u64,
    firstSequence: u64,
    manifestId: u64)

  class Persistence {
    const tape: T.RecordTape
    const upstream: T.Frontier
    const frontier: T.Frontier
    const syncCount: u64
    var adapter: PhysicalWalAdapter?
    var firstSequence: u64
    var failed: bool
    var openedOnce: bool
    ghost var archived: seq<Payload>  // the records appended completely
    ghost var next: seq<Payload>      // the record a failed append left incomplete, if any

    predicate IsOpen()
      reads this, adapter
    {
      adapter != null && adapter.isOpen
    }

    /** The file holds the first `current` records, all but the last of them durable up to the frontier. */
    ghost predicate Holding(current: nat)
      requires adapter != null
      reads this, adapter, adapter.disk, frontier
    {
      && openedOnce && syncCount > 0
      && adapter.Valid() && adapter.isOpen
      && adapter.config.firstSequence == firstSequence
      && DiskHolds(adapter.config, adapter.disk.content, adapter.disk.synced, archived, next, frontier.value)
      && (!failed ==> next == [] && |archived| == current)
    }

    ghost predicate Valid()
      reads this, adapter, if adapter == null then {} else {adapter.disk}, frontier
    {
      && syncCount > 0 && frontier != upstream && frontier != tape.head
      && (IsOpen() ==> Holding(frontier.value))
    }

    /** The chain of frontiers in a correctly wired tract, seen from this stage. */
    ghost predicate Wired(availableEnd: nat)
      reads this, adapter, tape, tape.head, tape.tail, tape.data, frontier
    {
      && IsOpen()
      && tape.Valid() && tape.isOpen
      && tape.payloadSize == adapter.config.payloadSize
      && tape.tail.value <= frontier.value <= availableEnd <= tape.head.value
      && tape.head.value <= tape.tail.value + tape.capacity
    }

    constructor (tape: T.RecordTape, upstream: T.Frontier, syncCount: u64)
      requires syncCount > 0
      ensures Valid() && !IsOpen() && !openedOnce && !failed
      ensures this.tape == tape && this.upstream == upstream && this.syncCount == syncCount
      ensures fresh(frontier) && frontier.value == 0
    {
      var own := new T.Frontier();
      this.tape, this.upstream, this.frontier, this.syncCount := tape, upstream, own, syncCount;
      adapter := null;
      firstSequence := 0;
      failed, openedOnce := false, false;
      archived, next := [], [];
    }

    /**
     * A log is created for the payload size of the tape and the identity given, and
     * the file says so field by field.
     */
    method Open(disk: Disk, config: PhysicalWalConfig) returns (status: OpenStatus)
      requires Valid() && disk.Valid()
      requires tape.isOpen && (IsOpen() || !openedOnce)
      requires !IsOpen() ==> frontier.value == 0 && archived == [] && next == []
      modifies this, disk
      ensures Valid()
      ensures old(IsOpen()) <==> status == OpenAlreadyOpen
      ensures status == OpenAlreadyOpen ==> IsOpen() && adapter == old(adapter) && failed == old(failed)
      ensures !old(IsOpen()) ==>
        (status != OpenInvalidConfig <==>
          && tape.payloadSize != 0 && config.firstSequence != 0
          && (exists k: nat :: 3 <= k <= 31 && config.alignment == Pow2(k))
          && config.streamKind in {0, 1, 2}
          && (config.streamKind != 0 ==> config.streamId != 0 && config.epochId != 0 && config.manifestId != 0))
      ensures status == OpenFileAlreadyExists <==>
        status != OpenAlreadyOpen && status != OpenInvalidConfig && old(disk.present)
      ensures status in {OpenOk, OpenInvalidConfig, OpenIoError, OpenFileAlreadyExists, OpenAlreadyOpen}
      ensures status in {OpenInvalidConfig, OpenFileAlreadyExists, OpenAlreadyOpen} ==>
        disk.present == old(disk.present) && disk.content == old(disk.content) && disk.synced == old(disk.synced)
      ensures status !in {OpenOk, OpenAlreadyOpen} ==> !IsOpen()
      ensures status == OpenOk ==>
        && IsOpen() && !failed && adapter.disk == disk && archived == []
        && adapter.config.payloadSize == tape.payloadSize && firstSequence == config.firstSequence
        && disk.present && disk.content == FileHead(adapter.config) && disk.synced == |disk.content|
      ensures status == OpenOk ==> |disk.content| >= 64
      ensures status == OpenOk ==>
        var header := DeserializeFileHeader(disk.content[..64]);
        && header.payloadSize == tape.payloadSize
        && header.payloadSchemaVersion == config.payloadSchemaVersion
        && header.alignment == config.alignment && header.recordsOffset == |disk.content|
        && header.streamKind == config.streamKind && header.flags == 0
        && header.streamId == config.streamId && header.epochId == config.epochId
        && header.firstSequence == config.firstSequence && header.manifestId == config.manifestId
    {
      hide ValidConfig, FileHead, DiskHolds, DeserializeFileHeader, Pow2;
      if IsOpen() {
        return OpenAlreadyOpen;
      }
      var adapterConfig := WalConfig(
        tape.payloadSize, 1, config.alignment, config.payloadSchemaVersion, config.streamKind,
        config.streamId, config.epochId, config.firstSequence, config.manifestId);
      ValidConfigNeverOverflows(adapterConfig);
      if !ValidConfig(adapterConfig) {
        return OpenInvalidConfig;
      }
      var physical := new PhysicalWalAdapter(disk, adapterConfig);
      status := physical.Create(adapterConfig);
      if status != OpenOk {
        adapter := null;
        return;
      }
      adapter := physical;
      firstSequence := config.firstSequence;
      openedOnce := true;
      failed := false;
      assert adapterConfig.(capacity := 1) == adapterConfig;
      CreatedDisk(adapterConfig);
      AlignmentIsPower(config.alignment);
      FileHeadFields(adapterConfig);
    }

    method Append(position: u64, payload: Payload) returns (ok: bool)
      requires adapter != null && Holding(position) && |payload| == adapter.config.payloadSize
      modifies this`failed, this`archived, this`next, adapter.disk`content, adapter.disk`interrupts
      ensures Holding(if ok then position + 1 else position)
      ensures ok ==> !failed && archived == old(archived) + [payload]
      ensures !ok ==> failed && archived == old(archived)
      ensures old(failed) || position > U64_MAX - firstSequence ==>
        !ok && adapter.disk.content == old(adapter.disk.content) && archived == old(archived)
    {
      hide DiskHolds, Image, RecordBytes, Storable, Exhausted;
      if failed {
        return false;
      }
      if position > U64_MAX - firstSequence {
        failed := true;
        return false;
      }
      InSequence(adapter.config, position);
      ghost var content, synced := adapter.disk.content, adapter.disk.synced;
      AppendBegins(adapter.config, content, synced, archived, frontier.value, payload);
      ok := adapter.AppendRecord(firstSequence + position, payload);
      AppendProceeds(adapter.config, content, adapter.disk.content, synced, archived, frontier.value, payload);
      if ok {
        archived := archived + [payload];
      } else {
        next := [payload];
        failed := true;
      }
    }

    static lemma InSequence(config: WalConfig, position: nat)
      requires position <= U64_MAX - config.firstSequence
      ensures !Exhausted(config, position) && SequenceOf(config, position) == config.firstSequence + position
    {}

    method Sync() returns (ok: bool)
      requires adapter != null && Holding(|archived|)
      modifies this`failed, adapter.disk`synced, adapter.disk`syncCalls
      ensures Holding(|archived|)
      ensures old(failed) ==> !ok && adapter.disk.synced == old(adapter.disk.synced)
      ensures adapter.disk.syncCalls == old(adapter.disk.syncCalls) + if old(failed) then 0 else 1
      ensures failed == !ok
      ensures ok ==> DiskHolds(
        adapter.config, adapter.disk.content, adapter.disk.synced, archived, [], |archived|)
    {
      hide DiskHolds;
      if failed {
        return false;
      }
      ghost var config, content, synced := adapter.config, adapter.disk.content, adapter.disk.synced;
      SyncCompletes(config, content, synced, archived, frontier.value);
      SyncKeeps(config, content, synced, archived, frontier.value);
      ok := adapter.Sync();
      if !ok {
        failed := true;
      }
    }

    static lemma SyncKeeps(config: WalConfig, content: seq<byte>, synced: nat, archived: seq<Payload>, durable: nat)
      requires DiskHolds(config, content, synced, archived, [], durable)
      ensures DiskHolds(config, content, |content|, archived, [], durable)
    {
      hide ValidReaderConfig, Image, Offset, Storable;
    }

    /** One batch: a failure stops everything before the frontier moves. */
    method ProcessUntil(availableEnd: u64) returns (status: S.SliderStatus)
      requires Valid() && Wired(availableEnd)
      modifies this`failed, this`archived, this`next, frontier
      modifies adapter.disk`content, adapter.disk`interrupts, adapter.disk`synced, adapter.disk`syncCalls
      ensures Valid() && IsOpen() && adapter == old(adapter) && Wired(availableEnd)
      ensures old(failed) || availableEnd == old(frontier.value) ==>
        && status == (if old(failed) then S.ModuleFailed else S.Empty)
        && failed == old(failed) && frontier.value == old(frontier.value) && archived == old(archived)
        && adapter.disk.content == old(adapter.disk.content)
        && adapter.disk.synced == old(adapter.disk.synced)
        && adapter.disk.syncCalls == old(adapter.disk.syncCalls)
      ensures availableEnd <= |tape.log|
      ensures !old(failed) && availableEnd > old(frontier.value) ==>
        && status == (if failed then S.ModuleFailed else S.Processed)
        && (failed ==>
              && frontier.value == old(frontier.value)
              && old(archived) <= archived <= old(archived) + tape.log[old(frontier.value)..availableEnd])
        && (!failed ==>
              && frontier.value == old(frontier.value) + Min(availableEnd - old(frontier.value), syncCount)
              && archived == old(archived) + tape.log[old(frontier.value)..frontier.value]
              && adapter.disk.syncCalls == old(adapter.disk.syncCalls) + 1)
    {
      hide DiskHolds, T.RecordTape.Holds;
      if failed {
        return S.ModuleFailed;
      }
      var current := frontier.value;
      if availableEnd == current {
        return S.Empty;
      }
      var count: u64 := Min(availableEnd - current, syncCount);
      var batchEnd: u64 := current + count;
      var appended := AppendBatch(batchEnd, availableEnd);
      if !appended {
        return S.ModuleFailed;
      }
      assert tape.log[current..batchEnd] <= tape.log[current..availableEnd];
      var synced := Sync();
      if !synced {
        return S.ModuleFailed;
      }
      frontier.Store(batchEnd);
      status := S.Processed;
    }

    /** The loop over one batch; what was appended before a failure stays. */
    method AppendBatch(batchEnd: u64, availableEnd: u64) returns (ok: bool)
      requires Valid() && Wired(availableEnd) && !failed && frontier.value <= batchEnd <= availableEnd
      modifies this`failed, this`archived, this`next, adapter.disk`content, adapter.disk`interrupts
      ensures IsOpen() && Wired(availableEnd) && Holding(if ok then batchEnd else frontier.value)
      ensures ok ==> archived == old(archived) + tape.log[frontier.value..batchEnd]
      ensures !ok ==> old(archived) <= archived <= old(archived) + tape.log[frontier.value..availableEnd]
      ensures failed == !ok
    {
      hide DiskHolds, T.RecordTape.Holds;
      ghost var start, before, log := frontier.value, archived, tape.log;
      var current := frontier.value;
      while current < batchEnd
        invariant start <= current <= batchEnd
        invariant Holding(current) && !failed && Wired(availableEnd)
        invariant archived == before + log[start..current]
      {
        var viewed, view := tape.TryView(current);
        assert viewed == T.ViewOk && view.Bytes() == log[current];
        assert log[start..current] <= log[start..availableEnd];
        var appended := Append(current, view.Bytes());
        if !appended {
          return false;
        }
        assert log[start..current + 1] == log[start..current] + [log[current]];
        current := current + 1;
      }
      ok := true;
    }

    lemma LogReaches(availableEnd: nat)
      requires Wired(availableEnd)
      ensures frontier.value <= availableEnd <= |tape.log|
    {
      hide T.RecordTape.Holds;
    }

    /** One call: it is over, it fails for good, or it takes the stage one batch and one sync nearer to the end. */
    method Process() returns (status: S.SliderStatus)
      requires Valid() && Wired(upstream.value)
      modifies this`failed, this`archived, this`next, frontier
      modifies adapter.disk`content, adapter.disk`interrupts, adapter.disk`synced, adapter.disk`syncCalls
      ensures Valid() && IsOpen() && adapter == old(adapter) && Wired(upstream.value)
      ensures old(failed) ==> failed && adapter.disk.content == old(adapter.disk.content)
      ensures status == S.Empty <==> !old(failed) && upstream.value == old(frontier.value)
      ensures status == S.Empty ==> adapter.disk.syncCalls == old(adapter.disk.syncCalls) && archived == old(archived)
      ensures status == S.ModuleFailed <==> failed
      ensures status != S.Processed ==> frontier.value == old(frontier.value)
      ensures status == S.Processed ==>
        && frontier.value == old(frontier.value) + Min(upstream.value - old(frontier.value), syncCount)
        && adapter.disk.syncCalls == old(adapter.disk.syncCalls) + 1
        && old(frontier.value) <= frontier.value <= |tape.log|
        && archived == old(archived) + tape.log[old(frontier.value)..frontier.value]
    {
      hide DiskHolds, T.RecordTape.Valid, Holding, Wired;
      LogReaches(upstream.value);
      assert upstream != frontier;
      hide *;
      var availableEnd := upstream.value;
      status := ProcessUntil(availableEnd);
    }

    /**
     * Calls `process` until nothing is left. Unless the stage fails on the way, this
     * takes exactly `CallsToDrain` successful calls with one sync each.
     */
    method Drain() returns (calls: nat)
      requires Valid() && Wired(upstream.value) && !failed
      modifies this`failed, this`archived, this`next, frontier
      modifies adapter.disk`content, adapter.disk`interrupts, adapter.disk`synced, adapter.disk`syncCalls
      ensures Valid() && IsOpen() && adapter == old(adapter) && Wired(upstream.value)
      ensures !failed ==>
        && frontier.value == upstream.value
        && calls == CallsToDrain(upstream.value - old(frontier.value), syncCount)
        && adapter.disk.syncCalls == old(adapter.disk.syncCalls) + calls
        && upstream.value <= |tape.log|
        && archived == old(archived) + tape.log[old(frontier.value)..upstream.value]
      ensures old(frontier.value) <= frontier.value <= upstream.value
      decreases upstream.value - frontier.value
    {
      hide DiskHolds, CallsToDrain, T.RecordTape.Valid, Holding, Wired;
      LogReaches(upstream.value);
      assert upstream != frontier;
      hide *;
      ghost var start, end, log, before := frontier.value, upstream.value, tape.log, archived;
      var status := Process();
      if status != S.Processed {
        NothingToDrain(syncCount);
        assert log[start..start] == [] && before + [] == before;
        return 0;
      }
      ghost var reached := frontier.value;
      OneCallLess(end - start, syncCount);
      var rest := Drain();
      calls := 1 + rest;
      assert log[start..reached] + log[reached..end] == log[start..end];
    }
  }

  /** Successful calls needed to drain `pending` records. */
  function CallsToDrain(pending: nat, syncCount: nat): nat
    requires syncCount > 0
  {
    if pending == 0 then 0 else 1 + CallsToDrain(pending - Min(pending, syncCount), syncCount)
  }

  lemma NothingToDrain(syncCount: nat)
    requires syncCount > 0
    ensures CallsToDrain(0, syncCount) == 0
  {}

  /** What a successful call does to the frontier takes exactly one off the number of calls left. */
  lemma OneCallLess(pending: nat, syncCount: nat)
    requires syncCount > 0 && pending > 0
    ensures CallsToDrain(pending, syncCount) == CallsToDrain(pending - Min(pending, syncCount), syncCount) + 1
  {}

  /** That is the quotient rounded up. */
  lemma {:induction false} DrainIsCeiling(pending: nat, syncCount: nat)
    requires syncCount > 0
    ensures var calls := CallsToDrain(pending, syncCount);
      (calls == 0 <==> pending == 0) && pending <= calls * syncCount < pending + syncCount
    decreases pending
  {
    if pending > 0 {
      DrainIsCeiling(pending - Min(pending, syncCount), syncCount);
      var rest := CallsToDrain(pending - Min(pending, syncCount), syncCount);
      assert (1 + rest) * syncCount == syncCount + rest * syncCount;
    }
  }
}
