/**
 * What the bytes are: in every reachable state the slots hold the retained part
 * of the published log, every stage has been given exactly the published bytes of
 * positions 0, 1, 2, ..., and every durable stage's file holds what it archived.
 */
module TractData {
  import opened Words
  import opened WalGeometry
  import opened WalImage
  import opened WalScan
  import opened WalCanonical
  import opened Durability
  import opened ViewMemory
  import opened Tract
  import opened TractSafety
  import opened TractSteps
  import T = Tape
  import S = SliderStage

  /** The retained records are in their slots. */
  ghost predicate SlotsHold(p: Params, s: State)
    requires WellShaped(p, s) && p.capacity > 0
  {
    && (forall q :: 0 <= q < |s.log| ==> |s.log[q]| == p.payloadSize)
    && (forall q :: Frontier(s, TailOf(p)) <= q < |s.log| ==> s.slots[T.Slot(q, p.capacity)] == s.log[q])
  }

  /** The bytes copied so far are in the slot. */
  ghost predicate ProducerHolds(p: Params, s: State)
    requires WellShaped(p, s) && p.capacity > 0
  {
    var me := s.locals[0];
    me.control.Copying? ==>
      var payload, done := me.control.payload, me.control.done;
      && |payload| == p.payloadSize && done <= p.payloadSize
      && s.slots[T.Slot(me.current, p.capacity)][..done] == payload[..done]
  }

  /** The positions of the calls the module accepted, in call order. */
  function Accepted(calls: seq<ModuleCall>): seq<nat> {
    if calls == [] then []
    else
      var last := calls[|calls| - 1];
      Accepted(calls[..|calls| - 1]) + if last.ok then [last.position] else []
  }

  /**
   * Every call is about the first position not accepted so far and is given its
   * published bytes, so the accepted positions are 0, 1, 2, ... in order.
   */
  ghost predicate CallsHold(log: seq<Payload>, me: Local) {
    && (forall i :: 0 <= i < |me.calls| ==>
          && me.calls[i].position == |Accepted(me.calls[..i])| < |log|
          && me.calls[i].payload == log[me.calls[i].position])
    && Accepted(me.calls) == S.Upto(me.current)
  }

  /** The file of a durable stage whose published frontier is `frontier`. */
  ghost predicate FileHolds(config: WalConfig, log: seq<Payload>, me: Local, frontier: nat) {
    var f := me.file;
    && me.current <= |log| && f.archived == log[..me.current]
    && DiskHolds(config, f.content, f.synced, f.archived, f.next, frontier)
    && (me.control.Flushing? ==> DiskHolds(config, f.content, f.synced, f.archived, f.next, me.current))
    && match me.control
       case Appending(payload, written) =>
         && me.current < |log| && payload == log[me.current] && f.next == [payload]
         && !Exhausted(config, me.current) && |payload| == config.payloadSize
         && var bytes := RecordBytes(config, SequenceOf(config, me.current), payload);
            written < |bytes| && f.content == Image(config, f.archived) + bytes[..written]
       case _ => !f.failed ==> f.next == []
  }

  ghost predicate StageHolds(p: Params, s: State, t: nat)
    requires WellShaped(p, s) && 0 < t < Threads(p)
  {
    var me := s.locals[t];
    && me.current <= |s.log|
    && (match p.stages[t - 1]
        case SliderOf(_) => CallsHold(s.log, me)
        case PersistenceOf(_, config) => FileHolds(config, s.log, me, Frontier(s, t)))
    && (me.control.Viewing? ==>
          var buffer := me.control.buffer;
          && me.current < |s.log| && |buffer| <= |s.log[me.current]|
          && buffer == s.log[me.current][..|buffer|])
  }

  ghost predicate Faithful(p: Params, s: State)
    ensures Faithful(p, s) ==> Safe(p, s)
  {
    && Safe(p, s)
    && SlotsHold(p, s)
    && ProducerHolds(p, s)
    && forall t :: 0 < t < Threads(p) ==> StageHolds(p, s, t)
  }

  lemma FaithfulParts(p: Params, s: State, t: nat)
    requires Faithful(p, s) && 0 < t < Threads(p)
    ensures Safe(p, s) && SlotsHold(p, s) && ProducerHolds(p, s) && StageHolds(p, s, t)
  {
    hide Safe, SlotsHold, ProducerHolds, StageHolds;
  }

  // ----- The producer -----

  /** A longer log says the same about the positions it already had. */
  lemma StageHoldsLonger(p: Params, s: State, r: State, t: nat)
    requires WellShaped(p, s) && WellShaped(p, r) && 0 < t < Threads(p) && StageHolds(p, s, t)
    requires s.log <= r.log && r.locals[t] == s.locals[t] && r.mem.history[t] == s.mem.history[t]
    ensures StageHolds(p, r, t)
  {
    hide DiskHolds, RecordBytes, Image, Accepted;
    var me := s.locals[t];
    assert s.log[..me.current] == r.log[..me.current];
  }

  lemma WriteKeepsSlots(p: Params, s: State, slot: nat, index: nat, value: byte, position: nat)
    requires WellShaped(p, s) && p.capacity > 0 && slot < p.capacity && index < p.payloadSize
    ensures var r := WriteByte(p, s, slot, index, value, position);
      && |r.slots| == p.capacity && r.log == s.log && r.mem.history == s.mem.history && r.locals == s.locals
      && r.slots[slot] == s.slots[slot][index := value]
      && forall k :: 0 <= k < p.capacity && k != slot ==> r.slots[k] == s.slots[k]
  {
    hide Races;
  }

  /** The slot being written is not that of any retained record. */
  lemma OtherSlots(p: Params, s: State)
    requires Safe(p, s) && s.locals[0].control.Copying?
    ensures |s.log| == s.locals[0].current
    ensures forall q :: Frontier(s, TailOf(p)) <= q < |s.log| ==>
      T.Slot(q, p.capacity) != T.Slot(s.locals[0].current, p.capacity)
  {
    hide Safe, T.Slot;
    var at := s.locals[0].current;
    SafeParts(p, s, 0);
    WithinWindow(p, s, 0);
    forall q | Frontier(s, TailOf(p)) <= q < at ensures T.Slot(q, p.capacity) != T.Slot(at, p.capacity) {
      T.DistinctSlots(q, at, p.capacity);
    }
  }

  lemma CopyFaithful(p: Params, s: State, input: Input)
    requires Faithful(p, s) && s.locals[0].control.Copying? && s.locals[0].control.done < p.payloadSize
    ensures Faithful(p, ProducerStep(p, s, input))
  {
    hide Safe, StageHolds, Races;
    ProducerSafe(p, s, input);
    OtherSlots(p, s);
    var me := s.locals[0];
    var payload, done := me.control.payload, me.control.done;
    var r := ProducerStep(p, s, input);
    var slot := T.Slot(me.current, p.capacity);
    WriteKeepsSlots(p, s, slot, done, payload[done], me.current);
    assert r.slots[slot][..done + 1] == payload[..done + 1];
    forall t | 0 < t < Threads(p) ensures StageHolds(p, r, t) {
      StageHoldsLonger(p, s, r, t);
    }
  }

  lemma PublishFaithful(p: Params, s: State, input: Input)
    requires Faithful(p, s) && s.locals[0].control.Copying? && s.locals[0].control.done >= p.payloadSize
    ensures Faithful(p, ProducerStep(p, s, input))
    ensures ProducerStep(p, s, input).log == s.log + [s.locals[0].control.payload]
  {
    hide Safe, StageHolds;
    ProducerSafe(p, s, input);
    OtherSlots(p, s);
    var me := s.locals[0];
    var payload := me.control.payload;
    var r := ProducerStep(p, s, input);
    var slot := s.slots[T.Slot(me.current, p.capacity)];
    assert slot == slot[..p.payloadSize] == payload[..p.payloadSize] == payload;
    StageCount(p);
    forall t | 0 < t < Threads(p) ensures StageHolds(p, r, t) {
      StageHoldsLonger(p, s, r, t);
    }
  }

  lemma StageCount(p: Params)
    requires ValidParams(p)
    ensures 0 < TailOf(p) < Threads(p)
  {}

  lemma SlotsStay(p: Params, s: State, r: State)
    requires WellShaped(p, s) && WellShaped(p, r) && p.capacity > 0 && SlotsHold(p, s)
    requires r.slots == s.slots && r.log == s.log && Frontier(s, TailOf(p)) <= Frontier(r, TailOf(p))
    ensures SlotsHold(p, r)
  {
    hide T.Slot;
  }

  lemma ProducerChecks(p: Params, s: State, input: Input)
    requires Safe(p, s) && !s.locals[0].control.Copying?
    ensures var r := ProducerStep(p, s, input);
      && r.mem.history == s.mem.history && r.slots == s.slots && r.log == s.log
      && (forall t :: 0 < t < Threads(p) ==> r.locals[t] == s.locals[t])
      && (r.locals[0].control.Copying? ==> r.locals[0].control.done == 0)
  {
    hide Safe, Readable;
  }

  lemma FreshCopyHolds(p: Params, s: State)
    requires Safe(p, s) && (s.locals[0].control.Copying? ==> s.locals[0].control.done == 0)
    ensures ProducerHolds(p, s)
  {
    hide Safe, Knows;
    SafeParts(p, s, 0);
  }

  lemma ProducerChecksFaithful(p: Params, s: State, input: Input)
    requires Faithful(p, s) && !s.locals[0].control.Copying?
    ensures Faithful(p, ProducerStep(p, s, input))
  {
    hide Safe, StageHolds, SlotsHold, ProducerStep, ProducerHolds;
    var r := ProducerStep(p, s, input);
    ProducerSafe(p, s, input);
    ProducerChecks(p, s, input);
    SlotsStay(p, s, r);
    FreshCopyHolds(p, r);
    forall t | 0 < t < Threads(p) ensures StageHolds(p, r, t) {
      StageHoldsLonger(p, s, r, t);
    }
  }

  lemma ProducerFaithful(p: Params, s: State, input: Input)
    requires Faithful(p, s)
    ensures Faithful(p, ProducerStep(p, s, input))
  {
    hide Faithful, ProducerStep;
    if !s.locals[0].control.Copying? {
      ProducerChecksFaithful(p, s, input);
    } else if s.locals[0].control.done < p.payloadSize {
      CopyFaithful(p, s, input);
    } else {
      PublishFaithful(p, s, input);
    }
  }

  // ----- A stage -----

  /** What a step of stage `t` cannot change, and what is then left to show. */
  lemma StageAssembles(p: Params, s: State, r: State, t: nat, input: Input)
    requires Faithful(p, s) && 0 < t < Threads(p) && r == StageStep(p, s, t, input)
    requires r.slots == s.slots && r.log == s.log
    requires forall u :: 0 <= u < Threads(p) && u != t ==>
      r.locals[u] == s.locals[u] && r.mem.history[u] == s.mem.history[u]
    requires r.mem.history[t] == s.mem.history[t] || Frontier(s, t) <= Frontier(r, t)
    requires StageHolds(p, r, t)
    ensures Faithful(p, r)
  {
    hide Safe, StageHolds, SlotsHold, StageStep;
    StageSafe(p, s, t, input);
    SlotsStay(p, s, r);
    forall u | 0 < u < Threads(p) && u != t ensures StageHolds(p, r, u) {
      StageHoldsLonger(p, s, r, u);
    }
  }

  /** Where a working stage stands in the log. */
  lemma StagePosition(p: Params, s: State, t: nat)
    requires Safe(p, s) && 0 < t < Threads(p) && s.locals[t].control != Idle
    ensures Frontier(s, TailOf(p)) <= Frontier(s, t) <= s.locals[t].current <= s.locals[t].limit <= |s.log|
    ensures s.locals[t].control.Looping? || s.locals[t].control.TailLoaded? || Touching(p, s, t) ==>
      s.locals[t].current < s.locals[t].limit
  {
    hide Safe, Knows;
    SafeParts(p, s, 0);
    SafeParts(p, s, t);
    KnownIsStored(p, s, t, t - 1, s.locals[t].limit);
    FrontierOrder(p, s, 0, t - 1);
    FrontierOrder(p, s, t, TailOf(p));
  }

  /** Steps that touch neither the calls nor the file. */
  lemma StageHoldsQuietly(p: Params, s: State, r: State, t: nat)
    requires WellShaped(p, s) && WellShaped(p, r) && 0 < t < Threads(p) && StageHolds(p, s, t)
    requires r.log == s.log && r.mem.history[t] == s.mem.history[t]
    requires var me, now := s.locals[t], r.locals[t];
      && now.current == me.current && now.calls == me.calls && now.file == me.file
      && !me.control.Appending? && !now.control.Appending? && !now.control.Flushing?
      && (now.control.Viewing? ==>
            && now.current < |r.log| && |now.control.buffer| <= |r.log[now.current]|
            && now.control.buffer == r.log[now.current][..|now.control.buffer|])
    ensures StageHolds(p, r, t)
  {
    hide DiskHolds, RecordBytes, Image, Accepted;
  }

  lemma StageLoadEffect(p: Params, s: State, t: nat, input: Input)
    requires Safe(p, s) && 0 < t < Threads(p)
    requires s.locals[t].control.Idle? || s.locals[t].control.Looping? || s.locals[t].control.TailLoaded?
    ensures var r := StageStep(p, s, t, input);
      && r.mem.history == s.mem.history && r.slots == s.slots && r.log == s.log
      && (forall u :: 0 <= u < Threads(p) && u != t ==> r.locals[u] == s.locals[u])
      && r.locals[t].calls == s.locals[t].calls && r.locals[t].file == s.locals[t].file
      && r.locals[t].current == s.locals[t].current
      && (r.locals[t].control == s.locals[t].control || r.locals[t].control.Looping?
          || r.locals[t].control.TailLoaded? || (r.locals[t].control == Viewing([]) && s.locals[t].control.TailLoaded?))
  {
    hide Safe, Readable, Knows;
    SafeParts(p, s, t);
  }

  lemma StageLoadFaithful(p: Params, s: State, t: nat, input: Input)
    requires Faithful(p, s) && 0 < t < Threads(p)
    requires s.locals[t].control.Idle? || s.locals[t].control.Looping? || s.locals[t].control.TailLoaded?
    ensures Faithful(p, StageStep(p, s, t, input))
  {
    hide Safe, StageHolds, SlotsHold, StageStep;
    var r := StageStep(p, s, t, input);
    StageLoadEffect(p, s, t, input);
    if s.locals[t].control != Idle {
      StagePosition(p, s, t);
    }
    StageHoldsQuietly(p, s, r, t);
    StageAssembles(p, s, r, t, input);
  }

  lemma StageReadFaithful(p: Params, s: State, t: nat, input: Input)
    requires Faithful(p, s) && 0 < t < Threads(p)
    requires s.locals[t].control.Viewing? && |s.locals[t].control.buffer| < p.payloadSize
    ensures Faithful(p, StageStep(p, s, t, input))
  {
    hide Faithful, Safe, Races, FileHolds, CallsHold;
    FaithfulParts(p, s, t);
    var r := StageStep(p, s, t, input);
    StagePosition(p, s, t);
    var at, buffer := s.locals[t].current, s.locals[t].control.buffer;
    assert s.slots[T.Slot(at, p.capacity)] == s.log[at];
    assert r.locals[t].control.buffer == s.log[at][..|buffer| + 1];
    StageHoldsQuietly(p, s, r, t);
    StageAssembles(p, s, r, t, input);
  }

  /** Reading the view again while the record is being appended. */
  lemma StageRereadFaithful(p: Params, s: State, t: nat, input: Input)
    requires Faithful(p, s) && 0 < t < Threads(p)
    requires s.locals[t].control.Appending? && input.ok && input.amount == 0
    ensures Faithful(p, StageStep(p, s, t, input))
  {
    hide Faithful, Safe, Races, StageHolds, Exhausted;
    FaithfulParts(p, s, t);
    var r := StageStep(p, s, t, input);
    StageHoldsLonger(p, s, r, t);
    StageAssembles(p, s, r, t, input);
  }

  lemma StageStoreFaithful(p: Params, s: State, t: nat, input: Input)
    requires Faithful(p, s) && 0 < t < Threads(p) && s.locals[t].control.Flushing?
    ensures Faithful(p, StageStep(p, s, t, input))
  {
    hide Faithful, Safe, DiskHolds, RecordBytes, Image, Accepted, SlotsHold;
    FaithfulParts(p, s, t);
    var r := StageStep(p, s, t, input);
    StagePosition(p, s, t);
    assert Frontier(r, t) == s.locals[t].current;
    StageAssembles(p, s, r, t, input);
  }

  // ----- The work of a Slider -----

  lemma AcceptedSnoc(calls: seq<ModuleCall>, call: ModuleCall)
    ensures Accepted(calls + [call]) == Accepted(calls) + if call.ok then [call.position] else []
  {
    assert (calls + [call])[..|calls|] == calls;
  }

  lemma CallsHoldMore(log: seq<Payload>, me: Local, now: Local, ok: bool)
    requires CallsHold(log, me) && me.current < |log|
    requires now.calls == me.calls + [ModuleCall(me.current, log[me.current], ok)]
    requires now.current == if ok then me.current + 1 else me.current
    ensures CallsHold(log, now)
  {
    hide Accepted;
    AcceptedSnoc(me.calls, ModuleCall(me.current, log[me.current], ok));
    assert now.calls[..|me.calls|] == me.calls;
    forall i | 0 <= i < |me.calls| ensures now.calls[..i] == me.calls[..i] {}
    assert S.Upto(me.current + 1) == S.Upto(me.current) + [me.current];
  }

  lemma SliderHandleFaithful(p: Params, s: State, t: nat, input: Input)
    requires Faithful(p, s) && 0 < t < Threads(p) && p.stages[t - 1].SliderOf?
    requires s.locals[t].control.Viewing? && |s.locals[t].control.buffer| >= p.payloadSize
    ensures Faithful(p, StageStep(p, s, t, input))
  {
    hide Faithful, Safe, CallsHold, FileHolds, SlotsHold;
    FaithfulParts(p, s, t);
    SizesHold(p, s);
    var r := StageStep(p, s, t, input);
    StagePosition(p, s, t);
    var me := s.locals[t];
    assert me.control.buffer == s.log[me.current];
    CallsHoldMore(s.log, me, r.locals[t], input.ok);
    StageAssembles(p, s, r, t, input);
  }

  // ----- The work of a durable stage -----

  /** A step of a durable stage that changes only its own state. */
  lemma PersistenceAssembles(p: Params, s: State, t: nat, input: Input, now: Local)
    requires Faithful(p, s) && 0 < t < Threads(p) && p.stages[t - 1].PersistenceOf?
    requires StageStep(p, s, t, input) == SetLocal(s, t, now)
    requires now.current <= |s.log| && !now.control.Viewing?
    requires FileHolds(p.stages[t - 1].config, s.log, now, Frontier(s, t))
    ensures Faithful(p, StageStep(p, s, t, input))
  {
    hide Faithful, Safe, FileHolds, StageStep;
    FaithfulParts(p, s, t);
    StageAssembles(p, s, SetLocal(s, t, now), t, input);
  }

  /** The checks before a durable stage writes. */
  function Archiving(config: WalConfig, me: Local, payload: Payload): Local {
    if Exhausted(config, me.current) then me.(control := Idle, file := me.file.(failed := true))
    else me.(control := Appending(payload, 0), file := me.file.(next := [payload]))
  }

  lemma PersistenceHandles(p: Params, s: State, t: nat, input: Input)
    requires Safe(p, s) && 0 < t < Threads(p) && p.stages[t - 1].PersistenceOf?
    requires s.locals[t].control.Viewing? && |s.locals[t].control.buffer| >= p.payloadSize
    ensures StageStep(p, s, t, input)
         == SetLocal(s, t, Archiving(p.stages[t - 1].config, s.locals[t], s.locals[t].control.buffer))
  {
    hide Safe, Exhausted;
  }

  lemma PersistenceHandleFaithful(p: Params, s: State, t: nat, input: Input)
    requires Faithful(p, s) && 0 < t < Threads(p) && p.stages[t - 1].PersistenceOf?
    requires s.locals[t].control.Viewing? && |s.locals[t].control.buffer| >= p.payloadSize
    ensures Faithful(p, StageStep(p, s, t, input))
  {
    hide Faithful, Safe, FileHolds, Exhausted, SlotsHold, StageStep, ProducerHolds;
    FaithfulParts(p, s, t);
    StagePosition(p, s, t);
    SizesHold(p, s);
    PersistenceHandles(p, s, t, input);
    var me := s.locals[t];
    var config := p.stages[t - 1].config;
    assert me.control.buffer == s.log[me.current];
    SafeParts(p, s, t);
    assert ValidStage(p.payloadSize, p.stages[t - 1]);
    var now := Archiving(config, me, s.log[me.current]);
    if Exhausted(config, me.current) {
      FileFails(config, s.log, me, now, Frontier(s, t));
    } else {
      FileStarts(config, s.log, me, Frontier(s, t));
    }
    PersistenceAssembles(p, s, t, input, now);
  }

  lemma SizesHold(p: Params, s: State)
    requires WellShaped(p, s) && p.capacity > 0 && SlotsHold(p, s)
    ensures forall q :: 0 <= q < |s.log| ==> |s.log[q]| == p.payloadSize
  {}

  /** A stage whose write or sync has just failed. */
  function GivenUp(me: Local): Local {
    var syncs := me.file.syncs + if me.control.Syncing? then 1 else 0;
    me.(control := Idle, file := me.file.(failed := true, syncs := syncs))
  }

  /** A stage whose sync has just succeeded. */
  function Synced(me: Local): Local {
    me.(control := Flushing(true), file := me.file.(synced := |me.file.content|, syncs := me.file.syncs + 1))
  }

  /** Giving up leaves the file as it is. */
  lemma FileFails(config: WalConfig, log: seq<Payload>, me: Local, now: Local, frontier: nat)
    requires FileHolds(config, log, me, frontier)
    requires now == GivenUp(me) || now == me.(control := Idle, file := me.file.(failed := true))
    ensures FileHolds(config, log, now, frontier)
  {
    hide DiskHolds, RecordBytes, Image;
  }

  lemma FileStarts(config: WalConfig, log: seq<Payload>, me: Local, frontier: nat)
    requires FileHolds(config, log, me, frontier)
    requires me.control.Viewing? && !me.file.failed && me.current < |log| && |log[me.current]| == config.payloadSize
    ensures !Exhausted(config, me.current) ==>
      FileHolds(config, log,
        me.(control := Appending(log[me.current], 0), file := me.file.(next := [log[me.current]])), frontier)
  {
    hide DiskHolds, RecordBytes, Image, Exhausted;
    if !Exhausted(config, me.current) {
      AppendBegins(config, me.file.content, me.file.synced, me.file.archived, frontier, log[me.current]);
      RecordBytesNotEmpty(config, SequenceOf(config, me.current), log[me.current]);
    }
  }

  lemma RecordBytesNotEmpty(config: WalConfig, sequence: u64, payload: Payload)
    ensures |RecordBytes(config, sequence, payload)| > 0
  {
    hide Zeros;
  }

  /** One successful `write` that transfers `amount` of the remaining bytes, or all of them. */
  function Written(config: WalConfig, me: Local, amount: nat): Local
    requires me.control.Appending? && !Exhausted(config, me.current)
    requires me.control.written < |RecordBytes(config, SequenceOf(config, me.current), me.control.payload)|
  {
    var payload, written := me.control.payload, me.control.written;
    var bytes := RecordBytes(config, SequenceOf(config, me.current), payload);
    var done := Min(written + amount, |bytes|);
    var file := me.file.(content := me.file.content + bytes[written..done]);
    if done < |bytes| then me.(control := Appending(payload, done), file := file)
    else me.(
      current := me.current + 1,
      control := if me.current + 1 == me.limit then Syncing else Looping,
      file := file.(archived := file.archived + [payload], next := []))
  }

  lemma PersistenceWrites(p: Params, s: State, t: nat, input: Input)
    requires Safe(p, s) && 0 < t < Threads(p) && p.stages[t - 1].PersistenceOf? && s.locals[t].control.Appending?
    requires input.ok && input.amount > 0
    requires !Exhausted(p.stages[t - 1].config, s.locals[t].current)
    requires var config, me := p.stages[t - 1].config, s.locals[t];
      me.control.written < |RecordBytes(config, SequenceOf(config, me.current), me.control.payload)|
    ensures StageStep(p, s, t, input) == SetLocal(s, t, Written(p.stages[t - 1].config, s.locals[t], input.amount))
  {
    hide Safe, Exhausted, SequenceOf, RecordBytes;
  }

  lemma FileGrows(config: WalConfig, log: seq<Payload>, me: Local, amount: nat, frontier: nat)
    requires FileHolds(config, log, me, frontier) && me.control.Appending? && !me.file.failed
    requires me.control.written < |RecordBytes(config, SequenceOf(config, me.current), me.control.payload)|
    ensures FileHolds(config, log, Written(config, me, amount), frontier)
  {
    hide DiskHolds, RecordBytes, Image, Exhausted, SequenceOf;
    var f, payload, written := me.file, me.control.payload, me.control.written;
    var bytes := RecordBytes(config, SequenceOf(config, me.current), payload);
    var done := Min(written + amount, |bytes|);
    var more := f.content + bytes[written..done];
    assert |f.archived| == me.current;
    NextImage(config, f.content, f.synced, f.archived, frontier, payload);
    var base := Image(config, f.archived);
    assert more == base + bytes[..done];
    AppendProceeds(config, f.content, more, f.synced, f.archived, frontier, payload);
    if done == |bytes| {
      assert bytes[..done] == bytes;
      assert log[..me.current + 1] == log[..me.current] + [payload];
    } else {
      assert more != base + bytes;
    }
  }

  lemma NextImage(
    config: WalConfig, content: seq<byte>, synced: nat, archived: seq<Payload>, durable: nat, payload: Payload)
    requires DiskHolds(config, content, synced, archived, [payload], durable) && !Exhausted(config, |archived|)
    ensures Storable(config, archived) && Storable(config, archived + [payload])
    ensures Image(config, archived + [payload])
         == Image(config, archived) + RecordBytes(config, SequenceOf(config, |archived|), payload)
  {
    hide Image, RecordBytes;
    ImageSnoc(config, archived, payload);
  }

  /** What is known of a durable stage at work. */
  lemma PersistenceAtWork(p: Params, s: State, t: nat)
    requires Faithful(p, s) && 0 < t < Threads(p) && p.stages[t - 1].PersistenceOf? && s.locals[t].control != Idle
    ensures Safe(p, s)
    ensures var me := s.locals[t];
      && !me.file.failed && Frontier(s, t) <= me.current <= |s.log|
      && (me.control.Appending? ==> me.current < |s.log|)
      && FileHolds(p.stages[t - 1].config, s.log, me, Frontier(s, t))
  {
    hide Faithful, Safe, SlotsHold, ProducerHolds, FileHolds, Knows, Pace;
    FaithfulParts(p, s, t);
    SafeParts(p, s, t);
    StagePosition(p, s, t);
  }

  lemma FileAppending(config: WalConfig, log: seq<Payload>, me: Local, frontier: nat)
    requires FileHolds(config, log, me, frontier) && me.control.Appending?
    ensures !Exhausted(config, me.current)
    ensures me.control.written < |RecordBytes(config, SequenceOf(config, me.current), me.control.payload)|
  {
    hide RecordBytes, Image, DiskHolds, Exhausted;
  }

  lemma PersistenceWriteFaithful(p: Params, s: State, t: nat, input: Input)
    requires Faithful(p, s) && 0 < t < Threads(p) && p.stages[t - 1].PersistenceOf? && s.locals[t].control.Appending?
    requires !(input.ok && input.amount == 0)
    ensures Faithful(p, StageStep(p, s, t, input))
  {
    hide Faithful, Safe, FileHolds, Exhausted, StageStep, RecordBytes, SequenceOf;
    PersistenceAtWork(p, s, t);
    var me, config := s.locals[t], p.stages[t - 1].config;
    FileAppending(config, s.log, me, Frontier(s, t));
    if input.ok {
      PersistenceWrites(p, s, t, input);
      FileGrows(config, s.log, me, input.amount, Frontier(s, t));
      PersistenceAssembles(p, s, t, input, Written(config, me, input.amount));
    } else {
      PersistenceGivesUp(p, s, t, input);
      FileFails(config, s.log, me, GivenUp(me), Frontier(s, t));
      PersistenceAssembles(p, s, t, input, GivenUp(me));
    }
  }

  /** A failed `write` or `sync` ends all work on the file. */
  lemma PersistenceGivesUp(p: Params, s: State, t: nat, input: Input)
    requires Safe(p, s) && 0 < t < Threads(p) && p.stages[t - 1].PersistenceOf? && !input.ok
    requires s.locals[t].control.Syncing?
      || (s.locals[t].control.Appending? && !Exhausted(p.stages[t - 1].config, s.locals[t].current))
    ensures StageStep(p, s, t, input) == SetLocal(s, t, GivenUp(s.locals[t]))
  {
    hide Safe, Exhausted;
  }

  lemma FileSynced(config: WalConfig, log: seq<Payload>, me: Local, frontier: nat)
    requires FileHolds(config, log, me, frontier) && me.control.Syncing? && !me.file.failed && frontier <= me.current
    ensures FileHolds(config, log, Synced(me), frontier)
  {
    hide RecordBytes, Image, Exhausted, Offset, Storable;
    var f := me.file;
    SyncCompletes(config, f.content, f.synced, f.archived, frontier);
    OffsetMono(config, frontier, me.current);
  }

  lemma PersistenceSyncFaithful(p: Params, s: State, t: nat, input: Input)
    requires Faithful(p, s) && 0 < t < Threads(p) && p.stages[t - 1].PersistenceOf? && s.locals[t].control.Syncing?
    ensures Faithful(p, StageStep(p, s, t, input))
  {
    hide Faithful, Safe, FileHolds, StageStep;
    PersistenceAtWork(p, s, t);
    var me, config := s.locals[t], p.stages[t - 1].config;
    if input.ok {
      SyncEffect(p, s, t, input);
      FileSynced(config, s.log, me, Frontier(s, t));
      PersistenceAssembles(p, s, t, input, Synced(me));
    } else {
      PersistenceGivesUp(p, s, t, input);
      FileFails(config, s.log, me, GivenUp(me), Frontier(s, t));
      PersistenceAssembles(p, s, t, input, GivenUp(me));
    }
  }

  lemma SyncEffect(p: Params, s: State, t: nat, input: Input)
    requires Safe(p, s) && 0 < t < Threads(p) && s.locals[t].control.Syncing? && input.ok
    ensures StageStep(p, s, t, input) == SetLocal(s, t, Synced(s.locals[t]))
  {
    hide Safe;
  }

  // ----- Every run -----

  lemma StageFaithful(p: Params, s: State, t: nat, input: Input)
    requires Faithful(p, s) && 0 < t < Threads(p)
    ensures Faithful(p, StageStep(p, s, t, input))
  {
    hide Faithful, Safe, StageStep, Knows;
    SafeParts(p, s, t);
    match s.locals[t].control
    case Idle => StageLoadFaithful(p, s, t, input);
    case Looping => StageLoadFaithful(p, s, t, input);
    case TailLoaded(_) => StageLoadFaithful(p, s, t, input);
    case Viewing(buffer) =>
      if |buffer| < p.payloadSize {
        StageReadFaithful(p, s, t, input);
      } else if p.stages[t - 1].SliderOf? {
        SliderHandleFaithful(p, s, t, input);
      } else {
        PersistenceHandleFaithful(p, s, t, input);
      }
    case Appending(_, _) =>
      if input.ok && input.amount == 0 {
        StageRereadFaithful(p, s, t, input);
      } else {
        PersistenceWriteFaithful(p, s, t, input);
      }
    case Syncing => PersistenceSyncFaithful(p, s, t, input);
    case Flushing(_) => StageStoreFaithful(p, s, t, input);
  }

  lemma StepFaithful(p: Params, s: State, move: Move)
    requires Faithful(p, s)
    ensures Faithful(p, Step(p, s, move))
  {
    hide Faithful, Safe, ProducerStep, StageStep;
    if move.thread == 0 {
      ProducerFaithful(p, s, move.input);
    } else if move.thread < Threads(p) {
      StageFaithful(p, s, move.thread, move.input);
    }
  }

  lemma StartFaithful(p: Params)
    requires ValidParams(p)
    ensures Faithful(p, Start(p))
  {
    hide Safe, FileHead, DiskHolds, ValidReaderConfig;
    StartSafe(p);
    var s := Start(p);
    forall t | 0 < t < Threads(p) ensures StageHolds(p, s, t) {
      assert ValidStage(p.payloadSize, p.stages[t - 1]);
      if p.stages[t - 1].PersistenceOf? {
        CreatedDisk(p.stages[t - 1].config);
      }
    }
  }

  /** In every run the bytes are right. */
  lemma {:induction false} RunFaithful(p: Params, moves: seq<Move>)
    requires ValidParams(p)
    ensures Faithful(p, Run(p, moves))
  {
    hide Faithful, Step, Start;
    if moves == [] {
      StartFaithful(p);
    } else {
      RunFaithful(p, moves[..|moves| - 1]);
      StepFaithful(p, Run(p, moves[..|moves| - 1]), moves[|moves| - 1]);
    }
  }
}
