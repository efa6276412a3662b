/**
 * How frontiers move: in every run each store advances its location by at least
 * one and at most what the policy of its stage allows, and a durable frontier is
 * stored once for every sync.
 */
module TractCadence {
  import opened WalImage
  import opened WalScan
  import opened WalCanonical
  import opened ViewMemory
  import opened Tract
  import opened TractSafety
  import opened TractSteps

  /** The most that one store may advance a location. */
  function Stride(p: Params, l: nat): nat
    requires l < Threads(p)
  {
    if l == 0 then 1
    else
      match p.stages[l - 1]
      case SliderOf(publishCount) => publishCount
      case PersistenceOf(syncCount, _) => syncCount
  }

  ghost predicate Spaced(h: seq<Message>, stride: nat) {
    && h != [] && h[0].value == 0
    && forall i, j :: 0 <= i && j == i + 1 && j < |h| ==> h[i].value < h[j].value <= h[i].value + stride
  }

  ghost predicate AllSpaced(p: Params, m: Memory)
    requires Shape(m, Threads(p))
  {
    forall l :: 0 <= l < Threads(p) ==> Spaced(m.history[l], Stride(p, l))
  }

  /** One message was added, ahead of the last one by one to `stride`. */
  ghost predicate Advanced(h: seq<Message>, g: seq<Message>, stride: nat) {
    && h != [] && |g| == |h| + 1 && h <= g
    && h[|h| - 1].value < g[|h|].value <= h[|h| - 1].value + stride
  }

  lemma SpacedSnoc(h: seq<Message>, g: seq<Message>, stride: nat)
    requires Spaced(h, stride) && Advanced(h, g, stride)
    ensures Spaced(g, stride)
  {
    assert forall i :: 0 <= i < |h| ==> g[i] == h[i];
  }

  /** The producer's location changes only by a store of the next position. */
  lemma ProducerStores(p: Params, s: State, input: Input)
    requires Safe(p, s)
    ensures var r := ProducerStep(p, s, input);
      && (forall l :: 0 < l < Threads(p) ==> r.mem.history[l] == s.mem.history[l])
      && (r.mem.history[0] == s.mem.history[0] || Advanced(s.mem.history[0], r.mem.history[0], 1))
  {
    hide Safe, Readable, Races, Knows;
    SafeParts(p, s, 0);
  }

  /** A stage's location changes only by a store that its policy allows. */
  lemma StageStoresWithin(p: Params, s: State, t: nat, input: Input)
    requires Safe(p, s) && 0 < t < Threads(p)
    ensures var r := StageStep(p, s, t, input);
      r.mem.history[t] == s.mem.history[t] || Advanced(s.mem.history[t], r.mem.history[t], Stride(p, t))
  {
    hide Safe, StageStep, Advanced;
    if s.locals[t].control.Flushing? {
      FlushWithin(p, s, t, input);
    } else {
      OnlyFlushingStores(p, s, t, input);
    }
  }

  lemma OnlyFlushingStores(p: Params, s: State, t: nat, input: Input)
    requires Safe(p, s) && 0 < t < Threads(p) && !s.locals[t].control.Flushing?
    ensures StageStep(p, s, t, input).mem.history[t] == s.mem.history[t]
  {
    hide Safe, Readable, Races, Exhausted, RecordBytes, SequenceOf, Confined;
  }

  lemma FlushWithin(p: Params, s: State, t: nat, input: Input)
    requires Safe(p, s) && 0 < t < Threads(p) && s.locals[t].control.Flushing?
    ensures Advanced(s.mem.history[t], StageStep(p, s, t, input).mem.history[t], Stride(p, t))
  {
    hide Safe, Knows, Confined;
    SafeParts(p, s, t);
  }

  lemma StepSpaced(p: Params, s: State, move: Move)
    requires Safe(p, s) && AllSpaced(p, s.mem)
    ensures AllSpaced(p, Step(p, s, move).mem)
  {
    hide Safe, ProducerStep, StageStep, Spaced, Advanced;
    var r, t := Step(p, s, move), move.thread;
    if t >= Threads(p) {
      return;
    }
    if t == 0 {
      ProducerStores(p, s, move.input);
    } else {
      StageStoresWithin(p, s, t, move.input);
    }
    if r.mem.history[t] != s.mem.history[t] {
      SpacedSnoc(s.mem.history[t], r.mem.history[t], Stride(p, t));
    }
  }

  lemma StartSpaced(p: Params)
    requires ValidParams(p)
    ensures AllSpaced(p, Start(p).mem)
  {}

  /**
   * In every run: Head advances one position at a time, a Slider's frontier by one
   * to `publishCount` positions, a durable frontier by one to `syncCount`.
   */
  lemma {:induction false} RunSpaced(p: Params, moves: seq<Move>)
    requires ValidParams(p)
    ensures AllSpaced(p, Run(p, moves).mem)
  {
    hide Safe, Step, Start, AllSpaced;
    if moves == [] {
      StartSpaced(p);
    } else {
      var earlier := moves[..|moves| - 1];
      RunSpaced(p, earlier);
      RunSafe(p, earlier);
      StepSpaced(p, Run(p, earlier), moves[|moves| - 1]);
    }
  }

  // ----- One sync for every store of a durable frontier -----

  /**
   * A durable stage has asked for one sync per frontier store, and for one more
   * between a sync and its store, or if that sync is what it failed at.
   */
  ghost predicate SyncedOnce(stage: Stage, me: Local, stores: nat) {
    stage.PersistenceOf? ==>
      if me.file.failed then stores <= me.file.syncs <= stores + 1
      else me.file.syncs == stores + if me.control.Flushing? then 1 else 0
  }

  /** The store of the frontier, the sync, and every other step of a durable stage. */
  lemma StageSyncs(p: Params, s: State, t: nat, input: Input)
    requires Safe(p, s) && 0 < t < Threads(p)
    requires SyncedOnce(p.stages[t - 1], s.locals[t], |s.mem.history[t]| - 1)
    ensures var r := StageStep(p, s, t, input);
      SyncedOnce(p.stages[t - 1], r.locals[t], |r.mem.history[t]| - 1)
  {
    hide Safe, StageStep, Knows, Pace;
    SafeParts(p, s, t);
    if p.stages[t - 1].SliderOf? {
      return;
    }
    if s.locals[t].control.Flushing? {
      FlushSyncs(p, s, t, input);
    } else {
      OnlyFlushingStores(p, s, t, input);
      if s.locals[t].control.Syncing? {
        SyncSyncs(p, s, t, input);
      } else {
        OthersDoNotSync(p, s, t, input);
      }
    }
  }

  lemma FlushSyncs(p: Params, s: State, t: nat, input: Input)
    requires Safe(p, s) && 0 < t < Threads(p) && s.locals[t].control.Flushing?
    ensures var r := StageStep(p, s, t, input);
      && |r.mem.history[t]| == |s.mem.history[t]| + 1
      && r.locals[t].file == s.locals[t].file && !r.locals[t].control.Flushing?
  {
    hide Safe, Knows, Confined;
  }

  lemma SyncSyncs(p: Params, s: State, t: nat, input: Input)
    requires Safe(p, s) && 0 < t < Threads(p) && s.locals[t].control.Syncing?
    ensures var me := StageStep(p, s, t, input).locals[t];
      && me.file.syncs == s.locals[t].file.syncs + 1
      && (me.file.failed || me.control.Flushing?)
  {
    hide Safe, Knows, Confined;
  }

  lemma OthersDoNotSync(p: Params, s: State, t: nat, input: Input)
    requires Safe(p, s) && 0 < t < Threads(p) && p.stages[t - 1].PersistenceOf?
    requires !s.locals[t].control.Flushing? && !s.locals[t].control.Syncing?
    ensures var me := StageStep(p, s, t, input).locals[t];
      && me.file.syncs == s.locals[t].file.syncs && !me.control.Flushing?
      && (s.locals[t].file.failed ==> me.file.failed)
  {
    hide Safe, Readable, Races, Load, Touch, Exhausted, RecordBytes, SequenceOf, CallLimit, Confined;
  }

  /** A step leaves the other stages' private state and location alone. */
  lemma OtherStep(p: Params, s: State, move: Move, t: nat)
    requires Safe(p, s) && 0 < t < Threads(p) && move.thread != t
    ensures var r := Step(p, s, move);
      s.log <= r.log && r.locals[t] == s.locals[t] && r.mem.history[t] == s.mem.history[t]
  {
    hide Safe, StageStep, Readable, Races;
  }

  /**
   * In every run a durable stage that has not failed has stored its frontier once
   * for every sync, and a failed one has had at most one sync more than stores.
   */
  lemma {:induction false} RunSyncedOnce(p: Params, moves: seq<Move>, t: nat)
    requires ValidParams(p) && 0 < t < Threads(p)
    ensures var s := Run(p, moves);
      s.mem.history[t] != [] && SyncedOnce(p.stages[t - 1], s.locals[t], |s.mem.history[t]| - 1)
  {
    hide Safe, StageStep, ProducerStep, SyncedOnce;
    if moves == [] {
      StartSyncedOnce(p, t);
    } else {
      var earlier, move := moves[..|moves| - 1], moves[|moves| - 1];
      RunSyncedOnce(p, earlier, t);
      RunSafe(p, earlier);
      if move.thread == t {
        StageSyncs(p, Run(p, earlier), t, move.input);
      } else {
        OtherStep(p, Run(p, earlier), move, t);
      }
    }
  }

  lemma StartSyncedOnce(p: Params, t: nat)
    requires ValidParams(p) && 0 < t < Threads(p)
    ensures SyncedOnce(p.stages[t - 1], Start(p).locals[t], |Start(p).mem.history[t]| - 1)
  {}
}
