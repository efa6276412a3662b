/**
 * What the tract and the log promise together, for every run.
 */
module EndToEnd {
  import opened Words
  import opened WalGeometry
  import opened WalImage
  import opened WalScan
  import opened WalCanonical
  import opened WalRecovery
  import opened Durability
  import opened ViewMemory
  import opened Tract
  import opened TractSafety
  import opened TractSteps
  import opened TractData
  import opened TractCadence
  import S = SliderStage
  import T = Tape

  // ----- Later states -----

  /** A prefix of a run is an earlier state of it. */
  lemma RunSnoc(p: Params, before: seq<Move>, after: seq<Move>)
    requires ValidParams(p) && after != []
    ensures Run(p, before + after)
         == Step(p, Run(p, before + after[..|after| - 1]), after[|after| - 1])
  {
    hide Step, Run;
    var all := before + after;
    assert all[..|all| - 1] == before + after[..|after| - 1];
    assert all[|all| - 1] == after[|after| - 1];
    RunUnfold(p, all);
  }

  lemma RunUnfold(p: Params, moves: seq<Move>)
    requires ValidParams(p) && moves != []
    ensures Run(p, moves) == Step(p, Run(p, moves[..|moves| - 1]), moves[|moves| - 1])
  {
    hide Step, Start;
  }

  /** The log and the frontier of `t` did not shrink, and a failed stage `t` is as it was. */
  ghost predicate Grown(p: Params, s: State, r: State, t: nat)
    requires WellShaped(p, s) && WellShaped(p, r) && t < Threads(p)
  {
    && s.log <= r.log
    && Frontier(s, t) <= Frontier(r, t)
    && (s.locals[t].file.failed ==> r.locals[t] == s.locals[t] && Frontier(r, t) == Frontier(s, t))
  }

  lemma StepGrows(p: Params, s: State, move: Move, t: nat)
    requires Safe(p, s) && 0 < t < Threads(p)
    ensures Grown(p, s, Step(p, s, move), t)
  {
    hide Safe, Grown, ProducerStep, StageStep;
    if move.thread == t {
      OwnStepGrows(p, s, t, move.input);
    } else if move.thread == 0 {
      ProducerGrows(p, s, t, move.input);
    } else if move.thread < Threads(p) {
      OtherGrows(p, s, t, move.thread, move.input);
    } else {
      NothingGrows(p, s, t);
    }
  }

  lemma NothingGrows(p: Params, s: State, t: nat)
    requires WellShaped(p, s) && t < Threads(p)
    ensures Grown(p, s, s, t)
  {}

  lemma ProducerGrows(p: Params, s: State, t: nat, input: Input)
    requires Safe(p, s) && 0 < t < Threads(p)
    ensures Grown(p, s, ProducerStep(p, s, input), t)
  {
    hide Safe, Readable, Races;
  }

  lemma OtherGrows(p: Params, s: State, t: nat, u: nat, input: Input)
    requires Safe(p, s) && 0 < t < Threads(p) && 0 < u < Threads(p) && t != u
    ensures Grown(p, s, StageStep(p, s, u, input), t)
  {
    hide Safe, StageStep;
  }

  lemma OwnStepGrows(p: Params, s: State, t: nat, input: Input)
    requires Safe(p, s) && 0 < t < Threads(p)
    ensures Grown(p, s, StageStep(p, s, t, input), t)
  {
    hide Safe, Knows, StageStep;
    SafeParts(p, s, t);
    StageStoresWithin(p, s, t, input);
    if s.locals[t].file.failed {
      FailedStays(p, s, t, input);
    }
  }

  lemma FailedIdle(p: Params, s: State, t: nat)
    requires Safe(p, s) && 0 < t < Threads(p) && s.locals[t].file.failed
    ensures s.locals[t].control == Idle
  {
    hide Safe, Knows;
    SafeParts(p, s, t);
  }

  /** A failed stage does nothing but look upstream. */
  lemma FailedStays(p: Params, s: State, t: nat, input: Input)
    requires Safe(p, s) && 0 < t < Threads(p) && s.locals[t].file.failed && s.locals[t].control == Idle
    ensures var r := StageStep(p, s, t, input);
      r.locals[t] == s.locals[t] && r.mem.history == s.mem.history
  {
    hide Safe, Readable, Confined;
  }

  lemma {:induction false} RunGrows(p: Params, before: seq<Move>, after: seq<Move>, t: nat)
    requires ValidParams(p) && 0 < t < Threads(p)
    ensures Run(p, before).log <= Run(p, before + after).log
    ensures Frontier(Run(p, before), t) <= Frontier(Run(p, before + after), t)
    decreases |after|
  {
    hide Step, Run, Safe;
    if after == [] {
      assert before + after == before;
    } else {
      var earlier := after[..|after| - 1];
      RunGrows(p, before, earlier, t);
      RunSafe(p, before + earlier);
      RunSnoc(p, before, after);
      StepGrows(p, Run(p, before + earlier), after[|after| - 1], t);
    }
  }

  /**
   * Failure is absorbing: the stage never again starts a call, so there is no
   * append, no sync and no change of the durable frontier.
   */
  lemma {:induction false} FailureAbsorbs(p: Params, before: seq<Move>, after: seq<Move>, t: nat)
    requires ValidParams(p) && 0 < t < Threads(p) && Run(p, before).locals[t].file.failed
    ensures Run(p, before + after).locals[t] == Run(p, before).locals[t]
    ensures Run(p, before).locals[t].control == Idle
    ensures Frontier(Run(p, before + after), t) == Frontier(Run(p, before), t)
    decreases |after|
  {
    hide Step, Run, Safe;
    if after == [] {
      RunSafe(p, before);
      FailedIdle(p, Run(p, before), t);
      assert before + after == before;
    } else {
      var earlier := after[..|after| - 1];
      FailureAbsorbs(p, before, earlier, t);
      RunSafe(p, before + earlier);
      RunSnoc(p, before, after);
      StepGrows(p, Run(p, before + earlier), after[|after| - 1], t);
    }
  }

  // ----- Durability -----

  lemma FileOfRun(p: Params, moves: seq<Move>, t: nat)
    requires ValidParams(p) && 0 < t < Threads(p) && p.stages[t - 1].PersistenceOf?
    ensures var s := Run(p, moves);
      var me := s.locals[t];
      && me.current <= |s.log| && me.file.archived == s.log[..me.current]
      && DiskHolds(p.stages[t - 1].config, me.file.content, me.file.synced, me.file.archived, me.file.next,
           Frontier(s, t))
  {
    hide Run, Faithful, Safe, SlotsHold, ProducerHolds, DiskHolds;
    RunFaithful(p, moves);
    FaithfulParts(p, Run(p, moves), t);
  }

  /**
   * The joining theorem. Cut the power at any moment of any run, keep any prefix
   * of the file no shorter than what was synchronized: recovery ends Clean or
   * Recovered, keeps at least the records below the durable frontier, and the file
   * it leaves is exactly the writer's image of the first `kept` published payloads,
   * record `i` carrying sequence `firstSequence + i`.
   */
  lemma DurableRecordsSurvive(p: Params, moves: seq<Move>, t: nat, length: nat) returns (kept: nat)
    requires ValidParams(p) && 0 < t < Threads(p) && p.stages[t - 1].PersistenceOf?
    requires var f := Run(p, moves).locals[t].file; f.synced <= length <= |f.content|
    ensures var s := Run(p, moves);
      var config := p.stages[t - 1].config;
      var recovery := Recover(s.locals[t].file.content[..length], config);
      && Frontier(s, t) <= kept <= |s.log|
      && Storable(config, s.log[..kept])
      && recovery.result.status in {RecoveryClean, RecoveryRecovered}
      && recovery.result.records == kept
      && recovery.file == Image(config, s.log[..kept])
      && Recovered(recovery.file, config) == s.log[..kept]
  {
    hide Run, DiskHolds, Recover, Recovered, Image, Storable;
    FileOfRun(p, moves, t);
    var s := Run(p, moves);
    var f, config := s.locals[t].file, p.stages[t - 1].config;
    kept := CrashRecovers(config, f.content, f.synced, f.archived, f.next, Frontier(s, t), length);
    assert f.archived[..kept] == s.log[..kept];
  }

  /**
   * In particular record `i` below the durable frontier is in its place in the
   * recovered file, with sequence `firstSequence + i` and the payload published at
   * position `i`.
   */
  lemma DurableRecordInPlace(p: Params, moves: seq<Move>, t: nat, length: nat, i: nat)
    requires ValidParams(p) && 0 < t < Threads(p) && p.stages[t - 1].PersistenceOf?
    requires var f := Run(p, moves).locals[t].file; f.synced <= length <= |f.content|
    requires i < Frontier(Run(p, moves), t)
    ensures var s := Run(p, moves);
      var config := p.stages[t - 1].config;
      var file := Recover(s.locals[t].file.content[..length], config).file;
      && i < |s.log| && config.firstSequence + i <= U64_MAX
      && Offset(config, i) <= Offset(config, i + 1) <= |file|
      && file[Offset(config, i)..Offset(config, i + 1)] == RecordBytes(config, config.firstSequence + i, s.log[i])
  {
    hide Run, DiskHolds, Recover, Recovered, Image, Offset, RecordBytes, ValidReaderConfig, PowerOfTwo;
    var config := p.stages[t - 1].config;
    assert ValidStage(p.payloadSize, p.stages[t - 1]);
    ValidReaderAlignment(config);
    var kept := DurableRecordsSurvive(p, moves, t, length);
    ImageRecord(config, Run(p, moves).log[..kept], i);
  }

  /**
   * Whatever was certified durable at one moment is in the recovered file after a
   * crash at any later moment, unchanged and in order.
   */
  lemma CertifiedStaysRecoverable(p: Params, before: seq<Move>, after: seq<Move>, t: nat, length: nat)
    requires ValidParams(p) && 0 < t < Threads(p) && p.stages[t - 1].PersistenceOf?
    requires var f := Run(p, before + after).locals[t].file; f.synced <= length <= |f.content|
    ensures var certified := Frontier(Run(p, before), t);
      var log := Run(p, before).log;
      var config := p.stages[t - 1].config;
      var recovery := Recover(Run(p, before + after).locals[t].file.content[..length], config);
      certified <= |log| && log[..certified] <= Recovered(recovery.file, config)
  {
    hide Run, Recover, Recovered, Image, Storable, DiskHolds;
    RunGrows(p, before, after, t);
    FileOfRun(p, before, t);
    DiskCounts(p, before, t);
    var kept := DurableRecordsSurvive(p, before + after, t, length);
    var certified := Frontier(Run(p, before), t);
    assert Run(p, before + after).log[..kept][..certified] == Run(p, before).log[..certified];
  }

  lemma DiskCounts(p: Params, moves: seq<Move>, t: nat)
    requires ValidParams(p) && 0 < t < Threads(p)
    ensures Frontier(Run(p, moves), t) <= |Run(p, moves).log|
  {
    hide Run, Safe;
    RunSafe(p, moves);
    FrontierOrder(p, Run(p, moves), 0, t);
    SafeParts(p, Run(p, moves), 0);
  }

  /** Head never runs more than a capacity ahead of any frontier, so no slot is reused before its record is durable. */
  lemma NoReuseBeforeDurable(p: Params, moves: seq<Move>, t: nat)
    requires ValidParams(p) && 0 < t < Threads(p)
    ensures Frontier(Run(p, moves), t) <= |Run(p, moves).log| <= Frontier(Run(p, moves), t) + p.capacity
  {
    hide Run, Safe;
    var s := Run(p, moves);
    RunSafe(p, moves);
    SafeParts(p, s, 0);
    FrontierOrder(p, s, 0, t);
    FrontierOrder(p, s, t, TailOf(p));
    HeadWithinCapacity(p, s);
  }

  // ----- What a stage sees -----

  /**
   * Exactly once and in order: every call of a Slider's module is about the first
   * position not accepted before and gets its published bytes, so the accepted
   * positions are 0, 1, 2, ... and the frontier never runs ahead of them. Whenever
   * `process` has returned the frontier is their number.
   */
  lemma ExactlyOnce(p: Params, moves: seq<Move>, t: nat)
    requires ValidParams(p) && 0 < t < Threads(p) && p.stages[t - 1].SliderOf?
    ensures var s := Run(p, moves);
      var me := s.locals[t];
      && Accepted(me.calls) == S.Upto(me.current)
      && Frontier(s, t) <= me.current <= |s.log|
      && (me.control.Idle? ==> Frontier(s, t) == me.current == |Accepted(me.calls)|)
      && forall i :: 0 <= i < |me.calls| ==>
           && me.calls[i].position == |Accepted(me.calls[..i])| < |s.log|
           && me.calls[i].payload == s.log[me.calls[i].position]
  {
    hide Run, Faithful, Safe, SlotsHold, ProducerHolds, Accepted;
    var s := Run(p, moves);
    RunFaithful(p, moves);
    FaithfulParts(p, s, t);
    SafeParts(p, s, t);
  }

  /** The bytes behind a view stay put for as long as the stage uses it. */
  lemma ViewStaysPut(p: Params, moves: seq<Move>, t: nat)
    requires ValidParams(p) && 0 < t < Threads(p)
    requires var control := Run(p, moves).locals[t].control; control.Viewing? || control.Appending?
    ensures var s := Run(p, moves);
      && s.locals[t].current < |s.log|
      && s.slots[T.Slot(s.locals[t].current, p.capacity)] == s.log[s.locals[t].current]
  {
    hide Run, Faithful, Safe, StageHolds, ProducerHolds, T.Slot;
    RunFaithful(p, moves);
    FaithfulParts(p, Run(p, moves), t);
    StagePosition(p, Run(p, moves), t);
  }

  // ----- Pipelines as folds -----

  /** The state of a module that is updated by each call it accepts. */
  function After<S>(update: (S, nat, Payload) -> S, start: S, calls: seq<ModuleCall>): S {
    if calls == [] then start
    else
      var last := calls[|calls| - 1];
      var state := After(update, start, calls[..|calls| - 1]);
      if last.ok then update(state, last.position, last.payload) else state
  }

  /** The left fold over a sequence of payloads. */
  function Fold<S>(update: (S, nat, Payload) -> S, start: S, payloads: seq<Payload>): S {
    if payloads == [] then start
    else
      var n := |payloads| - 1;
      update(Fold(update, start, payloads[..n]), n, payloads[n])
  }

  lemma {:induction false} CallsAreFold<S>(
    update: (S, nat, Payload) -> S, start: S, calls: seq<ModuleCall>, log: seq<Payload>, n: nat)
    requires forall i :: 0 <= i < |calls| ==> calls[i].position < |log| && calls[i].payload == log[calls[i].position]
    requires Accepted(calls) == S.Upto(n) && n <= |log|
    ensures After(update, start, calls) == Fold(update, start, log[..n])
    decreases |calls|
  {
    if calls != [] {
      var last := calls[|calls| - 1];
      var earlier := calls[..|calls| - 1];
      if last.ok {
        var positions := Accepted(calls);
        assert positions[|positions| - 1] == last.position == n - 1;
        assert Accepted(earlier) == positions[..n - 1] == S.Upto(n - 1);
        CallsAreFold(update, start, earlier, log, n - 1);
        assert log[..n][..n - 1] == log[..n - 1];
      } else {
        assert Accepted(earlier) == Accepted(calls);
        CallsAreFold(update, start, earlier, log, n);
      }
    }
  }

  /**
   * Under every interleaving, the state of every module is the left fold over a
   * prefix of the published log: what one sequential loop would have computed.
   */
  lemma StageIsFold<S>(p: Params, moves: seq<Move>, t: nat, update: (S, nat, Payload) -> S, start: S)
    requires ValidParams(p) && 0 < t < Threads(p) && p.stages[t - 1].SliderOf?
    ensures var s := Run(p, moves);
      var me := s.locals[t];
      && Frontier(s, t) <= me.current <= |s.log|
      && me.current <= Frontier(s, t) + p.stages[t - 1].publishCount
      && After(update, start, me.calls) == Fold(update, start, s.log[..me.current])
  {
    hide Run, Faithful, Safe, SlotsHold, ProducerHolds, After, Fold;
    var s := Run(p, moves);
    RunFaithful(p, moves);
    FaithfulParts(p, s, t);
    SafeParts(p, s, t);
    CallsAreFold(update, start, s.locals[t].calls, s.log, s.locals[t].current);
  }
}
