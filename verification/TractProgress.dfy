/**
 * No deadlock: from every reachable state in which no durable stage has failed,
 * one sweep of the stages in order brings every frontier to Head.
 */
module TractProgress {
  import opened Words
  import opened WalGeometry
  import opened WalImage
  import opened WalScan
  import opened WalCanonical
  import opened Durability
  import opened ViewMemory
  import opened Tract
  import opened TractSafety
  import opened TractSteps
  import opened TractData
  import P = PersistenceStage

  /** The state after some more moves. */
  function Continue(p: Params, s: State, moves: seq<Move>): (r: State)
    requires ValidParams(p) && WellShaped(p, s)
    ensures WellShaped(p, r)
  {
    if moves == [] then s
    else Step(p, Continue(p, s, moves[..|moves| - 1]), moves[|moves| - 1])
  }

  lemma {:induction false} ContinueTwice(p: Params, s: State, a: seq<Move>, b: seq<Move>)
    requires ValidParams(p) && WellShaped(p, s)
    ensures Continue(p, s, a + b) == Continue(p, Continue(p, s, a), b)
    decreases |b|
  {
    hide Step;
    if b == [] {
      assert a + b == a;
    } else {
      ContinueTwice(p, s, a, b[..|b| - 1]);
      assert (a + b)[..|a + b| - 1] == a + b[..|b| - 1];
    }
  }

  // ----- Counting calls -----

  /** Stage `t` began a call between `s` and `r`. */
  predicate Starts(s: State, r: State, t: nat)
    requires t < |s.locals| && t < |r.locals|
  {
    s.locals[t].control.Idle? && !r.locals[t].control.Idle?
  }

  /** How many calls of `process` stage `t` began during some moves. */
  function CallsBegun(p: Params, s: State, moves: seq<Move>, t: nat): nat
    requires ValidParams(p) && WellShaped(p, s) && t < Threads(p)
  {
    if moves == [] then 0
    else
      var earlier := moves[..|moves| - 1];
      CallsBegun(p, s, earlier, t) + if Starts(Continue(p, s, earlier), Continue(p, s, moves), t) then 1 else 0
  }

  lemma {:induction false} CallsBegunTwice(p: Params, s: State, a: seq<Move>, b: seq<Move>, t: nat)
    requires ValidParams(p) && WellShaped(p, s) && t < Threads(p)
    ensures CallsBegun(p, s, a + b, t) == CallsBegun(p, s, a, t) + CallsBegun(p, Continue(p, s, a), b, t)
    decreases |b|
  {
    hide Continue, Starts;
    if b == [] {
      assert a + b == a;
    } else {
      var earlier := b[..|b| - 1];
      CallsBegunTwice(p, s, a, earlier, t);
      assert (a + b)[..|a + b| - 1] == a + earlier;
      ContinueTwice(p, s, a, earlier);
      ContinueTwice(p, s, a, b);
    }
  }

  lemma CallsBegunOne(p: Params, s: State, move: Move, t: nat)
    requires ValidParams(p) && WellShaped(p, s) && t < Threads(p)
    ensures CallsBegun(p, s, [move], t) == if Starts(s, Continue(p, s, [move]), t) then 1 else 0
  {
    hide Step, Starts;
    assert [move][..0] == [];
    assert CallsBegun(p, s, [], t) == 0 && Continue(p, s, []) == s;
  }

  /** Every move is made by stage `t`, and nothing is refused and no call fails. */
  ghost predicate OnlyBy(moves: seq<Move>, t: nat) {
    forall k :: 0 <= k < |moves| ==> moves[k].thread == t && moves[k].input.ok
  }

  /** No move is made by the producer or by stage `u`. */
  ghost predicate NoneBy(moves: seq<Move>, u: nat) {
    forall k :: 0 <= k < |moves| ==> moves[k].thread != 0 && moves[k].thread != u
  }

  lemma StepApart(p: Params, s: State, move: Move, u: nat)
    requires ValidParams(p) && WellShaped(p, s) && u < Threads(p) && move.thread != 0 && move.thread != u
    ensures Step(p, s, move).locals[u] == s.locals[u] && Step(p, s, move).mem.history[u] == s.mem.history[u]
  {
    hide StageStep;
  }

  /** A stage that makes no move stays as it is and begins no call. */
  lemma {:induction false} Untouched(p: Params, s: State, moves: seq<Move>, u: nat)
    requires ValidParams(p) && WellShaped(p, s) && u < Threads(p) && NoneBy(moves, u)
    ensures var r := Continue(p, s, moves);
      r.locals[u] == s.locals[u] && r.mem.history[u] == s.mem.history[u]
    ensures CallsBegun(p, s, moves, u) == 0
    decreases |moves|
  {
    hide Step;
    if moves != [] {
      var earlier := moves[..|moves| - 1];
      Untouched(p, s, earlier, u);
      StepApart(p, Continue(p, s, earlier), moves[|moves| - 1], u);
    }
  }

  /** The calls stage `t` needs for so many pending records: one, or one a batch. */
  function CallsNeeded(p: Params, t: nat, pending: nat): nat
    requires ValidParams(p) && 0 < t < Threads(p)
  {
    assert ValidStage(p.payloadSize, p.stages[t - 1]);
    match p.stages[t - 1]
    case SliderOf(_) => if pending == 0 then 0 else 1
    case PersistenceOf(syncCount, _) => P.CallsToDrain(pending, syncCount)
  }

  lemma {:induction false} CallsToDrainMono(a: nat, b: nat, syncCount: nat)
    requires syncCount > 0 && a <= b
    ensures P.CallsToDrain(a, syncCount) <= P.CallsToDrain(b, syncCount)
    decreases b
  {
    if a > 0 {
      CallsToDrainMono(a - Min(a, syncCount), b - Min(b, syncCount), syncCount);
    }
  }

  lemma CallsNeededMono(p: Params, t: nat, a: nat, b: nat)
    requires ValidParams(p) && 0 < t < Threads(p) && a <= b
    ensures CallsNeeded(p, t, a) <= CallsNeeded(p, t, b)
  {
    hide P.CallsToDrain;
    assert ValidStage(p.payloadSize, p.stages[t - 1]);
    if p.stages[t - 1].PersistenceOf? {
      CallsToDrainMono(a, b, p.stages[t - 1].syncCount);
    }
  }

  /** The call that begins with `pending` records takes one off the calls needed. */
  lemma CallTaken(p: Params, t: nat, from: nat, available: nat)
    requires ValidParams(p) && 0 < t < Threads(p) && from < available
    ensures from < CallLimit(p.stages[t - 1], from, available) <= available
    ensures CallsNeeded(p, t, available - from)
         == CallsNeeded(p, t, available - CallLimit(p.stages[t - 1], from, available)) + 1
  {
    assert ValidStage(p.payloadSize, p.stages[t - 1]);
    if p.stages[t - 1].PersistenceOf? {
      P.OneCallLess(available - from, p.stages[t - 1].syncCount);
    }
  }

  /** A durable stage will still ask for a sync in its present call. */
  function SyncsLeft(stage: Stage, me: Local): nat {
    if stage.PersistenceOf? && !me.control.Idle? && !me.control.Flushing? then 1 else 0
  }

  lemma {:induction false} RunIsContinue(p: Params, moves: seq<Move>)
    requires ValidParams(p)
    ensures Run(p, moves) == Continue(p, Start(p), moves)
  {
    hide Step;
    if moves != [] {
      RunIsContinue(p, moves[..|moves| - 1]);
    }
  }

  /** Stage `t` is not held up by its file. */
  ghost predicate Able(p: Params, s: State, t: nat)
    requires WellShaped(p, s) && 0 < t < Threads(p)
  {
    match p.stages[t - 1]
    case SliderOf(_) => true
    case PersistenceOf(_, config) => !s.locals[t].file.failed && config.firstSequence + |s.log| <= U64_MAX + 1
  }

  function Newest(s: State, l: nat): nat
    requires l < |s.mem.history| && s.mem.history[l] != []
  {
    |s.mem.history[l]| - 1
  }

  /** The input under which stage `t` gets on: newest messages, accepting module, complete writes. */
  function Cooperative(p: Params, s: State, t: nat): (input: Input)
    requires WellShaped(p, s) && 0 < t < Threads(p)
    ensures input.ok
  {
    var index := match s.locals[t].control
      case Idle => Newest(s, t - 1)
      case Looping => Newest(s, TailOf(p))
      case _ => Newest(s, 0);
    Input(index, [], true, RecordSize(p, t))
  }

  function RecordSize(p: Params, t: nat): nat
    requires 0 < t < Threads(p)
  {
    match p.stages[t - 1]
    case SliderOf(_) => 1
    case PersistenceOf(_, config) => AlignedRecordSize(config) + 1
  }

  /** How many steps are left for the current position. */
  function Rank(p: Params, control: Control): nat {
    match control
    case Syncing => p.payloadSize + 5
    case Flushing(_) => p.payloadSize + 4
    case Looping => p.payloadSize + 3
    case TailLoaded(_) => p.payloadSize + 2
    case Viewing(buffer) => if |buffer| < p.payloadSize then p.payloadSize - |buffer| + 1 else 1
    case _ => 0
  }

  /** The call does not end before its limit. */
  ghost predicate OnCourse(me: Local) {
    me.control.Syncing? || me.control == Flushing(true) ==> me.current == me.limit
  }

  /** What a step of stage `t` leaves alone. */
  ghost predicate Apart(p: Params, s: State, r: State, t: nat)
    requires WellShaped(p, s) && WellShaped(p, r)
  {
    && r.log == s.log
    && forall u :: 0 <= u < Threads(p) && u != t ==> r.locals[u] == s.locals[u] && r.mem.history[u] == s.mem.history[u]
  }

  lemma NewestReadable(m: Memory, n: nat, t: nat, l: nat)
    requires Shape(m, n) && t < n && l < n
    ensures Readable(m, n, t, l, |m.history[l]| - 1)
  {}

  /** One step of a call in progress: it ends, or the measure goes down. */
  ghost predicate Advances(p: Params, t: nat, me: Local, now: Local)
    requires 0 < t < Threads(p)
  {
    && now.limit == me.limit && me.current <= now.current && !now.file.failed
    && now.file.syncs + SyncsLeft(p.stages[t - 1], now) == me.file.syncs + SyncsLeft(p.stages[t - 1], me)
    && (OnCourse(me) ==> OnCourse(now))
    && (now.control == Idle ==> OnCourse(me) ==> now.current == me.limit)
    && (now.control != Idle ==>
          now.current > me.current || (now.current == me.current && Rank(p, now.control) < Rank(p, me.control)))
  }

  lemma Advance(p: Params, s: State, t: nat)
    requires Faithful(p, s) && 0 < t < Threads(p) && s.locals[t].control != Idle && Able(p, s, t)
    ensures var r := StageStep(p, s, t, Cooperative(p, s, t));
      Faithful(p, r) && Apart(p, s, r, t) && Able(p, r, t) && Advances(p, t, s.locals[t], r.locals[t])
  {
    hide Faithful, Safe, StageStep, Knows, Able, Rank, SyncsLeft, OnCourse, Pace;
    var input := Cooperative(p, s, t);
    StageFaithful(p, s, t, input);
    SafeParts(p, s, t);
    StagePosition(p, s, t);
    match s.locals[t].control {
      case Looping => AdvanceTail(p, s, t);
      case TailLoaded(_) => AdvanceHead(p, s, t);
      case Viewing(buffer) => AdvanceView(p, s, t);
      case Appending(_, _) => AdvanceWrite(p, s, t);
      case Syncing => AdvanceSync(p, s, t);
      case Flushing(_) => AdvanceStore(p, s, t);
    }
    StillAbleAlone(p, s, StageStep(p, s, t, input), t);
  }

  lemma StillAbleAlone(p: Params, s: State, r: State, t: nat)
    requires WellShaped(p, s) && WellShaped(p, r) && 0 < t < Threads(p)
    requires r.log == s.log && Able(p, s, t) && !r.locals[t].file.failed
    ensures Able(p, r, t)
  {}

  lemma AdvanceTail(p: Params, s: State, t: nat)
    requires Safe(p, s) && 0 < t < Threads(p) && s.locals[t].control.Looping?
    ensures Advances(p, t, s.locals[t], StageStep(p, s, t, Cooperative(p, s, t)).locals[t])
  {
    hide Safe, Readable, Knows, Load, Confined;
    SafeParts(p, s, t);
    NewestReadable(s.mem, Threads(p), t, TailOf(p));
  }

  lemma AdvanceHead(p: Params, s: State, t: nat)
    requires Safe(p, s) && 0 < t < Threads(p) && s.locals[t].control.TailLoaded?
    ensures Advances(p, t, s.locals[t], StageStep(p, s, t, Cooperative(p, s, t)).locals[t])
  {
    hide Safe, Readable, Knows, Load, Confined;
    SafeParts(p, s, t);
    NewestReadable(s.mem, Threads(p), t, 0);
    StageLoadsHead(p, s, t, Cooperative(p, s, t));
  }

  lemma AdvanceView(p: Params, s: State, t: nat)
    requires Safe(p, s) && 0 < t < Threads(p) && s.locals[t].control.Viewing? && Able(p, s, t)
    requires s.locals[t].current < |s.log|
    ensures Advances(p, t, s.locals[t], StageStep(p, s, t, Cooperative(p, s, t)).locals[t])
  {
    hide Safe, Races, Knows, Touch, Confined;
    SafeParts(p, s, t);
  }

  lemma AdvanceSync(p: Params, s: State, t: nat)
    requires Safe(p, s) && 0 < t < Threads(p) && s.locals[t].control.Syncing?
    ensures Advances(p, t, s.locals[t], StageStep(p, s, t, Cooperative(p, s, t)).locals[t])
  {
    hide Safe, Knows, StageStep;
    SafeParts(p, s, t);
    SyncEffect(p, s, t, Cooperative(p, s, t));
  }

  lemma AdvanceStore(p: Params, s: State, t: nat)
    requires Safe(p, s) && 0 < t < Threads(p) && s.locals[t].control.Flushing?
    ensures Advances(p, t, s.locals[t], StageStep(p, s, t, Cooperative(p, s, t)).locals[t])
  {
    hide Safe, Knows, StageStep;
    SafeParts(p, s, t);
    FlushEffect(p, s, t, Cooperative(p, s, t));
  }

  lemma FlushEffect(p: Params, s: State, t: nat, input: Input)
    requires Safe(p, s) && 0 < t < Threads(p) && s.locals[t].control.Flushing?
    ensures var me := s.locals[t];
      StageStep(p, s, t, input).locals[t]
      == me.(control := if me.control.leaving || me.current == me.limit then Idle else Looping, since := 0)
  {
    hide Safe, Store, Confined;
  }

  lemma AdvanceWrite(p: Params, s: State, t: nat)
    requires Faithful(p, s) && 0 < t < Threads(p) && s.locals[t].control.Appending?
    ensures Advances(p, t, s.locals[t], StageStep(p, s, t, Cooperative(p, s, t)).locals[t])
  {
    hide Faithful, Safe, Knows, StageStep, FileHolds, RecordBytes, SequenceOf, Exhausted, AlignedRecordSize;
    FaithfulParts(p, s, t);
    SafeParts(p, s, t);
    assert p.stages[t - 1].PersistenceOf?;
    PersistenceAtWork(p, s, t);
    var me, config := s.locals[t], p.stages[t - 1].config;
    FileAppending(config, s.log, me, Frontier(s, t));
    PersistenceWrites(p, s, t, Cooperative(p, s, t));
    RecordFits(config, s.log, me, Frontier(s, t));
  }

  lemma RecordFits(config: WalConfig, log: seq<Payload>, me: Local, frontier: nat)
    requires FileHolds(config, log, me, frontier) && me.control.Appending? && !Exhausted(config, me.current)
    ensures |RecordBytes(config, SequenceOf(config, me.current), me.control.payload)| == AlignedRecordSize(config)
  {
    hide RecordBytes, Image, Offset, AlignedRecordSize, PowerOfTwo;
    ValidReaderAlignment(config);
    RecordBytesSize(config, SequenceOf(config, me.current), me.control.payload);
  }

  // ----- Whole calls -----

  lemma StepIsStage(p: Params, s: State, t: nat, input: Input)
    requires Safe(p, s) && 0 < t < Threads(p)
    ensures Step(p, s, Move(t, input)) == StageStep(p, s, t, input)
  {
    hide Safe, StageStep;
  }

  lemma ContinueOne(p: Params, s: State, t: nat, input: Input)
    requires Safe(p, s) && 0 < t < Threads(p)
    ensures Continue(p, s, [Move(t, input)]) == StageStep(p, s, t, input)
  {
    hide Safe, StageStep, Step;
    var moves := [Move(t, input)];
    assert moves[..0] == [];
    StepIsStage(p, s, t, input);
  }

  lemma ApartTwice(p: Params, s: State, r: State, q: State, t: nat)
    requires WellShaped(p, s) && WellShaped(p, r) && WellShaped(p, q)
    requires Apart(p, s, r, t) && Apart(p, r, q, t)
    ensures Apart(p, s, q, t)
  {}

  /** A call in progress can be run to its end, and a call on course ends at its limit. */
  lemma {:induction false} FinishCall(p: Params, s: State, t: nat) returns (moves: seq<Move>)
    requires Faithful(p, s) && 0 < t < Threads(p) && Able(p, s, t)
    ensures OnlyBy(moves, t) && CallsBegun(p, s, moves, t) == 0
    ensures var r := Continue(p, s, moves);
      && Faithful(p, r) && Apart(p, s, r, t) && Able(p, r, t)
      && r.locals[t].control == Idle
      && s.locals[t].current <= r.locals[t].current
      && r.locals[t].file.syncs == s.locals[t].file.syncs + SyncsLeft(p.stages[t - 1], s.locals[t])
      && (s.locals[t].control != Idle && OnCourse(s.locals[t]) ==> r.locals[t].current == s.locals[t].limit)
      && (s.locals[t].control == Idle ==> moves == [])
    decreases
      if s.locals[t].control == Idle then 0 else 1 + s.locals[t].limit - s.locals[t].current,
      Rank(p, s.locals[t].control)
  {
    hide Faithful, Safe, StageStep, Step, Able, Rank, CallsBegun, Continue;
    NothingMoves(p, s, t);
    if s.locals[t].control == Idle {
      moves := [];
    } else {
      var input := Cooperative(p, s, t);
      Advance(p, s, t);
      var r := StageStep(p, s, t, input);
      ContinueOne(p, s, t, input);
      CallsBegunOne(p, s, Move(t, input), t);
      StagePosition(p, s, t);
      if r.locals[t].control != Idle {
        StagePosition(p, r, t);
      }
      NothingMoves(p, r, t);
      var rest := FinishCall(p, r, t);
      moves := [Move(t, input)] + rest;
      ContinueTwice(p, s, [Move(t, input)], rest);
      CallsBegunTwice(p, s, [Move(t, input)], rest, t);
      ApartTwice(p, s, r, Continue(p, r, rest), t);
    }
  }

  lemma NothingMoves(p: Params, s: State, t: nat)
    requires ValidParams(p) && WellShaped(p, s) && t < Threads(p)
    ensures Continue(p, s, []) == s && CallsBegun(p, s, [], t) == 0
  {}

  /** Stage `t` has begun a call of `process`, and nothing else has happened. */
  ghost predicate Begun(p: Params, s: State, r: State, t: nat)
    requires ValidParams(p) && WellShaped(p, s) && WellShaped(p, r) && 0 < t < Threads(p)
    requires Frontier(s, t) <= Frontier(s, t - 1)
  {
    && Faithful(p, r) && Apart(p, s, r, t) && Able(p, r, t)
    && r.locals[t].control == Looping && OnCourse(r.locals[t])
    && r.locals[t].file == s.locals[t].file
    && r.locals[t].limit == CallLimit(p.stages[t - 1], Frontier(s, t), Frontier(s, t - 1))
  }

  /** An idle stage with something upstream starts a call that is on course. */
  lemma BeginsCall(p: Params, s: State, t: nat)
    requires Faithful(p, s) && 0 < t < Threads(p) && Able(p, s, t)
    requires s.locals[t].control == Idle && Frontier(s, t) < Frontier(s, t - 1)
    ensures Begun(p, s, StageStep(p, s, t, Cooperative(p, s, t)), t)
  {
    hide Faithful, Safe, Knows, StageStep, Able, CallLimit;
    var input := Cooperative(p, s, t);
    StageFaithful(p, s, t, input);
    SafeParts(p, s, t);
    BeginEffect(p, s, t);
    StillAbleAlone(p, s, StageStep(p, s, t, input), t);
  }

  lemma BeginEffect(p: Params, s: State, t: nat)
    requires Safe(p, s) && 0 < t < Threads(p) && Able(p, s, t)
    requires s.locals[t].control == Idle && Frontier(s, t) < Frontier(s, t - 1)
    ensures var me := s.locals[t];
      && !me.file.failed
      && StageStep(p, s, t, Cooperative(p, s, t)).locals[t] == me.(control := Looping, current := Frontier(s, t),
           since := 0, limit := CallLimit(p.stages[t - 1], Frontier(s, t), Frontier(s, t - 1)))
  {
    hide Safe, Knows, Readable, Load, Confined, CallLimit;
    SafeParts(p, s, t);
    NewestReadable(s.mem, Threads(p), t, t - 1);
  }

  lemma IdleFrontier(p: Params, s: State, t: nat)
    requires Safe(p, s) && 0 < t < Threads(p) && s.locals[t].control == Idle && Able(p, s, t)
    ensures Frontier(s, t) == s.locals[t].current <= Frontier(s, t - 1)
  {
    hide Safe, Knows;
    SafeParts(p, s, t);
    FrontierOrder(p, s, t - 1, t);
  }

  /** One whole call of an idle stage, up to what `CallLimit` allows. */
  lemma WholeCall(p: Params, s: State, t: nat) returns (moves: seq<Move>)
    requires Faithful(p, s) && 0 < t < Threads(p) && Able(p, s, t)
    requires s.locals[t].control == Idle && Frontier(s, t) < Frontier(s, t - 1)
    ensures OnlyBy(moves, t) && CallsBegun(p, s, moves, t) == 1
    ensures var r := Continue(p, s, moves);
      && Faithful(p, r) && Apart(p, s, r, t) && Able(p, r, t)
      && r.locals[t].control == Idle
      && Frontier(r, t) == CallLimit(p.stages[t - 1], Frontier(s, t), Frontier(s, t - 1))
      && r.locals[t].file.syncs == s.locals[t].file.syncs + if p.stages[t - 1].PersistenceOf? then 1 else 0
  {
    hide Faithful, Safe, StageStep, Step, Able, Cooperative, CallsBegun, Continue, CallLimit;
    var input := Cooperative(p, s, t);
    BeginsCall(p, s, t);
    var begun := StageStep(p, s, t, input);
    ContinueOne(p, s, t, input);
    CallsBegunOne(p, s, Move(t, input), t);
    var call := FinishCall(p, begun, t);
    var r := Continue(p, begun, call);
    IdleFrontier(p, r, t);
    ContinueTwice(p, s, [Move(t, input)], call);
    CallsBegunTwice(p, s, [Move(t, input)], call, t);
    ApartTwice(p, s, begun, r, t);
    moves := [Move(t, input)] + call;
  }

  /**
   * Calls of one stage bring its frontier to that of the stage before: one call of
   * a Slider, `CallsToDrain` calls of a durable stage with one sync each.
   */
  lemma {:induction false} StageCatchesUp(p: Params, s: State, t: nat) returns (moves: seq<Move>)
    requires Faithful(p, s) && 0 < t < Threads(p) && Able(p, s, t) && s.locals[t].control == Idle
    ensures Frontier(s, t) <= Frontier(s, t - 1)
    ensures OnlyBy(moves, t)
    ensures CallsBegun(p, s, moves, t) == CallsNeeded(p, t, Frontier(s, t - 1) - Frontier(s, t))
    ensures var r := Continue(p, s, moves);
      && Faithful(p, r) && Apart(p, s, r, t) && Able(p, r, t)
      && r.locals[t].control == Idle && Frontier(r, t) == Frontier(s, t - 1)
      && r.locals[t].file.syncs == s.locals[t].file.syncs
         + if p.stages[t - 1].PersistenceOf? then CallsNeeded(p, t, Frontier(s, t - 1) - Frontier(s, t)) else 0
    decreases Frontier(s, t - 1) - Frontier(s, t)
  {
    hide Faithful, Safe, StageStep, Step, Able, CallsBegun, Continue, CallsNeeded, CallLimit;
    IdleFrontier(p, s, t);
    NothingMoves(p, s, t);
    if Frontier(s, t) == Frontier(s, t - 1) {
      NothingNeeded(p, t);
      moves := [];
    } else {
      CallTaken(p, t, Frontier(s, t), Frontier(s, t - 1));
      var call := WholeCall(p, s, t);
      var r := Continue(p, s, call);
      var rest := StageCatchesUp(p, r, t);
      ContinueTwice(p, s, call, rest);
      CallsBegunTwice(p, s, call, rest, t);
      ApartTwice(p, s, r, Continue(p, r, rest), t);
      moves := call + rest;
    }
  }

  lemma NothingNeeded(p: Params, t: nat)
    requires ValidParams(p) && 0 < t < Threads(p)
    ensures CallsNeeded(p, t, 0) == 0
  {
    assert ValidStage(p.payloadSize, p.stages[t - 1]);
  }

  // ----- The sweep -----

  /** Stages 1 to `j` are idle and have passed everything published. */
  ghost predicate Drained(p: Params, s: State, j: nat)
    requires WellShaped(p, s) && j < Threads(p)
  {
    forall t :: 0 < t <= j ==> s.locals[t].control == Idle && Frontier(s, t) == |s.log|
  }

  /** The moves are made by stages 1 to `j` alone, one stage after the other, and nothing is refused or fails. */
  ghost predicate InOrder(moves: seq<Move>, j: nat) {
    && (forall k :: 0 <= k < |moves| ==> 0 < moves[k].thread <= j && moves[k].input.ok)
    && (forall i, k :: 0 <= i <= k < |moves| ==> moves[i].thread <= moves[k].thread)
  }

  /**
   * Stage `t` begins no more calls than its pending records need, and exactly as
   * many, with one sync each if it is durable, when it was between calls.
   */
  ghost predicate Metered(p: Params, s: State, moves: seq<Move>, t: nat)
    requires ValidParams(p) && WellShaped(p, s) && 0 < t < Threads(p)
  {
    && Frontier(s, t) <= |s.log|
    && var needed := CallsNeeded(p, t, |s.log| - Frontier(s, t));
    && CallsBegun(p, s, moves, t) <= needed
    && (s.locals[t].control == Idle ==>
          && CallsBegun(p, s, moves, t) == needed
          && Continue(p, s, moves).locals[t].file.syncs
             == s.locals[t].file.syncs + if p.stages[t - 1].PersistenceOf? then needed else 0)
  }

  lemma AbleStays(p: Params, s: State, r: State, t: nat, u: nat)
    requires WellShaped(p, s) && WellShaped(p, r) && 0 < u < Threads(p) && u != t
    requires Apart(p, s, r, t) && Able(p, s, u)
    ensures Able(p, r, u)
  {}

  lemma {:induction false} Sweep(p: Params, s: State, j: nat) returns (moves: seq<Move>)
    requires Faithful(p, s) && j < Threads(p)
    requires forall t :: 0 < t < Threads(p) ==> Able(p, s, t)
    ensures InOrder(moves, j) && forall t :: 0 < t <= j ==> Metered(p, s, moves, t)
    ensures var r := Continue(p, s, moves);
      && Faithful(p, r) && Drained(p, r, j) && r.log == s.log && r.locals[0] == s.locals[0]
      && (forall t :: 0 < t < Threads(p) ==> Able(p, r, t))
    decreases j
  {
    hide Faithful, Safe, Step, Able, Continue, CallsBegun, Metered, Drained, StageStep;
    if j == 0 {
      moves := [];
      NothingMoves(p, s, 0);
      assert Drained(p, s, 0) by { NothingDrained(p, s); }
    } else {
      var before := Sweep(p, s, j - 1);
      var middle := Continue(p, s, before);
      var work := SweepOne(p, middle, j);
      var r := Continue(p, middle, work);
      moves := before + work;
      ContinueTwice(p, s, before, work);
      Untouched(p, s, before, j);
      forall t | 0 < t <= j ensures Metered(p, s, moves, t) {
        CallsBegunTwice(p, s, before, work, t);
        if t < j {
          Untouched(p, middle, work, t);
        }
        MeteredOn(p, s, before, work, j, t);
      }
      SweepKeeps(p, middle, r, j);
      forall t | 0 < t < Threads(p) ensures Able(p, r, t) {
        if t != j {
          AbleStays(p, middle, r, j, t);
        }
      }
    }
  }

  lemma NothingDrained(p: Params, s: State)
    requires WellShaped(p, s)
    ensures Drained(p, s, 0)
  {}

  /** Stage `j` finishes the call it is in and then catches up. */
  lemma SweepOne(p: Params, s: State, j: nat) returns (moves: seq<Move>)
    requires Faithful(p, s) && 0 < j < Threads(p) && Able(p, s, j) && Drained(p, s, j - 1)
    ensures OnlyBy(moves, j) && Metered(p, s, moves, j)
    ensures var r := Continue(p, s, moves);
      && Faithful(p, r) && Apart(p, s, r, j) && Able(p, r, j)
      && r.locals[j].control == Idle && Frontier(r, j) == Frontier(s, j - 1)
  {
    hide Faithful, Safe, Step, Able, Continue, CallsBegun, CallsNeeded, StageStep, Drained;
    DrainedUpstream(p, s, j);
    FrontierOrder(p, s, j - 1, j);
    var finish := FinishCall(p, s, j);
    var idle := Continue(p, s, finish);
    FrontierBelow(p, s, j);
    IdleFrontier(p, idle, j);
    var catchUp := StageCatchesUp(p, idle, j);
    ContinueTwice(p, s, finish, catchUp);
    CallsBegunTwice(p, s, finish, catchUp, j);
    ApartTwice(p, s, idle, Continue(p, idle, catchUp), j);
    CallsNeededMono(p, j, |s.log| - Frontier(idle, j), |s.log| - Frontier(s, j));
    moves := finish + catchUp;
    if finish == [] {
      NothingMoves(p, s, j);
      assert moves == catchUp;
    }
  }

  lemma FrontierBelow(p: Params, s: State, t: nat)
    requires Safe(p, s) && 0 < t < Threads(p)
    ensures Frontier(s, t) <= s.locals[t].current
  {
    hide Safe, Knows;
    SafeParts(p, s, t);
  }

  /** What a later stage's moves leave of the count of an earlier one, and the other way round. */
  lemma MeteredOn(p: Params, s: State, before: seq<Move>, work: seq<Move>, j: nat, t: nat)
    requires ValidParams(p) && WellShaped(p, s) && 0 < t <= j < Threads(p)
    requires var middle := Continue(p, s, before);
      && middle.log == s.log
      && CallsBegun(p, s, before + work, t) == CallsBegun(p, s, before, t) + CallsBegun(p, middle, work, t)
      && Continue(p, s, before + work) == Continue(p, middle, work)
      && (t < j ==>
            && Metered(p, s, before, t) && CallsBegun(p, middle, work, t) == 0
            && Continue(p, middle, work).locals[t] == middle.locals[t])
      && (t == j ==>
            && Metered(p, middle, work, t) && CallsBegun(p, s, before, t) == 0
            && middle.locals[t] == s.locals[t] && middle.mem.history[t] == s.mem.history[t])
    ensures Metered(p, s, before + work, t)
  {
    hide Continue, CallsBegun, CallsNeeded;
  }

  lemma DrainedUpstream(p: Params, s: State, j: nat)
    requires Safe(p, s) && 0 < j < Threads(p) && Drained(p, s, j - 1)
    ensures Frontier(s, j - 1) == |s.log|
  {
    hide Safe, Knows;
    SafeParts(p, s, 0);
  }

  lemma SweepKeeps(p: Params, s: State, r: State, j: nat)
    requires Faithful(p, s) && Faithful(p, r) && 0 < j < Threads(p) && Drained(p, s, j - 1) && Apart(p, s, r, j)
    requires r.locals[j].control == Idle && Frontier(r, j) == Frontier(s, j - 1)
    ensures Drained(p, r, j)
  {
    hide Faithful, Safe;
    DrainedUpstream(p, s, j);
  }

  /**
   * From every reachable state in which no durable stage has failed or is about to
   * run out of sequence numbers, one sweep over the stages in order, without the
   * producer, brings every frontier to Head. A stage that is between calls begins
   * exactly the calls its pending records need: one if it is a Slider, their number
   * over `syncCount`, rounded up, with one sync each, if it is durable.
   */
  lemma NoDeadlock(p: Params, moves: seq<Move>) returns (more: seq<Move>)
    requires ValidParams(p)
    requires forall t :: 0 < t < Threads(p) ==> Able(p, Run(p, moves), t)
    ensures InOrder(more, TailOf(p))
    ensures forall t :: 0 < t < Threads(p) ==> Metered(p, Run(p, moves), more, t)
    ensures var r := Run(p, moves + more);
      && r == Continue(p, Run(p, moves), more)
      && r.log == Run(p, moves).log && r.locals[0] == Run(p, moves).locals[0]
      && Drained(p, r, TailOf(p))
  {
    hide Faithful, Safe, Step, Able, Run, Continue, Drained, Metered;
    RunFaithful(p, moves);
    more := Sweep(p, Run(p, moves), TailOf(p));
    RunIsContinue(p, moves);
    RunIsContinue(p, moves + more);
    ContinueTwice(p, Start(p), moves, more);
  }

  // ----- Every sequence of payloads can be delivered -----

  /** The producer moved and no stage did. */
  ghost predicate StagesStill(p: Params, s: State, r: State)
    requires WellShaped(p, s) && WellShaped(p, r)
  {
    forall t :: 0 < t < Threads(p) ==> r.locals[t] == s.locals[t] && r.mem.history[t] == s.mem.history[t]
  }

  lemma ContinueProducer(p: Params, s: State, input: Input)
    requires Safe(p, s)
    ensures Continue(p, s, [Move(0, input)]) == ProducerStep(p, s, input)
  {
    hide Safe, ProducerStep;
    var moves := [Move(0, input)];
    assert moves[..0] == [];
  }

  lemma ProducerStill(p: Params, s: State, input: Input)
    requires Safe(p, s)
    ensures StagesStill(p, s, ProducerStep(p, s, input))
  {
    hide Safe, Readable, Races;
  }

  lemma {:induction false} CopyRest(p: Params, s: State) returns (moves: seq<Move>)
    requires Faithful(p, s) && s.locals[0].control.Copying?
    ensures NoOffer(p, s, moves)
    ensures var r := Continue(p, s, moves);
      && Faithful(p, r) && StagesStill(p, s, r)
      && r.locals[0].control == Idle && r.log == s.log + [s.locals[0].control.payload]
    decreases p.payloadSize - s.locals[0].control.done
  {
    hide Faithful, Safe, Step, ProducerStep, StagesStill;
    var input := Input(0, [], true, 0);
    var r := ProducerStep(p, s, input);
    ProducerFaithful(p, s, input);
    ContinueProducer(p, s, input);
    ProducerStill(p, s, input);
    if s.locals[0].control.done >= p.payloadSize {
      PublishFaithful(p, s, input);
      PublishEnds(p, s, input);
      moves := [Move(0, input)];
      NoOfferFirst(p, s, Move(0, input));
    } else {
      CopyGoesOn(p, s, input);
      var rest := CopyRest(p, r);
      ContinueTwice(p, s, [Move(0, input)], rest);
      StillTwice(p, s, r, Continue(p, r, rest));
      NoOfferFirst(p, s, Move(0, input));
      NoOfferTwice(p, s, [Move(0, input)], rest);
      moves := [Move(0, input)] + rest;
    }
  }

  /** Every move is made by the producer, and none of them starts a call. */
  ghost predicate NoOffer(p: Params, s: State, moves: seq<Move>)
    requires ValidParams(p) && WellShaped(p, s)
  {
    forall k :: 0 <= k < |moves| ==>
      moves[k].thread == 0 && moves[k].input.ok && !Continue(p, s, moves[..k]).locals[0].control.Idle?
  }

  lemma NoOfferFirst(p: Params, s: State, move: Move)
    requires ValidParams(p) && WellShaped(p, s)
    requires move.thread == 0 && move.input.ok && !s.locals[0].control.Idle?
    ensures NoOffer(p, s, [move])
  {
    assert [move][..0] == [];
  }

  lemma NoOfferTwice(p: Params, s: State, a: seq<Move>, b: seq<Move>)
    requires ValidParams(p) && WellShaped(p, s) && NoOffer(p, s, a) && NoOffer(p, Continue(p, s, a), b)
    ensures NoOffer(p, s, a + b)
  {
    hide Continue;
    forall k | 0 <= k < |a + b|
      ensures (a + b)[k].thread == 0 && (a + b)[k].input.ok
        && !Continue(p, s, (a + b)[..k]).locals[0].control.Idle?
    {
      if k < |a| {
        assert (a + b)[..k] == a[..k];
      } else {
        assert (a + b)[..k] == a + b[..k - |a|];
        ContinueTwice(p, s, a, b[..k - |a|]);
      }
    }
  }

  /** Every move is made by the producer, and the first one alone starts a call, with this payload. */
  ghost predicate OneOffer(p: Params, s: State, moves: seq<Move>, payload: Payload)
    requires ValidParams(p) && WellShaped(p, s)
  {
    && (moves != [] ==> moves[0].thread == 0 && moves[0].input.ok && moves[0].input.payload == payload)
    && forall k :: 0 < k < |moves| ==>
         moves[k].thread == 0 && moves[k].input.ok && !Continue(p, s, moves[..k]).locals[0].control.Idle?
  }

  lemma OfferThenNone(p: Params, s: State, move: Move, rest: seq<Move>)
    requires ValidParams(p) && WellShaped(p, s) && move.thread == 0 && move.input.ok
    requires NoOffer(p, Continue(p, s, [move]), rest)
    ensures OneOffer(p, s, [move] + rest, move.input.payload)
  {
    hide Continue, NoOffer;
    var moves := [move] + rest;
    forall k | 0 < k < |moves|
      ensures moves[k].thread == 0 && moves[k].input.ok && !Continue(p, s, moves[..k]).locals[0].control.Idle?
    {
      LaterMove(p, s, move, rest, k);
      assert moves[k] == rest[k - 1];
    }
  }

  lemma LaterMove(p: Params, s: State, move: Move, rest: seq<Move>, k: nat)
    requires ValidParams(p) && WellShaped(p, s) && 0 < k <= |rest|
    requires NoOffer(p, Continue(p, s, [move]), rest)
    ensures rest[k - 1].thread == 0 && rest[k - 1].input.ok
    ensures !Continue(p, s, ([move] + rest)[..k]).locals[0].control.Idle?
  {
    hide *;
    NoOfferAt(p, Continue(p, s, [move]), rest, k - 1);
    assert ([move] + rest)[..k] == [move] + rest[..k - 1];
    ContinueTwice(p, s, [move], rest[..k - 1]);
  }

  lemma NoOfferAt(p: Params, s: State, moves: seq<Move>, k: nat)
    requires ValidParams(p) && WellShaped(p, s) && k < |moves| && NoOffer(p, s, moves)
    ensures moves[k].thread == 0 && moves[k].input.ok && !Continue(p, s, moves[..k]).locals[0].control.Idle?
  {
    hide Continue, WellShaped, ValidParams;
  }

  lemma StillTwice(p: Params, s: State, r: State, q: State)
    requires WellShaped(p, s) && WellShaped(p, r) && WellShaped(p, q) && StagesStill(p, s, r) && StagesStill(p, r, q)
    ensures StagesStill(p, s, q)
  {}

  lemma PublishEnds(p: Params, s: State, input: Input)
    requires Safe(p, s) && s.locals[0].control.Copying? && s.locals[0].control.done >= p.payloadSize
    ensures ProducerStep(p, s, input).locals[0].control == Idle
  {
    hide Safe;
  }

  lemma CopyGoesOn(p: Params, s: State, input: Input)
    requires Safe(p, s) && s.locals[0].control.Copying? && s.locals[0].control.done < p.payloadSize
    ensures var r := ProducerStep(p, s, input);
      && r.locals[0].control == Copying(s.locals[0].control.payload, s.locals[0].control.done + 1)
      && r.log == s.log
  {
    hide Safe, Races, Knows;
    SafeParts(p, s, 0);
    var me := s.locals[0];
    WriteKeepsSlots(p, s, me.current % p.capacity, me.control.done, me.control.payload[me.control.done], me.current);
  }

  /** With a free slot, a call of `try_publish` succeeds. */
  lemma PublishOne(p: Params, s: State, payload: Payload) returns (moves: seq<Move>)
    requires Faithful(p, s) && s.locals[0].control == Idle && |payload| == p.payloadSize
    requires Frontier(s, 0) < Frontier(s, TailOf(p)) + p.capacity && |s.log| < U64_MAX
    ensures OneOffer(p, s, moves, payload)
    ensures var r := Continue(p, s, moves);
      && Faithful(p, r) && StagesStill(p, s, r)
      && r.locals[0].control == Idle && r.log == s.log + [payload]
  {
    hide Faithful, Safe, Step, ProducerStep, StagesStill, NoOffer, OneOffer;
    var first := Input(0, payload, true, 0);
    var a := ProducerStep(p, s, first);
    ProducerFaithful(p, s, first);
    ContinueProducer(p, s, first);
    ProducerStill(p, s, first);
    PublishStarts(p, s, first);
    var rest := PublishRest(p, a);
    ContinueTwice(p, s, [Move(0, first)], rest);
    StillTwice(p, s, a, Continue(p, a, rest));
    OfferThenNone(p, s, Move(0, first), rest);
    moves := [Move(0, first)] + rest;
  }

  /** From the load of Tail on. */
  lemma PublishRest(p: Params, s: State) returns (moves: seq<Move>)
    requires Faithful(p, s) && s.locals[0].control.LoadingTail?
    requires Frontier(s, 0) < Frontier(s, TailOf(p)) + p.capacity && |s.log| < U64_MAX
    ensures NoOffer(p, s, moves)
    ensures var r := Continue(p, s, moves);
      && Faithful(p, r) && StagesStill(p, s, r)
      && r.locals[0].control == Idle && r.log == s.log + [s.locals[0].control.payload]
  {
    hide Faithful, Safe, Step, ProducerStep, StagesStill, NoOffer;
    var input := Input(Newest(s, TailOf(p)), [], true, 0);
    var r := ProducerStep(p, s, input);
    ProducerFaithful(p, s, input);
    ContinueProducer(p, s, input);
    ProducerStill(p, s, input);
    PublishChecks(p, s, input);
    var rest := CopyRest(p, r);
    ContinueTwice(p, s, [Move(0, input)], rest);
    StillTwice(p, s, r, Continue(p, r, rest));
    NoOfferFirst(p, s, Move(0, input));
    NoOfferTwice(p, s, [Move(0, input)], rest);
    moves := [Move(0, input)] + rest;
  }

  lemma PublishStarts(p: Params, s: State, input: Input)
    requires Safe(p, s) && s.locals[0].control == Idle && |input.payload| == p.payloadSize
    ensures ProducerStep(p, s, input) == SetLocal(s, 0, s.locals[0].(control := LoadingTail(input.payload)))
  {
    hide Safe;
  }

  lemma PublishChecks(p: Params, s: State, input: Input)
    requires Safe(p, s) && s.locals[0].control.LoadingTail? && input.index == Newest(s, TailOf(p))
    requires Frontier(s, 0) < Frontier(s, TailOf(p)) + p.capacity && |s.log| < U64_MAX
    ensures var r := ProducerStep(p, s, input);
      r.locals[0].control == Copying(s.locals[0].control.payload, 0) && r.log == s.log
  {
    hide Safe, Readable, Knows;
    SafeParts(p, s, 0);
    NewestReadable(s.mem, Threads(p), 0, TailOf(p));
    FrontierOrder(p, s, 0, TailOf(p));
  }

  /** No durable stage runs out of sequence numbers within `count` records. */
  predicate Fits(p: Params, count: nat) {
    count <= U64_MAX &&
    forall k :: 0 <= k < |p.stages| && p.stages[k].PersistenceOf? ==>
      p.stages[k].config.firstSequence + count <= U64_MAX + 1
  }

  lemma StillAble(p: Params, s: State, r: State)
    requires WellShaped(p, s) && WellShaped(p, r) && StagesStill(p, s, r) && Fits(p, |r.log|)
    requires forall t :: 0 < t < Threads(p) ==> Able(p, s, t)
    ensures forall t :: 0 < t < Threads(p) ==> Able(p, r, t)
  {
    forall t | 0 < t < Threads(p) ensures Able(p, r, t) {
      assert Able(p, s, t);
    }
  }

  lemma StartAble(p: Params)
    requires ValidParams(p)
    ensures Drained(p, Start(p), TailOf(p)) && forall t :: 0 < t < Threads(p) ==> Able(p, Start(p), t)
  {
    hide FileHead;
    forall t | 0 < t < Threads(p) ensures Able(p, Start(p), t) {
      assert ValidStage(p.payloadSize, p.stages[t - 1]);
    }
  }

  lemma DrainedHasRoom(p: Params, s: State)
    requires Safe(p, s) && Drained(p, s, TailOf(p))
    ensures Frontier(s, 0) == |s.log| == Frontier(s, TailOf(p)) < Frontier(s, TailOf(p)) + p.capacity
  {
    hide Safe, Knows;
    SafeParts(p, s, 0);
  }

  /** Move `k` refuses nothing, and if the producer starts a call with it, it offers the payload of its position. */
  ghost predicate OfferedAt(p: Params, moves: seq<Move>, k: nat, payloads: seq<Payload>)
    requires ValidParams(p) && k < |moves|
  {
    var me := Run(p, moves[..k]).locals[0];
    && moves[k].input.ok
    && (moves[k].thread == 0 && me.control.Idle? ==>
          me.current < |payloads| && moves[k].input.payload == payloads[me.current])
  }

  ghost predicate Offered(p: Params, moves: seq<Move>, payloads: seq<Payload>)
    requires ValidParams(p)
  {
    forall k :: 0 <= k < |moves| ==> OfferedAt(p, moves, k, payloads)
  }

  /**
   * The model is not empty: every sequence of payloads of the right size that fits
   * the sequence space is the log of some run, at the end of which every stage has
   * processed, and every durable stage has synchronized, all of it. In this run no
   * module refuses anything, and whenever the producer starts a call it offers the
   * payload of its position.
   */
  lemma {:induction false} Delivers(p: Params, payloads: seq<Payload>) returns (moves: seq<Move>)
    requires ValidParams(p) && Fits(p, |payloads|)
    requires forall i :: 0 <= i < |payloads| ==> |payloads[i]| == p.payloadSize
    ensures Offered(p, moves, payloads)
    ensures var s := Run(p, moves);
      && s.log == payloads && Drained(p, s, TailOf(p)) && Faithful(p, s)
      && s.locals[0].control == Idle && forall t :: 0 < t < Threads(p) ==> Able(p, s, t)
    decreases |payloads|
  {
    hide Faithful, Safe, Step, Run, Continue, Drained, Able, StagesStill;
    if payloads == [] {
      moves := [];
      RunFaithful(p, []);
      StartAble(p);
      EmptyRun(p);
    } else {
      var n := |payloads| - 1;
      var before := Delivers(p, payloads[..n]);
      var s := Run(p, before);
      DrainedHasRoom(p, s);
      var publish := PublishOne(p, s, payloads[n]);
      var r := Continue(p, s, publish);
      assert payloads[..n] + [payloads[n]] == payloads;
      StillAble(p, s, r);
      var sweep := Sweep(p, r, TailOf(p));
      RunIsContinue(p, before);
      ContinueTwice(p, Start(p), before, publish);
      ContinueTwice(p, Start(p), before + publish, sweep);
      RunIsContinue(p, before + publish + sweep);
      ProducerAtEnd(p, s);
      OfferedOn(p, before, publish, sweep, payloads);
      moves := before + publish + sweep;
    }
  }

  lemma ProducerAtEnd(p: Params, s: State)
    requires Safe(p, s)
    ensures s.locals[0].current == |s.log|
  {
    hide Safe, Knows;
    SafeParts(p, s, 0);
  }

  lemma OfferedOn(p: Params, before: seq<Move>, publish: seq<Move>, sweep: seq<Move>, payloads: seq<Payload>)
    requires ValidParams(p) && payloads != [] && Offered(p, before, payloads[..|payloads| - 1])
    requires Run(p, before).locals[0].current == |payloads| - 1
    requires OneOffer(p, Run(p, before), publish, payloads[|payloads| - 1]) && InOrder(sweep, TailOf(p))
    ensures Offered(p, before + publish + sweep, payloads)
  {
    hide Run, OfferedAt, OneOffer;
    var all, middle := before + publish + sweep, before + publish;
    forall k | 0 <= k < |all| ensures OfferedAt(p, all, k, payloads) {
      if k < |before| {
        OfferedBefore(p, before, publish + sweep, k, payloads);
        assert all == before + (publish + sweep);
      } else if k < |middle| {
        OfferedByPublish(p, before, publish, sweep, k - |before|, payloads);
      } else {
        assert all[k] == sweep[k - |middle|];
        OfferedByStage(p, all, k, payloads);
      }
    }
  }

  lemma OfferedBefore(p: Params, before: seq<Move>, later: seq<Move>, k: nat, payloads: seq<Payload>)
    requires ValidParams(p) && payloads != [] && k < |before|
    requires OfferedAt(p, before, k, payloads[..|payloads| - 1])
    ensures OfferedAt(p, before + later, k, payloads)
  {
    hide Run;
    assert (before + later)[k] == before[k] && (before + later)[..k] == before[..k];
  }

  lemma OfferedByPublish(
    p: Params, before: seq<Move>, publish: seq<Move>, later: seq<Move>, m: nat, payloads: seq<Payload>)
    requires ValidParams(p) && payloads != [] && m < |publish|
    requires Run(p, before).locals[0].current == |payloads| - 1
    requires OneOffer(p, Run(p, before), publish, payloads[|payloads| - 1])
    ensures OfferedAt(p, before + publish + later, |before| + m, payloads)
  {
    hide Run, Continue;
    var all, k := before + publish + later, |before| + m;
    assert all[k] == publish[m] && all[..k] == before + publish[..m];
    if m == 0 {
      assert before + publish[..m] == before;
    } else {
      RunIsContinue(p, before);
      RunIsContinue(p, before + publish[..m]);
      ContinueTwice(p, Start(p), before, publish[..m]);
    }
  }

  lemma OfferedByStage(p: Params, moves: seq<Move>, k: nat, payloads: seq<Payload>)
    requires ValidParams(p) && k < |moves| && moves[k].thread != 0 && moves[k].input.ok
    ensures OfferedAt(p, moves, k, payloads)
  {}

  lemma EmptyRun(p: Params)
    requires ValidParams(p)
    ensures Run(p, []) == Start(p) && Start(p).log == [] && Start(p).locals[0].control == Idle
  {}
}
