/**
 * What a Slider does in the tract, under any interleaving, is what the single loop
 * of `SliderStage.Cadence` does: the same module calls and the same frontier
 * stores, in the same order, call of `process` by call of `process`.
 */
module TractJournal {
  import opened WalImage
  import opened WalScan
  import opened WalCanonical
  import opened ViewMemory
  import opened Tract
  import opened TractSafety
  import opened TractSteps
  import opened TractData
  import opened TractCadence
  import S = SliderStage

  /** One call of `process`: where it began, how far it was to go, how far it has come. */
  datatype Span = Span(start: nat, limit: nat, reach: nat)

  datatype Journal = Journal(trace: seq<S.Event>, spans: seq<Span>)

  // ----- Keeping the journal -----

  /** The module call and the frontier store that can be seen between two states. */
  function Seen(s: State, r: State, t: nat): seq<S.Event>
    requires t < |s.locals| && t < |r.locals| && t < |s.mem.history| && t < |r.mem.history| && r.mem.history[t] != []
  {
    var calls := r.locals[t].calls;
    (if |s.locals[t].calls| < |calls|
     then [S.Call(calls[|calls| - 1].position, calls[|calls| - 1].payload, calls[|calls| - 1].ok)] else [])
    + if |s.mem.history[t]| < |r.mem.history[t]| then [S.Publish(Frontier(r, t))] else []
  }

  function Reaching(spans: seq<Span>, reach: nat): (r: seq<Span>)
    ensures |r| == |spans|
  {
    if spans == [] then [] else spans[|spans| - 1 := spans[|spans| - 1].(reach := reach)]
  }

  function Noted(s: State, r: State, t: nat, j: Journal): Journal
    requires t < |s.locals| && t < |r.locals| && t < |s.mem.history| && t < |r.mem.history| && r.mem.history[t] != []
  {
    var me, now := s.locals[t], r.locals[t];
    Journal(j.trace + Seen(s, r, t),
      if me.control.Idle? && !now.control.Idle? then j.spans + [Span(now.current, now.limit, now.current)]
      else Reaching(j.spans, now.current))
  }

  /** The journal of stage `t` over a run. */
  function JournalOf(p: Params, moves: seq<Move>, t: nat): Journal
    requires ValidParams(p) && t < Threads(p)
  {
    if moves == [] then Journal([], [])
    else
      var earlier := moves[..|moves| - 1];
      Noted(Run(p, earlier), Run(p, moves), t, JournalOf(p, earlier, t))
  }

  // ----- What it should say -----

  /** A module that accepts the positions below `n`. */
  function Below(n: nat): nat -> bool {
    q => q < n
  }

  /** Each call starts where the one before ended, and stays within its limit. */
  ghost predicate Chained(spans: seq<Span>, current: nat, length: nat) {
    && (spans == [] ==> current == 0)
    && (spans != [] ==> spans[0].start == 0 && spans[|spans| - 1].reach == current)
    && (forall i :: 0 <= i < |spans| ==> spans[i].start <= spans[i].reach <= spans[i].limit <= length)
    && (forall i, k :: 0 <= i && k == i + 1 && k < |spans| ==> spans[k].start == spans[i].reach)
  }

  ghost predicate Within(spans: seq<Span>, length: nat) {
    forall i :: 0 <= i < |spans| ==> spans[i].start <= spans[i].limit <= length
  }

  /** The traces of single loops, one after the other, each stopped where its call was. */
  function TraceOf(log: seq<Payload>, spans: seq<Span>, publishCount: nat): seq<S.Event>
    requires forall i :: 0 <= i < |spans| ==> spans[i].start <= spans[i].limit <= |log|
  {
    if spans == [] then []
    else
      var last := spans[|spans| - 1];
      TraceOf(log, spans[..|spans| - 1], publishCount)
        + S.Cadence(log, last.start, last.limit, 0, publishCount, Below(last.reach))
  }

  /** What a call in progress has still to leave if its module accepts the positions below `n`. */
  function Rest(log: seq<Payload>, me: Local, publishCount: nat, n: nat): seq<S.Event>
    requires me.control.Idle? || me.current <= me.limit <= |log|
  {
    match me.control
    case Idle => []
    case Flushing(leaving) =>
      [S.Publish(me.current)]
        + if leaving then [] else S.Cadence(log, me.current, me.limit, 0, publishCount, Below(n))
    case _ => S.Cadence(log, me.current, me.limit, me.since, publishCount, Below(n))
  }

  /** The call can still end at `n`. */
  predicate CanReach(me: Local, n: nat) {
    n == me.current || (n > me.current && !me.control.Idle? && me.control != Flushing(true))
  }

  /** The journal of Slider `t` is right so far, however the present call goes on. */
  ghost predicate Right(log: seq<Payload>, me: Local, publishCount: nat, j: Journal) {
    && Chained(j.spans, me.current, |log|)
    && (!me.control.Idle? ==>
          && j.spans != [] && j.spans[|j.spans| - 1].limit == me.limit
          && me.current <= me.limit <= |log|)
    && forall n :: CanReach(me, n) ==>
         j.trace + Rest(log, me, publishCount, n) == TraceOf(log, Reaching(j.spans, n), publishCount)
  }

  // ----- Laws of the specification -----

  lemma {:induction false} CadenceLonger(
    log: seq<Payload>, more: seq<Payload>, current: nat, end: nat, since: nat, publishCount: nat, accepts: nat -> bool)
    requires log <= more && current <= end <= |log|
    ensures S.Cadence(log, current, end, since, publishCount, accepts)
         == S.Cadence(more, current, end, since, publishCount, accepts)
    decreases end - current
  {
    hide S.Cadence, S.Residual, S.Handling, S.Reach;
    if current == end {
      S.UnfoldEnd(log, end, since, publishCount, accepts);
      S.UnfoldEnd(more, end, since, publishCount, accepts);
    } else {
      S.Unfold(log, current, end, since, publishCount, accepts);
      S.Unfold(more, current, end, since, publishCount, accepts);
      SameHandling(log, more, current, since, publishCount, accepts(current));
      CadenceLonger(log, more, current + 1, end,
        if since + 1 == publishCount then 0 else since + 1, publishCount, accepts);
    }
  }

  lemma SameHandling(log: seq<Payload>, more: seq<Payload>, current: nat, since: nat, publishCount: nat, ok: bool)
    requires log <= more && current < |log|
    ensures S.Handling(log, current, since, publishCount, ok) == S.Handling(more, current, since, publishCount, ok)
  {
    assert log[current] == more[current];
  }

  lemma {:induction false} TraceLonger(log: seq<Payload>, more: seq<Payload>, spans: seq<Span>, publishCount: nat)
    requires log <= more && Within(spans, |log|)
    ensures TraceOf(log, spans, publishCount) == TraceOf(more, spans, publishCount)
    decreases |spans|
  {
    hide S.Cadence;
    if spans != [] {
      var last := spans[|spans| - 1];
      TraceLonger(log, more, spans[..|spans| - 1], publishCount);
      CadenceLonger(log, more, last.start, last.limit, 0, publishCount, Below(last.reach));
    }
  }

  lemma TraceSnoc(log: seq<Payload>, spans: seq<Span>, last: Span, publishCount: nat)
    requires Within(spans, |log|) && last.start <= last.limit <= |log|
    ensures Within(spans + [last], |log|)
    ensures TraceOf(log, spans + [last], publishCount)
         == TraceOf(log, spans, publishCount)
            + S.Cadence(log, last.start, last.limit, 0, publishCount, Below(last.reach))
  {
    hide S.Cadence;
    assert (spans + [last])[..|spans|] == spans;
  }

  // ----- One step of the journal -----

  /** A longer log says the same. */
  lemma RightLonger(log: seq<Payload>, more: seq<Payload>, me: Local, publishCount: nat, j: Journal)
    requires Right(log, me, publishCount, j) && log <= more
    ensures Right(more, me, publishCount, j)
  {
    hide S.Cadence, TraceOf;
    forall n | CanReach(me, n)
      ensures j.trace + Rest(more, me, publishCount, n) == TraceOf(more, Reaching(j.spans, n), publishCount)
    {
      TraceLonger(log, more, Reaching(j.spans, n), publishCount);
      if !me.control.Idle? {
        CadenceLonger(log, more, me.current, me.limit, 0, publishCount, Below(n));
        CadenceLonger(log, more, me.current, me.limit, me.since, publishCount, Below(n));
      }
    }
  }

  lemma ReachingTwice(spans: seq<Span>, a: nat, b: nat)
    ensures Reaching(Reaching(spans, a), b) == Reaching(spans, b)
  {}

  lemma ReachingSame(spans: seq<Span>, current: nat)
    requires spans != [] ==> spans[|spans| - 1].reach == current
    ensures Reaching(spans, current) == spans
  {}

  /** Steps inside a call that leave no event. */
  lemma RightQuietly(log: seq<Payload>, me: Local, now: Local, publishCount: nat, j: Journal)
    requires Right(log, me, publishCount, j)
    requires now.current == me.current
    requires me.control.Idle? <==> now.control.Idle?
    requires !me.control.Idle? ==> now.limit == me.limit && now.since == me.since
    requires me.control.Flushing? || now.control.Flushing? ==> now.control == me.control
    ensures Right(log, now, publishCount, Journal(j.trace + [], Reaching(j.spans, now.current)))
  {
    hide S.Cadence, TraceOf;
    ReachingSame(j.spans, me.current);
    assert j.trace + [] == j.trace;
  }

  /** A call begins. */
  lemma RightBegins(log: seq<Payload>, me: Local, now: Local, publishCount: nat, j: Journal)
    requires Right(log, me, publishCount, j) && me.control.Idle?
    requires now.control.Looping? && now.current == me.current <= now.limit <= |log| && now.since == 0
    ensures Right(log, now, publishCount,
      Journal(j.trace + [], j.spans + [Span(now.current, now.limit, now.current)]))
  {
    hide S.Cadence, TraceOf;
    ReachingSame(j.spans, me.current);
    assert j.trace + [] == j.trace;
    assert CanReach(me, me.current);
    assert j.trace + Rest(log, me, publishCount, me.current) == j.trace;
    var spans := j.spans + [Span(now.current, now.limit, now.current)];
    forall n | CanReach(now, n)
      ensures j.trace + Rest(log, now, publishCount, n) == TraceOf(log, Reaching(spans, n), publishCount)
    {
      TraceSnoc(log, j.spans, Span(now.current, now.limit, n), publishCount);
      assert Reaching(spans, n) == j.spans + [Span(now.current, now.limit, n)];
    }
  }

  /** Moving the first event of what is left into the trace. */
  lemma MoveOver(trace: seq<S.Event>, event: S.Event, rest: seq<S.Event>, whole: seq<S.Event>)
    requires trace + ([event] + rest) == whole
    ensures trace + [event] + rest == whole
  {
    assert trace + ([event] + rest) == trace + [event] + rest;
  }

  /** The module accepts: what is left starts with this call. */
  lemma RestAfterSuccess(log: seq<Payload>, me: Local, now: Local, publishCount: nat, n: nat)
    requires me.current < me.limit <= |log| && me.since < publishCount && me.current < n
    requires me.control.Viewing? && now.current == me.current + 1 && now.limit == me.limit && now.since == me.since + 1
    requires now.control == if now.since == publishCount || now.current == now.limit then Flushing(false) else Looping
    ensures Rest(log, me, publishCount, n)
         == [S.Call(me.current, log[me.current], true)] + Rest(log, now, publishCount, n)
  {
    hide S.Cadence, S.Reach;
    S.Unfold(log, me.current, me.limit, me.since, publishCount, Below(n));
    if now.current == now.limit {
      S.UnfoldEnd(log, now.limit, now.since, publishCount, Below(n));
      S.UnfoldEnd(log, now.limit, 0, publishCount, Below(n));
    }
  }

  lemma RestAfterRefusal(log: seq<Payload>, me: Local, now: Local, publishCount: nat)
    requires me.current < me.limit <= |log| && me.since < publishCount
    requires me.control.Viewing? && now.current == me.current && now.limit == me.limit
    requires now.control == if me.since != 0 then Flushing(true) else Idle
    ensures Rest(log, me, publishCount, me.current)
         == [S.Call(me.current, log[me.current], false)] + Rest(log, now, publishCount, me.current)
  {
    hide S.Cadence, S.Reach;
    S.Unfold(log, me.current, me.limit, me.since, publishCount, Below(me.current));
  }

  lemma RestAfterStore(log: seq<Payload>, me: Local, now: Local, publishCount: nat, n: nat)
    requires me.control.Flushing? && me.current <= me.limit <= |log| && CanReach(now, n)
    requires now.current == me.current && now.limit == me.limit && now.since == 0
    requires now.control == if me.control.leaving || me.current == me.limit then Idle else Looping
    ensures CanReach(me, n)
    ensures Rest(log, me, publishCount, n) == [S.Publish(me.current)] + Rest(log, now, publishCount, n)
  {
    hide S.Cadence, S.Reach;
    if me.current == me.limit {
      S.UnfoldEnd(log, me.limit, 0, publishCount, Below(n));
    }
  }

  /** One event moves from what is left into the trace. */
  lemma RightMoves(log: seq<Payload>, me: Local, now: Local, publishCount: nat, j: Journal, event: S.Event)
    requires Right(log, me, publishCount, j) && !me.control.Idle?
    requires me.current <= now.current <= now.limit == me.limit
    requires forall n :: CanReach(now, n) ==>
      CanReach(me, n) && Rest(log, me, publishCount, n) == [event] + Rest(log, now, publishCount, n)
    ensures Right(log, now, publishCount, Journal(j.trace + [event], Reaching(j.spans, now.current)))
  {
    hide S.Cadence, TraceOf, Rest;
    var next := Journal(j.trace + [event], Reaching(j.spans, now.current));
    forall n | CanReach(now, n)
      ensures next.trace + Rest(log, now, publishCount, n) == TraceOf(log, Reaching(next.spans, n), publishCount)
    {
      ReachingTwice(j.spans, now.current, n);
      assert CanReach(me, n);
      MoveOver(j.trace, event, Rest(log, now, publishCount, n), TraceOf(log, Reaching(j.spans, n), publishCount));
    }
  }

  // ----- The steps of the tract -----

  /** Nothing of stage `t` can be seen in a step that leaves it alone. */
  lemma SeenNothing(s: State, r: State, t: nat, j: Journal)
    requires t < |s.locals| && t < |r.locals| && t < |s.mem.history| && t < |r.mem.history| && r.mem.history[t] != []
    requires r.locals[t].calls == s.locals[t].calls && r.mem.history[t] == s.mem.history[t]
    ensures Noted(s, r, t, j).trace == j.trace + []
  {}

  lemma OthersJournal(p: Params, s: State, r: State, t: nat, j: Journal, publishCount: nat)
    requires WellShaped(p, s) && WellShaped(p, r) && 0 < t < Threads(p)
    requires Right(s.log, s.locals[t], publishCount, j)
    requires s.log <= r.log && r.locals[t] == s.locals[t] && r.mem.history[t] == s.mem.history[t]
    ensures Right(r.log, r.locals[t], publishCount, Noted(s, r, t, j))
  {
    hide Right;
    SeenNothing(s, r, t, j);
    RightLonger(s.log, r.log, s.locals[t], publishCount, j);
    RightQuietly(r.log, s.locals[t], r.locals[t], publishCount, j);
  }

  /** Loads and reads inside a call. */
  lemma QuietEffect(p: Params, s: State, t: nat, input: Input)
    requires Safe(p, s) && 0 < t < Threads(p)
    requires s.locals[t].control.Looping? || s.locals[t].control.TailLoaded?
      || (s.locals[t].control.Viewing? && |s.locals[t].control.buffer| < p.payloadSize)
    ensures var now := StageStep(p, s, t, input).locals[t];
      && now == s.locals[t].(control := now.control) && !now.control.Idle? && !now.control.Flushing?
      && StageStep(p, s, t, input).mem.history == s.mem.history && StageStep(p, s, t, input).log == s.log
  {
    hide Safe, Readable, Races, Confined;
  }

  lemma IdleEffect(p: Params, s: State, t: nat, input: Input)
    requires Safe(p, s) && 0 < t < Threads(p) && s.locals[t].control.Idle?
    ensures var now := StageStep(p, s, t, input).locals[t];
      && (now == s.locals[t]
          || (now.control.Looping? && now.current == s.locals[t].current && now.since == 0
              && now.calls == s.locals[t].calls))
      && StageStep(p, s, t, input).mem.history == s.mem.history && StageStep(p, s, t, input).log == s.log
  {
    hide Safe, Readable, Knows, Confined;
    SafeParts(p, s, t);
  }

  /** A Slider's state after its module has answered. */
  function Answered(me: Local, payload: Payload, publishCount: nat, ok: bool): Local {
    var called := me.(calls := me.calls + [ModuleCall(me.current, payload, ok)]);
    if !ok then called.(control := if me.since != 0 then Flushing(true) else Idle)
    else called.(
      current := me.current + 1, since := me.since + 1,
      control := if me.since + 1 == publishCount || me.current + 1 == me.limit then Flushing(false) else Looping)
  }

  lemma HandleEffect(p: Params, s: State, t: nat, input: Input)
    requires Safe(p, s) && 0 < t < Threads(p) && p.stages[t - 1].SliderOf?
    requires s.locals[t].control.Viewing? && |s.locals[t].control.buffer| >= p.payloadSize
    ensures StageStep(p, s, t, input) == SetLocal(s, t,
      Answered(s.locals[t], s.locals[t].control.buffer, p.stages[t - 1].publishCount, input.ok))
  {
    hide Safe, Confined;
  }

  lemma StoreEffect(p: Params, s: State, t: nat, input: Input)
    requires Safe(p, s) && 0 < t < Threads(p) && s.locals[t].control.Flushing?
    ensures var me, r := s.locals[t], StageStep(p, s, t, input);
      && r.locals[t] == me.(
           control := if me.control.leaving || me.current == me.limit then Idle else Looping, since := 0)
      && |r.mem.history[t]| == |s.mem.history[t]| + 1 && Frontier(r, t) == me.current && r.log == s.log
  {
    hide Safe, Confined;
  }

  /** What is known of a Slider inside a call. */
  lemma SliderInCall(p: Params, s: State, t: nat)
    requires Faithful(p, s) && 0 < t < Threads(p) && p.stages[t - 1].SliderOf? && !s.locals[t].control.Idle?
    ensures Safe(p, s)
    ensures var me, publishCount := s.locals[t], p.stages[t - 1].publishCount;
      && !me.control.Appending? && !me.control.Syncing?
      && me.current <= me.limit <= |s.log|
      && (!me.control.Flushing? ==> me.current < me.limit && me.since < publishCount)
      && (me.control.Looping? || me.control.TailLoaded? || me.control.Viewing? || me.control.Flushing?)
      && (me.control.Viewing? && |me.control.buffer| >= p.payloadSize ==> me.control.buffer == s.log[me.current])
  {
    hide Faithful, Safe, Knows, SlotsHold, ProducerHolds, CallsHold;
    FaithfulParts(p, s, t);
    SafeParts(p, s, t);
    StagePosition(p, s, t);
    SizesHold(p, s);
  }

  lemma IdleJournal(p: Params, s: State, t: nat, input: Input, j: Journal)
    requires Faithful(p, s) && 0 < t < Threads(p) && p.stages[t - 1].SliderOf? && s.locals[t].control.Idle?
    requires Right(s.log, s.locals[t], p.stages[t - 1].publishCount, j)
    ensures var r := StageStep(p, s, t, input);
      Right(r.log, r.locals[t], p.stages[t - 1].publishCount, Noted(s, r, t, j))
  {
    hide Faithful, Safe, StageStep, Right;
    var r := StageStep(p, s, t, input);
    IdleEffect(p, s, t, input);
    SeenNothing(s, r, t, j);
    if r.locals[t] == s.locals[t] {
      RightQuietly(s.log, s.locals[t], r.locals[t], p.stages[t - 1].publishCount, j);
    } else {
      StageFaithful(p, s, t, input);
      SliderInCall(p, r, t);
      RightBegins(s.log, s.locals[t], r.locals[t], p.stages[t - 1].publishCount, j);
    }
  }

  lemma HandleJournal(p: Params, s: State, t: nat, input: Input, j: Journal)
    requires Faithful(p, s) && 0 < t < Threads(p) && p.stages[t - 1].SliderOf?
    requires s.locals[t].control.Viewing? && |s.locals[t].control.buffer| >= p.payloadSize
    requires Right(s.log, s.locals[t], p.stages[t - 1].publishCount, j)
    ensures var r := StageStep(p, s, t, input);
      Right(r.log, r.locals[t], p.stages[t - 1].publishCount, Noted(s, r, t, j))
  {
    hide Faithful, Safe, StageStep, Right, Rest;
    var r, me := StageStep(p, s, t, input), s.locals[t];
    var publishCount, log := p.stages[t - 1].publishCount, s.log;
    HandleEffect(p, s, t, input);
    SliderInCall(p, s, t);
    var now := r.locals[t];
    var event := S.Call(me.current, log[me.current], input.ok);
    assert Seen(s, r, t) == [event];
    forall n | CanReach(now, n)
      ensures CanReach(me, n) && Rest(log, me, publishCount, n) == [event] + Rest(log, now, publishCount, n)
    {
      if input.ok {
        RestAfterSuccess(log, me, now, publishCount, n);
      } else {
        RestAfterRefusal(log, me, now, publishCount);
      }
    }
    RightMoves(log, me, now, publishCount, j, event);
  }

  lemma StoreJournal(p: Params, s: State, t: nat, input: Input, j: Journal)
    requires Faithful(p, s) && 0 < t < Threads(p) && p.stages[t - 1].SliderOf? && s.locals[t].control.Flushing?
    requires Right(s.log, s.locals[t], p.stages[t - 1].publishCount, j)
    ensures var r := StageStep(p, s, t, input);
      Right(r.log, r.locals[t], p.stages[t - 1].publishCount, Noted(s, r, t, j))
  {
    hide Faithful, Safe, StageStep, Right, Rest, CanReach;
    var r, me := StageStep(p, s, t, input), s.locals[t];
    var publishCount := p.stages[t - 1].publishCount;
    StoreEffect(p, s, t, input);
    SliderInCall(p, s, t);
    var event := S.Publish(me.current);
    assert Seen(s, r, t) == [event];
    forall n | CanReach(r.locals[t], n)
      ensures CanReach(me, n) && Rest(s.log, me, publishCount, n) == [event] + Rest(s.log, r.locals[t], publishCount, n)
    {
      RestAfterStore(s.log, me, r.locals[t], publishCount, n);
    }
    RightMoves(s.log, me, r.locals[t], publishCount, j, event);
  }

  lemma StageJournal(p: Params, s: State, t: nat, input: Input, j: Journal)
    requires Faithful(p, s) && 0 < t < Threads(p) && p.stages[t - 1].SliderOf?
    requires Right(s.log, s.locals[t], p.stages[t - 1].publishCount, j)
    ensures var r := StageStep(p, s, t, input);
      Right(r.log, r.locals[t], p.stages[t - 1].publishCount, Noted(s, r, t, j))
  {
    hide Faithful, Safe, StageStep, Right;
    var me := s.locals[t];
    if me.control.Idle? {
      IdleJournal(p, s, t, input, j);
    } else {
      SliderInCall(p, s, t);
      if me.control.Flushing? {
        StoreJournal(p, s, t, input, j);
      } else if me.control.Viewing? && |me.control.buffer| >= p.payloadSize {
        HandleJournal(p, s, t, input, j);
      } else {
        var r := StageStep(p, s, t, input);
        QuietEffect(p, s, t, input);
        SeenNothing(s, r, t, j);
        RightQuietly(s.log, me, r.locals[t], p.stages[t - 1].publishCount, j);
      }
    }
  }

  lemma StepJournal(p: Params, s: State, move: Move, t: nat, j: Journal)
    requires Faithful(p, s) && 0 < t < Threads(p) && p.stages[t - 1].SliderOf?
    requires Right(s.log, s.locals[t], p.stages[t - 1].publishCount, j)
    ensures var r := Step(p, s, move);
      Right(r.log, r.locals[t], p.stages[t - 1].publishCount, Noted(s, r, t, j))
  {
    hide Faithful, Safe, StageStep, ProducerStep, Right, Noted;
    if move.thread == t {
      StageJournal(p, s, t, move.input, j);
    } else {
      OtherStep(p, s, move, t);
      OthersJournal(p, s, Step(p, s, move), t, j, p.stages[t - 1].publishCount);
    }
  }

  // ----- Every run -----

  lemma {:induction false} RunJournal(p: Params, moves: seq<Move>, t: nat)
    requires ValidParams(p) && 0 < t < Threads(p) && p.stages[t - 1].SliderOf?
    ensures Right(Run(p, moves).log, Run(p, moves).locals[t], p.stages[t - 1].publishCount, JournalOf(p, moves, t))
  {
    hide Faithful, Step, Right, Noted, Start;
    if moves == [] {
      StartJournal(p, t);
    } else {
      var earlier := moves[..|moves| - 1];
      RunJournal(p, earlier, t);
      RunFaithful(p, earlier);
      StepJournal(p, Run(p, earlier), moves[|moves| - 1], t, JournalOf(p, earlier, t));
    }
  }

  lemma StartJournal(p: Params, t: nat)
    requires ValidParams(p) && 0 < t < Threads(p) && p.stages[t - 1].SliderOf?
    ensures Right(Start(p).log, Start(p).locals[t], p.stages[t - 1].publishCount, Journal([], []))
  {
    hide S.Cadence;
  }

  /**
   * In every run, the module calls and frontier stores of a Slider are those of one
   * single loop per call of `process`, each from where the last one ended to the
   * limit it saw, stopped where the module refused; of the call in progress the
   * part still missing is known. Between calls nothing is missing.
   */
  lemma RunRefinesCadence(p: Params, moves: seq<Move>, t: nat)
    requires ValidParams(p) && 0 < t < Threads(p) && p.stages[t - 1].SliderOf?
    ensures var s, j := Run(p, moves), JournalOf(p, moves, t);
      var me, publishCount := s.locals[t], p.stages[t - 1].publishCount;
      && Chained(j.spans, me.current, |s.log|)
      && (me.control.Idle? || me.current <= me.limit <= |s.log|)
      && j.trace + Rest(s.log, me, publishCount, me.current) == TraceOf(s.log, j.spans, publishCount)
      && (me.control.Idle? ==> j.trace == TraceOf(s.log, j.spans, publishCount))
  {
    hide Run, JournalOf, S.Cadence, TraceOf;
    RunJournal(p, moves, t);
    var s, j := Run(p, moves), JournalOf(p, moves, t);
    ReachingSame(j.spans, s.locals[t].current);
    assert CanReach(s.locals[t], s.locals[t].current);
    assert j.trace + [] == j.trace;
  }

  /** What one call publishes: every `publishCount`-th position from its start, and where it stopped. */
  lemma SpanPublishes(log: seq<Payload>, span: Span, publishCount: nat)
    requires publishCount > 0 && span.start <= span.reach <= span.limit <= |log|
    ensures S.Publishes(S.Cadence(log, span.start, span.limit, 0, publishCount, Below(span.reach)))
         == S.Points(span.start, span.reach, publishCount)
    ensures S.Completed(S.Cadence(log, span.start, span.limit, 0, publishCount, Below(span.reach)))
         == S.Range(span.start, span.reach)
  {
    hide S.Cadence, S.Publishes, S.Completed;
    ReachesBelow(span.start, span.limit, span.reach);
    S.CadencePublishes(log, span.start, span.limit, 0, publishCount, Below(span.reach));
    S.CadenceCompletes(log, span.start, span.limit, 0, publishCount, Below(span.reach));
  }

  lemma {:induction false} ReachesBelow(current: nat, end: nat, n: nat)
    requires current <= n <= end
    ensures S.Reach(current, end, Below(n)) == n
    decreases end - current
  {
    if current < n {
      ReachesBelow(current + 1, end, n);
    }
  }

  // ----- The journal is the history of the frontier and of the module -----

  function Values(h: seq<Message>): (v: seq<nat>)
    ensures |v| == |h| && forall i :: 0 <= i < |h| ==> v[i] == h[i].value
  {
    seq(|h|, i requires 0 <= i < |h| => h[i].value)
  }

  lemma StartHistory(p: Params, t: nat)
    requires ValidParams(p) && 0 < t < Threads(p)
    ensures S.Publishes([]) == Values(Start(p).mem.history[t][1..])
    ensures S.Completed([]) == Accepted(Start(p).locals[t].calls)
  {}

  /** At most one element was added at the end. */
  ghost predicate Grows<T>(before: seq<T>, after: seq<T>) {
    before <= after && |after| <= |before| + 1
  }

  /** At most one call and one message are added by a step. */
  lemma StepAdds(p: Params, s: State, move: Move, t: nat)
    requires Safe(p, s) && 0 < t < Threads(p)
    ensures var r := Step(p, s, move);
      Grows(s.locals[t].calls, r.locals[t].calls) && Grows(s.mem.history[t], r.mem.history[t])
  {
    hide Safe, ProducerStep, StageStep;
    if move.thread == t {
      StageAdds(p, s, t, move.input);
    } else {
      OtherStep(p, s, move, t);
    }
  }

  lemma StageAdds(p: Params, s: State, t: nat, input: Input)
    requires Safe(p, s) && 0 < t < Threads(p)
    ensures var r := StageStep(p, s, t, input);
      Grows(s.locals[t].calls, r.locals[t].calls) && Grows(s.mem.history[t], r.mem.history[t])
  {
    hide Safe, StageStep, Advanced;
    StageStoresWithin(p, s, t, input);
    if s.mem.history[t] != StageStep(p, s, t, input).mem.history[t] {
      AdvancedGrows(s.mem.history[t], StageStep(p, s, t, input).mem.history[t], Stride(p, t));
    }
    CallsGrow(p, s, t, input);
  }

  lemma AdvancedGrows(before: seq<Message>, after: seq<Message>, stride: nat)
    requires Advanced(before, after, stride)
    ensures Grows(before, after)
  {}

  lemma CallsGrow(p: Params, s: State, t: nat, input: Input)
    requires Safe(p, s) && 0 < t < Threads(p)
    ensures Grows(s.locals[t].calls, StageStep(p, s, t, input).locals[t].calls)
  {
    hide Safe, Readable, Races, Load, Store, Touch, Exhausted, RecordBytes, SequenceOf, CallLimit, Confined;
  }

  /** What the calls seen in a step add to the accepted positions. */
  lemma CallsAdd(before: seq<ModuleCall>, after: seq<ModuleCall>)
    requires Grows(before, after)
    ensures Accepted(after) == Accepted(before)
      + if |before| < |after| && after[|before|].ok then [after[|before|].position] else []
  {
    hide Accepted;
    if |before| < |after| {
      assert after == before + [after[|before|]];
      AcceptedSnoc(before, after[|before|]);
    } else {
      assert after == before;
    }
  }

  lemma MessagesAdd(before: seq<Message>, after: seq<Message>)
    requires Grows(before, after) && before != []
    ensures Values(after[1..]) == Values(before[1..])
      + if |before| < |after| then [after[|after| - 1].value] else []
  {
    if |before| == |after| {
      assert after == before;
    }
  }

  /** An event of each kind, or none. */
  lemma SeenAdds(call: seq<S.Event>, store: seq<S.Event>)
    requires |call| <= 1 && |store| <= 1
    requires (call != [] ==> call[0].Call?) && (store != [] ==> store[0].Publish?)
    ensures S.Completed(call + store) == if call != [] && call[0].ok then [call[0].position] else []
    ensures S.Publishes(call + store) == if store != [] then [store[0].end] else []
  {
    hide S.Completed, S.Publishes;
    S.CompletedSplit(call, store);
    S.PublishesSplit(call, store);
    NoEvent();
    if call != [] {
      assert call == [call[0]];
      S.OneEvent(call[0]);
    }
    if store != [] {
      assert store == [store[0]];
      S.OneEvent(store[0]);
    }
  }

  lemma NoEvent()
    ensures S.Completed([]) == [] && S.Publishes([]) == []
  {}

  /** A step adds to the journal's trace what it adds to the frontier's messages and to the module's calls. */
  lemma SeenIsHistory(p: Params, s: State, move: Move, t: nat, trace: seq<S.Event>)
    requires Safe(p, s) && 0 < t < Threads(p)
    requires S.Publishes(trace) == Values(s.mem.history[t][1..]) && S.Completed(trace) == Accepted(s.locals[t].calls)
    ensures var r := Step(p, s, move);
      && S.Publishes(trace + Seen(s, r, t)) == Values(r.mem.history[t][1..])
      && S.Completed(trace + Seen(s, r, t)) == Accepted(r.locals[t].calls)
  {
    hide Safe, Step, S.Publishes, S.Completed, Accepted, Values;
    var r := Step(p, s, move);
    StepAdds(p, s, move, t);
    var calls, more := s.locals[t].calls, r.locals[t].calls;
    CallsAdd(calls, more);
    MessagesAdd(s.mem.history[t], r.mem.history[t]);
    var call :=
      if |calls| < |more|
      then [S.Call(more[|more| - 1].position, more[|more| - 1].payload, more[|more| - 1].ok)] else [];
    var store := if |s.mem.history[t]| < |r.mem.history[t]| then [S.Publish(Frontier(r, t))] else [];
    assert Seen(s, r, t) == call + store;
    SeenAdds(call, store);
    S.PublishesSplit(trace, call + store);
    S.CompletedSplit(trace, call + store);
  }

  /** The stores in the journal are the messages of the frontier, and its accepted calls are those of the module. */
  lemma {:induction false} JournalIsHistory(p: Params, moves: seq<Move>, t: nat)
    requires ValidParams(p) && 0 < t < Threads(p)
    ensures var s, trace := Run(p, moves), JournalOf(p, moves, t).trace;
      S.Publishes(trace) == Values(s.mem.history[t][1..]) && S.Completed(trace) == Accepted(s.locals[t].calls)
  {
    hide Step, Start, S.Publishes, S.Completed, Accepted, Values, Safe;
    if moves == [] {
      StartHistory(p, t);
    } else {
      var earlier := moves[..|moves| - 1];
      JournalIsHistory(p, earlier, t);
      RunSafe(p, earlier);
      SeenIsHistory(p, Run(p, earlier), moves[|moves| - 1], t, JournalOf(p, earlier, t).trace);
    }
  }
}
