/**
 * What Full means: the producer may report it on an old value of Tail, and then
 * there need not be anything left to do.
 */
module TractFull {
  import opened Words
  import opened WalImage
  import opened ViewMemory
  import opened Tract
  import opened TractSafety
  import opened TractSteps
  import opened TractProgress

  /** Some stage has records upstream that it has not passed. */
  ghost predicate SomeWork(p: Params, s: State)
    requires WellShaped(p, s)
  {
    exists t :: 0 < t < Threads(p) && Frontier(s, t) < Frontier(s, t - 1)
  }

  /** There is work exactly while Tail is behind Head. */
  lemma {:induction false} WorkIffBehind(p: Params, s: State, j: nat)
    requires Safe(p, s) && j < Threads(p)
    ensures Frontier(s, j) <= Frontier(s, 0)
    ensures Frontier(s, j) < Frontier(s, 0)
       <==> exists t :: 0 < t <= j && Frontier(s, t) < Frontier(s, t - 1)
    decreases j
  {
    hide Safe;
    if j > 0 {
      WorkIffBehind(p, s, j - 1);
      FrontierOrder(p, s, j - 1, j);
      if Frontier(s, j) < Frontier(s, j - 1) {
        assert 0 < j <= j && Frontier(s, j) < Frontier(s, j - 1);
      }
    }
  }

  /** What the producer's load of Tail leads to: Full, exhaustion, or the copy. */
  lemma PublishReports(p: Params, s: State, input: Input)
    requires Safe(p, s) && s.locals[0].control.LoadingTail? && Readable(s.mem, Threads(p), 0, TailOf(p), input.index)
    ensures input.index < |s.mem.history[TailOf(p)]|
    ensures var r, tail := ProducerStep(p, s, input), s.mem.history[TailOf(p)][input.index].value;
      && tail <= Frontier(s, 0) <= tail + p.capacity && r.log == s.log
      && (r.locals[0].control == Idle <==> Frontier(s, 0) == tail + p.capacity || Frontier(s, 0) == U64_MAX)
      && (r.locals[0].control != Idle <==> r.locals[0].control == Copying(s.locals[0].control.payload, 0))
  {
    hide Safe, Readable, Knows, Load;
    SafeParts(p, s, 0);
    ReadableExists(s.mem, Threads(p), 0, TailOf(p), input.index);
    ReadAtLeast(p, s, 0, TailOf(p), input.index, s.locals[0].current - p.capacity);
    FrontierOrder(p, s, 0, TailOf(p));
  }

  /**
   * A publication that reports Full: some stage has work exactly if the newest Tail
   * is below Head, which is so whenever the newest Tail is the one that was read.
   * An older Tail may still be read when there is nothing left to do; see `StaleFull`.
   */
  lemma FullHasWork(p: Params, s: State, input: Input)
    requires Safe(p, s) && s.locals[0].control.LoadingTail? && Readable(s.mem, Threads(p), 0, TailOf(p), input.index)
    requires input.index < |s.mem.history[TailOf(p)]|
    requires Frontier(s, 0) - s.mem.history[TailOf(p)][input.index].value == p.capacity
    ensures ProducerStep(p, s, input).locals[0].control == Idle && ProducerStep(p, s, input).log == s.log
    ensures SomeWork(p, s) <==> Frontier(s, TailOf(p)) < Frontier(s, 0)
    ensures input.index == Newest(s, TailOf(p)) ==> SomeWork(p, s)
  {
    hide Safe, Readable, ProducerStep;
    PublishReports(p, s, input);
    WorkIffBehind(p, s, TailOf(p));
    BehindIsWork(p, s);
  }

  lemma BehindIsWork(p: Params, s: State)
    requires WellShaped(p, s)
    ensures SomeWork(p, s) <==> exists t :: 0 < t <= TailOf(p) && Frontier(s, t) < Frontier(s, t - 1)
  {}

  /** The smallest tract: one slot, one byte, one stage that publishes every success. */
  function Smallest(): (p: Params)
    ensures ValidParams(p) && Threads(p) == 2 && TailOf(p) == 1
  {
    Params(1, 1, [SliderOf(1)])
  }

  /** Publish one record, process it, and begin to publish another. */
  function StaleMoves(): seq<Move> {
    [Move(0, Input(0, [0], true, 0)), Move(0, Input(0, [], true, 0)),
     Move(0, Input(0, [], true, 0)), Move(0, Input(0, [], true, 0)),
     Move(1, Input(1, [], true, 0)), Move(1, Input(0, [], true, 0)), Move(1, Input(1, [], true, 0)),
     Move(1, Input(0, [], true, 0)), Move(1, Input(0, [], true, 0)), Move(1, Input(0, [], true, 0)),
     Move(0, Input(0, [0], true, 0))]
  }

  /** Both threads of the smallest tract, and what the producer knows of Tail's time. */
  ghost predicate At(s: State, producer: Control, head: nat, stage: Control, done: nat, limit: nat, tail: nat) {
    && Safe(Smallest(), s)
    && s.locals[0].control == producer && s.locals[0].current == head
    && s.locals[1].control == stage && s.locals[1].current == done && s.locals[1].limit == limit
    && !s.locals[1].file.failed && s.locals[1].since == (if stage == Flushing(false) then 1 else 0)
    && |s.mem.history[0]| == head + 1 && Frontier(s, 0) == head
    && |s.mem.history[1]| == tail + 1 && Frontier(s, 1) == tail
    && s.mem.history[1][0].value == 0 && s.mem.history[1][0].clock[1] == 0 && s.mem.clocks[0][1] == 0
    && forall j :: 0 < j <= tail ==> 0 < s.mem.history[1][j].clock[1]
  }

  lemma StaleRequests(s: State, head: nat, done: nat, limit: nat, tail: nat)
    requires At(s, Idle, head, Idle, done, limit, tail)
    ensures At(ProducerStep(Smallest(), s, Input(0, [0], true, 0)), LoadingTail([0]), head, Idle, done, limit, tail)
  {
    hide Safe, Readable, Races;
    ProducerSafe(Smallest(), s, Input(0, [0], true, 0));
  }

  lemma StaleLoads(s: State)
    requires At(s, LoadingTail([0]), 0, Idle, 0, 0, 0)
    ensures At(ProducerStep(Smallest(), s, Input(0, [], true, 0)), Copying([0], 0), 0, Idle, 0, 0, 0)
  {
    hide Safe, Readable, Races;
    ProducerSafe(Smallest(), s, Input(0, [], true, 0));
    NewestReadable(s.mem, 2, 0, 1);
  }

  lemma StaleCopies(s: State)
    requires At(s, Copying([0], 0), 0, Idle, 0, 0, 0)
    ensures At(ProducerStep(Smallest(), s, Input(0, [], true, 0)), Copying([0], 1), 0, Idle, 0, 0, 0)
  {
    hide Safe, Readable, Races;
    ProducerSafe(Smallest(), s, Input(0, [], true, 0));
  }

  lemma StalePublishes(s: State)
    requires At(s, Copying([0], 1), 0, Idle, 0, 0, 0)
    ensures At(ProducerStep(Smallest(), s, Input(0, [], true, 0)), Idle, 1, Idle, 0, 0, 0)
  {
    hide Safe, Readable, Races;
    ProducerSafe(Smallest(), s, Input(0, [], true, 0));
  }

  lemma StaleBegins(s: State)
    requires At(s, Idle, 1, Idle, 0, 0, 0)
    ensures At(StageStep(Smallest(), s, 1, Input(1, [], true, 0)), Idle, 1, Looping, 0, 1, 0)
  {
    hide Safe, Readable, Races;
    StageSafe(Smallest(), s, 1, Input(1, [], true, 0));
    NewestReadable(s.mem, 2, 1, 0);
  }

  lemma StaleLoadsTail(s: State)
    requires At(s, Idle, 1, Looping, 0, 1, 0)
    ensures At(StageStep(Smallest(), s, 1, Input(0, [], true, 0)), Idle, 1, TailLoaded(0), 0, 1, 0)
  {
    hide Safe, Readable, Races;
    StageSafe(Smallest(), s, 1, Input(0, [], true, 0));
    NewestReadable(s.mem, 2, 1, 1);
  }

  lemma StaleLoadsHead(s: State)
    requires At(s, Idle, 1, TailLoaded(0), 0, 1, 0)
    ensures At(StageStep(Smallest(), s, 1, Input(1, [], true, 0)), Idle, 1, Viewing([]), 0, 1, 0)
  {
    hide Safe, Readable, Races;
    StageSafe(Smallest(), s, 1, Input(1, [], true, 0));
    NewestReadable(s.mem, 2, 1, 0);
  }

  lemma StaleReads(s: State)
    requires At(s, Idle, 1, Viewing([]), 0, 1, 0)
    ensures At(StageStep(Smallest(), s, 1, Input(0, [], true, 0)), Idle, 1, Viewing([s.slots[0][0]]), 0, 1, 0)
  {
    hide Safe, Readable, Races;
    StageSafe(Smallest(), s, 1, Input(0, [], true, 0));
  }

  lemma StaleHandles(s: State, buffer: Payload)
    requires At(s, Idle, 1, Viewing(buffer), 0, 1, 0) && |buffer| == 1
    ensures At(StageStep(Smallest(), s, 1, Input(0, [], true, 0)), Idle, 1, Flushing(false), 1, 1, 0)
  {
    hide Safe, Readable, Races;
    StageSafe(Smallest(), s, 1, Input(0, [], true, 0));
  }

  lemma StaleStores(s: State)
    requires At(s, Idle, 1, Flushing(false), 1, 1, 0)
    ensures At(StageStep(Smallest(), s, 1, Input(0, [], true, 0)), Idle, 1, Idle, 1, 1, 1)
  {
    hide Safe, Readable, Races;
    StageSafe(Smallest(), s, 1, Input(0, [], true, 0));
  }

  /** The first of some moves, taken on its own. */
  lemma FirstMove(p: Params, s: State, moves: seq<Move>, k: nat, t: nat, input: Input)
    requires Safe(p, s) && k < |moves| && moves[k] == Move(t, input) && t < Threads(p)
    ensures Continue(p, s, moves[k..])
         == Continue(p, if t == 0 then ProducerStep(p, s, input) else StageStep(p, s, t, input), moves[k + 1..])
  {
    hide Safe, Continue, ProducerStep, StageStep;
    assert moves[k..] == [moves[k]] + moves[k + 1..];
    ContinueTwice(p, s, [moves[k]], moves[k + 1..]);
    if t == 0 {
      ContinueProducer(p, s, input);
    } else {
      ContinueOne(p, s, t, input);
    }
  }

  lemma StaleMovesAre(moves: seq<Move>)
    requires moves == StaleMoves()
    ensures |moves| == 11 && moves[..] == moves[0..] == moves && moves[11..] == []
    ensures moves[0] == moves[10] == Move(0, Input(0, [0], true, 0))
    ensures moves[1] == moves[2] == moves[3] == Move(0, Input(0, [], true, 0))
    ensures moves[4] == moves[6] == Move(1, Input(1, [], true, 0))
    ensures moves[5] == moves[7] == moves[8] == moves[9] == Move(1, Input(0, [], true, 0))
  {}

  lemma StaleStart()
    ensures At(Start(Smallest()), Idle, 0, Idle, 0, 0, 0)
  {
    StartSafe(Smallest());
    hide Safe;
  }

  lemma StaleSafe(s: State, producer: Control, head: nat, stage: Control, done: nat, limit: nat, tail: nat)
    requires At(s, producer, head, stage, done, limit, tail)
    ensures Safe(Smallest(), s) && s.slots != [] && |s.slots[0]| == 1
  {
    hide Safe;
  }

  lemma StaleEnd()
    ensures At(Run(Smallest(), StaleMoves()), LoadingTail([0]), 1, Idle, 1, 1, 1)
  {
    var p, moves := Smallest(), StaleMoves();
    StaleMovesAre(moves);
    hide *;
    StaleStart();
    StaleRuns(Start(p), moves);
    RunIsContinue(p, moves);
  }

  lemma StaleRuns(s0: State, moves: seq<Move>)
    requires At(s0, Idle, 0, Idle, 0, 0, 0) && moves == StaleMoves()
    ensures At(Continue(Smallest(), s0, moves[0..]), LoadingTail([0]), 1, Idle, 1, 1, 1)
  {
    var p := Smallest();
    StaleMovesAre(moves);
    hide *;
    var none, request := Input(0, [], true, 0), Input(0, [0], true, 0);
    StaleSafe(s0, Idle, 0, Idle, 0, 0, 0);
    FirstMove(p, s0, moves, 0, 0, request);
    StaleRequests(s0, 0, 0, 0, 0);
    var s1 := ProducerStep(p, s0, request);
    StaleSafe(s1, LoadingTail([0]), 0, Idle, 0, 0, 0);
    FirstMove(p, s1, moves, 1, 0, none);
    StaleLoads(s1);
    var s2 := ProducerStep(p, s1, none);
    StaleSafe(s2, Copying([0], 0), 0, Idle, 0, 0, 0);
    FirstMove(p, s2, moves, 2, 0, none);
    StaleCopies(s2);
    var s3 := ProducerStep(p, s2, none);
    StaleSafe(s3, Copying([0], 1), 0, Idle, 0, 0, 0);
    FirstMove(p, s3, moves, 3, 0, none);
    StalePublishes(s3);
    StaleProcesses(ProducerStep(p, s3, none), moves);
  }

  lemma StaleProcesses(s4: State, moves: seq<Move>)
    requires At(s4, Idle, 1, Idle, 0, 0, 0) && moves == StaleMoves()
    ensures At(Continue(Smallest(), s4, moves[4..]), LoadingTail([0]), 1, Idle, 1, 1, 1)
  {
    var p := Smallest();
    StaleMovesAre(moves);
    hide *;
    var none, newest := Input(0, [], true, 0), Input(1, [], true, 0);
    StaleSafe(s4, Idle, 1, Idle, 0, 0, 0);
    FirstMove(p, s4, moves, 4, 1, newest);
    StaleBegins(s4);
    var s5 := StageStep(p, s4, 1, newest);
    StaleSafe(s5, Idle, 1, Looping, 0, 1, 0);
    FirstMove(p, s5, moves, 5, 1, none);
    StaleLoadsTail(s5);
    var s6 := StageStep(p, s5, 1, none);
    StaleSafe(s6, Idle, 1, TailLoaded(0), 0, 1, 0);
    FirstMove(p, s6, moves, 6, 1, newest);
    StaleLoadsHead(s6);
    var s7 := StageStep(p, s6, 1, newest);
    StaleSafe(s7, Idle, 1, Viewing([]), 0, 1, 0);
    FirstMove(p, s7, moves, 7, 1, none);
    StaleReads(s7);
    var s8, buffer := StageStep(p, s7, 1, none), [s7.slots[0][0]];
    StaleSafe(s8, Idle, 1, Viewing(buffer), 0, 1, 0);
    FirstMove(p, s8, moves, 8, 1, none);
    StaleHandles(s8, buffer);
    var s9 := StageStep(p, s8, 1, none);
    StaleSafe(s9, Idle, 1, Flushing(false), 1, 1, 0);
    FirstMove(p, s9, moves, 9, 1, none);
    StaleStores(s9);
    var s10 := StageStep(p, s9, 1, none);
    StaleSafe(s10, Idle, 1, Idle, 1, 1, 1);
    FirstMove(p, s10, moves, 10, 0, Input(0, [0], true, 0));
    StaleRequests(s10, 1, 1, 1, 1);
    NothingMoves(p, ProducerStep(p, s10, Input(0, [0], true, 0)), 0);
  }

  /**
   * The input on which a publication reports Full with nothing left to do: after
   * `StaleMoves` the producer may still read the Tail of before the stage's store.
   */
  lemma StaleFull()
    ensures var p, s := Smallest(), Run(Smallest(), StaleMoves());
      && s.locals[0].control.LoadingTail? && Readable(s.mem, Threads(p), 0, TailOf(p), 0)
      && Frontier(s, 0) - s.mem.history[TailOf(p)][0].value == p.capacity
      && !SomeWork(p, s)
      && ProducerStep(p, s, Input(0, [], true, 0)).locals[0].control == Idle
      && ProducerStep(p, s, Input(0, [], true, 0)).log == s.log
  {
    hide Safe, ProducerStep;
    StaleEnd();
    var p, s := Smallest(), Run(Smallest(), StaleMoves());
    assert StaleMoves()[..11] == StaleMoves();
    RunSafe(p, StaleMoves());
    FullHasWork(p, s, Input(0, [], true, 0));
  }
}
