/**
 * Safety of the tract under release/acquire memory, for any number of stages:
 * no fail-fast check ever fires and no slot access ever races.
 */
module TractSafety {
  import opened Words
  import opened ViewMemory
  import opened Tract
  import T = Tape

  /** The location whose progress location `l` is built on: Tail for Head, else the stage before. */
  function Upstream(p: Params, l: nat): nat {
    if l == 0 then TailOf(p) else l - 1
  }

  /** How much of it a stored value needs: Head may run `capacity` ahead of Tail. */
  function Needed(p: Params, l: nat, value: nat): int {
    if l == 0 then value - p.capacity else value
  }

  /** Every stored value carries the knowledge of the upstream progress it was built on. */
  ghost predicate Handoffs(p: Params, m: Memory)
    ensures Handoffs(p, m) ==> Shape(m, Threads(p))
  {
    && Shape(m, Threads(p))
    && (forall l :: 0 <= l < Threads(p) ==> Rising(m.history[l]))
    && (forall l, i :: 0 <= l < Threads(p) && 0 <= i < |m.history[l]| ==>
          Knows(m.history, m.history[l][i].clock, Upstream(p, l), Needed(p, l, m.history[l][i].value)))
  }

  /** An access to position `q` comes before every store by the same thread of more than `q`. */
  ghost predicate AccessOk(p: Params, s: State, a: Access)
    requires WellShaped(p, s) && p.capacity > 0 && a.thread < Threads(p)
  {
    && a.slot == a.position % p.capacity
    && a.position <= s.locals[a.thread].current
    && a.position < Frontier(s, TailOf(p)) + p.capacity
    && (a.thread > 0 ==> a.position < Frontier(s, a.thread - 1))
    && forall i :: 0 <= i < |s.mem.history[a.thread]| && s.mem.history[a.thread][i].value > a.position ==>
         a.time <= s.mem.history[a.thread][i].clock[a.thread]
  }

  ghost predicate ProducerOk(p: Params, s: State)
    requires WellShaped(p, s)
  {
    var me := s.locals[0];
    var clock := s.mem.clocks[0];
    && Frontier(s, 0) == me.current == |s.log| <= U64_MAX
    && Knows(s.mem.history, clock, TailOf(p), me.current - p.capacity)
    && match me.control
       case Idle => true
       case LoadingTail(payload) => |payload| == p.payloadSize
       case Copying(payload, done) =>
         && |payload| == p.payloadSize && done <= p.payloadSize && me.current < U64_MAX
         && Knows(s.mem.history, clock, TailOf(p), me.current + 1 - p.capacity)
       case _ => false
  }

  ghost predicate StageOk(p: Params, s: State, t: nat)
    requires WellShaped(p, s) && 0 < t < Threads(p)
  {
    var me := s.locals[t];
    var clock := s.mem.clocks[t];
    && Pace(p.stages[t - 1], me, Frontier(s, t))
    && (me.control != Idle ==>
          && !me.file.failed && me.current <= me.limit
          && Knows(s.mem.history, clock, t - 1, me.limit))
    && match me.control
       case Idle => true
       case Looping => me.current < me.limit
       case TailLoaded(tail) =>
         && me.current < me.limit && tail <= Frontier(s, TailOf(p))
         && Knows(s.mem.history, clock, TailOf(p), tail)
       case Viewing(buffer) => me.current < me.limit && |buffer| <= p.payloadSize
       case Appending(_, _) => me.current < me.limit
       case Syncing => true
       case Flushing(_) => true
       case _ => false
  }

  /**
   * How far a stage is ahead of what it has published. A Slider is ahead by its
   * unpublished successes, which never reach `publishCount` except just before a
   * store; a durable stage is ahead inside a batch, or for ever once it has failed.
   */
  ghost predicate Pace(stage: Stage, me: Local, frontier: nat)
    ensures Pace(stage, me, frontier) ==> frontier <= me.current
  {
    match stage
    case SliderOf(publishCount) =>
      && !me.file.failed && !me.control.Appending? && !me.control.Syncing?
      && frontier + me.since == me.current
      && (me.control == Idle ==> me.since == 0)
      && (me.since < publishCount || (me.since == publishCount && me.control.Flushing?))
      && (me.control.Flushing? ==> me.since > 0)
    case PersistenceOf(syncCount, _) =>
      && me.since == 0
      && frontier <= me.current && me.control != Flushing(false)
      && (me.control != Idle ==> me.limit <= frontier + syncCount)
      && (me.control.Syncing? || me.control.Flushing? ==> frontier < me.current)
      && (me.control == Idle && !me.file.failed ==> me.current == frontier)
  }

  ghost predicate ThreadOk(p: Params, s: State, t: nat)
    requires WellShaped(p, s) && t < Threads(p)
  {
    if t == 0 then ProducerOk(p, s) else StageOk(p, s, t)
  }

  ghost predicate Safe(p: Params, s: State)
    ensures Safe(p, s) ==> ValidParams(p) && WellShaped(p, s) && !s.broken && !s.raced
  {
    && ValidParams(p) && WellShaped(p, s)
    && !s.broken && !s.raced
    && Causal(s.mem, Threads(p))
    && Handoffs(p, s.mem)
    && (forall a :: a in s.mem.accesses ==> AccessOk(p, s, a))
    && (forall t :: 0 <= t < Threads(p) ==> ThreadOk(p, s, t))
  }

  // ----- Knowledge travels up the chain and around the ring -----

  lemma KnowsUpstream(p: Params, m: Memory, v: Clock, l: nat, x: nat)
    requires Handoffs(p, m) && l < Threads(p) && Closed(m.history, Threads(p), v)
    requires Knows(m.history, v, l, x)
    ensures Knows(m.history, v, Upstream(p, l), Needed(p, l, x))
  {
    var h: seq<seq<Message>> := m.history;
    var i :| 0 <= i < |h[l]| && l < |h[l][i].clock| && h[l][i].clock[l] <= v[l] && h[l][i].value >= x;
    assert Leq(h[l][i].clock, v);
    KnowsMore(h, h[l][i].clock, v, Upstream(p, l), Needed(p, l, h[l][i].value), Needed(p, l, x));
  }

  lemma {:induction false} KnowsDown(p: Params, m: Memory, v: Clock, l: nat, j: nat, x: nat)
    requires Handoffs(p, m) && j <= l < Threads(p) && Closed(m.history, Threads(p), v)
    requires Knows(m.history, v, l, x)
    ensures Knows(m.history, v, j, x)
    decreases l
  {
    hide Handoffs, Knows, Closed;
    if j < l {
      KnowsUpstream(p, m, v, l, x);
      KnowsDown(p, m, v, l - 1, j, x);
    }
  }

  /** Known Head progress implies known progress of every stage one capacity behind. */
  lemma KnowsAround(p: Params, m: Memory, v: Clock, j: nat, x: nat, y: nat)
    requires Handoffs(p, m) && j < Threads(p) && Closed(m.history, Threads(p), v)
    requires Knows(m.history, v, 0, x) && y + p.capacity <= x
    ensures Knows(m.history, v, j, y)
  {
    hide Handoffs, Knows, Closed;
    KnowsUpstream(p, m, v, 0, x);
    Weaken(m.history, v, TailOf(p), x - p.capacity, y);
    KnowsDown(p, m, v, TailOf(p), j, y);
  }

  lemma Weaken(h: seq<seq<Message>>, v: Clock, l: nat, x: int, y: int)
    requires l < |h| && l < |v| && y <= x && Knows(h, v, l, x)
    ensures Knows(h, v, l, y)
  {
    var i :| 0 <= i < |h[l]| && l < |h[l][i].clock| && h[l][i].clock[l] <= v[l] && h[l][i].value >= x;
    assert h[l][i].value >= y;
  }

  lemma FrontierStep(p: Params, s: State, l: nat)
    requires Safe(p, s) && 0 < l < Threads(p)
    ensures Frontier(s, l) <= Frontier(s, l - 1)
  {
    hide Knows, AccessOk, ThreadOk, Causal;
    LastKnows(p, s, l);
    LatestIsGreatest(s.mem, Threads(p), l - 1, Last(s, l).clock, Frontier(s, l));
  }

  /** The frontiers are ordered: Tail <= ... <= stage <= ... <= Head <= Tail + capacity. */
  lemma {:induction false} FrontierOrder(p: Params, s: State, j: nat, l: nat)
    requires Safe(p, s) && j <= l < Threads(p)
    ensures Frontier(s, l) <= Frontier(s, j)
    decreases l
  {
    hide Safe;
    if j < l {
      FrontierStep(p, s, l);
      FrontierOrder(p, s, j, l - 1);
    }
  }

  lemma HeadWithinCapacity(p: Params, s: State)
    requires Safe(p, s)
    ensures Frontier(s, 0) <= Frontier(s, TailOf(p)) + p.capacity
  {
    hide Knows, AccessOk, ThreadOk, Causal;
    LastKnows(p, s, 0);
    LatestIsGreatest(s.mem, Threads(p), TailOf(p), Last(s, 0).clock, Frontier(s, 0) - p.capacity);
  }

  function Last(s: State, l: nat): Message
    requires l < |s.mem.history| && s.mem.history[l] != []
  {
    s.mem.history[l][|s.mem.history[l]| - 1]
  }

  lemma LastKnows(p: Params, s: State, l: nat)
    requires Safe(p, s) && l < Threads(p)
    ensures |Last(s, l).clock| == Threads(p)
    ensures Knows(s.mem.history, Last(s, l).clock, Upstream(p, l), Needed(p, l, Frontier(s, l)))
  {}

  // ----- No race -----

  /** The thread is about to touch the slot of its current position. */
  ghost predicate Touching(p: Params, s: State, t: nat)
    requires WellShaped(p, s) && t < Threads(p)
  {
    var control := s.locals[t].control;
    if t == 0 then control.Copying? else control.Viewing? || control.Appending?
  }

  /** Positions that share a slot are equal or at least one capacity apart. */
  lemma SameSlot(a: nat, b: nat, capacity: nat)
    requires capacity > 0 && a % capacity == b % capacity
    ensures a == b || a + capacity <= b || b + capacity <= a
  {
    if a < b < a + capacity {
      T.DistinctSlots(a, b, capacity);
    } else if b < a < b + capacity {
      T.DistinctSlots(b, a, capacity);
    }
  }

  lemma AccessKnown(p: Params, s: State, t: nat, a: Access)
    requires WellShaped(p, s) && p.capacity > 0 && t < Threads(p) && a.thread < Threads(p) && AccessOk(p, s, a)
    requires Knows(s.mem.history, s.mem.clocks[t], a.thread, a.position + 1)
    ensures a.time <= s.mem.clocks[t][a.thread]
  {
    var u := a.thread;
    var h: seq<seq<Message>> := s.mem.history;
    var i :| 0 <= i < |h[u]| && u < |h[u][i].clock| && h[u][i].clock[u] <= s.mem.clocks[t][u]
      && h[u][i].value >= a.position + 1;
  }

  lemma SafeParts(p: Params, s: State, t: nat)
    requires Safe(p, s) && t < Threads(p)
    ensures Causal(s.mem, Threads(p)) && Handoffs(p, s.mem) && ThreadOk(p, s, t)
    ensures Closed(s.mem.history, Threads(p), s.mem.clocks[t])
  {
    hide Handoffs, AccessOk, ThreadOk, Closed;
  }

  /** A thread that works on a position knows that everything before it in the chain has passed it. */
  lemma KnowsItsPosition(p: Params, s: State, t: nat)
    requires Safe(p, s) && t < Threads(p) && Touching(p, s, t)
    ensures var at := s.locals[t].current;
      && Frontier(s, t) <= at
      && (t == 0 ==> Frontier(s, 0) == at && Knows(s.mem.history, s.mem.clocks[0], TailOf(p), at + 1 - p.capacity))
      && (t > 0 ==> Knows(s.mem.history, s.mem.clocks[t], t - 1, at + 1))
  {
    hide Handoffs, AccessOk, Closed, Causal, Knows;
    SafeParts(p, s, t);
    if t > 0 {
      Weaken(s.mem.history, s.mem.clocks[t], t - 1, s.locals[t].limit, s.locals[t].current + 1);
    }
  }

  lemma EarlierAccessKnown(p: Params, s: State, t: nat, a: Access)
    requires Safe(p, s) && t < Threads(p) && Touching(p, s, t)
    requires a in s.mem.accesses && a.thread < Threads(p) && a.thread != t
    requires AccessOk(p, s, a) && a.slot == s.locals[t].current % p.capacity
    ensures a.time <= s.mem.clocks[t][a.thread]
  {
    hide Safe, Handoffs, Closed, Causal, Knows, ThreadOk, Touching;
    var at, q, u := s.locals[t].current, a.position, a.thread;
    SafeParts(p, s, t);
    KnowsItsPosition(p, s, t);
    SameSlot(at, q, p.capacity);
    if t == 0 {
      ProducerKnows(p, s, a);
    } else {
      StageKnows(p, s, t, a);
    }
    AccessKnown(p, s, t, a);
  }

  lemma ProducerKnows(p: Params, s: State, a: Access)
    requires Safe(p, s) && 0 < a.thread < Threads(p) && AccessOk(p, s, a)
    requires Frontier(s, 0) == s.locals[0].current
    requires Knows(s.mem.history, s.mem.clocks[0], TailOf(p), s.locals[0].current + 1 - p.capacity)
    requires a.position == s.locals[0].current || a.position + p.capacity <= s.locals[0].current
      || s.locals[0].current + p.capacity <= a.position
    ensures Knows(s.mem.history, s.mem.clocks[0], a.thread, a.position + 1)
  {
    hide Safe, Handoffs, Closed, Causal, Knows, ThreadOk;
    SafeParts(p, s, 0);
    FrontierOrder(p, s, 0, a.thread - 1);
    Weaken(s.mem.history, s.mem.clocks[0], TailOf(p), s.locals[0].current + 1 - p.capacity, a.position + 1);
    KnowsDown(p, s.mem, s.mem.clocks[0], TailOf(p), a.thread, a.position + 1);
  }

  lemma StageKnows(p: Params, s: State, t: nat, a: Access)
    requires Safe(p, s) && 0 < t < Threads(p) && a.thread < Threads(p) && a.thread != t && AccessOk(p, s, a)
    requires Frontier(s, t) <= s.locals[t].current
    requires Knows(s.mem.history, s.mem.clocks[t], t - 1, s.locals[t].current + 1)
    requires a.position == s.locals[t].current || a.position + p.capacity <= s.locals[t].current
      || s.locals[t].current + p.capacity <= a.position
    ensures Knows(s.mem.history, s.mem.clocks[t], a.thread, a.position + 1)
  {
    hide Safe, Handoffs, Closed, Causal, Knows, ThreadOk;
    SafeParts(p, s, t);
    var at, q, u := s.locals[t].current, a.position, a.thread;
    var h, clock := s.mem.history, s.mem.clocks[t];
    FrontierOrder(p, s, t, TailOf(p));
    assert q <= at;
    if u < t {
      Weaken(h, clock, t - 1, at + 1, q + 1);
      KnowsDown(p, s.mem, clock, t - 1, u, q + 1);
    } else {
      FrontierOrder(p, s, t, u - 1);
      KnowsDown(p, s.mem, clock, t - 1, 0, at + 1);
      KnowsAround(p, s.mem, clock, u, at + 1, q + 1);
    }
  }

  lemma NoRace(p: Params, s: State, t: nat, index: nat, isWrite: bool)
    requires Safe(p, s) && t < Threads(p) && Touching(p, s, t)
    ensures !Races(s.mem, Threads(p), t, s.locals[t].current % p.capacity, index, isWrite)
  {
    hide Handoffs, Causal, ThreadOk, Touching;
    forall a | a in s.mem.accesses && a.slot == s.locals[t].current % p.capacity && a.thread != t
      ensures a.time <= s.mem.clocks[t][a.thread]
    {
      assert AccessOk(p, s, a);
      EarlierAccessKnown(p, s, t, a);
    }
  }
}
