/**
 * Every step of the tract keeps it safe, so every reachable state is safe.
 */
module TractSteps {
  import opened Words
  import opened WalImage
  import opened WalScan
  import opened WalCanonical
  import opened ViewMemory
  import opened Tract
  import opened TractSafety

  // ----- What a step by one thread leaves alone -----

  /** Thread `t` moved from `s` to `r`: nobody else's private state or history changed. */
  ghost predicate MovedBy(p: Params, s: State, r: State, t: nat)
    ensures MovedBy(p, s, r, t) ==> WellShaped(p, s) && WellShaped(p, r) && t < Threads(p) && !r.broken && !r.raced
  {
    && WellShaped(p, s) && WellShaped(p, r) && t < Threads(p)
    && !r.broken && !r.raced
    && Extends(s.mem.history, r.mem.history)
    && Leq(s.mem.clocks[t], r.mem.clocks[t])
    && s.locals[t].current <= r.locals[t].current
    && (forall u :: 0 <= u < Threads(p) && u != t ==>
          r.locals[u] == s.locals[u] && r.mem.clocks[u] == s.mem.clocks[u] && r.mem.history[u] == s.mem.history[u])
    && (t != 0 ==> r.log == s.log)
  }

  lemma FrontierGrows(p: Params, s: State, r: State, l: nat)
    requires WellShaped(p, s) && WellShaped(p, r) && l < Threads(p)
    requires Extends(s.mem.history, r.mem.history) && Rising(r.mem.history[l])
    ensures Frontier(s, l) <= Frontier(r, l)
  {
    var h, g := s.mem.history[l], r.mem.history[l];
    assert h <= g;
    assert g[|h| - 1] == h[|h| - 1];
  }

  lemma OthersStay(p: Params, s: State, r: State, t: nat, u: nat)
    requires MovedBy(p, s, r, t) && Handoffs(p, r.mem) && u < Threads(p) && u != t && ThreadOk(p, s, u)
    ensures ThreadOk(p, r, u)
  {
    hide Handoffs, Knows, Extends, Pace;
    FrontierGrowsIn(p, s, r, TailOf(p));
    if u == 0 {
      ProducerStays(p, s, r);
    } else {
      StageStays(p, s, r, u);
    }
  }

  lemma FrontierGrowsIn(p: Params, s: State, r: State, l: nat)
    requires WellShaped(p, s) && WellShaped(p, r) && l < Threads(p)
    requires Extends(s.mem.history, r.mem.history) && Handoffs(p, r.mem)
    ensures Frontier(s, l) <= Frontier(r, l)
  {
    hide Knows;
    FrontierGrows(p, s, r, l);
  }

  lemma KnowsStays(h: seq<seq<Message>>, g: seq<seq<Message>>, v: Clock, w: Clock, l: nat, x: int)
    requires l < |h| && l < |v| && Extends(h, g) && Leq(v, w) && Knows(h, v, l, x)
    ensures Knows(g, w, l, x)
  {
    hide Knows, Extends, Leq;
    KnowsLater(h, g, v, l, x);
    assert |v| == |w| by { LeqLength(v, w); }
    assert |h| == |g| by { ExtendsLength(h, g); }
    KnowsMore(g, v, w, l, x, x);
  }

  lemma LeqLength(v: Clock, w: Clock)
    requires Leq(v, w)
    ensures |v| == |w|
  {}

  lemma ExtendsLength(h: seq<seq<Message>>, g: seq<seq<Message>>)
    requires Extends(h, g)
    ensures |h| == |g|
  {}

  /** The producer's condition depends only on its own state and what it knows. */
  lemma ProducerStays(p: Params, s: State, r: State)
    requires WellShaped(p, s) && WellShaped(p, r) && ProducerOk(p, s)
    requires r.locals[0] == s.locals[0] && r.log == s.log && r.mem.history[0] == s.mem.history[0]
    requires Extends(s.mem.history, r.mem.history) && Leq(s.mem.clocks[0], r.mem.clocks[0])
    ensures ProducerOk(p, r)
  {
    hide Knows, Extends, Leq;
    var me := s.locals[0];
    KnowsStays(s.mem.history, r.mem.history, s.mem.clocks[0], r.mem.clocks[0], TailOf(p), me.current - p.capacity);
    if me.control.Copying? {
      KnowsStays(s.mem.history, r.mem.history, s.mem.clocks[0], r.mem.clocks[0], TailOf(p),
        me.current + 1 - p.capacity);
    }
  }

  lemma StageStays(p: Params, s: State, r: State, u: nat)
    requires WellShaped(p, s) && WellShaped(p, r) && 0 < u < Threads(p) && StageOk(p, s, u)
    requires r.locals[u] == s.locals[u] && r.mem.history[u] == s.mem.history[u]
    requires Extends(s.mem.history, r.mem.history) && Leq(s.mem.clocks[u], r.mem.clocks[u])
    requires Frontier(s, TailOf(p)) <= Frontier(r, TailOf(p))
    ensures StageOk(p, r, u)
  {
    hide Knows, Extends, Leq, Pace;
    var me := s.locals[u];
    if me.control != Idle {
      KnowsStays(s.mem.history, r.mem.history, s.mem.clocks[u], r.mem.clocks[u], u - 1, me.limit);
    }
    if me.control.TailLoaded? {
      KnowsStays(s.mem.history, r.mem.history, s.mem.clocks[u], r.mem.clocks[u], TailOf(p), me.control.tail);
    }
  }

  /** The part of `MovedBy` that is not about memory. */
  ghost predicate LocalMove(p: Params, s: State, r: State, t: nat)
    ensures LocalMove(p, s, r, t) ==> WellShaped(p, s) && WellShaped(p, r) && t < Threads(p)
  {
    && WellShaped(p, s) && WellShaped(p, r) && t < Threads(p)
    && !r.broken && !r.raced
    && s.locals[t].current <= r.locals[t].current
    && (forall u :: 0 <= u < Threads(p) && u != t ==> r.locals[u] == s.locals[u])
    && (t != 0 ==> r.log == s.log)
  }

  lemma LocalMoved(p: Params, s: State, r: State, t: nat)
    requires LocalMove(p, s, r, t) && r.mem == s.mem
    ensures MovedBy(p, s, r, t)
  {}

  lemma LoadMoved(p: Params, s: State, r: State, t: nat, l: nat, i: nat)
    requires LocalMove(p, s, r, t) && l < Threads(p) && i < |s.mem.history[l]|
    requires r.mem == Load(s.mem, Threads(p), t, l, i)
    ensures MovedBy(p, s, r, t)
  {}

  lemma TouchMoved(p: Params, s: State, r: State, t: nat, slot: nat, index: nat, isWrite: bool, position: nat)
    requires LocalMove(p, s, r, t)
    requires r.mem == Touch(s.mem, Threads(p), t, slot, index, isWrite, position)
    ensures MovedBy(p, s, r, t)
  {}

  lemma StoreMoved(p: Params, s: State, r: State, t: nat, value: nat)
    requires LocalMove(p, s, r, t) && r.mem == Store(s.mem, Threads(p), t, value)
    ensures MovedBy(p, s, r, t) && StampsFresh(p, s, r, t)
  {}

  /** The stamps thread `t` adds to its history come after everything it has accessed. */
  ghost predicate StampsFresh(p: Params, s: State, r: State, t: nat)
    requires MovedBy(p, s, r, t)
  {
    forall i :: |s.mem.history[t]| <= i < |r.mem.history[t]| ==>
      s.mem.clocks[t][t] <= r.mem.history[t][i].clock[t]
  }

  lemma AccessInPast(p: Params, s: State, a: Access)
    requires Safe(p, s) && a in s.mem.accesses
    ensures a.thread < Threads(p) && a.time <= s.mem.clocks[a.thread][a.thread]
  {
    hide Handoffs, AccessOk, ThreadOk, Closed, Bounded, Increasing;
  }

  lemma AccessStays(p: Params, s: State, r: State, t: nat, a: Access)
    requires Safe(p, s) && MovedBy(p, s, r, t) && Handoffs(p, r.mem) && StampsFresh(p, s, r, t)
    requires a in s.mem.accesses && AccessOk(p, s, a)
    ensures AccessOk(p, r, a)
  {
    hide Safe, Handoffs, Knows;
    AccessInPast(p, s, a);
    FrontierGrowsIn(p, s, r, TailOf(p));
    if a.thread > 0 {
      FrontierGrowsIn(p, s, r, a.thread - 1);
    }
    var h, g := s.mem.history[a.thread], r.mem.history[a.thread];
    assert h <= g;
    forall i | 0 <= i < |g| && g[i].value > a.position ensures a.time <= g[i].clock[a.thread] {
      if i < |h| {
        assert g[i] == h[i];
      }
    }
  }

  /** What has to be shown about one step of thread `t`. */
  lemma Assemble(p: Params, s: State, r: State, t: nat)
    requires Safe(p, s) && MovedBy(p, s, r, t) && StampsFresh(p, s, r, t)
    requires Causal(r.mem, Threads(p)) && Handoffs(p, r.mem)
    requires forall a :: a in r.mem.accesses && a !in s.mem.accesses ==> AccessOk(p, r, a)
    requires ThreadOk(p, r, t)
    ensures Safe(p, r)
  {
    hide Causal, Handoffs, ThreadOk, AccessOk, MovedBy, StampsFresh;
    forall u | 0 <= u < Threads(p) && u != t ensures ThreadOk(p, r, u) {
      SafeParts(p, s, u);
      OthersStay(p, s, r, t, u);
    }
    forall a | a in r.mem.accesses && a in s.mem.accesses ensures AccessOk(p, r, a) {
      AccessStays(p, s, r, t, a);
    }
  }

  // ----- The four effects a step can have on memory -----

  lemma LocalStep(p: Params, s: State, r: State, t: nat)
    requires Safe(p, s) && LocalMove(p, s, r, t) && r.mem == s.mem && ThreadOk(p, r, t)
    ensures Safe(p, r)
  {
    hide Causal, Knows, ThreadOk, AccessOk, LocalMove;
    SafeParts(p, s, t);
    LocalMoved(p, s, r, t);
    Assemble(p, s, r, t);
  }

  lemma LoadStep(p: Params, s: State, r: State, t: nat, l: nat, i: nat)
    requires Safe(p, s) && LocalMove(p, s, r, t) && l < Threads(p) && i < |s.mem.history[l]|
    requires r.mem == Load(s.mem, Threads(p), t, l, i)
    requires ThreadOk(p, r, t)
    ensures Safe(p, r)
  {
    hide Causal, Knows, ThreadOk, AccessOk, LocalMove;
    SafeParts(p, s, t);
    LoadMoved(p, s, r, t, l, i);
    LoadCausal(s.mem, Threads(p), t, l, i);
    Assemble(p, s, r, t);
  }

  lemma TouchStep(p: Params, s: State, r: State, t: nat, index: nat, isWrite: bool)
    requires Safe(p, s) && LocalMove(p, s, r, t) && Touching(p, s, t)
    requires r.locals[t].current == s.locals[t].current
    requires r.mem == Touch(s.mem, Threads(p), t, s.locals[t].current % p.capacity, index, isWrite, s.locals[t].current)
    requires ThreadOk(p, r, t)
    ensures Safe(p, r)
  {
    hide Causal, Knows, ThreadOk, AccessOk, Touching, LocalMove;
    var at := s.locals[t].current;
    SafeParts(p, s, t);
    TouchMoved(p, s, r, t, at % p.capacity, index, isWrite, at);
    TouchCausal(s.mem, Threads(p), t, at % p.capacity, index, isWrite, at);
    var a := Access(t, Tick(s.mem, Threads(p), t)[t], at % p.capacity, index, isWrite, at);
    assert r.mem.accesses == s.mem.accesses + {a};
    NewAccessOk(p, s, r, t, a);
    Assemble(p, s, r, t);
  }

  lemma NewAccessOk(p: Params, s: State, r: State, t: nat, a: Access)
    requires Safe(p, s) && t < Threads(p) && Touching(p, s, t) && WellShaped(p, r)
    requires r.mem.history == s.mem.history && r.locals[t].current == s.locals[t].current
    requires a.thread == t && a.position == s.locals[t].current && a.slot == a.position % p.capacity
    ensures AccessOk(p, r, a)
  {
    hide Safe, Causal, Knows, ThreadOk, Handoffs, Touching;
    var at := s.locals[t].current;
    SafeParts(p, s, t);
    KnowsItsPosition(p, s, t);
    WithinWindow(p, s, t);
    HistoryBelow(p, s, t, at);
  }

  lemma HistoryBelow(p: Params, s: State, t: nat, x: nat)
    requires Safe(p, s) && t < Threads(p) && Frontier(s, t) <= x
    ensures forall i :: 0 <= i < |s.mem.history[t]| ==> s.mem.history[t][i].value <= x
  {
    hide Knows, AccessOk, ThreadOk, Causal;
    assert Rising(s.mem.history[t]);
  }

  /** A position being worked on has been passed by the stage before and is less than a capacity beyond Tail. */
  lemma WithinWindow(p: Params, s: State, t: nat)
    requires Safe(p, s) && t < Threads(p) && Touching(p, s, t)
    ensures var at := s.locals[t].current;
      at < Frontier(s, TailOf(p)) + p.capacity && (t > 0 ==> at < Frontier(s, t - 1))
  {
    hide Safe, Causal, Knows, ThreadOk, Handoffs, Touching;
    var at := s.locals[t].current;
    KnowsItsPosition(p, s, t);
    if t == 0 {
      KnownIsStored(p, s, 0, TailOf(p), at + 1 - p.capacity);
    } else {
      KnownIsStored(p, s, t, t - 1, at + 1);
      FrontierOrder(p, s, 0, t - 1);
      HeadWithinCapacity(p, s);
    }
  }

  lemma KnownIsStored(p: Params, s: State, t: nat, l: nat, x: int)
    requires Safe(p, s) && t < Threads(p) && l < Threads(p) && Knows(s.mem.history, s.mem.clocks[t], l, x)
    ensures Frontier(s, l) >= x
  {
    hide Knows, AccessOk, ThreadOk, Causal;
    LatestIsGreatest(s.mem, Threads(p), l, s.mem.clocks[t], x);
  }

  /** A store of more than was stored before, built on known upstream progress. */
  lemma StoreStep(p: Params, s: State, r: State, t: nat, value: nat)
    requires Safe(p, s) && LocalMove(p, s, r, t)
    requires r.mem == Store(s.mem, Threads(p), t, value)
    requires Frontier(s, t) <= value
    requires Knows(s.mem.history, s.mem.clocks[t], Upstream(p, t), Needed(p, t, value))
    requires ThreadOk(p, r, t)
    ensures Safe(p, r)
  {
    hide Causal, Knows, ThreadOk, AccessOk, Handoffs, LocalMove, MovedBy, StampsFresh;
    SafeParts(p, s, t);
    StoreMoved(p, s, r, t, value);
    StoreCausal(s.mem, Threads(p), t, value);
    StoreHandsOff(p, s.mem, t, value);
    Assemble(p, s, r, t);
  }

  lemma StoreHandsOff(p: Params, m: Memory, t: nat, value: nat)
    requires Handoffs(p, m) && t < Threads(p) && Latest(m, Threads(p), t) <= value
    requires Knows(m.history, m.clocks[t], Upstream(p, t), Needed(p, t, value))
    ensures Handoffs(p, Store(m, Threads(p), t, value))
  {
    hide Knows, Extends, Leq;
    var n := Threads(p);
    var r := Store(m, n, t, value);
    var h: seq<seq<Message>> := m.history;
    var g: seq<seq<Message>> := r.history;
    StoreExtends(m, n, t, value);
    RisingSnoc(m, n, t, value);
    forall l, i | 0 <= l < n && 0 <= i < |g[l]|
      ensures Knows(g, g[l][i].clock, Upstream(p, l), Needed(p, l, g[l][i].value))
    {
      if l == t && i == |h[t]| {
        TickLeq(m, n, t);
        KnowsStays(h, g, m.clocks[t], g[l][i].clock, Upstream(p, l), Needed(p, l, value));
      } else {
        assert g[l][i] == h[l][i];
        KnowsLater(h, g, h[l][i].clock, Upstream(p, l), Needed(p, l, h[l][i].value));
      }
    }
  }

  lemma TickLeq(m: Memory, n: nat, t: nat)
    requires Shape(m, n) && t < n
    ensures Leq(m.clocks[t], Tick(m, n, t))
  {}

  lemma RisingSnoc(m: Memory, n: nat, t: nat, value: nat)
    requires Shape(m, n) && t < n && Rising(m.history[t]) && Latest(m, n, t) <= value
    ensures Rising(Store(m, n, t, value).history[t])
  {
    var h := m.history[t];
    assert forall i :: 0 <= i < |h| ==> h[i].value <= h[|h| - 1].value;
  }

  // ----- The producer -----

  /** Knowledge survives a load, and the message read is known. */
  lemma AfterLoad(p: Params, s: State, t: nat, l: nat, i: nat, x: nat)
    requires Safe(p, s) && t < Threads(p) && l < Threads(p) && i < |s.mem.history[l]| && x <= s.mem.history[l][i].value
    ensures var r := Load(s.mem, Threads(p), t, l, i);
      Knows(r.history, r.clocks[t], l, x) && Leq(s.mem.clocks[t], r.clocks[t])
  {
    hide Knows, Causal, ThreadOk, AccessOk, Leq;
    SafeParts(p, s, t);
    LoadKnows(s.mem, Threads(p), t, l, i);
    var r := Load(s.mem, Threads(p), t, l, i);
    Weaken(r.history, r.clocks[t], l, s.mem.history[l][i].value, x);
  }

  lemma ReadAtLeast(p: Params, s: State, t: nat, l: nat, i: nat, x: int)
    requires Safe(p, s) && t < Threads(p) && l < Threads(p) && Readable(s.mem, Threads(p), t, l, i)
    requires Knows(s.mem.history, s.mem.clocks[t], l, x)
    ensures x <= s.mem.history[l][i].value <= Frontier(s, l)
  {
    hide Knows, Causal, ThreadOk, AccessOk, Readable;
    SafeParts(p, s, t);
    ReadableAtLeast(s.mem, Threads(p), t, l, i, x);
    assert Rising(s.mem.history[l]);
    ReadableExists(s.mem, Threads(p), t, l, i);
  }

  lemma ReadableExists(m: Memory, n: nat, t: nat, l: nat, i: nat)
    requires Shape(m, n) && t < n && l < n && Readable(m, n, t, l, i)
    ensures i < |m.history[l]|
  {}

  lemma ProducerLoads(p: Params, s: State, input: Input)
    requires Safe(p, s) && s.locals[0].control.LoadingTail? && Readable(s.mem, Threads(p), 0, TailOf(p), input.index)
    ensures Safe(p, ProducerStep(p, s, input))
  {
    hide Knows, Causal, AccessOk, Handoffs, Readable, Safe, Closed, Leq;
    var me := s.locals[0];
    var i := input.index;
    SafeParts(p, s, 0);
    ReadableExists(s.mem, Threads(p), 0, TailOf(p), i);
    var tail := s.mem.history[TailOf(p)][i].value;
    ReadAtLeast(p, s, 0, TailOf(p), i, me.current - p.capacity);
    FrontierOrder(p, s, 0, TailOf(p));
    AfterLoad(p, s, 0, TailOf(p), i, tail);
    var r := ProducerStep(p, s, input);
    assert r.mem == Load(s.mem, Threads(p), 0, TailOf(p), i);
    KnowsStays(s.mem.history, r.mem.history, s.mem.clocks[0], r.mem.clocks[0], TailOf(p), me.current - p.capacity);
    if r.locals[0].control.Copying? {
      Weaken(r.mem.history, r.mem.clocks[0], TailOf(p), tail, me.current + 1 - p.capacity);
    }
    assert ProducerOk(p, r);
    LoadStep(p, s, r, 0, TailOf(p), i);
  }

  lemma ProducerCopies(p: Params, s: State, input: Input)
    requires Safe(p, s) && s.locals[0].control.Copying? && s.locals[0].control.done < p.payloadSize
    ensures Safe(p, ProducerStep(p, s, input))
  {
    hide Knows, Causal, AccessOk, Handoffs, Safe, Closed, Leq, Races, Touch;
    var me := s.locals[0];
    SafeParts(p, s, 0);
    NoRace(p, s, 0, me.control.done, true);
    var r := ProducerStep(p, s, input);
    assert r.mem == Touch(s.mem, Threads(p), 0, me.current % p.capacity, me.control.done, true, me.current);
    TouchKeeps(s.mem, Threads(p), 0, me.current % p.capacity, me.control.done, true, me.current);
    KnowsStays(s.mem.history, r.mem.history, s.mem.clocks[0], r.mem.clocks[0], TailOf(p), me.current - p.capacity);
    KnowsStays(s.mem.history, r.mem.history, s.mem.clocks[0], r.mem.clocks[0], TailOf(p), me.current + 1 - p.capacity);
    assert ProducerOk(p, r);
    TouchStep(p, s, r, 0, me.control.done, true);
  }

  lemma TouchKeeps(m: Memory, n: nat, t: nat, slot: nat, index: nat, isWrite: bool, position: nat)
    requires Shape(m, n) && t < n
    ensures var r := Touch(m, n, t, slot, index, isWrite, position);
      r.history == m.history && Leq(m.clocks[t], r.clocks[t]) && Extends(m.history, r.history)
  {}

  lemma ProducerPublishes(p: Params, s: State, input: Input)
    requires Safe(p, s) && s.locals[0].control.Copying? && s.locals[0].control.done >= p.payloadSize
    ensures Safe(p, ProducerStep(p, s, input))
  {
    hide Knows, Causal, AccessOk, Handoffs, Safe, Closed, Leq, Extends;
    var me := s.locals[0];
    SafeParts(p, s, 0);
    var r := ProducerStep(p, s, input);
    assert r.mem == Store(s.mem, Threads(p), 0, me.current + 1);
    StoreExtends(s.mem, Threads(p), 0, me.current + 1);
    TickLeq(s.mem, Threads(p), 0);
    KnowsStays(s.mem.history, r.mem.history, s.mem.clocks[0], r.mem.clocks[0], TailOf(p), me.current + 1 - p.capacity);
    assert ProducerOk(p, r);
    StoreStep(p, s, r, 0, me.current + 1);
  }

  lemma ProducerSafe(p: Params, s: State, input: Input)
    requires Safe(p, s)
    ensures Safe(p, ProducerStep(p, s, input))
  {
    hide Knows, Causal, AccessOk, Handoffs, Safe, Closed, Readable;
    SafeParts(p, s, 0);
    match s.locals[0].control
    case Idle =>
      var r := ProducerStep(p, s, input);
      if r != s {
        LocalStep(p, s, r, 0);
      }
    case LoadingTail(_) =>
      if Readable(s.mem, Threads(p), 0, TailOf(p), input.index) {
        ProducerLoads(p, s, input);
      }
    case Copying(_, done) =>
      if done < p.payloadSize {
        ProducerCopies(p, s, input);
      } else {
        ProducerPublishes(p, s, input);
      }
  }

  // ----- A stage -----

  lemma OwnFrontierKnown(p: Params, s: State, t: nat)
    requires Safe(p, s) && 0 < t < Threads(p)
    ensures Knows(s.mem.history, s.mem.clocks[t], t - 1, Frontier(s, t))
  {
    hide Knows, AccessOk, ThreadOk, Closed, Handoffs;
    SafeParts(p, s, t);
    OwnStoreKnown(s.mem, Threads(p), t);
    KnowsUpstream(p, s.mem, s.mem.clocks[t], t, Frontier(s, t));
  }

  lemma OwnStoreKnown(m: Memory, n: nat, t: nat)
    requires Causal(m, n) && t < n
    ensures Knows(m.history, m.clocks[t], t, Latest(m, n, t))
  {
    var h: seq<Message> := m.history[t];
    var i := |h| - 1;
    assert Bounded(m, n, m.history[t][i].clock);
    assert h[i].clock[t] <= m.clocks[t][t] && h[i].value >= Latest(m, n, t);
  }

  lemma StageBegins(p: Params, s: State, t: nat, input: Input)
    requires Safe(p, s) && 0 < t < Threads(p) && s.locals[t].control.Idle?
    requires Readable(s.mem, Threads(p), t, t - 1, input.index)
    ensures Safe(p, StageStep(p, s, t, input))
  {
    hide Knows, Causal, AccessOk, Handoffs, Readable, Safe, Closed, Leq;
    var i := input.index;
    SafeParts(p, s, t);
    ReadableExists(s.mem, Threads(p), t, t - 1, i);
    var available := s.mem.history[t - 1][i].value;
    OwnFrontierKnown(p, s, t);
    ReadAtLeast(p, s, t, t - 1, i, Frontier(s, t));
    var r := StageStep(p, s, t, input);
    var limit := r.locals[t].limit;
    assert r.mem == Load(s.mem, Threads(p), t, t - 1, i);
    if r.locals[t].control.Looping? {
      AfterLoad(p, s, t, t - 1, i, limit);
    }
    assert StageOk(p, r, t);
    LoadStep(p, s, r, t, t - 1, i);
  }

  lemma StageLoadsTail(p: Params, s: State, t: nat, input: Input)
    requires Safe(p, s) && 0 < t < Threads(p) && s.locals[t].control.Looping?
    requires Readable(s.mem, Threads(p), t, TailOf(p), input.index)
    ensures Safe(p, StageStep(p, s, t, input))
  {
    hide Knows, Causal, AccessOk, Handoffs, Readable, Safe, Closed, Leq;
    var i := input.index;
    SafeParts(p, s, t);
    ReadableExists(s.mem, Threads(p), t, TailOf(p), i);
    var tail := s.mem.history[TailOf(p)][i].value;
    ValuesBelow(p, s, TailOf(p), i);
    AfterLoad(p, s, t, TailOf(p), i, tail);
    var r := StageStep(p, s, t, input);
    assert r.mem == Load(s.mem, Threads(p), t, TailOf(p), i);
    KnowsStays(s.mem.history, r.mem.history, s.mem.clocks[t], r.mem.clocks[t], t - 1, s.locals[t].limit);
    assert StageOk(p, r, t);
    LoadStep(p, s, r, t, TailOf(p), i);
  }

  lemma ValuesBelow(p: Params, s: State, l: nat, i: nat)
    requires Safe(p, s) && l < Threads(p) && i < |s.mem.history[l]|
    ensures s.mem.history[l][i].value <= Frontier(s, l)
  {
    hide Knows, AccessOk, ThreadOk, Causal;
    assert Rising(s.mem.history[l]);
  }

  /** `try_view` succeeds because Tail was loaded before Head. */
  lemma StageLoadsHead(p: Params, s: State, t: nat, input: Input)
    requires Safe(p, s) && 0 < t < Threads(p) && s.locals[t].control.TailLoaded?
    requires Readable(s.mem, Threads(p), t, 0, input.index)
    ensures Safe(p, StageStep(p, s, t, input))
    ensures StageStep(p, s, t, input).locals[t].control.Viewing?
  {
    hide Knows, Causal, AccessOk, Handoffs, Readable, Safe, Closed, Leq;
    var i := input.index;
    var me := s.locals[t];
    SafeParts(p, s, t);
    ReadableExists(s.mem, Threads(p), t, 0, i);
    var h, clock := s.mem.history, s.mem.clocks[t];
    KnowsDown(p, s.mem, clock, TailOf(p), 0, me.control.tail);
    ReadAtLeast(p, s, t, 0, i, me.control.tail);
    Weaken(h, clock, t - 1, me.limit, me.current + 1);
    KnowsDown(p, s.mem, clock, t - 1, 0, me.current + 1);
    ReadAtLeast(p, s, t, 0, i, me.current + 1);
    FrontierOrder(p, s, t, TailOf(p));
    var r := StageStep(p, s, t, input);
    assert r.mem == Load(s.mem, Threads(p), t, 0, i);
    AfterLoad(p, s, t, 0, i, me.current + 1);
    KnowsStays(s.mem.history, r.mem.history, s.mem.clocks[t], r.mem.clocks[t], t - 1, me.limit);
    assert StageOk(p, r, t);
    LoadStep(p, s, r, t, 0, i);
  }

  /**
   * Why `try_view` loads Tail first: whoever has loaded a Tail value can only
   * read Head values that are no smaller.
   */
  lemma TailThenHead(p: Params, s: State, t: nat, i: nat, j: nat)
    requires Safe(p, s) && t < Threads(p) && Readable(s.mem, Threads(p), t, TailOf(p), i)
    requires Readable(Load(s.mem, Threads(p), t, TailOf(p), i), Threads(p), t, 0, j)
    ensures s.mem.history[TailOf(p)][i].value <= s.mem.history[0][j].value
  {
    hide Knows, Causal, AccessOk, ThreadOk, Readable, Closed;
    var n := Threads(p);
    SafeParts(p, s, t);
    ReadableExists(s.mem, n, t, TailOf(p), i);
    LoadKnows(s.mem, n, t, TailOf(p), i);
    LoadCausal(s.mem, n, t, TailOf(p), i);
    var m := Load(s.mem, n, t, TailOf(p), i);
    assert Closed(m.history, n, m.clocks[t]) by { CausalCloses(m, n, t); }
    KnowsDown(p, m, m.clocks[t], TailOf(p), 0, s.mem.history[TailOf(p)][i].value);
    ReadableAtLeast(m, n, t, 0, j, s.mem.history[TailOf(p)][i].value);
  }

  lemma CausalCloses(m: Memory, n: nat, t: nat)
    requires Causal(m, n) && t < n
    ensures Closed(m.history, n, m.clocks[t])
  {
    hide Closed;
  }

  lemma StageReads(p: Params, s: State, t: nat, index: nat, value: byte, r: State)
    requires Safe(p, s) && 0 < t < Threads(p) && Touching(p, s, t) && index < p.payloadSize
    requires var at := s.locals[t].current;
      var touched := TouchSlot(p, s, t, at % p.capacity, index, at);
      r == touched || (s.locals[t].control.Viewing? && |s.locals[t].control.buffer| == index &&
        r == SetLocal(touched, t, s.locals[t].(control := Viewing(s.locals[t].control.buffer + [value]))))
    ensures Safe(p, r)
  {
    hide Knows, Causal, AccessOk, Handoffs, Safe, Closed, Leq, Races, Touch;
    var me := s.locals[t];
    SafeParts(p, s, t);
    NoRace(p, s, t, index, false);
    assert r.mem == Touch(s.mem, Threads(p), t, me.current % p.capacity, index, false, me.current);
    TouchKeeps(s.mem, Threads(p), t, me.current % p.capacity, index, false, me.current);
    KnowsStays(s.mem.history, r.mem.history, s.mem.clocks[t], r.mem.clocks[t], t - 1, me.limit);
    assert StageOk(p, r, t);
    TouchStep(p, s, r, t, index, false);
  }

  lemma StageStores(p: Params, s: State, t: nat, input: Input)
    requires Safe(p, s) && 0 < t < Threads(p) && s.locals[t].control.Flushing?
    ensures Safe(p, StageStep(p, s, t, input))
  {
    hide Knows, Causal, AccessOk, Handoffs, Safe, Closed, Leq, Extends;
    var me := s.locals[t];
    SafeParts(p, s, t);
    var r := StageStep(p, s, t, input);
    assert r.mem == Store(s.mem, Threads(p), t, me.current);
    StoreExtends(s.mem, Threads(p), t, me.current);
    TickLeq(s.mem, Threads(p), t);
    KnowsStays(s.mem.history, r.mem.history, s.mem.clocks[t], r.mem.clocks[t], t - 1, me.limit);
    Weaken(s.mem.history, s.mem.clocks[t], t - 1, me.limit, me.current);
    assert StageOk(p, r, t);
    StoreStep(p, s, r, t, me.current);
  }

  lemma StageWorks(p: Params, s: State, t: nat, input: Input)
    requires Safe(p, s) && 0 < t < Threads(p)
    requires var control := s.locals[t].control;
      || (control.Viewing? && |control.buffer| >= p.payloadSize)
      || (control.Appending? && !(input.ok && input.amount == 0))
      || control.Syncing?
    ensures Safe(p, StageStep(p, s, t, input))
  {
    hide Knows, Causal, AccessOk, Handoffs, Safe, Closed, RecordBytes, SequenceOf, Exhausted;
    SafeParts(p, s, t);
    var r := StageStep(p, s, t, input);
    assert r.mem == s.mem;
    assert StageOk(p, r, t);
    LocalStep(p, s, r, t);
  }

  /** A load that is not possible is not made. */
  lemma StageWaits(p: Params, s: State, t: nat, input: Input)
    requires Safe(p, s) && 0 < t < Threads(p)
    requires var control := s.locals[t].control;
      || (control.Idle? && !Readable(s.mem, Threads(p), t, t - 1, input.index))
      || (control.Looping? && !Readable(s.mem, Threads(p), t, TailOf(p), input.index))
      || (control.TailLoaded? && !Readable(s.mem, Threads(p), t, 0, input.index))
    ensures StageStep(p, s, t, input) == s
  {
    hide Safe, Readable;
  }

  lemma StageViews(p: Params, s: State, t: nat, input: Input)
    requires Safe(p, s) && 0 < t < Threads(p)
    requires s.locals[t].control.Viewing? && |s.locals[t].control.buffer| < p.payloadSize
    ensures Safe(p, StageStep(p, s, t, input))
  {
    hide Safe, TouchSlot;
    var at, index := s.locals[t].current, |s.locals[t].control.buffer|;
    StageReads(p, s, t, index, s.slots[at % p.capacity][index], StageStep(p, s, t, input));
  }

  lemma StageViewsAgain(p: Params, s: State, t: nat, input: Input)
    requires Safe(p, s) && 0 < t < Threads(p)
    requires s.locals[t].control.Appending? && input.ok && input.amount == 0
    ensures Safe(p, StageStep(p, s, t, input))
  {
    hide Safe, TouchSlot, Exhausted;
    if StageStep(p, s, t, input) != s {
      StageReads(p, s, t, input.index, 0, StageStep(p, s, t, input));
    }
  }

  lemma StageSafe(p: Params, s: State, t: nat, input: Input)
    requires Safe(p, s) && 0 < t < Threads(p)
    ensures Safe(p, StageStep(p, s, t, input))
  {
    hide Knows, Causal, AccessOk, Handoffs, Safe, Closed, Readable, StageStep, Pace;
    SafeParts(p, s, t);
    match s.locals[t].control
    case Idle =>
      if Readable(s.mem, Threads(p), t, t - 1, input.index) {
        StageBegins(p, s, t, input);
      } else {
        StageWaits(p, s, t, input);
      }
    case Looping =>
      if Readable(s.mem, Threads(p), t, TailOf(p), input.index) {
        StageLoadsTail(p, s, t, input);
      } else {
        StageWaits(p, s, t, input);
      }
    case TailLoaded(_) =>
      if Readable(s.mem, Threads(p), t, 0, input.index) {
        StageLoadsHead(p, s, t, input);
      } else {
        StageWaits(p, s, t, input);
      }
    case Viewing(buffer) =>
      if |buffer| < p.payloadSize {
        StageViews(p, s, t, input);
      } else {
        StageWorks(p, s, t, input);
      }
    case Appending(_, _) =>
      if input.ok && input.amount == 0 {
        StageViewsAgain(p, s, t, input);
      } else {
        StageWorks(p, s, t, input);
      }
    case Syncing => StageWorks(p, s, t, input);
    case Flushing(_) => StageStores(p, s, t, input);
  }

  // ----- Every run -----

  lemma StepSafe(p: Params, s: State, move: Move)
    requires Safe(p, s)
    ensures Safe(p, Step(p, s, move))
  {
    hide Safe, ProducerStep, StageStep;
    if move.thread == 0 {
      ProducerSafe(p, s, move.input);
    } else if move.thread < Threads(p) {
      StageSafe(p, s, move.thread, move.input);
    }
  }

  lemma StartHandsOff(p: Params)
    requires ValidParams(p)
    ensures Handoffs(p, Start(p).mem)
  {
    hide Knows;
    var m := Start(p).mem;
    forall l, i | 0 <= l < Threads(p) && 0 <= i < |m.history[l]|
      ensures Knows(m.history, m.history[l][i].clock, Upstream(p, l), Needed(p, l, m.history[l][i].value))
    {
      InitialKnows(Threads(p), Upstream(p, l), Needed(p, l, 0), m.history[l][i].clock);
    }
  }

  lemma StartSafe(p: Params)
    requires ValidParams(p)
    ensures Safe(p, Start(p))
  {
    hide Knows, Handoffs, Causal;
    var s := Start(p);
    InitialCausal(Threads(p));
    StartHandsOff(p);
    InitialKnows(Threads(p), TailOf(p), 0 - p.capacity, s.mem.clocks[0]);
    forall t | 0 <= t < Threads(p) ensures ThreadOk(p, s, t) {}
  }

  lemma InitialKnows(n: nat, l: nat, x: int, v: Clock)
    requires l < n && |v| == n && x <= 0
    ensures Knows(Initial(n).history, v, l, x)
  {
    var h: seq<seq<Message>> := Initial(n).history;
    assert h[l][0].clock[l] <= v[l] && h[l][0].value >= x;
  }

  /**
   * In every run of every correctly wired tract, whatever the loads return within
   * the memory model: no fail-fast check fires and no slot access races.
   */
  lemma {:induction false} RunSafe(p: Params, moves: seq<Move>)
    requires ValidParams(p)
    ensures Safe(p, Run(p, moves))
    ensures !Run(p, moves).broken && !Run(p, moves).raced
  {
    hide Safe, Step, Start;
    if moves == [] {
      StartSafe(p);
    } else {
      RunSafe(p, moves[..|moves| - 1]);
      StepSafe(p, Run(p, moves[..|moves| - 1]), moves[|moves| - 1]);
    }
  }
}
