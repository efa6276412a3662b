/**
 * Release/acquire memory with one writer per atomic location.
 *
 * Every thread has a vector clock. A store is a message that carries the
 * storer's clock, an acquire load picks any message that is not known to be
 * overwritten and joins its clock, and an ordinary access races with another one
 * whose time is not covered by the accessing thread's clock. Thread `t` is the
 * only writer of location `t`. There is no sequentially consistent order.
 */
module ViewMemory {
  type Clock = seq<nat>

  datatype Message = Message(value: nat, clock: Clock)

  /** An access to one byte of one slot; `position` says on whose behalf, and no rule looks at it. */
  datatype Access = Access(thread: nat, time: nat, slot: nat, index: nat, isWrite: bool, position: nat)

  datatype Memory = Memory(clocks: seq<Clock>, history: seq<seq<Message>>, accesses: set<Access>)

  predicate Leq(a: Clock, b: Clock) {
    |a| == |b| && forall k :: 0 <= k < |a| ==> a[k] <= b[k]
  }

  function Join(a: Clock, b: Clock): (c: Clock)
    requires |a| == |b|
    ensures |c| == |a|
    ensures forall k :: 0 <= k < |c| ==> c[k] == if a[k] < b[k] then b[k] else a[k]
  {
    seq(|a|, k requires 0 <= k < |a| => if a[k] < b[k] then b[k] else a[k])
  }

  predicate Shape(m: Memory, n: nat) {
    && |m.clocks| == n && |m.history| == n
    && (forall t :: 0 <= t < n ==> |m.clocks[t]| == n)
    && (forall l :: 0 <= l < n ==> |m.history[l]| > 0)
    && (forall l, i :: 0 <= l < n && 0 <= i < |m.history[l]| ==> |m.history[l][i].clock| == n)
    && (forall a :: a in m.accesses ==> a.thread < n)
  }

  function Initial(n: nat): (m: Memory)
    ensures Shape(m, n)
  {
    var zero := seq(n, _ => 0);
    Memory(seq(n, _ => zero), seq(n, _ => [Message(0, zero)]), {})
  }

  /** Thread `t` may read message `i` of location `l`: it knows of no later store there. */
  predicate Readable(m: Memory, n: nat, t: nat, l: nat, i: nat)
    requires Shape(m, n) && t < n && l < n
  {
    i < |m.history[l]| &&
    forall j :: i < j < |m.history[l]| ==> m.clocks[t][l] < m.history[l][j].clock[l]
  }

  function Load(m: Memory, n: nat, t: nat, l: nat, i: nat): (r: Memory)
    requires Shape(m, n) && t < n && l < n && i < |m.history[l]|
    ensures Shape(r, n)
  {
    m.(clocks := m.clocks[t := Join(m.clocks[t], m.history[l][i].clock)])
  }

  function Tick(m: Memory, n: nat, t: nat): (r: Clock)
    requires Shape(m, n) && t < n
    ensures |r| == n && r[t] == m.clocks[t][t] + 1
    ensures forall k :: 0 <= k < n && k != t ==> r[k] == m.clocks[t][k]
  {
    m.clocks[t][t := m.clocks[t][t] + 1]
  }

  function Store(m: Memory, n: nat, t: nat, value: nat): (r: Memory)
    requires Shape(m, n) && t < n
    ensures Shape(r, n)
  {
    var clock := Tick(m, n, t);
    m.(clocks := m.clocks[t := clock], history := m.history[t := m.history[t] + [Message(value, clock)]])
  }

  function Touch(m: Memory, n: nat, t: nat, slot: nat, index: nat, isWrite: bool, position: nat): (r: Memory)
    requires Shape(m, n) && t < n
    ensures Shape(r, n)
  {
    var clock := Tick(m, n, t);
    m.(clocks := m.clocks[t := clock], accesses := m.accesses + {Access(t, clock[t], slot, index, isWrite, position)})
  }

  /** Somebody else's conflicting access is not ordered before this one. */
  predicate Races(m: Memory, n: nat, t: nat, slot: nat, index: nat, isWrite: bool)
    requires Shape(m, n) && t < n
  {
    exists a :: a in m.accesses && a.slot == slot && a.index == index && a.thread != t &&
      (a.isWrite || isWrite) && m.clocks[t][a.thread] < a.time
  }

  // ----- What every history satisfies -----

  /** Whoever knows of a store knows everything the storer knew. */
  ghost predicate Closed(h: seq<seq<Message>>, n: nat, v: Clock)
    requires |h| == n
    ensures Closed(h, n, v) ==> |v| == n
  {
    |v| == n &&
    forall l, i :: 0 <= l < n && 0 <= i < |h[l]| && |h[l][i].clock| == n && h[l][i].clock[l] <= v[l] ==>
      Leq(h[l][i].clock, v)
  }

  /** No clock is ahead of a thread about that thread's own time. */
  ghost predicate Bounded(m: Memory, n: nat, v: Clock)
    requires Shape(m, n)
  {
    |v| == n && forall u :: 0 <= u < n ==> v[u] <= m.clocks[u][u]
  }

  ghost predicate Increasing(h: seq<Message>, n: nat, l: nat)
    requires l < n && forall i :: 0 <= i < |h| ==> |h[i].clock| == n
  {
    forall i, j :: 0 <= i < j < |h| ==> h[i].clock[l] < h[j].clock[l]
  }

  ghost predicate Causal(m: Memory, n: nat)
    ensures Causal(m, n) ==> Shape(m, n)
  {
    && Shape(m, n)
    && (forall t :: 0 <= t < n ==> Closed(m.history, n, m.clocks[t]) && Bounded(m, n, m.clocks[t]))
    && (forall l, i :: 0 <= l < n && 0 <= i < |m.history[l]| ==>
          Closed(m.history, n, m.history[l][i].clock) && Bounded(m, n, m.history[l][i].clock))
    && (forall l :: 0 <= l < n ==> Increasing(m.history[l], n, l))
    && (forall a :: a in m.accesses ==> a.time <= m.clocks[a.thread][a.thread])
  }

  lemma InitialCausal(n: nat)
    ensures Causal(Initial(n), n)
  {}

  lemma JoinClosed(h: seq<seq<Message>>, n: nat, a: Clock, b: Clock)
    requires |h| == n && Closed(h, n, a) && Closed(h, n, b)
    ensures Closed(h, n, Join(a, b)) && Leq(a, Join(a, b)) && Leq(b, Join(a, b))
  {
    var c := Join(a, b);
    forall l, i | 0 <= l < n && 0 <= i < |h[l]| && |h[l][i].clock| == n && h[l][i].clock[l] <= c[l]
      ensures Leq(h[l][i].clock, c)
    {
      if h[l][i].clock[l] <= a[l] {
        assert Leq(h[l][i].clock, a);
      } else {
        assert Leq(h[l][i].clock, b);
      }
    }
  }

  lemma LoadCausal(m: Memory, n: nat, t: nat, l: nat, i: nat)
    requires Causal(m, n) && t < n && l < n && i < |m.history[l]|
    ensures Causal(Load(m, n, t, l, i), n)
  {
    var r := Load(m, n, t, l, i);
    JoinClosed(m.history, n, m.clocks[t], m.history[l][i].clock);
    assert Bounded(m, n, m.history[l][i].clock) && Bounded(m, n, m.clocks[t]);
    assert forall u :: 0 <= u < n ==> r.clocks[u][u] == m.clocks[u][u];
    BoundedGrows(m, r, n);
  }

  /** Bounds survive when every thread's own time only grows. */
  lemma BoundedGrows(m: Memory, r: Memory, n: nat)
    requires Shape(m, n) && Shape(r, n)
    requires forall u :: 0 <= u < n ==> m.clocks[u][u] <= r.clocks[u][u]
    ensures forall v :: Bounded(m, n, v) ==> Bounded(r, n, v)
  {
    forall v | Bounded(m, n, v) ensures Bounded(r, n, v) {
      forall u | 0 <= u < n ensures v[u] <= r.clocks[u][u] {
        assert v[u] <= m.clocks[u][u];
      }
    }
  }

  lemma TickClosed(m: Memory, n: nat, t: nat)
    requires Causal(m, n) && t < n
    ensures Closed(m.history, n, Tick(m, n, t)) && Leq(m.clocks[t], Tick(m, n, t))
  {
    var v := Tick(m, n, t);
    var h: seq<seq<Message>> := m.history;
    forall l, i | 0 <= l < n && 0 <= i < |h[l]| && |h[l][i].clock| == n && h[l][i].clock[l] <= v[l]
      ensures Leq(h[l][i].clock, v)
    {
      assert Bounded(m, n, h[l][i].clock);
      assert Closed(m.history, n, m.clocks[t]);
      assert h[l][i].clock[l] <= m.clocks[t][l];
      assert Leq(h[l][i].clock, m.clocks[t]);
    }
  }

  lemma TouchCausal(m: Memory, n: nat, t: nat, slot: nat, index: nat, isWrite: bool, position: nat)
    requires Causal(m, n) && t < n
    ensures Causal(Touch(m, n, t, slot, index, isWrite, position), n)
  {
    var r := Touch(m, n, t, slot, index, isWrite, position);
    TickClosed(m, n, t);
    BoundedGrows(m, r, n);
    TickBounded(m, r, n, t);
  }

  lemma TickBounded(m: Memory, r: Memory, n: nat, t: nat)
    requires Causal(m, n) && Shape(r, n) && t < n
    requires r.clocks == m.clocks[t := Tick(m, n, t)]
    ensures Bounded(r, n, r.clocks[t])
    ensures forall u :: 0 <= u < n ==> Bounded(r, n, r.clocks[u])
  {
    BoundedGrows(m, r, n);
    assert Bounded(m, n, m.clocks[t]);
    forall u | 0 <= u < n ensures r.clocks[t][u] <= r.clocks[u][u] {
      assert m.clocks[t][u] <= m.clocks[u][u];
    }
  }

  lemma StoreCausal(m: Memory, n: nat, t: nat, value: nat)
    requires Causal(m, n) && t < n
    ensures Causal(Store(m, n, t, value), n)
  {
    hide Increasing, Closed, Bounded, Leq;
    var r := Store(m, n, t, value);
    TickClosed(m, n, t);
    TickBounded(m, r, n, t);
    BoundedGrows(m, r, n);
    forall v | Closed(m.history, n, v) && (v == r.clocks[t] || Bounded(m, n, v)) ensures Closed(r.history, n, v) {
      StoreKeepsClosed(m, n, t, value, v);
    }
    StoreIncreasing(m, n, t, value);
  }

  lemma StoreKeepsClosed(m: Memory, n: nat, t: nat, value: nat, v: Clock)
    requires Causal(m, n) && t < n && Closed(m.history, n, v)
    requires v == Tick(m, n, t) || Bounded(m, n, v)
    ensures Closed(Store(m, n, t, value).history, n, v)
  {
    var h: seq<seq<Message>> := m.history;
    var g: seq<seq<Message>> := Store(m, n, t, value).history;
    forall l, i | 0 <= l < n && 0 <= i < |g[l]| && |g[l][i].clock| == n && g[l][i].clock[l] <= v[l]
      ensures Leq(g[l][i].clock, v)
    {
      if l == t && i == |h[t]| {
        assert g[l][i].clock == Tick(m, n, t);
      } else {
        assert g[l][i] == h[l][i];
      }
    }
  }

  lemma StoreIncreasing(m: Memory, n: nat, t: nat, value: nat)
    requires Causal(m, n) && t < n
    ensures Increasing(Store(m, n, t, value).history[t], n, t)
  {
    var h: seq<Message> := m.history[t];
    var g: seq<Message> := Store(m, n, t, value).history[t];
    forall i, j | 0 <= i < j < |g| ensures g[i].clock[t] < g[j].clock[t] {
      if j == |h| {
        assert Bounded(m, n, m.history[t][i].clock);
      } else {
        assert g[i] == h[i] && g[j] == h[j];
      }
    }
  }

  // ----- Knowledge of stored values -----

  /** The clock covers a store of at least `x` to location `l`. */
  ghost predicate Knows(h: seq<seq<Message>>, v: Clock, l: nat, x: int)
    requires l < |h| && l < |v|
  {
    exists i :: 0 <= i < |h[l]| && l < |h[l][i].clock| && h[l][i].clock[l] <= v[l] && h[l][i].value >= x
  }

  lemma KnowsMore(h: seq<seq<Message>>, v: Clock, w: Clock, l: nat, x: int, y: int)
    requires l < |h| && l < |v| && Leq(v, w) && y <= x
    requires Knows(h, v, l, x)
    ensures Knows(h, w, l, y)
  {
    var i :| 0 <= i < |h[l]| && l < |h[l][i].clock| && h[l][i].clock[l] <= v[l] && h[l][i].value >= x;
    assert h[l][i].clock[l] <= w[l];
  }

  /** A history that only grew. */
  ghost predicate Extends(h: seq<seq<Message>>, g: seq<seq<Message>>) {
    |h| == |g| && forall l :: 0 <= l < |h| ==> h[l] <= g[l]
  }

  lemma KnowsLater(h: seq<seq<Message>>, g: seq<seq<Message>>, v: Clock, l: nat, x: int)
    requires l < |h| && l < |v| && Extends(h, g) && Knows(h, v, l, x)
    ensures Knows(g, v, l, x)
  {
    var i :| 0 <= i < |h[l]| && l < |h[l][i].clock| && h[l][i].clock[l] <= v[l] && h[l][i].value >= x;
    assert h[l] <= g[l];
    assert g[l][i] == h[l][i];
  }

  lemma StoreExtends(m: Memory, n: nat, t: nat, value: nat)
    requires Shape(m, n) && t < n
    ensures Extends(m.history, Store(m, n, t, value).history)
  {}

  /** What a thread reads is at least what it knows to have been stored. */
  lemma ReadableAtLeast(m: Memory, n: nat, t: nat, l: nat, i: nat, x: int)
    requires Causal(m, n) && t < n && l < n && Readable(m, n, t, l, i)
    requires Rising(m.history[l])
    requires Knows(m.history, m.clocks[t], l, x)
    ensures m.history[l][i].value >= x
  {
    var h: seq<seq<Message>> := m.history;
    var j :| 0 <= j < |h[l]| && l < |h[l][j].clock| && h[l][j].clock[l] <= m.clocks[t][l] && h[l][j].value >= x;
    assert j <= i;
  }

  /** Stored values never go down. */
  ghost predicate Rising(h: seq<Message>) {
    forall i, j :: 0 <= i <= j < |h| ==> h[i].value <= h[j].value
  }

  function Latest(m: Memory, n: nat, l: nat): nat
    requires Shape(m, n) && l < n
  {
    m.history[l][|m.history[l]| - 1].value
  }

  lemma LatestIsGreatest(m: Memory, n: nat, l: nat, v: Clock, x: int)
    requires Shape(m, n) && l < n && l < |v| && Rising(m.history[l]) && Knows(m.history, v, l, x)
    ensures Latest(m, n, l) >= x
  {
    var h: seq<Message> := m.history[l];
    var i :| 0 <= i < |h| && l < |h[i].clock| && h[i].clock[l] <= v[l] && h[i].value >= x;
    assert h[i].value <= h[|h| - 1].value;
  }

  /** After a load the message read is known. */
  lemma LoadKnows(m: Memory, n: nat, t: nat, l: nat, i: nat)
    requires Causal(m, n) && t < n && l < n && i < |m.history[l]|
    ensures Knows(m.history, Load(m, n, t, l, i).clocks[t], l, m.history[l][i].value)
    ensures Leq(m.clocks[t], Load(m, n, t, l, i).clocks[t])
  {
    assert m.history[l][i].clock[l] <= Load(m, n, t, l, i).clocks[t][l];
  }

  // ----- What a race is -----

  /**
   * An access races with the one another thread has just made to the same byte,
   * unless both only read.
   */
  lemma ConflictRaces(
    m: Memory, n: nat, u: nat, t: nat, slot: nat, index: nat, written: bool, isWrite: bool, position: nat)
    requires Shape(m, n) && u < n && t < n && t != u && m.clocks[t][u] <= m.clocks[u][u]
    requires written || isWrite
    ensures Races(Touch(m, n, u, slot, index, written, position), n, t, slot, index, isWrite)
  {
    var r := Touch(m, n, u, slot, index, written, position);
    assert Access(u, m.clocks[u][u] + 1, slot, index, written, position) in r.accesses;
  }

  /** Reads do not race with reads, accesses to other bytes, or a thread's own accesses. */
  lemma NoConflictNoRace(m: Memory, n: nat, t: nat, slot: nat, index: nat, isWrite: bool)
    requires Shape(m, n) && t < n
    requires forall a :: a in m.accesses ==>
      a.slot != slot || a.index != index || a.thread == t || !(a.isWrite || isWrite)
    ensures !Races(m, n, t, slot, index, isWrite)
  {}

  /** Whoever acquires a store knows of every access the storer made before it. */
  lemma AcquireOrders(m: Memory, n: nat, u: nat, t: nat, value: nat)
    requires Causal(m, n) && u < n && t < n && t != u
    ensures var stored := Store(m, n, u, value);
      var acquired := Load(stored, n, t, u, |m.history[u]|);
      && Readable(stored, n, t, u, |m.history[u]|)
      && stored.history[u][|m.history[u]|].value == value
      && acquired.accesses == m.accesses
      && forall a :: a in m.accesses && a.thread == u ==> a.time <= acquired.clocks[t][u]
  {}
}
