/**
 * One stage of the tract: the nested loops of `process`, their trace of module
 * calls and frontier stores, and what any number of calls adds up to.
 */
module SliderStage {
  import opened Words
  import opened Tape

  datatype SliderStatus = Processed | Empty | ModuleFailed

  datatype Event =
    | Call(position: nat, payload: Payload, ok: bool)
    | Publish(end: nat)

  function Residual(current: nat, sincePublish: nat): seq<Event> {
    if sincePublish != 0 then [Publish(current)] else []
  }

  /** One successful call, with the store that may follow it. */
  function Success(current: nat, payload: Payload, published: bool): seq<Event> {
    if published then [Call(current, payload, true), Publish(current + 1)] else [Call(current, payload, true)]
  }

  /** A single loop: call the module, publish after every `publishCount`-th success, publish what is left over. */
  function Cadence(
    log: seq<Payload>, current: nat, end: nat, sincePublish: nat, publishCount: nat, accepts: nat -> bool): seq<Event>
    requires current <= end <= |log|
    decreases end - current
  {
    if current == end then Residual(current, sincePublish)
    else if !accepts(current) then
      [Call(current, log[current], false)] + Residual(current, sincePublish)
    else
      var published := sincePublish + 1 == publishCount;
      Success(current, log[current], published)
        + Cadence(log, current + 1, end, if published then 0 else sincePublish + 1, publishCount, accepts)
  }

  /** The first refused position, or the end of the range. */
  function Reach(current: nat, end: nat, accepts: nat -> bool): (reach: nat)
    requires current <= end
    ensures current <= reach <= end
    ensures reach < end ==> !accepts(reach)
    ensures forall p :: current <= p < reach ==> accepts(p)
    decreases end - current
  {
    if current == end || !accepts(current) then current else Reach(current + 1, end, accepts)
  }

  function PublishOf(event: Event): seq<nat> {
    if event.Publish? then [event.end] else []
  }

  function Publishes(trace: seq<Event>): seq<nat> {
    if trace == [] then [] else PublishOf(trace[0]) + Publishes(trace[1..])
  }

  function CompletionOf(event: Event): seq<nat> {
    if event.Call? && event.ok then [event.position] else []
  }

  /** The positions whose calls succeeded, in call order. */
  function Completed(trace: seq<Event>): seq<nat> {
    if trace == [] then [] else CompletionOf(trace[0]) + Completed(trace[1..])
  }

  function Upto(n: nat): (s: seq<nat>)
    ensures |s| == n && forall i :: 0 <= i < n ==> s[i] == i
  {
    seq(n, i => i)
  }

  function Range(from: nat, limit: nat): (s: seq<nat>)
    requires from <= limit
    ensures |s| == limit - from && forall i :: 0 <= i < |s| ==> s[i] == from + i
  {
    seq(limit - from, i => from + i)
  }

  /** Every `step`-th value after `from` up to `limit`, and `limit` itself. */
  function Points(from: nat, limit: nat, step: nat): seq<nat>
    requires from <= limit && step > 0
    decreases limit - from
  {
    if limit - from < step then (if from < limit then [limit] else [])
    else [from + step] + Points(from + step, limit, step)
  }

  // ----- What the single loop does -----

  lemma {:induction false} CompletedSplit(a: seq<Event>, b: seq<Event>)
    ensures Completed(a + b) == Completed(a) + Completed(b)
  {
    hide CompletionOf;
    if a == [] {
      assert a + b == b;
    } else {
      assert (a + b)[1..] == a[1..] + b;
      CompletedSplit(a[1..], b);
    }
  }

  lemma {:induction false} PublishesSplit(a: seq<Event>, b: seq<Event>)
    ensures Publishes(a + b) == Publishes(a) + Publishes(b)
  {
    hide PublishOf;
    if a == [] {
      assert a + b == b;
    } else {
      assert (a + b)[1..] == a[1..] + b;
      PublishesSplit(a[1..], b);
    }
  }

  /** The part of the trace that handling one position adds. */
  function Handling(log: seq<Payload>, current: nat, since: nat, publishCount: nat, ok: bool): seq<Event>
    requires current < |log|
  {
    if ok then Success(current, log[current], since + 1 == publishCount)
    else [Call(current, log[current], false)] + Residual(current, since)
  }

  lemma Unfold(log: seq<Payload>, current: nat, end: nat, since: nat, publishCount: nat, accepts: nat -> bool)
    requires current < end <= |log|
    ensures Reach(current, end, accepts) == if accepts(current) then Reach(current + 1, end, accepts) else current
    ensures Cadence(log, current, end, since, publishCount, accepts)
      == Handling(log, current, since, publishCount, accepts(current))
         + if accepts(current)
           then
             Cadence(log, current + 1, end, if since + 1 == publishCount then 0 else since + 1, publishCount, accepts)
           else []
  {}

  lemma UnfoldEnd(log: seq<Payload>, end: nat, since: nat, publishCount: nat, accepts: nat -> bool)
    requires end <= |log|
    ensures Reach(end, end, accepts) == end
    ensures Cadence(log, end, end, since, publishCount, accepts) == Residual(end, since)
    ensures Residual(end, since) == if since != 0 then [Publish(end)] else []
  {}

  lemma HandlingAdds(log: seq<Payload>, current: nat, since: nat, publishCount: nat, ok: bool)
    requires current < |log|
    ensures Completed(Handling(log, current, since, publishCount, ok)) == if ok then [current] else []
    ensures Publishes(Handling(log, current, since, publishCount, ok)) ==
      if ok then (if since + 1 == publishCount then [current + 1] else [])
      else if since != 0 then [current] else []
  {
    var call := [Call(current, log[current], ok)];
    var store :=
      if ok then (if since + 1 == publishCount then [Publish(current + 1)] else []) else Residual(current, since);
    assert Handling(log, current, since, publishCount, ok) == call + store;
    CompletedSplit(call, store);
    PublishesSplit(call, store);
    OneEvent(Call(current, log[current], ok));
    OneEvent(Publish(current));
    OneEvent(Publish(current + 1));
  }

  lemma OneEvent(event: Event)
    ensures Completed([event]) == CompletionOf(event)
    ensures Publishes([event]) == PublishOf(event)
  {
    assert [event][1..] == [];
  }

  /** Exactly the positions up to the first refusal complete, once each and in order. */
  lemma {:induction false} CadenceCompletes(
    log: seq<Payload>, current: nat, end: nat, since: nat, publishCount: nat, accepts: nat -> bool)
    requires current <= end <= |log|
    ensures Completed(Cadence(log, current, end, since, publishCount, accepts))
         == Range(current, Reach(current, end, accepts))
    decreases end - current
  {
    hide Cadence, Completed, Handling, Residual, Reach;
    if current == end {
      UnfoldEnd(log, end, since, publishCount, accepts);
      NothingCompletes(end, since);
    } else {
      Unfold(log, current, end, since, publishCount, accepts);
      HandlingAdds(log, current, since, publishCount, accepts(current));
      if accepts(current) {
        var next := if since + 1 == publishCount then 0 else since + 1;
        CadenceCompletes(log, current + 1, end, next, publishCount, accepts);
        CompletedSplit(Handling(log, current, since, publishCount, true),
          Cadence(log, current + 1, end, next, publishCount, accepts));
        assert Range(current, Reach(current, end, accepts))
            == [current] + Range(current + 1, Reach(current, end, accepts));
      } else {
        assert Handling(log, current, since, publishCount, false) + []
            == Handling(log, current, since, publishCount, false);
      }
    }
  }

  lemma NothingCompletes(end: nat, since: nat)
    ensures Completed(Residual(end, since)) == []
    ensures Publishes(Residual(end, since)) == if since != 0 then [end] else []
  {
    OneEvent(Publish(end));
  }

  /**
   * The frontier takes exactly the values at distance `publishCount` from the last
   * one published, and the point reached: nothing completed is left unpublished.
   */
  lemma {:induction false} CadencePublishes(
    log: seq<Payload>, current: nat, end: nat, since: nat, publishCount: nat, accepts: nat -> bool)
    requires current <= end <= |log| && since < publishCount && since <= current
    ensures Publishes(Cadence(log, current, end, since, publishCount, accepts))
         == Points(current - since, Reach(current, end, accepts), publishCount)
    decreases end - current
  {
    hide Cadence, Publishes, Handling, Residual, Reach;
    if current == end {
      UnfoldEnd(log, end, since, publishCount, accepts);
      NothingCompletes(end, since);
    } else {
      Unfold(log, current, end, since, publishCount, accepts);
      HandlingAdds(log, current, since, publishCount, accepts(current));
      if accepts(current) {
        var next := if since + 1 == publishCount then 0 else since + 1;
        CadencePublishes(log, current + 1, end, next, publishCount, accepts);
        PublishesSplit(Handling(log, current, since, publishCount, true),
          Cadence(log, current + 1, end, next, publishCount, accepts));
      } else {
        assert Handling(log, current, since, publishCount, false) + []
            == Handling(log, current, since, publishCount, false);
      }
    }
  }

  lemma {:induction false} PointsEnd(from: nat, limit: nat, step: nat)
    requires from < limit && step > 0
    ensures Points(from, limit, step) != []
    ensures Points(from, limit, step)[|Points(from, limit, step)| - 1] == limit
    decreases limit - from
  {
    if limit - from >= step && from + step < limit {
      PointsEnd(from + step, limit, step);
    }
  }

  /** The published values one by one: `step` apart, only the last one possibly nearer. */
  lemma {:induction false} PointsAt(from: nat, limit: nat, step: nat, k: nat)
    requires from <= limit && step > 0 && k < |Points(from, limit, step)|
    ensures Points(from, limit, step)[k]
         == if k + 1 < |Points(from, limit, step)| || from + step * (k + 1) <= limit
            then from + step * (k + 1) else limit
    ensures k + 1 < |Points(from, limit, step)| ==> from + step * (k + 1) < limit
    ensures from + step * k < limit
    decreases limit - from
  {
    if limit - from >= step && k > 0 {
      PointsAt(from + step, limit, step, k - 1);
      assert from + step + step * k == from + step * (k + 1);
      assert from + step + step * (k - 1) == from + step * k;
    }
  }

  lemma Regroup(before: seq<Event>, a: seq<Event>, b: seq<Event>)
    ensures before + (a + b) == before + a + b
  {}

  lemma StillInOrder(
    before: seq<Event>, log: seq<Payload>, start: nat, end: nat, publishCount: nat, accepts: nat -> bool)
    requires start <= end <= |log| && Completed(before) == Upto(start)
    ensures Completed(before + Cadence(log, start, end, 0, publishCount, accepts)) == Upto(Reach(start, end, accepts))
  {
    CompletedSplit(before, Cadence(log, start, end, 0, publishCount, accepts));
    CadenceCompletes(log, start, end, 0, publishCount, accepts);
  }

  class Slider {
    const tape: RecordTape
    const upstream: Frontier
    const frontier: Frontier
    const readCount: u64
    const publishCount: u64
    ghost var trace: seq<Event>  // every module call and frontier store so far

    /**
     * Exactly-once, in-order completion over any number of calls: the successful
     * positions are 0, 1, 2, ... and the frontier counts them.
     */
    ghost predicate Valid()
      reads this, frontier
    {
      && readCount > 0 && publishCount > 0
      && Completed(trace) == Upto(frontier.value)
    }

    /** The chain of frontiers in a correctly wired tract, seen from this stage. */
    ghost predicate Wired()
      reads tape, tape.head, tape.tail, tape.data, upstream, frontier
    {
      && tape.Valid() && tape.isOpen
      && upstream != frontier && tape.head != frontier
      && tape.tail.value <= frontier.value <= upstream.value <= tape.head.value
      && tape.head.value <= tape.tail.value + tape.capacity
    }

    constructor (tape: RecordTape, upstream: Frontier, readCount: u64, publishCount: u64)
      requires readCount > 0 && publishCount > 0
      ensures Valid() && this.tape == tape && this.upstream == upstream && fresh(frontier) && frontier.value == 0
      ensures this.readCount == readCount && this.publishCount == publishCount && trace == []
    {
      var own := new Frontier();
      this.tape, this.upstream, this.frontier := tape, upstream, own;
      this.readCount, this.publishCount := readCount, publishCount;
      trace := [];
    }

    method Store(end: u64)
      modifies frontier, this`trace
      ensures frontier.value == end && trace == old(trace) + [Publish(end)]
    {
      frontier.Store(end);
      trace := trace + [Publish(end)];
    }

    /** Publishes what has not been published yet. */
    method Flush(current: u64, since: u64)
      requires Wired() && frontier.value + since == current <= upstream.value
      modifies frontier, this`trace
      ensures Wired() && frontier.value == current && trace == old(trace) + Residual(current, since)
    {
      hide RecordTape.Holds;
      if since != 0 {
        Store(current);
      } else {
        assert trace + [] == trace;
      }
    }

    /** The body of the inner loop: view, module call, and publication or flush. */
    method Handle(current: u64, since: u64, accepts: nat -> bool) returns (ok: bool, sinceNext: u64)
      requires readCount > 0 && since < publishCount
      requires Wired() && frontier.value + since == current < upstream.value
      modifies frontier, this`trace
      ensures Wired() && ok == accepts(current)
      ensures trace == old(trace) + Handling(tape.log, current, since, publishCount, ok)
      ensures !ok ==> frontier.value == current
      ensures ok ==> sinceNext == (if since + 1 == publishCount then 0 else since + 1)
      ensures ok ==> frontier.value + sinceNext == current + 1
    {
      hide Completed, RecordTape.Holds;
      var viewed, view := tape.TryView(current);
      var payload := view.Bytes();
      assert viewed == ViewOk && payload == tape.log[current];
      ok := accepts(current);
      sinceNext := since;
      trace := trace + [Call(current, payload, ok)];
      if !ok {
        Flush(current, since);
        return;
      }
      sinceNext := since + 1;
      if sinceNext == publishCount {
        Store(current + 1);
        sinceNext := 0;
      }
    }

    lemma LogReaches()
      requires Wired()
      ensures upstream != frontier && frontier.value <= upstream.value <= |tape.log|
    {
      hide RecordTape.Holds;
    }

    /**
     * One call. `accepts` is what the module answers; within one call it sees
     * each position at most once. `readCount` leaves no mark on the trace.
     */
    method Process(accepts: nat -> bool) returns (status: SliderStatus)
      requires Valid() && Wired()
      modifies frontier, this`trace
      ensures Valid() && Wired()
      ensures trace == old(trace) + Cadence(tape.log, old(frontier.value), upstream.value, 0, publishCount, accepts)
      ensures frontier.value == Reach(old(frontier.value), upstream.value, accepts)
      ensures status == if old(frontier.value) == upstream.value then Empty
        else if frontier.value < upstream.value then ModuleFailed else Processed
    {
      hide Cadence, Reach, Completed, Handling, Residual, RecordTape.Valid, Slider.Wired;
      LogReaches();
      ghost var before, start, log := trace, frontier.value, tape.log;
      var current := frontier.value;
      var availableEnd := upstream.value;
      UnfoldEnd(log, availableEnd, 0, publishCount, accepts);
      StillInOrder(before, log, start, availableEnd, publishCount, accepts);
      if availableEnd == current {
        assert trace == before + [];
        return Empty;
      }
      ghost var whole := before + Cadence(log, start, availableEnd, 0, publishCount, accepts);
      ghost var reach := Reach(start, availableEnd, accepts);
      var sincePublish: u64 := 0;
      while current < availableEnd
        invariant Wired() && tape.log == log && upstream.value == availableEnd
        invariant current <= availableEnd && frontier.value + sincePublish == current && sincePublish < publishCount
        invariant trace + Cadence(log, current, availableEnd, sincePublish, publishCount, accepts) == whole
        invariant Reach(current, availableEnd, accepts) == reach
      {
        var passEnd: u64 := current + Min(readCount, availableEnd - current);
        while current < passEnd
          invariant Wired() && tape.log == log && upstream.value == availableEnd
          invariant current <= passEnd <= availableEnd
          invariant frontier.value + sincePublish == current && sincePublish < publishCount
          invariant trace + Cadence(log, current, availableEnd, sincePublish, publishCount, accepts) == whole
          invariant Reach(current, availableEnd, accepts) == reach
        {
          Unfold(log, current, availableEnd, sincePublish, publishCount, accepts);
          ghost var now := trace;
          var ok, next := Handle(current, sincePublish, accepts);
          if !ok {
            assert trace[|now|..] + [] == trace[|now|..];
            assert trace == whole && frontier.value == reach;
            return ModuleFailed;
          }
          Regroup(now, trace[|now|..], Cadence(log, current + 1, availableEnd, next, publishCount, accepts));
          current := current + 1;
          sincePublish := next;
        }
      }
      UnfoldEnd(log, availableEnd, sincePublish, publishCount, accepts);
      Flush(current, sincePublish);
      assert trace == whole && frontier.value == reach;
      status := Processed;
    }
  }
}
