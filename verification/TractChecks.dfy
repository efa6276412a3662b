/**
 * What the statements about runs are worth: in which states, reachable or not, a
 * fail-fast check fires, an access races, and a durable stage fails for good.
 */
module TractChecks {
  import opened WalImage
  import opened WalScan
  import opened WalCanonical
  import opened ViewMemory
  import opened Tract
  import opened TractSafety

  /** The value that a load under this input returns. */
  function Loaded(p: Params, s: State, l: nat, input: Input): nat
    requires WellShaped(p, s) && l < Threads(p) && input.index < |s.mem.history[l]|
  {
    s.mem.history[l][input.index].value
  }

  /** The producer's check: the Tail it reads is beyond Head, or more than a capacity behind it. */
  lemma PublishBreaksIff(p: Params, s: State, input: Input)
    requires ValidParams(p) && WellShaped(p, s) && !s.broken
    ensures ProducerStep(p, s, input).broken <==>
      && s.locals[0].control.LoadingTail? && Readable(s.mem, Threads(p), 0, TailOf(p), input.index)
      && var tail := Loaded(p, s, TailOf(p), input);
         tail > s.locals[0].current || s.locals[0].current > tail + p.capacity
  {
    hide Readable, Load, Store, Touch, Races;
  }

  /**
   * A stage's checks: the upstream frontier it reads is behind its own; or its view
   * fails, because Tail is beyond Head, or the position is behind Tail or not yet
   * published.
   */
  lemma StageBreaksIff(p: Params, s: State, t: nat, input: Input)
    requires ValidParams(p) && WellShaped(p, s) && 0 < t < Threads(p) && !s.broken
    ensures StageStep(p, s, t, input).broken <==>
      var me := s.locals[t];
      || (me.control.Idle? && !me.file.failed && Readable(s.mem, Threads(p), t, t - 1, input.index)
          && Loaded(p, s, t - 1, input) < Frontier(s, t))
      || (me.control.TailLoaded? && Readable(s.mem, Threads(p), t, 0, input.index)
          && var head := Loaded(p, s, 0, input);
             me.control.tail > head || me.current < me.control.tail || head <= me.current)
  {
    hide Readable, Load, Store, Touch, Races, Exhausted, RecordBytes, SequenceOf, CallLimit, Confined;
  }

  /** Every byte that is written or read is checked for a race. */
  lemma WriteRacesIff(p: Params, s: State, input: Input)
    requires Safe(p, s)
    ensures ProducerStep(p, s, input).raced <==>
      var me := s.locals[0];
      && me.control.Copying? && me.control.done < p.payloadSize && me.control.done < |me.control.payload|
      && Races(s.mem, Threads(p), 0, me.current % p.capacity, me.control.done, true)
  {
    hide Safe, Readable, Load, Store, Races;
  }

  lemma ReadRacesIff(p: Params, s: State, t: nat, input: Input)
    requires Safe(p, s) && 0 < t < Threads(p) && s.locals[t].control.Viewing?
    ensures StageStep(p, s, t, input).raced <==>
      var me := s.locals[t];
      && |me.control.buffer| < p.payloadSize
      && Races(s.mem, Threads(p), t, me.current % p.capacity, |me.control.buffer|, false)
  {
    hide Safe, Races, Exhausted, Confined;
  }

  /**
   * A durable stage fails exactly when the sequence is exhausted, a write fails, or
   * a sync fails; then its call is over, and it has stored and written nothing.
   */
  lemma FailsIff(p: Params, s: State, t: nat, input: Input)
    requires Safe(p, s) && 0 < t < Threads(p) && p.stages[t - 1].PersistenceOf? && !s.locals[t].file.failed
    ensures var me, now := s.locals[t], StageStep(p, s, t, input).locals[t];
      var config := p.stages[t - 1].config;
      && (now.file.failed <==>
            || (me.control.Viewing? && |me.control.buffer| >= p.payloadSize && Exhausted(config, me.current))
            || (me.control.Appending? && !Exhausted(config, me.current) && !input.ok)
            || (me.control.Syncing? && !input.ok))
      && (now.file.failed ==>
            && now.control.Idle? && now.current == me.current && now.file.content == me.file.content
            && now.file.archived == me.file.archived && now.file.synced == me.file.synced)
  {
    hide Safe, Readable, Races, Load, Store, Touch, RecordBytes, SequenceOf, Exhausted, CallLimit, Confined;
  }
}
