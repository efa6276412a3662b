/**
 * The whole tract as a step system: one producer and any number of stages, any
 * of which may be a durable one, over release/acquire memory.
 *
 * One step is one atomic load, one atomic store, one byte of `memcpy`, one
 * module call, one `write` or one `sync`. What a step leaves open (which message
 * a load reads, what a module answers, how much a write transfers, whether it
 * fails) is an input of the step, so a run is a list of moves and the reachable
 * states are the states after all such lists.
 */
module Tract {
  import opened Words
  import opened WalGeometry
  import opened WalImage
  import opened WalScan
  import opened WalCanonical
  import opened ViewMemory

  datatype Stage =
    | SliderOf(publishCount: nat)
    | PersistenceOf(syncCount: nat, config: WalConfig)

  /** Stage `t`, counted from 1, follows stage `t - 1`; 0 is the producer and the last stage is Tail. */
  datatype Params = Params(capacity: nat, payloadSize: nat, stages: seq<Stage>)

  predicate ValidStage(payloadSize: nat, stage: Stage) {
    match stage
    case SliderOf(publishCount) => publishCount > 0
    case PersistenceOf(syncCount, config) =>
      syncCount > 0 && ValidReaderConfig(config) && config.payloadSize == payloadSize
  }

  predicate ValidParams(p: Params) {
    && p.capacity > 0 && p.stages != []
    && forall k :: 0 <= k < |p.stages| ==> ValidStage(p.payloadSize, p.stages[k])
  }

  /** Number of threads, and of atomic locations. */
  function Threads(p: Params): nat {
    |p.stages| + 1
  }

  function TailOf(p: Params): nat {
    |p.stages|
  }

  datatype Control =
    | Idle
    | LoadingTail(payload: Payload)              // producer: before the load of Tail
    | Copying(payload: Payload, done: nat)       // producer: inside memcpy
    | Looping                                    // stage: before the two loads of try_view
    | TailLoaded(tail: nat)                      // stage: between them
    | Viewing(buffer: Payload)                   // stage: reading the record
    | Appending(payload: Payload, written: nat)  // durable stage: inside append_record, still using the view
    | Syncing                                    // durable stage: the batch is appended
    | Flushing(leaving: bool)                    // stage: before the store of the frontier

  datatype ModuleCall = ModuleCall(position: nat, payload: Payload, ok: bool)

  /**
   * The log file. `archived` and `next` record what has been appended, completely
   * and in part, and `syncs` how often a sync has been asked for.
   */
  datatype File = File(
    content: seq<byte>, synced: nat, syncs: nat, archived: seq<Payload>, next: seq<Payload>, failed: bool)

  /** What is private to one thread. For the producer `current` is Head. */
  datatype Local = Local(control: Control, current: nat, limit: nat, since: nat, calls: seq<ModuleCall>, file: File)

  /** `broken`: a fail-fast check has fired. `raced`: an access was not ordered after a conflicting one. */
  datatype State = State(
    mem: Memory, locals: seq<Local>, slots: seq<Payload>, log: seq<Payload>, broken: bool, raced: bool)

  /** Everything a single step leaves open. */
  datatype Input = Input(index: nat, payload: Payload, ok: bool, amount: nat)

  predicate WellShaped(p: Params, s: State) {
    && Shape(s.mem, Threads(p))
    && |s.locals| == Threads(p)
    && |s.slots| == p.capacity
    && (forall k :: 0 <= k < p.capacity ==> |s.slots[k]| == p.payloadSize)
  }

  // ----- Initial state -----

  function InitialFile(p: Params, t: nat): File
    requires 0 < t < Threads(p)
  {
    match p.stages[t - 1]
    case SliderOf(_) => File([], 0, 0, [], [], false)
    case PersistenceOf(_, config) => File(FileHead(config), |FileHead(config)|, 0, [], [], false)
  }

  function InitialLocal(p: Params, t: nat): Local
    requires t < Threads(p)
  {
    Local(Idle, 0, 0, 0, [], if t == 0 then File([], 0, 0, [], [], false) else InitialFile(p, t))
  }

  function Start(p: Params): (s: State)
    requires ValidParams(p)
    ensures WellShaped(p, s)
  {
    State(
      Initial(Threads(p)),
      seq(Threads(p), t requires 0 <= t < Threads(p) => InitialLocal(p, t)),
      seq(p.capacity, _ => Zeros(p.payloadSize)), [], false, false)
  }

  // ----- The producer -----

  function ProducerStep(p: Params, s: State, input: Input): (r: State)
    requires ValidParams(p) && WellShaped(p, s)
    ensures WellShaped(p, r)
  {
    var me := s.locals[0];
    match me.control
    case Idle =>
      // A payload of any other size is rejected before anything is touched.
      if |input.payload| != p.payloadSize then s
      else SetLocal(s, 0, me.(control := LoadingTail(input.payload)))
    case LoadingTail(payload) =>
      if !Readable(s.mem, Threads(p), 0, TailOf(p), input.index) then s
      else
        var tail := s.mem.history[TailOf(p)][input.index].value;
        var loaded := s.(mem := Load(s.mem, Threads(p), 0, TailOf(p), input.index));
        if tail > me.current || me.current - tail > p.capacity then loaded.(broken := true)
        else if me.current - tail == p.capacity || me.current == U64_MAX then
          SetLocal(loaded, 0, me.(control := Idle))
        else SetLocal(loaded, 0, me.(control := Copying(payload, 0)))
    case Copying(payload, done) =>
      if done < p.payloadSize && done < |payload| then
        SetLocal(WriteByte(p, s, me.current % p.capacity, done, payload[done], me.current), 0,
          me.(control := Copying(payload, done + 1)))
      else
        SetLocal(
          s.(mem := Store(s.mem, Threads(p), 0, me.current + 1), log := s.log + [payload]), 0,
          me.(control := Idle, current := me.current + 1))
    case _ => s
  }

  function SetLocal(s: State, t: nat, local: Local): State
    requires t < |s.locals|
  {
    s.(locals := s.locals[t := local])
  }

  function WriteByte(p: Params, s: State, slot: nat, index: nat, value: byte, position: nat): (r: State)
    requires WellShaped(p, s) && slot < p.capacity && index < p.payloadSize && 0 < Threads(p)
    ensures WellShaped(p, r)
  {
    s.(mem := Touch(s.mem, Threads(p), 0, slot, index, true, position),
       slots := s.slots[slot := s.slots[slot][index := value]],
       raced := s.raced || Races(s.mem, Threads(p), 0, slot, index, true))
  }

  // ----- A stage -----

  /** Only thread `t` and its location are different; no slot is written and nothing is published to the log. */
  ghost predicate Confined(s: State, r: State, t: nat) {
    && r.slots == s.slots && r.log == s.log
    && |r.locals| == |s.locals| && |r.mem.clocks| == |s.mem.clocks| && |r.mem.history| == |s.mem.history|
    && (forall u :: 0 <= u < |s.locals| && u != t ==> r.locals[u] == s.locals[u])
    && (forall u :: 0 <= u < |s.mem.clocks| && u != t ==> r.mem.clocks[u] == s.mem.clocks[u])
    && (forall u :: 0 <= u < |s.mem.history| && u != t ==> r.mem.history[u] == s.mem.history[u])
  }

  function Frontier(s: State, t: nat): nat
    requires t < |s.mem.history| && s.mem.history[t] != []
  {
    s.mem.history[t][|s.mem.history[t]| - 1].value
  }

  /** How far one call of `process` goes. */
  function CallLimit(stage: Stage, current: nat, available: nat): nat
    requires current <= available
  {
    match stage
    case SliderOf(_) => available
    case PersistenceOf(syncCount, _) => current + Min(available - current, syncCount)
  }

  function StageStep(p: Params, s: State, t: nat, input: Input): (r: State)
    requires ValidParams(p) && WellShaped(p, s) && 0 < t < Threads(p)
    ensures WellShaped(p, r) && Confined(s, r, t)
  {
    var me := s.locals[t];
    match me.control
    case Idle => Begin(p, s, t, input)
    case Looping =>
      if !Readable(s.mem, Threads(p), t, TailOf(p), input.index) then s
      else
        var tail := s.mem.history[TailOf(p)][input.index].value;
        SetLocal(s.(mem := Load(s.mem, Threads(p), t, TailOf(p), input.index)), t, me.(control := TailLoaded(tail)))
    case TailLoaded(tail) =>
      if !Readable(s.mem, Threads(p), t, 0, input.index) then s
      else
        var head := s.mem.history[0][input.index].value;
        var loaded := s.(mem := Load(s.mem, Threads(p), t, 0, input.index));
        if tail > head || me.current < tail || me.current >= head then loaded.(broken := true)
        else SetLocal(loaded, t, me.(control := Viewing([])))
    case Viewing(buffer) =>
      if |buffer| < p.payloadSize then ReadByte(p, s, t, buffer)
      else Handle(p, s, t, buffer, input)
    case Appending(payload, written) => Write(p, s, t, payload, written, input)
    case Syncing => Sync(p, s, t, input)
    case Flushing(leaving) =>
      SetLocal(
        s.(mem := Store(s.mem, Threads(p), t, me.current)), t,
        me.(control := if leaving || me.current == me.limit then Idle else Looping, since := 0))
    case _ => s
  }

  /** `process`: the load of the own frontier and the acquire load of the upstream one. */
  function Begin(p: Params, s: State, t: nat, input: Input): (r: State)
    requires ValidParams(p) && WellShaped(p, s) && 0 < t < Threads(p)
    ensures WellShaped(p, r) && Confined(s, r, t)
  {
    var me := s.locals[t];
    if !Readable(s.mem, Threads(p), t, t - 1, input.index) then s
    else
      var available := s.mem.history[t - 1][input.index].value;
      var loaded := s.(mem := Load(s.mem, Threads(p), t, t - 1, input.index));
      if me.file.failed then loaded
      else
        var current := Frontier(s, t);
        if available < current then loaded.(broken := true)
        else if available == current then loaded
        else SetLocal(loaded, t,
          me.(control := Looping, current := current, since := 0,
              limit := CallLimit(p.stages[t - 1], current, available)))
  }

  function ReadByte(p: Params, s: State, t: nat, buffer: Payload): (r: State)
    requires ValidParams(p) && WellShaped(p, s) && 0 < t < Threads(p) && |buffer| < p.payloadSize
    ensures WellShaped(p, r) && Confined(s, r, t)
  {
    var me := s.locals[t];
    var slot, index := me.current % p.capacity, |buffer|;
    SetLocal(TouchSlot(p, s, t, slot, index, me.current), t, me.(control := Viewing(buffer + [s.slots[slot][index]])))
  }

  /** The memory effect of reading one byte of a slot. */
  function TouchSlot(p: Params, s: State, t: nat, slot: nat, index: nat, position: nat): (r: State)
    requires WellShaped(p, s) && t < Threads(p)
    ensures WellShaped(p, r) && Confined(s, r, t)
  {
    s.(mem := Touch(s.mem, Threads(p), t, slot, index, false, position),
       raced := s.raced || Races(s.mem, Threads(p), t, slot, index, false))
  }

  /** The module call of a Slider, or the checks before a durable stage writes. */
  function Handle(p: Params, s: State, t: nat, payload: Payload, input: Input): (r: State)
    requires ValidParams(p) && WellShaped(p, s) && 0 < t < Threads(p)
    ensures WellShaped(p, r) && Confined(s, r, t)
  {
    var me := s.locals[t];
    match p.stages[t - 1]
    case SliderOf(publishCount) =>
      var called := me.(calls := me.calls + [ModuleCall(me.current, payload, input.ok)]);
      if !input.ok then
        SetLocal(s, t, called.(control := if me.since != 0 then Flushing(true) else Idle))
      else
        var since := me.since + 1;
        SetLocal(s, t, called.(
          current := me.current + 1, since := since,
          control := if since == publishCount || me.current + 1 == me.limit then Flushing(false) else Looping))
    case PersistenceOf(_, config) =>
      if Exhausted(config, me.current) then
        SetLocal(s, t, me.(control := Idle, file := me.file.(failed := true)))
      else
        SetLocal(s, t, me.(control := Appending(payload, 0), file := me.file.(next := [payload])))
  }

  /** One `write` while record `current` is appended: some of the bytes, or a failure; or another read of the view. */
  function Write(p: Params, s: State, t: nat, payload: Payload, written: nat, input: Input): (r: State)
    requires ValidParams(p) && WellShaped(p, s) && 0 < t < Threads(p)
    ensures WellShaped(p, r) && Confined(s, r, t)
  {
    var me := s.locals[t];
    match p.stages[t - 1]
    case SliderOf(_) => s
    case PersistenceOf(_, config) =>
      if Exhausted(config, me.current) then s
      else if !input.ok then
        SetLocal(s, t, me.(control := Idle, file := me.file.(failed := true)))
      else if input.amount == 0 then
        if input.index < p.payloadSize then TouchSlot(p, s, t, me.current % p.capacity, input.index, me.current) else s
      else
        var bytes := RecordBytes(config, SequenceOf(config, me.current), payload);
        if written >= |bytes| then s
        else
          var done := Min(written + input.amount, |bytes|);
          var file := me.file.(content := me.file.content + bytes[written..done]);
          if done < |bytes| then SetLocal(s, t, me.(control := Appending(payload, done), file := file))
          else SetLocal(s, t, me.(
            current := me.current + 1,
            control := if me.current + 1 == me.limit then Syncing else Looping,
            file := file.(archived := file.archived + [payload], next := [])))
  }

  function Sync(p: Params, s: State, t: nat, input: Input): (r: State)
    requires ValidParams(p) && WellShaped(p, s) && 0 < t < Threads(p)
    ensures WellShaped(p, r) && Confined(s, r, t)
  {
    var me := s.locals[t];
    var tried := me.file.(syncs := me.file.syncs + 1);
    if !input.ok then SetLocal(s, t, me.(control := Idle, file := tried.(failed := true)))
    else SetLocal(s, t, me.(control := Flushing(true), file := tried.(synced := |me.file.content|)))
  }

  // ----- Runs -----

  datatype Move = Move(thread: nat, input: Input)

  function Step(p: Params, s: State, move: Move): (r: State)
    requires ValidParams(p) && WellShaped(p, s)
    ensures WellShaped(p, r)
  {
    if s.broken || s.raced || move.thread >= Threads(p) then s
    else if move.thread == 0 then ProducerStep(p, s, move.input)
    else StageStep(p, s, move.thread, move.input)
  }

  /** The state after a run from the start. */
  function Run(p: Params, moves: seq<Move>): (s: State)
    requires ValidParams(p)
    ensures WellShaped(p, s)
  {
    if moves == [] then Start(p)
    else Step(p, Run(p, moves[..|moves| - 1]), moves[|moves| - 1])
  }
}
