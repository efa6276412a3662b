/**
 * The demo pipeline: a producer of numbered messages, a validating stage and a
 * hashing stage, each on its own thread.
 */
module Demo {
  import opened Words
  import opened LittleEndian
  import WalFormat
  import opened WalImage
  import opened WalScan
  import opened ViewMemory
  import opened Tract
  import opened TractSafety
  import opened TractSteps
  import opened TractData
  import opened TractProgress
  import opened EndToEnd

  const PAYLOAD_SIZE: nat := 16
  const HASH_SEED: bv64 := 0x6a09e667f3bcc909

  datatype DemoMessage = DemoMessage(sequence: u64, value: u64)

  datatype Decoded = Whole(message: DemoMessage) | WrongSize

  // ----- The payload -----

  function EncodeMessage(message: DemoMessage): (payload: Payload)
    ensures |payload| == PAYLOAD_SIZE
  {
    Encode(message.sequence, 8) + Encode(message.value, 8)
  }

  function DecodeMessage(payload: Payload): Decoded {
    if |payload| != PAYLOAD_SIZE then WrongSize
    else
      WalFormat.PowersOf256();
      Whole(DemoMessage(Decode(payload[..8]), Decode(payload[8..])))
  }

  lemma DecodeOfEncode(message: DemoMessage)
    ensures DecodeMessage(EncodeMessage(message)) == Whole(message)
  {
    WalFormat.PowersOf256();
    DecodeEncode(message.sequence, 8);
    DecodeEncode(message.value, 8);
    var payload := EncodeMessage(message);
    assert payload[..8] == Encode(message.sequence, 8) && payload[8..] == Encode(message.value, 8);
  }

  lemma EncodeOfDecode(payload: Payload)
    requires |payload| == PAYLOAD_SIZE
    ensures EncodeMessage(DecodeMessage(payload).message) == payload
  {
    EncodeDecode(payload[..8]);
    EncodeDecode(payload[8..]);
    assert payload == payload[..8] + payload[8..];
  }

  method BuildPayload(message: DemoMessage) returns (bytes: array<byte>)
    ensures fresh(bytes) && bytes[..] == EncodeMessage(message)
  {
    hide Encode;
    bytes := new byte[PAYLOAD_SIZE](_ => 0);
    StoreLe(bytes, 0, message.sequence, 8);
    StoreLe(bytes, 8, message.value, 8);
  }

  method ParsePayload(payload: Payload) returns (decoded: Decoded)
    ensures decoded == DecodeMessage(payload)
  {
    if |payload| != PAYLOAD_SIZE {
      return WrongSize;
    }
    WalFormat.PowersOf256();
    var sequence := LoadLe(payload, 0, 8);
    var value := LoadLe(payload, 8, 8);
    assert payload[0..8] == payload[..8] && payload[8..16] == payload[8..];
    decoded := Whole(DemoMessage(sequence, value));
  }

  /** The message published at a position. The value wraps around like the machine word it is. */
  function MessageAt(position: u64): DemoMessage {
    DemoMessage(position, (position * 3 + 0x5a5a5a5a) % (U64_MAX + 1))
  }

  function PayloadAt(position: u64): Payload {
    EncodeMessage(MessageAt(position))
  }

  // ----- The hash -----

  // The three operations of one turn; 0x100000001b3 is the prime.
  function Stirred(state: bv64, b: byte): bv64 { state ^ (b as bv64) }
  function Times(state: bv64): bv64 { state * 0x100000001b3 }
  function Folded(state: bv64): bv64 { state ^ (state >> 29) }

  function HashByte(state: bv64, b: byte): bv64 {
    Folded(Times(Stirred(state, b)))
  }

  function HashPayload(state: bv64, payload: Payload): bv64 {
    if payload == [] then state
    else HashByte(HashPayload(state, payload[..|payload| - 1]), payload[|payload| - 1])
  }

  /** The hash after the first `count` messages, computed in one loop without any tract. */
  function ExpectedHash(count: nat): bv64
    requires count <= U64_MAX + 1
  {
    if count == 0 then HASH_SEED else HashPayload(ExpectedHash(count - 1), PayloadAt(count - 1))
  }

  method HashLoop(start: bv64, payload: Payload) returns (state: bv64)
    ensures state == HashPayload(start, payload)
  {
    hide HashByte;
    state := start;
    for k := 0 to |payload|
      invariant state == HashPayload(start, payload[..k])
    {
      assert payload[..k + 1][..k] == payload[..k];
      state := HashByte(state, payload[k]);
    }
    assert payload[..|payload|] == payload;
  }

  method ComputeExpectedHash(count: u64) returns (hash: bv64)
    ensures hash == ExpectedHash(count)
  {
    hash := HASH_SEED;
    for position := 0 to count
      invariant hash == ExpectedHash(position)
    {
      var bytes := BuildPayload(MessageAt(position));
      hash := HashLoop(hash, bytes[..]);
    }
  }

  // ----- The modules -----

  class PayloadValidationModule {
    var expectedPosition: u64

    constructor ()
      ensures expectedPosition == 0
    {
      expectedPosition := 0;
    }

    /** Accepts exactly the published payload of the next position. */
    method Process(position: u64, payload: Payload) returns (ok: bool)
      modifies this
      ensures ok <==> position == old(expectedPosition) && payload == PayloadAt(old(expectedPosition))
      ensures expectedPosition == if ok then (old(expectedPosition) + 1) % (U64_MAX + 1) else old(expectedPosition)
    {
      hide Encode, Decode;
      var decoded := ParsePayload(payload);
      DecodeOfEncode(MessageAt(expectedPosition));
      if |payload| == PAYLOAD_SIZE {
        EncodeOfDecode(payload);
      }
      if position != expectedPosition || decoded.WrongSize? || decoded.message.sequence != expectedPosition
        || decoded.message.value != (expectedPosition * 3 + 0x5a5a5a5a) % (U64_MAX + 1) {
        return false;
      }
      expectedPosition := (expectedPosition + 1) % (U64_MAX + 1);
      ok := true;
    }
  }

  predicate Validates(expected: u64, position: nat, payload: Payload) {
    position == expected && payload == PayloadAt(expected)
  }

  class RollingHashModule {
    var hash: bv64
    var processedCount: u64

    constructor ()
      ensures hash == HASH_SEED && processedCount == 0
    {
      hash, processedCount := HASH_SEED, 0;
    }

    method Process(payload: Payload) returns (ok: bool)
      modifies this
      ensures ok && hash == HashPayload(old(hash), payload)
      ensures processedCount == (old(processedCount) + 1) % (U64_MAX + 1)
    {
      hash := HashLoop(hash, payload);
      processedCount := (processedCount + 1) % (U64_MAX + 1);
      ok := true;
    }
  }

  // ----- The application -----

  /** Producer, validating stage 1, hashing stage 2, which is Tail. */
  predicate DemoParams(p: Params) {
    ValidParams(p) && p.payloadSize == PAYLOAD_SIZE && |p.stages| == 2 && p.stages[0].SliderOf? && p.stages[1].SliderOf?
  }

  /** The two modules' states, from the calls they have accepted. */
  function Count(count: nat, position: nat, payload: Payload): nat {
    count + 1
  }

  function Hash(state: bv64, position: nat, payload: Payload): bv64 {
    HashPayload(state, payload)
  }

  /** The stage is about to call its module. */
  predicate Calling(p: Params, s: State, t: nat)
    requires WellShaped(p, s) && t < Threads(p)
  {
    t != 0 && s.locals[t].control.Viewing? && |s.locals[t].control.buffer| >= p.payloadSize
  }

  /** The move is one the application makes: the producer's payloads and the modules' answers are the demo's. */
  predicate DemoMove(p: Params, s: State, move: Move, recordCount: u64)
    requires DemoParams(p) && WellShaped(p, s)
  {
    && (move.thread == 0 && s.locals[0].control.Idle? ==>
          s.locals[0].current < recordCount && move.input.payload == PayloadAt(s.locals[0].current))
    && (move.thread == 1 && Calling(p, s, 1) ==>
          var expected := After(Count, 0, s.locals[1].calls);
          (move.input.ok <==>
            expected <= U64_MAX && Validates(expected, s.locals[1].current, s.locals[1].control.buffer)))
    && (move.thread == 2 && Calling(p, s, 2) ==> move.input.ok)
  }

  predicate DemoRun(p: Params, moves: seq<Move>, recordCount: u64)
    requires DemoParams(p)
  {
    moves == [] ||
    (DemoRun(p, moves[..|moves| - 1], recordCount)
      && DemoMove(p, Run(p, moves[..|moves| - 1]), moves[|moves| - 1], recordCount))
  }

  /** The published payloads are the demo's, and so is the one being published. */
  ghost predicate Published(s: State, recordCount: u64)
    requires s.locals != []
  {
    && |s.log| <= recordCount
    && (forall i :: 0 <= i < |s.log| ==> s.log[i] == PayloadAt(i))
    && match s.locals[0].control
       case LoadingTail(payload) => s.locals[0].current < recordCount && payload == PayloadAt(s.locals[0].current)
       case Copying(payload, _) => s.locals[0].current < recordCount && payload == PayloadAt(s.locals[0].current)
       case _ => true
  }

  ghost predicate AllAccepted(calls: seq<ModuleCall>) {
    forall i :: 0 <= i < |calls| ==> calls[i].ok
  }

  lemma {:induction false} AllAcceptedCount(calls: seq<ModuleCall>)
    requires AllAccepted(calls)
    ensures |Accepted(calls)| == |calls| == After(Count, 0, calls)
  {
    if calls != [] {
      AllAcceptedCount(calls[..|calls| - 1]);
    }
  }

  lemma {:induction false} FoldOfPublished(log: seq<Payload>, n: nat)
    requires n <= |log| <= U64_MAX + 1 && forall i :: 0 <= i < |log| ==> log[i] == PayloadAt(i)
    ensures Fold(Hash, HASH_SEED, log[..n]) == ExpectedHash(n)
    decreases n
  {
    hide PayloadAt, HashPayload;
    if n > 0 {
      FoldOfPublished(log, n - 1);
      assert log[..n][..n - 1] == log[..n - 1];
    }
  }

  lemma StepCalls(p: Params, s: State, move: Move, t: nat)
    requires Safe(p, s) && 0 < t < Threads(p)
    ensures var r := Step(p, s, move);
      || r.locals[t].calls == s.locals[t].calls
      || (move.thread == t && Calling(p, s, t)
          && r.locals[t].calls == s.locals[t].calls
             + [ModuleCall(s.locals[t].current, s.locals[t].control.buffer, move.input.ok)])
  {
    hide Safe, Readable, Races, Exhausted, RecordBytes;
    if move.thread == t {
      StageCalls(p, s, t, move.input);
    }
  }

  lemma StageCalls(p: Params, s: State, t: nat, input: Input)
    requires Safe(p, s) && 0 < t < Threads(p)
    ensures var r := StageStep(p, s, t, input);
      || r.locals[t].calls == s.locals[t].calls
      || (Calling(p, s, t)
          && r.locals[t].calls == s.locals[t].calls
             + [ModuleCall(s.locals[t].current, s.locals[t].control.buffer, input.ok)])
  {
    hide Safe, Readable, Races, Exhausted, RecordBytes;
  }

  lemma StepPublishes(p: Params, s: State, move: Move, recordCount: u64)
    requires DemoParams(p) && Safe(p, s) && Published(s, recordCount) && DemoMove(p, s, move, recordCount)
    ensures Published(Step(p, s, move), recordCount)
  {
    hide Safe, PayloadAt, StageStep, ProducerStep;
    if move.thread == 0 {
      ProducerPublishesDemo(p, s, move, recordCount);
    } else if move.thread < Threads(p) {
      StageLeavesLog(p, s, move.thread, move.input);
    }
  }

  lemma ProducerPublishesDemo(p: Params, s: State, move: Move, recordCount: u64)
    requires DemoParams(p) && Safe(p, s) && Published(s, recordCount) && DemoMove(p, s, move, recordCount)
    requires move.thread == 0
    ensures Published(ProducerStep(p, s, move.input), recordCount)
  {
    hide Safe, Readable, Load, Store, WriteByte, PayloadAt, Validates, After, Knows;
    SafeParts(p, s, 0);
    if s.locals[0].control.Copying? && s.locals[0].control.done < p.payloadSize {
      var me := s.locals[0];
      WriteKeepsSlots(p, s, me.current % p.capacity, me.control.done, me.control.payload[me.control.done], me.current);
    }
  }

  lemma StageLeavesLog(p: Params, s: State, t: nat, input: Input)
    requires Safe(p, s) && 0 < t < Threads(p)
    ensures StageStep(p, s, t, input).log == s.log && StageStep(p, s, t, input).locals[0] == s.locals[0]
  {
    hide Safe, StageStep;
  }

  /** What the validating module is about to see is what it expects. */
  lemma ValidatorWouldAccept(p: Params, s: State, recordCount: u64)
    requires DemoParams(p) && Faithful(p, s) && Published(s, recordCount)
    requires AllAccepted(s.locals[1].calls) && Calling(p, s, 1)
    ensures var expected := After(Count, 0, s.locals[1].calls);
      expected <= U64_MAX && Validates(expected, s.locals[1].current, s.locals[1].control.buffer)
  {
    hide Faithful, Safe, PayloadAt, SlotsHold, ProducerHolds, Accepted;
    FaithfulParts(p, s, 1);
    AllAcceptedCount(s.locals[1].calls);
    var me := s.locals[1];
    SizesHold(p, s);
    assert me.control.buffer == s.log[me.current];
  }

  lemma ValidatorAccepts(p: Params, s: State, move: Move, recordCount: u64)
    requires DemoParams(p) && Faithful(p, s) && Published(s, recordCount) && DemoMove(p, s, move, recordCount)
    requires AllAccepted(s.locals[1].calls) && move.thread == 1 && Calling(p, s, 1)
    ensures move.input.ok
  {
    hide Faithful, Published, Validates, After, AllAccepted;
    ValidatorWouldAccept(p, s, recordCount);
  }

  lemma AllAcceptedSnoc(calls: seq<ModuleCall>, call: ModuleCall)
    requires AllAccepted(calls) && call.ok
    ensures AllAccepted(calls + [call])
  {}

  /**
   * In every run of the demo, under every interleaving, the published payloads are
   * the demo's and no module refuses a record.
   */
  lemma {:induction false} DemoNeverFails(p: Params, moves: seq<Move>, recordCount: u64)
    requires DemoParams(p) && DemoRun(p, moves, recordCount)
    ensures var s := Run(p, moves);
      Published(s, recordCount) && AllAccepted(s.locals[1].calls) && AllAccepted(s.locals[2].calls)
  {
    hide Faithful, Safe, Step, PayloadAt, AllAccepted, DemoMove;
    if moves == [] {
      NothingCalled(p);
    } else {
      var earlier, move := moves[..|moves| - 1], moves[|moves| - 1];
      DemoNeverFails(p, earlier, recordCount);
      var s := Run(p, earlier);
      RunFaithful(p, earlier);
      RunSafe(p, earlier);
      StepPublishes(p, s, move, recordCount);
      DemoStepAccepts(p, s, move, recordCount, 1);
      DemoStepAccepts(p, s, move, recordCount, 2);
    }
  }

  lemma NothingCalled(p: Params)
    requires DemoParams(p)
    ensures var s := Run(p, []);
      s.log == [] && s.locals[0].control.Idle? && AllAccepted(s.locals[1].calls) && AllAccepted(s.locals[2].calls)
  {}

  lemma DemoStepAccepts(p: Params, s: State, move: Move, recordCount: u64, t: nat)
    requires DemoParams(p) && Faithful(p, s) && Published(s, recordCount) && DemoMove(p, s, move, recordCount)
    requires 1 <= t <= 2 && AllAccepted(s.locals[t].calls)
    ensures AllAccepted(Step(p, s, move).locals[t].calls)
  {
    hide Faithful, Safe, Step, PayloadAt, AllAccepted, Validates, Published;
    FaithfulParts(p, s, t);
    StepCalls(p, s, move, t);
    if Step(p, s, move).locals[t].calls != s.locals[t].calls {
      if t == 1 {
        ValidatorAccepts(p, s, move, recordCount);
      }
      AllAcceptedSnoc(s.locals[t].calls,
        ModuleCall(s.locals[t].current, s.locals[t].control.buffer, move.input.ok));
    }
  }

  lemma DemoPositions(p: Params, moves: seq<Move>, recordCount: u64)
    requires DemoParams(p) && DemoRun(p, moves, recordCount)
    requires Frontier(Run(p, moves), 2) >= recordCount
    ensures var s := Run(p, moves);
      && Frontier(s, 0) == Frontier(s, 1) == Frontier(s, 2) == recordCount == |s.log|
      && s.locals[1].current == s.locals[2].current == recordCount
  {
    hide Safe, Run, DemoRun, PayloadAt, Published, Fold, After, AllAccepted;
    var s := Run(p, moves);
    DemoNeverFails(p, moves, recordCount);
    PublishedCount(s, recordCount);
    RunSafe(p, moves);
    HeadIsLog(p, s);
    FrontierOrder(p, s, 0, 1);
    FrontierOrder(p, s, 1, 2);
    StageIsFold(p, moves, 1, Count, 0);
    StageIsFold(p, moves, 2, Count, 0);
  }

  lemma HeadIsLog(p: Params, s: State)
    requires Safe(p, s)
    ensures Frontier(s, 0) == |s.log|
  {
    hide Safe, Knows;
    SafeParts(p, s, 0);
  }

  lemma PublishedCount(s: State, recordCount: u64)
    requires s.locals != [] && Published(s, recordCount)
    ensures |s.log| <= recordCount && forall i :: 0 <= i < |s.log| ==> s.log[i] == PayloadAt(i)
  {}

  /**
   * The final check of the application: once the last frontier has reached the
   * record count, both modules have processed every record, all three positions
   * agree, and the hash is the one computed without any pipeline.
   */
  lemma DemoIsValid(p: Params, moves: seq<Move>, recordCount: u64)
    requires DemoParams(p) && DemoRun(p, moves, recordCount)
    requires Frontier(Run(p, moves), 2) >= recordCount
    ensures var s := Run(p, moves);
      && Frontier(s, 0) == Frontier(s, 1) == Frontier(s, 2) == recordCount
      && After(Count, 0, s.locals[1].calls) == recordCount
      && After(Count, 0, s.locals[2].calls) == recordCount
      && After(Hash, HASH_SEED, s.locals[2].calls) == ExpectedHash(recordCount)
  {
    hide Safe, Run, DemoRun, PayloadAt, Published, Fold, After, ExpectedHash, Count, Hash;
    var s := Run(p, moves);
    DemoPositions(p, moves, recordCount);
    DemoNeverFails(p, moves, recordCount);
    PublishedCount(s, recordCount);
    StageIsFold(p, moves, 1, Count, 0);
    StageIsFold(p, moves, 2, Count, 0);
    StageIsFold(p, moves, 2, Hash, HASH_SEED);
    FoldCounts(s.log, recordCount);
    FoldOfPublished(s.log, recordCount);
  }

  lemma {:induction false} FoldCounts(log: seq<Payload>, n: nat)
    requires n <= |log|
    ensures Fold(Count, 0, log[..n]) == n
    decreases n
  {
    if n > 0 {
      FoldCounts(log, n - 1);
      assert log[..n][..n - 1] == log[..n - 1];
    }
  }

  // ----- The flag -----

  /**
   * The move ends in a branch of the application that sets `failed`: publication
   * reports a wrong payload size or exhausted positions, or success at another
   * position than the loop's, which counts the successes; or a stage reports that
   * its module has failed.
   */
  predicate SetsFailed(p: Params, s: State, move: Move)
    requires WellShaped(p, s)
  {
    var me := s.locals[0];
    || (move.thread == 0 && me.control.Idle? && |move.input.payload| != p.payloadSize)
    || (move.thread == 0 && me.control.LoadingTail? && me.current == U64_MAX)
    || (move.thread == 0 && me.control.Copying? && me.current != |s.log|)
    || (0 < move.thread < Threads(p) && Calling(p, s, move.thread) && !move.input.ok)
  }

  /** In no run of the demo, under no interleaving, is `failed` ever set. */
  lemma FailedNeverSet(p: Params, moves: seq<Move>, move: Move, recordCount: u64)
    requires DemoParams(p) && DemoRun(p, moves, recordCount) && DemoMove(p, Run(p, moves), move, recordCount)
    ensures !SetsFailed(p, Run(p, moves), move)
  {
    hide Faithful, Safe, Run, DemoRun, AllAccepted, Validates, After;
    var s := Run(p, moves);
    DemoNeverFails(p, moves, recordCount);
    RunFaithful(p, moves);
    RunSafe(p, moves);
    ProducerAtEnd(p, s);
    if move.thread == 1 && Calling(p, s, 1) {
      ValidatorAccepts(p, s, move, recordCount);
    }
  }

  // ----- It can finish -----

  function DemoPayloads(recordCount: u64): (payloads: seq<Payload>)
    ensures |payloads| == recordCount && forall i :: 0 <= i < recordCount ==> payloads[i] == PayloadAt(i)
    ensures forall i :: 0 <= i < recordCount ==> |payloads[i]| == PAYLOAD_SIZE
  {
    seq(recordCount, i requires 0 <= i < recordCount => PayloadAt(i))
  }

  /** A run in which the demo's payloads are offered and nothing is refused is a run of the demo. */
  lemma {:induction false} OfferedIsDemo(p: Params, moves: seq<Move>, recordCount: u64, k: nat)
    requires DemoParams(p) && Offered(p, moves, DemoPayloads(recordCount)) && k <= |moves|
    ensures DemoRun(p, moves[..k], recordCount)
  {
    hide Offered, OfferedAt, DemoPayloads, DemoMove, Run;
    if k > 0 {
      OfferedIsDemo(p, moves, recordCount, k - 1);
      assert moves[..k][..k - 1] == moves[..k - 1];
      OfferedIsDemoMove(p, moves, recordCount, k - 1);
    }
  }

  lemma OfferedIsDemoMove(p: Params, moves: seq<Move>, recordCount: u64, k: nat)
    requires DemoParams(p) && Offered(p, moves, DemoPayloads(recordCount)) && k < |moves|
    requires DemoRun(p, moves[..k], recordCount)
    ensures DemoMove(p, Run(p, moves[..k]), moves[k], recordCount)
  {
    hide Faithful, Run, DemoRun, PayloadAt, AllAccepted, Validates, After, Published;
    var s := Run(p, moves[..k]);
    assert OfferedAt(p, moves, k, DemoPayloads(recordCount));
    DemoNeverFails(p, moves[..k], recordCount);
    RunFaithful(p, moves[..k]);
    if Calling(p, s, 1) {
      ValidatorWouldAccept(p, s, recordCount);
    }
  }

  /** For every record count some run of the demo reaches the final check, and passes it. */
  lemma DemoFinishes(p: Params, recordCount: u64) returns (moves: seq<Move>)
    requires DemoParams(p)
    ensures DemoRun(p, moves, recordCount)
    ensures var s := Run(p, moves);
      && Frontier(s, 0) == Frontier(s, 1) == Frontier(s, 2) == recordCount
      && After(Count, 0, s.locals[1].calls) == After(Count, 0, s.locals[2].calls) == recordCount
      && After(Hash, HASH_SEED, s.locals[2].calls) == ExpectedHash(recordCount)
  {
    hide Faithful, Safe, Run, DemoRun, Offered, After, ExpectedHash, Count, Hash, Drained, DemoPayloads, PayloadAt;
    DemoFits(p, recordCount);
    moves := Delivers(p, DemoPayloads(recordCount));
    OfferedIsDemo(p, moves, recordCount, |moves|);
    assert moves[..|moves|] == moves;
    LastIsDrained(p, Run(p, moves));
    DemoIsValid(p, moves, recordCount);
  }

  lemma DemoFits(p: Params, recordCount: u64)
    requires DemoParams(p)
    ensures Fits(p, |DemoPayloads(recordCount)|)
    ensures forall i :: 0 <= i < |DemoPayloads(recordCount)| ==> |DemoPayloads(recordCount)[i]| == p.payloadSize
    ensures |DemoPayloads(recordCount)| == recordCount
  {}

  lemma LastIsDrained(p: Params, s: State)
    requires DemoParams(p) && WellShaped(p, s) && Drained(p, s, TailOf(p))
    ensures Frontier(s, 2) == |s.log|
  {}
}
