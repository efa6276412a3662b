/**
 * The bounded ring, proved to be a window onto an unbounded log.
 *
 * This module is about one caller at a time; `Tract` is about many.
 */
module Tape {
  import opened Words
  import opened LittleEndian
  import opened WalGeometry

  type Payload = seq<byte>

  class Frontier {
    var value: u64

    constructor ()
      ensures value == 0
    {
      value := 0;
    }

    method Store(end: u64)
      modifies this
      ensures value == end
    {
      value := end;
    }
  }

  datatype RecordTapeConfig = RecordTapeConfig(payloadSize: u32, capacity: u32, alignment: u32)

  // `Terminated` stands for the calls that end the program.
  datatype RecordTapeOpenStatus = TapeOk | TapeInvalidConfig | TapeAlreadyOpen | TapeTerminated

  datatype PublishStatus = PublishOk | Full | InvalidPayloadSize | PositionExhausted | PublishClosed | PublishTerminated

  datatype ViewStatus = ViewOk | ViewClosed | Reclaimed | Unpublished | ViewTerminated

  datatype WriteStatus = WriteOk | WriteClosed | WriteReclaimed | WriteUnpublished | OutOfBounds | WriteTerminated

  predicate ValidRuntimeConfig(config: RecordTapeConfig) {
    && config.payloadSize != 0 && config.capacity != 0
    && config.alignment >= LEAST_ALIGNMENT && PowerOfTwo(config.alignment)
    && CheckedAlignUp(config.payloadSize, config.alignment).Value?
    && CheckedMul(CheckedAlignUp(config.payloadSize, config.alignment).value, config.capacity).Value?
  }

  /** Which configurations of a tape are valid, in numbers; no arithmetic check ever decides it. */
  lemma RuntimeConfigByFields(config: RecordTapeConfig)
    ensures ValidRuntimeConfig(config) <==>
      && config.payloadSize != 0 && config.capacity != 0
      && exists k: nat :: 3 <= k <= 31 && config.alignment == Pow2(k)
  {
    hide Pow2;
    AlignmentIsPower(config.alignment);
    if config.payloadSize != 0 && PowerOfTwo(config.alignment) {
      StorageNeverOverflows(config.payloadSize, config.alignment, config.capacity);
    }
  }

  function Slot(position: nat, capacity: nat): (slot: nat)
    requires capacity > 0
    ensures slot < capacity
  {
    position % capacity
  }

  /** Among `capacity` consecutive positions no two share a slot. */
  lemma DistinctSlots(p: nat, q: nat, capacity: nat)
    requires capacity > 0 && p < q < p + capacity
    ensures Slot(p, capacity) != Slot(q, capacity)
  {
    DivMulBound(p, capacity);
    DivMulBound(q, capacity);
    var i, j := p / capacity, q / capacity;
    NoMultipleBetween(j - i, capacity);
    assert p % capacity == q % capacity ==> q - p == j * capacity - i * capacity == (j - i) * capacity;
  }

  lemma NoMultipleBetween(k: int, d: nat)
    ensures !(0 < k * d < d)
  {
    if k >= 1 {
      MulMono(1, k, d);
    } else {
      MulMono(0, -k, d);
    }
  }

  /** Where the block of a slot starts in the storage. */
  function BlockStart(slot: nat, stride: nat): nat {
    slot * stride
  }

  lemma BlockWithin(slot: nat, capacity: nat, stride: nat)
    requires slot < capacity
    ensures BlockStart(slot, stride) + stride <= BlockStart(capacity, stride)
  {
    MulMono(slot + 1, capacity, stride);
  }

  /** Blocks of different slots do not overlap. */
  lemma BlocksDisjoint(a: nat, b: nat, stride: nat)
    requires a != b
    ensures BlockStart(a, stride) + stride <= BlockStart(b, stride)
      || BlockStart(b, stride) + stride <= BlockStart(a, stride)
  {
    if a < b {
      BlockWithin(a, b, stride);
    } else {
      BlockWithin(b, a, stride);
    }
  }

  /** The last position below `head` that shares the slot of `position`: the one whose record is in the slot. */
  function Occupant(head: nat, position: nat, capacity: nat): (occupant: nat)
    requires position < head && capacity > 0
    ensures position <= occupant < head <= occupant + capacity
    ensures Slot(occupant, capacity) == Slot(position, capacity)
    ensures head <= position + capacity ==> occupant == position
    decreases head - position
  {
    if head <= position + capacity then position
    else
      SlotRepeats(position, capacity);
      Occupant(head, position + capacity, capacity)
  }

  lemma SlotRepeats(position: nat, capacity: nat)
    requires capacity > 0
    ensures Slot(position + capacity, capacity) == Slot(position, capacity)
  {
    DivMulBound(position, capacity);
    var q, r := position / capacity, position % capacity;
    assert position + capacity == q * capacity + capacity + r == (q + 1) * capacity + r;
    RemainderUnique(position + capacity, capacity, q + 1, r);
  }

  lemma RemainderUnique(x: nat, d: nat, q: nat, r: nat)
    requires d > 0 && x == q * d + r && r < d
    ensures x % d == r
  {
    DivUnique(x, d, q, r);
    DivMulBound(x, d);
  }

  function Splice(payload: Payload, offset: nat, bytes: seq<byte>): (r: Payload)
    requires offset + |bytes| <= |payload|
    ensures |r| == |payload|
  {
    payload[..offset] + bytes + payload[offset + |bytes|..]
  }

  /** The new bytes from `offset` on, the old ones everywhere else. */
  lemma SpliceAt(payload: Payload, offset: nat, bytes: seq<byte>, k: nat)
    requires offset + |bytes| <= |payload| && k < |payload|
    ensures Splice(payload, offset, bytes)[k]
         == if offset <= k < offset + |bytes| then bytes[k - offset] else payload[k]
  {}

  /** The payload bytes of one slot in the storage. */
  function BlockAt(storage: seq<byte>, slot: nat, stride: nat, size: nat): (block: Payload)
    requires BlockStart(slot, stride) + size <= |storage|
    ensures |block| == size
  {
    storage[BlockStart(slot, stride)..BlockStart(slot, stride) + size]
  }

  lemma BlockAfterCopy(storage: seq<byte>, slot: nat, stride: nat, size: nat, offset: nat, bytes: seq<byte>)
    requires BlockStart(slot, stride) + size <= |storage| && offset + |bytes| <= size
    ensures BlockAt(Splice(storage, BlockStart(slot, stride) + offset, bytes), slot, stride, size)
         == Splice(BlockAt(storage, slot, stride, size), offset, bytes)
  {
    hide Splice, BlockStart;
    WindowAfterSplice(storage, BlockStart(slot, stride), size, offset, bytes);
  }

  lemma WindowAfterSplice(storage: seq<byte>, start: nat, size: nat, offset: nat, bytes: seq<byte>)
    requires start + size <= |storage| && offset + |bytes| <= size
    ensures Splice(storage, start + offset, bytes)[start..start + size]
         == Splice(storage[start..start + size], offset, bytes)
  {}

  lemma OtherBlockAfterCopy(
    storage: seq<byte>, slot: nat, other: nat, stride: nat, size: nat, offset: nat, bytes: seq<byte>)
    requires BlockStart(slot, stride) + size <= |storage| && BlockStart(other, stride) + size <= |storage|
    requires size <= stride && offset + |bytes| <= size && slot != other
    ensures BlockAt(Splice(storage, BlockStart(slot, stride) + offset, bytes), other, stride, size)
         == BlockAt(storage, other, stride, size)
  {
    hide Splice, BlockStart;
    BlocksDisjoint(slot, other, stride);
    DisjointWindow(storage, BlockStart(slot, stride) + offset, BlockStart(other, stride), size, bytes);
  }

  lemma DisjointWindow(storage: seq<byte>, at: nat, start: nat, size: nat, bytes: seq<byte>)
    requires at + |bytes| <= |storage| && start + size <= |storage|
    requires at + |bytes| <= start || start + size <= at
    ensures Splice(storage, at, bytes)[start..start + size] == storage[start..start + size]
  {}

  method Copy(data: array<byte>, at: nat, bytes: seq<byte>)
    requires at + |bytes| <= data.Length
    modifies data
    ensures data[..] == Splice(old(data[..]), at, bytes)
  {
    forall k | 0 <= k < |bytes| {
      data[at + k] := bytes[k];
    }
  }

  /** A borrowed span: a reference into the storage of a tape, not a copy. */
  datatype RecordView = RecordView(storage: array<byte>, start: nat, size: nat) {
    predicate InBounds() {
      start + size <= storage.Length
    }

    function Bytes(): (bytes: Payload)
      requires InBounds()
      reads storage
      ensures |bytes| == size
    {
      storage[start..start + size]
    }
  }

  class RecordTape {
    const head: Frontier
    var tail: Frontier?
    var data: array<byte>
    var stride: nat
    var payloadSize: u32
    var capacity: u32
    var isOpen: bool
    var openedOnce: bool
    ghost var log: seq<Payload>  // every record ever published, with later writes applied

    ghost predicate Valid()
      reads this, head, data
    {
      isOpen ==>
        && openedOnce && tail != null
        && capacity > 0 && payloadSize <= stride
        && data.Length == BlockStart(capacity, stride)
        && |log| == head.value
        && (forall p :: 0 <= p < |log| ==> |log[p]| == payloadSize)
        && Holds(log)
    }

    /** The last `capacity` records of the log are in their slots. */
    ghost predicate Holds(records: seq<Payload>)
      requires capacity > 0 && payloadSize <= stride && data.Length == BlockStart(capacity, stride)
      reads this, data
    {
      forall p :: 0 <= p < |records| && |records| <= p + capacity ==> Block(Slot(p, capacity)) == records[p]
    }

    ghost function Block(slot: nat): Payload
      requires slot < capacity && payloadSize <= stride && data.Length == BlockStart(capacity, stride)
      reads this, data
    {
      BlockWithin(slot, capacity, stride);
      BlockAt(data[..], slot, stride, payloadSize)
    }

    constructor ()
      ensures Valid() && !isOpen && !openedOnce && head.value == 0 && tail == head && fresh(head)
    {
      var boundary := new Frontier();
      head := boundary;
      tail := boundary;
      data := new byte[0];
      stride, payloadSize, capacity := 0, 0, 0;
      isOpen, openedOnce := false, false;
      log := [];
    }

    /** Wiring is possible until the first successful open. */
    method SetTailRef(frontier: Frontier) returns (accepted: bool)
      requires Valid()
      modifies this`tail
      ensures Valid()
      ensures accepted <==> !openedOnce
      ensures tail == if accepted then frontier else old(tail)
    {
      if openedOnce {
        return false;
      }
      tail := frontier;
      accepted := true;
    }

    method Open(config: RecordTapeConfig) returns (status: RecordTapeOpenStatus)
      requires Valid() && (!isOpen ==> head.value == 0 || openedOnce) && (!openedOnce ==> tail != null)
      modifies this, head
      ensures Valid() && tail == old(tail)
      ensures status == TapeAlreadyOpen <==> old(isOpen)
      ensures status == TapeTerminated <==> !old(isOpen) && old(openedOnce)
      ensures !old(isOpen) && !old(openedOnce) ==>
        (status == TapeOk <==>
          && config.payloadSize != 0 && config.capacity != 0
          && exists k: nat :: 3 <= k <= 31 && config.alignment == Pow2(k))
      ensures status in {TapeOk, TapeInvalidConfig, TapeAlreadyOpen, TapeTerminated}
      ensures status == TapeOk ==>
        && isOpen && openedOnce && log == [] && head.value == 0
        && LeastMultiple(stride, config.alignment, config.payloadSize)
        && data.Length == BlockStart(config.capacity, stride)
        && (forall i :: 0 <= i < data.Length ==> data[i] == 0)
        && capacity == config.capacity && payloadSize == config.payloadSize && fresh(data)
    {
      if isOpen {
        return TapeAlreadyOpen;
      }
      if openedOnce {
        return TapeTerminated;
      }
      RuntimeConfigByFields(config);
      if !ValidRuntimeConfig(config) {
        return TapeInvalidConfig;
      }
      AlignUpLeast(config.payloadSize, config.alignment);
      stride := CheckedAlignUp(config.payloadSize, config.alignment).value;
      var size := CheckedMul(stride, config.capacity).value;
      assert size == BlockStart(config.capacity, stride);
      data := new byte[size](_ => 0);
      payloadSize := config.payloadSize;
      capacity := config.capacity;
      head.value := 0;
      openedOnce := true;
      isOpen := true;
      log := [];
      status := TapeOk;
    }

    /** Copies bytes into the block of a slot and leaves every other block alone. */
    method CopyInto(slot: nat, offset: nat, bytes: seq<byte>)
      requires slot < capacity && payloadSize <= stride && data.Length == BlockStart(capacity, stride)
      requires offset + |bytes| <= payloadSize
      modifies data
      ensures Block(slot) == Splice(old(Block(slot)), offset, bytes)
      ensures forall other :: 0 <= other < capacity && other != slot ==> Block(other) == old(Block(other))
    {
      hide BlockStart, BlockAt, Splice;
      BlockWithin(slot, capacity, stride);
      ghost var storage := data[..];
      Copy(data, BlockStart(slot, stride) + offset, bytes);
      BlockAfterCopy(storage, slot, stride, payloadSize, offset, bytes);
      forall other | 0 <= other < capacity && other != slot ensures Block(other) == old(Block(other)) {
        BlockWithin(other, capacity, stride);
        OtherBlockAfterCopy(storage, slot, other, stride, payloadSize, offset, bytes);
      }
    }

    method TryPublish(payload: Payload) returns (status: PublishStatus, position: u64)
      requires Valid()
      modifies this`log, head, data
      ensures Valid()
      ensures tail != null && tail != head ==> tail.value == old(tail.value)
      ensures status == PublishClosed <==> !old(isOpen)
      ensures old(isOpen) ==> (status == InvalidPayloadSize <==> |payload| != payloadSize)
      ensures old(isOpen) && |payload| == payloadSize ==>
        var h, t := old(head.value) as int, old(tail.value) as int;
        && (status == PublishTerminated <==> t > h || h - t > capacity)
        && (status == Full <==> h - t == capacity)
        && (status == PositionExhausted <==> 0 <= h - t < capacity && h == U64_MAX)
      ensures status == PublishOk ==>
        && log == old(log) + [payload] && position == old(head.value) && head.value == position + 1
      ensures status != PublishOk ==> log == old(log) && head.value == old(head.value) && position == 0
    {
      hide Slot, BlockAt, BlockStart;
      if !isOpen {
        return PublishClosed, 0;
      }
      if |payload| != payloadSize {
        return InvalidPayloadSize, 0;
      }
      var h := head.value;
      var t := tail.value;
      if t > h {
        return PublishTerminated, 0;
      }
      var distance := h - t;
      if distance > capacity {
        return PublishTerminated, 0;
      }
      if distance == capacity {
        return Full, 0;
      }
      if h == U64_MAX {
        return PositionExhausted, 0;
      }
      var slot := Slot(h, capacity);
      ghost var records := log + [payload];
      CopyInto(slot, 0, payload);
      assert Block(slot) == payload;
      forall p | 0 <= p < |records| && |records| <= p + capacity ensures Block(Slot(p, capacity)) == records[p] {
        if p < h {
          DistinctSlots(p, h, capacity);
        }
      }
      log := records;
      head.value := h + 1;
      status, position := PublishOk, h;
    }

    /** A borrowed view of the payload of a position. */
    function ViewOf(position: nat): (view: RecordView)
      requires capacity > 0
      reads this
    {
      RecordView(data, BlockStart(Slot(position, capacity), stride), payloadSize)
    }

    /**
     * Whenever it is looked at, a view shows the last record published into its
     * slot: its own as long as that is retained, a later one after reuse.
     */
    lemma ViewShows(position: nat)
      requires Valid() && isOpen && position < |log|
      ensures ViewOf(position).InBounds()
      ensures ViewOf(position).Bytes() == log[Occupant(|log|, position, capacity)]
    {
      hide Slot, BlockStart;
      BlockWithin(Slot(position, capacity), capacity, stride);
    }

    method TryView(position: u64) returns (status: ViewStatus, view: RecordView)
      requires Valid()
      ensures status == ViewClosed <==> !isOpen
      ensures isOpen ==>
        var h, t := head.value as int, tail.value as int;
        && (status == ViewTerminated <==> t > h)
        && (status == Reclaimed <==> position < t <= h)
        && (status == Unpublished <==> t <= h <= position)
        && (status == ViewOk <==> t <= position < h)
      ensures view.InBounds()
      ensures status == ViewOk ==>
        && position < |log| && view == ViewOf(position)
        && view.Bytes() == log[Occupant(|log|, position, capacity)]
        && (head.value <= tail.value + capacity ==> view.Bytes() == log[position])
      ensures status != ViewOk ==> view.size == 0
    {
      hide Slot, BlockStart, Occupant;
      view := RecordView(data, 0, 0);
      if !isOpen {
        return ViewClosed, view;
      }
      var t := tail.value;
      var h := head.value;
      if t > h {
        return ViewTerminated, view;
      }
      if position < t {
        return Reclaimed, view;
      }
      if position >= h {
        return Unpublished, view;
      }
      ViewShows(position);
      view := ViewOf(position);
      status := ViewOk;
    }

    method TryWrite(position: u64, offset: nat, bytes: seq<byte>) returns (status: WriteStatus)
      requires Valid()
      modifies this`log, data
      ensures Valid()
      ensures status == WriteClosed <==> !isOpen
      ensures isOpen ==>
        var h, t := head.value as int, tail.value as int;
        && (status == WriteTerminated <==> t > h)
        && (status == WriteReclaimed <==> position < t <= h)
        && (status == WriteUnpublished <==> t <= h <= position)
        && (status == OutOfBounds <==> t <= position < h && offset + |bytes| > payloadSize)
      ensures status == WriteOk ==>
        && position < |old(log)|
        && var written := Occupant(|old(log)|, position, capacity);
        && (head.value <= tail.value + capacity ==> written == position)
        && offset + |bytes| <= |old(log)[written]|
        && log == old(log)[written := Splice(old(log)[written], offset, bytes)]
      ensures status != WriteOk ==> log == old(log)
    {
      hide Slot, BlockAt, BlockStart;
      if !isOpen {
        return WriteClosed;
      }
      var t := tail.value;
      var h := head.value;
      if t > h {
        return WriteTerminated;
      }
      if position < t {
        return WriteReclaimed;
      }
      if position >= h {
        return WriteUnpublished;
      }
      if offset > payloadSize || |bytes| > payloadSize - offset {
        return OutOfBounds;
      }
      var slot := Slot(position, capacity);
      CopyInto(slot, offset, bytes);
      ghost var written := Occupant(|log|, position, capacity);
      ghost var records := log[written := Splice(log[written], offset, bytes)];
      forall p | 0 <= p < |records| && |records| <= p + capacity ensures Block(Slot(p, capacity)) == records[p] {
        if p < written {
          DistinctSlots(p, written, capacity);
        } else if written < p {
          DistinctSlots(written, p, capacity);
        }
      }
      log := records;
      status := WriteOk;
    }

    /** The storage and the reference to Tail are given up. */
    method Close()
      requires Valid()
      modifies this`isOpen, this`tail, this`data, this`stride
      ensures Valid() && !isOpen
      ensures if old(isOpen) then tail == null && data.Length == 0 && stride == 0 && fresh(data)
        else tail == old(tail) && data == old(data) && stride == old(stride)
    {
      if !isOpen {
        return;
      }
      isOpen := false;
      tail := null;
      data := new byte[0];
      stride := 0;
    }
  }
}
