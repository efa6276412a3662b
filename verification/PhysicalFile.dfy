/**
 * The file under the log and the loops that drive its system calls.
 *
 * A system call may transfer any part of what was asked for, may be interrupted,
 * and may fail. `synced` is the length that a crash is known to leave behind.
 */
module PhysicalFile {
  import opened Words
  import opened Crc32
  import opened WalGeometry
  import opened WalFormat
  import opened WalImage

  const OFFSET_MAX: nat := 0x7FFF_FFFF_FFFF_FFFF

  datatype CreateStatus = Created | AlreadyThere | CreateFailed

  /** The bytes of a file whose length has been set. */
  function Resized(content: seq<byte>, size: nat): (r: seq<byte>)
    ensures |r| == size
    ensures size <= |content| ==> r == content[..size]
    ensures |content| <= size ==> r == content + Zeros(size - |content|)
  {
    if size <= |content| then content[..size] else content + Zeros(size - |content|)
  }

  /** The bytes of a buffer after some have been replaced. */
  function Patched(buffer: seq<byte>, offset: nat, bytes: seq<byte>): (r: seq<byte>)
    requires offset + |bytes| <= |buffer|
    ensures |r| == |buffer|
  {
    buffer[..offset] + bytes + buffer[offset + |bytes|..]
  }

  class Disk {
    var present: bool
    var content: seq<byte>
    var synced: nat
    var syncCalls: nat   // how often a sync has been asked for
    var interrupts: nat  // how often a call may still be interrupted
    const healthy: bool  // no open, read, size query, truncation or sync of an existing file fails

    ghost predicate Valid()
      reads this
    {
      synced <= |content| <= OFFSET_MAX
    }

    constructor (healthy: bool, content: seq<byte>, interrupts: nat)
      requires |content| <= OFFSET_MAX
      ensures Valid() && present && this.healthy == healthy && this.content == content
    {
      this.healthy := healthy;
      this.present := true;
      this.content := content;
      this.synced := |content|;
      this.syncCalls := 0;
      this.interrupts := interrupts;
    }

    /** Exclusive creation: an existing file is never touched. */
    method SystemCreate() returns (status: CreateStatus)
      requires Valid()
      modifies this`present, this`content, this`synced
      ensures Valid()
      ensures status == AlreadyThere <==> old(present)
      ensures status == Created ==> present && content == [] && synced == 0
      ensures status != Created ==> present == old(present) && content == old(content) && synced == old(synced)
    {
      if present {
        return AlreadyThere;
      }
      var possible: bool := *;
      if !possible {
        return CreateFailed;
      }
      present, content, synced := true, [], 0;
      status := Created;
    }

    method SystemRemove() returns (ok: bool)
      requires Valid()
      modifies this`present, this`content, this`synced
      ensures Valid()
      ensures ok ==> !present
      ensures !ok ==> present == old(present) && content == old(content) && synced == old(synced)
    {
      ok := *;
      if ok {
        present, content, synced := false, [], 0;
      }
    }

    method SystemOpen() returns (ok: bool)
      requires Valid()
      ensures ok ==> present
      ensures healthy && present ==> ok
    {
      ok := *;
      ok := present && (ok || healthy);
    }

    /** The entry of the file in its directory; nothing in the model depends on it. */
    method SystemSyncDirectory() returns (ok: bool) {
      ok := *;
    }

    /** `write`: appends a part of the bytes, or fails with -1, perhaps because of an interrupt. */
    method SystemWrite(bytes: seq<byte>) returns (written: int, interrupted: bool)
      requires Valid() && bytes != []
      modifies this`content, this`interrupts
      ensures Valid()
      ensures -1 <= written <= |bytes|
      ensures content == if written > 0 then old(content) + bytes[..written] else old(content)
      ensures interrupted ==> written == -1 && interrupts < old(interrupts)
      ensures !interrupted ==> interrupts == old(interrupts)
    {
      interrupted := *;
      if interrupted && interrupts > 0 {
        interrupts := interrupts - 1;
        return -1, true;
      }
      written :| -1 <= written <= |bytes|;
      interrupted := false;
      if written > 0 && |content| + written > OFFSET_MAX {
        written := -1;
      }
      if written > 0 {
        content := content + bytes[..written];
      }
    }

    /** `read` at a position: a nonempty part of what is left, 0 at the end, or -1. */
    method SystemRead(position: nat, buffer: array<byte>, offset: nat, requested: nat)
      returns (count: int, interrupted: bool)
      requires Valid() && position <= |content| && 0 < requested && offset + requested <= buffer.Length
      modifies this`interrupts, buffer
      ensures Valid()
      ensures -1 <= count <= requested && position + count <= |content|
      ensures buffer[..] == if count > 0 then Patched(old(buffer[..]), offset, content[position..position + count])
        else old(buffer[..])
      ensures count == 0 ==> position == |content|
      ensures interrupted ==> count == -1 && interrupts < old(interrupts)
      ensures !interrupted ==> interrupts == old(interrupts)
      ensures healthy && count == -1 ==> interrupted
    {
      interrupted := *;
      if interrupted && interrupts > 0 {
        interrupts := interrupts - 1;
        return -1, true;
      }
      interrupted := false;
      var broken: bool := *;
      if broken && !healthy {
        return -1, false;
      }
      var left := Min(requested, |content| - position);
      count :| 0 <= count <= left && (count == 0 ==> left == 0);
      forall k | offset <= k < offset + count {
        buffer[k] := content[position + (k - offset)];
      }
    }

    /** Success makes every byte durable; failure promises nothing new. */
    method SystemSync() returns (ok: bool)
      requires Valid()
      modifies this`synced, this`syncCalls
      ensures Valid()
      ensures synced == if ok then |content| else old(synced)
      ensures syncCalls == old(syncCalls) + 1
      ensures healthy ==> ok
    {
      syncCalls := syncCalls + 1;
      ok := *;
      ok := ok || healthy;
      if ok {
        synced := |content|;
      }
    }

    method SystemSize() returns (ok: bool, size: u64)
      requires Valid()
      ensures ok ==> present && size == |content|
      ensures healthy && present ==> ok
    {
      ok := *;
      ok := present && (ok || healthy);
      size := |content|;
    }

    /** Cuts the file, or extends it with zeros. */
    method SystemTruncate(size: nat) returns (ok: bool)
      requires Valid() && size <= OFFSET_MAX
      modifies this`content, this`synced
      ensures Valid()
      ensures content == if ok then Resized(old(content), size) else old(content)
      ensures synced == if ok then Min(old(synced), size) else old(synced)
      ensures healthy ==> ok
    {
      ok := *;
      ok := ok || healthy;
      if ok {
        content := Resized(content, size);
        synced := Min(synced, size);
      }
    }
  }

  datatype PhysicalReadStatus = Complete | EndOfFile | Incomplete | ReadIoError

  /** What a read of `count` bytes reports, however the system splits the transfer. */
  function ReadStatusFor(left: nat, count: nat): PhysicalReadStatus {
    if count <= left then Complete
    else if left == 0 then EndOfFile
    else Incomplete
  }

  /** What a buffer holds after `done` bytes from `start` have reached it. */
  function Received(before: seq<byte>, content: seq<byte>, start: nat, done: nat): (r: seq<byte>)
    requires start + done <= |content| && done <= |before|
    ensures |r| == |before|
    ensures r[..done] == content[start..start + done] && r[done..] == before[done..]
  {
    content[start..start + done] + before[done..]
  }

  lemma ReceivesMore(before: seq<byte>, content: seq<byte>, start: nat, done: nat, got: nat)
    requires start + done + got <= |content| && done + got <= |before|
    ensures Patched(Received(before, content, start, done), done, content[start + done..start + done + got])
         == Received(before, content, start, done + got)
  {}

  lemma NothingReceived(before: seq<byte>, content: seq<byte>, start: nat)
    requires start <= |content|
    ensures Received(before, content, start, 0) == before
  {}

  class PhysicalWalReaderAdapter {
    const disk: Disk
    var cursor: nat

    ghost predicate Valid()
      reads this, disk
    {
      disk.Valid() && cursor <= |disk.content|
    }

    constructor (disk: Disk)
      requires disk.Valid()
      ensures this.disk == disk && cursor == 0 && Valid()
    {
      this.disk := disk;
      cursor := 0;
    }

    /** Fills the first `count` bytes of the buffer, or as many of them as there are bytes left. */
    method Read(buffer: array<byte>, count: nat) returns (status: PhysicalReadStatus)
      requires Valid() && count <= buffer.Length
      modifies this, disk`interrupts, buffer
      ensures Valid()
      ensures old(cursor) <= cursor <= old(cursor) + count
      ensures buffer[..] == Received(old(buffer[..]), disk.content, old(cursor), cursor - old(cursor))
      ensures status != ReadIoError ==>
        && status == ReadStatusFor(|disk.content| - old(cursor), count)
        && cursor == old(cursor) + Min(count, |disk.content| - old(cursor))
      ensures status == Complete ==> buffer[..count] == disk.content[old(cursor)..cursor]
      ensures disk.healthy ==> status != ReadIoError
    {
      hide Patched, Received;
      var completed, start := 0, cursor;
      ghost var before := buffer[..];
      NothingReceived(before, disk.content, start);
      while completed < count
        invariant 0 <= completed <= count
        invariant Valid() && cursor == start + completed
        invariant buffer[..] == Received(before, disk.content, start, completed)
        decreases count - completed, disk.interrupts
      {
        var got, interrupted := disk.SystemRead(cursor, buffer, completed, count - completed);
        if got == -1 {
          if interrupted {
            continue;
          }
          return ReadIoError;
        }
        if got == 0 {
          return if completed == 0 then EndOfFile else Incomplete;
        }
        ReceivesMore(before, disk.content, start, completed, got);
        completed := completed + got;
        cursor := cursor + got;
      }
      assert buffer[..][..count] == buffer[..count];
      status := Complete;
    }
  }

  datatype OpenStatus =
    | OpenOk
    | OpenInvalidConfig
    | OpenAllocationFailed
    | OpenIoError
    | OpenFileAlreadyExists
    | OpenAlreadyOpen

  class PhysicalWalAdapter {
    const disk: Disk
    var config: WalConfig
    var isOpen: bool

    ghost predicate Valid()
      reads this, disk
    {
      disk.Valid()
    }

    constructor (disk: Disk, config: WalConfig)
      requires disk.Valid()
      ensures Valid() && this.disk == disk && this.config == config && !isOpen
    {
      this.disk := disk;
      this.config := config;
      this.isOpen := false;
    }

    /** All of the bytes in order, or a prefix of them. */
    method WriteBytes(bytes: seq<byte>) returns (ok: bool)
      requires disk.Valid()
      modifies disk`content, disk`interrupts
      ensures disk.Valid()
      ensures old(disk.content) <= disk.content <= old(disk.content) + bytes
      ensures ok <==> disk.content == old(disk.content) + bytes
    {
      var rest := bytes;
      while rest != []
        invariant disk.Valid()
        invariant |rest| <= |bytes| && rest == bytes[|bytes| - |rest|..]
        invariant disk.content == old(disk.content) + bytes[..|bytes| - |rest|]
        decreases |rest|, disk.interrupts
      {
        ghost var done := |bytes| - |rest|;
        var written, interrupted := disk.SystemWrite(rest);
        if written == -1 {
          if interrupted {
            continue;
          }
          return false;
        }
        if written == 0 {
          return false;
        }
        assert bytes[..done] + rest[..written] == bytes[..done + written];
        rest := rest[written..];
      }
      assert bytes[..|bytes|] == bytes;
      ok := true;
    }

    method WriteZeros(count: u32) returns (ok: bool)
      requires disk.Valid()
      modifies disk`content, disk`interrupts
      ensures disk.Valid()
      ensures old(disk.content) <= disk.content <= old(disk.content) + Zeros(count)
      ensures ok <==> disk.content == old(disk.content) + Zeros(count)
    {
      var remaining: u32 := count;
      while remaining != 0
        invariant disk.Valid() && remaining <= count
        invariant disk.content == old(disk.content) + Zeros(count - remaining)
      {
        var chunk: u32 := Min(remaining, 64);
        var written := WriteBytes(Zeros(chunk));
        assert Zeros(count - remaining) + Zeros(chunk) == Zeros(count - (remaining - chunk));
        assert Zeros(count - (remaining - chunk)) <= Zeros(count);
        if !written {
          return false;
        }
        remaining := remaining - chunk;
      }
      ok := true;
    }

    method Sync() returns (ok: bool)
      requires Valid()
      modifies disk`synced, disk`syncCalls
      ensures Valid()
      ensures disk.synced == if ok then |disk.content| else old(disk.synced)
      ensures disk.syncCalls == old(disk.syncCalls) + if isOpen then 1 else 0
      ensures ok ==> isOpen
    {
      if !isOpen {
        return false;
      }
      ok := disk.SystemSync();
    }

    /**
     * A created log holds exactly its head, and the head is durable. An existing
     * file is left alone, and a file left behind by a failure is a prefix of the head.
     */
    method Create(wanted: WalConfig) returns (status: OpenStatus)
      requires Valid()
      modifies this, disk
      ensures Valid()
      ensures old(isOpen) ==> status == OpenIoError && isOpen
      ensures !old(isOpen) ==> (status == OpenFileAlreadyExists <==> old(disk.present))
      ensures old(isOpen) || old(disk.present) ==>
        disk.present == old(disk.present) && disk.content == old(disk.content) && disk.synced == old(disk.synced)
      ensures status == OpenOk ==> isOpen && config == wanted
      ensures status == OpenOk ==> disk.present && disk.content == FileHead(wanted) && disk.synced == |disk.content|
      ensures status != OpenOk ==> status in {OpenIoError, OpenFileAlreadyExists} && isOpen == old(isOpen)
      ensures disk.present && !old(disk.present) ==> disk.content <= FileHead(wanted)
    {
      hide FileHead;
      if isOpen {
        return OpenIoError;
      }
      var created := disk.SystemCreate();
      if created != Created {
        return if created == AlreadyThere then OpenFileAlreadyExists else OpenIoError;
      }
      isOpen := true;
      config := wanted;
      var written := WriteHead();
      var ok := written;
      if ok {
        ok := Sync();
      }
      if ok {
        ok := disk.SystemSyncDirectory();
      }
      if !ok {
        isOpen := false;
        var removed := disk.SystemRemove();
        if removed {
          var _ := disk.SystemSyncDirectory();
        }
        return OpenIoError;
      }
      status := OpenOk;
    }

    /** The head of the log at the start of an empty file, or a prefix of it. */
    method WriteHead() returns (ok: bool)
      requires Valid() && disk.content == []
      modifies disk`content, disk`interrupts
      ensures Valid()
      ensures disk.content <= FileHead(config)
      ensures ok <==> disk.content == FileHead(config)
    {
      hide SerializeFileHeader, Crc, Number, FileHeaderPaddingSize;
      var header := BlankFileHeader(config);
      var blank := StoreFileHeader(header);
      var crc := Crc32Bytes(blank[..]);
      header := header.(headerCrc := Number(crc));
      assert header == WriterFileHeader(config) by {
        assert BlankFileHeader(config).(headerCrc := 0) == BlankFileHeader(config);
      }
      var headerBytes := StoreFileHeader(header);
      ghost var front := headerBytes[..];
      assert FileHead(config) == front + Zeros(FileHeaderPaddingSize(config));
      ok := WriteBytes(headerBytes[..]);
      if ok {
        ok := WriteZeros(FileHeaderPaddingSize(config));
      }
    }

    /** One whole record is appended, or a prefix of one. */
    method AppendRecord(sequence: u64, payload: seq<byte>) returns (ok: bool)
      requires Valid()
      modifies disk`content, disk`interrupts
      ensures Valid()
      ensures old(disk.content) <= disk.content <= old(disk.content) + RecordBytes(config, sequence, payload)
      ensures ok <==> disk.content == old(disk.content) + RecordBytes(config, sequence, payload)
      ensures ok ==> isOpen && |payload| == config.payloadSize
    {
      hide SerializeRecordHeader, PaddingSize, Crc, Number;
      if !isOpen || |payload| != config.payloadSize {
        return false;
      }
      var payloadCrc := Crc32Bytes(payload);
      var header := RecordHeader(
        RECORD_MAGIC, FORMAT_VERSION, RECORD_HEADER_SIZE, sequence, Number(payloadCrc), 0);
      var blank := StoreRecordHeader(header);
      var crc := Crc32Bytes(blank[..]);
      header := header.(headerCrc := Number(crc));
      assert header == WriterRecordHeader(sequence, payload) by {
        assert BlankRecordHeader(sequence, payload).(headerCrc := 0) == BlankRecordHeader(sequence, payload);
      }
      var headerBytes := StoreRecordHeader(header);
      ghost var before, head, tail := disk.content, headerBytes[..], Zeros(PaddingSize(config));
      assert RecordBytes(config, sequence, payload) == head + payload + tail;
      Prefixes(before, head, payload, tail);
      ok := WriteBytes(headerBytes[..]);
      if !ok {
        return;
      }
      ok := WriteBytes(payload);
      if !ok {
        return;
      }
      ok := WriteZeros(PaddingSize(config));
    }
  }

  lemma Prefixes(before: seq<byte>, head: seq<byte>, payload: seq<byte>, tail: seq<byte>)
    ensures before + head + payload + tail == before + (head + payload + tail)
    ensures before + head <= before + (head + payload + tail)
    ensures before + head + payload <= before + (head + payload + tail)
  {
    assert before + head + payload + tail == before + (head + payload + tail);
  }
}
