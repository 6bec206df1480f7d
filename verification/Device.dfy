/**
 The character device (aesd-char-driver/main.c) with its fields, in the absence of
 concurrency; the lock protocol is in Locking.dfy.
 */
module Device {
  import opened Bytes
  import opened CircularBuffers
  import opened DeviceModel

  class AesdDevice {
    const buffer: CircularBuffer
    var partial: bool
    var partialEntry: Bytes
    var seekToPosition: nat
    var seek: bool

    ghost predicate Valid()
      reads this, buffer, buffer.entry
    {
      && buffer.Valid()
      && Abs().Valid()
      && (partial ==> partialEntry != [])
    }

    /** What the fields mean, in terms of byte strings. */
    ghost function Abs(): Dev
      reads this, buffer
    {
      Dev(buffer.log, if partial then partialEntry else [], if seek then Some(seekToPosition) else None)
    }

    /** And with the contents of the slots. */
    ghost function State(): Slotted
      requires buffer.entry.Length == SLOTS
      reads this, buffer, buffer.entry
    {
      Slotted(Abs(), buffer.entry[..])
    }

    /** The state part of aesd_init_module; `stale` is what the ten uninitialised slots contain. */
    constructor InitModule(stale: Slots)
      ensures Valid() && State() == Slotted(EMPTY, stale)
      ensures fresh(buffer) && fresh(buffer.entry)
    {
      buffer := new CircularBuffer.Init(stale);
      partialEntry := [];
      partial := false;
      seekToPosition := 0;
      seek := false;
    }

    /** aesd_flush */
    method Flush() returns (retval: int)
      requires Valid()
      modifies this, buffer
      ensures Valid() && retval == 0
      ensures State() == old(State()).Flush()
    {
      partialEntry := [];
      partial := false;
      seekToPosition := 0;
      seek := false;
      buffer.Reset();
      retval := 0;
    }

    /**
     aesd_adjust_file_offset.  Slots 10 and up do not exist, and a sum that no `loff_t` can hold has
     no value that the language defines.
     */
    method AdjustFileOffset(writeCmd: nat, writeCmdOffset: nat) returns (retval: int)
      requires Valid() && State().CanSeek(writeCmd, writeCmdOffset)
      modifies this`seekToPosition, this`seek
      ensures Valid() && retval == 0
      ensures State() == old(State()).Seek(writeCmd, writeCmdOffset)
    {
      var newPos := SumSizes(writeCmd);
      newPos := newPos + writeCmdOffset;
      seekToPosition := newPos;
      seek := true;
      retval := 0;
    }

    /** Its loop. */
    method SumSizes(writeCmd: nat) returns (newPos: nat)
      requires buffer.entry.Length == SLOTS && writeCmd <= SLOTS
      ensures newPos == |Flat(buffer.entry[..][..writeCmd])|
    {
      ghost var slots := buffer.entry[..];
      newPos := 0;
      for i := 0 to writeCmd
        invariant newPos == |Flat(slots[..i])|
      {
        FlatPrefixStep(slots, i);
        newPos := newPos + |buffer.entry[i]|;
      }
    }

    /** aesd_write: `count` bytes of `buf`. */
    method Write(buf: array<byte>, count: nat) returns (retval: nat)
      requires Valid() && count <= buf.Length
      requires count > 0 || partial
      modifies this, buffer, buffer.entry
      ensures Valid() && retval == count
      ensures State() == old(State()).Write(buf[..count])
    {
      var data := CopyFromUser(buf, count);
      if partial {
        data := Join(partialEntry, data);
      }
      assert data[..] == Abs().pending + buf[..count];
      WriteKeepsValid(Abs(), buf[..count]);
      Store(data[..]);
      retval := count;
    }

    /** The last part of aesd_write: keep the joined bytes as partial entry, or commit them. */
    method Store(data: Bytes)
      requires Valid() && data != []
      modifies this, buffer, buffer.entry
      ensures buffer.Valid() && (partial ==> partialEntry != [])
      ensures Abs() == if IsCommand(data) then Dev(old(buffer.log) + [data], [], old(Abs()).seek)
                       else Dev(old(buffer.log), data, old(Abs()).seek)
      ensures buffer.entry[..] == if IsCommand(data) then old(buffer.entry[..])[old(|buffer.log|) % SLOTS := data]
                                  else old(buffer.entry[..])
    {
      if data[|data| - 1] != NEWLINE {
        partial := true;
        partialEntry := data;
      } else {
        partial := false;
        buffer.AddEntry(data);
      }
    }

    /** aesd_read: up to `count` bytes into `buf`, for a file at position `fPos`. */
    method Read(buf: array<byte>, count: nat, fPos: nat) returns (retval: nat, newPos: nat)
      requires Valid() && count <= buf.Length
      requires State().CanRead(fPos, count)
      modifies this, buf
      ensures Valid()
      ensures var r := old(State()).Read(fPos, count);
              State() == r.dev && newPos == r.pos && retval == |r.bytes| && buf[..retval] == r.bytes
      ensures buf[count..] == old(buf[count..])
    {
      newPos := fPos;
      if newPos >= buffer.totalSize {
        return 0, newPos;
      }
      ReadFromStart(State(), fPos, count);
      newPos := TakeSeek(fPos);
      var tmpBuf := new byte[count];
      var readCount := CopyOut(newPos, tmpBuf, count);
      CopyToUser(buf, tmpBuf, count);
      if newPos < buffer.totalSize {
        newPos := newPos + readCount;
        return readCount, newPos;
      }
      return 0, newPos;
    }

    /** A pending seek replaces the position, once. */
    method TakeSeek(fPos: nat) returns (newPos: nat)
      requires Valid()
      modifies this`seek
      ensures Valid() && !seek
      ensures State() == Slotted(Dev(old(Abs()).log, old(Abs()).pending, None), old(State()).slots)
      ensures newPos == old(Abs()).Start(fPos)
    {
      newPos := fPos;
      if seek {
        newPos := seekToPosition;
        seek := false;
      }
    }

    /** The part of aesd_read between the start position and the unlock. */
    method CopyOut(pos: nat, tmpBuf: array<byte>, count: nat) returns (readCount: nat)
      requires Valid() && tmpBuf.Length == count && !seek
      requires State().CanRead(pos, count)
      modifies tmpBuf
      ensures readCount == |State().Copied(pos, count)|
      ensures tmpBuf[..readCount] == State().Copied(pos, count)
    {
      var start, byteOffset := FindStart(pos);
      ghost var s := State();
      StartServes(s, pos, start, byteOffset, count);
      var stop := FindStop(start);
      ghost var owed := Window(Segment(buffer.entry[..], start, stop), byteOffset, count);
      readCount := buffer.ReadHelper(start, stop, tmpBuf, count, byteOffset);
      assert tmpBuf[..readCount] == owed;
      assert State() == s;
    }

    /** The three calls of the helper in aesd_read differ in the slot they stop at. */
    method FindStop(start: nat) returns (stop: nat)
      requires Valid()
      ensures stop == Stop(|buffer.log|, start)
    {
      if !buffer.full {
        stop := buffer.inOffs;
      } else if buffer.outOffs <= start {
        stop := SLOTS;
      } else {
        stop := buffer.outOffs;
      }
    }

    /** The slot and byte a read starts at: what find says, or slot 0 if find refuses. */
    method FindStart(pos: nat) returns (start: nat, byteOffset: nat)
      requires Valid()
      ensures StartsAt(State(), pos, start, byteOffset)
    {
      if pos == 0 {
        FirstPosition(State());
        return buffer.outOffs, 0;
      }
      var slot, found := buffer.FindEntryOffsetForFpos(pos, 0);
      if slot.Some? {
        start, byteOffset := slot.value, found;
        FoundStart(State(), pos, start, byteOffset);
      } else {
        start, byteOffset := 0, 0;
      }
    }
  }

  /** aesd_write's two copy loops into `tmp` and the one back into a larger `data`. */
  method Join(partialEntry: Bytes, data: array<byte>) returns (joined: array<byte>)
    ensures fresh(joined) && joined[..] == partialEntry + data[..]
  {
    var count := data.Length;
    var tmp := new byte[count + |partialEntry|];
    for i := 0 to |partialEntry|
      invariant tmp[..i] == partialEntry[..i]
      modifies tmp
    {
      tmp[i] := partialEntry[i];
    }
    for i := 0 to count
      invariant tmp[..|partialEntry| + i] == partialEntry + data[..i]
      modifies tmp
    {
      tmp[|partialEntry| + i] := data[i];
    }
    assert tmp[..] == tmp[..|partialEntry| + count] && data[..count] == data[..];
    joined := new byte[count + |partialEntry|];
    for i := 0 to count + |partialEntry|
      invariant joined[..i] == tmp[..i]
      modifies joined
    {
      joined[i] := tmp[i];
    }
  }

  /** copy_from_user, which never fails here */
  method CopyFromUser(buf: array<byte>, count: nat) returns (data: array<byte>)
    requires count <= buf.Length
    ensures fresh(data) && data[..] == buf[..count]
  {
    data := new byte[count];
    forall i | 0 <= i < count {
      data[i] := buf[i];
    }
  }

  /** copy_to_user, which never fails here */
  method CopyToUser(buf: array<byte>, tmpBuf: array<byte>, count: nat)
    requires count <= buf.Length && count == tmpBuf.Length && buf != tmpBuf
    modifies buf
    ensures buf[..count] == tmpBuf[..]
    ensures buf[count..] == old(buf[count..])
  {
    forall i | 0 <= i < count {
      buf[i] := tmpBuf[i];
    }
  }
}
