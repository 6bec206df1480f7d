/**
 What a user of /dev/aesdchar can observe.

 `Dev` is the device in terms of byte strings alone: the commands committed since the last reset,
 the unterminated tail, and the position an ioctl left for the next read.  `Slotted` adds the
 contents of the ten slots, because the code looks at slots that were never written: find sums up
 their sizes and may then refuse a live position, and the ioctl's position counts them.
 `AesdDevice` (Device.dfy) is proved to do exactly what `Slotted` does; where the dead slots make no
 difference, that is what `Dev` does (`RegularRead`, `RegularSeek`).
 */
module DeviceModel {
  import opened Bytes
  import opened CircularBuffers

  /** A complete write command: newline at its end. */
  predicate IsCommand(c: Bytes) { c != [] && c[|c| - 1] == NEWLINE }

  /** What a read leaves behind: the device, the file's position, and the bytes returned. */
  datatype ReadResult<D> = ReadResult(dev: D, pos: nat, bytes: Bytes)

  const EMPTY := Dev([], [], None)

  datatype Dev = Dev(log: seq<Bytes>, pending: Bytes, seek: Option<nat>) {

    predicate Valid() { (forall i :: 0 <= i < |log| ==> IsCommand(log[i])) && !IsCommand(pending) }

    /** The flat string readers see. */
    function Content(): Bytes { Flat(Live(log)) }

    /** Chunks are joined until one ends in a newline. */
    function Write(chunk: Bytes): Dev {
      var joined := pending + chunk;
      if IsCommand(joined) then Dev(log + [joined], [], seek) else Dev(log, joined, seek)
    }

    /** The ioctl counts commands in slot order. */
    function Seek(cmd: nat, off: nat): Dev
      requires cmd <= |Live(log)|
    {
      Dev(log, pending, Some(SeekPosition(log, cmd, off)))
    }

    /** Where a read of a file at position `pos` starts, once it is past the end-of-data check. */
    function Start(pos: nat): nat { if seek.Some? then seek.value else pos }

    /** A read that starts at `p` sees the content up to here: the array's end cuts it in two. */
    function Visible(p: nat): (t: Bytes)
      ensures t <= Content()
      ensures p < |Content()| ==> p < |t|
    {
      CutInside(log);
      UpToCut(Live(log), Cut(|log|), p)
    }

    /** The window condition of the copy helper, for a read of `count` bytes at position `pos`. */
    predicate CanRead(pos: nat, count: nat) {
      CutInside(log);
      pos < |Content()| && Start(pos) < |Content()| ==> WindowAt(Live(log), Cut(|log|), Start(pos), count)
    }

    function Read(pos: nat, count: nat): (r: ReadResult<Dev>)
      ensures |r.bytes| <= count && r.dev.log == log && r.dev.pending == pending
    {
      if pos >= |Content()| then ReadResult(this, pos, [])
      else
        var p, dev := Start(pos), Dev(log, pending, None);
        if p >= |Content()| then ReadResult(dev, p, [])
        else
          var bytes := Clip(Visible(p), p, count);
          ReadResult(dev, p + |bytes|, bytes)
    }
  }

  /** The slots that a read copies when find refused its position: from slot 0 up to the newest entry or the cut. */
  function FirstRun(log: seq<Bytes>): seq<Bytes> {
    CutInside(log);
    if Cut(|log|) < |Live(log)| then Live(log)[Cut(|log|)..] else Live(log)
  }

  /** The device with its slots. */
  datatype Slotted = Slotted(dev: Dev, slots: Slots) {

    ghost predicate Valid() { dev.Valid() && HoldsLast(slots, dev.log) }

    function Content(): Bytes { dev.Content() }

    function Write(chunk: Bytes): Slotted {
      var joined := dev.pending + chunk;
      Slotted(dev.Write(chunk), if IsCommand(joined) then slots[|dev.log| % SLOTS := joined] else slots)
    }

    /** The position that the ioctl computes, whether the slots before `cmd` are live or not. */
    function SeekTo(cmd: nat, off: nat): nat
      requires cmd <= SLOTS
    {
      |Flat(slots[..cmd])| + off
    }

    /** The command number is that of a slot, or ten, and the position is a `loff_t`. */
    predicate CanSeek(cmd: nat, off: nat) { cmd <= SLOTS && SeekTo(cmd, off) < LOFF_T }

    function Seek(cmd: nat, off: nat): Slotted
      requires cmd <= SLOTS
    {
      Slotted(Dev(dev.log, dev.pending, Some(SeekTo(cmd, off))), slots)
    }

    function Flush(): Slotted { Slotted(EMPTY, slots) }

    /** A read at `p` asks find, unless `p` is 0. */
    predicate Finds(p: nat) { p == 0 || FindAccepts(slots, p) }

    /** Find accepts every position of the content: see `FindsContent`. */
    predicate FindsAll() { |Content()| <= 1 || |Content()| <= |Flat(slots)| % SIZE_T }

    /** The window condition; a read that starts over at slot 0 is always inside. */
    predicate CanRead(pos: nat, count: nat) { Finds(dev.Start(pos)) ==> dev.CanRead(pos, count) }

    /** What a read that starts at `p` copies, before it looks at the size again. */
    function Copied(p: nat, count: nat): (bytes: Bytes)
      ensures |bytes| <= count
    {
      if !Finds(p) then Clip(Flat(FirstRun(dev.log)), 0, count)
      else if p < |Content()| then Clip(dev.Visible(p), p, count)
      else []
    }

    function Read(pos: nat, count: nat): (r: ReadResult<Slotted>)
      ensures |r.bytes| <= count && r.dev.slots == slots
    {
      if pos >= |Content()| then ReadResult(this, pos, [])
      else
        var p, after := dev.Start(pos), Slotted(Dev(dev.log, dev.pending, None), slots);
        if p >= |Content()| then ReadResult(after, p, [])
        else ReadResult(after, p + |Copied(p, count)|, Copied(p, count))
    }
  }

  lemma WriteKeepsSlots(s: Slotted, chunk: Bytes)
    requires s.Valid()
    ensures s.Write(chunk).Valid()
  {
    WriteKeepsValid(s.dev, chunk);
    HoldsLastAfterAdd(s.slots, s.dev.log, s.dev.pending + chunk);
  }

  /** When find accepts the start position, a read is that of the byte strings. */
  lemma RegularRead(s: Slotted, pos: nat, count: nat)
    requires pos < |s.Content()| && s.dev.Start(pos) < |s.Content()| ==> s.Finds(s.dev.Start(pos))
    ensures var r := s.dev.Read(pos, count);
            s.Read(pos, count) == ReadResult(Slotted(r.dev, s.slots), r.pos, r.bytes)
    ensures s.CanRead(pos, count) <==> s.dev.CanRead(pos, count)
  {
  }

  lemma FindsContent(s: Slotted)
    ensures s.FindsAll() <==> forall p: nat :: p < |s.Content()| ==> s.Finds(p)
  {
    FindAcceptsLiveExactly(s.slots, s.dev.log);
    if !s.FindsAll() {
      var p: nat :| 0 < p < LiveSize(s.dev.log) && !FindAccepts(s.slots, p);
      assert !s.Finds(p);
    }
  }

  /** Then no read depends on the dead slots. */
  lemma FindsAllRegular(s: Slotted, pos: nat, count: nat)
    requires s.FindsAll()
    ensures var r := s.dev.Read(pos, count);
            s.Read(pos, count) == ReadResult(Slotted(r.dev, s.slots), r.pos, r.bytes)
    ensures s.CanRead(pos, count) <==> s.dev.CanRead(pos, count)
  {
    FindsContent(s);
    RegularRead(s, pos, count);
  }

  /** A seek to a command that exists, or right behind the last one, is that of the byte strings. */
  lemma RegularSeek(s: Slotted, cmd: nat, off: nat)
    requires s.Valid() && cmd <= |Live(s.dev.log)|
    ensures cmd <= SLOTS
    ensures s.SeekTo(cmd, off) == SeekPosition(s.dev.log, cmd, off)
    ensures s.Seek(cmd, off) == Slotted(s.dev.Seek(cmd, off), s.slots)
  {
    LiveBySlot(s.slots, s.dev.log);
    assert InSlotOrder(s.dev.log)[..cmd] == s.slots[..cmd];
  }

  lemma WriteKeepsValid(d: Dev, chunk: Bytes)
    requires d.Valid()
    ensures d.Write(chunk).Valid()
  {
  }

  lemma CutInside(log: seq<Bytes>)
    ensures |Live(log)| == Min(|log|, SLOTS)
    ensures 0 <= Cut(|log|) <= |Live(log)|
    ensures |log| > 0 ==> Cut(|log|) > 0
  {
  }

  /** With the pieces `s` cut in two at `cut`: the flat string up to the end of the part with position `p`. */
  function UpToCut(s: seq<Bytes>, cut: nat, p: nat): (t: Bytes)
    requires cut <= |s|
    ensures t <= Flat(s)
    ensures p < |Flat(s)| ==> p < |t|
  {
    FlatSplit(s, cut);
    if p < |Flat(s[..cut])| then Flat(s[..cut]) else Flat(s)
  }

  /** The pieces from the one with position `p` to the end of its part. */
  function Run(s: seq<Bytes>, cut: nat, p: nat): seq<Bytes>
    requires cut <= |s| && p < |Flat(s)|
  {
    var a := Locate(s, p).0;
    if a < cut then s[a..cut] else s[a..]
  }

  predicate WindowAt(s: seq<Bytes>, cut: nat, p: nat, count: nat)
    requires cut <= |s| && p < |Flat(s)|
  {
    var (a, b) := Locate(s, p);
    b == 0 || b + count <= |s[a]| || (|s[a]| < count && |UpToCut(s, cut, p)| - p < count)
  }

  /** The ioctl's position: the sizes of the slots before `cmd`, plus the offset. */
  function SeekPosition(log: seq<Bytes>, cmd: nat, off: nat): nat
    requires cmd <= |Live(log)|
  {
    CutInside(log);
    |Flat(InSlotOrder(log)[..cmd])| + off
  }

  /** The entry a position lies in is before the cut exactly when the position is. */
  lemma CutAtPosition(s: seq<Bytes>, cut: nat, p: nat)
    requires cut <= |s| && p < |Flat(s)|
    ensures Locate(s, p).0 < cut <==> p < |Flat(s[..cut])|
  {
    var a := Locate(s, p).0;
    FlatPrefixStep(s, a);
    if a < cut {
      FlatPrefixMonotone(s, a + 1, cut);
    } else {
      FlatPrefixMonotone(s, cut, a);
    }
  }

  /** Past the end-of-data check, a pending seek only replaces the position. */
  lemma ReadFromStart(s: Slotted, pos: nat, count: nat)
    requires pos < |s.Content()|
    ensures var p, s' := s.dev.Start(pos), Slotted(Dev(s.dev.log, s.dev.pending, None), s.slots);
            && s.Read(pos, count).dev == s'
            && s'.Read(p, count) == s.Read(pos, count)
            && (p >= |s.Content()| ==> s.Read(pos, count) == ReadResult(s', p, []))
            && (p < |s.Content()| ==>
                  s.Read(pos, count) == ReadResult(s', p + |s'.Copied(p, count)|, s'.Copied(p, count)))
            && (s.CanRead(pos, count) <==> s'.CanRead(p, count))
  {
  }

  lemma CommandsNotEmpty(d: Dev)
    requires d.Valid()
    ensures forall i :: 0 <= i < |Live(d.log)| ==> Live(d.log)[i] != []
  {
  }

  lemma NoneEmpty(s: seq<Bytes>)
    requires forall i :: 0 <= i < |s| ==> s[i] != []
    ensures UntilEmpty(s) == s
  {
  }

  /** The run at `p` is what follows the entries before it in the visible content. */
  lemma RunIsRest(s: seq<Bytes>, cut: nat, p: nat)
    requires cut <= |s| && p < |Flat(s)|
    ensures Run(s, cut, p) != [] && Run(s, cut, p)[0] == s[Locate(s, p).0]
    ensures UpToCut(s, cut, p) == Flat(s[..Locate(s, p).0]) + Flat(Run(s, cut, p))
  {
    var a := Locate(s, p).0;
    CutAtPosition(s, cut, p);
    var e := if a < cut then cut else |s|;
    assert s[..|s|] == s;
    assert s[..e][..a] == s[..a] && s[..e][a..] == s[a..e];
    FlatSplit(s[..e], a);
  }

  /** What the helper owes for the run at `p` is the visible content at `p`. */
  lemma RunWindow(s: seq<Bytes>, cut: nat, p: nat, count: nat)
    requires cut <= |s| && p < |Flat(s)|
    ensures Window(Run(s, cut, p), Locate(s, p).1, count) == Clip(UpToCut(s, cut, p), p, count)
  {
    RunIsRest(s, cut, p);
    ClipShift(Flat(s[..Locate(s, p).0]), Flat(Run(s, cut, p)), Locate(s, p).1, count);
  }

  /** The helper can serve the run at `p`, if the window condition holds there. */
  lemma RunServes(s: seq<Bytes>, cut: nat, p: nat, count: nat)
    requires cut <= |s| && p < |Flat(s)| && WindowAt(s, cut, p, count)
    requires forall i :: 0 <= i < |s| ==> s[i] != []
    ensures UntilEmpty(Run(s, cut, p)) == Run(s, cut, p)
    ensures Serves(Run(s, cut, p), Locate(s, p).1, count)
  {
    RunIsRest(s, cut, p);
    NoneEmpty(Run(s, cut, p));
    var (a, b) := Locate(s, p);
    assert |Flat(Run(s, cut, p))| - b == |UpToCut(s, cut, p)| - p;
  }

  /** `start` and `off` are where a read at `p` starts. */
  predicate StartsAt(s: Slotted, p: nat, start: nat, off: nat) {
    var log := s.dev.log;
    && start < SLOTS
    && if !s.Finds(p) then start == 0 && off == 0
       else if p < |s.Content()| then
         Age(|log|, start) < |Live(log)| && (Age(|log|, start), off) == Locate(Live(log), p)
       else |log| < SLOTS && start >= |log|
  }

  /** Position 0 is the first byte of the oldest entry. */
  lemma FirstPosition(s: Slotted)
    requires s.Valid()
    ensures StartsAt(s, 0, OutOffs(|s.dev.log|), 0)
  {
    CommandsNotEmpty(s.dev);
  }

  /** Where a byte of a list lies, seen from a prefix of the list: inside of it, or behind. */
  lemma LocateInPrefix(walk: seq<Bytes>, live: seq<Bytes>, a: nat, off: nat, p: nat)
    requires live <= walk && a < |walk| && off < |walk[a]| && |Flat(walk[..a])| + off == p
    ensures p < |Flat(live)| <==> a < |live|
    ensures p < |Flat(live)| ==> Locate(live, p) == (a, off)
  {
    assert walk[..|live|] == live;
    FlatPrefixStep(walk, a);
    if a < |live| {
      FlatPrefixMonotone(walk, a + 1, |live|);
      var at := Locate(live, p);
      assert live[..a] == walk[..a];
      LocateUnique(live, at.0, at.1, a, off);
    } else {
      FlatPrefixMonotone(walk, |live|, a);
    }
  }

  lemma LiveIsPrefix(slots: Slots, log: seq<Bytes>)
    requires HoldsLast(slots, log)
    ensures Live(log) <= WalkOrder(slots, |log|)
  {
    LiveIsWalkPrefix(slots, log);
  }

  /** So a slot and a byte of it that the walk passes are live exactly for positions of live bytes. */
  lemma FoundLive(slots: Slots, log: seq<Bytes>, start: nat, off: nat, p: nat)
    requires HoldsLast(slots, log) && start < SLOTS && off < |slots[start]|
    requires |Flat(WalkOrder(slots, |log|)[..Age(|log|, start)])| + off == p
    ensures p < LiveSize(log) <==> Age(|log|, start) < |Live(log)|
    ensures p < LiveSize(log) ==> Locate(Live(log), p) == (Age(|log|, start), off)
  {
    LiveIsPrefix(slots, log);
    WalkStep(slots, |log|, start);
    LocateInPrefix(WalkOrder(slots, |log|), Live(log), Age(|log|, start), off, p);
  }

  /** Slots that are not live exist only before the ring is full, behind the others. */
  lemma DeadSlot(log: seq<Bytes>, start: nat)
    requires start < SLOTS && Age(|log|, start) >= |Live(log)|
    ensures |log| < SLOTS && start >= |log|
  {
    CutInside(log);
  }

  /** A slot that the walk found is the right start. */
  lemma FoundStart(s: Slotted, p: nat, start: nat, off: nat)
    requires HoldsLast(s.slots, s.dev.log) && s.Finds(p) && start < SLOTS
    requires off < |s.slots[start]|
    requires |Flat(WalkOrder(s.slots, |s.dev.log|)[..Age(|s.dev.log|, start)])| + off == p
    ensures StartsAt(s, p, start, off)
  {
    FoundLive(s.slots, s.dev.log, start, off, p);
    if p >= |s.Content()| {
      DeadSlot(s.dev.log, start);
    }
  }

  /** The slots from slot 0 to the stop are the first run. */
  lemma SlotsAtZero(slots: Slots, log: seq<Bytes>)
    requires HoldsLast(slots, log)
    ensures Stop(|log|, 0) <= SLOTS && slots[0..Stop(|log|, 0)] == FirstRun(log)
  {
    CutInside(log);
    if log != [] {
      SegmentIsLive(slots, log, 0);
    }
  }

  /** Those from a start inside the content are the run of the position. */
  lemma SlotsAtStart(slots: Slots, log: seq<Bytes>, p: nat, start: nat)
    requires HoldsLast(slots, log) && p < LiveSize(log) && start < SLOTS
    requires Age(|log|, start) == Locate(Live(log), p).0
    ensures start <= Stop(|log|, start) <= SLOTS && Cut(|log|) <= |Live(log)|
    ensures slots[start..Stop(|log|, start)] == Run(Live(log), Cut(|log|), p)
  {
    SegmentIsLive(slots, log, start);
  }

  /** Parts of a list without empty pieces have none. */
  lemma RunsNotEmpty(log: seq<Bytes>, p: nat)
    requires forall i :: 0 <= i < |Live(log)| ==> Live(log)[i] != []
    requires p < LiveSize(log)
    ensures Cut(|log|) <= |Live(log)|
    ensures UntilEmpty(Run(Live(log), Cut(|log|), p)) == Run(Live(log), Cut(|log|), p)
  {
    CutInside(log);
    NoneEmpty(Run(Live(log), Cut(|log|), p));
  }

  /** So the helper sees the first run from slot 0. */
  lemma SegmentAtZero(slots: Slots, d: Dev)
    requires HoldsLast(slots, d.log) && d.Valid()
    ensures Stop(|d.log|, 0) <= SLOTS && Segment(slots, 0, Stop(|d.log|, 0)) == FirstRun(d.log)
  {
    SlotsAtZero(slots, d.log);
    assert UntilEmpty(FirstRun(d.log)) == FirstRun(d.log) by {
      CommandsNotEmpty(d);
      NoneEmpty(FirstRun(d.log));
    }
  }

  /** And from a start inside the content the run of the position. */
  lemma SegmentAtStart(slots: Slots, d: Dev, p: nat, start: nat)
    requires HoldsLast(slots, d.log) && d.Valid() && p < |d.Content()| && start < SLOTS
    requires Age(|d.log|, start) == Locate(Live(d.log), p).0
    ensures Stop(|d.log|, start) <= SLOTS && Cut(|d.log|) <= |Live(d.log)|
    ensures Segment(slots, start, Stop(|d.log|, start)) == Run(Live(d.log), Cut(|d.log|), p)
  {
    SlotsAtStart(slots, d.log, p, start);
    CommandsNotEmpty(d);
    RunsNotEmpty(d.log, p);
  }

  /** From the start, the helper's window is open and what it owes is what a read copies. */
  lemma StartServes(s: Slotted, p: nat, start: nat, off: nat, count: nat)
    requires s.Valid() && s.dev.seek.None?
    requires StartsAt(s, p, start, off) && s.CanRead(p, count)
    ensures Stop(|s.dev.log|, start) <= SLOTS
    ensures Serves(Segment(s.slots, start, Stop(|s.dev.log|, start)), off, count)
    ensures Window(Segment(s.slots, start, Stop(|s.dev.log|, start)), off, count) == s.Copied(p, count)
  {
    if !s.Finds(p) {
      SegmentAtZero(s.slots, s.dev);
    } else if p < |s.Content()| {
      SegmentAtStart(s.slots, s.dev, p, start);
      CommandsNotEmpty(s.dev);
      RunServes(Live(s.dev.log), Cut(|s.dev.log|), p, count);
      RunWindow(Live(s.dev.log), Cut(|s.dev.log|), p, count);
    }
  }
}
