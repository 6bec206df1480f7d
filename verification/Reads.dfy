/** Runs of reads and positioning on a device that is not written to meanwhile. */
module Reads {
  import opened Bytes
  import opened CircularBuffers
  import opened DeviceModel
  import opened Runs

  /** What consecutive reads of one file return, and the device and the position they leave. */
  function ReadAll(s: Slotted, pos: nat, counts: seq<nat>): (r: ReadResult<Slotted>)
    decreases |counts|
  {
    if counts == [] then ReadResult(s, pos, [])
    else
      var before := ReadAll(s, pos, counts[..|counts| - 1]);
      var last := before.dev.Read(before.pos, counts[|counts| - 1]);
      ReadResult(last.dev, last.pos, before.bytes + last.bytes)
  }

  /** Every read of the list can be served when its turn comes. */
  predicate CanReadAll(s: Slotted, pos: nat, counts: seq<nat>)
    decreases |counts|
  {
    counts == []
    || (var init := counts[..|counts| - 1];
        CanReadAll(s, pos, init) && ReadAll(s, pos, init).dev.CanRead(ReadAll(s, pos, init).pos, counts[|counts| - 1]))
  }

  /** The reads as calls of a run. */
  function ReadOps(file: nat, counts: seq<nat>): (ops: seq<Op>)
    ensures |ops| == |counts|
  {
    if counts == [] then [] else ReadOps(file, counts[..|counts| - 1]) + [OpRead(file, counts[|counts| - 1])]
  }

  /** The bytes that the reads of a run returned, in order. */
  function BytesGot(outs: seq<Out>): Bytes {
    if outs == [] then []
    else BytesGot(outs[..|outs| - 1]) + if outs[|outs| - 1].Got? then outs[|outs| - 1].bytes else []
  }

  /** In a run that only reads one file, the calls return what `ReadAll` says, and are allowed when it can be served. */
  lemma {:induction false} ReadsInRun(w: World<Slotted>, file: nat, counts: seq<nat>)
    ensures Allowed(w, ReadOps(file, counts)) <==> CanReadAll(w.dev, Pos(w.files, file), counts)
    ensures Allowed(w, ReadOps(file, counts)) ==>
      var (w', outs), r := Exec(w, ReadOps(file, counts)), ReadAll(w.dev, Pos(w.files, file), counts);
      w'.dev == r.dev && Pos(w'.files, file) == r.pos && BytesGot(outs) == r.bytes
  {
    if counts != [] {
      var ops, n := ReadOps(file, counts), |counts| - 1;
      ReadsInRun(w, file, counts[..n]);
      assert ops[..n] == ReadOps(file, counts[..n]);
      if Allowed(w, ops) {
        var outs := Exec(w, ops).1;
        assert outs[..n] == Exec(w, ops[..n]).1;
      }
    }
  }

  /**
   Consecutive reads return the content from the start position on, without gap or overlap, and
   every read before the end makes progress: after enough reads all the rest has been returned.
   */
  lemma {:induction false} ReadAllIsContent(s: Slotted, pos: nat, counts: seq<nat>)
    requires s.dev.seek.None? && s.FindsAll() && pos <= |s.Content()|
    requires forall i :: 0 <= i < |counts| ==> counts[i] > 0
    ensures var r := ReadAll(s, pos, counts);
            && r.dev == s
            && pos <= r.pos <= |s.Content()|
            && r.bytes == s.Content()[pos..r.pos]
            && (r.pos == |s.Content()| || r.pos - pos >= |counts|)
  {
    if counts != [] {
      var init, last := counts[..|counts| - 1], counts[|counts| - 1];
      ReadAllIsContent(s, pos, init);
      var before := ReadAll(s, pos, init);
      OneReadIsContent(s, before.pos, last);
      SliceJoin(s.Content(), pos, before.pos, s.Read(before.pos, last).pos);
    }
  }

  lemma SliceJoin<T>(t: seq<T>, a: nat, b: nat, c: nat)
    requires a <= b <= c <= |t|
    ensures t[a..b] + t[b..c] == t[a..c]
  {
  }

  lemma OneReadIsContent(s: Slotted, pos: nat, count: nat)
    requires s.dev.seek.None? && s.FindsAll() && pos <= |s.Content()| && count > 0
    ensures var r := s.Read(pos, count);
            && r.dev == s
            && pos <= r.pos <= |s.Content()|
            && r.bytes == s.Content()[pos..r.pos]
            && (r.pos == pos <==> pos == |s.Content()|)
  {
    FindsAllRegular(s, pos, count);
    ReadIsSlice(s.dev, pos, count);
  }

  /** One read returns the content from its position on, and something unless it is at the end. */
  lemma ReadIsSlice(d: Dev, pos: nat, count: nat)
    requires d.seek.None? && pos <= |d.Content()| && count > 0
    ensures var r := d.Read(pos, count);
            && r.dev == d
            && pos <= r.pos <= |d.Content()|
            && r.bytes == d.Content()[pos..r.pos]
            && (r.pos == pos <==> pos == |d.Content()|)
  {
    if pos < |d.Content()| {
      var t := d.Visible(pos);
      assert forall i :: 0 <= i < |t| ==> t[i] == d.Content()[i];
    }
  }

  /** Reading byte by byte is always possible. */
  lemma SingleBytes(s: Slotted, pos: nat)
    ensures s.CanRead(pos, 1)
  {
  }

  /** Reads of `count` bytes can be served from `pos` to the end of the content. */
  predicate CanReadOn(s: Slotted, pos: nat, count: nat)
    requires s.dev.seek.None? && s.FindsAll() && count > 0
    decreases |s.Content()| - pos
  {
    pos >= |s.Content()|
    || (OneReadIsContent(s, pos, count);
        s.CanRead(pos, count) && CanReadOn(s, s.Read(pos, count).pos, count))
  }

  /** Which single bytes always can. */
  lemma {:induction false} ByteByByte(s: Slotted, pos: nat)
    requires s.dev.seek.None? && s.FindsAll()
    ensures CanReadOn(s, pos, 1)
    decreases |s.Content()| - pos
  {
    SingleBytes(s, pos);
    if pos < |s.Content()| {
      OneReadIsContent(s, pos, 1);
      ByteByByte(s, s.Read(pos, 1).pos);
    }
  }

  /** A read that starts where an entry does is always possible; with enough room it goes up to the cut. */
  lemma WholeRun(d: Dev, k: nat, count: nat)
    requires d.Valid() && d.seek.None? && k < |Live(d.log)| && count >= |d.Content()|
    ensures var p := |Flat(Live(d.log)[..k])|;
            && p < |d.Content()| && d.CanRead(p, count)
            && d.Read(p, count) == ReadResult(d, |d.Visible(p)|, d.Visible(p)[p..])
  {
    CommandsNotEmpty(d);
    FirstOfRun(Live(d.log), k, count);
  }

  /** A large enough buffer gets everything in two reads, which are always possible. */
  lemma TwoReadsSuffice(s: Slotted, c1: nat, c2: nat)
    requires s.dev.Valid() && s.dev.seek.None? && s.FindsAll() && c1 >= |s.Content()| && c2 >= |s.Content()|
    ensures CanReadAll(s, 0, [c1, c2])
    ensures ReadAll(s, 0, [c1, c2]) == ReadResult(s, |s.Content()|, s.Content())
  {
    var first := s.dev.Read(0, c1);
    FindsAllRegular(s, 0, c1);
    FindsAllRegular(s, first.pos, c2);
    FirstReadToCut(s.dev, c1);
    SecondReadToEnd(s.dev, c2);
    TwoReads(s, c1, c2);
  }

  /** The first read gets the part before the array's end. */
  lemma FirstReadToCut(d: Dev, c: nat)
    requires d.Valid() && d.seek.None? && c >= |d.Content()|
    ensures Cut(|d.log|) <= |Live(d.log)|
    ensures d.CanRead(0, c)
    ensures var part := Flat(Live(d.log)[..Cut(|d.log|)]); d.Read(0, c) == ReadResult(d, |part|, part)
  {
    var live, cut := Live(d.log), Cut(|d.log|);
    CutInside(d.log);
    if d.log != [] {
      WholeRun(d, 0, c);
      CommandsNotEmpty(d);
      FlatPrefixStep(live, 0);
      FlatPrefixMonotone(live, 1, cut);
      assert live[..0] == [];
    }
  }

  /** The second gets what is behind it. */
  lemma SecondReadToEnd(d: Dev, c: nat)
    requires d.Valid() && d.seek.None? && c >= |d.Content()|
    ensures Cut(|d.log|) <= |Live(d.log)|
    ensures var p := |Flat(Live(d.log)[..Cut(|d.log|)])|;
            p <= |d.Content()| && d.CanRead(p, c) && d.Read(p, c) == ReadResult(d, |d.Content()|, d.Content()[p..])
    ensures Flat(Live(d.log)[..Cut(|d.log|)]) <= d.Content()
  {
    var live, cut := Live(d.log), Cut(|d.log|);
    CutInside(d.log);
    FlatSplit(live, cut);
    if cut < |live| {
      WholeRun(d, cut, c);
    } else {
      assert live[..cut] == live;
    }
  }

  /** The two-element case of `ReadAll`, written out. */
  lemma TwoReads(s: Slotted, c1: nat, c2: nat)
    ensures var first := s.Read(0, c1);
            var second := first.dev.Read(first.pos, c2);
            && (CanReadAll(s, 0, [c1, c2]) <==> s.CanRead(0, c1) && first.dev.CanRead(first.pos, c2))
            && ReadAll(s, 0, [c1, c2]) == ReadResult(second.dev, second.pos, first.bytes + second.bytes)
  {
    var first := s.Read(0, c1);
    var none: seq<nat> := [];
    assert [c1, c2][..1] == [c1] && [c1][..0] == none;
    assert CanReadAll(s, 0, none) && ReadAll(s, 0, none) == ReadResult(s, 0, []);
    assert [] + first.bytes == first.bytes;
    assert ReadAll(s, 0, [c1]) == first;
  }

  /** The position where piece `k` starts is byte 0 of piece `k`. */
  lemma FirstOfRun(s: seq<Bytes>, k: nat, c: nat)
    requires k < |s| && s[k] != []
    ensures |Flat(s[..k])| < |Flat(s)| && Locate(s, |Flat(s[..k])|) == (k, 0)
  {
    FlatPrefixStep(s, k);
    FlatSplit(s, k + 1);
    var at := Locate(s, |Flat(s[..k])|);
    LocateUnique(s, at.0, at.1, k, 0);
  }

  /** The window condition at a position is that of the helper, on the run the position is in. */
  lemma WindowOfRun(s: seq<Bytes>, cut: nat, p: nat, count: nat)
    requires cut <= |s| && p < |Flat(s)|
    ensures WindowAt(s, cut, p, count) <==> ReadWindow(Run(s, cut, p), Locate(s, p).1, count)
  {
    RunIsRest(s, cut, p);
    var run, off := Run(s, cut, p), Locate(s, p).1;
    assert |Flat(run)| - off == |UpToCut(s, cut, p)| - p;
  }

  lemma RunHasNoEmpty(s: seq<Bytes>, cut: nat, p: nat)
    requires cut <= |s| && p < |Flat(s)| && [] !in s
    ensures [] !in Run(s, cut, p)
  {
  }

  /** The window condition of the device is exactly what keeps the helper's accesses in bounds. */
  lemma CanReadExactly(d: Dev, pos: nat, count: nat)
    requires d.Valid() && d.seek.None? && pos < |d.Content()|
    ensures Cut(|d.log|) <= |Live(d.log)|
    ensures var run, off := Run(Live(d.log), Cut(|d.log|), pos), Locate(Live(d.log), pos).1;
            d.CanRead(pos, count) <==> HelperSafe(run, off, off, 0, count)
  {
    var live, cut := Live(d.log), Cut(|d.log|);
    CutInside(d.log);
    CommandsNotEmpty(d);
    RunHasNoEmpty(live, cut, pos);
    WindowOfRun(live, cut, pos, count);
    RunIsRest(live, cut, pos);
    HelperSafeExactlyInWindow(Run(live, cut, pos), Locate(live, pos).1, count);
  }

  /**
   So what `AesdDevice.Read` asks for is exactly what the helper needs: from the start that aesd_read
   finds, whether find accepts or refuses, its accesses are in bounds if and only if `CanRead` holds.
   */
  lemma StartSafeExactly(s: Slotted, p: nat, start: nat, off: nat, count: nat)
    requires s.Valid() && s.dev.seek.None? && StartsAt(s, p, start, off)
    ensures Stop(|s.dev.log|, start) <= SLOTS
    ensures s.CanRead(p, count) <==>
            HelperSafe(Segment(s.slots, start, Stop(|s.dev.log|, start)), off, off, 0, count)
  {
    if !s.Finds(p) {
      SegmentAtZero(s.slots, s.dev);
      RestartIsSafe(Segment(s.slots, 0, Stop(|s.dev.log|, 0)), count);
    } else if p < |s.Content()| {
      SegmentAtStart(s.slots, s.dev, p, start);
      CanReadExactly(s.dev, p, count);
    }
  }

  /** From an entry's first byte the helper is always safe. */
  lemma RestartIsSafe(seg: seq<Bytes>, count: nat)
    requires [] !in seg
    ensures HelperSafe(seg, 0, 0, 0, count)
  {
    HelperSafeExactlyInWindow(seg, 0, count);
  }

  /** A device and a call that break it: one write of two bytes, then a read of two bytes at position 1. */
  lemma ReadBeyondEntry()
    ensures var d := EMPTY.Write([0, NEWLINE]);
            && d.log == [[0, NEWLINE]] && 1 < |d.Content()|
            && !d.CanRead(1, 2)
            && !HelperSafe(Live(d.log), 1, 1, 0, 2)
  {
    var d := EMPTY.Write([0, NEWLINE]);
    TwoByteDevice(d);
    LocateUnique(d.log, Locate(d.log, 1).0, Locate(d.log, 1).1, 0, 1);
    CanReadExactly(d, 1, 2);
    assert Run(d.log, 1, 1) == d.log;
  }

  /**
   Slots that were never written can be seen: of two devices that hold the same two bytes, one
   returns the second byte for position 1, and the other, whose find refuses, starts over at slot 0.
   */
  lemma StaleSlotsCanBeSeen() returns (s: Slotted, s': Slotted)
    ensures s.Valid() && s'.Valid() && s.dev == s'.dev == EMPTY.Write([0, NEWLINE])
    ensures s.CanRead(1, 1) && s.Read(1, 1).bytes == [NEWLINE]
    ensures s'.CanRead(1, 1) && s'.Read(1, 1).bytes == [0]
  {
    var d := EMPTY.Write([0, NEWLINE]);
    var clean: Slots := [[0, NEWLINE]] + seq(SLOTS - 1, _ => []);
    var slots, log := FindCanRefuseLive();
    TwoByteDevice(d);
    s, s' := Slotted(d, clean), Slotted(d, slots);
    assert clean[1..] == seq(SLOTS - 1, _ => []);
    FlatEmpties(clean[1..]);
    assert Flat(clean) == [0, NEWLINE];
  }

  /**
   What a read returns is decided by the content exactly when find accepts every position of it.  A
   full ring has no slots but the live ones, and then it does, if their sizes fit into a `size_t`.
   */
  lemma ContentDecidesExactly(s: Slotted)
    requires s.Valid() && s.dev.seek.None? && (|s.dev.log| < SLOTS || |s.Content()| < SIZE_T)
    ensures (forall pos: nat, count: nat | s.CanRead(pos, count) && s.dev.CanRead(pos, count) ::
               s.Read(pos, count).bytes == s.dev.Read(pos, count).bytes)
            <==> s.FindsAll()
  {
    if s.FindsAll() {
      forall pos: nat, count: nat
        ensures s.Read(pos, count).bytes == s.dev.Read(pos, count).bytes
      {
        FindsAllRegular(s, pos, count);
      }
    } else {
      WalkSize(s.slots, s.dev.log);
      LastByteDiffers(s);
    }
  }

  /** Otherwise the last position and a large buffer tell: all of the content comes back, not its last byte. */
  lemma LastByteDiffers(s: Slotted)
    requires s.Valid() && s.dev.seek.None? && |s.dev.log| < SLOTS && !s.FindsAll()
    ensures var p, count: nat := |s.Content()| - 1, |s.Content()| + 1;
            && s.CanRead(p, count) && s.dev.CanRead(p, count)
            && s.Read(p, count).bytes != s.dev.Read(p, count).bytes
  {
    var live, p, count: nat := Live(s.dev.log), |s.Content()| - 1, |s.Content()| + 1;
    assert !s.Finds(p);
    assert FirstRun(s.dev.log) == live;
    assert Clip(Flat(live), 0, count) == Flat(live);
    PieceWithin(live, Locate(live, p).0);
  }

  lemma PieceWithin(s: seq<Bytes>, k: nat)
    requires k < |s|
    ensures |s[k]| <= |Flat(s)|
  {
    FlatPrefixStep(s, k);
    FlatSplit(s, k + 1);
  }

  lemma TwoByteDevice(d: Dev)
    requires d == EMPTY.Write([0, NEWLINE])
    ensures d == Dev([[0, NEWLINE]], [], None) && Live(d.log) == d.log == FirstRun(d.log)
    ensures Flat(d.log) == d.Content() == d.Visible(1) == [0, NEWLINE]
  {
    assert [] + [0, NEWLINE] == [0, NEWLINE];
    FlatOne([0, NEWLINE]);
    assert Live(d.log) == d.log;
    assert d.log[..1] == d.log;
  }

  // Positions set by the ioctl.

  /** While slot 0 holds the oldest command, the ioctl's numbering is by age. */
  lemma SlotOrderIsAge(log: seq<Bytes>)
    requires OutOffs(|log|) == 0
    ensures InSlotOrder(log) == Live(log)
  {
    CutInside(log);
  }

  /** Then seeking to byte `o` of command `c` leaves a position that find resolves to them. */
  lemma SeekResolves(log: seq<Bytes>, c: nat, o: nat)
    requires OutOffs(|log|) == 0
    requires c < |Live(log)| && o < |Live(log)[c]|
    ensures SeekPosition(log, c, o) < LiveSize(log)
    ensures Locate(Live(log), SeekPosition(log, c, o)) == (c, o)
  {
    var live := Live(log);
    SlotOrderIsAge(log);
    FlatPrefixStep(live, c);
    FlatSplit(live, c + 1);
    var at := Locate(live, SeekPosition(log, c, o));
    LocateUnique(live, at.0, at.1, c, o);
  }

  /** And each position of the content is left by one command and byte: the two maps are inverse. */
  lemma SeekReachesAll(log: seq<Bytes>, x: nat)
    requires OutOffs(|log|) == 0 && x < LiveSize(log)
    ensures var at := Locate(Live(log), x); SeekPosition(log, at.0, at.1) == x
  {
    SlotOrderIsAge(log);
  }

  /** The ioctl's numbering agrees with age on every log of a length exactly when slot 0 holds the oldest command. */
  lemma SeekByAgeExactly(n: nat)
    ensures (forall log: seq<Bytes>, c: nat | |log| == n && Dev(log, [], None).Valid() && c <= |Live(log)| ::
               SeekPosition(log, c, 0) == |Flat(Live(log)[..c])|)
            <==> OutOffs(n) == 0
  {
    if OutOffs(n) == 0 {
      forall log: seq<Bytes>, c: nat | |log| == n && c <= |Live(log)|
        ensures SeekPosition(log, c, 0) == |Flat(Live(log)[..c])|
      {
        SlotOrderIsAge(log);
      }
    } else {
      var log := MisnumberedLog(n);
      assert Dev(log, [], None).Valid() && 1 <= |Live(log)|;
      assert SeekPosition(log, 1, 0) != |Flat(Live(log)[..1])|;
    }
  }

  /** When slot 0 does not hold the oldest command, its size can differ from the oldest command's. */
  lemma MisnumberedLog(n: nat) returns (log: seq<Bytes>)
    requires OutOffs(n) != 0
    ensures |log| == n && Dev(log, [], None).Valid() && |Live(log)| == SLOTS
    ensures SeekPosition(log, 1, 0) == 2 && |Flat(Live(log)[..1])| == 1
  {
    log := seq(n, i => if i == n - n % SLOTS then [0, NEWLINE] else [NEWLINE]);
    CutInside(log);
    var live, cut := Live(log), Cut(n);
    assert live[0] == log[n - SLOTS] == [NEWLINE];
    assert live[cut] == log[n - n % SLOTS] == [0, NEWLINE];
    assert InSlotOrder(log)[..1] == [[0, NEWLINE]] && live[..1] == [[NEWLINE]];
    FlatOne([0, NEWLINE]);
    FlatOne([NEWLINE]);
  }

  /** After seeking to byte `o` of command `c`, the next read of any file not at the end starts with that byte. */
  lemma SeekThenRead(s: Slotted, c: nat, o: nat, pos: nat, count: nat)
    requires s.Valid() && s.FindsAll() && OutOffs(|s.dev.log|) == 0
    requires c < |Live(s.dev.log)| && o < |Live(s.dev.log)[c]|
    requires pos < |s.Content()| && count > 0
    ensures c < SLOTS
    ensures var r := s.Seek(c, o).Read(pos, count);
            r.dev.dev.seek.None? && r.bytes != [] && r.bytes[0] == Live(s.dev.log)[c][o]
  {
    RegularSeek(s, c, o);
    FindsAllRegular(s.Seek(c, o), pos, count);
    SoughtByte(s.dev, c, o, pos, count);
  }

  lemma SoughtByte(d: Dev, c: nat, o: nat, pos: nat, count: nat)
    requires d.Valid() && OutOffs(|d.log|) == 0
    requires c < |Live(d.log)| && o < |Live(d.log)[c]|
    requires pos < |d.Content()| && count > 0
    ensures var r := d.Seek(c, o).Read(pos, count);
            r.dev.seek.None? && r.bytes != [] && r.bytes[0] == Live(d.log)[c][o]
  {
    var p := SeekPosition(d.log, c, o);
    SeekResolves(d.log, c, o);
    LocatedByte(Live(d.log), p);
    var t := d.Seek(c, o).Visible(p);
    assert t == d.Visible(p) && t[p] == d.Content()[p];
    assert d.Seek(c, o).Read(pos, count).bytes == Clip(t, p, count);
  }

  /** The byte at a position is the one `Locate` names. */
  lemma LocatedByte(s: seq<Bytes>, p: nat)
    requires p < |Flat(s)|
    ensures var at := Locate(s, p); Flat(s)[p] == s[at.0][at.1]
  {
    var at := Locate(s, p);
    FlatPrefixStep(s, at.0);
    FlatSplit(s, at.0 + 1);
  }
}
