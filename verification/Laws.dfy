/**
 What single calls and whole runs do, in the numbers of the source: a command ends in byte 10, the
 ring has ten slots, sizes are added up modulo 2^64, positions are below 2^63.  These laws say what
 the definitions of DeviceModel.dfy and Runs.dfy amount to without going through them.
 */
module Laws {
  import opened Bytes
  import opened CircularBuffers
  import opened DeviceModel
  import opened Writes
  import opened Runs
  import opened Reads

  // Writing.

  predicate EndsInNewline(c: Bytes) { c != [] && c[|c| - 1] == 10 }

  /** The last byte of the chunk alone decides: with a newline there, tail and chunk become a command. */
  lemma WriteDecides(d: Dev, chunk: Bytes)
    requires d.Valid()
    ensures chunk == [] ==> d.Write(chunk) == d
    ensures chunk != [] && chunk[|chunk| - 1] == 10 ==> d.Write(chunk) == Dev(d.log + [d.pending + chunk], [], d.seek)
    ensures chunk != [] && chunk[|chunk| - 1] != 10 ==> d.Write(chunk) == Dev(d.log, d.pending + chunk, d.seek)
  {
    CommandIffLast(d.pending, chunk);
    if chunk == [] {
      assert d.pending + chunk == d.pending;
    }
  }

  /** So in every state of every run commands end in a newline, and the tail does not. */
  lemma CommandsEndInNewline(w: World<Slotted>, ops: seq<Op>)
    requires w.dev.Valid() && Allowed(w, ops)
    ensures var d := Exec(w, ops).0.dev.dev;
            && (forall i :: 0 <= i < |d.log| ==> d.log[i] != [] && d.log[i][|d.log[i]| - 1] == 10)
            && (d.pending == [] || d.pending[|d.pending| - 1] != 10)
  {
    RunKeepsValid(w, ops);
  }

  // The ring.

  /** The content is all commands since the last reset, or the last ten of them. */
  lemma KeepsTen(slots: Slots, files: map<nat, nat>, ops: seq<Op>, d: Dev)
    requires Allowed(World(Slotted(EMPTY, slots), files), ops)
    requires d == Exec(World(Slotted(EMPTY, slots), files), ops).0.dev.dev
    ensures |d.log| == |Closers(SinceFlush(ops))|
    ensures forall k :: 0 <= k < |d.log| ==> d.log[k] == Group(SinceFlush(ops), k)
    ensures |d.log| <= 10 ==> d.Content() == Flat(d.log)
    ensures |d.log| >= 10 ==> d.Content() == Flat(d.log[|d.log| - 10..])
  {
    RunIsWrites(slots, files, ops);
    TenOf(SinceFlush(ops), d);
  }

  lemma TenOf(chunks: seq<Bytes>, d: Dev)
    requires d.log == WriteAll(EMPTY, chunks).log
    ensures |d.log| == |Closers(chunks)|
    ensures forall k :: 0 <= k < |d.log| ==> d.log[k] == Group(chunks, k)
    ensures |d.log| <= 10 ==> d.Content() == Flat(d.log)
    ensures |d.log| >= 10 ==> d.Content() == Flat(d.log[|d.log| - 10..])
  {
    LogIsGroups(chunks);
    LiveAreTen(d.log);
  }

  lemma LogIsGroups(chunks: seq<Bytes>)
    ensures |WriteAll(EMPTY, chunks).log| == |Closers(chunks)|
    ensures forall k :: 0 <= k < |Closers(chunks)| ==> WriteAll(EMPTY, chunks).log[k] == Group(chunks, k)
  {
    PendingIsOpenGroup(chunks);
    forall k | 0 <= k < |Closers(chunks)|
      ensures WriteAll(EMPTY, chunks).log[k] == Group(chunks, k)
    {
      CommandIsGroup(chunks, k);
    }
  }

  lemma LiveAreTen(log: seq<Bytes>)
    ensures |log| <= 10 ==> Live(log) == log
    ensures |log| >= 10 ==> Live(log) == log[|log| - 10..]
  {
  }

  /** One call changes at most one slot: a write that commits, the slot whose turn it is. */
  lemma SlotAfterStep(w: World<Slotted>, op: Op, k: nat)
    requires w.dev.Valid() && Enabled(w, op) && k < 10
    ensures Step(w, op).0.dev.slots[k] ==
            if op.OpWrite? && EndsInNewline(op.chunk) && k == |w.dev.dev.log| % 10 then w.dev.dev.pending + op.chunk
            else w.dev.slots[k]
  {
    if op.OpWrite? {
      CommandIffLast(w.dev.dev.pending, op.chunk);
    }
  }

  // Positioning.

  /** The ioctl's position: the slots before the command, live or not, and the offset. */
  lemma SeekAddsUp(s: Slotted, c: nat, o: nat)
    requires c <= 10
    ensures s.Seek(0, 0).dev.seek == Some(0)
    ensures c < 10 ==> s.Seek(c + 1, 0).dev.seek == Some(s.Seek(c, 0).dev.seek.value + |s.slots[c]|)
    ensures s.Seek(c, o).dev.seek == Some(s.Seek(c, 0).dev.seek.value + o)
    ensures var r := s.Seek(c, o); r.dev.log == s.dev.log && r.dev.pending == s.dev.pending && r.slots == s.slots
  {
    if c < 10 {
      FlatPrefixStep(s.slots, c);
    }
  }

  /** The slot of the oldest live entry. */
  function First(n: nat): nat { if n >= 10 then n % 10 else 0 }

  /** The age of the entry in slot `c`. */
  function AgeOf(n: nat, c: nat): nat
    requires c < 10
  {
    if c >= First(n) then c - First(n) else c + 10 - First(n)
  }

  /** The slots in the order of age. */
  function Rotated(slots: Slots, r: nat): seq<Bytes>
    requires r < 10
  {
    slots[r..] + slots[..r]
  }

  lemma LiveIsRotated(slots: Slots, log: seq<Bytes>)
    requires HoldsLast(slots, log)
    ensures Live(log) <= Rotated(slots, First(|log|)) && |Live(log)| == if |log| < 10 then |log| else 10
  {
    LiveIsWalkPrefix(slots, log);
  }

  /** What lies before a slot, by age and by number. */
  lemma RotatedSizes(slots: Slots, r: nat, c: nat)
    requires r < 10 && c < 10
    ensures var a := if c >= r then c - r else c + 10 - r;
            && a < |Rotated(slots, r)| == 10 && Rotated(slots, r)[a] == slots[c]
            && (c >= r ==> |Flat(slots[..c])| == |Flat(Rotated(slots, r)[..a])| + |Flat(slots[..r])|)
            && (c < r ==> |Flat(Rotated(slots, r)[..a])| == |Flat(slots[..c])| + |Flat(slots[r..])|)
  {
    if c >= r {
      assert Rotated(slots, r)[..c - r] == slots[..c][r..] && slots[..c][..r] == slots[..r];
      FlatSplit(slots[..c], r);
    } else {
      assert Rotated(slots, r)[..c + 10 - r] == slots[r..] + slots[..c];
      FlatAppend(slots[r..], slots[..c]);
    }
  }

  lemma AgeIsLive(n: nat, c: nat)
    requires c < 10 && c < n
    ensures AgeOf(n, c) < if n < 10 then n else 10
    ensures n < 10 ==> AgeOf(n, c) == c
  {
  }

  /** What lies before a slot by age, in `live`, and by number. */
  predicate Sides(slots: Slots, live: seq<Bytes>, c: nat, r: nat, a: nat) {
    && c < 10 && r < 10 && a < |live| && live[a] == slots[c]
    && (c >= r ==> |Flat(slots[..c])| == |Flat(live[..a])| + |Flat(slots[..r])|)
    && (c < r ==> |Flat(live[..a])| == |Flat(slots[..c])| + |Flat(slots[r..])|)
    && (r > 0 ==> |Flat(slots[..r])| > 0 && |Flat(slots[r..])| > 0)
  }

  lemma LiveSlotSides(s: Slotted, c: nat)
    requires s.Valid() && c < 10 && c < |s.dev.log|
    ensures Sides(s.slots, Live(s.dev.log), c, First(|s.dev.log|), AgeOf(|s.dev.log|, c))
  {
    var r, a := First(|s.dev.log|), AgeOf(|s.dev.log|, c);
    LiveIsRotated(s.slots, s.dev.log);
    AgeIsLive(|s.dev.log|, c);
    RotatedSizes(s.slots, r, c);
    PrefixOfPrefix(Live(s.dev.log), Rotated(s.slots, r), a);
    if r > 0 {
      NotEmptySizes(s, r);
    }
  }

  lemma PrefixOfPrefix(s: seq<Bytes>, t: seq<Bytes>, a: nat)
    requires s <= t && a < |s|
    ensures s[..a] == t[..a] && s[a] == t[a]
  {
  }

  /**
   A position `left` for byte `o` of the command in slot `c`, which is the one of age `a` in `live`: it
   is off by the size of the slots on the other side of the oldest command, which is in slot `r`, and
   right if and only if that is slot 0.
   */
  predicate OffByOtherSide(slots: Slots, live: seq<Bytes>, c: nat, o: nat, r: nat, a: nat, left: nat) {
    && c < 10 && r < 10 && a < |live| && live[a] == slots[c]
    && var there := |Flat(live[..a])| + o;
       && there < |Flat(live)| && Locate(live, there) == (a, o)
       && (c >= r ==> left == there + |Flat(slots[..r])|)
       && (c < r ==> left + |Flat(slots[r..])| == there)
       && (left == there <==> r == 0)
  }

  lemma SidesOff(s: Slotted, c: nat, o: nat, r: nat, a: nat)
    requires Sides(s.slots, Live(s.dev.log), c, r, a) && o < |s.slots[c]|
    ensures OffByOtherSide(s.slots, Live(s.dev.log), c, o, r, a, s.Seek(c, o).dev.seek.value)
  {
    PieceLocated(Live(s.dev.log), a, o);
    assert s.slots[..0] == [];
  }

  /** The ioctl counts slots and readers count by age: what that means for every live byte. */
  lemma SeekHitsExactly(s: Slotted, c: nat, o: nat, r: nat, a: nat)
    requires s.Valid() && c < 10 && c < |s.dev.log| && o < |s.slots[c]|
    requires r == First(|s.dev.log|) && a == AgeOf(|s.dev.log|, c)
    ensures OffByOtherSide(s.slots, Live(s.dev.log), c, o, r, a, s.Seek(c, o).dev.seek.value)
  {
    LiveSlotSides(s, c);
    SidesOff(s, c, o, r, a);
  }

  lemma PieceLocated(s: seq<Bytes>, a: nat, o: nat)
    requires a < |s| && o < |s[a]|
    ensures |Flat(s[..a])| + o < |Flat(s)| && Locate(s, |Flat(s[..a])| + o) == (a, o)
  {
    FlatPrefixStep(s, a);
    FlatSplit(s, a + 1);
    var at := Locate(s, |Flat(s[..a])| + o);
    LocateUnique(s, at.0, at.1, a, o);
  }

  /** In a full ring both sides of the oldest command have bytes. */
  lemma NotEmptySizes(s: Slotted, r: nat)
    requires s.Valid() && |s.dev.log| >= 10 && 0 < r < 10
    ensures |Flat(s.slots[..r])| > 0 && |Flat(s.slots[r..])| > 0
  {
    SlotNotEmpty(s, 0);
    SlotNotEmpty(s, r);
    assert Flat(s.slots[..r]) == s.slots[0] + Flat(s.slots[..r][1..]);
    assert Flat(s.slots[r..]) == s.slots[r] + Flat(s.slots[r..][1..]);
  }

  lemma SlotNotEmpty(s: Slotted, c: nat)
    requires s.Valid() && |s.dev.log| >= 10 && c < 10
    ensures s.slots[c] != []
  {
    var n := |s.dev.log|;
    LiveIsWalkPrefix(s.slots, s.dev.log);
    CommandsNotEmpty(s.dev);
    assert WalkOrder(s.slots, n)[Age(n, c)] == s.slots[c];
  }

  /** Whatever the ioctl left: the next read of a file that is not at the end starts there, and takes it away. */
  lemma SeekThenReadAnywhere(s: Slotted, c: nat, o: nat, pos: nat, count: nat)
    requires s.Valid() && s.FindsAll() && c <= 10 && pos < |s.Content()| && count > 0
    ensures var p, r := |Flat(s.slots[..c])| + o, s.Seek(c, o).Read(pos, count);
            && r.dev == Slotted(Dev(s.dev.log, s.dev.pending, None), s.slots)
            && (p < |s.Content()| ==> p < r.pos <= |s.Content()| && r.bytes == s.Content()[p..r.pos])
            && (p >= |s.Content()| ==> r.pos == p && r.bytes == [])
  {
    var p, s' := |Flat(s.slots[..c])| + o, Slotted(Dev(s.dev.log, s.dev.pending, None), s.slots);
    ReadFromStart(s.Seek(c, o), pos, count);
    if p < |s.Content()| {
      OneReadIsContent(s', p, count);
    }
  }

  // Reading.

  /** Where a read goes whose position find refuses: to slot 0, up to the newest command or the array's cut. */
  lemma RefusedRead(s: Slotted, p: nat, count: nat)
    requires s.Valid() && s.dev.seek.None? && 0 < p < |s.Content()|
    requires |Flat(s.slots)| % 0x1_0000_0000_0000_0000 <= p
    ensures var n := |s.dev.log|;
            var last := if n < 10 then n else if n % 10 == 0 then 10 else n % 10;
            && s.CanRead(p, count)
            && s.Read(p, count).bytes == Clip(Flat(s.slots[..last]), 0, count)
            && s.Read(p, count).pos == p + |s.Read(p, count).bytes|
  {
    SlotsAtZero(s.slots, s.dev.log);
  }

  /** Which calls the source defines: a last byte to look at, accesses in bounds, slots and positions that exist. */
  lemma EnabledExactly(w: World<Slotted>, op: Op)
    ensures op.OpWrite? ==> (Enabled(w, op) <==> |w.dev.dev.pending| + |op.chunk| > 0)
    ensures op.OpSeek? ==>
      (Enabled(w, op) <==> op.cmd <= 10 && |Flat(w.dev.slots[..op.cmd])| + op.offset < 0x8000_0000_0000_0000)
    ensures op.OpFlush? ==> Enabled(w, op)
    ensures op.OpRead? ==>
      (Enabled(w, op) <==>
         var pos := Pos(w.files, op.file);
         var p := if w.dev.dev.seek.Some? then w.dev.dev.seek.value else pos;
         pos < |w.dev.Content()| ==>
           Slotted(Dev(w.dev.dev.log, w.dev.dev.pending, None), w.dev.slots).CanRead(p, op.count))
  {
  }

  // Files.

  /** Only a read moves a file, and only the file it reads. */
  lemma StepMovesFile(w: World<Slotted>, op: Op, f: nat)
    requires Enabled(w, op)
    ensures op.OpWrite? || op.OpSeek? || op.OpFlush? ==> Step(w, op).0.files == w.files
    ensures op.OpRead? && op.file != f ==> Pos(Step(w, op).0.files, f) == Pos(w.files, f)
    ensures op.OpRead? && op.file == f ==> Step(w, op).1.Got? && Pos(Step(w, op).0.files, f) == Step(w, op).1.pos
  {
  }

  predicate ReadsFile(op: Op, f: nat) { op.OpRead? && op.file == f }

  /** So a file that is not read stays where it is, at 0 if it was just opened. */
  lemma {:induction false} UnreadFileStays(w: World<Slotted>, ops: seq<Op>, f: nat)
    requires Allowed(w, ops)
    requires forall k :: 0 <= k < |ops| ==> !ReadsFile(ops[k], f)
    ensures Pos(Exec(w, ops).0.files, f) == Pos(w.files, f)
    ensures f !in w.files ==> Pos(Exec(w, ops).0.files, f) == 0
  {
    if ops != [] {
      var init := ops[..|ops| - 1];
      UnreadFileStays(w, init, f);
      StepMovesFile(Exec(w, init).0, ops[|ops| - 1], f);
    }
  }

  /** And one that is read is where its last read left it, whatever came after. */
  lemma {:induction false} LastReadPlaces(w: World<Slotted>, ops: seq<Op>, f: nat, j: nat)
    requires Allowed(w, ops) && j < |ops| && ReadsFile(ops[j], f)
    requires forall k :: j < k < |ops| ==> !ReadsFile(ops[k], f)
    ensures var out := Exec(w, ops).1[j]; out.Got? && Pos(Exec(w, ops).0.files, f) == out.pos
  {
    var init := ops[..|ops| - 1];
    StepMovesFile(Exec(w, init).0, ops[|ops| - 1], f);
    if j < |init| {
      LastReadPlaces(w, init, f, j);
    }
  }

  /** What a call returns. */
  lemma {:induction false} Answers(w: World<Slotted>, ops: seq<Op>, k: nat)
    requires Allowed(w, ops) && k < |ops|
    ensures match ops[k]
            case OpWrite(chunk) => Exec(w, ops).1[k] == Wrote(|chunk|)
            case OpRead(_, count) => Exec(w, ops).1[k].Got? && |Exec(w, ops).1[k].bytes| <= count
            case OpSeek(_, _) => Exec(w, ops).1[k] == Done
            case OpFlush => Exec(w, ops).1[k] == Done
  {
    var init := ops[..|ops| - 1];
    if k < |init| {
      Answers(w, init, k);
      assert Exec(w, ops).1[k] == Exec(w, init).1[k];
    }
  }

  /** The bytes that the reads of one file returned, in order. */
  function BytesOf(ops: seq<Op>, outs: seq<Out>, f: nat): Bytes
    requires |ops| == |outs|
  {
    if ops == [] then []
    else
      var n := |ops| - 1;
      BytesOf(ops[..n], outs[..n], f) + if ReadsFile(ops[n], f) && outs[n].Got? then outs[n].bytes else []
  }

  /** Readers of other files do not disturb: each file gets the content from its position on, without gap. */
  lemma {:induction false} FilesReadApart(w: World<Slotted>, ops: seq<Op>, f: nat)
    requires Allowed(w, ops) && w.dev.dev.seek.None? && w.dev.FindsAll() && Pos(w.files, f) <= |w.dev.Content()|
    requires forall k :: 0 <= k < |ops| ==> ops[k].OpRead?
    ensures var (w', outs) := Exec(w, ops);
            && w'.dev == w.dev
            && Pos(w.files, f) <= Pos(w'.files, f) <= |w.dev.Content()|
            && BytesOf(ops, outs, f) == w.dev.Content()[Pos(w.files, f)..Pos(w'.files, f)]
  {
    if ops != [] {
      var init, op, outs := ops[..|ops| - 1], ops[|ops| - 1], Exec(w, ops).1;
      FilesReadApart(w, init, f);
      var mid := Exec(w, init).0;
      assert outs[..|init|] == Exec(w, init).1;
      StepMovesFile(mid, op, f);
      if ReadsFile(op, f) {
        SliceRead(w.dev, Pos(mid.files, f), op.count);
        SliceJoin(w.dev.Content(), Pos(w.files, f), Pos(mid.files, f), Exec(w, ops).1[|init|].pos);
      }
    }
  }

  /** A read without a pending seek, also of no bytes. */
  lemma SliceRead(s: Slotted, pos: nat, count: nat)
    requires s.dev.seek.None? && s.FindsAll() && pos <= |s.Content()|
    ensures var r := s.Read(pos, count);
            r.dev == s && pos <= r.pos <= |s.Content()| && r.bytes == s.Content()[pos..r.pos]
  {
    if count > 0 {
      OneReadIsContent(s, pos, count);
    } else {
      FindsAllRegular(s, pos, count);
    }
  }
}
