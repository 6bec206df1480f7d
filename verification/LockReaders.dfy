/**
 Readers under the lock protocol: the last look at total_size happens outside the mutex
 (aesd-char-driver/main.c:185).  If writers have changed the size meanwhile, it takes away a
 reader's bytes, or lets one deliver bytes that its position does not name.  For which devices and
 numbers of writers that can happen.
 */
module LockReaders {
  import opened Bytes
  import opened CircularBuffers
  import opened DeviceModel
  import opened Writes
  import opened Locking
  import opened LockOutcomes

  /** The thread has delivered exactly what a read of `base` returns, and its file is where that read leaves it. */
  predicate DeliversRead(base: Slotted, job: Job, pc: Pc) {
    job.Reader? && pc.Returned? && pc.outcome.Delivered? && Exactly(base, job, pc.outcome.bytes, pc.pos)
  }

  /** Thread `i` has delivered exactly what the serial device at its place returns. */
  ghost predicate ReadExactly(sys: System, s: State, i: nat)
    requires Threads(sys.jobs, s.order) && i < |s.pcs| == |sys.jobs|
  {
    exists k :: 0 <= k < |s.order| && s.order[k] == i
                && DeliversRead(Serial(sys.start, sys.jobs, s.order[..k]), sys.jobs[i], s.pcs[i])
  }

  predicate HasDelivered(sys: System, s: State, i: nat) {
    i < |s.pcs| == |sys.jobs| && sys.jobs[i].Reader? && s.pcs[i].Returned? && s.pcs[i].outcome.Delivered?
  }

  /** In every reachable state, every reader that has delivered has done so. */
  ghost predicate AllReadExactly(sys: System) {
    forall s: State, i: nat | Reachable(sys, s) && HasDelivered(sys, s, i) ::
      Threads(sys.jobs, s.order) && ReadExactly(sys, s, i)
  }

  /** In a calm system it is so. */
  lemma CalmReadsExactly(sys: System)
    requires sys.start.Valid() && Calm(sys)
    ensures AllReadExactly(sys)
  {
    forall s: State, i: nat | Reachable(sys, s) && HasDelivered(sys, s, i)
      ensures Threads(sys.jobs, s.order) && ReadExactly(sys, s, i)
    {
      var schedule: seq<nat> :| Schedulable(sys, schedule) && After(sys, schedule) == s;
      ReadersSeeSerialState(sys, schedule, i);
    }
  }

  // Otherwise there are writers with which it is not.

  const SHORT: Bytes := [NEWLINE]

  /** Two readers of one byte, the first at `pos`, and a writer for each chunk. */
  function JobsOf(pos: nat, chunks: seq<Bytes>): (jobs: seq<Job>)
    ensures |jobs| == |chunks| + 2 && jobs[0] == Reader(pos, 1) && jobs[1] == Reader(0, 1)
    ensures forall i :: 2 <= i < |jobs| ==> jobs[i] == Writer(chunks[i - 2])
  {
    [Reader(pos, 1), Reader(0, 1)] + seq(|chunks|, i requires 0 <= i < |chunks| => Writer(chunks[i]))
  }

  function FromTwo(m: nat): (s: set<nat>)
    ensures |s| == m && forall i :: i in s <==> 2 <= i < m + 2
  {
    if m == 0 then {} else FromTwo(m - 1) + {m + 1}
  }

  lemma CountWriters(pos: nat, chunks: seq<Bytes>)
    ensures |Writers(JobsOf(pos, chunks))| == |chunks|
  {
    assert Writers(JobsOf(pos, chunks)) == FromTwo(|chunks|);
  }

  /** While the mutex is free, the fields are those of the serial device. */
  lemma FreeIsSerial(sys: System, s: State, base: Slotted)
    requires sys.start.Valid() && Reachable(sys, s) && s.holder.None? && s.fields.Is(base)
    ensures Threads(sys.jobs, s.order) && Serial(sys.start, sys.jobs, s.order) == base
  {
    ReachableInv(sys, s);
  }

  /** A reader that came when the device was `base`, and delivered something else. */
  lemma OtherIsInexact(sys: System, s: State, i: nat, order: seq<nat>, base: Slotted)
    requires Inv(sys, s) && i < |s.pcs| && order + [i] <= s.order
    requires Threads(sys.jobs, order) && Serial(sys.start, sys.jobs, order) == base
    requires !DeliversRead(base, sys.jobs[i], s.pcs[i])
    ensures !ReadExactly(sys, s, i)
  {
    forall k | 0 <= k < |s.order| && s.order[k] == i
      ensures !DeliversRead(Serial(sys.start, sys.jobs, s.order[..k]), sys.jobs[i], s.pcs[i])
    {
      assert s.order[|order|] == (order + [i])[|order|] == i;
      assert k == |order|;
      assert s.order[..k] == (order + [i])[..k] == order;
    }
  }

  /** So if it came when the mutex was free and the fields were those of `base`. */
  lemma LaterIsInexact(sys: System, ready: State, s: State, base: Slotted)
    requires sys.start.Valid() && Reachable(sys, ready) && ready.holder.None? && ready.fields.Is(base)
    requires Reachable(sys, s) && 0 < |s.pcs| == |sys.jobs| && ready.order + [0] <= s.order
    requires !DeliversRead(base, sys.jobs[0], s.pcs[0])
    ensures Threads(sys.jobs, s.order) && !ReadExactly(sys, s, 0)
  {
    FreeIsSerial(sys, ready, base);
    ReachableInv(sys, s);
    OtherIsInexact(sys, s, 0, ready.order, base);
  }

  /** A read that starts inside the data copies something. */
  lemma OneByte(s: Slotted, p: nat)
    requires s.Valid() && 0 < |s.Content()| && (p < |s.Content()| || !s.Finds(p))
    ensures s.Copied(p, 1) != []
  {
    CutInside(s.dev.log);
    CommandsNotEmpty(s.dev);
    var run := FirstRun(s.dev.log);
    assert run != [] && run[0] != [];
    assert Flat(run) == run[0] + Flat(run[1..]);
  }

  // A full ring: while a command is added, the oldest one is no longer counted.

  /** The log after `w` short commands more, the first of which takes the tail. */
  function FilledLog(d: Dev, w: nat): (log: seq<Bytes>)
    ensures |log| == |d.log| + w
  {
    if w == 0 then d.log else d.log + [d.pending + SHORT] + seq(w - 1, _ => SHORT)
  }

  lemma WriteShort(d: Slotted)
    requires d.Valid()
    ensures d.Write(SHORT).Valid()
    ensures d.Write(SHORT).dev == Dev(d.dev.log + [d.dev.pending + SHORT], [], d.dev.seek)
  {
    WriteKeepsSlots(d, SHORT);
  }

  lemma FilledStep(d: Dev, w: nat)
    requires w > 0
    ensures FilledLog(Dev(d.log + [d.pending + SHORT], [], d.seek), w - 1) == FilledLog(d, w)
  {
    var log := d.log + [d.pending + SHORT];
    assert [] + SHORT == SHORT;
    if w == 1 {
      assert log + seq(0, _ => SHORT) == log;
    } else {
      assert log + [SHORT] + seq(w - 2, _ => SHORT) == log + seq(w - 1, _ => SHORT);
    }
  }

  /** Slots that hold the last entries of a log. */
  lemma {:induction false} SlotsFor(log: seq<Bytes>) returns (slots: Slots)
    ensures HoldsLast(slots, log)
  {
    if log == [] {
      slots := seq(SLOTS, _ => []);
    } else {
      var init, last := log[..|log| - 1], log[|log| - 1];
      slots := SlotsFor(init);
      HoldsLastAfterAdd(slots, init, last);
      slots := slots[|init| % SLOTS := last];
      assert init + [last] == log;
    }
  }

  /** Threads `f` to `g` are writers of short commands that have not begun. */
  predicate ShortFrom(sys: System, s: State, f: nat, g: nat) {
    && f <= g <= |s.pcs| == |sys.jobs|
    && forall j :: f <= j < g ==> s.pcs[j].AtSize? && sys.jobs[j] == Writer(SHORT)
  }

  /** All other threads are where they were. */
  predicate Untouched(s: State, s': State, f: nat, g: nat) {
    |s'.pcs| == |s.pcs| && forall j :: 0 <= j < |s.pcs| && !(f <= j < g) ==> s'.pcs[j] == s.pcs[j]
  }

  /** The first of them adds its command. */
  lemma FirstRuns(sys: System, s: State, f: nat, g: nat, base: Slotted) returns (s': State)
    requires Reachable(sys, s) && ShortFrom(sys, s, f, g) && f < g && s.holder.None?
    requires base.Valid() && s.fields.Is(base)
    ensures Reachable(sys, s') && ShortFrom(sys, s', f + 1, g) && s'.holder.None? && s'.fields.Is(base.Write(SHORT))
    ensures Untouched(s, s', f, f + 1)
  {
    s' := WriterRuns(sys, s, f, base);
  }

  /** One after the other, `w` of them do. */
  lemma {:induction false} WritersRun(sys: System, s: State, f: nat, w: nat, base: Slotted)
    returns (s': State, full: Slotted)
    requires Reachable(sys, s) && ShortFrom(sys, s, f, f + w) && s.holder.None? && base.Valid() && s.fields.Is(base)
    ensures Reachable(sys, s') && s'.holder.None? && Untouched(s, s', f, f + w)
    ensures s'.fields.Is(full) && full.Valid() && full.dev.log == FilledLog(base.dev, w)
    decreases w
  {
    if w == 0 {
      s', full := s, base;
    } else {
      WriteShort(base);
      FilledStep(base.dev, w);
      var first := FirstRuns(sys, s, f, f + w, base);
      s', full := WritersRun(sys, first, f + 1, w - 1, base.Write(SHORT));
    }
  }

  /** One step of a writer inside that does not finish. */
  lemma WriterGoes(sys: System, s: State, i: nat, base: Slotted) returns (s': State)
    requires Reachable(sys, s) && CanStep(sys, s, i) && s.holder == Some(i) && base.Valid()
    requires sys.jobs[i].Writer? && Doing(base, sys.jobs[i], s.pcs[i], s.fields) && ToGo(s.pcs[i]) > 0
    ensures var (f, next) := Act(sys.jobs[i], s.pcs[i], s.fields, false);
            && Reachable(sys, s') && s' == State(f, Some(i), s.pcs[i := next], s.order)
            && Inside(next) && !next.Entered? && Doing(base, sys.jobs[i], next, f)
  {
    var (f, next) := Act(sys.jobs[i], s.pcs[i], s.fields, false);
    StoresStep(base, sys.jobs[i], s.pcs[i], s.fields);
    s' := GoInside(sys, s, i, f, next);
  }

  /** A writer that finds a full ring comes to the point where the oldest command is no longer counted. */
  lemma WriterShrinks(sys: System, s: State, i: nat, base: Slotted) returns (s': State)
    requires Reachable(sys, s) && i < |s.pcs| == |sys.jobs| && s.pcs[i].AtSize? && s.holder.None?
    requires sys.jobs[i] == Writer(SHORT) && base.Valid() && s.fields.Is(base) && |base.dev.log| >= SLOTS
    ensures Reachable(sys, s') && s'.order == s.order + [i] && s'.fields.total < |base.Content()|
    ensures |s'.pcs| == |s.pcs| && forall j :: 0 <= j < |s.pcs| && j != i ==> s'.pcs[j] == s.pcs[j]
  {
    s' := LooksAndEnters(sys, s, i);
    s' := WriterGoes(sys, s', i, base);
    s' := WriterGoes(sys, s', i, base);
    s' := WriterGoes(sys, s', i, base);
    assert base.dev.log[|base.dev.log| - SLOTS] != [];
  }

  /** The reader comes to its last look at the size. */
  lemma ReaderLooks(sys: System, s: State, i: nat, base: Slotted) returns (s': State)
    requires Reachable(sys, s) && i < |s.pcs| == |sys.jobs| && s.pcs[i].AtCheck? && s.holder.None?
    requires sys.jobs[i].Reader? && s.fields.Is(base)
    requires sys.jobs[i].pos < |base.Content()| && base.CanRead(sys.jobs[i].pos, sys.jobs[i].count)
    ensures Reachable(sys, s') && s'.holder.None? && s'.order == s.order + [i] && s'.fields.Is(Apply(base, sys.jobs[i]))
    ensures var p := base.dev.Start(sys.jobs[i].pos);
            s'.pcs == s.pcs[i := Advancing(p, base.Copied(p, sys.jobs[i].count))]
  {
    s' := ReaderRuns(sys, s, i, base);
    s' := Go(sys, s', i);
  }

  /** On a full ring, writer `g` takes the bytes of reader 0, which is at the last byte of the data. */
  lemma LosingRun(sys: System, s: State, g: nat, base: Slotted) returns (s': State)
    requires Reachable(sys, s) && 0 < g < |s.pcs| == |sys.jobs| && s.holder.None?
    requires s.pcs[0].AtCheck? && s.pcs[g].AtSize?
    requires base.Valid() && s.fields.Is(base) && base.dev.seek.None? && |base.dev.log| >= SLOTS
    requires 0 < |base.Content()| && sys.jobs[0] == Reader(|base.Content()| - 1, 1) && sys.jobs[g] == Writer(SHORT)
    ensures Reachable(sys, s') && |s'.pcs| == |s.pcs| && s'.pcs[0] == Returned(Delivered([]), |base.Content()| - 1)
    ensures s.order + [0] <= s'.order
  {
    var looking := ReaderLooks(sys, s, 0, base);
    var shrunk := WriterShrinks(sys, looking, g, base);
    s' := Go(sys, shrunk, 0);
  }

  /** The first `w` writers have filled the ring, and nobody else has begun. */
  lemma FullWritten(sys: System, w: nat) returns (s: State, full: Slotted)
    requires sys.start.Valid()
    requires 2 + w <= |sys.jobs| && forall j :: 2 <= j < |sys.jobs| ==> sys.jobs[j] == Writer(SHORT)
    ensures Reachable(sys, s) && s.holder.None? && |s.pcs| == |sys.jobs|
    ensures s.fields.Is(full) && full.Valid() && full.dev.log == FilledLog(sys.start.dev, w)
    ensures forall j :: 0 <= j < |s.pcs| && !(2 <= j < 2 + w) ==> s.pcs[j] == InitialPc(sys.jobs[j])
  {
    var first := Start(sys);
    assert first.fields.Is(sys.start);
    s, full := WritersRun(sys, first, 2, w, sys.start);
  }

  /** And reader 1 has taken a pending seek away. */
  lemma SeekTaken(sys: System, s: State, full: Slotted) returns (s': State, base: Slotted)
    requires Reachable(sys, s) && 1 < |s.pcs| == |sys.jobs| && s.holder.None? && s.pcs[1].AtCheck?
    requires sys.jobs[1] == Reader(0, 1) && full.Valid() && s.fields.Is(full) && 0 < |full.Content()|
    ensures Reachable(sys, s') && s'.holder.None? && s'.fields.Is(base)
    ensures base == Slotted(Dev(full.dev.log, full.dev.pending, None), full.slots) && base.Valid()
    ensures |s'.pcs| == |s.pcs| && forall j :: 0 <= j < |s.pcs| && j != 1 ==> s'.pcs[j] == s.pcs[j]
  {
    base := Slotted(Dev(full.dev.log, full.dev.pending, None), full.slots);
    assert base == Apply(full, Reader(0, 1));
    s' := ReaderLooks(sys, s, 1, full);
  }

  lemma FullHasContent(s: Slotted)
    requires s.Valid() && s.dev.log != []
    ensures 0 < |s.Content()|
  {
    CutInside(s.dev.log);
    CommandsNotEmpty(s.dev);
    var live := Live(s.dev.log);
    assert Flat(live) == live[0] + Flat(live[1..]);
  }

  /** Writers enough to fill the ring of a device, and one more; reader 0 will be at the last byte. */
  lemma FullSystem(d: Dev, m: nat) returns (sys: System, w: nat)
    requires d.Valid() && m > 0 && |d.log| + m > SLOTS
    ensures sys.start.Valid() && sys.start.dev == d && |Writers(sys.jobs)| == m
    ensures |FilledLog(d, w)| >= SLOTS && 2 + w < |sys.jobs|
    ensures sys.jobs[0].Reader? && sys.jobs[0].count == 1 && sys.jobs[1] == Reader(0, 1)
    ensures sys.jobs[0].pos == if LiveSize(FilledLog(d, w)) == 0 then 0 else LiveSize(FilledLog(d, w)) - 1
    ensures forall j :: 2 <= j < |sys.jobs| ==> sys.jobs[j] == Writer(SHORT)
  {
    var slots := SlotsFor(d.log);
    var chunks := seq(m, _ => SHORT);
    w := if |d.log| < SLOTS then SLOTS - |d.log| else 0;
    var size := LiveSize(FilledLog(d, w));
    var pos := if size == 0 then 0 else size - 1;
    CountWriters(pos, chunks);
    sys := System(Slotted(d, slots), [], JobsOf(pos, chunks));
  }

  /** So with more commands than slots a reader can lose its bytes, whatever the device holds. */
  lemma BytesLost(d: Dev, m: nat) returns (sys: System, s: State)
    requires d.Valid() && m > 0 && |d.log| + m > SLOTS
    ensures sys.start.Valid() && sys.start.dev == d && |Writers(sys.jobs)| == m
    ensures Reachable(sys, s) && HasDelivered(sys, s, 0) && s.pcs[0].outcome.bytes == []
    ensures Threads(sys.jobs, s.order) && !ReadExactly(sys, s, 0)
  {
    var w, ready, full, base;
    sys, w := FullSystem(d, m);
    ready, full := FullWritten(sys, w);
    FullHasContent(full);
    ready, base := SeekTaken(sys, ready, full);
    s := LosingRun(sys, ready, 2 + w, base);
    OneByte(base, |base.Content()| - 1);
    LaterIsInexact(sys, ready, s, base);
  }

  // A pending seek behind the data: while the reader looks away, the data overtakes it.

  /** Slots with nothing in them but a log that fits. */
  function Tight(log: seq<Bytes>): Slots
    requires |log| <= SLOTS
  {
    log + seq(SLOTS - |log|, _ => [])
  }

  lemma TightHolds(log: seq<Bytes>)
    requires |log| <= SLOTS
    ensures HoldsLast(Tight(log), log) && |Flat(Tight(log))| == |Flat(log)|
  {
    var none: seq<Bytes> := seq(SLOTS - |log|, _ => []);
    FlatEmpties(none);
    FlatAppend(log, none);
  }

  /** A command of more than `p` bytes. */
  function Long(p: nat): (c: Bytes)
    ensures |c| > p && IsCommand(c)
  {
    seq(p, _ => 0) + [NEWLINE]
  }

  /** Reader 0 copies from behind the data, writer `f` adds a long command, and the bytes are delivered. */
  lemma OvertakingRun(sys: System, s: State, f: nat, base: Slotted, p: nat) returns (s': State)
    requires Reachable(sys, s) && 0 < f < |s.pcs| == |sys.jobs| && s.holder.None?
    requires s.pcs[0].AtCheck? && s.pcs[f].AtSize?
    requires sys.jobs[0] == Reader(0, 1) && sys.jobs[f] == Writer(Long(p))
    requires base.Valid() && s.fields.Is(base) && base.dev.seek == Some(p) && !base.Finds(p)
    requires 0 < |base.Content()| <= p && |base.dev.log| < SLOTS
    ensures Reachable(sys, s') && |s'.pcs| == |s.pcs| && s.order + [0] <= s'.order
    ensures s'.pcs[0].Returned? && s'.pcs[0].outcome.Delivered? && s'.pcs[0].outcome.bytes != []
  {
    var looking := ReaderLooks(sys, s, 0, base);
    var next := Apply(base, Reader(0, 1));
    CommandIffLast(base.dev.pending, Long(p));
    SizeAfterAdd(base.dev.log, base.dev.pending + Long(p));
    var written := WriterRuns(sys, looking, f, next);
    OneByte(base, p);
    s' := Go(sys, written, 0);
  }

  /** The device just before: one command at least, all of it before the seek's position. */
  lemma BehindReady(d: Dev, m: nat, p: nat) returns (sys: System, s: State, f: nat, base: Slotted)
    requires d.Valid() && m > 0 && |d.log| + m <= SLOTS && !SeekHarmless(d, m) && d.seek == Some(p)
    ensures sys.start.Valid() && sys.start.dev == d && |Writers(sys.jobs)| == m && sys.jobs[0] == Reader(0, 1)
    ensures 0 < f < |sys.jobs| && sys.jobs[f] == Writer(Long(p))
    ensures Reachable(sys, s) && |s.pcs| == |sys.jobs| && s.holder.None? && s.pcs[0].AtCheck? && s.pcs[f].AtSize?
    ensures base.Valid() && s.fields.Is(base) && base.dev.seek == Some(p)
    ensures base.dev.log != [] && |base.dev.log| < SLOTS
    ensures |Flat(base.dev.log)| <= p && |Flat(base.slots)| == |Flat(base.dev.log)|
  {
    TightHolds(d.log);
    base := Slotted(d, Tight(d.log));
    if d.log != [] {
      var chunks := [Long(p)] + seq(m - 1, _ => SHORT);
      CountWriters(0, chunks);
      sys, f := System(base, [], JobsOf(0, chunks)), 2;
      s := Start(sys);
      assert Live(d.log) == d.log;
    } else {
      var chunks := [SHORT, Long(p)] + seq(m - 2, _ => SHORT);
      CountWriters(0, chunks);
      sys, f := System(base, [], JobsOf(0, chunks)), 3;
      s := Start(sys);
      s := WriterRuns(sys, s, 2, base);
      WriteShort(base);
      TightWrite(base.slots, d.pending + SHORT);
      base := base.Write(SHORT);
    }
  }

  /** The first command of an empty ring with empty slots. */
  lemma TightWrite(slots: Slots, e: Bytes)
    requires slots == Tight([])
    ensures slots[0 := e] == Tight([e]) && |Flat(slots[0 := e])| == |Flat([e])| == |e|
  {
    TightHolds([e]);
    FlatOne(e);
  }

  /** Find refuses a position behind the data, if dead slots are empty. */
  lemma BehindIsRefused(base: Slotted, p: nat)
    requires base.Valid() && base.dev.log != [] && |base.dev.log| < SLOTS
    requires |Flat(base.dev.log)| <= p && |Flat(base.slots)| == |Flat(base.dev.log)|
    ensures 0 < |base.Content()| <= p && !base.Finds(p)
  {
    FullHasContent(base);
    assert Live(base.dev.log) == base.dev.log;
  }

  /** So a seek that is not harmless can make a reader deliver bytes that are not at its position. */
  lemma SeekOvertaken(d: Dev, m: nat) returns (sys: System, s: State)
    requires d.Valid() && m > 0 && |d.log| + m <= SLOTS && !SeekHarmless(d, m)
    ensures sys.start.Valid() && sys.start.dev == d && |Writers(sys.jobs)| == m
    ensures Reachable(sys, s) && HasDelivered(sys, s, 0) && s.pcs[0].outcome.bytes != []
    ensures Threads(sys.jobs, s.order) && !ReadExactly(sys, s, 0)
  {
    var ready, f, base;
    sys, ready, f, base := BehindReady(d, m, d.seek.value);
    BehindIsRefused(base, d.seek.value);
    s := OvertakingRun(sys, ready, f, base, d.seek.value);
    LaterIsInexact(sys, ready, s, base);
  }

  /**
   What readers deliver is exactly what the serial device returns, for all slot contents, all readers
   and all `m` writers, if and only if nobody writes, or the ring has room for all and a pending seek
   is harmless.
   */
  lemma ReadersExactly(d: Dev, m: nat)
    requires d.Valid()
    ensures (forall sys: System | sys.start.Valid() && sys.start.dev == d && |Writers(sys.jobs)| == m ::
               AllReadExactly(sys))
            <==> CalmFor(d, m)
  {
    if CalmFor(d, m) {
      forall sys: System | sys.start.Valid() && sys.start.dev == d && |Writers(sys.jobs)| == m
        ensures AllReadExactly(sys)
      {
        CalmReadsExactly(sys);
      }
    } else {
      var sys, s;
      if |d.log| + m > SLOTS {
        sys, s := BytesLost(d, m);
      } else {
        sys, s := SeekOvertaken(d, m);
      }
      assert !AllReadExactly(sys);
    }
  }
}
