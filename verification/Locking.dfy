/**
 The lock protocol of aesd_read and aesd_write under every interleaving
 (aesd-char-driver/main.c:76-100, 157-191, 205, 215-277).

 Each thread makes one call.  A step is what lies between two points at which another thread
 can interfere: the writer's first look at the size of the partial entry, the first
 mutex_is_locked, mutex_lock, the separate accesses to the shared fields, mutex_unlock, the second
 mutex_is_locked, and the reader's last look at the size.  A thread that is about to leave its
 buffers makes no step.
 */
module Locking {
  import opened Bytes
  import opened CircularBuffers
  import opened DeviceModel
  import opened Writes

  /** One thread's call; a reader has its own open file, at position `pos`. */
  datatype Job = Writer(chunk: Bytes) | Reader(pos: nat, count: nat)

  /** The device at the start, what the partial entry holds if it is not in use, and the calls. */
  datatype System = System(start: Slotted, stale: Bytes, jobs: seq<Job>)

  datatype Outcome = NoMem | WroteCount(count: nat) | Delivered(bytes: Bytes)

  /** Where a thread is. */
  datatype Pc =
    | AtSize                             // writer: before the size of the partial entry is read
    | AtCheck(tail: nat)                 // `tmp` has room for the chunk and `tail` bytes; before mutex_is_locked
    | AtLock(tail: nat)                  // it saw the mutex free; before mutex_lock
    | Entered(tail: nat)                 // holds the mutex
    | Joined(data: Bytes)                // writer: partial entry and chunk are joined
    | Cleared(data: Bytes)               // writer: `partial` is false, the command not yet added
    | Shrunk(data: Bytes)                // writer: the oldest command is no longer counted
    | Grown(data: Bytes)                 // writer: the new one is
    | Stored                             // writer: before mutex_unlock
    | Ended(pos: nat)                    // reader: at end of data, before mutex_unlock
    | Placed(pos: nat, count: nat)       // reader: start position chosen, seek consumed
    | Copied(pos: nat, bytes: Bytes)     // reader: before mutex_unlock
    | Unlocked(pos: nat, bytes: Bytes)   // before the second mutex_is_locked
    | Advancing(pos: nat, bytes: Bytes)  // reader: before the last look at total_size
    | Refused                            // the first check failed: -ENOMEM
    | Returned(outcome: Outcome, pos: nat) // with the reader's file at `pos`; 0 for a writer

  predicate Inside(pc: Pc) {
    || pc.Entered? || pc.Joined? || pc.Cleared? || pc.Shrunk? || pc.Grown? || pc.Stored?
    || pc.Ended? || pc.Placed? || pc.Copied?
  }

  /** The thread has had the mutex. */
  predicate HasEntered(pc: Pc) { !pc.AtSize? && !pc.AtCheck? && !pc.AtLock? && !pc.Refused? }

  /** The fields that the threads share. */
  datatype Shared = Shared(log: seq<Bytes>, slots: Slots, partial: bool, partialEntry: Bytes,
                           seek: Option<nat>, total: int)
  {
    function Tail(): Bytes { if partial then partialEntry else [] }

    function View(): Slotted { Slotted(Dev(log, Tail(), seek), slots) }

    /** They are those of the device `s`, cached size included. */
    predicate Is(s: Slotted) { View() == s && total == LiveSize(log) }
  }

  /** The shared fields, the mutex, the threads; `order` records in which order they got the mutex. */
  datatype State = State(fields: Shared, holder: Option<nat>, pcs: seq<Pc>, order: seq<nat>)

  /** `tmp` has room for the chunk and for a partial entry of the size first seen. */
  predicate Fits(f: Shared, chunk: Bytes, tail: nat) {
    f.partial ==> |f.partialEntry| + |chunk| <= |chunk| + tail
  }

  /** The next step stays inside its buffers: see `AesdDevice.Write` and `AesdDevice.Read`. */
  predicate Defined(job: Job, pc: Pc, f: Shared) {
    match pc
    case Entered(tail) => job.Writer? ==> Fits(f, job.chunk, tail) && f.Tail() + job.chunk != []
    case Placed(pos, count) => f.View().CanRead(pos, count)
    case _ => true
  }

  /** What one step does to the shared fields, and where it leads; `free` is what mutex_is_locked denies. */
  function Act(job: Job, pc: Pc, f: Shared, free: bool): (Shared, Pc) {
    match pc
    case AtSize => (f, AtCheck(|f.partialEntry|))
    case AtCheck(tail) => (f, if free then AtLock(tail) else Refused)
    case AtLock(tail) => (f, Entered(tail))
    case Entered(tail) =>
      if job.Writer? then (f, Joined(f.Tail() + job.chunk))
      else if job.pos >= f.total then (f, Ended(job.pos))
      else (f.(seek := None), Placed(f.View().dev.Start(job.pos), job.count))
    case Joined(data) =>
      if IsCommand(data) then (f.(partial := false), Cleared(data))
      else (f.(partial := true, partialEntry := data), Stored)
    case Cleared(data) =>
      if |f.log| >= SLOTS then (f.(total := f.total - |f.slots[|f.log| % SLOTS]|), Shrunk(data))
      else (f.(total := f.total + |data|), Grown(data))
    case Shrunk(data) => (f.(total := f.total + |data|), Grown(data))
    case Grown(data) => (f.(log := f.log + [data], slots := f.slots[|f.log| % SLOTS := data]), Stored)
    case Stored => (f, Unlocked(0, []))
    case Ended(pos) => (f, Returned(Delivered([]), pos))
    case Placed(pos, count) => (f, Copied(pos, f.View().Copied(pos, count)))
    case Copied(pos, bytes) => (f, Unlocked(pos, bytes))
    case Unlocked(pos, bytes) =>
      if !free then (f, Returned(NoMem, pos))
      else if job.Writer? then (f, Returned(WroteCount(|job.chunk|), pos))
      else (f, Advancing(pos, bytes))
    case Advancing(pos, bytes) =>
      (f, if pos < f.total then Returned(Delivered(bytes), pos + |bytes|) else Returned(Delivered([]), pos))
    case Refused => (f, pc)
    case Returned(_, _) => (f, pc)
  }

  /** Only mutex_lock can block. */
  predicate CanStep(sys: System, s: State, i: nat) {
    && i < |s.pcs| == |sys.jobs|
    && !s.pcs[i].Refused? && !s.pcs[i].Returned? && (s.pcs[i].AtLock? ==> s.holder.None?)
    && Defined(sys.jobs[i], s.pcs[i], s.fields)
  }

  /** Entering takes the mutex, leaving frees it. */
  function Step(sys: System, s: State, i: nat): State
    requires CanStep(sys, s, i)
  {
    var pc := s.pcs[i];
    var (f, next) := Act(sys.jobs[i], pc, s.fields, s.holder.None?);
    State(f,
          if pc.AtLock? then Some(i) else if Inside(pc) && !Inside(next) then None else s.holder,
          s.pcs[i := next],
          if pc.AtLock? then s.order + [i] else s.order)
  }

  function InitialPc(job: Job): Pc { if job.Writer? then AtSize else AtCheck(0) }

  function Initial(sys: System): State {
    var d := sys.start.dev;
    var tail := if d.pending != [] then d.pending else sys.stale;
    State(Shared(d.log, sys.start.slots, d.pending != [], tail, d.seek, LiveSize(d.log)), None,
          seq(|sys.jobs|, i requires 0 <= i < |sys.jobs| => InitialPc(sys.jobs[i])), [])
  }

  /** A schedule names the thread that makes the next step. */
  predicate Schedulable(sys: System, schedule: seq<nat>)
    decreases |schedule|, 0
  {
    schedule == []
    || (Schedulable(sys, schedule[..|schedule| - 1])
        && CanStep(sys, After(sys, schedule[..|schedule| - 1]), schedule[|schedule| - 1]))
  }

  function After(sys: System, schedule: seq<nat>): (s: State)
    requires Schedulable(sys, schedule)
    ensures |s.pcs| == |sys.jobs|
    decreases |schedule|, 1
  {
    if schedule == [] then Initial(sys)
    else Step(sys, After(sys, schedule[..|schedule| - 1]), schedule[|schedule| - 1])
  }

  // The serial device: one whole call after the other.

  function Apply(d: Slotted, job: Job): Slotted {
    match job
    case Writer(chunk) => d.Write(chunk)
    case Reader(pos, count) => d.Read(pos, count).dev
  }

  predicate Threads(jobs: seq<Job>, order: seq<nat>) { forall k :: 0 <= k < |order| ==> order[k] < |jobs| }

  predicate NoneTwice(order: seq<nat>) { forall j, k :: 0 <= j < k < |order| ==> order[j] != order[k] }

  function Serial(d: Slotted, jobs: seq<Job>, order: seq<nat>): Slotted
    requires Threads(jobs, order)
  {
    if order == [] then d
    else Apply(Serial(d, jobs, order[..|order| - 1]), jobs[order[|order| - 1]])
  }

  lemma {:induction false} SerialValid(d: Slotted, jobs: seq<Job>, order: seq<nat>)
    requires d.Valid() && Threads(jobs, order)
    ensures Serial(d, jobs, order).Valid()
  {
    if order != [] {
      SerialValid(d, jobs, order[..|order| - 1]);
      var before, job := Serial(d, jobs, order[..|order| - 1]), jobs[order[|order| - 1]];
      if job.Writer? {
        WriteKeepsSlots(before, job.chunk);
      }
    }
  }

  // When the content cannot shrink.

  function Writers(jobs: seq<Job>): set<nat> { set i: nat | i < |jobs| && jobs[i].Writer? }

  /** The ring has room for all that the writers may add. */
  predicate Roomy(sys: System) {
    Writers(sys.jobs) == {} || |sys.start.dev.log| + |Writers(sys.jobs)| <= SLOTS
  }

  /**
   A pending seek cannot be overtaken by the data: it is inside, or nothing is there before the only
   writer, or the first command will be longer.
   */
  predicate SeekHarmless(d: Dev, m: nat) {
    d.seek.None? || if d.log == [] then m <= 1 || d.seek.value <= |d.pending| else d.seek.value < |d.Content()|
  }

  /** With `m` writers, no reader can tell that its last look at the size is late: see `LockReaders.ReadersExactly`. */
  predicate CalmFor(d: Dev, m: nat) { m == 0 || (|d.log| + m <= SLOTS && SeekHarmless(d, m)) }

  predicate Calm(sys: System) { CalmFor(sys.start.dev, |Writers(sys.jobs)|) }

  function WritersIn(jobs: seq<Job>, order: seq<nat>): (w: set<nat>)
    requires Threads(jobs, order)
    ensures forall i :: i in w ==> i in order && i in Writers(jobs)
  {
    if order == [] then {}
    else WritersIn(jobs, order[..|order| - 1]) + if jobs[order[|order| - 1]].Writer? then {order[|order| - 1]} else {}
  }

  lemma {:induction false} SubsetSmaller(a: set<nat>, b: set<nat>)
    requires a <= b
    ensures |a| <= |b|
  {
    if x :| x in a {
      SubsetSmaller(a - {x}, b - {x});
    }
  }

  lemma ApplyLength(d: Slotted, job: Job)
    ensures |Apply(d, job).dev.log| <= |d.dev.log| + if job.Writer? then 1 else 0
  {
  }

  lemma NewThread(order: seq<nat>)
    requires NoneTwice(order) && order != []
    ensures NoneTwice(order[..|order| - 1]) && order[|order| - 1] !in order[..|order| - 1]
  {
  }

  /** The serial log has at most one entry more per writer. */
  lemma {:induction false} LogLength(sys: System, order: seq<nat>)
    requires Threads(sys.jobs, order) && NoneTwice(order)
    ensures |Serial(sys.start, sys.jobs, order).dev.log| <= |sys.start.dev.log| + |WritersIn(sys.jobs, order)|
  {
    if order != [] {
      var init, i := order[..|order| - 1], order[|order| - 1];
      NewThread(order);
      LogLength(sys, init);
      ApplyLength(Serial(sys.start, sys.jobs, init), sys.jobs[i]);
      assert i !in WritersIn(sys.jobs, init);
    }
  }

  /** With room for all, a writer never finds a full ring, and the content never gets shorter. */
  lemma SerialGrows(sys: System, order: seq<nat>)
    requires Threads(sys.jobs, order) && NoneTwice(order) && order != [] && Roomy(sys)
    ensures var before := Serial(sys.start, sys.jobs, order[..|order| - 1]);
            && (sys.jobs[order[|order| - 1]].Writer? ==> |before.dev.log| < SLOTS)
            && |before.Content()| <= |Serial(sys.start, sys.jobs, order).Content()|
  {
    var init, i := order[..|order| - 1], order[|order| - 1];
    var before := Serial(sys.start, sys.jobs, init);
    if sys.jobs[i].Writer? {
      assert i in Writers(sys.jobs) && i !in init;
      LogLength(sys, init);
      SubsetSmaller(WritersIn(sys.jobs, init) + {i}, Writers(sys.jobs));
      SizeAfterAdd(before.dev.log, before.dev.pending + sys.jobs[i].chunk);
    }
  }

  lemma {:induction false} SerialPrefixShorter(sys: System, order: seq<nat>, k: nat)
    requires Threads(sys.jobs, order) && NoneTwice(order) && k <= |order| && Roomy(sys)
    ensures |Serial(sys.start, sys.jobs, order[..k]).Content()| <= |Serial(sys.start, sys.jobs, order).Content()|
  {
    if k == |order| {
      assert order[..k] == order;
    } else {
      SerialGrows(sys, order);
      SerialPrefixShorter(sys, order[..|order| - 1], k);
      assert order[..|order| - 1][..k] == order[..k];
    }
  }

  // What becomes of a seek that is pending at the start.

  lemma {:induction false} SerialSeek(d: Slotted, jobs: seq<Job>, order: seq<nat>)
    requires Threads(jobs, order)
    ensures var r := Serial(d, jobs, order).dev; r.seek.None? || r.seek == d.dev.seek
  {
    if order != [] {
      SerialSeek(d, jobs, order[..|order| - 1]);
    }
  }

  /** The first command of an empty ring is longer than the tail it began with. */
  lemma {:induction false} FirstCommandLonger(d: Slotted, jobs: seq<Job>, order: seq<nat>)
    requires d.Valid() && d.dev.log == [] && Threads(jobs, order)
    ensures var r := Serial(d, jobs, order).dev;
            if r.log == [] then |r.pending| >= |d.dev.pending| else |r.log[0]| > |d.dev.pending|
  {
    if order != [] {
      var init, job := order[..|order| - 1], jobs[order[|order| - 1]];
      FirstCommandLonger(d, jobs, init);
      SerialValid(d, jobs, init);
      if job.Writer? {
        CommandIffLast(Serial(d, jobs, init).dev.pending, job.chunk);
      }
    }
  }

  /** Two writers in the order are two writers. */
  lemma TwoWriters(sys: System, order: seq<nat>, k: nat, j: nat)
    requires Threads(sys.jobs, order) && NoneTwice(order) && k <= j < |order|
    requires WritersIn(sys.jobs, order[..k]) != {} && sys.jobs[order[j]].Writer?
    ensures |Writers(sys.jobs)| >= 2
  {
    var x :| x in WritersIn(sys.jobs, order[..k]);
    assert x != order[j];
    SubsetSmaller({x, order[j]}, Writers(sys.jobs));
  }

  /** In a calm system only readers come after one that starts behind the data. */
  lemma NobodyWritesAfter(sys: System, order: seq<nat>, k: nat, p: nat, j: nat)
    requires sys.start.Valid() && Threads(sys.jobs, order) && NoneTwice(order) && Calm(sys) && k <= j < |order|
    requires Starting(Serial(sys.start, sys.jobs, order[..k]), sys.jobs[order[k]], p)
    requires p >= |Serial(sys.start, sys.jobs, order[..k]).Content()|
    ensures sys.jobs[order[j]].Reader?
  {
    var base, d := Serial(sys.start, sys.jobs, order[..k]), sys.start.dev;
    if sys.jobs[order[j]].Writer? {
      assert order[j] in Writers(sys.jobs);
      SerialSeek(sys.start, sys.jobs, order[..k]);
      LogLength(sys, order[..k]);
      if d.log == [] {
        FirstCommandLonger(sys.start, sys.jobs, order[..k]);
        TwoWriters(sys, order, k, j);
        FirstOfLive(sys, order[..k]);
      } else {
        SerialPrefixShorter(sys, order[..k], 0);
      }
    }
  }

  lemma FirstOfLive(sys: System, order: seq<nat>)
    requires Threads(sys.jobs, order) && NoneTwice(order) && sys.start.dev.log == []
    requires |Writers(sys.jobs)| <= SLOTS && Serial(sys.start, sys.jobs, order).dev.log != []
    ensures var r := Serial(sys.start, sys.jobs, order); |r.Content()| >= |r.dev.log[0]|
  {
    var log := Serial(sys.start, sys.jobs, order).dev.log;
    LogLength(sys, order);
    SubsetSmaller(WritersIn(sys.jobs, order), Writers(sys.jobs));
    assert Live(log) == log;
  }

  /** Readers leave the log as it is. */
  lemma {:induction false} ReadersKeepLog(sys: System, order: seq<nat>, k: nat)
    requires Threads(sys.jobs, order) && k <= |order|
    requires forall j :: k <= j < |order| ==> sys.jobs[order[j]].Reader?
    ensures Serial(sys.start, sys.jobs, order).dev.log == Serial(sys.start, sys.jobs, order[..k]).dev.log
  {
    if k == |order| {
      assert order[..k] == order;
    } else {
      var init := order[..|order| - 1];
      ReadersKeepLog(sys, init, k);
      assert init[..k] == order[..k];
    }
  }

  // What every interleaving keeps.

  /** The mutex is held exactly by the thread that is inside. */
  predicate Exclusive(s: State) {
    forall i :: 0 <= i < |s.pcs| ==> (Inside(s.pcs[i]) <==> s.holder == Some(i))
  }

  /** The order has every thread that got the mutex, once; the holder is the last. */
  predicate Ordered(jobs: seq<Job>, s: State) {
    && Threads(jobs, s.order)
    && NoneTwice(s.order)
    && (forall i :: 0 <= i < |s.pcs| ==> (HasEntered(s.pcs[i]) <==> i in s.order))
    && (s.holder.Some? ==> s.order != [] && s.order[|s.order| - 1] == s.holder.value < |s.pcs|)
  }

  /** A command is being added: the fields are those of `base`, but for the partial entry and the size. */
  predicate Adding(base: Slotted, job: Job, data: Bytes, f: Shared) {
    && job.Writer? && data == base.dev.pending + job.chunk && IsCommand(data)
    && f.log == base.dev.log && f.slots == base.slots && f.seek == base.dev.seek && !f.partial
  }

  /** What the holder at `pc` has done so far to the device `base` that it found. */
  predicate Doing(base: Slotted, job: Job, pc: Pc, f: Shared) {
    match pc
    case Entered(_) => f.Is(base)
    case Joined(data) => job.Writer? && f.Is(base) && data == base.dev.pending + job.chunk
    case Cleared(data) => Adding(base, job, data, f) && f.total == LiveSize(f.log)
    case Shrunk(data) =>
      Adding(base, job, data, f) && |f.log| >= SLOTS && f.total == LiveSize(f.log) - |f.log[|f.log| - SLOTS]|
    case Grown(data) => Adding(base, job, data, f) && f.total == LiveSize(f.log + [data])
    case Stored => job.Writer? && f.Is(Apply(base, job))
    case Ended(pos) => job.Reader? && pos == job.pos >= |base.Content()| && f.Is(base)
    case Placed(pos, count) => Starting(base, job, pos) && count == job.count && f.Is(Apply(base, job))
    case Copied(pos, bytes) => Faithful(base, job, pos, bytes) && f.Is(Apply(base, job))
    case _ => false
  }

  /** A reader past the end-of-data check, at its start position. */
  predicate Starting(base: Slotted, job: Job, pos: nat) {
    job.Reader? && job.pos < |base.Content()| && pos == base.dev.Start(job.pos)
  }

  /** What such a reader copies from `base`. */
  predicate Faithful(base: Slotted, job: Job, pos: nat, bytes: Bytes) {
    Starting(base, job, pos) && base.CanRead(job.pos, job.count) && bytes == base.Copied(pos, job.count)
  }

  /** The device at which the last thread to get the mutex started. */
  function Base(sys: System, s: State): Slotted
    requires Threads(sys.jobs, s.order) && s.order != []
  {
    Serial(sys.start, sys.jobs, s.order[..|s.order| - 1])
  }

  /** The shared fields are those of the serial run in the order of the mutex, up to the holder's unfinished call. */
  predicate Current(sys: System, s: State)
    requires Ordered(sys.jobs, s) && |s.pcs| == |sys.jobs|
  {
    if s.holder.None? then s.fields.Is(Serial(sys.start, sys.jobs, s.order))
    else Doing(Base(sys, s), sys.jobs[s.holder.value], s.pcs[s.holder.value], s.fields)
  }

  /** Exactly what a read of `base` returns. */
  predicate Exactly(base: Slotted, job: Job, bytes: Bytes, pos: nat)
    requires job.Reader?
  {
    bytes == base.Read(job.pos, job.count).bytes && pos == base.Read(job.pos, job.count).pos
  }

  /**
   What a reader delivers, compared with a read of `base`: in a calm system the same.  Otherwise, if
   it started inside the data, possibly nothing, and if a seek made it start behind the data,
   possibly what it copied from there.
   */
  predicate AsSerial(base: Slotted, job: Job, bytes: Bytes, pos: nat, calm: bool)
    requires job.Reader?
  {
    var p := base.dev.Start(job.pos);
    if job.pos >= |base.Content()| then Exactly(base, job, bytes, pos)
    else
      && base.CanRead(job.pos, job.count)
      && (Exactly(base, job, bytes, pos)
          || (!calm && if p < |base.Content()| then bytes == [] && pos == p
                       else bytes == base.Copied(p, job.count) && pos == p + |bytes|))
  }

  /** What a thread that has unlocked was given by the device `base` that it found. */
  predicate ServedAt(base: Slotted, job: Job, pc: Pc, calm: bool) {
    match pc
    case Unlocked(pos, bytes) => job.Reader? ==> Faithful(base, job, pos, bytes)
    case Advancing(pos, bytes) => Faithful(base, job, pos, bytes)
    case Returned(NoMem, pos) => job.Reader? ==> Starting(base, job, pos)
    case Returned(Delivered(bytes), pos) => job.Reader? && AsSerial(base, job, bytes, pos, calm)
    case Returned(WroteCount(n), _) => job.Writer? && n == |job.chunk|
    case _ => true
  }

  predicate ServedNo(sys: System, s: State, k: nat)
    requires Threads(sys.jobs, s.order) && |s.pcs| == |sys.jobs| && k < |s.order|
  {
    ServedAt(Serial(sys.start, sys.jobs, s.order[..k]), sys.jobs[s.order[k]], s.pcs[s.order[k]], Calm(sys))
  }

  /** Every thread was served by the serial run at its place. */
  predicate Served(sys: System, s: State)
    requires Threads(sys.jobs, s.order) && |s.pcs| == |sys.jobs|
  {
    forall k :: 0 <= k < |s.order| ==> ServedNo(sys, s, k)
  }

  predicate Inv(sys: System, s: State) {
    |s.pcs| == |sys.jobs| && Exclusive(s) && Ordered(sys.jobs, s) && Current(sys, s) && Served(sys, s)
  }

  // One step, seen from the device `base` at which the thread's call started.

  /** A writer joins, and keeps the tail or turns to adding a command. */
  lemma JoinActs(base: Slotted, job: Job, pc: Pc, f: Shared, free: bool)
    requires job.Writer? && (pc.Entered? || pc.Joined?) && Doing(base, job, pc, f)
    ensures var (f', next) := Act(job, pc, f, free);
            Inside(next) && Doing(base, job, next, f')
  {
  }

  /** The steps of adding a command. */
  lemma AddActs(base: Slotted, job: Job, pc: Pc, f: Shared, free: bool)
    requires base.Valid() && (pc.Cleared? || pc.Shrunk? || pc.Grown?) && Doing(base, job, pc, f)
    ensures var (f', next) := Act(job, pc, f, free);
            Inside(next) && Doing(base, job, next, f')
  {
    SizeAfterAdd(f.log, pc.data);
    if |f.log| >= SLOTS {
      OldestSlot(f.slots, f.log);
    }
  }

  /** A reader looks for the end of data, takes a pending seek, and copies. */
  lemma ReadActs(base: Slotted, job: Job, pc: Pc, f: Shared, free: bool)
    requires job.Reader? && (pc.Entered? || pc.Placed?) && Doing(base, job, pc, f) && Defined(job, pc, f)
    ensures var (f', next) := Act(job, pc, f, free);
            Inside(next) && Doing(base, job, next, f')
  {
    if job.pos < |base.Content()| {
      ReadFromStart(base, job.pos, job.count);
    }
  }

  /** What a thread does inside is its share of the call; when it leaves, the call is done and it is served. */
  lemma HolderActs(base: Slotted, job: Job, pc: Pc, f: Shared, free: bool, calm: bool)
    requires base.Valid() && Inside(pc) && Doing(base, job, pc, f) && Defined(job, pc, f)
    ensures var (f', next) := Act(job, pc, f, free);
            if Inside(next) then Doing(base, job, next, f')
            else f'.Is(Apply(base, job)) && ServedAt(base, job, next, calm)
  {
    if pc.Cleared? || pc.Shrunk? || pc.Grown? {
      AddActs(base, job, pc, f, free);
    } else if job.Writer? && (pc.Entered? || pc.Joined?) {
      JoinActs(base, job, pc, f, free);
    } else if pc.Entered? || pc.Placed? {
      ReadActs(base, job, pc, f, free);
    }
  }

  /** A thread that has left changes nothing and keeps what it was given; the reader's last look may take it away. */
  lemma LeaverActs(base: Slotted, job: Job, pc: Pc, f: Shared, free: bool, calm: bool)
    requires HasEntered(pc) && !Inside(pc) && ServedAt(base, job, pc, calm)
    requires calm && pc.Advancing? ==> (pc.pos < |base.Content()| <==> pc.pos < f.total)
    ensures var (f', next) := Act(job, pc, f, free);
            f' == f && HasEntered(next) && !Inside(next) && ServedAt(base, job, next, calm)
  {
    if pc.Advancing? {
      ReadFromStart(base, job.pos, job.count);
    }
  }

  /** In a roomy ring the size never falls below what the holder found. */
  lemma SizeHolds(base: Slotted, job: Job, pc: Pc, f: Shared)
    requires Doing(base, job, pc, f)
    requires job.Writer? ==> |base.dev.log| < SLOTS
    ensures |base.Content()| <= f.total
  {
    if job.Writer? {
      SizeAfterAdd(base.dev.log, base.dev.pending + job.chunk);
    }
  }

  // One step, seen from the whole system.

  /** A thread enters through the mutex only, and leaves for good. */
  lemma ActPlace(job: Job, pc: Pc, f: Shared, free: bool)
    ensures var (f', next) := Act(job, pc, f, free);
            && (pc.AtLock? ==> next.Entered? && f' == f)
            && (!pc.AtLock? ==> (HasEntered(next) <==> HasEntered(pc)))
            && (!pc.AtLock? && !Inside(pc) ==> !Inside(next) && f' == f)
  {
  }

  lemma StepExclusive(sys: System, s: State, i: nat)
    requires CanStep(sys, s, i) && Exclusive(s)
    ensures Exclusive(Step(sys, s, i))
  {
    ActPlace(sys.jobs[i], s.pcs[i], s.fields, s.holder.None?);
  }

  lemma StepOrdered(sys: System, s: State, i: nat)
    requires CanStep(sys, s, i) && Exclusive(s) && Ordered(sys.jobs, s)
    ensures Ordered(sys.jobs, Step(sys, s, i))
  {
    ActPlace(sys.jobs[i], s.pcs[i], s.fields, s.holder.None?);
    if s.pcs[i].AtLock? {
      assert i !in s.order;
      assert forall j :: j in s.order + [i] <==> j in s.order || j == i;
    }
  }

  /** How many of the calls in the order the fields certainly show. */
  function Done(s: State): (n: nat)
    requires s.holder.Some? ==> s.order != []
    ensures n <= |s.order|
  {
    if s.holder.None? then |s.order| else |s.order| - 1
  }

  /** In a roomy ring the size covers the content after these calls. */
  lemma SizeCoversDone(sys: System, s: State)
    requires |s.pcs| == |sys.jobs| && Ordered(sys.jobs, s) && Current(sys, s) && Roomy(sys)
    ensures |Serial(sys.start, sys.jobs, s.order[..Done(s)]).Content()| <= s.fields.total
  {
    if s.holder.None? {
      assert s.order[..|s.order|] == s.order;
    } else {
      SerialGrows(sys, s.order);
      SizeHolds(Base(sys, s), sys.jobs[s.holder.value], s.pcs[s.holder.value], s.fields);
    }
  }

  /** And the content after any fewer. */
  lemma PrefixesGrow(sys: System, order: seq<nat>, j: nat, k: nat)
    requires Threads(sys.jobs, order) && NoneTwice(order) && j <= k <= |order| && Roomy(sys)
    ensures |Serial(sys.start, sys.jobs, order[..j]).Content()| <= |Serial(sys.start, sys.jobs, order[..k]).Content()|
  {
    SerialPrefixShorter(sys, order[..k], j);
    assert order[..k][..j] == order[..j];
  }

  /** A reader inside leaves the size alone. */
  lemma ReaderKeepsSize(base: Slotted, job: Job, pc: Pc, f: Shared)
    requires Doing(base, job, pc, f) && job.Reader?
    ensures f.total == |base.Content()|
  {
  }

  /** So it is that of the content, while no writer is inside. */
  lemma SizeOfDone(sys: System, s: State)
    requires |s.pcs| == |sys.jobs| && Ordered(sys.jobs, s) && Current(sys, s)
    requires s.holder.Some? ==> sys.jobs[s.holder.value].Reader?
    ensures s.fields.total == |Serial(sys.start, sys.jobs, s.order[..Done(s)]).Content()|
  {
    if s.holder.None? {
      assert s.order[..|s.order|] == s.order;
    } else {
      ReaderKeepsSize(Base(sys, s), sys.jobs[s.holder.value], s.pcs[s.holder.value], s.fields);
    }
  }

  /** Readers leave the content as it is. */
  lemma ReadersKeepContent(sys: System, order: seq<nat>, k: nat, n: nat)
    requires Threads(sys.jobs, order) && k <= n <= |order|
    requires forall j :: k <= j < n ==> sys.jobs[order[j]].Reader?
    ensures Serial(sys.start, sys.jobs, order[..n]).Content() == Serial(sys.start, sys.jobs, order[..k]).Content()
  {
    ReadersKeepLog(sys, order[..n], k);
    assert order[..n][..k] == order[..k];
  }

  /** In a calm system the last look at the size says what a look under the mutex would have said. */
  lemma CalmIsSteady(sys: System, s: State, k: nat, p: nat)
    requires sys.start.Valid() && |s.pcs| == |sys.jobs| && Ordered(sys.jobs, s) && Current(sys, s) && Calm(sys)
    requires k < |s.order| && Starting(Serial(sys.start, sys.jobs, s.order[..k]), sys.jobs[s.order[k]], p)
    ensures p < |Serial(sys.start, sys.jobs, s.order[..k]).Content()| <==> p < s.fields.total
  {
    if p < |Serial(sys.start, sys.jobs, s.order[..k]).Content()| {
      SizeCoversDone(sys, s);
      PrefixesGrow(sys, s.order, k, Done(s));
    } else {
      forall j | k <= j < |s.order|
        ensures sys.jobs[s.order[j]].Reader?
      {
        NobodyWritesAfter(sys, s.order, k, p, j);
      }
      SizeOfDone(sys, s);
      ReadersKeepContent(sys, s.order, k, Done(s));
    }
  }

  /** The thread that gets the mutex finds the serial device. */
  lemma LockKeeps(sys: System, s: State, i: nat)
    requires Inv(sys, s) && CanStep(sys, s, i) && s.pcs[i].AtLock?
    ensures Inv(sys, Step(sys, s, i))
  {
    var s' := Step(sys, s, i);
    StepExclusive(sys, s, i);
    StepOrdered(sys, s, i);
    assert s'.order[..|s.order|] == s.order;
    forall k | 0 <= k < |s'.order|
      ensures ServedNo(sys, s', k)
    {
      if k < |s.order| {
        assert ServedNo(sys, s, k);
        assert s'.order[..k] == s.order[..k];
      }
    }
  }

  /** A step inside does the holder's share and nothing else. */
  lemma HolderKeeps(sys: System, s: State, i: nat)
    requires sys.start.Valid() && Inv(sys, s) && CanStep(sys, s, i) && Inside(s.pcs[i])
    ensures Inv(sys, Step(sys, s, i))
  {
    var s', last := Step(sys, s, i), |s.order| - 1;
    StepExclusive(sys, s, i);
    StepOrdered(sys, s, i);
    SerialValid(sys.start, sys.jobs, s.order[..last]);
    HolderActs(Base(sys, s), sys.jobs[i], s.pcs[i], s.fields, s.holder.None?, Calm(sys));
    forall k | 0 <= k < |s'.order|
      ensures ServedNo(sys, s', k)
    {
      if k < last {
        assert ServedNo(sys, s, k);
      }
    }
  }

  /** A step outside changes nothing shared. */
  lemma OutsideKeeps(sys: System, s: State, i: nat)
    requires sys.start.Valid() && Inv(sys, s) && CanStep(sys, s, i) && !Inside(s.pcs[i]) && !s.pcs[i].AtLock?
    ensures Inv(sys, Step(sys, s, i))
  {
    var s' := Step(sys, s, i);
    StepExclusive(sys, s, i);
    StepOrdered(sys, s, i);
    ActPlace(sys.jobs[i], s.pcs[i], s.fields, s.holder.None?);
    forall k | 0 <= k < |s'.order|
      ensures ServedNo(sys, s', k)
    {
      OutsideServes(sys, s, i, k);
    }
  }

  lemma OutsideServes(sys: System, s: State, i: nat, k: nat)
    requires sys.start.Valid() && Inv(sys, s) && CanStep(sys, s, i)
    requires !Inside(s.pcs[i]) && !s.pcs[i].AtLock? && k < |s.order|
    ensures ServedAt(Serial(sys.start, sys.jobs, s.order[..k]), sys.jobs[s.order[k]],
                     Step(sys, s, i).pcs[s.order[k]], Calm(sys))
  {
    var base := Serial(sys.start, sys.jobs, s.order[..k]);
    assert ServedNo(sys, s, k);
    if s.order[k] == i {
      if Calm(sys) && s.pcs[i].Advancing? {
        CalmIsSteady(sys, s, k, s.pcs[i].pos);
      }
      LeaverActs(base, sys.jobs[i], s.pcs[i], s.fields, s.holder.None?, Calm(sys));
    }
  }

  lemma StepKeeps(sys: System, s: State, i: nat)
    requires sys.start.Valid() && Inv(sys, s) && CanStep(sys, s, i)
    ensures Inv(sys, Step(sys, s, i))
  {
    if s.pcs[i].AtLock? {
      LockKeeps(sys, s, i);
    } else if Inside(s.pcs[i]) {
      HolderKeeps(sys, s, i);
    } else {
      OutsideKeeps(sys, s, i);
    }
  }

  lemma Initially(sys: System)
    ensures Inv(sys, Initial(sys))
  {
  }

  /** Whatever the schedule: the invariant holds in every state. */
  lemma {:induction false} Always(sys: System, schedule: seq<nat>)
    requires sys.start.Valid() && Schedulable(sys, schedule)
    ensures Inv(sys, After(sys, schedule))
  {
    if schedule == [] {
      Initially(sys);
    } else {
      var init := schedule[..|schedule| - 1];
      Always(sys, init);
      StepKeeps(sys, After(sys, init), schedule[|schedule| - 1]);
    }
  }

  // What follows for the device and its callers.

  /** The chunks of the writers in `order`. */
  function Chunks(jobs: seq<Job>, order: seq<nat>): seq<Bytes>
    requires Threads(jobs, order)
  {
    if order == [] then []
    else
      var init, job := Chunks(jobs, order[..|order| - 1]), jobs[order[|order| - 1]];
      if job.Writer? then init + [job.chunk] else init
  }

  lemma {:induction false} SerialIsWrites(d: Slotted, jobs: seq<Job>, order: seq<nat>)
    requires Threads(jobs, order)
    ensures var r, w := Serial(d, jobs, order).dev, WriteAll(d.dev, Chunks(jobs, order));
            r.log == w.log && r.pending == w.pending
  {
    if order != [] {
      var init, job := order[..|order| - 1], jobs[order[|order| - 1]];
      SerialIsWrites(d, jobs, init);
      if job.Writer? {
        assert Chunks(jobs, order)[..|Chunks(jobs, order)| - 1] == Chunks(jobs, init);
      }
    }
  }

  /** One thread at a time is between lock and unlock, and only that thread changes shared fields. */
  lemma MutualExclusion(sys: System, schedule: seq<nat>, i: nat, j: nat)
    requires sys.start.Valid() && Schedulable(sys, schedule)
    requires i < |sys.jobs| && j < |sys.jobs|
    ensures var s := After(sys, schedule);
            && (Inside(s.pcs[i]) && Inside(s.pcs[j]) ==> i == j)
            && (CanStep(sys, s, i) && Step(sys, s, i).fields != s.fields ==> s.holder == Some(i))
  {
    var s := After(sys, schedule);
    Always(sys, schedule);
    ActPlace(sys.jobs[i], s.pcs[i], s.fields, s.holder.None?);
  }

  /**
   Writers are serialised.  While the mutex is free, log and tail are the result of writing, one
   after the other in the order of the mutex, the chunks of exactly those writers that got it, each
   once; a refused writer is not among them.  The cached size is that of the content.
   */
  lemma WritersSerialised(sys: System, schedule: seq<nat>)
    requires sys.start.Valid() && Schedulable(sys, schedule)
    ensures var s := After(sys, schedule);
            && Threads(sys.jobs, s.order)
            && NoneTwice(s.order)
            && (forall i :: 0 <= i < |sys.jobs| ==> (i in s.order <==> HasEntered(s.pcs[i])))
            && (s.holder.None? ==>
                  var w, f := WriteAll(sys.start.dev, Chunks(sys.jobs, s.order)), s.fields;
                  f.log == w.log && f.Tail() == w.pending && f.total == LiveSize(f.log) && HoldsLast(f.slots, f.log))
  {
    var s := After(sys, schedule);
    Always(sys, schedule);
    SerialIsWrites(sys.start, sys.jobs, s.order);
    SerialValid(sys.start, sys.jobs, s.order);
  }

  /** So no byte of a writer that got the mutex is lost, and none of a refused one appears. */
  lemma WritersConserve(sys: System, schedule: seq<nat>)
    requires sys.start.Valid() && Schedulable(sys, schedule) && After(sys, schedule).holder.None?
    ensures var s, d := After(sys, schedule), sys.start.dev;
            && Threads(sys.jobs, s.order)
            && Flat(s.fields.log) + s.fields.Tail() == Flat(d.log) + d.pending + Flat(Chunks(sys.jobs, s.order))
  {
    WritersSerialised(sys, schedule);
    Conservation(sys.start.dev, Chunks(sys.jobs, After(sys, schedule).order));
  }

  /** What a reader returns, if its call started at `base`; -ENOMEM leaves it at its start position. */
  predicate ReaderReturns(base: Slotted, job: Job, pc: Pc, calm: bool) {
    && job.Reader? && pc.Returned?
    && match pc.outcome
       case Delivered(bytes) => AsSerial(base, job, bytes, pc.pos, calm)
       case NoMem => Starting(base, job, pc.pos)
       case WroteCount(_) => false
  }

  /** Every reader that returns after it had the mutex was served by the serial device at its place in the order. */
  lemma ReadersSeeSerialState(sys: System, schedule: seq<nat>, i: nat)
    requires sys.start.Valid() && Schedulable(sys, schedule) && i < |sys.jobs| && sys.jobs[i].Reader?
    requires After(sys, schedule).pcs[i].Returned?
    ensures var s := After(sys, schedule);
            && Threads(sys.jobs, s.order)
            && exists k :: 0 <= k < |s.order| && s.order[k] == i
                 && ReaderReturns(Serial(sys.start, sys.jobs, s.order[..k]), sys.jobs[i], s.pcs[i], Calm(sys))
  {
    var s := After(sys, schedule);
    Always(sys, schedule);
    assert i in s.order;
    var k :| 0 <= k < |s.order| && s.order[k] == i;
    assert ServedNo(sys, s, k);
  }
}
