/**
 Which outcomes of the lock protocol can happen, and exactly when
 (aesd-char-driver/main.c:157-191, 205, 215-244, 269-277).
 */
module LockOutcomes {
  import opened Bytes
  import opened CircularBuffers
  import opened DeviceModel
  import opened Writes
  import opened Locking

  ghost predicate Reachable(sys: System, s: State) {
    exists schedule: seq<nat> :: Schedulable(sys, schedule) && After(sys, schedule) == s
  }

  lemma Start(sys: System) returns (s: State)
    ensures s == Initial(sys) && Reachable(sys, s)
  {
    s := Initial(sys);
    assert Schedulable(sys, []) && After(sys, []) == s;
  }

  lemma Go(sys: System, s: State, i: nat) returns (s': State)
    requires Reachable(sys, s) && CanStep(sys, s, i)
    ensures s' == Step(sys, s, i) && Reachable(sys, s')
  {
    var schedule: seq<nat> :| Schedulable(sys, schedule) && After(sys, schedule) == s;
    s' := Step(sys, s, i);
    assert (schedule + [i])[..|schedule|] == schedule;
    assert After(sys, schedule + [i]) == s';
  }

  lemma ReachableInv(sys: System, s: State)
    requires sys.start.Valid() && Reachable(sys, s)
    ensures Inv(sys, s)
  {
    var schedule: seq<nat> :| Schedulable(sys, schedule) && After(sys, schedule) == s;
    Always(sys, schedule);
  }

  // The room in `tmp`.

  /** In step `t` of the schedule writer `i` looks at the size of the partial entry, and sees `tail`. */
  ghost predicate SizedAt(sys: System, schedule: seq<nat>, t: nat, i: nat, tail: nat) {
    && t < |schedule| && schedule[t] == i && Schedulable(sys, schedule[..t])
    && i < |sys.jobs| && After(sys, schedule[..t]).pcs[i].AtSize?
    && tail == |After(sys, schedule[..t]).fields.partialEntry|
  }

  predicate BeforeJoin(pc: Pc) { pc.AtCheck? || pc.AtLock? || pc.Entered? }

  lemma {:induction false} TailWasSeen(sys: System, schedule: seq<nat>, i: nat) returns (t: nat)
    requires Schedulable(sys, schedule) && i < |sys.jobs| && sys.jobs[i].Writer?
    requires BeforeJoin(After(sys, schedule).pcs[i])
    ensures SizedAt(sys, schedule, t, i, After(sys, schedule).pcs[i].tail)
  {
    var n := |schedule| - 1;
    var init := schedule[..n];
    if schedule[n] == i && After(sys, init).pcs[i].AtSize? {
      t := n;
    } else {
      t := TailWasSeen(sys, init, i);
      assert init[..t] == schedule[..t];
    }
  }

  /**
   What a writer copies into `tmp` fits exactly when no partial entry is in use, or the one in use is
   no longer than the one the writer saw when it allocated `tmp`, before it had the mutex.
   */
  lemma JoinFitsExactly(sys: System, schedule: seq<nat>, i: nat)
    requires Schedulable(sys, schedule) && i < |sys.jobs| && sys.jobs[i].Writer?
    requires After(sys, schedule).pcs[i].Entered?
    ensures var s := After(sys, schedule);
            exists t: nat :: SizedAt(sys, schedule, t, i, s.pcs[i].tail)
              && (Fits(s.fields, sys.jobs[i].chunk, s.pcs[i].tail) <==>
                  !s.fields.partial || |s.fields.partialEntry| <= |After(sys, schedule[..t]).fields.partialEntry|)
  {
    var t := TailWasSeen(sys, schedule, i);
  }

  /** Writer `i` has the mutex, and the partial entry is too long for its `tmp`. */
  predicate Overflows(sys: System, s: State, i: nat) {
    && i < |s.pcs| == |sys.jobs| && sys.jobs[i].Writer?
    && s.pcs[i].Entered? && !Fits(s.fields, sys.jobs[i].chunk, s.pcs[i].tail)
  }

  /** A writer whose chunk makes the partial entry longer. */
  predicate Extends(job: Job) { job.Writer? && job.chunk != [] && !IsCommand(job.chunk) }

  // Runs of one thread while nobody interferes.

  /** A writer gets the mutex. */
  lemma Enters(sys: System, s: State, i: nat) returns (s': State)
    requires Reachable(sys, s) && i < |s.pcs| == |sys.jobs| && s.pcs[i].AtCheck? && s.holder.None?
    ensures Reachable(sys, s')
    ensures s' == State(s.fields, Some(i), s.pcs[i := Entered(s.pcs[i].tail)], s.order + [i])
  {
    s' := Go(sys, s, i);
    s' := Go(sys, s', i);
    assert s'.pcs == s.pcs[i := Entered(s.pcs[i].tail)];
  }

  /** One step inside. */
  lemma GoInside(sys: System, s: State, i: nat, f: Shared, next: Pc) returns (s': State)
    requires Reachable(sys, s) && CanStep(sys, s, i) && Inside(s.pcs[i]) && s.holder == Some(i)
    requires Act(sys.jobs[i], s.pcs[i], s.fields, false) == (f, next) && Inside(next)
    ensures Reachable(sys, s') && s' == State(f, Some(i), s.pcs[i := next], s.order)
  {
    s' := Go(sys, s, i);
  }

  /** How far a writer is from the unlock. */
  function ToGo(pc: Pc): nat {
    match pc
    case Entered(_) => 5
    case Joined(_) => 4
    case Cleared(_) => 3
    case Shrunk(_) => 2
    case Grown(_) => 1
    case _ => 0
  }

  /** One step of a writer inside, on its way to the unlock. */
  lemma StoresStep(base: Slotted, job: Job, pc: Pc, f: Shared)
    requires job.Writer? && base.Valid() && Doing(base, job, pc, f) && ToGo(pc) > 0
    ensures var (f', next) := Act(job, pc, f, false);
            Inside(next) && !next.Entered? && Doing(base, job, next, f') && ToGo(next) < ToGo(pc)
  {
    if pc.Entered? || pc.Joined? {
      JoinActs(base, job, pc, f, false);
    } else {
      AddActs(base, job, pc, f, false);
    }
  }

  /** A writer with the mutex joins and stores. */
  lemma {:induction false} Stores(sys: System, s: State, i: nat, base: Slotted) returns (s': State)
    requires Reachable(sys, s) && i < |s.pcs| == |sys.jobs| && s.holder == Some(i)
    requires Defined(sys.jobs[i], s.pcs[i], s.fields)
    requires sys.jobs[i].Writer? && base.Valid() && Doing(base, sys.jobs[i], s.pcs[i], s.fields)
    ensures Reachable(sys, s')
    ensures s' == State(s'.fields, Some(i), s.pcs[i := Stored], s.order)
    ensures s'.fields.Is(base.Write(sys.jobs[i].chunk))
    decreases ToGo(s.pcs[i])
  {
    var job, pc := sys.jobs[i], s.pcs[i];
    if pc.Stored? {
      s' := s;
      assert s.pcs[i := Stored] == s.pcs;
    } else {
      StoresStep(base, job, pc, s.fields);
      var (f, next) := Act(job, pc, s.fields, false);
      s' := GoInside(sys, s, i, f, next);
      s' := Stores(sys, s', i, base);
      assert s.pcs[i := next][i := Stored] == s.pcs[i := Stored];
    }
  }

  /** A writer that has not looked at anything yet gets the mutex; its `tmp` is large enough. */
  lemma LooksAndEnters(sys: System, s: State, i: nat) returns (s': State)
    requires Reachable(sys, s) && i < |s.pcs| == |sys.jobs| && s.pcs[i].AtSize? && s.holder.None?
    ensures Reachable(sys, s')
    ensures s' == State(s.fields, Some(i), s.pcs[i := Entered(|s.fields.partialEntry|)], s.order + [i])
  {
    var pc := AtCheck(|s.fields.partialEntry|);
    s' := Go(sys, s, i);
    s' := Enters(sys, s', i);
    assert s.pcs[i := pc][i := Entered(pc.tail)] == s.pcs[i := Entered(pc.tail)];
  }

  /** And it writes and unlocks. */
  lemma WriterRuns(sys: System, s: State, i: nat, base: Slotted) returns (s': State)
    requires Reachable(sys, s) && i < |s.pcs| == |sys.jobs| && s.pcs[i].AtSize? && s.holder.None?
    requires sys.jobs[i].Writer? && base.Valid() && s.fields.Is(base) && base.dev.pending + sys.jobs[i].chunk != []
    ensures Reachable(sys, s')
    ensures s' == State(s'.fields, None, s.pcs[i := Unlocked(0, [])], s.order + [i])
    ensures s'.fields.Is(base.Write(sys.jobs[i].chunk))
  {
    var entered := LooksAndEnters(sys, s, i);
    var stored := Stores(sys, entered, i, base);
    s' := Go(sys, stored, i);
    assert stored.pcs[i := Unlocked(0, [])] == s.pcs[i := Unlocked(0, [])];
  }

  // When `tmp` can be too small.

  /**
   The chunk of writer `j` makes the partial entry longer than writer `i` may have seen it: the entry
   in use grows, or the chunk is longer than what an unused entry was left with, or a third writer
   lengthens the chunk in turn.
   */
  predicate Outgrows(sys: System, i: nat, j: nat)
    requires j < |sys.jobs| && sys.jobs[j].Writer?
  {
    || sys.start.dev.pending != [] || |sys.jobs[j].chunk| > |sys.stale|
    || exists k :: 0 <= k < |sys.jobs| && k != i && k != j && Extends(sys.jobs[k])
  }

  /** Writer `i` sees the entry as it is, and then writer `j` extends it. */
  lemma OverflowAfterLook(sys: System, s: State, i: nat, j: nat, base: Slotted) returns (s': State)
    requires Reachable(sys, s) && |s.pcs| == |sys.jobs| && s.holder.None? && base.Valid() && s.fields.Is(base)
    requires i < |s.pcs| && j < |s.pcs| && i != j && s.pcs[i].AtSize? && s.pcs[j].AtSize?
    requires sys.jobs[i].Writer? && Extends(sys.jobs[j])
    requires |base.dev.pending + sys.jobs[j].chunk| > |s.fields.partialEntry|
    ensures Reachable(sys, s') && Overflows(sys, s', i)
  {
    s' := Go(sys, s, i);
    CommandIffLast(base.dev.pending, sys.jobs[j].chunk);
    var w := WriterRuns(sys, s', j, base);
    assert w.fields.Tail() == base.dev.pending + sys.jobs[j].chunk;
    assert w.pcs[i] == AtCheck(|s.fields.partialEntry|);
    s' := Enters(sys, w, i);
  }

  lemma OverflowHappens(sys: System, i: nat, j: nat) returns (s: State)
    requires sys.start.Valid() && i < |sys.jobs| && j < |sys.jobs| && i != j
    requires sys.jobs[i].Writer? && Extends(sys.jobs[j]) && Outgrows(sys, i, j)
    ensures Reachable(sys, s) && Overflows(sys, s, i)
  {
    var d := sys.start.dev;
    s := Start(sys);
    assert s.fields.Is(sys.start);
    if d.pending != [] || |sys.jobs[j].chunk| > |sys.stale| {
      s := OverflowAfterLook(sys, s, i, j, sys.start);
    } else {
      var k: nat :| k < |sys.jobs| && k != i && k != j && Extends(sys.jobs[k]);
      assert d.pending + sys.jobs[j].chunk == sys.jobs[j].chunk;
      WriteKeepsSlots(sys.start, sys.jobs[j].chunk);
      s := WriterRuns(sys, s, j, sys.start);
      assert s.fields.Tail() == sys.jobs[j].chunk;
      s := OverflowAfterLook(sys, s, i, k, sys.start.Write(sys.jobs[j].chunk));
    }
  }

  /** Before the join of writer `i`, nobody has extended the partial entry. */
  predicate Quiet(sys: System, s: State, i: nat)
    requires i < |s.pcs|
  {
    var tail := Initial(sys).fields.partialEntry;
    && s.fields.partialEntry == tail
    && (BeforeJoin(s.pcs[i]) ==> s.pcs[i].tail == |tail|)
    && forall j :: 0 <= j < |s.pcs| && j != i && s.pcs[j].Joined? && !IsCommand(s.pcs[j].data) ==> s.pcs[j].data == tail
  }

  /** If no other writer extends it, it stays as it is until writer `i` has joined. */
  lemma {:induction false} StaysQuiet(sys: System, schedule: seq<nat>, i: nat)
    requires Schedulable(sys, schedule) && i < |sys.jobs| && sys.jobs[i].Writer?
    requires forall j :: 0 <= j < |sys.jobs| && j != i ==> !Extends(sys.jobs[j])
    ensures var s := After(sys, schedule);
            s.pcs[i].AtSize? || BeforeJoin(s.pcs[i]) ==> Quiet(sys, s, i)
  {
    if schedule != [] {
      var s, j := After(sys, schedule[..|schedule| - 1]), schedule[|schedule| - 1];
      StaysQuiet(sys, schedule[..|schedule| - 1], i);
      if s.pcs[i].AtSize? || BeforeJoin(s.pcs[i]) {
        QuietStep(sys, s, i, j);
      }
    }
  }

  lemma QuietStep(sys: System, s: State, i: nat, j: nat)
    requires CanStep(sys, s, j) && i < |sys.jobs| && Quiet(sys, s, i) && (j != i ==> !Extends(sys.jobs[j]))
    requires s.pcs[i].AtSize? || BeforeJoin(s.pcs[i])
    ensures var s' := Step(sys, s, j);
            s'.pcs[i].AtSize? || BeforeJoin(s'.pcs[i]) ==> Quiet(sys, s', i)
  {
    QuietAct(sys.jobs[j], s.pcs[j], s.fields, s.holder.None?);
  }

  /** One step of a thread that does not extend the partial entry. */
  lemma QuietAct(job: Job, pc: Pc, f: Shared, free: bool)
    requires Defined(job, pc, f)
    ensures var (f', next) := Act(job, pc, f, free);
            && f'.partialEntry == (if pc.Joined? && !IsCommand(pc.data) then pc.data else f.partialEntry)
            && (next.Joined? && !IsCommand(next.data) && !Extends(job) && !pc.Joined? ==> next.data == f.partialEntry)
            && (BeforeJoin(next) ==>
                  next.tail == if pc.AtSize? then |f.partialEntry| else if BeforeJoin(pc) then pc.tail else 0)
            && (next.AtSize? ==> pc.AtSize?) && (next.Joined? ==> !pc.Joined?)
  {
    if pc.Entered? && job.Writer? {
      CommandIffLastOfAny(f.Tail(), job.chunk);
    }
  }

  /** A chunk that ends in a newline makes a command of any tail. */
  lemma CommandIffLastOfAny(tail: Bytes, chunk: Bytes)
    ensures IsCommand(chunk) ==> IsCommand(tail + chunk)
    ensures chunk == [] ==> tail + chunk == tail
  {
  }

  predicate NotJoined(pc: Pc) { pc.AtSize? || BeforeJoin(pc) }

  /** Before the join of writer `i`, the entry holds `stale` and is not in use, or it holds the chunk of writer `j`. */
  predicate Short(sys: System, s: State, i: nat, j: nat)
    requires i < |s.pcs| == |sys.jobs| && j < |s.pcs| && sys.jobs[j].Writer?
  {
    var chunk, f := sys.jobs[j].chunk, s.fields;
    && (f.partialEntry == chunk || (f.partialEntry == sys.stale && !f.partial))
    && (NotJoined(s.pcs[j]) ==> !f.partial)
    && (BeforeJoin(s.pcs[i]) ==> s.pcs[i].tail >= |chunk|)
    && forall t :: 0 <= t < |s.pcs| && t != i && s.pcs[t].Joined? && !IsCommand(s.pcs[t].data) ==>
         s.pcs[t].data == chunk && !NotJoined(s.pcs[j])
  }

  /** If only writer `j` extends it, and by no more than was there, it stays so until writer `i` has joined. */
  lemma {:induction false} StaysShort(sys: System, schedule: seq<nat>, i: nat, j: nat)
    requires Schedulable(sys, schedule) && i < |sys.jobs| && j < |sys.jobs| && i != j
    requires sys.jobs[i].Writer? && Extends(sys.jobs[j])
    requires sys.start.dev.pending == [] && |sys.jobs[j].chunk| <= |sys.stale|
    requires forall t :: 0 <= t < |sys.jobs| && t != i && t != j ==> !Extends(sys.jobs[t])
    ensures var s := After(sys, schedule);
            NotJoined(s.pcs[i]) ==> Short(sys, s, i, j)
  {
    if schedule != [] {
      var s, t := After(sys, schedule[..|schedule| - 1]), schedule[|schedule| - 1];
      StaysShort(sys, schedule[..|schedule| - 1], i, j);
      if NotJoined(s.pcs[i]) {
        ShortStep(sys, s, i, j, t);
      }
    }
  }

  lemma ShortStep(sys: System, s: State, i: nat, j: nat, t: nat)
    requires CanStep(sys, s, t) && i < |sys.jobs| && j < |sys.jobs| && i != j
    requires sys.jobs[i].Writer? && Extends(sys.jobs[j]) && |sys.jobs[j].chunk| <= |sys.stale|
    requires t != i && t != j ==> !Extends(sys.jobs[t])
    requires NotJoined(s.pcs[i]) && Short(sys, s, i, j)
    ensures var s' := Step(sys, s, t);
            NotJoined(s'.pcs[i]) ==> Short(sys, s', i, j)
  {
    var job, pc, f := sys.jobs[t], s.pcs[t], s.fields;
    ShortAct(job, pc, f, s.holder.None?);
    if pc.Entered? && job.Writer? && t != i {
      ShortJoin(job, f, pc.tail, sys.jobs[j].chunk, t == j);
    }
  }

  /** What is joined is a command, or the chunk of the one writer that extends the entry. */
  lemma ShortJoin(job: Job, f: Shared, tail: nat, chunk: Bytes, own: bool)
    requires job.Writer? && Defined(job, Entered(tail), f) && (f.partial ==> f.partialEntry == chunk)
    requires if own then job.chunk == chunk && !f.partial else !Extends(job)
    ensures var data := f.Tail() + job.chunk; !IsCommand(data) ==> data == chunk && (own || f.partial)
  {
    CommandIffLastOfAny(f.Tail(), job.chunk);
    assert own ==> f.Tail() + job.chunk == job.chunk;
  }

  /** One step, as far as the partial entry goes. */
  lemma ShortAct(job: Job, pc: Pc, f: Shared, free: bool)
    ensures var (f', next) := Act(job, pc, f, free);
            && f'.partialEntry == (if pc.Joined? && !IsCommand(pc.data) then pc.data else f.partialEntry)
            && f'.partial == (if pc.Joined? then !IsCommand(pc.data) else f.partial)
            && (next.Joined? ==> pc.Entered? && job.Writer? && next.data == f.Tail() + job.chunk)
            && (NotJoined(next) ==> NotJoined(pc))
            && (BeforeJoin(next) ==> next.tail == if pc.AtSize? then |f.partialEntry| else pc.tail)
  {
  }

  /**
   So a writer can overflow its `tmp` exactly when another writer's chunk, not empty and without a
   newline at its end, makes the partial entry longer than it may have been seen.
   */
  lemma OverflowExactly(sys: System, i: nat)
    requires sys.start.Valid() && i < |sys.jobs| && sys.jobs[i].Writer?
    ensures (exists s :: Reachable(sys, s) && Overflows(sys, s, i))
            <==> (exists j :: 0 <= j < |sys.jobs| && j != i && Extends(sys.jobs[j]) && Outgrows(sys, i, j))
  {
    if j :| 0 <= j < |sys.jobs| && j != i && Extends(sys.jobs[j]) && Outgrows(sys, i, j) {
      var s := OverflowHappens(sys, i, j);
    } else {
      forall s | Reachable(sys, s)
        ensures !Overflows(sys, s, i)
      {
        var schedule: seq<nat> :| Schedulable(sys, schedule) && After(sys, schedule) == s;
        if j :| 0 <= j < |sys.jobs| && j != i && Extends(sys.jobs[j]) {
          StaysShort(sys, schedule, i, j);
        } else {
          StaysQuiet(sys, schedule, i);
        }
      }
    }
  }

  // When a writer returns -ENOMEM although its bytes are in.

  /** Writer `i` has returned -ENOMEM, and the device is the one that its write, and no other call, leaves. */
  predicate TakenButNoMem(sys: System, s: State, i: nat) {
    && i < |s.pcs| == |sys.jobs| && sys.jobs[i].Writer?
    && s.pcs[i] == Returned(NoMem, 0) && s.fields.Is(sys.start.Write(sys.jobs[i].chunk))
  }

  /** A thread that has not begun gets the mutex. */
  lemma Begins(sys: System, s: State, j: nat) returns (s': State)
    requires Reachable(sys, s) && j < |s.pcs| == |sys.jobs| && s.holder.None? && s.pcs[j] == InitialPc(sys.jobs[j])
    ensures Reachable(sys, s') && s'.fields == s.fields && s'.holder == Some(j) && |s'.pcs| == |s.pcs|
    ensures forall i :: 0 <= i < |s.pcs| && i != j ==> s'.pcs[i] == s.pcs[i]
  {
    if sys.jobs[j].Writer? {
      s' := LooksAndEnters(sys, s, j);
    } else {
      s' := Enters(sys, s, j);
    }
  }

  /** Another thread locks before the writer's second check. */
  lemma NoMemHappens(sys: System, i: nat, j: nat) returns (s: State)
    requires sys.start.Valid() && i < |sys.jobs| && j < |sys.jobs| && i != j
    requires sys.jobs[i].Writer? && sys.start.dev.pending + sys.jobs[i].chunk != []
    ensures Reachable(sys, s) && TakenButNoMem(sys, s, i)
  {
    s := Start(sys);
    assert s.fields.Is(sys.start);
    s := WriterRuns(sys, s, i, sys.start);
    s := Begins(sys, s, j);
    s := Go(sys, s, i);
  }

  predicate ToldTaken(pc: Pc) { pc.Refused? || (pc.Returned? && pc.outcome.NoMem?) }

  /** Only a mutex that is held makes a thread fail, and only when it is outside. */
  lemma ActTold(job: Job, pc: Pc, f: Shared, free: bool)
    requires !ToldTaken(pc) && ToldTaken(Act(job, pc, f, free).1)
    ensures !free && !Inside(pc)
  {
  }

  lemma HeldByInsider(sys: System, s: State)
    requires Inv(sys, s) && s.holder.Some?
    ensures s.holder.value < |s.pcs| && Inside(s.pcs[s.holder.value])
  {
  }

  /** A thread that is alone is never told that the mutex is taken. */
  lemma {:induction false} AloneNeverNoMem(sys: System, schedule: seq<nat>)
    requires sys.start.Valid() && Schedulable(sys, schedule) && |sys.jobs| == 1
    ensures !ToldTaken(After(sys, schedule).pcs[0])
  {
    if schedule != [] {
      var s := After(sys, schedule[..|schedule| - 1]);
      AloneNeverNoMem(sys, schedule[..|schedule| - 1]);
      Always(sys, schedule[..|schedule| - 1]);
      if ToldTaken(After(sys, schedule).pcs[0]) {
        ActTold(sys.jobs[0], s.pcs[0], s.fields, s.holder.None?);
        HeldByInsider(sys, s);
      }
    }
  }

  /**
   The return code -ENOMEM does not mean "not written": for every writer with something to write
   there is a schedule that takes its bytes and returns -ENOMEM, as soon as there is any other thread.
   */
  lemma TakenButNoMemExactly(sys: System, i: nat)
    requires sys.start.Valid() && i < |sys.jobs|
    requires sys.jobs[i].Writer? && sys.start.dev.pending + sys.jobs[i].chunk != []
    ensures (exists s :: Reachable(sys, s) && TakenButNoMem(sys, s, i)) <==> |sys.jobs| >= 2
  {
    if |sys.jobs| >= 2 {
      var s := NoMemHappens(sys, i, if i == 0 then 1 else 0);
    } else {
      forall s | Reachable(sys, s)
        ensures !TakenButNoMem(sys, s, i)
      {
        var schedule: seq<nat> :| Schedulable(sys, schedule) && After(sys, schedule) == s;
        AloneNeverNoMem(sys, schedule);
      }
    }
  }

  // When a reader returns -ENOMEM although it has copied.

  /** The two steps of a reader that is inside the data and has the mutex. */
  lemma CopyActs(job: Job, base: Slotted, f: Shared, tail: nat)
    requires job.Reader? && f.Is(base) && job.pos < |base.Content()| && base.CanRead(job.pos, job.count)
    ensures var p, f' := base.dev.Start(job.pos), f.(seek := None);
            && f'.Is(Apply(base, job))
            && Act(job, Entered(tail), f, false) == (f', Placed(p, job.count))
            && Defined(job, Placed(p, job.count), f')
            && Act(job, Placed(p, job.count), f', false) == (f', Copied(p, base.Copied(p, job.count)))
  {
    ReadFromStart(base, job.pos, job.count);
  }

  /** It copies. */
  lemma ReaderCopies(sys: System, s: State, i: nat, base: Slotted) returns (s': State)
    requires Reachable(sys, s) && i < |s.pcs| == |sys.jobs| && s.pcs[i].Entered? && s.holder == Some(i)
    requires sys.jobs[i].Reader? && s.fields.Is(base)
    requires sys.jobs[i].pos < |base.Content()| && base.CanRead(sys.jobs[i].pos, sys.jobs[i].count)
    ensures Reachable(sys, s')
    ensures var p := base.dev.Start(sys.jobs[i].pos);
            s' == State(s.fields.(seek := None), Some(i),
                        s.pcs[i := Copied(p, base.Copied(p, sys.jobs[i].count))], s.order)
  {
    var job, p, f := sys.jobs[i], base.dev.Start(sys.jobs[i].pos), s.fields.(seek := None);
    CopyActs(job, base, s.fields, s.pcs[i].tail);
    s' := GoInside(sys, s, i, f, Placed(p, job.count));
    s' := GoInside(sys, s', i, f, Copied(p, base.Copied(p, job.count)));
    assert s.pcs[i := Placed(p, job.count)][i := s'.pcs[i]] == s.pcs[i := s'.pcs[i]];
  }

  /** A reader inside the data gets the mutex, copies and unlocks. */
  lemma ReaderRuns(sys: System, s: State, i: nat, base: Slotted) returns (s': State)
    requires Reachable(sys, s) && i < |s.pcs| == |sys.jobs| && s.pcs[i].AtCheck? && s.holder.None?
    requires sys.jobs[i].Reader? && s.fields.Is(base)
    requires sys.jobs[i].pos < |base.Content()| && base.CanRead(sys.jobs[i].pos, sys.jobs[i].count)
    ensures Reachable(sys, s')
    ensures var p := base.dev.Start(sys.jobs[i].pos);
            s' == State(s.fields.(seek := None), None,
                        s.pcs[i := Unlocked(p, base.Copied(p, sys.jobs[i].count))], s.order + [i])
    ensures s'.fields.Is(Apply(base, sys.jobs[i]))
  {
    CopyActs(sys.jobs[i], base, s.fields, s.pcs[i].tail);
    var entered := Enters(sys, s, i);
    var copied := ReaderCopies(sys, entered, i, base);
    s' := Go(sys, copied, i);
    assert entered.pcs[i := copied.pcs[i]][i := s'.pcs[i]] == s.pcs[i := s'.pcs[i]];
  }

  /**
   Reader `i` has returned -ENOMEM, its file is where the read started, not where it ended, and the
   device is the one that its read, and no other call, leaves: a pending seek is gone.
   */
  predicate CopiedButNoMem(sys: System, s: State, i: nat) {
    && i < |s.pcs| == |sys.jobs| && sys.jobs[i].Reader?
    && s.pcs[i] == Returned(NoMem, sys.start.dev.Start(sys.jobs[i].pos))
    && s.fields.Is(Apply(sys.start, sys.jobs[i]))
  }

  /** For every reader inside the data that happens in some schedule as soon as there is any other thread. */
  lemma CopiedButNoMemExactly(sys: System, i: nat)
    requires sys.start.Valid() && i < |sys.jobs| && sys.jobs[i].Reader?
    requires sys.jobs[i].pos < |sys.start.Content()| && sys.start.CanRead(sys.jobs[i].pos, sys.jobs[i].count)
    ensures (exists s :: Reachable(sys, s) && CopiedButNoMem(sys, s, i)) <==> |sys.jobs| >= 2
  {
    if |sys.jobs| >= 2 {
      var s := Start(sys);
      assert s.fields.Is(sys.start);
      s := ReaderRuns(sys, s, i, sys.start);
      s := Begins(sys, s, if i == 0 then 1 else 0);
      s := Go(sys, s, i);
      assert CopiedButNoMem(sys, s, i);
    } else {
      forall s | Reachable(sys, s)
        ensures !CopiedButNoMem(sys, s, i)
      {
        var schedule: seq<nat> :| Schedulable(sys, schedule) && After(sys, schedule) == s;
        AloneNeverNoMem(sys, schedule);
      }
    }
  }
}
