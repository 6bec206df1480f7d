/**
 The two calls of mutex_is_locked in aesd_read and aesd_write under every schedule
 (aesd-char-driver/main.c:76-91, 158-165, 215-230, 270-277), what writers return, and that no schedule
 is endless or stuck.
 */
module LockChecks {
  import opened Bytes
  import opened CircularBuffers
  import opened DeviceModel
  import opened Writes
  import opened Locking
  import opened LockOutcomes

  lemma {:induction false} SchedulablePrefix(sys: System, schedule: seq<nat>, t: nat)
    requires Schedulable(sys, schedule) && t <= |schedule|
    ensures Schedulable(sys, schedule[..t])
    ensures t < |schedule| ==> CanStep(sys, After(sys, schedule[..t]), schedule[t])
  {
    if t == |schedule| {
      assert schedule[..t] == schedule;
    } else {
      var init := schedule[..|schedule| - 1];
      SchedulablePrefix(sys, init, t);
      assert init[..t] == schedule[..t];
    }
  }

  /** Step `t` of the schedule is one of thread `i`, and is made from state `s`. */
  ghost predicate StepsFrom(sys: System, schedule: seq<nat>, t: nat, i: nat, s: State) {
    t < |schedule| && schedule[t] == i < |sys.jobs| && Schedulable(sys, schedule[..t]) && After(sys, schedule[..t]) == s
  }

  /** The state after that step. */
  lemma NextState(sys: System, schedule: seq<nat>, t: nat, i: nat, s: State)
    requires Schedulable(sys, schedule) && StepsFrom(sys, schedule, t, i, s)
    ensures Schedulable(sys, schedule[..t + 1]) && CanStep(sys, s, i)
    ensures After(sys, schedule[..t + 1]) == Step(sys, s, i)
  {
    SchedulablePrefix(sys, schedule, t);
    SchedulablePrefix(sys, schedule, t + 1);
    assert schedule[..t + 1][..t] == schedule[..t];
  }

  // What never changes again.

  /** It has passed the first check. */
  predicate Passed(pc: Pc) { !pc.AtSize? && !pc.AtCheck? && !pc.Refused? }

  predicate ReturnedNoMem(pc: Pc) { pc.Returned? && pc.outcome.NoMem? }

  /** It has passed the second check. */
  predicate PassedTwice(pc: Pc) { pc.Advancing? || (pc.Returned? && !pc.outcome.NoMem?) }

  predicate Kept(pc: Pc, pc': Pc) {
    && (pc.Refused? ==> pc'.Refused?)
    && (Passed(pc) ==> Passed(pc'))
    && (ReturnedNoMem(pc) ==> pc' == pc)
    && (PassedTwice(pc) ==> PassedTwice(pc'))
  }

  lemma ActKeeps(job: Job, pc: Pc, f: Shared, free: bool)
    ensures Kept(pc, Act(job, pc, f, free).1)
  {
  }

  /** From any state of a schedule to a later one. */
  lemma {:induction false} LaterKeeps(sys: System, schedule: seq<nat>, t: nat, i: nat)
    requires t <= |schedule| && Schedulable(sys, schedule) && Schedulable(sys, schedule[..t]) && i < |sys.jobs|
    ensures Kept(After(sys, schedule[..t]).pcs[i], After(sys, schedule).pcs[i])
  {
    if t == |schedule| {
      assert schedule[..t] == schedule;
    } else {
      var init, j := schedule[..|schedule| - 1], schedule[|schedule| - 1];
      var s := After(sys, init);
      assert init[..t] == schedule[..t];
      LaterKeeps(sys, init, t, i);
      if j == i {
        ActKeeps(sys.jobs[i], s.pcs[i], s.fields, s.holder.None?);
      }
    }
  }

  // The first check.

  /**
   A thread that makes its first check while the mutex is held is refused, now and for good; one that
   finds the mutex free is not.  A refused thread never gets the mutex: it is not in the order, so its
   chunk is none of those that make up log and tail.
   */
  lemma FirstCheckExactly(sys: System, schedule: seq<nat>, t: nat, i: nat, s: State)
    requires sys.start.Valid() && Schedulable(sys, schedule)
    requires StepsFrom(sys, schedule, t, i, s) && s.pcs[i].AtCheck?
    ensures After(sys, schedule).pcs[i].Refused? <==> s.holder.Some?
    ensures s.holder.Some? ==> i !in After(sys, schedule).order
  {
    NextState(sys, schedule, t, i, s);
    LaterKeeps(sys, schedule, t + 1, i);
    Always(sys, schedule);
  }

  /** And no thread is refused in any other way. */
  lemma {:induction false} RefusedWasChecked(sys: System, schedule: seq<nat>, i: nat) returns (t: nat, s: State)
    requires Schedulable(sys, schedule) && i < |sys.jobs| && After(sys, schedule).pcs[i].Refused?
    ensures StepsFrom(sys, schedule, t, i, s) && s.pcs[i].AtCheck? && s.holder.Some?
  {
    var n := |schedule| - 1;
    var init := schedule[..n];
    if After(sys, init).pcs[i].Refused? {
      t, s := RefusedWasChecked(sys, init, i);
      assert init[..t] == schedule[..t];
    } else {
      t, s := n, After(sys, init);
    }
  }

  /** So while the mutex is free, log and tail are made of the chunks of other threads only. */
  lemma RefusedBytesNeverAppear(sys: System, schedule: seq<nat>, i: nat)
    requires sys.start.Valid() && Schedulable(sys, schedule) && i < |sys.jobs|
    requires After(sys, schedule).pcs[i].Refused? && After(sys, schedule).holder.None?
    ensures var s, d := After(sys, schedule), sys.start.dev;
            && Threads(sys.jobs, s.order) && i !in s.order
            && Flat(s.fields.log) + s.fields.Tail() == Flat(d.log) + d.pending + Flat(Chunks(sys.jobs, s.order))
  {
    WritersSerialised(sys, schedule);
    WritersConserve(sys, schedule);
  }

  /** A thread can be refused, whatever the calls and the device, if and only if there is another thread. */
  lemma CanBeRefusedExactly(sys: System, i: nat)
    requires sys.start.Valid() && i < |sys.jobs|
    ensures (exists s :: Reachable(sys, s) && i < |s.pcs| && s.pcs[i].Refused?) <==> |sys.jobs| >= 2
  {
    if |sys.jobs| >= 2 {
      var s := RefusedRun(sys, i, if i == 0 then 1 else 0);
    } else {
      forall s | Reachable(sys, s)
        ensures !(i < |s.pcs| && s.pcs[i].Refused?)
      {
        var schedule: seq<nat> :| Schedulable(sys, schedule) && After(sys, schedule) == s;
        AloneNeverNoMem(sys, schedule);
      }
    }
  }

  lemma RefusedRun(sys: System, i: nat, j: nat) returns (s: State)
    requires i < |sys.jobs| && j < |sys.jobs| && i != j
    ensures Reachable(sys, s) && |s.pcs| == |sys.jobs| && s.pcs[i].Refused?
  {
    s := Start(sys);
    s := Begins(sys, s, j);
    if sys.jobs[i].Writer? {
      s := Go(sys, s, i);
    }
    s := Go(sys, s, i);
  }

  // The second check.

  /** After its call a thread returns -ENOMEM if it finds the mutex held by another one, and only then. */
  lemma SecondCheckExactly(sys: System, schedule: seq<nat>, t: nat, i: nat, s: State)
    requires Schedulable(sys, schedule)
    requires StepsFrom(sys, schedule, t, i, s) && s.pcs[i].Unlocked?
    ensures ReturnedNoMem(After(sys, schedule).pcs[i]) <==> s.holder.Some?
    ensures s.holder.None? ==> PassedTwice(After(sys, schedule).pcs[i])
  {
    NextState(sys, schedule, t, i, s);
    LaterKeeps(sys, schedule, t + 1, i);
  }

  /** A writer that returns was served, and returns the number of bytes it was given, or -ENOMEM. */
  lemma WritersReturn(sys: System, schedule: seq<nat>, i: nat)
    requires sys.start.Valid() && Schedulable(sys, schedule) && i < |sys.jobs| && sys.jobs[i].Writer?
    requires After(sys, schedule).pcs[i].Returned?
    ensures i in After(sys, schedule).order
    ensures var outcome := After(sys, schedule).pcs[i].outcome;
            outcome == NoMem || outcome == WroteCount(|sys.jobs[i].chunk|)
  {
    var s := After(sys, schedule);
    Always(sys, schedule);
    assert i in s.order;
    var k :| 0 <= k < |s.order| && s.order[k] == i;
    assert ServedNo(sys, s, k);
  }

  // Schedules end.

  predicate Finished(pc: Pc) { pc.Refused? || pc.Returned? }

  /** In every reachable state in which some thread has not finished, some such thread is not blocked by the mutex. */
  lemma NeverStuck(sys: System, s: State, i: nat) returns (j: nat)
    requires sys.start.Valid() && Reachable(sys, s) && i < |s.pcs| && !Finished(s.pcs[i])
    ensures j < |s.pcs| && !Finished(s.pcs[j]) && (s.pcs[j].AtLock? ==> s.holder.None?)
  {
    ReachableInv(sys, s);
    if s.holder.Some? {
      HeldByInsider(sys, s);
      j := s.holder.value;
    } else {
      j := i;
    }
  }

  /** The most steps that a thread can still make. */
  function StepsLeft(pc: Pc): nat {
    match pc
    case AtSize => 11
    case AtCheck(_) => 10
    case AtLock(_) => 9
    case Entered(_) => 8
    case Joined(_) => 7
    case Cleared(_) => 6
    case Shrunk(_) => 5
    case Grown(_) => 4
    case Stored => 3
    case Ended(_) => 1
    case Placed(_, _) => 4
    case Copied(_, _) => 3
    case Unlocked(_, _) => 2
    case Advancing(_, _) => 1
    case Refused => 0
    case Returned(_, _) => 0
  }

  function TotalLeft(pcs: seq<Pc>): nat {
    if pcs == [] then 0 else TotalLeft(pcs[..|pcs| - 1]) + StepsLeft(pcs[|pcs| - 1])
  }

  lemma {:induction false} TotalUpdate(pcs: seq<Pc>, i: nat, pc: Pc)
    requires i < |pcs|
    ensures TotalLeft(pcs[i := pc]) == TotalLeft(pcs) - StepsLeft(pcs[i]) + StepsLeft(pc)
  {
    var n := |pcs| - 1;
    if i == n {
      assert pcs[i := pc][..n] == pcs[..n];
    } else {
      TotalUpdate(pcs[..n], i, pc);
      assert pcs[i := pc][..n] == pcs[..n][i := pc];
    }
  }

  lemma {:induction false} TotalAtMost(pcs: seq<Pc>)
    ensures TotalLeft(pcs) <= 11 * |pcs|
  {
    if pcs != [] {
      TotalAtMost(pcs[..|pcs| - 1]);
    }
  }

  lemma ActLeft(job: Job, pc: Pc, f: Shared, free: bool)
    requires !Finished(pc)
    ensures StepsLeft(Act(job, pc, f, free).1) < StepsLeft(pc)
  {
  }

  lemma {:induction false} LengthAndLeft(sys: System, schedule: seq<nat>)
    requires Schedulable(sys, schedule)
    ensures |schedule| + TotalLeft(After(sys, schedule).pcs) <= TotalLeft(Initial(sys).pcs)
  {
    if schedule != [] {
      var s, i := After(sys, schedule[..|schedule| - 1]), schedule[|schedule| - 1];
      LengthAndLeft(sys, schedule[..|schedule| - 1]);
      ActLeft(sys.jobs[i], s.pcs[i], s.fields, s.holder.None?);
      TotalUpdate(s.pcs, i, Act(sys.jobs[i], s.pcs[i], s.fields, s.holder.None?).1);
    }
  }

  /** No call runs for ever: a schedule has at most eleven steps per thread. */
  lemma EveryScheduleEnds(sys: System, schedule: seq<nat>)
    requires Schedulable(sys, schedule)
    ensures |schedule| <= 11 * |sys.jobs|
  {
    LengthAndLeft(sys, schedule);
    TotalAtMost(Initial(sys).pcs);
  }
}
