/**
 Arbitrary sequences of writes, reads of any open files, seeks and flushes, and what holds
 over all of them.
 */
module Runs {
  import opened Bytes
  import opened CircularBuffers
  import opened DeviceModel
  import opened Writes

  datatype Op = OpWrite(chunk: Bytes) | OpRead(file: nat, count: nat) | OpSeek(cmd: nat, offset: nat) | OpFlush

  /** What a call returns; a read also moves the file's position. */
  datatype Out = Wrote(count: nat) | Got(bytes: Bytes, pos: nat) | Done

  /** The device and the positions of the open files; a file just opened is at 0. */
  datatype World<D> = World(dev: D, files: map<nat, nat>)

  function Pos(files: map<nat, nat>, file: nat): nat { if file in files then files[file] else 0 }

  /** What the source asks of a call: bytes to look at, a window it can copy, slots that exist. */
  predicate Enabled(w: World<Slotted>, op: Op) {
    match op
    case OpWrite(chunk) => chunk != [] || w.dev.dev.pending != []
    case OpRead(file, count) => w.dev.CanRead(Pos(w.files, file), count)
    case OpSeek(cmd, offset) => w.dev.CanSeek(cmd, offset)
    case OpFlush => true
  }

  function Step(w: World<Slotted>, op: Op): (World<Slotted>, Out)
    requires Enabled(w, op)
  {
    match op
    case OpWrite(chunk) => (World(w.dev.Write(chunk), w.files), Wrote(|chunk|))
    case OpRead(file, count) =>
      var r := w.dev.Read(Pos(w.files, file), count);
      (World(r.dev, w.files[file := r.pos]), Got(r.bytes, r.pos))
    case OpSeek(cmd, offset) => (World(w.dev.Seek(cmd, offset), w.files), Done)
    case OpFlush => (World(w.dev.Flush(), w.files), Done)
  }

  predicate Allowed(w: World<Slotted>, ops: seq<Op>)
    decreases |ops|, 0
  {
    ops == [] || (Allowed(w, ops[..|ops| - 1]) && Enabled(Exec(w, ops[..|ops| - 1]).0, ops[|ops| - 1]))
  }

  function Exec(w: World<Slotted>, ops: seq<Op>): (r: (World<Slotted>, seq<Out>))
    requires Allowed(w, ops)
    ensures |r.1| == |ops|
    decreases |ops|, 1
  {
    if ops == [] then (w, [])
    else
      var before := Exec(w, ops[..|ops| - 1]);
      var step := Step(before.0, ops[|ops| - 1]);
      (step.0, before.1 + [step.1])
  }

  /** Every beginning of an allowed run is one. */
  lemma {:induction false} AllowedPrefix(w: World<Slotted>, ops: seq<Op>, k: nat)
    requires Allowed(w, ops) && k <= |ops|
    ensures Allowed(w, ops[..k])
    ensures k < |ops| ==> Enabled(Exec(w, ops[..k]).0, ops[k])
  {
    var init := ops[..|ops| - (if ops == [] then 0 else 1)];
    if k < |ops| {
      AllowedPrefix(w, init, k);
      assert init[..k] == ops[..k];
    } else {
      assert ops[..k] == ops;
    }
  }

  /** The states of a run: call number `k` is made in state `k` and leads to state `k+1`. */
  function Trace(w: World<Slotted>, ops: seq<Op>): (t: seq<World<Slotted>>)
    requires Allowed(w, ops)
    ensures |t| == |ops| + 1 && t[0] == w && t[|ops|] == Exec(w, ops).0
  {
    if ops == [] then [w] else Trace(w, ops[..|ops| - 1]) + [Exec(w, ops).0]
  }

  lemma {:induction false} TracePrefix(w: World<Slotted>, ops: seq<Op>, k: nat)
    requires Allowed(w, ops) && k <= |ops|
    ensures Allowed(w, ops[..k]) && Trace(w, ops[..k]) == Trace(w, ops)[..k + 1]
    ensures k < |ops| ==> Enabled(Trace(w, ops)[k], ops[k]) && Trace(w, ops)[k + 1] == Step(Trace(w, ops)[k], ops[k]).0
  {
    if k == |ops| {
      assert ops[..k] == ops;
    } else {
      var init := ops[..|ops| - 1];
      TracePrefix(w, init, k);
      assert init[..k] == ops[..k];
    }
  }

  lemma {:induction false} RunKeepsValid(w: World<Slotted>, ops: seq<Op>)
    requires w.dev.Valid() && Allowed(w, ops)
    ensures Exec(w, ops).0.dev.Valid()
  {
    if ops != [] {
      RunKeepsValid(w, ops[..|ops| - 1]);
      StepKeepsValid(Exec(w, ops[..|ops| - 1]).0, ops[|ops| - 1]);
    }
  }

  lemma StepKeepsValid(w: World<Slotted>, op: Op)
    requires w.dev.Valid() && Enabled(w, op)
    ensures Step(w, op).0.dev.Valid()
  {
    if op.OpWrite? {
      WriteKeepsSlots(w.dev, op.chunk);
    }
  }

  // Writes, whatever else happens in between.

  /** The chunks written since the last flush. */
  function SinceFlush(ops: seq<Op>): seq<Bytes> {
    if ops == [] then []
    else
      var init := SinceFlush(ops[..|ops| - 1]);
      match ops[|ops| - 1]
      case OpFlush => []
      case OpWrite(chunk) => init + [chunk]
      case OpRead(_, _) => init
      case OpSeek(_, _) => init
  }

  /** Log and tail depend on the chunks written since the last flush only. */
  lemma {:induction false} RunIsWrites(slots: Slots, files: map<nat, nat>, ops: seq<Op>)
    requires Allowed(World(Slotted(EMPTY, slots), files), ops)
    ensures var d, r := Exec(World(Slotted(EMPTY, slots), files), ops).0.dev.dev, WriteAll(EMPTY, SinceFlush(ops));
            d.log == r.log && d.pending == r.pending
  {
    if ops != [] {
      var init, op := ops[..|ops| - 1], ops[|ops| - 1];
      RunIsWrites(slots, files, init);
      if op.OpWrite? {
        assert SinceFlush(ops)[..|SinceFlush(ops)| - 1] == SinceFlush(init);
      }
    }
  }

  /** So in a whole run nothing written since the last flush is lost or reordered, and what is live is the end of it. */
  lemma RunConserves(slots: Slots, files: map<nat, nat>, ops: seq<Op>)
    requires Allowed(World(Slotted(EMPTY, slots), files), ops)
    ensures var d := Exec(World(Slotted(EMPTY, slots), files), ops).0.dev.dev;
            && d.Valid()
            && Flat(d.log) + d.pending == Flat(SinceFlush(ops))
            && Flat(d.log[..Oldest(|d.log|)]) + d.Content() + d.pending == Flat(SinceFlush(ops))
            && |Live(d.log)| == Min(|d.log|, SLOTS)
  {
    var d := Exec(World(Slotted(EMPTY, slots), files), ops).0.dev.dev;
    RunIsWrites(slots, files, ops);
    Conservation(EMPTY, SinceFlush(ops));
    WriteAllValid(EMPTY, SinceFlush(ops));
    FlatSplit(d.log, Oldest(|d.log|));
    CutInside(d.log);
    assert Flat(EMPTY.log) + EMPTY.pending + Flat(SinceFlush(ops)) == Flat(SinceFlush(ops));
  }

  // The pending seek.

  /** A call that leaves a pending seek as it is: a write, or a read stopped at end of data. */
  predicate LeavesSeek(w: World<Slotted>, op: Op) {
    match op
    case OpWrite(_) => true
    case OpRead(file, _) => Pos(w.files, file) >= |w.dev.Content()|
    case OpSeek(_, _) => false
    case OpFlush => false
  }

  /** Call `j` is a seek to position `q` that no later call of the run has replaced, consumed or flushed. */
  ghost predicate SeekStands(t: seq<World<Slotted>>, ops: seq<Op>, j: nat, q: nat)
    requires |t| == |ops| + 1
  {
    && j < |ops| && ops[j].OpSeek?
    && ops[j].cmd <= SLOTS && q == t[j].dev.SeekTo(ops[j].cmd, ops[j].offset)
    && forall k :: j < k < |ops| ==> LeavesSeek(t[k], ops[k])
  }

  ghost predicate SomeSeekStands(t: seq<World<Slotted>>, ops: seq<Op>, q: nat)
    requires |t| == |ops| + 1
  {
    exists j: nat :: SeekStands(t, ops, j, q)
  }

  /** A seek to `q` is pending exactly when some seek to `q` still stands. */
  lemma {:induction false} SeekPendingExactly(w: World<Slotted>, ops: seq<Op>, q: nat)
    requires Allowed(w, ops) && w.dev.dev.seek.None?
    ensures Exec(w, ops).0.dev.dev.seek == Some(q) <==> SomeSeekStands(Trace(w, ops), ops, q)
  {
    if ops != [] {
      var n, t := |ops| - 1, Trace(w, ops);
      SeekPendingExactly(w, ops[..n], q);
      TracePrefix(w, ops, n);
      SeekAfterStep(t[n], ops[n], q);
      if ops[n].OpSeek? {
        NewSeekStands(t, ops, q);
      } else {
        StandsStep(t, ops, q);
      }
    }
  }

  /** What one call does to a pending seek. */
  lemma SeekAfterStep(w: World<Slotted>, op: Op, q: nat)
    requires Enabled(w, op)
    ensures op.OpSeek? ==> Step(w, op).0.dev.dev.seek == Some(w.dev.SeekTo(op.cmd, op.offset))
    ensures !op.OpSeek? ==> (Step(w, op).0.dev.dev.seek == Some(q) <==> w.dev.dev.seek == Some(q) && LeavesSeek(w, op))
  {
  }

  /** A seek as last call replaces all others. */
  lemma NewSeekStands(t: seq<World<Slotted>>, ops: seq<Op>, q: nat)
    requires |t| == |ops| + 1 && ops != [] && ops[|ops| - 1].OpSeek?
    requires Enabled(t[|ops| - 1], ops[|ops| - 1])
    ensures var n := |ops| - 1;
            SomeSeekStands(t, ops, q) <==> t[n].dev.SeekTo(ops[n].cmd, ops[n].offset) == q
  {
    var n := |ops| - 1;
    assert !LeavesSeek(t[n], ops[n]);
    assert SeekStands(t, ops, n, q) <==> t[n].dev.SeekTo(ops[n].cmd, ops[n].offset) == q;
  }

  /** Under another call, exactly those seeks stand that did before and are left alone. */
  lemma StandsStep(t: seq<World<Slotted>>, ops: seq<Op>, q: nat)
    requires |t| == |ops| + 1 && ops != [] && !ops[|ops| - 1].OpSeek?
    ensures var n := |ops| - 1;
            SomeSeekStands(t, ops, q) <==> SomeSeekStands(t[..n + 1], ops[..n], q) && LeavesSeek(t[n], ops[n])
  {
    var n := |ops| - 1;
    var t', ops' := t[..n + 1], ops[..n];
    if j: nat :| SeekStands(t, ops, j, q) {
      assert SeekStands(t', ops', j, q);
    }
    if j: nat :| SeekStands(t', ops', j, q) {
      assert LeavesSeek(t[n], ops[n]) ==> SeekStands(t, ops, j, q);
    }
  }

  /** Call `k` is a read past the end-of-data check, and a seek is pending. */
  predicate ServesSeek(t: seq<World<Slotted>>, ops: seq<Op>, k: nat)
    requires |t| == |ops| + 1
  {
    k < |ops| && ops[k].OpRead? && t[k].dev.dev.seek.Some? && !LeavesSeek(t[k], ops[k])
  }

  /** A read starts at a seek's position only if that seek stands, and then the seek is gone. */
  lemma ReadServesStandingSeek(w: World<Slotted>, ops: seq<Op>, k: nat)
    requires Allowed(w, ops) && w.dev.dev.seek.None? && ServesSeek(Trace(w, ops), ops, k)
    ensures var t := Trace(w, ops);
            var d := t[k].dev.dev;
            && SomeSeekStands(t[..k + 1], ops[..k], d.seek.value)
            && d.Start(Pos(t[k].files, ops[k].file)) == d.seek.value
            && t[k + 1].dev.dev.seek.None?
  {
    TracePrefix(w, ops, k);
    SeekPendingExactly(w, ops[..k], Trace(w, ops)[k].dev.dev.seek.value);
  }

  /** No seek serves two reads: between two reads that start at a seek there is another seek. */
  lemma SeekServesOnce(w: World<Slotted>, ops: seq<Op>, k1: nat, k2: nat)
    requires Allowed(w, ops) && w.dev.dev.seek.None?
    requires k1 < k2 && ServesSeek(Trace(w, ops), ops, k1) && ServesSeek(Trace(w, ops), ops, k2)
    ensures exists j :: k1 < j < k2 && ops[j].OpSeek?
  {
    var t := Trace(w, ops);
    ReadServesStandingSeek(w, ops, k2);
    var j: nat :| SeekStands(t[..k2 + 1], ops[..k2], j, t[k2].dev.dev.seek.value);
    assert ops[..k2][k1] == ops[k1] && ops[..k2][j] == ops[j];
    assert t[..k2 + 1][k1] == t[k1];
  }

  // Runs in which the dead slots make no difference.

  /** Find accepts the start of every read inside the content, and seeks are to commands that exist. */
  predicate Regular(w: World<Slotted>, op: Op) {
    match op
    case OpWrite(_) => true
    case OpRead(file, _) =>
      var pos := Pos(w.files, file);
      pos < |w.dev.Content()| && w.dev.dev.Start(pos) < |w.dev.Content()| ==> w.dev.Finds(w.dev.dev.Start(pos))
    case OpSeek(cmd, _) => cmd <= |Live(w.dev.dev.log)|
    case OpFlush => true
  }

  predicate RegularRun(w: World<Slotted>, ops: seq<Op>)
    requires Allowed(w, ops)
  {
    forall k :: 0 <= k < |ops| ==> Regular(Trace(w, ops)[k], ops[k])
  }

  /** The byte-string device, which has no slots; a seek beyond its commands means nothing to it. */
  function PlainStep(w: World<Dev>, op: Op): (World<Dev>, Out) {
    match op
    case OpWrite(chunk) => (World(w.dev.Write(chunk), w.files), Wrote(|chunk|))
    case OpRead(file, count) =>
      var r := w.dev.Read(Pos(w.files, file), count);
      (World(r.dev, w.files[file := r.pos]), Got(r.bytes, r.pos))
    case OpSeek(cmd, offset) =>
      (World(if cmd <= |Live(w.dev.log)| then w.dev.Seek(cmd, offset) else w.dev, w.files), Done)
    case OpFlush => (World(EMPTY, w.files), Done)
  }

  function PlainExec(w: World<Dev>, ops: seq<Op>): (World<Dev>, seq<Out>) {
    if ops == [] then (w, [])
    else
      var before := PlainExec(w, ops[..|ops| - 1]);
      var step := PlainStep(before.0, ops[|ops| - 1]);
      (step.0, before.1 + [step.1])
  }

  /** The device without its slots. */
  function Plain(w: World<Slotted>): World<Dev> { World(w.dev.dev, w.files) }

  lemma RegularStep(w: World<Slotted>, op: Op)
    requires w.dev.Valid() && Enabled(w, op) && Regular(w, op)
    ensures (Plain(Step(w, op).0), Step(w, op).1) == PlainStep(Plain(w), op)
  {
    match op
    case OpWrite(_) =>
    case OpRead(file, count) => RegularRead(w.dev, Pos(w.files, file), count);
    case OpSeek(cmd, offset) => RegularSeek(w.dev, cmd, offset);
    case OpFlush =>
  }

  /** On a regular run the device with slots answers as the byte-string device does. */
  lemma {:induction false} RegularRunIsPlain(w: World<Slotted>, ops: seq<Op>)
    requires w.dev.Valid() && Allowed(w, ops) && RegularRun(w, ops)
    ensures (Plain(Exec(w, ops).0), Exec(w, ops).1) == PlainExec(Plain(w), ops)
  {
    if ops != [] {
      var init, n := ops[..|ops| - 1], |ops| - 1;
      forall k | 0 <= k < n
        ensures Regular(Trace(w, init)[k], init[k])
      {
        assert Trace(w, init)[k] == Trace(w, ops)[k];
      }
      RegularRunIsPlain(w, init);
      RunKeepsValid(w, init);
      assert Trace(w, ops)[n] == Exec(w, init).0;
      RegularStep(Exec(w, init).0, ops[n]);
    }
  }

  /** So two devices that differ in their slots only cannot be told apart by regular runs. */
  lemma SameAnswers(w: World<Slotted>, w': World<Slotted>, ops: seq<Op>)
    requires w.dev.Valid() && w'.dev.Valid() && Plain(w) == Plain(w')
    requires Allowed(w, ops) && RegularRun(w, ops) && Allowed(w', ops) && RegularRun(w', ops)
    ensures Exec(w, ops).1 == Exec(w', ops).1
    ensures Plain(Exec(w, ops).0) == Plain(Exec(w', ops).0)
  {
    RegularRunIsPlain(w, ops);
    RegularRunIsPlain(w', ops);
  }

  /** All bytes the device holds on to, those of dead slots included. */
  function Footprint(s: Slotted): nat { |Flat(s.slots)| + |s.dev.pending| }

  /** The number of bytes written in a run. */
  function Written(ops: seq<Op>): nat {
    if ops == [] then 0
    else Written(ops[..|ops| - 1]) + if ops[|ops| - 1].OpWrite? then |ops[|ops| - 1].chunk| else 0
  }

  lemma {:induction false} FootprintGrows(w: World<Slotted>, ops: seq<Op>)
    requires Allowed(w, ops)
    ensures Footprint(Exec(w, ops).0.dev) <= Footprint(w.dev) + Written(ops)
  {
    if ops != [] {
      var s, op := Exec(w, ops[..|ops| - 1]).0.dev, ops[|ops| - 1];
      FootprintGrows(w, ops[..|ops| - 1]);
      if op.OpWrite? {
        FlatUpdate(s.slots, |s.dev.log| % SLOTS, s.dev.pending + op.chunk);
      }
    }
  }

  /** While the sum of all sizes fits into a `size_t`, every read is regular. */
  lemma SmallIsRegular(w: World<Slotted>, ops: seq<Op>, k: nat)
    requires w.dev.Valid() && Allowed(w, ops) && k < |ops|
    requires Footprint(w.dev) + Written(ops[..k]) < SIZE_T
    ensures Trace(w, ops)[k].dev.FindsAll()
    ensures Regular(Trace(w, ops)[k], ops[k]) <==>
            (ops[k].OpSeek? ==> ops[k].cmd <= |Live(Trace(w, ops)[k].dev.dev.log)|)
  {
    TracePrefix(w, ops, k);
    FootprintGrows(w, ops[..k]);
    RunKeepsValid(w, ops[..k]);
    var s := Trace(w, ops)[k].dev;
    assert s == Exec(w, ops[..k]).0.dev;
    FindAcceptsUnwrapped(s.slots, s.dev.log);
    FindsContent(s);
  }
}
