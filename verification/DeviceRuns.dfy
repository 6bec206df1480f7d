/**
 The device class over whole runs: every answer is that of the device of DeviceModel.dfy, and on
 regular runs that of the byte-string device, whatever the dead slots contain.
 */
module DeviceRuns {
  import opened Bytes
  import opened CircularBuffers
  import opened DeviceModel
  import opened Device
  import opened Runs
  import opened Reads

  /** One call. */
  method ExecuteOp(dev: AesdDevice, files: map<nat, nat>, op: Op) returns (out: Out, newFiles: map<nat, nat>)
    requires dev.Valid() && Enabled(World(dev.State(), files), op)
    modifies dev, dev.buffer, dev.buffer.entry
    ensures dev.Valid()
    ensures (World(dev.State(), newFiles), out) == Step(World(old(dev.State()), files), op)
  {
    newFiles := files;
    out := Done;
    match op {
      case OpWrite(chunk) =>
        var buf := new byte[|chunk|](i requires 0 <= i < |chunk| => chunk[i]);
        assert buf[..|chunk|] == chunk;
        var n := dev.Write(buf, |chunk|);
        out := Wrote(n);
      case OpRead(file, count) =>
        var buf := new byte[count];
        var n, pos := dev.Read(buf, count, Pos(files, file));
        newFiles := files[file := pos];
        out := Got(buf[..n], pos);
      case OpSeek(cmd, offset) =>
        var r := dev.AdjustFileOffset(cmd, offset);
      case OpFlush =>
        var r := dev.Flush();
    }
  }

  lemma PlainIfRegular(w: World<Slotted>, ops: seq<Op>)
    requires w.dev.Valid() && Allowed(w, ops)
    ensures RegularRun(w, ops) ==> (Plain(Exec(w, ops).0), Exec(w, ops).1) == PlainExec(Plain(w), ops)
  {
    if RegularRun(w, ops) {
      RegularRunIsPlain(w, ops);
    }
  }

  /** A run: every return value, every byte returned and every file position is that of the model. */
  method Execute(dev: AesdDevice, files: map<nat, nat>, ops: seq<Op>) returns (outs: seq<Out>, newFiles: map<nat, nat>)
    requires dev.Valid() && Allowed(World(dev.State(), files), ops)
    modifies dev, dev.buffer, dev.buffer.entry
    ensures dev.Valid()
    ensures (World(dev.State(), newFiles), outs) == Exec(World(old(dev.State()), files), ops)
    ensures RegularRun(World(old(dev.State()), files), ops) ==>
            (World(dev.Abs(), newFiles), outs) == PlainExec(World(old(dev.Abs()), files), ops)
  {
    ghost var w := World(dev.State(), files);
    outs, newFiles := [], files;
    for i := 0 to |ops|
      invariant dev.Valid() && Allowed(w, ops[..i])
      invariant (World(dev.State(), newFiles), outs) == Exec(w, ops[..i])
    {
      AllowedPrefix(w, ops, i);
      AllowedPrefix(w, ops, i + 1);
      assert ops[..i + 1][..i] == ops[..i];
      var out;
      out, newFiles := ExecuteOp(dev, newFiles, ops[i]);
      outs := outs + [out];
    }
    assert ops[..|ops|] == ops;
    PlainIfRegular(w, ops);
  }

  /**
   Flush against a new device.  A used device that is flushed, stale slots and all, and a new one,
   whose slots hold `stale`, make a later run on the empty device, each with its own slots; if the
   run is regular for both, their answers are the same.
   */
  method FlushIsReset(used: AesdDevice, stale: Slots, files: map<nat, nat>, ops: seq<Op>)
    returns (unused: AesdDevice, outs1: seq<Out>, files1: map<nat, nat>, outs2: seq<Out>, files2: map<nat, nat>)
    requires used.Valid()
    requires Allowed(World(Slotted(EMPTY, used.State().slots), files), ops)
    requires Allowed(World(Slotted(EMPTY, stale), files), ops)
    modifies used, used.buffer, used.buffer.entry
    ensures fresh(unused) && used.Valid() && unused.Valid()
    ensures (World(used.State(), files1), outs1) == Exec(World(Slotted(EMPTY, old(used.State()).slots), files), ops)
    ensures (World(unused.State(), files2), outs2) == Exec(World(Slotted(EMPTY, stale), files), ops)
    ensures RegularRun(World(Slotted(EMPTY, old(used.State()).slots), files), ops)
            && RegularRun(World(Slotted(EMPTY, stale), files), ops) ==>
            && outs1 == outs2 && files1 == files2 && used.Abs() == unused.Abs()
            && (World(used.Abs(), files1), outs1) == PlainExec(World(EMPTY, files), ops)
  {
    var r := used.Flush();
    outs1, files1 := Execute(used, files, ops);
    unused := new AesdDevice.InitModule(stale);
    outs2, files2 := Execute(unused, files, ops);
  }

  /** One of those reads. */
  method ReadSome(dev: AesdDevice, pos: nat, count: nat) returns (bytes: Bytes, end: nat)
    requires dev.Valid() && !dev.seek && dev.State().FindsAll() && count > 0
    requires pos <= |dev.State().Content()| && dev.State().CanRead(pos, count)
    modifies dev
    ensures dev.Valid() && dev.State() == old(dev.State())
    ensures end == dev.State().Read(pos, count).pos && pos <= end <= |dev.State().Content()|
    ensures bytes == dev.State().Content()[pos..end]
    ensures end == pos <==> pos == |dev.State().Content()|
  {
    OneReadIsContent(dev.State(), pos, count);
    var buf := new byte[count];
    var n;
    n, end := dev.Read(buf, count, pos);
    bytes := buf[..n];
  }

  /** A file that is read until a read returns nothing yields the content from its position on. */
  method ReadToEnd(dev: AesdDevice, pos: nat, count: nat) returns (bytes: Bytes, end: nat)
    requires dev.Valid() && !dev.seek && dev.State().FindsAll() && count > 0
    requires pos <= |dev.State().Content()| && CanReadOn(dev.State(), pos, count)
    modifies dev
    ensures dev.Valid() && dev.State() == old(dev.State())
    ensures bytes == dev.State().Content()[pos..] && end == |dev.State().Content()|
  {
    ghost var s := dev.State();
    bytes, end := [], pos;
    var more := true;
    while more
      invariant dev.Valid() && dev.State() == s
      invariant pos <= end <= |s.Content()| && bytes == s.Content()[pos..end]
      invariant CanReadOn(s, end, count)
      invariant !more ==> end == |s.Content()|
      decreases |s.Content()| - end, more
    {
      ghost var mid := end;
      var chunk;
      chunk, end := ReadSome(dev, end, count);
      SliceJoin(s.Content(), pos, mid, end);
      bytes := bytes + chunk;
      more := chunk != [];
    }
  }
}
