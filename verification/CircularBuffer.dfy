/**
 The ten-slot ring of the driver (aesd-char-driver/aesd-circular-buffer.c).

 The ghost field `log` is the list of all entries added since the last reset.  `Valid()`
 says what the ring is in terms of it: indices, flag and cached size are closed forms of
 the log's length, and the slots hold the last ten entries.  Slots that hold no live entry
 are arbitrary.
 */
module CircularBuffers {
  import opened Bytes

  /** AESDCHAR_MAX_WRITE_OPERATIONS_SUPPORTED */
  const SLOTS: nat := 10

  /** What the ten slots contain, whether live or not. */
  type Slots = s: seq<Bytes> | |s| == SLOTS witness seq(SLOTS, _ => [])

  /** Index in the log of the oldest live entry. */
  function Oldest(n: nat): nat { if n > SLOTS then n - SLOTS else 0 }

  /** The live entries, oldest first. */
  function Live(log: seq<Bytes>): seq<Bytes> { log[Oldest(|log|)..] }

  /** How many of the live entries, from the oldest on, come before the array's end. */
  function Cut(n: nat): nat { if n >= SLOTS then SLOTS - n % SLOTS else n }

  /** The number of live bytes. */
  function LiveSize(log: seq<Bytes>): nat { |Flat(Live(log))| }

  /** The live entries in slot order, from slot 0 on. */
  function InSlotOrder(log: seq<Bytes>): seq<Bytes> {
    Live(log)[Cut(|log|)..] + Live(log)[..Cut(|log|)]
  }

  /** The part of a list before its first empty piece. */
  function UntilEmpty(s: seq<Bytes>): (r: seq<Bytes>)
    ensures r <= s && [] !in r
    ensures |r| < |s| ==> s[|r|] == []
  {
    if s == [] || s[0] == [] then [] else [s[0]] + UntilEmpty(s[1..])
  }

  /** When the read helper's bounds are right: see `HelperSafeExactlyInWindow`. */
  predicate ReadWindow(seg: seq<Bytes>, off: nat, count: nat) {
    seg == [] || off == 0 || off + count <= |seg[0]|
    || (|seg[0]| < count && |Flat(seg)| - off < count)
  }

  /**
   The accesses of the helper's two loops (aesd-circular-buffer.c:154-181) on the slots `seg`,
   with `off` the byte offset given, `k` the byte the inner loop starts at and `read` the number
   of bytes delivered: every source byte read exists and every byte written fits into the output.
   */
  predicate HelperSafe(seg: seq<Bytes>, off: nat, k: nat, read: nat, count: nat)
    decreases |seg|
  {
    if seg == [] || seg[0] == [] || count == read then true
    else
      var end := if read + |seg[0]| < count then |seg[0]| else count - read + off;
      var j := if k < end then end - k else 0;
      && (j > 0 ==> end <= |seg[0]| && read + j <= count)
      && HelperSafe(seg[1..], off, 0, read + j, count)
  }

  /** The helper stays inside the entries and the output exactly when the window condition holds. */
  lemma HelperSafeExactlyInWindow(seg: seq<Bytes>, off: nat, count: nat)
    requires [] !in seg
    requires seg != [] ==> off < |seg[0]|
    ensures HelperSafe(seg, off, off, 0, count) <==> ReadWindow(seg, off, count)
  {
    if seg != [] && count > 0 && |seg[0]| < count {
      HelperSafeLater(seg[1..], off, |seg[0]| - off, count);
    } else if seg != [] && count > 0 && off + count <= |seg[0]| {
      assert HelperSafe(seg[1..], off, 0, count, count);
    }
  }

  /** After the first slot: safe exactly when the offset is 0 or the slots left never fill the output. */
  lemma {:induction false} HelperSafeLater(seg: seq<Bytes>, off: nat, read: nat, count: nat)
    requires [] !in seg && read <= count
    ensures HelperSafe(seg, off, 0, read, count) <==> off == 0 || read == count || read + |Flat(seg)| < count
    decreases |seg|
  {
    if seg != [] && read < count {
      if read + |seg[0]| < count {
        HelperSafeLater(seg[1..], off, read + |seg[0]|, count);
      } else if off == 0 {
        HelperSafeLater(seg[1..], off, count, count);
      }
    }
  }

  /** The oldest live entry's slot. */
  function OutOffs(n: nat): nat { if n >= SLOTS then n % SLOTS else 0 }

  /** All ten slots in the order in which the walk of find passes them. */
  function WalkOrder(slots: Slots, n: nat): (w: seq<Bytes>)
    ensures |w| == SLOTS
  {
    slots[OutOffs(n)..] + slots[..OutOffs(n)]
  }

  /** How many slots the walk passes before it reaches `slot`. */
  function Age(n: nat, slot: nat): (a: nat)
    requires slot < SLOTS
    ensures a < SLOTS
  {
    if slot >= OutOffs(n) then slot - OutOffs(n) else slot + SLOTS - OutOffs(n)
  }

  /** The slot at which aesd_read makes the helper stop. */
  function Stop(n: nat, start: nat): nat {
    if n < SLOTS then n else if OutOffs(n) <= start then SLOTS else OutOffs(n)
  }

  /** The non-empty entries from slot `index1` on that the helper can copy. */
  function Segment(slots: seq<Bytes>, index1: nat, index2: nat): seq<Bytes>
    requires index2 <= |slots|
  {
    if index1 <= index2 then UntilEmpty(slots[index1..index2]) else []
  }

  /** The helper's test for an empty slot finds the end of the segment. */
  lemma SegmentStep(slots: seq<Bytes>, index1: nat, index2: nat, i: nat)
    requires index1 <= i < index2 <= |slots| && i - index1 <= |Segment(slots, index1, index2)|
    ensures slots[i] == [] <==> i - index1 == |Segment(slots, index1, index2)|
    ensures slots[i] != [] ==> Segment(slots, index1, index2)[i - index1] == slots[i]
  {
    assert slots[index1..index2][i - index1] == slots[i];
  }

  /** Find refuses positions from the sum of all ten sizes on, summed up in a `size_t`. */
  predicate FindAccepts(slots: seq<Bytes>, x: nat) { x < |Flat(slots)| % SIZE_T }

  /** Slot numbers of a full ring, counted from the oldest entry. */
  lemma SlotOfAge(n: nat, j: nat)
    requires n >= SLOTS && j < SLOTS
    ensures (n - SLOTS + j) % SLOTS == (if n % SLOTS + j < SLOTS then n % SLOTS + j else n % SLOTS + j - SLOTS)
  {
  }

  /** The slot after slot `n % SLOTS`. */
  lemma NextSlot(n: nat)
    ensures (n + 1) % SLOTS == (if n % SLOTS + 1 == SLOTS then 0 else n % SLOTS + 1)
  {
  }

  /** The helper is called with a window it can serve. */
  ghost predicate Serves(seg: seq<Bytes>, off: nat, count: nat) {
    (seg != [] ==> off < |seg[0]|) && ReadWindow(seg, off, count)
  }

  /** What the helper owes: as much of the slots' flat string as `count` allows, from `off` on. */
  function Window(seg: seq<Bytes>, off: nat, count: nat): Bytes {
    Clip(Flat(seg), off, count)
  }

  /** One round of the helper: the bytes it copies are there, fit, and continue the window. */
  lemma HelperRound(seg: seq<Bytes>, m: nat, off: nat, count: nat)
    requires m < |seg| && Serves(seg, off, count)
    requires |Window(seg[..m], off, count)| < count
    ensures var sent := Window(seg[..m], off, count);
            var k := if m == 0 then off else 0;
            var end := if |sent| + |seg[m]| < count then |seg[m]| else count - |sent| + off;
            && k <= end <= |seg[m]| && |sent| + end - k <= count
            && sent + seg[m][k..end] == Window(seg[..m + 1], off, count)
  {
    FlatPrefixStep(seg, m);
    assert seg[..0] == [];
    if m > 0 {
      FlatPrefixStep(seg, 0);
      FlatPrefixMonotone(seg, 1, m);
      FlatPrefixMonotone(seg, m + 1, |seg|);
      assert seg[..|seg|] == seg;
      ClipGrows(Flat(seg[..m]), seg[m], off, count);
    }
  }

  /** Once the window is full, later slots add nothing. */
  lemma WindowFull(seg: seq<Bytes>, m: nat, off: nat, count: nat)
    requires m <= |seg| && |Window(seg[..m], off, count)| == count
    ensures Window(seg, off, count) == Window(seg[..m], off, count)
  {
    FlatSplit(seg, m);
  }

  /** The helper stops when the window is full or there is no slot left; then nothing is owed. */
  lemma WindowDone(seg: seq<Bytes>, m: nat, off: nat, count: nat)
    requires m <= |seg|
    requires |Window(seg[..m], off, count)| == count || m == |seg|
    ensures Window(seg, off, count) == Window(seg[..m], off, count)
  {
    if m == |seg| {
      assert seg[..m] == seg;
    } else {
      WindowFull(seg, m, off, count);
    }
  }

  /** Each of the last ten log entries is in the slot its number gives. */
  ghost predicate HoldsLast(slots: Slots, log: seq<Bytes>)
  {
    forall i {:trigger log[i]} :: Oldest(|log|) <= i < |log| ==> slots[i % SLOTS] == log[i]
  }

  /** The slot that comes next holds the oldest entry of a full ring. */
  lemma OldestSlot(slots: Slots, log: seq<Bytes>)
    requires HoldsLast(slots, log) && |log| >= SLOTS
    ensures slots[|log| % SLOTS] == log[|log| - SLOTS]
  {
    assert log[|log| - SLOTS] == slots[(|log| - SLOTS) % SLOTS];
  }

  lemma HoldsLastAfterAdd(slots: Slots, log: seq<Bytes>, e: Bytes)
    requires HoldsLast(slots, log)
    ensures HoldsLast(slots[|log| % SLOTS := e], log + [e])
  {
    var n := |log|;
    forall i | Oldest(n + 1) <= i < n
      ensures slots[n % SLOTS := e][i % SLOTS] == (log + [e])[i]
    {
      assert i % SLOTS != n % SLOTS;
      assert (log + [e])[i] == log[i];
    }
  }

  /** The live entry of age `j` is where the walk passes as its slot number `j`. */
  lemma LiveOnWalk(slots: Slots, log: seq<Bytes>, j: nat)
    requires HoldsLast(slots, log) && j < |Live(log)|
    ensures |Live(log)| == Min(|log|, SLOTS)
    ensures Live(log)[j] == WalkOrder(slots, |log|)[j]
  {
    assert Live(log)[j] == log[Oldest(|log|) + j];
    if |log| >= SLOTS {
      SlotOfAge(|log|, j);
    }
  }

  /** The live entries, by age, are the first slots of the walk; only a ring that is not full has others. */
  lemma LiveIsWalkPrefix(slots: Slots, log: seq<Bytes>)
    requires HoldsLast(slots, log)
    ensures |Live(log)| == Min(|log|, SLOTS)
    ensures Live(log) == WalkOrder(slots, |log|)[..|Live(log)|]
    ensures |log| >= SLOTS ==> Live(log) == WalkOrder(slots, |log|)
  {
    var live, walk := Live(log), WalkOrder(slots, |log|);
    forall j | 0 <= j < |live|
      ensures live[j] == walk[j]
    {
      LiveOnWalk(slots, log, j);
    }
  }

  /** The walk passes the live bytes and then those of the dead slots, and no others. */
  lemma WalkSize(slots: Slots, log: seq<Bytes>)
    requires HoldsLast(slots, log)
    ensures |Flat(WalkOrder(slots, |log|))| == |Flat(slots)|
    ensures LiveSize(log) <= |Flat(slots)|
    ensures |log| >= SLOTS ==> LiveSize(log) == |Flat(slots)|
  {
    LiveIsWalkPrefix(slots, log);
    FlatRotate(slots, OutOffs(|log|));
    FlatSplit(WalkOrder(slots, |log|), |Live(log)|);
  }

  /** The slots from a live one up to the stop hold consecutive live entries, up to the cut or the end. */
  lemma SegmentIsLive(slots: Slots, log: seq<Bytes>, slot: nat)
    requires HoldsLast(slots, log)
    requires slot < SLOTS && Age(|log|, slot) < |Live(log)|
    ensures Cut(|log|) <= |Live(log)| && slot < Stop(|log|, slot) <= SLOTS
    ensures slots[slot..Stop(|log|, slot)] ==
            if Age(|log|, slot) < Cut(|log|) then Live(log)[Age(|log|, slot)..Cut(|log|)]
            else Live(log)[Age(|log|, slot)..]
  {
    LiveIsWalkPrefix(slots, log);
  }

  /** In slot order the live entries are the first slots. */
  lemma LiveBySlot(slots: Slots, log: seq<Bytes>)
    requires HoldsLast(slots, log)
    ensures |InSlotOrder(log)| == |Live(log)| == Min(|log|, SLOTS)
    ensures InSlotOrder(log) == slots[..|Live(log)|]
  {
    LiveIsWalkPrefix(slots, log);
  }

  /** One step of the walk passes one slot; from the last slot on there is none left. */
  lemma WalkStep(slots: Slots, n: nat, slot: nat)
    requires slot < SLOTS
    ensures WalkOrder(slots, n)[Age(n, slot)] == slots[slot]
    ensures var next := if slot + 1 == SLOTS then 0 else slot + 1;
            var before := |Flat(WalkOrder(slots, n)[..Age(n, slot)])|;
            if Age(n, slot) + 1 == SLOTS then before + |slots[slot]| == |Flat(slots)|
            else Age(n, next) == Age(n, slot) + 1
                 && |Flat(WalkOrder(slots, n)[..Age(n, next)])| == before + |slots[slot]|
  {
    var w := WalkOrder(slots, n);
    FlatRotate(slots, OutOffs(n));
    FlatPrefixStep(w, Age(n, slot));
    assert w[..SLOTS] == w;
  }

  class CircularBuffer {
    const entry: array<Bytes>
    var inOffs: nat
    var outOffs: nat
    var full: bool
    var totalSize: int
    ghost var log: seq<Bytes>

    /** The indices, the flag and the cached size are functions of the log. */
    ghost predicate Counted()
      reads this
    {
      && inOffs == |log| % SLOTS
      && full == (|log| >= SLOTS)
      && outOffs == OutOffs(|log|)
      && totalSize == LiveSize(log)
    }

    ghost predicate Valid()
      reads this, entry
    {
      entry.Length == SLOTS && Counted() && HoldsLast(entry[..], log)
    }

    /** The ring as it is after module initialisation: reset, with whatever the slots hold. */
    constructor Init(stale: Slots)
      ensures Valid() && log == [] && entry[..] == stale && fresh(entry)
    {
      entry := new Bytes[SLOTS](i requires 0 <= i < |stale| => stale[i]);
      inOffs, outOffs, full, totalSize := 0, 0, false, 0;
      log := [];
    }

    /** The assignments that flush and module initialisation make to the ring. */
    method Reset()
      requires Valid()
      modifies this
      ensures Valid() && log == []
    {
      full := false;
      inOffs := 0;
      outOffs := 0;
      totalSize := 0;
      log := [];
    }

    /** aesd_circular_buffer_add_entry */
    method AddEntry(e: Bytes)
      requires Valid()
      modifies this, entry
      ensures Valid() && log == old(log) + [e]
      ensures entry[..] == old(entry[..])[old(|log|) % SLOTS := e]
      ensures inOffs == |log| % 10 && full == (|log| >= 10) && outOffs == if |log| >= 10 then |log| % 10 else 0
    {
      ghost var n, after := |log|, log + [e];
      SizeAfterAdd(log, e);
      NextSlot(n);
      HoldsLastAfterAdd(entry[..], log, e);
      if full {
        OldestSlot(entry[..], log);
      }
      AddFields(e);
      log := after;
    }

    /** What the source does to the fields, in both branches. */
    method AddFields(e: Bytes)
      requires entry.Length == SLOTS && inOffs < SLOTS && outOffs < SLOTS
      modifies this, entry
      ensures log == old(log)
      ensures entry[..] == old(entry[..])[old(inOffs) := e]
      ensures inOffs == if old(inOffs) + 1 == SLOTS then 0 else old(inOffs) + 1
      ensures outOffs == if !old(full) then old(outOffs) else if old(outOffs) + 1 == SLOTS then 0 else old(outOffs) + 1
      ensures full == (old(full) || inOffs == 0)
      ensures totalSize == old(totalSize) + |e| - if old(full) then |old(entry[inOffs])| else 0
    {
      if full {
        totalSize := totalSize - |entry[inOffs]|;
        totalSize := totalSize + |e|;
        entry[inOffs] := e;
        if inOffs + 1 == SLOTS {
          inOffs := 0;
        } else {
          inOffs := inOffs + 1;
        }
        if outOffs + 1 == SLOTS {
          outOffs := 0;
        } else {
          outOffs := outOffs + 1;
        }
      } else {
        totalSize := totalSize + |e|;
        entry[inOffs] := e;
        if inOffs + 1 == SLOTS {
          inOffs := 0;
          full := true;
        } else {
          inOffs := inOffs + 1;
        }
      }
    }

    /** The first loop of find: the sizes of all ten slots, summed up in a `size_t`. */
    method CountChars() returns (totalChars: nat)
      requires Valid()
      ensures totalChars == |Flat(entry[..])| % SIZE_T
    {
      totalChars := 0;
      for i := 0 to SLOTS
        invariant totalChars == |Flat(entry[..][..i])| % SIZE_T
      {
        FlatPrefixStep(entry[..], i);
        totalChars := (totalChars + |entry[i]|) % SIZE_T;
      }
      assert entry[..][..SLOTS] == entry[..];
    }

    /**
     aesd_circular_buffer_find_entry_offset_for_fpos.  A slot pointer is a slot number, NULL is
     `None`; `byteOffset` is the content of the out-parameter, before (`byteIn`) and after.
     */
    method FindEntryOffsetForFpos(charOffset: nat, byteIn: nat) returns (slot: Option<nat>, byteOffset: nat)
      requires Valid()
      ensures charOffset == 0 ==> slot == Some(outOffs) && byteOffset == byteIn
      ensures charOffset > 0 ==> (slot.Some? <==> charOffset < |Flat(entry[..])| % 0x1_0000_0000_0000_0000)
      ensures charOffset > 0 && slot.None? ==> byteOffset == byteIn
      ensures charOffset > 0 && slot.Some? ==>
        && slot.value < SLOTS && byteOffset < |entry[slot.value]|
        && |Flat(WalkOrder(entry[..], |log|)[..Age(|log|, slot.value)])| + byteOffset == charOffset
    {
      var totalChars := CountChars();
      var index: nat := outOffs;
      if charOffset == 0 {
        return Some(outOffs), byteIn;
      }
      if totalChars <= charOffset {
        return None, byteIn;
      }
      var offsetRemaining: nat := charOffset;
      while offsetRemaining >= |entry[index]|
        invariant index < SLOTS
        invariant offsetRemaining + |Flat(WalkOrder(entry[..], |log|)[..Age(|log|, index)])| == charOffset
        decreases SLOTS - Age(|log|, index)
      {
        WalkStep(entry[..], |log|, index);
        offsetRemaining := offsetRemaining - |entry[index]|;
        if index + 1 == SLOTS {
          index := 0;
        } else {
          index := index + 1;
        }
      }
      byteOffset := offsetRemaining;
      slot := Some(index);
    }

    /** aesd_circular_buffer_read_helper; `data` is a buffer of `count` bytes. */
    method ReadHelper(index1: nat, index2: nat, data: array<byte>, count: nat, byteOffset: nat)
      returns (readCount: nat)
      requires entry.Length == SLOTS && index2 <= SLOTS && data.Length == count
      requires Serves(Segment(entry[..], index1, index2), byteOffset, count)
      modifies data
      ensures readCount == |Window(Segment(entry[..], index1, index2), byteOffset, count)|
      ensures data[..readCount] == Window(Segment(entry[..], index1, index2), byteOffset, count)
      ensures data[readCount..] == old(data[readCount..])
    {
      ghost var slots := entry[..];
      ghost var seg := Segment(slots, index1, index2);
      ghost var before := data[..];
      ghost var m, sent := 0, Window(seg[..0], byteOffset, count);
      var i, k, end := index1, byteOffset, 0;
      readCount := 0;
      var tmp := new byte[count];
      while i < index2
        invariant i == index1 + m && m <= |seg|
        invariant k == if m == 0 then byteOffset else 0
        invariant sent == Window(seg[..m], byteOffset, count)
        invariant readCount == |sent|
        invariant data[..] == Splice(before, 0, sent)
        modifies data, tmp
      {
        SegmentStep(slots, index1, index2, i);
        if |entry[i]| == 0 || count - readCount == 0 {
          break;
        }
        if readCount + |entry[i]| < count {
          end := |entry[i]|;
        } else {
          end := count - readCount + byteOffset;
        }
        HelperRound(seg, m, byteOffset, count);
        CopyBytes(entry[i], k, end, tmp, data, readCount, before, sent);
        m, sent := m + 1, sent + entry[i][k..end];
        readCount := readCount + (end - k);
        k := 0;
        i := i + 1;
      }
      WindowDone(seg, m, byteOffset, count);
      SpliceFront(before, sent);
    }
  }

  /** The helper's inner loop: bytes `start..end` of one entry, into `tmp` and behind the bytes sent. */
  method CopyBytes(e: Bytes, start: nat, end: nat, tmp: array<byte>, data: array<byte>,
                   readCount: nat, ghost before: Bytes, ghost sent: Bytes)
    requires start <= end <= |e| && end - start <= tmp.Length && |sent| + end - start <= data.Length
    requires tmp != data && readCount == |sent|
    requires |before| == data.Length && data[..] == Splice(before, 0, sent)
    modifies tmp, data
    ensures data[..] == Splice(before, 0, sent + e[start..end])
  {
    var j, k := 0, start;
    ghost var done := sent;
    while k < end
      invariant start <= k <= end && j == k - start
      invariant done == sent + e[start..k]
      invariant data[..] == Splice(before, 0, done)
    {
      SpliceStep(before, 0, done, e[k]);
      assert e[start..k] + [e[k]] == e[start..k + 1];
      tmp[j] := e[k];
      data[readCount + j] := e[k];
      done := done + [e[k]];
      j := j + 1;
      k := k + 1;
    }
  }

  /** Adding an entry keeps the last ten. */
  lemma LiveAfterAdd(log: seq<Bytes>, e: Bytes)
    ensures |Live(log)| == Min(|log|, SLOTS)
    ensures Live(log + [e]) == (if |log| >= SLOTS then Live(log)[1..] else Live(log)) + [e]
  {
  }

  /** And the live size follows. */
  lemma SizeAfterAdd(log: seq<Bytes>, e: Bytes)
    ensures LiveSize(log + [e]) == LiveSize(log) + |e| - (if |log| >= SLOTS then |log[|log| - SLOTS]| else 0)
  {
    var kept := if |log| >= SLOTS then Live(log)[1..] else Live(log);
    LiveAfterAdd(log, e);
    FlatSnoc(kept, e);
    if |log| >= SLOTS {
      assert Flat(Live(log)) == Live(log)[0] + Flat(kept);
    }
  }

  /**
   Find accepts every live position but 0, which it does not test, exactly when the wrapped sum of
   all ten sizes is not below the live size.
   */
  lemma FindAcceptsLiveExactly(slots: Slots, log: seq<Bytes>)
    ensures (forall x: nat :: 0 < x < LiveSize(log) ==> FindAccepts(slots, x))
            <==> LiveSize(log) <= 1 || LiveSize(log) <= |Flat(slots)| % SIZE_T
  {
    var live, sum := LiveSize(log), |Flat(slots)| % SIZE_T;
    assert forall x: nat :: FindAccepts(slots, x) <==> x < sum;
    if live > 1 {
      assert FindAccepts(slots, live - 1) <==> live <= sum;
    }
  }

  /** Which holds whenever the sum does not wrap. */
  lemma FindAcceptsUnwrapped(slots: Slots, log: seq<Bytes>)
    requires HoldsLast(slots, log) && |Flat(slots)| < SIZE_T
    ensures LiveSize(log) <= |Flat(slots)| % SIZE_T
    ensures forall x: nat :: x < LiveSize(log) ==> FindAccepts(slots, x)
  {
    WalkSize(slots, log);
  }

  /** Uninitialised slots can make it refuse a live position: here the sum wraps to 0. */
  lemma FindCanRefuseLive() returns (slots: Slots, log: seq<Bytes>)
    ensures HoldsLast(slots, log) && log == [[0, NEWLINE]]
    ensures 1 < LiveSize(log) && !FindAccepts(slots, 1)
  {
    var command: Bytes := [0, NEWLINE];
    var garbage: Bytes := seq(SIZE_T - 2, _ => 0);
    log := [command];
    slots := [command, garbage] + seq(SLOTS - 2, _ => []);
    FlatOne(command);
    assert Live(log) == log;
    FlatAppend([command, garbage], slots[2..]);
    assert slots == [command, garbage] + slots[2..];
    FlatEmpties(slots[2..]);
    FlatSnoc([command], garbage);
    assert [command] + [garbage] == [command, garbage];
  }

  lemma {:induction false} FlatEmpties(s: seq<Bytes>)
    requires forall i :: 0 <= i < |s| ==> s[i] == []
    ensures Flat(s) == []
  {
    if s != [] {
      FlatEmpties(s[1..]);
    }
  }
}
