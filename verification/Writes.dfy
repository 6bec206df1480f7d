/**
 Whole runs of writes (aesd-char-driver/main.c:232-267): which commands a list of chunks
 leaves in the log, and when these are the lines of the byte stream.
 */
module Writes {
  import opened Bytes
  import opened CircularBuffers
  import opened DeviceModel

  /** The device after writing the chunks one after the other. */
  function WriteAll(d: Dev, chunks: seq<Bytes>): (r: Dev)
    ensures r.seek == d.seek
  {
    if chunks == [] then d else WriteAll(d, chunks[..|chunks| - 1]).Write(chunks[|chunks| - 1])
  }

  lemma {:induction false} WriteAllValid(d: Dev, chunks: seq<Bytes>)
    requires d.Valid()
    ensures WriteAll(d, chunks).Valid()
  {
    if chunks != [] {
      WriteAllValid(d, chunks[..|chunks| - 1]);
      WriteKeepsValid(WriteAll(d, chunks[..|chunks| - 1]), chunks[|chunks| - 1]);
    }
  }

  /** One write adds its chunk, in the tail or with the tail in the log. */
  lemma OneWriteConserves(d: Dev, chunk: Bytes)
    ensures var r := d.Write(chunk);
            Flat(r.log) + r.pending == Flat(d.log) + d.pending + chunk
  {
    Associate(Flat(d.log), d.pending, chunk);
    FlatSnoc(d.log, d.pending + chunk);
  }

  /** No byte is lost, added, or moved: log and tail are the chunks, concatenated. */
  lemma {:induction false} Conservation(d: Dev, chunks: seq<Bytes>)
    ensures var r := WriteAll(d, chunks);
            Flat(r.log) + r.pending == Flat(d.log) + d.pending + Flat(chunks)
  {
    if chunks != [] {
      var init, last := chunks[..|chunks| - 1], chunks[|chunks| - 1];
      Conservation(d, init);
      OneWriteConserves(WriteAll(d, init), last);
      FlatLast(chunks);
      Associate(Flat(d.log) + d.pending, Flat(init), last);
    }
  }

  /** The numbers of the chunks that complete a command. */
  function Closers(chunks: seq<Bytes>): seq<nat> {
    if chunks == [] then []
    else
      var init := chunks[..|chunks| - 1];
      if IsCommand(chunks[|chunks| - 1]) then Closers(init) + [|chunks| - 1] else Closers(init)
  }

  /** They are exactly the chunks that end in a newline, in ascending order. */
  lemma {:induction false} ClosersExact(chunks: seq<Bytes>)
    ensures forall i :: i in Closers(chunks) <==>
              0 <= i < |chunks| && chunks[i] != [] && chunks[i][|chunks[i]| - 1] == 10
    ensures forall j, k :: 0 <= j < k < |Closers(chunks)| ==> Closers(chunks)[j] < Closers(chunks)[k]
  {
    if chunks != [] {
      var init, n := chunks[..|chunks| - 1], |chunks| - 1;
      ClosersExact(init);
      assert forall i :: 0 <= i < n ==> init[i] == chunks[i];
      assert forall k :: 0 <= k < |Closers(init)| ==> Closers(init)[k] in Closers(init);
    }
  }

  /** The number of the first chunk that belongs to command `k`. */
  function GroupStart(closers: seq<nat>, k: nat): nat
    requires k <= |closers|
  {
    if k == 0 then 0 else closers[k - 1] + 1
  }

  /** After any writes since a reset, the tail is the chunks after the last closer. */
  lemma {:induction false} PendingIsOpenGroup(chunks: seq<Bytes>)
    ensures var d, c := WriteAll(EMPTY, chunks), Closers(chunks);
            && d.Valid() && |d.log| == |c|
            && GroupStart(c, |c|) <= |chunks|
            && d.pending == Flat(chunks[GroupStart(c, |c|)..])
  {
    if chunks == [] {
      assert chunks[0..] == [];
    } else {
      var init, last, n := chunks[..|chunks| - 1], chunks[|chunks| - 1], |chunks| - 1;
      PendingIsOpenGroup(init);
      var d, c := WriteAll(EMPTY, init), Closers(init);
      var s := GroupStart(c, |c|);
      CommandIffLast(d.pending, last);
      WriteKeepsValid(d, last);
      assert chunks[s..] == init[s..] + [last];
      FlatSnoc(init[s..], last);
      assert chunks[n + 1..] == [];
    }
  }

  /** The chunks after closer `k-1` up to closer `k`, joined. */
  function Group(chunks: seq<Bytes>, k: nat): Bytes
    requires k < |Closers(chunks)|
  {
    ClosersInRange(chunks, k);
    Flat(chunks[GroupStart(Closers(chunks), k)..Closers(chunks)[k] + 1])
  }

  /** And command `k` is the chunks after closer `k-1` up to closer `k`, joined. */
  lemma {:induction false} CommandIsGroup(chunks: seq<Bytes>, k: nat)
    requires k < |Closers(chunks)|
    ensures |WriteAll(EMPTY, chunks).log| == |Closers(chunks)|
    ensures WriteAll(EMPTY, chunks).log[k] == Group(chunks, k)
  {
    PendingIsOpenGroup(chunks);
    ClosersKept(chunks);
    if k < |Closers(chunks[..|chunks| - 1])| {
      CommandIsGroup(chunks[..|chunks| - 1], k);
      LogKept(chunks);
      GroupKept(chunks, k);
    } else {
      NewestIsGroup(chunks);
    }
  }

  lemma LogKept(chunks: seq<Bytes>)
    requires chunks != []
    ensures WriteAll(EMPTY, chunks[..|chunks| - 1]).log <= WriteAll(EMPTY, chunks).log
  {
  }

  lemma ClosersInRange(chunks: seq<Bytes>, k: nat)
    requires k < |Closers(chunks)|
    ensures GroupStart(Closers(chunks), k) <= Closers(chunks)[k] < |chunks|
  {
    ClosersExact(chunks);
    assert Closers(chunks)[k] in Closers(chunks);
  }

  /** One more chunk closes none of the earlier groups again. */
  lemma ClosersKept(chunks: seq<Bytes>)
    requires chunks != []
    ensures Closers(chunks[..|chunks| - 1]) <= Closers(chunks)
    ensures Closers(chunks) ==
            Closers(chunks[..|chunks| - 1]) + if IsCommand(chunks[|chunks| - 1]) then [|chunks| - 1] else []
  {
  }

  /** A closed group stays what it is. */
  lemma GroupKept(chunks: seq<Bytes>, k: nat)
    requires chunks != [] && k < |Closers(chunks[..|chunks| - 1])|
    ensures k < |Closers(chunks)| && Group(chunks, k) == Group(chunks[..|chunks| - 1], k)
  {
    var c := Closers(chunks[..|chunks| - 1]);
    ClosersKept(chunks);
    ClosersInRange(chunks[..|chunks| - 1], k);
    assert GroupStart(Closers(chunks), k) == GroupStart(c, k);
    SliceOfInit(chunks, GroupStart(c, k), c[k] + 1);
  }

  /** The command that the last chunk completes. */
  lemma NewestIsGroup(chunks: seq<Bytes>)
    requires chunks != [] && IsCommand(chunks[|chunks| - 1])
    ensures var d, s := WriteAll(EMPTY, chunks), GroupStart(Closers(chunks), |Closers(chunks)| - 1);
            d.log != [] && s < |chunks| && d.log[|d.log| - 1] == Flat(chunks[s..|chunks|])
  {
    var init, last := chunks[..|chunks| - 1], chunks[|chunks| - 1];
    var d, c := WriteAll(EMPTY, init), Closers(init);
    var s := GroupStart(c, |c|);
    PendingIsOpenGroup(init);
    ClosersKept(chunks);
    LastWrite(d, last);
    assert Flat(chunks[s..|chunks|]) == d.pending + last by {
      SliceToLast(chunks, s);
      FlatSnoc(init[s..], last);
    }
  }

  /** A tail and a chunk make a command exactly when the chunk ends in a newline. */
  lemma CommandIffLast(pending: Bytes, chunk: Bytes)
    requires !IsCommand(pending)
    ensures IsCommand(pending + chunk) <==> IsCommand(chunk)
  {
    if chunk == [] {
      assert pending + chunk == pending;
    }
  }

  /** So the last chunk alone decides whether its write commits. */
  lemma LastWrite(d: Dev, chunk: Bytes)
    requires d.Valid()
    ensures d.Write(chunk).log == if IsCommand(chunk) then d.log + [d.pending + chunk] else d.log
  {
    CommandIffLast(d.pending, chunk);
  }

  /** Newline-free but for its end. */
  predicate NoInnerNewline(s: Bytes) { forall i :: 0 <= i < |s| - 1 ==> s[i] != NEWLINE }

  /** `lines` are the newline-terminated lines of the stream, `tail` is what follows the last newline. */
  ghost predicate IsLineSplit(stream: Bytes, lines: seq<Bytes>, tail: Bytes) {
    && Flat(lines) + tail == stream
    && (forall i :: 0 <= i < |lines| ==> IsCommand(lines[i]) && NoInnerNewline(lines[i]))
    && NEWLINE !in tail
  }

  /** The log consists of single lines, and the tail of part of one. */
  predicate LineWise(d: Dev) {
    (forall i :: 0 <= i < |d.log| ==> NoInnerNewline(d.log[i])) && NEWLINE !in d.pending
  }

  /** One write keeps the device line-wise exactly when its chunk has no newline before its end. */
  lemma WriteLineWise(d: Dev, chunk: Bytes)
    requires d.Valid()
    ensures LineWise(d.Write(chunk)) <==> LineWise(d) && NoInnerNewline(chunk)
  {
    var p := d.pending;
    var joined := p + chunk;
    CommandIffLast(p, chunk);
    if chunk == [] {
      assert joined == p;
    } else {
      assert forall i :: 0 <= i < |chunk| ==> joined[|p| + i] == chunk[i];
      assert forall i :: 0 <= i < |p| ==> joined[i] == p[i];
      if IsCommand(chunk) {
        assert d.Write(chunk).log == d.log + [joined];
        assert (d.log + [joined])[|d.log|] == joined;
        assert forall i :: 0 <= i < |d.log| ==> (d.log + [joined])[i] == d.log[i];
        assert NoInnerNewline(joined) ==> forall i :: 0 <= i < |p| ==> p[i] == joined[i] != NEWLINE;
      }
    }
  }

  lemma {:induction false} WriteAllLineWise(d: Dev, chunks: seq<Bytes>)
    requires d.Valid()
    ensures LineWise(WriteAll(d, chunks)) <==>
            LineWise(d) && forall i :: 0 <= i < |chunks| ==> NoInnerNewline(chunks[i])
  {
    if chunks != [] {
      var init, last := chunks[..|chunks| - 1], chunks[|chunks| - 1];
      WriteAllLineWise(d, init);
      WriteAllValid(d, init);
      WriteLineWise(WriteAll(d, init), last);
      assert forall i :: 0 <= i < |init| ==> init[i] == chunks[i];
    }
  }

  /** The commands are the lines of the stream exactly when no chunk has a newline before its end. */
  lemma CommandsAreLinesExactly(chunks: seq<Bytes>)
    ensures IsLineSplit(Flat(chunks), WriteAll(EMPTY, chunks).log, WriteAll(EMPTY, chunks).pending) <==>
            forall i :: 0 <= i < |chunks| ==> NoInnerNewline(chunks[i])
  {
    Conservation(EMPTY, chunks);
    WriteAllValid(EMPTY, chunks);
    WriteAllLineWise(EMPTY, chunks);
    assert Flat(EMPTY.log) + EMPTY.pending + Flat(chunks) == Flat(chunks);
  }

  /** A stream has one split into lines. */
  lemma {:induction false} LineSplitUnique(stream: Bytes, l: seq<Bytes>, t: Bytes, l': seq<Bytes>, t': Bytes)
    requires IsLineSplit(stream, l, t) && IsLineSplit(stream, l', t')
    ensures l == l' && t == t'
    decreases |l|
  {
    FirstLine(stream, l, t);
    FirstLine(stream, l', t');
    if l == [] {
      assert t == stream == t';
    } else {
      assert |l[0]| == |l'[0]|;
      assert l[0] == stream[..|l[0]|] == l'[0];
      LineSplitUnique(stream[|l[0]|..], l[1..], t, l'[1..], t');
      assert l == [l[0]] + l[1..] && l' == [l'[0]] + l'[1..];
    }
  }

  /** There is a line exactly when there is a newline; the first line goes up to the first newline. */
  lemma FirstLine(stream: Bytes, l: seq<Bytes>, t: Bytes)
    requires IsLineSplit(stream, l, t)
    ensures l == [] <==> NEWLINE !in stream
    ensures l != [] ==>
      && l[0] <= stream && l[0] != [] && IsLineSplit(stream[|l[0]|..], l[1..], t)
      && stream[|l[0]| - 1] == NEWLINE && forall i :: 0 <= i < |l[0]| - 1 ==> stream[i] != NEWLINE
  {
    if l == [] {
      assert stream == t;
    } else {
      assert stream == l[0] + (Flat(l[1..]) + t);
      assert stream[|l[0]|..] == Flat(l[1..]) + t;
      assert stream[|l[0]| - 1] == l[0][|l[0]| - 1];
    }
  }

  /** How a stream is cut into chunks makes no difference, as long as no chunk has a newline before its end. */
  lemma ChunkingDoesNotMatter(a: seq<Bytes>, b: seq<Bytes>)
    requires Flat(a) == Flat(b)
    requires forall i :: 0 <= i < |a| ==> NoInnerNewline(a[i])
    requires forall i :: 0 <= i < |b| ==> NoInnerNewline(b[i])
    ensures WriteAll(EMPTY, a) == WriteAll(EMPTY, b)
  {
    CommandsAreLinesExactly(a);
    CommandsAreLinesExactly(b);
    var x, y := WriteAll(EMPTY, a), WriteAll(EMPTY, b);
    LineSplitUnique(Flat(a), x.log, x.pending, y.log, y.pending);
  }
}
