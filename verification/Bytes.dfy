/**
 Byte strings, and lists of byte strings read as one flat byte string.

 The driver stores a list of write commands; its readers see their concatenation.
 Everything about positions in that concatenation that does not depend on the
 driver's state is here.
 */
module Bytes {

  newtype byte = x: int | 0 <= x < 0x100

  const NEWLINE: byte := 10

  type Bytes = seq<byte>

  /** The number of values of the source's `size_t`. */
  const SIZE_T: nat := 0x1_0000_0000_0000_0000

  /** Values of the kernel's signed `loff_t` are below this. */
  const LOFF_T: nat := 0x8000_0000_0000_0000

  datatype Option<+T> = None | Some(value: T)

  function Min(a: nat, b: nat): nat { if a <= b then a else b }

  /** Slices of a list, seen from the list without its last element. */
  lemma SliceOfInit<T>(s: seq<T>, a: nat, b: nat)
    requires a <= b < |s|
    ensures s[..|s| - 1][a..b] == s[a..b]
  {
  }

  lemma SliceToLast<T>(s: seq<T>, a: nat)
    requires a < |s|
    ensures s[a..|s|] == s[a..] == s[..|s| - 1][a..] + [s[|s| - 1]]
    ensures s[..|s| - 1] + [s[|s| - 1]] == s
  {
  }

  lemma Associate<T>(a: seq<T>, b: seq<T>, c: seq<T>)
    ensures a + (b + c) == a + b + c
  {
  }

  /** The concatenation of the pieces. */
  function Flat(pieces: seq<Bytes>): Bytes {
    if pieces == [] then [] else pieces[0] + Flat(pieces[1..])
  }

  lemma {:induction false} FlatAppend(a: seq<Bytes>, b: seq<Bytes>)
    ensures Flat(a + b) == Flat(a) + Flat(b)
  {
    if a == [] {
      assert a + b == b;
    } else {
      assert (a + b)[1..] == a[1..] + b;
      FlatAppend(a[1..], b);
    }
  }

  lemma FlatOne(p: Bytes)
    ensures Flat([p]) == p
  {
    assert Flat([p]) == p + Flat([]);
  }

  lemma FlatSnoc(a: seq<Bytes>, p: Bytes)
    ensures Flat(a + [p]) == Flat(a) + p
  {
    FlatAppend(a, [p]);
    FlatOne(p);
  }

  lemma FlatLast(s: seq<Bytes>)
    requires s != []
    ensures Flat(s) == Flat(s[..|s| - 1]) + s[|s| - 1]
  {
    assert s == s[..|s| - 1] + [s[|s| - 1]];
    FlatSnoc(s[..|s| - 1], s[|s| - 1]);
  }

  /** Splitting the list anywhere splits the flat string at the matching position. */
  lemma FlatSplit(s: seq<Bytes>, k: nat)
    requires k <= |s|
    ensures Flat(s) == Flat(s[..k]) + Flat(s[k..])
  {
    assert s == s[..k] + s[k..];
    FlatAppend(s[..k], s[k..]);
  }

  /** One more piece in the prefix adds exactly that piece. */
  lemma FlatPrefixStep(s: seq<Bytes>, k: nat)
    requires k < |s|
    ensures Flat(s[..k + 1]) == Flat(s[..k]) + s[k]
  {
    assert s[..k + 1] == s[..k] + [s[k]];
    FlatSnoc(s[..k], s[k]);
  }

  lemma FlatPrefixMonotone(s: seq<Bytes>, i: nat, j: nat)
    requires i <= j <= |s|
    ensures |Flat(s[..i])| <= |Flat(s[..j])|
  {
    assert s[..j][..i] == s[..i];
    FlatSplit(s[..j], i);
  }

  /** Where position `x` of the flat string lies: byte `.1` of piece `.0`. */
  function Locate(s: seq<Bytes>, x: nat): (at: (nat, nat))
    requires x < |Flat(s)|
    ensures at.0 < |s| && at.1 < |s[at.0]|
    ensures |Flat(s[..at.0])| + at.1 == x
  {
    if x < |s[0]| then (0, x)
    else
      var rest := Locate(s[1..], x - |s[0]|);
      assert s[..rest.0 + 1][1..] == s[1..][..rest.0];
      (rest.0 + 1, rest.1)
  }

  /** A position lies in one piece only, at one byte only. */
  lemma LocateUnique(s: seq<Bytes>, a: nat, b: nat, a': nat, b': nat)
    requires a < |s| && b < |s[a]| && a' < |s| && b' < |s[a']|
    requires |Flat(s[..a])| + b == |Flat(s[..a'])| + b'
    ensures a == a' && b == b'
  {
    FlatPrefixStep(s, a);
    FlatPrefixStep(s, a');
    if a < a' {
      FlatPrefixMonotone(s, a + 1, a');
    } else if a' < a {
      FlatPrefixMonotone(s, a' + 1, a);
    }
  }

  /** Cutting a list and exchanging the two parts does not change the length. */
  lemma FlatRotate(s: seq<Bytes>, k: nat)
    requires k <= |s|
    ensures |Flat(s[k..] + s[..k])| == |Flat(s)|
  {
    FlatSplit(s, k);
    FlatAppend(s[k..], s[..k]);
  }

  /** Overwriting one piece exchanges its bytes. */
  lemma FlatUpdate(s: seq<Bytes>, i: nat, e: Bytes)
    requires i < |s|
    ensures |Flat(s[i := e])| == |Flat(s)| - |s[i]| + |e|
  {
    var s' := s[i := e];
    assert s'[..i] == s[..i] && s'[i + 1..] == s[i + 1..];
    FlatPrefixStep(s, i);
    FlatPrefixStep(s', i);
    FlatSplit(s, i + 1);
    FlatSplit(s', i + 1);
  }

  /** `s` with `piece` written over it from index `at` on. */
  ghost function Splice(s: Bytes, at: nat, piece: Bytes): (r: Bytes)
    requires at + |piece| <= |s|
  {
    s[..at] + piece + s[at + |piece|..]
  }

  /** A copy loop writes one byte more. */
  lemma SpliceStep(s: Bytes, at: nat, piece: Bytes, b: byte)
    requires at + |piece| < |s|
    ensures Splice(s, at, piece)[at + |piece| := b] == Splice(s, at, piece + [b])
  {
  }

  /** What was written at the front, and what was left alone behind it. */
  lemma SpliceFront(s: Bytes, piece: Bytes)
    requires |piece| <= |s|
    ensures Splice(s, 0, piece)[..|piece|] == piece
    ensures Splice(s, 0, piece)[|piece|..] == s[|piece|..]
  {
  }

  /** At most `count` bytes of `s` from `off` on. */
  function Clip(s: Bytes, off: nat, count: nat): (r: Bytes)
    ensures |r| <= count
  {
    if off <= |s| then s[off..off + Min(count, |s| - off)] else []
  }

  /** A clip that used up `s` goes on into what follows `s`. */
  lemma ClipGrows(s: Bytes, e: Bytes, off: nat, count: nat)
    requires off <= |s| && |s| - off < count
    ensures Clip(s, off, count) == s[off..]
    ensures Clip(s, off, count) + e[..Min(|e|, count - (|s| - off))] == Clip(s + e, off, count)
  {
  }

  lemma ClipShift(pre: Bytes, s: Bytes, off: nat, count: nat)
    ensures Clip(pre + s, |pre| + off, count) == Clip(s, off, count)
  {
  }
}
