/**
 The circular queue of server/queue.h:573-707.

 Head and entries are links in one ring; the source compares entry pointers with the head, cast
 to `void *`, to find the ring's end.
 */
module Circleq {
  import opened Chains

  class Link {
    var next: Link
    var prev: Link

    constructor ()
      ensures next == this && prev == this
    {
      next, prev := this, this;
    }
  }

  /** Forward and backward the links are those of `nodes` around the head: the two chains are mutual reverses. */
  ghost predicate Ring(head: Link, nodes: seq<Link>)
    reads head, nodes
  {
    && Distinct(head, nodes)
    && forall i {:trigger At(head, nodes, i)} :: 0 <= i <= |nodes| ==>
         At(head, nodes, i).next == At(head, nodes, i + 1) && At(head, nodes, i + 1).prev == At(head, nodes, i)
  }

  /** The ring determines the entries. */
  lemma RingUnique(head: Link, a: seq<Link>, b: seq<Link>)
    requires Ring(head, a) && Ring(head, b)
    ensures a == b
  {
    SamePrefix(head, a, b, |a|);
    SamePrefix(head, b, a, |b|);
  }

  lemma {:induction false} SamePrefix(head: Link, a: seq<Link>, b: seq<Link>, n: nat)
    requires Ring(head, a) && Ring(head, b) && n <= |a|
    ensures n <= |b| && a[..n] == b[..n]
  {
    if n > 0 {
      SamePrefix(head, a, b, n - 1);
      assert At(head, a, n - 1) == At(head, b, n - 1);
      assert At(head, a, n) == At(head, b, n);
      assert a[..n] == a[..n - 1] + [a[n - 1]];
    }
  }

  /** Writing to link `k`'s next and link `k+1`'s prev leaves the other cells alone. */
  lemma LinksApart(head: Link, nodes: seq<Link>, k: nat)
    requires Distinct(head, nodes) && k <= |nodes|
    ensures forall i {:trigger At(head, nodes, i)} :: 0 <= i <= |nodes| && i != k ==>
      At(head, nodes, i) != At(head, nodes, k) && At(head, nodes, i + 1) != At(head, nodes, k + 1)
  {
    forall i {:trigger At(head, nodes, i)} | 0 <= i <= |nodes| && i != k
      ensures At(head, nodes, i) != At(head, nodes, k) && At(head, nodes, i + 1) != At(head, nodes, k + 1)
    {
      DifferentLinks(head, nodes, i, k);
      DifferentLinks(head, nodes, if i == |nodes| then 0 else i + 1, if k == |nodes| then 0 else k + 1);
    }
  }

  /** CIRCLEQ_INIT */
  method Init(head: Link)
    modifies head
    ensures Ring(head, [])
  {
    head.next := head;
    head.prev := head;
  }

  /** CIRCLEQ_INSERT_HEAD */
  method InsertHead(head: Link, elm: Link, ghost nodes: seq<Link>)
    requires Ring(head, nodes) && elm != head && elm !in nodes
    modifies head, elm, At(head, nodes, 1)
    ensures Ring(head, [elm] + nodes)
  {
    assert head == At(head, nodes, 0);
    assert At(head, nodes, |nodes|).next == head;
    elm.next := head.next;
    elm.prev := head;
    if head.prev == head {
      head.prev := elm;
    } else {
      head.next.prev := elm;
    }
    head.next := elm;
    LinksApart(head, nodes, 0);
    InsertedAt(head, nodes, 0, elm);
    ghost var now := InsertAt(nodes, 0, elm);
    forall i: nat | i <= |now|
      ensures At(head, now, i).next == At(head, now, i + 1) && At(head, now, i + 1).prev == At(head, now, i)
    {
      var j := if i == 0 then i else i - 1;
      assert old(At(head, nodes, j).next == At(head, nodes, j + 1) &&
                 At(head, nodes, j + 1).prev == At(head, nodes, j));
    }
    assert InsertAt(nodes, 0, elm) == [elm] + nodes;
  }

  /** CIRCLEQ_INSERT_TAIL */
  method InsertTail(head: Link, elm: Link, ghost nodes: seq<Link>)
    requires Ring(head, nodes) && elm != head && elm !in nodes
    modifies head, elm, At(head, nodes, |nodes|)
    ensures Ring(head, nodes + [elm])
  {
    assert At(head, nodes, |nodes|).next == head;
    assert head == At(head, nodes, 0);
    elm.next := head;
    elm.prev := head.prev;
    if head.next == head {
      head.next := elm;
    } else {
      head.prev.next := elm;
    }
    head.prev := elm;
    LinksApart(head, nodes, |nodes|);
    InsertedAt(head, nodes, |nodes|, elm);
    ghost var now := InsertAt(nodes, |nodes|, elm);
    forall i: nat | i <= |now|
      ensures At(head, now, i).next == At(head, now, i + 1) && At(head, now, i + 1).prev == At(head, now, i)
    {
      var j := if i <= |nodes| then i else i - 1;
      assert old(At(head, nodes, j).next == At(head, nodes, j + 1) &&
                 At(head, nodes, j + 1).prev == At(head, nodes, j));
    }
    assert InsertAt(nodes, |nodes|, elm) == nodes + [elm];
  }

  /** CIRCLEQ_INSERT_BEFORE */
  method InsertBefore(head: Link, listelm: Link, elm: Link, ghost nodes: seq<Link>, ghost k: nat)
    requires Ring(head, nodes) && k < |nodes| && nodes[k] == listelm && elm != head && elm !in nodes
    modifies listelm, elm, At(head, nodes, k)
    ensures Ring(head, InsertAt(nodes, k, elm))
  {
    assert At(head, nodes, k).next == listelm;
    elm.next := listelm;
    elm.prev := listelm.prev;
    if listelm.prev == head {
      head.next := elm;
    } else {
      listelm.prev.next := elm;
    }
    listelm.prev := elm;
    LinksApart(head, nodes, k);
    InsertedAt(head, nodes, k, elm);
    ghost var now := InsertAt(nodes, k, elm);
    forall i: nat | i <= |now|
      ensures At(head, now, i).next == At(head, now, i + 1) && At(head, now, i + 1).prev == At(head, now, i)
    {
      var j := if i <= k then i else i - 1;
      assert old(At(head, nodes, j).next == At(head, nodes, j + 1) &&
                 At(head, nodes, j + 1).prev == At(head, nodes, j));
    }
  }

  /** CIRCLEQ_INSERT_AFTER */
  method InsertAfter(head: Link, listelm: Link, elm: Link, ghost nodes: seq<Link>, ghost k: nat)
    requires Ring(head, nodes) && k < |nodes| && nodes[k] == listelm && elm != head && elm !in nodes
    modifies listelm, elm, At(head, nodes, k + 2)
    ensures Ring(head, InsertAt(nodes, k + 1, elm))
  {
    assert At(head, nodes, k + 1) == listelm;
    elm.next := listelm.next;
    elm.prev := listelm;
    if listelm.next == head {
      head.prev := elm;
    } else {
      listelm.next.prev := elm;
    }
    listelm.next := elm;
    LinksApart(head, nodes, k + 1);
    InsertedAt(head, nodes, k + 1, elm);
    ghost var now := InsertAt(nodes, k + 1, elm);
    forall i: nat | i <= |now|
      ensures At(head, now, i).next == At(head, now, i + 1) && At(head, now, i + 1).prev == At(head, now, i)
    {
      var j := if i <= k + 1 then i else i - 1;
      assert old(At(head, nodes, j).next == At(head, nodes, j + 1) &&
                 At(head, nodes, j + 1).prev == At(head, nodes, j));
    }
  }

  /** CIRCLEQ_REMOVE */
  method Remove(head: Link, elm: Link, ghost nodes: seq<Link>, ghost k: nat)
    requires Ring(head, nodes) && k < |nodes| && nodes[k] == elm
    modifies At(head, nodes, k), At(head, nodes, k + 2)
    ensures Ring(head, RemoveAt(nodes, k))
    ensures elm.next == old(elm.next) && elm.prev == old(elm.prev)
  {
    assert At(head, nodes, k + 1) == elm && elm.prev == At(head, nodes, k) && elm.next == At(head, nodes, k + 2);
    if elm.next == head {
      head.prev := elm.prev;
    } else {
      elm.next.prev := elm.prev;
    }
    if elm.prev == head {
      head.next := elm.next;
    } else {
      elm.prev.next := elm.next;
    }
    LinksApart(head, nodes, k);
    LinksApart(head, nodes, k + 1);
    ghost var now := RemoveAt(nodes, k);
    RemovedAt(head, nodes, k);
    forall i: nat | i <= |now|
      ensures At(head, now, i).next == At(head, now, i + 1) && At(head, now, i + 1).prev == At(head, now, i)
    {
      var j := if i < k then i else i + 1;
      assert old(At(head, nodes, j).next == At(head, nodes, j + 1) &&
                 At(head, nodes, j + 1).prev == At(head, nodes, j));
    }
  }

  // Going round.

  /** CIRCLEQ_LOOP_NEXT */
  function LoopNext(head: Link, elm: Link): Link
    reads head, elm
  {
    if elm.next == head then head.next else elm.next
  }

  /** CIRCLEQ_LOOP_PREV */
  function LoopPrev(head: Link, elm: Link): Link
    reads head, elm
  {
    if elm.prev == head then head.prev else elm.prev
  }

  /** The two step through the entries cyclically, the head left out. */
  lemma LoopIndex(head: Link, nodes: seq<Link>, i: nat)
    requires Ring(head, nodes) && i < |nodes|
    ensures LoopNext(head, nodes[i]) == nodes[if i + 1 == |nodes| then 0 else i + 1]
    ensures LoopPrev(head, nodes[i]) == nodes[if i == 0 then |nodes| - 1 else i - 1]
  {
    assert nodes[i] == At(head, nodes, i + 1);
    assert nodes[i].prev == At(head, nodes, i);
    assert At(head, nodes, 0).next == At(head, nodes, 1);
    assert At(head, nodes, |nodes| + 1).prev == At(head, nodes, |nodes|);
  }

  /** They are inverse permutations of the entries. */
  lemma LoopInverse(head: Link, nodes: seq<Link>, elm: Link)
    requires Ring(head, nodes) && elm in nodes
    ensures LoopNext(head, elm) in nodes && LoopPrev(head, elm) in nodes
    ensures LoopPrev(head, LoopNext(head, elm)) == elm == LoopNext(head, LoopPrev(head, elm))
  {
    var i: nat :| i < |nodes| && nodes[i] == elm;
    LoopIndex(head, nodes, i);
    LoopIndex(head, nodes, if i + 1 == |nodes| then 0 else i + 1);
    LoopIndex(head, nodes, if i == 0 then |nodes| - 1 else i - 1);
  }

  /** `m` steps forward, or with `forward` false backward. */
  ghost function Steps(head: Link, nodes: seq<Link>, elm: Link, m: nat, forward: bool): (r: Link)
    requires Ring(head, nodes) && elm in nodes
    reads head, nodes
    ensures r in nodes
  {
    if m == 0 then elm
    else
      var before := Steps(head, nodes, elm, m - 1, forward);
      LoopInverse(head, nodes, before);
      if forward then LoopNext(head, before) else LoopPrev(head, before)
  }

  /** The index `m` steps from index `i`, in a ring of `n`. */
  function Ahead(i: nat, m: nat, n: nat, forward: bool): nat
    requires i < n && m <= n
  {
    if forward then (if i + m < n then i + m else i + m - n) else (if m <= i then i - m else i + n - m)
  }

  lemma {:induction false} StepsIndex(head: Link, nodes: seq<Link>, i: nat, m: nat, forward: bool)
    requires Ring(head, nodes) && i < |nodes| && m <= |nodes|
    ensures Ahead(i, m, |nodes|, forward) < |nodes|
    ensures Steps(head, nodes, nodes[i], m, forward) == nodes[Ahead(i, m, |nodes|, forward)]
  {
    if m > 0 {
      StepsIndex(head, nodes, i, m - 1, forward);
      LoopIndex(head, nodes, Ahead(i, m - 1, |nodes|, forward));
    }
  }

  /** As many steps as there are entries lead back to the start, and pass every entry on the way. */
  lemma FullCircle(head: Link, nodes: seq<Link>, start: Link, target: Link, forward: bool)
    requires Ring(head, nodes) && start in nodes && target in nodes
    ensures Steps(head, nodes, start, |nodes|, forward) == start
    ensures exists m: nat :: m < |nodes| && Steps(head, nodes, start, m, forward) == target
  {
    var n := |nodes|;
    var i: nat :| i < n && nodes[i] == start;
    var j: nat :| j < n && nodes[j] == target;
    var m := if forward then Ahead(j, i, n, false) else Ahead(i, j, n, false);
    if m == n {
      m := 0;
    }
    StepsIndex(head, nodes, i, n, forward);
    StepsIndex(head, nodes, i, m, forward);
  }

  /** Before that, no entry comes twice. */
  lemma NoneTwice(head: Link, nodes: seq<Link>, start: Link, m: nat, m': nat, forward: bool)
    requires Ring(head, nodes) && start in nodes && m < m' < |nodes|
    ensures Steps(head, nodes, start, m, forward) != Steps(head, nodes, start, m', forward)
  {
    var i: nat :| i < |nodes| && nodes[i] == start;
    StepsIndex(head, nodes, i, m, forward);
    StepsIndex(head, nodes, i, m', forward);
  }
}
