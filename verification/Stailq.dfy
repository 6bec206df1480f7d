/**
 The singly linked tail queue of server/queue.h:299-423.

 A `Link` is a next cell: an entry's stqe_next or a head's stqh_first.  A head also keeps, in
 stqh_last, the address of the last next cell, which is the head's own cell while the queue is empty.
 */
module Stailq {
  import opened Chains

  class Link {
    var next: Link?

    constructor ()
      ensures next == null
    {
      next := null;
    }
  }

  class Head {
    const cell: Link
    var last: Link

    /** STAILQ_HEAD_INITIALIZER */
    constructor ()
      ensures Queue(this, []) && fresh(cell)
    {
      var first := new Link();
      cell := first;
      last := first;
    }
  }

  /** The queue has the entries `nodes`, in this order, and the tail pointer is right. */
  ghost predicate Queue(head: Head, nodes: seq<Link>)
    reads head, head.cell, nodes
  {
    && Distinct(head.cell, nodes)
    && (forall i {:trigger At(head.cell, nodes, i)} :: 0 <= i < |nodes| ==> At(head.cell, nodes, i).next == nodes[i])
    && At(head.cell, nodes, |nodes|).next == null
    && head.last == At(head.cell, nodes, |nodes|)
  }

  /** The cells determine the entries. */
  lemma QueueUnique(head: Head, a: seq<Link>, b: seq<Link>)
    requires Queue(head, a) && Queue(head, b)
    ensures a == b
  {
    SamePrefix(head, a, b, |a|);
    SamePrefix(head, b, a, |b|);
  }

  lemma {:induction false} SamePrefix(head: Head, a: seq<Link>, b: seq<Link>, n: nat)
    requires Queue(head, a) && Queue(head, b) && n <= |a|
    ensures n <= |b| && a[..n] == b[..n]
  {
    if n > 0 {
      SamePrefix(head, a, b, n - 1);
      assert At(head.cell, a, n - 1) == At(head.cell, b, n - 1);
      assert a[..n] == a[..n - 1] + [a[n - 1]];
    }
  }

  /** STAILQ_INIT */
  method Init(head: Head)
    modifies head, head.cell
    ensures Queue(head, [])
  {
    head.cell.next := null;
    head.last := head.cell;
  }

  /** What the insertions have in common, at the cell before the new entry. */
  method Insert(head: Head, cell: Link, elm: Link, ghost nodes: seq<Link>, ghost k: nat)
    requires Queue(head, nodes) && k <= |nodes| && cell == At(head.cell, nodes, k)
    requires elm != head.cell && elm !in nodes
    modifies head, cell, elm
    ensures Queue(head, InsertAt(nodes, k, elm))
    ensures k < |nodes| ==> head.last == old(head.last)
  {
    elm.next := cell.next;
    if elm.next == null {
      head.last := elm;
    }
    cell.next := elm;
    ghost var now := InsertAt(nodes, k, elm);
    InsertedAt(head.cell, nodes, k, elm);
    forall i: nat | i < |now|
      ensures At(head.cell, now, i).next == now[i]
    {
      var j := if i <= k then i else i - 1;
      DifferentLinks(head.cell, nodes, j, k);
    }
  }

  /** STAILQ_INSERT_HEAD */
  method InsertHead(head: Head, elm: Link, ghost nodes: seq<Link>)
    requires Queue(head, nodes) && elm != head.cell && elm !in nodes
    modifies head, head.cell, elm
    ensures Queue(head, [elm] + nodes)
  {
    Insert(head, head.cell, elm, nodes, 0);
    assert InsertAt(nodes, 0, elm) == [elm] + nodes;
  }

  /** STAILQ_INSERT_AFTER */
  method InsertAfter(head: Head, listelm: Link, elm: Link, ghost nodes: seq<Link>, ghost k: nat)
    requires Queue(head, nodes) && k < |nodes| && nodes[k] == listelm && elm != head.cell && elm !in nodes
    modifies head, listelm, elm
    ensures Queue(head, InsertAt(nodes, k + 1, elm))
  {
    Insert(head, listelm, elm, nodes, k + 1);
  }

  /** STAILQ_INSERT_TAIL */
  method InsertTail(head: Head, elm: Link, ghost nodes: seq<Link>)
    requires Queue(head, nodes) && elm != head.cell && elm !in nodes
    modifies head, head.last, elm
    ensures Queue(head, nodes + [elm])
  {
    elm.next := null;
    head.last.next := elm;
    head.last := elm;
    ghost var now := nodes + [elm];
    assert now == InsertAt(nodes, |nodes|, elm);
    InsertedAt(head.cell, nodes, |nodes|, elm);
    forall i: nat | i < |now|
      ensures At(head.cell, now, i).next == now[i]
    {
      DifferentLinks(head.cell, nodes, i, |nodes|);
    }
  }

  /** STAILQ_CONCAT */
  method Concat(head1: Head, head2: Head, ghost nodes1: seq<Link>, ghost nodes2: seq<Link>)
    requires Queue(head1, nodes1) && Queue(head2, nodes2) && Apart(head1, head2, nodes1, nodes2)
    modifies head1, head1.last, head2, head2.cell
    ensures Queue(head1, nodes1 + nodes2) && Queue(head2, [])
  {
    assert At(head2.cell, nodes2, 0) == head2.cell;
    if head2.cell.next != null {
      head1.last.next := head2.cell.next;
      head1.last := head2.last;
      Init(head2);
      ghost var now := nodes1 + nodes2;
      forall i: nat | i <= |now|
        ensures At(head1.cell, now, i) ==
                if i <= |nodes1| then At(head1.cell, nodes1, i) else At(head2.cell, nodes2, i - |nodes1|)
        ensures i < |now| ==> At(head1.cell, now, i).next == now[i]
      {
        if i <= |nodes1| {
          DifferentLinks(head1.cell, nodes1, i, |nodes1|);
        }
      }
    } else {
      assert nodes1 + nodes2 == nodes1;
    }
  }

  /** Two queues that share nothing. */
  ghost predicate Apart(head1: Head, head2: Head, nodes1: seq<Link>, nodes2: seq<Link>) {
    && head1 != head2 && head1.cell != head2.cell
    && Distinct(head1.cell, nodes1 + nodes2) && head2.cell !in nodes1 + nodes2
  }

  /** STAILQ_REMOVE_HEAD_UNTIL: everything up to and including `elm` */
  method RemoveHeadUntil(head: Head, elm: Link, ghost nodes: seq<Link>, ghost k: nat)
    requires Queue(head, nodes) && k < |nodes| && nodes[k] == elm
    modifies head, head.cell
    ensures Queue(head, nodes[k + 1..])
  {
    assert elm == At(head.cell, nodes, k + 1);
    head.cell.next := elm.next;
    if head.cell.next == null {
      head.last := head.cell;
    }
    ghost var now := nodes[k + 1..];
    forall i: nat | i <= |now|
      ensures At(head.cell, now, i) == (if i == 0 then head.cell else At(head.cell, nodes, i + k + 1))
      ensures i < |now| ==> At(head.cell, now, i).next == now[i]
    {
      DifferentLinks(head.cell, nodes, i + k + 1, 0);
      assert i < |now| ==> old(At(head.cell, nodes, i + k + 1).next) == nodes[i + k + 1];
    }
  }

  /** STAILQ_REMOVE_HEAD */
  method RemoveHead(head: Head, ghost nodes: seq<Link>)
    requires Queue(head, nodes) && nodes != []
    modifies head, head.cell
    ensures Queue(head, nodes[1..])
  {
    assert At(head.cell, nodes, 0) == head.cell;
    RemoveHeadUntil(head, head.cell.next, nodes, 0);
  }

  /** STAILQ_REMOVE_AFTER: the entry behind `elm`; `elm` may be given by any next cell of the queue */
  method RemoveAfter(head: Head, elm: Link, ghost nodes: seq<Link>, ghost k: nat)
    requires Queue(head, nodes) && k < |nodes| && elm == At(head.cell, nodes, k)
    modifies head, elm
    ensures Queue(head, RemoveAt(nodes, k))
  {
    assert elm.next == At(head.cell, nodes, k + 1);
    elm.next := elm.next.next;
    if elm.next == null {
      head.last := elm;
    }
    ghost var now := RemoveAt(nodes, k);
    RemovedAt(head.cell, nodes, k);
    forall i: nat | i < |now|
      ensures At(head.cell, now, i).next == now[i]
    {
      var j := if i < k then i else i + 1;
      DifferentLinks(head.cell, nodes, j, k);
    }
  }

  /** STAILQ_REMOVE, with its search loop */
  method Remove(head: Head, elm: Link, ghost nodes: seq<Link>, ghost k: nat)
    requires Queue(head, nodes) && k < |nodes| && nodes[k] == elm
    modifies head, At(head.cell, nodes, k)
    ensures Queue(head, RemoveAt(nodes, k))
  {
    assert At(head.cell, nodes, 0) == head.cell;
    if head.cell.next == elm {
      assert k == 0;
      RemoveHead(head, nodes);
      assert RemoveAt(nodes, 0) == nodes[1..];
    } else {
      var curelm := head.cell.next;
      ghost var i: nat := 0;
      while curelm.next != elm
        invariant i < k && curelm == nodes[i]
        decreases k - i
      {
        assert curelm == At(head.cell, nodes, i + 1);
        curelm := curelm.next;
        i := i + 1;
      }
      assert curelm == At(head.cell, nodes, i + 1);
      RemoveAfter(head, curelm, nodes, k);
    }
  }

  /** STAILQ_SWAP */
  method Swap(head1: Head, head2: Head, ghost nodes1: seq<Link>, ghost nodes2: seq<Link>)
    requires Queue(head1, nodes1) && Queue(head2, nodes2) && Apart(head1, head2, nodes1, nodes2)
    modifies head1, head1.cell, head2, head2.cell
    ensures Queue(head1, nodes2) && Queue(head2, nodes1)
  {
    assert At(head1.cell, nodes1, 0) == head1.cell && At(head2.cell, nodes2, 0) == head2.cell;
    var swapFirst, swapLast := head1.cell.next, head1.last;
    head1.cell.next := head2.cell.next;
    head1.last := head2.last;
    head2.cell.next := swapFirst;
    head2.last := swapLast;
    if head1.cell.next == null {
      head1.last := head1.cell;
    }
    if head2.cell.next == null {
      head2.last := head2.cell;
    }
    assert forall i {:trigger At(head1.cell, nodes2, i)} :: 0 < i <= |nodes2| ==>
        At(head1.cell, nodes2, i) == At(head2.cell, nodes2, i);
    assert forall i {:trigger At(head2.cell, nodes1, i)} :: 0 < i <= |nodes1| ==>
        At(head2.cell, nodes1, i) == At(head1.cell, nodes1, i);
  }

  /** STAILQ_LAST */
  method Last(head: Head, ghost nodes: seq<Link>) returns (last: Link?)
    requires Queue(head, nodes)
    ensures last == if nodes == [] then null else nodes[|nodes| - 1]
  {
    assert At(head.cell, nodes, 0) == head.cell;
    last := if head.cell.next == null then null else head.last;
  }
}
