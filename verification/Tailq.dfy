/**
 The doubly linked tail queue of server/queue.h:429-567.

 A `Link` is a pair of cells.  In an entry they are tqe_next and tqe_prev, in a head tqh_first and
 tqh_last; TAILQ_LAST and TAILQ_PREV rely on the two having the same layout.  The address of a
 first cell is modelled by the link the cell is in, so `prev` is the link whose `next` cell
 points here, and a head's `prev` is the link with the last next cell.
 */
module Tailq {
  import opened Chains

  class Link {
    var next: Link?
    var prev: Link

    constructor ()
      ensures next == null && prev == this
    {
      next, prev := null, this;
    }
  }

  /** The queue with head `head` has the entries `nodes`, in this order, and all its cells are right. */
  ghost predicate Queue(head: Link, nodes: seq<Link>)
    reads head, nodes
  {
    && Distinct(head, nodes)
    && (forall i {:trigger At(head, nodes, i)} :: 0 <= i < |nodes| ==>
          At(head, nodes, i).next == nodes[i] && nodes[i].prev == At(head, nodes, i))
    && At(head, nodes, |nodes|).next == null
    && head.prev == At(head, nodes, |nodes|)
  }

  /** The cells determine the entries: a head is the head of one queue only. */
  lemma QueueUnique(head: Link, a: seq<Link>, b: seq<Link>)
    requires Queue(head, a) && Queue(head, b)
    ensures a == b
  {
    SamePrefix(head, a, b, |a|);
    SamePrefix(head, b, a, |b|);
  }

  lemma {:induction false} SamePrefix(head: Link, a: seq<Link>, b: seq<Link>, n: nat)
    requires Queue(head, a) && Queue(head, b) && n <= |a|
    ensures n <= |b| && a[..n] == b[..n]
  {
    if n > 0 {
      SamePrefix(head, a, b, n - 1);
      assert At(head, a, n - 1) == At(head, b, n - 1);
      assert a[..n] == a[..n - 1] + [a[n - 1]];
      assert b[..n] == b[..n - 1] + [b[n - 1]];
    }
  }

  /** TAILQ_INIT */
  method Init(head: Link)
    modifies head
    ensures Queue(head, [])
  {
    head.next := null;
    head.prev := head;
  }

  /** TAILQ_INSERT_HEAD */
  method InsertHead(head: Link, elm: Link, ghost nodes: seq<Link>)
    requires Queue(head, nodes) && elm != head && elm !in nodes
    modifies head, elm, if nodes == [] then {} else {nodes[0]}
    ensures Queue(head, [elm] + nodes)
  {
    assert At(head, nodes, 0) == head;
    elm.next := head.next;
    if elm.next != null {
      head.next.prev := elm;
    } else {
      head.prev := elm;
    }
    head.next := elm;
    elm.prev := head;
    Shifted(head, elm, nodes);
  }

  lemma Shifted(head: Link, elm: Link, nodes: seq<Link>)
    ensures forall i {:trigger At(head, [elm] + nodes, i)} :: 1 <= i <= |nodes| + 1 ==>
      At(head, [elm] + nodes, i) == if i == 1 then elm else At(head, nodes, i - 1)
  {
  }

  /** TAILQ_INSERT_TAIL */
  method InsertTail(head: Link, elm: Link, ghost nodes: seq<Link>)
    requires Queue(head, nodes) && elm != head && elm !in nodes
    modifies head, elm, At(head, nodes, |nodes|)
    ensures Queue(head, nodes + [elm])
  {
    elm.next := null;
    elm.prev := head.prev;
    head.prev.next := elm;
    head.prev := elm;
    assert forall i {:trigger At(head, nodes + [elm], i)} :: 0 <= i <= |nodes| ==>
        At(head, nodes + [elm], i) == At(head, nodes, i);
  }

  /** TAILQ_INSERT_BEFORE, which is not given the head */
  method InsertBefore(listelm: Link, elm: Link, ghost head: Link, ghost nodes: seq<Link>, ghost k: nat)
    requires Queue(head, nodes) && k < |nodes| && nodes[k] == listelm && elm != head && elm !in nodes
    modifies listelm, elm, At(head, nodes, k)
    ensures Queue(head, InsertAt(nodes, k, elm))
  {
    assert listelm.prev == At(head, nodes, k);
    elm.prev := listelm.prev;
    elm.next := listelm;
    listelm.prev.next := elm;
    listelm.prev := elm;
    ghost var now := InsertAt(nodes, k, elm);
    InsertedAt(head, nodes, k, elm);
    forall i: nat | i < |now|
      ensures At(head, now, i).next == now[i] && now[i].prev == At(head, now, i)
    {
      var j := if i <= k then i else i - 1;
      assert old(At(head, nodes, j).next == nodes[j] && nodes[j].prev == At(head, nodes, j));
      DifferentLinks(head, nodes, j, k);
      DifferentLinks(head, nodes, j + 1, k);
    }
  }

  /** TAILQ_INSERT_AFTER */
  method InsertAfter(head: Link, listelm: Link, elm: Link, ghost nodes: seq<Link>, ghost k: nat)
    requires Queue(head, nodes) && k < |nodes| && nodes[k] == listelm && elm != head && elm !in nodes
    modifies listelm, elm, if k + 1 < |nodes| then nodes[k + 1] else head
    ensures Queue(head, InsertAt(nodes, k + 1, elm))
  {
    assert listelm == At(head, nodes, k + 1);
    elm.next := listelm.next;
    if elm.next != null {
      elm.next.prev := elm;
    } else {
      head.prev := elm;
    }
    listelm.next := elm;
    elm.prev := listelm;
    ghost var now := InsertAt(nodes, k + 1, elm);
    InsertedAt(head, nodes, k + 1, elm);
    forall i: nat | i < |now|
      ensures At(head, now, i).next == now[i] && now[i].prev == At(head, now, i)
    {
      if i != k + 1 {
        var j := if i <= k then i else i - 1;
        assert old(At(head, nodes, j).next == nodes[j] && nodes[j].prev == At(head, nodes, j));
        DifferentLinks(head, nodes, j, k + 1);
      }
    }
  }

  /** TAILQ_REMOVE */
  method Remove(head: Link, elm: Link, ghost nodes: seq<Link>, ghost k: nat)
    requires Queue(head, nodes) && k < |nodes| && nodes[k] == elm
    modifies At(head, nodes, k), if k + 1 < |nodes| then nodes[k + 1] else head
    ensures Queue(head, RemoveAt(nodes, k))
    ensures elm.next == old(elm.next) && elm.prev == old(elm.prev)
  {
    assert elm == At(head, nodes, k + 1) && elm.prev == At(head, nodes, k);
    if elm.next != null {
      elm.next.prev := elm.prev;
    } else {
      head.prev := elm.prev;
    }
    elm.prev.next := elm.next;
    ghost var now := RemoveAt(nodes, k);
    RemovedAt(head, nodes, k);
    forall i: nat | i < |now|
      ensures At(head, now, i).next == now[i] && now[i].prev == At(head, now, i)
    {
      var j := if i < k then i else i + 1;
      assert old(At(head, nodes, j).next == nodes[j] && nodes[j].prev == At(head, nodes, j));
      DifferentLinks(head, nodes, j, k);
    }
  }

  /** TAILQ_REPLACE */
  method Replace(head: Link, elm: Link, elm2: Link, ghost nodes: seq<Link>, ghost k: nat)
    requires Queue(head, nodes) && k < |nodes| && nodes[k] == elm && elm2 != head && elm2 !in nodes
    modifies elm2, At(head, nodes, k), if k + 1 < |nodes| then nodes[k + 1] else head
    ensures Queue(head, nodes[k := elm2])
    ensures elm.next == old(elm.next) && elm.prev == old(elm.prev)
  {
    assert elm == At(head, nodes, k + 1) && elm.prev == At(head, nodes, k);
    elm2.next := elm.next;
    if elm2.next != null {
      elm2.next.prev := elm2;
    } else {
      head.prev := elm2;
    }
    elm2.prev := elm.prev;
    elm2.prev.next := elm2;
    ghost var now := nodes[k := elm2];
    forall i | 0 <= i <= |now|
      ensures At(head, now, i) == (if i == k + 1 then elm2 else At(head, nodes, i))
    {
    }
  }

  /** TAILQ_CONCAT */
  method Concat(head1: Link, head2: Link, ghost nodes1: seq<Link>, ghost nodes2: seq<Link>)
    requires Queue(head1, nodes1) && Queue(head2, nodes2)
    requires Distinct(head1, nodes1 + nodes2) && head2 !in nodes1 + nodes2 + [head1]
    modifies head1, head2, At(head1, nodes1, |nodes1|), if nodes2 == [] then {} else {nodes2[0]}
    ensures Queue(head1, nodes1 + nodes2) && Queue(head2, [])
  {
    assert At(head2, nodes2, 0) == head2;
    if head2.next != null {
      head1.prev.next := head2.next;
      head2.next.prev := head1.prev;
      head1.prev := head2.prev;
      Init(head2);
      ghost var now := nodes1 + nodes2;
      forall i | 0 <= i <= |now|
        ensures At(head1, now, i) == (if i <= |nodes1| then At(head1, nodes1, i) else At(head2, nodes2, i - |nodes1|))
      {
      }
    } else {
      assert nodes1 + nodes2 == nodes1;
    }
  }

  /** TAILQ_SWAP */
  method Swap(head1: Link, head2: Link, ghost nodes1: seq<Link>, ghost nodes2: seq<Link>)
    requires Queue(head1, nodes1) && Queue(head2, nodes2)
    requires Distinct(head1, nodes1 + nodes2) && head2 !in nodes1 + nodes2 + [head1]
    modifies head1, head2
    modifies if nodes1 == [] then {} else {nodes1[0]}
    modifies if nodes2 == [] then {} else {nodes2[0]}
    ensures Queue(head1, nodes2) && Queue(head2, nodes1)
  {
    assert At(head1, nodes1, 0) == head1 && At(head2, nodes2, 0) == head2;
    var swapFirst, swapLast := head1.next, head1.prev;
    head1.next := head2.next;
    head1.prev := head2.prev;
    head2.next := swapFirst;
    head2.prev := swapLast;
    swapFirst := head1.next;
    if swapFirst != null {
      swapFirst.prev := head1;
    } else {
      head1.prev := head1;
    }
    swapFirst := head2.next;
    if swapFirst != null {
      swapFirst.prev := head2;
    } else {
      head2.prev := head2;
    }
    assert forall i {:trigger At(head1, nodes2, i)} :: 0 < i <= |nodes2| ==>
        At(head1, nodes2, i) == At(head2, nodes2, i);
    assert forall i {:trigger At(head2, nodes1, i)} :: 0 < i <= |nodes1| ==>
        At(head2, nodes1, i) == At(head1, nodes1, i);
  }

  // Access.

  /** The link with the last next cell holds null there. */
  lemma LastCell(head: Link, nodes: seq<Link>)
    requires Queue(head, nodes)
    ensures head.prev.next == null
  {
  }

  /** TAILQ_LAST: the last next cell's link, read as a head */
  method Last(head: Link, ghost nodes: seq<Link>) returns (last: Link?)
    requires Queue(head, nodes)
    ensures last == if nodes == [] then null else nodes[|nodes| - 1]
  {
    if nodes != [] {
      assert nodes[|nodes| - 1].prev == At(head, nodes, |nodes| - 1);
    }
    last := head.prev.prev.next;
  }

  /** TAILQ_PREV: the link before, read as a head */
  method Prev(elm: Link, ghost head: Link, ghost nodes: seq<Link>, ghost k: nat) returns (prev: Link?)
    requires Queue(head, nodes) && k < |nodes| && nodes[k] == elm
    ensures prev == if k == 0 then null else nodes[k - 1]
  {
    assert elm.prev == At(head, nodes, k);
    if k > 0 {
      assert nodes[k - 1].prev == At(head, nodes, k - 1);
    } else {
      LastCell(head, nodes);
    }
    prev := elm.prev.prev.next;
  }

  function Reversed(nodes: seq<Link>): seq<Link> {
    if nodes == [] then [] else [nodes[|nodes| - 1]] + Reversed(nodes[..|nodes| - 1])
  }

  lemma {:induction false} ReversedAt(nodes: seq<Link>, k: nat)
    requires k < |nodes|
    ensures |Reversed(nodes)| == |nodes| && Reversed(nodes)[k] == nodes[|nodes| - 1 - k]
  {
    if |nodes| > 1 {
      ReversedAt(nodes[..|nodes| - 1], if k == 0 then 0 else k - 1);
    }
  }

  lemma ReversedStep(nodes: seq<Link>, n: nat)
    requires 0 < n <= |nodes|
    ensures Reversed(nodes[..n]) == [nodes[n - 1]] + Reversed(nodes[..n - 1])
  {
    assert nodes[..n][..n - 1] == nodes[..n - 1];
  }

  /** TAILQ_FOREACH: the entries passed */
  method Foreach(head: Link, ghost nodes: seq<Link>) returns (visited: seq<Link>)
    requires Queue(head, nodes)
    ensures visited == nodes
  {
    visited := [];
    assert head == At(head, nodes, 0);
    var v := head.next;
    while v != null
      invariant |visited| <= |nodes| && visited == nodes[..|visited|]
      invariant v == At(head, nodes, |visited|).next
      decreases |nodes| - |visited|
    {
      assert At(head, nodes, |visited| + 1) == v;
      visited := visited + [v];
      v := v.next;
    }
  }

  /** TAILQ_FOREACH_REVERSE: the entries passed are the same, in reverse order */
  method ForeachReverse(head: Link, ghost nodes: seq<Link>) returns (visited: seq<Link>)
    requires Queue(head, nodes)
    ensures visited == Reversed(nodes)
  {
    visited := [];
    var v := Last(head, nodes);
    ghost var left: nat := |nodes|;
    assert nodes[..left] == nodes;
    while v != null
      invariant 0 <= left <= |nodes| && Reversed(nodes) == visited + Reversed(nodes[..left])
      invariant v == if left == 0 then null else nodes[left - 1]
      decreases left
    {
      ReversedStep(nodes, left);
      visited := visited + [v];
      v := Prev(v, head, nodes, left - 1);
      left := left - 1;
    }
  }
}
