/** The singly linked list of server/queue.h:127-198, with the server's entries in it (server/aesdsocket.h:46-52). */
module Slist {
  import opened Chains

  /** slist_data_s, without the thread's own data. */
  class Entry {
    const threadId: nat
    var next: Entry?

    constructor (threadId: nat)
      ensures this.threadId == threadId
    {
      this.threadId, next := threadId, null;
    }
  }

  class ListHead {
    var first: Entry?

    /** SLIST_INIT */
    constructor ()
      ensures List(this, [])
    {
      first := null;
    }
  }

  /** The entry with index `i`, null behind the last one. */
  function EntryAt(nodes: seq<Entry>, i: nat): Entry? { if i < |nodes| then nodes[i] else null }

  ghost predicate List(head: ListHead, nodes: seq<Entry>)
    reads head, nodes
  {
    && (forall i, j :: 0 <= i < j < |nodes| ==> nodes[i] != nodes[j])
    && head.first == EntryAt(nodes, 0)
    && forall i {:trigger EntryAt(nodes, i)} :: 0 < i <= |nodes| ==> nodes[i - 1].next == EntryAt(nodes, i)
  }

  /** The list determines the entries. */
  lemma ListUnique(head: ListHead, a: seq<Entry>, b: seq<Entry>)
    requires List(head, a) && List(head, b)
    ensures a == b
  {
    SamePrefix(head, a, b, |a|);
    SamePrefix(head, b, a, |b|);
  }

  lemma {:induction false} SamePrefix(head: ListHead, a: seq<Entry>, b: seq<Entry>, n: nat)
    requires List(head, a) && List(head, b) && n <= |a|
    ensures n <= |b| && a[..n] == b[..n]
  {
    if n > 0 {
      SamePrefix(head, a, b, n - 1);
      if n > 1 {
        assert a[n - 2] == a[..n - 1][n - 2] == b[..n - 1][n - 2] == b[n - 2];
      }
      assert EntryAt(a, n - 1) == EntryAt(b, n - 1);
      assert a[..n] == a[..n - 1] + [a[n - 1]];
    }
  }

  /** SLIST_INSERT_HEAD */
  method InsertHead(head: ListHead, elm: Entry, ghost nodes: seq<Entry>)
    requires List(head, nodes) && elm !in nodes
    modifies head, elm`next
    ensures List(head, [elm] + nodes)
  {
    elm.next := head.first;
    head.first := elm;
    ghost var now := [elm] + nodes;
    forall i: nat | 0 < i <= |now|
      ensures now[i - 1].next == EntryAt(now, i)
    {
      assert i > 1 ==> old(nodes[i - 2].next) == EntryAt(nodes, i - 1);
    }
  }

  /** SLIST_INSERT_AFTER */
  method InsertAfter(head: ListHead, slistelm: Entry, elm: Entry, ghost nodes: seq<Entry>, ghost k: nat)
    requires List(head, nodes) && k < |nodes| && nodes[k] == slistelm && elm !in nodes
    modifies slistelm`next, elm`next
    ensures List(head, InsertAt(nodes, k + 1, elm))
  {
    elm.next := slistelm.next;
    slistelm.next := elm;
    ghost var now := InsertAt(nodes, k + 1, elm);
    forall i: nat | 0 < i <= |now|
      ensures now[i - 1].next == EntryAt(now, i)
    {
      var j := if i <= k + 1 then i else i - 1;
      assert old(nodes[j - 1].next) == EntryAt(nodes, j);
    }
  }

  /** SLIST_REMOVE_HEAD */
  method RemoveHead(head: ListHead, ghost nodes: seq<Entry>)
    requires List(head, nodes) && nodes != []
    modifies head
    ensures List(head, nodes[1..])
  {
    assert nodes[0].next == EntryAt(nodes, 1);
    head.first := head.first.next;
    forall i: nat | 0 < i < |nodes|
      ensures nodes[1..][i - 1].next == EntryAt(nodes[1..], i)
    {
      assert nodes[i].next == EntryAt(nodes, i + 1);
    }
  }

  /** SLIST_REMOVE_AFTER */
  method RemoveAfter(head: ListHead, slistelm: Entry, ghost nodes: seq<Entry>, ghost k: nat)
    requires List(head, nodes) && k + 1 < |nodes| && nodes[k] == slistelm
    modifies slistelm`next
    ensures List(head, RemoveAt(nodes, k + 1))
  {
    assert nodes[k].next == EntryAt(nodes, k + 1) && nodes[k + 1].next == EntryAt(nodes, k + 2);
    slistelm.next := slistelm.next.next;
    ghost var now := RemoveAt(nodes, k + 1);
    forall i: nat | 0 < i <= |now|
      ensures now[i - 1].next == EntryAt(now, i)
    {
      var j := if i <= k then i else i + 1;
      assert old(nodes[j - 1].next) == EntryAt(nodes, j);
    }
  }

  /** SLIST_REMOVE, with its search loop; the removed entry keeps its next field */
  method Remove(head: ListHead, elm: Entry, ghost nodes: seq<Entry>, ghost k: nat)
    requires List(head, nodes) && k < |nodes| && nodes[k] == elm
    modifies head
    modifies if k == 0 then {} else {nodes[k - 1]}
    ensures List(head, RemoveAt(nodes, k))
    ensures elm.next == old(elm.next)
  {
    if head.first == elm {
      assert k == 0;
      RemoveHead(head, nodes);
      assert RemoveAt(nodes, 0) == nodes[1..];
    } else {
      var curelm := head.first;
      ghost var i: nat := 0;
      while curelm.next != elm
        invariant i < k && curelm == nodes[i]
        decreases k - i
      {
        assert nodes[i].next == EntryAt(nodes, i + 1);
        curelm := curelm.next;
        i := i + 1;
      }
      assert nodes[i].next == EntryAt(nodes, i + 1);
      assert i + 1 == k;
      RemoveAfter(head, curelm, nodes, i);
    }
  }

  /** SLIST_SWAP */
  method Swap(head1: ListHead, head2: ListHead, ghost nodes1: seq<Entry>, ghost nodes2: seq<Entry>)
    requires List(head1, nodes1) && List(head2, nodes2)
    modifies head1, head2
    ensures List(head1, nodes2) && List(head2, nodes1)
  {
    var swapFirst := head1.first;
    head1.first := head2.first;
    head2.first := swapFirst;
  }
}
