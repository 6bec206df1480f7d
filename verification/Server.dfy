/**
 The life of the server's threads (server/aesdsocket.c:383-465 and 314-330): each connection adds
 a thread to the list, the sweep joins and removes finished ones, shutdown cancels the rest.
 */
module Server {
  import opened Chains
  import opened Slist

  /** Thread ids in the order in which they were created, joined, cancelled, and as they are listed. */
  datatype Ledger = Ledger(created: seq<nat>, joined: seq<nat>, cancelled: seq<nat>, listed: seq<nat>)

  const NEW := Ledger([], [], [], [])

  /** The ids that `finished` selects, or does not select, in list order. */
  function Select(ids: seq<nat>, finished: nat -> bool, want: bool): seq<nat> {
    if ids == [] then []
    else
      var init, last := Select(ids[..|ids| - 1], finished, want), ids[|ids| - 1];
      if finished(last) == want then init + [last] else init
  }

  /** One connection, with the sweep that follows all but the first. */
  function Accept(l: Ledger, id: nat, finished: nat -> bool): Ledger {
    var listed, created := [id] + l.listed, l.created + [id];
    if |created| > 1
    then Ledger(created, l.joined + Select(listed, finished, true), l.cancelled, Select(listed, finished, false))
    else Ledger(created, l.joined, l.cancelled, listed)
  }

  /** The connections of a run, each with what its sweep finds finished. */
  function AcceptAll(l: Ledger, ids: seq<nat>, finished: seq<nat -> bool>): (r: Ledger)
    requires |ids| == |finished|
    ensures r.created == l.created + ids && r.cancelled == l.cancelled
  {
    if ids == [] then l
    else
      var n := |ids| - 1;
      Accept(AcceptAll(l, ids[..n], finished[..n]), ids[n], finished[n])
  }

  /** Every thread created has been joined, or cancelled, or is listed, and in one place only. */
  ghost predicate Accounted(l: Ledger) {
    multiset(l.created) == multiset(l.joined) + multiset(l.cancelled) + multiset(l.listed)
  }

  /** A sweep splits the listed threads. */
  lemma {:induction false} SelectSplits(ids: seq<nat>, finished: nat -> bool)
    ensures multiset(ids) == multiset(Select(ids, finished, true)) + multiset(Select(ids, finished, false))
  {
    if ids != [] {
      var init, last := ids[..|ids| - 1], ids[|ids| - 1];
      SelectSplits(init, finished);
      assert ids == init + [last];
      assert multiset(ids) == multiset(init) + multiset{last};
    }
  }

  /** By what the sweep found. */
  lemma {:induction false} SelectSelects(ids: seq<nat>, finished: nat -> bool, want: bool, x: nat)
    ensures x in Select(ids, finished, want) <==> x in ids && finished(x) == want
  {
    if ids != [] {
      SelectSelects(ids[..|ids| - 1], finished, want, x);
      assert ids == ids[..|ids| - 1] + [ids[|ids| - 1]];
    }
  }

  lemma AcceptAccounted(l: Ledger, id: nat, finished: nat -> bool)
    requires Accounted(l)
    ensures Accounted(Accept(l, id, finished))
  {
    var listed := [id] + l.listed;
    SelectSplits(listed, finished);
    if |l.created| > 0 {
      Moved(l, id, Select(listed, finished, true), Select(listed, finished, false));
    } else {
      Moved(l, id, [], listed);
      assert l.joined + [] == l.joined;
    }
  }

  /** Counting: one thread more, some of those listed joined. */
  lemma Moved(l: Ledger, id: nat, taken: seq<nat>, left: seq<nat>)
    requires Accounted(l) && multiset([id] + l.listed) == multiset(taken) + multiset(left)
    ensures Accounted(Ledger(l.created + [id], l.joined + taken, l.cancelled, left))
  {
    var n, t := multiset([id] + l.listed), multiset(taken) + multiset(left);
    assert n == multiset{id} + multiset(l.listed);
    forall x: nat
      ensures multiset(l.created + [id])[x] ==
              multiset(l.joined + taken)[x] + multiset(l.cancelled)[x] + multiset(left)[x]
    {
      assert n[x] == t[x];
    }
  }

  /** Over any run, whatever the sweeps find. */
  lemma {:induction false} AlwaysAccounted(ids: seq<nat>, finished: seq<nat -> bool>)
    requires |ids| == |finished|
    ensures Accounted(AcceptAll(NEW, ids, finished))
  {
    if ids != [] {
      var n := |ids| - 1;
      AlwaysAccounted(ids[..n], finished[..n]);
      AcceptAccounted(AcceptAll(NEW, ids[..n], finished[..n]), ids[n], finished[n]);
    }
  }

  lemma NoneBetween(a: multiset<nat>, b: multiset<nat>)
    ensures a + multiset{} + b == a + b
  {
  }

  /** At the end, what was not joined is listed. */
  lemma NothingLost(ids: seq<nat>, finished: seq<nat -> bool>)
    requires |ids| == |finished|
    ensures var l := AcceptAll(NEW, ids, finished); multiset(ids) == multiset(l.joined) + multiset(l.listed)
  {
    var l := AcceptAll(NEW, ids, finished);
    AlwaysAccounted(ids, finished);
    assert l.created == ids && l.cancelled == [];
    NoneBetween(multiset(l.joined), multiset(l.listed));
  }

  /**
   Every id is joined and listed together as often as it was given to a thread, also if it is used
   again after a join; so a thread whose id is used once is joined at most once, and not while listed.
   */
  lemma JoinedOnce(ids: seq<nat>, finished: seq<nat -> bool>, x: nat)
    requires |ids| == |finished|
    ensures var l := AcceptAll(NEW, ids, finished);
            && multiset(l.joined)[x] + multiset(l.listed)[x] == multiset(ids)[x]
            && (multiset(ids)[x] == 1 ==> (x in l.joined <==> x !in l.listed))
            && (x in ids <==> x in l.joined || x in l.listed)
  {
    var l := AcceptAll(NEW, ids, finished);
    var all, joined, listed := multiset(ids), multiset(l.joined), multiset(l.listed);
    NothingLost(ids, finished);
    assert all[x] == (joined + listed)[x];
    assert x in ids <==> x in all;
    assert x in l.joined <==> x in joined;
    assert x in l.listed <==> x in listed;
  }

  /** The order in which sweeps that take everything join the threads. */
  function JoinOrder(ids: seq<nat>): seq<nat> {
    if |ids| < 2 then [] else [ids[1], ids[0]] + ids[2..]
  }

  lemma JoinOrderGrows(ids: seq<nat>, id: nat)
    ensures JoinOrder(ids + [id]) == match |ids| case 0 => [] case 1 => [id] + ids case _ => JoinOrder(ids) + [id]
  {
  }

  ghost predicate TakesAll(finished: nat -> bool) { forall x: nat :: finished(x) }

  /** The ledger after connections `ids` whose sweeps all took everything. */
  predicate TookAll(l: Ledger, ids: seq<nat>) {
    l.created == ids && l.listed == (if |ids| == 1 then ids else []) && l.joined == JoinOrder(ids)
  }

  /** The condition as written assigns true, so every sweep takes all: only the first thread is ever left listed. */
  lemma {:induction false} AsWritten(ids: seq<nat>, finished: seq<nat -> bool>)
    requires |ids| == |finished|
    requires forall i :: 0 <= i < |finished| ==> TakesAll(finished[i])
    ensures TookAll(AcceptAll(NEW, ids, finished), ids)
  {
    if ids != [] {
      var n := |ids| - 1;
      var init, sweeps, id, last := ids[..n], finished[..n], ids[n], finished[n];
      assert TakesAll(last);
      AsWritten(init, sweeps);
      AcceptAsWritten(AcceptAll(NEW, init, sweeps), init, id, last);
      assert ids == init + [id];
    }
  }

  lemma AcceptAsWritten(l: Ledger, ids: seq<nat>, id: nat, finished: nat -> bool)
    requires TookAll(l, ids) && TakesAll(finished)
    ensures TookAll(Accept(l, id, finished), ids + [id])
  {
    SelectAll([id] + l.listed, finished);
    JoinOrderGrows(ids, id);
  }

  lemma {:induction false} SelectAll(ids: seq<nat>, finished: nat -> bool)
    requires TakesAll(finished)
    ensures Select(ids, finished, true) == ids && Select(ids, finished, false) == []
  {
    if ids != [] {
      SelectAll(ids[..|ids| - 1], finished);
      assert ids == ids[..|ids| - 1] + [ids[|ids| - 1]];
    }
  }

  // The server itself.

  function Ids(nodes: seq<Entry>): seq<nat> {
    if nodes == [] then [] else Ids(nodes[..|nodes| - 1]) + [nodes[|nodes| - 1].threadId]
  }

  lemma IdsSnoc(nodes: seq<Entry>, e: Entry)
    ensures Ids(nodes + [e]) == Ids(nodes) + [e.threadId]
  {
    assert (nodes + [e])[..|nodes|] == nodes;
  }

  lemma {:induction false} IdsCons(e: Entry, nodes: seq<Entry>)
    ensures Ids([e] + nodes) == [e.threadId] + Ids(nodes)
  {
    if nodes != [] {
      IdsCons(e, nodes[..|nodes| - 1]);
      assert ([e] + nodes)[..|nodes|] == [e] + nodes[..|nodes| - 1];
    }
  }

  /** The entries a sweep leaves in the list. */
  function Kept(nodes: seq<Entry>, finished: nat -> bool): seq<Entry> {
    if nodes == [] then []
    else
      var init, last := Kept(nodes[..|nodes| - 1], finished), nodes[|nodes| - 1];
      if finished(last.threadId) then init else init + [last]
  }

  lemma {:induction false} SweptIds(nodes: seq<Entry>, finished: nat -> bool)
    ensures Ids(Kept(nodes, finished)) == Select(Ids(nodes), finished, false)
  {
    if nodes != [] {
      var init := nodes[..|nodes| - 1];
      SweptIds(init, finished);
      IdsSnoc(Kept(init, finished), nodes[|nodes| - 1]);
    }
  }

  lemma {:induction false} KeptInside(nodes: seq<Entry>, finished: nat -> bool)
    ensures forall e :: e in Kept(nodes, finished) ==> e in nodes
  {
    if nodes != [] {
      var init := nodes[..|nodes| - 1];
      KeptInside(init, finished);
      assert forall e :: e in init ==> e in nodes;
    }
  }

  /** The sweep's account after one entry more. */
  lemma SweepStep(done: seq<Entry>, v: Entry, finished: nat -> bool)
    ensures Kept(done + [v], finished) == Kept(done, finished) + if finished(v.threadId) then [] else [v]
  {
    assert (done + [v])[..|done|] == done;
  }

  lemma SelectStep(ids: seq<nat>, id: nat, finished: nat -> bool)
    ensures Select(ids + [id], finished, true) == Select(ids, finished, true) + if finished(id) then [id] else []
  {
    assert (ids + [id])[..|ids|] == ids;
  }

  /** A sequence taken apart where the sweep stands. */
  lemma Stand(nodes: seq<Entry>, done: seq<Entry>, kept: seq<Entry>, rest: seq<Entry>)
    requires done + rest == nodes && rest != []
    ensures (done + [rest[0]]) + rest[1..] == nodes && rest[0] in nodes
    ensures kept + rest == kept + [rest[0]] + rest[1..]
    ensures forall e :: e in done ==> e in nodes
  {
    assert forall i :: 0 <= i < |done| ==> nodes[i] == done[i];
    assert nodes[|done|] == rest[0];
  }

  /** The body of the sweep, at entry `v`: behind the entries kept so far, before the rest. */
  method SweepOne(head: ListHead, v: Entry, finished: nat -> bool, ghost kept: seq<Entry>, ghost rest: seq<Entry>)
    returns (tvar: Entry?, joins: bool)
    requires List(head, kept + [v] + rest)
    modifies head, if kept == [] then {} else {kept[|kept| - 1]}
    ensures joins == finished(v.threadId) && tvar == EntryAt(rest, 0)
    ensures List(head, (if joins then kept else kept + [v]) + rest)
  {
    ghost var now := kept + [v] + rest;
    assert now[|kept|] == v && EntryAt(now, |kept| + 1) == EntryAt(rest, 0);
    tvar := v.next;
    joins := finished(v.threadId);
    if joins {
      assert |kept| > 0 ==> now[|kept| - 1] == kept[|kept| - 1];
      Remove(head, v, now, |kept|);
      assert RemoveAt(now, |kept|) == kept + rest;
    }
  }

  /** SLIST_FOREACH_SAFE with pthread_join and SLIST_REMOVE in its body */
  method Sweep(head: ListHead, finished: nat -> bool, ghost nodes: seq<Entry>) returns (joined: seq<nat>)
    requires List(head, nodes)
    modifies head, nodes
    ensures List(head, Kept(nodes, finished))
    ensures joined == Select(Ids(nodes), finished, true)
  {
    joined := [];
    var v := head.first;
    ghost var done: seq<Entry>, kept: seq<Entry>, rest := [], [], nodes;
    ghost var ids := Ids(done);
    assert kept + rest == nodes;
    while v != null
      invariant done + rest == nodes && v == EntryAt(rest, 0) && ids == Ids(done)
      invariant kept == Kept(done, finished) && joined == Select(ids, finished, true)
      invariant List(head, kept + rest)
      decreases |rest|
    {
      SweepStep(done, v, finished);
      SelectStep(ids, v.threadId, finished);
      IdsSnoc(done, v);
      KeptInside(done, finished);
      Stand(nodes, done, kept, rest);
      ghost var next := done + [v];
      assert kept != [] ==> kept[|kept| - 1] in nodes;
      var threadId, joins := v.threadId, false;
      v, joins := SweepOne(head, v, finished, kept, rest[1..]);
      if joins {
        joined := joined + [threadId];
      }
      ids, done, kept, rest := ids + [threadId], next, Kept(next, finished), rest[1..];
    }
    assert done == nodes && kept + rest == kept;
  }

  /** The drain loop of graceful_socket_shutdown: the ids cancelled */
  method Drain(head: ListHead, ghost nodes: seq<Entry>) returns (cancelled: seq<nat>)
    requires List(head, nodes)
    modifies head
    ensures List(head, []) && cancelled == Ids(nodes)
  {
    cancelled := [];
    ghost var done: seq<Entry>, left := [], nodes;
    assert done + left == nodes;
    while head.first != null
      invariant done + left == nodes && List(head, left)
      invariant cancelled == Ids(done)
      decreases |left|
    {
      var datap := head.first;
      cancelled := cancelled + [datap.threadId];
      RemoveHead(head, left);
      IdsSnoc(done, datap);
      done, left := done + [datap], left[1..];
    }
    assert done == nodes;
  }

  /** The entries that remain after a connection. */
  ghost function Left(l: Ledger, nodes: seq<Entry>, finished: nat -> bool): seq<Entry> {
    if |l.created| > 0 then Kept(nodes, finished) else nodes
  }

  lemma AcceptLists(l: Ledger, id: nat, finished: nat -> bool, nodes: seq<Entry>)
    requires Ids(nodes) == [id] + l.listed
    ensures Accept(l, id, finished).listed == Ids(Left(l, nodes, finished))
    ensures |Accept(l, id, finished).created| == |l.created| + 1
    ensures Accept(l, id, finished).joined ==
            l.joined + if |l.created| > 0 then Select(Ids(nodes), finished, true) else []
  {
    SweptIds(nodes, finished);
  }

  class AesdSocket {
    const head: ListHead
    var counter: nat
    ghost var entries: seq<Entry>
    ghost var objects: set<Entry>
    ghost var ledger: Ledger

    ghost predicate Linked()
      reads this, head, objects
    {
      (forall e :: e in entries ==> e in objects) && List(head, entries)
    }

    ghost predicate Valid()
      reads this, head, objects
    {
      && Linked()
      && ledger.listed == Ids(entries)
      && counter == |ledger.created|
    }

    constructor ()
      ensures Valid() && ledger == NEW && objects == {} && fresh(head)
    {
      head := new ListHead();
      counter := 0;
      entries, objects, ledger := [], {}, NEW;
    }

    /** The new thread's entry, in front of the others. */
    method Add(threadId: nat)
      requires Linked()
      modifies this`counter, this`entries, this`objects, head
      ensures Linked() && fresh(objects - old(objects))
      ensures Ids(entries) == [threadId] + Ids(old(entries))
      ensures counter == old(counter) + 1
    {
      var datap := new Entry(threadId);
      InsertHead(head, datap, entries);
      IdsCons(datap, entries);
      entries, objects := [datap] + entries, objects + {datap};
      counter := counter + 1;
    }

    /** The sweep, after all connections but the first. */
    method JoinFinished(finished: nat -> bool) returns (joined: seq<nat>)
      requires Linked()
      modifies this`entries, head, objects
      ensures Linked() && objects == old(objects)
      ensures entries == (if counter > 1 then Kept(old(entries), finished) else old(entries))
      ensures joined == if counter > 1 then Select(Ids(old(entries)), finished, true) else []
    {
      joined := [];
      if counter > 1 {
        KeptInside(entries, finished);
        joined := Sweep(head, finished, entries);
        entries := Kept(entries, finished);
      }
    }

    /** A connection was accepted and its thread, `threadId`, created; the ids joined by the sweep. */
    method Connect(threadId: nat, finished: nat -> bool) returns (joined: seq<nat>)
      requires Valid()
      modifies this, head, objects
      ensures Valid() && fresh(objects - old(objects))
      ensures ledger == Accept(old(ledger), threadId, finished)
      ensures ledger.joined == old(ledger.joined) + joined
    {
      ghost var before, after := ledger, Accept(ledger, threadId, finished);
      Add(threadId);
      assert fresh(objects - old(objects));
      AcceptLists(before, threadId, finished, entries);
      joined := JoinFinished(finished);
      ledger := after;
    }

    /** graceful_socket_shutdown, as far as the threads go; the ids cancelled. */
    method Shutdown() returns (cancelled: seq<nat>)
      requires Valid()
      modifies this, head
      ensures cancelled == old(ledger.listed)
      ensures Valid() && List(head, [])
      ensures ledger == old(ledger).(cancelled := old(ledger.cancelled) + cancelled, listed := [])
    {
      cancelled := Drain(head, entries);
      ledger := ledger.(cancelled := ledger.cancelled + cancelled, listed := []);
      entries := [];
    }
  }

  lemma AcceptNext(ids: seq<nat>, finished: seq<nat -> bool>, i: nat)
    requires i < |ids| == |finished|
    ensures AcceptAll(NEW, ids[..i + 1], finished[..i + 1]) ==
            Accept(AcceptAll(NEW, ids[..i], finished[..i]), ids[i], finished[i])
  {
    assert ids[..i + 1][..i] == ids[..i] && finished[..i + 1][..i] == finished[..i];
  }

  /** All connections of a run. */
  method AcceptConnections(ids: seq<nat>, finished: seq<nat -> bool>) returns (server: AesdSocket, joined: seq<nat>)
    requires |ids| == |finished|
    ensures server.Valid() && fresh(server) && fresh(server.head)
    ensures server.ledger == AcceptAll(NEW, ids, finished) && joined == server.ledger.joined
  {
    server := new AesdSocket();
    joined := [];
    for i := 0 to |ids|
      invariant server.Valid() && fresh(server) && fresh(server.head) && fresh(server.objects)
      invariant server.ledger == AcceptAll(NEW, ids[..i], finished[..i]) && joined == server.ledger.joined
    {
      AcceptNext(ids, finished, i);
      var some := server.Connect(ids[i], finished[i]);
      joined := joined + some;
    }
    assert ids[..|ids|] == ids && finished[..|ids|] == finished;
  }

  /** A whole run of the server: any number of connections, then the shutdown; every thread is joined or cancelled. */
  method Serve(ids: seq<nat>, finished: seq<nat -> bool>) returns (joined: seq<nat>, cancelled: seq<nat>)
    requires |ids| == |finished|
    ensures joined == AcceptAll(NEW, ids, finished).joined && cancelled == AcceptAll(NEW, ids, finished).listed
    ensures multiset(ids) == multiset(joined) + multiset(cancelled)
  {
    NothingLost(ids, finished);
    var server;
    server, joined := AcceptConnections(ids, finished);
    cancelled := server.Shutdown();
  }
}
