/** What the queues of server/queue.h have in common: entries in a row behind a head, as sequences. */
module Chains {

  /** Link number `i`, the head being number 0; in a ring, the head again behind the last entry. */
  function At<T>(head: T, nodes: seq<T>, i: nat): T
    requires i <= |nodes| + 1
  {
    if i == 0 || i == |nodes| + 1 then head else nodes[i - 1]
  }

  ghost predicate Distinct<T>(head: T, nodes: seq<T>) {
    head !in nodes && forall i, j :: 0 <= i < j < |nodes| ==> nodes[i] != nodes[j]
  }

  lemma DifferentLinks<T>(head: T, nodes: seq<T>, i: nat, j: nat)
    requires Distinct(head, nodes) && i <= |nodes| && j <= |nodes|
    ensures At(head, nodes, i) == At(head, nodes, j) <==> i == j
  {
  }

  /** `nodes` with `elm` put in at index `k`. */
  function InsertAt<T>(nodes: seq<T>, k: nat, elm: T): seq<T>
    requires k <= |nodes|
  {
    nodes[..k] + [elm] + nodes[k..]
  }

  /** `nodes` without the one at index `k`. */
  function RemoveAt<T>(nodes: seq<T>, k: nat): seq<T>
    requires k < |nodes|
  {
    nodes[..k] + nodes[k + 1..]
  }

  lemma InsertedAt<T>(head: T, nodes: seq<T>, k: nat, elm: T)
    requires k <= |nodes| && Distinct(head, nodes) && elm != head && elm !in nodes
    ensures Distinct(head, InsertAt(nodes, k, elm)) && |InsertAt(nodes, k, elm)| == |nodes| + 1
    ensures forall i {:trigger At(head, InsertAt(nodes, k, elm), i)} :: 0 <= i <= |nodes| + 2 ==>
      At(head, InsertAt(nodes, k, elm), i) ==
      if i <= k then At(head, nodes, i) else if i == k + 1 then elm else At(head, nodes, i - 1)
  {
  }

  lemma RemovedAt<T>(head: T, nodes: seq<T>, k: nat)
    requires k < |nodes| && Distinct(head, nodes)
    ensures Distinct(head, RemoveAt(nodes, k)) && |RemoveAt(nodes, k)| == |nodes| - 1
    ensures forall i {:trigger At(head, RemoveAt(nodes, k), i)} :: 0 <= i <= |nodes| ==>
      At(head, RemoveAt(nodes, k), i) == if i <= k then At(head, nodes, i) else At(head, nodes, i + 1)
  {
  }
}
