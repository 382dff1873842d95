/**
 * The undirected graph `AuthorGraph = Graph<usize, (), Undirected>`: nodes are
 * dense indices 0..n-1 whose payload is the author's external id, and edges
 * are pairs of node indices kept in insertion order.
 */
module Graphs {

  /** Every edge of `es` joins two of the nodes 0..n-1. */
  predicate EdgesInRange(n: nat, es: seq<(nat, nat)>) {
    forall k :: 0 <= k < |es| ==> es[k].0 < n && es[k].1 < n
  }

  predicate NoSelfLoops(es: seq<(nat, nat)>) {
    forall k :: 0 <= k < |es| ==> es[k].0 != es[k].1
  }

  /** No two nodes carry the same external id. */
  predicate Injective(payload: seq<nat>) {
    forall i, j :: 0 <= i < j < |payload| ==> payload[i] != payload[j]
  }

  /** An index edge, read back as the pair of external ids it joins. */
  function Lift(payload: seq<nat>, e: (nat, nat)): (nat, nat)
    requires e.0 < |payload| && e.1 < |payload|
  {
    (payload[e.0], payload[e.1])
  }

  /** The external ids that appear in an edge set. */
  function Endpoints(edges: set<(nat, nat)>): set<nat> {
    (set e | e in edges :: e.0) + (set e | e in edges :: e.1)
  }

  /**
   * The graph (payload, es) is the edge set `edges` made concrete: one node per
   * distinct id of `edges`, and one index edge per pair of `edges`, with no repeats.
   */
  ghost predicate Represents(payload: seq<nat>, es: seq<(nat, nat)>, edges: set<(nat, nat)>) {
    && EdgesInRange(|payload|, es)
    && Injective(payload)
    && |payload| == |Endpoints(edges)|
    && (forall i :: 0 <= i < |payload| ==> payload[i] in Endpoints(edges))
    && (forall id :: id in Endpoints(edges) ==> id in payload)
    && |es| == |edges|
    && (forall k :: 0 <= k < |es| ==> Lift(payload, es[k]) in edges)
    && (forall e :: e in edges ==> exists k :: 0 <= k < |es| && Lift(payload, es[k]) == e)
    && (forall k, l :: 0 <= k < l < |es| ==> es[k] != es[l])
  }

  /** Two nodes with the same id are the same node. */
  lemma InjectiveAt(payload: seq<nat>, x: nat, y: nat)
    requires Injective(payload) && x < |payload| && y < |payload| && payload[x] == payload[y]
    ensures x == y
  {
  }

  /** A graph built from canonical pairs (a < b) has no self-loops. */
  lemma CanonicalHasNoSelfLoops(payload: seq<nat>, es: seq<(nat, nat)>, edges: set<(nat, nat)>)
    requires Represents(payload, es, edges)
    requires forall e :: e in edges ==> e.0 < e.1
    ensures NoSelfLoops(es)
  {
    forall k | 0 <= k < |es| ensures es[k].0 != es[k].1 {
      assert Lift(payload, es[k]) in edges;
    }
  }

  class AuthorGraph {
    /** Node index -> external id (the node weights). */
    var payload: seq<nat>
    /** Edge index -> the two node indices it joins. */
    var edgeList: seq<(nat, nat)>

    predicate Valid()
      reads this
    {
      EdgesInRange(|payload|, edgeList)
    }

    /** `Graph::new_undirected()`. */
    constructor ()
      ensures Valid() && payload == [] && edgeList == []
    {
      payload := [];
      edgeList := [];
    }

    function NodeCount(): nat
      reads this
    {
      |payload|
    }

    function EdgeCount(): nat
      reads this
    {
      |edgeList|
    }

    /** `add_node`: the new node gets the next dense index. */
    method AddNode(id: nat) returns (ix: nat)
      requires Valid()
      modifies this
      ensures Valid()
      ensures ix == old(|payload|) && payload == old(payload) + [id] && edgeList == old(edgeList)
    {
      ix := |payload|;
      payload := payload + [id];
    }

    /** `add_edge`: petgraph panics on an index that names no node. */
    method AddEdge(a: nat, b: nat)
      requires Valid() && a < |payload| && b < |payload|
      modifies this
      ensures Valid()
      ensures edgeList == old(edgeList) + [(a, b)] && payload == old(payload)
    {
      edgeList := edgeList + [(a, b)];
    }
  }
}
