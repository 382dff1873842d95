/**
 * The degree and path-sum parts of `compute_centralities`. Both loops visit
 * the node indices in order and insert, keyed by the node's external id, a
 * score computed from the graph: the number of incident edges, and the sum of
 * the hop distances to every reachable node (found by a breadth-first search,
 * since every edge weighs 1).
 */
module Centrality {
  import opened Graphs
  import opened SetFacts

  // ---------------------------------------------------------------------------
  // Degree: `graph.edges(node).count()`
  // ---------------------------------------------------------------------------

  predicate Incident(e: (nat, nat), v: nat) {
    e.0 == v || e.1 == v
  }

  /** The number of edges of `es` incident to `v`. */
  function Degree(es: seq<(nat, nat)>, v: nat): nat {
    if es == [] then 0
    else Degree(es[..|es| - 1], v) + (if Incident(es[|es| - 1], v) then 1 else 0)
  }

  function IncidentEdges(es: seq<(nat, nat)>, v: nat): set<nat> {
    set k | 0 <= k < |es| && Incident(es[k], v)
  }

  /** The degree counts the edge indices incident to the node. */
  lemma {:induction false} DegreeCountsIncidentEdges(es: seq<(nat, nat)>, v: nat)
    ensures Degree(es, v) == |IncidentEdges(es, v)|
  {
    if es != [] {
      var last := |es| - 1;
      var init := es[..last];
      DegreeCountsIncidentEdges(init, v);
      var extra: set<nat> := if Incident(es[last], v) then {last} else {};
      forall k ensures k in IncidentEdges(es, v) <==> k in IncidentEdges(init, v) + extra {
        if 0 <= k < last {
          assert init[k] == es[k];
        }
      }
      assert IncidentEdges(es, v) == IncidentEdges(init, v) + extra;
    }
  }

  /** `graph.edges(node).count()`: walk the edge list and count the edges at `v`. */
  method IncidentEdgeCount(g: AuthorGraph, v: nat) returns (c: nat)
    ensures c == Degree(g.edgeList, v)
  {
    c := 0;
    var k := 0;
    while k < |g.edgeList|
      invariant 0 <= k <= |g.edgeList|
      invariant c == Degree(g.edgeList[..k], v)
    {
      assert g.edgeList[..k + 1][..k] == g.edgeList[..k];
      if Incident(g.edgeList[k], v) {
        c := c + 1;
      }
      k := k + 1;
    }
    assert g.edgeList[..k] == g.edgeList;
  }

  /** The degree of every node 0..n-1, in node order. */
  function Degrees(n: nat, es: seq<(nat, nat)>): (ds: seq<nat>)
    ensures |ds| == n && forall i :: 0 <= i < n ==> ds[i] == Degree(es, i)
  {
    if n == 0 then [] else Degrees(n - 1, es) + [Degree(es, n - 1)]
  }

  function Sum(xs: seq<nat>): nat {
    if xs == [] then 0 else Sum(xs[..|xs| - 1]) + xs[|xs| - 1]
  }

  /** How many of the nodes 0..n-1 the edge `e` touches. */
  function Hits(n: nat, e: (nat, nat)): nat {
    if n == 0 then 0 else Hits(n - 1, e) + (if Incident(e, n - 1) then 1 else 0)
  }

  lemma {:induction false} HitsOfProperEdge(n: nat, e: (nat, nat))
    requires e.0 != e.1
    ensures Hits(n, e) == (if e.0 < n then 1 else 0) + (if e.1 < n then 1 else 0)
  {
    if n > 0 {
      HitsOfProperEdge(n - 1, e);
    }
  }

  lemma {:induction false} DegreesSnoc(n: nat, es: seq<(nat, nat)>, e: (nat, nat))
    ensures Sum(Degrees(n, es + [e])) == Sum(Degrees(n, es)) + Hits(n, e)
  {
    if n > 0 {
      DegreesSnoc(n - 1, es, e);
      DegreeSnoc(es, e, n - 1);
      SumSnoc(Degrees(n - 1, es), Degree(es, n - 1));
      SumSnoc(Degrees(n - 1, es + [e]), Degree(es + [e], n - 1));
    }
  }

  lemma DegreeSnoc(es: seq<(nat, nat)>, e: (nat, nat), v: nat)
    ensures Degree(es + [e], v) == Degree(es, v) + (if Incident(e, v) then 1 else 0)
  {
    assert (es + [e])[..|es|] == es;
  }

  lemma SumSnoc(xs: seq<nat>, x: nat)
    ensures Sum(xs + [x]) == Sum(xs) + x
  {
    assert (xs + [x])[..|xs|] == xs;
  }

  /** Handshake: every edge adds one to the degree of each of its two ends. */
  lemma {:induction false} DegreeSum(n: nat, es: seq<(nat, nat)>)
    requires EdgesInRange(n, es) && NoSelfLoops(es)
    ensures Sum(Degrees(n, es)) == 2 * |es|
  {
    if es == [] {
      DegreesOfNoEdges(n);
    } else {
      var init, e := es[..|es| - 1], es[|es| - 1];
      assert es == init + [e];
      DegreeSum(n, init);
      DegreesSnoc(n, init, e);
      HitsOfProperEdge(n, e);
    }
  }

  lemma {:induction false} DegreesOfNoEdges(n: nat)
    ensures Sum(Degrees(n, [])) == 0
  {
    if n > 0 {
      DegreesOfNoEdges(n - 1);
      SumSnoc(Degrees(n - 1, []), Degree([], n - 1));
    }
  }

  // ---------------------------------------------------------------------------
  // Score maps: `centrality.insert(graph[node], score)` in node order
  // ---------------------------------------------------------------------------

  /** Insert `ids[i] -> scores[i]` for i = 0, 1, ...; a later insert of the same id wins. */
  function KeyedBy(ids: seq<nat>, scores: seq<nat>): map<nat, nat>
    requires |ids| == |scores|
  {
    if ids == [] then map[]
    else KeyedBy(ids[..|ids| - 1], scores[..|scores| - 1])[ids[|ids| - 1] := scores[|scores| - 1]]
  }

  /** The map has one key per id; with distinct ids, each id maps to its own score. */
  lemma KeyedByEntries(ids: seq<nat>, scores: seq<nat>)
    requires |ids| == |scores|
    ensures forall id :: id in KeyedBy(ids, scores) <==> id in ids
    ensures Injective(ids) ==> |KeyedBy(ids, scores)| == |ids|
    ensures Injective(ids) ==> forall i :: 0 <= i < |ids| ==> KeyedBy(ids, scores)[ids[i]] == scores[i]
  {
    KeyedByKeys(ids, scores);
    if Injective(ids) {
      KeyedByValues(ids, scores);
    }
  }

  lemma {:induction false} KeyedByKeys(ids: seq<nat>, scores: seq<nat>)
    requires |ids| == |scores|
    ensures forall id :: id in KeyedBy(ids, scores) <==> id in ids
  {
    if ids != [] {
      var last := |ids| - 1;
      var init := ids[..last];
      KeyedByKeys(init, scores[..last]);
      assert ids == init + [ids[last]];
    }
  }

  lemma {:induction false} KeyedByValues(ids: seq<nat>, scores: seq<nat>)
    requires |ids| == |scores| && Injective(ids)
    ensures |KeyedBy(ids, scores)| == |ids|
    ensures forall i :: 0 <= i < |ids| ==> ids[i] in KeyedBy(ids, scores) && KeyedBy(ids, scores)[ids[i]] == scores[i]
  {
    if ids != [] {
      var last := |ids| - 1;
      var init, sinit := ids[..last], scores[..last];
      assert Injective(init);
      KeyedByKeys(init, sinit);
      KeyedByValues(init, sinit);
      assert ids[last] !in init;
      forall i | 0 <= i < last ensures KeyedBy(ids, scores)[ids[i]] == scores[i] {
        assert init[i] == ids[i] && sinit[i] == scores[i];
      }
    }
  }

  // ---------------------------------------------------------------------------
  // Hop distances: `dijkstra(&graph, node, None, |_| 1)`
  // ---------------------------------------------------------------------------

  /** The nodes `e` joins to a node of `f`. */
  function Contribution(e: (nat, nat), f: set<nat>): set<nat> {
    (if e.0 in f then {e.1} else {}) + (if e.1 in f then {e.0} else {})
  }

  /** The neighbours of the nodes of `f` along the edges `es`. */
  function Step(es: seq<(nat, nat)>, f: set<nat>): set<nat> {
    if es == [] then {} else Step(es[..|es| - 1], f) + Contribution(es[|es| - 1], f)
  }

  /** The nodes within `d` hops of `s`. */
  function Ball(es: seq<(nat, nat)>, s: nat, d: nat): set<nat> {
    if d == 0 then {s}
    else
      var inner := Ball(es, s, d - 1);
      inner + Step(es, inner)
  }

  /** The nodes exactly `d` hops from `s`. */
  function Layer(es: seq<(nat, nat)>, s: nat, d: nat): set<nat> {
    if d == 0 then {s} else Ball(es, s, d) - Ball(es, s, d - 1)
  }

  /** Some edge of `es` joins `u` and `v`. */
  ghost predicate Adjacent(es: seq<(nat, nat)>, u: nat, v: nat) {
    exists k :: 0 <= k < |es| && (es[k] == (u, v) || es[k] == (v, u))
  }

  ghost predicate Reachable(es: seq<(nat, nat)>, s: nat, v: nat) {
    exists d: nat :: v in Ball(es, s, d)
  }

  /** `d` is the hop distance from `s` to `v`: within `d` hops, and not within fewer. */
  ghost predicate IsDistance(es: seq<(nat, nat)>, s: nat, v: nat, d: nat) {
    v in Ball(es, s, d) && (d == 0 || v !in Ball(es, s, d - 1))
  }

  lemma {:induction false} StepMember(es: seq<(nat, nat)>, f: set<nat>, v: nat)
    ensures v in Step(es, f) <==>
            exists k :: 0 <= k < |es| && ((es[k].0 in f && es[k].1 == v) || (es[k].1 in f && es[k].0 == v))
  {
    if es != [] {
      var last := |es| - 1;
      var init := es[..last];
      StepMember(init, f, v);
      if exists k :: 0 <= k < |es| && ((es[k].0 in f && es[k].1 == v) || (es[k].1 in f && es[k].0 == v)) {
        var k :| 0 <= k < |es| && ((es[k].0 in f && es[k].1 == v) || (es[k].1 in f && es[k].0 == v));
        if k < last {
          assert init[k] == es[k];
        }
      }
      if exists k :: 0 <= k < |init| && ((init[k].0 in f && init[k].1 == v) || (init[k].1 in f && init[k].0 == v)) {
        var k :| 0 <= k < |init| && ((init[k].0 in f && init[k].1 == v) || (init[k].1 in f && init[k].0 == v));
        assert es[k] == init[k];
      }
    }
  }

  lemma {:induction false} StepUnion(es: seq<(nat, nat)>, a: set<nat>, b: set<nat>)
    ensures Step(es, a + b) == Step(es, a) + Step(es, b)
  {
    if es != [] {
      StepUnion(es[..|es| - 1], a, b);
    }
  }

  lemma {:induction false} StepMonotone(es: seq<(nat, nat)>, a: set<nat>, b: set<nat>)
    requires a <= b
    ensures Step(es, a) <= Step(es, b)
  {
    if es != [] {
      StepMonotone(es[..|es| - 1], a, b);
    }
  }

  lemma {:induction false} StepInRange(es: seq<(nat, nat)>, f: set<nat>, n: nat)
    requires EdgesInRange(n, es)
    ensures forall v :: v in Step(es, f) ==> v < n
  {
    if es != [] {
      var init := es[..|es| - 1];
      assert EdgesInRange(n, init) by {
        forall k | 0 <= k < |init| ensures init[k].0 < n && init[k].1 < n {
          assert init[k] == es[k];
        }
      }
      StepInRange(init, f, n);
    }
  }

  lemma {:induction false} BallInRange(es: seq<(nat, nat)>, s: nat, d: nat, n: nat)
    requires EdgesInRange(n, es) && s < n
    ensures forall v :: v in Ball(es, s, d) ==> v < n
  {
    if d > 0 {
      BallInRange(es, s, d - 1, n);
      StepInRange(es, Ball(es, s, d - 1), n);
    }
  }

  lemma {:induction false} BallMonotone(es: seq<(nat, nat)>, s: nat, d1: nat, d2: nat)
    requires d1 <= d2
    ensures Ball(es, s, d1) <= Ball(es, s, d2)
  {
    if d1 < d2 {
      BallMonotone(es, s, d1, d2 - 1);
    }
  }

  /** Every node within `d` hops has a hop distance, at most `d`. */
  lemma {:induction false} LeastLayer(es: seq<(nat, nat)>, s: nat, v: nat, d: nat)
    requires v in Ball(es, s, d)
    ensures exists d': nat :: d' <= d && IsDistance(es, s, v, d')
  {
    if d > 0 && v in Ball(es, s, d - 1) {
      LeastLayer(es, s, v, d - 1);
    } else {
      assert IsDistance(es, s, v, d);
    }
  }

  lemma DistanceUnique(es: seq<(nat, nat)>, s: nat, v: nat, d1: nat, d2: nat)
    requires IsDistance(es, s, v, d1) && IsDistance(es, s, v, d2)
    ensures d1 == d2
  {
    if d1 < d2 {
      BallMonotone(es, s, d1, d2 - 1);
    } else if d2 < d1 {
      BallMonotone(es, s, d2, d1 - 1);
    }
  }

  /** The hop distance from `s` to a reachable `v`. */
  ghost function Distance(es: seq<(nat, nat)>, s: nat, v: nat): (d: nat)
    requires Reachable(es, s, v)
    ensures IsDistance(es, s, v, d)
  {
    var d0: nat :| v in Ball(es, s, d0);
    LeastLayer(es, s, v, d0);
    var d: nat :| IsDistance(es, s, v, d);
    d
  }

  /**
   * The sum of the hop distances from `s` to the reachable nodes among 0..upto-1;
   * with `upto` the node count it is `distances.values().sum()` for the search from `s`.
   */
  ghost function TotalDistance(es: seq<(nat, nat)>, s: nat, upto: nat): nat {
    if upto == 0 then 0
    else TotalDistance(es, s, upto - 1) + (if Reachable(es, s, upto - 1) then Distance(es, s, upto - 1) else 0)
  }

  ghost function PathSums(n: nat, es: seq<(nat, nat)>): (ps: seq<nat>)
    ensures |ps| == n && forall i :: 0 <= i < n ==> ps[i] == TotalDistance(es, i, n)
  {
    seq(n, i requires 0 <= i < n => TotalDistance(es, i, n))
  }

  // --- properties of the hop distance ---

  /** The start is at distance 0 from itself, and every other node further. */
  lemma DistanceFromStart(es: seq<(nat, nat)>, s: nat, v: nat)
    requires Reachable(es, s, v)
    ensures Reachable(es, s, s) && Distance(es, s, s) == 0
    ensures v != s ==> Distance(es, s, v) > 0
  {
    assert IsDistance(es, s, s, 0);
    DistanceUnique(es, s, s, 0, Distance(es, s, s));
    if v != s {
      assert !IsDistance(es, s, v, 0);
    }
  }

  /** A neighbour of a reachable node is reachable and at most one hop further. */
  lemma DistanceNeighbour(es: seq<(nat, nat)>, s: nat, u: nat, v: nat)
    requires Reachable(es, s, u) && Adjacent(es, u, v)
    ensures Reachable(es, s, v) && Distance(es, s, v) <= Distance(es, s, u) + 1
  {
    var du := Distance(es, s, u);
    var k :| 0 <= k < |es| && (es[k] == (u, v) || es[k] == (v, u));
    StepMember(es, Ball(es, s, du), v);
    assert v in Ball(es, s, du + 1);
    LeastLayer(es, s, v, du + 1);
    var d' :| d' <= du + 1 && IsDistance(es, s, v, d');
    DistanceUnique(es, s, v, d', Distance(es, s, v));
  }

  /** Every node other than the start has a neighbour exactly one hop closer. */
  lemma DistancePredecessor(es: seq<(nat, nat)>, s: nat, v: nat)
    requires Reachable(es, s, v) && v != s
    ensures exists u :: Reachable(es, s, u) && Adjacent(es, u, v) && Distance(es, s, u) + 1 == Distance(es, s, v)
  {
    var d := Distance(es, s, v);
    DistanceFromStart(es, s, v);
    var u := NeighbourWithin(es, s, v, d - 1);
    assert Reachable(es, s, u);
    LeastLayer(es, s, u, d - 1);
    var d' :| d' <= d - 1 && IsDistance(es, s, u, d');
    DistanceUnique(es, s, u, d', Distance(es, s, u));
    DistanceNeighbour(es, s, u, v);
  }

  /** A node first reached in hop `d + 1` has a neighbour within `d` hops. */
  lemma NeighbourWithin(es: seq<(nat, nat)>, s: nat, v: nat, d: nat) returns (u: nat)
    requires v in Ball(es, s, d + 1) && v !in Ball(es, s, d)
    ensures u in Ball(es, s, d) && Adjacent(es, u, v)
  {
    var inner := Ball(es, s, d);
    StepMember(es, inner, v);
    var k :| 0 <= k < |es| && ((es[k].0 in inner && es[k].1 == v) || (es[k].1 in inner && es[k].0 == v));
    u := if es[k].0 in inner && es[k].1 == v then es[k].0 else es[k].1;
    assert es[k] == (u, v) || es[k] == (v, u);
  }

  // --- the breadth-first search ---

  /** The next layer is the neighbours of the current one not yet seen. */
  lemma NextLayer(es: seq<(nat, nat)>, s: nat, d: nat)
    ensures Ball(es, s, d + 1) == Ball(es, s, d) + (Step(es, Layer(es, s, d)) - Ball(es, s, d))
  {
    if d > 0 {
      var inner, ball, layer := Ball(es, s, d - 1), Ball(es, s, d), Layer(es, s, d);
      assert ball == inner + layer;
      StepUnion(es, inner, layer);
    }
  }

  /** Once a ball adds no node, it holds every ball. */
  lemma {:induction false} BallsWithin(es: seq<(nat, nat)>, s: nat, d: nat, k: nat)
    requires Step(es, Ball(es, s, d)) <= Ball(es, s, d)
    ensures Ball(es, s, k) <= Ball(es, s, d)
  {
    if k <= d {
      BallMonotone(es, s, k, d);
    } else {
      BallsWithin(es, s, d, k - 1);
      StepMonotone(es, Ball(es, s, k - 1), Ball(es, s, d));
    }
  }

  /** The nodes reached from `frontier` along one edge that are not in `seen`. */
  method NewNeighbours(g: AuthorGraph, frontier: set<nat>, seen: set<nat>) returns (next: set<nat>)
    ensures next == Step(g.edgeList, frontier) - seen
  {
    var es := g.edgeList;
    next := {};
    var k := 0;
    while k < |es|
      invariant 0 <= k <= |es|
      invariant next == Step(es[..k], frontier) - seen
    {
      assert es[..k + 1][..k] == es[..k];
      var (a, b) := es[k];
      if a in frontier && b !in seen {
        next := next + {b};
      }
      if b in frontier && a !in seen {
        next := next + {a};
      }
      k := k + 1;
    }
    assert es[..k] == es;
  }

  /**
   * The hop distances from `s`: one entry per reachable node, holding its
   * distance. Layer d + 1 is the unseen neighbours of layer d.
   */
  method Bfs(g: AuthorGraph, s: nat) returns (dist: map<nat, nat>)
    requires g.Valid() && s < |g.payload|
    ensures forall v: nat :: v in dist <==> v < |g.payload| && Reachable(g.edgeList, s, v)
    ensures forall v :: v in dist ==> dist[v] == Distance(g.edgeList, s, v)
  {
    ghost var es, n := g.edgeList, |g.payload|;
    dist := map[s := 0];
    var seen: set<nat> := {s};
    var frontier: set<nat> := {s};
    var d := 0;
    SearchStarts(es, s, n);
    while frontier != {}
      invariant g.Valid() && es == g.edgeList && n == |g.payload| && s < n
      invariant Searched(es, s, n, d, seen, frontier, dist)
      decreases n - |seen|, |frontier|
    {
      var next := NewNeighbours(g, frontier, seen);
      var dist' := RecordLayer(dist, next, d + 1);
      SearchAdvances(es, s, n, d, seen, frontier, dist, next, dist');
      dist := dist';
      seen := seen + next;
      frontier := next;
      d := d + 1;
    }
    SearchEnds(es, s, n, d, seen, dist);
  }

  lemma SearchStarts(es: seq<(nat, nat)>, s: nat, n: nat)
    requires s < n
    ensures Searched(es, s, n, 0, {s}, {s}, map[s := 0])
  {
    assert IsDistance(es, s, s, 0);
  }

  /** Once the frontier is empty, `dist` holds exactly the reachable nodes and their distances. */
  lemma SearchEnds(es: seq<(nat, nat)>, s: nat, n: nat, d: nat, seen: set<nat>, dist: map<nat, nat>)
    requires Searched(es, s, n, d, seen, {}, dist)
    ensures forall v: nat :: v in dist <==> v < n && Reachable(es, s, v)
    ensures forall v :: v in dist ==> dist[v] == Distance(es, s, v)
  {
    BfsComplete(es, s, d, seen);
    forall v | v in dist ensures dist[v] == Distance(es, s, v) {
      DistanceUnique(es, s, v, dist[v], Distance(es, s, v));
    }
  }

  /**
   * The search after `d` rounds: `seen` is every node within `d` hops, `frontier`
   * those exactly `d` hops away, and `dist` holds each seen node's distance.
   */
  ghost predicate Searched(es: seq<(nat, nat)>, s: nat, n: nat, d: nat, seen: set<nat>, frontier: set<nat>, dist: map<nat, nat>) {
    && seen == Ball(es, s, d) && frontier == Layer(es, s, d)
    && dist.Keys == seen
    && (forall v :: v in dist ==> IsDistance(es, s, v, dist[v]))
    && (forall v :: v in seen ==> v < n)
  }

  /** One round of the search keeps `Searched` and either grows `seen` or empties the frontier. */
  lemma SearchAdvances(es: seq<(nat, nat)>, s: nat, n: nat, d: nat, seen: set<nat>, frontier: set<nat>,
                       dist: map<nat, nat>, next: set<nat>, dist': map<nat, nat>)
    requires EdgesInRange(n, es) && s < n
    requires Searched(es, s, n, d, seen, frontier, dist) && frontier != {}
    requires next == Step(es, frontier) - seen
    requires dist'.Keys == dist.Keys + next
    requires forall v :: v in next ==> dist'[v] == d + 1
    requires forall v :: v in dist && v !in next ==> dist'[v] == dist[v]
    ensures Searched(es, s, n, d + 1, seen + next, next, dist')
    ensures |seen + next| <= n
    ensures n - |seen + next| < n - |seen| || (n - |seen + next| == n - |seen| && |next| < |frontier|)
  {
    NextLayer(es, s, d);
    BallInRange(es, s, d + 1, n);
    CardBound(seen + next, n);
    LayerDistances(es, s, d, dist, next, dist');
    SearchProgress(seen, frontier, next, n);
  }

  lemma SearchProgress(seen: set<nat>, frontier: set<nat>, next: set<nat>, n: nat)
    requires seen !! next && frontier != {} && |seen + next| <= n
    ensures n - |seen + next| < n - |seen| || (n - |seen + next| == n - |seen| && |next| < |frontier|)
  {
    if next != {} {
      var v :| v in next;
      assert seen < seen + next;
    }
  }

  /** Record distance `d` for every node of `next`, leaving the other entries alone. */
  method RecordLayer(dist: map<nat, nat>, next: set<nat>, d: nat) returns (dist': map<nat, nat>)
    ensures dist'.Keys == dist.Keys + next
    ensures forall v :: v in next ==> dist'[v] == d
    ensures forall v :: v in dist && v !in next ==> dist'[v] == dist[v]
  {
    dist' := dist;
    var todo := next;
    ghost var done: set<nat> := {};
    while todo != {}
      invariant done + todo == next && done !! todo
      invariant dist'.Keys == dist.Keys + done
      invariant forall v :: v in done ==> dist'[v] == d
      invariant forall v :: v in dist && v !in done ==> dist'[v] == dist[v]
      decreases |todo|
    {
      var v :| v in todo;
      MoveOne(done, todo, next, v);
      RecordOne(dist, dist', done, v, d);
      dist' := dist'[v := d];
      todo := todo - {v};
      done := done + {v};
    }
    assert done == next;
  }

  lemma RecordOne(dist: map<nat, nat>, dist': map<nat, nat>, done: set<nat>, v: nat, d: nat)
    requires dist'.Keys == dist.Keys + done
    requires forall u :: u in done ==> dist'[u] == d
    requires forall u :: u in dist && u !in done ==> dist'[u] == dist[u]
    ensures dist'[v := d].Keys == dist.Keys + (done + {v})
    ensures forall u :: u in done + {v} ==> dist'[v := d][u] == d
    ensures forall u :: u in dist && u !in done + {v} ==> dist'[v := d][u] == dist[u]
  {
  }

  /** Giving the new layer distance d + 1 keeps every recorded distance exact. */
  lemma LayerDistances(es: seq<(nat, nat)>, s: nat, d: nat, dist: map<nat, nat>, next: set<nat>, dist': map<nat, nat>)
    requires dist.Keys == Ball(es, s, d) && forall v :: v in dist ==> IsDistance(es, s, v, dist[v])
    requires next == Step(es, Layer(es, s, d)) - Ball(es, s, d)
    requires dist'.Keys == dist.Keys + next
    requires forall v :: v in next ==> dist'[v] == d + 1
    requires forall v :: v in dist && v !in next ==> dist'[v] == dist[v]
    ensures dist'.Keys == Ball(es, s, d + 1)
    ensures forall v :: v in dist' ==> IsDistance(es, s, v, dist'[v])
  {
    NextLayer(es, s, d);
    forall v | v in dist' ensures IsDistance(es, s, v, dist'[v]) {
      if v in next {
        assert dist'[v] == d + 1;
      } else {
        assert dist'[v] == dist[v];
      }
    }
  }

  /** When the frontier runs dry, the seen nodes are exactly the reachable ones. */
  lemma BfsComplete(es: seq<(nat, nat)>, s: nat, d: nat, seen: set<nat>)
    requires seen == Ball(es, s, d) && Layer(es, s, d) == {}
    ensures forall v: nat :: v in seen <==> Reachable(es, s, v)
  {
    assert s in Layer(es, s, 0);
    BallMonotone(es, s, d - 1, d);
    assert Ball(es, s, d) == Ball(es, s, d - 1);
    forall v | Reachable(es, s, v) ensures v in seen {
      var k: nat :| v in Ball(es, s, k);
      BallsWithin(es, s, d, k);
    }
  }

  /** `distances.values().sum()`: the total hop distance from `s`. */
  method PathSumFrom(g: AuthorGraph, s: nat) returns (total: nat)
    requires g.Valid() && s < |g.payload|
    ensures total == TotalDistance(g.edgeList, s, |g.payload|)
  {
    ghost var es := g.edgeList;
    var n := |g.payload|;
    var dist := Bfs(g, s);
    total := 0;
    var v := 0;
    while v < n
      invariant 0 <= v <= n
      invariant total == TotalDistance(es, s, v)
    {
      assert v in dist <==> Reachable(es, s, v);
      if v in dist {
        total := total + dist[v];
      }
      v := v + 1;
    }
  }

  // ---------------------------------------------------------------------------
  // compute_centralities (the degree and path-sum loops)
  // ---------------------------------------------------------------------------

  /**
   * The degree and path-sum maps, keyed by external id. The method takes the
   * graph by shared reference and changes nothing.
   */
  method ComputeCentralities(g: AuthorGraph) returns (degree: map<nat, nat>, pathSum: map<nat, nat>)
    requires g.Valid()
    ensures degree == KeyedBy(g.payload, Degrees(|g.payload|, g.edgeList))
    ensures pathSum == KeyedBy(g.payload, PathSums(|g.payload|, g.edgeList))
  {
    ghost var n, es := |g.payload|, g.edgeList;
    ghost var ds, ps := Degrees(n, es), PathSums(n, es);
    degree := map[];
    var i := 0;
    while i < |g.payload|
      invariant 0 <= i <= n
      invariant degree == KeyedBy(g.payload[..i], ds[..i])
    {
      var c := IncidentEdgeCount(g, i);
      KeyedBySnoc(g.payload, ds, i);
      degree := degree[g.payload[i] := c];
      i := i + 1;
    }
    assert g.payload[..i] == g.payload && ds[..i] == ds;
    pathSum := map[];
    i := 0;
    while i < |g.payload|
      invariant 0 <= i <= n
      invariant pathSum == KeyedBy(g.payload[..i], ps[..i])
    {
      var total := PathSumFrom(g, i);
      KeyedBySnoc(g.payload, ps, i);
      pathSum := pathSum[g.payload[i] := total];
      i := i + 1;
    }
    assert g.payload[..i] == g.payload && ps[..i] == ps;
  }

  lemma KeyedBySnoc(ids: seq<nat>, scores: seq<nat>, i: nat)
    requires |ids| == |scores| && i < |ids|
    ensures KeyedBy(ids[..i + 1], scores[..i + 1]) == KeyedBy(ids[..i], scores[..i])[ids[i] := scores[i]]
  {
    assert ids[..i + 1][..i] == ids[..i];
    assert scores[..i + 1][..i] == scores[..i];
  }

  // ---------------------------------------------------------------------------
  // The scores read on the author graph itself: ids joined by the pairs of the
  // edge set, with no node indices. These are the reference the index-based
  // scores are proved against; they cannot depend on the order in which nodes
  // were numbered.
  // ---------------------------------------------------------------------------

  /** The number of pairs of `edges` that contain the author `id`. */
  function AuthorDegree(edges: set<(nat, nat)>, id: nat): nat {
    |IncidentPairs(edges, id)|
  }

  /** Every author with the number of pairs that contain it. */
  function DegreeMap(edges: set<(nat, nat)>): map<nat, nat> {
    map id | id in Endpoints(edges) :: AuthorDegree(edges, id)
  }

  /** The ids that a pair of `edges` joins to an id of `f`. */
  ghost function IdStep(edges: set<(nat, nat)>, f: set<nat>): set<nat> {
    (set e | e in edges && e.0 in f :: e.1) + (set e | e in edges && e.1 in f :: e.0)
  }

  /** The ids within `d` hops of author `a`. */
  ghost function IdBall(edges: set<(nat, nat)>, a: nat, d: nat): set<nat> {
    if d == 0 then {a}
    else
      var inner := IdBall(edges, a, d - 1);
      inner + IdStep(edges, inner)
  }

  ghost predicate IdReachable(edges: set<(nat, nat)>, a: nat, b: nat) {
    exists d: nat :: b in IdBall(edges, a, d)
  }

  ghost predicate IdIsDistance(edges: set<(nat, nat)>, a: nat, b: nat, d: nat) {
    b in IdBall(edges, a, d) && (d == 0 || b !in IdBall(edges, a, d - 1))
  }

  lemma {:induction false} IdLeastLayer(edges: set<(nat, nat)>, a: nat, b: nat, d: nat)
    requires b in IdBall(edges, a, d)
    ensures exists d': nat :: d' <= d && IdIsDistance(edges, a, b, d')
  {
    if d > 0 && b in IdBall(edges, a, d - 1) {
      IdLeastLayer(edges, a, b, d - 1);
    } else {
      assert IdIsDistance(edges, a, b, d);
    }
  }

  /** The hop distance from author `a` to a reachable author `b`. */
  ghost function IdDistance(edges: set<(nat, nat)>, a: nat, b: nat): (d: nat)
    requires IdReachable(edges, a, b)
    ensures IdIsDistance(edges, a, b, d)
  {
    var d0: nat :| b in IdBall(edges, a, d0);
    IdLeastLayer(edges, a, b, d0);
    var d: nat :| IdIsDistance(edges, a, b, d);
    d
  }

  /** What author `b` adds to the path sum of `a`: its distance, or nothing when unreachable. */
  ghost function IdScore(edges: set<(nat, nat)>, a: nat, b: nat): nat {
    if IdReachable(edges, a, b) then IdDistance(edges, a, b) else 0
  }

  /** The sum of `IdScore(edges, a, b)` over the authors `b` of `ids`. */
  ghost function DistanceSum(edges: set<(nat, nat)>, a: nat, ids: set<nat>): nat
    decreases ids
  {
    if ids == {} then 0
    else
      var b :| b in ids;
      IdScore(edges, a, b) + DistanceSum(edges, a, ids - {b})
  }

  /** The path sum of author `a`: the distances to every author it reaches. */
  ghost function AuthorPathSum(edges: set<(nat, nat)>, a: nat): nat {
    DistanceSum(edges, a, Endpoints(edges))
  }

  /** Every author with its path sum. */
  ghost function PathSumMap(edges: set<(nat, nat)>): map<nat, nat> {
    map id | id in Endpoints(edges) :: AuthorPathSum(edges, id)
  }

  /** The sum does not depend on which author is taken out first. */
  lemma {:induction false} DistanceSumRemove(edges: set<(nat, nat)>, a: nat, ids: set<nat>, b: nat)
    requires b in ids
    ensures DistanceSum(edges, a, ids) == IdScore(edges, a, b) + DistanceSum(edges, a, ids - {b})
    decreases |ids|
  {
    var c :| c in ids && DistanceSum(edges, a, ids) == IdScore(edges, a, c) + DistanceSum(edges, a, ids - {c});
    if c != b {
      DistanceSumRemove(edges, a, ids - {c}, b);
      DistanceSumRemove(edges, a, ids - {b}, c);
      assert ids - {c} - {b} == ids - {b} - {c};
    }
  }

  // --- node indices and ids ---

  /** Every index edge, read as ids, is a pair of `edges`. */
  ghost predicate LiftsInto(payload: seq<nat>, es: seq<(nat, nat)>, edges: set<(nat, nat)>) {
    EdgesInRange(|payload|, es) && forall k :: 0 <= k < |es| ==> Lift(payload, es[k]) in edges
  }

  /** Every pair of `edges` is some index edge read as ids. */
  ghost predicate LiftsOnto(payload: seq<nat>, es: seq<(nat, nat)>, edges: set<(nat, nat)>) {
    EdgesInRange(|payload|, es) && forall e :: e in edges ==> exists k :: 0 <= k < |es| && Lift(payload, es[k]) == e
  }

  /** The ids tell the nodes apart, and reading index edges as ids maps them onto `edges`. */
  ghost predicate Relabelling(payload: seq<nat>, es: seq<(nat, nat)>, edges: set<(nat, nat)>) {
    Injective(payload) && LiftsInto(payload, es, edges) && LiftsOnto(payload, es, edges)
  }

  lemma RepresentsLifts(payload: seq<nat>, es: seq<(nat, nat)>, edges: set<(nat, nat)>)
    requires Represents(payload, es, edges)
    ensures Relabelling(payload, es, edges)
  {
  }

  /** The node set `f` and the id set `ids` hold the same authors. */
  ghost predicate SameAuthors(payload: seq<nat>, f: set<nat>, ids: set<nat>) {
    forall v: nat :: v < |payload| ==> (v in f <==> payload[v] in ids)
  }

  /** A node is one hop from a node set exactly when its id is one hop from the set's ids. */
  lemma HopToIds(payload: seq<nat>, es: seq<(nat, nat)>, edges: set<(nat, nat)>, f: set<nat>, ids: set<nat>, v: nat)
    requires Relabelling(payload, es, edges)
    requires SameAuthors(payload, f, ids) && v < |payload|
    ensures v in Step(es, f) <==> payload[v] in IdStep(edges, ids)
  {
    HopToIdsForward(payload, es, edges, f, ids, v);
    HopToIdsBack(payload, es, edges, f, ids, v);
  }

  lemma HopToIdsForward(payload: seq<nat>, es: seq<(nat, nat)>, edges: set<(nat, nat)>, f: set<nat>, ids: set<nat>, v: nat)
    requires LiftsInto(payload, es, edges) && SameAuthors(payload, f, ids) && v < |payload|
    ensures v in Step(es, f) ==> payload[v] in IdStep(edges, ids)
  {
    StepMember(es, f, v);
    if v in Step(es, f) {
      var k :| 0 <= k < |es| && ((es[k].0 in f && es[k].1 == v) || (es[k].1 in f && es[k].0 == v));
      var e := Lift(payload, es[k]);
      assert e in edges;
      if es[k].0 in f && es[k].1 == v {
        assert payload[v] in (set e | e in edges && e.0 in ids :: e.1);
      } else {
        assert payload[v] in (set e | e in edges && e.1 in ids :: e.0);
      }
    }
  }

  lemma HopToIdsBack(payload: seq<nat>, es: seq<(nat, nat)>, edges: set<(nat, nat)>, f: set<nat>, ids: set<nat>, v: nat)
    requires Injective(payload) && LiftsOnto(payload, es, edges) && SameAuthors(payload, f, ids) && v < |payload|
    ensures payload[v] in IdStep(edges, ids) ==> v in Step(es, f)
  {
    StepMember(es, f, v);
    if payload[v] in IdStep(edges, ids) {
      if payload[v] in (set e | e in edges && e.0 in ids :: e.1) {
        var e :| e in edges && e.0 in ids && payload[v] == e.1;
        var k :| 0 <= k < |es| && Lift(payload, es[k]) == e;
        InjectiveAt(payload, v, es[k].1);
        assert es[k].0 in f;
      } else {
        var e :| e in edges && e.1 in ids && payload[v] == e.0;
        var k :| 0 <= k < |es| && Lift(payload, es[k]) == e;
        InjectiveAt(payload, v, es[k].0);
        assert es[k].1 in f;
      }
    }
  }

  /** The nodes within `d` hops of `s` carry exactly the authors within `d` hops of its author. */
  lemma {:induction false} BallToIds(payload: seq<nat>, es: seq<(nat, nat)>, edges: set<(nat, nat)>, s: nat, d: nat)
    requires Relabelling(payload, es, edges) && s < |payload|
    ensures SameAuthors(payload, Ball(es, s, d), IdBall(edges, payload[s], d))
  {
    if d == 0 {
      StartToIds(payload, es, edges, s);
    } else {
      BallToIds(payload, es, edges, s, d - 1);
      BallStepToIds(payload, es, edges, s, d);
    }
  }

  lemma StartToIds(payload: seq<nat>, es: seq<(nat, nat)>, edges: set<(nat, nat)>, s: nat)
    requires Injective(payload) && s < |payload|
    ensures SameAuthors(payload, Ball(es, s, 0), IdBall(edges, payload[s], 0))
  {
    forall v: nat | v < |payload| ensures v in {s} <==> payload[v] in {payload[s]} {
      if payload[v] == payload[s] {
        InjectiveAt(payload, v, s);
      }
    }
  }

  /** One more hop keeps node set and id set holding the same authors. */
  lemma BallStepToIds(payload: seq<nat>, es: seq<(nat, nat)>, edges: set<(nat, nat)>, s: nat, d: nat)
    requires Relabelling(payload, es, edges)
    requires s < |payload| && d > 0
    requires SameAuthors(payload, Ball(es, s, d - 1), IdBall(edges, payload[s], d - 1))
    ensures SameAuthors(payload, Ball(es, s, d), IdBall(edges, payload[s], d))
  {
    var inner, ids := Ball(es, s, d - 1), IdBall(edges, payload[s], d - 1);
    forall v: nat | v < |payload| ensures v in inner + Step(es, inner) <==> payload[v] in ids + IdStep(edges, ids) {
      HopToIds(payload, es, edges, inner, ids, v);
    }
  }

  lemma BallMemberIds(payload: seq<nat>, es: seq<(nat, nat)>, edges: set<(nat, nat)>, s: nat, v: nat, d: nat)
    requires Relabelling(payload, es, edges)
    requires s < |payload| && v < |payload|
    ensures v in Ball(es, s, d) <==> payload[v] in IdBall(edges, payload[s], d)
  {
    BallToIds(payload, es, edges, s, d);
  }

  /** Reachability between two nodes is reachability between their ids. */
  lemma ReachableToIds(payload: seq<nat>, es: seq<(nat, nat)>, edges: set<(nat, nat)>, s: nat, v: nat)
    requires Relabelling(payload, es, edges)
    requires s < |payload| && v < |payload|
    ensures Reachable(es, s, v) <==> IdReachable(edges, payload[s], payload[v])
  {
    if Reachable(es, s, v) {
      var d: nat :| v in Ball(es, s, d);
      BallMemberIds(payload, es, edges, s, v, d);
    }
    if IdReachable(edges, payload[s], payload[v]) {
      var d: nat :| payload[v] in IdBall(edges, payload[s], d);
      BallMemberIds(payload, es, edges, s, v, d);
    }
  }

  lemma IsDistanceToIds(payload: seq<nat>, es: seq<(nat, nat)>, edges: set<(nat, nat)>, s: nat, v: nat, d: nat, d0: nat)
    requires s < |payload| && v < |payload| && IdIsDistance(edges, payload[s], payload[v], d) && d0 + 1 == d
    requires SameAuthors(payload, Ball(es, s, d), IdBall(edges, payload[s], d))
    requires SameAuthors(payload, Ball(es, s, d0), IdBall(edges, payload[s], d0))
    ensures IsDistance(es, s, v, d)
  {
  }

  /** The hop distance between two reachable nodes is the hop distance between their ids. */
  lemma DistanceToIds(payload: seq<nat>, es: seq<(nat, nat)>, edges: set<(nat, nat)>, s: nat, v: nat)
    requires Relabelling(payload, es, edges)
    requires s < |payload| && v < |payload| && IdReachable(edges, payload[s], payload[v])
    ensures Reachable(es, s, v) && Distance(es, s, v) == IdDistance(edges, payload[s], payload[v])
  {
    var d := IdDistance(edges, payload[s], payload[v]);
    if d == 0 {
      InjectiveAt(payload, v, s);
      assert IsDistance(es, s, v, 0);
    } else {
      var d0 := d - 1;
      BallToIds(payload, es, edges, s, d);
      BallToIds(payload, es, edges, s, d0);
      IsDistanceToIds(payload, es, edges, s, v, d, d0);
    }
    DistanceIs(es, s, v, d);
  }

  /** What node `v` adds to the path sum of `s` is what its id adds to that of the id of `s`. */
  lemma ScoreToIds(payload: seq<nat>, es: seq<(nat, nat)>, edges: set<(nat, nat)>, s: nat, v: nat)
    requires Relabelling(payload, es, edges)
    requires s < |payload| && v < |payload|
    ensures (if Reachable(es, s, v) then Distance(es, s, v) else 0) == IdScore(edges, payload[s], payload[v])
  {
    ReachableToIds(payload, es, edges, s, v);
    if IdReachable(edges, payload[s], payload[v]) {
      DistanceToIds(payload, es, edges, s, v);
    }
  }

  /** The ids of the nodes 0..upto-1. */
  ghost function PrefixIds(payload: seq<nat>, upto: nat): set<nat>
    requires upto <= |payload|
  {
    set j | 0 <= j < upto :: payload[j]
  }

  lemma PrefixIdsSnoc(payload: seq<nat>, m: nat)
    requires Injective(payload) && m < |payload|
    ensures payload[m] in PrefixIds(payload, m + 1)
    ensures PrefixIds(payload, m + 1) - {payload[m]} == PrefixIds(payload, m)
  {
    var all, before := PrefixIds(payload, m + 1), PrefixIds(payload, m);
    assert payload[m] in all;
    forall x | x in all - {payload[m]} ensures x in before {
      var j :| 0 <= j < m + 1 && payload[j] == x;
    }
    forall x | x in before ensures x in all - {payload[m]} {
      var j :| 0 <= j < m && payload[j] == x;
      assert payload[j] != payload[m];
    }
  }

  /** The path sum over the nodes 0..upto-1 is the id-graph sum over their ids. */
  lemma {:induction false} TotalDistanceToIds(payload: seq<nat>, es: seq<(nat, nat)>, edges: set<(nat, nat)>, s: nat, upto: nat)
    requires Relabelling(payload, es, edges)
    requires s < |payload| && upto <= |payload|
    ensures TotalDistance(es, s, upto) == DistanceSum(edges, payload[s], PrefixIds(payload, upto))
  {
    if upto == 0 {
      assert PrefixIds(payload, 0) == {};
    } else {
      var m := upto - 1;
      TotalDistanceToIds(payload, es, edges, s, m);
      PrefixIdsSnoc(payload, m);
      DistanceSumRemove(edges, payload[s], PrefixIds(payload, upto), payload[m]);
      ScoreToIds(payload, es, edges, s, m);
    }
  }

  /** The node ids of a loaded graph are exactly the authors of its edge set. */
  lemma NodesAreAuthors(payload: seq<nat>, es: seq<(nat, nat)>, edges: set<(nat, nat)>)
    requires Represents(payload, es, edges)
    ensures PrefixIds(payload, |payload|) == Endpoints(edges)
  {
    forall id | id in Endpoints(edges) ensures id in PrefixIds(payload, |payload|) {
      assert id in payload;
      var j :| 0 <= j < |payload| && payload[j] == id;
    }
  }

  /** For a loaded graph, the path sum from node `s` is the path sum of the author it carries. */
  lemma PathSumOfAuthor(payload: seq<nat>, es: seq<(nat, nat)>, edges: set<(nat, nat)>, s: nat)
    requires Represents(payload, es, edges) && s < |payload|
    ensures TotalDistance(es, s, |payload|) == AuthorPathSum(edges, payload[s])
  {
    RepresentsLifts(payload, es, edges);
    TotalDistanceToIds(payload, es, edges, s, |payload|);
    NodesAreAuthors(payload, es, edges);
  }

  /** The pairs of `edges` containing author `id`. */
  function IncidentPairs(edges: set<(nat, nat)>, id: nat): set<(nat, nat)> {
    set e | e in edges && Incident(e, id)
  }

  /** The index edges of `ks`, read as ids. */
  ghost function LiftSet(payload: seq<nat>, es: seq<(nat, nat)>, ks: set<nat>): set<(nat, nat)> {
    set k | k in ks && k < |es| && es[k].0 < |payload| && es[k].1 < |payload| :: Lift(payload, es[k])
  }

  /** For a loaded graph, the degree of node `i` is the number of pairs containing its author. */
  lemma DegreeOfAuthor(payload: seq<nat>, es: seq<(nat, nat)>, edges: set<(nat, nat)>, i: nat)
    requires Represents(payload, es, edges) && i < |payload|
    ensures Degree(es, i) == AuthorDegree(edges, payload[i])
  {
    RepresentsLifts(payload, es, edges);
    DegreeCountsIncidentEdges(es, i);
    IncidentIdsLifted(payload, es, edges, i);
    LiftedIdsIncident(payload, es, edges, i);
    LiftInjective(payload, es, IncidentEdges(es, i));
    SubsetsEqual(IncidentPairs(edges, payload[i]), LiftSet(payload, es, IncidentEdges(es, i)));
  }

  lemma SubsetsEqual<T>(a: set<T>, b: set<T>)
    requires a <= b && b <= a
    ensures a == b
  {
  }

  lemma IncidentIdsLifted(payload: seq<nat>, es: seq<(nat, nat)>, edges: set<(nat, nat)>, i: nat)
    requires Injective(payload) && LiftsOnto(payload, es, edges) && i < |payload|
    ensures IncidentPairs(edges, payload[i]) <= LiftSet(payload, es, IncidentEdges(es, i))
  {
    forall e | e in IncidentPairs(edges, payload[i]) ensures e in LiftSet(payload, es, IncidentEdges(es, i)) {
      var k :| 0 <= k < |es| && Lift(payload, es[k]) == e;
      if e.0 == payload[i] {
        InjectiveAt(payload, es[k].0, i);
      } else {
        InjectiveAt(payload, es[k].1, i);
      }
      assert k in IncidentEdges(es, i);
    }
  }

  lemma LiftedIdsIncident(payload: seq<nat>, es: seq<(nat, nat)>, edges: set<(nat, nat)>, i: nat)
    requires LiftsInto(payload, es, edges) && i < |payload|
    ensures LiftSet(payload, es, IncidentEdges(es, i)) <= IncidentPairs(edges, payload[i])
  {
    forall e | e in LiftSet(payload, es, IncidentEdges(es, i)) ensures e in IncidentPairs(edges, payload[i]) {
      var k :| k in IncidentEdges(es, i) && k < |es| && Lift(payload, es[k]) == e;
    }
  }

  /** Distinct index edges of an injective payload have distinct id pairs. */
  lemma {:induction false} LiftInjective(payload: seq<nat>, es: seq<(nat, nat)>, ks: set<nat>)
    requires EdgesInRange(|payload|, es) && Injective(payload)
    requires forall k, l :: 0 <= k < l < |es| ==> es[k] != es[l]
    requires forall k :: k in ks ==> k < |es|
    ensures |LiftSet(payload, es, ks)| == |ks|
  {
    if ks != {} {
      var k :| k in ks;
      LiftInjective(payload, es, ks - {k});
      LiftSetRemove(payload, es, ks, k);
    }
  }

  lemma LiftSetRemove(payload: seq<nat>, es: seq<(nat, nat)>, ks: set<nat>, k: nat)
    requires EdgesInRange(|payload|, es) && Injective(payload)
    requires forall k, l :: 0 <= k < l < |es| ==> es[k] != es[l]
    requires forall k :: k in ks ==> k < |es|
    requires k in ks
    ensures LiftSet(payload, es, ks) == LiftSet(payload, es, ks - {k}) + {Lift(payload, es[k])}
    ensures Lift(payload, es[k]) !in LiftSet(payload, es, ks - {k})
  {
    forall j | j in ks - {k} ensures Lift(payload, es[j]) != Lift(payload, es[k]) {
      assert es[j] != es[k] by {
        if j < k {
        } else {
        }
      }
      if Lift(payload, es[j]) == Lift(payload, es[k]) {
        InjectiveAt(payload, es[j].0, es[k].0);
        InjectiveAt(payload, es[j].1, es[k].1);
      }
    }
  }

  // ---------------------------------------------------------------------------
  // Properties of the scores of a loaded graph, and examples
  // ---------------------------------------------------------------------------

  /**
   * For a graph loaded from canonical pairs, the degree map has one entry per
   * author, holds the degree of that author's node, and the degrees add up to
   * twice the number of edges.
   */
  lemma LoadedDegrees(payload: seq<nat>, es: seq<(nat, nat)>, edges: set<(nat, nat)>)
    requires Represents(payload, es, edges)
    requires forall e :: e in edges ==> e.0 < e.1
    ensures forall id :: id in KeyedBy(payload, Degrees(|payload|, es)) <==> id in Endpoints(edges)
    ensures |KeyedBy(payload, Degrees(|payload|, es))| == |payload|
    ensures forall i :: 0 <= i < |payload| ==> KeyedBy(payload, Degrees(|payload|, es))[payload[i]] == Degree(es, i)
    ensures Sum(Degrees(|payload|, es)) == 2 * |edges|
    ensures KeyedBy(payload, Degrees(|payload|, es)) == DegreeMap(edges)
  {
    CanonicalHasNoSelfLoops(payload, es, edges);
    KeyedByEntries(payload, Degrees(|payload|, es));
    DegreeSum(|payload|, es);
    DegreeMapOfLoaded(payload, es, edges);
  }

  /** The degree map of a loaded graph depends on the edge set alone. */
  lemma DegreeMapOfLoaded(payload: seq<nat>, es: seq<(nat, nat)>, edges: set<(nat, nat)>)
    requires Represents(payload, es, edges)
    ensures KeyedBy(payload, Degrees(|payload|, es)) == DegreeMap(edges)
  {
    var ds := Degrees(|payload|, es);
    forall i | 0 <= i < |payload| ensures ds[i] == AuthorDegree(edges, payload[i]) {
      DegreeOfAuthor(payload, es, edges, i);
    }
    AuthorsAreNodes(payload, es, edges);
    ScoresOfAuthors(payload, ds, DegreeMap(edges));
  }

  /** The path-sum map of a loaded graph depends on the edge set alone. */
  lemma LoadedPathSums(payload: seq<nat>, es: seq<(nat, nat)>, edges: set<(nat, nat)>)
    requires Represents(payload, es, edges)
    ensures KeyedBy(payload, PathSums(|payload|, es)) == PathSumMap(edges)
  {
    var ps := PathSums(|payload|, es);
    forall i | 0 <= i < |payload| ensures ps[i] == AuthorPathSum(edges, payload[i]) {
      PathSumOfAuthor(payload, es, edges, i);
    }
    AuthorsAreNodes(payload, es, edges);
    ScoresOfAuthors(payload, ps, PathSumMap(edges));
  }

  /** Scores keyed by the node ids, each the score its author has in `m`, make up `m`. */
  lemma ScoresOfAuthors(payload: seq<nat>, scores: seq<nat>, m: map<nat, nat>)
    requires Injective(payload) && |scores| == |payload|
    requires forall id :: id in m ==> id in payload
    requires forall i :: 0 <= i < |payload| ==> payload[i] in m && scores[i] == m[payload[i]]
    ensures KeyedBy(payload, scores) == m
  {
    KeyedByEntries(payload, scores);
    var k := KeyedBy(payload, scores);
    assert k.Keys == m.Keys;
    forall id | id in m ensures k[id] == m[id] {
      var i :| 0 <= i < |payload| && payload[i] == id;
    }
  }

  /** The authors of the edge set are exactly the node ids of a loaded graph. */
  lemma AuthorsAreNodes(payload: seq<nat>, es: seq<(nat, nat)>, edges: set<(nat, nat)>)
    requires Represents(payload, es, edges)
    ensures Injective(payload)
    ensures forall id :: id in Endpoints(edges) ==> id in payload
    ensures forall i :: 0 <= i < |payload| ==> payload[i] in Endpoints(edges)
  {
  }

  /**
   * Two graphs loaded from the same edge set, whatever order their nodes and
   * edges were added in, give the same degree map and the same path-sum map.
   */
  lemma ScoresIndependentOfNumbering(p1: seq<nat>, es1: seq<(nat, nat)>, p2: seq<nat>, es2: seq<(nat, nat)>, edges: set<(nat, nat)>)
    requires Represents(p1, es1, edges) && Represents(p2, es2, edges)
    ensures KeyedBy(p1, Degrees(|p1|, es1)) == KeyedBy(p2, Degrees(|p2|, es2))
    ensures KeyedBy(p1, PathSums(|p1|, es1)) == KeyedBy(p2, PathSums(|p2|, es2))
  {
    DegreeMapOfLoaded(p1, es1, edges);
    DegreeMapOfLoaded(p2, es2, edges);
    LoadedPathSums(p1, es1, edges);
    LoadedPathSums(p2, es2, edges);
  }

  /** The path-sum map of any graph has one entry per author with that node's path sum. */
  lemma PathSumEntries(payload: seq<nat>, es: seq<(nat, nat)>)
    requires Injective(payload)
    ensures forall id :: id in KeyedBy(payload, PathSums(|payload|, es)) <==> id in payload
    ensures forall i :: 0 <= i < |payload| ==> KeyedBy(payload, PathSums(|payload|, es))[payload[i]] == TotalDistance(es, i, |payload|)
  {
    KeyedByEntries(payload, PathSums(|payload|, es));
  }

  lemma DistanceIs(es: seq<(nat, nat)>, s: nat, v: nat, d: nat)
    requires IsDistance(es, s, v, d)
    ensures Reachable(es, s, v) && Distance(es, s, v) == d
  {
    DistanceUnique(es, s, v, d, Distance(es, s, v));
  }

  /** The path 1 - 2 - 3: the middle author has path sum 1 + 1 = 2, the ends 1 + 2 = 3. */
  lemma PathOfThree(es: seq<(nat, nat)>)
    requires es == [(0, 1), (1, 2)]
    ensures KeyedBy([1, 2, 3], PathSums(3, es)) == map[1 := 3, 2 := 2, 3 := 3]
  {
    PathFromEnd(es);
    PathFromMiddle(es);
    PathFromOtherEnd(es);
    var ids, ps := [1, 2, 3], PathSums(3, es);
    assert ps == [3, 2, 3];
    assert ids[..2][..1][..0] == [] && ps[..2][..1][..0] == [];
    assert KeyedBy(ids[..2][..1], ps[..2][..1]) == map[1 := 3];
    assert KeyedBy(ids[..2], ps[..2]) == map[1 := 3, 2 := 2];
  }

  lemma StepOfTwo(es: seq<(nat, nat)>, f: set<nat>)
    requires |es| == 2
    ensures Step(es, f) == Contribution(es[0], f) + Contribution(es[1], f)
  {
    var one := es[..1];
    assert one[..0] == [];
    assert Step(one[..0], f) == {};
    assert Step(one, f) == Contribution(es[0], f);
  }

  /** The path sum of a three-node graph, from its distances. */
  lemma SumOfThree(es: seq<(nat, nat)>, s: nat, d0: nat, d1: nat, d2: nat)
    requires IsDistance(es, s, 0, d0) && IsDistance(es, s, 1, d1) && IsDistance(es, s, 2, d2)
    ensures TotalDistance(es, s, 3) == d0 + d1 + d2
  {
    DistanceIs(es, s, 0, d0);
    DistanceIs(es, s, 1, d1);
    DistanceIs(es, s, 2, d2);
    assert TotalDistance(es, s, 1) == d0;
    assert TotalDistance(es, s, 2) == d0 + d1;
  }

  lemma PathFromEnd(es: seq<(nat, nat)>)
    requires es == [(0, 1), (1, 2)]
    ensures TotalDistance(es, 0, 3) == 3
  {
    StepOfTwo(es, {0});
    StepOfTwo(es, {0, 1});
    assert Ball(es, 0, 1) == {0, 1};
    assert Ball(es, 0, 2) == {0, 1, 2};
    SumOfThree(es, 0, 0, 1, 2);
  }

  lemma PathFromMiddle(es: seq<(nat, nat)>)
    requires es == [(0, 1), (1, 2)]
    ensures TotalDistance(es, 1, 3) == 2
  {
    StepOfTwo(es, {1});
    assert Ball(es, 1, 1) == {0, 1, 2};
    SumOfThree(es, 1, 1, 0, 1);
  }

  lemma PathFromOtherEnd(es: seq<(nat, nat)>)
    requires es == [(0, 1), (1, 2)]
    ensures TotalDistance(es, 2, 3) == 3
  {
    StepOfTwo(es, {2});
    StepOfTwo(es, {1, 2});
    assert Ball(es, 2, 1) == {1, 2};
    assert Ball(es, 2, 2) == {0, 1, 2};
    SumOfThree(es, 2, 2, 1, 0);
  }

  /** Two separate pairs: from node 0 only node 1 is reachable, so the far pair adds nothing. */
  lemma UnreachableAddNothing(es: seq<(nat, nat)>)
    requires es == [(0, 1), (2, 3)]
    ensures !Reachable(es, 0, 2) && !Reachable(es, 0, 3)
    ensures TotalDistance(es, 0, 4) == 1
  {
    StepOfTwo(es, {0});
    StepOfTwo(es, {0, 1});
    assert Ball(es, 0, 1) == {0, 1};
    forall d: nat ensures 2 !in Ball(es, 0, d) && 3 !in Ball(es, 0, d) {
      BallsWithin(es, 0, 1, d);
    }
    DistanceIs(es, 0, 0, 0);
    DistanceIs(es, 0, 1, 1);
    assert TotalDistance(es, 0, 1) == 0;
    assert TotalDistance(es, 0, 2) == 1;
    assert TotalDistance(es, 0, 3) == 1;
  }
}
