/**
 * `load_graph`: read the edge list, collect the canonical edges into a set,
 * then give every external id a dense node index on first encounter and add
 * one graph edge per pair of the set.
 */
module Loader {
  import opened Wrappers
  import opened LineFilter
  import opened Graphs
  import opened SetFacts

  /** One item of `BufRead::lines()`: the text of a line, or a read error. */
  datatype LineRead = Read(text: string) | ReadFailed

  /** The `io::Error` that a failing line read propagates. */
  datatype IoError = ReadError

  predicate AllRead(lines: seq<LineRead>) {
    forall i :: 0 <= i < |lines| ==> lines[i].Read?
  }

  function Texts(lines: seq<LineRead>): (ts: seq<string>)
    requires AllRead(lines)
    ensures |ts| == |lines| && forall i :: 0 <= i < |lines| ==> ts[i] == lines[i].text
  {
    seq(|lines|, i requires 0 <= i < |lines| => lines[i].text)
  }

  /** The edge each line contributes, if any, line by line. */
  function LineEdges(lines: seq<string>): (os: seq<Option<(nat, nat)>>)
    ensures |os| == |lines| && forall i :: 0 <= i < |lines| ==> os[i] == LineEdge(lines[i])
  {
    seq(|lines|, i requires 0 <= i < |lines| => LineEdge(lines[i]))
  }

  /** Insert every present pair into a set, in order; duplicates collapse. */
  function Collect(os: seq<Option<(nat, nat)>>): set<(nat, nat)> {
    if os == [] then {}
    else
      var before := Collect(os[..|os| - 1]);
      match os[|os| - 1]
      case Some(e) => before + {e}
      case None => before
  }

  /** A pair is collected exactly when some entry holds it; at most one pair per entry. */
  lemma {:induction false} CollectMembership(os: seq<Option<(nat, nat)>>)
    ensures forall e :: e in Collect(os) <==> exists i :: 0 <= i < |os| && os[i] == Some(e)
    ensures |Collect(os)| <= |os|
  {
    CollectHas(os);
    CollectSize(os);
  }

  lemma {:induction false} CollectHas(os: seq<Option<(nat, nat)>>)
    ensures forall e :: e in Collect(os) <==> exists i :: 0 <= i < |os| && os[i] == Some(e)
  {
    if os != [] {
      var init := os[..|os| - 1];
      CollectHas(init);
      forall e ensures e in Collect(os) <==> exists i :: 0 <= i < |os| && os[i] == Some(e) {
        if exists i :: 0 <= i < |os| && os[i] == Some(e) {
          var i :| 0 <= i < |os| && os[i] == Some(e);
          if i < |init| {
            assert init[i] == os[i];
          }
        }
        if exists i :: 0 <= i < |init| && init[i] == Some(e) {
          var i :| 0 <= i < |init| && init[i] == Some(e);
          assert os[i] == init[i];
        }
      }
    }
  }

  lemma {:induction false} CollectSize(os: seq<Option<(nat, nat)>>)
    ensures |Collect(os)| <= |os|
  {
    if os != [] {
      CollectSize(os[..|os| - 1]);
    }
  }

  /** The set the first loop builds: the edge of every line that contributes one, duplicates collapsed. */
  function EdgesOf(lines: seq<string>): (edges: set<(nat, nat)>)
    ensures forall e :: e in edges ==> e.0 < e.1
    ensures |edges| <= |lines|
  {
    var os := LineEdges(lines);
    CollectMembership(os);
    Collect(os)
  }

  /** One more line adds its edge, if it has one, and nothing else. */
  lemma EdgesOfSnoc(lines: seq<string>, line: string)
    ensures EdgesOf(lines + [line]) == EdgesOf(lines) + (if LineEdge(line).Some? then {LineEdge(line).value} else {})
  {
    var os := LineEdges(lines + [line]);
    assert os[..|lines|] == LineEdges(lines);
  }

  /** A pair is in the set exactly when some line contributes it. */
  lemma EdgesOfMembership(lines: seq<string>, e: (nat, nat))
    ensures e in EdgesOf(lines) <==> exists i :: 0 <= i < |lines| && LineEdge(lines[i]) == Some(e)
  {
    var os := LineEdges(lines);
    CollectMembership(os);
    if e in EdgesOf(lines) {
      var i :| 0 <= i < |os| && os[i] == Some(e);
      assert LineEdge(lines[i]) == Some(e);
    }
  }

  /**
   * The pair {u, v} written either way round, once or twice, adds the same
   * single entry to the set.
   */
  lemma OrientationAndDuplicatesCollapse(before: seq<string>, u: nat, v: nat)
    requires u <= UsizeMax && v <= UsizeMax && u != v
    ensures EdgesOf(before + [EdgeLine(u, v)]) == EdgesOf(before + [EdgeLine(v, u)])
    ensures EdgesOf(before + [EdgeLine(u, v), EdgeLine(v, u)]) == EdgesOf(before + [EdgeLine(u, v)])
    ensures EdgesOf(before + [EdgeLine(u, v)]) == EdgesOf(before) + {Normalize(u, v)}
  {
    EdgeLineRoundTrip(u, v);
    EdgeLineRoundTrip(v, u);
    assert Normalize(u, v) == Normalize(v, u);
    EdgesOfSnoc(before, EdgeLine(u, v));
    EdgesOfSnoc(before, EdgeLine(v, u));
    EdgesOfSnoc(before + [EdgeLine(u, v)], EdgeLine(v, u));
    assert before + [EdgeLine(u, v), EdgeLine(v, u)] == before + [EdgeLine(u, v)] + [EdgeLine(v, u)];
  }

  /** The first loop of `load_graph`; the first unreadable line aborts the load. */
  method CollectEdges(lines: seq<LineRead>) returns (r: Result<set<(nat, nat)>, IoError>)
    ensures r.Ok? <==> AllRead(lines)
    ensures r.Ok? ==> r.value == EdgesOf(Texts(lines))
  {
    var edges: set<(nat, nat)> := {};
    var i := 0;
    while i < |lines|
      invariant 0 <= i <= |lines|
      invariant AllRead(lines[..i])
      invariant edges == EdgesOf(Texts(lines[..i]))
    {
      if lines[i].ReadFailed? {
        return Err(ReadError);
      }
      var line := lines[i].text;
      assert Texts(lines[..i + 1]) == Texts(lines[..i]) + [line];
      EdgesOfSnoc(Texts(lines[..i]), line);
      var e := LineEdge(line);
      if e.Some? {
        edges := edges + {e.value};
      }
      i := i + 1;
    }
    assert lines[..i] == lines;
    r := Ok(edges);
  }

  lemma EndpointsAdd(done: set<(nat, nat)>, e: (nat, nat))
    ensures Endpoints(done + {e}) == Endpoints(done) + {e.0} + {e.1}
  {
  }

  /** `node_map` and the payloads are inverse: the id map is a bijection onto the node indices. */
  ghost predicate MapMatches(payload: seq<nat>, nodeMap: map<nat, nat>) {
    && |payload| == |nodeMap|
    && (forall id :: id in nodeMap ==> nodeMap[id] < |payload| && payload[nodeMap[id]] == id)
    && (forall i :: 0 <= i < |payload| ==> payload[i] in nodeMap && nodeMap[payload[i]] == i)
  }

  /** The index edges so far are exactly the pairs of `done`, each once. */
  ghost predicate EdgesMatch(payload: seq<nat>, es: seq<(nat, nat)>, done: set<(nat, nat)>) {
    && EdgesInRange(|payload|, es)
    && |es| == |done|
    && (forall k :: 0 <= k < |es| ==> Lift(payload, es[k]) in done)
    && (forall e :: e in done ==> exists k :: 0 <= k < |es| && Lift(payload, es[k]) == e)
    && (forall k, l :: 0 <= k < l < |es| ==> es[k] != es[l])
  }

  /** Adding nodes leaves the ids of existing edges unchanged. */
  lemma EdgesMatchExtend(payload: seq<nat>, more: seq<nat>, es: seq<(nat, nat)>, done: set<(nat, nat)>)
    requires EdgesMatch(payload, es, done)
    ensures EdgesMatch(payload + more, es, done)
  {
    forall k | 0 <= k < |es| ensures Lift(payload + more, es[k]) == Lift(payload, es[k]) {
    }
    forall e | e in done ensures exists k :: 0 <= k < |es| && Lift(payload + more, es[k]) == e {
      var k :| 0 <= k < |es| && Lift(payload, es[k]) == e;
      assert Lift(payload + more, es[k]) == e;
    }
  }

  lemma PrefixOfAppends(s: seq<nat>, a: seq<nat>, b: seq<nat>)
    ensures s <= s + a + b
  {
    assert (s + a + b)[..|s|] == s;
  }

  /** `m'` keeps every entry of `m`. */
  ghost predicate Extends(m: map<nat, nat>, m': map<nat, nat>) {
    forall id :: id in m ==> id in m' && m'[id] == m[id]
  }

  lemma ExtendsTrans(m0: map<nat, nat>, m1: map<nat, nat>, m2: map<nat, nat>)
    requires Extends(m0, m1) && Extends(m1, m2)
    ensures Extends(m0, m2)
  {
  }

  /** `*node_map.entry(id).or_insert_with(|| graph.add_node(id))`. */
  method NodeFor(g: AuthorGraph, nodeMap: map<nat, nat>, id: nat) returns (ix: nat, nodeMap': map<nat, nat>)
    requires g.Valid() && MapMatches(g.payload, nodeMap)
    modifies g
    ensures g.Valid() && MapMatches(g.payload, nodeMap')
    ensures g.edgeList == old(g.edgeList)
    ensures g.payload == old(g.payload) + (if id in nodeMap then [] else [id])
    ensures id in nodeMap ==> nodeMap' == nodeMap
    ensures id !in nodeMap ==> nodeMap' == nodeMap[id := ix]
    ensures id in nodeMap' && ix == nodeMap'[id]
    ensures nodeMap'.Keys == nodeMap.Keys + {id}
    ensures Extends(nodeMap, nodeMap')
  {
    if id in nodeMap {
      ix, nodeMap' := nodeMap[id], nodeMap;
    } else {
      ix := g.AddNode(id);
      nodeMap' := nodeMap[id := ix];
      forall i | 0 <= i < |g.payload| ensures g.payload[i] in nodeMap' && nodeMap'[g.payload[i]] == i {
        if i < |g.payload| - 1 {
          assert g.payload[i] == old(g.payload)[i];
          assert g.payload[i] != id;
        }
      }
    }
  }

  /** The state the second loop keeps: nodes exactly for the ids of `done`, edges exactly for its pairs. */
  ghost predicate Built(payload: seq<nat>, es: seq<(nat, nat)>, nodeMap: map<nat, nat>, done: set<(nat, nat)>) {
    MapMatches(payload, nodeMap) && EdgesMatch(payload, es, done) && nodeMap.Keys == Endpoints(done)
  }

  /** One turn of the second loop: resolve both endpoints of `e`, then add the edge. */
  method AddPair(g: AuthorGraph, nodeMap: map<nat, nat>, ghost done: set<(nat, nat)>, e: (nat, nat))
    returns (nodeMap': map<nat, nat>)
    requires g.Valid() && MapMatches(g.payload, nodeMap) && EdgesMatch(g.payload, g.edgeList, done)
    requires nodeMap.Keys == Endpoints(done) && e !in done
    modifies g
    ensures g.Valid() && Built(g.payload, g.edgeList, nodeMap', done + {e})
    ensures old(g.payload) <= g.payload
    ensures Extends(nodeMap, nodeMap') && e.0 in nodeMap' && e.1 in nodeMap'
    ensures g.edgeList == old(g.edgeList) + [(nodeMap'[e.0], nodeMap'[e.1])]
  {
    ghost var payload0 := g.payload;
    var fromIx, toIx;
    fromIx, nodeMap' := NodeFor(g, nodeMap, e.0);
    EdgesMatchExtend(payload0, if e.0 in nodeMap then [] else [e.0], g.edgeList, done);
    ghost var payload1, map1 := g.payload, nodeMap';
    toIx, nodeMap' := NodeFor(g, nodeMap', e.1);
    EdgesMatchExtend(payload1, if e.1 in map1 then [] else [e.1], g.edgeList, done);
    PrefixOfAppends(payload0, if e.0 in nodeMap then [] else [e.0], if e.1 in map1 then [] else [e.1]);
    assert nodeMap'.Keys == nodeMap.Keys + {e.0} + {e.1};
    EndpointsAdd(done, e);
    ExtendsTrans(nodeMap, map1, nodeMap');
    assert fromIx == nodeMap'[e.0];
    ghost var es0 := g.edgeList;
    g.AddEdge(fromIx, toIx);
    EdgesMatchAppend(g.payload, es0, done, (fromIx, toIx), e);
  }

  /** Appending the index edge of a new pair keeps the edges matched. */
  lemma EdgesMatchAppend(payload: seq<nat>, es: seq<(nat, nat)>, done: set<(nat, nat)>, ie: (nat, nat), e: (nat, nat))
    requires EdgesMatch(payload, es, done) && e !in done
    requires ie.0 < |payload| && ie.1 < |payload| && Lift(payload, ie) == e
    ensures EdgesMatch(payload, es + [ie], done + {e})
  {
    var es' := es + [ie];
    forall k | 0 <= k < |es'| ensures es'[k].0 < |payload| && es'[k].1 < |payload| && Lift(payload, es'[k]) in done + {e} {
      if k < |es| {
        assert es'[k] == es[k];
      }
    }
    AppendCovers(payload, es, done, ie, e);
    AppendDistinct(payload, es, done, ie, e);
  }

  lemma AppendCovers(payload: seq<nat>, es: seq<(nat, nat)>, done: set<(nat, nat)>, ie: (nat, nat), e: (nat, nat))
    requires EdgesMatch(payload, es, done)
    requires ie.0 < |payload| && ie.1 < |payload| && Lift(payload, ie) == e
    ensures forall x :: x in done + {e} ==> exists k :: 0 <= k < |es + [ie]| && Lift(payload, (es + [ie])[k]) == x
  {
    var es' := es + [ie];
    forall x | x in done + {e} ensures exists k :: 0 <= k < |es'| && Lift(payload, es'[k]) == x {
      if x == e {
        assert Lift(payload, es'[|es|]) == x;
      } else {
        var k :| 0 <= k < |es| && Lift(payload, es[k]) == x;
        assert es'[k] == es[k];
      }
    }
  }

  lemma AppendDistinct(payload: seq<nat>, es: seq<(nat, nat)>, done: set<(nat, nat)>, ie: (nat, nat), e: (nat, nat))
    requires EdgesMatch(payload, es, done) && e !in done
    requires ie.0 < |payload| && ie.1 < |payload| && Lift(payload, ie) == e
    ensures forall k, l :: 0 <= k < l < |es + [ie]| ==> (es + [ie])[k] != (es + [ie])[l]
  {
    var es' := es + [ie];
    forall k | 0 <= k < |es| ensures es[k] != ie {
      assert Lift(payload, es[k]) in done;
    }
    forall k, l | 0 <= k < l < |es'| ensures es'[k] != es'[l] {
      assert es'[k] == es[k];
      if l < |es| {
        assert es'[l] == es[l];
      }
    }
  }

  /** Once every pair is done, the matched graph represents the whole set. */
  lemma MatchedRepresents(payload: seq<nat>, es: seq<(nat, nat)>, nodeMap: map<nat, nat>, edges: set<(nat, nat)>)
    requires MapMatches(payload, nodeMap) && EdgesMatch(payload, es, edges)
    requires nodeMap.Keys == Endpoints(edges)
    ensures Represents(payload, es, edges)
  {
    forall i, j | 0 <= i < j < |payload| ensures payload[i] != payload[j] {
      assert nodeMap[payload[i]] == i;
    }
    forall id | id in Endpoints(edges) ensures id in payload {
      assert payload[nodeMap[id]] == id;
    }
    assert |nodeMap.Keys| == |nodeMap|;
  }

  /**
   * The second loop of `load_graph`: resolve both endpoints through `node_map`,
   * creating nodes on first encounter, then add one edge, for every pair of the
   * set in whatever order the set yields them.
   */
  method BuildGraph(edges: set<(nat, nat)>) returns (g: AuthorGraph, nodeMap: map<nat, nat>)
    ensures fresh(g) && g.Valid()
    ensures Represents(g.payload, g.edgeList, edges)
    ensures nodeMap.Keys == Endpoints(edges)
    ensures MapMatches(g.payload, nodeMap)
  {
    g := new AuthorGraph();
    nodeMap := map[];
    var rest := edges;
    ghost var done: set<(nat, nat)> := {};
    assert Endpoints(done) == {};
    while rest != {}
      invariant g.Valid()
      invariant done + rest == edges && done !! rest
      invariant Built(g.payload, g.edgeList, nodeMap, done)
      decreases |rest|
    {
      var e :| e in rest;
      MoveOne(done, rest, edges, e);
      nodeMap := AddPair(g, nodeMap, done, e);
      rest := rest - {e};
      done := done + {e};
    }
    assert done == edges;
    MatchedRepresents(g.payload, g.edgeList, nodeMap, edges);
  }

  /**
   * `load_graph`: a file that cannot be opened yields the empty graph; a line
   * that cannot be read yields the error; otherwise the graph represents the
   * canonical edge set of the lines.
   */
  method LoadGraph(file: Option<seq<LineRead>>) returns (r: Result<AuthorGraph, IoError>)
    ensures r.Ok? ==> fresh(r.value) && r.value.Valid()
    ensures file.None? ==> r.Ok? && r.value.payload == [] && r.value.edgeList == []
    ensures file.Some? ==> (r.Ok? <==> AllRead(file.value))
    ensures file.Some? && r.Ok? ==> Represents(r.value.payload, r.value.edgeList, EdgesOf(Texts(file.value)))
  {
    match file
    case None =>
      var g := new AuthorGraph();
      r := Ok(g);
    case Some(lines) =>
      var collected := CollectEdges(lines);
      match collected
      case Err(err) =>
        r := Err(err);
      case Ok(edges) =>
        var g, _ := BuildGraph(edges);
        r := Ok(g);
  }

  /** `test_load_graph`: the test file loads as a graph of five nodes and four edges. */
  method LoadTestFile() returns (nodes: nat, edgeCount: nat)
    ensures nodes == 5 && edgeCount == 4
  {
    var lines := [Read("1\t2"), Read("2\t3"), Read("3\t1"), Read("4\t5")];
    TestFileLines(lines);
    var r := LoadGraph(Some(lines));
    TriangleAndPair();
    nodes := r.value.NodeCount();
    edgeCount := r.value.EdgeCount();
  }

  lemma TestFileLines(lines: seq<LineRead>)
    requires lines == [Read("1\t2"), Read("2\t3"), Read("3\t1"), Read("4\t5")]
    ensures AllRead(lines) && Texts(lines) == ["1\t2", "2\t3", "3\t1", "4\t5"]
  {
  }

  /** The source's test file "1\t2\n2\t3\n3\t1\n4\t5\n": five nodes and four edges. */
  lemma TriangleAndPair()
    ensures EdgesOf(["1\t2", "2\t3", "3\t1", "4\t5"]) == {(1, 2), (2, 3), (1, 3), (4, 5)}
    ensures |EdgesOf(["1\t2", "2\t3", "3\t1", "4\t5"])| == 4
    ensures |Endpoints(EdgesOf(["1\t2", "2\t3", "3\t1", "4\t5"]))| == 5
  {
    DigitTabDigit("1\t2", '1', '2');
    DigitTabDigit("2\t3", '2', '3');
    DigitTabDigit("3\t1", '3', '1');
    DigitTabDigit("4\t5", '4', '5');
    CollectFour(LineEdges(["1\t2", "2\t3", "3\t1", "4\t5"]), (1, 2), (2, 3), (1, 3), (4, 5));
    TriangleEndpoints();
  }

  /**
   * The edge of a one-digit, tab, one-digit line. The line is taken as a parameter
   * equal to its literal so that the verifier works on `[c, '\t', d]` through
   * `TabSeparated` and does not unfold the parser on the literal string itself.
   */
  lemma DigitTabDigit(line: string, c: char, d: char)
    requires IsDigit(c) && IsDigit(d) && c != d && line == [c, '\t', d]
    ensures LineEdge(line) == Some(Normalize(c as int - '0' as int, d as int - '0' as int))
  {
    TabSeparated(c, d);
  }

  /** Four entries, each holding one pair. */
  lemma CollectFour(os: seq<Option<(nat, nat)>>, e0: (nat, nat), e1: (nat, nat), e2: (nat, nat), e3: (nat, nat))
    requires |os| == 4 && os[0] == Some(e0) && os[1] == Some(e1) && os[2] == Some(e2) && os[3] == Some(e3)
    ensures Collect(os) == {e0, e1, e2, e3}
  {
    assert os[..0] == [];
    CollectStep(os, 0, e0, {});
    CollectStep(os, 1, e1, {e0});
    CollectStep(os, 2, e2, {e0, e1});
    CollectStep(os, 3, e3, {e0, e1, e2});
    assert os[..4] == os;
  }

  lemma CollectStep(os: seq<Option<(nat, nat)>>, k: nat, e: (nat, nat), before: set<(nat, nat)>)
    requires k < |os| && os[k] == Some(e) && Collect(os[..k]) == before
    ensures Collect(os[..k + 1]) == before + {e}
  {
    assert os[..k + 1][..k] == os[..k];
  }

  lemma TriangleEndpoints()
    ensures |{(1, 2), (2, 3), (1, 3), (4, 5)}| == 4
    ensures |Endpoints({(1, 2), (2, 3), (1, 3), (4, 5)})| == 5
  {
    var edges: set<(nat, nat)> := {(1, 2), (2, 3), (1, 3), (4, 5)};
    TriangleEndpointsWithin(edges);
    TriangleEndpointsCovered(edges);
    assert Endpoints(edges) == {1, 2, 3, 4, 5};
  }

  lemma TriangleEndpointsWithin(edges: set<(nat, nat)>)
    requires edges == {(1, 2), (2, 3), (1, 3), (4, 5)}
    ensures Endpoints(edges) <= {1, 2, 3, 4, 5}
  {
    forall x | x in Endpoints(edges) ensures x in {1, 2, 3, 4, 5} {
      if x in (set e | e in edges :: e.0) {
        var e :| e in edges && e.0 == x;
      } else {
        var e :| e in edges && e.1 == x;
      }
    }
  }

  lemma TriangleEndpointsCovered(edges: set<(nat, nat)>)
    requires edges == {(1, 2), (2, 3), (1, 3), (4, 5)}
    ensures {1, 2, 3, 4, 5} <= Endpoints(edges)
  {
    assert (1, 2) in edges && (2, 3) in edges && (4, 5) in edges;
  }
}
