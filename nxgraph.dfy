/** The part of networkx's undirected `Graph` that both graph builders use:
    `add_edge`, the node list and the edge view. Nodes are kept in the order
    they were first added; an edge between two nodes that are already joined
    is not duplicated but takes the new attributes; an edge from a node to
    itself is a self-loop. */
module NxGraph {

  /** An edge with its endpoints as first added and its attribute record. */
  datatype Edge<A> = Edge(u: string, v: string, attrs: A)

  /** `e` joins `a` and `b`, in either direction. */
  predicate Joins<A>(e: Edge<A>, a: string, b: string) {
    (e.u == a && e.v == b) || (e.u == b && e.v == a)
  }

  predicate Distinct(nodes: seq<string>) {
    forall i, j :: 0 <= i < j < |nodes| ==> nodes[i] != nodes[j]
  }

  /** No two edges join the same pair of nodes. */
  predicate UniqueEnds<A>(edges: seq<Edge<A>>) {
    forall i, j :: 0 <= i < j < |edges| ==> !Joins(edges[j], edges[i].u, edges[i].v)
  }

  /** Every endpoint of every edge is a node. */
  predicate Closed<A>(nodes: seq<string>, edges: seq<Edge<A>>) {
    forall k :: 0 <= k < |edges| ==> edges[k].u in nodes && edges[k].v in nodes
  }

  /** The node list after adding `x`: appended when it is new. */
  function WithNode(nodes: seq<string>, x: string): (r: seq<string>)
    ensures Distinct(nodes) ==> Distinct(r)
    ensures forall y :: y in r <==> y in nodes || y == x
  {
    if x in nodes then nodes else nodes + [x]
  }

  /** The position of the edge joining `a` and `b`, or -1 when there is none. */
  function FindEdge<A>(edges: seq<Edge<A>>, a: string, b: string): (m: int)
    ensures -1 <= m < |edges|
    ensures m == -1 ==> forall k :: 0 <= k < |edges| ==> !Joins(edges[k], a, b)
    ensures m >= 0 ==> Joins(edges[m], a, b)
    decreases |edges|
  {
    if edges == [] then -1
    else if Joins(edges[|edges| - 1], a, b) then |edges| - 1
    else FindEdge(edges[..|edges| - 1], a, b)
  }

  /** The edge list after `add_edge(a, b, attrs)`: the edge already joining
      `a` and `b` keeps its place and takes the new attributes; otherwise a
      new edge is appended. networkx merges the new keyword attributes into
      the old ones; replacing them gives the same edge here because both
      builders pass every attribute key on every call. */
  function WithEdge<A>(edges: seq<Edge<A>>, a: string, b: string, attrs: A): seq<Edge<A>> {
    var m := FindEdge(edges, a, b);
    if m >= 0 then edges[m := edges[m].(attrs := attrs)] else edges + [Edge(a, b, attrs)]
  }

  lemma WithEdgeKeepsUniqueEnds<A>(edges: seq<Edge<A>>, a: string, b: string, attrs: A)
    requires UniqueEnds(edges)
    ensures UniqueEnds(WithEdge(edges, a, b, attrs))
  {
  }

  /** Some added edge joins `a` and `b`. */
  predicate HasJoin<A>(adds: seq<Edge<A>>, a: string, b: string) {
    exists k :: 0 <= k < |adds| && Joins(adds[k], a, b)
  }

  /** The position of the last added edge that joins `a` and `b`. */
  function LastJoin<A>(adds: seq<Edge<A>>, a: string, b: string): (k: nat)
    requires HasJoin(adds, a, b)
    ensures k < |adds| && Joins(adds[k], a, b)
    ensures forall j :: k < j < |adds| ==> !Joins(adds[j], a, b)
    decreases |adds|
  {
    if Joins(adds[|adds| - 1], a, b) then |adds| - 1
    else
      var k :| 0 <= k < |adds| && Joins(adds[k], a, b);
      assert k < |adds| - 1 && Joins(adds[..|adds| - 1][k], a, b);
      LastJoin(adds[..|adds| - 1], a, b)
  }

  /** The nodes of the graph built by calling `add_edge` on each of `adds`
      in turn, starting from an empty graph. */
  function NodesOf<A>(adds: seq<Edge<A>>): seq<string> {
    if adds == [] then []
    else
      var e := adds[|adds| - 1];
      WithNode(WithNode(NodesOf(adds[..|adds| - 1]), e.u), e.v)
  }

  /** The edges of the same graph. */
  function EdgesOf<A>(adds: seq<Edge<A>>): seq<Edge<A>> {
    if adds == [] then []
    else
      var e := adds[|adds| - 1];
      WithEdge(EdgesOf(adds[..|adds| - 1]), e.u, e.v, e.attrs)
  }

  /** `x` is an endpoint of some added edge. */
  predicate Endpoint<A>(adds: seq<Edge<A>>, x: string) {
    exists k :: 0 <= k < |adds| && (adds[k].u == x || adds[k].v == x)
  }

  /** The nodes are exactly the endpoints, each listed once. */
  lemma {:induction false} NodesAreEndpoints<A>(adds: seq<Edge<A>>)
    ensures Distinct(NodesOf(adds))
    ensures forall x :: x in NodesOf(adds) <==> Endpoint(adds, x)
  {
    if adds != [] {
      var init := adds[..|adds| - 1];
      NodesAreEndpoints(init);
      forall x
        ensures x in NodesOf(adds) <==> Endpoint(adds, x)
      {
        EndpointOfPrefix(adds, x);
      }
    }
  }

  /** An endpoint of all the adds is one of all but the last, or of the last. */
  lemma EndpointOfPrefix<A>(adds: seq<Edge<A>>, x: string)
    requires adds != []
    ensures Endpoint(adds, x) <==>
      Endpoint(adds[..|adds| - 1], x) || adds[|adds| - 1].u == x || adds[|adds| - 1].v == x
  {
    var init := adds[..|adds| - 1];
    if Endpoint(init, x) {
      var k :| 0 <= k < |init| && (init[k].u == x || init[k].v == x);
      assert adds[k] == init[k];
    }
    if Endpoint(adds, x) {
      var k :| 0 <= k < |adds| && (adds[k].u == x || adds[k].v == x);
      if k < |init| {
        assert init[k] == adds[k];
      }
    }
  }

  /** Each `add_edge` adds at most one edge. */
  lemma {:induction false} EdgesAtMost<A>(adds: seq<Edge<A>>)
    ensures |EdgesOf(adds)| <= |adds|
  {
    if adds != [] {
      EdgesAtMost(adds[..|adds| - 1]);
    }
  }

  /** The edges join distinct pairs of nodes. */
  lemma {:induction false} EdgesUnique<A>(adds: seq<Edge<A>>)
    ensures UniqueEnds(EdgesOf(adds))
  {
    if adds != [] {
      var e := adds[|adds| - 1];
      EdgesUnique(adds[..|adds| - 1]);
      WithEdgeKeepsUniqueEnds(EdgesOf(adds[..|adds| - 1]), e.u, e.v, e.attrs);
    }
  }

  /** Some edge of `edges` joins `a` and `b`. */
  predicate HasEdge<A>(edges: seq<Edge<A>>, a: string, b: string) {
    exists m :: 0 <= m < |edges| && Joins(edges[m], a, b)
  }

  /** Every pair passed to `add_edge` has its edge. */
  lemma {:induction false} EdgesCoverAdds<A>(adds: seq<Edge<A>>)
    ensures forall k :: 0 <= k < |adds| ==> HasEdge(EdgesOf(adds), adds[k].u, adds[k].v)
  {
    if adds != [] {
      var init := adds[..|adds| - 1];
      var e := adds[|adds| - 1];
      var before := EdgesOf(init);
      var after := EdgesOf(adds);
      EdgesCoverAdds(init);
      var found := FindEdge(before, e.u, e.v);
      forall k | 0 <= k < |adds|
        ensures HasEdge(after, adds[k].u, adds[k].v)
      {
        if k == |adds| - 1 {
          if found >= 0 {
            assert Joins(after[found], e.u, e.v);
          } else {
            assert Joins(after[|before|], e.u, e.v);
          }
        } else {
          assert adds[k] == init[k];
          assert HasEdge(before, init[k].u, init[k].v);
          var m :| 0 <= m < |before| && Joins(before[m], init[k].u, init[k].v);
          assert after[m].u == before[m].u && after[m].v == before[m].v;
        }
      }
    }
  }

  /** Every edge comes from a pair passed to `add_edge`, and carries the
      attributes of the last call for that pair. */
  lemma {:induction false} EdgesKeepLastAttrs<A>(adds: seq<Edge<A>>)
    ensures forall m :: 0 <= m < |EdgesOf(adds)| ==>
      HasJoin(adds, EdgesOf(adds)[m].u, EdgesOf(adds)[m].v) &&
      EdgesOf(adds)[m].attrs == adds[LastJoin(adds, EdgesOf(adds)[m].u, EdgesOf(adds)[m].v)].attrs
  {
    if adds != [] {
      var init := adds[..|adds| - 1];
      var e := adds[|adds| - 1];
      var before := EdgesOf(init);
      var after := EdgesOf(adds);
      EdgesKeepLastAttrs(init);
      EdgesUnique(init);
      var found := FindEdge(before, e.u, e.v);
      forall m | 0 <= m < |after|
        ensures HasJoin(adds, after[m].u, after[m].v)
        ensures after[m].attrs == adds[LastJoin(adds, after[m].u, after[m].v)].attrs
      {
        var a, b := after[m].u, after[m].v;
        if Joins(e, a, b) {
          assert Joins(adds[|adds| - 1], a, b);
          if found >= 0 {
            if m != found {
              assert Joins(before[m], before[found].u, before[found].v);
              assert false;
            }
          } else {
            assert m == |before|;
          }
        } else {
          assert m < |before| && before[m] == after[m];
          var k := LastJoin(init, a, b);
          assert adds[k] == init[k];
          assert LastJoin(adds, a, b) == k;
        }
      }
    }
  }

  /** Every endpoint of every edge is a node of the built graph. */
  lemma {:induction false} BuiltClosed<A>(adds: seq<Edge<A>>)
    ensures Closed(NodesOf(adds), EdgesOf(adds))
  {
    if adds != [] {
      var init := adds[..|adds| - 1];
      var e := adds[|adds| - 1];
      BuiltClosed(init);
      var nodes, edges := NodesOf(adds), EdgesOf(adds);
      assert forall x :: x in NodesOf(init) ==> x in nodes;
      assert e.u in nodes && e.v in nodes;
      forall k | 0 <= k < |edges|
        ensures edges[k].u in nodes && edges[k].v in nodes
      {
        WithEdgeEnds(EdgesOf(init), e.u, e.v, e.attrs, k);
      }
    }
  }

  /** Each edge after `add_edge(a, b, ...)` is an earlier edge or joins `a` and `b`. */
  lemma WithEdgeEnds<A>(edges: seq<Edge<A>>, a: string, b: string, attrs: A, k: nat)
    requires k < |WithEdge(edges, a, b, attrs)|
    ensures var r := WithEdge(edges, a, b, attrs)[k];
      (k < |edges| && r.u == edges[k].u && r.v == edges[k].v) || (r.u == a && r.v == b)
  {
  }

  /** The first position of `x` in `nodes`. */
  function IndexOf(nodes: seq<string>, x: string): (i: nat)
    requires x in nodes
    ensures i < |nodes| && nodes[i] == x
    ensures forall j :: 0 <= j < i ==> nodes[j] != x
  {
    if nodes[0] == x then 0 else 1 + IndexOf(nodes[1..], x)
  }

  /** The endpoint that comes first in the node list. */
  function Lead<A>(nodes: seq<string>, e: Edge<A>): nat
    requires e.u in nodes && e.v in nodes
  {
    if IndexOf(nodes, e.v) < IndexOf(nodes, e.u) then IndexOf(nodes, e.v) else IndexOf(nodes, e.u)
  }

  /** An edge as the edge view reports it: from the endpoint that comes first
      in the node list to the other one. */
  function Oriented<A>(nodes: seq<string>, e: Edge<A>): (r: Edge<A>)
    requires e.u in nodes && e.v in nodes
    ensures Joins(r, e.u, e.v) && r.attrs == e.attrs
    ensures IndexOf(nodes, r.u) <= IndexOf(nodes, r.v)
  {
    if IndexOf(nodes, e.v) < IndexOf(nodes, e.u) then Edge(e.v, e.u, e.attrs) else e
  }

  /** The edges whose leading endpoint is `nodes[i]`, oriented, in the order
      they were first added, which is the order of that node's neighbours. */
  function LedBy<A>(nodes: seq<string>, edges: seq<Edge<A>>, i: nat): seq<Edge<A>>
    requires Closed(nodes, edges)
  {
    if edges == [] then []
    else
      var init := edges[..|edges| - 1];
      var e := edges[|edges| - 1];
      LedBy(nodes, init, i) + if Lead(nodes, e) == i then [Oriented(nodes, e)] else []
  }

  /** `G.edges(data=True)` from the `i`-th node on: each node in turn reports
      its edges to neighbours that it has not yet passed. */
  function ViewFrom<A>(nodes: seq<string>, edges: seq<Edge<A>>, i: nat): seq<Edge<A>>
    requires Closed(nodes, edges)
    decreases |nodes| - i
  {
    if i >= |nodes| then [] else LedBy(nodes, edges, i) + ViewFrom(nodes, edges, i + 1)
  }

  /** The number of edges whose leading endpoint is at position `i` or later. */
  function LedFrom<A>(nodes: seq<string>, edges: seq<Edge<A>>, i: nat): nat
    requires Closed(nodes, edges)
  {
    if edges == [] then 0
    else
      var e := edges[|edges| - 1];
      LedFrom(nodes, edges[..|edges| - 1], i) + if Lead(nodes, e) >= i then 1 else 0
  }

  lemma {:induction false} ViewFromLength<A>(nodes: seq<string>, edges: seq<Edge<A>>, i: nat)
    requires Closed(nodes, edges)
    ensures |ViewFrom(nodes, edges, i)| == LedFrom(nodes, edges, i)
    decreases |nodes| - i, |edges|
  {
    if i >= |nodes| {
      LedFromPastEnd(nodes, edges, i);
    } else {
      ViewFromLength(nodes, edges, i + 1);
      LedBySplit(nodes, edges, i);
    }
  }

  lemma {:induction false} LedFromPastEnd<A>(nodes: seq<string>, edges: seq<Edge<A>>, i: nat)
    requires Closed(nodes, edges) && i >= |nodes|
    ensures LedFrom(nodes, edges, i) == 0
    decreases |edges|
  {
    if edges != [] {
      LedFromPastEnd(nodes, edges[..|edges| - 1], i);
    }
  }

  lemma {:induction false} LedBySplit<A>(nodes: seq<string>, edges: seq<Edge<A>>, i: nat)
    requires Closed(nodes, edges)
    ensures LedFrom(nodes, edges, i) == |LedBy(nodes, edges, i)| + LedFrom(nodes, edges, i + 1)
    decreases |edges|
  {
    if edges != [] {
      LedBySplit(nodes, edges[..|edges| - 1], i);
    }
  }

  lemma {:induction false} LedFromZero<A>(nodes: seq<string>, edges: seq<Edge<A>>)
    requires Closed(nodes, edges)
    ensures LedFrom(nodes, edges, 0) == |edges|
    decreases |edges|
  {
    if edges != [] {
      LedFromZero(nodes, edges[..|edges| - 1]);
    }
  }

  /** `G.edges(data=True)`. */
  function EdgeView<A>(nodes: seq<string>, edges: seq<Edge<A>>): seq<Edge<A>>
    requires Closed(nodes, edges)
  {
    ViewFrom(nodes, edges, 0)
  }

  /** The edge view reports every edge once: as many entries as edges. */
  lemma EdgeViewLength<A>(nodes: seq<string>, edges: seq<Edge<A>>)
    requires Closed(nodes, edges)
    ensures |EdgeView(nodes, edges)| == |edges|
  {
    ViewFromLength(nodes, edges, 0);
    LedFromZero(nodes, edges);
  }

  lemma {:induction false} LedByFromEdges<A>(nodes: seq<string>, edges: seq<Edge<A>>, i: nat, r: Edge<A>)
    requires Closed(nodes, edges) && r in LedBy(nodes, edges, i)
    ensures exists k :: 0 <= k < |edges| && r == Oriented(nodes, edges[k]) && Lead(nodes, edges[k]) == i
    decreases |edges|
  {
    var init := edges[..|edges| - 1];
    if r in LedBy(nodes, init, i) {
      LedByFromEdges(nodes, init, i, r);
      var k :| 0 <= k < |init| && r == Oriented(nodes, init[k]) && Lead(nodes, init[k]) == i;
      assert edges[k] == init[k];
    } else {
      assert r == Oriented(nodes, edges[|edges| - 1]);
    }
  }

  lemma {:induction false} ViewFromFromEdges<A>(nodes: seq<string>, edges: seq<Edge<A>>, i: nat, r: Edge<A>)
    requires Closed(nodes, edges) && r in ViewFrom(nodes, edges, i)
    ensures exists k :: 0 <= k < |edges| && r == Oriented(nodes, edges[k])
    decreases |nodes| - i
  {
    if r in LedBy(nodes, edges, i) {
      LedByFromEdges(nodes, edges, i, r);
    } else {
      ViewFromFromEdges(nodes, edges, i + 1, r);
    }
  }

  /** Each reported entry is a stored edge, turned to start at its endpoint
      that comes first in the node list, with the stored attributes. */
  lemma EdgeViewEntries<A>(nodes: seq<string>, edges: seq<Edge<A>>)
    requires Closed(nodes, edges)
    ensures forall r :: r in EdgeView(nodes, edges) ==>
      exists k :: 0 <= k < |edges| && r == Oriented(nodes, edges[k])
  {
    forall r | r in EdgeView(nodes, edges)
      ensures exists k :: 0 <= k < |edges| && r == Oriented(nodes, edges[k])
    {
      ViewFromFromEdges(nodes, edges, 0, r);
    }
  }

  lemma {:induction false} LedByHas<A>(nodes: seq<string>, edges: seq<Edge<A>>, k: nat)
    requires Closed(nodes, edges) && k < |edges|
    ensures Oriented(nodes, edges[k]) in LedBy(nodes, edges, Lead(nodes, edges[k]))
    decreases |edges|
  {
    var init := edges[..|edges| - 1];
    if k < |init| {
      assert init[k] == edges[k];
      LedByHas(nodes, init, k);
    }
  }

  lemma {:induction false} ViewFromHas<A>(nodes: seq<string>, edges: seq<Edge<A>>, i: nat, lead: nat, r: Edge<A>)
    requires Closed(nodes, edges) && i <= lead < |nodes| && r in LedBy(nodes, edges, lead)
    ensures r in ViewFrom(nodes, edges, i)
    decreases lead - i
  {
    var here, later := LedBy(nodes, edges, i), ViewFrom(nodes, edges, i + 1);
    assert ViewFrom(nodes, edges, i) == here + later;
    if i < lead {
      ViewFromHas(nodes, edges, i + 1, lead, r);
      assert r in later;
    } else {
      assert r in here;
    }
  }

  /** Every stored edge is reported, turned to start at its endpoint that
      comes first in the node list. */
  lemma EdgeViewHas<A>(nodes: seq<string>, edges: seq<Edge<A>>, k: nat)
    requires Closed(nodes, edges) && k < |edges|
    ensures Oriented(nodes, edges[k]) in EdgeView(nodes, edges)
  {
    LedByHas(nodes, edges, k);
    ViewFromHas(nodes, edges, 0, Lead(nodes, edges[k]), Oriented(nodes, edges[k]));
  }

  /** The leading endpoint of an oriented edge sits at the edge's lead. */
  lemma OrientedLeads<A>(nodes: seq<string>, e: Edge<A>)
    requires e.u in nodes && e.v in nodes
    ensures Oriented(nodes, e).u in nodes && IndexOf(nodes, Oriented(nodes, e).u) == Lead(nodes, e)
  {
  }

  /** Appending an edge that joins no pair already present keeps the ends
      unique. */
  lemma AppendUnique<A>(edges: seq<Edge<A>>, e: Edge<A>)
    requires UniqueEnds(edges)
    requires forall m :: 0 <= m < |edges| ==> !Joins(e, edges[m].u, edges[m].v)
    ensures UniqueEnds(edges + [e])
  {
    var after := edges + [e];
    forall a, b | 0 <= a < b < |after|
      ensures !Joins(after[b], after[a].u, after[a].v)
    {
      assert after[a] == edges[a];
      if b < |edges| {
        assert after[b] == edges[b];
      }
    }
  }

  /** Two oriented edges join the same pair only when the edges do. */
  lemma OrientedJoins<A>(nodes: seq<string>, e: Edge<A>, f: Edge<A>)
    requires e.u in nodes && e.v in nodes && f.u in nodes && f.v in nodes
    ensures Joins(Oriented(nodes, e), Oriented(nodes, f).u, Oriented(nodes, f).v) ==> Joins(e, f.u, f.v)
  {
  }

  lemma {:induction false} LedByLeads<A>(nodes: seq<string>, edges: seq<Edge<A>>, i: nat, r: Edge<A>)
    requires Closed(nodes, edges) && r in LedBy(nodes, edges, i)
    ensures r.u in nodes && IndexOf(nodes, r.u) == i
  {
    LedByFromEdges(nodes, edges, i, r);
    var k :| 0 <= k < |edges| && r == Oriented(nodes, edges[k]) && Lead(nodes, edges[k]) == i;
    OrientedLeads(nodes, edges[k]);
  }

  lemma {:induction false} LedByUnique<A>(nodes: seq<string>, edges: seq<Edge<A>>, i: nat)
    requires Closed(nodes, edges) && UniqueEnds(edges)
    ensures UniqueEnds(LedBy(nodes, edges, i))
    decreases |edges|
  {
    if edges != [] {
      var init := edges[..|edges| - 1];
      var e := edges[|edges| - 1];
      assert UniqueEnds(init) by {
        forall a, b | 0 <= a < b < |init|
          ensures !Joins(init[b], init[a].u, init[a].v)
        {
          assert init[a] == edges[a] && init[b] == edges[b];
        }
      }
      assert Closed(nodes, init) by {
        forall k | 0 <= k < |init|
          ensures init[k].u in nodes && init[k].v in nodes
        {
          assert init[k] == edges[k];
        }
      }
      LedByUnique(nodes, init, i);
      var before := LedBy(nodes, init, i);
      if Lead(nodes, e) == i {
        var o := Oriented(nodes, e);
        forall m | 0 <= m < |before|
          ensures !Joins(o, before[m].u, before[m].v)
        {
          LedByFromEdges(nodes, init, i, before[m]);
          var k :| 0 <= k < |init| && before[m] == Oriented(nodes, init[k]) && Lead(nodes, init[k]) == i;
          assert init[k] == edges[k];
          assert !Joins(e, init[k].u, init[k].v);
          OrientedJoins(nodes, e, init[k]);
        }
        AppendUnique(before, o);
      } else {
        assert LedBy(nodes, edges, i) == before;
      }
    }
  }

  lemma {:induction false} ViewFromUnique<A>(nodes: seq<string>, edges: seq<Edge<A>>, i: nat)
    requires Closed(nodes, edges) && UniqueEnds(edges)
    ensures UniqueEnds(ViewFrom(nodes, edges, i))
    ensures forall r :: r in ViewFrom(nodes, edges, i) ==> r.u in nodes && IndexOf(nodes, r.u) >= i
    decreases |nodes| - i
  {
    if i < |nodes| {
      var here, later := LedBy(nodes, edges, i), ViewFrom(nodes, edges, i + 1);
      LedByUnique(nodes, edges, i);
      ViewFromUnique(nodes, edges, i + 1);
      forall r | r in here
        ensures r.u in nodes && IndexOf(nodes, r.u) == i
      {
        LedByLeads(nodes, edges, i, r);
      }
      var all := here + later;
      assert ViewFrom(nodes, edges, i) == all;
      forall a, b | 0 <= a < b < |all|
        ensures !Joins(all[b], all[a].u, all[a].v)
      {
        if b < |here| {
          assert all[a] == here[a] && all[b] == here[b];
        } else if a >= |here| {
          assert all[a] == later[a - |here|] && all[b] == later[b - |here|];
        } else {
          var x, y := here[a], later[b - |here|];
          assert all[a] == x && all[b] == y;
          assert x in here && y in later;
          ViewFromEntryOriented(nodes, edges, i + 1, y);
          LedByEntryOriented(nodes, edges, i, x);
          LedByLeads(nodes, edges, i, x);
        }
      }
    }
  }

  lemma {:induction false} LedByEntryOriented<A>(nodes: seq<string>, edges: seq<Edge<A>>, i: nat, r: Edge<A>)
    requires Closed(nodes, edges) && r in LedBy(nodes, edges, i)
    ensures r.u in nodes && r.v in nodes && IndexOf(nodes, r.u) <= IndexOf(nodes, r.v)
  {
    LedByFromEdges(nodes, edges, i, r);
  }

  lemma {:induction false} ViewFromEntryOriented<A>(nodes: seq<string>, edges: seq<Edge<A>>, i: nat, r: Edge<A>)
    requires Closed(nodes, edges) && r in ViewFrom(nodes, edges, i)
    ensures r.u in nodes && r.v in nodes && IndexOf(nodes, r.u) <= IndexOf(nodes, r.v)
  {
    ViewFromFromEdges(nodes, edges, i, r);
  }

  /** The edge view reports no pair of nodes twice. */
  lemma EdgeViewUnique<A>(nodes: seq<string>, edges: seq<Edge<A>>)
    requires Closed(nodes, edges) && UniqueEnds(edges)
    ensures UniqueEnds(EdgeView(nodes, edges))
  {
    ViewFromUnique(nodes, edges, 0);
  }

  /** `G.edges(data=True)` for the graph built by the calls `adds`. */
  function ViewOf<A>(adds: seq<Edge<A>>): seq<Edge<A>> {
    BuiltClosed(adds);
    EdgeView(NodesOf(adds), EdgesOf(adds))
  }

  /** A graph built from one edge between two different nodes: both nodes,
      in the order given, and the edge as the view reports it. */
  lemma SingleEdge<A>(e: Edge<A>)
    requires e.u != e.v
    ensures NodesOf([e]) == [e.u, e.v]
    ensures ViewOf([e]) == [e]
  {
    var adds := [e];
    assert adds[..|adds| - 1] == [];
    var nodes := NodesOf(adds);
    var edges := EdgesOf(adds);
    assert NodesOf(adds[..|adds| - 1]) == [] && EdgesOf(adds[..|adds| - 1]) == [];
    assert nodes == WithNode(WithNode([], e.u), e.v);
    assert nodes == [e.u, e.v];
    assert FindEdge<A>([], e.u, e.v) == -1;
    assert edges == WithEdge([], e.u, e.v, e.attrs);
    assert edges == [e];
    assert edges[..|edges| - 1] == [];
    assert IndexOf(nodes, e.v) == 1 by {
      assert nodes[1..] == [e.v];
    }
    BuiltClosed(adds);
    assert LedBy(nodes, edges, 0) == [e];
    assert LedBy(nodes, edges, 1) == [];
    assert ViewFrom(nodes, edges, 1) == [];
  }

  /** A graph built from a path of two edges over three different nodes:
      the nodes in the order first met, and both edges, in that order, as
      the view reports them. */
  lemma TwoEdgePath<A>(e1: Edge<A>, e2: Edge<A>)
    requires e1.v == e2.u && e1.u != e1.v && e2.u != e2.v && e1.u != e2.v
    ensures NodesOf([e1, e2]) == [e1.u, e1.v, e2.v]
    ensures ViewOf([e1, e2]) == [e1, e2]
  {
    var adds := [e1, e2];
    assert adds[..|adds| - 1] == [e1];
    SingleEdge(e1);
    assert EdgesOf([e1]) == [e1] by {
      assert [e1][..0] == [];
      assert FindEdge<A>([], e1.u, e1.v) == -1;
    }
    assert NodesOf(adds) == WithNode(WithNode([e1.u, e1.v], e2.u), e2.v);
    assert FindEdge([e1], e2.u, e2.v) == -1 by {
      assert [e1][..0] == [];
    }
    assert EdgesOf(adds) == [e1, e2];
    PathView([e1.u, e1.v, e2.v], e1, e2);
  }

  /** The edge view of the path `e1`, `e2` over the nodes `a`, `b`, `c`. */
  lemma PathView<A>(nodes: seq<string>, e1: Edge<A>, e2: Edge<A>)
    requires nodes == [e1.u, e1.v, e2.v] && e1.v == e2.u
    requires e1.u != e1.v && e2.u != e2.v && e1.u != e2.v
    ensures Closed(nodes, [e1, e2])
    ensures EdgeView(nodes, [e1, e2]) == [e1, e2]
  {
    var edges := [e1, e2];
    assert edges[..|edges| - 1] == [e1];
    assert [e1][..0] == [];
    assert IndexOf(nodes, e1.v) == 1 by {
      assert nodes[1..] == [e1.v, e2.v];
    }
    assert IndexOf(nodes, e2.v) == 2 by {
      assert nodes[1..] == [e1.v, e2.v];
      assert nodes[1..][1..] == [e2.v];
    }
    assert Closed(nodes, [e1]);
    assert LedBy(nodes, [e1], 0) == [e1];
    assert LedBy(nodes, [e1], 1) == [];
    assert LedBy(nodes, [e1], 2) == [];
    assert LedBy(nodes, edges, 0) == [e1];
    assert LedBy(nodes, edges, 1) == [e2];
    assert LedBy(nodes, edges, 2) == [];
    assert ViewFrom(nodes, edges, 3) == [];
    assert ViewFrom(nodes, edges, 2) == [];
    assert ViewFrom(nodes, edges, 1) == [e2];
  }

  lemma LastJoinSwap<A>(adds: seq<Edge<A>>, a: string, b: string)
    requires HasJoin(adds, a, b)
    ensures HasJoin(adds, b, a) && LastJoin(adds, b, a) == LastJoin(adds, a, b)
  {
    var k := LastJoin(adds, a, b);
    assert Joins(adds[k], b, a);
    var j := LastJoin(adds, b, a);
    assert Joins(adds[j], a, b);
  }

  /** Each entry of the built graph's edge view joins the ends of some
      `add_edge` call, carries the attributes of the last call for that
      pair, and starts at whichever end entered the node list first. */
  lemma ViewOfEntries<A>(adds: seq<Edge<A>>)
    ensures forall r :: r in ViewOf(adds) ==>
      HasJoin(adds, r.u, r.v) && r.attrs == adds[LastJoin(adds, r.u, r.v)].attrs &&
      r.u in NodesOf(adds) && r.v in NodesOf(adds) &&
      IndexOf(NodesOf(adds), r.u) <= IndexOf(NodesOf(adds), r.v)
  {
    var nodes, edges := NodesOf(adds), EdgesOf(adds);
    BuiltClosed(adds);
    EdgeViewEntries(nodes, edges);
    EdgesKeepLastAttrs(adds);
    forall r | r in ViewOf(adds)
      ensures HasJoin(adds, r.u, r.v) && r.attrs == adds[LastJoin(adds, r.u, r.v)].attrs
      ensures r.u in nodes && r.v in nodes && IndexOf(nodes, r.u) <= IndexOf(nodes, r.v)
    {
      var k :| 0 <= k < |edges| && r == Oriented(nodes, edges[k]);
      var e := edges[k];
      if r.u != e.u || r.v != e.v {
        LastJoinSwap(adds, e.u, e.v);
      }
    }
  }

  /** Every `add_edge` call's pair is reported by the edge view; a call with
      equal ends gives a self-loop. */
  lemma ViewOfCovers<A>(adds: seq<Edge<A>>)
    ensures forall k :: 0 <= k < |adds| ==> exists r :: r in ViewOf(adds) && Joins(r, adds[k].u, adds[k].v)
  {
    var nodes, edges := NodesOf(adds), EdgesOf(adds);
    BuiltClosed(adds);
    EdgesCoverAdds(adds);
    forall k | 0 <= k < |adds|
      ensures exists r :: r in ViewOf(adds) && Joins(r, adds[k].u, adds[k].v)
    {
      var m :| 0 <= m < |edges| && Joins(edges[m], adds[k].u, adds[k].v);
      EdgeViewHas(nodes, edges, m);
      assert Joins(Oriented(nodes, edges[m]), adds[k].u, adds[k].v);
    }
  }

  /** Repeated calls for one pair collapse: the edge view reports each pair
      once, so it has no more entries than there were calls. */
  lemma ViewOfCollapses<A>(adds: seq<Edge<A>>)
    ensures UniqueEnds(ViewOf(adds))
    ensures |ViewOf(adds)| <= |adds|
  {
    BuiltClosed(adds);
    EdgesUnique(adds);
    EdgeViewUnique(NodesOf(adds), EdgesOf(adds));
    EdgeViewLength(NodesOf(adds), EdgesOf(adds));
    EdgesAtMost(adds);
  }

  /** A networkx `Graph` as a mutable object. */
  class Graph<A> {
    var nodes: seq<string>
    var edges: seq<Edge<A>>

    ghost predicate Valid()
      reads this
    {
      Distinct(nodes) && UniqueEnds(edges) && Closed(nodes, edges)
    }

    /** `nx.Graph()`: no nodes, no edges. */
    constructor ()
      ensures Valid() && nodes == [] && edges == []
    {
      nodes := [];
      edges := [];
    }

    /** `G.add_edge(a, b, **attrs)`. */
    method AddEdge(a: string, b: string, attrs: A)
      requires Valid()
      modifies this
      ensures Valid()
      ensures nodes == WithNode(WithNode(old(nodes), a), b)
      ensures edges == WithEdge(old(edges), a, b, attrs)
    {
      WithEdgeKeepsUniqueEnds(edges, a, b, attrs);
      nodes := WithNode(WithNode(nodes, a), b);
      edges := WithEdge(edges, a, b, attrs);
    }

    /** `G.edges(data=True)`. */
    function Edges(): seq<Edge<A>>
      reads this
      requires Valid()
    {
      EdgeView(nodes, edges)
    }
  }

  /** One more `add_edge` call extends the graph built so far. */
  lemma BuildStep<A>(adds: seq<Edge<A>>, k: nat)
    requires k < |adds|
    ensures NodesOf(adds[..k + 1]) == WithNode(WithNode(NodesOf(adds[..k]), adds[k].u), adds[k].v)
    ensures EdgesOf(adds[..k + 1]) == WithEdge(EdgesOf(adds[..k]), adds[k].u, adds[k].v, adds[k].attrs)
  {
    var upTo := adds[..k + 1];
    assert upTo[..|upTo| - 1] == adds[..k];
    assert upTo[|upTo| - 1] == adds[k];
  }
}
