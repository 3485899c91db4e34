/** `create_interaction_graph` of `ai_integration_code.py`: a network graph
    with one edge per interaction record, styled by the record's severity,
    drawn as one line trace per edge and one labelled point per drug. */
module AiGraph {
  import opened Records
  import opened NxGraph
  import AiIntegration

  /** The attributes `create_interaction_graph` gives an edge. */
  datatype EdgeStyle = EdgeStyle(weight: int, color: string, description: string)

  const SeverityColors: map<string, string> :=
    map["high" := "red", "moderate" := "orange", "mild" := "yellow", "none" := "green"]

  const SeverityWeights: map<string, int> :=
    map["high" := 4, "moderate" := 3, "mild" := 2, "none" := 1]

  /** The attributes of the edge for a record with these details: the
      severity table, where a missing severity counts as `"none"` and a
      severity outside the table is drawn gray with width 1, and the
      description, "No details" when it is missing. */
  function StyleOf(details: map<string, string>): (style: EdgeStyle)
    ensures var severity := if "severity" in details then details["severity"] else "none";
      (severity == "high" ==> style.color == "red" && style.weight == 4) &&
      (severity == "moderate" ==> style.color == "orange" && style.weight == 3) &&
      (severity == "mild" ==> style.color == "yellow" && style.weight == 2) &&
      (severity == "none" ==> style.color == "green" && style.weight == 1) &&
      (severity !in {"high", "moderate", "mild", "none"} ==> style.color == "gray" && style.weight == 1)
    ensures style.description == if "description" in details then details["description"] else "No details"
  {
    var severity := Get(details, "severity", "none");
    EdgeStyle(Get(SeverityWeights, severity, 1), Get(SeverityColors, severity, "gray"), Get(details, "description", "No details"))
  }

  /** The `add_edge` calls of the loop, one per record. */
  function Adds(interactions: seq<Interaction>): (r: seq<Edge<EdgeStyle>>)
    ensures |r| == |interactions|
  {
    seq(|interactions|, k requires 0 <= k < |interactions| =>
      Edge(interactions[k].drug1, interactions[k].drug2, StyleOf(interactions[k].details)))
  }

  /** The trace drawn for an edge as the edge view reports it. */
  function TraceOf(e: Edge<EdgeStyle>): EdgeTrace {
    EdgeTrace(e.u, e.v, e.attrs.weight, e.attrs.color, e.u + " - " + e.v + ": " + e.attrs.description)
  }

  /** The traces drawn for an edge view, one per edge, in its order. */
  function Traces(view: seq<Edge<EdgeStyle>>): (r: seq<EdgeTrace>)
    ensures |r| == |view|
  {
    seq(|view|, k requires 0 <= k < |view| => TraceOf(view[k]))
  }

  /** The figure for the graph built from `interactions`. */
  function FigureOf(interactions: seq<Interaction>): Figure {
    var adds := Adds(interactions);
    Figure(Traces(ViewOf(adds)), NodesOf(adds))
  }

  /** The loop over `G.edges(data=True)`: one trace per edge, the hover text
      naming both ends and the description. */
  method DrawEdges(view: seq<Edge<EdgeStyle>>) returns (edgeTraces: seq<EdgeTrace>)
    ensures edgeTraces == Traces(view)
  {
    edgeTraces := [];
    var m := 0;
    while m < |view|
      invariant m <= |view|
      invariant |edgeTraces| == m
      invariant forall i :: 0 <= i < m ==> edgeTraces[i] == TraceOf(view[i])
    {
      var edge := view[m];
      edgeTraces := edgeTraces + [EdgeTrace(edge.u, edge.v, edge.attrs.weight, edge.attrs.color,
                                            edge.u + " - " + edge.v + ": " + edge.attrs.description)];
      m := m + 1;
    }
  }

  /** The loop over `G.nodes()`: one label per node, in node order. */
  method LabelNodes(nodes: seq<string>) returns (nodeText: seq<string>)
    ensures nodeText == nodes
  {
    nodeText := [];
    var n := 0;
    while n < |nodes|
      invariant n <= |nodes|
      invariant nodeText == nodes[..n]
    {
      nodeText := nodeText + [nodes[n]];
      n := n + 1;
    }
  }

  /** `create_interaction_graph(interactions)`. */
  method CreateInteractionGraph(interactions: seq<Interaction>) returns (fig: Figure)
    ensures fig == FigureOf(interactions)
  {
    var g := new Graph<EdgeStyle>();
    ghost var adds := Adds(interactions);
    var k := 0;
    while k < |interactions|
      invariant k <= |interactions|
      invariant fresh(g) && g.Valid()
      invariant g.nodes == NodesOf(adds[..k]) && g.edges == EdgesOf(adds[..k])
    {
      var drug1, drug2, details := interactions[k].drug1, interactions[k].drug2, interactions[k].details;
      var severity := Get(details, "severity", "none");
      var description := Get(details, "description", "No details");
      var color := Get(SeverityColors, severity, "gray");
      var weight := Get(SeverityWeights, severity, 1);
      assert adds[k] == Edge(drug1, drug2, EdgeStyle(weight, color, description));
      BuildStep(adds, k);
      g.AddEdge(drug1, drug2, EdgeStyle(weight, color, description));
      k := k + 1;
    }
    assert adds[..k] == adds;
    var edgeTraces := DrawEdges(g.Edges());
    var nodeText := LabelNodes(g.nodes);
    fig := Figure(edgeTraces, nodeText);
  }

  /** The `add_edge` call for a record joins exactly the pairs the record
      is about. */
  lemma AddsLink(interactions: seq<Interaction>, k: nat, a: string, b: string)
    requires k < |interactions|
    ensures Joins(Adds(interactions)[k], a, b) <==> Links(interactions[k], a, b)
    ensures Adds(interactions)[k].attrs == StyleOf(interactions[k].details)
  {
  }

  /** The node labels: every drug some record names, each once. */
  lemma FigureNodes(interactions: seq<Interaction>)
    ensures Distinct(FigureOf(interactions).nodeText)
    ensures forall x :: x in FigureOf(interactions).nodeText <==>
      exists k :: 0 <= k < |interactions| && Names(interactions[k], x)
  {
    var adds := Adds(interactions);
    NodesAreEndpoints(adds);
    forall x
      ensures Endpoint(adds, x) <==> exists k :: 0 <= k < |interactions| && Names(interactions[k], x)
    {
      if Endpoint(adds, x) {
        var k :| 0 <= k < |adds| && (adds[k].u == x || adds[k].v == x);
        assert Names(interactions[k], x);
      }
      if exists k :: 0 <= k < |interactions| && Names(interactions[k], x) {
        var k :| 0 <= k < |interactions| && Names(interactions[k], x);
        assert adds[k].u == x || adds[k].v == x;
      }
    }
  }

  /** Line `t` is the one for record `k`: it joins that record's drugs, no
      later record is about the same pair, and its width, colour and hover
      text come from that record's details. */
  predicate DrawnFrom(t: EdgeTrace, interactions: seq<Interaction>, k: nat)
    requires k < |interactions|
  {
    var style := StyleOf(interactions[k].details);
    Links(interactions[k], t.from, t.to) &&
    (forall j :: k < j < |interactions| ==> !Links(interactions[j], t.from, t.to)) &&
    t.width == style.weight && t.color == style.color &&
    t.text == t.from + " - " + t.to + ": " + style.description
  }

  /** Each line joins the drugs of a record and is styled by the LAST record
      about that pair: its width and colour come from that record's severity
      and its hover text names both drugs and that record's description. The
      line starts at whichever drug was named first. */
  lemma FigureTraces(interactions: seq<Interaction>)
    ensures forall t :: t in FigureOf(interactions).edgeTraces ==>
      exists k :: 0 <= k < |interactions| && DrawnFrom(t, interactions, k)
    ensures forall t :: t in FigureOf(interactions).edgeTraces ==>
      var nodes := FigureOf(interactions).nodeText;
      t.from in nodes && t.to in nodes && IndexOf(nodes, t.from) <= IndexOf(nodes, t.to)
  {
    var fig := FigureOf(interactions);
    forall t | t in fig.edgeTraces
      ensures exists k :: 0 <= k < |interactions| && DrawnFrom(t, interactions, k)
      ensures t.from in fig.nodeText && t.to in fig.nodeText && IndexOf(fig.nodeText, t.from) <= IndexOf(fig.nodeText, t.to)
    {
      var i :| 0 <= i < |fig.edgeTraces| && fig.edgeTraces[i] == t;
      TraceDrawn(interactions, i);
    }
  }

  lemma TraceDrawn(interactions: seq<Interaction>, i: nat)
    requires i < |FigureOf(interactions).edgeTraces|
    ensures var fig := FigureOf(interactions); var t := fig.edgeTraces[i];
      (exists k :: 0 <= k < |interactions| && DrawnFrom(t, interactions, k)) &&
      t.from in fig.nodeText && t.to in fig.nodeText && IndexOf(fig.nodeText, t.from) <= IndexOf(fig.nodeText, t.to)
  {
    var adds := Adds(interactions);
    var view := ViewOf(adds);
    var t := FigureOf(interactions).edgeTraces[i];
    var r := view[i];
    ViewOfEntries(adds);
    assert t == TraceOf(r) && r in view;
    var k := LastJoin(adds, r.u, r.v);
    AddsLink(interactions, k, r.u, r.v);
    forall j | k < j < |interactions|
      ensures !Links(interactions[j], t.from, t.to)
    {
      AddsLink(interactions, j, r.u, r.v);
    }
    assert DrawnFrom(t, interactions, k);
  }

  /** Every record is drawn: some line joins its two drugs, a self-loop
      when they are the same name. */
  lemma FigureCoversRecords(interactions: seq<Interaction>)
    ensures forall k :: 0 <= k < |interactions| ==>
      exists t :: t in FigureOf(interactions).edgeTraces && Links(interactions[k], t.from, t.to)
  {
    var adds := Adds(interactions);
    var view := ViewOf(adds);
    var traces := FigureOf(interactions).edgeTraces;
    ViewOfCovers(adds);
    forall k | 0 <= k < |interactions|
      ensures exists t :: t in traces && Links(interactions[k], t.from, t.to)
    {
      var r :| r in view && Joins(r, adds[k].u, adds[k].v);
      var i :| 0 <= i < |view| && view[i] == r;
      assert traces[i] == TraceOf(r);
    }
  }

  /** Records about the same pair share one line: no two lines join the
      same drugs, and there are no more lines than records. */
  lemma FigureCollapsesPairs(interactions: seq<Interaction>)
    ensures forall a, b :: 0 <= a < b < |FigureOf(interactions).edgeTraces| ==>
      !SameEnds(FigureOf(interactions).edgeTraces[a], FigureOf(interactions).edgeTraces[b])
    ensures |FigureOf(interactions).edgeTraces| <= |interactions|
  {
    var adds := Adds(interactions);
    var view := ViewOf(adds);
    var traces := FigureOf(interactions).edgeTraces;
    ViewOfCollapses(adds);
    forall a, b | 0 <= a < b < |traces|
      ensures !SameEnds(traces[a], traces[b])
    {
      assert traces[a] == TraceOf(view[a]) && traces[b] == TraceOf(view[b]);
      assert !Joins(view[b], view[a].u, view[a].v);
    }
  }

  /** The style of the record the pair loop keeps: a red line of width 4
      described as a potential conflict. */
  lemma ConflictStyle()
    ensures StyleOf(AiIntegration.ConflictDetails) ==
      EdgeStyle(4, "red", AiIntegration.ConflictDetails["description"])
  {
    var details := AiIntegration.ConflictDetails;
    assert details["severity"] == "high";
  }

  /** The graph for the one record the pair loop keeps when two different
      drugs are flagged: both drugs as nodes, in the record's order, and one
      red line of width 4 between them. */
  lemma OneConflictFigure(a: string, b: string)
    requires a != b
    ensures FigureOf([Interaction(a, b, AiIntegration.ConflictDetails)]) ==
      Figure([EdgeTrace(a, b, 4, "red", a + " - " + b + ": " + AiIntegration.ConflictDetails["description"])], [a, b])
  {
    var details := AiIntegration.ConflictDetails;
    var style := EdgeStyle(4, "red", details["description"]);
    var e := Edge(a, b, style);
    assert Adds([Interaction(a, b, details)]) == [e] by {
      ConflictStyle();
    }
    assert ViewOf([e]) == [e] && NodesOf([e]) == [a, b] by {
      SingleEdge(e);
    }
    assert Traces([e]) == [TraceOf(e)];
  }

  /** Two conflict records sharing a drug, `a`–`b` then `b`–`c`: three
      nodes in the order the drugs are first named, and two red lines of
      width 4, one per record. */
  lemma TwoConflictsFigure(a: string, b: string, c: string)
    requires a != b && b != c && a != c
    ensures var text := AiIntegration.ConflictDetails["description"];
      FigureOf([Interaction(a, b, AiIntegration.ConflictDetails), Interaction(b, c, AiIntegration.ConflictDetails)]) ==
      Figure([EdgeTrace(a, b, 4, "red", a + " - " + b + ": " + text),
              EdgeTrace(b, c, 4, "red", b + " - " + c + ": " + text)], [a, b, c])
  {
    var details := AiIntegration.ConflictDetails;
    var style := EdgeStyle(4, "red", details["description"]);
    var e1, e2 := Edge(a, b, style), Edge(b, c, style);
    var records := [Interaction(a, b, details), Interaction(b, c, details)];
    assert Adds(records) == [e1, e2] by {
      ConflictStyle();
    }
    assert ViewOf([e1, e2]) == [e1, e2] && NodesOf([e1, e2]) == [a, b, c] by {
      TwoEdgePath(e1, e2);
    }
    assert Traces([e1, e2]) == [TraceOf(e1), TraceOf(e2)];
  }
}
