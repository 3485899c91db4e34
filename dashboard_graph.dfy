/** `create_interaction_graph` of `dashboard.py`: a network graph with one
    edge per interaction record, carrying the record's severity and details,
    drawn as one line trace per edge, coloured by severity with a fixed
    width, and one labelled point per drug. */
module DashboardGraph {
  import opened Records
  import opened NxGraph
  import AiGraph

  /** The attributes `create_interaction_graph` gives an edge: the severity
      (stored under the name `weight`) and the record's details. */
  datatype EdgeData = EdgeData(weight: string, details: map<string, string>)

  /** The width of every line. */
  const LineWidth: int := 2

  /** The colour of a line for a severity: red, orange and yellow for
      `"high"`, `"moderate"` and `"mild"`, green for anything else. */
  function SeverityColor(severity: string): (color: string)
    ensures color == "red" <==> severity == "high"
    ensures color == "orange" <==> severity == "moderate"
    ensures color == "yellow" <==> severity == "mild"
    ensures color == "green" <==> severity !in {"high", "moderate", "mild"}
  {
    if severity == "high" then "red"
    else if severity == "moderate" then "orange"
    else if severity == "mild" then "yellow"
    else "green"
  }

  /** The `add_edge` calls of the loop, one per record; a missing severity
      is stored as `"unknown"`. */
  function Adds(interactions: seq<Interaction>): (r: seq<Edge<EdgeData>>)
    ensures |r| == |interactions|
  {
    seq(|interactions|, k requires 0 <= k < |interactions| =>
      Edge(interactions[k].drug1, interactions[k].drug2,
           EdgeData(Get(interactions[k].details, "severity", "unknown"), interactions[k].details)))
  }

  /** The trace drawn for an edge as the edge view reports it. */
  function TraceOf(e: Edge<EdgeData>): EdgeTrace {
    EdgeTrace(e.u, e.v, LineWidth, SeverityColor(e.attrs.weight),
              e.u + " - " + e.v + ": " + Get(e.attrs.details, "description", "No details"))
  }

  /** The traces drawn for an edge view, one per edge, in its order. */
  function Traces(view: seq<Edge<EdgeData>>): (r: seq<EdgeTrace>)
    ensures |r| == |view|
  {
    seq(|view|, k requires 0 <= k < |view| => TraceOf(view[k]))
  }

  /** The figure for the graph built from `interactions`. */
  function FigureOf(interactions: seq<Interaction>): Figure {
    var adds := Adds(interactions);
    Figure(Traces(ViewOf(adds)), NodesOf(adds))
  }

  /** The loop over `G.edges(data=True)`: the colour picked by the if-chain,
      the fixed width, and the hover text naming both ends and the
      description. */
  method DrawEdges(view: seq<Edge<EdgeData>>) returns (edgeTrace: seq<EdgeTrace>)
    ensures edgeTrace == Traces(view)
  {
    edgeTrace := [];
    var m := 0;
    while m < |view|
      invariant m <= |view|
      invariant |edgeTrace| == m
      invariant forall i :: 0 <= i < m ==> edgeTrace[i] == TraceOf(view[i])
    {
      var edge := view[m];
      var severity := edge.attrs.weight;
      var color := "green";
      if severity == "high" {
        color := "red";
      } else if severity == "moderate" {
        color := "orange";
      } else if severity == "mild" {
        color := "yellow";
      }
      edgeTrace := edgeTrace + [EdgeTrace(edge.u, edge.v, 2, color,
                                          edge.u + " - " + edge.v + ": " + Get(edge.attrs.details, "description", "No details"))];
      m := m + 1;
    }
  }

  /** `create_interaction_graph(interactions)`. */
  method CreateInteractionGraph(interactions: seq<Interaction>) returns (fig: Figure)
    ensures fig == FigureOf(interactions)
  {
    var g := new Graph<EdgeData>();
    ghost var adds := Adds(interactions);
    var k := 0;
    while k < |interactions|
      invariant k <= |interactions|
      invariant fresh(g) && g.Valid()
      invariant g.nodes == NodesOf(adds[..k]) && g.edges == EdgesOf(adds[..k])
    {
      var drug1, drug2, details := interactions[k].drug1, interactions[k].drug2, interactions[k].details;
      var severity := Get(details, "severity", "unknown");
      assert adds[k] == Edge(drug1, drug2, EdgeData(severity, details));
      BuildStep(adds, k);
      g.AddEdge(drug1, drug2, EdgeData(severity, details));
      k := k + 1;
    }
    assert adds[..k] == adds;
    var edgeTrace := DrawEdges(g.Edges());
    // The node loop extends the text tuple by one name per node, which is
    // the loop of `AiGraph.LabelNodes`.
    var text := AiGraph.LabelNodes(g.nodes);
    fig := Figure(edgeTrace, text);
  }

  /** The `add_edge` call for a record joins exactly the pairs the record
      is about, and stores its details. */
  lemma AddsLink(interactions: seq<Interaction>, k: nat, a: string, b: string)
    requires k < |interactions|
    ensures Joins(Adds(interactions)[k], a, b) <==> Links(interactions[k], a, b)
    ensures Adds(interactions)[k].attrs.details == interactions[k].details
  {
  }

  /** The colour of a record's line: a missing severity reads `"unknown"`
      and so is drawn green, like every severity outside the chain. */
  function RecordColor(details: map<string, string>): (color: string)
    ensures "severity" !in details ==> color == "green"
    ensures "severity" in details ==> color == SeverityColor(details["severity"])
  {
    SeverityColor(Get(details, "severity", "unknown"))
  }

  /** The node labels: every drug some record names, each once. */
  lemma FigureNodes(interactions: seq<Interaction>)
    ensures Distinct(FigureOf(interactions).nodeText)
    ensures forall x :: x in FigureOf(interactions).nodeText <==>
      exists k :: 0 <= k < |interactions| && Names(interactions[k], x)
  {
    var adds := Adds(interactions);
    NodesAreEndpoints(adds);
    forall x
      ensures Endpoint(adds, x) <==> exists k :: 0 <= k < |interactions| && Names(interactions[k], x)
    {
      if Endpoint(adds, x) {
        var k :| 0 <= k < |adds| && (adds[k].u == x || adds[k].v == x);
        assert Names(interactions[k], x);
      }
      if exists k :: 0 <= k < |interactions| && Names(interactions[k], x) {
        var k :| 0 <= k < |interactions| && Names(interactions[k], x);
        assert adds[k].u == x || adds[k].v == x;
      }
    }
  }

  /** Line `t` is the one for record `k`: it joins that record's drugs, no
      later record is about the same pair, it has the fixed width, the
      colour of that record's severity, and hover text naming both drugs and
      that record's description. */
  predicate DrawnFrom(t: EdgeTrace, interactions: seq<Interaction>, k: nat)
    requires k < |interactions|
  {
    var details := interactions[k].details;
    Links(interactions[k], t.from, t.to) &&
    (forall j :: k < j < |interactions| ==> !Links(interactions[j], t.from, t.to)) &&
    t.width == 2 && t.color == RecordColor(details) &&
    t.text == t.from + " - " + t.to + ": " + (if "description" in details then details["description"] else "No details")
  }

  /** Each line joins the drugs of a record and is drawn from the LAST
      record about that pair; it starts at whichever drug was named first. */
  lemma FigureTraces(interactions: seq<Interaction>)
    ensures forall t :: t in FigureOf(interactions).edgeTraces ==>
      exists k :: 0 <= k < |interactions| && DrawnFrom(t, interactions, k)
    ensures forall t :: t in FigureOf(interactions).edgeTraces ==>
      var nodes := FigureOf(interactions).nodeText;
      t.from in nodes && t.to in nodes && IndexOf(nodes, t.from) <= IndexOf(nodes, t.to)
  {
    var fig := FigureOf(interactions);
    forall t | t in fig.edgeTraces
      ensures exists k :: 0 <= k < |interactions| && DrawnFrom(t, interactions, k)
      ensures t.from in fig.nodeText && t.to in fig.nodeText && IndexOf(fig.nodeText, t.from) <= IndexOf(fig.nodeText, t.to)
    {
      var i :| 0 <= i < |fig.edgeTraces| && fig.edgeTraces[i] == t;
      TraceDrawn(interactions, i);
    }
  }

  lemma TraceDrawn(interactions: seq<Interaction>, i: nat)
    requires i < |FigureOf(interactions).edgeTraces|
    ensures var fig := FigureOf(interactions); var t := fig.edgeTraces[i];
      (exists k :: 0 <= k < |interactions| && DrawnFrom(t, interactions, k)) &&
      t.from in fig.nodeText && t.to in fig.nodeText && IndexOf(fig.nodeText, t.from) <= IndexOf(fig.nodeText, t.to)
  {
    var adds := Adds(interactions);
    var view := ViewOf(adds);
    var t := FigureOf(interactions).edgeTraces[i];
    var r := view[i];
    ViewOfEntries(adds);
    assert t == TraceOf(r) && r in view;
    var k := LastJoin(adds, r.u, r.v);
    AddsLink(interactions, k, r.u, r.v);
    forall j | k < j < |interactions|
      ensures !Links(interactions[j], t.from, t.to)
    {
      AddsLink(interactions, j, r.u, r.v);
    }
    assert DrawnFrom(t, interactions, k);
  }

  /** Every record is drawn: some line joins its two drugs, a self-loop
      when they are the same name. */
  lemma FigureCoversRecords(interactions: seq<Interaction>)
    ensures forall k :: 0 <= k < |interactions| ==>
      exists t :: t in FigureOf(interactions).edgeTraces && Links(interactions[k], t.from, t.to)
  {
    var adds := Adds(interactions);
    var view := ViewOf(adds);
    var traces := FigureOf(interactions).edgeTraces;
    ViewOfCovers(adds);
    forall k | 0 <= k < |interactions|
      ensures exists t :: t in traces && Links(interactions[k], t.from, t.to)
    {
      var r :| r in view && Joins(r, adds[k].u, adds[k].v);
      var i :| 0 <= i < |view| && view[i] == r;
      assert traces[i] == TraceOf(r);
    }
  }

  /** Records about the same pair share one line: no two lines join the
      same drugs, and there are no more lines than records. */
  lemma FigureCollapsesPairs(interactions: seq<Interaction>)
    ensures forall a, b :: 0 <= a < b < |FigureOf(interactions).edgeTraces| ==>
      !SameEnds(FigureOf(interactions).edgeTraces[a], FigureOf(interactions).edgeTraces[b])
    ensures |FigureOf(interactions).edgeTraces| <= |interactions|
  {
    var adds := Adds(interactions);
    var view := ViewOf(adds);
    var traces := FigureOf(interactions).edgeTraces;
    ViewOfCollapses(adds);
    forall a, b | 0 <= a < b < |traces|
      ensures !SameEnds(traces[a], traces[b])
    {
      assert traces[a] == TraceOf(view[a]) && traces[b] == TraceOf(view[b]);
      assert !Joins(view[b], view[a].u, view[a].v);
    }
  }

  /** The two builders colour a record alike when its severity is one of
      `"high"`, `"moderate"` or `"mild"`, or is missing; any other severity
      is gray in `ai_integration_code.py` but green here. */
  lemma ColorsAgree(details: map<string, string>)
    ensures var severity := if "severity" in details then details["severity"] else "none";
      (severity in {"high", "moderate", "mild", "none"} ==> RecordColor(details) == AiGraph.StyleOf(details).color)
    ensures "severity" in details && details["severity"] !in {"high", "moderate", "mild", "none"} ==>
      AiGraph.StyleOf(details).color == "gray" && RecordColor(details) == "green"
  {
  }
}
