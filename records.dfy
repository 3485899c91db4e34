/** Values shared by both variants of the interaction pipeline: the
    optional/fallible wrappers that stand for Python's `None` and raised
    exceptions, the interaction record that both pair loops produce and
    both graph builders consume, and the figure both builders return. */
module Records {

  datatype Option<+T> = None | Some(value: T)

  /** A Python call either returns a value or raises; `Failure` carries the
      exception that escapes. */
  datatype Result<+T, +E> = Success(value: T) | Failure(error: E)

  /** A record `(drug1, drug2, details)`: the two drug names of a pair and the
      dictionary describing the interaction. */
  datatype Interaction = Interaction(drug1: string, drug2: string, details: map<string, string>)

  /** The record is about drugs `a` and `b`, in either order. */
  predicate Links(r: Interaction, a: string, b: string) {
    (r.drug1 == a && r.drug2 == b) || (r.drug1 == b && r.drug2 == a)
  }

  /** The record names drug `x`. */
  predicate Names(r: Interaction, x: string) {
    r.drug1 == x || r.drug2 == x
  }

  /** Python's `d.get(key, default)`. */
  function Get<V>(d: map<string, V>, key: string, default: V): V
  {
    if key in d then d[key] else default
  }

  /** An edge trace of the figure: the line between the points of the nodes
      `from` and `to`, its width and colour, and its hover text. The layout
      coordinates of the two points are not modelled; the node names stand
      for them. */
  datatype EdgeTrace = EdgeTrace(from: string, to: string, width: int, color: string, text: string)

  /** Two traces draw a line between the same two nodes. */
  predicate SameEnds(s: EdgeTrace, t: EdgeTrace) {
    (s.from == t.from && s.to == t.to) || (s.from == t.to && s.to == t.from)
  }

  /** The figure: one trace per edge, in the order of the edge view, and the
      text labels of the node trace, in the order of the node list. */
  datatype Figure = Figure(edgeTraces: seq<EdgeTrace>, nodeText: seq<string>)
}
