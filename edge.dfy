/**
 * Typed edges of the dependency graph: four edge kinds, each with a
 * distinct textual tag, and an immutable (kind, source, dest) triple.
 */
module Edges {
  import opened Wrappers

  /** The four kinds of dependency between two graph vertices. */
  datatype EdgeType = Import | Declare | Refer | Call

  /** The textual tag each kind carries. */
  function Tag(t: EdgeType): (s: string)
    ensures s != ""
    ensures FromTag(s) == Some(t)
  {
    match t
    case Import => "import"
    case Declare => "declare"
    case Refer => "refer"
    case Call => "call"
  }

  /** The kind a tag names, if any: the inverse of `Tag`. Exactly four tags name a kind. */
  function FromTag(s: string): (r: Option<EdgeType>)
    ensures r.Some? <==> s in {"import", "declare", "refer", "call"}
  {
    if s == "import" then Some(Import)
    else if s == "declare" then Some(Declare)
    else if s == "refer" then Some(Refer)
    else if s == "call" then Some(Call)
    else None
  }

  /** Two kinds share a tag only if they are the same kind. */
  lemma TagsDistinct(a: EdgeType, b: EdgeType)
    ensures Tag(a) == Tag(b) <==> a == b
  {
    if Tag(a) == Tag(b) {
      assert FromTag(Tag(a)) == Some(a) && FromTag(Tag(b)) == Some(b);
    }
  }

  /** A tag that names a kind is that kind's own tag. */
  lemma TagRoundTrip(s: string)
    ensures FromTag(s).Some? ==> Tag(FromTag(s).value) == s
  {
  }

  /**
   * `Edge(type, source, dest)`. A datatype value: two edges are equal
   * exactly when all three fields are, so adding an edge equal to one
   * already in a set leaves the set as it was.
   */
  datatype Edge<V> = Edge(kind: EdgeType, source: V, dest: V)

  /** Edge equality is field-wise, and re-inserting an equal edge changes nothing. */
  lemma EdgeIdentity<V>(e: Edge<V>, f: Edge<V>, s: set<Edge<V>>)
    ensures e == f <==> (e.kind == f.kind && e.source == f.source && e.dest == f.dest)
    ensures e in s && e == f ==> s + {f} == s
  {
  }
}
