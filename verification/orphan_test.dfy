/** The orphan test as the store writes it. The test asks for the neighbour
    value's `length`, while elsewhere the same value is used as a Set (its
    `has` method). A Set has no `length`, so for a Set the test only catches
    an absent value: a node whose neighbour Set is empty is not an orphan as
    written. Reset and component isolation both make this test.
    `GraphModel.IsOrphan` is the test as intended, and the filters use it. */
module OrphanTest {
  import opened Wrappers
  import opened GraphModel
  import opened Filters

  /** The neighbour value of a node object: absent, an array, or a Set. Both
      collections are listed in insertion order. */
  datatype JsNeighbours =
    | Absent
    | JsArray(items: seq<Id>)
    | JsSet(members: seq<Id>)

  /** What `neighbours.length` evaluates to; a Set has no such property. */
  function Length(v: JsNeighbours): (r: Option<nat>)
    ensures r.Some? <==> v.JsArray?
  {
    match v
    case JsArray(items) => Some(|items|)
    case _ => None
  }

  /** The neighbour ids the value holds, absent as None. */
  function Contents(v: JsNeighbours): (r: Option<seq<Id>>)
    ensures r.None? <==> v.Absent?
  {
    match v
    case Absent => None
    case JsArray(items) => Some(items)
    case JsSet(members) => Some(members)
  }

  /** The test as written: the value is falsy, or its length is 0. */
  predicate OrphanAsWritten(v: JsNeighbours) {
    v.Absent? || Length(v) == Some(0)
  }

  /** The node a neighbour value belongs to, with every other field fixed. */
  function WithNeighbours(n: Node, v: JsNeighbours): (r: Node)
    ensures r.neighbours == Contents(v) && r.id == n.id
  {
    n.(neighbours := Contents(v))
  }

  /** The reset's node visibility as written. */
  function ResetVisibleAsWritten(v: JsNeighbours, orphanNodeVisibility: bool): bool {
    if OrphanAsWritten(v) then orphanNodeVisibility else true
  }

  /** The written test agrees with the intended one on arrays and on an
      absent value, and misses exactly the empty Set. */
  lemma OrphanAsWrittenMissesEmptySet(n: Node, v: JsNeighbours)
    ensures OrphanAsWritten(v) != IsOrphan(WithNeighbours(n, v)) <==> v == JsSet([])
  {
    if v.JsSet? && v != JsSet([]) {
      assert |v.members| != 0;
    }
  }

  /** With orphans hidden, the written reset shows a node whose neighbour
      Set is empty, where the intended rule hides it; on every other value
      the two agree. */
  lemma ResetAsWrittenShowsEmptySetNode(n: Node, v: JsNeighbours, orphanNodeVisibility: bool)
    ensures ResetVisibleAsWritten(v, orphanNodeVisibility) != DefaultVisible(WithNeighbours(n, v), orphanNodeVisibility)
            <==> v == JsSet([]) && !orphanNodeVisibility
  {
    OrphanAsWrittenMissesEmptySet(n, v);
  }

  /** The isolation's node visibility as written: a member of the component
      takes the written orphan test, any other node hides. */
  function IsolationVisibleAsWritten(n: Node, v: JsNeighbours, componentId: int, orphanNodeVisibility: bool): bool {
    InComponent(n, componentId) && ResetVisibleAsWritten(v, orphanNodeVisibility)
  }

  /** With orphans hidden, the written isolation shows a component member
      whose neighbour Set is empty, where the component view of the model
      hides it; on every other node the two agree. */
  lemma IsolationAsWrittenShowsEmptySetNode(n: Node, v: JsNeighbours, componentId: int, orphanNodeVisibility: bool)
    ensures var m := WithNeighbours(n, v);
            IsolationVisibleAsWritten(n, v, componentId, orphanNodeVisibility)
              != ComponentNodes([m], componentId, orphanNodeVisibility)[0].visible
            <==> InComponent(n, componentId) && v == JsSet([]) && !orphanNodeVisibility
  {
    var m := WithNeighbours(n, v);
    var shown := ComponentNodes([m], componentId, orphanNodeVisibility);
    assert shown[0] in shown;
    assert InComponent(m, componentId) == InComponent(n, componentId);
    ResetAsWrittenShowsEmptySetNode(n, v, orphanNodeVisibility);
  }
}
