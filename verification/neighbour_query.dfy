/** The neighbour queries behind the union and intersection views: whether a
    node qualifies as a neighbour of a set of ids, and the per-selected-node
    groups of qualifying neighbours. */
module NeighbourQuery {
  import opened Wrappers
  import opened Seqs
  import opened GraphModel

  /** How many positions of `ns` hold one of `ids`. */
  function Matches(ns: seq<Id>, ids: seq<Id>): nat {
    if |ns| == 0 then 0 else (if ns[0] in ids then 1 else 0) + Matches(ns[1..], ids)
  }

  /** The counting loop: walk `ns`, add one for each id of `ids`, and answer
      true the moment the count, just increased, equals `threshold`. */
  function CountUntil(ns: seq<Id>, ids: seq<Id>, threshold: int, count: nat): bool {
    if |ns| == 0 then false
    else if ns[0] in ids then
      if count + 1 == threshold then true else CountUntil(ns[1..], ids, threshold, count + 1)
    else CountUntil(ns[1..], ids, threshold, count)
  }

  /** The loop answers true exactly when the threshold lies above the count
      it started from and within reach of the matches still ahead. */
  lemma {:induction false} CountUntilReachesThreshold(ns: seq<Id>, ids: seq<Id>, threshold: int, count: nat)
    ensures CountUntil(ns, ids, threshold, count) <==> count < threshold <= count + Matches(ns, ids)
    decreases |ns|
  {
    if |ns| > 0 {
      if ns[0] in ids {
        if count + 1 != threshold {
          CountUntilReachesThreshold(ns[1..], ids, threshold, count + 1);
        }
      } else {
        CountUntilReachesThreshold(ns[1..], ids, threshold, count);
      }
    }
  }

  /** The threshold the counting check uses: the given count when it is
      truthy, else the number of ids (a count of 0 stands for "not given"). */
  function Threshold(ids: seq<Id>, count: nat): nat {
    if count != 0 then count else |ids|
  }

  /** Whether the node `nodeId` qualifies as a neighbour of `neighbourIds`.
      With `mutualWithOrigin` it must be adjacent to one of them and to the
      origin; otherwise it must be adjacent to at least the threshold number
      of them, the threshold being reached by a count that starts at zero, so
      a threshold of zero never qualifies. An unknown node, or one without a
      neighbour set, throws. */
  function IsNeighbourWith(nodes: seq<Node>, nodeId: Id, neighbourIds: seq<Id>, mutualWithOrigin: bool,
                           origin: Id, count: nat): (r: Result<bool, Fault>)
    ensures r.Ok? <==> Resolvable(nodes, nodeId)
    ensures r.Ok? && mutualWithOrigin ==>
              (r.value <==> origin in Neighbours(nodes, nodeId)
                            && exists x :: x in Neighbours(nodes, nodeId) && x in neighbourIds)
    ensures r.Ok? && !mutualWithOrigin ==>
              (r.value <==> 1 <= Threshold(neighbourIds, count) <= Matches(Neighbours(nodes, nodeId), neighbourIds))
  {
    match FindNode(nodes, nodeId)
    case None => Err(UnknownNode(nodeId))
    case Some(node) =>
      if node.neighbours.None? then Err(NoNeighbourSet(nodeId))
      else
        var ns := node.neighbours.value;
        if mutualWithOrigin then
          Ok((exists x :: x in ns && x in neighbourIds) && origin in ns)
        else
          CountUntilReachesThreshold(ns, neighbourIds, Threshold(neighbourIds, count), 0);
          Ok(CountUntil(ns, neighbourIds, Threshold(neighbourIds, count), 0))
  }

  /** Which neighbours of a selected node make up its group. */
  datatype Rule =
    | AllNeighbours
    | AtLeastTwoOf(ids: seq<Id>)
    | OriginAndOneOf(ids: seq<Id>, origin: Id)

  /** What qualifying under a rule means for a node of the graph. */
  predicate Qualified(nodes: seq<Node>, x: Id, rule: Rule) {
    match rule
    case AllNeighbours => true
    case AtLeastTwoOf(ids) => Resolvable(nodes, x) && Matches(Neighbours(nodes, x), ids) >= 2
    case OriginAndOneOf(ids, origin) =>
      Resolvable(nodes, x) && origin in Neighbours(nodes, x)
      && exists y :: y in Neighbours(nodes, x) && y in ids
  }

  /** The neighbour check each rule makes: threshold 2 against the ids, or the
      origin check against the ids. */
  function Qualifies(nodes: seq<Node>, x: Id, rule: Rule): (r: Result<bool, Fault>)
    ensures rule.AllNeighbours? ==> r == Ok(true)
    ensures !rule.AllNeighbours? ==> (r.Ok? <==> Resolvable(nodes, x))
    ensures r.Ok? ==> (r.value <==> Qualified(nodes, x, rule))
  {
    match rule
    case AllNeighbours => Ok(true)
    case AtLeastTwoOf(ids) => IsNeighbourWith(nodes, x, ids, false, 0, 2)
    case OriginAndOneOf(ids, origin) => IsNeighbourWith(nodes, x, ids, true, origin, 0)
  }

  /** The candidates, in order, that are not selected and qualify; the first
      candidate whose check throws makes the whole filter throw. */
  function FilterGroup(nodes: seq<Node>, cands: seq<Id>, selected: seq<Id>, rule: Rule): (r: Result<seq<Id>, Fault>)
    ensures r.Ok? <==> forall x :: x in cands && x !in selected ==> Qualifies(nodes, x, rule).Ok?
    ensures r.Ok? ==> forall x :: x in r.value <==> x in cands && x !in selected && Qualified(nodes, x, rule)
    decreases |cands|
  {
    if |cands| == 0 then Ok([])
    else
      var x := cands[0];
      var keep :- if x in selected then Ok(false) else Qualifies(nodes, x, rule);
      var rest :- FilterGroup(nodes, cands[1..], selected, rule);
      Ok(if keep then [x] + rest else rest)
  }

  /** Every neighbour of `id` that is not selected is a node with a
      neighbour set, so the rule's check of it does not throw. */
  predicate CandidatesResolve(nodes: seq<Node>, id: Id, selected: seq<Id>) {
    forall x :: x in Neighbours(nodes, id) && x !in selected ==> Resolvable(nodes, x)
  }

  /** The group of one selected node: its whole neighbour set under
      `AllNeighbours`, else the qualifying neighbours that are not selected.
      Under the origin rule the origin's own group is empty and its neighbour
      set is not read. */
  function GroupOf(nodes: seq<Node>, id: Id, selected: seq<Id>, rule: Rule): (r: Result<seq<Id>, Fault>)
    ensures rule.OriginAndOneOf? && id == rule.origin ==> r == Ok([])
    ensures r.Ok? && !(rule.OriginAndOneOf? && id == rule.origin) ==>
              Resolvable(nodes, id)
              && forall x :: x in r.value <==>
                   x in Neighbours(nodes, id) && (rule.AllNeighbours? || (x !in selected && Qualified(nodes, x, rule)))
    ensures !(rule.OriginAndOneOf? && id == rule.origin) ==>
              (r.Ok? <==> Resolvable(nodes, id) && (rule.AllNeighbours? || CandidatesResolve(nodes, id, selected)))
  {
    if rule.OriginAndOneOf? && id == rule.origin then Ok([])
    else
      match FindNode(nodes, id)
      case None => Err(UnknownNode(id))
      case Some(node) =>
        if node.neighbours.None? then Err(NoNeighbourSet(id))
        else if rule.AllNeighbours? then Ok(node.neighbours.value)
        else FilterGroup(nodes, node.neighbours.value, selected, rule)
  }

  /** One group per id of `sel`, in order; the first group that throws makes
      the whole map throw. */
  function GroupsOf(nodes: seq<Node>, sel: seq<Id>, selected: seq<Id>, rule: Rule): (r: Result<seq<seq<Id>>, Fault>)
    ensures r.Ok? <==> forall k :: 0 <= k < |sel| ==> GroupOf(nodes, sel[k], selected, rule).Ok?
    ensures r.Ok? ==> |r.value| == |sel|
    ensures r.Ok? ==> forall k :: 0 <= k < |sel| ==> GroupOf(nodes, sel[k], selected, rule) == Ok(r.value[k])
    decreases |sel|
  {
    if |sel| == 0 then Ok([])
    else
      var first :- GroupOf(nodes, sel[0], selected, rule);
      var tail := sel[1..];
      var rest :- GroupsOf(nodes, tail, selected, rule);
      assert forall k :: 1 <= k < |sel| ==> sel[k] == tail[k - 1];
      Ok([first] + rest)
  }

  /** The selected nodes' full neighbour lists (the union view's groups). */
  function AllNeighbourGroups(g: Graph): (r: Result<seq<seq<Id>>, Fault>)
    ensures r.Ok? <==> forall k :: 0 <= k < |g.selectedNodes| ==> Resolvable(g.nodes, g.selectedNodes[k])
    ensures r.Ok? ==> |r.value| == |g.selectedNodes|
    ensures r.Ok? ==> forall k :: 0 <= k < |r.value| ==>
              forall x :: x in r.value[k] <==> x in Neighbours(g.nodes, g.selectedNodes[k])
  {
    GroupsOf(g.nodes, g.selectedNodes, g.selectedNodes, AllNeighbours)
  }

  /** For each selected node, its neighbours that are not selected and are
      adjacent to at least two selected nodes. */
  function GetMutualNeighbours(g: Graph): (r: Result<seq<seq<Id>>, Fault>)
    ensures r.Ok? <==> forall k :: 0 <= k < |g.selectedNodes| ==>
                         Resolvable(g.nodes, g.selectedNodes[k]) && CandidatesResolve(g.nodes, g.selectedNodes[k], g.selectedNodes)
    ensures r.Ok? ==> |r.value| == |g.selectedNodes|
    ensures r.Ok? ==> forall k :: 0 <= k < |r.value| ==>
              forall x :: x in r.value[k] <==>
                x in Neighbours(g.nodes, g.selectedNodes[k]) && x !in g.selectedNodes
                && Resolvable(g.nodes, x) && Matches(Neighbours(g.nodes, x), g.selectedNodes) >= 2
  {
    GroupsOf(g.nodes, g.selectedNodes, g.selectedNodes, AtLeastTwoOf(g.selectedNodes))
  }

  /** For each selected node other than the origin, its neighbours that are
      not selected and are adjacent to the origin and to some selected node
      other than the origin; the origin's own group is empty. With nothing
      selected the result is empty even without an origin. */
  function GetMutualNeighboursWithOrigin(g: Graph, origin: Option<Id>): (r: Result<seq<seq<Id>>, Fault>)
    ensures |g.selectedNodes| == 0 ==> r == Ok([])
    ensures |g.selectedNodes| > 0 && origin.None? ==> r == Err(NoOrigin)
    ensures |g.selectedNodes| > 0 && origin.Some? ==>
              (r.Ok? <==> forall k :: 0 <= k < |g.selectedNodes| && g.selectedNodes[k] != origin.value ==>
                            Resolvable(g.nodes, g.selectedNodes[k]) && CandidatesResolve(g.nodes, g.selectedNodes[k], g.selectedNodes))
    ensures r.Ok? ==> |r.value| == |g.selectedNodes|
    ensures r.Ok? && origin.Some? ==> forall k :: 0 <= k < |r.value| && g.selectedNodes[k] == origin.value ==> r.value[k] == []
    ensures r.Ok? && origin.Some? ==> forall k :: 0 <= k < |r.value| ==>
              forall x :: x in r.value[k] <==>
                g.selectedNodes[k] != origin.value
                && x in Neighbours(g.nodes, g.selectedNodes[k]) && x !in g.selectedNodes
                && Resolvable(g.nodes, x) && origin.value in Neighbours(g.nodes, x)
                && exists y :: y in Neighbours(g.nodes, x) && y in g.selectedNodes && y != origin.value
  {
    if |g.selectedNodes| == 0 then Ok([])
    else if origin.None? then Err(NoOrigin)
    else
      var o := origin.value;
      GroupsOf(g.nodes, g.selectedNodes, g.selectedNodes, OriginAndOneOf(Without(g.selectedNodes, o), o))
  }

  /** Every group lies inside its selected node's neighbour set, so a
      mutual group never holds more than the union view's group. */
  lemma MutualGroupsWithinNeighbourSets(g: Graph, origin: Option<Id>, k: nat)
    requires k < |g.selectedNodes|
    ensures GetMutualNeighbours(g).Ok? ==>
              forall x :: x in GetMutualNeighbours(g).value[k] ==> x in Neighbours(g.nodes, g.selectedNodes[k])
    ensures GetMutualNeighboursWithOrigin(g, origin).Ok? ==>
              forall x :: x in GetMutualNeighboursWithOrigin(g, origin).value[k] ==> x in Neighbours(g.nodes, g.selectedNodes[k])
  {
  }
}
