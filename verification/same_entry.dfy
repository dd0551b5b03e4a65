/** The same-entry view: starting from the selected nodes, or from the origin,
    walk outwards along the cached neighbour objects and show every node that
    shares an entry with the starting nodes. Only nodes that share an entry are
    walked through, so a node reachable only through a non-sharing node stays
    hidden. */
module SameEntryView {
  import opened Wrappers
  import opened Seqs
  import opened GraphModel
  import opened EngineState

  /** Some entry of `entries` is one of `target`. */
  predicate SharesEntry(entries: seq<Entry>, target: seq<Entry>) {
    exists e :: e in entries && e in target
  }

  /** The entries of the node object an id stands for. */
  function EntriesOf(g: Graph, id: Id): seq<Entry> {
    match FindNode(g.nodes, id)
    case Some(n) => n.entries
    case None => []
  }

  /** The cached neighbour objects of the node object an id stands for. */
  function ObjectsOf(g: Graph, id: Id): seq<Id> {
    match FindNode(g.nodes, id)
    case Some(n) => n.neighbourObjects
    case None => []
  }

  /** Appends, in order, each candidate whose id is not yet in the worklist. */
  function Enqueue(w: seq<Id>, cands: seq<Id>): seq<Id>
    decreases |cands|
  {
    if |cands| == 0 then w
    else Enqueue(if cands[0] in w then w else w + [cands[0]], cands[1..])
  }

  /** Enqueueing only appends to the worklist. */
  lemma {:induction false} EnqueueExtends(w: seq<Id>, cands: seq<Id>)
    ensures |Enqueue(w, cands)| >= |w| && Enqueue(w, cands)[..|w|] == w
    decreases |cands|
  {
    if |cands| > 0 {
      var w' := if cands[0] in w then w else w + [cands[0]];
      EnqueueExtends(w', cands[1..]);
      var r := Enqueue(w', cands[1..]);
      assert r[..|w|] == r[..|w'|][..|w|];
    }
  }

  /** After enqueueing, the worklist holds exactly its old ids and the candidates. */
  lemma {:induction false} EnqueueMembers(w: seq<Id>, cands: seq<Id>)
    ensures forall x :: x in Enqueue(w, cands) <==> x in w || x in cands
    decreases |cands|
  {
    if |cands| > 0 {
      var w' := if cands[0] in w then w else w + [cands[0]];
      EnqueueMembers(w', cands[1..]);
      assert forall x :: x in cands <==> x == cands[0] || x in cands[1..];
    }
  }

  /** Every appended id is a candidate that was not in the worklist before it. */
  lemma {:induction false} EnqueueFresh(w: seq<Id>, cands: seq<Id>)
    ensures forall k :: |w| <= k < |Enqueue(w, cands)| ==>
              Enqueue(w, cands)[k] in cands && Enqueue(w, cands)[k] !in Enqueue(w, cands)[..k]
    decreases |cands|
  {
    if |cands| > 0 {
      var c := cands[0];
      var w' := if c in w then w else w + [c];
      var r := Enqueue(w', cands[1..]);
      EnqueueFresh(w', cands[1..]);
      EnqueueExtends(w', cands[1..]);
      forall k | |w| <= k < |r|
        ensures r[k] in cands && r[k] !in r[..k]
      {
        if k < |w'| {
          assert r[k] == w'[k] == c;
          assert r[..k] == w'[..k] == w;
        } else {
          assert r[k] in cands[1..];
        }
      }
    }
  }

  /** A worklist whose part after `start` never repeats an earlier id holds a
      repetition-free tail. */
  lemma TailDistinct(w: seq<Id>, start: nat)
    requires start <= |w|
    requires forall k :: start <= k < |w| ==> w[k] !in w[..k]
    ensures Distinct(w[start..])
  {
    forall i, j | 0 <= i < j < |w[start..]|
      ensures w[start..][i] != w[start..][j]
    {
      assert w[start + i] in w[..start + j];
    }
  }

  /** The worklist starts with `init`. */
  predicate StartsWith(w: seq<Id>, init: seq<Id>) {
    |w| >= |init| && w[..|init|] == init
  }

  /** Nothing appended after `init` repeats an earlier id. */
  predicate FreshTail(w: seq<Id>, init: seq<Id>) {
    forall k :: |init| <= k < |w| ==> w[k] !in w[..k]
  }

  /** `matched` holds the ids among the first `i` worklist ids that share an entry. */
  ghost predicate MatchedUpTo(g: Graph, target: seq<Entry>, w: seq<Id>, matched: seq<Id>, i: nat)
    requires i <= |w|
  {
    forall x :: x in matched <==> x in w[..i] && SharesEntry(EntriesOf(g, x), target)
  }

  /** Every neighbour object of a matched node is in the worklist. */
  ghost predicate Closed(g: Graph, w: seq<Id>, matched: seq<Id>) {
    forall x, c :: x in matched && c in ObjectsOf(g, x) ==> c in w
  }

  /** Every id appended after `init` is a neighbour object of a matched id
      that stands before it, among the first `i`. */
  ghost predicate ReachedBefore(g: Graph, init: seq<Id>, w: seq<Id>, matched: seq<Id>, i: nat) {
    forall k :: |init| <= k < |w| ==> HasParent(g, w, matched, i, k)
  }

  /** The id at `k` is a neighbour object of a matched id that stands before
      it, among the first `i`. */
  ghost predicate HasParent(g: Graph, w: seq<Id>, matched: seq<Id>, i: nat, k: int)
    requires 0 <= k < |w|
  {
    exists p :: 0 <= p < k && p < i && w[p] in matched && w[k] in ObjectsOf(g, w[p])
  }

  /** The neighbour objects of a graph node are graph nodes. */
  lemma ObjectsInGraph(g: Graph, x: Id)
    requires ObjectsResolve(g)
    ensures forall c :: c in ObjectsOf(g, x) ==> c in NodeIds(g.nodes)
  {
  }

  /** Enqueueing keeps the worklist's start and repetition-free tail. */
  lemma EnqueueKeepsShape(w: seq<Id>, init: seq<Id>, cands: seq<Id>)
    requires StartsWith(w, init) && FreshTail(w, init)
    ensures StartsWith(Enqueue(w, cands), init) && FreshTail(Enqueue(w, cands), init)
  {
    var w' := Enqueue(w, cands);
    EnqueueExtends(w, cands);
    EnqueueFresh(w, cands);
    assert w'[..|init|] == w[..|init|];
    forall k | |init| <= k < |w|
      ensures w'[k] !in w'[..k]
    {
      assert w'[k] == w[k];
      assert w'[..k] == w[..k];
    }
  }

  /** Recording a matched id keeps `matched` in step with the scanned prefix. */
  lemma MatchedStep(g: Graph, target: seq<Entry>, w: seq<Id>, w': seq<Id>, matched: seq<Id>, i: nat)
    requires i < |w| <= |w'| && w'[..|w|] == w
    requires MatchedUpTo(g, target, w, matched, i)
    ensures SharesEntry(EntriesOf(g, w[i]), target) ==> MatchedUpTo(g, target, w', matched + [w[i]], i + 1)
    ensures !SharesEntry(EntriesOf(g, w[i]), target) ==> MatchedUpTo(g, target, w', matched, i + 1)
  {
    assert w'[..i + 1] == w[..i] + [w[i]] by {
      assert w'[..i + 1] == w[..i + 1];
    }
  }

  /** Enqueueing a matched id's neighbour objects keeps the worklist closed. */
  lemma ClosedStep(g: Graph, w: seq<Id>, matched: seq<Id>, x: Id)
    requires Closed(g, w, matched)
    ensures Closed(g, Enqueue(w, ObjectsOf(g, x)), matched + [x])
  {
    var w' := Enqueue(w, ObjectsOf(g, x));
    EnqueueExtends(w, ObjectsOf(g, x));
    EnqueueMembers(w, ObjectsOf(g, x));
    forall y, c | y in matched + [x] && c in ObjectsOf(g, y)
      ensures c in w'
    {
      if y in matched {
        assert c in w;
        var j :| 0 <= j < |w| && w[j] == c;
        assert w'[j] == c;
      }
    }
  }

  /** Every id the step appends is a neighbour object of the id at `i`. */
  lemma ReachedStep(g: Graph, init: seq<Id>, w: seq<Id>, matched: seq<Id>, i: nat)
    requires i < |w| && |init| <= |w|
    requires ReachedBefore(g, init, w, matched, i)
    ensures ReachedBefore(g, init, Enqueue(w, ObjectsOf(g, w[i])), matched + [w[i]], i + 1)
  {
    var x := w[i];
    var w' := Enqueue(w, ObjectsOf(g, x));
    var m' := matched + [x];
    EnqueueExtends(w, ObjectsOf(g, x));
    EnqueueFresh(w, ObjectsOf(g, x));
    forall k {:trigger HasParent(g, w', m', i + 1, k)} | |init| <= k < |w'|
      ensures HasParent(g, w', m', i + 1, k)
    {
      if k < |w| {
        assert HasParent(g, w, matched, i, k);
        var p :| 0 <= p < k && p < i && w[p] in matched && w[k] in ObjectsOf(g, w[p]);
        assert w'[p] == w[p] && w'[k] == w[k];
        assert w'[p] in m';
      } else {
        assert w'[i] == x;
        assert w'[k] in ObjectsOf(g, x);
      }
    }
  }

  /** Enqueueing resolved ids keeps every worklist id a graph node. */
  lemma InGraphStep(g: Graph, w: seq<Id>, x: Id)
    requires ObjectsResolve(g)
    requires forall y :: y in w ==> y in NodeIds(g.nodes)
    ensures forall y :: y in Enqueue(w, ObjectsOf(g, x)) ==> y in NodeIds(g.nodes)
  {
    ObjectsInGraph(g, x);
    EnqueueMembers(w, ObjectsOf(g, x));
  }

  /** What holds after the first `i` worklist ids have been scanned. */
  ghost predicate FloodInv(g: Graph, init: seq<Id>, target: seq<Entry>, w: seq<Id>, matched: seq<Id>, i: nat) {
    && i <= |w|
    && StartsWith(w, init) && FreshTail(w, init)
    && (forall x :: x in w ==> x in NodeIds(g.nodes))
    && |w| <= |init| + |NodeIds(g.nodes)|
    && MatchedUpTo(g, target, w, matched, i)
    && Closed(g, w, matched)
    && ReachedBefore(g, init, w, matched, i)
  }

  /** Scanning an id that shares an entry: it is recorded and its neighbour
      objects are enqueued. */
  lemma MatchingScanStep(g: Graph, init: seq<Id>, target: seq<Entry>, w: seq<Id>, matched: seq<Id>, i: nat)
    requires ObjectsResolve(g)
    requires FloodInv(g, init, target, w, matched, i) && i < |w|
    requires SharesEntry(EntriesOf(g, w[i]), target)
    ensures FloodInv(g, init, target, Enqueue(w, ObjectsOf(g, w[i])), matched + [w[i]], i + 1)
  {
    var x := w[i];
    var w' := Enqueue(w, ObjectsOf(g, x));
    EnqueueKeepsShape(w, init, ObjectsOf(g, x));
    EnqueueExtends(w, ObjectsOf(g, x));
    MatchedStep(g, target, w, w', matched, i);
    ClosedStep(g, w, matched, x);
    ReachedStep(g, init, w, matched, i);
    InGraphStep(g, w, x);
    WorklistBound(g, init, w');
  }

  /** A worklist that starts with `init` and then never repeats an id holds
      at most one more id per graph node. */
  lemma WorklistBound(g: Graph, init: seq<Id>, w: seq<Id>)
    requires StartsWith(w, init) && FreshTail(w, init)
    requires forall x :: x in w ==> x in NodeIds(g.nodes)
    ensures |w| <= |init| + |NodeIds(g.nodes)|
  {
    TailDistinct(w, |init|);
    assert forall x :: x in w[|init|..] ==> x in w;
    DistinctWithin(w[|init|..], NodeIds(g.nodes));
  }

  /** Scanning an id that shares no entry changes nothing but the position. */
  lemma SkippingScanStep(g: Graph, init: seq<Id>, target: seq<Entry>, w: seq<Id>, matched: seq<Id>, i: nat)
    requires FloodInv(g, init, target, w, matched, i) && i < |w|
    requires !SharesEntry(EntriesOf(g, w[i]), target)
    ensures FloodInv(g, init, target, w, matched, i + 1)
  {
    MatchedStep(g, target, w, w, matched, i);
    forall k {:trigger HasParent(g, w, matched, i + 1, k)} | |init| <= k < |w|
      ensures HasParent(g, w, matched, i + 1, k)
    {
      assert HasParent(g, w, matched, i, k);
    }
  }

  /** The flood: walks the worklist by index while it grows. A node that
      shares an entry with `target` is recorded and its neighbour objects not
      yet in the worklist are appended. */
  method Flood(g: Graph, init: seq<Id>, target: seq<Entry>) returns (worklist: seq<Id>, matched: seq<Id>)
    requires ObjectsResolve(g)
    requires forall x :: x in init ==> x in NodeIds(g.nodes)
    ensures StartsWith(worklist, init)
    ensures |worklist| <= |init| + |NodeIds(g.nodes)|
    ensures forall x :: x in worklist ==> x in NodeIds(g.nodes)
    ensures MatchedUpTo(g, target, worklist, matched, |worklist|)
    ensures Closed(g, worklist, matched)
    ensures ReachedBefore(g, init, worklist, matched, |worklist|)
  {
    worklist := init;
    matched := [];
    var i := 0;
    while i < |worklist|
      invariant FloodInv(g, init, target, worklist, matched, i)
      decreases |init| + |NodeIds(g.nodes)| - i
    {
      var x := worklist[i];
      if SharesEntry(EntriesOf(g, x), target) {
        MatchingScanStep(g, init, target, worklist, matched, i);
        matched := matched + [x];
        worklist := Enqueue(worklist, ObjectsOf(g, x));
      } else {
        SkippingScanStep(g, init, target, worklist, matched, i);
      }
      i := i + 1;
    }
  }

  /** The first id of `ids` that no node carries. */
  function FirstMissing(nodes: seq<Node>, ids: seq<Id>): (r: Option<Id>)
    ensures r.None? <==> forall x :: x in ids ==> x in NodeIds(nodes)
    ensures r.Some? ==> r.value in ids && r.value !in NodeIds(nodes)
  {
    if |ids| == 0 then None
    else
      var x := ids[0];
      if x !in NodeIds(nodes) then
        assert x in ids;
        Some(x)
      else
        var r := FirstMissing(nodes, ids[1..]);
        assert forall y :: y in ids <==> y == x || y in ids[1..];
        r
  }

  /** The entries of all the given ids, in order. */
  function AllEntries(g: Graph, ids: seq<Id>): (r: seq<Entry>)
    ensures forall e :: e in r <==> exists x :: x in ids && e in EntriesOf(g, x)
  {
    if |ids| == 0 then []
    else
      var r := EntriesOf(g, ids[0]) + AllEntries(g, ids[1..]);
      assert forall x :: x in ids <==> x == ids[0] || x in ids[1..];
      r
  }

  /** The neighbour objects of all the given ids, in order. */
  function AllObjects(g: Graph, ids: seq<Id>): (r: seq<Id>)
    ensures forall y :: y in r <==> exists x :: x in ids && y in ObjectsOf(g, x)
  {
    if |ids| == 0 then []
    else
      var r := ObjectsOf(g, ids[0]) + AllObjects(g, ids[1..]);
      assert forall x :: x in ids <==> x == ids[0] || x in ids[1..];
      r
  }

  /** Where the walk starts: the nodes shown unconditionally, the entries a
      node must share, and the first worklist. */
  datatype Start = Start(seeds: seq<Id>, target: seq<Entry>, init: seq<Id>)

  /** With `withSelectedNodes` the walk starts from every selected node, else
      from the origin alone. The target entries are the seeds' entries and the
      first worklist is the seeds' neighbour objects. */
  function StartOf(st: Store, withSelectedNodes: bool): (r: Result<Start, Fault>)
    ensures withSelectedNodes ==> (r.Ok? <==> forall x :: x in st.graph.selectedNodes ==> x in NodeIds(st.graph.nodes))
    ensures !withSelectedNodes ==> (r.Ok? <==> st.state.origin.Some? && st.state.origin.value in NodeIds(st.graph.nodes))
    ensures !withSelectedNodes && st.state.origin.None? ==> r == Err(NoOrigin)
    ensures r.Ok? ==> r.value.seeds == if withSelectedNodes then st.graph.selectedNodes else [st.state.origin.value]
    ensures r.Ok? ==> forall e :: e in r.value.target <==> exists x :: x in r.value.seeds && e in EntriesOf(st.graph, x)
    ensures r.Ok? ==> forall y :: y in r.value.init <==> exists x :: x in r.value.seeds && y in ObjectsOf(st.graph, x)
  {
    var g := st.graph;
    if withSelectedNodes then
      var sel := g.selectedNodes;
      match FirstMissing(g.nodes, sel)
      case Some(x) => Err(UnknownNode(x))
      case None => Ok(Start(sel, AllEntries(g, sel), AllObjects(g, sel)))
    else
      match st.state.origin
      case None => Err(NoOrigin)
      case Some(o) =>
        if o !in NodeIds(g.nodes) then Err(UnknownNode(o))
        else Ok(Start([o], EntriesOf(g, o), ObjectsOf(g, o)))
  }

  /** `shown` holds the seeds and every entry-sharing neighbour object of its
      members. The same-entry view shows the least such set. */
  ghost predicate ClosedView(g: Graph, seeds: seq<Id>, target: seq<Entry>, shown: set<Id>) {
    && (forall x :: x in seeds ==> x in shown)
    && (forall x, c :: x in shown && c in ObjectsOf(g, x) && SharesEntry(EntriesOf(g, c), target) ==> c in shown)
  }

  /** Every entry-sharing worklist id lies in every closed view: it is a
      neighbour object of a seed, or of an earlier entry-sharing id. */
  lemma {:induction false} SharingWorklistIdsInView(g: Graph, seeds: seq<Id>, target: seq<Entry>, init: seq<Id>,
                                                    w: seq<Id>, matched: seq<Id>, shown: set<Id>, k: nat)
    requires k < |w|
    requires StartsWith(w, init)
    requires forall y :: y in init ==> exists x :: x in seeds && y in ObjectsOf(g, x)
    requires MatchedUpTo(g, target, w, matched, |w|)
    requires ReachedBefore(g, init, w, matched, |w|)
    requires ClosedView(g, seeds, target, shown)
    ensures SharesEntry(EntriesOf(g, w[k]), target) ==> w[k] in shown
    decreases k
  {
    if SharesEntry(EntriesOf(g, w[k]), target) {
      if k < |init| {
        assert w[k] == w[..|init|][k];
        assert w[k] in init;
        var x :| x in seeds && w[k] in ObjectsOf(g, x);
      } else {
        assert HasParent(g, w, matched, |w|, k);
        var p :| 0 <= p < k && p < |w| && w[p] in matched && w[k] in ObjectsOf(g, w[p]);
        SharingWorklistIdsInView(g, seeds, target, init, w, matched, shown, p);
      }
    }
  }

  /** The matched ids lie in every closed view. */
  lemma MatchedInEveryView(g: Graph, seeds: seq<Id>, target: seq<Entry>, init: seq<Id>,
                           w: seq<Id>, matched: seq<Id>, shown: set<Id>)
    requires StartsWith(w, init)
    requires forall y :: y in init ==> exists x :: x in seeds && y in ObjectsOf(g, x)
    requires MatchedUpTo(g, target, w, matched, |w|)
    requires ReachedBefore(g, init, w, matched, |w|)
    requires ClosedView(g, seeds, target, shown)
    ensures forall x :: x in matched ==> x in shown
  {
    forall x | x in matched
      ensures x in shown
    {
      assert x in w[..|w|];
      var k :| 0 <= k < |w| && w[k] == x;
      SharingWorklistIdsInView(g, seeds, target, init, w, matched, shown, k);
    }
  }

  /** The ids the view shows: the seeds and the matched ids. */
  function ShownIds(seeds: seq<Id>, matched: seq<Id>): set<Id> {
    (set x | x in seeds) + (set x | x in matched)
  }

  /** Nodes show exactly when their ids are in `shown`, links when both ends are. */
  function ShowInduced(g: Graph, shown: set<Id>): (r: Graph)
    ensures SameExceptVisibility(g, r)
    ensures VisibleNodeIds(r) == shown * NodeIds(g.nodes)
    ensures forall l :: l in r.links ==> (l.visible <==> l.source in shown && l.target in shown)
  {
    var r := g.(nodes := ShowNodes(g.nodes, shown), links := ShowLinksBetween(g.links, shown));
    VisibleIdsFromRule(r, shown);
    assert forall l :: l in r.links ==> exists i :: 0 <= i < |r.links| && r.links[i] == l;
    r
  }

  /** The seeds with the matched ids of a finished walk form the least closed view. */
  lemma WalkGivesLeastView(g: Graph, s: Start, w: seq<Id>, matched: seq<Id>)
    requires forall y :: y in s.init <==> exists x :: x in s.seeds && y in ObjectsOf(g, x)
    requires StartsWith(w, s.init)
    requires MatchedUpTo(g, s.target, w, matched, |w|)
    requires Closed(g, w, matched)
    requires ReachedBefore(g, s.init, w, matched, |w|)
    ensures ClosedView(g, s.seeds, s.target, ShownIds(s.seeds, matched))
    ensures forall other :: ClosedView(g, s.seeds, s.target, other) ==> ShownIds(s.seeds, matched) <= other
  {
    var shown := ShownIds(s.seeds, matched);
    forall x, c | x in shown && c in ObjectsOf(g, x) && SharesEntry(EntriesOf(g, c), s.target)
      ensures c in shown
    {
      if x in s.seeds {
        assert c in s.init;
        assert c in w[..|s.init|];
      }
      assert c in w;
      assert c in w[..|w|];
    }
    forall other | ClosedView(g, s.seeds, s.target, other)
      ensures shown <= other
    {
      MatchedInEveryView(g, s.seeds, s.target, s.init, w, matched, other);
      forall x | x in shown
        ensures x in other
      {
      }
    }
  }

  /** The first worklist holds graph nodes only. */
  lemma ObjectsOfSeedsInGraph(g: Graph, s: Start)
    requires ObjectsResolve(g)
    requires forall y :: y in s.init ==> exists x :: x in s.seeds && y in ObjectsOf(g, x)
    ensures forall y :: y in s.init ==> y in NodeIds(g.nodes)
  {
    forall y | y in s.init
      ensures y in NodeIds(g.nodes)
    {
      var x :| x in s.seeds && y in ObjectsOf(g, x);
      ObjectsInGraph(g, x);
    }
  }

  /** Every shown id is a node id. */
  lemma ShownAreNodes(g: Graph, s: Start, w: seq<Id>, matched: seq<Id>)
    requires forall x :: x in s.seeds ==> x in NodeIds(g.nodes)
    requires forall x :: x in w ==> x in NodeIds(g.nodes)
    requires MatchedUpTo(g, s.target, w, matched, |w|)
    ensures ShownIds(s.seeds, matched) * NodeIds(g.nodes) == ShownIds(s.seeds, matched)
  {
    assert w[..|w|] == w;
    forall x | x in ShownIds(s.seeds, matched)
      ensures x in NodeIds(g.nodes)
    {
      if x !in s.seeds {
        assert x in w;
      }
    }
  }

  /** Shows the seeds and every node the walk reaches through entry-sharing
      nodes; a link shows when both its ends show. Starting from the origin
      when there is none, or from a start node no node carries, throws; an
      empty selection starts an empty walk and shows nothing. */
  method TriggerSameEntry(st: Store, withSelectedNodes: bool) returns (r: Result<Store, Fault>)
    requires ObjectsResolve(st.graph)
    ensures r.Ok? <==> StartOf(st, withSelectedNodes).Ok?
    ensures r.Err? ==> r == Err(StartOf(st, withSelectedNodes).error)
    ensures r.Ok? ==> r.value.storeActiveTableData == st.storeActiveTableData
    ensures r.Ok? ==> r.value.state == st.state.(isSelfCentric := true, selfCentricType := SameEntry)
    ensures r.Ok? ==> SameExceptVisibility(st.graph, r.value.graph)
    ensures r.Ok? ==> ClosedView(st.graph, StartOf(st, withSelectedNodes).value.seeds,
                                 StartOf(st, withSelectedNodes).value.target, VisibleNodeIds(r.value.graph))
    ensures r.Ok? ==> forall shown :: ClosedView(st.graph, StartOf(st, withSelectedNodes).value.seeds,
                                                 StartOf(st, withSelectedNodes).value.target, shown)
                                      ==> VisibleNodeIds(r.value.graph) <= shown
    ensures r.Ok? ==> forall l :: l in r.value.graph.links ==>
              (l.visible <==> l.source in VisibleNodeIds(r.value.graph) && l.target in VisibleNodeIds(r.value.graph))
  {
    var start := StartOf(st, withSelectedNodes);
    if start.Err? {
      return Err(start.error);
    }
    var s := start.value;
    var g := st.graph;
    ObjectsOfSeedsInGraph(g, s);
    var worklist, matched := Flood(g, s.init, s.target);
    var shown := ShownIds(s.seeds, matched);
    ShownAreNodes(g, s, worklist, matched);
    WalkGivesLeastView(g, s, worklist, matched);
    r := Ok(st.(state := st.state.(isSelfCentric := true, selfCentricType := SameEntry), graph := ShowInduced(g, shown)));
  }
}
