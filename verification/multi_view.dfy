/** The multi-node views: the union of the selected nodes' neighbourhoods,
    their mutual neighbours, and their mutual neighbours that also touch the
    origin. */
module MultiView {
  import opened Wrappers
  import opened Seqs
  import opened GraphModel
  import opened EngineState
  import opened NeighbourQuery

  /** The self-centric type each pair of flags records. */
  function ModeFor(onlyMutual: bool, mutualWithOrigin: bool): Mode {
    if onlyMutual then (if mutualWithOrigin then OriginIntersection else Intersection) else Union
  }

  /** The groups each pair of flags asks for. */
  function NeighbourGroups(st: Store, onlyMutual: bool, mutualWithOrigin: bool): Result<seq<seq<Id>>, Fault> {
    if !onlyMutual then AllNeighbourGroups(st.graph)
    else if mutualWithOrigin then GetMutualNeighboursWithOrigin(st.graph, st.state.origin)
    else GetMutualNeighbours(st.graph)
  }

  /** `x` is a neighbour of some selected node. */
  predicate NeighbourOfSelection(g: Graph, x: Id) {
    exists k :: 0 <= k < |g.selectedNodes| && x in Neighbours(g.nodes, g.selectedNodes[k])
  }

  /** An unselected neighbour of a selected node that is adjacent to at
      least two selected nodes. */
  predicate MutualMember(g: Graph, x: Id) {
    && NeighbourOfSelection(g, x) && x !in g.selectedNodes
    && Resolvable(g.nodes, x) && Matches(Neighbours(g.nodes, x), g.selectedNodes) >= 2
  }

  /** An unselected neighbour of a selected node other than the origin that
      is adjacent to the origin and to a selected node other than the origin. */
  predicate OriginMember(g: Graph, o: Id, x: Id) {
    && (exists k :: 0 <= k < |g.selectedNodes| && g.selectedNodes[k] != o && x in Neighbours(g.nodes, g.selectedNodes[k]))
    && x !in g.selectedNodes && Resolvable(g.nodes, x) && o in Neighbours(g.nodes, x)
    && exists y :: y in Neighbours(g.nodes, x) && y in g.selectedNodes && y != o
  }

  /** The ids the groups are made of, stated without the groups. */
  predicate GroupMember(g: Graph, origin: Option<Id>, onlyMutual: bool, mutualWithOrigin: bool, x: Id) {
    if !onlyMutual then NeighbourOfSelection(g, x)
    else if !mutualWithOrigin then MutualMember(g, x)
    else origin.Some? && OriginMember(g, origin.value, x)
  }

  lemma FlattenedUnionGroups(g: Graph)
    requires AllNeighbourGroups(g).Ok?
    ensures forall x :: x in Flatten(AllNeighbourGroups(g).value) <==> NeighbourOfSelection(g, x)
  {
    var groups := AllNeighbourGroups(g).value;
    forall x | NeighbourOfSelection(g, x)
      ensures x in Flatten(groups)
    {
      var k :| 0 <= k < |g.selectedNodes| && x in Neighbours(g.nodes, g.selectedNodes[k]);
      assert x in groups[k];
    }
  }

  lemma FlattenedMutualGroups(g: Graph)
    requires GetMutualNeighbours(g).Ok?
    ensures forall x :: x in Flatten(GetMutualNeighbours(g).value) <==> MutualMember(g, x)
  {
    var groups := GetMutualNeighbours(g).value;
    forall x | MutualMember(g, x)
      ensures x in Flatten(groups)
    {
      var k :| 0 <= k < |g.selectedNodes| && x in Neighbours(g.nodes, g.selectedNodes[k]);
      assert x in groups[k];
    }
    forall x | x in Flatten(groups)
      ensures MutualMember(g, x)
    {
      var k :| 0 <= k < |groups| && x in groups[k];
      assert NeighbourOfSelection(g, x);
    }
  }

  lemma FlattenedOriginGroups(g: Graph, origin: Option<Id>)
    requires GetMutualNeighboursWithOrigin(g, origin).Ok?
    ensures forall x :: x in Flatten(GetMutualNeighboursWithOrigin(g, origin).value)
              <==> origin.Some? && OriginMember(g, origin.value, x)
  {
    var groups := GetMutualNeighboursWithOrigin(g, origin).value;
    if origin.Some? {
      forall x | OriginMember(g, origin.value, x)
        ensures x in Flatten(groups)
      {
        var k :| 0 <= k < |g.selectedNodes| && g.selectedNodes[k] != origin.value
                 && x in Neighbours(g.nodes, g.selectedNodes[k]);
        assert x in groups[k];
      }
    }
  }

  /** The flattened groups hold exactly the group members. */
  lemma FlattenedGroupsAreMembers(st: Store, onlyMutual: bool, mutualWithOrigin: bool)
    requires NeighbourGroups(st, onlyMutual, mutualWithOrigin).Ok?
    ensures forall x :: x in Flatten(NeighbourGroups(st, onlyMutual, mutualWithOrigin).value)
              <==> GroupMember(st.graph, st.state.origin, onlyMutual, mutualWithOrigin, x)
  {
    if !onlyMutual {
      FlattenedUnionGroups(st.graph);
    } else if mutualWithOrigin {
      FlattenedOriginGroups(st.graph, st.state.origin);
    } else {
      FlattenedMutualGroups(st.graph);
    }
  }

  /** The link rule of each view, over the selected ids and the group ids. */
  function MultiLinks(links: seq<Link>, s: seq<Id>, extra: seq<Id>, onlyMutual: bool): (r: seq<Link>)
    ensures LinksAgreeExceptVisible(links, r)
    ensures forall l :: l in r ==>
              (l.visible <==>
                 if onlyMutual then ((l.source in s || l.target in s) && (l.source in extra || l.target in extra))
                                    || (l.source in s && l.target in s)
                 else l.source in s || l.target in s)
  {
    var r := seq(|links|, i requires 0 <= i < |links| =>
      var src := links[i].source;
      var tgt := links[i].target;
      links[i].(visible :=
        if onlyMutual then ((src in s || tgt in s) && (src in extra || tgt in extra)) || (src in s && tgt in s)
        else src in s || tgt in s));
    assert forall l :: l in r ==> exists i :: 0 <= i < |r| && r[i] == l;
    r
  }

  /** Shows the selected nodes and their groups. In the union view a link
      shows when it touches a selected node; in the intersection views when
      it joins a selected node to a group member, or two selected nodes. */
  function TriggerMultiSelfCentric(st: Store, onlyMutual: bool, mutualWithOrigin: bool): (r: Result<Store, Fault>)
    ensures r.Ok? <==> NeighbourGroups(st, onlyMutual, mutualWithOrigin).Ok?
    ensures r.Ok? ==> r.value.state == st.state.(isSelfCentric := true, selfCentricType := ModeFor(onlyMutual, mutualWithOrigin))
    ensures r.Ok? ==> r.value.storeActiveTableData == st.storeActiveTableData
    ensures r.Ok? ==> SameExceptVisibility(st.graph, r.value.graph)
    ensures r.Ok? ==> forall n :: n in r.value.graph.nodes ==>
              (n.visible <==> n.id in st.graph.selectedNodes
                              || GroupMember(st.graph, st.state.origin, onlyMutual, mutualWithOrigin, n.id))
    ensures r.Ok? && !onlyMutual ==> forall l :: l in r.value.graph.links ==>
              (l.visible <==> l.source in st.graph.selectedNodes || l.target in st.graph.selectedNodes)
    ensures r.Ok? && onlyMutual ==> forall l :: l in r.value.graph.links ==>
              (l.visible <==>
                 ((l.source in st.graph.selectedNodes || l.target in st.graph.selectedNodes)
                  && (GroupMember(st.graph, st.state.origin, onlyMutual, mutualWithOrigin, l.source)
                      || GroupMember(st.graph, st.state.origin, onlyMutual, mutualWithOrigin, l.target)))
                 || (l.source in st.graph.selectedNodes && l.target in st.graph.selectedNodes))
  {
    var groups :- NeighbourGroups(st, onlyMutual, mutualWithOrigin);
    FlattenedGroupsAreMembers(st, onlyMutual, mutualWithOrigin);
    Ok(st.(state := st.state.(isSelfCentric := true, selfCentricType := ModeFor(onlyMutual, mutualWithOrigin)),
           graph := MultiGraph(st.graph, Flatten(groups), onlyMutual)))
  }

  /** The graph of a multi view whose group members are `extra`. */
  function MultiGraph(g: Graph, extra: seq<Id>, onlyMutual: bool): (r: Graph)
    ensures SameExceptVisibility(g, r)
    ensures forall n :: n in r.nodes ==> (n.visible <==> n.id in g.selectedNodes || n.id in extra)
    ensures forall l :: l in r.links ==>
              (l.visible <==>
                 if onlyMutual then ((l.source in g.selectedNodes || l.target in g.selectedNodes) && (l.source in extra || l.target in extra))
                                    || (l.source in g.selectedNodes && l.target in g.selectedNodes)
                 else l.source in g.selectedNodes || l.target in g.selectedNodes)
  {
    var s := g.selectedNodes;
    var nodes := ShowNodes(g.nodes, set x | x in extra + s);
    assert forall n :: n in nodes ==> exists i :: 0 <= i < |nodes| && nodes[i] == n;
    g.(nodes := nodes, links := MultiLinks(g.links, s, extra, onlyMutual))
  }

  /** Each intersection view shows no node the union view would hide. */
  lemma UnionContainsIntersections(st: Store, mutualWithOrigin: bool)
    requires TriggerMultiSelfCentric(st, false, false).Ok?
    requires TriggerMultiSelfCentric(st, true, mutualWithOrigin).Ok?
    ensures VisibleNodeIds(TriggerMultiSelfCentric(st, true, mutualWithOrigin).value.graph)
            <= VisibleNodeIds(TriggerMultiSelfCentric(st, false, false).value.graph)
  {
    var u := TriggerMultiSelfCentric(st, false, false).value.graph;
    var m := TriggerMultiSelfCentric(st, true, mutualWithOrigin).value.graph;
    forall x | x in VisibleNodeIds(m)
      ensures x in VisibleNodeIds(u)
    {
      var n :| n in m.nodes && n.visible && n.id == x;
      var i :| 0 <= i < |m.nodes| && m.nodes[i] == n;
      assert u.nodes[i] in u.nodes;
      if mutualWithOrigin && GroupMember(st.graph, st.state.origin, true, true, x) {
        var k :| 0 <= k < |st.graph.selectedNodes| && st.graph.selectedNodes[k] != st.state.origin.value
                 && x in Neighbours(st.graph.nodes, st.graph.selectedNodes[k]);
        assert NeighbourOfSelection(st.graph, x);
      }
    }
  }

  /** In the intersection views every shown link has a selected end. */
  lemma IntersectionLinksTouchSelection(st: Store, mutualWithOrigin: bool)
    requires TriggerMultiSelfCentric(st, true, mutualWithOrigin).Ok?
    ensures forall l :: l in TriggerMultiSelfCentric(st, true, mutualWithOrigin).value.graph.links && l.visible ==>
              l.source in st.graph.selectedNodes || l.target in st.graph.selectedNodes
  {
  }
}
