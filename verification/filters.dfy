/** The whole-graph filters of the store: reset, only-selected, direct
    neighbourhood of the origin, component isolation, and the display toggles.
    Each filter recomputes the `visible` flag of every node and every link. */
module Filters {
  import opened Wrappers
  import opened GraphModel
  import opened EngineState
  import opened Seqs

  /** The default visibility of a node: shown unless it is an orphan and
      orphans are hidden. */
  predicate DefaultVisible(n: Node, orphanNodeVisibility: bool) {
    !IsOrphan(n) || orphanNodeVisibility
  }

  // ---------------------------------------------------------------- reset

  /** Leaves self-centric mode. The origin is cleared whatever the mode; the
      flags are only rewritten when a self-centric filter was active, and the
      self-centric type is left as it was. */
  function ResetSelfCentric(st: Store): (r: Store)
    ensures r.state == st.state.(origin := None, isSelfCentric := false)
    ensures r.storeActiveTableData == st.storeActiveTableData
    ensures SameExceptVisibility(st.graph, r.graph)
    ensures !st.state.isSelfCentric ==> r.graph == st.graph
    ensures st.state.isSelfCentric ==>
              (forall n :: n in r.graph.nodes ==> (n.visible <==> DefaultVisible(n, st.state.orphanNodeVisibility)))
    ensures st.state.isSelfCentric ==> forall l :: l in r.graph.links ==> l.visible
  {
    var s := st.state.(origin := None);
    if !st.state.isSelfCentric then st.(state := s)
    else
      var g := st.graph;
      var nodes := seq(|g.nodes|, i requires 0 <= i < |g.nodes| =>
        g.nodes[i].(visible := if IsOrphan(g.nodes[i]) then st.state.orphanNodeVisibility else true));
      var links := seq(|g.links|, i requires 0 <= i < |g.links| => g.links[i].(visible := true));
      assert forall n :: n in nodes ==> exists i :: 0 <= i < |nodes| && nodes[i] == n;
      st.(state := s.(isSelfCentric := false), graph := g.(nodes := nodes, links := links))
  }

  /** A second reset changes nothing at all. */
  lemma ResetIsIdempotent(st: Store)
    ensures ResetSelfCentric(ResetSelfCentric(st)) == ResetSelfCentric(st)
  {
  }

  /** After a reset from a self-centric view, with orphans shown, every node is shown. */
  lemma ResetShowsAll(st: Store)
    requires st.state.isSelfCentric && st.state.orphanNodeVisibility
    ensures VisibleNodeIds(ResetSelfCentric(st).graph) == NodeIds(st.graph.nodes)
  {
    var r := ResetSelfCentric(st);
    forall x | x in NodeIds(st.graph.nodes)
      ensures x in VisibleNodeIds(r.graph)
    {
      var i :| 0 <= i < |st.graph.nodes| && st.graph.nodes[i].id == x;
      assert r.graph.nodes[i] in r.graph.nodes;
    }
    forall x | x in VisibleNodeIds(r.graph)
      ensures x in NodeIds(st.graph.nodes)
    {
      var i :| 0 <= i < |r.graph.nodes| && r.graph.nodes[i].id == x;
      assert st.graph.nodes[i] in st.graph.nodes;
    }
  }

  // -------------------------------------------------------- only selected

  /** Shows the selected nodes and the links that run between two of them. */
  function TriggerSelectedNodes(st: Store): (r: Store)
    ensures r.state == st.state.(isSelfCentric := true, selfCentricType := OnlySelected)
    ensures r.storeActiveTableData == st.storeActiveTableData
    ensures SameExceptVisibility(st.graph, r.graph)
    ensures forall n :: n in r.graph.nodes ==> (n.visible <==> n.selected)
    ensures forall l :: l in r.graph.links ==>
              (l.visible <==> l.source in st.graph.selectedNodes && l.target in st.graph.selectedNodes)
  {
    var g := st.graph;
    var nodes := seq(|g.nodes|, i requires 0 <= i < |g.nodes| => g.nodes[i].(visible := g.nodes[i].selected));
    assert forall n :: n in nodes ==> exists i :: 0 <= i < |nodes| && nodes[i] == n;
    var links := ShowLinksBetween(g.links, set x | x in g.selectedNodes);
    assert forall l :: l in links ==> exists i :: 0 <= i < |links| && links[i] == l;
    st.(state := st.state.(isSelfCentric := true, selfCentricType := OnlySelected), graph := g.(nodes := nodes, links := links))
  }

  /** When the flags and the list agree, the shown nodes are exactly the
      selection, and a link shows exactly when both its ends show. */
  lemma OnlySelectedShowsSelection(st: Store)
    requires SelectionConsistent(st.graph)
    ensures VisibleNodeIds(TriggerSelectedNodes(st).graph) == set x | x in st.graph.selectedNodes
    ensures forall l :: l in TriggerSelectedNodes(st).graph.links ==>
              (l.visible <==> l.source in VisibleNodeIds(TriggerSelectedNodes(st).graph)
                              && l.target in VisibleNodeIds(TriggerSelectedNodes(st).graph))
  {
    var g := TriggerSelectedNodes(st).graph;
    var sel := set x | x in st.graph.selectedNodes;
    forall i | 0 <= i < |g.nodes|
      ensures g.nodes[i].visible <==> g.nodes[i].id in sel
    {
      assert g.nodes[i] in g.nodes;
      assert st.graph.nodes[i] in st.graph.nodes;
    }
    VisibleIdsFromRule(g, sel);
    forall x | x in sel
      ensures x in NodeIds(g.nodes)
    {
      var n :| n in st.graph.nodes && n.id == x;
      var i :| 0 <= i < |st.graph.nodes| && st.graph.nodes[i] == n;
      assert g.nodes[i] in g.nodes;
    }
  }

  // ------------------------------------------------- direct from origin

  /** The origin the direct view uses: the stored one, else the one offered
      by the context menu. */
  function AdoptedOrigin(st: Store, menuOrigin: Option<Id>): Option<Id> {
    if st.state.origin.Some? then st.state.origin else menuOrigin
  }

  /** The selection collaborator's toggle applied to an unselected node: it
      becomes selected and joins the end of the selection list. */
  function SelectNode(g: Graph, id: Id): (r: Graph)
    ensures r.selectedNodes == g.selectedNodes + [id]
    ensures forall n :: n in r.nodes && n.id == id ==> n.selected
    ensures |r.nodes| == |g.nodes|
    ensures forall i :: 0 <= i < |g.nodes| ==> r.nodes[i] == g.nodes[i].(selected := r.nodes[i].selected)
    ensures forall i :: 0 <= i < |g.nodes| && g.nodes[i].id != id ==> r.nodes[i] == g.nodes[i]
    ensures r.links == g.links && r.components == g.components
    ensures r.tableData == g.tableData && r.activeTableData == g.activeTableData
  {
    var nodes := seq(|g.nodes|, i requires 0 <= i < |g.nodes| =>
      if g.nodes[i].id == id then g.nodes[i].(selected := true) else g.nodes[i]);
    assert forall n :: n in nodes ==> exists i :: 0 <= i < |nodes| && nodes[i] == n;
    g.(nodes := nodes, selectedNodes := g.selectedNodes + [id])
  }

  /** The direct view around a resolved origin node: the origin and the ids
      in its neighbour set show, and the links with the origin at one end. */
  function ShowDirect(g: Graph, origin: Node): (r: Graph)
    ensures r == g.(nodes := r.nodes, links := r.links)
    ensures NodesAgreeExceptVisible(g.nodes, r.nodes)
    ensures LinksAgreeExceptVisible(g.links, r.links)
    ensures forall l :: l in r.links ==> (l.visible <==> l.source == origin.id || l.target == origin.id)
    ensures forall n :: n in r.nodes ==>
              (n.visible <==> n.id == origin.id || (origin.neighbours.Some? && n.id in origin.neighbours.value))
  {
    var shown := {origin.id} + (if origin.neighbours.Some? then set x | x in origin.neighbours.value else {});
    var nodes := ShowNodes(g.nodes, shown);
    var links := seq(|g.links|, i requires 0 <= i < |g.links| =>
      g.links[i].(visible := g.links[i].source == origin.id || g.links[i].target == origin.id));
    assert forall n :: n in nodes ==> exists i :: 0 <= i < |nodes| && nodes[i] == n;
    assert forall l :: l in links ==> exists i :: 0 <= i < |links| && links[i] == l;
    g.(nodes := nodes, links := links)
  }

  /** Shows the origin and its immediate neighbours, and the links that touch
      the origin. The origin is adopted from the context menu when none is
      stored and selected when it is not; without any origin the call throws. */
  function TriggerSelfCentric(st: Store, menuOrigin: Option<Id>): (r: Result<Store, Fault>)
    ensures r.Ok? <==> AdoptedOrigin(st, menuOrigin).Some? && AdoptedOrigin(st, menuOrigin).value in NodeIds(st.graph.nodes)
    ensures AdoptedOrigin(st, menuOrigin).None? ==> r == Err(NoOrigin)
    ensures r.Ok? ==> r.value.state == st.state.(origin := AdoptedOrigin(st, menuOrigin), isSelfCentric := true, selfCentricType := Direct)
    ensures r.Ok? ==> r.value.storeActiveTableData == st.storeActiveTableData
    ensures r.Ok? ==> forall l :: l in r.value.graph.links ==>
              (l.visible <==> l.source == AdoptedOrigin(st, menuOrigin).value || l.target == AdoptedOrigin(st, menuOrigin).value)
    ensures r.Ok? ==> forall n :: n in r.value.graph.nodes ==>
              (n.visible <==> n.id == AdoptedOrigin(st, menuOrigin).value
                              || n.id in Neighbours(st.graph.nodes, AdoptedOrigin(st, menuOrigin).value))
    ensures r.Ok? ==> |r.value.graph.selectedNodes| >= |st.graph.selectedNodes|
                      && r.value.graph.selectedNodes[..|st.graph.selectedNodes|] == st.graph.selectedNodes
    ensures r.Ok? && SelectionConsistent(st.graph) ==> AdoptedOrigin(st, menuOrigin).value in r.value.graph.selectedNodes
  {
    var o :- if AdoptedOrigin(st, menuOrigin).Some? then Ok(AdoptedOrigin(st, menuOrigin).value) else Err(NoOrigin);
    var found := FindNode(st.graph.nodes, o);
    if found.None? then Err(UnknownNode(o))
    else
      var origin := found.value;
      Ok(st.(state := st.state.(origin := Some(o), isSelfCentric := true, selfCentricType := Direct),
             graph := ShowDirect(SelectedForDirect(st.graph, origin), origin)))
  }

  /** The graph the direct view shows, before its visibility is set: the
      origin selected if it was not. */
  function SelectedForDirect(g: Graph, origin: Node): Graph {
    if origin.selected then g else SelectNode(g, origin.id)
  }

  /** With unique ids, every node carrying the origin's id is selected once
      the direct view has made sure of it. */
  lemma OriginSelected(g: Graph, origin: Node)
    requires UniqueIds(g.nodes) && origin in g.nodes
    ensures forall n :: n in SelectedForDirect(g, origin).nodes && n.id == origin.id ==> n.selected
  {
    var g' := SelectedForDirect(g, origin);
    if origin.selected {
      var k :| 0 <= k < |g.nodes| && g.nodes[k] == origin;
      forall n | n in g.nodes && n.id == origin.id
        ensures n.selected
      {
        var i :| 0 <= i < |g.nodes| && g.nodes[i] == n;
        assert i == k;
      }
    }
  }

  /** With unique ids, the direct view leaves its origin selected and visible. */
  lemma DirectSelectsOrigin(st: Store, menuOrigin: Option<Id>)
    requires UniqueIds(st.graph.nodes)
    requires TriggerSelfCentric(st, menuOrigin).Ok?
    ensures forall n :: (n in TriggerSelfCentric(st, menuOrigin).value.graph.nodes
                         && n.id == AdoptedOrigin(st, menuOrigin).value) ==> n.selected && n.visible
  {
    var o := AdoptedOrigin(st, menuOrigin).value;
    var origin := FindNode(st.graph.nodes, o).value;
    var g := SelectedForDirect(st.graph, origin);
    OriginSelected(st.graph, origin);
    var r := ShowDirect(g, origin);
    assert TriggerSelfCentric(st, menuOrigin).value.graph == r;
    forall n | n in r.nodes && n.id == o
      ensures n.selected
    {
      var i :| 0 <= i < |r.nodes| && r.nodes[i] == n;
      assert g.nodes[i] in g.nodes;
    }
  }

  // ------------------------------------------------- component isolation

  /** The first component carrying `id`. */
  function FindComponent(cs: seq<Component>, id: int): (r: Option<Component>)
    ensures r.Some? ==> r.value in cs && r.value.id == id
    ensures r.None? <==> forall c :: c in cs ==> c.id != id
    ensures r.Some? ==> exists i :: 0 <= i < |cs| && cs[i] == r.value
                          && forall j :: 0 <= j < i ==> cs[j].id != id
  {
    if |cs| == 0 then None
    else if cs[0].id == id then Some(cs[0])
    else
      var tail := cs[1..];
      var r := FindComponent(tail, id);
      if r.Some? then
        var i :| 0 <= i < |tail| && tail[i] == r.value
                  && forall j :: 0 <= j < i ==> tail[j].id != id;
        assert cs[i + 1] == r.value;
        r
      else r
  }

  /** The table rows whose entry is one of `entries`, in table order and
      with repeated rows kept: a subsequence of the table holding each such
      row as often as the table does and no other row. */
  function RowsWithEntries(rows: seq<TableRow>, entries: seq<Entry>): (r: seq<TableRow>)
    ensures IsSubsequence(r, rows)
    ensures forall row :: multiset(r)[row] == if row.entry in entries then multiset(rows)[row] else 0
    ensures |r| <= |rows|
    decreases |rows|
  {
    if |rows| == 0 then []
    else
      var front := rows[..|rows| - 1];
      var last := rows[|rows| - 1];
      var rest := RowsWithEntries(front, entries);
      assert rows == front + [last];
      assert multiset(rows) == multiset(front) + multiset{last};
      if last.entry in entries then
        SubsequenceSnoc(rest, front, last);
        assert multiset(rest + [last]) == multiset(rest) + multiset{last};
        rest + [last]
      else
        SubsequenceExtend(rest, front, last);
        rest
  }

  /** A row is kept iff it is in the table and its entry is one of `entries`. */
  lemma RowsWithEntriesMembers(rows: seq<TableRow>, entries: seq<Entry>)
    ensures forall row :: row in RowsWithEntries(rows, entries) <==> row in rows && row.entry in entries
  {
    var r := RowsWithEntries(rows, entries);
    forall row
      ensures row in r <==> row in rows && row.entry in entries
    {
      assert row in r <==> multiset(r)[row] > 0;
      assert row in rows <==> multiset(rows)[row] > 0;
    }
  }

  /** Order and repetition of the kept rows are fixed: any subsequence of the
      table with the counts of `RowsWithEntries` is that filter. */
  lemma RowsWithEntriesIsUnique(rows: seq<TableRow>, entries: seq<Entry>, r: seq<TableRow>)
    requires IsSubsequence(r, rows)
    requires forall row :: multiset(r)[row] == if row.entry in entries then multiset(rows)[row] else 0
    ensures r == RowsWithEntries(rows, entries)
  {
    KeptSubsequenceIsUnique(rows, r, RowsWithEntries(rows, entries), (row: TableRow) => row.entry in entries);
  }

  /** A node takes part in the component view: every node when all
      components are requested, else the nodes of the requested component. */
  predicate InComponent(n: Node, componentId: int) {
    componentId == AllComponents || n.component == componentId
  }

  function ComponentMemberIds(nodes: seq<Node>, componentId: int): set<Id> {
    set n | n in nodes && InComponent(n, componentId) :: n.id
  }

  /** The table the component view shows: the whole table for
      `AllComponents`, nothing when the component is missing, else the rows of
      the component's entries. */
  function ComponentTable(rows: seq<TableRow>, componentId: int, found: Option<Component>): (t: seq<TableRow>)
    ensures componentId == AllComponents ==> t == rows
    ensures componentId != AllComponents && found.None? ==> t == []
    ensures componentId != AllComponents && found.Some? ==> t == RowsWithEntries(rows, found.value.entries)
    ensures componentId != AllComponents && found.Some? ==>
              forall row :: row in t <==> row in rows && row.entry in found.value.entries
  {
    if componentId == AllComponents then rows
    else if found.None? then []
    else
      RowsWithEntriesMembers(rows, found.value.entries);
      RowsWithEntries(rows, found.value.entries)
  }

  /** Isolates one component, or shows every component for `AllComponents`.
      Member nodes take their default visibility and the others hide; a link
      shows when both ends are members. The table view is narrowed to the
      component's entries, and for a single component the graph store's own
      table is cleared first. Looking up a missing component throws, but only once
      a table row has to be tested against it. The self-centric fields stay. */
  function ToggleVisibleComponents(st: Store, componentId: int): (r: Result<Store, Fault>)
    ensures r.Ok? <==> (componentId == AllComponents
                        || FindComponent(st.graph.components, componentId).Some?
                        || |st.graph.tableData| == 0)
    ensures r.Err? ==> r.error == UnknownComponent(componentId)
    ensures r.Ok? ==> r.value.state == st.state.(visibleComponent := componentId)
    ensures r.Ok? ==> SameExceptVisibility(st.graph, r.value.graph.(activeTableData := st.graph.activeTableData))
    ensures r.Ok? ==> forall n :: n in r.value.graph.nodes ==>
              (n.visible <==> InComponent(n, componentId) && DefaultVisible(n, st.state.orphanNodeVisibility))
    ensures r.Ok? ==> forall l :: l in r.value.graph.links ==>
              (l.visible <==> l.source in ComponentMemberIds(st.graph.nodes, componentId)
                              && l.target in ComponentMemberIds(st.graph.nodes, componentId))
    ensures r.Ok? && componentId == AllComponents ==> r.value.graph.activeTableData == st.graph.tableData
    ensures r.Ok? && componentId != AllComponents && FindComponent(st.graph.components, componentId).Some? ==>
              r.value.graph.activeTableData == RowsWithEntries(st.graph.tableData, FindComponent(st.graph.components, componentId).value.entries)
    ensures r.Ok? && componentId != AllComponents && FindComponent(st.graph.components, componentId).Some? ==>
              forall row :: row in r.value.graph.activeTableData <==>
                row in st.graph.tableData && row.entry in FindComponent(st.graph.components, componentId).value.entries
    ensures r.Ok? && componentId != AllComponents && FindComponent(st.graph.components, componentId).None? ==>
              r.value.graph.activeTableData == []
    ensures r.Ok? && componentId == AllComponents ==> r.value.storeActiveTableData == st.storeActiveTableData
    ensures r.Ok? && componentId != AllComponents ==> r.value.storeActiveTableData == []
  {
    var g := st.graph;
    var found := FindComponent(g.components, componentId);
    if componentId != AllComponents && found.None? && |g.tableData| > 0 then Err(UnknownComponent(componentId))
    else
      var active := ComponentTable(g.tableData, componentId, found);
      var links := ShowLinksBetween(g.links, ComponentMemberIds(g.nodes, componentId));
      assert forall l :: l in links ==> exists i :: 0 <= i < |links| && links[i] == l;
      Ok(Store(st.state.(visibleComponent := componentId),
               g.(nodes := ComponentNodes(g.nodes, componentId, st.state.orphanNodeVisibility),
                  links := links, activeTableData := active),
               if componentId == AllComponents then st.storeActiveTableData else []))
  }

  /** The node flags of the component view. */
  function ComponentNodes(nodes: seq<Node>, componentId: int, orphanNodeVisibility: bool): (r: seq<Node>)
    ensures NodesAgreeExceptVisible(nodes, r)
    ensures forall n :: n in r ==> (n.visible <==> InComponent(n, componentId) && DefaultVisible(n, orphanNodeVisibility))
  {
    var r := seq(|nodes|, i requires 0 <= i < |nodes| =>
      nodes[i].(visible := InComponent(nodes[i], componentId)
                           && (if IsOrphan(nodes[i]) then orphanNodeVisibility else true)));
    assert forall n :: n in r ==> exists i :: 0 <= i < |r| && r[i] == n;
    r
  }

  /** Showing every component gives the nodes the same flags as leaving a
      self-centric view, and the links too when every link joins two nodes. */
  lemma ShowAllComponentsIsDefaultView(st: Store)
    requires st.state.isSelfCentric
    ensures ToggleVisibleComponents(st, AllComponents).value.graph.nodes == ResetSelfCentric(st).graph.nodes
    ensures (forall l :: l in st.graph.links ==> l.source in NodeIds(st.graph.nodes) && l.target in NodeIds(st.graph.nodes))
            ==> ToggleVisibleComponents(st, AllComponents).value.graph.links == ResetSelfCentric(st).graph.links
  {
    var a := ToggleVisibleComponents(st, AllComponents).value.graph;
    var b := ResetSelfCentric(st).graph;
    forall i | 0 <= i < |a.nodes|
      ensures a.nodes[i] == b.nodes[i]
    {
      assert a.nodes[i] in a.nodes && b.nodes[i] in b.nodes;
    }
    assert ComponentMemberIds(st.graph.nodes, AllComponents) == NodeIds(st.graph.nodes);
    if forall l :: l in st.graph.links ==> l.source in NodeIds(st.graph.nodes) && l.target in NodeIds(st.graph.nodes) {
      forall i | 0 <= i < |a.links|
        ensures a.links[i] == b.links[i]
      {
        assert a.links[i] in a.links && b.links[i] in b.links && st.graph.links[i] in st.graph.links;
      }
    }
  }

  /** With orphans shown, isolating a component shows exactly its nodes. */
  lemma IsolationShowsComponent(st: Store, componentId: int)
    requires st.state.orphanNodeVisibility
    requires ToggleVisibleComponents(st, componentId).Ok?
    ensures VisibleNodeIds(ToggleVisibleComponents(st, componentId).value.graph)
              == ComponentMemberIds(st.graph.nodes, componentId)
  {
    var g := ToggleVisibleComponents(st, componentId).value.graph;
    forall x | x in ComponentMemberIds(st.graph.nodes, componentId)
      ensures x in VisibleNodeIds(g)
    {
      var n :| n in st.graph.nodes && InComponent(n, componentId) && n.id == x;
      var i :| 0 <= i < |st.graph.nodes| && st.graph.nodes[i] == n;
      assert g.nodes[i] in g.nodes;
    }
    forall x | x in VisibleNodeIds(g)
      ensures x in ComponentMemberIds(st.graph.nodes, componentId)
    {
      var n :| n in g.nodes && n.visible && n.id == x;
      var i :| 0 <= i < |g.nodes| && g.nodes[i] == n;
      assert st.graph.nodes[i] in st.graph.nodes;
    }
  }

  // ------------------------------------------------------------- toggles

  /** `true` switches link display on; any falsy argument flips the current
      setting instead of switching it off. */
  function ToggleLinkVisibility(s: State, val: bool): (r: State)
    ensures r == s.(linkVisibility := r.linkVisibility)
    ensures val ==> r.linkVisibility
    ensures !val ==> r.linkVisibility == !s.linkVisibility
  {
    s.(linkVisibility := if val then val else !s.linkVisibility)
  }

  /** Two calls with `false` come back to where they started. */
  lemma ToggleLinkVisibilityFalseTwice(s: State)
    ensures ToggleLinkVisibility(ToggleLinkVisibility(s, false), false) == s
  {
  }

  function SetOrphanNodeVisibility(s: State, val: bool): (r: State)
    ensures r.orphanNodeVisibility == val
    ensures r == s.(orphanNodeVisibility := r.orphanNodeVisibility)
  {
    s.(orphanNodeVisibility := val)
  }

  function ToggleOrphanNodeVisibility(s: State): (r: State)
    ensures r.orphanNodeVisibility == !s.orphanNodeVisibility
    ensures r == s.(orphanNodeVisibility := r.orphanNodeVisibility)
  {
    SetOrphanNodeVisibility(s, !s.orphanNodeVisibility)
  }
}
