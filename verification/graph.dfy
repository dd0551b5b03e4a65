/** The node/link graph the visibility engine works on (the store's
    `currentGraphData`). Node objects that the store shares by reference
    (selected nodes, cached neighbour objects, the origin) are held here by id
    and resolved with `FindNode`, which behaves like JavaScript's `find`. */
module GraphModel {
  import opened Wrappers

  type Id = int
  type Entry = string

  /** One node. `neighbours` is the adjacency Set in insertion order, or None
      when the field is absent; `neighbourObjects` is the cached list of the
      neighbouring node objects; `entries` are the data rows the node came from. */
  datatype Node = Node(
    id: Id,
    neighbours: Option<seq<Id>>,
    neighbourObjects: seq<Id>,
    entries: seq<Entry>,
    component: int,
    selected: bool,
    visible: bool)

  datatype Link = Link(source: Id, target: Id, visible: bool)

  /** A precomputed connected component with the entries of all its nodes. */
  datatype Component = Component(id: int, entries: seq<Entry>)

  /** One row of the table view; `entry` is the data row's identifier. */
  datatype TableRow = TableRow(entry: Entry, cells: map<string, string>)

  datatype Graph = Graph(
    nodes: seq<Node>,
    links: seq<Link>,
    selectedNodes: seq<Id>,
    components: seq<Component>,
    tableData: seq<TableRow>,
    activeTableData: seq<TableRow>)

  /** What makes an operation throw: a missing origin, an id no node carries,
      a node without a neighbour set, a component id no component carries. */
  datatype Fault =
    | NoOrigin
    | UnknownNode(id: Id)
    | NoNeighbourSet(node: Id)
    | UnknownComponent(component: int)

  /** An orphan has no neighbours: the field is absent or holds nothing. */
  predicate IsOrphan(n: Node) {
    n.neighbours.None? || |n.neighbours.value| == 0
  }

  function NodeIds(nodes: seq<Node>): set<Id> {
    set n | n in nodes :: n.id
  }

  /** The first node carrying `id`. */
  function FindNode(nodes: seq<Node>, id: Id): (r: Option<Node>)
    ensures r.Some? ==> r.value in nodes && r.value.id == id
    ensures r.None? <==> id !in NodeIds(nodes)
    ensures r.Some? ==> exists i :: 0 <= i < |nodes| && nodes[i] == r.value
                          && forall j :: 0 <= j < i ==> nodes[j].id != id
  {
    if |nodes| == 0 then None
    else if nodes[0].id == id then Some(nodes[0])
    else
      var r := FindNode(nodes[1..], id);
      assert NodeIds(nodes) == {nodes[0].id} + NodeIds(nodes[1..]) by {
        assert forall n :: n in nodes <==> n == nodes[0] || n in nodes[1..];
      }
      if r.Some? then
        var i :| 0 <= i < |nodes[1..]| && nodes[1..][i] == r.value
                  && forall j :: 0 <= j < i ==> nodes[1..][j].id != id;
        assert nodes[i + 1] == r.value;
        r
      else r
  }

  /** A node is found by its id and has a neighbour set. */
  predicate Resolvable(nodes: seq<Node>, id: Id) {
    FindNode(nodes, id).Some? && FindNode(nodes, id).value.neighbours.Some?
  }

  /** The neighbour ids of the node carrying `id`, or nothing when it cannot be resolved. */
  function Neighbours(nodes: seq<Node>, id: Id): seq<Id> {
    if Resolvable(nodes, id) then FindNode(nodes, id).value.neighbours.value else []
  }

  /** No two nodes carry the same id. */
  predicate UniqueIds(nodes: seq<Node>) {
    forall i, j :: 0 <= i < |nodes| && 0 <= j < |nodes| && nodes[i].id == nodes[j].id ==> i == j
  }

  /** The `selected` flags and the `selectedNodes` list describe the same nodes. */
  predicate SelectionConsistent(g: Graph) {
    && (forall n :: n in g.nodes ==> (n.selected <==> n.id in g.selectedNodes))
    && (forall x :: x in g.selectedNodes ==> x in NodeIds(g.nodes))
  }

  /** Every cached neighbour object is a node of the graph. */
  predicate ObjectsResolve(g: Graph) {
    forall n, c :: n in g.nodes && c in n.neighbourObjects ==> c in NodeIds(g.nodes)
  }

  function VisibleNodeIds(g: Graph): set<Id> {
    set n | n in g.nodes && n.visible :: n.id
  }

  /** `b` is `a` with possibly other `visible` flags. */
  predicate NodesAgreeExceptVisible(a: seq<Node>, b: seq<Node>) {
    |a| == |b| && forall i :: 0 <= i < |a| ==> b[i] == a[i].(visible := b[i].visible)
  }

  predicate LinksAgreeExceptVisible(a: seq<Link>, b: seq<Link>) {
    |a| == |b| && forall i :: 0 <= i < |a| ==> b[i] == a[i].(visible := b[i].visible)
  }

  /** Nothing but the visibility flags of nodes and links differs. */
  predicate SameExceptVisibility(g: Graph, g': Graph) {
    && NodesAgreeExceptVisible(g.nodes, g'.nodes)
    && LinksAgreeExceptVisible(g.links, g'.links)
    && g'.selectedNodes == g.selectedNodes
    && g'.components == g.components
    && g'.tableData == g.tableData
    && g'.activeTableData == g.activeTableData
  }

  /** Every node shows exactly when its id is in `shown`. */
  function ShowNodes(nodes: seq<Node>, shown: set<Id>): (r: seq<Node>)
    ensures NodesAgreeExceptVisible(nodes, r)
    ensures forall i :: 0 <= i < |r| ==> (r[i].visible <==> r[i].id in shown)
  {
    seq(|nodes|, i requires 0 <= i < |nodes| => nodes[i].(visible := nodes[i].id in shown))
  }

  /** Every link shows exactly when both its ends are in `shown`. */
  function ShowLinksBetween(links: seq<Link>, shown: set<Id>): (r: seq<Link>)
    ensures LinksAgreeExceptVisible(links, r)
    ensures forall i :: 0 <= i < |r| ==> (r[i].visible <==> r[i].source in shown && r[i].target in shown)
  {
    seq(|links|, i requires 0 <= i < |links| =>
      links[i].(visible := links[i].source in shown && links[i].target in shown))
  }

  /** When each node shows exactly if its id is in `shown`, the shown ids are
      the node ids that `shown` holds. */
  lemma VisibleIdsFromRule(g: Graph, shown: set<Id>)
    requires forall i :: 0 <= i < |g.nodes| ==> (g.nodes[i].visible <==> g.nodes[i].id in shown)
    ensures VisibleNodeIds(g) == shown * NodeIds(g.nodes)
  {
    forall x | x in shown * NodeIds(g.nodes)
      ensures x in VisibleNodeIds(g)
    {
      var n :| n in g.nodes && n.id == x;
      var i :| 0 <= i < |g.nodes| && g.nodes[i] == n;
    }
    forall x | x in VisibleNodeIds(g)
      ensures x in shown * NodeIds(g.nodes)
    {
      var n :| n in g.nodes && n.visible && n.id == x;
      var i :| 0 <= i < |g.nodes| && g.nodes[i] == n;
    }
  }
}
