/** The engine's own fields: why the current subset is shown (the
    self-centric mode), the origin node, and the display switches. */
module EngineState {
  import opened Wrappers
  import opened GraphModel

  /** The self-centric types. There is no "none" value: the store starts in
      `Direct`, and `SelectedComponent` is declared but never assigned. */
  datatype Mode =
    | Direct
    | Intersection
    | Union
    | OriginIntersection
    | OnlySelected
    | SameEntry
    | SelectedComponent

  datatype State = State(
    isSelfCentric: bool,
    selfCentricType: Mode,
    origin: Option<Id>,
    linkVisibility: bool,
    orphanNodeVisibility: bool,
    visibleComponent: int)

  /** The engine's fields together with the graph it filters and the graph
      store's own `activeTableData` field, which is separate from the
      graph's. */
  datatype Store = Store(state: State, graph: Graph, storeActiveTableData: seq<TableRow>)

  /** The component id that stands for "every component". */
  const AllComponents: int := -1

  /** The field values a fresh store starts with. */
  function Initial(): (s: State)
    ensures !s.isSelfCentric && s.origin.None? && s.visibleComponent == AllComponents
    ensures s.selfCentricType == Direct && s.linkVisibility && s.orphanNodeVisibility
  {
    State(false, Direct, None, true, true, AllComponents)
  }
}
