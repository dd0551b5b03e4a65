/** The table join of the search route: each search hit gets, for every graph
    node built from it, a `{feature}_{label}_id` column holding that node's
    id. Values are of a type `V` the model does not look into. */
module TableJoin {
  import opened Wrappers

  /** A node of the graph sent back by the server: its id, the feature and
      label it stands for, and the entries (hit ids) it was built from. */
  datatype ServerNode<V> = ServerNode(id: V, feature: string, labelText: string, entries: seq<V>)

  /** A hit as a column-to-value mapping. */
  type Row<V> = map<string, V>

  /** Why the join throws: a hit without an `entry` column, or an entry that
      no node was built from. */
  datatype JoinFault<V> = MissingEntryColumn | UnknownEntry(entry: V)

  /** The column a node's id is written to. */
  function IdColumn<V(==,!new)>(n: ServerNode<V>): string {
    n.feature + "_" + n.labelText + "_id"
  }

  /** Every entry of every node. */
  function AllEntries<V(==,!new)>(nodes: seq<ServerNode<V>>): set<V> {
    set i, e | 0 <= i < |nodes| && e in nodes[i].entries :: e
  }

  /** The first pass: an empty mapping for every entry of every node. */
  function Skeleton<V(==,!new)>(nodes: seq<ServerNode<V>>): (m: map<V, Row<V>>)
    ensures m.Keys == AllEntries(nodes)
    ensures forall e :: e in m ==> m[e] == map[]
  {
    map e | e in AllEntries(nodes) :: map[]
  }

  /** Writes `col := id` into the mapping of each of `entries`. */
  function TagEntries<V(==,!new)>(m: map<V, Row<V>>, entries: seq<V>, col: string, id: V): (r: map<V, Row<V>>)
    requires forall e :: e in entries ==> e in m
    ensures r.Keys == m.Keys
    ensures forall e :: e in m ==> r[e] == if e in entries then m[e][col := id] else m[e]
    decreases |entries|
  {
    if |entries| == 0 then m
    else
      var e := entries[0];
      var r := TagEntries(m[e := m[e][col := id]], entries[1..], col, id);
      assert forall x :: x in entries <==> x == e || x in entries[1..];
      r
  }

  /** Node `i` is the last of the first `k` nodes built from `e` that writes column `c`. */
  predicate LastTagger<V(==,!new)>(nodes: seq<ServerNode<V>>, k: nat, e: V, c: string, i: nat)
    requires k <= |nodes|
  {
    && i < k && e in nodes[i].entries && IdColumn(nodes[i]) == c
    && forall j :: i < j < k && e in nodes[j].entries ==> IdColumn(nodes[j]) != c
  }

  /** Every id column written for an entry holds the id of its last writer. */
  ghost predicate LastWriterWins<V(!new)>(nodes: seq<ServerNode<V>>, k: nat, m: map<V, Row<V>>)
    requires k <= |nodes|
  {
    forall e, c :: e in m && c in m[e] ==> exists i: nat :: LastTagger(nodes, k, e, c, i) && m[e][c] == nodes[i].id
  }

  /** Every node among the first `k` has written its id column for each of its entries. */
  ghost predicate AllWritten<V(!new)>(nodes: seq<ServerNode<V>>, k: nat, m: map<V, Row<V>>)
    requires k <= |nodes|
  {
    forall e, i :: 0 <= i < k && e in nodes[i].entries ==> e in m && IdColumn(nodes[i]) in m[e]
  }

  /** The entries of one node are entries of the node list. */
  lemma EntriesOfNode<V(!new)>(nodes: seq<ServerNode<V>>, i: nat)
    requires i < |nodes|
    ensures forall e :: e in nodes[i].entries ==> e in AllEntries(nodes)
  {
  }

  /** Tagging the entries of node `k - 1` writes its column for each of them. */
  lemma TagStepWritten<V(!new)>(nodes: seq<ServerNode<V>>, k: nat, prev: map<V, Row<V>>)
    requires 0 < k <= |nodes|
    requires prev.Keys == AllEntries(nodes)
    requires AllWritten(nodes, k - 1, prev)
    ensures AllWritten(nodes, k, TagEntries(prev, nodes[k - 1].entries, IdColumn(nodes[k - 1]), nodes[k - 1].id))
  {
    EntriesOfNode(nodes, k - 1);
  }

  /** Tagging the entries of node `k - 1` makes it the last writer of its
      column for them and leaves every other column's last writer alone. */
  lemma TagStepLastWriter<V(!new)>(nodes: seq<ServerNode<V>>, k: nat, prev: map<V, Row<V>>)
    requires 0 < k <= |nodes|
    requires prev.Keys == AllEntries(nodes)
    requires LastWriterWins(nodes, k - 1, prev)
    ensures LastWriterWins(nodes, k, TagEntries(prev, nodes[k - 1].entries, IdColumn(nodes[k - 1]), nodes[k - 1].id))
  {
    var n := nodes[k - 1];
    EntriesOfNode(nodes, k - 1);
    var m := TagEntries(prev, n.entries, IdColumn(n), n.id);
    forall e, c | e in m && c in m[e]
      ensures exists i: nat :: LastTagger(nodes, k, e, c, i) && m[e][c] == nodes[i].id
    {
      if e in n.entries && c == IdColumn(n) {
        assert LastTagger(nodes, k, e, c, k - 1);
      } else {
        var i: nat :| LastTagger(nodes, k - 1, e, c, i) && prev[e][c] == nodes[i].id;
        assert LastTagger(nodes, k, e, c, i);
      }
    }
  }

  /** The second pass over the first `k` nodes. */
  function TagUpTo<V(==,!new)>(nodes: seq<ServerNode<V>>, k: nat): (m: map<V, Row<V>>)
    requires k <= |nodes|
    ensures m.Keys == AllEntries(nodes)
    ensures LastWriterWins(nodes, k, m)
    ensures AllWritten(nodes, k, m)
    decreases k
  {
    if k == 0 then Skeleton(nodes)
    else
      var prev := TagUpTo(nodes, k - 1);
      EntriesOfNode(nodes, k - 1);
      TagStepWritten(nodes, k, prev);
      TagStepLastWriter(nodes, k, prev);
      TagEntries(prev, nodes[k - 1].entries, IdColumn(nodes[k - 1]), nodes[k - 1].id)
  }

  /** Entry to id columns: what the two passes build. */
  function DataEntries<V(==,!new)>(nodes: seq<ServerNode<V>>): (m: map<V, Row<V>>)
    ensures m.Keys == AllEntries(nodes)
    ensures LastWriterWins(nodes, |nodes|, m)
    ensures AllWritten(nodes, |nodes|, m)
  {
    TagUpTo(nodes, |nodes|)
  }

  /** Every hit has an entry column naming an entry some node was built from. */
  predicate Joinable<V(==,!new)>(d: map<V, Row<V>>, rows: seq<Row<V>>) {
    forall i :: 0 <= i < |rows| ==> "entry" in rows[i] && rows[i]["entry"] in d
  }

  /** A hit spread over its entry's id columns: every column of either, the
      hit's own value winning on a clash. */
  function MergeRow<V(==,!new)>(ids: Row<V>, row: Row<V>): (r: Row<V>)
    ensures r.Keys == row.Keys + ids.Keys
    ensures forall c :: c in row ==> r[c] == row[c]
    ensures forall c :: c !in row && c in ids ==> r[c] == ids[c]
  {
    ids + row
  }

  /** Each hit merged over its entry's id columns; the first hit that cannot
      be joined throws. */
  function JoinRows<V(==,!new)>(d: map<V, Row<V>>, rows: seq<Row<V>>): (r: Result<seq<Row<V>>, JoinFault<V>>)
    ensures r.Ok? <==> Joinable(d, rows)
    ensures r.Ok? ==> |r.value| == |rows|
    ensures r.Ok? ==> forall i :: 0 <= i < |rows| ==> r.value[i] == MergeRow(d[rows[i]["entry"]], rows[i])
    decreases |rows|
  {
    if |rows| == 0 then Ok([])
    else
      var row := rows[0];
      if "entry" !in row then Err(MissingEntryColumn)
      else if row["entry"] !in d then Err(UnknownEntry(row["entry"]))
      else
        var rest :- JoinRows(d, rows[1..]);
        assert forall i :: 1 <= i < |rows| ==> rows[i] == rows[1..][i - 1];
        Ok([MergeRow(d[row["entry"]], row)] + rest)
  }

  /** The join of the search route. */
  function ConvertTableData<V(==,!new)>(nodes: seq<ServerNode<V>>, rows: seq<Row<V>>): (r: Result<seq<Row<V>>, JoinFault<V>>)
    ensures r.Ok? <==> forall i :: 0 <= i < |rows| ==> "entry" in rows[i] && rows[i]["entry"] in AllEntries(nodes)
    ensures r.Ok? ==> |r.value| == |rows|
    ensures r.Ok? ==> forall i, c :: 0 <= i < |rows| && c in rows[i] ==> c in r.value[i] && r.value[i][c] == rows[i][c]
  {
    var d := DataEntries(nodes);
    var r := JoinRows(d, rows);
    assert r.Ok? ==> forall i :: 0 <= i < |rows| ==> r.value[i] == MergeRow(d[rows[i]["entry"]], rows[i]);
    r
  }

  /** The joined hit at `i` is the hit spread over its entry's id columns. */
  lemma JoinedRowAt<V(!new)>(nodes: seq<ServerNode<V>>, rows: seq<Row<V>>, i: nat)
    requires ConvertTableData(nodes, rows).Ok?
    requires i < |rows|
    ensures "entry" in rows[i] && rows[i]["entry"] in DataEntries(nodes)
    ensures ConvertTableData(nodes, rows).value[i] == MergeRow(DataEntries(nodes)[rows[i]["entry"]], rows[i])
  {
  }

  /** A joined hit carries, for every node built from its entry, that node's
      id column, unless the hit has the column itself. */
  lemma JoinedRowCarriesNodeIds<V(!new)>(nodes: seq<ServerNode<V>>, rows: seq<Row<V>>, i: nat, k: nat)
    requires ConvertTableData(nodes, rows).Ok?
    requires i < |rows| && k < |nodes|
    requires rows[i]["entry"] in nodes[k].entries && IdColumn(nodes[k]) !in rows[i]
    ensures IdColumn(nodes[k]) in ConvertTableData(nodes, rows).value[i]
  {
    JoinedRowAt(nodes, rows, i);
  }

  /** An id column a joined hit got from the join holds the id of the last
      node built from the hit's entry that writes that column. */
  lemma JoinedIdIsLastWriters<V(!new)>(nodes: seq<ServerNode<V>>, rows: seq<Row<V>>, i: nat, c: string)
    requires ConvertTableData(nodes, rows).Ok?
    requires i < |rows| && c !in rows[i] && c in ConvertTableData(nodes, rows).value[i]
    ensures exists k: nat :: LastTagger(nodes, |nodes|, rows[i]["entry"], c, k)
                             && ConvertTableData(nodes, rows).value[i][c] == nodes[k].id
  {
    JoinedRowAt(nodes, rows, i);
    var d := DataEntries(nodes);
    var e := rows[i]["entry"];
    assert c in d[e];
    var k: nat :| LastTagger(nodes, |nodes|, e, c, k) && d[e][c] == nodes[k].id;
  }
}
