/** The settings step of a dataset upload: from the per-column settings the
    user chose, the dimension lists of the dataset's config, the column
    renaming, and the documents indexed for every row. */
module DatasetConfig {
  import opened Wrappers
  import opened Seqs

  /** The settings of one column: its display name and four flags. */
  datatype Dimension = Dimension(
    name: string,
    isDefaultVisible: bool,
    isDefaultSearch: bool,
    isDefaultLink: bool,
    removeIfNull: bool)

  /** The settings object: column key and settings, in key order. A settings
      object has each key once. */
  type Defaults = seq<(string, Dimension)>

  predicate UniqueKeys(defaults: Defaults) {
    forall i, j :: 0 <= i < j < |defaults| ==> defaults[i].0 != defaults[j].0
  }

  /** The four flags a dimension list is chosen by. */
  datatype Flag = VisibleFlag | SearchFlag | LinkFlag | NullFlag

  predicate Flagged(d: Dimension, f: Flag) {
    match f
    case VisibleFlag => d.isDefaultVisible
    case SearchFlag => d.isDefaultSearch
    case LinkFlag => d.isDefaultLink
    case NullFlag => d.removeIfNull
  }

  /** The positions among the first `k` keys whose settings carry the flag, in order. */
  function FlaggedPositions(defaults: Defaults, f: Flag, k: nat): (ps: seq<nat>)
    requires k <= |defaults|
    ensures Increasing(ps)
    ensures forall j :: 0 <= j < |ps| ==> ps[j] < k
    ensures forall i :: 0 <= i < k ==> (i in ps <==> Flagged(defaults[i].1, f))
    decreases k
  {
    if k == 0 then []
    else
      var ps := FlaggedPositions(defaults, f, k - 1);
      if Flagged(defaults[k - 1].1, f) then ps + [k - 1] else ps
  }

  /** The names of the first `k` keys whose settings carry the flag, in key
      order: the loop each `get_default_*` helper runs. */
  function NamesWhere(defaults: Defaults, f: Flag, k: nat): (r: seq<string>)
    requires k <= |defaults|
    ensures |r| == |FlaggedPositions(defaults, f, k)|
    ensures forall j :: 0 <= j < |r| ==> r[j] == defaults[FlaggedPositions(defaults, f, k)[j]].1.name
    decreases k
  {
    if k == 0 then []
    else
      var r := NamesWhere(defaults, f, k - 1);
      if Flagged(defaults[k - 1].1, f) then r + [defaults[k - 1].1.name] else r
  }

  /** A name is in a flag list exactly when some key carrying the flag has it. */
  lemma NamesWhereMembers(defaults: Defaults, f: Flag)
    ensures forall x :: x in NamesWhere(defaults, f, |defaults|) <==>
              exists i :: 0 <= i < |defaults| && Flagged(defaults[i].1, f) && defaults[i].1.name == x
  {
    var r := NamesWhere(defaults, f, |defaults|);
    var ps := FlaggedPositions(defaults, f, |defaults|);
    forall x | x in r
      ensures exists i :: 0 <= i < |defaults| && Flagged(defaults[i].1, f) && defaults[i].1.name == x
    {
      var j :| 0 <= j < |r| && r[j] == x;
      assert ps[j] in ps;
    }
    forall i | 0 <= i < |defaults| && Flagged(defaults[i].1, f)
      ensures defaults[i].1.name in r
    {
      var j :| 0 <= j < |ps| && ps[j] == i;
      assert r[j] == defaults[i].1.name;
    }
  }

  /** `get_default_visible_dimensions`. */
  function DefaultVisibleDimensions(defaults: Defaults): (r: seq<string>)
    ensures forall x :: x in r <==> exists i :: 0 <= i < |defaults| && defaults[i].1.isDefaultVisible && defaults[i].1.name == x
  {
    NamesWhereMembers(defaults, VisibleFlag);
    NamesWhere(defaults, VisibleFlag, |defaults|)
  }

  /** `get_default_searchable_dimensions`. */
  function DefaultSearchableDimensions(defaults: Defaults): (r: seq<string>)
    ensures forall x :: x in r <==> exists i :: 0 <= i < |defaults| && defaults[i].1.isDefaultSearch && defaults[i].1.name == x
  {
    NamesWhereMembers(defaults, SearchFlag);
    NamesWhere(defaults, SearchFlag, |defaults|)
  }

  /** `get_default_link_dimensions`. */
  function DefaultLinkDimensions(defaults: Defaults): (r: seq<string>)
    ensures forall x :: x in r <==> exists i :: 0 <= i < |defaults| && defaults[i].1.isDefaultLink && defaults[i].1.name == x
  {
    NamesWhereMembers(defaults, LinkFlag);
    NamesWhere(defaults, LinkFlag, |defaults|)
  }

  /** `get_remove_row_if_null_dimensions`. */
  function RemoveRowIfNullDimensions(defaults: Defaults): (r: seq<string>)
    ensures forall x :: x in r <==> exists i :: 0 <= i < |defaults| && defaults[i].1.removeIfNull && defaults[i].1.name == x
  {
    NamesWhereMembers(defaults, NullFlag);
    NamesWhere(defaults, NullFlag, |defaults|)
  }

  /** Every column's name, in key order. */
  function Dimensions(defaults: Defaults): (r: seq<string>)
    ensures |r| == |defaults|
    ensures forall i :: 0 <= i < |defaults| ==> r[i] == defaults[i].1.name
  {
    seq(|defaults|, i requires 0 <= i < |defaults| => defaults[i].1.name)
  }

  /** One more key adds its name to the flag list exactly when it carries the flag. */
  lemma NamesWhereStep(defaults: Defaults, f: Flag, k: nat)
    requires 0 < k <= |defaults|
    ensures NamesWhere(defaults, f, k) ==
              if Flagged(defaults[k - 1].1, f) then NamesWhere(defaults, f, k - 1) + [defaults[k - 1].1.name]
              else NamesWhere(defaults, f, k - 1)
  {
  }

  /** The first `k` names are the first `k - 1` with the `k`-th appended. */
  lemma DimensionsPrefixStep(defaults: Defaults, k: nat)
    requires 0 < k <= |defaults|
    ensures Dimensions(defaults)[..k] == Dimensions(defaults)[..k - 1] + [defaults[k - 1].1.name]
  {
    var all := Dimensions(defaults);
    assert all[k - 1] == defaults[k - 1].1.name;
  }

  /** Taking one more key keeps the flag list a subsequence of the names. */
  lemma FlagListStep(defaults: Defaults, f: Flag, k: nat)
    requires 0 < k <= |defaults|
    requires IsSubsequence(NamesWhere(defaults, f, k - 1), Dimensions(defaults)[..k - 1])
    ensures IsSubsequence(NamesWhere(defaults, f, k), Dimensions(defaults)[..k])
  {
    DimensionsPrefixStep(defaults, k);
    NamesWhereStep(defaults, f, k);
    SubsequenceStep(NamesWhere(defaults, f, k - 1), Dimensions(defaults)[..k - 1], defaults[k - 1].1.name,
                    Flagged(defaults[k - 1].1, f), NamesWhere(defaults, f, k), Dimensions(defaults)[..k]);
  }

  /** A flag list is the full name list with the unflagged names left out. */
  lemma {:induction false} FlagListIsSubsequence(defaults: Defaults, f: Flag, k: nat)
    requires k <= |defaults|
    ensures IsSubsequence(NamesWhere(defaults, f, k), Dimensions(defaults)[..k])
    decreases k
  {
    if k > 0 {
      FlagListIsSubsequence(defaults, f, k - 1);
      FlagListStep(defaults, f, k);
    }
  }

  /** The renaming built from the first `k` keys: each key whose name differs from it. */
  function RenamedUpTo(defaults: Defaults, k: nat): (m: map<string, string>)
    requires k <= |defaults|
    ensures forall key :: key in m <==> exists i :: 0 <= i < k && defaults[i].0 == key && defaults[i].1.name != key
    ensures UniqueKeys(defaults) ==>
              forall i :: 0 <= i < k && defaults[i].1.name != defaults[i].0 ==> m[defaults[i].0] == defaults[i].1.name
    decreases k
  {
    if k == 0 then map[]
    else
      var m := RenamedUpTo(defaults, k - 1);
      var (key, d) := defaults[k - 1];
      if d.name != key then m[key := d.name] else m
  }

  /** `get_renamed_dimensions`. */
  function RenamedDimensions(defaults: Defaults): (m: map<string, string>)
    ensures forall key :: key in m <==> exists i :: 0 <= i < |defaults| && defaults[i].0 == key && defaults[i].1.name != key
    ensures UniqueKeys(defaults) ==>
              forall i :: 0 <= i < |defaults| && defaults[i].1.name != defaults[i].0 ==> m[defaults[i].0] == defaults[i].1.name
  {
    RenamedUpTo(defaults, |defaults|)
  }

  /** The renaming is empty exactly when every column keeps its key as its name. */
  lemma NoRenamingWhenNamesAreKeys(defaults: Defaults)
    ensures RenamedDimensions(defaults) == map[] <==> forall i :: 0 <= i < |defaults| ==> defaults[i].1.name == defaults[i].0
  {
    var m := RenamedDimensions(defaults);
    if m != map[] {
      var key :| key in m;
      var i :| 0 <= i < |defaults| && defaults[i].0 == key && defaults[i].1.name != key;
    } else {
      forall i | 0 <= i < |defaults|
        ensures defaults[i].1.name == defaults[i].0
      {
        assert defaults[i].0 !in m;
      }
    }
  }

  /** A relation schema of the config. */
  datatype Schema = Schema(name: string, relations: seq<string>)

  /** The config file written for a dataset. */
  datatype Config = Config(
    defaultVisibleDimensions: seq<string>,
    anchor: string,
    links: seq<string>,
    defaultSearchFields: seq<string>,
    schemas: seq<Schema>)

  /** The config `set_defaults` writes. */
  function DefaultConfig(defaults: Defaults, anchor: string): (c: Config)
    ensures c.anchor == anchor
    ensures forall x :: x in c.defaultVisibleDimensions <==>
              exists i :: 0 <= i < |defaults| && defaults[i].1.isDefaultVisible && defaults[i].1.name == x
    ensures forall x :: x in c.links <==>
              exists i :: 0 <= i < |defaults| && defaults[i].1.isDefaultLink && defaults[i].1.name == x
    ensures forall x :: x in c.defaultSearchFields <==>
              exists i :: 0 <= i < |defaults| && defaults[i].1.isDefaultSearch && defaults[i].1.name == x
    ensures |c.schemas| == 1 && c.schemas[0].name == "default" && c.schemas[0].relations == []
  {
    Config(
      DefaultVisibleDimensions(defaults),
      anchor,
      DefaultLinkDimensions(defaults),
      DefaultSearchableDimensions(defaults),
      [Schema("default", [])])
  }

  /** Reading a cell of a column the row does not have throws. */
  datatype EntryFault = MissingColumn(column: string)

  /** The first of `columns` the row lacks, if any. */
  function FirstMissingColumn<C>(row: map<string, C>, columns: seq<string>): (r: Option<string>)
    ensures r.None? <==> forall c :: c in columns ==> c in row
    ensures r.Some? ==> r.value in columns && r.value !in row
  {
    if |columns| == 0 then None
    else if columns[0] !in row then Some(columns[0])
    else
      assert forall c :: c in columns <==> c == columns[0] || c in columns[1..];
      FirstMissingColumn(row, columns[1..])
  }

  /** The document indexed for one row: every column's cell as text, then
      the index name under `_index`. */
  function Document<C>(row: map<string, C>, columns: seq<string>, index: string, show: C -> string): (r: Result<map<string, string>, EntryFault>)
    ensures r.Ok? <==> forall c :: c in columns ==> c in row
    ensures r.Ok? ==> r.value.Keys == (set c | c in columns) + {"_index"}
    ensures r.Ok? ==> r.value["_index"] == index
    ensures r.Ok? ==> forall c :: c in columns && c != "_index" ==> r.value[c] == show(row[c])
  {
    match FirstMissingColumn(row, columns)
    case Some(c) => Err(MissingColumn(c))
    case None => Ok((map c | c in columns :: show(row[c]))["_index" := index])
  }

  /** The documents of `generateEntriesFromDataFrame`, one per row in order,
      or the fault of the first row that lacks a column. */
  function GenerateEntries<C>(rows: seq<map<string, C>>, columns: seq<string>, index: string, show: C -> string): (r: Result<seq<map<string, string>>, EntryFault>)
    ensures r.Ok? <==> forall i :: 0 <= i < |rows| ==> Document(rows[i], columns, index, show).Ok?
    ensures r.Ok? ==> |r.value| == |rows|
    ensures r.Ok? ==> forall i :: 0 <= i < |rows| ==> r.value[i] == Document(rows[i], columns, index, show).value
    decreases |rows|
  {
    if |rows| == 0 then Ok([])
    else
      var doc :- Document(rows[0], columns, index, show);
      var tail := rows[1..];
      var rest :- GenerateEntries(tail, columns, index, show);
      assert forall i :: 1 <= i < |rows| ==> rows[i] == tail[i - 1];
      Ok([doc] + rest)
  }

  /** Every indexed document has exactly the dimension columns and `_index`,
      holds each cell as text and names the index it goes to. */
  lemma EntriesCarryColumnsAndIndex<C>(rows: seq<map<string, C>>, columns: seq<string>, index: string, show: C -> string, i: nat)
    requires GenerateEntries(rows, columns, index, show).Ok?
    requires i < |rows|
    ensures var doc := GenerateEntries(rows, columns, index, show).value[i];
            && doc.Keys == (set c | c in columns) + {"_index"}
            && doc["_index"] == index
            && forall c :: c in columns && c != "_index" ==> doc[c] == show(rows[i][c])
  {
  }
}
