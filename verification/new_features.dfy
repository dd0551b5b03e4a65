/** The names of the features an advanced search adds to its results,
    collected over the query tree. A `connect` query gives one nested list per
    sub-query, a query that names a new feature gives that name followed by
    its sub-query's names, a leaf gives nothing, and any other query passes
    its sub-query's list on with the falsy items (empty names, empty lists)
    removed. */
module NewFeatures {
  import opened Wrappers
  import opened Seqs

  /** A node of the query tree: the action, the name of the feature it adds,
      and its sub-query and sub-query list; any of them may be missing. */
  datatype Query = Query(
    action: Option<string>,
    newFeatureName: Option<string>,
    sub: Option<Query>,
    subs: SubQueries)

  /** The `queries` key of a query: missing, or a list of sub-queries. */
  datatype SubQueries = NoQueries | Queries(items: seq<Query>)

  /** An item of the collected list: a feature name or a nested list. */
  datatype Feat = Name(name: string) | Group(items: seq<Feat>)

  /** Reading a key the query does not have throws. */
  datatype FeatureFault = MissingKey(key: string)

  /** The truthiness of an item: a non-empty name or a non-empty list. */
  predicate Truthy(f: Feat) {
    match f
    case Name(n) => |n| > 0
    case Group(items) => |items| > 0
  }

  /** The truthy items, in order: `list(filter(None, fs))`. The result is
      a subsequence of `fs` holding every truthy item as often as `fs` does
      and no falsy item, which determines it. */
  function KeepTruthy(fs: seq<Feat>): (r: seq<Feat>)
    ensures IsSubsequence(r, fs)
    ensures forall f :: multiset(r)[f] == if Truthy(f) then multiset(fs)[f] else 0
    decreases |fs|
  {
    if |fs| == 0 then []
    else
      var front := fs[..|fs| - 1];
      var last := fs[|fs| - 1];
      var rest := KeepTruthy(front);
      assert fs == front + [last];
      assert multiset(fs) == multiset(front) + multiset{last};
      if Truthy(last) then
        SubsequenceSnoc(rest, front, last);
        assert multiset(rest + [last]) == multiset(rest) + multiset{last};
        rest + [last]
      else
        SubsequenceExtend(rest, front, last);
        rest
  }

  /** An item is kept iff it occurs in `fs` and is truthy. */
  lemma KeepTruthyMembers(fs: seq<Feat>)
    ensures forall f :: f in KeepTruthy(fs) <==> f in fs && Truthy(f)
  {
    var r := KeepTruthy(fs);
    forall f
      ensures f in r <==> f in fs && Truthy(f)
    {
      assert f in r <==> multiset(r)[f] > 0;
      assert f in fs <==> multiset(fs)[f] > 0;
    }
  }

  /** The truthy subsequence is the only subsequence of `fs` that holds
      every truthy item as often as `fs` does and no falsy item. */
  lemma TruthySubsequenceIsUnique(fs: seq<Feat>, r: seq<Feat>)
    requires IsSubsequence(r, fs)
    requires forall f :: multiset(r)[f] == if Truthy(f) then multiset(fs)[f] else 0
    ensures r == KeepTruthy(fs)
  {
    KeptSubsequenceIsUnique(fs, r, KeepTruthy(fs), Truthy);
  }

  /** Every result wrapped as a nested list, or the first fault. */
  function Collect(results: seq<Result<seq<Feat>, FeatureFault>>): (r: Result<seq<Feat>, FeatureFault>)
    ensures r.Ok? <==> forall i :: 0 <= i < |results| ==> results[i].Ok?
    ensures r.Ok? ==> |r.value| == |results| && forall i :: 0 <= i < |results| ==> r.value[i] == Group(results[i].value)
    ensures r.Err? ==> exists i :: 0 <= i < |results| && results[i] == Err(r.error)
  {
    if |results| == 0 then Ok([])
    else
      var first :- results[0];
      var rest :- Collect(results[1..]);
      assert forall i :: 1 <= i < |results| ==> results[i] == results[1..][i - 1];
      Ok([Group(first)] + rest)
  }

  /** The new-feature list of a query. */
  function GetNewFeatures(q: Query): (r: Result<seq<Feat>, FeatureFault>)
    ensures q.action.None? ==> r == Err(MissingKey("action"))
    ensures q.action == Some("connect") && q.subs.NoQueries? ==> r == Err(MissingKey("queries"))
    ensures q.action == Some("connect") && q.subs.Queries? ==>
              && (r.Ok? <==> forall i :: 0 <= i < |q.subs.items| ==> GetNewFeatures(q.subs.items[i]).Ok?)
              && (r.Ok? ==> |r.value| == |q.subs.items|
                            && forall i :: 0 <= i < |q.subs.items| ==> r.value[i] == Group(GetNewFeatures(q.subs.items[i]).value))
    ensures q.action.Some? && q.action != Some("connect") && q.newFeatureName.Some? ==>
              if q.sub.None? then r == Err(MissingKey("query"))
              else (r.Ok? <==> GetNewFeatures(q.sub.value).Ok?)
                   && (r.Ok? ==> r.value == [Name(q.newFeatureName.value)] + GetNewFeatures(q.sub.value).value)
    ensures q.action.Some? && q.action != Some("connect") && q.newFeatureName.None? && q.sub.None? ==>
              r == if q.subs.NoQueries? then Ok([]) else Err(MissingKey("query"))
    ensures q.action.Some? && q.action != Some("connect") && q.newFeatureName.None? && q.sub.Some? ==>
              (r.Ok? <==> GetNewFeatures(q.sub.value).Ok?)
              && (r.Ok? ==> forall f :: f in r.value <==> f in GetNewFeatures(q.sub.value).value && Truthy(f))
              && (r.Ok? ==> IsSubsequence(r.value, GetNewFeatures(q.sub.value).value)
                            && forall f :: multiset(r.value)[f] == if Truthy(f) then multiset(GetNewFeatures(q.sub.value).value)[f] else 0)
    decreases q
  {
    if q.action.None? then Err(MissingKey("action"))
    else if q.action.value == "connect" then
      if q.subs.NoQueries? then Err(MissingKey("queries"))
      else
        var subs := q.subs.items;
        var results := seq(|subs|, i requires 0 <= i < |subs| => GetNewFeatures(subs[i]));
        assert forall i :: 0 <= i < |subs| ==> results[i] == GetNewFeatures(subs[i]);
        Collect(results)
    else if q.newFeatureName.Some? then
      if q.sub.None? then Err(MissingKey("query"))
      else
        var rest :- GetNewFeatures(q.sub.value);
        Ok([Name(q.newFeatureName.value)] + rest)
    else if q.sub.None? && q.subs.NoQueries? then Ok([])
    else if q.sub.None? then Err(MissingKey("query"))
    else
      var rest :- GetNewFeatures(q.sub.value);
      KeepTruthyMembers(rest);
      Ok(KeepTruthy(rest))
  }

  /** The names an item holds, at any depth. */
  function NamesOf(f: Feat): set<string>
    decreases f
  {
    match f
    case Name(n) => {n}
    case Group(items) => set i, x | 0 <= i < |items| && x in NamesOf(items[i]) :: x
  }

  /** The feature names the query tree declares, at any depth. */
  function Declared(q: Query): set<string>
    decreases q
  {
    (if q.newFeatureName.Some? then {q.newFeatureName.value} else {})
    + (if q.sub.Some? then Declared(q.sub.value) else {})
    + (if q.subs.Queries? then set i, x | 0 <= i < |q.subs.items| && x in Declared(q.subs.items[i]) :: x else {})
  }

  /** Every name in the collected list is declared somewhere in the tree. */
  lemma {:induction false} CollectedNamesAreDeclared(q: Query)
    requires GetNewFeatures(q).Ok?
    ensures forall f, x :: f in GetNewFeatures(q).value && x in NamesOf(f) ==> x in Declared(q)
    decreases q
  {
    var r := GetNewFeatures(q).value;
    if q.action.value == "connect" {
      var subs := q.subs.items;
      forall f, x | f in r && x in NamesOf(f)
        ensures x in Declared(q)
      {
        var i :| 0 <= i < |r| && r[i] == f;
        CollectedNamesAreDeclared(subs[i]);
        var items := GetNewFeatures(subs[i]).value;
        assert f == Group(items);
        var j :| 0 <= j < |items| && x in NamesOf(items[j]);
        assert items[j] in items;
        assert x in Declared(subs[i]);
      }
    } else if q.sub.Some? {
      CollectedNamesAreDeclared(q.sub.value);
      var sub := GetNewFeatures(q.sub.value).value;
      assert forall f :: f in r ==> f in sub || (q.newFeatureName.Some? && f == Name(q.newFeatureName.value));
    }
  }
}
