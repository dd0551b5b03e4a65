/** The `or` and `and` connectors of an advanced search. Each sub-query
    yields a list of hits; the connector concatenates the lists in order and
    then keeps, for `or`, the first hit of every entry and, for `and`, every
    hit whose entry already occurred earlier in the concatenation. */
module RowMerge {
  import opened Wrappers
  import opened Seqs

  /** One search hit: the document id (`entry`) and the document's fields. */
  datatype Hit = Hit(entry: string, fields: map<string, string>)

  /** A sub-query's result table: whether it has an `entry` column, and its
      hits. Every hit carries `entry`, so a table with hits has the column; a
      leaf query without hits builds a table with no columns at all, while a
      merged table keeps the column even when no hit survives. */
  datatype Frame = Frame(hasEntryColumn: bool, hits: seq<Hit>)

  /** The column is there whenever a hit is. */
  predicate WellFormed(f: Frame) {
    |f.hits| > 0 ==> f.hasEntryColumn
  }

  /** The table a leaf query builds from its hits. */
  function LeafFrame(hits: seq<Hit>): (f: Frame)
    ensures WellFormed(f) && f.hits == hits
    ensures f.hasEntryColumn <==> |hits| > 0
  {
    Frame(|hits| > 0, hits)
  }

  /** Why a merge throws: there were no sub-queries to concatenate, or no
      sub-result has an `entry` column to deduplicate on. */
  datatype MergeFault = NothingToConcatenate | NoEntryColumn

  /** The sub-results' hits one after the other. */
  function Concat(subs: seq<Frame>): seq<Hit> {
    if |subs| == 0 then [] else subs[0].hits + Concat(subs[1..])
  }

  /** Some sub-result has an `entry` column, so the concatenation has one. */
  predicate AnyEntryColumn(subs: seq<Frame>) {
    exists i :: 0 <= i < |subs| && subs[i].hasEntryColumn
  }

  /** Without any `entry` column, well-formed sub-results hold no hits. */
  lemma {:induction false} NoColumnNoHits(subs: seq<Frame>)
    requires forall i :: 0 <= i < |subs| ==> WellFormed(subs[i])
    requires !AnyEntryColumn(subs)
    ensures Concat(subs) == []
    decreases |subs|
  {
    if |subs| > 0 {
      assert !subs[0].hasEntryColumn;
      assert forall i :: 1 <= i < |subs| ==> subs[1..][i - 1] == subs[i];
      NoColumnNoHits(subs[1..]);
    }
  }

  /** Some hit before position `i` has the entry of the hit at `i`. */
  predicate SeenBefore(rows: seq<Hit>, i: nat)
    requires i < |rows|
  {
    exists j :: 0 <= j < i && rows[j].entry == rows[i].entry
  }

  /** How many hits carry entry `e`. */
  function Count(rows: seq<Hit>, e: string): nat {
    if |rows| == 0 then 0
    else Count(rows[..|rows| - 1], e) + (if rows[|rows| - 1].entry == e then 1 else 0)
  }

  /** Some hit carries entry `e`. */
  predicate HasEntry(rows: seq<Hit>, e: string) {
    exists x :: x in rows && x.entry == e
  }

  /** The positions among the first `k` hits that a filter keeps (`repeats`
      false: first hits of their entry; `repeats` true: hits whose entry
      occurred earlier), in increasing order. */
  function KeptPositions(rows: seq<Hit>, k: nat, repeats: bool): (ps: seq<nat>)
    requires k <= |rows|
    ensures Increasing(ps)
    ensures forall j :: 0 <= j < |ps| ==> ps[j] < k
    ensures forall i :: 0 <= i < k ==> (i in ps <==> SeenBefore(rows, i) == repeats)
    decreases k
  {
    if k == 0 then []
    else
      var ps := KeptPositions(rows, k - 1, repeats);
      if SeenBefore(rows, k - 1) == repeats then ps + [k - 1] else ps
  }

  /** Among the first `k` hits, those kept (`repeats` false: first hits of
      their entry; `repeats` true: hits whose entry occurred earlier), in order. */
  function KeepUpTo(rows: seq<Hit>, k: nat, repeats: bool): (r: seq<Hit>)
    requires k <= |rows|
    ensures |r| <= k
    ensures forall x :: x in r ==> x in rows[..k]
    decreases k
  {
    if k == 0 then []
    else
      var r := KeepUpTo(rows, k - 1, repeats) + (if SeenBefore(rows, k - 1) == repeats then [rows[k - 1]] else []);
      assert rows[..k] == rows[..k - 1] + [rows[k - 1]];
      r
  }

  /** The hits a filter keeps are exactly the hits at its kept positions, in
      the order of those positions. */
  lemma {:induction false} KeptAtPositions(rows: seq<Hit>, k: nat, repeats: bool)
    requires k <= |rows|
    ensures |KeepUpTo(rows, k, repeats)| == |KeptPositions(rows, k, repeats)|
    ensures forall j :: 0 <= j < |KeepUpTo(rows, k, repeats)| ==>
              KeepUpTo(rows, k, repeats)[j] == rows[KeptPositions(rows, k, repeats)[j]]
    decreases k
  {
    if k > 0 {
      KeptAtPositions(rows, k - 1, repeats);
      var prev := KeepUpTo(rows, k - 1, repeats);
      var ps := KeptPositions(rows, k - 1, repeats);
      if SeenBefore(rows, k - 1) == repeats {
        var r := prev + [rows[k - 1]];
        var ps' := ps + [k - 1];
        assert KeepUpTo(rows, k, repeats) == r;
        assert KeptPositions(rows, k, repeats) == ps';
        forall j | 0 <= j < |r|
          ensures r[j] == rows[ps'[j]]
        {
          if j < |prev| {
            assert r[j] == prev[j] && ps'[j] == ps[j];
          }
        }
      } else {
        assert KeepUpTo(rows, k, repeats) == prev;
        assert KeptPositions(rows, k, repeats) == ps;
      }
    }
  }

  /** The concatenation with later duplicates of an entry dropped. */
  function DropDuplicates(rows: seq<Hit>): seq<Hit> {
    KeepUpTo(rows, |rows|, false)
  }

  /** The hits of the concatenation marked as duplicates of an earlier hit. */
  function Duplicated(rows: seq<Hit>): seq<Hit> {
    KeepUpTo(rows, |rows|, true)
  }

  /** The `or` connector: the hits of the concatenation at the positions
      where their entry first occurs, in order. */
  function OrMerge(subs: seq<Frame>): (r: Result<Frame, MergeFault>)
    ensures |subs| == 0 ==> r == Err(NothingToConcatenate)
    ensures |subs| > 0 && !AnyEntryColumn(subs) ==> r == Err(NoEntryColumn)
    ensures r.Ok? <==> |subs| > 0 && AnyEntryColumn(subs)
    ensures r.Ok? ==> r.value.hasEntryColumn
    ensures r.Ok? ==> forall e :: Count(r.value.hits, e) == if Count(Concat(subs), e) > 0 then 1 else 0
    ensures r.Ok? ==> var c := Concat(subs); var ps := KeptPositions(c, |c|, false);
              |r.value.hits| == |ps| && forall j :: 0 <= j < |ps| ==> r.value.hits[j] == c[ps[j]]
  {
    if |subs| == 0 then Err(NothingToConcatenate)
    else if !AnyEntryColumn(subs) then Err(NoEntryColumn)
    else
      DropDuplicatesCounts(Concat(subs));
      KeptAtPositions(Concat(subs), |Concat(subs)|, false);
      Ok(Frame(true, DropDuplicates(Concat(subs))))
  }

  /** The `and` connector: the hits of the concatenation at the positions
      where their entry already occurred, in order. */
  function AndMerge(subs: seq<Frame>): (r: Result<Frame, MergeFault>)
    ensures |subs| == 0 ==> r == Err(NothingToConcatenate)
    ensures |subs| > 0 && !AnyEntryColumn(subs) ==> r == Err(NoEntryColumn)
    ensures r.Ok? <==> |subs| > 0 && AnyEntryColumn(subs)
    ensures r.Ok? ==> r.value.hasEntryColumn
    ensures r.Ok? ==> forall e :: Count(r.value.hits, e) == if Count(Concat(subs), e) > 0 then Count(Concat(subs), e) - 1 else 0
    ensures r.Ok? ==> var c := Concat(subs); var ps := KeptPositions(c, |c|, true);
              |r.value.hits| == |ps| && forall j :: 0 <= j < |ps| ==> r.value.hits[j] == c[ps[j]]
  {
    if |subs| == 0 then Err(NothingToConcatenate)
    else if !AnyEntryColumn(subs) then Err(NoEntryColumn)
    else
      DuplicatedCounts(Concat(subs));
      KeptAtPositions(Concat(subs), |Concat(subs)|, true);
      Ok(Frame(true, Duplicated(Concat(subs))))
  }

  /** Appending one hit adds one to its entry's count. */
  lemma CountSnoc(a: seq<Hit>, x: Hit, e: string)
    ensures Count(a + [x], e) == Count(a, e) + if x.entry == e then 1 else 0
  {
    assert (a + [x])[..|a + [x]| - 1] == a;
  }

  /** Counting distributes over concatenation. */
  lemma {:induction false} CountAppend(a: seq<Hit>, b: seq<Hit>, e: string)
    ensures Count(a + b, e) == Count(a, e) + Count(b, e)
    decreases |b|
  {
    if |b| > 0 {
      assert (a + b)[..|a + b| - 1] == a + b[..|b| - 1];
      CountAppend(a, b[..|b| - 1], e);
    } else {
      assert a + b == a;
    }
  }

  /** An entry is counted exactly when some hit carries it. */
  lemma {:induction false} CountPositive(rows: seq<Hit>, e: string)
    ensures Count(rows, e) > 0 <==> HasEntry(rows, e)
    decreases |rows|
  {
    if |rows| > 0 {
      var front := rows[..|rows| - 1];
      CountPositive(front, e);
      assert rows == front + [rows[|rows| - 1]];
      if HasEntry(front, e) {
        var x :| x in front && x.entry == e;
        assert x in rows;
      }
    }
  }

  /** A hit is seen before exactly when its entry is counted in the hits before it. */
  lemma SeenBeforeCounted(rows: seq<Hit>, i: nat)
    requires i < |rows|
    ensures SeenBefore(rows, i) <==> Count(rows[..i], rows[i].entry) > 0
  {
    CountPositive(rows[..i], rows[i].entry);
    if HasEntry(rows[..i], rows[i].entry) {
      var x :| x in rows[..i] && x.entry == rows[i].entry;
      var j :| 0 <= j < i && rows[..i][j] == x;
    }
    if SeenBefore(rows, i) {
      var j :| 0 <= j < i && rows[j].entry == rows[i].entry;
      assert rows[..i][j] == rows[j];
    }
  }

  /** Among the first `k` hits the first-hit filter keeps one hit of each
      entry present. */
  lemma {:induction false} KeptFirstCounts(rows: seq<Hit>, k: nat, e: string)
    requires k <= |rows|
    ensures Count(KeepUpTo(rows, k, false), e) == if Count(rows[..k], e) > 0 then 1 else 0
    decreases k
  {
    if k > 0 {
      var prev := KeepUpTo(rows, k - 1, false);
      var x := rows[k - 1];
      KeptFirstCounts(rows, k - 1, e);
      SeenBeforeCounted(rows, k - 1);
      assert rows[..k] == rows[..k - 1] + [x];
      CountSnoc(rows[..k - 1], x, e);
      if !SeenBefore(rows, k - 1) {
        assert KeepUpTo(rows, k, false) == prev + [x];
        CountSnoc(prev, x, e);
        assert x.entry == e ==> Count(rows[..k - 1], e) == 0;
      } else {
        assert KeepUpTo(rows, k, false) == prev;
        assert x.entry == e ==> Count(rows[..k - 1], e) > 0;
      }
    }
  }

  /** Among the first `k` hits the repeat filter keeps all but one hit of
      each entry present. */
  lemma {:induction false} KeptRepeatCounts(rows: seq<Hit>, k: nat, e: string)
    requires k <= |rows|
    ensures Count(KeepUpTo(rows, k, true), e) == if Count(rows[..k], e) > 0 then Count(rows[..k], e) - 1 else 0
    decreases k
  {
    if k > 0 {
      var prev := KeepUpTo(rows, k - 1, true);
      var x := rows[k - 1];
      KeptRepeatCounts(rows, k - 1, e);
      SeenBeforeCounted(rows, k - 1);
      assert rows[..k] == rows[..k - 1] + [x];
      CountSnoc(rows[..k - 1], x, e);
      if SeenBefore(rows, k - 1) {
        assert KeepUpTo(rows, k, true) == prev + [x];
        CountSnoc(prev, x, e);
        assert x.entry == e ==> Count(rows[..k - 1], e) > 0;
      } else {
        assert KeepUpTo(rows, k, true) == prev;
        assert x.entry == e ==> Count(rows[..k - 1], e) == 0;
      }
    }
  }

  lemma DropDuplicatesCounts(rows: seq<Hit>)
    ensures forall e :: Count(DropDuplicates(rows), e) == if Count(rows, e) > 0 then 1 else 0
  {
    assert rows[..|rows|] == rows;
    forall e | true
      ensures Count(DropDuplicates(rows), e) == if Count(rows, e) > 0 then 1 else 0
    {
      KeptFirstCounts(rows, |rows|, e);
    }
  }

  lemma DuplicatedCounts(rows: seq<Hit>)
    ensures forall e :: Count(Duplicated(rows), e) == if Count(rows, e) > 0 then Count(rows, e) - 1 else 0
  {
    assert rows[..|rows|] == rows;
    forall e | true
      ensures Count(Duplicated(rows), e) == if Count(rows, e) > 0 then Count(rows, e) - 1 else 0
    {
      KeptRepeatCounts(rows, |rows|, e);
    }
  }

  /** Each hit of the concatenation goes to exactly one of the two filters. */
  lemma {:induction false} FiltersPartition(rows: seq<Hit>, k: nat)
    requires k <= |rows|
    ensures |KeepUpTo(rows, k, false)| + |KeepUpTo(rows, k, true)| == k
    decreases k
  {
    if k > 0 {
      FiltersPartition(rows, k - 1);
    }
  }

  /** Both filters keep the hits they keep in their original order. */
  lemma {:induction false} KeptInOrder(rows: seq<Hit>, k: nat, repeats: bool)
    requires k <= |rows|
    ensures IsSubsequence(KeepUpTo(rows, k, repeats), rows[..k])
    decreases k
  {
    if k > 0 {
      KeptInOrder(rows, k - 1, repeats);
      var prev := KeepUpTo(rows, k - 1, repeats);
      assert rows[..k] == rows[..k - 1] + [rows[k - 1]];
      if SeenBefore(rows, k - 1) == repeats {
        assert KeepUpTo(rows, k, repeats) == prev + [rows[k - 1]];
        SubsequenceSnoc(prev, rows[..k - 1], rows[k - 1]);
      } else {
        assert KeepUpTo(rows, k, repeats) == prev;
        SubsequenceExtend(prev, rows[..k - 1], rows[k - 1]);
      }
    }
  }

  /** Both connectors return hits of the concatenation in its order. */
  lemma MergesKeepOrder(subs: seq<Frame>)
    ensures OrMerge(subs).Ok? ==> IsSubsequence(OrMerge(subs).value.hits, Concat(subs))
    ensures AndMerge(subs).Ok? ==> IsSubsequence(AndMerge(subs).value.hits, Concat(subs))
  {
    var c := Concat(subs);
    assert c[..|c|] == c;
    KeptInOrder(c, |c|, false);
    KeptInOrder(c, |c|, true);
  }

  /** Every entry of the concatenation survives the `or` connector, and the
      result holds no entry twice. */
  lemma OrKeepsEveryEntryOnce(subs: seq<Frame>, e: string)
    requires OrMerge(subs).Ok?
    ensures HasEntry(OrMerge(subs).value.hits, e) <==> HasEntry(Concat(subs), e)
    ensures Count(OrMerge(subs).value.hits, e) <= 1
  {
    CountPositive(OrMerge(subs).value.hits, e);
    CountPositive(Concat(subs), e);
  }

  /** For two sub-results that each hold an entry at most once, one of them
      with an `entry` column, `and` keeps exactly the entries both hold and
      `or` every entry either holds. */
  lemma TwoWayMerges(a: Frame, b: Frame, e: string)
    requires Count(a.hits, e) <= 1 && Count(b.hits, e) <= 1
    requires a.hasEntryColumn || b.hasEntryColumn
    ensures AndMerge([a, b]).Ok? && (HasEntry(AndMerge([a, b]).value.hits, e) <==> HasEntry(a.hits, e) && HasEntry(b.hits, e))
    ensures OrMerge([a, b]).Ok? && (HasEntry(OrMerge([a, b]).value.hits, e) <==> HasEntry(a.hits, e) || HasEntry(b.hits, e))
  {
    assert AnyEntryColumn([a, b]) by {
      if a.hasEntryColumn { assert [a, b][0] == a; } else { assert [a, b][1] == b; }
    }
    ConcatPair(a, b);
    var c := a.hits + b.hits;
    var n := Count(c, e);
    assert n == Count(a.hits, e) + Count(b.hits, e) by {
      CountAppend(a.hits, b.hits, e);
    }
    var and := AndMerge([a, b]).value.hits;
    var or := OrMerge([a, b]).value.hits;
    assert Count(and, e) == if n > 0 then n - 1 else 0;
    assert Count(or, e) == if n > 0 then 1 else 0;
    CountPositive(a.hits, e);
    CountPositive(b.hits, e);
    CountPositive(and, e);
    CountPositive(or, e);
  }

  /** Two sub-results concatenate to their hits one after the other. */
  lemma ConcatPair(a: Frame, b: Frame)
    ensures Concat([a, b]) == a.hits + b.hits
  {
    assert [a, b][1..] == [b];
    assert [b][1..] == [];
    assert Concat([b]) == b.hits + Concat([]);
    assert Concat([a, b]) == a.hits + Concat([b]);
  }
}
