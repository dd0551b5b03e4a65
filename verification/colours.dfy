/** The categorical colour table: for each graph view and feature, the colour
    of every value of that feature. The colours come from two library
    functions outside this model, so a colour is kept symbolically: the
    `index`-th colour of the ten-colour qualitative palette, or the rainbow
    ramp sampled at `index / count`. */
module ColourScheme {
  import opened Wrappers

  /** A colour as the library would compute it. */
  datatype Swatch =
    | Palette(index: nat)
    | Ramp(index: nat, count: nat)

  type View = string
  type Feature = string
  type Value = string

  /** View, then feature, then value, to colour. */
  type ColourTable = map<View, map<Feature, map<Value, Swatch>>>

  /** Writing into a view that has no colour table throws. */
  datatype ColourFault = NoTableForView(view: View)

  /** The palette holds this many colours. */
  const PaletteSize: nat := 10

  /** The colour of position `i` among `count` values: the palette by
      position while the values fit in it, the ramp beyond that. */
  function SwatchAt(i: nat, count: nat): Swatch {
    if count > PaletteSize then Ramp(i, count) else Palette(i)
  }

  /** `i` is the last position of `v` among the first `k` values. */
  predicate LastAt(values: seq<Value>, k: nat, v: Value, i: nat)
    requires k <= |values|
  {
    i < k && values[i] == v && forall j :: i < j < k ==> values[j] != v
  }

  /** The colours of the first `k` values, each written over the one before,
      so a repeated value keeps the colour of its last position. */
  function FillColours(values: seq<Value>, k: nat): (m: map<Value, Swatch>)
    requires k <= |values|
    ensures m.Keys == set i | 0 <= i < k :: values[i]
    ensures forall v :: v in m ==> exists i :: LastAt(values, k, v, i) && m[v] == SwatchAt(i, |values|)
  {
    if k == 0 then map[]
    else
      var m := FillColours(values, k - 1);
      var v := values[k - 1];
      var m' := m[v := SwatchAt(k - 1, |values|)];
      assert forall w :: w in m' && w != v ==> exists i :: LastAt(values, k, w, i) && m'[w] == SwatchAt(i, |values|) by {
        forall w | w in m' && w != v
          ensures exists i :: LastAt(values, k, w, i) && m'[w] == SwatchAt(i, |values|)
        {
          var i :| LastAt(values, k - 1, w, i) && m[w] == SwatchAt(i, |values|);
          assert LastAt(values, k, w, i);
        }
      }
      assert LastAt(values, k, v, k - 1);
      m'
  }

  /** The colours of a feature's values. */
  function SchemeColours(values: seq<Value>): (m: map<Value, Swatch>)
    ensures m.Keys == set v | v in values
    ensures forall i :: 0 <= i < |values| && LastAt(values, |values|, values[i], i) ==>
              m[values[i]] == SwatchAt(i, |values|)
  {
    var m := FillColours(values, |values|);
    assert (set i | 0 <= i < |values| :: values[i]) == set v | v in values by {
      forall v | v in values
        ensures v in set i | 0 <= i < |values| :: values[i]
      {
        var i :| 0 <= i < |values| && values[i] == v;
      }
    }
    forall i | 0 <= i < |values| && LastAt(values, |values|, values[i], i)
      ensures m[values[i]] == SwatchAt(i, |values|)
    {
      assert values[i] in m;
      var p: nat :| LastAt(values, |values|, values[i], p) && m[values[i]] == SwatchAt(p, |values|);
      assert p == i;
    }
    m
  }

  /** Up to ten values take palette colours, more take ramp samples; either
      way the position stays below the value count. */
  lemma SchemeColoursFromPaletteOrRamp(values: seq<Value>)
    ensures forall v :: v in SchemeColours(values) ==>
              if |values| <= PaletteSize then SchemeColours(values)[v].Palette? && SchemeColours(values)[v].index < |values|
              else SchemeColours(values)[v] == Ramp(SchemeColours(values)[v].index, |values|)
                   && SchemeColours(values)[v].index < |values|
  {
    var m := FillColours(values, |values|);
    forall v | v in m
      ensures if |values| <= PaletteSize then m[v].Palette? && m[v].index < |values|
              else m[v] == Ramp(m[v].index, |values|) && m[v].index < |values|
    {
      var i :| LastAt(values, |values|, v, i) && m[v] == SwatchAt(i, |values|);
    }
  }

  /** Distinct values get distinct swatches. This is about the symbolic
      palette positions and ramp samples; two ramp samples the library turns
      into colour strings may still round to the same string. */
  lemma {:induction false} DistinctValuesDistinctSwatches(values: seq<Value>, v: Value, w: Value)
    requires forall i, j :: 0 <= i < j < |values| ==> values[i] != values[j]
    requires v in values && w in values && v != w
    ensures SchemeColours(values)[v] != SchemeColours(values)[w]
  {
    var i :| 0 <= i < |values| && values[i] == v;
    var j :| 0 <= j < |values| && values[j] == w;
    assert LastAt(values, |values|, v, i) && LastAt(values, |values|, w, j);
  }

  /** Writes the colours of `values` as the whole mapping of `feature` in
      `view`, dropping the feature's earlier mapping; every other feature and
      view keeps its mapping. A view without a colour table throws. */
  function GenerateSchemeColours(table: ColourTable, view: View, feature: Feature, values: seq<Value>): (r: Result<ColourTable, ColourFault>)
    ensures r.Ok? <==> view in table
    ensures r.Err? ==> r.error == NoTableForView(view)
    ensures r.Ok? ==> r.value.Keys == table.Keys
    ensures r.Ok? ==> forall u :: u in table && u != view ==> r.value[u] == table[u]
    ensures r.Ok? ==> r.value[view].Keys == table[view].Keys + {feature}
    ensures r.Ok? ==> forall f :: f in table[view] && f != feature ==> r.value[view][f] == table[view][f]
    ensures r.Ok? ==> r.value[view][feature].Keys == set v | v in values
    ensures r.Ok? ==> forall i :: 0 <= i < |values| && LastAt(values, |values|, values[i], i) ==>
                        r.value[view][feature][values[i]] == SwatchAt(i, |values|)
  {
    if view !in table then Err(NoTableForView(view))
    else Ok(table[view := table[view][feature := SchemeColours(values)]])
  }

  /** Writing a key twice keeps the second value only. */
  lemma UpdateTwice<K, V>(m: map<K, V>, k: K, a: V, b: V)
    ensures m[k := a][k := b] == m[k := b]
  {
  }

  /** The same values give the same mapping whatever was there before, so a
      repeated call changes nothing and a call with fewer values leaves none
      of the dropped ones behind. */
  lemma GenerateReplacesMapping(table: ColourTable, view: View, feature: Feature, values: seq<Value>, earlier: seq<Value>)
    ensures GenerateSchemeColours(table, view, feature, earlier).Ok? ==>
              GenerateSchemeColours(GenerateSchemeColours(table, view, feature, earlier).value, view, feature, values)
                == GenerateSchemeColours(table, view, feature, values)
  {
    if view in table {
      var m := SchemeColours(values);
      var inner := table[view][feature := SchemeColours(earlier)];
      UpdateTwice(table[view], feature, SchemeColours(earlier), m);
      UpdateTwice(table, view, inner, inner[feature := m]);
    }
  }
}
