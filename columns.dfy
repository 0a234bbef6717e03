/** Mapping the headers of a loosely shaped spreadsheet onto the fixed schema
    `period, title, description, theme` (`normalize_columns`). */
module Columns {
  import opened Common
  import opened Text

  /** `REQUIRED_COLS`: the logical columns, in output order. */
  const RequiredCols: seq<string> := ["period", "title", "description", "theme"]

  /** A table as pandas holds it: named columns of equal height. */
  datatype Frame = Frame(headers: seq<string>, columns: seq<seq<Cell>>, height: nat)
  {
    predicate WellFormed() {
      && |headers| == |columns|
      && forall i :: 0 <= i < |columns| ==> |columns[i]| == height
    }
  }

  /** `pd.read_csv` never yields two columns of the same name: it renames repeats. */
  predicate DistinctHeaders(hs: seq<string>) {
    forall i, j :: 0 <= i < j < |hs| ==> hs[i] != hs[j]
  }

  /** `c.lower().strip()`: the key a header is looked up by. */
  function Key(h: string): (k: string)
    ensures k == [] || Trimmed(k)
    ensures forall i :: 0 <= i < |k| ==> !IsUpper(k[i])
  {
    Strip(Lower(h))
  }

  /** The key of every header, in order. */
  function Keys(hs: seq<string>): (ks: seq<string>)
    ensures |ks| == |hs|
    ensures forall i :: 0 <= i < |hs| ==> ks[i] == Key(hs[i])
  {
    seq(|hs|, i requires 0 <= i < |hs| => Key(hs[i]))
  }

  /** A dictionary built from `ks` in order, mapping each key to its position;
      a later key overwrites an earlier equal one. */
  function LastIndex(ks: seq<string>): (m: map<string, nat>)
    ensures forall w :: w in m ==> m[w] < |ks|
  {
    if ks == [] then map[]
    else LastIndex(ks[..|ks| - 1])[ks[|ks| - 1] := |ks| - 1]
  }

  /** `{c.lower().strip(): c for c in headers}`, recording the position of each header. */
  function KeyMap(hs: seq<string>): (m: map<string, nat>)
    ensures forall w :: w in m ==> m[w] < |hs|
  {
    LastIndex(Keys(hs))
  }

  /** The position of the header whose key is `want`, if any (`want in colmap`). */
  function ExactMatch(hs: seq<string>, want: string): (r: Option<nat>)
    ensures r.Some? ==> r.value < |hs|
  {
    var m := KeyMap(hs);
    if want in m then Some(m[want]) else None
  }

  /** The scan for a near name from position `i` on: the first header whose
      lower-cased form contains `want`. */
  function NearMatchFrom(hs: seq<string>, want: string, i: nat): (r: Option<nat>)
    requires i <= |hs|
    ensures r.Some? ==> i <= r.value < |hs|
    decreases |hs| - i
  {
    if i == |hs| then None
    else if Contains(Lower(hs[i]), want) then Some(i)
    else NearMatchFrom(hs, want, i + 1)
  }

  function NearMatch(hs: seq<string>, want: string): (r: Option<nat>)
    ensures r.Some? ==> r.value < |hs|
  {
    NearMatchFrom(hs, want, 0)
  }

  /** Where the values of a wanted column come from. */
  datatype Source = Exact(at: nat) | Near(at: nat) | Fill

  /** The priority order: an exact key, else a near name, else a filled column. */
  function SourceOf(hs: seq<string>, want: string): (r: Source)
    ensures !r.Fill? ==> r.at < |hs|
  {
    match ExactMatch(hs, want)
    case Some(i) => Exact(i)
    case None =>
      match NearMatch(hs, want)
      case Some(i) => Near(i)
      case None => Fill
  }

  /** The source of each wanted column, in the order of `RequiredCols`. */
  function Sources(hs: seq<string>): (src: seq<Source>)
    ensures |src| == 4
    ensures forall k :: 0 <= k < 4 ==> src[k] == SourceOf(hs, RequiredCols[k])
  {
    [SourceOf(hs, RequiredCols[0]), SourceOf(hs, RequiredCols[1]),
     SourceOf(hs, RequiredCols[2]), SourceOf(hs, RequiredCols[3])]
  }

  /** Every found source names a column of `df`. */
  predicate Fits(df: Frame, src: seq<Source>) {
    |src| == 4 && forall k :: 0 <= k < 4 && !src[k].Fill? ==> src[k].at < |df.columns|
  }

  /** The first wanted column at or after `k` taken from the source table, if
      any: the first assignment of a non-empty column into the empty `out`
      gives `out` its rows. */
  function AnchorFrom(src: seq<Source>, k: nat): (r: Option<nat>)
    requires |src| == 4 && k <= 4
    ensures r.Some? ==> k <= r.value < 4 && !src[r.value].Fill?
    ensures r.Some? ==> forall j :: k <= j < r.value ==> src[j].Fill?
    ensures r.None? ==> forall j :: k <= j < 4 ==> src[j].Fill?
    decreases 4 - k
  {
    if k == 4 then None
    else if !src[k].Fill? then Some(k)
    else AnchorFrom(src, k + 1)
  }

  /** Some wanted column below `k` is taken from the source table. */
  predicate AnchoredBelow(src: seq<Source>, k: nat)
    requires |src| == 4
  {
    AnchorFrom(src, 0).Some? && AnchorFrom(src, 0).value < k
  }

  /** Rows of the normalised table: those of the source, unless no wanted
      column is found at all, when `out` never gets an index. */
  function PlacedHeight(df: Frame, src: seq<Source>): (h: nat)
    requires |src| == 4
    ensures h == 0 || h == df.height
  {
    if AnchorFrom(src, 0).Some? then df.height else 0
  }

  /** Column `k` of the normalised table. A filled column assigned while `out`
      still has no rows is reindexed to NaN once a source column gives it
      rows; one assigned afterwards holds empty strings. */
  function Placed(df: Frame, src: seq<Source>, k: nat): (col: seq<Cell>)
    requires df.WellFormed() && Fits(df, src) && k < 4
    ensures |col| == PlacedHeight(df, src)
  {
    match src[k]
    case Exact(i) => df.columns[i]
    case Near(i) => df.columns[i]
    case Fill =>
      if AnchoredBelow(src, k) then Repeat(Text(""), df.height)
      else Repeat(Missing, PlacedHeight(df, src))
  }

  /** The table `out` becomes when the wanted columns come from `src`. */
  function Placement(df: Frame, src: seq<Source>): (r: Frame)
    requires df.WellFormed() && Fits(df, src)
    ensures r.headers == RequiredCols && r.WellFormed()
    ensures r.height == PlacedHeight(df, src)
    ensures forall k :: 0 <= k < 4 ==> r.columns[k] == Placed(df, src, k)
  {
    Frame(RequiredCols, [Placed(df, src, 0), Placed(df, src, 1), Placed(df, src, 2), Placed(df, src, 3)],
          PlacedHeight(df, src))
  }

  /** The table `normalize_columns` returns. */
  function Normalized(df: Frame): (r: Frame)
    requires df.WellFormed()
    ensures r.headers == RequiredCols && r.WellFormed()
    ensures df.height == 0 ==> forall k :: 0 <= k < 4 ==> r.columns[k] == []
  {
    Placement(df, Sources(df.headers))
  }

  /** The anchor is below `k + 1` exactly when it is below `k` or column `k` is found. */
  lemma AnchorStep(src: seq<Source>, k: nat)
    requires |src| == 4 && k < 4
    ensures AnchoredBelow(src, k + 1) <==> AnchoredBelow(src, k) || !src[k].Fill?
  {
  }

  /** The filled columns before the first found one are all NaN. */
  lemma BeforeAnchor(df: Frame, src: seq<Source>, k: nat)
    requires df.WellFormed() && Fits(df, src) && AnchorFrom(src, 0) == Some(k)
    ensures forall j :: 0 <= j < k ==> Placed(df, src, j) == Repeat(Missing, df.height)
  {
  }

  /** Once every wanted column is assigned, `out` is the normalised table. */
  lemma FinalFrame(df: Frame, src: seq<Source>, cols: seq<seq<Cell>>, height: nat)
    requires df.WellFormed() && Fits(df, src) && Building(df, src, 4, cols, height)
    ensures Frame(RequiredCols, cols, height) == Placement(df, src)
  {
    var p := Placement(df, src);
    assert forall j :: 0 <= j < 4 ==> cols[j] == p.columns[j];
  }

  /** Adding the key at position `i` to the dictionary of the keys before it. */
  lemma LastIndexSnoc(ks: seq<string>, i: nat)
    requires i < |ks|
    ensures LastIndex(ks[..i + 1]) == LastIndex(ks[..i])[ks[i] := i]
  {
    assert ks[..i + 1][..i] == ks[..i];
  }

  /** The comprehension `{c.lower().strip(): c for c in df.columns}`. */
  method BuildColmap(hs: seq<string>) returns (colmap: map<string, nat>)
    ensures colmap == KeyMap(hs)
  {
    ghost var ks := Keys(hs);
    colmap := map[];
    for i := 0 to |hs|
      invariant colmap == LastIndex(ks[..i])
    {
      LastIndexSnoc(ks, i);
      colmap := colmap[Key(hs[i]) := i];
    }
    assert ks[..|hs|] == ks;
  }

  /** The inner `for c in df.columns` loop, which stops at the first near name. */
  method ScanNear(hs: seq<string>, want: string) returns (found: Option<nat>)
    ensures found == NearMatch(hs, want)
  {
    found := None;
    var c := 0;
    while c < |hs|
      invariant c <= |hs|
      invariant NearMatchFrom(hs, want, c) == NearMatch(hs, want)
    {
      if Contains(Lower(hs[c]), want) {
        found := Some(c);
        break;
      }
      c := c + 1;
    }
  }

  /** One wanted name: the header with that key, else the first near name. */
  method FindColumn(hs: seq<string>, colmap: map<string, nat>, want: string) returns (found: Option<nat>)
    requires colmap == KeyMap(hs)
    ensures found.Some? <==> !SourceOf(hs, want).Fill?
    ensures found.Some? ==> found.value == SourceOf(hs, want).at
  {
    if want in colmap {
      found := Some(colmap[want]);
    } else {
      found := ScanNear(hs, want);
    }
  }

  /** `out` after the first `k` wanted columns are assigned: while no source
      column has been assigned it has no rows (and neither has any column);
      afterwards its columns are those of the normalised table. */
  predicate Building(df: Frame, src: seq<Source>, k: nat, cols: seq<seq<Cell>>, height: nat)
    requires df.WellFormed() && Fits(df, src) && k <= 4
  {
    && |cols| == k
    && height == (if AnchoredBelow(src, k) then df.height else 0)
    && (AnchoredBelow(src, k) ==> forall j :: 0 <= j < k ==> cols[j] == Placed(df, src, j))
    && (!AnchoredBelow(src, k) ==> forall j :: 0 <= j < k ==> cols[j] == [])
  }

  /** `out[want] = df[c]`. Assigning a non-empty column to a frame without
      rows first gives the frame those rows, reindexing the columns it already
      has to NaN. */
  method AssignSeries(ghost df: Frame, ghost src: seq<Source>, k: nat, cols: seq<seq<Cell>>, height: nat, values: seq<Cell>)
    returns (cols': seq<seq<Cell>>, height': nat)
    requires df.WellFormed() && Fits(df, src) && k < 4 && !src[k].Fill?
    requires values == df.columns[src[k].at]
    requires Building(df, src, k, cols, height)
    ensures Building(df, src, k + 1, cols', height')
  {
    AnchorStep(src, k);
    cols', height' := cols, height;
    if height == 0 && |values| > 0 {
      BeforeAnchor(df, src, k);
      cols' := seq(|cols|, _ => Repeat(Missing, |values|));
      height' := |values|;
    }
    assert forall j :: 0 <= j < k ==> cols'[j] == Placed(df, src, j);
    cols' := cols' + [values];
  }

  /** `out[want] = ""`: the empty string broadcast over the rows `out` has. */
  method AssignBlank(ghost df: Frame, ghost src: seq<Source>, k: nat, cols: seq<seq<Cell>>, height: nat)
    returns (cols': seq<seq<Cell>>)
    requires df.WellFormed() && Fits(df, src) && k < 4 && src[k].Fill?
    requires Building(df, src, k, cols, height)
    ensures Building(df, src, k + 1, cols', height)
  {
    AnchorStep(src, k);
    cols' := cols + [Repeat(Text(""), height)];
  }

  /** `normalize_columns`: builds `out` one wanted column at a time; the
      column names of `out` are the wanted names in the order assigned. */
  method NormalizeColumns(df: Frame) returns (out: Frame)
    requires df.WellFormed() && DistinctHeaders(df.headers)
    ensures out == Normalized(df)
  {
    var hs := df.headers;
    var colmap := BuildColmap(hs);
    ghost var src := Sources(hs);

    var cols: seq<seq<Cell>> := [];
    var height: nat := 0;
    for k := 0 to 4
      invariant Building(df, src, k, cols, height)
    {
      var want := RequiredCols[k];
      var found := FindColumn(hs, colmap, want);
      assert src[k] == SourceOf(hs, want);
      if found.Some? {
        cols, height := AssignSeries(df, src, k, cols, height, df.columns[found.value]);
      } else {
        cols := AssignBlank(df, src, k, cols, height);
      }
    }
    FinalFrame(df, src, cols, height);
    out := Frame(RequiredCols, cols, height);
  }

  /** `w in m` exactly when some element of `ks` is `w`, and then `m[w]` is
      the position of the LAST such element. */
  lemma {:induction false} LastIndexIsLast(ks: seq<string>, w: string)
    ensures w !in LastIndex(ks) <==> forall j :: 0 <= j < |ks| ==> ks[j] != w
    ensures w in LastIndex(ks) ==>
              var i := LastIndex(ks)[w];
              ks[i] == w && forall j :: i < j < |ks| ==> ks[j] != w
  {
    if ks != [] {
      var init := ks[..|ks| - 1];
      LastIndexIsLast(init, w);
      assert forall j :: 0 <= j < |init| ==> init[j] == ks[j];
    }
  }

  /** `want in colmap` exactly when some header has key `want`, and then
      `colmap[want]` is the LAST such header: the comprehension overwrites. */
  lemma ExactMatchIsLast(hs: seq<string>, want: string)
    ensures ExactMatch(hs, want).None? <==> forall j :: 0 <= j < |hs| ==> Key(hs[j]) != want
    ensures ExactMatch(hs, want).Some? ==>
              var i := ExactMatch(hs, want).value;
              Key(hs[i]) == want && forall j :: i < j < |hs| ==> Key(hs[j]) != want
  {
    LastIndexIsLast(Keys(hs), want);
  }

  /** The scan stops at the FIRST header whose lower-cased form contains `want`. */
  lemma {:induction false} NearMatchFromIsFirst(hs: seq<string>, want: string, i: nat)
    requires i <= |hs|
    ensures NearMatchFrom(hs, want, i).None? <==> forall j :: i <= j < |hs| ==> !Contains(Lower(hs[j]), want)
    ensures NearMatchFrom(hs, want, i).Some? ==>
              var n := NearMatchFrom(hs, want, i).value;
              Contains(Lower(hs[n]), want) && forall j :: i <= j < n ==> !Contains(Lower(hs[j]), want)
    decreases |hs| - i
  {
    if i < |hs| {
      NearMatchFromIsFirst(hs, want, i + 1);
    }
  }

  /** The priority order of `normalize_columns` for one wanted name: a header
      whose trimmed lower-cased form is the name (the last one) wins; failing
      that, the first header whose lower-cased form contains the name; failing
      that, the column is filled. */
  lemma SourcePriority(hs: seq<string>, want: string)
    ensures SourceOf(hs, want).Exact? <==> exists j :: 0 <= j < |hs| && Key(hs[j]) == want
    ensures SourceOf(hs, want).Exact? ==>
              var i := SourceOf(hs, want).at;
              Key(hs[i]) == want && forall j :: i < j < |hs| ==> Key(hs[j]) != want
    ensures SourceOf(hs, want).Near? ==>
              var i := SourceOf(hs, want).at;
              && (forall j :: 0 <= j < |hs| ==> Key(hs[j]) != want)
              && Contains(Lower(hs[i]), want)
              && (forall j :: 0 <= j < i ==> !Contains(Lower(hs[j]), want))
    ensures SourceOf(hs, want).Fill? <==>
              forall j :: 0 <= j < |hs| ==> Key(hs[j]) != want && !Contains(Lower(hs[j]), want)
  {
    ExactMatchIsLast(hs, want);
    NearMatchFromIsFirst(hs, want, 0);
  }

  /** Each column of the normalised table: the chosen source column, or a
      filled column of empty strings or NaN; nothing else of `df` is kept. */
  lemma NormalizedColumns(df: Frame, k: nat)
    requires df.WellFormed() && k < 4
    ensures !SourceOf(df.headers, RequiredCols[k]).Fill? ==>
              Normalized(df).columns[k] == df.columns[SourceOf(df.headers, RequiredCols[k]).at]
    ensures SourceOf(df.headers, RequiredCols[k]).Fill? ==>
              forall r :: 0 <= r < |Normalized(df).columns[k]| ==>
                Normalized(df).columns[k][r] in {Text(""), Missing}
  {
  }

  /** When no wanted column is found, `out` never gets rows. */
  lemma NothingFoundIsEmpty(df: Frame)
    requires df.WellFormed()
    requires forall k :: 0 <= k < 4 ==> SourceOf(df.headers, RequiredCols[k]).Fill?
    ensures Normalized(df).height == 0
  {
    var src := Sources(df.headers);
    assert forall k :: 0 <= k < 4 ==> src[k].Fill?;
  }

  /** Once some wanted column is found, `out` has the rows of `df`. */
  lemma FoundKeepsRows(df: Frame, k: nat)
    requires df.WellFormed() && k < 4 && !SourceOf(df.headers, RequiredCols[k]).Fill?
    ensures Normalized(df).height == df.height
  {
    var src := Sources(df.headers);
    assert !src[k].Fill?;
  }

  /** Each wanted name is its own key. */
  lemma RequiredKeys()
    ensures forall k :: 0 <= k < 4 ==> Key(RequiredCols[k]) == RequiredCols[k]
  {
    forall k | 0 <= k < 4
      ensures Key(RequiredCols[k]) == RequiredCols[k]
    {
      var w := RequiredCols[k];
      LowerIdentity(w);
      StripIdentity(w);
    }
  }

  lemma RequiredDistinct()
    ensures DistinctHeaders(RequiredCols)
  {
  }

  /** On the normalised schema every wanted name is an exact match at its own position. */
  lemma SchemaSources()
    ensures Sources(RequiredCols) == [Exact(0), Exact(1), Exact(2), Exact(3)]
  {
    RequiredKeys();
    RequiredDistinct();
    forall k | 0 <= k < 4
      ensures ExactMatch(RequiredCols, RequiredCols[k]) == Some(k)
    {
      ExactMatchIsLast(RequiredCols, RequiredCols[k]);
    }
  }

  /** Taking every wanted column from its own position keeps the table as it is. */
  lemma PlacementInOrder(df: Frame)
    requires df.WellFormed() && |df.columns| == 4
    ensures Placement(df, [Exact(0), Exact(1), Exact(2), Exact(3)]) == Frame(RequiredCols, df.columns, df.height)
  {
    var src := [Exact(0), Exact(1), Exact(2), Exact(3)];
    assert AnchorFrom(src, 0) == Some(0);
    var n := Placement(df, src);
    assert n.columns == df.columns;
  }

  /** A table already in the schema comes back unchanged. */
  lemma SchemaFixed(df: Frame)
    requires df.WellFormed() && df.headers == RequiredCols
    ensures Normalized(df) == df
  {
    SchemaSources();
    PlacementInOrder(df);
  }

  /** Normalising a normalised table changes nothing. */
  lemma NormalizeIdempotent(df: Frame)
    requires df.WellFormed()
    ensures Normalized(Normalized(df)) == Normalized(df)
  {
    SchemaFixed(Normalized(df));
  }
}
