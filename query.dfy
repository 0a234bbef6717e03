/** What the page shows of the loaded events (`filter_df` and the sidebar's
    theme options): a theme filter, a text search, and an ordering by year
    key and title. */
module Query {
  import opened Common
  import opened Text
  import opened YearKey
  import opened Themes
  import opened Loader

  // ---------------------------------------------------------------- filters

  /** The theme filter: nothing selected keeps every row, otherwise a row
      needs at least one of the selected themes among its tags. */
  predicate ThemeMatch(e: Event, selected: seq<string>) {
    selected == [] || exists t :: t in selected && t in e.themes
  }

  /** The text search over the lower-cased string form of one column. */
  predicate FieldMatch(field: Cell, q: string) {
    Contains(Lower(AsStr(field)), q)
  }

  /** The text search: an empty query keeps every row; otherwise the
      stripped, lower-cased query must occur in the title, the description,
      the period or the theme. */
  predicate TextMatch(e: Event, query: string) {
    query == [] ||
    var q := Lower(Strip(query));
    FieldMatch(e.title, q) || FieldMatch(e.description, q) || FieldMatch(e.period, q) || FieldMatch(e.theme, q)
  }

  /** A row survives `filter_df`. */
  predicate Passes(e: Event, selected: seq<string>, query: string) {
    ThemeMatch(e, selected) && TextMatch(e, query)
  }

  /** The selection by the theme mask, in table order. */
  function ByThemes(events: seq<Event>, selected: seq<string>): (r: seq<Event>)
    ensures forall e :: multiset(r)[e] == if ThemeMatch(e, selected) then multiset(events)[e] else 0
    ensures |r| <= |events|
    ensures selected == [] ==> r == events
  {
    if events == [] then []
    else
      var rest := ByThemes(events[1..], selected);
      assert events == [events[0]] + events[1..];
      if ThemeMatch(events[0], selected) then [events[0]] + rest else rest
  }

  /** The selection by the text mask, in table order. */
  function ByQuery(events: seq<Event>, query: string): (r: seq<Event>)
    ensures forall e :: multiset(r)[e] == if TextMatch(e, query) then multiset(events)[e] else 0
    ensures |r| <= |events|
    ensures query == [] ==> r == events
  {
    if events == [] then []
    else
      var rest := ByQuery(events[1..], query);
      assert events == [events[0]] + events[1..];
      if TextMatch(events[0], query) then [events[0]] + rest else rest
  }

  /** A query made only of whitespace is not empty, so the search runs with
      the empty string, which every field contains: all rows are kept. */
  lemma BlankQueryKeepsAll(e: Event, query: string)
    requires Blank(query)
    ensures TextMatch(e, query)
  {
    StripCutsSpaces(query);
    EmptyIsContained(Lower(AsStr(e.title)));
  }

  /** Two queries that strip and lower-case to the same text select the same rows. */
  lemma SameSearch(e: Event, q1: string, q2: string)
    requires q1 != [] && q2 != [] && Lower(Strip(q1)) == Lower(Strip(q2))
    ensures TextMatch(e, q1) == TextMatch(e, q2)
  {
  }

  /** The search ignores the letter case of the query. */
  lemma SearchIgnoresCase(e: Event, query: string)
    ensures TextMatch(e, Lower(query)) == TextMatch(e, query)
  {
    StripLower(query);
    LowerIdempotent(Strip(query));
  }

  /** A trimmed query is found where its lower case occurs in the lower-cased title. */
  lemma FoundInTitle(e: Event, query: string, i: nat)
    requires Trimmed(query) && OccursAt(Lower(AsStr(e.title)), Lower(query), i)
    ensures TextMatch(e, query)
  {
    StripIdentity(query);
  }

  /** The example query in both letter cases. */
  lemma LowerGuerra()
    ensures Lower("Guerra") == "guerra" && Lower("GUERRA") == "guerra"
    ensures Trimmed("guerra") && Trimmed("GUERRA")
  {
    assert !IsSpace('g') && !IsSpace('a') && !IsSpace('G') && !IsSpace('A');
  }

  /** "GUERRA", like "guerra", finds "Segunda Guerra Mundial". */
  lemma SearchExample(e: Event)
    requires e.title == Text("Segunda Guerra Mundial")
    ensures TextMatch(e, "guerra") && TextMatch(e, "GUERRA")
  {
    var s := "Segunda Guerra Mundial";
    assert s[8..14] == "Guerra";
    LowerSlice(s, 8, 14);
    LowerGuerra();
    LowerIdentity("guerra");
    FoundInTitle(e, "guerra", 8);
    FoundInTitle(e, "GUERRA", 8);
  }

  // --------------------------------------------------------------- ordering

  /** The title part of the sort key: strings in code-point order, then
      every NaN or other non-string title, all of these tying with each other
      (a numeric title column is not ordered by value here). */
  predicate TitleLe(x: Cell, y: Cell) {
    y.NonText? || (x.Text? && !LexLess(y.s, x.s))
  }

  /** `sort_values(["year_key", "title"])`: the order of the two keys. */
  predicate KeyLe(a: Event, b: Event) {
    a.yearKey < b.yearKey || (a.yearKey == b.yearKey && TitleLe(a.title, b.title))
  }

  /** `a` and `b` tie on both keys. */
  predicate SameKey(a: Event, b: Event) {
    KeyLe(a, b) && KeyLe(b, a)
  }

  lemma KeyLeTotal(a: Event, b: Event)
    ensures KeyLe(a, b) || KeyLe(b, a)
  {
    if a.title.Text? && b.title.Text? {
      var x, y := a.title.s, b.title.s;
      if x == y {
        LexLessIrreflexive(x);
      } else {
        LexLessTotal(x, y);
        if LexLess(x, y) {
          LexLessAsymmetric(x, y);
        } else {
          LexLessAsymmetric(y, x);
        }
      }
    }
  }

  lemma KeyLeTransitive(a: Event, b: Event, c: Event)
    requires KeyLe(a, b) && KeyLe(b, c)
    ensures KeyLe(a, c)
  {
    if a.yearKey == b.yearKey == c.yearKey && c.title.Text? {
      var x, y, z := a.title.s, b.title.s, c.title.s;
      if LexLess(z, x) {
        if x == y {
        } else {
          LexLessTotal(x, y);
          if LexLess(x, y) {
            LexLessTransitive(z, x, y);
          }
        }
      }
    }
  }

  /** Ascending by year key, ties by title. */
  predicate Sorted(s: seq<Event>) {
    forall i, j :: 0 <= i < j < |s| ==> KeyLe(s[i], s[j])
  }

  lemma SortedCons(x: Event, s: seq<Event>)
    requires Sorted(s)
    requires forall y :: y in s ==> KeyLe(x, y)
    ensures Sorted([x] + s)
  {
    forall i, j | 0 <= i < j < |[x] + s| ensures KeyLe(([x] + s)[i], ([x] + s)[j]) {
      assert ([x] + s)[j] == s[j - 1];
    }
  }

  /** A row not above the first row of a sorted list is not above any of them. */
  lemma BelowFirst(e: Event, s: seq<Event>)
    requires Sorted(s) && s != [] && KeyLe(e, s[0])
    ensures forall y :: y in s ==> KeyLe(e, y)
  {
    forall y | y in s ensures KeyLe(e, y) {
      var j :| 0 <= j < |s| && s[j] == y;
      if j > 0 {
        KeyLeTransitive(e, s[0], y);
      }
    }
  }

  /** `e` placed before the first row whose key is not smaller than its own:
      rows that tie with `e` stay after it. */
  function Insert(e: Event, s: seq<Event>): (r: seq<Event>)
    ensures multiset(r) == multiset(s) + multiset{e}
    ensures Sorted(s) && (forall x :: x in s ==> KeyLe(e, x)) ==> r == [e] + s
    ensures Sorted(s) ==> Sorted(r)
  {
    if s == [] || KeyLe(e, s[0]) then
      if Sorted(s) && s != [] then
        BelowFirst(e, s);
        SortedCons(e, s);
        [e] + s
      else
        [e] + s
    else
      var rest := Insert(e, s[1..]);
      assert s == [s[0]] + s[1..];
      KeyLeTotal(e, s[0]);
      if Sorted(s) then
        assert forall y :: y in rest ==> KeyLe(s[0], y) by {
          forall y | y in rest ensures KeyLe(s[0], y) {
            assert y in multiset(rest);
          }
        }
        SortedCons(s[0], rest);
        [s[0]] + rest
      else
        [s[0]] + rest
  }

  /** The rows of `s` ordered by (year key, title), rows that tie keeping
      their order. */
  function SortRows(s: seq<Event>): (r: seq<Event>)
    ensures multiset(r) == multiset(s)
    ensures Sorted(r)
  {
    if s == [] then [] else
      assert s == [s[0]] + s[1..];
      Insert(s[0], SortRows(s[1..]))
  }

  /** The rows of `s` that tie with `k`, in the order of `s`. */
  function Ties(s: seq<Event>, k: Event): (r: seq<Event>)
    ensures forall x :: x in r ==> x in s && SameKey(x, k)
  {
    if s == [] then []
    else if SameKey(s[0], k) then [s[0]] + Ties(s[1..], k)
    else Ties(s[1..], k)
  }

  lemma {:induction false} TiesInsert(e: Event, s: seq<Event>, k: Event)
    requires Sorted(s)
    ensures Ties(Insert(e, s), k) == if SameKey(e, k) then [e] + Ties(s, k) else Ties(s, k)
  {
    if s == [] || KeyLe(e, s[0]) {
      assert Insert(e, s) == [e] + s;
      assert ([e] + s)[1..] == s;
    } else {
      var rest := Insert(e, s[1..]);
      assert Insert(e, s) == [s[0]] + rest;
      assert ([s[0]] + rest)[1..] == rest;
      TiesInsert(e, s[1..], k);
      if SameKey(e, k) && SameKey(s[0], k) {
        KeyLeTransitive(e, k, s[0]);
      }
    }
  }

  /** The sort is stable: rows that tie on both keys come out in the order
      they went in. */
  lemma {:induction false} SortStable(s: seq<Event>, k: Event)
    ensures Ties(SortRows(s), k) == Ties(s, k)
  {
    if s != [] {
      SortStable(s[1..], k);
      TiesInsert(s[0], SortRows(s[1..]), k);
    }
  }

  /** Among loaded rows in sorted order, an undated row (sentinel key) is
      followed only by undated rows. */
  lemma UndatedLast(s: seq<Event>)
    requires Sorted(s)
    requires forall i :: 0 <= i < |s| ==> Derived(s[i])
    ensures forall i, j :: 0 <= i < j < |s| && s[i].yearKey == Sentinel ==> s[j].yearKey == Sentinel
  {
    forall i, j | 0 <= i < j < |s| && s[i].yearKey == Sentinel
      ensures s[j].yearKey == Sentinel
    {
      DerivedBounds(s[j]);
    }
  }

  // ------------------------------------------------------------- filter_df

  /** `filter_df`: the rows passing both filters, each as many times as in
      the input, sorted by (year key, title). */
  function FilterDf(events: seq<Event>, selected: seq<string>, query: string): (r: seq<Event>)
    ensures forall e :: multiset(r)[e] == if Passes(e, selected, query) then multiset(events)[e] else 0
    ensures Sorted(r)
  {
    SortRows(ByQuery(ByThemes(events, selected), query))
  }

  /** `filter_df` returns only rows of its input that pass both filters,
      every such row, and never more rows than it was given. */
  lemma FilterDfSpec(events: seq<Event>, selected: seq<string>, query: string)
    ensures forall e :: e in FilterDf(events, selected, query) <==> e in events && Passes(e, selected, query)
    ensures |FilterDf(events, selected, query)| <= |events|
  {
    var r := FilterDf(events, selected, query);
    var chosen := ByQuery(ByThemes(events, selected), query);
    assert multiset(r) == multiset(chosen);
    assert |r| == |chosen|;
    forall e ensures e in r <==> e in events && Passes(e, selected, query) {
      assert e in r <==> e in multiset(r);
      assert e in events <==> e in multiset(events);
    }
  }

  /** The theme mask keeps rows in table order: the tied rows it keeps are
      the tied rows of the input, filtered. */
  lemma {:induction false} TiesByThemes(s: seq<Event>, selected: seq<string>, k: Event)
    ensures Ties(ByThemes(s, selected), k) == ByThemes(Ties(s, k), selected)
  {
    if s != [] {
      TiesByThemes(s[1..], selected, k);
      var rest := ByThemes(s[1..], selected);
      assert ([s[0]] + rest)[1..] == rest;
      var ties := Ties(s[1..], k);
      assert ([s[0]] + ties)[1..] == ties;
    }
  }

  /** The text mask keeps rows in table order, in the same sense. */
  lemma {:induction false} TiesByQuery(s: seq<Event>, query: string, k: Event)
    ensures Ties(ByQuery(s, query), k) == ByQuery(Ties(s, k), query)
  {
    if s != [] {
      TiesByQuery(s[1..], query, k);
      var rest := ByQuery(s[1..], query);
      assert ([s[0]] + rest)[1..] == rest;
      var ties := Ties(s[1..], k);
      assert ([s[0]] + ties)[1..] == ties;
    }
  }

  /** `filter_df` keeps rows that tie on (year key, title) in their input
      order: its tied rows are the input's tied rows, filtered. */
  lemma FilterDfStable(events: seq<Event>, selected: seq<string>, query: string, k: Event)
    ensures Ties(FilterDf(events, selected, query), k) == ByQuery(ByThemes(Ties(events, k), selected), query)
  {
    var chosen := ByQuery(ByThemes(events, selected), query);
    SortStable(chosen, k);
    TiesByQuery(ByThemes(events, selected), query, k);
    TiesByThemes(events, selected, k);
  }

  /** With no theme selected and no query, `filter_df` only reorders. */
  lemma NoFilterOnlySorts(events: seq<Event>)
    ensures FilterDf(events, [], "") == SortRows(events)
    ensures |FilterDf(events, [], "")| == |events|
  {
    assert multiset(SortRows(events)) == multiset(events);
    assert |multiset(SortRows(events))| == |multiset(events)|;
  }

  // --------------------------------------------------------- theme options

  /** Every tag of every row, row by row. */
  function AllTags(events: seq<Event>): (tags: seq<string>)
    ensures forall t :: t in tags <==> exists i :: 0 <= i < |events| && t in events[i].themes
  {
    if events == [] then []
    else
      var rest := AllTags(events[1..]);
      assert forall i :: 1 <= i < |events| ==> events[i] == events[1..][i - 1];
      events[0].themes + rest
  }

  /** Strictly increasing in code-point order: sorted and without repeats. */
  predicate StrictlySorted(s: seq<string>) {
    forall i, j :: 0 <= i < j < |s| ==> LexLess(s[i], s[j])
  }

  /** `t` added to a strictly sorted list of tags, unless it is there already. */
  function AddOption(t: string, s: seq<string>): (r: seq<string>)
    requires StrictlySorted(s)
    ensures StrictlySorted(r)
    ensures forall x :: x in r <==> x == t || x in s
  {
    if s == [] then [t]
    else if t == s[0] then s
    else if LexLess(t, s[0]) then
      assert forall j :: 0 <= j < |s| ==> LexLess(t, s[j]) by {
        forall j | 0 <= j < |s| ensures LexLess(t, s[j]) {
          if j > 0 {
            LexLessTransitive(t, s[0], s[j]);
          }
        }
      }
      [t] + s
    else
      LexLessTotal(t, s[0]);
      var rest := AddOption(t, s[1..]);
      assert s == [s[0]] + s[1..];
      assert forall j :: 0 <= j < |rest| ==> LexLess(s[0], rest[j]) by {
        forall j | 0 <= j < |rest| ensures LexLess(s[0], rest[j]) {
          assert rest[j] in rest;
        }
      }
      [s[0]] + rest
  }

  /** `sorted(set(tags))` */
  function SortedUnique(tags: seq<string>): (r: seq<string>)
    ensures StrictlySorted(r)
    ensures forall x :: x in r <==> x in tags
  {
    if tags == [] then []
    else
      assert tags == [tags[0]] + tags[1..];
      AddOption(tags[0], SortedUnique(tags[1..]))
  }

  /** `sorted({t for lst in df["themes_list"] for t in lst})`: each tag
      found in some row exactly once, in increasing order, and nothing else. */
  function ThemeOptions(events: seq<Event>): (r: seq<string>)
    ensures StrictlySorted(r)
    ensures forall t :: t in r <==> exists i :: 0 <= i < |events| && t in events[i].themes
  {
    SortedUnique(AllTags(events))
  }

  // ---------------------------------------------------------- card excerpt

  /** The description shown on a card: at most 160 characters, then "..."
      when the text was longer. */
  function Excerpt(description: Cell): (r: string)
    ensures |AsStr(description)| <= 160 ==> r == AsStr(description)
    ensures |AsStr(description)| > 160 ==> |r| == 163 && r[..160] == AsStr(description)[..160] && r[160..] == "..."
  {
    var s := AsStr(description);
    if |s| > 160 then s[..160] + "..." else s
  }
}
