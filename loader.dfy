/** Loading the timeline (`load_data_from_sheet`): the fetched table is
    normalised, or replaced by a three-row sample when the fetch fails, and
    every row then gets its year key and its list of themes. */
module Loader {
  import opened Common
  import opened Text
  import opened YearKey
  import opened Themes
  import opened Columns

  /** One row of the loaded table. */
  datatype Event = Event(period: Cell, title: Cell, description: Cell, theme: Cell,
                         yearKey: int, themes: seq<string>)

  /** The derived columns of a row agree with its free-text columns. */
  predicate Derived(e: Event) {
    e.yearKey == FirstYearFromText(e.period) && e.themes == SplitThemes(e.theme)
  }

  /** The outcome of `pd.read_csv`: a parsed table, or any exception. */
  datatype Fetch = Fetched(table: Frame) | FetchFailed

  /** The local sample used when the spreadsheet cannot be read. */
  function FallbackFrame(): (df: Frame)
    ensures df.WellFormed() && df.headers == RequiredCols && df.height == 3
  {
    var period := [Text("A partir de 1760"), Text("1884-1885"), Text("1939-1945")];
    var title := [Text("Primeira Revolução Industrial"), Text("Conferência de Berlim"), Text("Segunda Guerra Mundial")];
    var description :=
      [ Text("Transição da manufatura para a maquinofatura, uso do carvão e máquina a vapor."),
        Text("Formalização da 'Partilha da África' pelas potências europeias."),
        Text("Consolidou EUA e URSS como superpotências; início da ordem bipolar.") ];
    var theme := [Text("Geografia Econômica"), Text("Geopolítica"), Text("Geopolítica")];
    Frame(RequiredCols, [period, title, description, theme], 3)
  }

  /** Row `r` of a table in the schema, with `year_key` and `themes_list` added. */
  function EventAt(df: Frame, r: nat): (e: Event)
    requires df.WellFormed() && df.headers == RequiredCols && r < df.height
    ensures Derived(e)
  {
    var period, theme := df.columns[0][r], df.columns[3][r];
    Event(period, df.columns[1][r], df.columns[2][r], theme, FirstYearFromText(period), SplitThemes(theme))
  }

  /** `df["year_key"] = df["period"].apply(first_year_from_text)` and
      `df["themes_list"] = df["theme"].apply(split_themes)`, seen row by row. */
  function Enrich(df: Frame): (events: seq<Event>)
    requires df.WellFormed() && df.headers == RequiredCols
    ensures |events| == df.height
    ensures forall r :: 0 <= r < |events| ==>
              && events[r].period == df.columns[0][r] && events[r].title == df.columns[1][r]
              && events[r].description == df.columns[2][r] && events[r].theme == df.columns[3][r]
              && Derived(events[r])
  {
    seq(df.height, r requires 0 <= r < df.height => EventAt(df, r))
  }

  /** `load_data_from_sheet` */
  method LoadDataFromSheet(fetch: Fetch) returns (events: seq<Event>)
    requires fetch.Fetched? ==> fetch.table.WellFormed() && DistinctHeaders(fetch.table.headers)
    ensures fetch.Fetched? ==> events == Enrich(Normalized(fetch.table))
    ensures fetch.FetchFailed? ==> events == Enrich(FallbackFrame())
    ensures forall r :: 0 <= r < |events| ==> Derived(events[r])
  {
    var df: Frame;
    if fetch.Fetched? {
      df := NormalizeColumns(fetch.table);
    } else {
      df := FallbackFrame();
    }
    events := Enrich(df);
  }

  /** Every loaded row has a year key that is a four-digit value or the
      sentinel, and tags that are trimmed, non-empty and free of separators. */
  lemma DerivedBounds(e: Event)
    requires Derived(e)
    ensures e.yearKey == Sentinel || 0 <= e.yearKey <= 9999
    ensures forall m :: 0 <= m < |e.themes| ==> Trimmed(e.themes[m]) && NoSeparator(e.themes[m])
  {
    if e.theme.Text? {
      NoSeparatorInThemes(e.theme.s);
    }
  }

  /** The free-text columns of the sample rows. */
  lemma FallbackRows()
    ensures |Enrich(FallbackFrame())| == 3
    ensures Enrich(FallbackFrame())[0].period == Text("A partir de 1760")
    ensures Enrich(FallbackFrame())[1].period == Text("1884-1885")
    ensures Enrich(FallbackFrame())[2].period == Text("1939-1945")
    ensures Enrich(FallbackFrame())[0].theme == Text("Geografia Econômica")
    ensures Enrich(FallbackFrame())[1].theme == Text("Geopolítica")
    ensures Enrich(FallbackFrame())[2].theme == Text("Geopolítica")
  {
  }

  /** When the spreadsheet cannot be read, the three sample rows are dated
      1760, 1884 and 1939. */
  lemma FallbackYears()
    ensures |Enrich(FallbackFrame())| == 3
    ensures Enrich(FallbackFrame())[0].yearKey == 1760
    ensures Enrich(FallbackFrame())[1].yearKey == 1884
    ensures Enrich(FallbackFrame())[2].yearKey == 1939
  {
    FallbackRows();
    YearKey.Examples();
  }

  /** ... and have one theme each. */
  lemma FallbackThemes()
    ensures |Enrich(FallbackFrame())| == 3
    ensures Enrich(FallbackFrame())[0].themes == ["Geografia Econômica"]
    ensures Enrich(FallbackFrame())[1].themes == ["Geopolítica"]
    ensures Enrich(FallbackFrame())[2].themes == ["Geopolítica"]
  {
    FallbackRows();
    ThemeExampleOne();
    ThemeExampleCapital();
  }

  /** `filtered[REQUIRED_COLS]`: the four logical columns of a list of rows. */
  function Exported(events: seq<Event>): (df: Frame)
    ensures df.WellFormed() && df.headers == RequiredCols && df.height == |events|
  {
    Frame(RequiredCols,
          [ seq(|events|, r requires 0 <= r < |events| => events[r].period),
            seq(|events|, r requires 0 <= r < |events| => events[r].title),
            seq(|events|, r requires 0 <= r < |events| => events[r].description),
            seq(|events|, r requires 0 <= r < |events| => events[r].theme) ],
          |events|)
  }

  /** Projecting rows onto the logical columns and enriching that table again,
      in memory (without a CSV round trip), gives back the same rows, with the
      same year keys and theme lists. */
  lemma ExportRoundTrip(events: seq<Event>)
    requires forall r :: 0 <= r < |events| ==> Derived(events[r])
    ensures Enrich(Normalized(Exported(events))) == events
  {
    var df := Exported(events);
    SchemaFixed(df);
    var back := Enrich(df);
    forall r | 0 <= r < |events|
      ensures back[r] == events[r]
    {
      ExportedRow(events, r);
    }
  }

  lemma ExportedRow(events: seq<Event>, r: nat)
    requires r < |events| && Derived(events[r])
    ensures Enrich(Exported(events))[r] == events[r]
  {
    var df := Exported(events);
    assert df.columns[0][r] == events[r].period && df.columns[1][r] == events[r].title;
    assert df.columns[2][r] == events[r].description && df.columns[3][r] == events[r].theme;
  }
}
