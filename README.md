# Linha do Tempo — a verified model of the timeline pipeline

The Streamlit page `pages/01_linha_do_Tempo.py` shows a timeline of
geography themes. Its rows come from a loosely shaped Google Sheets export.
This project models, in Dafny, the data pipeline behind that page:

- **`first_year_from_text`** (module `YearKey`, `year_key.dfy`). The sort
  key of an event is the first four-digit run in its free-text period, or
  the sentinel 10^9 when there is none.
- **`split_themes`** (module `Themes`, `themes.dfy`). The theme column is
  split into tags, as `re.split(r"\s+e\s+|[,;/&]", ..., flags=re.IGNORECASE)`
  followed by `[p.strip() for p in parts if p.strip()]`. The split is written
  as an explicit leftmost-match scan.
- **`normalize_columns`** (module `Columns`, `columns.dfy`). Arbitrary headers
  are mapped onto the schema `period, title, description, theme`. It is an
  imperative method (the colmap loop, the `for`/`break` scan, the
  column-by-column fill of `out`). It is proved equal to a declarative
  description of the output table.
- **`load_data_from_sheet`** (module `Loader`, `loader.dfy`). The fetched table
  is normalised; if the fetch fails, the three-row fallback table is used
  instead. Either way, every row gets its `year_key` and its `themes_list`.
- **`filter_df`** and the sidebar's theme options (module `Query`,
  `query.dfy`). These cover the any-match theme filter, the case-insensitive
  search over four columns, the sort by `(year_key, title)`, the sorted,
  de-duplicated list of theme options, and the 160-character card excerpt.

Shared modules:

- `Common` (`common.dfy`): the cell model. A cell is either a Python `str`
  (`Text`) or another value, such as NaN or a number (`NonText`), together
  with what `astype(str)` prints for it.
- `Text` (`text.dfy`): the Python `str` operations the pipeline uses.
  - `isspace`/`\s` use Python's exact whitespace set.
  - `lower()` covers Basic Latin and Latin-1.
  - Also `strip()`, the substring test, and `<` on strings.

### Where the code and its stated intent differ

`out[want] = ""` at line 67 reads as if a wanted column that is not found
should become a column of empty strings. That assignment puts a scalar into
a frame created empty at line 52, and pandas then does something else; the
model follows what the code does:

- A wanted column that is not found is filled with `""` only when an earlier
  wanted column was already found. Otherwise the frame has no index yet,
  and when a later column is assigned, the missing one is reindexed to NaN.
- When no wanted column is found at all, the output has no rows.

`Columns.Placed`, `Columns.BeforeAnchor` and `Columns.NothingFoundIsEmpty`
state this. Downstream, a NaN period gives the sentinel key and a NaN theme
gives no tags, so a table without a `period` column still loads.

## Model

| member | source | states |
|---|---|---|
| Text.IsSpace | pages/01_linha_do_Tempo.py:43-44 | the whitespace of `\s` and `str.isspace()`: the ASCII spaces, tab to carriage return, the separators 0x1C-0x1F, 0x85, 0xA0 and the Unicode space characters |
| Text.IsDigit | pages/01_linha_do_Tempo.py:31 | a digit of `\d` is one of the ASCII characters "0" to "9" |
| Text.DigitValue | pages/01_linha_do_Tempo.py:32 | the value of one decimal digit is between 0 and 9 |
| Common.AsStr | pages/01_linha_do_Tempo.py:116-120 | `astype(str)` gives a string cell its own text and any other cell its printed form, such as "nan" |
| Common.Repeat | pages/01_linha_do_Tempo.py:67 | a scalar broadcast over `n` rows is a column of `n` copies of that value |
| Text.LowerChar | pages/01_linha_do_Tempo.py:51 | lower-casing leaves non-capitals alone, never yields a capital, and keeps whitespace as whitespace |
| Text.Lower | pages/01_linha_do_Tempo.py:51 | `str.lower()` keeps the length and lower-cases character by character |
| Text.LowerIdentity | pages/01_linha_do_Tempo.py:20 | a string without capitals is its own lower case, so the schema names are their own keys |
| Text.LowerIdempotent | pages/01_linha_do_Tempo.py:115 | lower-casing twice is lower-casing once, so lower-casing the query again changes nothing |
| Text.SkipSpacesAlike | pages/01_linha_do_Tempo.py:43-44 | two strings with whitespace at the same offsets stop `\s*` at the same offset |
| Text.TrimEndAlike | pages/01_linha_do_Tempo.py:44 | two strings with whitespace at the same offsets are cut at the same right end |
| Text.StripBoundsLower | pages/01_linha_do_Tempo.py:115 | lower-casing does not move where `strip()` cuts |
| Text.StripLower | pages/01_linha_do_Tempo.py:115 | `s.strip().lower()` equals `s.lower().strip()` |
| Text.LowerSlice | pages/01_linha_do_Tempo.py:115-120 | lower-casing a slice equals slicing the lower-cased string |
| Text.SkipSpaces | pages/01_linha_do_Tempo.py:43 | the greedy `\s*` from an offset stops at the first non-whitespace character and skips only whitespace |
| Text.TrimEnd | pages/01_linha_do_Tempo.py:44 | the right end of `strip()` cuts only whitespace and stops after a non-whitespace character |
| Text.StripStart | pages/01_linha_do_Tempo.py:44 | where the stripped text starts lies inside the string |
| Text.StripEnd | pages/01_linha_do_Tempo.py:44 | where the stripped text ends lies between its start and the end of the string |
| Text.Strip | pages/01_linha_do_Tempo.py:44 | `strip()` yields the empty string or a text with no whitespace at either end |
| Text.StripCutsSpaces | pages/01_linha_do_Tempo.py:44 | `strip()` removes only whitespace, and yields "" exactly for an all-whitespace string |
| Text.StripIdentity | pages/01_linha_do_Tempo.py:44 | an already trimmed text is unchanged by `strip()` |
| Text.Contains | pages/01_linha_do_Tempo.py:61 | `needle in hay` (and `str.contains` on a literal needle at lines 117-120): the needle occurs at some offset of the text |
| Text.EmptyIsContained | pages/01_linha_do_Tempo.py:117-120 | the empty query occurs in every field |
| Text.LexLess | pages/01_linha_do_Tempo.py:123 | `a < b` on `str`: at the first differing position the smaller code point wins, and a proper prefix comes first |
| Text.LexLessIrreflexive | pages/01_linha_do_Tempo.py:123 | no title sorts before itself |
| Text.LexLessTransitive | pages/01_linha_do_Tempo.py:123 | string order is transitive |
| Text.LexLessAsymmetric | pages/01_linha_do_Tempo.py:123 | two titles never sort before each other |
| Text.LexLessTotal | pages/01_linha_do_Tempo.py:123 | of two different titles, one sorts before the other |
| YearKey.YearAt | pages/01_linha_do_Tempo.py:31 | `\d{4}` matches at an offset when the four characters from there are ASCII digits |
| YearKey.YearValue | pages/01_linha_do_Tempo.py:32 | `int()` of four digits lies between 0 and 9999 |
| YearKey.FirstYearFrom | pages/01_linha_do_Tempo.py:31-32 | the search from an offset yields a four-digit value or the sentinel 10^9 |
| YearKey.FirstYearFromText | pages/01_linha_do_Tempo.py:24-32 | the key is at most 9999 or exactly 10^9, and a non-string period gives 10^9 |
| YearKey.FirstYearFromLeftmost | pages/01_linha_do_Tempo.py:31-32 | scanning from an offset, the leftmost window of four digits decides the key |
| YearKey.FirstYearFromNone | pages/01_linha_do_Tempo.py:31-32 | with no window of four digits after an offset, the scan yields 10^9 |
| YearKey.LeftmostYearWins | pages/01_linha_do_Tempo.py:31-32 | the key is the value of the leftmost four-digit window of the period |
| YearKey.NoYearGivesSentinel | pages/01_linha_do_Tempo.py:30-32 | a period without four consecutive digits gets 10^9 |
| YearKey.FirstYearFromFound | pages/01_linha_do_Tempo.py:31-32 | a window of four digits after an offset means the scan finds a year |
| YearKey.SentinelIffNoYear | pages/01_linha_do_Tempo.py:27-32 | the key is 10^9 if and only if the period has no four consecutive digits |
| YearKey.Examples | pages/01_linha_do_Tempo.py:24-32 | "1939-1945" gives 1939, "1884-1885" gives 1884, "A partir de 1760" gives 1760, "sem data" and NaN give 10^9 |
| Themes.IsSeparatorChar | pages/01_linha_do_Tempo.py:43 | the character class `[,;/&]` of the second alternative |
| Themes.IsE | pages/01_linha_do_Tempo.py:43 | the letter `e` of the first alternative under `re.IGNORECASE`: `e` or `E` |
| Themes.ConjunctionAt | pages/01_linha_do_Tempo.py:43 | the first alternative `\s+e\s+`: whitespace, then `e` or `E`, then whitespace taken greedily up to the next non-whitespace character or the end |
| Themes.MatchEnd | pages/01_linha_do_Tempo.py:43 | a match of the separator pattern ends after the offset it starts at |
| Themes.MatchEndMeaning | pages/01_linha_do_Tempo.py:43 | the pattern matches at an offset exactly on its two alternatives: one of `,;/&`, or whitespace, `e`/`E`, whitespace (greedy) |
| Themes.IsSplitFrom | pages/01_linha_do_Tempo.py:43 | what `re.split` returns: consecutive pieces running to the end of the text, each gap between two pieces one match of the pattern, and no match starting inside a piece |
| Themes.SplitCons | pages/01_linha_do_Tempo.py:43 | a piece ended by the leftmost match, followed by a split of the rest, is a split |
| Themes.Pieces | pages/01_linha_do_Tempo.py:43 | the `re.split` scan: from the current piece's start, try each offset; a match closes the piece and the next one starts where the match ends |
| Themes.PiecesSplit | pages/01_linha_do_Tempo.py:43 | the left-to-right scan produces a split: consecutive pieces, each gap one match, no match inside a piece |
| Themes.SplitSpans | pages/01_linha_do_Tempo.py:43 | `re.split` cuts the whole input into pieces separated by leftmost matches of the pattern |
| Themes.RawSplit | pages/01_linha_do_Tempo.py:43 | each part is the text of the corresponding piece, in input order |
| Themes.StripAll | pages/01_linha_do_Tempo.py:44 | every part is stripped, and their number and order are kept |
| Themes.NonEmpty | pages/01_linha_do_Tempo.py:44 | the kept parts are non-empty parts of the input, and there are no more of them than input parts |
| Themes.KeepNonBlank | pages/01_linha_do_Tempo.py:44 | the comprehension keeps only trimmed, non-empty tags |
| Themes.SplitThemes | pages/01_linha_do_Tempo.py:35-44 | a non-string cell gives []; every tag is non-empty and has no surrounding whitespace |
| Themes.OriginLength | pages/01_linha_do_Tempo.py:44 | each kept tag has one recorded origin |
| Themes.NonEmptyAt | pages/01_linha_do_Tempo.py:44 | the m-th kept part is the input part at its origin |
| Themes.KeepNonBlankOrigin | pages/01_linha_do_Tempo.py:44 | each tag is the stripped raw part it came from |
| Themes.OriginIncreasing | pages/01_linha_do_Tempo.py:44 | tags appear in the left-to-right order of the parts they come from |
| Themes.NonEmptyComplete | pages/01_linha_do_Tempo.py:44 | every non-empty part is kept |
| Themes.KeepNonBlankComplete | pages/01_linha_do_Tempo.py:44 | every part that is not all whitespace yields a tag |
| Themes.PiecesHaveNoSeparator | pages/01_linha_do_Tempo.py:43 | no raw part contains `,` `;` `/` or `&` |
| Themes.StripNoSeparator | pages/01_linha_do_Tempo.py:44 | stripping adds no separator character |
| Themes.KeptHaveNoSeparator | pages/01_linha_do_Tempo.py:44 | the kept tags of separator-free parts are separator-free |
| Themes.NoSeparatorInThemes | pages/01_linha_do_Tempo.py:43-44 | no tag contains `,` `;` `/` or `&` |
| Themes.PiecesWithoutMatch | pages/01_linha_do_Tempo.py:43 | with no match ahead, the scan yields one piece to the end |
| Themes.SingleTheme | pages/01_linha_do_Tempo.py:43-44 | an input without any match gives `[strip(input)]` when it is not blank and [] when it is |
| Themes.NoMatchAnywhere | pages/01_linha_do_Tempo.py:43 | without separator characters and without an `e` between whitespace, the pattern matches nowhere |
| Themes.OneTag | pages/01_linha_do_Tempo.py:43-44 | a trimmed text without separators is exactly one tag |
| Themes.PiecesSkip | pages/01_linha_do_Tempo.py:43 | the scan passes over offsets where nothing matches |
| Themes.TwoPieces | pages/01_linha_do_Tempo.py:43 | two words joined by " e " split into the two words |
| Themes.TwoTags | pages/01_linha_do_Tempo.py:43-44 | two words joined by " e " are two tags, in order |
| Themes.ThemeExampleOne | pages/01_linha_do_Tempo.py:43-44 | "Geopolítica" is one tag |
| Themes.ThemeExampleCapital | pages/01_linha_do_Tempo.py:43-44 | "Geografia Econômica" is one tag: a capital E starting a word is no conjunction |
| Themes.ThemeExampleTwo | pages/01_linha_do_Tempo.py:43-44 | "Geopolítica e Economia" gives the tags "Geopolítica" and "Economia" |
| Columns.Keys | pages/01_linha_do_Tempo.py:51 | each header's key is its lower-cased, stripped name, in header order |
| Columns.Key | pages/01_linha_do_Tempo.py:51 | `c.lower().strip()` is empty or trimmed, and holds no capital letter |
| Columns.LastIndex | pages/01_linha_do_Tempo.py:51 | the dict comprehension maps each key to a valid header position |
| Columns.KeyMap | pages/01_linha_do_Tempo.py:51 | `colmap` maps keys to valid header positions |
| Columns.ExactMatch | pages/01_linha_do_Tempo.py:55-56 | an exact match names an existing column |
| Columns.NearMatchFrom | pages/01_linha_do_Tempo.py:60-63 | the scan from a position finds a column at or after it |
| Columns.NearMatch | pages/01_linha_do_Tempo.py:59-63 | the near match names an existing column |
| Columns.SourceOf | pages/01_linha_do_Tempo.py:55-67 | a wanted name is taken from an existing column or filled |
| Columns.Sources | pages/01_linha_do_Tempo.py:53-67 | each of the four wanted names gets its own source, in schema order |
| Columns.AnchorFrom | pages/01_linha_do_Tempo.py:52-67 | finds the first wanted column with a source; every earlier one is filled |
| Columns.PlacedHeight | pages/01_linha_do_Tempo.py:52-67 | the output has the input's row count or, when nothing is found, no rows |
| Columns.Placed | pages/01_linha_do_Tempo.py:55-67 | each output column has the output's height |
| Columns.Placement | pages/01_linha_do_Tempo.py:52-68 | the output has exactly the four schema headers, in order, with columns of equal height |
| Columns.Normalized | pages/01_linha_do_Tempo.py:47-68 | the output schema is `period, title, description, theme`, and an empty input gives empty columns |
| Columns.AnchorStep | pages/01_linha_do_Tempo.py:65-67 | the frame gets its index exactly at the first column that has a source |
| Columns.BeforeAnchor | pages/01_linha_do_Tempo.py:52-67 | filled columns before the first found one end up NaN |
| Columns.FinalFrame | pages/01_linha_do_Tempo.py:68 | the columns built by the loop make up the declared output |
| Columns.LastIndexSnoc | pages/01_linha_do_Tempo.py:51 | a later header with the same key overwrites the entry |
| Columns.BuildColmap | pages/01_linha_do_Tempo.py:51 | the loop builds exactly the dict comprehension's map |
| Columns.ScanNear | pages/01_linha_do_Tempo.py:59-63 | the `for`/`break` loop finds exactly the first header containing the wanted name |
| Columns.FindColumn | pages/01_linha_do_Tempo.py:55-64 | a column is found if and only if one is sourced for the name, and it is that column |
| Columns.AssignSeries | pages/01_linha_do_Tempo.py:56 | `out[want] = series` adds the series and reindexes earlier NaN-filled columns |
| Columns.AssignBlank | pages/01_linha_do_Tempo.py:67 | `out[want] = ""` adds a blank column, or an empty one before the frame has an index |
| Columns.NormalizeColumns | pages/01_linha_do_Tempo.py:47-68 | the method returns exactly the declared normalised table |
| Columns.LastIndexIsLast | pages/01_linha_do_Tempo.py:51 | a key is absent exactly when no header has it; otherwise it maps to the last header with it |
| Columns.ExactMatchIsLast | pages/01_linha_do_Tempo.py:51-56 | the exact match is the last header whose key is the wanted name, and there is none exactly when no key equals it |
| Columns.NearMatchFromIsFirst | pages/01_linha_do_Tempo.py:60-63 | the scan finds the first header whose lower-cased name contains the wanted name, or none when no header does |
| Columns.SourcePriority | pages/01_linha_do_Tempo.py:51-67 | the exact match wins, with the last header taking it; otherwise the first header containing the name; otherwise the column is filled |
| Columns.NormalizedColumns | pages/01_linha_do_Tempo.py:53-68 | each output column is the chosen source column, or is filled with "" or NaN |
| Columns.NothingFoundIsEmpty | pages/01_linha_do_Tempo.py:52-67 | when no wanted column is found, the output has no rows |
| Columns.FoundKeepsRows | pages/01_linha_do_Tempo.py:52-65 | when some wanted column is found, the output keeps every input row |
| Columns.RequiredKeys | pages/01_linha_do_Tempo.py:20 | the schema names are their own keys |
| Columns.RequiredDistinct | pages/01_linha_do_Tempo.py:20 | the schema names are distinct |
| Columns.SchemaSources | pages/01_linha_do_Tempo.py:20-56 | on the schema headers, every wanted name is an exact match of its own column |
| Columns.PlacementInOrder | pages/01_linha_do_Tempo.py:53-68 | taking the four columns in place gives the table back |
| Columns.SchemaFixed | pages/01_linha_do_Tempo.py:47-68 | a table already in the schema is unchanged |
| Columns.NormalizeIdempotent | pages/01_linha_do_Tempo.py:47-68 | normalising twice is normalising once |
| Loader.Derived | pages/01_linha_do_Tempo.py:104-105 | a row's `year_key` is `first_year_from_text` of its period and its `themes_list` is `split_themes` of its theme |
| Loader.EventAt | pages/01_linha_do_Tempo.py:104-105 | a row's year key and tag list are derived from its period and theme |
| Loader.Enrich | pages/01_linha_do_Tempo.py:104-105 | the enrichment keeps every row and its four columns, and adds the derived `year_key` and `themes_list` |
| Loader.LoadDataFromSheet | pages/01_linha_do_Tempo.py:72-106 | a fetched table is normalised and a failed fetch gives the fallback table; in both cases every row is enriched |
| Loader.DerivedBounds | pages/01_linha_do_Tempo.py:104-105 | every loaded key is at most 9999 or 10^9, and every tag is trimmed, non-empty and separator-free |
| Loader.FallbackFrame | pages/01_linha_do_Tempo.py:82-102 | the fallback table has the four schema columns, in order, and three rows |
| Loader.FallbackRows | pages/01_linha_do_Tempo.py:82-102 | the fallback table has three rows with the source's periods and themes |
| Loader.FallbackYears | pages/01_linha_do_Tempo.py:82-104 | the fallback rows are dated 1760, 1884 and 1939 |
| Loader.FallbackThemes | pages/01_linha_do_Tempo.py:82-105 | the fallback rows have the tags ["Geografia Econômica"], ["Geopolítica"] and ["Geopolítica"] |
| Loader.Exported | pages/01_linha_do_Tempo.py:144 | projecting to `REQUIRED_COLS` gives a table in the schema with one row per event |
| Loader.ExportedRow | pages/01_linha_do_Tempo.py:104-105 | reloading a projected row gives that row back |
| Loader.ExportRoundTrip | pages/01_linha_do_Tempo.py:104-105 | enriching the in-memory projection onto the four columns again gives back the same rows, keys and tags |
| Query.ByThemes | pages/01_linha_do_Tempo.py:111-112 | the theme mask keeps each row with a selected tag as often as it occurs and drops the rest; an empty selection keeps the table |
| Query.ThemeMatch | pages/01_linha_do_Tempo.py:111-112 | a row passes the theme filter when nothing is selected or one of its tags is selected |
| Query.ByQuery | pages/01_linha_do_Tempo.py:114-122 | the text mask keeps each row where the query occurs in one of the four fields; an empty query keeps the table |
| Query.FieldMatch | pages/01_linha_do_Tempo.py:117-120 | one column passes when the query occurs in its lower-cased string form |
| Query.TextMatch | pages/01_linha_do_Tempo.py:114-121 | a row passes the search when the raw query is empty, or the stripped, lower-cased query occurs in its title, description, period or theme |
| Query.Passes | pages/01_linha_do_Tempo.py:111-122 | a row survives `filter_df` when it passes both the theme mask and the text mask |
| Query.BlankQueryKeepsAll | pages/01_linha_do_Tempo.py:114-120 | a query of only whitespace keeps every row |
| Query.SameSearch | pages/01_linha_do_Tempo.py:114-121 | two non-empty queries that strip and lower-case to the same text keep the same rows |
| Query.SearchIgnoresCase | pages/01_linha_do_Tempo.py:115-121 | the search gives the same answer for a query and its lower case |
| Query.FoundInTitle | pages/01_linha_do_Tempo.py:115-117 | a trimmed query is found wherever its lower case occurs in the lower-cased title |
| Query.LowerGuerra | pages/01_linha_do_Tempo.py:115 | "Guerra" and "GUERRA" both lower-case to "guerra", and both are trimmed |
| Query.SearchExample | pages/01_linha_do_Tempo.py:114-121 | "guerra" and "GUERRA" both find the row titled "Segunda Guerra Mundial" |
| Query.KeyLeTotal | pages/01_linha_do_Tempo.py:123 | any two rows are ordered one way or the other by (year key, title) |
| Query.TitleLe | pages/01_linha_do_Tempo.py:123 | titles are ordered as strings by code point, with NaN and other non-string titles after every string |
| Query.KeyLe | pages/01_linha_do_Tempo.py:123 | rows are ordered by year key, then by title |
| Query.KeyLeTransitive | pages/01_linha_do_Tempo.py:123 | the (year key, title) order is transitive |
| Query.Sorted | pages/01_linha_do_Tempo.py:123 | ascending by year key, ties by title: every earlier row is at most every later one in that order |
| Query.SortedCons | pages/01_linha_do_Tempo.py:123 | a row not above any row of a sorted list can go in front |
| Query.BelowFirst | pages/01_linha_do_Tempo.py:123 | a row not above the first row of a sorted list is not above any of its rows |
| Query.Insert | pages/01_linha_do_Tempo.py:123 | inserting keeps every row and keeps a sorted list sorted |
| Query.SortRows | pages/01_linha_do_Tempo.py:123 | the sort returns a permutation of its input, ascending by year key and then title |
| Query.Ties | pages/01_linha_do_Tempo.py:123 | the tied rows are rows of the list with the same key |
| Query.TiesInsert | pages/01_linha_do_Tempo.py:123 | inserting a row puts it before the rows it ties with |
| Query.SortStable | pages/01_linha_do_Tempo.py:123 | rows tying on both keys keep their input order |
| Query.UndatedLast | pages/01_linha_do_Tempo.py:123 | in the sorted output, every undated row comes after every dated row |
| Query.FilterDf | pages/01_linha_do_Tempo.py:109-123 | `filter_df` returns each row passing both filters exactly as many times as it occurs in the input and no other row, sorted by (year key, title) |
| Query.FilterDfSpec | pages/01_linha_do_Tempo.py:109-123 | a row is in the output if and only if it is in the input and passes both filters; the output is never longer than the input |
| Query.TiesByThemes | pages/01_linha_do_Tempo.py:111-112 | the theme mask keeps rows in table order: filtering commutes with taking the rows that tie on a key |
| Query.TiesByQuery | pages/01_linha_do_Tempo.py:114-122 | the text mask keeps rows in table order, in the same sense |
| Query.FilterDfStable | pages/01_linha_do_Tempo.py:109-123 | rows of the output that tie on (year key, title) are the input's tied rows, filtered, in input order |
| Query.NoFilterOnlySorts | pages/01_linha_do_Tempo.py:110-123 | with no selection and no query, `filter_df` only sorts |
| Query.AllTags | pages/01_linha_do_Tempo.py:135 | the flattened tags are exactly the tags of some row |
| Query.StrictlySorted | pages/01_linha_do_Tempo.py:135 | `sorted(set(...))` yields a strictly increasing list: each tag comes before every later one, so none repeats |
| Query.AddOption | pages/01_linha_do_Tempo.py:135 | adding a tag to a strictly increasing list keeps it strictly increasing and adds exactly that tag |
| Query.SortedUnique | pages/01_linha_do_Tempo.py:135 | `sorted(set(...))` is strictly increasing and has the same elements |
| Query.ThemeOptions | pages/01_linha_do_Tempo.py:135 | the options list each tag of some row exactly once, in increasing order, and nothing else |
| Query.Excerpt | pages/01_linha_do_Tempo.py:204 | a description of at most 160 characters is shown whole; a longer one is cut to its first 160 characters followed by "..." |

## Left out

- The Streamlit page (page configuration, title, sidebar widgets, CSS, HTML
  cards, popovers, the empty-state message) is UI. Only the card excerpt of
  line 204 is modelled.
- The network fetch `pd.read_csv(CSV_URL)` is not modelled. The loader takes
  its outcome as a parameter: a parsed table, or a failure.
- The blanket `except Exception` also catches an exception thrown by
  `normalize_columns` itself, for example a non-string header. Headers are
  modelled as strings, so that path does not exist here.
- `@st.cache_data` memoisation is framework caching with no logic of its own.
- CSV serialisation (`to_csv().encode("utf-8")`) is not modelled. Only the
  projection onto `REQUIRED_COLS` is (`Loader.Exported`).
- Loader.ExportRoundTrip holds only for the in-memory projection. A real
  round trip through `to_csv` and `read_csv` does not keep the year keys.
  If every kept period is all digits, such as "1939", read_csv reads that
  column back as integers. The period is then no string, and lines 29-30
  give 10^9 instead of 1939. The round trip also turns an empty-string cell
  into NaN, so "" and NaN can no longer be told apart.
- Query.ByQuery: `str.contains(q)` treats `q` as a regular expression. The
  model uses a plain substring test, which agrees with it only for queries
  without regex metacharacters.
- Text.Lower lower-cases only Basic Latin and Latin-1 capitals. This covers
  Portuguese text, but not all of Python's Unicode case mapping.
- Text.IsDigit takes `\d` as the ASCII digits only. On a `str`, Python's
  `\d` also matches other Unicode decimal digits (Arabic-Indic, for
  example), which `int()` also accepts. A period written in such digits
  gets the sentinel in the model.
- Query.SortRows: a title that is not a string (a number) is modelled as a
  non-string cell without a value, tying with every other non-string title
  and ordered after every string title, as NaN is. pandas orders titles by
  value instead. When read_csv parses the whole title column as numbers,
  rows with the same year key come out in numeric title order, where the
  model keeps their input order. In a mixed column pandas puts the numbers
  before the strings, where the model puts them after.
- Query.SortRows: rows that tie on both keys keep their input order. This
  is how pandas' multi-column sort behaves.
- Query.FilterDf on a table with no rows and a non-empty selection returns
  no rows. pandas probably raises KeyError there instead. The `apply` mask of
  an empty frame has object dtype, which pandas does not treat as a boolean
  mask, so `df[mask]` selects zero columns and the sort at line 123 finds no
  `year_key` column. The page itself cannot produce this call: an empty table
  offers no theme options (lines 135-136), so the selection stays empty.
- Columns.NormalizeColumns requires distinct header names. `pd.read_csv`
  renames repeated headers, so a parsed table always meets this.
- The DataFrame is modelled as a value. Updates in place (`out[want] = ...`,
  `df["year_key"] = ...`) become new values, so no aliasing between frames
  is captured.
- The pandas index is modelled only as far as `normalize_columns` depends on
  it: whether the frame has rows yet. Row labels themselves are not kept.
