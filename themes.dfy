/** Splitting the free-text theme column into tags (`split_themes`): `re.split`
    on the pattern `\s+e\s+|[,;/&]` with IGNORECASE, then
    `[p.strip() for p in parts if p.strip()]`. */
module Themes {
  import opened Common
  import opened Text

  predicate IsSeparatorChar(c: char) {
    c == ',' || c == ';' || c == '/' || c == '&'
  }

  predicate IsE(c: char) {
    c == 'e' || c == 'E'
  }

  /** The regex engine's attempt at offset `i`: where the match of
      `\s+e\s+|[,;/&]` starting there ends, if there is one. */
  function MatchEnd(s: string, i: nat): (r: Option<nat>)
    requires i < |s|
    ensures r.Some? ==> i < r.value <= |s|
  {
    if IsSeparatorChar(s[i]) then Some(i + 1)
    else if IsSpace(s[i]) then
      var m := SkipSpaces(s, i);
      if m + 1 < |s| && IsE(s[m]) && IsSpace(s[m + 1]) then Some(SkipSpaces(s, m + 1)) else None
    else None
  }

  /** `s[i..j]` is the conjunction " e ": whitespace, an `e` or `E` at offset
      `m`, whitespace, with the trailing whitespace taken greedily up to `j`. */
  predicate ConjunctionAt(s: string, i: nat, m: nat, j: nat) {
    && i < m && m + 1 < j <= |s|
    && (forall k :: i <= k < m ==> IsSpace(s[k]))
    && IsE(s[m])
    && (forall k :: m < k < j ==> IsSpace(s[k]))
    && (j == |s| || !IsSpace(s[j]))
  }

  /** The attempt at `i` succeeds exactly on the two alternatives of the
      pattern: one separator character, or the conjunction " e ". */
  lemma MatchEndMeaning(s: string, i: nat)
    requires i < |s|
    ensures IsSeparatorChar(s[i]) ==> MatchEnd(s, i) == Some(i + 1)
    ensures forall m: nat, j: nat :: ConjunctionAt(s, i, m, j) ==> MatchEnd(s, i) == Some(j)
    ensures MatchEnd(s, i).Some? && !IsSeparatorChar(s[i]) ==>
              exists m: nat :: ConjunctionAt(s, i, m, MatchEnd(s, i).value)
  {
    forall m: nat, j: nat | ConjunctionAt(s, i, m, j)
      ensures MatchEnd(s, i) == Some(j)
    {
      assert !IsSeparatorChar(s[i]);
      assert SkipSpaces(s, i) == m;
      assert SkipSpaces(s, m + 1) == j;
    }
    if MatchEnd(s, i).Some? && !IsSeparatorChar(s[i]) {
      assert ConjunctionAt(s, i, SkipSpaces(s, i), MatchEnd(s, i).value);
    }
  }

  /** A piece of the input, as the half-open offsets `[lo, hi)`. */
  datatype Span = Span(lo: nat, hi: nat)

  /** `spans`, starting at offset `start`, cut the rest of `s` the way
      `re.split` does: consecutive pieces up to the end of `s`, each gap
      between two pieces one match of the pattern, and no match starting
      inside a piece (the leftmost match is always taken). */
  predicate IsSplitFrom(s: string, start: nat, spans: seq<Span>) {
    && |spans| >= 1
    && spans[0].lo == start && spans[|spans| - 1].hi == |s|
    && (forall k :: 0 <= k < |spans| ==> spans[k].lo <= spans[k].hi <= |s|)
    && (forall k :: 0 <= k < |spans| - 1 ==>
          spans[k].hi < |s| && MatchEnd(s, spans[k].hi) == Some(spans[k + 1].lo))
    && (forall k, p :: 0 <= k < |spans| && spans[k].lo <= p < spans[k].hi ==> MatchEnd(s, p).None?)
  }

  /** The scan of `re.split`: the current piece started at `start`, the
      engine now tries offset `i`. */
  function Pieces(s: string, start: nat, i: nat): (r: seq<Span>)
    requires start <= i <= |s|
    decreases |s| - i
  {
    if i == |s| then [Span(start, |s|)]
    else
      match MatchEnd(s, i)
      case Some(j) => [Span(start, i)] + Pieces(s, j, j)
      case None => Pieces(s, start, i + 1)
  }

  /** A piece ended by a match, followed by a split of the rest, is a split. */
  lemma SplitCons(s: string, start: nat, i: nat, rest: seq<Span>)
    requires start <= i < |s| && MatchEnd(s, i).Some?
    requires forall p :: start <= p < i ==> MatchEnd(s, p).None?
    requires IsSplitFrom(s, MatchEnd(s, i).value, rest)
    ensures IsSplitFrom(s, start, [Span(start, i)] + rest)
  {
    var r := [Span(start, i)] + rest;
    forall k | 0 < k < |r|
      ensures r[k] == rest[k - 1]
    {
    }
  }

  lemma {:induction false} PiecesSplit(s: string, start: nat, i: nat)
    requires start <= i <= |s|
    requires forall p :: start <= p < i ==> MatchEnd(s, p).None?
    ensures IsSplitFrom(s, start, Pieces(s, start, i))
    decreases |s| - i
  {
    if i < |s| {
      match MatchEnd(s, i)
      case Some(j) =>
        PiecesSplit(s, j, j);
        SplitCons(s, start, i, Pieces(s, j, j));
      case None =>
        PiecesSplit(s, start, i + 1);
    }
  }

  /** The pieces `re.split` returns, as offsets into `s`. */
  function SplitSpans(s: string): (r: seq<Span>)
    ensures IsSplitFrom(s, 0, r)
  {
    PiecesSplit(s, 0, 0);
    Pieces(s, 0, 0)
  }

  /** The list `re.split` returns. */
  function RawSplit(s: string): (parts: seq<string>)
    ensures |parts| == |SplitSpans(s)|
    ensures forall k :: 0 <= k < |parts| ==> parts[k] == s[SplitSpans(s)[k].lo..SplitSpans(s)[k].hi]
  {
    var spans := SplitSpans(s);
    seq(|spans|, k requires 0 <= k < |spans| => s[spans[k].lo..spans[k].hi])
  }

  /** `[p.strip() for p in parts]` */
  function StripAll(parts: seq<string>): (r: seq<string>)
    ensures |r| == |parts|
    ensures forall k :: 0 <= k < |parts| ==> r[k] == Strip(parts[k])
  {
    seq(|parts|, k requires 0 <= k < |parts| => Strip(parts[k]))
  }

  /** The elements of `ps` that are not empty, in order. */
  function NonEmpty(ps: seq<string>): (r: seq<string>)
    ensures |r| <= |ps|
    ensures forall m :: 0 <= m < |r| ==> r[m] != [] && r[m] in ps
  {
    if ps == [] then []
    else (if ps[0] == [] then [] else [ps[0]]) + NonEmpty(ps[1..])
  }

  /** `[p.strip() for p in parts if p.strip()]` */
  function KeepNonBlank(parts: seq<string>): (r: seq<string>)
    ensures |r| <= |parts|
    ensures forall m :: 0 <= m < |r| ==> Trimmed(r[m])
  {
    NonEmpty(StripAll(parts))
  }

  /** `split_themes`: a cell that is not a `str` (NaN, a number) has no themes. */
  function SplitThemes(theme: Cell): (r: seq<string>)
    ensures theme.NonText? ==> r == []
    ensures forall m :: 0 <= m < |r| ==> Trimmed(r[m])
  {
    match theme
    case NonText(_) => []
    case Text(s) => KeepNonBlank(RawSplit(s))
  }

  /** Every index moved one place on. */
  function Shift(ix: seq<nat>): (r: seq<nat>)
    ensures |r| == |ix|
    ensures forall m :: 0 <= m < |ix| ==> r[m] == ix[m] + 1
  {
    if ix == [] then [] else [ix[0] + 1] + Shift(ix[1..])
  }

  /** For each element `NonEmpty(ps)` keeps, its position in `ps`. */
  function Origin(ps: seq<string>): (ix: seq<nat>)
  {
    if ps == [] then []
    else if ps[0] == [] then Shift(Origin(ps[1..]))
    else [0] + Shift(Origin(ps[1..]))
  }

  lemma {:induction false} OriginLength(ps: seq<string>)
    ensures |Origin(ps)| == |NonEmpty(ps)|
  {
    if ps != [] {
      OriginLength(ps[1..]);
    }
  }

  lemma {:induction false} NonEmptyAt(ps: seq<string>, m: nat)
    requires m < |Origin(ps)|
    ensures |Origin(ps)| == |NonEmpty(ps)|
    ensures Origin(ps)[m] < |ps| && NonEmpty(ps)[m] == ps[Origin(ps)[m]]
  {
    OriginLength(ps);
    var tail := ps[1..];
    OriginLength(tail);
    var ot, nt := Origin(tail), NonEmpty(tail);
    if ps[0] == [] {
      assert Origin(ps) == Shift(ot) && NonEmpty(ps) == nt;
      NonEmptyAt(tail, m);
      assert ps[ot[m] + 1] == tail[ot[m]];
    } else if m > 0 {
      assert Origin(ps) == [0] + Shift(ot) && NonEmpty(ps) == [ps[0]] + nt;
      NonEmptyAt(tail, m - 1);
      assert ps[ot[m - 1] + 1] == tail[ot[m - 1]];
    }
  }

  /** The tags are the stripped non-blank pieces: tag `m` comes from piece `Origin(..)[m]`. */
  lemma KeepNonBlankOrigin(parts: seq<string>)
    ensures |Origin(StripAll(parts))| == |KeepNonBlank(parts)|
    ensures forall m :: 0 <= m < |KeepNonBlank(parts)| ==>
              var k := Origin(StripAll(parts))[m];
              k < |parts| && KeepNonBlank(parts)[m] == Strip(parts[k])
  {
    var ps := StripAll(parts);
    OriginLength(ps);
    forall m | 0 <= m < |Origin(ps)|
      ensures Origin(ps)[m] < |parts| && KeepNonBlank(parts)[m] == Strip(parts[Origin(ps)[m]])
    {
      NonEmptyAt(ps, m);
    }
  }

  /** The tags keep the order of the pieces they come from. */
  lemma {:induction false} OriginIncreasing(ps: seq<string>)
    ensures forall m, n :: 0 <= m < n < |Origin(ps)| ==> Origin(ps)[m] < Origin(ps)[n]
  {
    if ps != [] {
      OriginIncreasing(ps[1..]);
    }
  }

  /** Every element that is not empty is kept. */
  lemma {:induction false} NonEmptyComplete(ps: seq<string>, k: nat)
    requires k < |ps| && ps[k] != []
    ensures k in Origin(ps)
  {
    if k > 0 {
      var tail := ps[1..];
      var ot := Origin(tail);
      NonEmptyComplete(tail, k - 1);
      var n :| 0 <= n < |ot| && ot[n] == k - 1;
      assert Shift(ot)[n] == k;
    }
  }

  /** Every piece that is not blank gives a tag. */
  lemma KeepNonBlankComplete(parts: seq<string>, k: nat)
    requires k < |parts| && !Blank(parts[k])
    ensures k in Origin(StripAll(parts))
  {
    StripCutsSpaces(parts[k]);
    NonEmptyComplete(StripAll(parts), k);
  }

  predicate NoSeparator(t: string) {
    forall q :: 0 <= q < |t| ==> !IsSeparatorChar(t[q])
  }

  /** No piece holds a separator character: one would have ended the piece. */
  lemma PiecesHaveNoSeparator(s: string)
    ensures forall k :: 0 <= k < |RawSplit(s)| ==> NoSeparator(RawSplit(s)[k])
  {
    var spans := SplitSpans(s);
    forall k, q | 0 <= k < |spans| && 0 <= q < |RawSplit(s)[k]|
      ensures !IsSeparatorChar(RawSplit(s)[k][q])
    {
      var p := spans[k].lo + q;
      assert RawSplit(s)[k][q] == s[p];
      assert MatchEnd(s, p).None?;
    }
  }

  lemma StripNoSeparator(s: string)
    requires NoSeparator(s)
    ensures NoSeparator(Strip(s))
  {
    var r := Strip(s);
    forall q | 0 <= q < |r|
      ensures !IsSeparatorChar(r[q])
    {
      assert r[q] == s[StripStart(s) + q];
    }
  }

  /** Stripping and dropping blank pieces cannot bring in a separator character. */
  lemma KeptHaveNoSeparator(parts: seq<string>)
    requires forall k :: 0 <= k < |parts| ==> NoSeparator(parts[k])
    ensures forall m :: 0 <= m < |KeepNonBlank(parts)| ==> NoSeparator(KeepNonBlank(parts)[m])
  {
    var ps := StripAll(parts);
    forall k | 0 <= k < |ps|
      ensures NoSeparator(ps[k])
    {
      StripNoSeparator(parts[k]);
    }
  }

  /** No tag contains a separator character. */
  lemma NoSeparatorInThemes(s: string)
    ensures forall m :: 0 <= m < |SplitThemes(Text(s))| ==> NoSeparator(SplitThemes(Text(s))[m])
  {
    PiecesHaveNoSeparator(s);
    KeptHaveNoSeparator(RawSplit(s));
  }

  lemma {:induction false} PiecesWithoutMatch(s: string, start: nat, i: nat)
    requires start <= i <= |s|
    requires forall p :: i <= p < |s| ==> MatchEnd(s, p).None?
    ensures Pieces(s, start, i) == [Span(start, |s|)]
    decreases |s| - i
  {
    if i < |s| {
      PiecesWithoutMatch(s, start, i + 1);
    }
  }

  /** An input with no separator is one piece: its stripped form, or nothing when blank. */
  lemma SingleTheme(s: string)
    requires forall p :: 0 <= p < |s| ==> MatchEnd(s, p).None?
    ensures !Blank(s) ==> SplitThemes(Text(s)) == [Strip(s)]
    ensures Blank(s) ==> SplitThemes(Text(s)) == []
  {
    PiecesWithoutMatch(s, 0, 0);
    StripCutsSpaces(s);
    assert s[0..|s|] == s;
    assert RawSplit(s) == [s];
  }

  /** Without a separator character, and without an `e` or `E` standing
      between two whitespace characters, the pattern matches nowhere. */
  lemma NoMatchAnywhere(s: string)
    requires forall p :: 0 <= p < |s| ==> !IsSeparatorChar(s[p])
    requires forall m :: 0 < m < |s| - 1 && IsE(s[m]) ==> !IsSpace(s[m - 1]) || !IsSpace(s[m + 1])
    ensures forall p :: 0 <= p < |s| ==> MatchEnd(s, p).None?
  {
    forall p | 0 <= p < |s| && IsSpace(s[p])
      ensures MatchEnd(s, p).None?
    {
      var m := SkipSpaces(s, p);
      assert p < m && IsSpace(s[m - 1]);
    }
  }

  /** A trimmed text without a separator character and without an `e` or `E`
      standing between two whitespace characters is one tag. */
  lemma OneTag(s: string)
    requires Trimmed(s)
    requires forall p :: 0 <= p < |s| ==> !IsSeparatorChar(s[p])
    requires forall m :: 0 < m < |s| - 1 && IsE(s[m]) ==> !IsSpace(s[m - 1]) || !IsSpace(s[m + 1])
    ensures SplitThemes(Text(s)) == [s]
  {
    NoMatchAnywhere(s);
    SingleTheme(s);
    StripIdentity(s);
  }

  /** The scan passes over offsets where nothing matches. */
  lemma {:induction false} PiecesSkip(s: string, start: nat, i: nat, k: nat)
    requires start <= i <= k <= |s|
    requires forall p :: i <= p < k ==> MatchEnd(s, p).None?
    ensures Pieces(s, start, i) == Pieces(s, start, k)
    decreases k - i
  {
    if i < k {
      PiecesSkip(s, start, i + 1, k);
    }
  }

  /** `re.split` cuts two words joined by the conjunction " e " into the two words. */
  lemma TwoPieces(a: string, b: string)
    requires a != [] && b != []
    requires forall p :: 0 <= p < |a| ==> !IsSeparatorChar(a[p]) && !IsSpace(a[p])
    requires forall p :: 0 <= p < |b| ==> !IsSeparatorChar(b[p]) && !IsSpace(b[p])
    ensures RawSplit(a + " e " + b) == [a, b]
  {
    var s := a + " e " + b;
    var n := |a|;
    assert forall p :: 0 <= p < n ==> s[p] == a[p];
    assert forall p :: n + 3 <= p < |s| ==> s[p] == b[p - n - 3];
    PiecesSkip(s, 0, 0, n);
    assert SkipSpaces(s, n) == n + 1;
    assert SkipSpaces(s, n + 2) == n + 3;
    assert MatchEnd(s, n) == Some(n + 3);
    PiecesWithoutMatch(s, n + 3, n + 3);
    assert SplitSpans(s) == [Span(0, n), Span(n + 3, |s|)];
    assert s[0..n] == a && s[n + 3..|s|] == b;
  }

  /** Two words joined by the conjunction " e " are two tags. */
  lemma TwoTags(a: string, b: string)
    requires a != [] && b != []
    requires forall p :: 0 <= p < |a| ==> !IsSeparatorChar(a[p]) && !IsSpace(a[p])
    requires forall p :: 0 <= p < |b| ==> !IsSeparatorChar(b[p]) && !IsSpace(b[p])
    ensures SplitThemes(Text(a + " e " + b)) == [a, b]
  {
    TwoPieces(a, b);
    StripIdentity(a);
    StripIdentity(b);
    var ps := StripAll([a, b]);
    assert ps == [a, b];
    assert ps[1..] == [b] && ps[1..][1..] == [];
    assert NonEmpty(ps[1..]) == [b];
    assert NonEmpty(ps) == [a, b];
    assert KeepNonBlank(RawSplit(a + " e " + b)) == [a, b];
  }

  /** A single theme name is one tag. */
  lemma ThemeExampleOne()
    ensures SplitThemes(Text("Geopolítica")) == ["Geopolítica"]
  {
    OneTag("Geopolítica");
  }

  /** A capital E inside a word does not split it. */
  lemma ThemeExampleCapital()
    ensures SplitThemes(Text("Geografia Econômica")) == ["Geografia Econômica"]
  {
    var s := "Geografia Econômica";
    assert forall m :: 0 <= m < |s| && m != 9 ==> !IsSpace(s[m]);
    OneTag(s);
  }

  /** The conjunction " e " separates two themes. */
  lemma ThemeExampleTwo()
    ensures SplitThemes(Text("Geopolítica" + " e " + "Economia")) == ["Geopolítica", "Economia"]
  {
    TwoTags("Geopolítica", "Economia");
  }
}
