/** The sort key of an event: the first year written in its free-text period
    (`first_year_from_text`). */
module YearKey {
  import opened Common
  import opened Text

  /** Returned when no year is found; larger than every four-digit year, so
      undated events sort last. */
  const Sentinel: int := 1_000_000_000

  /** Four consecutive digits start at offset `i` of `s` (the regex `\d{4}`). */
  predicate YearAt(s: string, i: nat) {
    i + 4 <= |s| && IsDigit(s[i]) && IsDigit(s[i + 1]) && IsDigit(s[i + 2]) && IsDigit(s[i + 3])
  }

  /** `int(...)` of the four digits at offset `i`. */
  function YearValue(s: string, i: nat): (y: int)
    requires YearAt(s, i)
    ensures 0 <= y <= 9999
  {
    1000 * DigitValue(s[i]) + 100 * DigitValue(s[i + 1]) + 10 * DigitValue(s[i + 2]) + DigitValue(s[i + 3])
  }

  /** `re.search` from offset `i` on: the value of the leftmost match, or the sentinel. */
  function FirstYearFrom(s: string, i: nat): (r: int)
    requires i <= |s|
    ensures r == Sentinel || 0 <= r <= 9999
    decreases |s| - i
  {
    if i + 4 > |s| then Sentinel
    else if YearAt(s, i) then YearValue(s, i)
    else FirstYearFrom(s, i + 1)
  }

  /** `first_year_from_text`: a non-`str` cell (NaN, a number) gives the sentinel. */
  function FirstYearFromText(period: Cell): (r: int)
    ensures r == Sentinel || 0 <= r <= 9999
    ensures period.NonText? ==> r == Sentinel
  {
    match period
    case Text(s) => FirstYearFrom(s, 0)
    case NonText(_) => Sentinel
  }

  /** Scanning from `i`, the leftmost window of four digits at or after `i` decides the result. */
  lemma {:induction false} FirstYearFromLeftmost(s: string, i: nat, k: nat)
    requires i <= k && YearAt(s, k)
    requires forall j :: i <= j < k ==> !YearAt(s, j)
    ensures FirstYearFrom(s, i) == YearValue(s, k)
    decreases k - i
  {
    if i < k {
      FirstYearFromLeftmost(s, i + 1, k);
    }
  }

  /** Scanning from `i` with no window of four digits at or after `i` gives the sentinel. */
  lemma {:induction false} FirstYearFromNone(s: string, i: nat)
    requires i <= |s|
    requires forall j :: i <= j <= |s| ==> !YearAt(s, j)
    ensures FirstYearFrom(s, i) == Sentinel
    decreases |s| - i
  {
    if i + 4 <= |s| {
      FirstYearFromNone(s, i + 1);
    }
  }

  /** The year key is the value of the leftmost window of four consecutive digits. */
  lemma LeftmostYearWins(s: string, k: nat)
    requires YearAt(s, k)
    requires forall j :: 0 <= j < k ==> !YearAt(s, j)
    ensures FirstYearFromText(Text(s)) == YearValue(s, k)
  {
    FirstYearFromLeftmost(s, 0, k);
  }

  /** Without any window of four consecutive digits the key is the sentinel. */
  lemma NoYearGivesSentinel(s: string)
    requires forall j :: 0 <= j <= |s| ==> !YearAt(s, j)
    ensures FirstYearFromText(Text(s)) == Sentinel
  {
    FirstYearFromNone(s, 0);
  }

  /** A window of four digits at or after `i` means the scan from `i` finds a year. */
  lemma {:induction false} FirstYearFromFound(s: string, i: nat, k: nat)
    requires i <= k && YearAt(s, k)
    ensures FirstYearFrom(s, i) != Sentinel
    decreases k - i
  {
    if i < k && !YearAt(s, i) {
      FirstYearFromFound(s, i + 1, k);
    }
  }

  /** The key is the sentinel exactly when the period has no four consecutive digits,
      so a dated event always sorts before an undated one. */
  lemma SentinelIffNoYear(s: string)
    ensures FirstYearFromText(Text(s)) == Sentinel <==> forall j :: 0 <= j <= |s| ==> !YearAt(s, j)
  {
    if forall j :: 0 <= j <= |s| ==> !YearAt(s, j) {
      FirstYearFromNone(s, 0);
    } else {
      var k :| 0 <= k <= |s| && YearAt(s, k);
      FirstYearFromFound(s, 0, k);
    }
  }

  lemma Examples()
    ensures FirstYearFromText(Text("1939-1945")) == 1939
    ensures FirstYearFromText(Text("1884-1885")) == 1884
    ensures FirstYearFromText(Text("A partir de 1760")) == 1760
    ensures FirstYearFromText(Text("sem data")) == Sentinel
    ensures FirstYearFromText(Missing) == Sentinel
  {
    var s := "A partir de 1760";
    assert forall j :: 0 <= j < 12 ==> !IsDigit(s[j]);
    LeftmostYearWins(s, 12);
  }
}
