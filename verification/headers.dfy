/** Column headers of the load-estimate workbook (common_functions.py):
    the fixed header names, the newline clean-up applied on import, and the
    forecast-year filter `adjust_years`.
 */
module Headers {
  import opened Sequences
  import opened Decimal

  // ---------------------------------------------------------------------
  // Fixed header names (class `Headers`)
  // ---------------------------------------------------------------------

  const Gsp: string := "GSP"
  const Nrn: string := "NRN"
  const Name: string := "Name"
  const Voltage: string := "Voltage Ratio"
  const PsseBus1: string := "PSS/E Bus #1"
  const SubGsp: string := "Sub_GSP"
  const SubPrimary: string := "Sub_Primary"
  const Aggregate: string := "aggregate"

  // ---------------------------------------------------------------------
  // Newline clean-up of imported column names
  // ---------------------------------------------------------------------

  /** One column name with every line feed removed. */
  function StripNewlines(s: string): (r: string)
    ensures '\n' !in r
    ensures IsSubsequence(r, s)
    ensures multiset(r) == multiset(s)['\n' := 0]
  {
    if |s| == 0 then s
    else
      var rest := StripNewlines(s[1..]);
      assert s == [s[0]] + s[1..];
      SubsequenceCons(s[0], rest, s[1..]);
      if s[0] == '\n' then rest else [s[0]] + rest
  }

  /** The header clean-up done right after reading the worksheet: every
      column keeps its position and loses its line feeds. */
  function CleanHeaders(columns: seq<string>): (r: seq<string>)
    ensures |r| == |columns|
    ensures forall i :: 0 <= i < |r| ==>
              && '\n' !in r[i]
              && IsSubsequence(r[i], columns[i])
              && multiset(r[i]) == multiset(columns[i])['\n' := 0]
  {
    seq(|columns|, i requires 0 <= i < |columns| => StripNewlines(columns[i]))
  }

  /** A name with no line feed is left as it is. */
  lemma {:induction false} StripNewlinesKeepsCleanName(s: string)
    requires '\n' !in s
    ensures StripNewlines(s) == s
    decreases |s|
  {
    if |s| > 0 {
      assert s[0] in s;
      assert forall k :: 0 <= k < |s[1..]| ==> s[1..][k] == s[k + 1];
      StripNewlinesKeepsCleanName(s[1..]);
    }
  }

  /** Cleaning the headers a second time changes nothing. */
  lemma CleanHeadersIdempotent(columns: seq<string>)
    ensures CleanHeaders(CleanHeaders(columns)) == CleanHeaders(columns)
  {
    var once := CleanHeaders(columns);
    forall i | 0 <= i < |once|
      ensures StripNewlines(once[i]) == once[i]
    {
      StripNewlinesKeepsCleanName(once[i]);
    }
  }

  // ---------------------------------------------------------------------
  // Forecast-year headers: re.match of (\d{4})\s*[/]\s*(\d{4})
  // ---------------------------------------------------------------------

  // `\d` is read as Decimal.IsDigit, the ASCII decimal digits.

  /** `\s` on a str pattern: exactly the characters Python's str.isspace accepts. */
  predicate IsSpace(c: char)
    ensures IsSpace(c) ==> !IsDigit(c) && c != '/'
  {
    || c == '\t' || c == '\n' || c == '\U{0B}' || c == '\U{0C}' || c == '\r'
    || c == '\U{1C}' || c == '\U{1D}' || c == '\U{1E}' || c == '\U{1F}' || c == ' '
    || c == '\U{85}' || c == '\U{A0}' || c == '\U{1680}'
    || ('\U{2000}' <= c <= '\U{200A}')
    || c == '\U{2028}' || c == '\U{2029}' || c == '\U{202F}' || c == '\U{205F}'
    || c == '\U{3000}'
  }

  /** Declarative reading of the pattern anchored at position 0: four digits,
      spaces up to a slash at `slash`, spaces up to four digits at `second`. */
  ghost predicate YearRangeAt(h: string, slash: nat, second: nat) {
    && 4 <= slash < second
    && second + 4 <= |h|
    && (forall k :: 0 <= k < 4 ==> IsDigit(h[k]))
    && (forall k :: 4 <= k < slash ==> IsSpace(h[k]))
    && h[slash] == '/'
    && (forall k :: slash < k < second ==> IsSpace(h[k]))
    && (forall k :: second <= k < second + 4 ==> IsDigit(h[k]))
  }

  /** The header matches the year-range pattern at its start; anything may
      follow the second group of digits. */
  ghost predicate IsYearHeader(h: string) {
    exists slash: nat, second: nat :: YearRangeAt(h, slash, second)
  }

  /** The end of the run of `\s` characters starting at `from`. */
  function SkipSpaces(h: string, from: nat): (end: nat)
    requires from <= |h|
    ensures from <= end <= |h|
    ensures forall k :: from <= k < end ==> IsSpace(h[k])
    ensures end < |h| ==> !IsSpace(h[end])
    decreases |h| - from
  {
    if from < |h| && IsSpace(h[from]) then SkipSpaces(h, from + 1) else from
  }

  /** A run of spaces from `from` that ends at a non-space `stop` is skipped exactly up to `stop`. */
  lemma {:induction false} SkipSpacesStopsAt(h: string, from: nat, stop: nat)
    requires from <= stop < |h|
    requires forall k :: from <= k < stop ==> IsSpace(h[k])
    requires !IsSpace(h[stop])
    ensures SkipSpaces(h, from) == stop
    decreases stop - from
  {
    if from < stop {
      SkipSpacesStopsAt(h, from + 1, stop);
    }
  }

  /** Left-to-right scan of the pattern; `\s*` is greedy, and since a space is
      never a slash or a digit no backtracking can change the outcome. An
      accepted header is at least nine characters long and starts with four
      digits; MatchesYearRangeIff gives the exact set it accepts. */
  function MatchesYearRange(h: string): (matched: bool)
    ensures matched ==> |h| >= 9 && IsDigit(h[0]) && IsDigit(h[1]) && IsDigit(h[2]) && IsDigit(h[3])
  {
    if |h| < 4 || !(IsDigit(h[0]) && IsDigit(h[1]) && IsDigit(h[2]) && IsDigit(h[3])) then false
    else
      var slash := SkipSpaces(h, 4);
      if slash == |h| || h[slash] != '/' then false
      else
        var second := SkipSpaces(h, slash + 1);
        var matched := second + 4 <= |h|
          && IsDigit(h[second]) && IsDigit(h[second + 1])
          && IsDigit(h[second + 2]) && IsDigit(h[second + 3]);
        matched
  }

  /** The scan accepts exactly the headers the pattern describes. */
  lemma MatchesYearRangeIff(h: string)
    ensures MatchesYearRange(h) <==> IsYearHeader(h)
  {
    if MatchesYearRange(h) {
      var slash := SkipSpaces(h, 4);
      var second := SkipSpaces(h, slash + 1);
      assert YearRangeAt(h, slash, second);
    }
    if IsYearHeader(h) {
      var slash: nat, second: nat :| YearRangeAt(h, slash, second);
      SkipSpacesStopsAt(h, 4, slash);
      SkipSpacesStopsAt(h, slash + 1, second);
    }
  }

  /** `adjust_years`: the headers naming a forecast year, in their original order. */
  function AdjustYears(headers: seq<string>): (years: seq<string>)
    ensures IsSubsequence(years, headers)
    ensures forall h :: h in years <==> h in headers && IsYearHeader(h)
    ensures forall h :: multiset(years)[h] == if IsYearHeader(h) then multiset(headers)[h] else 0
  {
    if |headers| == 0 then []
    else
      var rest := AdjustYears(headers[1..]);
      assert headers == [headers[0]] + headers[1..];
      SubsequenceCons(headers[0], rest, headers[1..]);
      MatchesYearRangeIff(headers[0]);
      if MatchesYearRange(headers[0]) then [headers[0]] + rest else rest
  }

  /** No matching header gives an empty list, not an error; and only then. */
  lemma AdjustYearsEmptyIff(headers: seq<string>)
    ensures AdjustYears(headers) == [] <==> forall h :: h in headers ==> !IsYearHeader(h)
  {
    var years := AdjustYears(headers);
    if years != [] {
      assert years[0] in years;
    }
  }

  /** Filtering distributes over joining two header lists. */
  lemma {:induction false} AdjustYearsAppend(a: seq<string>, b: seq<string>)
    ensures AdjustYears(a + b) == AdjustYears(a) + AdjustYears(b)
    decreases |a|
  {
    if |a| == 0 {
      assert a + b == b;
    } else {
      assert (a + b)[0] == a[0];
      assert (a + b)[1..] == a[1..] + b;
      AdjustYearsAppend(a[1..], b);
    }
  }

  /** Every header `adjust_years` returns is kept by it again. */
  lemma {:induction false} AdjustYearsKeepsAll(headers: seq<string>)
    requires forall h :: h in headers ==> IsYearHeader(h)
    ensures AdjustYears(headers) == headers
    decreases |headers|
  {
    if |headers| > 0 {
      assert headers[0] in headers;
      MatchesYearRangeIff(headers[0]);
      assert forall h :: h in headers[1..] ==> h in headers;
      AdjustYearsKeepsAll(headers[1..]);
    }
  }

  /** `adjust_years` is idempotent. */
  lemma AdjustYearsIdempotent(headers: seq<string>)
    ensures AdjustYears(AdjustYears(headers)) == AdjustYears(headers)
  {
    AdjustYearsKeepsAll(AdjustYears(headers));
  }

  /** A header whose first character is not a digit never names a forecast
      year: leading spaces, 'GSP', 'Name', 'x2019/2020' are all dropped. */
  lemma NonDigitStartIsNotYear(h: string)
    requires |h| == 0 || !IsDigit(h[0])
    ensures !MatchesYearRange(h)
    ensures !IsYearHeader(h)
  {
    MatchesYearRangeIff(h);
  }

  /** A compact year header is accepted. */
  lemma CompactYearExample()
    ensures MatchesYearRange("2019/2020")
  {
    var h := "2019/2020";
    assert !IsSpace(h[4]);
    assert SkipSpaces(h, 4) == 4;
    assert !IsSpace(h[5]);
    assert SkipSpaces(h, 5) == 5;
  }

  /** Spaces around the slash are accepted. */
  lemma SpacedYearExample()
    ensures MatchesYearRange("2019 / 2020")
  {
    var h := "2019 / 2020";
    assert IsSpace(h[4]) && !IsSpace(h[5]);
    assert SkipSpaces(h, 5) == 5;
    assert SkipSpaces(h, 4) == 5;
    assert IsSpace(h[6]) && !IsSpace(h[7]);
    assert SkipSpaces(h, 7) == 7;
    assert SkipSpaces(h, 6) == 7;
  }

  /** Text after the second year does not prevent a match. */
  lemma TrailingTextExample()
    ensures MatchesYearRange("2019/2020 MW")
  {
    var h := "2019/2020 MW";
    assert !IsSpace(h[4]);
    assert SkipSpaces(h, 4) == 4;
    assert !IsSpace(h[5]);
    assert SkipSpaces(h, 5) == 5;
  }

  /** A dash instead of a slash, or a two-digit second year, is rejected. */
  lemma RejectedYearExamples()
    ensures !MatchesYearRange("2019-2020")
    ensures !MatchesYearRange("2019/20")
  {
    var h := "2019-2020";
    assert !IsSpace(h[4]);
    assert SkipSpaces(h, 4) == 4;
    var g := "2019/20";
    assert !IsSpace(g[4]);
    assert SkipSpaces(g, 4) == 4;
    assert !IsSpace(g[5]);
    assert SkipSpaces(g, 5) == 5;
  }

  /** Filtering a single header. */
  lemma AdjustYearsSingleton(h: string)
    ensures AdjustYears([h]) == if MatchesYearRange(h) then [h] else []
  {
    assert [h][1..] == [];
  }

  /** Filtering four headers of which the second and fourth are year headers. */
  lemma AdjustYearsOfFour(a: string, b: string, c: string, d: string)
    requires !MatchesYearRange(a) && MatchesYearRange(b) && !MatchesYearRange(c) && MatchesYearRange(d)
    ensures AdjustYears([a, b, c, d]) == [b, d]
  {
    AdjustYearsSingleton(a);
    AdjustYearsSingleton(b);
    AdjustYearsSingleton(c);
    AdjustYearsSingleton(d);
    AdjustYearsAppend([a], [b]);
    assert [a, b] == [a] + [b];
    AdjustYearsAppend([c], [d]);
    assert [c, d] == [c] + [d];
    AdjustYearsAppend([a, b], [c, d]);
    assert [a, b, c, d] == [a, b] + [c, d];
  }

  /** A typical header row: fixed names and decorated years are dropped,
      a year with trailing text is kept. */
  lemma AdjustYearsExample()
    ensures AdjustYears([Name, "2019/2020", "x2019/2020", "2019/2020 MW"]) == ["2019/2020", "2019/2020 MW"]
  {
    NonDigitStartIsNotYear(Name);
    CompactYearExample();
    NonDigitStartIsNotYear("x2019/2020");
    TrailingTextExample();
    AdjustYearsOfFour(Name, "2019/2020", "x2019/2020", "2019/2020 MW");
  }

  /** None of the fixed header names is a forecast-year header. */
  lemma FixedHeadersAreNotYears()
    ensures forall h :: h in [Gsp, Nrn, Name, Voltage, PsseBus1, SubGsp, SubPrimary, Aggregate] ==> !IsYearHeader(h)
  {
    NonDigitStartIsNotYear(Gsp);
    NonDigitStartIsNotYear(Nrn);
    NonDigitStartIsNotYear(Name);
    NonDigitStartIsNotYear(Voltage);
    NonDigitStartIsNotYear(PsseBus1);
    NonDigitStartIsNotYear(SubGsp);
    NonDigitStartIsNotYear(SubPrimary);
    NonDigitStartIsNotYear(Aggregate);
  }
}
