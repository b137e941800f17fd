/** `parseDurationInput`: turns what the user typed into the key a duration is
    stored under — "lifetime", a day count written in decimal, or "" for input
    that must be rejected. The three unit searches are unanchored matches of
    the regular expression `(\d+)\s*(unit)s?`; the `s?` never changes whether
    or where a match is found, so it is left out of the unit words below. */
module DurationParser {
  import opened Wrappers
  import opened Text

  /** The first capture group of a match: `s[start..end]`. */
  datatype Span = Span(start: nat, end: nat)

  const Day := "day"
  const Month := "month"
  const Year := "year"

  /** A word that begins with neither a digit nor whitespace, so that the
      regex engine's backtracking can never move the end of the digit run or
      of the blank run in front of it. */
  predicate IsUnitWord(unit: string) {
    |unit| > 0 && !IsDigit(unit[0]) && !IsSpace(unit[0])
  }

  /** End of the longest run of digits starting at `i` (`\d+` is greedy). */
  function DigitRunEnd(s: string, i: nat): (j: nat)
    requires i <= |s|
    ensures i <= j <= |s| && AllDigits(s[i..j])
    ensures j == |s| || !IsDigit(s[j])
    decreases |s| - i
  {
    if i < |s| && IsDigit(s[i]) then DigitRunEnd(s, i + 1) else i
  }

  /** End of the longest run of whitespace starting at `j` (`\s*`). */
  function SpaceRunEnd(s: string, j: nat): (k: nat)
    requires j <= |s|
    ensures j <= k <= |s| && AllSpaces(s[j..k])
    ensures k == |s| || !IsSpace(s[k])
    decreases |s| - j
  {
    if j < |s| && IsSpace(s[j]) then SpaceRunEnd(s, j + 1) else j
  }

  predicate UnitAt(s: string, k: nat, unit: string) {
    k + |unit| <= |s| && s[k..k + |unit|] == unit
  }

  /** What the pattern `(\d+)\s*unit` accepts when the engine tries position
      `i`, with group 1 being `s[i..j]`: stated without any search order. */
  ghost predicate RegexMatch(s: string, i: nat, j: nat, unit: string) {
    i < j <= |s| && AllDigits(s[i..j]) &&
    exists k :: j <= k <= |s| && AllSpaces(s[j..k]) && UnitAt(s, k, unit)
  }

  /** No attempt before position `i` succeeds. */
  ghost predicate NoMatchBefore(s: string, i: nat, unit: string) {
    forall i': nat, j': nat :: i' < i ==> !RegexMatch(s, i', j', unit)
  }

  /** The pattern matches nowhere in `s`. */
  ghost predicate NoMatch(s: string, unit: string) {
    forall i': nat, j': nat :: !RegexMatch(s, i', j', unit)
  }

  /** One attempt of the engine at position `i`: the greedy digit run, the
      greedy blank run, then the unit word; the end of group 1 on success. */
  function AttemptAt(s: string, i: nat, unit: string): (r: Option<nat>)
    requires i <= |s|
    ensures r.Some? ==> i < r.value <= |s| && AllDigits(s[i..r.value])
    ensures r.Some? ==> r.value == |s| || !IsDigit(s[r.value])
  {
    var j := DigitRunEnd(s, i);
    if i < j && UnitAt(s, SpaceRunEnd(s, j), unit) then Some(j) else None
  }

  /** A maximal digit run is the one `DigitRunEnd` finds. */
  lemma {:induction false} DigitRunEndUnique(s: string, i: nat, j: nat)
    requires i <= j <= |s| && AllDigits(s[i..j]) && (j == |s| || !IsDigit(s[j]))
    ensures DigitRunEnd(s, i) == j
    decreases |s| - i
  {
    if i < j {
      assert s[i] == s[i..j][0];
      assert s[i + 1..j] == s[i..j][1..];
      DigitRunEndUnique(s, i + 1, j);
    }
  }

  /** A maximal blank run is the one `SpaceRunEnd` finds. */
  lemma {:induction false} SpaceRunEndUnique(s: string, j: nat, k: nat)
    requires j <= k <= |s| && AllSpaces(s[j..k]) && (k == |s| || !IsSpace(s[k]))
    ensures SpaceRunEnd(s, j) == k
    decreases |s| - j
  {
    if j < k {
      assert s[j] == s[j..k][0];
      assert s[j + 1..k] == s[j..k][1..];
      SpaceRunEndUnique(s, j + 1, k);
    }
  }

  /** Backtracking cannot help: the greedy attempt at `i` succeeds exactly
      when the pattern matches at `i`, and with the same group 1. */
  lemma AttemptAtIsRegexMatch(s: string, i: nat, j: nat, unit: string)
    requires IsUnitWord(unit) && i <= |s|
    ensures RegexMatch(s, i, j, unit) <==> AttemptAt(s, i, unit) == Some(j)
  {
    if AttemptAt(s, i, unit) == Some(j) {
      var k := SpaceRunEnd(s, j);
      assert j <= k <= |s| && AllSpaces(s[j..k]) && UnitAt(s, k, unit);
    }
    if RegexMatch(s, i, j, unit) {
      var k :| j <= k <= |s| && AllSpaces(s[j..k]) && UnitAt(s, k, unit);
      assert s[k] == s[k..k + |unit|][0] == unit[0];
      if j < k {
        assert s[j] == s[j..k][0];
      }
      DigitRunEndUnique(s, i, j);
      SpaceRunEndUnique(s, j, k);
    }
  }

  /** The leftmost successful attempt at or after position `i`. */
  function Search(s: string, unit: string, i: nat): (r: Option<Span>)
    requires i <= |s|
    ensures r.Some? ==> i <= r.value.start <= |s| && AttemptAt(s, r.value.start, unit) == Some(r.value.end)
    ensures forall i' :: i <= i' <= |s| && (r.None? || i' < r.value.start) ==> AttemptAt(s, i', unit).None?
    decreases |s| - i
  {
    match AttemptAt(s, i, unit)
    case Some(j) => Some(Span(i, j))
    case None => if i == |s| then None else Search(s, unit, i + 1)
  }

  /** `s.match(/(\d+)\s*unit/)`: the span of group 1 of the leftmost match. */
  function FirstMatch(s: string, unit: string): (r: Option<Span>)
    ensures r.Some? ==> r.value.start < r.value.end <= |s|
    ensures r.Some? ==> AllDigits(s[r.value.start..r.value.end])
  {
    Search(s, unit, 0)
  }

  /** `FirstMatch` finds the leftmost match of the pattern, and finds none
      exactly when the pattern matches nowhere. */
  lemma FirstMatchIsLeftmost(s: string, unit: string)
    requires IsUnitWord(unit)
    ensures var r := FirstMatch(s, unit);
      && (r.Some? ==> RegexMatch(s, r.value.start, r.value.end, unit))
      && (r.Some? ==> NoMatchBefore(s, r.value.start, unit))
      && (r.None? <==> NoMatch(s, unit))
  {
    var r := FirstMatch(s, unit);
    if r.Some? {
      AttemptAtIsRegexMatch(s, r.value.start, r.value.end, unit);
    }
    forall i': nat, j': nat | (r.None? || i' < r.value.start) ensures !RegexMatch(s, i', j', unit) {
      if i' <= |s| {
        AttemptAtIsRegexMatch(s, i', j', unit);
      }
    }
  }

  /** The leftmost match begins a maximal digit run: a match starting inside
      a run would also succeed one position earlier. */
  lemma LeftmostMatchStartsRun(s: string, i: nat, j: nat, unit: string)
    requires IsUnitWord(unit)
    requires RegexMatch(s, i, j, unit) && NoMatchBefore(s, i, unit)
    ensures i == 0 || !IsDigit(s[i - 1])
    ensures j == |s| || !IsDigit(s[j])
  {
    if i > 0 {
      var k :| j <= k <= |s| && AllSpaces(s[j..k]) && UnitAt(s, k, unit);
      assert !RegexMatch(s, i - 1, j, unit);
      assert s[i - 1..j] == [s[i - 1]] + s[i..j];
    }
    AttemptAtIsRegexMatch(s, i, j, unit);
  }

  /** The input as the parser sees it: `input.toLowerCase().trim()`. */
  function Normalize(input: string): string {
    Trim(Lower(input))
  }

  /** One of the three forms a parsed duration can take. */
  predicate IsParseResult(r: string) {
    r == "" || r == "lifetime" || (|r| > 0 && AllDigits(r))
  }

  /** `parseDurationInput`. The rules are tried in order: "lifetime", then
      days (the digits verbatim), months (times 30), years (times 365), then a
      bare number (verbatim), else "". */
  function Parse(input: string): (r: string)
    ensures IsParseResult(r)
    ensures r == "lifetime" <==> Normalize(input) == "lifetime"
  {
    ParseNormalized(Normalize(input))
  }

  /** The rule chain applied to the lower-cased, trimmed input `t`. */
  function ParseNormalized(t: string): (r: string)
    ensures IsParseResult(r)
    ensures r == "lifetime" <==> t == "lifetime"
  {
    if t == "lifetime" then "lifetime"
    else match FirstMatch(t, Day)
      case Some(m) => t[m.start..m.end]
      case None =>
        match FirstMatch(t, Month)
        case Some(m) => NatToString(DigitsValue(t[m.start..m.end]) * 30)
        case None =>
          match FirstMatch(t, Year)
          case Some(m) => NatToString(DigitsValue(t[m.start..m.end]) * 365)
          case None => if |t| > 0 && AllDigits(t) then t else ""
  }

  /** Rule 2: the first `<digits>\s*day` gives its digits verbatim, leading
      zeros included, and the month and year rules are never consulted. */
  lemma DayRule(input: string, i: nat, j: nat)
    requires Normalize(input) != "lifetime"
    requires RegexMatch(Normalize(input), i, j, Day)
    requires NoMatchBefore(Normalize(input), i, Day)
    ensures Parse(input) == Normalize(input)[i..j]
    ensures i == 0 || !IsDigit(Normalize(input)[i - 1])
  {
    var t := Normalize(input);
    var m := FirstMatch(t, Day);
    UniqueLeftmost(t, i, j, m, Day);
    LeftmostMatchStartsRun(t, i, j, Day);
  }

  /** Two leftmost matches of the same pattern are the same match. */
  lemma UniqueLeftmost(t: string, i: nat, j: nat, m: Option<Span>, unit: string)
    requires IsUnitWord(unit)
    requires m == FirstMatch(t, unit)
    requires RegexMatch(t, i, j, unit) && NoMatchBefore(t, i, unit)
    ensures m == Some(Span(i, j))
  {
    FirstMatchIsLeftmost(t, unit);
    assert m.Some?;
    assert !(m.value.start < i) && !(i < m.value.start);
    AttemptAtIsRegexMatch(t, i, j, unit);
    AttemptAtIsRegexMatch(t, i, m.value.end, unit);
  }

  /** Rule 3: with no day match anywhere, the first `<digits>\s*month` gives
      thirty times its value, written without leading zeros. */
  lemma MonthRule(input: string, i: nat, j: nat)
    requires Normalize(input) != "lifetime"
    requires NoMatch(Normalize(input), Day)
    requires RegexMatch(Normalize(input), i, j, Month)
    requires NoMatchBefore(Normalize(input), i, Month)
    ensures AllDigits(Normalize(input)[i..j])
    ensures Parse(input) == NatToString(DigitsValue(Normalize(input)[i..j]) * 30)
    ensures IsCanonicalDigits(Parse(input))
  {
    var t := Normalize(input);
    NoMatchFirst(t, Day);
    UniqueLeftmost(t, i, j, FirstMatch(t, Month), Month);
  }

  /** Rule 4: with no day or month match, the first `<digits>\s*year` gives
      365 times its value, written without leading zeros. */
  lemma YearRule(input: string, i: nat, j: nat)
    requires Normalize(input) != "lifetime"
    requires NoMatch(Normalize(input), Day) && NoMatch(Normalize(input), Month)
    requires RegexMatch(Normalize(input), i, j, Year)
    requires NoMatchBefore(Normalize(input), i, Year)
    ensures AllDigits(Normalize(input)[i..j])
    ensures Parse(input) == NatToString(DigitsValue(Normalize(input)[i..j]) * 365)
    ensures IsCanonicalDigits(Parse(input))
  {
    var t := Normalize(input);
    NoMatchFirst(t, Day);
    NoMatchFirst(t, Month);
    UniqueLeftmost(t, i, j, FirstMatch(t, Year), Year);
  }

  /** Rules 5 and 6: with no unit match at all, an all-digit input is kept
      verbatim and anything else is rejected with "". */
  lemma BareNumberRule(input: string)
    requires Normalize(input) != "lifetime"
    requires NoMatch(Normalize(input), Day) && NoMatch(Normalize(input), Month)
    requires NoMatch(Normalize(input), Year)
    ensures var t := Normalize(input);
      Parse(input) == if |t| > 0 && AllDigits(t) then t else ""
  {
    var t := Normalize(input);
    NoMatchFirst(t, Day);
    NoMatchFirst(t, Month);
    NoMatchFirst(t, Year);
  }

  lemma NoMatchFirst(t: string, unit: string)
    requires IsUnitWord(unit) && NoMatch(t, unit)
    ensures FirstMatch(t, unit) == None
  {
    FirstMatchIsLeftmost(t, unit);
  }

  /** The empty input is rejected: an empty raw duration and an empty
      parsed value belong together. */
  lemma ParseEmpty()
    ensures Parse("") == ""
  {
    assert Lower("") == "";
    assert Normalize("") == "";
  }

  /** `parseDurationInput` trims its input itself, so trimming first (as
      `addDuration` in script.js does) changes nothing. */
  lemma ParseIgnoresTrim(input: string)
    ensures Parse(Trim(input)) == Parse(input)
  {
    LowerTrim(input);
    TrimIdempotent(Lower(input));
    assert Normalize(Trim(input)) == Normalize(input);
  }
}
