/**
 * The two fixed regular expressions of `looks_fresher`, searched with
 * `re.search` in the lowered text:
 *
 *   seniority:   \b([2-9]\+?\s*years?|[2-9]\s*yrs)\b
 *   zero-to-one: \b0\s*-\s*1\s*(years?|yrs?)\b
 *
 * Each is stated twice: as the existence of a match (what the regular
 * expression means, with every backtracking choice open), and as a
 * left-to-right scan that skips each whitespace run greedily. The lemmas
 * prove the two agree on every text.
 */
module Patterns {
  import opened Text

  /** Index `q` holds a word character. */
  predicate WordCharAt(t: string, q: int) {
    0 <= q < |t| && IsWordChar(t[q])
  }

  /** `\b` at position `p`: exactly one of the characters on either side of `p` is a word character. */
  predicate Boundary(t: string, p: int) {
    0 <= p <= |t| && WordCharAt(t, p - 1) != WordCharAt(t, p)
  }

  /** `t[a..b]` is all whitespace: one way for `\s*` to match from `a`. */
  predicate SpaceRun(t: string, a: int, b: int) {
    0 <= a <= b <= |t| && forall j :: a <= j < b ==> IsSpace(t[j])
  }

  /** The end of the longest whitespace run starting at `k`. */
  function SkipSpaces(t: string, k: nat): (m: nat)
    requires k <= |t|
    ensures SpaceRun(t, k, m)
    ensures m == |t| || !IsSpace(t[m])
    decreases |t| - k
  {
    if k < |t| && IsSpace(t[k]) then SkipSpaces(t, k + 1) else k
  }

  /** A whitespace run followed by a non-whitespace character can only end where the greedy skip ends. */
  lemma SpaceRunStopsAtSkip(t: string, k: nat, m: int)
    requires k <= |t|
    requires SpaceRun(t, k, m) && m < |t| && !IsSpace(t[m])
    ensures m == SkipSpaces(t, k)
  {
  }

  // ---------------------------------------------------------------
  // Seniority: \b([2-9]\+?\s*years?|[2-9]\s*yrs)\b
  // ---------------------------------------------------------------

  predicate IsTwoToNine(c: char) {
    '2' <= c <= '9'
  }

  /** `years?\b` at `m`. */
  predicate YearsAt(t: string, m: int) {
    || (OccursAt(t, "years", m) && Boundary(t, m + 5))
    || (OccursAt(t, "year", m) && Boundary(t, m + 4))
  }

  /** `yrs\b` at `m`. */
  predicate YrsAt(t: string, m: int) {
    OccursAt(t, "yrs", m) && Boundary(t, m + 3)
  }

  /** `\s*years?\b` matches from `k`. */
  ghost predicate SpacesThenYears(t: string, k: int) {
    exists m :: SpaceRun(t, k, m) && YearsAt(t, m)
  }

  /** `\s*yrs\b` matches from `k`. */
  ghost predicate SpacesThenYrs(t: string, k: int) {
    exists m :: SpaceRun(t, k, m) && YrsAt(t, m)
  }

  /** The seniority pattern matches starting at index `i`, by either alternative. */
  ghost predicate SeniorityMatchAt(t: string, i: int) {
    && 0 <= i < |t|
    && IsTwoToNine(t[i])
    && Boundary(t, i)
    && (|| SpacesThenYears(t, i + 1)
        || (i + 1 < |t| && t[i + 1] == '+' && SpacesThenYears(t, i + 2))
        || SpacesThenYrs(t, i + 1))
  }

  /** `re.search` finds the seniority pattern somewhere in `t`. */
  ghost predicate SeniorityPattern(t: string) {
    exists i :: SeniorityMatchAt(t, i)
  }

  /** The scan at index `i`: take the `+` when it is there, then skip the whole whitespace run. */
  predicate SeniorityScanAt(t: string, i: nat)
    requires i < |t|
  {
    && IsTwoToNine(t[i])
    && !WordCharAt(t, i - 1)
    && (|| YearsAt(t, SkipSpaces(t, if i + 1 < |t| && t[i + 1] == '+' then i + 2 else i + 1))
        || YrsAt(t, SkipSpaces(t, i + 1)))
  }

  lemma YearsStartsWithY(t: string, m: int)
    requires YearsAt(t, m) || YrsAt(t, m)
    ensures m < |t| && t[m] == 'y'
  {
    if OccursAt(t, "years", m) {
      assert t[m] == t[m..m + 5][0];
    } else if OccursAt(t, "year", m) {
      assert t[m] == t[m..m + 4][0];
    } else {
      assert t[m] == t[m..m + 3][0];
    }
  }

  lemma SpacesThenYearsIff(t: string, k: nat)
    requires k <= |t|
    ensures SpacesThenYears(t, k) <==> YearsAt(t, SkipSpaces(t, k))
  {
    if SpacesThenYears(t, k) {
      var m :| SpaceRun(t, k, m) && YearsAt(t, m);
      YearsStartsWithY(t, m);
      SpaceRunStopsAtSkip(t, k, m);
    }
  }

  lemma SpacesThenYrsIff(t: string, k: nat)
    requires k <= |t|
    ensures SpacesThenYrs(t, k) <==> YrsAt(t, SkipSpaces(t, k))
  {
    if SpacesThenYrs(t, k) {
      var m :| SpaceRun(t, k, m) && YrsAt(t, m);
      YearsStartsWithY(t, m);
      SpaceRunStopsAtSkip(t, k, m);
    }
  }

  /**
   * Taking the optional `+` greedily loses no match: when `+` follows the
   * digit, `\s*years?` cannot start at the `+` itself.
   */
  lemma SeniorityScanAtIff(t: string, i: nat)
    requires i < |t|
    ensures SeniorityScanAt(t, i) <==> SeniorityMatchAt(t, i)
  {
    SpacesThenYrsIff(t, i + 1);
    if i + 1 < |t| && t[i + 1] == '+' {
      PlusBlocksYears(t, i + 1);
      SpacesThenYearsIff(t, i + 2);
    } else {
      SpacesThenYearsIff(t, i + 1);
    }
  }

  /** At a `+`, `\s*years?\b` cannot match: the run is empty and `+` is not a 'y'. */
  lemma PlusBlocksYears(t: string, k: nat)
    requires k < |t| && t[k] == '+'
    ensures !SpacesThenYears(t, k)
  {
    SpacesThenYearsIff(t, k);
    if YearsAt(t, k) {
      YearsStartsWithY(t, k);
    }
  }

  /** `re.search` for the seniority pattern, trying start indices `i`, `i + 1`, ... */
  function SearchSeniority(t: string, i: nat): (r: bool)
    requires i <= |t|
    ensures r <==> exists j :: i <= j && SeniorityMatchAt(t, j)
    decreases |t| - i
  {
    if i == |t| then false
    else
      SeniorityScanAtIff(t, i);
      SeniorityScanAt(t, i) || SearchSeniority(t, i + 1)
  }

  /** Whether the seniority pattern occurs in `t`. */
  function MatchesSeniority(t: string): (r: bool)
    ensures r <==> SeniorityPattern(t)
  {
    SearchSeniority(t, 0)
  }

  // ---------------------------------------------------------------
  // Zero-to-one: \b0\s*-\s*1\s*(years?|yrs?)\b
  // ---------------------------------------------------------------

  /** `(years?|yrs?)\b` at `m`: one of "years", "year", "yrs", "yr", then a boundary. */
  predicate UnitAt(t: string, m: int) {
    || YearsAt(t, m)
    || YrsAt(t, m)
    || (OccursAt(t, "yr", m) && Boundary(t, m + 2))
  }

  /** `\s*(years?|yrs?)\b` matches from `k`. */
  ghost predicate SpacesThenUnit(t: string, k: int) {
    exists m :: SpaceRun(t, k, m) && UnitAt(t, m)
  }

  /** `\s*1\s*(years?|yrs?)\b` matches from `k`. */
  ghost predicate SpacesThenOne(t: string, k: int) {
    exists m :: SpaceRun(t, k, m) && m < |t| && t[m] == '1' && SpacesThenUnit(t, m + 1)
  }

  /** `\s*-\s*1\s*(years?|yrs?)\b` matches from `k`. */
  ghost predicate SpacesThenDash(t: string, k: int) {
    exists m :: SpaceRun(t, k, m) && m < |t| && t[m] == '-' && SpacesThenOne(t, m + 1)
  }

  /** The zero-to-one pattern matches starting at index `i`. */
  ghost predicate ZeroToOneMatchAt(t: string, i: int) {
    0 <= i < |t| && t[i] == '0' && Boundary(t, i) && SpacesThenDash(t, i + 1)
  }

  /** `re.search` finds the zero-to-one pattern somewhere in `t`. */
  ghost predicate ZeroToOnePattern(t: string) {
    exists i :: ZeroToOneMatchAt(t, i)
  }

  /** The scan for `\s*(years?|yrs?)\b` from `k`. */
  predicate UnitScan(t: string, k: nat)
    requires k <= |t|
  {
    UnitAt(t, SkipSpaces(t, k))
  }

  /** The scan for `\s*1\s*(years?|yrs?)\b` from `k`. */
  predicate OneScan(t: string, k: nat)
    requires k <= |t|
  {
    var b := SkipSpaces(t, k);
    b < |t| && t[b] == '1' && UnitScan(t, b + 1)
  }

  /** The scan for `\s*-\s*1\s*(years?|yrs?)\b` from `k`. */
  predicate DashScan(t: string, k: nat)
    requires k <= |t|
  {
    var a := SkipSpaces(t, k);
    a < |t| && t[a] == '-' && OneScan(t, a + 1)
  }

  /** The scan at index `i`, skipping each whitespace run whole. */
  predicate ZeroToOneScanAt(t: string, i: nat)
    requires i < |t|
  {
    t[i] == '0' && !WordCharAt(t, i - 1) && DashScan(t, i + 1)
  }

  lemma SpacesThenUnitIff(t: string, k: nat)
    requires k <= |t|
    ensures SpacesThenUnit(t, k) <==> UnitScan(t, k)
  {
    if SpacesThenUnit(t, k) {
      var m :| SpaceRun(t, k, m) && UnitAt(t, m);
      if OccursAt(t, "yr", m) && Boundary(t, m + 2) {
        assert t[m] == t[m..m + 2][0];
      } else {
        YearsStartsWithY(t, m);
      }
      SpaceRunStopsAtSkip(t, k, m);
    }
  }

  lemma SpacesThenOneIff(t: string, k: nat)
    requires k <= |t|
    ensures SpacesThenOne(t, k) <==> OneScan(t, k)
  {
    if SpacesThenOne(t, k) {
      SpacesThenOneScans(t, k);
    }
    if OneScan(t, k) {
      var b := SkipSpaces(t, k);
      SpacesThenUnitIff(t, b + 1);
      assert SpaceRun(t, k, b) && b < |t| && t[b] == '1' && SpacesThenUnit(t, b + 1);
    }
  }

  lemma SpacesThenOneScans(t: string, k: nat)
    requires k <= |t|
    requires SpacesThenOne(t, k)
    ensures OneScan(t, k)
  {
    var m :| SpaceRun(t, k, m) && m < |t| && t[m] == '1' && SpacesThenUnit(t, m + 1);
    SpaceRunStopsAtSkip(t, k, m);
    SpacesThenUnitIff(t, m + 1);
  }

  lemma SpacesThenDashIff(t: string, k: nat)
    requires k <= |t|
    ensures SpacesThenDash(t, k) <==> DashScan(t, k)
  {
    if SpacesThenDash(t, k) {
      SpacesThenDashScans(t, k);
    }
    if DashScan(t, k) {
      var a := SkipSpaces(t, k);
      SpacesThenOneIff(t, a + 1);
      assert SpaceRun(t, k, a) && a < |t| && t[a] == '-' && SpacesThenOne(t, a + 1);
    }
  }

  lemma SpacesThenDashScans(t: string, k: nat)
    requires k <= |t|
    requires SpacesThenDash(t, k)
    ensures DashScan(t, k)
  {
    var m :| SpaceRun(t, k, m) && m < |t| && t[m] == '-' && SpacesThenOne(t, m + 1);
    SpaceRunStopsAtSkip(t, k, m);
    SpacesThenOneIff(t, m + 1);
    assert OneScan(t, m + 1);
  }

  lemma ZeroToOneScanAtIff(t: string, i: nat)
    requires i < |t|
    ensures ZeroToOneScanAt(t, i) <==> ZeroToOneMatchAt(t, i)
  {
    SpacesThenDashIff(t, i + 1);
  }

  /** `re.search` for the zero-to-one pattern, trying start indices `i`, `i + 1`, ... */
  function SearchZeroToOne(t: string, i: nat): (r: bool)
    requires i <= |t|
    ensures r <==> exists j :: i <= j && ZeroToOneMatchAt(t, j)
    decreases |t| - i
  {
    if i == |t| then false
    else
      ZeroToOneScanAtIff(t, i);
      ZeroToOneScanAt(t, i) || SearchZeroToOne(t, i + 1)
  }

  /** Whether the zero-to-one pattern occurs in `t`. */
  function MatchesZeroToOne(t: string): (r: bool)
    ensures r <==> ZeroToOnePattern(t)
  {
    SearchZeroToOne(t, 0)
  }
}
