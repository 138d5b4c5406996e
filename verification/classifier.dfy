/**
 * The text classifiers of job_bot.py: `looks_fresher`,
 * `has_required_skills` and `prefer_hyd_offline`. Each lowers its text
 * first and then searches it.
 */
module Classifier {
  import opened Text
  import opened Patterns

  /** Phrases that mark an entry-level posting (`FRESHER_KEYS`); the fourth holds an en dash. */
  const FresherKeys: seq<string> :=
    ["fresher", "0 year", "0-1 year", "0 \U{2013} 1 year", "entry level", "entry-level", "graduate", "campus"]

  /** Skills every admitted posting must mention. */
  const RequiredSkills: seq<string> := ["python", "sql"]

  /** Skills of which an admitted posting must mention at least one. */
  const AnyOfSkills: seq<string> := ["machine learning", "pandas", "numpy", "visual studio"]

  /** Phrases taken to mean the job is worked on site. */
  const OnsiteKeys: seq<string> := ["onsite", "on-site", "work from office", "wfo", "office"]

  /**
   * `looks_fresher(text)`. With an entry-level phrase present the seniority
   * pattern vetoes; without one, only the zero-to-one pattern can admit,
   * and the seniority pattern is never consulted.
   */
  function LooksFresher(text: string): (r: bool)
    ensures ContainsAny(Lower(text), FresherKeys) ==> (r <==> !SeniorityPattern(Lower(text)))
    ensures !ContainsAny(Lower(text), FresherKeys) ==> (r <==> ZeroToOnePattern(Lower(text)))
  {
    var t := Lower(text);
    if AnyIn(FresherKeys, t) then !MatchesSeniority(t) else MatchesZeroToOne(t)
  }

  /** `has_required_skills(text)`. */
  function HasRequiredSkills(text: string): (r: bool)
    ensures r <==> ContainsAll(Lower(text), RequiredSkills) && ContainsAny(Lower(text), AnyOfSkills)
  {
    var t := Lower(text);
    AllIn(RequiredSkills, t) && AnyIn(AnyOfSkills, t)
  }

  /** The text `prefer_hyd_offline` searches: the four fields space-joined, then lowered. */
  function PreferenceText(title: string, company: string, location: string, summary: string): string {
    Lower(title + " " + company + " " + location + " " + summary)
  }

  /**
   * `prefer_hyd_offline(title, company, location, summary)`: one point when
   * "hyderabad" appears anywhere in the joined text (not only in the
   * location), one more when an on-site phrase does.
   */
  function PreferHydOffline(title: string, company: string, location: string, summary: string): (r: nat)
    ensures r <= 2
    ensures var t := PreferenceText(title, company, location, summary);
      r == (if Contains(t, "hyderabad") then 1 else 0) + (if ContainsAny(t, OnsiteKeys) then 1 else 0)
  {
    var t := PreferenceText(title, company, location, summary);
    (if In("hyderabad", t) then 1 else 0) + (if AnyIn(OnsiteKeys, t) then 1 else 0)
  }

  /** The two required skills spelled out: "python" and "sql" must both occur. */
  lemma RequiredSkillsSpelledOut(text: string)
    ensures HasRequiredSkills(text) <==>
      Contains(Lower(text), "python") && Contains(Lower(text), "sql") && ContainsAny(Lower(text), AnyOfSkills)
  {
    var t := Lower(text);
    assert "python" in RequiredSkills && "sql" in RequiredSkills;
    assert forall k :: k in RequiredSkills ==> k == "python" || k == "sql";
  }

  /** Empty text has no skills. */
  lemma NoSkillsInEmpty()
    ensures !HasRequiredSkills("")
  {
    assert Lower("") == "";
    assert "python" in RequiredSkills;
    NothingInEmpty("python");
  }

  /** Adding text on either side never loses a skill: the skill match is monotone. */
  lemma SkillsSurviveMoreText(u: string, text: string, v: string)
    requires HasRequiredSkills(text)
    ensures HasRequiredSkills(u + text + v)
  {
    var t := Lower(text);
    LowerAppend(u + text, v);
    LowerAppend(u, text);
    assert Lower(u + text + v) == Lower(u) + t + Lower(v);
    forall k | k in RequiredSkills
      ensures Contains(Lower(u + text + v), k)
    {
      ContainsWithin(t, k, Lower(u), Lower(v));
    }
    ContainsAnyWithin(t, AnyOfSkills, Lower(u), Lower(v));
  }

  /**
   * Appending text that supplies the required skills missing from `text`
   * completes the match, provided `text` already has an any-of skill.
   */
  lemma MissingSkillSupplied(text: string, extra: string)
    requires ContainsAny(Lower(text), AnyOfSkills)
    requires forall k :: k in RequiredSkills ==> Contains(Lower(text), k) || Contains(Lower(extra), k)
    ensures HasRequiredSkills(text + extra)
  {
    LowerAppend(text, extra);
    assert Lower(text + extra) == Lower(text) + Lower(extra) + "";
    assert Lower(text + extra) == "" + Lower(text) + Lower(extra);
    forall k | k in RequiredSkills
      ensures Contains(Lower(text + extra), k)
    {
      if Contains(Lower(text), k) {
        ContainsWithin(Lower(text), k, "", Lower(extra));
      } else {
        ContainsWithin(Lower(extra), k, Lower(text), "");
      }
    }
    ContainsAnyWithin(Lower(text), AnyOfSkills, "", Lower(extra));
  }

  /** Empty text is never a fresher posting: no phrase, and nothing for the zero-to-one pattern to match. */
  lemma EmptyIsNotFresher()
    ensures !LooksFresher("")
  {
    assert Lower("") == "";
    assert !ZeroToOnePattern("");
    forall k | k in FresherKeys
      ensures !Contains("", k)
    {
      NothingInEmpty(k);
    }
  }

  /** The phrase " 3 years experience" matches the seniority pattern wherever it is appended. */
  lemma ThreeYearsIsSenior(s: string)
    ensures SeniorityPattern(s + " 3 years experience")
  {
    var t := s + " 3 years experience";
    var n := |s|;
    assert t[n..] == " 3 years experience";
    assert t[n + 1] == '3' && t[n] == ' ';
    assert t[n + 3..n + 8] == "years";
    assert OccursAt(t, "years", n + 3);
    assert t[n + 8] == ' ' && t[n + 7] == 's';
    assert SpaceRun(t, n + 2, n + 3);
    assert SpacesThenYears(t, n + 2);
    assert SeniorityMatchAt(t, n + 1);
  }

  /**
   * An explicit "3 years" after an entry-level posting flips it to rejected:
   * the seniority pattern vetoes the keyword match.
   */
  lemma StatedSeniorityVetoes(text: string)
    requires ContainsAny(Lower(text), FresherKeys)
    ensures !LooksFresher(text + " 3 years experience")
  {
    var tail := " 3 years experience";
    LowerAppend(text, tail);
    LowerWithoutUpper(tail);
    assert Lower(text + tail) == "" + Lower(text) + tail;
    ContainsAnyWithin(Lower(text), FresherKeys, "", tail);
    ThreeYearsIsSenior(Lower(text));
  }

  /** The seniority pattern cannot start inside a stretch of `t` that holds no digit from 2 to 9. */
  lemma NoDigitNoSeniority(t: string, lo: nat, hi: nat)
    requires lo <= hi <= |t|
    requires forall c :: c in t[lo..hi] ==> !('2' <= c <= '9')
    ensures forall i :: lo <= i < hi ==> !SeniorityMatchAt(t, i)
  {
    forall i | lo <= i < hi
      ensures !SeniorityMatchAt(t, i)
    {
      assert t[i] == t[lo..hi][i - lo] && t[lo..hi][i - lo] in t[lo..hi];
    }
  }

  /** A digit directly after the candidate digit leaves no room for `\+?\s*years?` or `\s*yrs`. */
  lemma DigitAfterNotSenior(t: string, i: nat)
    requires i + 1 < |t| && '0' <= t[i + 1] <= '9'
    ensures !SeniorityMatchAt(t, i)
  {
    SeniorityScanAtIff(t, i);
    assert SkipSpaces(t, i + 1) == i + 1;
    if YearsAt(t, i + 1) || YrsAt(t, i + 1) {
      YearsStartsWithY(t, i + 1);
    }
  }

  /** A `+` after the candidate digit must be followed by "year" or "years": "yrs" is not taken there. */
  lemma PlusWithoutYearsNotSenior(t: string, i: nat)
    requires i + 1 < |t| && t[i + 1] == '+'
    requires !YearsAt(t, SkipSpaces(t, i + 2))
    ensures !SeniorityMatchAt(t, i)
  {
    SeniorityScanAtIff(t, i);
    assert SkipSpaces(t, i + 1) == i + 1;
    if YrsAt(t, i + 1) {
      YearsStartsWithY(t, i + 1);
    }
  }

  /** The seniority pattern does not match "20 years": a digit follows the '2'. */
  lemma TwentyYearsNotSenior()
    ensures !SeniorityPattern("20 years")
  {
    var t := "20 years";
    assert t[1..] == "0 years";
    NoDigitNoSeniority(t, 1, |t|);
    DigitAfterNotSenior(t, 0);
  }

  /**
   * "20 years" reads as entry level: it contains the key "0 year", and the
   * seniority pattern cannot start at the '2' because a digit follows it.
   */
  lemma TwentyYearsLooksFresher()
    ensures LooksFresher("20 years")
  {
    var t := "20 years";
    LowerWithoutUpper(t);
    assert OccursAt(t, "0 year", 1);
    assert "0 year" in FresherKeys;
    TwentyYearsNotSenior();
  }

  /** The seniority pattern does not match "fresher 2+ yrs": `+` may only precede "years". */
  lemma TwoPlusYrsNotSenior()
    ensures !SeniorityPattern("fresher 2+ yrs")
  {
    var t := "fresher 2+ yrs";
    assert t[..8] == "fresher " && t[9..] == "+ yrs";
    NoDigitNoSeniority(t, 0, 8);
    NoDigitNoSeniority(t, 9, |t|);
    assert SkipSpaces(t, 10) == 11;
    PlusWithoutYearsNotSenior(t, 8);
  }

  /**
   * The veto accepts '+' only before "years": "2+ yrs" does not match it, so
   * a keyword posting asking for "2+ yrs" is kept.
   */
  lemma TwoPlusYrsNotVetoed()
    ensures LooksFresher("fresher 2+ yrs")
  {
    var t := "fresher 2+ yrs";
    LowerWithoutUpper(t);
    assert OccursAt(t, "fresher", 0);
    assert "fresher" in FresherKeys;
    TwoPlusYrsNotSenior();
  }

  /** No entry-level key occurs in "5 years, 0-1 yrs". */
  lemma NoKeyInRangeExample(k: string)
    requires k in FresherKeys
    ensures !Contains("5 years, 0-1 yrs", k)
  {
    var t := "5 years, 0-1 yrs";
    if k == "0 year" || k == "0-1 year" {
      // Only index 9 holds a '0', and neither key fits there.
      forall i
        ensures !OccursAt(t, k, i)
      {
        if i == 9 && i + |k| <= |t| {
          assert t[i..i + |k|][1] == '-' != k[1];
        } else if 0 <= i && i + |k| <= |t| {
          assert t[i..i + |k|][0] == t[i] != '0';
        }
      }
    } else {
      var c := if k == "fresher" then 'f' else if k == "graduate" then 'g'
               else if k == "campus" then 'c' else if k == "0 \U{2013} 1 year" then '\U{2013}'
               else 'n';
      AbsentCharBlocks(t, k, c);
    }
  }

  /** The zero-to-one pattern finds "0-1 yrs" in "5 years, 0-1 yrs", starting at the '0'. */
  lemma RangeExampleMatches()
    ensures ZeroToOnePattern("5 years, 0-1 yrs")
  {
    var t := "5 years, 0-1 yrs";
    assert t[13..16] == "yrs";
    assert YrsAt(t, 13);
    assert SpaceRun(t, 12, 13);
    assert SpacesThenUnit(t, 12);
    assert SpaceRun(t, 11, 11) && t[11] == '1';
    assert SpacesThenOne(t, 11);
    assert SpaceRun(t, 10, 10) && t[10] == '-';
    assert SpacesThenDash(t, 10);
    assert ZeroToOneMatchAt(t, 9);
  }

  /**
   * Without a keyword the fallback looks only for "0-1 yrs" style ranges and
   * ignores a stated seniority elsewhere in the text.
   */
  lemma FallbackIgnoresSeniority()
    ensures LooksFresher("5 years, 0-1 yrs")
  {
    var t := "5 years, 0-1 yrs";
    LowerWithoutUpper(t);
    forall k | k in FresherKeys
      ensures !Contains(t, k)
    {
      NoKeyInRangeExample(k);
    }
    RangeExampleMatches();
  }
}
