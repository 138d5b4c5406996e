/**
 * The ranking step of `collect_all`: `unique.sort(key=...)` with the key
 * (-prefer_hyd_offline(...), city index or 99, source).
 */
module Ranking {
  import opened Text
  import opened Classifier
  import opened Postings
  import opened SortKeys
  import opened StableSort

  /** Cities in order of preference (`CITIES_PRIORITY`). */
  const CitiesPriority: seq<string> := ["hyderabad", "chennai", "bangalore", "bengaluru", "india"]

  /** The city index of a location that is empty or not in the list. */
  const Unlisted: int := 99

  /** `xs.index(x)` when `x` is in `xs`; `|xs|` otherwise. */
  function IndexOf(xs: seq<string>, x: string): (r: nat)
    ensures r <= |xs|
    ensures r < |xs| ==> xs[r] == x
    ensures forall j :: 0 <= j < r ==> xs[j] != x
  {
    if |xs| == 0 then 0
    else if xs[0] == x then 0
    else 1 + IndexOf(xs[1..], x)
  }

  /** The second ranking key: the first position of the lowered location in the city list, or 99. */
  function CityIndex(location: string): (r: int)
    ensures r == Unlisted <==> Lower(location) !in CitiesPriority
    ensures r != Unlisted ==> 0 <= r < |CitiesPriority| && CitiesPriority[r] == Lower(location)
  {
    if |location| > 0 && Lower(location) in CitiesPriority then IndexOf(CitiesPriority, Lower(location))
    else Unlisted
  }

  /**
   * The sort key `collect_all` gives a posting: minus the preference score (one
   * point for "hyderabad", one for an on-site keyword), the position of the
   * lowered location in the city list or 99, and the source name.
   */
  function KeyOf(p: Posting): (k: RankKey)
    ensures var t := PreferenceText(p.title, p.company, p.location, p.snippet);
      k.negScore == -((if Contains(t, "hyderabad") then 1 else 0) + (if ContainsAny(t, OnsiteKeys) then 1 else 0))
    ensures k.city == Unlisted <==> Lower(p.location) !in CitiesPriority
    ensures k.city != Unlisted ==> 0 <= k.city < |CitiesPriority| && CitiesPriority[k.city] == Lower(p.location)
    ensures k.source == p.source
  {
    RankKey(-(PreferHydOffline(p.title, p.company, p.location, p.snippet) as int), CityIndex(p.location), p.source)
  }

  /** `unique.sort(key=...)`: Python's sort is stable, so it is the stable sort by `KeyOf`. */
  function Rank(s: seq<Posting>): (r: seq<Posting>)
    ensures multiset(r) == multiset(s)
    ensures Sorted(KeyOf, r)
  {
    SortBy(KeyOf, s)
  }

  /** Postings with equal keys keep their order. */
  lemma RankStable(s: seq<Posting>, k: RankKey)
    ensures WithKey(KeyOf, Rank(s), k) == WithKey(KeyOf, s, k)
  {
    SortByStable(KeyOf, s, k);
  }

  /** Whatever stable sort runs, the result is `Rank(s)`. */
  lemma RankIsPythonsSort(s: seq<Posting>, a: seq<Posting>)
    requires Sorted(KeyOf, a)
    requires forall k :: WithKey(KeyOf, a, k) == WithKey(KeyOf, s, k)
    ensures a == Rank(s)
  {
    SortByIsTheStableSort(KeyOf, s, a);
  }

  /** The city key of a location is a real index exactly when the lowered location is one of the cities. */
  lemma CityIndexRange(location: string)
    ensures 0 <= CityIndex(location) < |CitiesPriority| || CityIndex(location) == Unlisted
    ensures |location| == 0 ==> CityIndex(location) == Unlisted
  {
    if |location| == 0 {
      assert Lower(location) == "";
    }
  }

  /**
   * A posting located in Hyderabad whose snippet asks for office work ranks
   * strictly ahead of any posting located elsewhere.
   */
  lemma HyderabadOnsiteFirst(p: Posting, q: Posting)
    requires Lower(p.location) == "hyderabad"
    requires ContainsAny(Lower(p.snippet), OnsiteKeys)
    requires Lower(q.location) != "hyderabad"
    ensures KeyLt(KeyOf(p), KeyOf(q))
  {
    var head := p.title + " " + p.company + " ";
    var tail := " " + p.snippet;
    assert p.title + " " + p.company + " " + p.location + " " + p.snippet == head + p.location + tail;
    LowerAppend(head + p.location, tail);
    LowerAppend(head, p.location);
    var t := PreferenceText(p.title, p.company, p.location, p.snippet);
    assert t == Lower(head) + Lower(p.location) + Lower(tail);
    assert OccursAt("hyderabad", "hyderabad", 0);
    ContainsWithin(Lower(p.location), "hyderabad", Lower(head), Lower(tail));
    LowerAppend(head + p.location + " ", p.snippet);
    assert head + p.location + tail == (head + p.location + " ") + p.snippet;
    assert t == Lower(head + p.location + " ") + Lower(p.snippet) + "";
    ContainsAnyWithin(Lower(p.snippet), OnsiteKeys, Lower(head + p.location + " "), "");
    assert KeyOf(p).negScore == -2;
    assert KeyOf(p).city == 0;
    assert KeyOf(q).city != 0;
  }
}
