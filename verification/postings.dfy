/**
 * A job posting as the fetchers of job_bot.py build it, the text each
 * fetcher classifies, and the append-if-admitted step of every fetcher
 * loop.
 */
module Postings {
  import opened Wrappers
  import opened Text
  import opened Normalize
  import opened Patterns
  import opened Classifier

  /** One posting: the dictionary each fetcher appends. */
  datatype Posting = Posting(
    source: string,
    title: string,
    company: string,
    location: string,
    link: string,
    snippet: string)

  /**
   * The fields a fetcher has pulled out of one result card, before cleaning;
   * a field whose element was missing is `None`. The link is taken as the
   * fetcher assembles it.
   */
  datatype Card = Card(
    title: Option<string>,
    company: Option<string>,
    location: Option<string>,
    link: string,
    snippet: Option<string>)

  /** `" ".join([title, company, location, snippet])`: the text both classifiers see. */
  function JoinedText(p: Posting): string {
    p.title + " " + p.company + " " + p.location + " " + p.snippet
  }

  /**
   * The admission test every fetcher applies before appending a posting: on the
   * lowered joined text, a fresher keyword without a stated 2-9 year seniority (or,
   * with no fresher keyword, a 0-1 year range), and all required skills with at
   * least one of the alternatives.
   */
  function Admit(p: Posting): (r: bool)
    ensures var t := Lower(JoinedText(p));
      r <==> && (if ContainsAny(t, FresherKeys) then !SeniorityPattern(t) else ZeroToOnePattern(t))
             && ContainsAll(t, RequiredSkills)
             && ContainsAny(t, AnyOfSkills)
  {
    LooksFresher(JoinedText(p)) && HasRequiredSkills(JoinedText(p))
  }

  /** The posting a fetcher builds from a card: every text field but the link is cleaned. */
  function FromCard(source: string, c: Card): Posting {
    Posting(source, Clean(c.title), Clean(c.company), Clean(c.location), c.link, Clean(c.snippet))
  }

  /** Every text field of a fetched posting is in the shape `clean` produces. */
  lemma FromCardCleans(source: string, c: Card)
    ensures var p := FromCard(source, c);
      && p.source == source && p.link == c.link
      && Normalized(p.title) && Normalized(p.company) && Normalized(p.location) && Normalized(p.snippet)
  {
  }

  /** The elements of `s` that satisfy `keep`, in their order in `s`. */
  function Filter<T>(keep: T -> bool, s: seq<T>): (r: seq<T>)
    ensures |r| <= |s|
    ensures forall i :: 0 <= i < |r| ==> keep(r[i])
    ensures forall x :: x in r ==> x in s
  {
    if |s| == 0 then []
    else (if keep(s[0]) then [s[0]] else []) + Filter(keep, s[1..])
  }

  /** Nothing `keep` accepts is dropped. */
  lemma {:induction false} FilterKeepsAll<T>(keep: T -> bool, s: seq<T>)
    ensures forall x :: x in s && keep(x) ==> x in Filter(keep, s)
  {
    if |s| > 0 {
      FilterKeepsAll(keep, s[1..]);
      assert forall x :: x in s ==> x == s[0] || x in s[1..];
    }
  }

  /** Filtering a concatenation filters each part: order and repetitions are kept. */
  lemma {:induction false} FilterAppend<T>(keep: T -> bool, a: seq<T>, b: seq<T>)
    ensures Filter(keep, a + b) == Filter(keep, a) + Filter(keep, b)
    decreases |a|
  {
    if |a| == 0 {
      assert a + b == b;
    } else {
      assert (a + b)[0] == a[0];
      assert (a + b)[1..] == a[1..] + b;
      FilterAppend(keep, a[1..], b);
    }
  }

  /** A single element is kept exactly when `keep` accepts it. */
  lemma {:induction false} FilterOne<T>(keep: T -> bool, x: T)
    ensures Filter(keep, [x]) == if keep(x) then [x] else []
  {
    assert [x][1..] == [];
  }

  /** The append-if-admitted loop of a fetcher: the admitted postings, in their original order. */
  function Admitted(ps: seq<Posting>): (r: seq<Posting>)
    ensures |r| <= |ps|
    ensures forall i :: 0 <= i < |r| ==> Admit(r[i])
    ensures forall p :: p in r ==> p in ps
  {
    Filter(Admit, ps)
  }

  /** Nothing admissible is dropped. */
  lemma AdmittedKeepsAll(ps: seq<Posting>)
    ensures forall p :: p in ps && Admit(p) ==> p in Admitted(ps)
  {
    FilterKeepsAll(Admit, ps);
  }

  /** Admitting a concatenation admits each part, in order. */
  lemma AdmittedAppend(a: seq<Posting>, b: seq<Posting>)
    ensures Admitted(a + b) == Admitted(a) + Admitted(b)
  {
    FilterAppend(Admit, a, b);
  }

  /** One loop step: the posting is appended exactly when it is admitted. */
  lemma AdmittedOne(p: Posting)
    ensures Admitted([p]) == if Admit(p) then [p] else []
  {
    FilterOne(Admit, p);
  }

  /** `f` applied to every element of `s`, in order. */
  function Map<A, B>(f: A -> B, s: seq<A>): (r: seq<B>)
    ensures |r| == |s|
    ensures forall i :: 0 <= i < |s| ==> r[i] == f(s[i])
  {
    if |s| == 0 then [] else [f(s[0])] + Map(f, s[1..])
  }

  /** Mapping a concatenation maps each part. */
  lemma {:induction false} MapAppend<A, B>(f: A -> B, a: seq<A>, b: seq<A>)
    ensures Map(f, a + b) == Map(f, a) + Map(f, b)
  {
    var l := Map(f, a + b);
    var r := Map(f, a) + Map(f, b);
    forall i | 0 <= i < |l|
      ensures l[i] == r[i]
    {
      if i < |a| {
        assert (a + b)[i] == a[i];
      } else {
        assert (a + b)[i] == b[i - |a|];
      }
    }
  }

  /** The postings a fetcher builds from its cards, in page order. */
  function Built(source: string, cards: seq<Card>): (ps: seq<Posting>)
    ensures |ps| == |cards|
    ensures forall i :: 0 <= i < |cards| ==> ps[i].source == source && ps[i].link == cards[i].link
  {
    Map(c => FromCard(source, c), cards)
  }

  /** One fetcher's result: its cards made into postings, keeping those that pass the admission test. */
  function Fetched(source: string, cards: seq<Card>): (r: seq<Posting>)
    ensures |r| <= |cards|
    ensures forall i :: 0 <= i < |r| ==> Admit(r[i])
  {
    Admitted(Built(source, cards))
  }

  /** Building postings from two runs of cards builds each run, in order. */
  lemma BuiltAppend(source: string, a: seq<Card>, b: seq<Card>)
    ensures Built(source, a + b) == Built(source, a) + Built(source, b)
  {
    MapAppend(c => FromCard(source, c), a, b);
  }

  /** The fetcher loop over cards: a longer run of cards appends what the extra cards yield. */
  lemma FetchedAppend(source: string, a: seq<Card>, b: seq<Card>)
    ensures Fetched(source, a + b) == Fetched(source, a) + Fetched(source, b)
  {
    BuiltAppend(source, a, b);
    AdmittedAppend(Built(source, a), Built(source, b));
  }

  /** A single card yields its posting exactly when the posting is admitted. */
  lemma FetchedOne(source: string, c: Card)
    ensures var p := FromCard(source, c);
      Fetched(source, [c]) == if Admit(p) then [p] else []
  {
    assert Built(source, [c]) == [FromCard(source, c)];
    AdmittedOne(FromCard(source, c));
  }

  /** Every fetched posting comes from one of the cards and carries the fetcher's source name. */
  lemma FetchedFromCards(source: string, cards: seq<Card>)
    ensures forall p :: p in Fetched(source, cards) ==> p.source == source
    ensures forall p :: p in Fetched(source, cards) ==> exists c :: c in cards && p == FromCard(source, c)
  {
    var ps := Built(source, cards);
    forall p | p in Fetched(source, cards)
      ensures p.source == source && exists c :: c in cards && p == FromCard(source, c)
    {
      assert p in ps;
      var i :| 0 <= i < |ps| && ps[i] == p;
      BuiltAt(source, cards, i);
    }
  }

  /** The `i`-th built posting is made from the `i`-th card. */
  lemma BuiltAt(source: string, cards: seq<Card>, i: nat)
    requires i < |cards|
    ensures var p := Built(source, cards)[i];
      p == FromCard(source, cards[i]) && p.source == source && cards[i] in cards
  {
  }
}
