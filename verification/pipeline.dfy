/**
 * `collect_all` after the fetchers have returned: the three result lists
 * are concatenated in the fixed order Indeed, Naukri, Foundit, then
 * deduplicated, ranked and cut to the first 60.
 */
module Pipeline {
  import opened Postings
  import opened Dedup
  import opened SortKeys
  import opened StableSort
  import opened Ranking

  /** The most postings a digest lists (`unique[:60]`). */
  const DigestLimit: nat := 60

  /** `s[:60]`: the first postings of `s`, at most 60 of them. */
  function Cap(s: seq<Posting>): (r: seq<Posting>)
    ensures |r| == if |s| < DigestLimit then |s| else DigestLimit
    ensures r == s[..|r|]
  {
    if |s| <= DigestLimit then s else s[..DigestLimit]
  }

  /** The source names the three fetchers stamp on their postings. */
  const Sources: set<string> := {"Indeed", "Naukri", "Foundit"}

  /**
   * `collect_all` given what each fetcher returned: at most 60 postings, no more
   * than were fetched, in ranking order.
   */
  function CollectAll(indeed: seq<Posting>, naukri: seq<Posting>, foundit: seq<Posting>): (r: seq<Posting>)
    ensures |r| <= DigestLimit
    ensures |r| <= |indeed| + |naukri| + |foundit|
    ensures Sorted(KeyOf, r)
  {
    Cap(Rank(Unique(indeed + naukri + foundit)))
  }

  /**
   * A whole run, from the result cards each site's page held, to the digest's
   * postings: at most 60, each admitted and stamped with one of the three sources.
   */
  function Run(indeedCards: seq<Card>, naukriCards: seq<Card>, founditCards: seq<Card>): (r: seq<Posting>)
    ensures |r| <= DigestLimit
    ensures forall p :: p in r ==> Admit(p) && p.source in Sources
  {
    RunAdmitsOnly(indeedCards, naukriCards, founditCards);
    CollectAll(Fetched("Indeed", indeedCards), Fetched("Naukri", naukriCards), Fetched("Foundit", founditCards))
  }

  /** The result is the first min(60, |unique|) postings of the ranked, deduplicated list. */
  lemma CollectAllShape(indeed: seq<Posting>, naukri: seq<Posting>, foundit: seq<Posting>)
    ensures var unique := Unique(indeed + naukri + foundit);
      var r := CollectAll(indeed, naukri, foundit);
      && |r| == (if |unique| < DigestLimit then |unique| else DigestLimit)
      && r == Rank(unique)[..|r|]
  {
  }

  /** The result is sorted by the ranking key and free of duplicate identities. */
  lemma CollectAllSortedAndDistinct(indeed: seq<Posting>, naukri: seq<Posting>, foundit: seq<Posting>)
    ensures Sorted(KeyOf, CollectAll(indeed, naukri, foundit))
    ensures var r := CollectAll(indeed, naukri, foundit);
      forall a, b :: 0 <= a < b < |r| ==> IdOf(r[a]) != IdOf(r[b])
  {
    var unique := Unique(indeed + naukri + foundit);
    var ranked := Rank(unique);
    var r := CollectAll(indeed, naukri, foundit);
    forall a, b | 0 <= a < b < |r|
      ensures IdOf(r[a]) != IdOf(r[b])
    {
      DistinctUnderPermutation(IdOf, unique, ranked);
      assert r[a] == ranked[a] && r[b] == ranked[b];
    }
  }

  /** An element that occurs twice in `s` sits at two different indices. */
  lemma {:induction false} TwoCopies<T>(s: seq<T>, x: T)
    requires multiset(s)[x] >= 2
    ensures exists i, j :: 0 <= i < j < |s| && s[i] == x && s[j] == x
  {
    assert s == [s[0]] + s[1..];
    if s[0] == x {
      assert x in multiset(s[1..]);
      var j :| 0 <= j < |s[1..]| && s[1..][j] == x;
      assert s[j + 1] == x;
    } else {
      TwoCopies(s[1..], x);
      var i, j :| 0 <= i < j < |s[1..]| && s[1..][i] == x && s[1..][j] == x;
      assert s[i + 1] == x && s[j + 1] == x;
    }
  }

  /** Rearranging a list whose elements have distinct `f`-values keeps them distinct. */
  lemma DistinctUnderPermutation<T, K>(f: T -> K, s: seq<T>, t: seq<T>)
    requires multiset(s) == multiset(t)
    requires forall i, j :: 0 <= i < j < |s| ==> f(s[i]) != f(s[j])
    ensures forall a, b :: 0 <= a < b < |t| ==> f(t[a]) != f(t[b])
  {
    forall a, b | 0 <= a < b < |t|
      ensures f(t[a]) != f(t[b])
    {
      var x, y := t[a], t[b];
      if x == y {
        assert t == t[..b] + [y] + t[b + 1..];
        assert x in t[..b];
        assert multiset(t)[x] >= 2;
        TwoCopies(s, x);
      } else {
        assert x in multiset(s) && y in multiset(s);
        var i :| 0 <= i < |s| && s[i] == x;
        var j :| 0 <= j < |s| && s[j] == y;
        assert i != j;
      }
    }
  }

  /** The 60 kept postings rank no lower than any posting cut off after them. */
  lemma CollectAllIsTheTop(indeed: seq<Posting>, naukri: seq<Posting>, foundit: seq<Posting>)
    ensures var ranked := Rank(Unique(indeed + naukri + foundit));
      var r := CollectAll(indeed, naukri, foundit);
      forall a, b :: 0 <= a < |r| <= b < |ranked| ==> KeyLe(KeyOf(ranked[a]), KeyOf(ranked[b]))
  {
  }

  /** Every posting in the result was in some fetcher's list. */
  lemma CollectAllFromInput(indeed: seq<Posting>, naukri: seq<Posting>, foundit: seq<Posting>)
    ensures forall p :: p in CollectAll(indeed, naukri, foundit) ==> p in indeed + naukri + foundit
  {
    var all := indeed + naukri + foundit;
    var unique := Unique(all);
    DedupKeepsFirst(all);
    forall p | p in CollectAll(indeed, naukri, foundit)
      ensures p in all
    {
      assert p in Rank(unique);
      assert p in multiset(Rank(unique));
      var m :| 0 <= m < |unique| && unique[m] == p;
      assert FirstBelow(all, |all|, unique[m]);
    }
  }

  /**
   * Every returned posting passed the admission test, since the fetchers
   * append only postings that pass it, and carries one of the three sources.
   */
  lemma RunAdmitsOnly(indeedCards: seq<Card>, naukriCards: seq<Card>, founditCards: seq<Card>)
    ensures var i, n, f := Fetched("Indeed", indeedCards), Fetched("Naukri", naukriCards), Fetched("Foundit", founditCards);
      forall p :: p in CollectAll(i, n, f) ==> Admit(p) && p.source in Sources
  {
    var i, n, f := Fetched("Indeed", indeedCards), Fetched("Naukri", naukriCards), Fetched("Foundit", founditCards);
    CollectAllFromInput(i, n, f);
    FetchedFromCards("Indeed", indeedCards);
    FetchedFromCards("Naukri", naukriCards);
    FetchedFromCards("Foundit", founditCards);
    forall p | p in i + n + f
      ensures Admit(p) && p.source in Sources
    {
      assert p in i || p in n || p in f;
    }
  }

  /** With every source empty (or failed) the digest is empty. */
  lemma NothingFetchedNothingListed()
    ensures CollectAll([], [], []) == []
  {
    var none: seq<Posting> := [];
    assert none + none + none == none;
  }

  /** With at least 60 distinct identities fetched the digest is full. */
  lemma FullDigest(indeed: seq<Posting>, naukri: seq<Posting>, foundit: seq<Posting>)
    requires |set p | p in indeed + naukri + foundit :: IdOf(p)| >= DigestLimit
    ensures |CollectAll(indeed, naukri, foundit)| == DigestLimit
  {
    var all := indeed + naukri + foundit;
    var unique := Unique(all);
    DedupKeepsEveryIdentity(all);
    IdentityCountBound(unique);
  }

  /** A list has at least as many postings as identities. */
  lemma {:induction false} IdentityCountBound(s: seq<Posting>)
    ensures |set p | p in s :: IdOf(p)| <= |s|
  {
    if |s| > 0 {
      IdentityCountBound(s[1..]);
      assert (set p | p in s :: IdOf(p)) == (set p | p in s[1..] :: IdOf(p)) + {IdOf(s[0])} by {
        assert forall p :: p in s <==> p == s[0] || p in s[1..];
      }
    }
  }
}
