/**
 * The deduplication step of `collect_all`: a posting is dropped when an
 * earlier one has the same (lowered title, lowered company, link).
 */
module Dedup {
  import opened Text
  import opened Postings

  /** The identity `collect_all` deduplicates on. */
  type Identity = (string, string, string)

  function IdOf(p: Posting): Identity {
    (Lower(p.title), Lower(p.company), p.link)
  }

  /** The identities of the first `n` postings of `s`. */
  function IdsUpTo(s: seq<Posting>, n: nat): set<Identity>
    requires n <= |s|
  {
    set j | 0 <= j < n :: IdOf(s[j])
  }

  /** No earlier posting of `s` has the identity of `s[i]`. */
  predicate IsFirst(s: seq<Posting>, i: nat)
    requires i < |s|
  {
    forall j :: 0 <= j < i ==> IdOf(s[j]) != IdOf(s[i])
  }

  /** The postings among the first `n` of `s` that are first of their identity, in their order in `s`. */
  function FirstOccurrences(s: seq<Posting>, n: nat): (r: seq<Posting>)
    requires n <= |s|
    ensures |r| <= n
  {
    if n == 0 then []
    else FirstOccurrences(s, n - 1) + (if IsFirst(s, n - 1) then [s[n - 1]] else [])
  }

  /**
   * The deduplicated list: every posting that is the first of its identity, in
   * input order. It is no longer than the input and no two of its postings share
   * an identity.
   */
  function Unique(s: seq<Posting>): (r: seq<Posting>)
    ensures |r| <= |s|
    ensures forall a, b :: 0 <= a < b < |r| ==> IdOf(r[a]) != IdOf(r[b])
  {
    FirstOccurrencesDistinct(s, |s|);
    FirstOccurrences(s, |s|)
  }

  /** The loop of `collect_all`: a `seen` set of identities and an `unique` list appended in order. */
  method DedupLoop(all: seq<Posting>) returns (unique: seq<Posting>)
    ensures unique == Unique(all)
  {
    var seen: set<Identity> := {};
    unique := [];
    var i := 0;
    while i < |all|
      invariant i <= |all|
      invariant seen == IdsUpTo(all, i)
      invariant unique == FirstOccurrences(all, i)
    {
      var key := IdOf(all[i]);
      assert key in seen <==> !IsFirst(all, i);
      if key !in seen {
        seen := seen + {key};
        unique := unique + [all[i]];
      }
      assert IdsUpTo(all, i + 1) == IdsUpTo(all, i) + {key};
      i := i + 1;
    }
  }

  /** `x` is the first posting of its identity at some index below `n`. */
  ghost predicate FirstBelow(s: seq<Posting>, n: nat, x: Posting)
    requires n <= |s|
  {
    exists i :: 0 <= i < n && IsFirst(s, i) && x == s[i]
  }

  /** The `m`-th kept posting among the first `n` is a first occurrence at an index below `n`. */
  lemma {:induction false} FirstOccurrenceAt(s: seq<Posting>, n: nat, m: nat)
    requires n <= |s| && m < |FirstOccurrences(s, n)|
    ensures FirstBelow(s, n, FirstOccurrences(s, n)[m])
  {
    var before := FirstOccurrences(s, n - 1);
    var r := FirstOccurrences(s, n);
    if m < |before| {
      assert r[m] == before[m];
      FirstOccurrenceAt(s, n - 1, m);
      FirstBelowGrows(s, n, before[m]);
    } else {
      assert IsFirst(s, n - 1) && r == before + [s[n - 1]];
      assert r[m] == s[n - 1];
    }
  }

  /** Each kept posting is a first occurrence at an index below `n`. */
  lemma FirstOccurrencesOrigin(s: seq<Posting>, n: nat)
    requires n <= |s|
    ensures forall m :: 0 <= m < |FirstOccurrences(s, n)| ==> FirstBelow(s, n, FirstOccurrences(s, n)[m])
  {
    forall m | 0 <= m < |FirstOccurrences(s, n)|
      ensures FirstBelow(s, n, FirstOccurrences(s, n)[m])
    {
      FirstOccurrenceAt(s, n, m);
    }
  }

  lemma FirstBelowGrows(s: seq<Posting>, n: nat, x: Posting)
    requires 0 < n <= |s| && FirstBelow(s, n - 1, x)
    ensures FirstBelow(s, n, x)
  {
    var i :| 0 <= i < n - 1 && IsFirst(s, i) && x == s[i];
    assert 0 <= i < n && IsFirst(s, i) && x == s[i];
  }

  /** No two kept postings among the first `n` share an identity. */
  lemma {:induction false} FirstOccurrencesDistinct(s: seq<Posting>, n: nat)
    requires n <= |s|
    ensures forall a, b :: 0 <= a < b < |FirstOccurrences(s, n)| ==>
      IdOf(FirstOccurrences(s, n)[a]) != IdOf(FirstOccurrences(s, n)[b])
  {
    if n > 0 {
      FirstOccurrencesDistinct(s, n - 1);
      FirstOccurrencesOrigin(s, n - 1);
    }
  }

  /** The kept postings among the first `n` carry exactly the identities of the first `n`. */
  lemma {:induction false} FirstOccurrencesIds(s: seq<Posting>, n: nat)
    requires n <= |s|
    ensures (set p | p in FirstOccurrences(s, n) :: IdOf(p)) == IdsUpTo(s, n)
  {
    if n > 0 {
      FirstOccurrencesIds(s, n - 1);
      var before := FirstOccurrences(s, n - 1);
      if !IsFirst(s, n - 1) {
        var j :| 0 <= j < n - 1 && IdOf(s[j]) == IdOf(s[n - 1]);
        assert IdOf(s[n - 1]) in IdsUpTo(s, n - 1);
      }
      assert IdsUpTo(s, n) == IdsUpTo(s, n - 1) + {IdOf(s[n - 1])};
    }
  }

  /** Every identity in the input survives, and no other appears. */
  lemma DedupKeepsEveryIdentity(s: seq<Posting>)
    ensures (set p | p in Unique(s) :: IdOf(p)) == (set p | p in s :: IdOf(p))
  {
    FirstOccurrencesIds(s, |s|);
    assert (set p | p in s :: IdOf(p)) == IdsUpTo(s, |s|) by {
      forall x | x in IdsUpTo(s, |s|)
        ensures x in (set p | p in s :: IdOf(p))
      {
        var j :| 0 <= j < |s| && IdOf(s[j]) == x;
        assert s[j] in s;
      }
    }
  }

  /** The posting kept for an identity is its first occurrence in the input. */
  lemma DedupKeepsFirst(s: seq<Posting>)
    ensures forall m :: 0 <= m < |Unique(s)| ==> FirstBelow(s, |s|, Unique(s)[m])
  {
    FirstOccurrencesOrigin(s, |s|);
  }

  lemma {:induction false} FirstOccurrencesPrefix(s: seq<Posting>, t: seq<Posting>, n: nat)
    requires n <= |s|
    ensures FirstOccurrences(s + t, n) == FirstOccurrences(s, n)
  {
    if n > 0 {
      FirstOccurrencesPrefix(s, t, n - 1);
      assert (s + t)[n - 1] == s[n - 1];
      assert IsFirst(s + t, n - 1) == IsFirst(s, n - 1) by {
        assert forall j :: 0 <= j < n - 1 ==> (s + t)[j] == s[j];
      }
    }
  }

  /**
   * One step of the loop: appending a posting to the input appends it to the
   * output exactly when its identity is new.
   */
  lemma DedupSnoc(s: seq<Posting>, p: Posting)
    ensures IdOf(p) in IdsUpTo(s, |s|) ==> Unique(s + [p]) == Unique(s)
    ensures IdOf(p) !in IdsUpTo(s, |s|) ==> Unique(s + [p]) == Unique(s) + [p]
  {
    FirstOccurrencesPrefix(s, [p], |s|);
    var t := s + [p];
    assert t[|s|] == p;
    assert forall j :: 0 <= j < |s| ==> t[j] == s[j];
    if IdOf(p) in IdsUpTo(s, |s|) {
      var j :| 0 <= j < |s| && IdOf(s[j]) == IdOf(p);
      assert !IsFirst(t, |s|);
    }
  }

  /** A later posting with the identity of an earlier one is dropped and the earlier one kept. */
  lemma DuplicateDropped(a: Posting, b: Posting)
    requires IdOf(a) == IdOf(b)
    ensures Unique([a, b]) == [a]
  {
    DedupSnoc([], a);
    assert [] + [a] == [a];
    assert [a] + [b] == [a, b];
    assert IdOf(a) in IdsUpTo([a], 1);
    DedupSnoc([a], b);
  }

  /** Input whose identities are already distinct passes through unchanged. */
  lemma {:induction false} DedupDistinctInput(s: seq<Posting>, n: nat)
    requires n <= |s|
    requires forall a, b :: 0 <= a < b < |s| ==> IdOf(s[a]) != IdOf(s[b])
    ensures FirstOccurrences(s, n) == s[..n]
  {
    if n > 0 {
      DedupDistinctInput(s, n - 1);
      assert IsFirst(s, n - 1);
      assert s[..n] == s[..n - 1] + [s[n - 1]];
    }
  }

  /** Deduplicating twice changes nothing. */
  lemma DedupIdempotent(s: seq<Posting>)
    ensures Unique(Unique(s)) == Unique(s)
  {
    DedupDistinctInput(Unique(s), |Unique(s)|);
    assert Unique(s)[..|Unique(s)|] == Unique(s);
  }
}
