/** The composite ranking key of `collect_all` and Python's `<` on it. */
module SortKeys {

  /** The sort key of one posting, `(-score, city index, source)`, compared component by component. */
  datatype RankKey = RankKey(negScore: int, city: int, source: string)

  /** Python's `<` on two strings: lexicographic by code point, a proper prefix first. */
  predicate LexLt(a: string, b: string)
    decreases |a|
  {
    if |a| == 0 then |b| > 0
    else if |b| == 0 then false
    else a[0] < b[0] || (a[0] == b[0] && LexLt(a[1..], b[1..]))
  }

  /** Python's `<` on two key tuples. */
  predicate KeyLt(a: RankKey, b: RankKey) {
    || a.negScore < b.negScore
    || (a.negScore == b.negScore && a.city < b.city)
    || (a.negScore == b.negScore && a.city == b.city && LexLt(a.source, b.source))
  }

  /** `a` may come before `b` in sorted order. */
  predicate KeyLe(a: RankKey, b: RankKey) {
    !KeyLt(b, a)
  }

  lemma {:induction false} LexLtIrreflexive(a: string)
    ensures !LexLt(a, a)
    decreases |a|
  {
    if |a| > 0 {
      LexLtIrreflexive(a[1..]);
    }
  }

  lemma {:induction false} LexLtTransitive(a: string, b: string, c: string)
    requires LexLt(a, b) && LexLt(b, c)
    ensures LexLt(a, c)
    decreases |a|
  {
    if |a| > 0 && a[0] == b[0] && b[0] == c[0] {
      LexLtTransitive(a[1..], b[1..], c[1..]);
    }
  }

  lemma {:induction false} LexLtTotal(a: string, b: string)
    ensures a == b || LexLt(a, b) || LexLt(b, a)
    decreases |a|
  {
    if |a| > 0 && |b| > 0 && a[0] == b[0] {
      LexLtTotal(a[1..], b[1..]);
      if a[1..] == b[1..] {
        assert a == [a[0]] + a[1..] && b == [b[0]] + b[1..];
      }
    }
  }

  /** Key comparison is a strict total order. */
  lemma KeyLtStrictTotal(a: RankKey, b: RankKey, c: RankKey)
    ensures !KeyLt(a, a)
    ensures KeyLt(a, b) && KeyLt(b, c) ==> KeyLt(a, c)
    ensures a == b || KeyLt(a, b) || KeyLt(b, a)
  {
    LexLtIrreflexive(a.source);
    LexLtTotal(a.source, b.source);
    if KeyLt(a, b) && KeyLt(b, c) && a.negScore == b.negScore == c.negScore && a.city == b.city == c.city {
      LexLtTransitive(a.source, b.source, c.source);
    }
  }

  /** `KeyLe` is a total preorder whose ties are equal keys. */
  lemma KeyLeOrder()
    ensures forall a: RankKey, b: RankKey, c: RankKey :: KeyLe(a, b) && KeyLe(b, c) ==> KeyLe(a, c)
    ensures forall a: RankKey, b: RankKey :: KeyLe(a, b) && KeyLe(b, a) ==> a == b
    ensures forall a: RankKey, b: RankKey :: KeyLt(a, b) ==> KeyLe(a, b) && a != b
    ensures forall a: RankKey, b: RankKey :: KeyLe(a, b) || KeyLe(b, a)
  {
    forall a: RankKey, b: RankKey, c: RankKey
      ensures KeyLe(a, b) && KeyLe(b, c) ==> KeyLe(a, c)
      ensures KeyLe(a, b) && KeyLe(b, a) ==> a == b
      ensures KeyLt(a, b) ==> KeyLe(a, b) && a != b
    {
      KeyLtStrictTotal(a, b, c);
      KeyLtStrictTotal(a, b, a);
      KeyLtStrictTotal(c, b, a);
      KeyLtStrictTotal(b, a, c);
      KeyLtStrictTotal(c, a, b);
    }
    forall a: RankKey, b: RankKey
      ensures KeyLe(a, b) || KeyLe(b, a)
    {
      KeyLtStrictTotal(a, b, a);
    }
  }

}
