/**
 * Character classes, ASCII lowering and substring search: the string
 * primitives that every classifier in job_bot.py is built from.
 */
module Text {

  /** The characters Python's `str.isspace()` accepts; `\s` in a `str` regular expression matches the same set. */
  predicate IsSpace(c: char) {
    || c == ' '
    || '\t' <= c <= '\r'
    || '\U{1c}' <= c <= '\U{1f}'
    || c == '\U{85}'
    || c == '\U{a0}'
    || c == '\U{1680}'
    || '\U{2000}' <= c <= '\U{200a}'
    || c == '\U{2028}'
    || c == '\U{2029}'
    || c == '\U{202f}'
    || c == '\U{205f}'
    || c == '\U{3000}'
  }

  /** A character `\w` matches, restricted to ASCII. */
  predicate IsWordChar(c: char) {
    'a' <= c <= 'z' || 'A' <= c <= 'Z' || '0' <= c <= '9' || c == '_'
  }

  predicate IsUpper(c: char) {
    'A' <= c <= 'Z'
  }

  function LowerChar(c: char): (r: char)
    ensures !IsUpper(r)
    ensures IsUpper(c) ==> r as int == c as int + 32
    ensures !IsUpper(c) ==> r == c
  {
    if IsUpper(c) then (c as int + 32) as char else c
  }

  /** `str.lower()` on ASCII letters; every other character is kept. */
  function Lower(s: string): (r: string)
    ensures |r| == |s|
    ensures forall i :: 0 <= i < |s| ==> r[i] == LowerChar(s[i])
  {
    seq(|s|, i requires 0 <= i < |s| => LowerChar(s[i]))
  }

  /** Lowering commutes with concatenation, so the lowered join is the join of the lowered parts. */
  lemma LowerAppend(a: string, b: string)
    ensures Lower(a + b) == Lower(a) + Lower(b)
  {
    assert forall i :: 0 <= i < |a + b| ==> Lower(a + b)[i] == (Lower(a) + Lower(b))[i];
  }

  /** A text without upper-case letters is already lowered. */
  lemma LowerWithoutUpper(s: string)
    requires forall i :: 0 <= i < |s| ==> !IsUpper(s[i])
    ensures Lower(s) == s
  {
    assert forall i :: 0 <= i < |s| ==> Lower(s)[i] == s[i];
  }

  /** Lowering twice is lowering once. */
  lemma LowerIdempotent(s: string)
    ensures Lower(Lower(s)) == Lower(s)
  {
  }

  /** `p` occurs in `s` starting at index `i`. */
  predicate OccursAt(s: string, p: string, i: int) {
    0 <= i && i + |p| <= |s| && s[i..i + |p|] == p
  }

  /** Python's `p in s` for two strings: some index of `s` starts a copy of `p`. */
  ghost predicate Contains(s: string, p: string) {
    exists i :: OccursAt(s, p, i)
  }

  /** At least one of `keys` is a substring of `s` (`any(k in s for k in keys)`). */
  ghost predicate ContainsAny(s: string, keys: seq<string>) {
    exists k :: k in keys && Contains(s, k)
  }

  /** Every one of `keys` is a substring of `s` (`all(k in s for k in keys)`). */
  ghost predicate ContainsAll(s: string, keys: seq<string>) {
    forall k :: k in keys ==> Contains(s, k)
  }

  /** Left-to-right search for `p` in `s`, trying start positions `from`, `from + 1`, ... */
  function SearchFrom(s: string, p: string, from: nat): (r: bool)
    ensures r <==> exists i :: from <= i && OccursAt(s, p, i)
    decreases |s| - from
  {
    if from + |p| > |s| then false
    else OccursAt(s, p, from) || SearchFrom(s, p, from + 1)
  }

  /** Python's `p in s`. */
  function In(p: string, s: string): (r: bool)
    ensures r <==> Contains(s, p)
  {
    SearchFrom(s, p, 0)
  }

  /** Python's `any(k in s for k in keys)`, evaluated key by key. */
  function AnyIn(keys: seq<string>, s: string): (r: bool)
    ensures r <==> ContainsAny(s, keys)
  {
    if |keys| == 0 then false
    else In(keys[0], s) || AnyIn(keys[1..], s)
  }

  /** Python's `all(k in s for k in keys)`, evaluated key by key. */
  function AllIn(keys: seq<string>, s: string): (r: bool)
    ensures r <==> ContainsAll(s, keys)
  {
    if |keys| == 0 then true
    else In(keys[0], s) && AllIn(keys[1..], s)
  }

  /** A substring of `s` is still a substring once text is added on either side. */
  lemma ContainsWithin(s: string, p: string, u: string, v: string)
    requires Contains(s, p)
    ensures Contains(u + s + v, p)
  {
    var i :| OccursAt(s, p, i);
    var t := u + s + v;
    assert t[|u| + i..|u| + i + |p|] == s[i..i + |p|];
    assert OccursAt(t, p, |u| + i);
  }

  /** Adding text on either side keeps every key that was found. */
  lemma ContainsAnyWithin(s: string, keys: seq<string>, u: string, v: string)
    requires ContainsAny(s, keys)
    ensures ContainsAny(u + s + v, keys)
  {
    var k :| k in keys && Contains(s, k);
    ContainsWithin(s, k, u, v);
  }

  /** A non-empty key never occurs in the empty string. */
  lemma NothingInEmpty(p: string)
    requires |p| > 0
    ensures !Contains("", p)
  {
  }

  /** A key holding a character that `s` lacks does not occur in `s`. */
  lemma AbsentCharBlocks(s: string, p: string, c: char)
    requires c in p && c !in s
    ensures !Contains(s, p)
  {
    var j :| 0 <= j < |p| && p[j] == c;
    forall i
      ensures !OccursAt(s, p, i)
    {
      if 0 <= i && i + |p| <= |s| {
        assert s[i..i + |p|][j] == s[i + j] != c;
      }
    }
  }
}
