/**
 * `clean` from job_bot.py: `re.sub(r"\s+", " ", text or "").strip()`.
 * Every maximal whitespace run becomes one space, then whitespace is
 * stripped from both ends.
 */
module Normalize {
  import opened Text
  import opened Wrappers

  /** The non-whitespace characters of `s`, in order. */
  function NonSpace(s: string): string {
    if |s| == 0 then [] else (if IsSpace(s[0]) then [] else [s[0]]) + NonSpace(s[1..])
  }

  /**
   * `str.split()`: the maximal runs of non-whitespace characters, in order.
   * A character that follows a non-whitespace character extends its word.
   */
  function Words(s: string): (ws: seq<string>)
    ensures |s| > 0 && !IsSpace(s[0]) ==> |ws| > 0
    decreases |s|
  {
    if |s| == 0 then []
    else if IsSpace(s[0]) then Words(s[1..])
    else
      var ws := Words(s[1..]);
      if |s| > 1 && !IsSpace(s[1]) then [[s[0]] + ws[0]] + ws[1..] else [[s[0]]] + ws
  }

  /** `" ".join(ws)`: the words with one space between neighbours. */
  function JoinWords(ws: seq<string>): string {
    if |ws| == 0 then ""
    else if |ws| == 1 then ws[0]
    else ws[0] + " " + JoinWords(ws[1..])
  }

  /** Every whitespace character is a plain space and no two whitespace characters touch. */
  predicate SingleSpaced(s: string) {
    && (forall i :: 0 <= i < |s| && IsSpace(s[i]) ==> s[i] == ' ')
    && (forall i :: 0 <= i < |s| - 1 && IsSpace(s[i]) ==> !IsSpace(s[i + 1]))
  }

  /** What `clean` promises of its result: single-spaced, with no whitespace at either end. */
  predicate Normalized(s: string) {
    && SingleSpaced(s)
    && (|s| > 0 ==> !IsSpace(s[0]) && !IsSpace(s[|s| - 1]))
  }

  lemma {:induction false} NonSpaceAppend(a: string, b: string)
    ensures NonSpace(a + b) == NonSpace(a) + NonSpace(b)
    decreases |a|
  {
    if |a| > 0 {
      assert (a + b)[0] == a[0];
      assert (a + b)[1..] == a[1..] + b;
      NonSpaceAppend(a[1..], b);
    } else {
      assert a + b == b;
    }
  }

  /** The whitespace-only text `s` has no non-whitespace characters. */
  lemma {:induction false} NonSpaceOfSpaces(s: string)
    requires forall i :: 0 <= i < |s| ==> IsSpace(s[i])
    ensures NonSpace(s) == []
    decreases |s|
  {
    if |s| > 0 {
      NonSpaceOfSpaces(s[1..]);
    }
  }

  /** Drops the whitespace at the front of `s`: the longest whitespace prefix goes. */
  function DropSpaces(s: string): (r: string)
    ensures |r| <= |s| && r == s[|s| - |r|..]
    ensures forall i :: 0 <= i < |s| - |r| ==> IsSpace(s[i])
    ensures |r| > 0 ==> !IsSpace(r[0])
  {
    if |s| > 0 && IsSpace(s[0]) then DropSpaces(s[1..]) else s
  }

  /** Drops the whitespace at the end of `s`: the longest whitespace suffix goes. */
  function DropTrailingSpaces(s: string): (r: string)
    ensures |r| <= |s| && r == s[..|r|]
    ensures forall i :: |r| <= i < |s| ==> IsSpace(s[i])
    ensures |r| > 0 ==> !IsSpace(r[|r| - 1])
  {
    if |s| > 0 && IsSpace(s[|s| - 1]) then DropTrailingSpaces(s[..|s| - 1]) else s
  }

  /** What `re.sub(r"\s+", " ", s)` keeps of `s` in `r`. */
  predicate CollapseShape(s: string, r: string) {
    && SingleSpaced(r)
    && (|s| > 0 <==> |r| > 0)
    && (|s| > 0 ==> (IsSpace(s[0]) <==> IsSpace(r[0])))
    && (|s| > 0 ==> (IsSpace(s[|s| - 1]) <==> IsSpace(r[|r| - 1])))
    && NonSpace(r) == NonSpace(s)
  }

  /** `re.sub(r"\s+", " ", s)`: each maximal whitespace run replaced by a single space. */
  function Collapse(s: string): (r: string)
    ensures SingleSpaced(r)
    ensures |s| > 0 <==> |r| > 0
    ensures |s| > 0 ==> (IsSpace(s[0]) <==> IsSpace(r[0]))
    ensures |s| > 0 ==> (IsSpace(s[|s| - 1]) <==> IsSpace(r[|r| - 1]))
    ensures NonSpace(r) == NonSpace(s)
    decreases |s|
  {
    if |s| == 0 then ""
    else if IsSpace(s[0]) then
      var rest := DropSpaces(s);
      var c := Collapse(rest);
      CollapseRunStep(s, rest, c);
      " " + c
    else
      var c := Collapse(s[1..]);
      CollapseCharStep(s, c);
      [s[0]] + c
  }

  /** A leading whitespace run becomes one space in front of the collapsed rest. */
  lemma CollapseRunStep(s: string, rest: string, c: string)
    requires |s| > 0 && IsSpace(s[0]) && rest == DropSpaces(s)
    requires CollapseShape(rest, c)
    ensures CollapseShape(s, " " + c)
  {
    var r := " " + c;
    SpaceBeforeSingleSpaced(c);
    assert SingleSpaced(r);
    assert IsSpace(r[0]);
    if |c| > 0 {
      assert r[|r| - 1] == c[|c| - 1] && s[|s| - 1] == rest[|rest| - 1];
    }
    assert IsSpace(s[|s| - 1]) <==> IsSpace(r[|r| - 1]);
    DropSpacesNonSpace(s);
    NonSpaceAppend(" ", c);
    assert NonSpace(r) == NonSpace(s);
  }

  /** Dropping leading whitespace keeps every non-whitespace character. */
  lemma DropSpacesNonSpace(s: string)
    ensures NonSpace(DropSpaces(s)) == NonSpace(s)
  {
    var rest := DropSpaces(s);
    var run := s[..|s| - |rest|];
    assert s == run + rest;
    NonSpaceOfSpaces(run);
    NonSpaceAppend(run, rest);
  }

  /** One space in front of a single-spaced text that does not start with whitespace. */
  lemma SpaceBeforeSingleSpaced(c: string)
    requires SingleSpaced(c) && (|c| > 0 ==> !IsSpace(c[0]))
    ensures SingleSpaced(" " + c)
  {
    var r := " " + c;
    forall i | 0 <= i < |r| && IsSpace(r[i])
      ensures r[i] == ' '
    {
      if i > 0 { assert r[i] == c[i - 1]; }
    }
    forall i | 0 <= i < |r| - 1 && IsSpace(r[i])
      ensures !IsSpace(r[i + 1])
    {
      assert r[i + 1] == c[i];
      if i > 0 { assert r[i] == c[i - 1]; }
    }
  }

  /** A leading non-whitespace character is kept in front of the collapsed rest. */
  lemma CollapseCharStep(s: string, c: string)
    requires |s| > 0 && !IsSpace(s[0])
    requires CollapseShape(s[1..], c)
    ensures CollapseShape(s, [s[0]] + c)
  {
    assert s == [s[0]] + s[1..];
    NonSpaceAppend([s[0]], s[1..]);
    NonSpaceAppend([s[0]], c);
    var r := [s[0]] + c;
    if |c| > 0 {
      assert r[|r| - 1] == c[|c| - 1] && s[|s| - 1] == s[1..][|s| - 2];
    }
    assert SingleSpaced(r) by {
      forall i | 0 <= i < |r| && IsSpace(r[i])
        ensures r[i] == ' '
      {
        assert r[i] == c[i - 1];
      }
      forall i | 0 <= i < |r| - 1 && IsSpace(r[i])
        ensures !IsSpace(r[i + 1])
      {
        assert r[i] == c[i - 1] && r[i + 1] == c[i];
      }
    }
  }

  /** `str.strip()`: whitespace removed from both ends. */
  function Strip(s: string): (r: string)
    ensures |r| > 0 ==> !IsSpace(r[0]) && !IsSpace(r[|r| - 1])
    ensures exists a :: Trims(s, a, r)
  {
    var d := DropSpaces(s);
    var r := DropTrailingSpaces(d);
    assert Trims(s, |s| - |d|, r);
    r
  }

  /** `r` is the slice of `s` at offset `a`, and everything in `s` around it is whitespace. */
  predicate Trims(s: string, a: int, r: string) {
    && 0 <= a <= a + |r| <= |s|
    && r == s[a..a + |r|]
    && (forall i :: 0 <= i < a ==> IsSpace(s[i]))
    && (forall i :: a + |r| <= i < |s| ==> IsSpace(s[i]))
  }

  /** `clean(text)`: a missing text cleans to the empty string. */
  function Clean(text: Option<string>): (r: string)
    ensures Normalized(r)
    ensures NonSpace(r) == NonSpace(text.GetOr(""))
    ensures Words(r) == Words(text.GetOr(""))
  {
    var c := Collapse(text.GetOr(""));
    StripKeepsShape(c);
    CollapseKeepsWords(text.GetOr(""));
    StripKeepsWords(c);
    Strip(c)
  }

  /** A slice of a single-spaced text is single-spaced. */
  lemma SingleSpacedSlice(s: string, a: nat, b: nat)
    requires a <= b <= |s|
    requires SingleSpaced(s)
    ensures SingleSpaced(s[a..b])
  {
    assert forall i :: 0 <= i < b - a ==> s[a..b][i] == s[a + i];
  }

  /** Dropping leading whitespace keeps single spacing and the non-whitespace characters. */
  lemma DropSpacesKeepsShape(s: string)
    requires SingleSpaced(s)
    ensures SingleSpaced(DropSpaces(s))
    ensures NonSpace(DropSpaces(s)) == NonSpace(s)
  {
    var r := DropSpaces(s);
    var a := |s| - |r|;
    SingleSpacedSlice(s, a, |s|);
    assert s == s[..a] + r;
    NonSpaceOfSpaces(s[..a]);
    NonSpaceAppend(s[..a], r);
  }

  /** Dropping trailing whitespace keeps single spacing and the non-whitespace characters. */
  lemma DropTrailingSpacesKeepsShape(s: string)
    requires SingleSpaced(s)
    ensures SingleSpaced(DropTrailingSpaces(s))
    ensures NonSpace(DropTrailingSpaces(s)) == NonSpace(s)
  {
    var r := DropTrailingSpaces(s);
    SingleSpacedSlice(s, 0, |r|);
    assert s == r + s[|r|..];
    NonSpaceOfSpaces(s[|r|..]);
    NonSpaceAppend(r, s[|r|..]);
  }

  /** Stripping a single-spaced text leaves a normalized text with the same non-whitespace characters. */
  lemma StripKeepsShape(c: string)
    requires SingleSpaced(c)
    ensures Normalized(Strip(c))
    ensures NonSpace(Strip(c)) == NonSpace(c)
  {
    DropSpacesKeepsShape(c);
    DropTrailingSpacesKeepsShape(DropSpaces(c));
  }

  /** A single-spaced text has no run to collapse. */
  lemma {:induction false} CollapseSingleSpaced(s: string)
    requires SingleSpaced(s)
    ensures Collapse(s) == s
    decreases |s|
  {
    if |s| > 0 {
      var tail := s[1..];
      SingleSpacedSlice(s, 1, |s|);
      CollapseSingleSpaced(tail);
      assert s == [s[0]] + tail;
      if IsSpace(s[0]) {
        assert |tail| > 0 ==> !IsSpace(tail[0]);
        assert DropSpaces(tail) == tail;
        assert DropSpaces(s) == tail;
        assert Collapse(s) == " " + Collapse(tail);
      } else {
        assert Collapse(s) == [s[0]] + Collapse(tail);
      }
    }
  }

  /** A text without whitespace at either end is its own strip. */
  lemma StripTrimmed(s: string)
    requires |s| > 0 ==> !IsSpace(s[0]) && !IsSpace(s[|s| - 1])
    ensures Strip(s) == s
  {
    assert DropSpaces(s) == s;
    assert DropTrailingSpaces(s) == s;
  }

  /** A normalized text is its own `clean`. */
  lemma CleanNormalized(s: string)
    requires Normalized(s)
    ensures Clean(Some(s)) == s
  {
    CollapseSingleSpaced(s);
    StripTrimmed(s);
  }

  /** `clean` is idempotent. */
  lemma CleanIdempotent(text: Option<string>)
    ensures Clean(Some(Clean(text))) == Clean(text)
  {
    CleanNormalized(Clean(text));
  }

  /** `None` and the empty string both clean to the empty string. */
  lemma CleanMissing()
    ensures Clean(None) == ""
    ensures Clean(Some("")) == ""
  {
  }

  /** Leading whitespace separates no words. */
  lemma {:induction false} WordsDropSpaces(s: string)
    ensures Words(DropSpaces(s)) == Words(s)
    decreases |s|
  {
    if |s| > 0 && IsSpace(s[0]) {
      WordsDropSpaces(s[1..]);
    }
  }

  /** Trailing whitespace separates no words. */
  lemma {:induction false} WordsAppendSpaces(s: string, sp: string)
    requires forall i :: 0 <= i < |sp| ==> IsSpace(sp[i])
    ensures Words(s + sp) == Words(s)
    decreases |s|
  {
    var t := s + sp;
    if |s| == 0 {
      assert t == sp;
      WordsOfSpaces(sp);
    } else {
      assert t[0] == s[0];
      assert t[1..] == s[1..] + sp;
      WordsAppendSpaces(s[1..], sp);
      if |s| > 1 {
        assert t[1] == s[1];
      } else if |sp| > 0 {
        assert t[1] == sp[0];
      }
    }
  }

  /** A whitespace-only text has no words. */
  lemma {:induction false} WordsOfSpaces(s: string)
    requires forall i :: 0 <= i < |s| ==> IsSpace(s[i])
    ensures Words(s) == []
    decreases |s|
  {
    if |s| > 0 {
      WordsOfSpaces(s[1..]);
    }
  }

  /** Collapsing whitespace runs neither glues nor splits words. */
  lemma {:induction false} CollapseKeepsWords(s: string)
    ensures Words(Collapse(s)) == Words(s)
    decreases |s|
  {
    if |s| > 0 {
      if IsSpace(s[0]) {
        var rest := DropSpaces(s);
        assert |rest| < |s|;
        CollapseKeepsWords(rest);
        var c := Collapse(rest);
        assert Collapse(s) == " " + c;
        assert (" " + c)[1..] == c;
        WordsDropSpaces(s);
      } else {
        var c := Collapse(s[1..]);
        CollapseKeepsWords(s[1..]);
        var r := [s[0]] + c;
        assert Collapse(s) == r;
        assert r[1..] == c;
        if |c| > 0 {
          assert r[1] == c[0] && s[1..][0] == s[1];
        }
      }
    }
  }

  /** Stripping whitespace from the ends neither glues nor splits words. */
  lemma {:induction false} StripKeepsWords(s: string)
    ensures Words(Strip(s)) == Words(s)
  {
    WordsDropSpaces(s);
    WordsDropTrailingSpaces(DropSpaces(s));
  }

  /** Dropping trailing whitespace keeps the words. */
  lemma {:induction false} WordsDropTrailingSpaces(d: string)
    ensures Words(DropTrailingSpaces(d)) == Words(d)
  {
    var r := DropTrailingSpaces(d);
    var sp := d[|r|..];
    assert d == r + sp;
    assert forall i :: 0 <= i < |sp| ==> sp[i] == d[|r| + i];
    WordsAppendSpaces(r, sp);
  }

  /** Gluing a character to the front of the first word glues it to the front of the joined text. */
  lemma {:induction false} JoinWordsGlue(c: char, ws: seq<string>)
    requires |ws| > 0
    ensures JoinWords([[c] + ws[0]] + ws[1..]) == [c] + JoinWords(ws)
  {
    var vs := [[c] + ws[0]] + ws[1..];
    if |ws| == 1 {
      assert JoinWords(vs) == [c] + ws[0];
    } else {
      var rest := JoinWords(ws[1..]);
      assert vs[1..] == ws[1..];
      assert JoinWords(vs) == ([c] + ws[0]) + " " + rest;
      assert JoinWords(ws) == ws[0] + " " + rest;
    }
  }

  /**
   * A single-spaced text that does not end in whitespace is its words joined
   * by single spaces, after one leading space when it starts with whitespace.
   */
  lemma {:induction false} SingleSpacedIsJoin(s: string)
    requires SingleSpaced(s)
    requires |s| > 0 ==> !IsSpace(s[|s| - 1])
    ensures s == (if |s| > 0 && IsSpace(s[0]) then " " else "") + JoinWords(Words(s))
    decreases |s|
  {
    if |s| > 0 {
      var tail := s[1..];
      SingleSpacedSlice(s, 1, |s|);
      if |tail| > 0 {
        assert tail[|tail| - 1] == s[|s| - 1];
      }
      SingleSpacedIsJoin(tail);
      var ws := Words(tail);
      assert s == [s[0]] + tail;
      if IsSpace(s[0]) {
        assert |s| > 1 && tail[0] == s[1];
        assert s[0] == ' ';
      } else if |s| == 1 {
        assert Words(s) == [[s[0]]];
      } else if !IsSpace(s[1]) {
        assert tail[0] == s[1];
        JoinWordsGlue(s[0], ws);
      } else {
        assert tail[0] == s[1] && tail == " " + JoinWords(ws);
        assert |ws| > 0;
        assert Words(s) == [[s[0]]] + ws;
        assert ([[s[0]]] + ws)[1..] == ws;
      }
    }
  }

  /** `clean(text)` is `" ".join(text.split())`. */
  lemma CleanIsJoinOfWords(text: Option<string>)
    ensures Clean(text) == JoinWords(Words(text.GetOr("")))
  {
    SingleSpacedIsJoin(Clean(text));
  }
}
