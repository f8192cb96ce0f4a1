/** The string operations the scraper relies on: `str.strip`, `str.splitlines`,
    slicing `s[:n]` and the substring test `pat in s`. */
module Text {

  /** The characters `Strip` removes: a small explicit subset of Python's whitespace. */
  predicate IsSpace(c: char) {
    c == ' ' || c == '\t' || c == '\n' || c == '\r'
  }

  predicate AllSpace(s: string) {
    forall k :: 0 <= k < |s| ==> IsSpace(s[k])
  }

  /** `s.lstrip()`: drop whitespace from the front. */
  function StripLeft(s: string): string
    decreases |s|
  {
    if |s| > 0 && IsSpace(s[0]) then StripLeft(s[1..]) else s
  }

  /** `s.rstrip()`: drop whitespace from the back. */
  function StripRight(s: string): string
    decreases |s|
  {
    if |s| > 0 && IsSpace(s[|s| - 1]) then StripRight(s[..|s| - 1]) else s
  }

  /** `s.strip()` */
  function Strip(s: string): string {
    StripRight(StripLeft(s))
  }

  /** `lstrip` keeps a suffix that does not start with whitespace, and drops only whitespace. */
  lemma {:induction false} StripLeftShape(s: string)
    ensures var r := StripLeft(s);
      |r| <= |s| && r == s[|s| - |r|..] && AllSpace(s[..|s| - |r|]) && (r != [] ==> !IsSpace(r[0]))
    decreases |s|
  {
    if |s| > 0 && IsSpace(s[0]) {
      StripLeftShape(s[1..]);
      var r := StripLeft(s[1..]);
      assert s[..|s| - |r|] == [s[0]] + s[1..][..|s| - 1 - |r|];
    }
  }

  /** `rstrip` keeps a prefix that does not end with whitespace, and drops only whitespace. */
  lemma {:induction false} StripRightShape(s: string)
    ensures var r := StripRight(s);
      |r| <= |s| && r == s[..|r|] && AllSpace(s[|r|..]) && (r != [] ==> !IsSpace(r[|r| - 1]))
    decreases |s|
  {
    if |s| > 0 && IsSpace(s[|s| - 1]) {
      StripRightShape(s[..|s| - 1]);
      var r := StripRight(s[..|s| - 1]);
      assert s[|r|..] == s[..|s| - 1][|r|..] + [s[|s| - 1]];
    }
  }

  /** `r` is `s[i..j]`, and all that lies outside it is whitespace. */
  ghost predicate TrimmedAt(s: string, r: string, i: int, j: int) {
    0 <= i <= j <= |s| && r == s[i..j] && AllSpace(s[..i]) && AllSpace(s[j..])
  }

  /** `r` is `s` with some whitespace cut from either end. */
  ghost predicate Trimmed(s: string, r: string) {
    exists i, j :: TrimmedAt(s, r, i, j)
  }

  /** `strip` cuts only whitespace, and leaves none at either end. */
  lemma StripShape(s: string)
    ensures Trimmed(s, Strip(s))
    ensures var r := Strip(s); r != [] ==> !IsSpace(r[0]) && !IsSpace(r[|r| - 1])
  {
    var left := StripLeft(s);
    var r := StripRight(left);
    StripLeftShape(s);
    StripRightShape(left);
    var i := |s| - |left|;
    assert s[i + |r|..] == left[|r|..];
    assert TrimmedAt(s, r, i, i + |r|);
  }

  /** Stripping pads of whitespace off a text that has none at its ends gives the text back. */
  lemma {:induction false} StripOfPadded(pre: string, mid: string, post: string)
    requires AllSpace(pre) && AllSpace(post)
    requires mid != [] ==> !IsSpace(mid[0]) && !IsSpace(mid[|mid| - 1])
    ensures Strip(pre + mid + post) == mid
  {
    if mid == [] {
      assert pre + mid + post == (pre + post) + [];
      StripLeftOfPadded(pre + post, []);
    } else {
      StripLeftOfPadded(pre, mid + post);
      assert StripLeft(pre + mid + post) == mid + post by {
        assert pre + mid + post == pre + (mid + post);
      }
      StripRightOfPadded(mid, post);
    }
  }

  lemma {:induction false} StripLeftOfPadded(pre: string, rest: string)
    requires AllSpace(pre)
    requires rest != [] ==> !IsSpace(rest[0])
    ensures StripLeft(pre + rest) == rest
    decreases |pre|
  {
    if pre != [] {
      assert (pre + rest)[1..] == pre[1..] + rest;
      StripLeftOfPadded(pre[1..], rest);
    }
  }

  lemma {:induction false} StripRightOfPadded(rest: string, post: string)
    requires AllSpace(post)
    requires rest != [] ==> !IsSpace(rest[|rest| - 1])
    ensures StripRight(rest + post) == rest
    decreases |post|
  {
    if post != [] {
      assert (rest + post)[..|rest + post| - 1] == rest + post[..|post| - 1];
      StripRightOfPadded(rest, post[..|post| - 1]);
    } else {
      assert rest + post == rest;
    }
  }

  /** Stripping twice is stripping once. */
  lemma StripIdempotent(s: string)
    ensures Strip(Strip(s)) == Strip(s)
  {
    var r := Strip(s);
    StripShape(s);
    StripOfPadded([], r, []);
    assert [] + r + [] == r;
  }

  /** Index of the first '\n' in `s`, or `|s|` when there is none. */
  function LineEnd(s: string): (n: nat)
    ensures n <= |s| && '\n' !in s[..n]
    ensures n < |s| ==> s[n] == '\n'
  {
    if s == [] || s[0] == '\n' then 0
    else
      var n := 1 + LineEnd(s[1..]);
      assert s[..n] == [s[0]] + s[1..][..n - 1];
      n
  }

  /** `s.splitlines()` with '\n' as the only line break: a final break
      does not open an empty last line, and the empty text has no lines. */
  function SplitLines(s: string): seq<string>
    decreases |s|
  {
    if s == [] then []
    else
      var n := LineEnd(s);
      if n == |s| then [s] else [s[..n]] + SplitLines(s[n + 1..])
  }

  /** No line holds a break. */
  lemma {:induction false} SplitLinesNoBreak(s: string)
    ensures forall k :: 0 <= k < |SplitLines(s)| ==> '\n' !in SplitLines(s)[k]
    decreases |s|
  {
    if s != [] && LineEnd(s) < |s| {
      SplitLinesNoBreak(s[LineEnd(s) + 1..]);
    }
  }

  /** The lines joined back with '\n' (Python's `"\n".join`). */
  function JoinLines(lines: seq<string>): string
  {
    if |lines| == 0 then ""
    else if |lines| == 1 then lines[0]
    else lines[0] + "\n" + JoinLines(lines[1..])
  }

  /** A text that does not end with a line break is its lines joined back together. */
  lemma {:induction false} JoinSplitLines(s: string)
    requires s == [] || s[|s| - 1] != '\n'
    ensures JoinLines(SplitLines(s)) == s
    decreases |s|
  {
    if s != [] {
      var n := LineEnd(s);
      if n < |s| {
        var rest := s[n + 1..];
        assert rest != [];
        JoinSplitLines(rest);
        SplitLinesNonEmpty(rest);
        assert s == s[..n] + "\n" + rest;
      }
    }
  }

  lemma SplitLinesNonEmpty(s: string)
    requires s != []
    ensures |SplitLines(s)| >= 1
  {
  }

  /** A text that does not end with a line break has a second line exactly when it holds a break. */
  lemma {:induction false} SplitLinesAtLeastTwo(s: string)
    requires s == [] || s[|s| - 1] != '\n'
    ensures |SplitLines(s)| >= 2 <==> '\n' in s
  {
    if s != [] {
      var n := LineEnd(s);
      if n < |s| {
        assert s[n + 1..] != [];
        SplitLinesNonEmpty(s[n + 1..]);
      } else {
        assert s[..n] == s;
      }
    }
  }

  /** Splitting a first line off: `(a + "\n" + b).splitlines()` starts with `a`. */
  lemma SplitLinesCons(a: string, b: string)
    requires '\n' !in a
    ensures SplitLines(a + "\n" + b) == [a] + SplitLines(b)
  {
    var s := a + "\n" + b;
    LineEndOf(a, b);
    assert s[..|a|] == a && s[|a| + 1..] == b;
  }

  lemma {:induction false} LineEndOf(a: string, b: string)
    requires '\n' !in a
    ensures LineEnd(a + "\n" + b) == |a|
    decreases |a|
  {
    if a != [] {
      assert (a + "\n" + b)[1..] == a[1..] + "\n" + b;
      assert '\n' !in a[1..] by {
        assert forall k :: 0 <= k < |a| - 1 ==> a[1..][k] == a[k + 1];
      }
      LineEndOf(a[1..], b);
    }
  }

  /** `s[:n]` for `n >= 0`: the first `n` characters, or all of `s` when it is shorter. */
  function Take(s: string, n: nat): string {
    if |s| <= n then s else s[..n]
  }

  /** `s[:n]` is a prefix of `s` of length `n`, or all of `s`. */
  lemma TakeShape(s: string, n: nat)
    ensures |Take(s, n)| <= n && Take(s, n) <= s
    ensures |Take(s, n)| == n || Take(s, n) == s
  {
  }

  /** `pat in text`: `pat` occurs as a contiguous run of `text`. */
  predicate Contains(text: string, pat: string)
    decreases |text|
  {
    if |pat| > |text| then false
    else text[..|pat|] == pat || Contains(text[1..], pat)
  }

  /** `pat` occurs in `text` starting at index `i`. */
  predicate OccursAt(text: string, pat: string, i: int) {
    0 <= i <= |text| - |pat| && text[i..i + |pat|] == pat
  }

  /** `Contains` finds exactly the positions where `pat` occurs. */
  lemma {:induction false} ContainsIff(text: string, pat: string)
    ensures Contains(text, pat) <==> exists i :: OccursAt(text, pat, i)
    decreases |text|
  {
    if |pat| <= |text| {
      if text[..|pat|] == pat {
        assert OccursAt(text, pat, 0);
      } else {
        ContainsIff(text[1..], pat);
        if Contains(text[1..], pat) {
          var i :| OccursAt(text[1..], pat, i);
          assert text[i + 1..i + 1 + |pat|] == text[1..][i..i + |pat|];
          assert OccursAt(text, pat, i + 1);
        }
        forall i | OccursAt(text, pat, i) && i > 0
          ensures OccursAt(text[1..], pat, i - 1)
        {
          assert text[1..][i - 1..i - 1 + |pat|] == text[i..i + |pat|];
        }
      }
    }
  }
}
