/** The Python string primitives the correction pipeline relies on: whitespace as
    `str.isspace` defines it, `str.strip()`, `str.split()` without a separator,
    `str.split('\n')` and the substring test `pat in s`. */
module Text {

  /** A character Python treats as whitespace (`str.isspace`, and `\s` in a `str` pattern). */
  predicate IsSpace(c: char) {
    || ('\t' <= c <= '\r')
    || ('\U{1c}' <= c <= ' ')
    || c == '\U{85}' || c == '\U{a0}' || c == '\U{1680}'
    || ('\U{2000}' <= c <= '\U{200a}')
    || c == '\U{2028}' || c == '\U{2029}' || c == '\U{202f}' || c == '\U{205f}' || c == '\U{3000}'
  }

  /** Every character is whitespace: `not s.strip()` in Python. */
  predicate IsBlank(s: string) {
    forall i | 0 <= i < |s| :: IsSpace(s[i])
  }

  predicate NoSpace(s: string) {
    forall i | 0 <= i < |s| :: !IsSpace(s[i])
  }

  /** Length of the whitespace run that starts `s`. */
  function LeadingSpace(s: string): (n: nat)
    ensures n <= |s|
    ensures IsBlank(s[..n])
    ensures n < |s| ==> !IsSpace(s[n])
  {
    if s == [] || !IsSpace(s[0]) then 0
    else
      var m := LeadingSpace(s[1..]);
      assert s[..1 + m] == [s[0]] + s[1..][..m];
      1 + m
  }

  lemma BlankConcat(a: string, b: string)
    ensures IsBlank(a + b) <==> IsBlank(a) && IsBlank(b)
  {
    if IsBlank(a) && IsBlank(b) {
      forall i | 0 <= i < |a + b| ensures IsSpace((a + b)[i]) {
        if i >= |a| { assert (a + b)[i] == b[i - |a|]; }
      }
    }
    if IsBlank(a + b) {
      forall i | 0 <= i < |a| ensures IsSpace(a[i]) {
        assert a[i] == (a + b)[i];
      }
      forall i | 0 <= i < |b| ensures IsSpace(b[i]) {
        assert b[i] == (a + b)[i + |a|];
      }
    }
  }

  /** Length of the whitespace run that ends `s`. */
  function TrailingSpace(s: string): (n: nat)
    ensures n <= |s|
    ensures IsBlank(s[|s| - n..])
    ensures n < |s| ==> !IsSpace(s[|s| - n - 1])
  {
    if s == [] || !IsSpace(s[|s| - 1]) then 0
    else
      var m := TrailingSpace(s[..|s| - 1]);
      var tail := s[..|s| - 1][|s| - 1 - m..];
      assert s[|s| - (1 + m)..] == tail + [s[|s| - 1]];
      BlankConcat(tail, [s[|s| - 1]]);
      1 + m
  }

  /** Length of the non-whitespace run that starts `s`. */
  function LeadingWord(s: string): (n: nat)
    ensures n <= |s|
    ensures NoSpace(s[..n])
    ensures n < |s| ==> IsSpace(s[n])
  {
    if s == [] || IsSpace(s[0]) then 0
    else
      var m := LeadingWord(s[1..]);
      assert s[..1 + m] == [s[0]] + s[1..][..m];
      1 + m
  }

  /** Python's `s.strip()`: `s` without its leading and trailing whitespace. */
  function Strip(s: string): (r: string)
    ensures |r| <= |s|
    ensures r == [] <==> IsBlank(s)
    ensures r != [] ==> !IsSpace(r[0]) && !IsSpace(r[|r| - 1])
  {
    var a := LeadingSpace(s);
    if a == |s| then
      assert s[..a] == s;
      []
    else
      var u := s[a..];
      var b := TrailingSpace(u);
      assert u[0] == s[a];
      s[a..|s| - b]
  }

  /** Stripping keeps a middle slice, so it adds no character. */
  lemma StripKeepsAbsent(s: string, c: char)
    requires c !in s
    ensures c !in Strip(s)
  {
    var a := LeadingSpace(s);
    if a < |s| {
      var b := TrailingSpace(s[a..]);
      assert Strip(s) == s[a..|s| - b];
    }
  }

  lemma {:induction false} LeadingSpaceAfterBlank(x: string, u: string)
    requires IsBlank(x)
    ensures LeadingSpace(x + u) == |x| + LeadingSpace(u)
  {
    if x == [] {
      assert x + u == u;
    } else {
      assert (x + u)[0] == x[0];
      assert (x + u)[1..] == x[1..] + u;
      LeadingSpaceAfterBlank(x[1..], u);
    }
  }

  lemma {:induction false} TrailingSpaceBeforeBlank(u: string, y: string)
    requires IsBlank(y)
    ensures TrailingSpace(u + y) == TrailingSpace(u) + |y|
  {
    if y == [] {
      assert u + y == u;
    } else {
      var y' := y[..|y| - 1];
      assert (u + y)[|u + y| - 1] == y[|y| - 1];
      assert (u + y)[..|u + y| - 1] == u + y';
      TrailingSpaceBeforeBlank(u, y');
    }
  }

  /** Strip removes exactly the blank margins: it is the inverse of padding a
      trimmed text with whitespace on either side. */
  lemma {:induction false} StripInvertsPadding(x: string, t: string, y: string)
    requires IsBlank(x) && IsBlank(y)
    requires t == [] || (!IsSpace(t[0]) && !IsSpace(t[|t| - 1]))
    ensures Strip(x + t + y) == t
  {
    var s := x + t + y;
    if t == [] {
      assert s == x + y;
      BlankConcat(x, y);
    } else {
      assert s == x + (t + y);
      LeadingSpaceAfterBlank(x, t + y);
      assert (t + y)[0] == t[0];
      assert LeadingSpace(s) == |x|;
      var u := s[|x|..];
      assert u == t + y;
      TrailingSpaceBeforeBlank(t, y);
      assert TrailingSpace(u) == |y|;
      assert s[|x|..|s| - |y|] == t;
    }
  }

  /** Python's `s.split()`: the maximal runs of non-whitespace characters, in order. */
  function Words(s: string): (ws: seq<string>)
    ensures forall k | 0 <= k < |ws| :: ws[k] != [] && NoSpace(ws[k])
    decreases |s|
  {
    if s == [] then []
    else if IsSpace(s[0]) then Words(s[1..])
    else
      var w := LeadingWord(s);
      [s[..w]] + Words(s[w..])
  }

  /** `len(s.split())`. */
  function WordCount(s: string): nat {
    |Words(s)|
  }

  /** Reference count of words: a scan that counts the positions where a
      non-whitespace character follows whitespace or the start of the text. */
  function Runs(s: string, inWord: bool): nat {
    if s == [] then 0
    else if IsSpace(s[0]) then Runs(s[1..], false)
    else (if inWord then 0 else 1) + Runs(s[1..], true)
  }

  /** A word and one whitespace character in front of a text add one run. */
  lemma RunsAfterWord(w: string, c: char, rest: string)
    requires w != [] && NoSpace(w) && IsSpace(c)
    ensures Runs(w + [c] + rest, false) == 1 + Runs(rest, false)
  {
    var s := w + [c] + rest;
    assert s[..|w|] == w;
    RunsSkipWord(s, |w|, false);
    assert s[|w|..] == [c] + rest;
    assert ([c] + rest)[1..] == rest;
  }

  lemma {:induction false} RunsSkipWord(s: string, n: nat, inWord: bool)
    requires 0 < n <= |s| && NoSpace(s[..n])
    ensures Runs(s, inWord) == (if inWord then 0 else 1) + Runs(s[n..], true)
  {
    assert !IsSpace(s[..n][0]);
    if n > 1 {
      assert s[1..][..n - 1] == s[..n][1..];
      RunsSkipWord(s[1..], n - 1, true);
      assert s[1..][n - 1..] == s[n..];
    }
  }

  /** The word count is the number of maximal non-whitespace runs. */
  lemma {:induction false} WordCountIsRunCount(s: string)
    ensures WordCount(s) == Runs(s, false)
    decreases |s|
  {
    if s != [] {
      if IsSpace(s[0]) {
        WordCountIsRunCount(s[1..]);
      } else {
        var w := LeadingWord(s);
        RunsSkipWord(s, w, false);
        var rest := s[w..];
        WordCountIsRunCount(rest);
        assert Runs(rest, true) == Runs(rest, false);
      }
    }
  }

  /** `s` with every whitespace character removed. */
  function RemoveSpace(s: string): string {
    if s == [] then []
    else if IsSpace(s[0]) then RemoveSpace(s[1..])
    else [s[0]] + RemoveSpace(s[1..])
  }

  function Flatten(ws: seq<string>): string {
    if ws == [] then [] else ws[0] + Flatten(ws[1..])
  }

  lemma {:induction false} RemoveSpaceAppend(x: string, y: string)
    ensures RemoveSpace(x + y) == RemoveSpace(x) + RemoveSpace(y)
  {
    if x != [] {
      assert (x + y)[1..] == x[1..] + y;
      RemoveSpaceAppend(x[1..], y);
    } else {
      assert x + y == y;
    }
  }

  lemma {:induction false} RemoveSpaceWord(x: string)
    requires NoSpace(x)
    ensures RemoveSpace(x) == x
  {
    if x != [] {
      RemoveSpaceWord(x[1..]);
    }
  }

  /** Splitting into words loses exactly the whitespace: the words, concatenated,
      are the non-whitespace characters of the text in order. */
  lemma {:induction false} WordsKeepEverythingButSpace(s: string)
    ensures Flatten(Words(s)) == RemoveSpace(s)
    decreases |s|
  {
    if s != [] {
      if IsSpace(s[0]) {
        WordsKeepEverythingButSpace(s[1..]);
      } else {
        var w := LeadingWord(s);
        assert s == s[..w] + s[w..];
        RemoveSpaceAppend(s[..w], s[w..]);
        RemoveSpaceWord(s[..w]);
        WordsKeepEverythingButSpace(s[w..]);
        assert Words(s)[1..] == Words(s[w..]);
      }
    }
  }

  /** Python's `s.split('\n')`: the pieces between newlines, always at least one. */
  function SplitLines(s: string): (r: seq<string>)
    ensures |r| >= 1
    ensures forall k | 0 <= k < |r| :: '\n' !in r[k]
  {
    if s == [] then [[]]
    else if s[0] == '\n' then [[]] + SplitLines(s[1..])
    else
      var rest := SplitLines(s[1..]);
      [[s[0]] + rest[0]] + rest[1..]
  }

  /** Python's `'\n'.join(ps)`. */
  function JoinLines(ps: seq<string>): string
    requires |ps| >= 1
  {
    if |ps| == 1 then ps[0] else ps[0] + "\n" + JoinLines(ps[1..])
  }

  /** Joining the pieces of a split gives back the text. */
  lemma {:induction false} JoinSplitLines(s: string)
    ensures JoinLines(SplitLines(s)) == s
  {
    if s != [] {
      JoinSplitLines(s[1..]);
      var rest := SplitLines(s[1..]);
      if s[0] != '\n' {
        var r := SplitLines(s);
        if |rest| == 1 {
          assert r == [[s[0]] + rest[0]];
        } else {
          assert r[1..] == rest[1..];
          assert JoinLines(r) == [s[0]] + rest[0] + "\n" + JoinLines(rest[1..]);
        }
      }
    }
  }

  /** Splitting a join of newline-free pieces gives back the pieces. */
  lemma {:induction false} SplitJoinLines(ps: seq<string>)
    requires |ps| >= 1
    requires forall k | 0 <= k < |ps| :: '\n' !in ps[k]
    ensures SplitLines(JoinLines(ps)) == ps
    decreases |JoinLines(ps)|, |ps|
  {
    var p := ps[0];
    if p == [] {
      if |ps| > 1 {
        var tail := JoinLines(ps[1..]);
        assert JoinLines(ps) == "\n" + tail;
        assert ("\n" + tail)[1..] == tail;
        SplitJoinLines(ps[1..]);
        assert ps == [[]] + ps[1..];
      }
    } else {
      var q := [p[1..]] + ps[1..];
      assert p == [p[0]] + p[1..];
      assert p[0] != '\n' by { assert p[0] in p; }
      assert JoinLines(ps) == [p[0]] + JoinLines(q) by {
        if |ps| > 1 { assert q[1..] == ps[1..]; }
        assert p == [p[0]] + p[1..];
      }
      assert ([p[0]] + JoinLines(q))[1..] == JoinLines(q);
      SplitJoinLines(q);
      assert ps == [[p[0]] + q[0]] + q[1..];
    }
  }

  lemma {:induction false} JoinLinesAppend(xs: seq<string>, ys: seq<string>)
    requires |xs| >= 1 && |ys| >= 1
    ensures JoinLines(xs + ys) == JoinLines(xs) + "\n" + JoinLines(ys)
    decreases |xs|
  {
    if |xs| == 1 {
      assert (xs + ys)[1..] == ys;
    } else {
      assert (xs + ys)[1..] == xs[1..] + ys;
      JoinLinesAppend(xs[1..], ys);
    }
  }

  /** A newline splits the text into the pieces of what comes before and after it. */
  lemma SplitLinesAtNewline(a: string, b: string)
    ensures SplitLines(a + "\n" + b) == SplitLines(a) + SplitLines(b)
  {
    var xs, ys := SplitLines(a), SplitLines(b);
    JoinSplitLines(a);
    JoinSplitLines(b);
    JoinLinesAppend(xs, ys);
    SplitJoinLines(xs + ys);
  }

  predicate StartsWith(s: string, pat: string) {
    |pat| <= |s| && s[..|pat|] == pat
  }

  /** `pat` occurs in `s` starting at index `i`. */
  predicate OccursAt(s: string, pat: string, i: int) {
    0 <= i <= |s| - |pat| && s[i..i + |pat|] == pat
  }

  /** Python's `pat in s`. */
  function Contains(s: string, pat: string): (b: bool)
    ensures b <==> exists i :: OccursAt(s, pat, i)
  {
    if StartsWith(s, pat) then
      assert OccursAt(s, pat, 0);
      true
    else if s == [] then
      assert forall i :: !OccursAt(s, pat, i);
      false
    else
      var b := Contains(s[1..], pat);
      assert b ==> OccursAt(s, pat, ShiftedOccurrence(s, pat));
      assert forall i | OccursAt(s, pat, i) :: OccursAt(s[1..], pat, i - 1);
      b
  }

  /** When `pat` occurs in the tail of `s`, where it occurs in `s`. */
  ghost function ShiftedOccurrence(s: string, pat: string): (i: int)
    requires s != [] && exists j :: OccursAt(s[1..], pat, j)
    ensures OccursAt(s, pat, i)
  {
    var j :| OccursAt(s[1..], pat, j);
    assert s[j + 1..j + 1 + |pat|] == s[1..][j..j + |pat|];
    j + 1
  }
}
