/**
 * The parts of Python's `str` type that the scripts rely on: prefix and
 * suffix tests, `in`, `replace`, `split('/')[-1]`, `splitlines()`, `split()`
 * with no argument, and the `<` order on strings.
 */
module Strings {

  /** `s.startswith(p)` */
  predicate StartsWith(s: string, p: string) {
    |p| <= |s| && s[..|p|] == p
  }

  /** `s.endswith(p)` */
  predicate EndsWith(s: string, p: string) {
    |p| <= |s| && s[|s| - |p|..] == p
  }

  /** `p in s`: `p` is a contiguous piece of `s`. */
  predicate Contains(s: string, p: string)
    decreases |s|
  {
    StartsWith(s, p) || (s != [] && Contains(s[1..], p))
  }

  /** `p` starts at position `i` of `s`. */
  predicate OccursAt(s: string, p: string, i: int) {
    0 <= i <= |s| - |p| && s[i..i + |p|] == p
  }

  /** `Contains` holds exactly when `p` starts at some position of `s`. */
  lemma {:induction false} ContainsAt(s: string, p: string)
    ensures Contains(s, p) <==> exists i :: OccursAt(s, p, i)
  {
    if Contains(s, p) {
      if StartsWith(s, p) {
        assert OccursAt(s, p, 0);
      } else {
        ContainsAt(s[1..], p);
        var i :| OccursAt(s[1..], p, i);
        assert s[i + 1..i + 1 + |p|] == s[1..][i..i + |p|];
        assert OccursAt(s, p, i + 1);
      }
    }
    if exists i :: OccursAt(s, p, i) {
      var i :| OccursAt(s, p, i);
      if i > 0 {
        assert s[1..][i - 1..i - 1 + |p|] == s[i..i + |p|];
        assert OccursAt(s[1..], p, i - 1);
        ContainsAt(s[1..], p);
      }
    }
  }

  /** A string contains every one of its suffixes. */
  lemma ContainsSuffix(u: string, p: string)
    ensures Contains(u + p, p)
  {
    ContainsAt(u + p, p);
    assert (u + p)[|u|..|u| + |p|] == p;
    assert OccursAt(u + p, p, |u|);
  }

  /** A prefix without the first character of `p` cannot hold an occurrence of `p`. */
  lemma {:induction false} ContainsSkipsPrefix(u: string, x: string, p: string)
    requires p != [] && p[0] !in u
    ensures Contains(u + x, p) <==> Contains(x, p)
  {
    if u == [] {
      assert u + x == x;
    } else {
      assert (u + x)[1..] == u[1..] + x;
      assert (u + x)[0] == u[0];
      ContainsSkipsPrefix(u[1..], x, p);
    }
  }

  /**
   * `s.replace(pat, by)`: every occurrence of `pat`, found scanning left to
   * right without overlap, is replaced; the replacement is not scanned again.
   */
  function Replace(s: string, pat: string, with: string): (r: string)
    requires pat != []
    ensures forall c :: c in r ==> c in s || c in with
    ensures with == [] ==> |r| <= |s|
    decreases |s|
  {
    if s == [] then []
    else if StartsWith(s, pat) then with + Replace(s[|pat|..], pat, with)
    else [s[0]] + Replace(s[1..], pat, with)
  }

  /** Replacing a pattern that does not occur changes nothing. */
  lemma {:induction false} ReplaceAbsent(s: string, pat: string, with: string)
    requires pat != [] && !Contains(s, pat)
    ensures Replace(s, pat, with) == s
  {
    if s != [] {
      ReplaceAbsent(s[1..], pat, with);
    }
  }

  /** No proper suffix of `pat` is also a prefix of it (`.git` and `{/id}` are such). */
  predicate Unbordered(pat: string) {
    forall k :: 0 < k < |pat| ==> pat[k..] != pat[..|pat| - k]
  }

  /**
   * Removing every occurrence of an unbordered pattern from `x + pat`, where
   * `x` does not contain it, strips exactly the trailing copy.
   */
  lemma {:induction false} RemoveTrailing(x: string, pat: string)
    requires pat != [] && Unbordered(pat) && !Contains(x, pat)
    ensures Replace(x + pat, pat, "") == x
  {
    var s := x + pat;
    if x == [] {
      assert s == pat && StartsWith(s, pat);
      assert s[|pat|..] == [];
    } else {
      assert !StartsWith(s, pat) by {
        if |x| >= |pat| {
          assert s[..|pat|] == x[..|pat|];
        } else {
          var k := |x|;
          assert s[k..|pat|] == pat[..|pat| - k];
          assert pat[k..] != pat[..|pat| - k];
        }
      }
      assert s[1..] == x[1..] + pat;
      RemoveTrailing(x[1..], pat);
    }
  }

  /** Replacing a character that does not occur changes nothing. */
  lemma {:induction false} ReplaceCharAbsent(s: string, c: char, with: string)
    requires c !in s
    ensures Replace(s, [c], with) == s
  {
    if s != [] {
      assert c !in s[1..];
      ReplaceCharAbsent(s[1..], c, with);
    }
  }

  /** On a single character, replacing a one-character pattern either substitutes it or keeps it. */
  lemma ReplaceOneChar(x: char, c: char, with: string)
    ensures Replace([x], [c], with) == if x == c then with else [x]
  {
    assert [x][1..] == [];
  }

  /** Replacing a character by text without it leaves no occurrence of it. */
  lemma {:induction false} ReplaceRemovesChar(s: string, c: char, with: string)
    requires c !in with
    ensures c !in Replace(s, [c], with)
  {
    if s != [] {
      ReplaceRemovesChar(s[1..], c, with);
    }
  }

  /** With a one-character pattern, replacing distributes over concatenation. */
  lemma {:induction false} ReplaceCharConcat(a: string, b: string, c: char, with: string)
    ensures Replace(a + b, [c], with) == Replace(a, [c], with) + Replace(b, [c], with)
  {
    if a == [] {
      assert a + b == b;
    } else {
      assert (a + b)[1..] == a[1..] + b;
      assert (a + b)[0] == a[0];
      ReplaceCharConcat(a[1..], b, c, with);
    }
  }

  /**
   * `s.split(sep)[-1]`: the longest suffix of `s` free of `sep`; it is all
   * of `s` or starts right after a `sep`.
   */
  function LastSegment(s: string, sep: char): (r: string)
    ensures sep !in r
    ensures EndsWith(s, r)
    ensures |r| == |s| || s[|s| - |r| - 1] == sep
  {
    if s == [] then []
    else if s[|s| - 1] == sep then []
    else
      var init := s[..|s| - 1];
      var r0 := LastSegment(init, sep);
      var r := r0 + [s[|s| - 1]];
      assert s == init + [s[|s| - 1]];
      assert s[|s| - |r|..] == init[|init| - |r0|..] + [s[|s| - 1]];
      assert |r| < |s| ==> s[|s| - |r| - 1] == init[|init| - |r0| - 1];
      r
  }

  /** The line boundaries of Python's `str.splitlines()`. */
  predicate IsLineBoundary(c: char) {
    c == '\n' || c == '\r' || c == '\U{0b}' || c == '\U{0c}' || c == '\U{1c}' || c == '\U{1d}'
    || c == '\U{1e}' || c == '\U{85}' || c == '\U{2028}' || c == '\U{2029}'
  }

  /** The whitespace of Python's `str.isspace()`, the separators of `str.split()`. */
  predicate IsSpace(c: char) {
    IsLineBoundary(c) || c == ' ' || c == '\t' || c == '\U{1f}' || c == '\U{a0}' || c == '\U{1680}'
    || ('\U{2000}' <= c <= '\U{200a}') || c == '\U{202f}' || c == '\U{205f}' || c == '\U{3000}'
  }

  predicate NoLineBoundary(s: string) {
    forall j :: 0 <= j < |s| ==> !IsLineBoundary(s[j])
  }

  predicate NoSpace(s: string) {
    forall j :: 0 <= j < |s| ==> !IsSpace(s[j])
  }

  /** Index of the first line boundary of `s`, or `|s|`. */
  function LineEnd(s: string): (i: nat)
    ensures i <= |s| && NoLineBoundary(s[..i])
    ensures i < |s| ==> IsLineBoundary(s[i])
  {
    if s == [] || IsLineBoundary(s[0]) then 0
    else
      var i := 1 + LineEnd(s[1..]);
      assert s[..i] == [s[0]] + s[1..][..i - 1];
      i
  }

  /** `LineEnd` finds the first line boundary. */
  lemma {:induction false} LineEndAt(s: string, k: nat)
    requires k < |s| && NoLineBoundary(s[..k]) && IsLineBoundary(s[k])
    ensures LineEnd(s) == k
  {
    if k > 0 {
      assert s[..k][0] == s[0];
      assert s[1..][..k - 1] == s[..k][1..];
      LineEndAt(s[1..], k - 1);
    }
  }

  /**
   * `s.splitlines()`: the lines of `s` without their boundaries; `\r\n` is one
   * boundary, and a boundary at the very end opens no further line.
   */
  function SplitLines(s: string): (lines: seq<string>)
    ensures forall k :: 0 <= k < |lines| ==> NoLineBoundary(lines[k])
    ensures s == [] <==> lines == []
    decreases |s|
  {
    if s == [] then []
    else
      var i := LineEnd(s);
      if i == |s| then [s]
      else
        var next := if s[i] == '\r' && i + 1 < |s| && s[i + 1] == '\n' then i + 2 else i + 1;
        [s[..i]] + SplitLines(s[next..])
  }

  /** The text of `lines`, each line ended by `\n`. */
  function JoinLines(lines: seq<string>): string {
    if lines == [] then [] else lines[0] + "\n" + JoinLines(lines[1..])
  }

  /** `splitlines()` takes apart what `JoinLines` puts together. */
  lemma {:induction false} SplitJoinLines(lines: seq<string>)
    requires forall k :: 0 <= k < |lines| ==> NoLineBoundary(lines[k])
    ensures SplitLines(JoinLines(lines)) == lines
  {
    if lines != [] {
      var l, rest := lines[0], JoinLines(lines[1..]);
      var s := l + "\n" + rest;
      assert s[|l|] == '\n';
      assert s[..|l|] == l;
      LineEndAt(s, |l|);
      assert s[|l| + 1..] == rest;
      SplitJoinLines(lines[1..]);
    }
  }

  /** Index of the first whitespace of `s`, or `|s|`. */
  function WordEnd(s: string): (i: nat)
    ensures i <= |s| && NoSpace(s[..i])
    ensures i < |s| ==> IsSpace(s[i])
  {
    if s == [] || IsSpace(s[0]) then 0
    else
      var i := 1 + WordEnd(s[1..]);
      assert s[..i] == [s[0]] + s[1..][..i - 1];
      i
  }

  /** `WordEnd` finds the first whitespace. */
  lemma {:induction false} WordEndAt(s: string, k: nat)
    requires k < |s| && NoSpace(s[..k]) && IsSpace(s[k])
    ensures WordEnd(s) == k
  {
    if k > 0 {
      assert s[..k][0] == s[0];
      assert s[1..][..k - 1] == s[..k][1..];
      WordEndAt(s[1..], k - 1);
    }
  }

  /** `s.split()`: the maximal runs of non-whitespace, in order; never an empty field. */
  function Words(s: string): (ws: seq<string>)
    ensures forall k :: 0 <= k < |ws| ==> ws[k] != [] && NoSpace(ws[k])
    decreases |s|
  {
    if s == [] then []
    else if IsSpace(s[0]) then Words(s[1..])
    else
      var n := WordEnd(s);
      [s[..n]] + Words(s[n..])
  }

  /** The fields `ws`, each followed by one space. */
  function Unwords(ws: seq<string>): string {
    if ws == [] then [] else ws[0] + " " + Unwords(ws[1..])
  }

  /** `split()` gives back the fields a line was written from. */
  lemma {:induction false} WordsUnwords(ws: seq<string>)
    requires forall k :: 0 <= k < |ws| ==> ws[k] != [] && NoSpace(ws[k])
    ensures Words(Unwords(ws)) == ws
  {
    if ws != [] {
      var w, rest := ws[0], Unwords(ws[1..]);
      var s := w + " " + rest;
      assert s[|w|] == ' ';
      assert s[..|w|] == w;
      assert s[0] == w[0];
      WordEndAt(s, |w|);
      assert s[|w|..] == [' '] + rest;
      assert (s[|w|..])[1..] == rest;
      WordsUnwords(ws[1..]);
    }
  }

  /** Python's `a < b` on `str`: lexicographic by code point, a proper prefix first. */
  predicate Less(a: string, b: string)
    decreases |a|
  {
    if a == [] then b != []
    else if b == [] then false
    else a[0] < b[0] || (a[0] == b[0] && Less(a[1..], b[1..]))
  }

  lemma {:induction false} LessIrreflexive(a: string)
    ensures !Less(a, a)
  {
    if a != [] {
      LessIrreflexive(a[1..]);
    }
  }

  lemma {:induction false} LessTransitive(a: string, b: string, c: string)
    requires Less(a, b) && Less(b, c)
    ensures Less(a, c)
  {
    if a != [] && a[0] == b[0] && b[0] == c[0] {
      LessTransitive(a[1..], b[1..], c[1..]);
    }
  }

  lemma {:induction false} LessTotal(a: string, b: string)
    ensures a == b || Less(a, b) || Less(b, a)
  {
    if a != [] && b != [] && a[0] == b[0] {
      LessTotal(a[1..], b[1..]);
      assert a == [a[0]] + a[1..] && b == [b[0]] + b[1..];
    }
  }
}
