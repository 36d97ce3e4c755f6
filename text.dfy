/** Character classes and the string operations of Python's `str` that the
    score recovery in app.py relies on: `strip()`, `lower()`, `in` on
    strings and `split('\n')`. */
module Text {

  /** Python's whitespace class: the characters for which `str.isspace()`
      holds, which is also what `\s` matches in a `str` regular expression
      and what `str.strip()` removes. */
  const WHITESPACE: set<char> := {
    '\t', '\n', '\U{B}', '\U{C}', '\r', '\U{1C}', '\U{1D}', '\U{1E}',
    '\U{1F}', ' ', '\U{85}', '\U{A0}', '\U{1680}', '\U{2000}', '\U{2001}', '\U{2002}',
    '\U{2003}', '\U{2004}', '\U{2005}', '\U{2006}', '\U{2007}', '\U{2008}', '\U{2009}', '\U{200A}',
    '\U{2028}', '\U{2029}', '\U{202F}', '\U{205F}', '\U{3000}'
  }

  predicate IsSpace(c: char) {
    c in WHITESPACE
  }

  /** Every character of `s` is whitespace (also true of the empty string). */
  predicate IsBlank(s: string) {
    forall k :: 0 <= k < |s| ==> IsSpace(s[k])
  }

  /** Number of whitespace characters at the front of `s`. */
  function LeadingSpaces(s: string): (n: nat)
    ensures n <= |s|
    ensures IsBlank(s[..n])
    ensures n < |s| ==> !IsSpace(s[n])
  {
    if |s| > 0 && IsSpace(s[0]) then
      assert s[..1 + LeadingSpaces(s[1..])] == [s[0]] + s[1..][..LeadingSpaces(s[1..])];
      1 + LeadingSpaces(s[1..])
    else 0
  }

  /** Number of whitespace characters at the back of `s`. */
  function TrailingSpaces(s: string): (n: nat)
    ensures n <= |s|
    ensures IsBlank(s[|s| - n..])
    ensures n < |s| ==> !IsSpace(s[|s| - 1 - n])
  {
    if |s| > 0 && IsSpace(s[|s| - 1]) then
      var init := s[..|s| - 1];
      var m := TrailingSpaces(init);
      assert s[|s| - (1 + m)..] == init[|init| - m..] + [s[|s| - 1]];
      assert 1 + m < |s| ==> s[|s| - 1 - (1 + m)] == init[|init| - 1 - m];
      1 + m
    else 0
  }

  /** `s.strip()`: `s` without its leading and trailing whitespace. The
      result is the slice of `s` that starts at `LeadingSpaces(s)`, only
      whitespace was cut off on either side, and the result neither starts
      nor ends with whitespace. */
  function Strip(s: string): (r: string)
    ensures |r| <= |s|
    ensures LeadingSpaces(s) + |r| <= |s|
    ensures r == s[LeadingSpaces(s)..LeadingSpaces(s) + |r|]
    ensures IsBlank(s[..LeadingSpaces(s)]) && IsBlank(s[LeadingSpaces(s) + |r|..])
    ensures r != [] ==> !IsSpace(r[0]) && !IsSpace(r[|r| - 1])
  {
    var n := LeadingSpaces(s);
    var front := s[n..];
    var m := TrailingSpaces(front);
    var r := front[..|front| - m];
    assert s[n + |r|..] == front[|front| - m..];
    assert r != [] ==> r[0] == s[n] && r[|r| - 1] == front[|front| - 1 - m];
    r
  }

  /** `s.strip()` is empty exactly when every character of `s` is
      whitespace. */
  lemma StripEmptyIffBlank(s: string)
    ensures Strip(s) == [] <==> IsBlank(s)
  {
    var n := LeadingSpaces(s);
    var r := Strip(s);
    if r == [] {
      forall k | 0 <= k < |s| ensures IsSpace(s[k]) {
        assert s[k] == s[..n][k];
      }
    } else {
      assert r[0] == s[n];
    }
  }

  /** Stripping twice is stripping once. */
  lemma {:induction false} StripIdempotent(s: string)
    ensures Strip(Strip(s)) == Strip(s)
  {
    var r := Strip(s);
    if r != [] {
      assert LeadingSpaces(r) == 0;
      assert TrailingSpaces(r[0..]) == 0 by { assert r[0..] == r; }
      assert r[0..][..|r|] == r;
    }
  }

  /** `c.lower()` restricted to ASCII letters; every other character is
      kept as it is. */
  function AsciiLower(c: char): (l: char)
    ensures 'A' <= c <= 'Z' ==> 'a' <= l <= 'z' && l as int - c as int == 32
    ensures !('A' <= c <= 'Z') ==> l == c
  {
    if 'A' <= c <= 'Z' then (c as int + 32) as char else c
  }

  /** `s.lower()` through `AsciiLower`, character by character. */
  function Lower(s: string): (r: string)
    ensures |r| == |s|
    ensures forall k :: 0 <= k < |s| ==> r[k] == AsciiLower(s[k])
  {
    if s == [] then [] else [AsciiLower(s[0])] + Lower(s[1..])
  }

  /** Lowering distributes over concatenation. */
  lemma LowerAppend(a: string, b: string)
    ensures Lower(a + b) == Lower(a) + Lower(b)
  {
  }

  /** Case-insensitive equality of a subject character `c` with a pattern
      character `p`, as Python's `re.IGNORECASE` decides it for a literal
      of a `str` pattern: an ASCII letter matches itself in either case,
      'I' also matches U+0130 and U+0131, 'S' also U+017F and 'K' also
      U+212A; any other pattern character matches only itself. */
  predicate MatchesIgnoringCase(c: char, p: char) {
    if 'A' <= p <= 'Z' || 'a' <= p <= 'z' then
      || AsciiLower(c) == AsciiLower(p)
      || (AsciiLower(p) == 'i' && (c == '\U{130}' || c == '\U{131}'))
      || (AsciiLower(p) == 's' && c == '\U{17F}')
      || (AsciiLower(p) == 'k' && c == '\U{212A}')
    else c == p
  }

  /** `w in s` for strings: `w` occurs in `s` at some position. */
  predicate Contains(s: string, w: string) {
    exists i | 0 <= i <= |s| - |w| :: OccursAt(s, w, i)
  }

  /** `w` occurs in `s` starting at index `i`. */
  predicate OccursAt(s: string, w: string, i: int) {
    0 <= i <= |s| - |w| && s[i..i + |w|] == w
  }

  /** `s` equals the pattern literal `w` under `re.IGNORECASE`, character
      by character. */
  predicate EqualsIgnoringCase(s: string, w: string) {
    |s| == |w| && (|s| == 0 || (MatchesIgnoringCase(s[0], w[0]) && EqualsIgnoringCase(s[1..], w[1..])))
  }

  /** Each character of `s` matches the pattern character at its position. */
  lemma {:induction false} EqualsIgnoringCaseAt(s: string, w: string, k: int)
    requires EqualsIgnoringCase(s, w) && 0 <= k < |w|
    ensures MatchesIgnoringCase(s[k], w[k])
  {
    if k > 0 {
      EqualsIgnoringCaseAt(s[1..], w[1..], k - 1);
    }
  }

  /** Every string equals itself ignoring case. */
  lemma {:induction false} EqualsIgnoringCaseRefl(w: string)
    ensures EqualsIgnoringCase(w, w)
  {
    if w != [] {
      EqualsIgnoringCaseRefl(w[1..]);
    }
  }

  /** Re-inserts the separators that `Split` removes: `'\n'.join(lines)`. */
  function JoinLines(lines: seq<string>): string
    requires |lines| >= 1
  {
    if |lines| == 1 then lines[0] else lines[0] + "\n" + JoinLines(lines[1..])
  }

  /** `s.split('\n')`: the pieces of `s` between newline characters. There
      is always at least one piece (the empty string gives `[""]`), no
      piece contains a newline, and joining the pieces with newlines gives
      `s` back. */
  function SplitLines(s: string): (lines: seq<string>)
    ensures |lines| >= 1
    ensures forall k :: 0 <= k < |lines| ==> '\n' !in lines[k]
    ensures JoinLines(lines) == s
  {
    if |s| == 0 then [""]
    else
      var rest := SplitLines(s[1..]);
      if s[0] == '\n' then
        var lines := [""] + rest;
        assert lines[1..] == rest;
        assert s == "\n" + s[1..];
        lines
      else
        var head := [s[0]] + rest[0];
        var lines := [head] + rest[1..];
        assert lines[1..] == rest[1..];
        assert JoinLines(lines) == [s[0]] + JoinLines(rest) by {
          if |rest| > 1 {
            assert JoinLines(lines) == head + "\n" + JoinLines(rest[1..]);
          }
        }
        assert s == [s[0]] + s[1..];
        lines
  }

  /** `Strip` removes exactly the blank padding around a core that starts
      and ends with non-whitespace. */
  lemma StripPadded(pre: string, core: string, post: string)
    requires IsBlank(pre) && IsBlank(post)
    requires core != [] && !IsSpace(core[0]) && !IsSpace(core[|core| - 1])
    ensures Strip(pre + core + post) == core
  {
    var s := pre + core + post;
    LeadingPadding(pre, core + post);
    assert s == pre + (core + post) && s[|pre|..] == core + post;
    TrailingPadding(core, post);
    assert (core + post)[..|core|] == core;
  }

  /** The leading whitespace of `pre + rest` is exactly `pre` when `rest`
      starts with non-whitespace. */
  lemma {:induction false} LeadingPadding(pre: string, rest: string)
    requires IsBlank(pre) && rest != [] && !IsSpace(rest[0])
    ensures LeadingSpaces(pre + rest) == |pre|
  {
    if pre != [] {
      assert (pre + rest)[0] == pre[0];
      assert (pre + rest)[1..] == pre[1..] + rest;
      LeadingPadding(pre[1..], rest);
    } else {
      assert pre + rest == rest;
    }
  }

  /** The trailing whitespace of `rest + post` is exactly `post` when
      `rest` ends with non-whitespace. */
  lemma {:induction false} TrailingPadding(rest: string, post: string)
    requires IsBlank(post) && rest != [] && !IsSpace(rest[|rest| - 1])
    ensures TrailingSpaces(rest + post) == |post|
  {
    var s := rest + post;
    if post != [] {
      var shorter := post[..|post| - 1];
      assert s[|s| - 1] == post[|post| - 1];
      assert s[..|s| - 1] == rest + shorter;
      TrailingPadding(rest, shorter);
    } else {
      assert s == rest;
    }
  }

  /** A string that neither starts nor ends with whitespace is its own
      strip. */
  lemma StrippedAlready(s: string)
    requires s != [] && !IsSpace(s[0]) && !IsSpace(s[|s| - 1])
    ensures Strip(s) == s
  {
    StripPadded("", s, "");
    assert "" + s + "" == s;
  }

  /** Stripping keeps every character from the first one up to a
      non-whitespace character at `k`, when the string starts with
      non-whitespace. */
  lemma StripKeepsPrefix(s: string, k: int)
    requires 0 <= k < |s| && !IsSpace(s[0]) && !IsSpace(s[k])
    ensures |Strip(s)| > k && Strip(s)[..k + 1] == s[..k + 1]
  {
    var r := Strip(s);
    assert LeadingSpaces(s) == 0;
  }

  /** A string without newlines is a single line. */
  lemma {:induction false} SplitSingleLine(s: string)
    requires '\n' !in s
    ensures SplitLines(s) == [s]
  {
    if s != [] {
      assert s[0] in s;
      SplitSingleLine(s[1..]);
      assert [s[0]] + s[1..] == s;
    }
  }

  /** Splitting at the first newline: the text before it is the first
      line, and the rest is split on its own. */
  lemma {:induction false} SplitFirstLine(a: string, b: string)
    requires '\n' !in a
    ensures SplitLines(a + "\n" + b) == [a] + SplitLines(b)
  {
    var s := a + "\n" + b;
    if a == [] {
      assert s[0] == '\n' && s[1..] == b;
    } else {
      assert s[0] == a[0] && s[0] != '\n';
      assert s[1..] == a[1..] + "\n" + b;
      SplitFirstLine(a[1..], b);
      var rest := SplitLines(s[1..]);
      assert rest == [a[1..]] + SplitLines(b);
      assert SplitLines(s) == [[s[0]] + rest[0]] + rest[1..];
      assert [a[0]] + a[1..] == a;
    }
  }
}
