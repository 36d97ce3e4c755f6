/** The score recovery of `match_invoice` (app.py:89-107): the model's reply
    is stripped, a score 0-4 is looked for after a "FINAL SCORE:" header,
    then on the last line that mentions a score, and otherwise defaults
    to 0. The reply text itself is a parameter: the call to the language
    model that produces it is not part of this model. */
module ScoreExtraction {
  import opened Text

  datatype Option<T> = None | Some(value: T)

  /** What `match_invoice` returns: the recovered score and the report. */
  datatype Outcome = Outcome(score: int, report: string)

  /** The literal that the primary pattern looks for, case-insensitively. */
  const HEADER: string := "FINAL SCORE:"

  /** The characters of the class `[0-4]`. */
  predicate IsScoreDigit(c: char) {
    '0' <= c <= '4'
  }

  /** `int(c)` for a score digit. */
  function DigitValue(c: char): (v: int)
    requires IsScoreDigit(c)
    ensures 0 <= v <= 4
    ensures c as int == '0' as int + v
  {
    c as int - '0' as int
  }

  // ---------------------------------------------------------------------
  // Primary rule: re.search(r"FINAL SCORE:\s*([0-4])", text, re.IGNORECASE)
  // ---------------------------------------------------------------------

  /** The header occurs, ignoring case, at index `i` of `t`. */
  predicate HeaderAt(t: string, i: int) {
    0 <= i && i + |HEADER| <= |t| && EqualsIgnoringCase(t[i..i + |HEADER|], HEADER)
  }

  /** The pattern matches at `i` with its digit at `k`, in the sense of
      regular expressions: the header at `i`, then any run of whitespace
      (possibly empty, possibly across newlines) up to `k`, then a digit
      0-4 at `k`. */
  ghost predicate PatternMatch(t: string, i: int, k: int) {
    HeaderAt(t, i) && i + |HEADER| <= k < |t|
    && (forall m :: i + |HEADER| <= m < k ==> IsSpace(t[m]))
    && IsScoreDigit(t[k])
  }

  /** The index of the first non-whitespace character at or after `j`
      (or `|t|`): where the greedy `\s*` stops. */
  function SkipSpaces(t: string, j: nat): (k: nat)
    requires j <= |t|
    ensures j <= k <= |t|
    ensures forall m :: j <= m < k ==> IsSpace(t[m])
    ensures k < |t| ==> !IsSpace(t[k])
    decreases |t| - j
  {
    if j < |t| && IsSpace(t[j]) then SkipSpaces(t, j + 1) else j
  }

  /** The pattern matches at `i` when the greedy whitespace run that
      follows the header ends on a digit 0-4. */
  predicate MatchAt(t: string, i: int) {
    HeaderAt(t, i)
    && var k := SkipSpaces(t, i + |HEADER|);
    k < |t| && IsScoreDigit(t[k])
  }

  /** The greedy scan decides the pattern: the pattern matches at `i` with
      its digit at some `k` exactly when `MatchAt(t, i)`, and then `k` is
      the greedy stop. Backtracking into `\s*` can never find another
      digit, because no digit is whitespace. */
  lemma MatchAtIsPatternMatch(t: string, i: int, k: int)
    requires HeaderAt(t, i)
    ensures PatternMatch(t, i, k) ==> MatchAt(t, i) && k == SkipSpaces(t, i + |HEADER|)
    ensures MatchAt(t, i) ==> PatternMatch(t, i, SkipSpaces(t, i + |HEADER|))
  {
  }

  /** The leftmost index at or after `from` where the pattern matches, as
      `re.search` scans start positions from left to right. */
  function FindPrimary(t: string, from: nat): (r: Option<nat>)
    ensures r.Some? ==> from <= r.value < |t| && MatchAt(t, r.value)
    ensures r.Some? ==> forall j :: from <= j < r.value ==> !MatchAt(t, j)
    ensures r.None? ==> forall j :: from <= j ==> !MatchAt(t, j)
    decreases |t| - from
  {
    if |t| <= from + |HEADER| then None
    else if MatchAt(t, from) then Some(from)
    else FindPrimary(t, from + 1)
  }

  /** The score captured by the primary pattern, if it matches anywhere. */
  function PrimaryScore(t: string): (r: Option<int>)
    ensures r.Some? <==> exists i :: MatchAt(t, i)
  {
    match FindPrimary(t, 0)
    case Some(i) => Some(DigitValue(t[SkipSpaces(t, i + |HEADER|)]))
    case None => None
  }

  // ---------------------------------------------------------------------
  // Fallback: the last line that mentions a score and holds a digit 0-4
  // ---------------------------------------------------------------------

  /** `any(keyword in line.lower() for keyword in ['score', 'final', 'result'])` */
  predicate HasKeyword(line: string) {
    var lower := Lower(line);
    Contains(lower, "score") || Contains(lower, "final") || Contains(lower, "result")
  }

  /** `re.search(r"[0-4]", line)`: the first index at or after `from` that
      holds a digit 0-4. */
  function FirstScoreDigit(line: string, from: nat): (r: Option<nat>)
    ensures r.Some? ==> from <= r.value < |line| && IsScoreDigit(line[r.value])
    ensures r.Some? ==> forall j :: from <= j < r.value ==> !IsScoreDigit(line[j])
    ensures r.None? ==> forall j :: from <= j < |line| ==> !IsScoreDigit(line[j])
    decreases |line| - from
  {
    if |line| <= from then None
    else if IsScoreDigit(line[from]) then Some(from)
    else FirstScoreDigit(line, from + 1)
  }

  /** A line the fallback takes its score from: it mentions a keyword and
      holds some digit 0-4. */
  predicate Qualifies(line: string) {
    HasKeyword(line) && exists k :: 0 <= k < |line| && IsScoreDigit(line[k])
  }

  /** The score a qualifying line yields: its first digit 0-4. */
  function LineScore(line: string): (v: int)
    requires Qualifies(line)
    ensures 0 <= v <= 4
    ensures exists k :: 0 <= k < |line| && IsScoreDigit(line[k]) && v == DigitValue(line[k]) &&
              forall j :: 0 <= j < k ==> !IsScoreDigit(line[j])
  {
    var k := FirstScoreDigit(line, 0).value;
    DigitValue(line[k])
  }

  /** The index of the last qualifying line among the first `n` lines. */
  function LastQualifying(lines: seq<string>, n: nat): (r: Option<nat>)
    requires n <= |lines|
    ensures r.Some? ==> r.value < n && Qualifies(lines[r.value])
    ensures r.Some? ==> forall j :: r.value < j < n ==> !Qualifies(lines[j])
    ensures r.None? ==> forall j :: 0 <= j < n ==> !Qualifies(lines[j])
  {
    if n == 0 then None
    else if Qualifies(lines[n - 1]) then Some(n - 1)
    else LastQualifying(lines, n - 1)
  }

  /** The fallback's result, including the `for ... else` default of 0. */
  function FallbackScore(lines: seq<string>): (v: int)
    ensures 0 <= v <= 4
  {
    match LastQualifying(lines, |lines|)
    case Some(k) => LineScore(lines[k])
    case None => 0
  }

  /** The loop of app.py:98-105: walk the lines from last to first, and
      stop at the first one (the last in the text) that has a keyword and
      a digit 0-4, taking its first such digit; a line with a keyword but
      no such digit is passed over. Without a `break`, the score is 0. */
  method FallbackScan(lines: seq<string>) returns (score: int)
    ensures score == FallbackScore(lines)
    ensures 0 <= score <= 4
  {
    var i := |lines|;
    while i > 0
      invariant 0 <= i <= |lines|
      invariant forall j :: i <= j < |lines| ==> !Qualifies(lines[j])
    {
      i := i - 1;
      var line := lines[i];
      if HasKeyword(line) {
        var digit := FirstScoreDigit(line, 0);
        if digit.Some? {
          score := DigitValue(line[digit.value]);
          return;
        }
      }
    }
    score := 0;
  }

  // ---------------------------------------------------------------------
  // The whole recovery step
  // ---------------------------------------------------------------------

  /** What `match_invoice` returns for a model reply `reply`. */
  function ExtractScore(reply: string): (r: Outcome)
    ensures r.report == Strip(reply)
    ensures 0 <= r.score <= 4
  {
    var text := Strip(reply);
    match PrimaryScore(text)
    case Some(v) => Outcome(v, text)
    case None => Outcome(FallbackScore(SplitLines(text)), text)
  }

  /** app.py:89-107, given the text of the model's reply. */
  method MatchInvoice(reply: string) returns (score: int, text: string)
    ensures Outcome(score, text) == ExtractScore(reply)
    ensures text == Strip(reply) && 0 <= score <= 4
  {
    text := Strip(reply);
    var found := FindPrimary(text, 0);
    if found.Some? {
      score := DigitValue(text[SkipSpaces(text, found.value + |HEADER|)]);
    } else {
      var lines := SplitLines(text);
      score := FallbackScan(lines);
    }
  }

  // ---------------------------------------------------------------------
  // Properties of the recovery step
  // ---------------------------------------------------------------------

  /** The primary rule: when the pattern matches in the stripped reply,
      the score is the digit of the leftmost match. */
  lemma PrimaryRule(reply: string, i: int, k: int)
    requires PatternMatch(Strip(reply), i, k)
    requires forall j, m :: 0 <= j < i ==> !PatternMatch(Strip(reply), j, m)
    ensures ExtractScore(reply).score == DigitValue(Strip(reply)[k])
  {
    var t := Strip(reply);
    MatchAtIsPatternMatch(t, i, k);
    var found := FindPrimary(t, 0);
    assert found.Some?;
    var first := found.value;
    MatchAtIsPatternMatch(t, first, SkipSpaces(t, first + |HEADER|));
    assert first == i;
  }

  /** The fallback rule: when the pattern matches nowhere, the score is
      the first digit 0-4 of the last line that has a keyword and such a
      digit; later lines with a keyword but no such digit do not count. */
  lemma FallbackRule(reply: string, n: int, d: int)
    requires forall i, k :: !PatternMatch(Strip(reply), i, k)
    requires 0 <= n < |SplitLines(Strip(reply))|
    requires HasKeyword(SplitLines(Strip(reply))[n])
    requires 0 <= d < |SplitLines(Strip(reply))[n]| && IsScoreDigit(SplitLines(Strip(reply))[n][d])
    requires forall e :: 0 <= e < d ==> !IsScoreDigit(SplitLines(Strip(reply))[n][e])
    requires forall j :: n < j < |SplitLines(Strip(reply))| ==> !Qualifies(SplitLines(Strip(reply))[j])
    ensures ExtractScore(reply).score == DigitValue(SplitLines(Strip(reply))[n][d])
  {
    var t := Strip(reply);
    NoPatternNoPrimary(t);
    var lines := SplitLines(t);
    assert Qualifies(lines[n]);
    var last := LastQualifying(lines, |lines|);
    assert last == Some(n);
    var v := LineScore(lines[n]);
    var k :| 0 <= k < |lines[n]| && IsScoreDigit(lines[n][k]) && v == DigitValue(lines[n][k]) &&
             forall j :: 0 <= j < k ==> !IsScoreDigit(lines[n][j]);
    assert k == d;
  }

  /** The default: when neither rule finds a digit, the score is 0 and the
      report is still the whole stripped reply. */
  lemma DefaultRule(reply: string)
    requires forall i, k :: !PatternMatch(Strip(reply), i, k)
    requires forall j :: 0 <= j < |SplitLines(Strip(reply))| ==> !Qualifies(SplitLines(Strip(reply))[j])
    ensures ExtractScore(reply) == Outcome(0, Strip(reply))
  {
    NoPatternNoPrimary(Strip(reply));
  }

  /** Where the pattern matches nowhere, the primary rule yields nothing. */
  lemma NoPatternNoPrimary(t: string)
    requires forall i, k :: !PatternMatch(t, i, k)
    ensures PrimaryScore(t) == None
  {
    if PrimaryScore(t).Some? {
      var i :| MatchAt(t, i);
      MatchAtIsPatternMatch(t, i, SkipSpaces(t, i + |HEADER|));
    }
  }

  /** The fallback runs only when the primary pattern is absent: once the
      pattern matches anywhere, the leftmost match (at or before that
      one) decides the score, whatever the lines say. */
  lemma PrimaryOverridesFallback(reply: string, i: int, k: int)
    requires PatternMatch(Strip(reply), i, k)
    ensures FindPrimary(Strip(reply), 0).Some? && FindPrimary(Strip(reply), 0).value <= i
    ensures var t := Strip(reply);
            ExtractScore(reply).score == DigitValue(t[SkipSpaces(t, FindPrimary(t, 0).value + |HEADER|)])
  {
    MatchAtIsPatternMatch(Strip(reply), i, k);
  }

  /** The pattern matches at the start of any text that begins with the
      header, a run of whitespace and a digit 0-4. */
  lemma PatternAtStart(t: string, head: string, gap: string, digit: char)
    requires EqualsIgnoringCase(head, HEADER)
    requires IsBlank(gap) && IsScoreDigit(digit)
    requires |head| + |gap| < |t| && t[..|head| + |gap| + 1] == head + gap + [digit]
    ensures PatternMatch(t, 0, |head| + |gap|)
  {
    var k := |head| + |gap|;
    PrefixParts(t, head, gap, digit);
    assert |head| == |HEADER|;
    assert HeaderAt(t, 0);
  }

  /** The pieces of a text that begins with `head + gap + [digit]`. */
  lemma PrefixParts(t: string, head: string, gap: string, digit: char)
    requires |head| + |gap| < |t| && t[..|head| + |gap| + 1] == head + gap + [digit]
    ensures t[0..|head|] == head && t[|head| + |gap|] == digit
    ensures forall m :: |head| <= m < |head| + |gap| ==> t[m] == gap[m - |head|]
  {
    var k := |head| + |gap|;
    assert t[0..|head|] == t[..k + 1][..|head|];
    forall m | |head| <= m < k ensures t[m] == gap[m - |head|] {
      assert t[m] == t[..k + 1][m];
    }
    assert t[k] == t[..k + 1][k];
  }

  /** A reply that opens with the header, in any letter case, then any
      whitespace (newlines included, in any number), then a digit 0-4,
      scores that digit, whatever follows it. */
  lemma HeaderThenDigit(head: string, gap: string, digit: char, rest: string)
    requires EqualsIgnoringCase(head, HEADER)
    requires IsBlank(gap) && IsScoreDigit(digit)
    ensures ExtractScore(head + gap + [digit] + rest).score == DigitValue(digit)
  {
    var reply := head + gap + [digit] + rest;
    var k := |head| + |gap|;
    StripKeepsOpening(head, gap, digit, rest);
    var t := Strip(reply);
    PatternAtStart(t, head, gap, digit);
    PrefixParts(t, head, gap, digit);
    PrimaryRule(reply, 0, k);
  }

  /** Stripping a reply that opens with the header keeps its opening up
      to the digit. */
  lemma StripKeepsOpening(head: string, gap: string, digit: char, rest: string)
    requires EqualsIgnoringCase(head, HEADER)
    requires IsScoreDigit(digit)
    ensures |head| + |gap| < |Strip(head + gap + [digit] + rest)|
    ensures Strip(head + gap + [digit] + rest)[..|head| + |gap| + 1] == head + gap + [digit]
  {
    var reply := head + gap + [digit] + rest;
    var k := |head| + |gap|;
    OpeningNotSpace(head);
    assert reply[0] == head[0] && reply[k] == digit;
    StripKeepsPrefix(reply, k);
    assert reply[..k + 1] == head + gap + [digit];
  }

  /** Text that matches the header starts with non-whitespace. */
  lemma OpeningNotSpace(head: string)
    requires EqualsIgnoringCase(head, HEADER)
    ensures head != [] && !IsSpace(head[0])
  {
    assert MatchesIgnoringCase(head[0], 'F');
    InitialNotSpace(head[0]);
  }

  /** No character that matches the header's initial is whitespace. */
  lemma InitialNotSpace(c: char)
    requires MatchesIgnoringCase(c, 'F')
    ensures !IsSpace(c)
  {
  }

  /** Scoring the report again gives the same outcome: the report is a
      fixed point of the recovery step. */
  lemma {:induction false} ReparseIsStable(reply: string)
    ensures ExtractScore(ExtractScore(reply).report) == ExtractScore(reply)
  {
    StripIdempotent(reply);
  }

  // ---------------------------------------------------------------------
  // Facts for reasoning about particular replies
  // ---------------------------------------------------------------------

  /** Every occurrence of the header ends in a colon and starts with an F
      (in either case). */
  lemma HeaderShape(t: string, i: int)
    requires HeaderAt(t, i)
    ensures t[i + |HEADER| - 1] == ':' && MatchesIgnoringCase(t[i], 'F')
  {
    EqualsIgnoringCaseAt(t[i..i + |HEADER|], HEADER, 0);
    EqualsIgnoringCaseAt(t[i..i + |HEADER|], HEADER, |HEADER| - 1);
  }

  /** A reply without a colon never takes the primary route. */
  lemma NoColonNoPrimary(t: string)
    requires ':' !in t
    ensures PrimaryScore(t) == None
  {
    if PrimaryScore(t).Some? {
      var i :| MatchAt(t, i);
      HeaderShape(t, i);
    }
  }

  /** A line that holds one of the keywords in lower case, anywhere, passes
      the keyword test. */
  lemma KeywordInLine(before: string, keyword: string, after: string)
    requires keyword == "score" || keyword == "final" || keyword == "result"
    ensures HasKeyword(before + keyword + after)
  {
    LowerAppend(before + keyword, after);
    LowerAppend(before, keyword);
    assert Lower(keyword) == keyword by {
      if keyword == "score" {
      } else if keyword == "final" {
      } else {
      }
    }
    var lower := Lower(before + keyword + after);
    assert lower == Lower(before) + keyword + Lower(after);
    assert lower[|before|..|before| + |keyword|] == keyword;
    assert OccursAt(lower, keyword, |before|);
  }

  /** In a line with a keyword, a digit 0-4 that only other characters
      precede is the one the line yields. */
  lemma FirstDigitInLine(before: string, digit: char, after: string)
    requires forall c :: c in before ==> !IsScoreDigit(c)
    requires IsScoreDigit(digit)
    requires HasKeyword(before + [digit] + after)
    ensures Qualifies(before + [digit] + after)
    ensures LineScore(before + [digit] + after) == DigitValue(digit)
  {
    var line := before + [digit] + after;
    assert line[|before|] == digit;
    var v := LineScore(line);
    var k :| 0 <= k < |line| && IsScoreDigit(line[k]) && v == DigitValue(line[k]) &&
             forall j :: 0 <= j < k ==> !IsScoreDigit(line[j]);
    assert k == |before|;
  }
}
