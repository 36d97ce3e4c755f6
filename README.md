# Invoice–SMS matcher: score recovery and input guard

The program (`app.py`) asks a language model to compare an invoice text
with a bank SMS and to grade the match from 0 to 4. It then recovers the
grade from the model's free-text reply. This project models the
deterministic part of that pipeline and proves properties of it:

- **Score recovery** in `match_invoice` (app.py:89-107), in
  `score_extraction.dfy`. The reply is stripped. The score comes from a
  case-insensitive `FINAL SCORE:` header followed by optional whitespace
  and a digit 0-4. If there is none, the score comes from the last line
  that mentions `score`, `final` or `result` and holds a digit 0-4. If
  there is no such line either, it is 0. The primary search is a
  recursive leftmost-match function. The fallback is a method with a
  descending loop, proved equal to a "last qualifying line" function.
  `MatchInvoice` is the method form of the whole step, proved equal to
  the specification function `ExtractScore`.
- **Input guard** in `process_and_display` (app.py:109-118), in
  `reconciliation.dfy`. Blank input gives a fixed message. A failing
  model call gives an error report. Otherwise the recovered score
  decides. The model call's result is a parameter: `Answered(text)` or
  `Raised(message)`, where `message` stands for `str(e)`.
- **Python string operations** the step relies on, in `text.dfy`:
  `str.strip()`, `str.lower()`, `in` on strings, `str.split('\n')`, and
  case-insensitive matching of a literal under `re.IGNORECASE`.
- **The scoring rubric** (app.py:42-47, app.py:133-138), in
  `rubric.dfy`. This is a rubric stated in source text, not executed
  code. The prompt asks the model to apply it, and the form's description
  repeats it. It is modelled as a function of four match flags.
- **Worked replies** in `score_examples.dfy`.

Character classes follow Python:

- Whitespace (`\s`, `str.isspace`, `str.strip`) is the full set of 29
  characters for which `str.isspace()` holds.
- The header literal is matched as `re.IGNORECASE` matches one character
  of a `str` pattern. An ASCII letter matches in either case. `I` also
  matches U+0130 and U+0131, `S` also matches U+017F, and `K` also
  matches U+212A.
- The keyword test lowercases ASCII letters only. This is exact for these
  keywords:
  - Of the characters that lowercase to an ASCII letter, only U+212A
    (to `k`) and U+0130 (to `i` followed by U+0307) are not ASCII.
  - None of the keywords contains `k`.
  - The `i` from U+0130 is always followed by U+0307, and `i` is never
    the last letter of a keyword.

Behaviour of the code that a reader might not expect:

- The report is the *stripped* reply, not the verbatim reply
  (app.py:89, 107).
- The fallback digit need not stand alone: `result 10` scores 1
  (`ScoreExamples.DigitNeedNotStandAlone`).
- The primary match need not start a line and may cross newlines
  (`ScoreExtraction.HeaderThenDigit` allows any whitespace gap).
- A failed model call is not distinguishable from an answer. A reply that
  reads `Error processing: …` gives the same outcome as the failure
  (`Reconciliation.FailureLooksLikeReply`).
- `MatchInvoice` and `ExtractScore` describe the same step twice: the
  method in the code's own statement order, the function as its
  specification. The method's only loop is the one inside
  `FallbackScan`.

## Model

| member | source | states |
|---|---|---|
| Text.Strip | app.py:89 | `strip()` returns a slice of the input that starts where the leading whitespace ends, cuts off only whitespace on either side, and neither starts nor ends with whitespace |
| Text.StripEmptyIffBlank | app.py:111 | `s.strip()` is empty exactly when every character of `s` is whitespace, so `not s.strip()` is the blank test |
| Text.StripIdempotent | app.py:89 | stripping an already stripped text changes nothing |
| Text.SplitLines | app.py:97 | `split('\n')` gives at least one piece, no piece holds a newline, and joining the pieces with newlines gives the text back |
| Text.StripPadded | app.py:89 | stripping removes exactly the blank padding around a core that starts and ends with non-whitespace |
| Text.SplitFirstLine | app.py:97 | the text before the first newline is the first line, and the rest is split on its own |
| Text.IsSpace | app.py:89 | the characters `strip()` removes and `\s` matches: exactly the 29 characters of `WHITESPACE`, those for which `str.isspace()` holds |
| Text.LeadingSpaces | app.py:89 | the length of the whitespace run at the front: everything before it is whitespace and the character at it is not |
| Text.TrailingSpaces | app.py:89 | the length of the whitespace run at the back: everything after the cut is whitespace and the character before it is not |
| Text.AsciiLower | app.py:99 | `c.lower()` on one character: an upper-case ASCII letter becomes its lower-case letter, every other character stays |
| Text.Lower | app.py:99 | `line.lower()` keeps the length and lowers each character in place |
| Text.Contains | app.py:99 | `keyword in line`: the keyword occurs at some position of the line |
| Text.MatchesIgnoringCase | app.py:92 | one pattern character under `re.IGNORECASE`: an ASCII letter in either case, plus U+0130/U+0131 for `I`, U+017F for `S` and U+212A for `K`; any other character only itself |
| Text.EqualsIgnoringCase | app.py:92 | a stretch of text equals the pattern literal under `re.IGNORECASE`, character by character and of the same length |
| Text.EqualsIgnoringCaseAt | app.py:92 | each character of a case-insensitive match matches the pattern character at its position |
| Text.SplitSingleLine | app.py:97 | a text without a newline splits into itself alone |
| ScoreExtraction.DigitValue | app.py:94 | `int()` of a digit 0-4 is the digit's value, in 0..4 |
| ScoreExtraction.HeaderAt | app.py:92 | the literal `FINAL SCORE:` occurs at the given index, ignoring case |
| ScoreExtraction.PatternMatch | app.py:92 | the regular-expression meaning of `FINAL SCORE:\s*([0-4])` at a start `i` with its digit at `k`: the header, then only whitespace up to `k`, then a digit 0-4 |
| ScoreExtraction.SkipSpaces | app.py:92 | where the greedy `\s*` stops: only whitespace is skipped, and it stops on non-whitespace or at the end |
| ScoreExtraction.MatchAt | app.py:92 | the pattern matches at a start when the greedy whitespace run after the header ends on a digit 0-4 |
| ScoreExtraction.MatchAtIsPatternMatch | app.py:92 | the greedy scan of `\s*` agrees with the regular-expression meaning of the pattern: a match with its digit at `k` exists exactly when the greedy scan stops on a digit, and then the scan stops at `k` |
| ScoreExtraction.FindPrimary | app.py:92 | `re.search` picks the leftmost start: the result is a match and no earlier start matches, or no start matches at all |
| ScoreExtraction.PrimaryScore | app.py:92-94 | the primary rule yields a score exactly when the pattern matches somewhere in the text |
| ScoreExtraction.FirstScoreDigit | app.py:100 | `re.search(r"[0-4]", line)` finds the first digit 0-4 of the line, or reports that there is none |
| ScoreExtraction.HasKeyword | app.py:99 | `any(keyword in line.lower() for keyword in ['score', 'final', 'result'])` |
| ScoreExtraction.Qualifies | app.py:99-101 | the line passes the keyword test and holds some digit 0-4, so the fallback takes its score from it |
| ScoreExtraction.LineScore | app.py:100-102 | a qualifying line yields the value of its first digit 0-4, which lies in 0..4 |
| ScoreExtraction.LastQualifying | app.py:98-103 | the index found is the last line with a keyword and a digit 0-4, or no line qualifies |
| ScoreExtraction.FallbackScore | app.py:97-105 | the fallback's result, the last qualifying line's first digit or the default 0, lies in 0..4 |
| ScoreExtraction.FallbackScan | app.py:97-105 | the reverse walk with `break` and the `for … else` default returns the score of the last qualifying line, or 0, always within 0..4 |
| ScoreExtraction.ExtractScore | app.py:89-107 | the report is the stripped reply and the score lies in 0..4 |
| ScoreExtraction.MatchInvoice | app.py:89-107 | the method returns the stripped reply and the score the specification function gives it |
| ScoreExtraction.PrimaryRule | app.py:92-94 | when the pattern matches in the stripped reply, the score is the digit of the leftmost match |
| ScoreExtraction.FallbackRule | app.py:95-103 | with no match of the pattern, the score is the first digit 0-4 of the last line with a keyword and such a digit; later keyword lines without a digit do not count |
| ScoreExtraction.DefaultRule | app.py:104-105 | with neither a match nor a qualifying line, the score is 0 and the report is still the stripped reply |
| ScoreExtraction.NoPatternNoPrimary | app.py:92-93 | where the pattern matches nowhere, the primary rule yields nothing and the fallback runs |
| ScoreExtraction.PrimaryOverridesFallback | app.py:93-95 | once the pattern matches anywhere, the leftmost match, at or before that one, exists and its digit is the score, whatever the lines say |
| ScoreExtraction.HeaderThenDigit | app.py:92-94 | a reply that opens with the header in any letter case, then any whitespace (newlines included), then a digit 0-4, scores that digit whatever follows |
| ScoreExtraction.ReparseIsStable | app.py:89-107 | recovering the score again from the report gives the same score and report |
| ScoreExtraction.HeaderShape | app.py:92 | every occurrence of the header ends in a colon and starts with a character that matches `F` |
| ScoreExtraction.NoColonNoPrimary | app.py:92 | a text without a colon never takes the primary route |
| ScoreExtraction.KeywordInLine | app.py:99 | a line that holds `score`, `final` or `result` anywhere passes the keyword test |
| ScoreExtraction.FirstDigitInLine | app.py:100-102 | in a keyword line, a digit 0-4 with no such digit before it is the one the line yields |
| Reconciliation.ProcessAndDisplay | app.py:109-118 | blank invoice or SMS text gives `(0, "Please provide both an invoice text and SMS text.")`; a failure gives `(0, "Error processing: " + message)`; otherwise the report is the stripped reply and the score is the recovered one; the score always lies in 0..4 |
| Reconciliation.BlankInputIgnoresReply | app.py:111-112 | with a blank input the model's reply has no influence: any two replies give the same fixed outcome |
| Reconciliation.FailureScoresZero | app.py:117-118 | a failure scores 0, with a report that starts with `Error processing: ` |
| Reconciliation.ErrorReportHasNoHeader | app.py:118 | the error prefix followed by a message without a colon never matches the primary pattern |
| Reconciliation.ErrorLikeReplyScoresZero | app.py:89-118 | a reply that reads like an error report, with no keyword line, colon or newline in its message, scores 0 and is reported as it is |
| Reconciliation.FailureLooksLikeReply | app.py:114-118 | such a reply gives exactly the outcome of the failure it imitates, so the caller cannot tell them apart |
| Rubric.TierMet | app.py:43-47 | rubric stated in source text, not executed code: the condition of each tier, from nothing for tier 0 to amount, date, name and identifier for tier 4 |
| Rubric.Score | app.py:42-47 | rubric stated in source text, not executed code: 0 without an amount match; 1 for the amount without date or name (an identifier on top does not raise it); 2 for the amount and exactly one of date and name; 3 for amount, date and name without an identifier; 4 with all four |
| Rubric.ScoreIsHighestTierMet | app.py:133-138 | rubric stated in source text, not executed code: the score is the highest tier whose condition holds |
| Rubric.ScoreIsMonotone | app.py:43-47 | rubric stated in source text, not executed code: one more matching fact never lowers the score |
| Rubric.IdentifierAloneAddsNothing | app.py:47 | rubric stated in source text, not executed code: an identifier match only counts on top of amount, date and name |
| ScoreExamples.ResultTenLine | app.py:99-102 | the line `result 10` qualifies and yields 1 |
| ScoreExamples.DigitNeedNotStandAlone | app.py:89-107 | the reply `result 10` scores 1 with itself as the report: the fallback digit is the `1` of `10` |

## Left out

- The web form (app.py:121-146): interface construction and launch only.
- Configuration (app.py:9-11): `load_dotenv`, `genai.configure` and the
  global model client set up the environment and hold no decision logic.
- Prompt assembly and `model.generate_content` (app.py:16-88): a foreign,
  non-deterministic call. Its reply is a parameter. An exception of class
  `Exception` raised while asking is the `Raised(message)` case, with
  `message` standing for `str(e)`.
- Reconciliation.ProcessAndDisplay: only `Exception` is caught
  (app.py:117). `KeyboardInterrupt`, `SystemExit` and other exceptions
  that derive only from `BaseException` propagate out of
  `process_and_display`, and the model has no case for them.
- The unused `PIL.Image` import (app.py:5).
- A general regular-expression engine: the two patterns are hand-written
  scanners.
- The field-level match predicates (amount, date, name, identifier) are
  not part of this model, because no code in the repository computes
  them. The rubric takes their outcomes as the flags `amount`, `date`,
  `name` and `identifier`.
- Rubric.Score: the prompt's wording "0 points: Nothing matches" is read
  as "the amount does not match", because every other tier requires the
  amount.
- Rubric.Score: "ONLY the total amount" (app.py:44) and "Amount only"
  (app.py:135) are read as "the amount without date or name". An
  identifier match on top of the amount alone therefore still gives 1
  (`IdentifierAloneAddsNothing`). Neither text covers that case.
- The reply `...\nResult line: the final score is 3 out of 4\n` is not
  instantiated as a lemma of its own. `FallbackRule` covers it: the text
  has no `FINAL SCORE:` header, and the first digit 0-4 of its last
  keyword line is 3.
- Full Unicode case mapping beyond the characters named above is not
  modelled. As argued above, it does not change either test.
