/** Particular model replies and the outcome the recovery step gives them. */
module ScoreExamples {
  import opened Text
  import opened ScoreExtraction

  /** The line "result 10" passes the keyword test and yields 1. */
  lemma ResultTenLine(line: string)
    requires line == "result 10"
    ensures Qualifies(line) && LineScore(line) == 1
  {
    KeywordInLine("", "result", " 10");
    assert line == "" + "result" + " 10" == "result " + "1" + "0";
    FirstDigitInLine("result ", '1', "0");
  }

  /** The fallback's digit need not stand on its own: in "result 10" the
      "1" of "10" is the first digit 0-4 of the line, so the score is 1. */
  lemma DigitNeedNotStandAlone(reply: string)
    requires reply == "result 10"
    ensures ExtractScore(reply) == Outcome(1, reply)
  {
    StrippedAlready(reply);
    NoColonNoPrimary(reply);
    SplitSingleLine(reply);
    ResultTenLine(reply);
  }
}
