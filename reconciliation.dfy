/** `process_and_display` (app.py:109-118): the entry point behind the web
    form. Blank input short-circuits before the model is asked; a failure
    while asking becomes an error report; otherwise the score recovery of
    `match_invoice` decides. */
module Reconciliation {
  import opened Text
  import opened ScoreExtraction

  /** How the call to the language model ended: with the text of its reply,
      or with an exception, given here by the text of `str(e)`. */
  datatype ModelReply = Answered(text: string) | Raised(message: string)

  const BLANK_INPUT_MESSAGE: string := "Please provide both an invoice text and SMS text."
  const ERROR_PREFIX: string := "Error processing: "

  /** The outcome shown to the user for an invoice text, an SMS text and
      the way the model call ended. The reply is only looked at when both
      inputs hold something other than whitespace. */
  function ProcessAndDisplay(invoiceText: string, smsText: string, reply: ModelReply): (r: Outcome)
    ensures IsBlank(invoiceText) || IsBlank(smsText) ==> r == Outcome(0, BLANK_INPUT_MESSAGE)
    ensures !IsBlank(invoiceText) && !IsBlank(smsText) && reply.Raised? ==>
              r == Outcome(0, ERROR_PREFIX + reply.message)
    ensures !IsBlank(invoiceText) && !IsBlank(smsText) && reply.Answered? ==>
              r.report == Strip(reply.text) && r.score == ExtractScore(reply.text).score
    ensures 0 <= r.score <= 4
  {
    StripEmptyIffBlank(invoiceText);
    StripEmptyIffBlank(smsText);
    if Strip(invoiceText) == [] || Strip(smsText) == [] then
      Outcome(0, BLANK_INPUT_MESSAGE)
    else
      match reply
      case Raised(message) => Outcome(0, ERROR_PREFIX + message)
      case Answered(text) => ExtractScore(text)
  }

  /** With a blank invoice or SMS text the model's reply has no influence:
      any two replies give the same outcome, the fixed message with
      score 0. */
  lemma BlankInputIgnoresReply(invoiceText: string, smsText: string, one: ModelReply, other: ModelReply)
    requires IsBlank(invoiceText) || IsBlank(smsText)
    ensures ProcessAndDisplay(invoiceText, smsText, one) == ProcessAndDisplay(invoiceText, smsText, other)
    ensures ProcessAndDisplay(invoiceText, smsText, one) == Outcome(0, BLANK_INPUT_MESSAGE)
  {
  }

  /** Every failure of the model call scores 0 and says so in a report
      that starts with the error prefix. */
  lemma FailureScoresZero(invoiceText: string, smsText: string, message: string)
    requires !IsBlank(invoiceText) && !IsBlank(smsText)
    ensures ProcessAndDisplay(invoiceText, smsText, Raised(message)).score == 0
    ensures ERROR_PREFIX <= ProcessAndDisplay(invoiceText, smsText, Raised(message)).report
  {
  }

  /** The error prefix cannot start the primary pattern, nor can any
      text after it that has no colon. */
  lemma ErrorReportHasNoHeader(message: string)
    requires ':' !in message
    ensures PrimaryScore(ERROR_PREFIX + message) == None
  {
    var text := ERROR_PREFIX + message;
    if PrimaryScore(text).Some? {
      var i :| MatchAt(text, i);
      HeaderShape(text, i);
      PrefixLayout();
    }
  }

  /** The only colon of the error prefix is its second-to-last character,
      the character eleven places before it is a space, it starts with
      non-whitespace and has no newline. */
  lemma PrefixLayout()
    ensures |ERROR_PREFIX| == 18 && ERROR_PREFIX[5] == ' '
    ensures forall k :: 0 <= k < |ERROR_PREFIX| && ERROR_PREFIX[k] == ':' ==> k == 16
    ensures !IsSpace(ERROR_PREFIX[0]) && '\n' !in ERROR_PREFIX
  {
  }

  /** A reply that reads like an error report scores 0 and is reported
      as it is, when its message has no keyword, no digit 0-4, no colon
      and no newline and does not end in whitespace. */
  lemma ErrorLikeReplyScoresZero(message: string)
    requires message != [] && !IsSpace(message[|message| - 1])
    requires ':' !in message && '\n' !in message
    requires !Qualifies(ERROR_PREFIX + message)
    ensures ExtractScore(ERROR_PREFIX + message) == Outcome(0, ERROR_PREFIX + message)
  {
    var text := ERROR_PREFIX + message;
    PrefixLayout();
    assert text[0] == ERROR_PREFIX[0] && text[|text| - 1] == message[|message| - 1];
    StrippedAlready(text);
    ErrorReportHasNoHeader(message);
    assert forall k :: 0 <= k < |text| ==> text[k] != '\n' by {
      forall k | 0 <= k < |text| ensures text[k] != '\n' {
        if k >= |ERROR_PREFIX| {
          assert text[k] == message[k - |ERROR_PREFIX|];
        }
      }
    }
    SplitSingleLine(text);
  }

  /** A failure is not told apart from an answer: a reply whose text reads
      like the error report gives exactly the outcome of the failure it
      imitates. */
  lemma FailureLooksLikeReply(invoiceText: string, smsText: string, message: string)
    requires !IsBlank(invoiceText) && !IsBlank(smsText)
    requires message != [] && !IsSpace(message[|message| - 1])
    requires ':' !in message && '\n' !in message
    requires !Qualifies(ERROR_PREFIX + message)
    ensures ProcessAndDisplay(invoiceText, smsText, Answered(ERROR_PREFIX + message))
         == ProcessAndDisplay(invoiceText, smsText, Raised(message))
  {
    ErrorLikeReplyScoresZero(message);
  }
}
