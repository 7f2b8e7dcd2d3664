/** What a client of the proxy makes of the proxy's own replies. */
module Synthetic {
  import opened Bytes
  import opened Streams
  import opened Commands
  import opened Faults
  import opened Handler
  import opened Replies
  import opened Values
  import opened Client

  /** The synthetic nil is read as nil in either protocol. */
  lemma NilReadsAsNil(resp3: bool, x: Text)
    ensures AnswerOf(ReadSpec(NilReply(resp3) + x, 0)) == Value(Nil)
  {
    hide ReadSpec;
    NilText(x, 0);
    LineReplies([], x, 0);
    AsciiKinds();
    assert NilReply(false) == Ascii("$-1") + CRLF && NilReply(true) == [UNDERSCORE] + CRLF;
  }

  /** A synthetic error is read as a refusal with its message, in which line ends have become spaces. */
  lemma ErrorReadsAsRefusal(message: Text, x: Text)
    requires |message| + 6 <= MAX_LINE
    ensures AnswerOf(ReadSpec(ErrorReply(message) + x, 0)) == Client.Refusal(Ascii("ERR ") + Sanitize(message))
  {
    hide ReadSpec;
    var text := Ascii("ERR ") + Sanitize(message);
    ErrorLine(message);
    assert (text + CRLF)[..|text|] == text;
    assert forall i | 0 <= i < |text| :: text[i] == (text + CRLF)[i];
    LastOfError(message);
    LineReplies(text, x, 0);
  }

  lemma LastOfError(message: Text)
    ensures var text := Ascii("ERR ") + Sanitize(message); text != [] && !IsLineEnd(text[|text| - 1]) && LF !in text
  {
    var head := Ascii("ERR ");
    assert head[0] == 69 && head[1] == 82 && head[2] == 82 && head[3] == 32;
  }
}
