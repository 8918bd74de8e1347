/** The text of a response packet: the question it answers, a bar, and the answer
    (TestDispatcher/TDCommandHandler.c, `userRespondToQuestion`). */
module QuestionText {
  const BUF_LEN: nat := 300
  const HEADER: nat := 11

  /** `snprintf(dst, size, "%s", s)` keeps at most `size - 1` characters. */
  function Clip(s: string, size: nat): (r: string)
    requires size > 0
    ensures r <= s && |r| == if |s| < size then |s| else size - 1
  {
    if |s| < size then s else s[..size - 1]
  }

  ghost predicate NoBar(text: string, from: nat, to: nat)
    requires to <= |text|
  {
    forall i :: from <= i < to ==> text[i] != '|'
  }

  /** The first bar at position `from` or later, or the length of the text. */
  function BarFrom(body: string, from: nat): (k: nat)
    requires from <= |body|
    ensures from <= k <= |body| && NoBar(body, from, k) && (k < |body| ==> body[k] == '|')
    decreases |body| - from
  {
    if from == |body| || body[from] == '|' then from else BarFrom(body, from + 1)
  }

  /** The parser copies a character before it looks for the bar, so a leading bar belongs to
      the question. */
  function BarOf(body: string): (k: nat)
    ensures k <= |body|
  {
    if body == "" then 0 else BarFrom(body, 1)
  }

  function QuestionOf(body: string): string {
    body[..BarOf(body)]
  }

  function AnswerOf(body: string): string {
    if BarOf(body) < |body| then body[BarOf(body) + 1..] else ""
  }

  /** `strncmp(q, "defer", 5) == 0`. */
  predicate Defers(answer: string) {
    "defer" <= answer
  }

  method ParseResponse(body: string) returns (question: string, answer: string)
    ensures question == QuestionOf(body) && answer == AnswerOf(body)
  {
    question := "";
    var q := 0;
    while q < |body|
      invariant q <= |body| && question == body[..q]
      invariant q > 0 ==> BarFrom(body, 1) == BarFrom(body, q)
      invariant 0 < q < |body| ==> body[q] != '|'
    {
      question := question + [body[q]];
      q := q + 1;
      if q < |body| && body[q] == '|' {
        return question, body[q + 1..];
      }
    }
    answer := "";
  }

  /** A packet built as question, bar, answer is read back as it was built exactly when the
      question is not empty and has no bar after its first character. */
  lemma PacketRoundTrip(question: string, answer: string)
    ensures QuestionOf(question + "|" + answer) == question && AnswerOf(question + "|" + answer) == answer
      <==> question != "" && NoBar(question, 1, |question|)
  {
    var body := question + "|" + answer;
    if question != "" {
      assert body[|question|] == '|';
      assert forall i :: 0 <= i < |question| ==> body[i] == question[i];
      assert body[..|question|] == question && body[|question| + 1..] == answer;
    }
  }

  /** A question some packet can answer is one without a bar after its first character. */
  lemma AnswerableQuestions(question: string)
    ensures (exists body :: QuestionOf(body) == question) <==> NoBar(question, 1, |question|)
  {
    if question == "" {
      assert QuestionOf("") == question;
    } else if NoBar(question, 1, |question|) {
      PacketRoundTrip(question, "");
      assert QuestionOf(question + "|" + "") == question;
    }
  }
}
