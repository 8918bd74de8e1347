/** One prompt of a test, its listener, the client threads that may answer it and the threads
    that may close its message box, as atomic steps that interleave freely.
    (CommonLibrary/Prompt.c, TestDispatcher/TDTestFunctions.c, TestDispatcher/TDCommandHandler.c) */
module QuestionProtocol {
  import opened Common
  import opened QuestionText

  datatype Asker = Idle | Waiting(text: string)
  datatype Verdict = Accepted | Refused | Deferred

  /** `transit` is the dispatcher's message queue, `question` the posted question, `closing` the
      number of threads between clearing the question and sending the close response, and
      `responses` the asker's message queue. */
  datatype State = State(
    asker: Asker,
    transit: seq<string>,
    question: Option<string>,
    closing: nat,
    responses: seq<string>)

  datatype Event =
    | Ask(text: string)
    | Post
    | Respond(packet: string, verdict: Verdict)
    | CloseBox(cleared: bool)
    | SendClose
    | Receive(answerLen: nat, answer: string)

  const INITIAL := State(Idle, [], None, 0, [])

  function VerdictOn(s: State, packet: string): Verdict
    requires |packet| >= HEADER
  {
    var body := packet[HEADER..];
    if s.question != Some(QuestionOf(body)) then Refused
    else if Defers(AnswerOf(body)) then Deferred
    else Accepted
  }

  function AfterRespond(s: State, packet: string): State
    requires |packet| >= HEADER
  {
    if VerdictOn(s, packet).Accepted? then
      s.(question := None, responses := s.responses + [Clip(AnswerOf(packet[HEADER..]), BUF_LEN)])
    else s
  }

  /** Each mutex section, message send and message receipt is one step. */
  predicate Step(s: State, event: Event, s': State) {
    match event
    case Ask(text) =>
      s.asker.Idle? && s' == s.(asker := Waiting(text), transit := s.transit + [Clip(text, BUF_LEN)])
    case Post =>
      s.transit != [] && s' == s.(transit := s.transit[1..], question := Some(s.transit[0]))
    case Respond(packet, verdict) =>
      |packet| >= HEADER && verdict == VerdictOn(s, packet) && s' == AfterRespond(s, packet)
    case CloseBox(cleared) =>
      && cleared == s.question.Some?
      && s' == (if cleared then s.(question := None, closing := s.closing + 1) else s)
    case SendClose =>
      s.closing > 0 && s' == s.(closing := s.closing - 1, responses := s.responses + [""])
    case Receive(answerLen, answer) =>
      && s.asker.Waiting? && s.responses != [] && answerLen > 0
      && answer == Clip(s.responses[0], answerLen)
      && s' == s.(asker := Idle, responses := [])
  }

  function Tokens(s: State): nat {
    |s.transit| + (if s.question.Some? then 1 else 0) + s.closing + |s.responses|
  }

  /** A waiting asker stands for exactly one token, which carries its own text as long as it is
      a question; an idle asker stands for none. */
  ghost predicate OneToken(s: State) {
    && Tokens(s) == (if s.asker.Waiting? then 1 else 0)
    && (s.transit != [] ==> s.transit[0] == Clip(s.asker.text, BUF_LEN))
    && (s.question.Some? ==> s.question.value == Clip(s.asker.text, BUF_LEN))
  }

  // ---- What an onlooker sees ----------------------------------------------------------

  /** The conversation as one sequential exchange: a prompt, one settlement, one receipt. */
  datatype Talk = Quiet | Asked(question: string) | Settled(question: string, response: string)

  predicate Silent(event: Event) {
    match event
    case Ask(_) => false
    case Post => true
    case Respond(_, verdict) => !verdict.Accepted?
    case CloseBox(cleared) => !cleared
    case SendClose => true
    case Receive(_, _) => false
  }

  /** A event that settles `question` with `response`: an accepted answer to that very text, or
      the empty response of a closed box. */
  predicate Settles(event: Event, question: string, response: string) {
    match event
    case Respond(packet, verdict) =>
      && verdict.Accepted? && |packet| >= HEADER
      && QuestionOf(packet[HEADER..]) == question
      && !Defers(AnswerOf(packet[HEADER..]))
      && response == Clip(AnswerOf(packet[HEADER..]), BUF_LEN)
    case CloseBox(cleared) => cleared && response == ""
    case _ => false
  }

  function ResponseIn(event: Event): string {
    if event.Respond? && |event.packet| >= HEADER then Clip(AnswerOf(event.packet[HEADER..]), BUF_LEN) else ""
  }

  function Onlooker(t: Talk, event: Event): Option<Talk> {
    if Silent(event) then Some(t)
    else
      match event
      case Ask(text) => if t.Quiet? then Some(Asked(Clip(text, BUF_LEN))) else None
      case Receive(answerLen, answer) =>
        if t.Settled? && answerLen > 0 && answer == Clip(t.response, answerLen) then Some(Quiet) else None
      case _ =>
        if t.Asked? && Settles(event, t.question, ResponseIn(event))
        then Some(Settled(t.question, ResponseIn(event))) else None
  }

  function Conversation(events: seq<Event>): Option<Talk> {
    if events == [] then Some(Quiet)
    else
      var t := Conversation(events[..|events| - 1]);
      if t.None? then None else Onlooker(t.value, events[|events| - 1])
  }

  /** How far the exchange has come in a state. */
  function View(s: State): Talk {
    match s.asker
    case Idle => Quiet
    case Waiting(text) =>
      if s.transit != [] then Asked(s.transit[0])
      else if s.question.Some? then Asked(s.question.value)
      else if s.responses != [] then Settled(Clip(text, BUF_LEN), s.responses[0])
      else Settled(Clip(text, BUF_LEN), "")
  }

  lemma StepKeepsOneToken(s: State, event: Event, s': State)
    requires OneToken(s) && Step(s, event, s')
    ensures OneToken(s')
  {
  }

  lemma StepIsSequential(s: State, event: Event, s': State)
    requires OneToken(s) && Step(s, event, s')
    ensures Onlooker(View(s), event) == Some(View(s'))
  {
    match event
    case Ask(_) =>
    case Post =>
    case Respond(packet, _) =>
    case CloseBox(_) =>
    case SendClose =>
    case Receive(_, _) =>
  }

  ghost predicate Run(states: seq<State>, events: seq<Event>) {
    && |states| == |events| + 1 && states[0] == INITIAL
    && (forall i :: 0 <= i < |events| ==> Step(states[i], events[i], states[i + 1]))
  }

  /** Every interleaving looks like the sequential exchange, and keeps exactly one token. */
  lemma {:induction false} EveryRunIsAConversation(states: seq<State>, events: seq<Event>)
    requires Run(states, events)
    ensures OneToken(states[|events|])
    ensures Conversation(events) == Some(View(states[|events|]))
  {
    if events != [] {
      var n := |events| - 1;
      EveryRunIsAConversation(states[..n + 1], events[..n]);
      StepKeepsOneToken(states[n], events[n], states[n + 1]);
      StepIsSequential(states[n], events[n], states[n + 1]);
    }
  }

  // ---- What that means for each prompt -------------------------------------------------

  /** The prompt that is open: its `Ask`, and only silent events since. */
  lemma {:induction false} OpenPrompt(events: seq<Event>, question: string) returns (h: nat)
    requires Conversation(events) == Some(Asked(question))
    ensures h < |events| && events[h].Ask? && Clip(events[h].text, BUF_LEN) == question
    ensures forall k :: h < k < |events| ==> Silent(events[k])
  {
    var n := |events| - 1;
    if Silent(events[n]) {
      h := OpenPrompt(events[..n], question);
      assert forall k :: h < k < n ==> events[k] == events[..n][k];
    } else {
      h := n;
    }
  }

  /** A settled prompt: its `Ask`, its one settlement, and only silent events besides. */
  lemma {:induction false} SettledPrompt(events: seq<Event>, question: string, response: string)
    returns (h: nat, i: nat)
    requires Conversation(events) == Some(Settled(question, response))
    ensures h < i < |events| && events[h].Ask? && Clip(events[h].text, BUF_LEN) == question
    ensures Settles(events[i], question, response)
    ensures forall k :: h < k < |events| && k != i ==> Silent(events[k])
  {
    var n := |events| - 1;
    var before := events[..n];
    if Silent(events[n]) {
      h, i := SettledPrompt(before, question, response);
      assert forall k :: 0 <= k < n ==> events[k] == before[k];
    } else {
      h := OpenPrompt(before, question);
      i := n;
      assert forall k :: 0 <= k < n ==> events[k] == before[k];
    }
  }

  /** In every run, whatever an asker receives at step `j` answers the prompt it last asked: one
      responder's accepted answer to exactly that text, or the empty response of one closed box.
      Nothing else settled in between, and every deferral or refusal left the prompt open. */
  lemma EveryAnswerIsForItsPrompt(states: seq<State>, events: seq<Event>, j: nat)
    returns (h: nat, i: nat, response: string)
    requires Run(states, events) && j < |events| && events[j].Receive?
    ensures h < i < j && events[h].Ask?
    ensures Settles(events[i], Clip(events[h].text, BUF_LEN), response)
    ensures events[j].answerLen > 0 && events[j].answer == Clip(response, events[j].answerLen)
    ensures forall k :: h < k < j && k != i ==> Silent(events[k])
  {
    var before := events[..j];
    EveryRunIsAConversation(states[..j + 1], before);
    EveryRunIsAConversation(states[..j + 2], events[..j + 1]);
    assert events[..j + 1][..j] == before;
    var t := Conversation(before).value;
    response := t.response;
    h, i := SettledPrompt(before, t.question, response);
    assert forall k :: 0 <= k < j ==> events[k] == before[k];
  }

  function Count(events: seq<Event>, kind: Event -> bool): nat {
    if events == [] then 0
    else Count(events[..|events| - 1], kind) + (if kind(events[|events| - 1]) then 1 else 0)
  }

  const ASKS: Event -> bool := (l: Event) => l.Ask?
  const RECEIPTS: Event -> bool := (l: Event) => l.Receive?
  const SETTLEMENTS: Event -> bool := (l: Event) => !Silent(l) && !l.Ask? && !l.Receive?

  /** Prompts, settlements and receipts alternate: at every moment no settlement is ahead of its
      prompt, no receipt ahead of its settlement, and at most one prompt is open. */
  lemma {:induction false} OneResponseEach(events: seq<Event>)
    requires Conversation(events).Some?
    ensures var t := Conversation(events).value;
      && Count(events, ASKS) == Count(events, RECEIPTS) + (if t.Quiet? then 0 else 1)
      && Count(events, SETTLEMENTS) == Count(events, RECEIPTS) + (if t.Settled? then 1 else 0)
  {
    if events != [] {
      OneResponseEach(events[..|events| - 1]);
    }
  }

  /** From every reachable state with a waiting asker, posting, closing the box and receiving
      bring an answer: no interleaving loses the prompt for good. */
  lemma WaitingAskerCanBeServed(s: State, answerLen: nat) returns (events: seq<Event>, states: seq<State>)
    requires OneToken(s) && s.asker.Waiting? && answerLen > 0
    ensures |states| == |events| + 1 && states[0] == s && 1 <= |events| <= 4
    ensures forall k :: 0 <= k < |events| ==> Step(states[k], events[k], states[k + 1])
    ensures states[|events|].asker.Idle?
  {
    events, states := [], [s];
    var cur := s;
    if cur.transit != [] {
      cur := cur.(transit := cur.transit[1..], question := Some(cur.transit[0]));
      events, states := events + [Post], states + [cur];
    }
    if cur.question.Some? {
      cur := cur.(question := None, closing := cur.closing + 1);
      events, states := events + [CloseBox(true)], states + [cur];
    }
    if cur.closing > 0 {
      cur := cur.(closing := cur.closing - 1, responses := cur.responses + [""]);
      events, states := events + [SendClose], states + [cur];
    }
    var answer := Clip(cur.responses[0], answerLen);
    cur := cur.(asker := Idle, responses := []);
    events, states := events + [Receive(answerLen, answer)], states + [cur];
  }

  // ---- What a responder's packet does ----------------------------------------------------

  /** Every response to every question that a packet can carry. If it names the posted question,
      it is deferred when the answer starts with "defer", and else accepted: the question is gone
      and the answer, cut to 299 characters, is the one new response. If it does not, it is
      refused. Only an accepted response changes anything. */
  lemma AnswerIsTaken(s: State, header: string, question: string, answer: string, verdict: Verdict, s': State)
    requires |header| == 11 && question != "" && NoBar(question, 1, |question|)
    requires Step(s, Respond(header + (question + "|" + answer), verdict), s')
    ensures s.question != Some(question) ==> verdict.Refused? && s' == s
    ensures s.question == Some(question) && |answer| >= 5 && answer[..5] == "defer" ==> verdict.Deferred? && s' == s
    ensures s.question == Some(question) && !(|answer| >= 5 && answer[..5] == "defer") ==>
      && verdict.Accepted? && s'.question == None
      && s'.responses == s.responses + [if |answer| < 300 then answer else answer[..299]]
      && s' == s.(question := None, responses := s'.responses)
  {
    var body := question + "|" + answer;
    assert (header + body)[11..] == body;
    PacketRoundTrip(question, answer);
    assert "defer" <= answer <==> |answer| >= 5 && answer[..5] == "defer";
  }

  /** A question with a bar after its first character is refused every packet. */
  lemma UnanswerableIsRefused(s: State, packet: string, verdict: Verdict, s': State)
    requires s.question.Some? && !NoBar(s.question.value, 1, |s.question.value|)
    requires Step(s, Respond(packet, verdict), s')
    ensures verdict.Refused? && s' == s
  {
    AnswerableQuestions(s.question.value);
  }

  /** A matching answer brings a waiting asker that very answer in two steps, cut to what the
      message and the asker's buffer hold. */
  lemma MatchingAnswerArrives(s: State, header: string, question: string, answer: string, answerLen: nat)
    returns (s1: State, s2: State, read: string)
    requires OneToken(s) && s.asker.Waiting? && s.question == Some(question)
    requires |header| == 11 && question != "" && NoBar(question, 1, |question|)
    requires !(|answer| >= 5 && answer[..5] == "defer") && answerLen > 0
    ensures Step(s, Respond(header + (question + "|" + answer), Accepted), s1)
    ensures Step(s1, Receive(answerLen, read), s2) && s2 == INITIAL
    ensures read <= answer && |read| < answerLen && |read| < 300
    ensures |read| == |answer| || |read| == 299 || |read| == answerLen - 1
  {
    var packet := header + (question + "|" + answer);
    var verdict := VerdictOn(s, packet);
    s1 := AfterRespond(s, packet);
    AnswerIsTaken(s, header, question, answer, verdict, s1);
    read := Clip(s1.responses[0], answerLen);
    s2 := s1.(asker := Idle, responses := []);
  }

  /** Closing the box takes whatever question is posted, answerable or not, and the asker then
      reads the empty response; with no question posted it does nothing. */
  lemma ClosedBoxAnswersEmpty(s: State, cleared: bool, s1: State, s2: State, answerLen: nat, read: string, s3: State)
    requires OneToken(s) && Step(s, CloseBox(cleared), s1)
    ensures cleared <==> s.question.Some?
    ensures !cleared ==> s1 == s
    ensures cleared ==> s1.question == None && s1.responses == s.responses && s1.transit == s.transit
    ensures cleared && Step(s1, SendClose, s2) && Step(s2, Receive(answerLen, read), s3) ==>
      s2.responses == [""] && read == "" && s3 == INITIAL
    ensures cleared ==> exists s' :: Step(s1, SendClose, s') && s'.responses == [""]
  {
    if cleared {
      var s' := s1.(closing := s1.closing - 1, responses := s1.responses + [""]);
      assert Step(s1, SendClose, s');
    }
  }

  /** The code of the steps, over the shared globals and the two message queues. */
  class Desk {
    var asker: Asker
    var transit: seq<string>
    var question: Option<string>
    var closing: nat
    var responses: seq<string>

    ghost function S(): State
      reads this
    {
      State(asker, transit, question, closing, responses)
    }

    constructor ()
      ensures S() == INITIAL
    {
      asker, transit, question, closing, responses := Idle, [], None, 0, [];
    }

    /** `createUserPrompt`, up to where it blocks. */
    method AskUser(text: string)
      requires asker.Idle?
      modifies this
      ensures Step(old(S()), Ask(text), S())
    {
      asker := Waiting(text);
      transit := transit + [Clip(text, BUF_LEN)];
    }

    /** `createUserPrompt`, once a response is there: it is read and the queue is removed. */
    method ReadAnswer(answerLen: nat) returns (answer: string)
      requires asker.Waiting? && responses != [] && answerLen > 0
      modifies this
      ensures Step(old(S()), Receive(answerLen, answer), S())
    {
      answer := Clip(responses[0], answerLen);
      responses := [];
      asker := Idle;
    }

    /** `answerQuestion`, as the listener runs it on the next message. */
    method AnswerQuestion()
      requires transit != []
      modifies this
      ensures Step(old(S()), Post, S())
    {
      question := Some(transit[0]);
      transit := transit[1..];
    }

    /** `userRespondToQuestion`: one section under the mutex, the send included. */
    method UserRespondToQuestion(packet: string) returns (verdict: Verdict)
      requires |packet| >= HEADER
      modifies this
      ensures Step(old(S()), Respond(packet, verdict), S())
      ensures !verdict.Accepted? ==> S() == old(S())
    {
      if question.None? {
        return Refused;
      }
      var myQuestion, q := ParseResponse(packet[HEADER..]);
      if myQuestion != question.value {
        return Refused;
      }
      if Defers(q) {
        return Deferred;
      }
      question := None;
      responses := responses + [Clip(q, BUF_LEN)];
      verdict := Accepted;
    }

    /** The first half of `notifyUserToCloseMessageBox`, under the mutex. */
    method CloseMessageBox() returns (cleared: bool)
      modifies this
      ensures Step(old(S()), CloseBox(cleared), S())
    {
      cleared := question.Some?;
      if cleared {
        question := None;
        closing := closing + 1;
      }
    }

    /** Its second half: the send, outside the mutex. */
    method SendCloseResponse()
      requires closing > 0
      modifies this
      ensures Step(old(S()), SendClose, S())
    {
      closing := closing - 1;
      responses := responses + [""];
    }
  }
}
