/** The test log and the cursors of the connections that follow it
    (TestDispatcher/TDTestFunctions.c, TDServer.c, TDCommandHandler.c), outside burn-in mode.
    A client appends a line it is sent as data, replaces its last line by one it is sent as an
    update, and starts over when it asks for everything. */
module LogReplication {
  import opened Common

  const TEXT_LIMIT: nat := 80

  datatype Line = Line(text: string, status: string)
  datatype Kind = Data | Update

  /** A line as a client holds it: the log index it was sent from, and what was sent. */
  datatype Held = Held(index: nat, text: string, status: string)

  /** One connection: its cursor (`testCount`) and its client's copy of the log. */
  datatype Follower = Follower(cursor: nat, copy: seq<Held>)
  datatype State = State(log: seq<Line>, followers: seq<Follower>)

  function Strip(text: string): string {
    if text != "" && text[|text| - 1] == '\n' then text[..|text| - 1] else text
  }

  function AsSent(log: seq<Line>, i: nat): Held
    requires i < |log|
  {
    Held(i, Strip(log[i].text), log[i].status)
  }

  /** What `send_test_data` sends from line `from` on: every line that has text. */
  function Sent(log: seq<Line>, from: nat): seq<Held>
    decreases |log| - from
  {
    if from >= |log| then []
    else (if log[from].text == "" then [] else [AsSent(log, from)]) + Sent(log, from + 1)
  }

  /** Sending a line also strips its newline from the log. */
  function Stripped(log: seq<Line>, from: nat): (r: seq<Line>)
    ensures |r| == |log|
  {
    seq(|log|, i requires 0 <= i < |log| => if i < from then log[i] else log[i].(text := Strip(log[i].text)))
  }

  function Receive(copy: seq<Held>, kind: Kind, sent: seq<Held>): seq<Held> {
    match kind
    case Data => copy + sent
    case Update => if copy == [] || sent == [] then copy else copy[..|copy| - 1] + [sent[|sent| - 1]]
  }

  datatype Event =
    | Append(text: string)
    | UpdateLast(text: string)
    | SetStatus(status: string)
    | AskAll(c: nat)
    | AskNew(c: nat)
    | AskLast(c: nat)

  function Send(s: State, c: nat, kind: Kind): State
    requires c < |s.followers|
  {
    var f := s.followers[c];
    if f.cursor >= |s.log| then s
    else State(Stripped(s.log, f.cursor),
               s.followers[c := Follower(|s.log|, Receive(f.copy, kind, Sent(s.log, f.cursor)))])
  }

  /** The log needs a line before it can be updated, and a line is never queued empty. */
  predicate Possible(s: State, e: Event) {
    match e
    case Append(text) => text != ""
    case UpdateLast(text) => s.log != [] && |text| <= TEXT_LIMIT
    case SetStatus(_) => s.log != []
    case AskAll(c) => c < |s.followers|
    case AskNew(c) => c < |s.followers|
    case AskLast(c) => c < |s.followers|
  }

  function Next(s: State, e: Event): (s': State)
    requires Possible(s, e)
    ensures |s'.followers| == |s.followers|
  {
    match e
    case Append(text) =>
      s.(log := s.log + [Line(if |text| <= TEXT_LIMIT then text else text[..TEXT_LIMIT], "\r\n")])
    case UpdateLast(text) =>
      s.(log := s.log[|s.log| - 1 := s.log[|s.log| - 1].(text := text)])
    case SetStatus(status) =>
      s.(log := s.log[|s.log| - 1 := s.log[|s.log| - 1].(status := status)])
    case AskAll(c) =>
      Send(s.(followers := s.followers[c := Follower(0, [])]), c, Data)
    case AskNew(c) =>
      Send(s, c, Data)
    case AskLast(c) =>
      var f := s.followers[c];
      if f.cursor < 1 then s
      else if f.cursor >= |s.log| then
        Send(s.(followers := s.followers[c := f.(cursor := f.cursor - 1)]), c, Update)
      else if f.cursor >= |s.log| - 1 then Send(s, c, Data)
      else s
  }

  ghost predicate HasLine(copy: seq<Held>, i: int) {
    exists j :: 0 <= j < |copy| && copy[j].index == i
  }

  // ---- What a send delivers --------------------------------------------------------------------

  ghost predicate InOrder(log: seq<Line>, from: nat, r: seq<Held>) {
    && (forall j :: 0 <= j < |r| ==> from <= r[j].index < |log| && r[j] == AsSent(log, r[j].index))
    && (forall j, k :: 0 <= j < k < |r| ==> r[j].index < r[k].index)
  }

  lemma OneMoreInOrder(log: seq<Line>, from: nat, rest: seq<Held>)
    requires from < |log| && InOrder(log, from + 1, rest)
    ensures InOrder(log, from, rest) && InOrder(log, from, [AsSent(log, from)] + rest)
  {
  }

  /** The lines sent come in order, once each, as they are in the log. */
  lemma {:induction false} SentInOrder(log: seq<Line>, from: nat)
    ensures InOrder(log, from, Sent(log, from))
    decreases |log| - from
  {
    if from < |log| {
      SentInOrder(log, from + 1);
      OneMoreInOrder(log, from, Sent(log, from + 1));
      assert [] + Sent(log, from + 1) == Sent(log, from + 1);
    }
  }

  /** Every line with text is sent. */
  lemma {:induction false} SentHas(log: seq<Line>, from: nat, i: nat)
    requires from <= i < |log| && log[i].text != ""
    ensures HasLine(Sent(log, from), i)
    decreases |log| - from
  {
    var r := Sent(log, from);
    if i == from {
      assert r[0].index == i;
    } else {
      SentHas(log, from + 1, i);
      var rest := Sent(log, from + 1);
      var j :| 0 <= j < |rest| && rest[j].index == i;
      assert r[|r| - |rest| + j] == rest[j];
    }
  }

  lemma SentLast(log: seq<Line>)
    requires log != []
    ensures var n := |log| - 1;
      Sent(log, n) == if log[n].text == "" then [] else [AsSent(log, n)]
  {
    assert Sent(log, |log|) == [];
  }

  // ---- Cursors -----------------------------------------------------------------------------------

  ghost predicate CursorsInLog(s: State) {
    forall c :: 0 <= c < |s.followers| ==> s.followers[c].cursor <= |s.log|
  }

  lemma StepKeepsCursors(s: State, e: Event)
    requires CursorsInLog(s) && Possible(s, e)
    ensures CursorsInLog(Next(s, e))
  {
  }

  function AfterAll(s: State, events: seq<Event>): State
    decreases events
  {
    if events == [] || !Possible(s, events[0]) then s else AfterAll(Next(s, events[0]), events[1..])
  }

  /** Over every run, with any number of connections, no cursor is ever beyond the log. */
  lemma {:induction false} CursorsStayInLog(s: State, events: seq<Event>)
    requires CursorsInLog(s)
    ensures CursorsInLog(AfterAll(s, events))
    decreases events
  {
    if events != [] && Possible(s, events[0]) {
      StepKeepsCursors(s, events[0]);
      CursorsStayInLog(Next(s, events[0]), events[1..]);
    }
  }

  // ---- Completeness ------------------------------------------------------------------------------

  /** The client holds every line below its cursor that has text, in order, once each, and
      nothing from beyond the cursor. */
  ghost predicate Complete(log: seq<Line>, f: Follower) {
    && f.cursor <= |log|
    && (forall j :: 0 <= j < |f.copy| ==> f.copy[j].index < f.cursor)
    && (forall j, k :: 0 <= j < k < |f.copy| ==> f.copy[j].index < f.copy[k].index)
    && (forall i :: 0 <= i < f.cursor && log[i].text != "" ==> HasLine(f.copy, i))
  }

  /** An update that gives text to a line this client was never sent, as it had none then. */
  ghost predicate Revives(s: State, e: Event, c: nat)
    requires c < |s.followers|
  {
    && e.UpdateLast? && e.text != "" && s.log != []
    && s.followers[c].cursor == |s.log| && !HasLine(s.followers[c].copy, |s.log| - 1)
  }

  lemma HasInEither(a: seq<Held>, b: seq<Held>, i: nat)
    requires HasLine(a, i) || HasLine(b, i)
    ensures HasLine(a + b, i)
  {
    if HasLine(a, i) {
      var j :| 0 <= j < |a| && a[j].index == i;
      assert (a + b)[j].index == i;
    } else {
      var j :| 0 <= j < |b| && b[j].index == i;
      assert (a + b)[|a| + j].index == i;
    }
  }

  lemma SendCompletes(log: seq<Line>, f: Follower)
    requires Complete(log, f)
    ensures Complete(Stripped(log, f.cursor), Follower(|log|, Receive(f.copy, Data, Sent(log, f.cursor))))
  {
    SentInOrder(log, f.cursor);
    var sent := Sent(log, f.cursor);
    forall i | 0 <= i < |log| && log[i].text != ""
      ensures HasLine(f.copy + sent, i)
    {
      if i >= f.cursor { SentHas(log, f.cursor, i); }
      HasInEither(f.copy, sent, i);
    }
  }

  lemma LastHeldIsLastLine(log: seq<Line>, f: Follower)
    requires Complete(log, f) && log != [] && f.cursor == |log| && HasLine(f.copy, |log| - 1)
    ensures f.copy != [] && f.copy[|f.copy| - 1].index == |log| - 1
  {
    var j :| 0 <= j < |f.copy| && f.copy[j].index == |log| - 1;
    assert f.copy[|f.copy| - 1].index >= f.copy[j].index;
  }

  /** Completeness depends on the indices a client holds and on which lines have text. */
  lemma SameIndices(log: seq<Line>, log': seq<Line>, f: Follower, r: seq<Held>)
    requires Complete(log, f) && |log'| == |log| && |r| == |f.copy|
    requires forall j :: 0 <= j < |r| ==> r[j].index == f.copy[j].index
    requires forall i :: 0 <= i < |log| && log'[i].text != "" ==> log[i].text != ""
    ensures Complete(log', Follower(f.cursor, r))
  {
    forall i | 0 <= i < f.cursor && log'[i].text != ""
      ensures HasLine(r, i)
    {
      assert HasLine(f.copy, i);
      var j :| 0 <= j < |f.copy| && f.copy[j].index == i;
      assert r[j].index == i;
    }
  }

  lemma ResendCompletes(log: seq<Line>, f: Follower)
    requires Complete(log, f) && log != [] && f.cursor == |log|
    ensures Complete(Stripped(log, |log| - 1), Follower(|log|, Receive(f.copy, Update, Sent(log, |log| - 1))))
  {
    assert log[|log| - 1].text != "" ==> HasLine(f.copy, |log| - 1);
    hide Complete, Sent;
    SentLast(log);
    if log[|log| - 1].text != "" {
      LastHeldIsLastLine(log, f);
    }
    SameIndices(log, Stripped(log, |log| - 1), f, Receive(f.copy, Update, Sent(log, |log| - 1)));
  }

  /** Stripping takes text from lines, never gives any. */
  lemma StripKeepsComplete(log: seq<Line>, from: nat, f: Follower)
    requires Complete(log, f)
    ensures Complete(Stripped(log, from), f)
  {
  }

  /** Requests, of this connection or another, keep it complete. */
  lemma RequestKeepsComplete(s: State, e: Event, c: nat)
    requires Possible(s, e) && c < |s.followers| && Complete(s.log, s.followers[c])
    requires e.AskAll? || e.AskNew? || e.AskLast?
    ensures Complete(Next(s, e).log, Next(s, e).followers[c])
  {
    var f := s.followers[c];
    var d := e.c;
    var g := s.followers[d];
    if d != c {
      StripKeepsComplete(s.log, if e.AskAll? then 0 else g.cursor, f);
      if s.log != [] { StripKeepsComplete(s.log, |s.log| - 1, f); }
    } else if e.AskAll? {
      SendCompletes(s.log, Follower(0, []));
    } else {
      assert f.cursor <= |s.log|;
      hide Complete;
      SendCompletes(s.log, f);
      if e.AskLast? && 1 <= f.cursor == |s.log| { ResendCompletes(s.log, f); }
    }
  }

  /** One event keeps a connection complete unless it revives a line that was skipped. */
  lemma StepKeepsComplete(s: State, e: Event, c: nat)
    requires Possible(s, e) && c < |s.followers| && Complete(s.log, s.followers[c])
    ensures Complete(Next(s, e).log, Next(s, e).followers[c]) <==> !Revives(s, e, c)
  {
    if e.AskAll? || e.AskNew? || e.AskLast? {
      RequestKeepsComplete(s, e, c);
    } else if e.UpdateLast? && e.text != "" && s.followers[c].cursor == |s.log| {
      assert Next(s, e).log[|s.log| - 1].text != "";
    }
  }

  ghost predicate AlwaysComplete(s: State, events: seq<Event>, c: nat)
    requires c < |s.followers|
    decreases events
  {
    && Complete(s.log, s.followers[c])
    && (events != [] && Possible(s, events[0]) ==> AlwaysComplete(Next(s, events[0]), events[1..], c))
  }

  ghost predicate NeverRevives(s: State, events: seq<Event>, c: nat)
    requires c < |s.followers|
    decreases events
  {
    events != [] && Possible(s, events[0]) ==>
      !Revives(s, events[0], c) && NeverRevives(Next(s, events[0]), events[1..], c)
  }

  /** Over every run, with any number of connections: a client is complete at all times exactly
      when no update ever revives a line that its connection had skipped. */
  lemma {:induction false} CompleteExactlyWithoutRevival(s: State, events: seq<Event>, c: nat)
    requires c < |s.followers| && Complete(s.log, s.followers[c])
    ensures AlwaysComplete(s, events, c) <==> NeverRevives(s, events, c)
    decreases events
  {
    if events != [] && Possible(s, events[0]) {
      StepKeepsComplete(s, events[0], c);
      if !Revives(s, events[0], c) {
        CompleteExactlyWithoutRevival(Next(s, events[0]), events[1..], c);
      }
    }
  }

  /** What the writer of the log can check: an update of a line that has text revives nothing. */
  lemma UpdatingTextRevivesNothing(s: State, text: string, c: nat)
    requires c < |s.followers| && Complete(s.log, s.followers[c])
    requires s.log != [] && s.log[|s.log| - 1].text != ""
    ensures !Revives(s, UpdateLast(text), c)
  {
    if s.followers[c].cursor == |s.log| {
      assert HasLine(s.followers[c].copy, |s.log| - 1);
    }
  }

  /** A revived line replaces the line before it in the client's copy. */
  lemma RevivedLineReplacesAnother()
    ensures var log := [Line("a", ""), Line("b", "")];
      var s := State([log[0], Line("", "")], [Follower(2, [Held(0, "a", "")])]);
      && Complete(s.log, s.followers[0])
      && Next(Next(s, UpdateLast("b")), AskLast(0)).followers[0].copy == [Held(1, "b", "")]
  {
    var log := [Line("a", ""), Line("b", "")];
    var s := State([log[0], Line("", "")], [Follower(2, [Held(0, "a", "")])]);
    assert HasLine(s.followers[0].copy, 0) by {
      assert s.followers[0].copy[0].index == 0;
    }
    var s1 := Next(s, UpdateLast("b"));
    assert s1.log == log;
    SentLast(s1.log);
  }

  // ---- Freshness ---------------------------------------------------------------------------------

  /** A text without its trailing newlines, which sending strips one at a time. */
  function Bare(text: string): string {
    if text != "" && text[|text| - 1] == '\n' then Bare(text[..|text| - 1]) else text
  }

  predicate FreshLine(log: seq<Line>, h: Held) {
    h.index < |log| && Bare(h.text) == Bare(log[h.index].text) && h.status == log[h.index].status
  }

  /** What the client holds of the first `n` lines is what the log says. */
  predicate FreshBelow(log: seq<Line>, copy: seq<Held>, n: int) {
    forall j :: 0 <= j < |copy| && copy[j].index < n ==> FreshLine(log, copy[j])
  }

  /** Complete, and up to date but for the log's last line. */
  ghost predicate InStep(s: State, c: nat)
    requires c < |s.followers|
  {
    Complete(s.log, s.followers[c]) && FreshBelow(s.log, s.followers[c].copy, |s.log| - 1)
  }

  lemma StripKeepsFresh(log: seq<Line>, from: nat, h: Held)
    ensures FreshLine(Stripped(log, from), h) <==> FreshLine(log, h)
  {
  }

  lemma SentIsFresh(log: seq<Line>, from: nat, n: int)
    ensures FreshBelow(Stripped(log, from), Sent(log, from), n)
  {
    SentInOrder(log, from);
    forall j | 0 <= j < |Sent(log, from)|
      ensures FreshLine(Stripped(log, from), Sent(log, from)[j])
    {
      StripKeepsFresh(log, from, Sent(log, from)[j]);
    }
  }

  lemma KeptFresh(log: seq<Line>, from: nat, copy: seq<Held>, n: int)
    ensures FreshBelow(Stripped(log, from), copy, n) <==> FreshBelow(log, copy, n)
  {
    forall j | 0 <= j < |copy|
      ensures FreshLine(Stripped(log, from), copy[j]) <==> FreshLine(log, copy[j])
    {
      StripKeepsFresh(log, from, copy[j]);
    }
  }

  lemma SentToFresh(log: seq<Line>, from: nat, copy: seq<Held>, kind: Kind, n: int)
    requires FreshBelow(log, copy, n)
    ensures FreshBelow(Stripped(log, from), Receive(copy, kind, Sent(log, from)), n)
  {
    KeptFresh(log, from, copy, n);
    SentIsFresh(log, from, n);
    hide FreshLine;
    var r := Receive(copy, kind, Sent(log, from));
    assert forall j :: 0 <= j < |r| ==> r[j] in copy || r[j] in Sent(log, from);
  }

  lemma RequestKeepsFresh(s: State, e: Event, c: nat, n: int)
    requires Possible(s, e) && c < |s.followers|
    requires FreshBelow(s.log, s.followers[c].copy, n)
    requires e.AskAll? || e.AskNew? || e.AskLast?
    ensures FreshBelow(Next(s, e).log, Next(s, e).followers[c].copy, n)
  {
    hide FreshBelow;
    var copy, cursor := s.followers[c].copy, s.followers[e.c].cursor;
    var from := if e.AskAll? then 0 else if e.AskLast? && 1 <= cursor == |s.log| then cursor - 1 else cursor;
    KeptFresh(s.log, from, copy, n);
    SentToFresh(s.log, from, copy, if from == cursor then Data else Update, n);
    SentIsFresh(s.log, 0, n);
    assert [] + Sent(s.log, 0) == Sent(s.log, 0);
    if from >= |s.log| { NothingToSend(s.log, from); }
  }

  // ---- What the server has shown -------------------------------------------------------------------

  /** Whether a request of connection `c` makes the server send it the last line of the log. */
  predicate Delivers(s: State, e: Event, c: nat)
    requires c < |s.followers|
  {
    var n, cursor := |s.log|, s.followers[c].cursor;
    && n > 0 && s.log[n - 1].text != ""
    && match e
       case AskAll(d) => d == c
       case AskNew(d) => d == c && cursor < n
       case AskLast(d) => d == c && cursor >= 1 && cursor >= n - 1
       case _ => false
  }

  /** The history of a connection: the log's last line as it was when the server last sent it
      there, or nothing when it has not. */
  function NextShown(s: State, e: Event, c: nat, shown: Option<Line>): Option<Line>
    requires c < |s.followers|
  {
    if e.Append? then None
    else if Delivers(s, e, c) then Some(s.log[|s.log| - 1])
    else if e == AskAll(c) then None
    else shown
  }

  ghost predicate HoldsShown(copy: seq<Held>, n: nat, v: Line) {
    && n > 0 && copy != []
    && var h := copy[|copy| - 1];
       h.index == n - 1 && Bare(h.text) == Bare(v.text) && h.status == v.status
  }

  /** The history says what the client holds of the last line. */
  ghost predicate Linked(n: nat, copy: seq<Held>, shown: Option<Line>) {
    match shown
    case None => !HasLine(copy, n - 1)
    case Some(v) => HoldsShown(copy, n, v)
  }

  lemma {:induction false} SentSkips(log: seq<Line>, from: nat, i: nat)
    requires i < |log| && log[i].text == ""
    ensures !HasLine(Sent(log, from), i)
    decreases |log| - from
  {
    if from < |log| {
      SentSkips(log, from + 1, i);
      var r, rest := Sent(log, from), Sent(log, from + 1);
      forall j | 0 <= j < |r|
        ensures r[j].index != i
      {
        if |r| == |rest| { assert rest[j].index != i; } else if j > 0 { assert rest[j - 1].index != i; }
      }
    }
  }

  /** A send that reaches the last line leaves it as the client's last, if it has text. */
  lemma SentLinks(log: seq<Line>, from: nat, copy: seq<Held>)
    requires from < |log| && forall j :: 0 <= j < |copy| ==> copy[j].index < from
    ensures var last := log[|log| - 1];
      Linked(|log|, copy + Sent(log, from), if last.text == "" then None else Some(last))
  {
    var n, sent := |log| - 1, Sent(log, from);
    SentInOrder(log, from);
    if log[n].text == "" {
      SentSkips(log, from, n);
    } else {
      SentHas(log, from, n);
      var j :| 0 <= j < |sent| && sent[j].index == n;
      assert j == |sent| - 1;
      assert (copy + sent)[|copy + sent| - 1] == AsSent(log, n);
    }
  }

  /** An update message changes the client's last line to what is sent. */
  lemma ResentLinks(log: seq<Line>, f: Follower, shown: Option<Line>)
    requires Complete(log, f) && log != [] && f.cursor == |log| && Linked(|log|, f.copy, shown)
    ensures var last := log[|log| - 1];
      Linked(|log|, Receive(f.copy, Update, Sent(log, |log| - 1)), if last.text == "" then shown else Some(last))
  {
    SentLast(log);
    if log[|log| - 1].text != "" {
      assert HasLine(f.copy, |log| - 1);
      LastHeldIsLastLine(log, f);
    }
  }

  lemma NothingBeyondLog(log: seq<Line>, f: Follower)
    requires Complete(log, f)
    ensures !HasLine(f.copy, |log|)
  {
  }

  lemma SendLinks(log: seq<Line>, f: Follower)
    requires Complete(log, f) && f.cursor < |log|
    ensures var last := log[|log| - 1];
      Linked(|log|, Receive(f.copy, Data, Sent(log, f.cursor)), if last.text == "" then None else Some(last))
    ensures !HasLine(f.copy, |log| - 1)
  {
    SentLinks(log, f.cursor, f.copy);
  }

  /** What was shown of a line is beyond what a connection behind it can have got. */
  lemma ShownIsBelowCursor(log: seq<Line>, f: Follower, shown: Option<Line>)
    requires Complete(log, f) && Linked(|log|, f.copy, shown) && shown.Some?
    ensures f.cursor == |log| >= 1
  {
    assert f.copy[|f.copy| - 1].index < f.cursor;
  }

  lemma OwnRequestShown(s: State, e: Event, c: nat, shown: Option<Line>)
    requires Possible(s, e) && c < |s.followers| && Complete(s.log, s.followers[c])
    requires Linked(|s.log|, s.followers[c].copy, shown) && (e == AskNew(c) || e == AskLast(c))
    ensures Linked(|Next(s, e).log|, Next(s, e).followers[c].copy, NextShown(s, e, c, shown))
  {
    var f, n := s.followers[c], |s.log|;
    assert f.cursor <= n;
    hide Complete, Stripped, Sent, Linked, Receive, HasLine;
    if shown.Some? { ShownIsBelowCursor(s.log, f, shown); }
    if f.cursor < n {
      SendLinks(s.log, f);
      UnshownLinks(n, f.copy, shown);
    } else if e.AskLast? && 1 <= f.cursor {
      ResentLinks(s.log, f, shown);
    }
  }

  lemma UnshownLinks(n: nat, copy: seq<Held>, shown: Option<Line>)
    requires Linked(n, copy, shown)
    ensures shown.None? <==> !HasLine(copy, n - 1)
  {
    if shown.Some? { assert copy[|copy| - 1].index == n - 1; }
  }

  /** The history stays true, whatever happens. */
  lemma ShownStaysTrue(s: State, e: Event, c: nat, shown: Option<Line>)
    requires Possible(s, e) && c < |s.followers| && Complete(s.log, s.followers[c])
    requires Linked(|s.log|, s.followers[c].copy, shown)
    ensures Linked(|Next(s, e).log|, Next(s, e).followers[c].copy, NextShown(s, e, c, shown))
  {
    var n := |s.log|;
    assert !HasLine([], n - 1);
    hide Complete, Stripped, Sent, HoldsShown, HasLine;
    if e.Append? {
      NothingBeyondLog(s.log, s.followers[c]);
    } else if e == AskAll(c) {
      if n > 0 { SentLinks(s.log, 0, []); }
    } else if e == AskNew(c) || e == AskLast(c) {
      OwnRequestShown(s, e, c, shown);
    }
  }

  /** Nothing was shown of the last line, or it has not changed since. */
  predicate Current(shown: Option<Line>, last: Line) {
    shown.None? || (Bare(shown.value.text) == Bare(last.text) && shown.value.status == last.status)
  }

  // ---- In step -------------------------------------------------------------------------------------

  /** A text given to a line that had been passed over for this connection, or a line queued when
      the one before it has changed since it was last sent there. */
  predicate Breaks(s: State, e: Event, c: nat, shown: Option<Line>)
    requires c < |s.followers|
  {
    match e
    case UpdateLast(text) => text != "" && s.followers[c].cursor == |s.log| && shown.None?
    case Append(_) => s.log != [] && !Current(shown, s.log[|s.log| - 1])
    case _ => false
  }

  /** The last line is out of date at the client exactly when it changed since it was shown. */
  lemma WhenLastIsStale(log: seq<Line>, f: Follower, shown: Option<Line>)
    requires Complete(log, f) && log != [] && Linked(|log|, f.copy, shown)
    requires FreshBelow(log, f.copy, |log| - 1)
    ensures FreshBelow(log, f.copy, |log|) <==> Current(shown, log[|log| - 1])
  {
    var n := |log| - 1;
    if shown.Some? {
      var h := f.copy[|f.copy| - 1];
      assert FreshLine(log, h) <==> Bare(h.text) == Bare(log[n].text) && h.status == log[n].status;
      assert forall j :: 0 <= j < |f.copy| && f.copy[j].index == n ==> j == |f.copy| - 1;
    } else {
      assert forall j :: 0 <= j < |f.copy| ==> f.copy[j].index != n;
    }
  }

  /** A change of the last line leaves the client's copies of the others as fresh as they were. */
  lemma ChangeKeepsOthers(s: State, e: Event, copy: seq<Held>)
    requires Possible(s, e) && (e.UpdateLast? || e.SetStatus?)
    ensures FreshBelow(Next(s, e).log, copy, |s.log| - 1) <==> FreshBelow(s.log, copy, |s.log| - 1)
  {
    assert forall h :: h in copy && h.index < |s.log| - 1 ==>
      (FreshLine(Next(s, e).log, h) <==> FreshLine(s.log, h));
  }

  lemma AppendKeepsOthers(s: State, e: Event, f: Follower)
    requires Possible(s, e) && e.Append? && Complete(s.log, f)
    ensures FreshBelow(Next(s, e).log, f.copy, |s.log|) <==> FreshBelow(s.log, f.copy, |s.log|)
    ensures FreshBelow(Next(s, e).log, f.copy, |s.log| + 1) <==> FreshBelow(s.log, f.copy, |s.log|)
  {
    assert forall h :: h in f.copy ==>
      h.index < |s.log| && (FreshLine(Next(s, e).log, h) <==> FreshLine(s.log, h));
  }

  /** Given text, a line is revived exactly when it was never shown. */
  lemma RevivesUnshown(s: State, e: Event, c: nat, shown: Option<Line>)
    requires c < |s.followers| && Linked(|s.log|, s.followers[c].copy, shown)
    ensures Revives(s, e, c) <==>
      e.UpdateLast? && e.text != "" && s.log != [] && s.followers[c].cursor == |s.log| && shown.None?
  {
    UnshownLinks(|s.log|, s.followers[c].copy, shown);
  }

  /** One event keeps a connection in step unless it is one of these. */
  lemma StepKeepsInStep(s: State, e: Event, c: nat, shown: Option<Line>)
    requires Possible(s, e) && c < |s.followers| && InStep(s, c) && Linked(|s.log|, s.followers[c].copy, shown)
    ensures InStep(Next(s, e), c) <==> !Breaks(s, e, c, shown)
  {
    hide Complete, FreshBelow, Linked, Revives;
    StepKeepsComplete(s, e, c);
    RevivesUnshown(s, e, c, shown);
    match e
    case Append(_) =>
      AppendKeepsOthers(s, e, s.followers[c]);
      if s.log != [] {
        WhenLastIsStale(s.log, s.followers[c], shown);
      } else {
        NothingIsFresh(s.log, s.followers[c]);
      }
    case UpdateLast(_) => ChangeKeepsOthers(s, e, s.followers[c].copy);
    case SetStatus(_) => ChangeKeepsOthers(s, e, s.followers[c].copy);
    case _ => RequestKeepsFresh(s, e, c, |s.log| - 1);
  }

  lemma NothingIsFresh(log: seq<Line>, f: Follower)
    requires Complete(log, f) && log == []
    ensures FreshBelow(log, f.copy, 0)
  {
  }

  ghost predicate AlwaysInStep(s: State, events: seq<Event>, c: nat)
    requires c < |s.followers|
    decreases events
  {
    && InStep(s, c)
    && (events != [] && Possible(s, events[0]) ==> AlwaysInStep(Next(s, events[0]), events[1..], c))
  }

  predicate NeverBroken(s: State, events: seq<Event>, c: nat, shown: Option<Line>)
    requires c < |s.followers|
    decreases events
  {
    events != [] && Possible(s, events[0]) ==>
      && !Breaks(s, events[0], c, shown)
      && NeverBroken(Next(s, events[0]), events[1..], c, NextShown(s, events[0], c, shown))
  }

  /** Over every run: the client's copy is complete and up to date but for the last line, at all
      times, exactly when no line that was passed over is given text and no line is queued while
      the one before it differs from what was last sent. */
  lemma {:induction false} InStepExactlyUnbroken(s: State, events: seq<Event>, c: nat, shown: Option<Line>)
    requires c < |s.followers| && InStep(s, c) && Linked(|s.log|, s.followers[c].copy, shown)
    ensures AlwaysInStep(s, events, c) <==> NeverBroken(s, events, c, shown)
    decreases events
  {
    if events != [] && Possible(s, events[0]) {
      StepKeepsInStep(s, events[0], c, shown);
      ShownStaysTrue(s, events[0], c, shown);
      if InStep(Next(s, events[0]), c) {
        InStepExactlyUnbroken(Next(s, events[0]), events[1..], c, NextShown(s, events[0], c, shown));
      }
    }
  }

  // ---- Answered notifications ----------------------------------------------------------------------

  /** The request that a change of the log queues for every connection it is announced to. */
  function Announced(e: Event, c: nat): Option<Event> {
    match e
    case Append(text) =>
      var stored := if |text| <= TEXT_LIMIT then text else text[..TEXT_LIMIT];
      if stored != "" && stored[|stored| - 1] == '\n' then Some(AskNew(c)) else None
    case UpdateLast(_) => Some(AskLast(c))
    case SetStatus(_) => Some(AskNew(c))
    case _ => None
  }

  /** An event, and the request it announces to connection `c`, served at once. */
  function Served(s: State, e: Event, c: nat): (s': State)
    requires Possible(s, e) && c < |s.followers|
    ensures |s'.followers| == |s.followers|
  {
    var s1 := Next(s, e);
    var request := Announced(e, c);
    if request.None? then s1 else Next(s1, request.value)
  }

  function ServedShown(s: State, e: Event, c: nat, shown: Option<Line>): Option<Line>
    requires Possible(s, e) && c < |s.followers|
  {
    var s1, shown1, request := Next(s, e), NextShown(s, e, c, shown), Announced(e, c);
    if request.None? then shown1 else NextShown(s1, request.value, c, shown1)
  }

  /** Complete, and up to date to the last line. */
  ghost predicate UpToDate(s: State, c: nat)
    requires c < |s.followers|
  {
    Complete(s.log, s.followers[c]) && FreshBelow(s.log, s.followers[c].copy, |s.log|)
  }

  /** What the announcement does not deliver: a new status of a line that was shown, the loss of
      its text, and a text given to a line that was passed over. */
  predicate Misses(s: State, e: Event, c: nat, shown: Option<Line>)
    requires c < |s.followers| && Possible(s, e)
  {
    match e
    case SetStatus(status) => shown.Some? && status != s.log[|s.log| - 1].status
    case UpdateLast(text) =>
      if text == "" then shown.Some? && Bare(s.log[|s.log| - 1].text) != ""
      else shown.None? && s.followers[c].cursor == |s.log|
    case _ => false
  }

  lemma StripKeepsBare(log: seq<Line>, from: nat, i: nat)
    requires i < |log|
    ensures Bare(Stripped(log, from)[i].text) == Bare(log[i].text)
    ensures Stripped(log, from)[i].status == log[i].status
  {
  }

  /** A request at most strips the log. */
  lemma RequestKeepsLast(s: State, e: Event)
    requires Possible(s, e) && (e.AskAll? || e.AskNew? || e.AskLast?) && s.log != []
    ensures var n, log' := |s.log| - 1, Next(s, e).log;
      |log'| == n + 1 && Bare(log'[n].text) == Bare(s.log[n].text) && log'[n].status == s.log[n].status
  {
    var n, cursor := |s.log| - 1, s.followers[e.c].cursor;
    StripKeepsBare(s.log, if e.AskAll? then 0 else cursor, n);
    StripKeepsBare(s.log, n, n);
    StripKeepsBare(s.log, if cursor >= 1 then cursor - 1 else 0, n);
  }

  /** Whether a request leaves the client up to date is told by what it has then been shown. */
  lemma AfterRequest(s: State, e: Event, c: nat, shown: Option<Line>)
    requires Possible(s, e) && (e.AskAll? || e.AskNew? || e.AskLast?) && c < |s.followers| && s.log != []
    requires InStep(s, c) && Linked(|s.log|, s.followers[c].copy, shown)
    ensures Linked(|Next(s, e).log|, Next(s, e).followers[c].copy, NextShown(s, e, c, shown))
    ensures UpToDate(Next(s, e), c) <==> Current(NextShown(s, e, c, shown), s.log[|s.log| - 1])
  {
    hide Complete, FreshBelow, Linked, Next, NextShown, Bare;
    RequestKeepsComplete(s, e, c);
    RequestKeepsFresh(s, e, c, |s.log| - 1);
    ShownStaysTrue(s, e, c, shown);
    RequestKeepsLast(s, e);
    WhenLastIsStale(Next(s, e).log, Next(s, e).followers[c], NextShown(s, e, c, shown));
  }

  /** What the request after a change leaves undelivered. */
  lemma MissesOf(s: State, e: Event, c: nat, shown: Option<Line>)
    requires Possible(s, e) && c < |s.followers| && (e.UpdateLast? || e.SetStatus?)
    requires s.followers[c].cursor <= |s.log| && Current(shown, s.log[|s.log| - 1])
    requires shown.Some? ==> s.followers[c].cursor == |s.log|
    ensures NextShown(s, e, c, shown) == shown
    ensures var s1 := Next(s, e);
      var revived := e.UpdateLast? && e.text != "" && s.followers[c].cursor == |s.log| && shown.None?;
      Misses(s, e, c, shown) <==> revived || !Current(ServedShown(s, e, c, shown), s1.log[|s1.log| - 1])
  {
    assert Bare("") == "";
  }

  lemma ServedChange(s: State, e: Event, c: nat, shown: Option<Line>)
    requires Possible(s, e) && c < |s.followers| && UpToDate(s, c) && Linked(|s.log|, s.followers[c].copy, shown)
    requires e.UpdateLast? || e.SetStatus?
    ensures Complete(Next(s, e).log, Next(s, e).followers[c]) && UpToDate(Served(s, e, c), c) <==>
            !Misses(s, e, c, shown)
    ensures !Misses(s, e, c, shown) ==>
      Linked(|Served(s, e, c).log|, Served(s, e, c).followers[c].copy, ServedShown(s, e, c, shown))
  {
    hide Linked, Revives, NextShown, Misses, Current, HasLine;
    var f, s1 := s.followers[c], Next(s, e);
    assert FreshBelow(s.log, f.copy, |s.log| - 1) && f.cursor <= |s.log|;
    hide Complete, FreshBelow;
    WhenLastIsStale(s.log, f, shown);
    StepKeepsComplete(s, e, c);
    RevivesUnshown(s, e, c, shown);
    ChangeKeepsOthers(s, e, f.copy);
    if shown.Some? { ShownIsBelowCursor(s.log, f, shown); }
    MissesOf(s, e, c, shown);
    if Complete(s1.log, f) {
      AfterRequest(s1, Announced(e, c).value, c, shown);
    }
  }

  lemma ServedAppend(s: State, e: Event, c: nat, shown: Option<Line>)
    requires Possible(s, e) && c < |s.followers| && UpToDate(s, c) && Linked(|s.log|, s.followers[c].copy, shown)
    requires e.Append?
    ensures Complete(Next(s, e).log, Next(s, e).followers[c]) && UpToDate(Served(s, e, c), c)
    ensures Linked(|Served(s, e, c).log|, Served(s, e, c).followers[c].copy, ServedShown(s, e, c, shown))
  {
    hide Complete, FreshBelow, Linked, Revives;
    var s1 := Next(s, e);
    StepKeepsComplete(s, e, c);
    RevivesUnshown(s, e, c, shown);
    AppendKeepsOthers(s, e, s.followers[c]);
    ShownStaysTrue(s, e, c, shown);
    if Announced(e, c).Some? {
      RequestKeepsComplete(s1, AskNew(c), c);
      RequestKeepsFresh(s1, AskNew(c), c, |s1.log|);
      ShownStaysTrue(s1, AskNew(c), c, None);
    }
  }

  /** An event and its answer keep a client up to date unless it is one of these. */
  lemma ServedStep(s: State, e: Event, c: nat, shown: Option<Line>)
    requires Possible(s, e) && c < |s.followers| && UpToDate(s, c) && Linked(|s.log|, s.followers[c].copy, shown)
    ensures Complete(Next(s, e).log, Next(s, e).followers[c]) && UpToDate(Served(s, e, c), c) <==>
            !Misses(s, e, c, shown)
    ensures !Misses(s, e, c, shown) ==>
      Linked(|Served(s, e, c).log|, Served(s, e, c).followers[c].copy, ServedShown(s, e, c, shown))
  {
    hide Complete, FreshBelow, Linked;
    if e.Append? {
      ServedAppend(s, e, c, shown);
    } else if e.UpdateLast? || e.SetStatus? {
      ServedChange(s, e, c, shown);
    } else {
      RequestKeepsComplete(s, e, c);
      RequestKeepsFresh(s, e, c, |s.log|);
      ShownStaysTrue(s, e, c, shown);
    }
  }

  ghost predicate AlwaysUpToDate(s: State, events: seq<Event>, c: nat)
    requires c < |s.followers|
    decreases events
  {
    && UpToDate(s, c)
    && (events != [] && Possible(s, events[0]) ==>
          && Complete(Next(s, events[0]).log, Next(s, events[0]).followers[c])
          && AlwaysUpToDate(Served(s, events[0], c), events[1..], c))
  }

  predicate NeverMisses(s: State, events: seq<Event>, c: nat, shown: Option<Line>)
    requires c < |s.followers|
    decreases events
  {
    events != [] && Possible(s, events[0]) ==>
      && !Misses(s, events[0], c, shown)
      && NeverMisses(Served(s, events[0], c), events[1..], c, ServedShown(s, events[0], c, shown))
  }

  /** Over every run in which each announcement to a connection is served at once: its client is
      complete at all times and up to date after each, exactly when no status of a shown line
      changes, no shown line loses its text, and no line that was passed over gains some. */
  lemma {:induction false} UpToDateExactlyWithoutMisses(s: State, events: seq<Event>, c: nat, shown: Option<Line>)
    requires c < |s.followers| && UpToDate(s, c) && Linked(|s.log|, s.followers[c].copy, shown)
    ensures AlwaysUpToDate(s, events, c) <==> NeverMisses(s, events, c, shown)
    decreases events
  {
    if events != [] && Possible(s, events[0]) {
      ServedStep(s, events[0], c, shown);
      if !Misses(s, events[0], c, shown) {
        UpToDateExactlyWithoutMisses(Served(s, events[0], c), events[1..], c, ServedShown(s, events[0], c, shown));
      }
    }
  }

  /** Both hold from the moment a connection is new, whatever the log then is. */
  lemma NewConnection(s: State, events: seq<Event>, c: nat)
    requires c < |s.followers| && s.followers[c] == Follower(0, [])
    ensures AlwaysInStep(s, events, c) <==> NeverBroken(s, events, c, None)
    ensures AlwaysUpToDate(s, events, c) <==> NeverMisses(s, events, c, None)
  {
    InStepExactlyUnbroken(s, events, c, None);
    UpToDateExactlyWithoutMisses(s, events, c, None);
  }

  /** A status set when the client has all lines is announced by a request that sends nothing, so
      it stays out of date; the request for the last line would bring it up to date, unless the
      line has no text. */
  lemma StatusIsNotDelivered(s: State, status: string, c: nat)
    requires s.log != [] && c < |s.followers| && UpToDate(s, c)
    requires s.followers[c].cursor == |s.log| && HasLine(s.followers[c].copy, |s.log| - 1)
    requires status != s.log[|s.log| - 1].status
    ensures var s1 := Next(s, SetStatus(status));
      && Announced(SetStatus(status), c) == Some(AskNew(c)) && Next(s1, AskNew(c)) == s1
      && !FreshBelow(s1.log, s1.followers[c].copy, |s1.log|)
      && (UpToDate(Next(s1, AskLast(c)), c) <==> s.log[|s.log| - 1].text != "")
  {
    LastHeldIsLastLine(s.log, s.followers[c]);
    var s1, copy := Next(s, SetStatus(status)), s.followers[c].copy;
    assert FreshLine(s.log, copy[|copy| - 1]) && !FreshLine(s1.log, copy[|copy| - 1]);
    StepKeepsComplete(s, SetStatus(status), c);
    ChangeKeepsOthers(s, SetStatus(status), copy);
    AskLastRefreshes(s1, c);
    RequestKeepsComplete(s1, AskLast(c), c);
  }

  /** Asking for the last line brings a client that has followed to the end up to date, exactly
      when the line still has text or was up to date already. */
  lemma AskLastRefreshes(s: State, c: nat)
    requires c < |s.followers| && InStep(s, c) && s.log != [] && s.followers[c].cursor == |s.log|
    ensures var s' := Next(s, AskLast(c));
      FreshBelow(s'.log, s'.followers[c].copy, |s.log|) <==>
      s.log[|s.log| - 1].text != "" || FreshBelow(s.log, s.followers[c].copy, |s.log|)
  {
    var f, last := s.followers[c], s.log[|s.log| - 1];
    var held := HasLine(f.copy, |s.log| - 1);
    if held { LastHeldIsLastLine(s.log, f); }
    var shown := if held then Some(Line(f.copy[|f.copy| - 1].text, f.copy[|f.copy| - 1].status)) else None;
    assert Linked(|s.log|, f.copy, shown);
    hide Complete, FreshBelow, Linked, Current, HasLine;
    WhenLastIsStale(s.log, f, shown);
    AfterRequest(s, AskLast(c), c, shown);
    RequestKeepsComplete(s, AskLast(c), c);
    LastIsCurrent(last);
  }

  lemma LastIsCurrent(last: Line)
    ensures Current(Some(last), last)
  {
  }

  // ---- What a client reads -------------------------------------------------------------------------

  /** `sent` are the lines of the log from `from` on that have text: each once, in order, with its
      status, and with its text less one newline at the end if there is one. */
  ghost predicate Reads(log: seq<Line>, from: nat, sent: seq<Held>) {
    && (forall j :: 0 <= j < |sent| ==> ReadsLine(log, from, sent[j]))
    && (forall j, k :: 0 <= j < k < |sent| ==> sent[j].index < sent[k].index)
    && (forall i :: from <= i < |log| && log[i].text != "" ==> HasLine(sent, i))
  }

  predicate ReadsLine(log: seq<Line>, from: nat, h: Held) {
    && from <= h.index < |log| && log[h.index].text != "" && h.status == log[h.index].status
    && var text, n := log[h.index].text, |log[h.index].text|;
       h.text == if text[n - 1] == '\n' then text[..n - 1] else text
  }

  lemma SentReads(log: seq<Line>, from: nat)
    ensures Reads(log, from, Sent(log, from))
  {
    var sent := Sent(log, from);
    SentInOrder(log, from);
    forall j | 0 <= j < |sent|
      ensures ReadsLine(log, from, sent[j])
    {
      if log[sent[j].index].text == "" {
        SentSkips(log, from, sent[j].index);
      }
    }
    forall i | from <= i < |log| && log[i].text != ""
      ensures HasLine(sent, i)
    {
      SentHas(log, from, i);
    }
  }

  /** Sending takes one newline off each line sent, in the log too, and changes nothing else. */
  lemma SendingStrips(log: seq<Line>, from: nat, i: nat)
    requires i < |log|
    ensures var text, n := log[i].text, |log[i].text|;
      && |Stripped(log, from)| == |log| && Stripped(log, from)[i].status == log[i].status
      && Stripped(log, from)[i].text == if i >= from && n > 0 && text[n - 1] == '\n' then text[..n - 1] else text
  {
  }

  /** What the request for everything brings. Nobody else's copy or cursor changes. */
  lemma AskAllReads(s: State, c: nat)
    requires c < |s.followers| && s.log != []
    ensures var s' := Next(s, AskAll(c));
      && Reads(s.log, 0, s'.followers[c].copy) && s'.followers[c].cursor == |s.log|
      && s'.log == Stripped(s.log, 0) && s'.followers == s.followers[c := s'.followers[c]]
  {
    SentReads(s.log, 0);
    hide Reads;
    assert [] + Sent(s.log, 0) == Sent(s.log, 0);
  }

  /** What the request for new lines brings: everything from the cursor on, behind the copy. */
  lemma AskNewReads(s: State, c: nat)
    requires c < |s.followers| && s.followers[c].cursor <= |s.log|
    ensures var s', f := Next(s, AskNew(c)), s.followers[c];
      && f.copy <= s'.followers[c].copy && Reads(s.log, f.cursor, s'.followers[c].copy[|f.copy|..])
      && s'.followers[c].cursor == |s.log| && s'.followers == s.followers[c := s'.followers[c]]
      && s'.log == Stripped(s.log, f.cursor)
  {
    var f := s.followers[c];
    SentReads(s.log, f.cursor);
    hide Reads;
    if f.cursor == |s.log| {
      NothingToSend(s.log, |s.log|);
      assert f.copy[|f.copy|..] == [];
    } else {
      assert (f.copy + Sent(s.log, f.cursor))[|f.copy|..] == Sent(s.log, f.cursor);
    }
  }

  /** A queued line, end to end: a client that had all lines before gets exactly one more. It has
      the first 80 characters of the text, less one newline if they end in one, and the status
      that new lines have. No other line changes, in the log or at the client. */
  lemma QueuedLineArrives(s: State, text: string, c: nat)
    requires text != "" && c < |s.followers| && s.followers[c].cursor == |s.log|
    ensures var s1, kept := Next(s, Append(text)), if |text| <= 80 then text else text[..80];
      var s2, last := Next(s1, AskNew(c)), |kept| - 1;
      && s1.log == s.log + [Line(kept, "\r\n")] && s1.followers == s.followers
      && s2.log[..|s.log|] == s.log && |s2.log| == |s.log| + 1
      && s2.followers[c].copy ==
         s.followers[c].copy + [Held(|s.log|, if kept[last] == '\n' then kept[..last] else kept, "\r\n")]
  {
    SentLast(Next(s, Append(text)).log);
  }

  /** An updated last line, end to end, with the request that its announcement makes: it takes the
      place of the client's last line if the client had all lines, comes as a new one if it was
      the only one missing, and does not come at all if the client has none or misses more. An
      empty text is not sent. */
  lemma UpdatedLineArrives(s: State, text: string, c: nat)
    requires s.log != [] && |text| <= 80 && c < |s.followers| && s.followers[c].cursor <= |s.log|
    ensures var s1, n := Next(s, UpdateLast(text)), |s.log| - 1;
      var s2, f, last := Next(s1, AskLast(c)), s.followers[c], |text| - 1;
      && |s1.log| == |s2.log| == n + 1 && s1.log[..n] == s.log[..n]
      && s1.log[n] == Line(text, s.log[n].status) && s1.followers == s.followers
      && s2.followers[c].copy ==
         if f.cursor == 0 || f.cursor < n || text == "" then f.copy
         else
           var h := Held(n, if text[last] == '\n' then text[..last] else text, s.log[n].status);
           if f.cursor == n then f.copy + [h]
           else if f.copy == [] then []
           else f.copy[..|f.copy| - 1] + [h]
  {
    SentLast(Next(s, UpdateLast(text)).log);
  }

  /** A new status changes the last line's status and nothing else. */
  lemma StatusIsSet(s: State, status: string)
    requires s.log != []
    ensures var s1, n := Next(s, SetStatus(status)), |s.log| - 1;
      && s1.followers == s.followers && |s1.log| == n + 1
      && s1.log[..n] == s.log[..n] && s1.log[n] == Line(s.log[n].text, status)
  {
  }

  // ---- In place ------------------------------------------------------------------------------------

  function Followers(counts: seq<nat>, copies: seq<seq<Held>>): seq<Follower>
    requires |counts| == |copies|
  {
    seq(|counts|, c requires 0 <= c < |counts| => Follower(counts[c], copies[c]))
  }

  lemma FollowersAfter(counts: seq<nat>, copies: seq<seq<Held>>, c: nat, count: nat, copy: seq<Held>)
    requires c < |counts| == |copies|
    ensures Followers(counts[c := count], copies[c := copy]) == Followers(counts, copies)[c := Follower(count, copy)]
    ensures Followers(counts, copies)[c := Followers(counts, copies)[c]] == Followers(counts, copies)
  {
  }

  lemma NothingToSend(log: seq<Line>, from: nat)
    requires from >= |log|
    ensures Sent(log, from) == [] && Stripped(log, from) == log
  {
  }

  lemma SentFrom(log: seq<Line>, i: nat)
    requires i < |log|
    ensures Sent(log, i) == (if log[i].text == "" then Sent(log, i + 1) else [AsSent(log, i)] + Sent(log, i + 1))
  {
  }

  class Server {
    var testData: seq<Line>
    var testCount: seq<nat>

    /** `queueTestData`, without the notification of the connections. */
    method QueueTestData(text: string)
      requires text != ""
      modifies this`testData
      ensures forall copies: seq<seq<Held>> :: |copies| == |testCount| ==>
        Next(old(S(copies)), Append(text)) == S(copies)
      ensures testData == old(testData) + [Line(if |text| <= 80 then text else text[..80], "\r\n")]
    {
      var line := if |text| <= TEXT_LIMIT then text else text[..TEXT_LIMIT];
      testData := testData + [Line(line, "\r\n")];
    }

    /** `updateTestDataQueue`, without the notification. */
    method UpdateTestDataQueue(text: string)
      requires testData != [] && |text| <= TEXT_LIMIT
      modifies this`testData
      ensures forall copies: seq<seq<Held>> :: |copies| == |testCount| ==>
        Next(old(S(copies)), UpdateLast(text)) == S(copies)
      ensures var last := |testData| - 1;
        |testData| == |old(testData)| && testData == old(testData)[last := Line(text, old(testData)[last].status)]
    {
      var last := |testData| - 1;
      testData := testData[last := testData[last].(text := text)];
    }

    /** `updateTestDataStatus`, likewise. */
    method UpdateTestDataStatus(status: string)
      requires testData != []
      modifies this`testData
      ensures forall copies: seq<seq<Held>> :: |copies| == |testCount| ==>
        Next(old(S(copies)), SetStatus(status)) == S(copies)
    {
      var last := |testData| - 1;
      testData := testData[last := testData[last].(status := status)];
    }

    /** The state, given what the clients hold. */
    ghost function S(copies: seq<seq<Held>>): State
      requires |copies| == |testCount|
      reads this
    {
      State(testData, Followers(testCount, copies))
    }

    /** `send_test_data`: the lines sent, or nothing when the cursor is at the end. */
    method SendTestData(c: nat) returns (sent: seq<Held>)
      requires c < |testCount|
      modifies this
      ensures sent == Sent(old(testData), old(testCount)[c])
      ensures testData == Stripped(old(testData), old(testCount)[c])
      ensures testCount == old(testCount)[c := if old(testCount)[c] < |testData| then |testData| else old(testCount)[c]]
    {
      sent := [];
      ghost var log, from := testData, testCount[c];
      if testCount[c] >= |testData| {
        assert testData == Stripped(log, from);
        return;
      }
      var i := testCount[c];
      NothingToSend(log, |log|);
      hide Sent;
      while i < |testData|
        invariant from <= i <= |testData| == |log|
        invariant testCount == old(testCount)[c := i]
        invariant sent + Sent(log, i) == Sent(log, from)
        invariant forall k :: 0 <= k < |log| ==>
          testData[k] == if from <= k < i then log[k].(text := Strip(log[k].text)) else log[k]
      {
        SentFrom(log, i);
        if |testData[i].text| != 0 {
          if testData[i].text[|testData[i].text| - 1] == '\n' {
            testData := testData[i := testData[i].(text := testData[i].text[..|testData[i].text| - 1])];
          }
          var held := Held(i, testData[i].text, testData[i].status);
          assert sent + ([held] + Sent(log, i + 1)) == (sent + [held]) + Sent(log, i + 1);
          sent := sent + [held];
        }
        i := i + 1;
        testCount := testCount[c := i];
      }
      assert sent + [] == sent;
    }

    /** A send, and what the client makes of it. */
    method SendTo(c: nat, kind: Kind, copies: seq<seq<Held>>) returns (after: seq<seq<Held>>)
      requires c < |testCount| == |copies|
      modifies this
      ensures |after| == |testCount| == |copies| && S(after) == Send(old(S(copies)), c, kind)
    {
      ghost var log, counts, from := testData, testCount, testCount[c];
      var sent := SendTestData(c);
      after := copies[c := Receive(copies[c], kind, sent)];
      if from < |log| {
        FollowersAfter(counts, copies, c, |log|, after[c]);
      } else {
        NothingToSend(log, from);
        assert after[c] == copies[c] && counts[c := from] == counts;
        FollowersAfter(counts, copies, c, from, after[c]);
      }
    }

    /** The three requests of `handle_thread_event`, and what the client makes of the answer. */
    method HandleRequest(request: Event, copies: seq<seq<Held>>) returns (after: seq<seq<Held>>)
      requires |copies| == |testCount| && Possible(S(copies), request)
      requires request.AskAll? || request.AskNew? || request.AskLast?
      modifies this
      ensures |after| == |testCount| == |copies| && S(after) == Next(old(S(copies)), request)
    {
      var c := request.c;
      after := copies;
      ghost var log, counts := testData, testCount;
      if request.AskLast? {
        if testCount[c] >= 1 {
          if testCount[c] >= |testData| {
            testCount := testCount[c := testCount[c] - 1];
            after := SendTo(c, Update, copies);
            FollowersAfter(counts, copies, c, counts[c] - 1, copies[c]);
          } else if testCount[c] >= |testData| - 1 {
            after := SendTo(c, Data, copies);
          }
        }
      } else if request.AskAll? {
        testCount := testCount[c := 0];
        after := SendTo(c, Data, copies[c := []]);
        FollowersAfter(counts, copies, c, 0, []);
      } else {
        after := SendTo(c, Data, copies);
      }
    }
  }
}
