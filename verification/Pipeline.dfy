/** From the bytes a client sends to the commands a thread runs: framing, queue and loop together. */
module Pipeline {
  import opened Common
  import opened RingQueue
  import opened Dispatch
  import opened Framing

  /** Whose chunks they are: what `pushThreadCommand` puts on every command of a connection. */
  datatype Sender = Sender(thread: nat, kind: int, fd: nat, connection: nat)

  function CommandOf(sender: Sender, text: string): Command {
    Command(sender.thread, sender.kind, sender.fd, sender.connection, text)
  }

  function CommandsOf(sender: Sender, texts: seq<string>): seq<Command> {
    if texts == [] then [] else [CommandOf(sender, texts[0])] + CommandsOf(sender, texts[1..])
  }

  /** The ring after the chunks have been pushed one by one. */
  function PushAll(r: Ring, sender: Sender, buffer: string, chunks: seq<string>): (r': Ring)
    requires r.Valid()
    ensures r'.Valid()
    decreases chunks
  {
    if chunks == [] then r
    else
      var p := PushTo(buffer, chunks[0]);
      PushAll(if p.command.Some? then Added(r, CommandOf(sender, p.command.value)) else r,
              sender, p.buffer, chunks[1..])
  }

  lemma AddedSize(r: Ring, c: Command)
    requires r.Valid()
    ensures Added(r, c).size == r.size + 1
  {
  }

  /** While the commands fit, the ring holds them behind what it held. */
  lemma {:induction false} RingReceives(r: Ring, sender: Sender, buffer: string, chunks: seq<string>)
    requires r.Sound() && r.size + |Received(buffer, chunks).queue| <= |r.slots|
    ensures var r' := PushAll(r, sender, buffer, chunks);
      r'.Sound() && r'.Contents() == r.Contents() + CommandsOf(sender, Received(buffer, chunks).queue)
    decreases chunks
  {
    hide Added, PushTo;
    if chunks == [] {
      assert r.Contents() + [] == r.Contents();
    } else {
      var p := PushTo(buffer, chunks[0]);
      var rest := Received(p.buffer, chunks[1..]).queue;
      if p.command.Some? {
        var c := CommandOf(sender, p.command.value);
        AddKeepsOrder(r, c);
        AddedSize(r, c);
        RingReceives(Added(r, c), sender, p.buffer, chunks[1..]);
        assert ([p.command.value] + rest)[1..] == rest;
        Regroup(r.Contents(), [c], CommandsOf(sender, rest));
      } else {
        assert [] + rest == rest;
        RingReceives(r, sender, p.buffer, chunks[1..]);
      }
    }
  }

  lemma {:induction false} CommandsAddressed(sender: Sender, texts: seq<string>)
    requires sender.connection < CONNECTIONSPERTHREAD
    ensures |CommandsOf(sender, texts)| == |texts| && AllAddressed(CommandsOf(sender, texts), sender.thread)
    ensures forall k :: 0 <= k < |texts| ==> CommandsOf(sender, texts)[k] == CommandOf(sender, texts[k])
  {
    if texts != [] {
      CommandsAddressed(sender, texts[1..]);
    }
  }

  lemma {:induction false} SelectedAll(views: nat -> View, queue: seq<Command>, m: nat)
    requires m <= |queue|
    requires forall k :: 0 <= k < m ==> queue[k].connection < CONNECTIONSPERTHREAD && Runs(views(k), queue[k])
    ensures Selected(views, queue, m) == queue[..m]
  {
    if m > 0 {
      SelectedAll(views, queue, m - 1);
      assert queue[..m - 1] + [queue[m - 1]] == queue[..m];
    }
  }

  lemma {:induction false} CommandsDiffer(sender: Sender, a: seq<string>, b: seq<string>)
    ensures CommandsOf(sender, a) == CommandsOf(sender, b) <==> a == b
  {
    if a != [] && b != [] {
      CommandsDiffer(sender, a[1..], b[1..]);
      assert CommandsOf(sender, a)[1..] == CommandsOf(sender, a[1..]);
      assert CommandsOf(sender, b)[1..] == CommandsOf(sender, b[1..]);
      assert a == [a[0]] + a[1..] && b == [b[0]] + b[1..];
      assert CommandsOf(sender, a)[0] == CommandOf(sender, a[0]);
      assert CommandsOf(sender, b)[0] == CommandOf(sender, b[0]);
    }
  }

  /** Newline-free messages, no more than the queue holds, in chunks of any kind: the queue holds
      exactly these messages if and only if no chunk crosses a message's end and none finds the
      buffer at its limit. However the chunks are cut, the queue does not grow. */
  lemma MessagesAreQueued(capacity: nat, sender: Sender, messages: seq<string>, chunks: seq<string>)
    requires 2 <= capacity && 0 < |messages| <= capacity
    requires AllPlain(messages) && NoneEmpty(chunks) && Flatten(chunks) == Encoded(messages)
    ensures PushAll(Created(capacity, true), sender, "", chunks).Contents() == CommandsOf(sender, messages) <==>
            Intact(0, Frame(messages[0]), messages[1..], chunks)
    ensures PushAll(Created(capacity, true), sender, "", chunks).Contents() ==
            CommandsOf(sender, Received("", chunks).queue)
  {
    var queue := Received("", chunks).queue;
    FrameIsFirst(messages);
    MessagesArrive(messages[0], "", Frame(messages[0]), messages[1..], chunks);
    CommandsUseNewlines("", chunks);
    NewlinesOfEncoded(messages);
    CreatedIsSound(capacity, true);
    hide Created, PushAll, Received, Intact, Plain, Frame, CommandsOf;
    RingReceives(Created(capacity, true), sender, "", chunks);
    CommandsDiffer(sender, queue, messages);
    assert [] + CommandsOf(sender, queue) == CommandsOf(sender, queue);
  }

  /** Nothing holds a command back in the turn in which it comes up. */
  ghost predicate NothingHeld(views: nat -> View, queue: seq<Command>) {
    forall k :: 0 <= k < |queue| ==> queue[k].connection < CONNECTIONSPERTHREAD && Runs(views(k), queue[k])
  }

  lemma {:induction false} SelectedFewer(views: nat -> View, queue: seq<Command>, m: nat, k: nat)
    requires m <= |queue| && k < |queue|
    requires !(queue[k].connection < CONNECTIONSPERTHREAD && Runs(views(k), queue[k]))
    ensures |Selected(views, queue, m)| <= if k < m then m - 1 else m
  {
    if m > 0 { SelectedFewer(views, queue, m - 1, k); }
  }

  lemma AllRunIfNothingHeld(views: nat -> View, thread: nat, queue: seq<Command>)
    requires AllAddressed(queue, thread) && NothingHeld(views, queue)
    ensures Turns(views, thread, queue, |queue|).executed == queue
  {
    TurnsTakeAPrefix(views, thread, queue, |queue|);
    hide Turns, Runs, HeldBack;
    SelectedAll(views, queue, |queue|);
    assert queue[..|queue|] == queue;
  }

  lemma FewerRunIfHeld(views: nat -> View, thread: nat, queue: seq<Command>)
    requires AllAddressed(queue, thread) && !NothingHeld(views, queue)
    ensures |Turns(views, thread, queue, |queue|).executed| < |queue|
  {
    TurnsTakeAPrefix(views, thread, queue, |queue|);
    hide Turns, Runs, HeldBack;
    var k :| 0 <= k < |queue| && !(queue[k].connection < CONNECTIONSPERTHREAD && Runs(views(k), queue[k]));
    SelectedFewer(views, queue, |queue| - |Turns(views, thread, queue, |queue|).queue|, k);
  }

  /** The loop then runs the messages, all of them, each once and in order, exactly when nothing
      holds any of them back. */
  lemma MessagesRunInOrder(sender: Sender, messages: seq<string>, views: nat -> View)
    requires sender.connection < CONNECTIONSPERTHREAD
    ensures var queue := CommandsOf(sender, messages);
      Turns(views, sender.thread, queue, |queue|).executed == queue <==> NothingHeld(views, queue)
  {
    var queue := CommandsOf(sender, messages);
    CommandsAddressed(sender, messages);
    if NothingHeld(views, queue) {
      AllRunIfNothingHeld(views, sender.thread, queue);
    } else {
      FewerRunIfHeld(views, sender.thread, queue);
    }
  }

  // ---- Arrivals and turns, interleaved -----------------------------------------------------

  /** A chunk arrives on a connection, or the loop takes a turn. */
  datatype Event = Arrive(arrival: Arrival) | Look(v: View)

  /** A command that was removed from the queue, and whether it was run. */
  datatype Handled = Handled(command: Command, ran: bool)

  datatype Session = Session(ring: Ring, buffers: seq<string>, handled: seq<Handled>)

  function Removed(handled: seq<Handled>): seq<Command> {
    seq(|handled|, i requires 0 <= i < |handled| => handled[i].command)
  }

  function Queued(senders: nat -> Sender, arrivals: seq<Arrival>): seq<Command> {
    if arrivals == [] then []
    else [CommandOf(senders(arrivals[0].connection), arrivals[0].text)] + Queued(senders, arrivals[1..])
  }

  function Arrivals(events: seq<Event>): seq<Arrival> {
    if events == [] then []
    else (if events[0].Arrive? then [events[0].arrival] else []) + Arrivals(events[1..])
  }

  function Arrived(s: Session, senders: nat -> Sender, a: Arrival): Session
    requires s.ring.Valid() && a.connection < |s.buffers|
  {
    var p := PushTo(s.buffers[a.connection], a.text);
    var ring := if p.command.None? then s.ring
                else Added(s.ring, CommandOf(senders(a.connection), p.command.value));
    s.(ring := ring, buffers := s.buffers[a.connection := p.buffer])
  }

  function Looked(s: Session, thread: nat, v: View): Session
    requires s.ring.Valid() && s.ring.size > 0
  {
    var queue := s.ring.Contents();
    var t := TurnOn(v, thread, queue);
    if |t.queue| == |queue| then s
    else s.(ring := Taken(s.ring), handled := s.handled + [Handled(queue[0], t.executed != [])])
  }

  function After(s: Session, thread: nat, senders: nat -> Sender, e: Event): (s': Session)
    requires s.ring.Valid()
    ensures s'.ring.Valid() && |s'.buffers| == |s.buffers|
  {
    match e
    case Arrive(a) => if a.connection < |s.buffers| then Arrived(s, senders, a) else s
    case Look(v) => if s.ring.size > 0 then Looked(s, thread, v) else s
  }

  function AfterAll(s: Session, thread: nat, senders: nat -> Sender, events: seq<Event>): Session
    requires s.ring.Valid()
    decreases events
  {
    if events == [] then s else AfterAll(After(s, thread, senders, events[0]), thread, senders, events[1..])
  }

  /** No command is cut while the ring is full. */
  predicate Fits(s: Session, thread: nat, senders: nat -> Sender, events: seq<Event>)
    requires s.ring.Valid()
    decreases events
  {
    events != [] ==>
      && (events[0].Arrive? && s.ring.Full() && events[0].arrival.connection < |s.buffers| ==>
            PushTo(s.buffers[events[0].arrival.connection], events[0].arrival.text).command.None?)
      && Fits(After(s, thread, senders, events[0]), thread, senders, events[1..])
  }

  lemma RemovedNext(handled: seq<Handled>, h: Handled)
    ensures Removed(handled + [h]) == Removed(handled) + [h.command]
  {
  }

  /** A turn moves the front command from the queue to the removed ones, marked with whether it
      ran, exactly when it is addressed to the thread. */
  lemma LookKeepsOrder(s: Session, thread: nat, v: View)
    requires s.ring.Sound() && s.ring.size > 0
    ensures var s' := Looked(s, thread, v);
      && s'.ring.Sound() && |s'.ring.slots| == |s.ring.slots| && s'.buffers == s.buffers
      && Removed(s'.handled) + s'.ring.Contents() == Removed(s.handled) + s.ring.Contents()
    ensures var c := s.ring.Contents()[0];
      Looked(s, thread, v).handled ==
      if Addressed(c, thread) then s.handled + [Handled(c, Runs(v, c))] else s.handled
  {
    hide Runs, HeldBack;
    TakeKeepsOrder(s.ring);
    var queue := s.ring.Contents();
    RemovedNext(s.handled, Handled(queue[0], TurnOn(v, thread, queue).executed != []));
    assert queue == [queue[0]] + queue[1..];
    Regroup(Removed(s.handled), [queue[0]], queue[1..]);
  }

  /** However arrivals on all connections of a thread and turns of its loop interleave, while the
      commands fit: those removed so far, then those still queued, are those queued at first and
      after them every command cut from the chunks, each once, in the order of its last chunk. */
  lemma {:induction false} OrderAcrossInterleavings(s: Session, thread: nat, senders: nat -> Sender,
                                                    events: seq<Event>)
    requires s.ring.Sound() && Fits(s, thread, senders, events)
    ensures var s' := AfterAll(s, thread, senders, events);
      && s'.ring.Sound()
      && Removed(s'.handled) + s'.ring.Contents() ==
         (Removed(s.handled) + s.ring.Contents()) + Queued(senders, ReceivedAll(s.buffers, Arrivals(events)))
    decreases events
  {
    var before := Removed(s.handled) + s.ring.Contents();
    if events == [] {
      assert before + [] == before;
    } else {
      var next, later := After(s, thread, senders, events[0]), Arrivals(events[1..]);
      match events[0] {
        case Look(v) =>
          if s.ring.size > 0 { LookKeepsOrder(s, thread, v); }
          assert [] + later == later;
        case Arrive(a) =>
          assert ([a] + later)[1..] == later;
          if a.connection < |s.buffers| {
            var p := PushTo(s.buffers[a.connection], a.text);
            var rest := ReceivedAll(s.buffers[a.connection := p.buffer], later);
            if p.command.Some? {
              var c := CommandOf(senders(a.connection), p.command.value);
              AddKeepsOrder(s.ring, c);
              Regroup(Removed(s.handled), s.ring.Contents(), [c]);
              Regroup(before, [c], Queued(senders, rest));
              assert ([Arrival(a.connection, p.command.value)] + rest)[1..] == rest;
            } else {
              assert [] + rest == rest;
            }
          }
      }
      OrderAcrossInterleavings(next, thread, senders, events[1..]);
    }
  }

  /** The command that an event cuts from a connection's chunks, if any. */
  function CutBy(s: Session, senders: nat -> Sender, e: Event): seq<Command> {
    if e.Look? || e.arrival.connection >= |s.buffers| then []
    else
      match PushTo(s.buffers[e.arrival.connection], e.arrival.text).command
      case None => []
      case Some(text) => [CommandOf(senders(e.arrival.connection), text)]
  }

  /** Now and after every event, the commands removed and then those queued are `cut`, which
      grows by what each event cuts. */
  ghost predicate OrderKept(s: Session, thread: nat, senders: nat -> Sender, events: seq<Event>, cut: seq<Command>)
    requires s.ring.Valid()
    decreases events
  {
    && Removed(s.handled) + s.ring.Contents() == cut
    && (events != [] ==>
          OrderKept(After(s, thread, senders, events[0]), thread, senders, events[1..],
                    cut + CutBy(s, senders, events[0])))
  }

  lemma SameAfter(a: seq<Command>, b: seq<Command>, c: seq<Command>)
    ensures a + b == a + c <==> b == c
  {
    assert (a + b)[|a|..] == b && (a + c)[|a|..] == c;
  }

  /** An arrival keeps the order exactly when its command, if it cuts one, does not find the ring
      full. */
  lemma ArrivalKeepsOrder(s: Session, senders: nat -> Sender, a: Arrival)
    requires s.ring.Sound() && s.ring.grows && AllLive(s.ring.Contents()) && a.connection < |s.buffers|
    ensures var s', cut := Arrived(s, senders, a), CutBy(s, senders, Arrive(a));
      && (Removed(s'.handled) + s'.ring.Contents() == Removed(s.handled) + s.ring.Contents() + cut <==>
          cut == [] || !s.ring.Full())
      && (cut == [] || !s.ring.Full() ==> s'.ring.Sound() && s'.ring.grows && AllLive(s'.ring.Contents()))
  {
    var cut := CutBy(s, senders, Arrive(a));
    hide PushTo;
    if cut == [] {
      assert Removed(s.handled) + s.ring.Contents() + cut == Removed(s.handled) + s.ring.Contents();
    } else {
      Regroup(Removed(s.handled), s.ring.Contents(), cut);
      SameAfter(Removed(s.handled), Added(s.ring, cut[0]).Contents(), s.ring.Contents() + cut);
      hide Added;
      if s.ring.Full() {
        GrowthLosesCommands(s.ring, cut[0]);
      } else {
        AddKeepsOrder(s.ring, cut[0]);
      }
    }
  }

  lemma LookKeepsLive(s: Session, thread: nat, v: View)
    requires s.ring.Sound() && s.ring.size > 0 && AllLive(s.ring.Contents())
    ensures AllLive(Looked(s, thread, v).ring.Contents()) && Looked(s, thread, v).ring.grows == s.ring.grows
  {
    TakeKeepsOrder(s.ring);
  }

  /** The order is kept throughout, whatever interleaves, exactly when no command is cut while the
      ring is full. */
  lemma {:induction false} OrderKeptExactlyIfFits(s: Session, thread: nat, senders: nat -> Sender, events: seq<Event>)
    requires s.ring.Sound() && s.ring.grows && AllLive(s.ring.Contents())
    ensures OrderKept(s, thread, senders, events, Removed(s.handled) + s.ring.Contents()) <==>
            Fits(s, thread, senders, events)
    decreases events
  {
    if events != [] {
      var cut := Removed(s.handled) + s.ring.Contents();
      var e, next := events[0], After(s, thread, senders, events[0]);
      hide Removed, Looked, Arrived, PushTo, AllLive;
      assert CutBy(s, senders, e) == [] ==> cut + CutBy(s, senders, e) == cut;
      match e {
        case Look(v) =>
          if s.ring.size > 0 {
            LookKeepsOrder(s, thread, v);
            LookKeepsLive(s, thread, v);
          }
          OrderKeptExactlyIfFits(next, thread, senders, events[1..]);
        case Arrive(a) =>
          if a.connection < |s.buffers| { ArrivalKeepsOrder(s, senders, a); }
          if a.connection >= |s.buffers| || CutBy(s, senders, e) == [] || !s.ring.Full() {
            OrderKeptExactlyIfFits(next, thread, senders, events[1..]);
          }
      }
    }
  }

  /** From a new thread on, what its loop has removed is at any time a prefix of what was cut. */
  lemma RemovedInOrderOfArrival(capacity: nat, buffers: seq<string>, thread: nat, senders: nat -> Sender,
                                events: seq<Event>)
    requires capacity >= 2 && Fits(Session(Created(capacity, true), buffers, []), thread, senders, events)
    ensures var s' := AfterAll(Session(Created(capacity, true), buffers, []), thread, senders, events);
      Removed(s'.handled) <= Queued(senders, ReceivedAll(buffers, Arrivals(events)))
  {
    var s := Session(Created(capacity, true), buffers, []);
    CreatedIsSound(capacity, true);
    hide AfterAll, Fits, Queued, ReceivedAll, Arrivals, Created;
    OrderAcrossInterleavings(s, thread, senders, events);
    var cut := Queued(senders, ReceivedAll(buffers, Arrivals(events)));
    assert (Removed(s.handled) + s.ring.Contents()) + cut == cut;
  }
}
