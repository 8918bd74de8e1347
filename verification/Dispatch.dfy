/** The command loop of a server thread (TestDispatcher/TDServerThreads.c,
    `threadCommandHandler`) on the commands queued when it wakes. What other threads may change
    between two turns of the loop is read from a `View`, one per turn. */
module Dispatch {
  import opened Common
  import opened RingQueue

  datatype Decision =
    | Broadcast | AuthenticateUser | GetFile | Exit | GetTestUpdateData | GetLastTestUpdateData
    | QuestionResponse | GetTestData | RepairLockBoard | Unknown

  /** `getCommandDecision`. */
  function DecisionOn(data: string): Decision {
    if "TBS" <= data then Broadcast
    else if "USR" <= data then AuthenticateUser
    else
      var tag := if |data| >= 11 then data[5..11] else "";
      if tag == "LFILES" || tag == "BFILES" then GetFile
      else if tag == "BYEBYE" then Exit
      else if tag == "TSTDAX" then GetTestUpdateData
      else if tag == "SINGLX" then GetLastTestUpdateData
      else if tag == "RESPON" then QuestionResponse
      else if tag == "TSTDAT" then GetTestData
      else if tag == "LCKBRD" then RepairLockBoard
      else Unknown
  }

  /** Which commands are which, by their bytes: the first three, and else bytes 5 to 10. */
  lemma DecisionByBytes(data: string)
    ensures var start, tag := "TBS" <= data || "USR" <= data, if |data| >= 11 then data[5..11] else "";
      && (DecisionOn(data).Broadcast? <==> "TBS" <= data)
      && (DecisionOn(data).AuthenticateUser? <==> "USR" <= data)
      && (DecisionOn(data).GetFile? <==> !start && (tag == "LFILES" || tag == "BFILES"))
      && (DecisionOn(data).Exit? <==> !start && tag == "BYEBYE")
      && (DecisionOn(data).GetTestUpdateData? <==> !start && tag == "TSTDAX")
      && (DecisionOn(data).GetLastTestUpdateData? <==> !start && tag == "SINGLX")
      && (DecisionOn(data).QuestionResponse? <==> !start && tag == "RESPON")
      && (DecisionOn(data).GetTestData? <==> !start && tag == "TSTDAT")
      && (DecisionOn(data).RepairLockBoard? <==> !start && tag == "LCKBRD")
  {
    assert "TBS" <= data ==> data[0] == 'T';
    assert "USR" <= data ==> data[0] == 'U';
  }

  type Addresses = a: seq<nat> | |a| == CONNECTIONSPERTHREAD witness seq(CONNECTIONSPERTHREAD, _ => 0)
  type Flags = f: seq<bool> | |f| == CONNECTIONSPERTHREAD witness seq(CONNECTIONSPERTHREAD, _ => false)

  /** What one turn sees: whether a question is pending when it starts and when it ends, the
      address that holds the repair lock (0 for none), and the thread's connections. */
  datatype View = View(question: bool, questionAfter: bool, repairLock: nat, ips: Addresses, paused: Flags)

  predicate Addressed(c: Command, thread: nat) {
    c.threadNumber == thread && c.connection < CONNECTIONSPERTHREAD
  }

  /** A pending question holds back every command but a response to it. */
  predicate HeldBack(v: View, c: Command) {
    v.question && !DecisionOn(c.data).QuestionResponse?
  }

  /** The exact condition for running a command: its connection is alive, and it is not held
      back, or its connection deferred the question, or somebody else holds the repair lock. */
  predicate Runs(v: View, c: Command)
    requires c.connection < CONNECTIONSPERTHREAD
  {
    && v.ips[c.connection] != 0
    && (!HeldBack(v, c) || v.paused[c.connection]
        || (v.repairLock != 0 && v.repairLock != v.ips[c.connection]))
  }

  /** Whether a turn on `c` leaves the thread set on asking the question again. */
  predicate Skips(v: View, thread: nat, c: Command) {
    HeldBack(v, c) && !(Addressed(c, thread) && Runs(v, c))
  }

  datatype Turn = Turn(executed: seq<Command>, queue: seq<Command>, stopped: bool)

  /** One turn on the front command. A command that is not addressed to the thread is neither
      run nor removed; any other is removed, and run if `Runs` says so. */
  function TurnOn(v: View, thread: nat, queue: seq<Command>): Turn
    requires queue != []
  {
    var c := queue[0];
    if !Addressed(c, thread) then Turn([], queue, v.questionAfter && HeldBack(v, c))
    else if Runs(v, c) then Turn([c], queue[1..], false)
    else Turn([], queue[1..], v.questionAfter && HeldBack(v, c))
  }

  /** At most `n` turns, ending early when the queue is empty or a turn stops the loop. */
  function Turns(views: nat -> View, thread: nat, queue: seq<Command>, n: nat): Turn {
    if n == 0 then Turn([], queue, false)
    else
      var t := Turns(views, thread, queue, n - 1);
      if t.stopped || t.queue == [] then t
      else
        var next := TurnOn(views(n - 1), thread, t.queue);
        next.(executed := t.executed + next.executed)
  }

  /** Of the first `m` commands, those that run when command `i` is looked at in turn `i`. */
  function Selected(views: nat -> View, queue: seq<Command>, m: nat): seq<Command>
    requires m <= |queue|
  {
    if m == 0 then []
    else
      var c := queue[m - 1];
      Selected(views, queue, m - 1) +
      (if c.connection < CONNECTIONSPERTHREAD && Runs(views(m - 1), c) then [c] else [])
  }

  ghost predicate AllAddressed(queue: seq<Command>, thread: nat) {
    forall i :: 0 <= i < |queue| ==> Addressed(queue[i], thread)
  }

  /** The loop takes a prefix of the queue, one command a turn, each looked at once and in order;
      it runs exactly those that `Runs` selects; it ends with an empty queue unless a turn that
      ran nothing stopped it. */
  lemma {:induction false} TurnsTakeAPrefix(views: nat -> View, thread: nat, queue: seq<Command>, n: nat)
    requires AllAddressed(queue, thread) && n <= |queue|
    ensures var t := Turns(views, thread, queue, n);
      var m := |queue| - |t.queue|;
      && 0 <= m <= n && t.queue == queue[m..]
      && t.executed == Selected(views, queue, m)
      && (m < n ==> t.stopped)
      && (t.stopped ==> m > 0 && views(m - 1).questionAfter && HeldBack(views(m - 1), queue[m - 1])
                        && !Runs(views(m - 1), queue[m - 1]))
  {
    hide Runs, HeldBack;
    if n > 0 {
      TurnsTakeAPrefix(views, thread, queue, n - 1);
      var t := Turns(views, thread, queue, n - 1);
      if !t.stopped && t.queue != [] {
        assert t.queue[0] == queue[n - 1] && t.queue[1..] == queue[n..];
        assert Addressed(queue[n - 1], thread);
      }
    }
  }

  /** A response, by its bytes. */
  predicate Answers(data: string) {
    |data| >= 11 && data[5..11] == "RESPON" && data[..3] != "TBS" && data[..3] != "USR"
  }

  /** What a turn does with a command addressed to the thread: it is removed, and run exactly if
      its connection is alive and no question is pending, or it is a response, or its connection
      deferred the question, or another address holds the repair lock. The loop stops exactly
      when a question is still pending after a command that a question held back. */
  lemma WhatATurnDoes(v: View, thread: nat, queue: seq<Command>)
    requires queue != [] && queue[0].threadNumber == thread && queue[0].connection < 10
    ensures var c, t := queue[0], TurnOn(v, thread, queue);
      var ip := v.ips[c.connection];
      var run := ip != 0 && (!v.question || Answers(c.data) || v.paused[c.connection]
                             || (v.repairLock != 0 && v.repairLock != ip));
      && t.queue == queue[1..]
      && t.executed == (if run then [c] else [])
      && (t.stopped <==> v.questionAfter && v.question && !Answers(c.data) && !run)
    ensures Answers(queue[0].data) <==>
      |queue[0].data| >= 11 && queue[0].data[5..11] == "RESPON"
      && queue[0].data[..3] != "TBS" && queue[0].data[..3] != "USR"
  {
    var data := queue[0].data;
    DecisionByBytes(data);
    assert |data| >= 3 ==> ("TBS" <= data <==> data[..3] == "TBS") && ("USR" <= data <==> data[..3] == "USR");
  }

  /** A turn shortens the queue exactly when the front command is addressed to the thread. */
  lemma TurnRemovesAddressedOnly(v: View, thread: nat, queue: seq<Command>)
    requires queue != []
    ensures |TurnOn(v, thread, queue).queue| == |queue| - 1 <==> Addressed(queue[0], thread)
    ensures !Addressed(queue[0], thread) ==>
      TurnOn(v, thread, queue).queue == queue && TurnOn(v, thread, queue).executed == []
  {
  }

  /** However long the loop turns, a command that is not addressed to the thread stays queued,
      and everything behind it with it. */
  lemma {:induction false} StrangerStays(views: nat -> View, thread: nat, queue: seq<Command>, b: nat, n: nat)
    requires b < |queue| && !Addressed(queue[b], thread)
    ensures var t := Turns(views, thread, queue, n);
      |queue| - b <= |t.queue| <= |queue| && t.queue == queue[|queue| - |t.queue|..]
  {
    hide Runs, HeldBack, DecisionOn;
    if n > 0 {
      StrangerStays(views, thread, queue, b, n - 1);
      var t := Turns(views, thread, queue, n - 1);
      if !t.stopped && t.queue != [] {
        assert t.queue[0] == queue[|queue| - |t.queue|];
      }
    }
  }

  /** A command that is queued only behind such a stranger never runs. */
  lemma {:induction false} NothingPassesAStranger(views: nat -> View, thread: nat, queue: seq<Command>,
                                                  b: nat, n: nat, c: Command)
    requires b < |queue| && !Addressed(queue[b], thread) && c !in queue[..b]
    ensures c !in Turns(views, thread, queue, n).executed
  {
    hide Runs, HeldBack, DecisionOn;
    if n > 0 {
      NothingPassesAStranger(views, thread, queue, b, n - 1, c);
      StrangerStays(views, thread, queue, b, n - 1);
      var t := Turns(views, thread, queue, n - 1);
      if !t.stopped && t.queue != [] {
        var m := |queue| - |t.queue|;
        assert t.queue[0] == queue[m];
        if m < b { assert queue[m] == queue[..b][m]; }
      }
    }
  }

  /** Where the first wiped cell stands in a ring that had to grow for a command. */
  function FirstWiped(r: Ring): (b: int)
    requires r.Valid()
    ensures 1 <= b < |r.slots|
  {
    if r.front == |r.slots| - 1 then 1 else |r.slots| - 1 - r.front
  }

  lemma WipedAfterGrowth(r: Ring, c: Command, thread: nat)
    requires r.Sound() && r.Full() && r.grows && AllLive(r.Contents())
    ensures var after, b := Added(r, c).Contents(), FirstWiped(r);
      && |after| == |r.slots| + 1 && !Addressed(after[b], thread)
      && (r.front == 0 ==> after == r.Contents()[..b] + [after[b], c])
      && (r.front > 0 ==> after[0] == c && after[1..b] == r.Contents()[1..b])
  {
    GrowthLosesCommands(r, c);
    var after, b := Added(r, c).Contents(), FirstWiped(r);
    assert !Live(after[b]);
    if r.front == 0 {
      assert after[b + 1] == c;
      assert forall i :: 0 <= i < b ==> after[i] == r.Contents()[i];
    }
  }

  /** The queue's growth meets the loop: wherever the ring's front is, a wiped cell then stops
      it, and no number of turns removes that cell or anything behind it. The further the front
      has moved, the fewer commands stand before it. */
  lemma GrowthBlocksTheLoop(r: Ring, c: Command, views: nat -> View, thread: nat, n: nat)
    requires r.Sound() && r.Full() && r.grows && AllLive(r.Contents())
    ensures var after, b := Added(r, c).Contents(), FirstWiped(r);
      var t := Turns(views, thread, after, n);
      |r.slots| + 1 - b <= |t.queue| <= |after| && t.queue == after[|after| - |t.queue|..]
  {
    WipedAfterGrowth(r, c, thread);
    StrangerStays(views, thread, Added(r, c).Contents(), FirstWiped(r), n);
  }

  /** A command that is only behind the wiped cell is never run. When the ring was unwrapped that
      is the one it grew for; when it was wrapped, that one comes up first instead. */
  lemma GrowthSilencesCommands(r: Ring, c: Command, views: nat -> View, thread: nat, n: nat, d: Command)
    requires r.Sound() && r.Full() && r.grows && AllLive(r.Contents())
    requires r.front == 0 ==> d !in r.Contents()[..FirstWiped(r)]
    requires r.front > 0 ==> d != c && d !in r.Contents()[1..FirstWiped(r)]
    ensures d !in Turns(views, thread, Added(r, c).Contents(), n).executed
    ensures if r.front == 0 then c in Added(r, c).Contents() else c == Added(r, c).Contents()[0]
  {
    WipedAfterGrowth(r, c, thread);
    var after, b := Added(r, c).Contents(), FirstWiped(r);
    assert after[..b] == if r.front == 0 then r.Contents()[..b] else [after[0]] + after[1..b];
    NothingPassesAStranger(views, thread, after, b, n, d);
  }

  // ---- When the question is asked ------------------------------------------------------------

  /** Whether the thread is set on asking after `m` turns. It is when it wakes. */
  predicate Skipping(views: nat -> View, thread: nat, queue: seq<Command>, m: nat)
    requires m <= |queue|
  {
    m == 0 || Skips(views(m - 1), thread, queue[m - 1])
  }

  lemma StillNotStopped(views: nat -> View, thread: nat, queue: seq<Command>, n: nat)
    requires AllAddressed(queue, thread) && 0 < n <= |queue| && !Turns(views, thread, queue, n).stopped
    ensures !Turns(views, thread, queue, n - 1).stopped
    ensures !TurnOn(views(n - 1), thread, queue[n - 1..]).stopped
  {
    TurnsTakeAPrefix(views, thread, queue, n - 1);
    hide TurnOn, Selected, Runs, HeldBack, Addressed, AllAddressed;
  }

  lemma SkippingNext(views: nat -> View, thread: nat, queue: seq<Command>, m: nat)
    requires m <= |queue|
    ensures Skipping(views, thread, queue, 0)
    ensures m < |queue| ==> (Skipping(views, thread, queue, m + 1) <==> Skips(views(m), thread, queue[m]))
  {
  }

  /** A loop that has not stopped has passed no command that would have stopped it. */
  lemma {:induction false} NoneSkippedBefore(views: nat -> View, thread: nat, queue: seq<Command>, n: nat, k: nat)
    requires AllAddressed(queue, thread) && k < n <= |queue|
    requires !Turns(views, thread, queue, n).stopped && views(k).questionAfter
    ensures !Skips(views(k), thread, queue[k])
  {
    hide Turns, TurnOn, Skips;
    StillNotStopped(views, thread, queue, n);
    TurnOnFront(views(n - 1), thread, queue[n - 1..]);
    if k < n - 1 {
      NoneSkippedBefore(views, thread, queue, n - 1, k);
    }
  }

  lemma TurnOnFront(v: View, thread: nat, queue: seq<Command>)
    requires queue != []
    ensures TurnOn(v, thread, queue).stopped <==> v.questionAfter && Skips(v, thread, queue[0])
  {
  }

  /** A command that does not run when it comes up, and is no response. */
  predicate Withheld(v: View, c: Command) {
    c.connection < CONNECTIONSPERTHREAD && !Runs(v, c) && !DecisionOn(c.data).QuestionResponse?
  }

  lemma SkipsWhilePending(v: View, thread: nat, c: Command)
    requires Addressed(c, thread) && v.question
    ensures Skips(v, thread, c) <==> Withheld(v, c)
  {
  }

  lemma NoneWithheldUnlessStopped(views: nat -> View, thread: nat, queue: seq<Command>, k: nat)
    requires AllAddressed(queue, thread) && k < |queue| && !Turns(views, thread, queue, |queue|).stopped
    requires views(k).question && views(k).questionAfter
    ensures !Skips(views(k), thread, queue[k]) && !Withheld(views(k), queue[k])
  {
    hide Turns, Skips, Withheld, Addressed;
    NoneSkippedBefore(views, thread, queue, |queue|, k);
    SkipsWhilePending(views(k), thread, queue[k]);
  }

  /** A question that is pending all along is asked after the loop exactly when the thread woke to
      an empty queue, or some command is withheld when it comes up. */
  lemma WhenPendingQuestionIsAsked(views: nat -> View, thread: nat, queue: seq<Command>)
    requires AllAddressed(queue, thread)
    requires forall k :: 0 <= k < |queue| ==> views(k).question && views(k).questionAfter
    ensures var m := |queue| - |Turns(views, thread, queue, |queue|).queue|;
      && 0 <= m <= |queue|
      && (Skipping(views, thread, queue, m) <==>
          queue == [] || exists k :: 0 <= k < |queue| && Withheld(views(k), queue[k]))
  {
    var t := Turns(views, thread, queue, |queue|);
    var m := |queue| - |t.queue|;
    QueueShrinks(views, thread, queue);
    if t.stopped {
      StoppedSkips(views, thread, queue);
      hide Turns, Skips, Withheld;
      SkipsWhilePending(views(m - 1), thread, queue[m - 1]);
    } else {
      hide Turns, Skips, Withheld;
      forall k | 0 <= k < |queue|
        ensures !Skips(views(k), thread, queue[k]) && !Withheld(views(k), queue[k])
      {
        NoneWithheldUnlessStopped(views, thread, queue, k);
      }
    }
  }

  lemma QueueShrinks(views: nat -> View, thread: nat, queue: seq<Command>)
    requires AllAddressed(queue, thread)
    ensures var t := Turns(views, thread, queue, |queue|);
      |t.queue| <= |queue| && (|t.queue| == 0 || t.stopped)
  {
    TurnsTakeAPrefix(views, thread, queue, |queue|);
    hide Turns, Runs, HeldBack;
  }

  lemma StoppedSkips(views: nat -> View, thread: nat, queue: seq<Command>)
    requires AllAddressed(queue, thread) && Turns(views, thread, queue, |queue|).stopped
    ensures var m := |queue| - |Turns(views, thread, queue, |queue|).queue|;
      0 < m <= |queue| && Skips(views(m - 1), thread, queue[m - 1])
  {
    TurnsTakeAPrefix(views, thread, queue, |queue|);
    hide Turns, Runs, HeldBack;
  }

  class ServerThread {
    const thread: nat
    const messageQueue: Queue
    var executed: seq<Command>

    constructor (thread: nat, capacity: nat)
      requires capacity >= 2
      ensures this.thread == thread && executed == []
      ensures messageQueue.Model() == Created(capacity, true)
    {
      this.thread := thread;
      executed := [];
      messageQueue := new Queue(capacity, true);
    }

    /** The body of the loop: the scan over the connections for the front command `cell`.
        `executed` grows by what is passed to `handle_thread_event`. */
    method HandleFront(cell: nat, v: View) returns (skipToQuestion: bool)
      requires messageQueue.Model().Sound() && messageQueue.size > 0 && cell == messageQueue.front
      modifies this`executed, messageQueue`front, messageQueue`size
      ensures messageQueue.Model().Sound() && messageQueue.cells[..] == old(messageQueue.cells[..])
      ensures var before := old(messageQueue.Model().Contents());
        var turn := TurnOn(v, thread, before);
        && messageQueue.Model().Contents() == turn.queue
        && executed == old(executed) + turn.executed
        && turn.stopped == (v.questionAfter && skipToQuestion)
        && skipToQuestion == Skips(v, thread, before[0])
      // a live connection that has not deferred, and nobody else with the repair lock
      ensures var c := old(messageQueue.Model().Contents())[0];
        (c.threadNumber == thread && c.connection < 10 && v.question && v.ips[c.connection] != 0
         && !v.paused[c.connection] && (v.repairLock == 0 || v.repairLock == v.ips[c.connection])) ==>
          executed == old(executed) + if Answers(c.data) then [c] else []
    {
      if Addressed(messageQueue.Model().Contents()[0], thread) {
        WhatATurnDoes(v, thread, messageQueue.Model().Contents());
      }
      TakeKeepsOrder(messageQueue.Model());
      var cmd := messageQueue.cells[cell];
      skipToQuestion := !(!v.question || (DecisionOn(cmd.data).QuestionResponse? && v.question));
      ghost var handled := false;
      for i := 0 to CONNECTIONSPERTHREAD
        invariant handled <==> Addressed(cmd, thread) && cmd.connection < i && v.ips[cmd.connection] == 0
        invariant !handled ==> messageQueue.Model() == old(messageQueue.Model())
        invariant handled ==> messageQueue.Model() == Taken(old(messageQueue.Model()))
        invariant Addressed(cmd, thread) && cmd.connection < i ==> handled
        invariant executed == old(executed) && skipToQuestion == HeldBack(v, cmd)
        invariant messageQueue.cells == old(messageQueue.cells)
      {
        if i == cmd.connection && thread == cmd.threadNumber {
          if v.ips[i] == 0 {
            var _ := messageQueue.GetFrontElement();
            handled := true;
            continue;
          }
          if skipToQuestion {
            if !v.paused[i] {
              if v.repairLock != 0 {
                if v.repairLock != v.ips[i] {
                  skipToQuestion := false;
                } else {
                  var _ := messageQueue.GetFrontElement();
                  break;
                }
              } else {
                var _ := messageQueue.GetFrontElement();
                break;
              }
            } else {
              skipToQuestion := false;
            }
          }
          var taken := messageQueue.GetFrontElement();
          executed := executed + [messageQueue.cells[cell]];
          break;
        }
      }
    }

    /** One turn of the loop: handle the front command, stop if the question still waits, and
        look at the new front. */
    method NextTurn(cell: nat, v: View) returns (skipToQuestion: bool, stopped: bool, next: Option<nat>)
      requires messageQueue.Model().Sound() && messageQueue.size > 0 && cell == messageQueue.front
      modifies this`executed, messageQueue`front, messageQueue`size
      ensures messageQueue.Model().Sound()
      ensures Turn(executed, messageQueue.Model().Contents(), stopped) ==
        var turn := TurnOn(v, thread, old(messageQueue.Model().Contents()));
        turn.(executed := old(executed) + turn.executed)
      ensures skipToQuestion == Skips(v, thread, old(messageQueue.Model().Contents())[0])
      ensures next == if messageQueue.size == 0 then None else Some(messageQueue.front)
    {
      hide Skips, TurnOn;
      skipToQuestion := HandleFront(cell, v);
      stopped := v.questionAfter && skipToQuestion;
      next := messageQueue.PeekAtFrontElement();
    }

    /** What the thread does when it wakes, in a time without new arrivals: the loop over the
        queue, in which each turn removes one command, and then the decision to ask the question,
        which is read once more for it (`questionAtEnd`). */
    method HandleCommands(views: nat -> View, questionAtEnd: bool) returns (askQuestion: bool)
      requires messageQueue.Model().Sound()
      requires AllAddressed(messageQueue.Model().Contents(), thread)
      modifies this`executed, messageQueue`front, messageQueue`size
      ensures messageQueue.Model().Sound()
      ensures var before := old(messageQueue.Model().Contents());
        var t := Turns(views, thread, before, |before|);
        && messageQueue.Model().Contents() == t.queue
        && executed == old(executed) + t.executed
        && (t.stopped || t.queue == [])
        && |t.queue| <= |before|
        && askQuestion == (questionAtEnd && Skipping(views, thread, before, |before| - |t.queue|))
    {
      ghost var before := messageQueue.Model().Contents();
      ghost var t := Turn([], before, false);
      assert t == Turns(views, thread, before, 0);
      hide Turns, TurnOn, Skips, Mod, Ring.CellAt, Addressed, AllAddressed, Skipping;
      assert Skipping(views, thread, before, 0) by { SkippingNext(views, thread, before, 0); }
      var skipToQuestion, stopped := true, false;
      var turns: nat := 0;
      var cell := messageQueue.PeekAtFrontElement();
      while cell.Some? && !stopped
        invariant turns <= |before| && messageQueue.Model().Sound()
        invariant executed == old(executed) + t.executed
        invariant messageQueue.Model().Contents() == t.queue == before[turns..] && stopped == t.stopped
        invariant t == Turns(views, thread, before, turns)
        invariant skipToQuestion == Skipping(views, thread, before, turns)
        invariant cell == if messageQueue.size == 0 then None else Some(messageQueue.front)
        decreases |before| - turns
      {
        TurnsCount(views, thread, before, turns);
        SkippingNext(views, thread, before, turns);
        ghost var next := TurnOn(views(turns), thread, t.queue);
        Regroup(old(executed), t.executed, next.executed);
        skipToQuestion, stopped, cell := NextTurn(cell.value, views(turns));
        t, turns := next.(executed := t.executed + next.executed), turns + 1;
      }
      assert |before| - |t.queue| == turns;
      TurnsEnded(views, thread, before, turns, |before|);
      askQuestion := questionAtEnd && skipToQuestion;
    }
  }

  lemma TurnsCount(views: nat -> View, thread: nat, queue: seq<Command>, n: nat)
    requires AllAddressed(queue, thread) && n <= |queue|
    ensures var t := Turns(views, thread, queue, n);
      !t.stopped && t.queue != [] ==>
        var next := TurnOn(views(n), thread, t.queue);
        && n < |queue| && t.queue == queue[n..] && next.queue == queue[n + 1..]
        && Turns(views, thread, queue, n + 1) == next.(executed := t.executed + next.executed)
  {
    TurnsTakeAPrefix(views, thread, queue, n);
  }

  lemma {:induction false} TurnsEnded(views: nat -> View, thread: nat, queue: seq<Command>, n: nat, m: nat)
    requires n <= m && (Turns(views, thread, queue, n).stopped || Turns(views, thread, queue, n).queue == [])
    ensures Turns(views, thread, queue, m) == Turns(views, thread, queue, n)
  {
    if n < m {
      TurnsEnded(views, thread, queue, n, m - 1);
    }
  }
}
