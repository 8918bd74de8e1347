/** Telling the connections about a change of the log (TestDispatcher/TDTestFunctions.c,
    `updateUserQueues`). */
module Notification {
  import opened Common

  type Sockets = s: seq<nat> | |s| == CONNECTIONSPERTHREAD witness seq(CONNECTIONSPERTHREAD, _ => 0)

  /** A server thread: whether it is in view mode, and its connections' sockets (0 for none). */
  datatype Thread = Thread(viewing: bool, sockets: Sockets)

  /** The live connections of a thread among its first `n`. */
  function Live(t: nat, sockets: Sockets, n: nat): seq<(nat, nat)>
    requires n <= CONNECTIONSPERTHREAD
  {
    if n == 0 then []
    else Live(t, sockets, n - 1) + (if sockets[n - 1] == 0 then [] else [(t, n - 1)])
  }

  function FirstViewing(threads: seq<Thread>, n: nat): (t: nat)
    requires n <= |threads|
    ensures t <= n && (t < n ==> threads[t].viewing) && (forall k :: 0 <= k < t ==> !threads[k].viewing)
  {
    if n == 0 then 0
    else
      var t := FirstViewing(threads, n - 1);
      if t < n - 1 || threads[n - 1].viewing then t else n
  }

  /** The inner loop, from connection `j` on. */
  method ServeThread(t: nat, sockets: Sockets, j: nat) returns (served: seq<(nat, nat)>, next: nat)
    requires j == 0 || j == CONNECTIONSPERTHREAD
    ensures next == CONNECTIONSPERTHREAD
    ensures served == if j == 0 then Live(t, sockets, CONNECTIONSPERTHREAD) else []
  {
    served, next := [], j;
    while next < CONNECTIONSPERTHREAD
      invariant j <= next <= CONNECTIONSPERTHREAD
      invariant served == if j == 0 then Live(t, sockets, next) else []
    {
      if sockets[next] != 0 {
        served := served + [(t, next)];
      }
      next := next + 1;
    }
  }

  /** The loops of `updateUserQueues` over the open threads: the connections that are queued a
      command. The inner counter is not reset, so only the first viewing thread is served. */
  method UpdateUserQueues(threads: seq<Thread>) returns (notified: seq<(nat, nat)>)
    ensures notified == FirstServed(threads)
  {
    notified := [];
    var j: nat := 0;
    for i := 0 to |threads|
      invariant j == if FirstViewing(threads, i) < i then CONNECTIONSPERTHREAD else 0
      invariant FirstViewing(threads, i) == i ==> notified == []
      invariant var t := FirstViewing(threads, i);
        t < i ==> notified == Live(t, threads[t].sockets, CONNECTIONSPERTHREAD)
    {
      if threads[i].viewing {
        var served;
        served, j := ServeThread(i, threads[i].sockets, j);
        notified := notified + served;
      }
    }
  }

  function FirstServed(threads: seq<Thread>): seq<(nat, nat)> {
    var t := FirstViewing(threads, |threads|);
    if t < |threads| then Live(t, threads[t].sockets, CONNECTIONSPERTHREAD) else []
  }

  lemma {:induction false} LiveMembers(t: nat, sockets: Sockets, n: nat, i: nat, j: nat)
    requires n <= CONNECTIONSPERTHREAD
    ensures (i, j) in Live(t, sockets, n) <==> i == t && j < n && sockets[j] != 0
  {
    if n > 0 { LiveMembers(t, sockets, n - 1, i, j); }
  }

  /** Connections in ascending order, all below `n`. */
  ghost predicate Ascending(told: seq<(nat, nat)>, n: nat) {
    && (forall k :: 0 <= k < |told| ==> told[k].1 < n)
    && (forall j, k :: 0 <= j < k < |told| ==> told[j].1 < told[k].1)
  }

  lemma AscendingNext(told: seq<(nat, nat)>, n: nat, t: nat)
    requires Ascending(told, n)
    ensures Ascending(told, n + 1) && Ascending(told + [(t, n)], n + 1)
  {
  }

  lemma {:induction false} LiveInOrder(t: nat, sockets: Sockets, n: nat)
    requires n <= CONNECTIONSPERTHREAD
    ensures Ascending(Live(t, sockets, n), n)
  {
    if n > 0 {
      LiveInOrder(t, sockets, n - 1);
      AscendingNext(Live(t, sockets, n - 1), n - 1, t);
      assert Live(t, sockets, n - 1) + [] == Live(t, sockets, n - 1);
    }
  }

  /** Who is told: the live connections of the first viewing thread, each once, in order, and
      nobody if no thread is viewing. */
  lemma WhoIsTold(threads: seq<Thread>, t: nat)
    requires forall k :: 0 <= k < t && k < |threads| ==> !threads[k].viewing
    requires t < |threads| ==> threads[t].viewing
    ensures t >= |threads| ==> FirstServed(threads) == []
    ensures t < |threads| ==> var told := FirstServed(threads);
      && (forall i: nat, j: nat :: (i, j) in told <==> i == t && j < 10 && threads[t].sockets[j] != 0)
      && (forall a, b :: 0 <= a < b < |told| ==> told[a].1 < told[b].1)
  {
    if t < |threads| {
      LiveInOrder(t, threads[t].sockets, CONNECTIONSPERTHREAD);
      forall i: nat, j: nat
        ensures (i, j) in FirstServed(threads) <==> i == t && j < 10 && threads[t].sockets[j] != 0
      {
        LiveMembers(t, threads[t].sockets, CONNECTIONSPERTHREAD, i, j);
      }
    }
  }

  /** Every live connection of every viewing thread is told exactly when no thread after the
      first viewing one is viewing and has a live connection. */
  lemma WhenEveryViewerIsTold(threads: seq<Thread>)
    ensures
      (forall i: nat, j: nat | i < |threads| && j < CONNECTIONSPERTHREAD && threads[i].viewing ::
         threads[i].sockets[j] != 0 ==> (i, j) in FirstServed(threads))
      <==>
      (forall i: nat, j: nat | FirstViewing(threads, |threads|) < i < |threads| && j < CONNECTIONSPERTHREAD ::
         threads[i].viewing ==> threads[i].sockets[j] == 0)
  {
    var t := FirstViewing(threads, |threads|);
    if t < |threads| {
      forall i: nat, j: nat
        ensures (i, j) in FirstServed(threads) <==> i == t && j < CONNECTIONSPERTHREAD && threads[t].sockets[j] != 0
      {
        LiveMembers(t, threads[t].sockets, CONNECTIONSPERTHREAD, i, j);
      }
    }
  }
}
