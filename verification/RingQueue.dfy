/** The command queue of a server thread (TestDispatcher/DataStructures/queue.c): a ring array
    that grows when a command arrives while it is full. */
module RingQueue {
  import opened Common

  datatype Command = Command(threadNumber: int, kind: int, fd: nat, connection: nat, data: string)

  /** What a cell of fresh memory holds. */
  const RAW := Command(0, 0, 0, 0, "")

  /** The effect of `initializeQueue` on a cell: new storage, and no thread. */
  function Wiped(c: Command): Command {
    c.(threadNumber := -1, fd := 0, data := "")
  }

  predicate Live(c: Command) {
    c.threadNumber >= 0
  }

  /** The remainder, by subtraction. */
  function Mod(a: nat, n: nat): (m: nat)
    requires n > 0
    ensures m < n
    ensures a < n ==> m == a
    ensures n <= a < 2 * n ==> m == a - n
  {
    if a < n then a else Mod(a - n, n)
  }

  lemma ModIsRemainder(a: nat, n: nat)
    requires n > 0 && a <= n
    ensures Mod(a, n) == a % n
  {
  }

  datatype Ring = Ring(slots: seq<Command>, front: nat, rear: nat, size: nat, grows: bool) {
    function Capacity(): nat {
      |slots|
    }

    predicate Full() {
      size >= |slots|
    }

    /** Indices a method may follow. One cell is not enough: an empty ring starts at index 1. */
    ghost predicate Valid() {
      |slots| >= 2 && front < |slots| && rear < |slots|
    }

    /** The indices delimit exactly `size` cells. */
    ghost predicate Sound() {
      Valid() && size <= |slots| && front == Mod(rear + 1 + |slots| - size, |slots|)
    }

    /** The cell `i` places after the front. */
    function CellAt(i: nat): Command
      requires Valid()
    {
      slots[Mod(front + i, |slots|)]
    }

    /** The queued commands, oldest first. */
    function Contents(): (q: seq<Command>)
      requires Valid()
    {
      seq(size, i requires 0 <= i < size => CellAt(i))
    }
  }

  function Initialized(slots: seq<Command>, start: nat): (r: seq<Command>)
    ensures |r| == |slots|
  {
    seq(|slots|, i requires 0 <= i < |slots| => if i < start then slots[i] else Wiped(slots[i]))
  }

  function Created(capacity: nat, grows: bool): Ring {
    Ring(Initialized(seq(capacity, _ => RAW), 0), 1, 0, 0, grows)
  }

  /** More cells, wiped from index `start` on. Neither index moves. */
  function GrownFrom(r: Ring, amount: nat, start: nat): Ring {
    r.(slots := Initialized(r.slots + seq(amount, _ => RAW), start))
  }

  /** `increaseQueueCapacity` starts wiping one cell before the new ones. */
  function Increased(r: Ring, amount: nat): Ring
    requires |r.slots| > 0
  {
    GrownFrom(r, amount, |r.slots| - 1)
  }

  function Added(r: Ring, c: Command): (r': Ring)
    requires r.Valid()
    ensures r'.Valid() && r'.grows == r.grows
  {
    var g := if r.Full() && r.grows then Increased(r, |r.slots|) else r;
    var rear := Mod(g.rear + 1, |g.slots|);
    Ring(g.slots[rear := c], g.front, rear, g.size + 1, g.grows)
  }

  function Peeked(r: Ring): Option<Command>
    requires r.Valid()
  {
    if r.size == 0 then None else Some(r.slots[r.front])
  }

  function Taken(r: Ring): (r': Ring)
    requires r.Valid()
    ensures r'.Valid() && r'.grows == r.grows && r'.slots == r.slots
  {
    if r.size == 0 then r else r.(size := r.size - 1, front := Mod(r.front + 1, |r.slots|))
  }

  // ---- One operation against a FIFO sequence --------------------------------------------

  lemma AddKeepsOrder(r: Ring, c: Command)
    requires r.Sound() && !r.Full()
    ensures Added(r, c).Sound() && Added(r, c).Contents() == r.Contents() + [c]
    ensures |Added(r, c).slots| == |r.slots|
  {
    var n, r' := |r.slots|, Added(r, c);
    forall i | 0 <= i < r'.size
      ensures r'.Contents()[i] == (r.Contents() + [c])[i]
    {
    }
  }

  lemma TakeKeepsOrder(r: Ring)
    requires r.Sound()
    ensures Taken(r).Sound()
    ensures r.size == 0 ==> Peeked(r) == None && r.Contents() == [] && Taken(r) == r
    ensures r.size > 0 ==> Peeked(r) == Some(r.Contents()[0]) && Taken(r).Contents() == r.Contents()[1..]
  {
    if r.size > 0 {
      var n, r' := |r.slots|, Taken(r);
      forall i | 0 <= i < r'.size
        ensures r'.Contents()[i] == r.Contents()[1..][i]
      {
      }
    }
  }

  // ---- Growth --------------------------------------------------------------------------

  ghost predicate AllLive(q: seq<Command>) {
    forall i :: 0 <= i < |q| ==> Live(q[i])
  }

  /** Growing a full ring in place, wiping from the last old cell or from the first new one,
      keeps the queued commands exactly when the ring is not wrapped and the last old cell is
      spared. The code does not spare it. */
  lemma WhenGrowthKeepsContents(r: Ring, start: nat)
    requires r.Sound() && r.Full() && AllLive(r.Contents())
    requires |r.slots| - 1 <= start <= |r.slots|
    ensures var g := GrownFrom(r, |r.slots|, start);
      g.Valid() && (g.Contents() == r.Contents() <==> r.front == 0 && start == |r.slots|)
  {
    var n := |r.slots|;
    var g := GrownFrom(r, n, start);
    assert g.slots[n - 1] == if n - 1 < start then r.slots[n - 1] else Wiped(r.slots[n - 1]);
    if r.front == 0 {
      assert r.Contents()[n - 1] == r.slots[n - 1];
      assert g.Contents()[n - 1] == g.slots[n - 1];
      if start == n {
        assert g.Contents() == r.Contents();
      }
    } else {
      assert Live(r.Contents()[n - 1]);
      assert !Live(g.slots[r.front + n - 1]);
      assert g.Contents()[n - 1] == g.slots[r.front + n - 1];
    }
  }

  lemma CellAfterGrowth(r: Ring, c: Command, i: nat)
    requires r.Sound() && r.Full() && r.grows && AllLive(r.Contents())
    requires i < |r.slots| && (i > 0 || r.front == 0)
    ensures var after := Added(r, c).Contents();
      if i < |r.slots| - 1 - r.front then after[i] == r.Contents()[i] else !Live(after[i])
  {
    var r' := Added(r, c);
    assert r'.Contents()[i] == r'.slots[r.front + i];
  }

  /** What the code's growth leaves behind, and the command added right after it: the oldest
      commands up to the old end of the array, except that in a wrapped ring the new command
      takes the place of the oldest one. The newest `front + 1` are lost. */
  lemma GrowthLosesCommands(r: Ring, c: Command)
    requires r.Sound() && r.Full() && r.grows && AllLive(r.Contents())
    ensures var n := |r.slots|;
      var after := Added(r, c).Contents();
      && |after| == n + 1
      && after[if r.front == 0 then n else 0] == c
      && (forall i :: 0 <= i < n && (i > 0 || r.front == 0) ==>
            if i < n - 1 - r.front then after[i] == r.Contents()[i] else !Live(after[i]))
    ensures Added(r, c).Contents() != r.Contents() + [c]
  {
    var n := |r.slots|;
    var r' := Added(r, c);
    var after := r'.Contents();
    assert r'.rear == if r.front == 0 then n else r.front;
    forall i | 0 <= i < n && (i > 0 || r.front == 0)
      ensures if i < n - 1 - r.front then after[i] == r.Contents()[i] else !Live(after[i])
    {
      CellAfterGrowth(r, c, i);
    }
    assert !Live(after[n - 1]);
    assert Live(r.Contents()[n - 1]);
    assert (r.Contents() + [c])[n - 1] == r.Contents()[n - 1];
  }

  /** How large the ring is after an addition, and what its fresh cells hold. */
  lemma SizeAfterAdding(r: Ring, c: Command)
    requires r.Sound()
    ensures var n, r' := |r.slots|, Added(r, c);
      && |r'.slots| == (if r.Full() && r.grows then 2 * n else n)
      && r'.size == r.size + 1 && r'.front == r.front
      && (r.Full() && r.grows ==> forall k :: n - 1 <= k < 2 * n && k != r'.rear ==>
            r'.slots[k].threadNumber == -1 && r'.slots[k].data == "" && r'.slots[k].fd == 0)
      && (forall k :: 0 <= k < n - 1 && k != r'.rear ==> r'.slots[k] == r.slots[k])
      && r'.slots[r'.rear] == c
  {
  }

  /** A ring that may not grow lets a command that finds it full overwrite the oldest one. */
  lemma OverflowWithoutGrowth(r: Ring, c: Command)
    requires r.Sound() && r.Full() && !r.grows
    ensures Added(r, c).Contents() == [c] + r.Contents()[1..] + [c]
  {
    var n, r' := |r.slots|, Added(r, c);
    forall i | 0 <= i < n + 1
      ensures r'.Contents()[i] == ([c] + r.Contents()[1..] + [c])[i]
    {
    }
  }

  // ---- Runs ----------------------------------------------------------------------------

  datatype Op = Add(c: Command) | Peek | Get

  function Run1(r: Ring, op: Op): Ring
    requires r.Valid()
  {
    match op
    case Add(c) => Added(r, c)
    case Peek => r
    case Get => Taken(r)
  }

  function Queue1(q: seq<Command>, op: Op): seq<Command> {
    match op
    case Add(c) => q + [c]
    case Peek => q
    case Get => if q == [] then q else q[1..]
  }

  function Head(q: seq<Command>): Option<Command> {
    if q == [] then None else Some(q[0])
  }

  /** The ring holds what the queue holds, hands out what the queue would, and keeps doing so. */
  ghost predicate Tracks(r: Ring, q: seq<Command>, ops: seq<Op>)
    decreases ops
  {
    && r.Valid() && r.Contents() == q
    && (ops != [] ==>
          && (!ops[0].Add? ==> Peeked(r) == Head(q))
          && Tracks(Run1(r, ops[0]), Queue1(q, ops[0]), ops[1..]))
  }

  /** No command arrives when `capacity` are already queued. */
  predicate NeverOverfull(q: seq<Command>, ops: seq<Op>, capacity: nat)
    decreases ops
  {
    ops == [] ||
    ((ops[0].Add? ==> |q| < capacity) && NeverOverfull(Queue1(q, ops[0]), ops[1..], capacity))
  }

  ghost predicate LiveOps(ops: seq<Op>) {
    forall i :: 0 <= i < |ops| && ops[i].Add? ==> Live(ops[i].c)
  }

  /** Over every run of a growing ring: it behaves as a FIFO queue exactly when no command finds
      it full, that is, exactly when it never grows. */
  lemma {:induction false} FifoUntilGrowth(r: Ring, ops: seq<Op>)
    requires r.Sound() && r.grows && AllLive(r.Contents()) && LiveOps(ops)
    ensures Tracks(r, r.Contents(), ops) <==> NeverOverfull(r.Contents(), ops, |r.slots|)
    decreases ops
  {
    if ops != [] {
      TakeKeepsOrder(r);
      match ops[0]
      case Add(c) =>
        if r.Full() {
          GrowthLosesCommands(r, c);
        } else {
          AddKeepsOrder(r, c);
          FifoUntilGrowth(Added(r, c), ops[1..]);
        }
      case Peek =>
        FifoUntilGrowth(r, ops[1..]);
      case Get =>
        FifoUntilGrowth(Taken(r), ops[1..]);
    }
  }

  // ---- Growth that keeps the queue ---------------------------------------------------------

  /** A full ring laid out afresh: its commands in order from index 0, and new cells behind. */
  function Unwrapped(r: Ring, amount: nat): Ring
    requires r.Sound() && r.Full()
  {
    Ring(r.Contents() + Initialized(seq(amount, _ => RAW), 0), 0, r.size - 1, r.size, r.grows)
  }

  lemma UnwrappingKeepsContents(r: Ring, amount: nat)
    requires r.Sound() && r.Full()
    ensures var g := Unwrapped(r, amount);
      g.Sound() && g.Contents() == r.Contents() && |g.slots| == |r.slots| + amount && g.grows == r.grows
  {
    var g := Unwrapped(r, amount);
    forall i | 0 <= i < r.size
      ensures g.Contents()[i] == r.Contents()[i]
    {
      assert g.Contents()[i] == g.slots[i];
    }
  }

  function RunUnwrapping(r: Ring, op: Op): Ring
    requires r.Sound()
  {
    if op.Add? && r.Full() then Run1(Unwrapped(r, |r.slots|), op) else Run1(r, op)
  }

  ghost predicate TracksUnwrapping(r: Ring, q: seq<Command>, ops: seq<Op>)
    decreases ops
  {
    && r.Sound() && r.Contents() == q
    && (ops != [] ==>
          && (!ops[0].Add? ==> Peeked(r) == Head(q))
          && TracksUnwrapping(RunUnwrapping(r, ops[0]), Queue1(q, ops[0]), ops[1..]))
  }

  /** If the growth laid the commands out afresh, the ring would be a FIFO queue over every run,
      whatever commands arrive and however often it grows. */
  lemma {:induction false} FifoWithUnwrapping(r: Ring, ops: seq<Op>)
    requires r.Sound()
    ensures TracksUnwrapping(r, r.Contents(), ops)
    decreases ops
  {
    if ops != [] {
      TakeKeepsOrder(r);
      if ops[0].Add? {
        var g := if r.Full() then Unwrapped(r, |r.slots|) else r;
        if r.Full() { UnwrappingKeepsContents(r, |r.slots|); }
        AddKeepsOrder(g, ops[0].c);
      }
      FifoWithUnwrapping(RunUnwrapping(r, ops[0]), ops[1..]);
    }
  }

  lemma CreatedIsSound(capacity: nat, grows: bool)
    requires capacity >= 2
    ensures Created(capacity, grows).Sound() && Created(capacity, grows).Contents() == []
    ensures |Created(capacity, grows).slots| == capacity && Created(capacity, grows).grows == grows
    ensures Created(capacity, grows).front == 1 && Created(capacity, grows).rear == 0
  {
  }

  // ---- Reading a command after it was removed --------------------------------------------

  function RunAll(r: Ring, ops: seq<Op>): (r': Ring)
    requires r.Valid()
    ensures r'.Valid()
    decreases ops
  {
    if ops == [] then r else RunAll(Run1(r, ops[0]), ops[1..])
  }

  function Adds(ops: seq<Op>): nat {
    if ops == [] then 0 else (if ops[0].Add? then 1 else 0) + Adds(ops[1..])
  }

  /** How many commands can still be added before cell `p` is written. */
  function AddsUntil(r: Ring, p: nat): nat
    requires r.Valid() && p < |r.slots|
  {
    if p > r.rear then p - r.rear - 1 else p + |r.slots| - r.rear - 1
  }

  /** Cell `p` is not among the queued ones. */
  ghost predicate Released(r: Ring, p: nat) {
    r.Valid() && p < |r.slots| && r.size + AddsUntil(r, p) < |r.slots|
  }

  lemma TakenCellIsReleased(r: Ring)
    requires r.Sound() && r.size > 0
    ensures Released(Taken(r), r.front) && AddsUntil(Taken(r), r.front) == |r.slots| - Taken(r).size - 1
  {
    var n := |r.slots|;
  }

  lemma AddCountsDown(r: Ring, c: Command, p: nat)
    requires Released(r, p)
    ensures |Added(r, c).slots| == |r.slots|
    ensures AddsUntil(r, p) == 0 ==> Added(r, c).slots[p] == c
    ensures AddsUntil(r, p) > 0 ==>
      Added(r, c).slots[p] == r.slots[p] && Released(Added(r, c), p)
      && AddsUntil(Added(r, c), p) == AddsUntil(r, p) - 1
  {
    var n := |r.slots|;
  }

  /** A removed command's cell keeps it through that many further additions, whatever is removed
      meanwhile; one addition more overwrites it. */
  lemma {:induction false} RemovedCommandSurvives(r: Ring, p: nat, ops: seq<Op>)
    requires Released(r, p)
    ensures Adds(ops) <= AddsUntil(r, p) ==>
      |RunAll(r, ops).slots| == |r.slots| && RunAll(r, ops).slots[p] == r.slots[p]
    ensures Adds(ops) == AddsUntil(r, p) + 1 && ops[|ops| - 1].Add? ==>
      |RunAll(r, ops).slots| == |r.slots| && RunAll(r, ops).slots[p] == ops[|ops| - 1].c
    decreases ops
  {
    if ops != [] {
      if ops[0].Add? {
        AddCountsDown(r, ops[0].c, p);
        if AddsUntil(r, p) > 0 {
          RemovedCommandSurvives(Added(r, ops[0].c), p, ops[1..]);
        } else if Adds(ops) == 1 && |ops| > 1 {
          NoAddsAtEnd(ops[1..]);
        }
      } else {
        RemovedCommandSurvives(Run1(r, ops[0]), p, ops[1..]);
      }
    }
  }

  lemma {:induction false} NoAddsAtEnd(ops: seq<Op>)
    requires ops != [] && Adds(ops) == 0
    ensures !ops[|ops| - 1].Add?
  {
    if |ops| > 1 {
      NoAddsAtEnd(ops[1..]);
    }
  }

  // ---- The queue in place ----------------------------------------------------------------

  /** A pointer into the array, as `peekAtFrontElement` and `getFrontElement` return it, is the
      index of a cell. */
  class Queue {
    var cells: array<Command>
    var front: nat
    var rear: nat
    var size: nat
    var growOnDemand: bool

    function Model(): Ring
      reads this, cells
    {
      Ring(cells[..], front, rear, size, growOnDemand)
    }

    /** `createAndInitializeQueue`. */
    constructor (elements: nat, grows: bool)
      requires elements >= 2
      ensures Model() == Created(elements, grows) && fresh(cells)
    {
      cells := new Command[elements](_ => RAW);
      front, rear, size, growOnDemand := 1, 0, 0, grows;
      new;
      InitializeQueue(0);
    }

    /** The wiping loop of `initializeQueue`. */
    method InitializeQueue(start: nat)
      requires start <= cells.Length
      modifies cells
      ensures cells[..] == Initialized(old(cells[..]), start)
    {
      for i := start to cells.Length
        invariant forall k :: start <= k < i ==> cells[k] == Wiped(old(cells[k]))
        invariant forall k :: 0 <= k < start || i <= k < cells.Length ==> cells[k] == old(cells[k])
      {
        cells[i] := Wiped(cells[i]);
      }
    }

    /** `increaseQueueCapacity`. The capacity is a 16-bit number. */
    method IncreaseQueueCapacity(amount: nat)
      requires Model().Valid() && cells.Length + amount < 0x1_0000
      modifies this`cells
      ensures Model() == Increased(old(Model()), amount) && fresh(cells)
    {
      ghost var before := cells[..];
      var bigger := new Command[cells.Length + amount](i requires 0 <= i reads this, cells =>
        if i < cells.Length then cells[i] else RAW);
      assert bigger[..] == before + seq(amount, _ => RAW);
      cells := bigger;
      InitializeQueue(cells.Length - amount - 1);
    }

    method IsQueueEmpty() returns (empty: bool)
      requires Model().Sound()
      ensures empty <==> Model().Contents() == []
    {
      empty := size <= 0;
    }

    /** `addElementToQueue`. */
    method AddElement(c: Command)
      requires Model().Valid()
      requires size >= cells.Length && growOnDemand ==> 2 * cells.Length < 0x1_0000
      modifies this, cells
      ensures Model() == Added(old(Model()), c)
      ensures cells == old(cells) || fresh(cells)
    {
      if size >= cells.Length {
        if growOnDemand {
          IncreaseQueueCapacity(cells.Length);
        }
      }
      size := size + 1;
      ModIsRemainder(rear + 1, cells.Length);
      rear := (rear + 1) % cells.Length;
      cells[rear] := c;
    }

    method PeekAtFrontElement() returns (cell: Option<nat>)
      requires Model().Valid()
      ensures cell == if size == 0 then None else Some(front)
      ensures cell.Some? ==> Peeked(Model()) == Some(cells[cell.value])
      ensures cell.None? ==> Peeked(Model()) == None
    {
      cell := if size <= 0 then None else Some(front);
    }

    method GetFrontElement() returns (cell: Option<nat>)
      requires Model().Valid()
      modifies this`front, this`size
      ensures Model() == Taken(old(Model()))
      ensures cell == if old(size) == 0 then None else Some(old(front))
    {
      cell := None;
      if size > 0 {
        size := size - 1;
        cell := Some(front);
        ModIsRemainder(front + 1, cells.Length);
        front := (front + 1) % cells.Length;
      }
    }
  }
}
