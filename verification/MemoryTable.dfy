/** The table of mapped memory regions (CommonLibrary/memoryManager.c). An entry is known to its
    owner by a pointer into the array that was the table when it was made; growth replaces that
    array, and then what is read through the pointer is whatever the freed memory holds. */
module MemoryTable {
  datatype Entry = Entry(ptr: nat, lowAddr: nat, highAddr: nat, marker: nat)

  const WIPED := Entry(0, 0, 0, 0)

  predicate Free(e: Entry) {
    e.ptr == 0
  }

  /** A live slot knows its own index; a free one has been wiped. */
  ghost predicate Tidy(t: seq<Entry>) {
    forall i :: 0 <= i < |t| ==> if Free(t[i]) then t[i] == WIPED else t[i].marker == i
  }

  datatype Region = Region(ptr: nat, lowAddr: nat, highAddr: nat)

  /** What the table stands for: the live markers and their regions. */
  function Regions(t: seq<Entry>): map<nat, Region> {
    map i: nat | i < |t| && !Free(t[i]) :: Region(t[i].ptr, t[i].lowAddr, t[i].highAddr)
  }

  function FirstFree(t: seq<Entry>): (i: nat)
    ensures i <= |t| && (i < |t| ==> Free(t[i])) && forall k :: 0 <= k < i ==> !Free(t[k])
  {
    if t == [] || Free(t[0]) then 0 else 1 + FirstFree(t[1..])
  }

  function Allocated(t: seq<Entry>, region: Region): seq<Entry> {
    var i := FirstFree(t);
    var e := Entry(region.ptr, region.lowAddr, region.highAddr, i);
    if i < |t| then t[i := e] else t + [e]
  }

  predicate AllFree(t: seq<Entry>) {
    forall i :: 0 <= i < |t| ==> Free(t[i])
  }

  /** Wiping slot `m`; a table without live slots is given up. */
  function Released(t: seq<Entry>, m: nat): (t': seq<Entry>)
    requires m < |t|
  {
    var wiped := t[m := WIPED];
    if AllFree(wiped) then [] else wiped
  }

  // ---- Refinement of a map -----------------------------------------------------------------

  /** Allocation adds the least marker that is not live, and touches no live slot. */
  lemma AllocateAddsARegion(t: seq<Entry>, region: Region)
    requires Tidy(t) && region.ptr != 0
    ensures var i := FirstFree(t);
      && Tidy(Allocated(t, region))
      && i !in Regions(t) && (forall k: nat :: k < i ==> k in Regions(t))
      && Regions(Allocated(t, region)) == Regions(t)[i := region]
  {
  }

  /** A release removes the region in its slot, if there is one, and no other. */
  lemma ReleaseRemoves(t: seq<Entry>, m: nat)
    requires Tidy(t) && m < |t|
    ensures Tidy(Released(t, m)) && Regions(Released(t, m)) == Regions(t) - {m}
    ensures Released(t, m) == [] <==> Regions(Released(t, m)) == map[]
  {
    var wiped := t[m := WIPED];
    assert Regions(wiped) == Regions(t) - {m};
    if AllFree(wiped) {
      assert Regions(wiped) == map[];
    } else {
      var i: nat :| i < |wiped| && !Free(wiped[i]);
      assert i in Regions(wiped);
    }
  }

  /** Through a pointer into the table itself, a release removes its entry and no other exactly
      when that is live, or slot 0 is the entry or is not live either: a wiped slot names slot 0. */
  lemma WhenReleaseHitsItsEntry(t: seq<Entry>, e: nat)
    requires Tidy(t) && e < |t| && t[e].marker < |t|
    ensures Regions(Released(t, t[e].marker)) == Regions(t) - {e} <==> !Free(t[e]) || e == 0 || 0 !in Regions(t)
  {
    ReleaseRemoves(t, t[e].marker);
    if Free(t[e]) && e != 0 && 0 in Regions(t) {
      assert 0 in Regions(t) - {e} && 0 !in Regions(Released(t, 0));
    } else {
      assert Regions(t) - {if Free(t[e]) then 0 else e} == Regions(t) - {e};
    }
  }

  // ---- Runs: the length of the table ---------------------------------------------------------

  function LiveCount(t: seq<Entry>): (n: nat)
    ensures n <= |t|
  {
    if t == [] then 0 else LiveCount(t[..|t| - 1]) + (if Free(t[|t| - 1]) then 0 else 1)
  }

  lemma {:induction false} CountAfterUpdate(t: seq<Entry>, i: nat, e: Entry)
    requires i < |t|
    ensures LiveCount(t[i := e]) == LiveCount(t) - (if Free(t[i]) then 0 else 1) + (if Free(e) then 0 else 1)
  {
    var n := |t| - 1;
    if i < n {
      assert t[i := e][..n] == t[..n][i := e];
      CountAfterUpdate(t[..n], i, e);
    } else {
      assert t[i := e][..n] == t[..n];
    }
  }

  lemma {:induction false} CountExtremes(t: seq<Entry>)
    ensures LiveCount(t) == |t| <==> forall i :: 0 <= i < |t| ==> !Free(t[i])
    ensures LiveCount(t) == 0 <==> AllFree(t)
  {
    if t != [] {
      CountExtremes(t[..|t| - 1]);
      assert forall i :: 0 <= i < |t| - 1 ==> t[i] == t[..|t| - 1][i];
    }
  }

  /** What an owner holds: which of the arrays that were the table, and the slot in it. */
  datatype Pointer = Pointer(list: nat, slot: nat)

  /** `stray` is what the marker of a freed slot reads as. */
  datatype Op = Allocate(region: Region) | Deallocate(p: Pointer, stray: nat)

  /** A run so far: the table, the number of arrays before it, and the most regions that were
      live at once since it was last empty. */
  datatype History = History(table: seq<Entry>, list: nat, peak: nat)

  function MarkerRead(h: History, p: Pointer, stray: nat): nat {
    if p.list == h.list && p.slot < |h.table| then h.table[p.slot].marker else stray
  }

  /** The marker that is read names a slot: what the code does otherwise is not defined. */
  predicate Possible(h: History, op: Op) {
    match op
    case Allocate(region) => region.ptr != 0
    case Deallocate(p, stray) => MarkerRead(h, p, stray) < |h.table|
  }

  predicate Grows(h: History, op: Op) {
    op.Allocate? && FirstFree(h.table) == |h.table|
  }

  function After(h: History, op: Op): History
    requires Possible(h, op)
  {
    var t := match op
      case Allocate(region) => Allocated(h.table, region)
      case Deallocate(p, stray) => Released(h.table, MarkerRead(h, p, stray));
    var live := LiveCount(t);
    History(t, if Grows(h, op) || t == [] then h.list + 1 else h.list,
            if live == 0 then 0 else if live > h.peak then live else h.peak)
  }

  predicate PossibleRun(h: History, ops: seq<Op>)
    decreases ops
  {
    ops == [] || (Possible(h, ops[0]) && PossibleRun(After(h, ops[0]), ops[1..]))
  }

  function AfterAll(h: History, ops: seq<Op>): History
    requires PossibleRun(h, ops)
    decreases ops
  {
    if ops == [] then h else AfterAll(After(h, ops[0]), ops[1..])
  }

  lemma StepKeepsTidy(h: History, op: Op)
    requires Tidy(h.table) && Possible(h, op)
    ensures Tidy(After(h, op).table) && h.list <= After(h, op).list
  {
    match op
    case Allocate(region) => AllocateAddsARegion(h.table, region);
    case Deallocate(p, stray) => ReleaseRemoves(h.table, MarkerRead(h, p, stray));
  }

  /** Over every run, through good pointers and stale ones, the table is as long as the most
      regions that were live at once since it was last empty, and it is empty exactly when none
      is live. */
  lemma {:induction false} LengthIsPeak(h: History, ops: seq<Op>)
    requires Tidy(h.table) && |h.table| == h.peak && (LiveCount(h.table) == 0 <==> h.table == [])
    requires PossibleRun(h, ops)
    ensures var h' := AfterAll(h, ops);
      && Tidy(h'.table) && |h'.table| == h'.peak
      && (LiveCount(h'.table) == 0 <==> h'.table == [])
    decreases ops
  {
    if ops != [] {
      var t, t' := h.table, After(h, ops[0]).table;
      StepKeepsTidy(h, ops[0]);
      match ops[0] {
        case Allocate(region) =>
          var i := FirstFree(t);
          if i < |t| {
            CountAfterUpdate(t, i, t'[i]);
          } else {
            CountExtremes(t);
            assert t'[..|t|] == t;
          }
        case Deallocate(p, stray) =>
          var m := MarkerRead(h, p, stray);
          CountAfterUpdate(t, m, WIPED);
          CountExtremes(t[m := WIPED]);
      }
      LengthIsPeak(After(h, ops[0]), ops[1..]);
    }
  }

  // ---- Runs: what an owner's pointer is good for -----------------------------------------------

  predicate NeverGrows(h: History, ops: seq<Op>)
    requires PossibleRun(h, ops)
    decreases ops
  {
    ops != [] ==> !Grows(h, ops[0]) && NeverGrows(After(h, ops[0]), ops[1..])
  }

  /** Slot `e` is live all through the run. */
  predicate StaysLive(h: History, ops: seq<Op>, e: nat)
    requires PossibleRun(h, ops)
    decreases ops
  {
    && e < |h.table| && !Free(h.table[e])
    && (ops != [] ==> StaysLive(After(h, ops[0]), ops[1..], e))
  }

  /** While an entry is live, the array it is in is replaced exactly by an allocation that finds
      no free slot, and the table does not get shorter. */
  lemma {:induction false} ArrayStaysWithoutGrowth(h: History, ops: seq<Op>, e: nat)
    requires Tidy(h.table) && PossibleRun(h, ops) && StaysLive(h, ops, e)
    ensures var h' := AfterAll(h, ops);
      && Tidy(h'.table) && e < |h'.table| && !Free(h'.table[e])
      && h.list <= h'.list && (h'.list == h.list <==> NeverGrows(h, ops))
      && (if NeverGrows(h, ops) then |h.table| == |h'.table| else |h.table| < |h'.table|)
    decreases ops
  {
    if ops != [] {
      StepKeepsTidy(h, ops[0]);
      assert e < |After(h, ops[0]).table|;
      ArrayStaysWithoutGrowth(After(h, ops[0]), ops[1..], e);
    }
  }

  /** An owner that releases its entry, live since it was allocated, removes that entry and no
      other, whatever freed memory holds, exactly when no allocation since has grown the table. */
  lemma OwnerReleases(h: History, region: Region, ops: seq<Op>)
    requires Tidy(h.table) && region.ptr != 0
    requires PossibleRun(After(h, Allocate(region)), ops)
    requires StaysLive(After(h, Allocate(region)), ops, FirstFree(h.table))
    ensures var e, h1 := FirstFree(h.table), After(h, Allocate(region));
      var p, h2 := Pointer(h1.list, e), AfterAll(h1, ops);
      NeverGrows(h1, ops) <==>
      forall stray: nat :: Possible(h2, Deallocate(p, stray)) ==>
        Regions(After(h2, Deallocate(p, stray)).table) == Regions(h2.table) - {e}
  {
    var e, h1 := FirstFree(h.table), After(h, Allocate(region));
    var p, h2 := Pointer(h1.list, e), AfterAll(h1, ops);
    StepKeepsTidy(h, Allocate(region));
    ArrayStaysWithoutGrowth(h1, ops, e);
    if NeverGrows(h1, ops) {
      ReleaseRemoves(h2.table, e);
    } else {
      var stray := if e == 0 then 1 else 0;
      ReleaseRemoves(h2.table, stray);
      assert Possible(h2, Deallocate(p, stray));
      assert e in Regions(h2.table) - {stray} && e !in Regions(h2.table) - {e};
    }
  }

  // ---- In place ------------------------------------------------------------------------------

  class Manager {
    var memoryList: array<Entry>

    function Table(): seq<Entry>
      reads this, memoryList
    {
      memoryList[..]
    }

    constructor ()
      ensures Table() == [] && fresh(memoryList)
    {
      memoryList := new Entry[0];
    }

    /** `allocateMemoryPointer`: the pointer is the array and a slot in it. The array is replaced
        exactly when it has no free slot. The length of the list is a 16-bit number. */
    method AllocateMemoryPointer(ptr: nat, lowAddr: nat, highAddr: nat) returns (list: array<Entry>, marker: nat)
      requires memoryList.Length < 0xFFFF
      modifies this, memoryList
      ensures Table() == Allocated(old(Table()), Region(ptr, lowAddr, highAddr))
      ensures list == memoryList && marker == FirstFree(old(Table()))
      ensures memoryList == old(memoryList) <==> FirstFree(old(Table())) < |old(Table())|
      ensures memoryList != old(memoryList) ==> fresh(memoryList) && old(memoryList[..]) == old(memoryList)[..]
    {
      var i := 0;
      while i < memoryList.Length && memoryList[i].ptr != 0
        invariant i <= memoryList.Length
        invariant FirstFree(Table()) == i + FirstFree(Table()[i..])
      {
        assert Table()[i..][1..] == Table()[i + 1..];
        i := i + 1;
      }
      marker := i;
      if i < memoryList.Length {
        memoryList[i] := Entry(ptr, lowAddr, highAddr, i);
      } else {
        var tempList := new Entry[memoryList.Length + 1](_ => WIPED);
        for k := 0 to memoryList.Length
          invariant memoryList == old(memoryList)
          invariant tempList[..k] == memoryList[..k]
          invariant Table() == old(Table())
        {
          tempList[k] := memoryList[k];
        }
        tempList[i] := Entry(ptr, lowAddr, highAddr, i);
        memoryList := tempList;
      }
      list := memoryList;
    }

    /** `deAllocateMemoryPointer`: whether the table is empty now. The marker is read through the
        owner's pointer, slot `e` of `list`; `stray` is what it reads as when `list` was freed. */
    method DeAllocateMemoryPointer(list: array<Entry>, e: nat, stray: nat) returns (empty: bool)
      requires Tidy(Table()) && e < list.Length
      requires Table() != [] ==> (if list == memoryList then list[e].marker else stray) < |Table()|
      modifies this, memoryList
      ensures Tidy(Table())
      ensures old(Table()) == [] ==> empty && Table() == []
      ensures old(Table()) != [] ==>
        var m := if list == old(memoryList) then old(list[e].marker) else stray;
        && Table() == Released(old(Table()), m)
        && (empty <==> Regions(Table()) == map[])
      ensures if empty && old(Table()) != [] then fresh(memoryList) else memoryList == old(memoryList)
    {
      if memoryList.Length == 0 {
        return true;
      }
      var m := if list == memoryList then list[e].marker else stray;
      ReleaseRemoves(Table(), m);
      memoryList[m] := WIPED;
      ghost var wiped := Table();
      var zeroCount: nat := 0;
      for i := 0 to memoryList.Length
        invariant zeroCount <= i && (zeroCount == i <==> AllFree(wiped[..i]))
        invariant Table() == wiped
      {
        assert wiped[..i + 1] == wiped[..i] + [wiped[i]];
        if memoryList[i].ptr == 0 {
          zeroCount := zeroCount + 1;
        }
      }
      assert wiped[..|wiped|] == wiped;
      empty := zeroCount == memoryList.Length;
      if empty {
        memoryList := new Entry[0];
      }
    }
  }
}
