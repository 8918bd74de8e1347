/** Whole runs of the page allocator: what every reachable state keeps, and what allocating and
    then freeing a block gives back. */
module PageRuns {
  import opened PageState
  import opened PageLifecycle
  import opened PageAccess
  import opened PageCounts
  import opened PageAllocator

  /** One call of a proc handler, together with the kernel's answers to it. */
  datatype Call =
    | Request(zone: Zone, n: nat, cells: seq<Cell>)
    | Free(zone: Zone, flags: seq<bool>)
    | Store(slot: Slot, page: nat, span: nat, bytes: seq<bv8>)

  /** The kernel's answers fit the state, and a write stays within the recorded count of its block:
      beyond that the code reads past the pointer array. */
  ghost predicate Possible(s: State, call: Call) {
    match call
    case Request(zone, n, cells) =>
      var slot := Slot(zone, FirstUnused(s, zone, 0));
      slot.index < MAX_PAGE_BLOCKS ==> n >= 1 && Grabbed(zone, cells, n) && CellsFit(s, slot, cells)
    case Free(_, _) => true
    case Store(slot, page, span, bytes) =>
      |bytes| <= PAGE_SIZE && slot in s.blocks && page + span <= s.blocks[slot].count
  }

  function After(s: State, call: Call): State {
    match call
    case Request(zone, n, cells) =>
      var slot := Slot(zone, FirstUnused(s, zone, 0));
      if slot.index >= MAX_PAGE_BLOCKS || slot !in s.blocks then s
      else Record(Install(s, slot, cells), slot, RecordedCount(zone, cells, n))
    case Free(zone, flags) => ReleaseFlagged(s, zone, flags, MAX_PAGE_BLOCKS)
    case Store(slot, page, span, bytes) => WriteSpan(s, slot, page, span, bytes)
  }

  ghost predicate PossibleRun(s: State, calls: seq<Call>)
    decreases calls
  {
    calls == [] || (Possible(s, calls[0]) && PossibleRun(After(s, calls[0]), calls[1..]))
  }

  function AfterRun(s: State, calls: seq<Call>): State
    decreases calls
  {
    if calls == [] then s else AfterRun(After(s, calls[0]), calls[1..])
  }

  lemma StepKeepsInv(s: State, call: Call)
    requires Inv(s) && Possible(s, call)
    ensures Inv(After(s, call))
  {
    match call
    case Request(zone, n, cells) =>
      var slot := Slot(zone, FirstUnused(s, zone, 0));
      if slot.index < MAX_PAGE_BLOCKS { InstalledKeepsInv(s, slot, cells, n); }
    case Free(zone, flags) =>
      ReleaseFlaggedKeepsInv(s, zone, flags, MAX_PAGE_BLOCKS);
    case Store(slot, page, span, bytes) =>
      WriteSpanMovesNothing(s, slot, page, span, bytes);
  }

  /** In every reachable state no page is owned twice, or owned and free, over both zones, all
      blocks, the tables and the high pages inside them. */
  lemma {:induction false} EveryPageOwnedOnce(s: State, calls: seq<Call>)
    requires Inv(s) && PossibleRun(s, calls)
    ensures Inv(AfterRun(s, calls)) && OwnedOnce(AfterRun(s, calls))
    decreases calls
  {
    if calls != [] {
      StepKeepsInv(s, calls[0]);
      EveryPageOwnedOnce(After(s, calls[0]), calls[1..]);
    }
  }

  /** A low-zone request and the freeing of its block: all pages come back exactly when the loop
      ran to its end or took nothing; otherwise its last page, alone, stays taken. */
  lemma LowZoneRoundTrip(s: State, n: nat, cells: seq<Cell>)
    requires Inv(s) && Possible(s, Request(LowMem, n, cells))
    requires FirstUnused(s, LowMem, 0) < MAX_PAGE_BLOCKS
    ensures var slot := Slot(LowMem, FirstUnused(s, LowMem, 0));
      var s2 := ReleaseBlock(After(s, Request(LowMem, n, cells)), slot);
      && (s2.free == s.free <==> |cells| == n || |cells| == 0)
      && (0 < |cells| < n ==> s2.free == s.free - {cells[|cells| - 1].page})
      && PagesOf(cells) <= s.free
  {
    var slot := Slot(LowMem, FirstUnused(s, LowMem, 0));
    var count := RecordedCount(LowMem, cells, n);
    WhenNothingIsStranded(LowMem, cells, n);
    AllocateThenFree(s, slot, cells, count);
    InstallTakes(s, slot, cells);
    if 0 < |cells| < n {
      var m := |cells| - 1;
      CellsOfLowZone(s, slot, cells);
      assert cells[m..] == [cells[m]];
      PagesOfLast([cells[m]]);
      assert PagesOf([cells[m]]) == {cells[m].page};
    }
  }

  /** In the high zone all pages come back, the tables and everything in them, exactly when no
      high page was refused, or one was refused to a single table that holds two pages or more. */
  lemma HighZoneRoundTrip(s: State, n: nat, cells: seq<Cell>)
    requires Inv(s) && Possible(s, Request(HighMem, n, cells))
    requires FirstUnused(s, HighMem, 0) < MAX_PAGE_BLOCKS
    ensures var slot := Slot(HighMem, FirstUnused(s, HighMem, 0));
      ReleaseBlock(After(s, Request(HighMem, n, cells)), slot).free == s.free <==>
      NoneMissed(cells) || (|cells| == 1 && |cells[0].entries| >= 2)
  {
    var count := RecordedCount(HighMem, cells, n);
    WhenNothingIsStranded(HighMem, cells, n);
    RecordedWithinArray(HighMem, cells, n);
    AllocateThenFree(s, Slot(HighMem, FirstUnused(s, HighMem, 0)), cells, count);
  }

  lemma RequestKeepsResolve(s: State, slot: Slot, cells: seq<Cell>, count: nat, other: Slot, page: nat)
    requires Inv(s) && slot in s.blocks && CellsFit(s, slot, cells) && other != slot
    ensures Resolve(Record(Install(s, slot, cells), slot, count), other, page) == Resolve(s, other, page)
  {
    hide CellsFit, Install;
    InstallLays(s, slot, cells);
    InstallTakes(s, slot, cells);
    var t := MemPage(s, other, page);
    if other.zone.HighMem? && t.Some? {
      assert Holds(s, Top(other, page / PAGES_PER_PAGE)) && PageAt(s, Top(other, page / PAGES_PER_PAGE)) == t.value;
      InstallFrames(s, slot, cells, t.value);
    }
  }

  /** A request leaves every page number of every other block as it was. */
  lemma RequestLeavesOtherBlocks(s: State, zone: Zone, n: nat, cells: seq<Cell>, other: Slot, page: nat, size: nat)
    requires Inv(s) && Possible(s, Request(zone, n, cells))
    requires other != Slot(zone, FirstUnused(s, zone, 0))
    ensures ReadPage(After(s, Request(zone, n, cells)), other, page, size) == ReadPage(s, other, page, size)
  {
    hide CellsFit, Install, Resolve, Grabbed;
    var slot := Slot(zone, FirstUnused(s, zone, 0));
    if slot.index < MAX_PAGE_BLOCKS {
      RequestKeepsResolve(s, slot, cells, RecordedCount(zone, cells, n), other, page);
    }
  }
}
