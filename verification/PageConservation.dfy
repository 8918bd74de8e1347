/** When no page is ever lost, over whole runs of the allocator. */
module PageConservation {
  import opened PageState
  import opened PageLifecycle
  import opened PageAccess
  import opened PageCounts
  import opened PageAllocator
  import opened PageRuns

  /** A place that freeing the block will reach. */
  ghost predicate Recorded(s: State, a: Place) {
    Holds(s, a) && a.k < FreeCount(a.slot.zone, s.blocks[a.slot].count)
  }

  ghost predicate Recoverable(s: State, p: Page) {
    p in s.free || exists a :: Recorded(s, a) && PageAt(s, a) == p
  }

  /** The pool is exactly what is free or will be when all blocks are freed. */
  ghost predicate Accounted(s: State, pool: set<Page>) {
    forall p :: p in pool <==> Recoverable(s, p)
  }

  /** A request that finds a block is answered so that freeing the block reaches all it took. */
  ghost predicate RecordsAll(s: State, call: Call) {
    call.Request? && FirstUnused(s, call.zone, 0) < MAX_PAGE_BLOCKS ==>
      Covered(call.zone, call.cells, call.n)
  }

  // ---- Requests ------------------------------------------------------------------------------

  /** Every page of an installed cell sits in the cell's places. */
  lemma CellPlace(s: State, slot: Slot, cells: seq<Cell>, count: nat, p: Page) returns (a: Place)
    requires slot in s.blocks && CellsFit(s, slot, cells) && p in PagesOf(cells)
    ensures var s1 := Record(Install(s, slot, cells), slot, count);
      Holds(s1, a) && PageAt(s1, a) == p && a.slot == slot && a.k < |cells| && p in CellPages(cells[a.k])
  {
    hide CellsFit, Install;
    InstallLays(s, slot, cells);
    var k: nat :| k < |cells| && p in CellPages(cells[k]);
    if p == cells[k].page {
      a := Top(slot, k);
    } else {
      var j: nat :| j < |cells[k].entries| && cells[k].entries[j] == p;
      CellsOfLowZone(s, slot, cells);
      InstallTables(s, slot, cells, k);
      a := Inner(slot, k, j);
    }
  }

  /** And a place of the block holds a page of that cell. */
  lemma PlaceCell(s: State, slot: Slot, cells: seq<Cell>, count: nat, a: Place)
    requires slot in s.blocks && CellsFit(s, slot, cells) && a.slot == slot
    requires Holds(Record(Install(s, slot, cells), slot, count), a)
    ensures a.k < |cells| && PageAt(Record(Install(s, slot, cells), slot, count), a) in CellPages(cells[a.k])
  {
    hide CellsFit, Install;
    InstallLays(s, slot, cells);
    if a.Inner? {
      InstallTables(s, slot, cells, a.k);
    }
  }

  /** Other blocks keep their places and pages. */
  lemma OtherPlace(s: State, slot: Slot, cells: seq<Cell>, count: nat, a: Place)
    requires Inv(s) && slot in s.blocks && CellsFit(s, slot, cells) && a.slot != slot
    ensures var s1 := Record(Install(s, slot, cells), slot, count);
      (Recorded(s1, a) <==> Recorded(s, a)) && (Holds(s, a) ==> Holds(s1, a) && PageAt(s1, a) == PageAt(s, a))
  {
    hide CellsFit, Install;
    InstallLays(s, slot, cells);
    InstallTakes(s, slot, cells);
    if a.slot in s.blocks && a.k < |s.blocks[a.slot].top| {
      var top := Top(a.slot, a.k);
      assert Holds(s, top) && PageAt(s, top) == s.blocks[a.slot].top[a.k];
      InstallFrames(s, slot, cells, s.blocks[a.slot].top[a.k]);
    }
  }

  /** What is recoverable after a request: what was, less the pages of unrecorded cells. */
  lemma RequestRecovers(s: State, slot: Slot, cells: seq<Cell>, count: nat, p: Page)
    requires Inv(s) && slot in s.blocks && s.blocks[slot].count == 0 && CellsFit(s, slot, cells)
    requires FreeCount(slot.zone, count) <= |cells|
    ensures Recoverable(Record(Install(s, slot, cells), slot, count), p) <==>
      Recoverable(s, p) && p !in PagesOf(cells[FreeCount(slot.zone, count)..])
  {
    hide CellsFit, Install, Inv;
    var s1, f := Record(Install(s, slot, cells), slot, count), FreeCount(slot.zone, count);
    InstallTakes(s, slot, cells);
    InstallLays(s, slot, cells);
    SplitPages(cells, f);
    if p in PagesOf(cells) {
      var a := CellPlace(s, slot, cells, count, p);
      CellOfPage(cells, f, a.k, p);
      if p in PagesOf(cells[f..]) && Recoverable(s1, p) {
        var b :| Recorded(s1, b) && PageAt(s1, b) == p;
        if b.slot == slot {
          PlaceCell(s, slot, cells, count, b);
          CellOfPage(cells, f, b.k, p);
        } else {
          OtherPlace(s, slot, cells, count, b);
          OwnedIsNotFree(s, b);
        }
      } else if p in PagesOf(cells[..f]) {
        assert Recorded(s1, a);
      }
    } else {
      if Recoverable(s, p) && p !in s.free {
        var a :| Recorded(s, a) && PageAt(s, a) == p;
        OtherPlace(s, slot, cells, count, a);
      }
      if Recoverable(s1, p) && p !in s1.free {
        var a :| Recorded(s1, a) && PageAt(s1, a) == p;
        if a.slot == slot {
          PlaceCell(s, slot, cells, count, a);
          CellPagesWithin(cells, a.k);
        } else {
          OtherPlace(s, slot, cells, count, a);
        }
      }
    }
  }

  lemma OwnedIsNotFree(s: State, a: Place)
    requires Inv(s)
    ensures Holds(s, a) ==> PageAt(s, a) !in s.free
  {
  }

  lemma CellOfPage(cells: seq<Cell>, f: nat, k: nat, p: Page)
    requires f <= |cells| && k < |cells| && p in CellPages(cells[k])
    ensures if k < f then p in PagesOf(cells[..f]) else p in PagesOf(cells[f..])
  {
    if k < f { assert p in CellPages(cells[..f][k]); } else { assert p in CellPages(cells[f..][k - f]); }
  }

  // ---- Freeing -------------------------------------------------------------------------------

  lemma ReclaimedWasRecoverable(s: State, slot: Slot, p: Page)
    requires Releasable(s, slot) && p in Reclaimed(s, slot)
    ensures Recoverable(s, p)
  {
    var tops, f := s.blocks[slot].top, FreeCount(slot.zone, s.blocks[slot].count);
    var k: nat :| k < f && p in EntryPages(s, slot.zone, tops[..f][k]);
    if p == tops[k] {
      assert Recorded(s, Top(slot, k)) && PageAt(s, Top(slot, k)) == p;
    } else {
      var j: nat :| j < |Table(s, tops[k])| && Table(s, tops[k])[j] == p;
      assert Recorded(s, Inner(slot, k, j)) && PageAt(s, Inner(slot, k, j)) == p;
    }
  }

  /** A recorded place of the block is reclaimed; one of another block stays. */
  lemma RecordedAfterRelease(s: State, slot: Slot, a: Place)
    requires Inv(s) && Releasable(s, slot)
    ensures Recorded(ReleaseBlock(s, slot), a) <==> Recorded(s, a) && a.slot != slot
    ensures Recorded(ReleaseBlock(s, slot), a) ==> PageAt(ReleaseBlock(s, slot), a) == PageAt(s, a)
    ensures Recorded(s, a) && a.slot == slot ==> PageAt(s, a) in Reclaimed(s, slot)
  {
    if Recorded(s, a) && a.slot == slot {
      var tops := s.blocks[slot].top[..FreeCount(slot.zone, s.blocks[slot].count)];
      assert PageAt(s, a) in EntryPages(s, slot.zone, tops[a.k]);
    }
  }

  lemma ReleaseRecovers(s: State, slot: Slot, p: Page)
    requires Inv(s)
    ensures Recoverable(ReleaseBlock(s, slot), p) <==> Recoverable(s, p)
  {
    hide Inv, Reclaimed;
    if Releasable(s, slot) {
      var s' := ReleaseBlock(s, slot);
      if p in Reclaimed(s, slot) {
        ReclaimedWasRecoverable(s, slot, p);
      } else if Recoverable(s', p) && p !in s'.free {
        var a :| Recorded(s', a) && PageAt(s', a) == p;
        RecordedAfterRelease(s, slot, a);
      }
      if Recoverable(s, p) && p !in s.free {
        var a :| Recorded(s, a) && PageAt(s, a) == p;
        RecordedAfterRelease(s, slot, a);
      }
    }
  }

  lemma {:induction false} FreeingRecovers(s: State, zone: Zone, flags: seq<bool>, n: nat, p: Page)
    requires Inv(s)
    ensures Recoverable(ReleaseFlagged(s, zone, flags, n), p) <==> Recoverable(s, p)
  {
    if n > 0 {
      FreeingRecovers(s, zone, flags, n - 1, p);
      ReleaseFlaggedKeepsInv(s, zone, flags, n - 1);
      ReleaseRecovers(ReleaseFlagged(s, zone, flags, n - 1), Slot(zone, n - 1), p);
    }
  }

  // ---- Runs ----------------------------------------------------------------------------------

  lemma StepConserves(s: State, call: Call, pool: set<Page>)
    requires Inv(s) && Possible(s, call) && Accounted(s, pool)
    ensures Accounted(After(s, call), pool) <==> RecordsAll(s, call)
  {
    hide Inv, Recoverable;
    match call
    case Request(zone, n, cells) =>
      var slot := Slot(zone, FirstUnused(s, zone, 0));
      if slot.index < MAX_PAGE_BLOCKS {
        var count := RecordedCount(zone, cells, n);
        RecordedWithinArray(zone, cells, n);
        WhenNothingIsStranded(zone, cells, n);
        InstallTakes(s, slot, cells);
        KeptCells(cells, FreeCount(zone, count));
        SplitPages(cells, FreeCount(zone, count));
        forall p
          ensures Recoverable(After(s, call), p) <==>
            Recoverable(s, p) && p !in PagesOf(cells[FreeCount(zone, count)..])
          ensures p in s.free ==> Recoverable(s, p)
        {
          RequestRecovers(s, slot, cells, count, p);
          FreeIsRecoverable(s, p);
        }
        if FreeCount(zone, count) < |cells| {
          var p :| p in PagesOf(cells[FreeCount(zone, count)..]);
          assert p in s.free && p in pool;
        }
      }
    case Free(zone, flags) =>
      forall p
        ensures Recoverable(After(s, call), p) <==> Recoverable(s, p)
      {
        FreeingRecovers(s, zone, flags, MAX_PAGE_BLOCKS, p);
      }
    case Store(slot, page, span, bytes) =>
      WriteSpanMovesNothing(s, slot, page, span, bytes);
      forall p
        ensures Recoverable(After(s, call), p) <==> Recoverable(s, p)
      {
        SamePlacesRecover(s, After(s, call), p);
      }
  }

  lemma FreeIsRecoverable(s: State, p: Page)
    ensures p in s.free ==> Recoverable(s, p)
  {
  }

  lemma SamePlacesRecover(s: State, s': State, p: Page)
    requires SamePlaces(s, s')
    ensures Recoverable(s', p) <==> Recoverable(s, p)
  {
    assert forall a :: Recorded(s', a) <==> Recorded(s, a);
  }

  ghost predicate AlwaysAccounted(s: State, calls: seq<Call>, pool: set<Page>)
    decreases calls
  {
    Accounted(s, pool) && (calls != [] ==> AlwaysAccounted(After(s, calls[0]), calls[1..], pool))
  }

  ghost predicate AlwaysRecordsAll(s: State, calls: seq<Call>)
    decreases calls
  {
    calls != [] ==> RecordsAll(s, calls[0]) && AlwaysRecordsAll(After(s, calls[0]), calls[1..])
  }

  /** Over every run, both zones and all blocks: every page of the pool stays free or recorded,
      and nothing else is, exactly when each low-zone request is served in full or not at all and
      no high-zone request is refused a high page but in a single table with two pages or more. */
  lemma {:induction false} NoPageIsLost(s: State, calls: seq<Call>, pool: set<Page>)
    requires Inv(s) && PossibleRun(s, calls) && Accounted(s, pool)
    ensures AlwaysAccounted(s, calls, pool) <==> AlwaysRecordsAll(s, calls)
    decreases calls
  {
    if calls != [] {
      StepConserves(s, calls[0], pool);
      if RecordsAll(s, calls[0]) {
        StepKeepsInv(s, calls[0]);
        NoPageIsLost(After(s, calls[0]), calls[1..], pool);
      }
    }
  }
}
