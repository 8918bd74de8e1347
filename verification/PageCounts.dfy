/** How the recorded page count of a block relates to the pages it took. */
module PageCounts {
  import opened Common
  import opened PageState
  import opened PageLifecycle
  import opened PageAccess

  /** The length of the pointer array for `n` requested pages. */
  function ArraySize(zone: Zone, n: nat): nat {
    if zone.LowMem? then n
    else if n / PAGES_PER_PAGE == 0 then 1
    else n / PAGES_PER_PAGE
  }

  /** `high_mem_count` after the first `k` cells: each high page adds one, each refusal takes
      one off. */
  function HighCount(cells: seq<Cell>, k: nat): int
    requires k <= |cells|
  {
    if k == 0 then 0
    else HighCount(cells, k - 1) + |cells[k - 1].entries| - (if cells[k - 1].missed then 1 else 0)
  }

  /** What one call of `allocate_pages` can hand out when the count stands at `before`.
      A count of -1 is the largest `unsigned long`, so it ends all filling. */
  ghost predicate Filled(zone: Zone, cell: Cell, before: int, max: nat) {
    if zone.LowMem? then cell.entries == [] && !cell.missed
    else
      && |cell.entries| <= PAGES_PER_PAGE
      && (before < 0 ==> cell.entries == [] && !cell.missed)
      && (0 <= before <= max ==> before + |cell.entries| <= max)
      && (cell.missed ==> |cell.entries| < PAGES_PER_PAGE && 0 <= before + |cell.entries| < max)
      && (!cell.missed && 0 <= before ==> |cell.entries| == PAGES_PER_PAGE || before + |cell.entries| >= max)
  }

  ghost predicate FilledAt(zone: Zone, cells: seq<Cell>, k: nat, n: nat)
    requires k < |cells|
  {
    Filled(zone, cells[k], HighCount(cells, k), n)
  }

  /** What the allocation loop can have collected for `n` pages. */
  ghost predicate Grabbed(zone: Zone, cells: seq<Cell>, n: nat) {
    && |cells| <= ArraySize(zone, n)
    && (forall k :: 0 <= k < |cells| ==> FilledAt(zone, cells, k, n))
  }

  /** `allocated_pages` after the loop. */
  function RecordedCount(zone: Zone, cells: seq<Cell>, n: nat): nat {
    if zone.LowMem? then
      if |cells| == n then n else if |cells| >= 1 then |cells| - 1 else 0
    else
      var c := HighCount(cells, |cells|);
      if c > 0 then c else 0
  }

  /** What the kernel answers an allocation loop: `readings(k)` is the free-page count read before
      cell `k`; `grants(k, 0)` and `grants(k, j + 1)` say whether the page of cell `k` and its
      `j`-th high page are handed out if there is any. */
  datatype Kernel = Kernel(readings: nat -> nat, grants: (nat, nat) -> bool)

  /** `cells` is what these answers give: the loop goes on, and a table is filled, as long as the
      answers allow, unless there is no page left at all. */
  ghost predicate Answered(zone: Zone, cells: seq<Cell>, n: nat, pagesMin: nat, kernel: Kernel, left: set<Page>) {
    && AllAnswered(cells, pagesMin, kernel, left)
    && (|cells| < ArraySize(zone, n) ==>
          kernel.readings(|cells|) <= pagesMin + 1 || !kernel.grants(|cells|, 0) || left == {})
  }

  ghost predicate AllAnswered(cells: seq<Cell>, pagesMin: nat, kernel: Kernel, left: set<Page>) {
    forall k :: 0 <= k < |cells| ==> CellAnswered(cells[k], k, pagesMin, kernel, left)
  }

  ghost predicate CellAnswered(cell: Cell, k: nat, pagesMin: nat, kernel: Kernel, left: set<Page>) {
    && kernel.readings(k) > pagesMin + 1 && kernel.grants(k, 0)
    && (forall j: nat :: 1 <= j <= |cell.entries| ==> kernel.grants(k, j))
    && (cell.missed ==> !kernel.grants(k, |cell.entries| + 1) || left == {})
  }

  ghost predicate NoneMissed(cells: seq<Cell>) {
    forall k :: 0 <= k < |cells| ==> !cells[k].missed
  }

  lemma {:induction false} HighCountBounds(zone: Zone, cells: seq<Cell>, n: nat, k: nat)
    requires zone.HighMem? && Grabbed(zone, cells, n) && k <= |cells|
    ensures -1 <= HighCount(cells, k) <= n && HighCount(cells, k) <= PAGES_PER_PAGE * k
  {
    if k > 0 {
      HighCountBounds(zone, cells, n, k - 1);
      assert FilledAt(zone, cells, k - 1, n);
    }
  }

  /** Neither freeing nor a page number below the count goes past the pages handed out. */
  lemma RecordedWithinArray(zone: Zone, cells: seq<Cell>, n: nat)
    requires Grabbed(zone, cells, n)
    ensures RecordedCount(zone, cells, n) <= Capacity(zone, |cells|)
    ensures FreeCount(zone, RecordedCount(zone, cells, n)) <= |cells|
  {
    if zone.HighMem? {
      HighCountBounds(zone, cells, n, |cells|);
    }
    FreeCountFits(zone, RecordedCount(zone, cells, n), |cells|);
  }

  /** Without a refused high page the count is exact: full tables, and the request as a limit. */
  lemma {:induction false} CleanCount(zone: Zone, cells: seq<Cell>, n: nat, k: nat)
    requires zone.HighMem? && Grabbed(zone, cells, n) && NoneMissed(cells) && k <= |cells|
    ensures HighCount(cells, k) == (if PAGES_PER_PAGE <= n then PAGES_PER_PAGE * k else if k == 0 then 0 else n)
  {
    if k > 0 {
      CleanCount(zone, cells, n, k - 1);
      assert FilledAt(zone, cells, k - 1, n);
      assert PAGES_PER_PAGE <= n ==> PAGES_PER_PAGE * k <= n;
    }
  }

  /** A refused high page costs the count two: the page itself and one more taken off. */
  lemma {:induction false} MissesLowerTheCount(zone: Zone, cells: seq<Cell>, n: nat, k: nat)
    requires zone.HighMem? && Grabbed(zone, cells, n) && k <= |cells| && !NoneMissed(cells[..k])
    ensures HighCount(cells, k) <= PAGES_PER_PAGE * k - 2
  {
    assert FilledAt(zone, cells, k - 1, n);
    HighCountBounds(zone, cells, n, k - 1);
    if !cells[k - 1].missed {
      assert forall i :: 0 <= i < k - 1 ==> cells[..k - 1][i] == cells[..k][i];
      MissesLowerTheCount(zone, cells, n, k - 1);
    }
  }

  /** The answers of the kernel for which freeing the block reaches all it took. In the low zone
      the loop ran to its end or never began. In the high zone no high page was refused, or the
      block has a single table with two pages or more. */
  ghost predicate Covered(zone: Zone, cells: seq<Cell>, n: nat) {
    if zone.LowMem? then |cells| == n || |cells| == 0
    else NoneMissed(cells) || (|cells| == 1 && |cells[0].entries| >= 2)
  }

  /** Nothing stays taken when the block is freed exactly under that condition; in the low zone
      it is otherwise the last page alone that does. */
  lemma WhenNothingIsStranded(zone: Zone, cells: seq<Cell>, n: nat)
    requires n >= 1 && Grabbed(zone, cells, n)
    ensures FreeCount(zone, RecordedCount(zone, cells, n)) == |cells| <==> Covered(zone, cells, n)
    ensures zone.LowMem? && !Covered(zone, cells, n) ==>
      FreeCount(zone, RecordedCount(zone, cells, n)) == |cells| - 1
  {
    if zone.HighMem? && NoneMissed(cells) {
      CleanCount(zone, cells, n, |cells|);
    } else if zone.HighMem? && |cells| == 1 {
      assert FilledAt(zone, cells, 0, n);
      assert HighCount(cells, 1) == |cells[0].entries| - 1;
    } else if zone.HighMem? {
      assert cells[..|cells|] == cells;
      MissesLowerTheCount(zone, cells, n, |cells|);
    }
  }

  /** What a request gets that the kernel meets: with the zone above its watermark, every page
      granted and pages left, a low block of `n` pages, or a high block of whole tables, or of one
      table with `n` pages; and all of them are recorded. */
  lemma MetRequest(zone: Zone, cells: seq<Cell>, n: nat, pagesMin: nat, kernel: Kernel, left: set<Page>)
    requires n >= 1 && Grabbed(zone, cells, n) && Answered(zone, cells, n, pagesMin, kernel, left) && left != {}
    requires forall k: nat :: kernel.readings(k) > pagesMin + 1
    requires forall k: nat, j: nat :: kernel.grants(k, j)
    ensures |cells| == if zone.LowMem? then n else if n < 1024 then 1 else n / 1024
    ensures forall k :: 0 <= k < |cells| ==>
      |cells[k].entries| == if zone.LowMem? then 0 else if n < 1024 then n else 1024
    ensures RecordedCount(zone, cells, n) == if zone.LowMem? || n < 1024 then n else n / 1024 * 1024
  {
    assert NoneMissed(cells) by {
      forall k | 0 <= k < |cells|
        ensures !cells[k].missed
      {
        assert CellAnswered(cells[k], k, pagesMin, kernel, left);
      }
    }
    if zone.HighMem? {
      CleanCount(zone, cells, n, |cells|);
    }
    forall k | 0 <= k < |cells|
      ensures |cells[k].entries| == if zone.LowMem? then 0 else if n < 1024 then n else 1024
    {
      assert FilledAt(zone, cells, k, n);
      if zone.HighMem? { CleanCount(zone, cells, n, k); }
    }
  }

  /** The pages of a block's tables, one after the other, and how many of its tables met a refusal. */
  function HighPages(cells: seq<Cell>): seq<Page> {
    if cells == [] then [] else HighPages(cells[..|cells| - 1]) + cells[|cells| - 1].entries
  }

  function Refusals(cells: seq<Cell>): nat {
    if cells == [] then 0 else Refusals(cells[..|cells| - 1]) + (if cells[|cells| - 1].missed then 1 else 0)
  }

  lemma {:induction false} HighCountIs(cells: seq<Cell>, k: nat)
    requires k <= |cells|
    ensures HighCount(cells, k) == |HighPages(cells[..k])| - Refusals(cells[..k])
  {
    if k > 0 {
      assert cells[..k][..k - 1] == cells[..k - 1];
      HighCountIs(cells, k - 1);
    }
  }

  /** In the high zone the recorded count is the number of high pages less the number of refusals,
      if that is positive; in the low zone it is the pages taken, less one if the loop stopped. */
  lemma WhatIsRecorded(zone: Zone, cells: seq<Cell>, n: nat)
    ensures zone.HighMem? ==>
      var c := |HighPages(cells)| - Refusals(cells);
      RecordedCount(zone, cells, n) == if c > 0 then c else 0
    ensures zone.LowMem? ==>
      RecordedCount(zone, cells, n) == if |cells| == n || |cells| == 0 then |cells| else |cells| - 1
  {
    HighCountIs(cells, |cells|);
    assert cells[..|cells|] == cells;
  }

  /** One refusal among the tables of a block can strand a whole table. */
  lemma RefusalStrandsATable(full: seq<Page>)
    requires |full| == PAGES_PER_PAGE
    ensures var cells := [Cell(1, [2], true), Cell(3, full, false)];
      && Grabbed(HighMem, cells, 2048)
      && FreeCount(HighMem, RecordedCount(HighMem, cells, 2048)) == 1 < |cells|
  {
    var cells := [Cell(1, [2], true), Cell(3, full, false)];
    assert HighCount(cells, 1) == 0 && HighCount(cells, 2) == PAGES_PER_PAGE;
  }

  /** Which page numbers of a freshly installed block reach a page. */
  lemma ResolveInstalled(s: State, slot: Slot, cells: seq<Cell>, count: nat, p: nat)
    requires slot in s.blocks && CellsFit(s, slot, cells)
    ensures var k := p / PAGES_PER_PAGE;
      Resolve(Record(Install(s, slot, cells), slot, count), slot, p) ==
        if slot.zone.LowMem? then (if p < |cells| then Some(cells[p].page) else None)
        else if k < |cells| && p % PAGES_PER_PAGE < |cells[k].entries| then Some(cells[k].entries[p % PAGES_PER_PAGE])
        else None
  {
    hide CellsFit, Install;
    InstallLays(s, slot, cells);
    var k := p / PAGES_PER_PAGE;
    if slot.zone.HighMem? && k < |cells| {
      InstallTables(s, slot, cells, k);
    }
    var s1 := Record(Install(s, slot, cells), slot, count);
    assert s1.blocks[slot].top == Tops(cells);
    assert k < |cells| ==> Tops(cells)[k] == cells[k].page;
    assert p - k * PAGES_PER_PAGE == p % PAGES_PER_PAGE;
  }

  ghost predicate NoHoleBelow(cells: seq<Cell>, count: nat) {
    forall k :: 0 <= k < |cells| && cells[k].missed ==> count <= PAGES_PER_PAGE * k + |cells[k].entries|
  }

  /** Every page number below the recorded count reaches a page, and a write over all of them
      writes that many pages, exactly when no refusal left a hole below the count. */
  lemma RecordedPagesResolve(s: State, slot: Slot, cells: seq<Cell>, n: nat)
    requires slot in s.blocks && CellsFit(s, slot, cells) && Grabbed(slot.zone, cells, n)
    ensures var count := RecordedCount(slot.zone, cells, n);
      var s1 := Record(Install(s, slot, cells), slot, count);
      && (SpanResolves(s1, slot, 0, count) <==> NoHoleBelow(cells, count))
      && (PagesReached(s1, slot, 0, count) == count <==> NoHoleBelow(cells, count))
  {
    hide CellsFit, Install, Resolve;
    var count := RecordedCount(slot.zone, cells, n);
    if NoHoleBelow(cells, count) {
      forall p | 0 <= p < 0 + count
        ensures Resolve(Record(Install(s, slot, cells), slot, count), slot, p).Some?
      {
        ResolveInstalled(s, slot, cells, count, p);
        if slot.zone.HighMem? { NoHoleAt(slot.zone, cells, n, p); }
      }
    } else {
      var k :| 0 <= k < |cells| && cells[k].missed && count > PAGES_PER_PAGE * k + |cells[k].entries|;
      assert FilledAt(slot.zone, cells, k, n);
      var p := PAGES_PER_PAGE * k + |cells[k].entries|;
      ResolveInstalled(s, slot, cells, count, p);
      assert p / PAGES_PER_PAGE == k && p % PAGES_PER_PAGE == |cells[k].entries|;
      assert Resolve(Record(Install(s, slot, cells), slot, count), slot, p).None?;
    }
  }

  lemma NoHoleAt(zone: Zone, cells: seq<Cell>, n: nat, p: nat)
    requires zone.HighMem? && Grabbed(zone, cells, n) && p < HighCount(cells, |cells|)
    requires forall k :: 0 <= k < |cells| && cells[k].missed ==>
      HighCount(cells, |cells|) <= PAGES_PER_PAGE * k + |cells[k].entries|
    ensures p / PAGES_PER_PAGE < |cells| && p % PAGES_PER_PAGE < |cells[p / PAGES_PER_PAGE].entries|
  {
    HighCountBounds(zone, cells, n, |cells|);
    var k := p / PAGES_PER_PAGE;
    assert FilledAt(zone, cells, k, n);
    if |cells[k].entries| < PAGES_PER_PAGE && !cells[k].missed {
      HighCountBounds(zone, cells, n, k);
      if HighCount(cells, k) < 0 {
        CountStays(zone, cells, n, k, |cells|);
      } else {
        CountStays(zone, cells, n, k + 1, |cells|);
      }
    }
  }

  /** Once the count is negative or has reached the request it never changes again. */
  lemma {:induction false} CountStays(zone: Zone, cells: seq<Cell>, n: nat, k: nat, m: nat)
    requires zone.HighMem? && Grabbed(zone, cells, n) && k <= m <= |cells|
    requires HighCount(cells, k) < 0 || HighCount(cells, k) >= n
    ensures HighCount(cells, m) == HighCount(cells, k)
  {
    if k < m {
      CountStays(zone, cells, n, k, m - 1);
      HighCountBounds(zone, cells, n, m - 1);
      assert FilledAt(zone, cells, m - 1, n);
    }
  }
}
