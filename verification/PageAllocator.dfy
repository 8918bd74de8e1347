/** The page allocator's proc handlers (PageAllocator/page_alloc.c) over its global tables.
    The answers of the kernel's `alloc_pages`, the watermark readings and the success of `vmalloc`
    are parameters: every answer the kernel can give is covered. */
module PageAllocator {
  import opened Common
  import opened PageState
  import opened PageLifecycle
  import opened PageAccess
  import opened PageCounts
  import PageReserve

  /** The first block of a zone, from `i` on, that records no pages. */
  function FirstUnused(s: State, zone: Zone, i: nat): (r: nat)
    ensures i <= MAX_PAGE_BLOCKS ==> i <= r <= MAX_PAGE_BLOCKS
    ensures r < MAX_PAGE_BLOCKS && i <= MAX_PAGE_BLOCKS ==>
      Slot(zone, r) in s.blocks && s.blocks[Slot(zone, r)].count == 0
    ensures forall k :: i <= k < r ==> !(Slot(zone, k) in s.blocks && s.blocks[Slot(zone, k)].count == 0)
    decreases MAX_PAGE_BLOCKS - i
  {
    if i >= MAX_PAGE_BLOCKS then i
    else if Slot(zone, i) in s.blocks && s.blocks[Slot(zone, i)].count == 0 then i
    else FirstUnused(s, zone, i + 1)
  }

  /** Freeing the flagged blocks among the first `n` of a zone. */
  function ReleaseFlagged(s: State, zone: Zone, flags: seq<bool>, n: nat): State {
    if n == 0 then s
    else
      var r := ReleaseFlagged(s, zone, flags, n - 1);
      if n <= |flags| && flags[n - 1] then ReleaseBlock(r, Slot(zone, n - 1)) else r
  }

  /** The length that `let_my_pages_go` returns: the array entries freed. */
  function EntriesFreed(s: State, zone: Zone, flags: seq<bool>, n: nat): nat {
    if n == 0 then 0
    else
      var r, slot := ReleaseFlagged(s, zone, flags, n - 1), Slot(zone, n - 1);
      EntriesFreed(s, zone, flags, n - 1) +
      (if n <= |flags| && flags[n - 1] && Releasable(r, slot) then FreeCount(zone, r.blocks[slot].count) else 0)
  }

  lemma {:induction false} ReleaseFlaggedKeepsInv(s: State, zone: Zone, flags: seq<bool>, n: nat)
    requires Inv(s)
    ensures Inv(ReleaseFlagged(s, zone, flags, n))
  {
    if n > 0 {
      ReleaseFlaggedKeepsInv(s, zone, flags, n - 1);
      ReleaseKeepsInv(ReleaseFlagged(s, zone, flags, n - 1), Slot(zone, n - 1));
    }
  }

  class Allocator {
    var free: set<Page>
    var blocks: map<Slot, Block>
    var tables: map<Page, seq<Page>>
    var data: map<Page, seq<bv8>>

    ghost function S(): State
      reads this
    {
      State(free, blocks, tables, data)
    }

    /** `init_page_alloc`: no block holds anything. */
    constructor (memory: map<Page, seq<bv8>>, free: set<Page>)
      requires forall p :: p in memory ==> |memory[p]| == PAGE_SIZE
      requires free <= memory.Keys
      ensures Inv(S()) && S().free == free && S().data == memory
      ensures forall slot :: slot in S().blocks ==> S().blocks[slot] == Block([], 0)
    {
      this.free := free;
      this.blocks := (map i: nat | i < MAX_PAGE_BLOCKS :: Slot(LowMem, i) := Block([], 0))
                   + (map i: nat | i < MAX_PAGE_BLOCKS :: Slot(HighMem, i) := Block([], 0));
      this.tables := map[];
      this.data := memory;
      new;
      forall slot: Slot
        ensures slot in blocks <==> slot.index < MAX_PAGE_BLOCKS
      {
        var Slot(zone, i) := slot;
        match zone { case LowMem => case HighMem => }
      }
    }

    /** The kernel's `alloc_pages` of order 0: any free page, or a refusal. */
    method KernelPage(granted: bool) returns (p: Option<Page>)
      modifies this`free
      ensures p.None? <==> !granted || old(free) == {}
      ensures p.None? ==> free == old(free)
      ensures p.Some? ==> p.value in old(free) && free == old(free) - {p.value}
    {
      if !granted || free == {} {
        p := None;
      } else {
        var q :| q in free;
        free := free - {q};
        p := Some(q);
      }
    }

    /** `allocate_pages`: one page, in the high zone filled with pointers to high pages. */
    method AllocatePages(zone: Zone, count: int, max: nat, kernel: Kernel, k: nat)
      returns (cell: Option<Cell>, count': int)
      requires -1 <= count <= max
      modifies this`free, this`tables
      ensures cell.None? <==> !kernel.grants(k, 0) || old(free) == {}
      ensures cell.None? ==> S() == old(S()) && count' == count
      ensures cell.Some? ==>
        && CellFits(old(S()), zone, cell.value)
        && Filled(zone, cell.value, count, max)
        && free == old(free) - CellPages(cell.value)
        && tables == (if zone.HighMem? then old(tables)[cell.value.page := cell.value.entries] else old(tables))
        && count' == count + |cell.value.entries| - (if cell.value.missed then 1 else 0)
        && (forall j: nat :: 1 <= j <= |cell.value.entries| ==> kernel.grants(k, j))
        && (cell.value.missed ==> !kernel.grants(k, |cell.value.entries| + 1) || free == {})
    {
      count' := count;
      var page := KernelPage(kernel.grants(k, 0));
      if page.None? {
        return None, count';
      }
      var t := page.value;
      var entries: seq<Page>, missed := [], false;
      if zone.HighMem? {
        tables := tables[t := []];
        while |entries| < PAGES_PER_PAGE && 0 <= count' < max
          invariant |entries| <= PAGES_PER_PAGE
          invariant {t} + Elements(entries) <= old(free)
          invariant Distinct(entries) && t !in entries
          invariant free == old(free) - ({t} + Elements(entries))
          invariant tables == old(tables)[t := entries]
          invariant count' == count + |entries|
          invariant count < 0 ==> entries == []
          invariant 0 <= count ==> count' <= max
          invariant forall j: nat :: 1 <= j <= |entries| ==> kernel.grants(k, j)
          decreases PAGES_PER_PAGE - |entries|
        {
          var high := KernelPage(kernel.grants(k, |entries| + 1));
          if high.None? {
            count', missed := count' - 1, true;
            break;
          }
          entries := entries + [high.value];
          tables := tables[t := entries];
          count' := count' + 1;
        }
      }
      cell := Some(Cell(t, entries, missed));
    }

    /** The allocation loop: fill the fresh array of `slot` until it is full, the zone runs
        down to its watermark, or no page is handed out. */
    method Grab(slot: Slot, n: nat, pagesMin: nat, kernel: Kernel, ghost s: State)
      returns (cells: seq<Cell>, highCount: int)
      requires slot in s.blocks && S() == StartBlock(s, slot)
      modifies this`free, this`blocks, this`tables
      ensures Grabbed(slot.zone, cells, n) && Answered(slot.zone, cells, n, pagesMin, kernel, free)
      ensures CellsFit(s, slot, cells) && S() == Install(s, slot, cells)
      ensures slot.zone.HighMem? ==> highCount == HighCount(cells, |cells|)
    {
      cells, highCount := [], 0;
      var size := ArraySize(slot.zone, n);
      assert Grabbed(slot.zone, cells, n) && CellsFit(s, slot, cells) && Install(s, slot, cells) == S();
      hide CellsFit, Install, Grabbed, AllAnswered, HighCount, CellFits, ArraySize;
      while |cells| < size
        invariant S() == Install(s, slot, cells)
        invariant CellsFit(s, slot, cells)
        invariant Grabbed(slot.zone, cells, n)
        invariant AllAnswered(cells, pagesMin, kernel, free)
        invariant highCount == HighCount(cells, |cells|) && -1 <= highCount <= n
      {
        var k := |cells|;
        if kernel.readings(k) <= pagesMin + 1 {
          break;
        }
        ghost var left := free;
        var cell, count := AllocatePages(slot.zone, highCount, n, kernel, k);
        if cell.None? {
          break;
        }
        blocks := blocks[slot := blocks[slot].(top := blocks[slot].top + [cell.value.page])];
        CellsFitNext(s, slot, cells, cell.value);
        GrabbedNext(slot.zone, cells, cell.value, n);
        AnsweredNext(cells, cell.value, pagesMin, kernel, left, free);
        cells, highCount := cells + [cell.value], count;
      }
    }

    /** The scan for the first block without pages; `MAX_PAGE_BLOCKS` when there is none. */
    method FindUnused(zone: Zone) returns (index: nat)
      requires forall slot: Slot :: slot.index < MAX_PAGE_BLOCKS ==> slot in blocks
      ensures index == FirstUnused(S(), zone, 0)
    {
      index := 0;
      while index < MAX_PAGE_BLOCKS && blocks[Slot(zone, index)].count != 0
        invariant index <= MAX_PAGE_BLOCKS
        invariant FirstUnused(S(), zone, 0) == FirstUnused(S(), zone, index)
      {
        index := index + 1;
      }
    }

    /** The final count of a block, unless it is 0 or -1 (the largest `unsigned long`). */
    method SetCount(slot: Slot, i: int) returns (block: Option<nat>)
      requires slot in blocks && blocks[slot].count == 0
      modifies this`blocks
      ensures S() == Record(old(S()), slot, if i > 0 then i else 0)
      ensures block == (if i > 0 then Some(slot.index) else None)
    {
      block := None;
      if i > 0 {
        blocks := blocks[slot := blocks[slot].(count := i)];
        block := Some(slot.index);
      }
    }

    /** `proc_allocate_pages_write`: serve a request for `request` pages. The block's array is
        the cells handed out; `block` names it when its count is not zero. */
    method Allocate(zone: Zone, request: nat, freePages: nat, pagesMin: nat, vmallocFails: bool, kernel: Kernel)
      returns (block: Option<nat>, cells: seq<Cell>)
      requires Inv(S())
      modifies this`free, this`blocks, this`tables
      ensures Inv(S())
      ensures var n := PageReserve.Clamp(request, freePages, pagesMin);
        var index := FirstUnused(old(S()), zone, 0);
        var slot := Slot(zone, index);
        if n.None? || index == MAX_PAGE_BLOCKS then
          S() == old(S()) && block == None && cells == []
        else
          var count := RecordedCount(zone, cells, n.value);
          && slot in old(S()).blocks
          && Grabbed(zone, cells, n.value)
          && (if vmallocFails then cells == [] else Answered(zone, cells, n.value, pagesMin, kernel, free))
          && CellsFit(old(S()), slot, cells)
          && S() == Record(Install(old(S()), slot, cells), slot, count)
          && block == (if count > 0 then Some(index) else None)
    {
      block, cells := None, [];
      var clamped := PageReserve.Clamp(request, freePages, pagesMin);
      if clamped.None? {
        return;
      }
      var n := clamped.value;
      var index := FindUnused(zone);
      if index == MAX_PAGE_BLOCKS {
        return;
      }
      var slot := Slot(zone, index);
      ghost var s := S();
      blocks := blocks[slot := Block([], 0)];
      var highCount := 0;
      if !vmallocFails {
        cells, highCount := Grab(slot, n, pagesMin, kernel, s);
      }
      InstallLays(s, slot, cells);
      block := SetCount(slot, if zone.HighMem? then highCount
                              else if |cells| < ArraySize(zone, n) then |cells| - 1 else |cells|);
      InstalledKeepsInv(s, slot, cells, n);
    }

    /** `free_high_pages`: the pages a table points to, up to its first null pointer. */
    method FreeHighPages(t: Page)
      requires |Table(S(), t)| <= PAGES_PER_PAGE
      modifies this`free
      ensures free == old(free) + Elements(Table(old(S()), t))
    {
      var entries := if t in tables then tables[t] else [];
      var i := 0;
      while i < PAGES_PER_PAGE
        invariant i <= |entries|
        invariant free == old(free) + Elements(entries[..i])
      {
        if i >= |entries| {
          break;
        }
        free := free + {entries[i]};
        assert entries[..i + 1] == entries[..i] + [entries[i]];
        i := i + 1;
      }
      assert entries[..i] == entries;
    }

    /** The part of `let_my_pages_go` that frees one block. */
    method FreeBlock(slot: Slot) returns (freed: nat)
      requires Inv(S()) && slot in blocks
      modifies this`free, this`blocks
      ensures S() == ReleaseBlock(old(S()), slot)
      ensures freed == if Releasable(old(S()), slot) then FreeCount(slot.zone, old(blocks[slot].count)) else 0
    {
      assert forall t :: t in tables ==> |tables[t]| <= PAGES_PER_PAGE;
      var freeCount := FreeCount(slot.zone, blocks[slot].count);
      FreeCountFits(slot.zone, blocks[slot].count, |blocks[slot].top|);
      hide Inv, FreedPages;
      freed := 0;
      if freeCount > 0 {
        var top := blocks[slot].top;
        while freed < freeCount
          invariant freed <= freeCount <= |top|
          invariant blocks == old(blocks) && tables == old(tables) && data == old(data)
          invariant free == old(free) + FreedPages(old(S()), slot.zone, top[..freed])
        {
          if slot.zone.HighMem? {
            FreeHighPages(top[freed]);
          }
          free := free + {top[freed]};
          FreedPagesNext(old(S()), slot.zone, top, freed);
          freed := freed + 1;
        }
        blocks := blocks[slot := Block([], 0)];
      }
    }

    /** `let_my_pages_go`: free every flagged block of a zone. */
    method LetMyPagesGo(zone: Zone, flags: seq<bool>) returns (len: nat)
      requires Inv(S()) && |flags| == MAX_PAGE_BLOCKS
      modifies this`free, this`blocks
      ensures Inv(S()) && S() == ReleaseFlagged(old(S()), zone, flags, MAX_PAGE_BLOCKS)
      ensures len == EntriesFreed(old(S()), zone, flags, MAX_PAGE_BLOCKS)
    {
      hide Inv;
      len := 0;
      for i := 0 to MAX_PAGE_BLOCKS
        invariant S() == ReleaseFlagged(old(S()), zone, flags, i) && Inv(S())
        invariant len == EntriesFreed(old(S()), zone, flags, i)
      {
        if flags[i] {
          ReleaseKeepsInv(S(), Slot(zone, i));
          var freed := FreeBlock(Slot(zone, i));
          len := len + freed;
        }
      }
    }

    /** `get_mem_page`: what the block's array holds for the page `sector` places after `page`. */
    method GetMemPage(slot: Slot, page: nat, sector: nat) returns (t: Option<Page>)
      requires slot in blocks
      ensures t == MemPage(S(), slot, page + sector)
    {
      var top := blocks[slot].top;
      var location := if slot.zone.HighMem? then (page + sector) / PAGES_PER_PAGE else page + sector;
      t := if location < |top| then Some(top[location]) else None;
    }

    /** `get_high_page`: what table `t` holds for that page. */
    method GetHighPage(t: Page, page: nat, sector: nat) returns (q: Option<Page>)
      ensures q == HighPage(S(), t, page + sector)
    {
      var entries := if t in tables then tables[t] else [];
      var location := (page + sector) / PAGES_PER_PAGE;
      var loc := page + sector - location * PAGES_PER_PAGE;
      q := if loc < |entries| then Some(entries[loc]) else None;
    }

    /** `proc_allocated_pages_read` of a page within the recorded count. */
    method Read(slot: Slot, page: nat, size: nat) returns (buffer: Option<seq<bv8>>)
      requires Inv(S()) && slot in blocks && page < blocks[slot].count && size <= PAGE_SIZE
      ensures buffer == ReadPage(S(), slot, page, size)
      ensures buffer.None? <==> Resolve(S(), slot, page).None?
    {
      if VerifyMemoryRange(page, 0, blocks[slot].count) == 0 {
        return None;
      }
      var q := GetMemPage(slot, page, 0);
      if q.None? {
        return None;
      }
      if slot.zone.HighMem? {
        q := GetHighPage(q.value, page, 0);
        if q.None? {
          return None;
        }
      }
      ResolveIsPlace(S(), slot, page);
      buffer := Some(data[q.value][..size]);
    }

    /** `page_action` for a write: nothing at all when the table has no page there. */
    method WriteAction(slot: Slot, t: Page, page: nat, sector: nat, bytes: seq<bv8>, ghost s: State)
      returns (len: nat)
      requires Inv(s) && slot in s.blocks && |bytes| <= PAGE_SIZE
      requires MemPage(S(), slot, page + sector) == Some(t)
      requires S() == WriteSpan(s, slot, page, sector, bytes)
      modifies this`data, this`tables
      ensures S() == WriteSpan(s, slot, page, sector + 1, bytes)
      ensures len == if Resolve(s, slot, page + sector).Some? then |bytes| else 0
    {
      hide Inv, SamePlaces;
      WriteSpanFinds(s, slot, page, sector, bytes);
      var q := Some(t);
      if slot.zone.HighMem? {
        q := GetHighPage(t, page, sector);
        if q.None? {
          return 0;
        }
      }
      PokeMovesNothing(S(), slot, page + sector, bytes);
      data := data[q.value := bytes + data[q.value][|bytes|..]];
      tables := tables - {q.value};
      len := |bytes|;
    }

    /** The body of the write loop; `more` is false when it breaks. */
    method WriteNext(slot: Slot, page: nat, i: nat, bytes: seq<bv8>, ghost s: State) returns (more: bool, len: nat)
      requires Inv(s) && slot in s.blocks && page + i < s.blocks[slot].count && |bytes| <= PAGE_SIZE
      requires S() == WriteSpan(s, slot, page, i, bytes)
      modifies this`data, this`tables
      ensures more && S() == WriteSpan(s, slot, page, i + 1, bytes)
      ensures len == if Resolve(s, slot, page + i).Some? then |bytes| else 0
    {
      hide Inv, Resolve, WriteSpan, MemPage, SamePlaces;
      WriteSpanFinds(s, slot, page, i, bytes);
      RecordedHasMemPage(S(), slot, page + i);
      more, len := true, 0;
      if VerifyMemoryRange(page, i, blocks[slot].count) == 0 {
        more := false;
        return;
      }
      var t := GetMemPage(slot, page, i);
      if t.None? {
        more := false;
        return;
      }
      len := WriteAction(slot, t.value, page, i, bytes, s);
    }

    /** `proc_allocated_pages_write` on a span within the recorded count: all its pages are
        written, past those that a refused high page left out. */
    method Write(slot: Slot, page: nat, span: nat, bytes: seq<bv8>) returns (len: nat)
      requires Inv(S()) && slot in blocks && page + span <= blocks[slot].count && |bytes| <= PAGE_SIZE
      modifies this`data, this`tables
      ensures Inv(S()) && S() == WriteSpan(old(S()), slot, page, span, bytes)
      ensures len == PagesReached(old(S()), slot, page, span) * |bytes|
    {
      len := 0;
      var i := 0;
      ghost var s := S();
      assert WriteSpan(s, slot, page, 0, bytes) == s;
      hide Inv, Resolve, WriteSpan, SamePlaces, PagesReached;
      while i < span
        invariant i <= span && len == PagesReached(s, slot, page, i) * |bytes|
        invariant S() == WriteSpan(s, slot, page, i, bytes)
      {
        var more, written := WriteNext(slot, page, i, bytes, s);
        if !more {
          break;
        }
        PagesReachedNext(s, slot, page, i, |bytes|);
        len, i := len + written, i + 1;
      }
      WriteSpanMovesNothing(s, slot, page, span, bytes);
    }
  }

  lemma WriteSpanFinds(s: State, slot: Slot, page: nat, n: nat, bytes: seq<bv8>)
    requires Inv(s) && |bytes| <= PAGE_SIZE
    ensures var r := WriteSpan(s, slot, page, n, bytes);
      Inv(r) && r.blocks == s.blocks && Resolve(r, slot, page + n) == Resolve(s, slot, page + n)
  {
    hide Inv, Resolve, WriteSpan;
    WriteSpanMovesNothing(s, slot, page, n, bytes);
    SamePlacesResolve(s, WriteSpan(s, slot, page, n, bytes), slot, page + n);
  }

  lemma InstalledKeepsInv(s: State, slot: Slot, cells: seq<Cell>, n: nat)
    requires Inv(s) && slot in s.blocks && CellsFit(s, slot, cells) && Grabbed(slot.zone, cells, n)
    ensures Inv(Record(Install(s, slot, cells), slot, RecordedCount(slot.zone, cells, n)))
  {
    InstallKeepsInv(s, slot, cells);
    InstallLays(s, slot, cells);
    RecordedWithinArray(slot.zone, cells, n);
    RecordKeepsInv(Install(s, slot, cells), slot, RecordedCount(slot.zone, cells, n));
  }

  lemma GrabbedNext(zone: Zone, cells: seq<Cell>, cell: Cell, n: nat)
    requires Grabbed(zone, cells, n) && |cells| < ArraySize(zone, n)
    requires Filled(zone, cell, HighCount(cells, |cells|), n)
    ensures Grabbed(zone, cells + [cell], n)
    ensures HighCount(cells + [cell], |cells| + 1) ==
            HighCount(cells, |cells|) + |cell.entries| - (if cell.missed then 1 else 0)
  {
    hide ArraySize, Filled;
    var more := cells + [cell];
    forall k | 0 <= k < |more|
      ensures FilledAt(zone, more, k, n)
    {
      assert k < |cells| ==> FilledAt(zone, cells, k, n);
      HighCountPrefix(cells, cell, k);
    }
    HighCountPrefix(cells, cell, |cells|);
  }

  lemma AnsweredNext(cells: seq<Cell>, cell: Cell, pagesMin: nat, kernel: Kernel, before: set<Page>, left: set<Page>)
    requires AllAnswered(cells, pagesMin, kernel, before) && left <= before
    requires CellAnswered(cell, |cells|, pagesMin, kernel, left)
    ensures AllAnswered(cells + [cell], pagesMin, kernel, left)
  {
    var more := cells + [cell];
    forall k | 0 <= k < |more|
      ensures CellAnswered(more[k], k, pagesMin, kernel, left)
    {
      assert k < |cells| ==> CellAnswered(cells[k], k, pagesMin, kernel, before);
    }
  }

  lemma {:induction false} HighCountPrefix(cells: seq<Cell>, cell: Cell, k: nat)
    requires k <= |cells|
    ensures HighCount(cells + [cell], k) == HighCount(cells, k)
  {
    if k > 0 { HighCountPrefix(cells, cell, k - 1); }
  }

  lemma CellsFitNext(s: State, slot: Slot, cells: seq<Cell>, cell: Cell)
    requires slot in s.blocks && CellsFit(s, slot, cells) && CellFits(Install(s, slot, cells), slot.zone, cell)
    ensures CellsFit(s, slot, cells + [cell])
    ensures Install(s, slot, cells + [cell]) == AddCell(Install(s, slot, cells), slot, cell)
  {
    assert (cells + [cell])[..|cells|] == cells;
  }

  lemma FreedPagesNext(s: State, zone: Zone, top: seq<Page>, n: nat)
    requires n < |top|
    ensures FreedPages(s, zone, top[..n + 1]) == FreedPages(s, zone, top[..n]) + EntryPages(s, zone, top[n])
  {
    var more, fewer := top[..n + 1], top[..n];
    forall p | p in FreedPages(s, zone, more)
      ensures p in FreedPages(s, zone, fewer) + EntryPages(s, zone, top[n])
    {
      var k: nat :| k < |more| && p in EntryPages(s, zone, more[k]);
      if k < n { assert p in EntryPages(s, zone, fewer[k]); }
    }
    forall p | p in FreedPages(s, zone, fewer)
      ensures p in FreedPages(s, zone, more)
    {
      var k: nat :| k < |fewer| && p in EntryPages(s, zone, fewer[k]);
      assert p in EntryPages(s, zone, more[k]);
    }
    assert forall p :: p in EntryPages(s, zone, top[n]) ==> p in EntryPages(s, zone, more[n]);
  }
}
