/** The state behind the page allocator (PageAllocator/page_alloc.c): which pages are free,
    the two-zone block table, the pointer tables kept in low pages, and page contents. */
module PageState {
  import opened Common

  const MAX_PAGE_BLOCKS: nat := 32
  const PAGES_PER_PAGE: nat := 1024
  const PAGE_SIZE: nat := 4096

  type Page = nat
  datatype Zone = LowMem | HighMem
  datatype Slot = Slot(zone: Zone, index: nat)

  /** `top` is the pointer array of a block (the non-null prefix of `pages[zone][index]`);
      `count` is `allocated_pages[zone][index]`. */
  datatype Block = Block(top: seq<Page>, count: nat)

  /** `tables[t]` are the pointers stored in low page `t` before the first null one. */
  datatype State = State(
    free: set<Page>,
    blocks: map<Slot, Block>,
    tables: map<Page, seq<Page>>,
    data: map<Page, seq<bv8>>)

  /** One page handed out by `allocate_pages`: in the high zone it is a table with its high
      pages, and `missed` says that a high page was refused while the table was filled. */
  datatype Cell = Cell(page: Page, entries: seq<Page>, missed: bool)

  /** Where a page can be recorded: in a block's pointer array, or inside one of its tables. */
  datatype Place = Top(slot: Slot, k: nat) | Inner(slot: Slot, k: nat, j: nat)

  function Table(s: State, t: Page): seq<Page> {
    if t in s.tables then s.tables[t] else []
  }

  ghost predicate Holds(s: State, a: Place) {
    && a.slot in s.blocks
    && a.k < |s.blocks[a.slot].top|
    && (a.Inner? ==> a.slot.zone.HighMem? && a.j < |Table(s, s.blocks[a.slot].top[a.k])|)
  }

  function PageAt(s: State, a: Place): Page
    requires Holds(s, a)
  {
    var t := s.blocks[a.slot].top[a.k];
    if a.Top? then t else Table(s, t)[a.j]
  }

  /** The number of entries of the pointer array that are freed with the block. */
  function FreeCount(zone: Zone, count: nat): nat {
    if zone.LowMem? then count
    else if 0 < count < PAGES_PER_PAGE then 1
    else count / PAGES_PER_PAGE
  }

  /** The number of pages that `n` entries of the pointer array can reach. */
  function Capacity(zone: Zone, n: nat): nat {
    if zone.LowMem? then n else PAGES_PER_PAGE * n
  }

  lemma FreeCountFits(zone: Zone, count: nat, n: nat)
    requires count <= Capacity(zone, n)
    ensures FreeCount(zone, count) <= n
  {
  }

  /** No page is recorded in two places, and none is both recorded and free. */
  ghost predicate OwnedOnce(s: State) {
    && (forall a :: Holds(s, a) ==> PageAt(s, a) !in s.free)
    && (forall a, b :: Holds(s, a) && Holds(s, b) && PageAt(s, a) == PageAt(s, b) ==> a == b)
  }

  ghost predicate Inv(s: State) {
    && (forall slot :: slot in s.blocks <==> slot.index < MAX_PAGE_BLOCKS)
    && s.free <= s.data.Keys
    && (forall p :: p in s.data ==> |s.data[p]| == PAGE_SIZE)
    && OwnedOnce(s)
    && (forall a :: Holds(s, a) ==> PageAt(s, a) in s.data)
    && (forall t :: t in s.tables ==> |s.tables[t]| <= PAGES_PER_PAGE)
    && (forall slot :: slot in s.blocks ==>
          s.blocks[slot].count <= Capacity(slot.zone, |s.blocks[slot].top|))
  }

  // ---- Allocation ------------------------------------------------------------------

  function CellPages(cell: Cell): set<Page> {
    {cell.page} + Elements(cell.entries)
  }

  ghost predicate CellFits(s: State, zone: Zone, cell: Cell) {
    && CellPages(cell) <= s.free
    && Distinct(cell.entries) && cell.page !in cell.entries
    && |cell.entries| <= PAGES_PER_PAGE
    && (zone.LowMem? ==> cell.entries == [] && !cell.missed)
  }

  /** A new pointer array: whatever the slot's old array still pointed to is forgotten. */
  function StartBlock(s: State, slot: Slot): State {
    s.(blocks := s.blocks[slot := Block([], 0)])
  }

  function AddCell(s: State, slot: Slot, cell: Cell): State
    requires slot in s.blocks
  {
    s.(free := s.free - CellPages(cell),
       blocks := s.blocks[slot := s.blocks[slot].(top := s.blocks[slot].top + [cell.page])],
       tables := if slot.zone.HighMem? then s.tables[cell.page := cell.entries] else s.tables)
  }

  function Record(s: State, slot: Slot, count: nat): State
    requires slot in s.blocks
  {
    s.(blocks := s.blocks[slot := s.blocks[slot].(count := count)])
  }

  /** The state after a fresh array has received `cells`, in order. */
  function Install(s: State, slot: Slot, cells: seq<Cell>): (r: State)
    ensures r.blocks.Keys == s.blocks.Keys + {slot} && r.data == s.data
  {
    if cells == [] then StartBlock(s, slot)
    else AddCell(Install(s, slot, cells[..|cells| - 1]), slot, cells[|cells| - 1])
  }

  ghost predicate CellsFit(s: State, slot: Slot, cells: seq<Cell>) {
    cells == [] ||
    (var rest := cells[..|cells| - 1];
     CellsFit(s, slot, rest) && CellFits(Install(s, slot, rest), slot.zone, cells[|cells| - 1]))
  }

  lemma StartBlockKeepsInv(s: State, slot: Slot)
    requires Inv(s) && slot in s.blocks
    ensures Inv(StartBlock(s, slot))
  {
    var s' := StartBlock(s, slot);
    assert forall a :: Holds(s', a) ==> Holds(s, a) && PageAt(s', a) == PageAt(s, a);
  }

  lemma RecordKeepsInv(s: State, slot: Slot, count: nat)
    requires Inv(s) && slot in s.blocks
    requires count <= Capacity(slot.zone, |s.blocks[slot].top|)
    ensures Inv(Record(s, slot, count))
  {
    var s' := Record(s, slot, count);
    assert forall a :: Holds(s', a) ==> Holds(s, a) && PageAt(s', a) == PageAt(s, a);
  }

  /** The places of a state with one more cell: the old ones, unmoved, and those of the cell. */
  lemma AddCellPlaces(s: State, slot: Slot, cell: Cell, a: Place)
    requires Inv(s) && slot in s.blocks && CellFits(s, slot.zone, cell)
    requires Holds(AddCell(s, slot, cell), a)
    ensures var n := |s.blocks[slot].top|;
      if a.slot == slot && a.k == n then
        PageAt(AddCell(s, slot, cell), a) == (if a.Top? then cell.page else cell.entries[a.j])
        && (a.Inner? ==> a.j < |cell.entries|)
      else
        Holds(s, a) && PageAt(AddCell(s, slot, cell), a) == PageAt(s, a)
  {
    var n := |s.blocks[slot].top|;
    if !(a.slot == slot && a.k == n) {
      assert Holds(s, Top(a.slot, a.k));
      assert PageAt(s, Top(a.slot, a.k)) != cell.page;
    }
  }

  lemma AddCellKeepsInv(s: State, slot: Slot, cell: Cell)
    requires Inv(s) && slot in s.blocks && CellFits(s, slot.zone, cell)
    ensures Inv(AddCell(s, slot, cell))
  {
    var s' := AddCell(s, slot, cell);
    forall a | Holds(s', a)
      ensures PageAt(s', a) !in s'.free && PageAt(s', a) in s'.data
    {
      AddCellPlaces(s, slot, cell, a);
    }
    forall a, b | Holds(s', a) && Holds(s', b) && PageAt(s', a) == PageAt(s', b)
      ensures a == b
    {
      AddCellPlaces(s, slot, cell, a);
      AddCellPlaces(s, slot, cell, b);
    }
  }

  lemma {:induction false} InstallKeepsInv(s: State, slot: Slot, cells: seq<Cell>)
    requires Inv(s) && slot in s.blocks && CellsFit(s, slot, cells)
    ensures Inv(Install(s, slot, cells))
  {
    if cells == [] {
      StartBlockKeepsInv(s, slot);
    } else {
      var rest := cells[..|cells| - 1];
      InstallKeepsInv(s, slot, rest);
      AddCellKeepsInv(Install(s, slot, rest), slot, cells[|cells| - 1]);
    }
  }
}
