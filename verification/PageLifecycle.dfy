/** What allocating a block takes, what freeing it gives back, and when the two agree. */
module PageLifecycle {
  import opened Common
  import opened PageState

  function PagesOf(cells: seq<Cell>): set<Page> {
    set k: nat, p: Page | k < |cells| && p in CellPages(cells[k]) :: p
  }

  function Tops(cells: seq<Cell>): seq<Page> {
    seq(|cells|, i requires 0 <= i < |cells| => cells[i].page)
  }

  lemma PagesOfLast(cells: seq<Cell>)
    requires cells != []
    ensures PagesOf(cells) == PagesOf(cells[..|cells| - 1]) + CellPages(cells[|cells| - 1])
  {
    var n := |cells| - 1;
    forall p | p in PagesOf(cells)
      ensures p in PagesOf(cells[..n]) + CellPages(cells[n])
    {
      var k: nat :| k < |cells| && p in CellPages(cells[k]);
      if k < n { assert p in CellPages(cells[..n][k]); }
    }
    forall p | p in PagesOf(cells[..n])
      ensures p in PagesOf(cells)
    {
      var k: nat :| k < n && p in CellPages(cells[..n][k]);
      assert p in CellPages(cells[k]);
    }
  }

  lemma CellPagesWithin(cells: seq<Cell>, k: nat)
    requires k < |cells|
    ensures CellPages(cells[k]) <= PagesOf(cells)
  {
  }

  ghost predicate Apart(cells: seq<Cell>) {
    forall i, j :: 0 <= i < j < |cells| ==> CellPages(cells[i]) !! CellPages(cells[j])
  }

  /** The free set loses exactly the pages of the cells, and no page comes twice. */
  lemma {:induction false} InstallTakes(s: State, slot: Slot, cells: seq<Cell>)
    requires slot in s.blocks && CellsFit(s, slot, cells)
    ensures Install(s, slot, cells).free == s.free - PagesOf(cells)
    ensures PagesOf(cells) <= s.free
    ensures Apart(cells)
  {
    if cells != [] {
      var n := |cells| - 1;
      var rest := cells[..n];
      InstallTakes(s, slot, rest);
      PagesOfLast(cells);
      forall i, j | 0 <= i < j < |cells|
        ensures CellPages(cells[i]) !! CellPages(cells[j])
      {
        if j == n {
          CellPagesWithin(rest, i);
        } else {
          assert CellPages(rest[i]) !! CellPages(rest[j]);
        }
      }
    }
  }

  /** The block's array lists the cells' pages, in order. */
  lemma {:induction false} InstallLays(s: State, slot: Slot, cells: seq<Cell>)
    requires slot in s.blocks && CellsFit(s, slot, cells)
    ensures Install(s, slot, cells).blocks == s.blocks[slot := Block(Tops(cells), 0)]
  {
    if cells == [] {
      assert Tops(cells) == [];
    } else {
      var n := |cells| - 1;
      InstallLays(s, slot, cells[..n]);
      assert Tops(cells) == Tops(cells[..n]) + [cells[n].page];
    }
  }

  /** A page outside the cells keeps its table. */
  lemma {:induction false} InstallFrames(s: State, slot: Slot, cells: seq<Cell>, t: Page)
    requires slot in s.blocks && CellsFit(s, slot, cells) && t !in PagesOf(cells)
    ensures Table(Install(s, slot, cells), t) == Table(s, t)
  {
    if cells != [] {
      PagesOfLast(cells);
      InstallFrames(s, slot, cells[..|cells| - 1], t);
      assert cells[|cells| - 1].page in CellPages(cells[|cells| - 1]);
    }
  }

  /** A high-zone cell's page is a table of its entries. */
  lemma {:induction false} InstallTables(s: State, slot: Slot, cells: seq<Cell>, k: nat)
    requires slot in s.blocks && CellsFit(s, slot, cells) && slot.zone.HighMem? && k < |cells|
    ensures Table(Install(s, slot, cells), cells[k].page) == cells[k].entries
  {
    var n := |cells| - 1;
    if k < n {
      InstallTables(s, slot, cells[..n], k);
      InstallTakes(s, slot, cells);
      assert CellPages(cells[k]) !! CellPages(cells[n]);
      assert cells[k].page in CellPages(cells[k]);
    }
  }

  // ---- Freeing ---------------------------------------------------------------------

  /** The pages freed for array entry `t`: itself, and in the high zone all its table holds. */
  function EntryPages(s: State, zone: Zone, t: Page): set<Page> {
    {t} + (if zone.HighMem? then Elements(Table(s, t)) else {})
  }

  function FreedPages(s: State, zone: Zone, tops: seq<Page>): set<Page> {
    set k: nat, p: Page | k < |tops| && p in EntryPages(s, zone, tops[k]) :: p
  }

  /** Whether `let_my_pages_go` acts on a flagged block. */
  predicate Releasable(s: State, slot: Slot) {
    slot in s.blocks && 0 < FreeCount(slot.zone, s.blocks[slot].count) <= |s.blocks[slot].top|
  }

  function Reclaimed(s: State, slot: Slot): set<Page>
    requires Releasable(s, slot)
  {
    FreedPages(s, slot.zone, s.blocks[slot].top[..FreeCount(slot.zone, s.blocks[slot].count)])
  }

  function ReleaseBlock(s: State, slot: Slot): State {
    if Releasable(s, slot) then
      s.(free := s.free + Reclaimed(s, slot), blocks := s.blocks[slot := Block([], 0)])
    else s
  }

  lemma ReclaimedPlace(s: State, slot: Slot, p: Page) returns (a: Place)
    requires Releasable(s, slot) && p in Reclaimed(s, slot)
    ensures Holds(s, a) && PageAt(s, a) == p && a.slot == slot
  {
    var tops := s.blocks[slot].top;
    var k: nat :| k < FreeCount(slot.zone, s.blocks[slot].count) && p in EntryPages(s, slot.zone, tops[k]);
    if p == tops[k] {
      a := Top(slot, k);
    } else {
      var j: nat :| j < |Table(s, tops[k])| && Table(s, tops[k])[j] == p;
      a := Inner(slot, k, j);
    }
  }

  lemma ReleaseKeepsInv(s: State, slot: Slot)
    requires Inv(s)
    ensures Inv(ReleaseBlock(s, slot))
    ensures Releasable(s, slot) ==> Reclaimed(s, slot) !! s.free
  {
    if Releasable(s, slot) {
      var s' := ReleaseBlock(s, slot);
      forall p | p in Reclaimed(s, slot)
        ensures p in s.data && p !in s.free
      {
        var a := ReclaimedPlace(s, slot, p);
      }
      assert forall a :: Holds(s', a) ==> a.slot != slot && Holds(s, a) && PageAt(s', a) == PageAt(s, a);
      forall a | Holds(s', a)
        ensures PageAt(s', a) !in s'.free
      {
        if PageAt(s', a) in Reclaimed(s, slot) {
          var b := ReclaimedPlace(s, slot, PageAt(s', a));
          assert false;
        }
      }
    }
  }

  /** Freeing a block whose array holds `cells` reclaims the recorded cells, no others. */
  lemma ReclaimedCells(s: State, slot: Slot, cells: seq<Cell>, count: nat)
    requires Inv(s) && slot in s.blocks && CellsFit(s, slot, cells)
    requires 0 < FreeCount(slot.zone, count) <= |cells|
    ensures var s1 := Record(Install(s, slot, cells), slot, count);
      Releasable(s1, slot) && Reclaimed(s1, slot) == PagesOf(cells[..FreeCount(slot.zone, count)])
  {
    InstallTakes(s, slot, cells);
    InstallLays(s, slot, cells);
    CellsOfLowZone(s, slot, cells);
    var f := FreeCount(slot.zone, count);
    var s1 := Record(Install(s, slot, cells), slot, count);
    var tops, freed := s1.blocks[slot].top[..f], cells[..f];
    forall k | 0 <= k < f
      ensures tops[k] == freed[k].page && EntryPages(s1, slot.zone, tops[k]) == CellPages(freed[k])
    {
      if slot.zone.HighMem? { InstallTables(s, slot, cells, k); }
    }
  }

  /** Allocating `cells` into a block, recording `count`, then freeing the block: exactly the
      cells beyond the recorded ones stay taken. */
  lemma AllocateThenFree(s: State, slot: Slot, cells: seq<Cell>, count: nat)
    requires Inv(s) && slot in s.blocks && CellsFit(s, slot, cells)
    requires FreeCount(slot.zone, count) <= |cells|
    ensures var s2 := ReleaseBlock(Record(Install(s, slot, cells), slot, count), slot);
      && s2.free == s.free - PagesOf(cells[FreeCount(slot.zone, count)..])
      && (s2.free == s.free <==> FreeCount(slot.zone, count) == |cells|)
  {
    InstallTakes(s, slot, cells);
    InstallLays(s, slot, cells);
    var f := FreeCount(slot.zone, count);
    SplitPages(cells, f);
    KeptCells(cells, f);
    PutBack(s.free, PagesOf(cells[..f]), PagesOf(cells[f..]));
    if f > 0 {
      ReclaimedCells(s, slot, cells, count);
    }
  }

  /** The round trip leaves the block table as it was, but for the block itself. */
  lemma AllocateThenFreeBlocks(s: State, slot: Slot, cells: seq<Cell>, count: nat)
    requires slot in s.blocks && CellsFit(s, slot, cells)
    ensures var s2 := ReleaseBlock(Record(Install(s, slot, cells), slot, count), slot);
      s2.blocks == s.blocks[slot := if 0 < FreeCount(slot.zone, count) <= |cells| then Block([], 0)
                                    else Block(Tops(cells), count)]
  {
    InstallLays(s, slot, cells);
  }

  lemma PutBack(free: set<Page>, a: set<Page>, b: set<Page>)
    requires a !! b && a + b <= free
    ensures free - (a + b) + a == free - b
    ensures free - b == free <==> b == {}
  {
    if free - b == free {
      assert forall p :: p in b ==> p in free;
    }
  }

  lemma KeptCells(cells: seq<Cell>, f: nat)
    requires f <= |cells|
    ensures PagesOf(cells[f..]) == {} <==> f == |cells|
    ensures f == 0 ==> PagesOf(cells[..f]) == {}
  {
    if f < |cells| {
      var kept := cells[f..];
      CellPagesWithin(kept, 0);
      assert kept[0].page in CellPages(kept[0]);
    }
  }

  lemma {:induction false} CellsOfLowZone(s: State, slot: Slot, cells: seq<Cell>)
    requires CellsFit(s, slot, cells)
    ensures forall k :: 0 <= k < |cells| && slot.zone.LowMem? ==> cells[k].entries == []
  {
    if cells != [] {
      CellsOfLowZone(s, slot, cells[..|cells| - 1]);
      assert forall k :: 0 <= k < |cells| - 1 ==> cells[k] == cells[..|cells| - 1][k];
    }
  }

  lemma SplitPages(cells: seq<Cell>, f: nat)
    requires f <= |cells|
    requires Apart(cells)
    ensures PagesOf(cells) == PagesOf(cells[..f]) + PagesOf(cells[f..])
    ensures PagesOf(cells[..f]) !! PagesOf(cells[f..])
  {
    var a, b := cells[..f], cells[f..];
    assert forall k :: 0 <= k < |a| ==> a[k] == cells[k];
    assert forall k :: 0 <= k < |b| ==> b[k] == cells[f + k];
    forall p | p in PagesOf(cells)
      ensures p in PagesOf(a) + PagesOf(b)
    {
      var k: nat :| k < |cells| && p in CellPages(cells[k]);
      if k < f { assert p in CellPages(a[k]); } else { assert p in CellPages(b[k - f]); }
    }
  }
}
