/** Reaching the pages of a block by number: the span write and the single-page read. */
module PageAccess {
  import opened Common
  import opened PageState

  const TRUE: int := 1
  const FALSE: int := -2 // ~TRUE

  /** `verify_memory_range`. */
  function VerifyMemoryRange(page: nat, sector: nat, count: nat): int {
    if page + sector >= count then FALSE else TRUE
  }

  /** As a C condition the answer is always true: a page outside the block is not refused. */
  lemma RangeCheckNeverRefuses(page: nat, sector: nat, count: nat)
    ensures VerifyMemoryRange(page, sector, count) != 0
    ensures VerifyMemoryRange(page, sector, count) == TRUE <==> page + sector < count
  {
  }

  /** `get_mem_page`: the pointer that the block's array holds for the page. */
  function MemPage(s: State, slot: Slot, page: nat): Option<Page> {
    var k := if slot.zone.HighMem? then page / PAGES_PER_PAGE else page;
    if slot in s.blocks && k < |s.blocks[slot].top| then Some(s.blocks[slot].top[k]) else None
  }

  /** `get_high_page`: the pointer that table `t` holds for the page. */
  function HighPage(s: State, t: Page, page: nat): Option<Page> {
    var entries, loc := Table(s, t), page % PAGES_PER_PAGE;
    if loc < |entries| then Some(entries[loc]) else None
  }

  /** The page that `page_action` works on. */
  function Resolve(s: State, slot: Slot, page: nat): Option<Page> {
    var t := MemPage(s, slot, page);
    if t.None? || slot.zone.LowMem? then t else HighPage(s, t.value, page)
  }

  /** A page number within the recorded count is never beyond the block's array. */
  lemma RecordedHasMemPage(s: State, slot: Slot, page: nat)
    requires Inv(s) && slot in s.blocks && page < s.blocks[slot].count
    ensures MemPage(s, slot, page).Some?
  {
  }

  /** The place that page number `page` of a block denotes. */
  function PlaceOf(slot: Slot, page: nat): Place {
    if slot.zone.LowMem? then Top(slot, page)
    else Inner(slot, page / PAGES_PER_PAGE, page % PAGES_PER_PAGE)
  }

  lemma ResolveIsPlace(s: State, slot: Slot, page: nat)
    ensures Resolve(s, slot, page).Some? <==> Holds(s, PlaceOf(slot, page))
    ensures Holds(s, PlaceOf(slot, page)) ==> Resolve(s, slot, page) == Some(PageAt(s, PlaceOf(slot, page)))
  {
  }

  lemma ResolvedHasData(s: State, slot: Slot, page: nat)
    requires Inv(s) && Resolve(s, slot, page).Some?
    ensures var q := Resolve(s, slot, page).value; q in s.data && |s.data[q]| == PAGE_SIZE
  {
    ResolveIsPlace(s, slot, page);
  }

  /** Page numbers of all blocks of both zones denote different pages. */
  lemma ResolveInjective(s: State, slot: Slot, page: nat, slot': Slot, page': nat)
    requires Inv(s)
    requires Resolve(s, slot, page).Some? && Resolve(s, slot, page) == Resolve(s, slot', page')
    ensures slot == slot' && page == page'
  {
    ResolveIsPlace(s, slot, page);
    ResolveIsPlace(s, slot', page');
    assert PlaceOf(slot, page) == PlaceOf(slot', page');
  }

  /** `memcpy` of `bytes` to the start of page `q`. Whatever pointers the page held are lost. */
  function Poke(s: State, q: Page, bytes: seq<bv8>): State {
    if q in s.data && |bytes| <= |s.data[q]| then
      s.(data := s.data[q := bytes + s.data[q][|bytes|..]], tables := s.tables - {q})
    else s
  }

  ghost predicate SamePlaces(s: State, s': State) {
    && s'.blocks == s.blocks && s'.free == s.free && s'.data.Keys == s.data.Keys
    && (forall a :: Holds(s', a) <==> Holds(s, a))
    && (forall a :: Holds(s, a) ==> PageAt(s', a) == PageAt(s, a))
  }

  /** Writing a data page moves nothing: no table is hit. */
  lemma PokeMovesNothing(s: State, slot: Slot, page: nat, bytes: seq<bv8>)
    requires Inv(s) && Resolve(s, slot, page).Some? && |bytes| <= PAGE_SIZE
    ensures var q := Resolve(s, slot, page).value;
      q in s.data && |s.data[q]| == PAGE_SIZE && SamePlaces(s, Poke(s, q, bytes)) && Inv(Poke(s, q, bytes))
  {
    ResolveIsPlace(s, slot, page);
    var q := Resolve(s, slot, page).value;
    var s' := Poke(s, q, bytes);
    forall other, k: nat | other in s.blocks && other.zone.HighMem? && k < |s.blocks[other].top|
      ensures Table(s', s.blocks[other].top[k]) == Table(s, s.blocks[other].top[k])
    {
      assert Holds(s, Top(other, k));
      assert PageAt(s, Top(other, k)) == s.blocks[other].top[k];
    }
  }

  lemma SamePlacesRefl(s: State)
    ensures SamePlaces(s, s)
  {
  }

  lemma SamePlacesTrans(s: State, s': State, s'': State)
    requires SamePlaces(s, s') && SamePlaces(s', s'')
    ensures SamePlaces(s, s'')
  {
  }

  lemma SamePlacesResolve(s: State, s': State, slot: Slot, page: nat)
    requires SamePlaces(s, s')
    ensures Resolve(s', slot, page) == Resolve(s, slot, page)
  {
    ResolveIsPlace(s, slot, page);
    ResolveIsPlace(s', slot, page);
  }

  /** `bytes` written to the pages `page .. page + n` of a block, in order. A page number that
      reaches no page is passed over. */
  function WriteSpan(s: State, slot: Slot, page: nat, n: nat, bytes: seq<bv8>): (r: State) {
    if n == 0 then s
    else
      var r := WriteSpan(s, slot, page, n - 1, bytes);
      match Resolve(s, slot, page + n - 1)
      case None => r
      case Some(q) => Poke(r, q, bytes)
  }

  ghost predicate SpanResolves(s: State, slot: Slot, page: nat, n: nat) {
    forall i :: page <= i < page + n ==> Resolve(s, slot, i).Some?
  }

  /** How many page numbers of the span reach a page. */
  function PagesReached(s: State, slot: Slot, page: nat, n: nat): (r: nat)
    ensures r <= n && (r == n <==> SpanResolves(s, slot, page, n))
  {
    if n == 0 then 0
    else PagesReached(s, slot, page, n - 1) + (if Resolve(s, slot, page + n - 1).Some? then 1 else 0)
  }

  lemma PagesReachedNext(s: State, slot: Slot, page: nat, n: nat, size: nat)
    ensures PagesReached(s, slot, page, 0) * size == 0
    ensures PagesReached(s, slot, page, n + 1) * size ==
            PagesReached(s, slot, page, n) * size + (if Resolve(s, slot, page + n).Some? then size else 0)
  {
    hide Resolve;
    OneMore(PagesReached(s, slot, page, n), size);
  }

  lemma OneMore(k: nat, size: nat)
    ensures (k + 1) * size == k * size + size
  {
  }

  lemma {:induction false} WriteSpanMovesNothing(s: State, slot: Slot, page: nat, n: nat, bytes: seq<bv8>)
    requires Inv(s) && |bytes| <= PAGE_SIZE
    ensures Inv(WriteSpan(s, slot, page, n, bytes)) && SamePlaces(s, WriteSpan(s, slot, page, n, bytes))
  {
    hide Inv, SamePlaces, Resolve, Poke;
    SamePlacesRefl(s);
    if n > 0 {
      WriteSpanMovesNothing(s, slot, page, n - 1, bytes);
      var r := WriteSpan(s, slot, page, n - 1, bytes);
      SamePlacesResolve(s, r, slot, page + n - 1);
      if Resolve(s, slot, page + n - 1).Some? {
        PokeMovesNothing(r, slot, page + n - 1, bytes);
        SamePlacesTrans(s, r, WriteSpan(s, slot, page, n, bytes));
      }
    }
  }

  /** What any page number of any block holds after the write: the buffer over its old content
      inside the span, its old content outside it. */
  lemma {:induction false} WriteSpanEffect(s: State, slot: Slot, page: nat, n: nat, bytes: seq<bv8>,
                                           slot': Slot, page': nat)
    requires Inv(s) && |bytes| <= PAGE_SIZE
    requires Resolve(s, slot', page').Some?
    ensures var q := Resolve(s, slot', page').value;
      var s' := WriteSpan(s, slot, page, n, bytes);
      && q in s.data && q in s'.data && |s.data[q]| == PAGE_SIZE
      && s'.data[q] == (if slot' == slot && page <= page' < page + n
                        then bytes + s.data[q][|bytes|..] else s.data[q])
  {
    hide Inv, Resolve, SamePlaces;
    ResolvedHasData(s, slot', page');
    if n > 0 {
      var r := WriteSpan(s, slot, page, n - 1, bytes);
      WriteSpanEffect(s, slot, page, n - 1, bytes, slot', page');
      WriteSpanMovesNothing(s, slot, page, n - 1, bytes);
      SamePlacesResolve(s, r, slot, page + n - 1);
      if Resolve(s, slot, page + n - 1).Some? {
        PokeMovesNothing(r, slot, page + n - 1, bytes);
        if Resolve(s, slot, page + n - 1) == Resolve(s, slot', page') {
          ResolveInjective(s, slot, page + n - 1, slot', page');
        }
      }
    }
  }

  /** `read_page`: the first `size` bytes of the page, or nothing when it is null. */
  function ReadPage(s: State, slot: Slot, page: nat, size: nat): Option<seq<bv8>> {
    var q := Resolve(s, slot, page);
    if q.Some? && q.value in s.data && size <= |s.data[q.value]| then Some(s.data[q.value][..size]) else None
  }

  /** A read returns the first bytes of the page recorded at the place that the number denotes, and
      nothing when there is no such place: number `p` is entry `p` of a low block, and entry
      `p % 1024` of table `p / 1024` of a high one. */
  lemma ReadIsContent(s: State, slot: Slot, page: nat, size: nat)
    requires Inv(s) && size <= PAGE_SIZE
    ensures var a := if slot.zone.LowMem? then Top(slot, page) else Inner(slot, page / 1024, page % 1024);
      && (!Holds(s, a) ==> ReadPage(s, slot, page, size) == None)
      && (Holds(s, a) ==> PageAt(s, a) in s.data && |s.data[PageAt(s, a)]| == PAGE_SIZE
                          && ReadPage(s, slot, page, size) == Some(s.data[PageAt(s, a)][..size]))
  {
    ResolveIsPlace(s, slot, page);
  }

  /** Every page of the span reads back the buffer that was written over the span; a page number
      that reached no page still reaches none. */
  lemma ReadAfterWrite(s: State, slot: Slot, page: nat, n: nat, bytes: seq<bv8>, i: nat)
    requires Inv(s) && |bytes| <= PAGE_SIZE && page <= i < page + n
    ensures ReadPage(WriteSpan(s, slot, page, n, bytes), slot, i, |bytes|) ==
            if Resolve(s, slot, i).Some? then Some(bytes) else None
  {
    WriteSpanMovesNothing(s, slot, page, n, bytes);
    SamePlacesResolve(s, WriteSpan(s, slot, page, n, bytes), slot, i);
    if Resolve(s, slot, i).Some? {
      WriteSpanEffect(s, slot, page, n, bytes, slot, i);
    }
  }

  /** Every page number outside the span, of any block in either zone, reads as before. */
  lemma ReadOutsideWrite(s: State, slot: Slot, page: nat, n: nat, bytes: seq<bv8>, slot': Slot, i: nat, size: nat)
    requires Inv(s) && |bytes| <= PAGE_SIZE
    requires slot' != slot || !(page <= i < page + n)
    ensures ReadPage(WriteSpan(s, slot, page, n, bytes), slot', i, size) == ReadPage(s, slot', i, size)
  {
    WriteSpanMovesNothing(s, slot, page, n, bytes);
    SamePlacesResolve(s, WriteSpan(s, slot, page, n, bytes), slot', i);
    if Resolve(s, slot', i).Some? {
      WriteSpanEffect(s, slot, page, n, bytes, slot', i);
    }
  }
}
