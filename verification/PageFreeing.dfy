/** What a call of `let_my_pages_go` frees (PageAllocator/page_alloc.c), in terms of the state
    before it and of the flags alone. */
module PageFreeing {
  import opened PageState
  import opened PageLifecycle
  import opened PageAllocator

  predicate Flagged(zone: Zone, flags: seq<bool>, n: nat, slot: Slot) {
    slot.zone == zone && slot.index < n && slot.index < |flags| && flags[slot.index]
  }

  /** The places whose pages a free of flagged blocks gives back: in the low zone those below the
      recorded count; in the high zone the first table of a block that records any page, and each
      table that the count covers whole, with everything in them. */
  ghost predicate GivenBack(s: State, zone: Zone, flags: seq<bool>, n: nat, a: Place) {
    && Holds(s, a) && Flagged(zone, flags, n, a.slot)
    && var count := s.blocks[a.slot].count;
       if zone.LowMem? then a.k < count else count > 0 && (a.k == 0 || 1024 * (a.k + 1) <= count)
  }

  lemma RecordsMeansReleasable(s: State, slot: Slot)
    requires Inv(s)
    ensures Releasable(s, slot) <==> slot in s.blocks && s.blocks[slot].count > 0
  {
    if slot in s.blocks { FreeCountFits(slot.zone, s.blocks[slot].count, |s.blocks[slot].top|); }
  }

  lemma CoveredEntries(zone: Zone, count: nat, k: nat)
    ensures k < FreeCount(zone, count) <==>
      if zone.LowMem? then k < count else count > 0 && (k == 0 || 1024 * (k + 1) <= count)
  {
  }

  /** One block: what freeing it gives back are the pages of its covered places. */
  lemma ReclaimedPlaces(s: State, slot: Slot, p: Page)
    requires Inv(s) && Releasable(s, slot)
    ensures p in Reclaimed(s, slot) <==>
      exists a :: Holds(s, a) && a.slot == slot && a.k < FreeCount(slot.zone, s.blocks[slot].count) && PageAt(s, a) == p
  {
    var f := FreeCount(slot.zone, s.blocks[slot].count);
    var tops := s.blocks[slot].top;
    if p in Reclaimed(s, slot) {
      var k: nat :| k < f && p in EntryPages(s, slot.zone, tops[..f][k]);
      if p == tops[k] {
        assert Holds(s, Top(slot, k)) && PageAt(s, Top(slot, k)) == p;
      } else {
        var j: nat :| j < |Table(s, tops[k])| && Table(s, tops[k])[j] == p;
        assert Holds(s, Inner(slot, k, j)) && PageAt(s, Inner(slot, k, j)) == p;
      }
    }
    forall a | Holds(s, a) && a.slot == slot && a.k < f && PageAt(s, a) == p
      ensures p in Reclaimed(s, slot)
    {
      assert p in EntryPages(s, slot.zone, tops[..f][a.k]);
    }
  }

  /** The first `n` flags, without a look at the states in between. */
  lemma {:induction false} FlaggedIs(s: State, zone: Zone, flags: seq<bool>, n: nat)
    ensures var r := ReleaseFlagged(s, zone, flags, n);
      && r.tables == s.tables && r.data == s.data && r.blocks.Keys == s.blocks.Keys
      && (forall slot :: slot in s.blocks ==>
            r.blocks[slot] ==
            if Flagged(zone, flags, n, slot) && Releasable(s, slot) then Block([], 0) else s.blocks[slot])
      && (forall p :: p in r.free <==>
            p in s.free ||
            exists slot :: Flagged(zone, flags, n, slot) && Releasable(s, slot) && p in Reclaimed(s, slot))
  {
    if n > 0 {
      FlaggedIs(s, zone, flags, n - 1);
      var r, slot := ReleaseFlagged(s, zone, flags, n - 1), Slot(zone, n - 1);
      assert Releasable(r, slot) <==> Releasable(s, slot);
      if Releasable(s, slot) {
        SameReclaimed(s, r, slot);
      }
      var r' := ReleaseFlagged(s, zone, flags, n);
      forall p
        ensures p in r'.free <==>
          p in s.free ||
          exists slot :: Flagged(zone, flags, n, slot) && Releasable(s, slot) && p in Reclaimed(s, slot)
      {
        if n <= |flags| && flags[n - 1] && Releasable(s, slot) && p in Reclaimed(s, slot) {
          assert Flagged(zone, flags, n, slot);
        }
        if x :| Flagged(zone, flags, n, x) && Releasable(s, x) && p in Reclaimed(s, x) && x != slot {
          assert Flagged(zone, flags, n - 1, x);
        }
      }
    }
  }

  lemma SameReclaimed(s: State, r: State, slot: Slot)
    requires Releasable(s, slot) && Releasable(r, slot)
    requires r.tables == s.tables && r.blocks[slot] == s.blocks[slot]
    ensures Reclaimed(r, slot) == Reclaimed(s, slot)
  {
    var tops := s.blocks[slot].top[..FreeCount(slot.zone, s.blocks[slot].count)];
    assert forall k :: 0 <= k < |tops| ==> EntryPages(r, slot.zone, tops[k]) == EntryPages(s, slot.zone, tops[k]);
  }

  /** A free empties exactly the flagged blocks of its zone that record pages, gives back exactly
      the pages of their covered places, and changes nothing else. */
  lemma WhatAFreeGivesBack(s: State, zone: Zone, flags: seq<bool>)
    requires Inv(s)
    ensures var s' := ReleaseFlagged(s, zone, flags, MAX_PAGE_BLOCKS);
      && s'.tables == s.tables && s'.data == s.data && s'.blocks.Keys == s.blocks.Keys
      && (forall slot :: slot in s.blocks ==>
            s'.blocks[slot] ==
            if Flagged(zone, flags, 32, slot) && s.blocks[slot].count > 0 then Block([], 0) else s.blocks[slot])
      && (forall p :: p in s'.free <==>
            p in s.free || exists a :: GivenBack(s, zone, flags, 32, a) && PageAt(s, a) == p)
  {
    FlaggedIs(s, zone, flags, 32);
    var s' := ReleaseFlagged(s, zone, flags, MAX_PAGE_BLOCKS);
    forall slot | slot in s.blocks
      ensures Releasable(s, slot) <==> s.blocks[slot].count > 0
    {
      RecordsMeansReleasable(s, slot);
    }
    forall p
      ensures p in s'.free <==> p in s.free || exists a :: GivenBack(s, zone, flags, 32, a) && PageAt(s, a) == p
    {
      PageGivenBack(s, zone, flags, p);
    }
  }

  lemma PageGivenBack(s: State, zone: Zone, flags: seq<bool>, p: Page)
    requires Inv(s)
    ensures (exists slot :: Flagged(zone, flags, 32, slot) && Releasable(s, slot) && p in Reclaimed(s, slot)) <==>
            (exists a :: GivenBack(s, zone, flags, 32, a) && PageAt(s, a) == p)
  {
    if slot :| Flagged(zone, flags, 32, slot) && Releasable(s, slot) && p in Reclaimed(s, slot) {
      ReclaimedPlaces(s, slot, p);
      var a :| Holds(s, a) && a.slot == slot && a.k < FreeCount(slot.zone, s.blocks[slot].count) && PageAt(s, a) == p;
      CoveredEntries(zone, s.blocks[slot].count, a.k);
      assert GivenBack(s, zone, flags, 32, a);
    }
    if a :| GivenBack(s, zone, flags, 32, a) && PageAt(s, a) == p {
      CoveredEntries(zone, s.blocks[a.slot].count, a.k);
      RecordsMeansReleasable(s, a.slot);
      ReclaimedPlaces(s, a.slot, p);
    }
  }

  /** The array entries freed for one more flag: in the low zone the recorded pages, in the high
      zone the whole tables, or the only one. */
  lemma EntriesOfOneMore(s: State, zone: Zone, flags: seq<bool>, i: nat)
    requires Inv(s) && i < 32 && i < |flags|
    ensures EntriesFreed(s, zone, flags, 0) == 0
    ensures var count := s.blocks[Slot(zone, i)].count;
      EntriesFreed(s, zone, flags, i + 1) == EntriesFreed(s, zone, flags, i) +
        if !flags[i] then 0
        else if zone.LowMem? then count
        else if 0 < count < 1024 then 1
        else count / 1024
  {
    FlaggedIs(s, zone, flags, i);
    RecordsMeansReleasable(s, Slot(zone, i));
  }
}
