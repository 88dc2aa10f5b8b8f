/** The code that translates addresses for PCIe ATS and takes translations back. */
module HostMemory {
  import opened AddressBits
  import opened PageTableSpec
  import opened PageTableMap
  import opened PhysicalMap
  import opened PageTable
  import opened Translation
  import opened TranslationHistory

  // ---------------------------------------------------------------- the operations

  /** Some page of the table covers the address. */
  ghost predicate Covered(t: map<Page, Pin>, a: Address)
  {
    exists k: nat :: k <= 2 && Covering(PageNo(a), k) in t
  }

  /** End of a range in 64-bit arithmetic. */
  function RangeEnd(va: Address, length: Address): (end: Address)
    ensures end == va + length || end == va + length - 0x1_0000_0000_0000_0000
  {
    (va + length) % 0x1_0000_0000_0000_0000
  }

  /** What translating a mapped address does to the records: its page gets one if it has none. */
  ghost function RecordIn(pl: PageLen, t: map<Page, Pin>, va: Address): map<Page, Pin>
    requires LevelOf(pl, va) >= 0
  {
    if Slot(pl, va) in t then t else t[Slot(pl, va) := Pin(4096 * Frame(va), 1)]
  }

  class PaTable {
    const table: PageTable
    /** The translations and invalidations that have succeeded. */
    ghost var log: seq<Event>

    ghost predicate Valid()
      reads table
    {
      table.Valid()
    }

    /** The records are right for a mapping, and the table is the account of the log. */
    ghost predicate Tracked(pl: PageLen)
      reads this, table
    {
      Tracks(pl, table.Pages()) && Accounted(pl, log, table.Pages(), table.mem, table.tree)
    }

    constructor (root: Word)
      requires IsPointer(root)
      ensures Valid() && log == [] && table.Pages() == map[] && fresh(table)
      ensures forall pl: PageLen :: Tracked(pl)
    {
      table := new PageTable(root);
      log := [];
      new;
      forall pl: PageLen
        ensures Tracked(pl)
      {
        EmptyAccounted(pl, table.mem, table.tree);
      }
    }

    /** Translate a virtual address and record its page. The result 0 with length 0 is an
        unmapped address; Error is the reserved value -1. */
    method VaToPa(pl: PageLen, va: Address) returns (r: Outcome, pa: nat, length: int, ghost noMemory: bool)
      requires Valid() && Consistent(pl)
      modifies this`log, table
      ensures Valid()
      ensures va == 0 || pl(va) == -1 ==> r == Error && table.Pages() == old(table.Pages())
      ensures va != 0 && pl(va) == 0 ==> r == Ok && pa == 0 && length == 0 && table.Pages() == old(table.Pages())
      ensures Mapped(pl, va) ==> LevelOf(pl, va) >= 0 && Pa(pl, va) < SPAN
      ensures va != 0 && Mapped(pl, va) && r == Ok ==> pa == Pa(pl, va) && length == pl(va)
      ensures va != 0 && Mapped(pl, va) && !Covered(old(table.Pages()), Pa(pl, va)) && r == Ok ==>
                table.Pages() == PinIn(old(table.Pages()), Slot(pl, va), va)
      ensures noMemory ==> Mapped(pl, va) && MissingNode(old(table.tree), PageNo(Pa(pl, va)), LevelOf(pl, va))
      ensures 4096 <= va && Mapped(pl, va) && Tracks(pl, old(table.Pages())) ==>
                && (r == Error ==> noMemory && table.Pages() == old(table.Pages()))
                && (r == Ok ==> table.Pages() == RecordIn(pl, old(table.Pages()), va))
                && r != Assertion && r != Fault
                && Tracks(pl, table.Pages())
      ensures log == if r == Ok && Mapped(pl, va) then old(log) + [Exposure(pl, va)] else old(log)
      ensures old(Tracked(pl)) && (va == 0 || 4096 <= va || !Mapped(pl, va)) ==> Tracked(pl)
    {
      noMemory := false;
      pa, length := 0, 0;
      if Mapped(pl, va) {
        MappedLevel(pl, va);
        PaBasics(va, LevelOf(pl, va));
      }
      if va == 0 {
        return Error, pa, length, noMemory;
      }
      var pageLen := pl(va);
      if pageLen == -1 {
        return Error, pa, length, noMemory;
      }
      if pageLen == 0 {
        return Ok, pa, length, noMemory;
      }
      var ptLevel := LengthToLevel(pageLen);
      pa := PaOf(va, ptLevel);
      length := pageLen;
      r, noMemory := Record(pl, va, pa, ptLevel);
    }

    /** Record the page of an address unless it is already recorded. */
    method Record(pl: PageLen, va: Address, pa: Address, ptLevel: nat) returns (r: Outcome, ghost noMemory: bool)
      requires Valid() && Consistent(pl) && va != 0 && Mapped(pl, va) && LevelOf(pl, va) == ptLevel
      requires pa == Pa(pl, va) < SPAN
      modifies this`log, table
      ensures Valid()
      ensures !Covered(old(table.Pages()), pa) && r == Ok ==>
                table.Pages() == PinIn(old(table.Pages()), Slot(pl, va), va)
      ensures noMemory ==> MissingNode(old(table.tree), PageNo(pa), ptLevel)
      ensures 4096 <= va && Tracks(pl, old(table.Pages())) ==>
                && (r == Error ==> noMemory && table.Pages() == old(table.Pages()))
                && (r == Ok ==> table.Pages() == RecordIn(pl, old(table.Pages()), va))
                && r != Assertion && r != Fault
                && Tracks(pl, table.Pages())
      ensures log == if r == Ok then old(log) + [Exposure(pl, va)] else old(log)
      ensures old(Tracked(pl)) && 4096 <= va ==> Tracked(pl)
    {
      hide WellFormed, Table, Accounted, PinnedStale, SameStale, PinIn, Slot, Xor, XorMask, MissingNode, Inside;
      ghost var t, mem0, tree0 := table.Pages(), table.mem, table.tree;
      SlotIs(pl, va, ptLevel);
      var curVa, curLevel := table.LookupAddr(pa);
      if curVa != 0 {
        if Tracks(pl, t) {
          OnlyOwnSlot(pl, t, va, curLevel);
          if Tracked(pl) {
            FoundAccounted(pl, log, t, mem0, tree0, va);
          }
        }
        log := log + [Exposure(pl, va)];
        return Ok, false;
      }
      if 4096 <= va && Tracks(pl, t) {
        assert curLevel == -1;
        PinTracks(pl, t, va);
      }
      ghost var tracked := Tracked(pl);
      r, noMemory := table.PinPage(va, pa, ptLevel);
      if r == Ok {
        if tracked && 4096 <= va {
          TranslatedAccounted(pl, log, t, mem0, tree0, table.Pages(), table.mem, table.tree, va);
        }
        log := log + [Exposure(pl, va)];
      } else if tracked {
        SameAccounted(pl, log, t, mem0, tree0, table.mem, table.tree);
      }
    }

    static lemma SlotIs(pl: PageLen, va: Address, level: nat)
      requires Consistent(pl) && Mapped(pl, va) && LevelOf(pl, va) == level && Pa(pl, va) < SPAN
      ensures Slot(pl, va) == Covering(PageNo(Pa(pl, va)), level)
    {
      NumIsUp(Pa(pl, va), level);
    }

    /** Translate a physical address back; 0 when its page is not recorded. */
    method PaToVa(pa: Address) returns (va: nat)
      requires Valid()
      ensures !Covered(table.Pages(), pa) ==> va == 0
      ensures forall k: nat :: k <= 2 && Covering(PageNo(pa), k) in table.Pages() ==>
                va == (var s := table.Pages()[Covering(PageNo(pa), k)].va; if s == 0 then 0 else Or(s, Offset(pa, k)))
    {
      var base, level := table.LookupAddr(pa);
      if level >= 0 {
        OneCover(PageNo(pa), level);
      }
      if base == 0 {
        return 0;
      }
      va := Or(base, Offset(pa, level));
    }

    /** Drop a virtual page, given its start, from the table. */
    method DropPage(pl: PageLen, base: Address, level: nat) returns (r: Outcome)
      requires Valid() && Consistent(pl) && Tracks(pl, table.Pages())
      requires Mapped(pl, base) && LevelOf(pl, base) == level && Aligned(pl, base)
      modifies table
      ensures Valid() && r != Fault
      ensures r == Assertion <==> OnStale(pl, old(table.mem), old(table.tree), base)
      ensures r == Assertion ==> table.Pages() == old(table.Pages())
      ensures r != Assertion ==> table.Pages() == old(table.Pages()) - {Slot(pl, base)}
      ensures StaleSince(old(table.Pages()), table.Pages(), old(table.mem), old(table.tree), table.mem, table.tree)
    {
      hide WellFormed, Table, Stale, Xor, XorMask, Shr, Low;
      ghost var t, mem0, tree0 := table.Pages(), table.mem, table.tree;
      MappedLevel(pl, base);
      PaBasics(base, level);
      var pa: Address := PaOf(base, level);
      NumIsUp(pa, level);
      NumIsUp(pa, 0);
      if CoveredAbove(t, PageNo(pa), level) {
        var k: nat :| level < k <= 2 && Covering(PageNo(pa), k) in t;
        OnlyOwnSlot(pl, t, base, k);
        assert false;
      }
      r := table.UnpinPage(pa, level);
      DroppedStale(pl, t, mem0, tree0, table.mem, table.tree, PageNo(pa), level, table.Pages());
    }

    /** Forget every page of a range, page by page, up to the first unmapped address. */
    method InvalVaRange(pl: PageLen, va: Address, length: Address) returns (r: Outcome)
      requires Valid() && Consistent(pl) && Tracks(pl, table.Pages())
      modifies this`log, table
      ensures Valid() && Tracks(pl, table.Pages())
      ensures r == Ok || r == Assertion
      ensures r == Ok ==> table.Pages() == Without(pl, old(table.Pages()), va, RangeEnd(va, length))
      ensures StaleSince(old(table.Pages()), table.Pages(), old(table.mem), old(table.tree), table.mem, table.tree)
      ensures r == Assertion <==>
                exists a: Address :: Reached(pl, va, RangeEnd(va, length), a)
                  && OnStale(pl, old(table.mem), old(table.tree), a)
      ensures log == if r == Ok then old(log) + [Invalidation(pl, va, RangeEnd(va, length))] else old(log)
      ensures old(Tracked(pl)) ==> (r == Ok ==> Tracked(pl))
      ensures old(Tracked(pl)) ==> (r == Assertion <==> ReachesRetired(pl, old(log), va, RangeEnd(va, length)))
    {
      hide WellFormed, Table, Stale, Accounted, OnStale, Without;
      ghost var tracked, t, mem0, tree0 := Tracked(pl), table.Pages(), table.mem, table.tree;
      var vaEnd := RangeEnd(va, length);
      r := Sweep(pl, va, vaEnd);
      if tracked {
        StaleIsRetired(pl, log, t, mem0, tree0, va, vaEnd);
      }
      if r == Ok {
        if tracked {
          InvalidatedAccounted(pl, log, t, mem0, tree0, table.mem, table.tree, va, vaEnd);
        }
        log := log + [Invalidation(pl, va, vaEnd)];
      }
    }

    /** The loop over the pages of a range. */
    method Sweep(pl: PageLen, va: Address, vaEnd: Address) returns (r: Outcome)
      requires Valid() && Consistent(pl) && Tracks(pl, table.Pages())
      modifies table
      ensures Valid() && Tracks(pl, table.Pages())
      ensures r == Ok || r == Assertion
      ensures r == Ok ==> table.Pages() == Without(pl, old(table.Pages()), va, vaEnd)
      ensures StaleSince(old(table.Pages()), table.Pages(), old(table.mem), old(table.tree), table.mem, table.tree)
      ensures r == Assertion <==>
                exists a: Address :: Reached(pl, va, vaEnd, a) && OnStale(pl, old(table.mem), old(table.tree), a)
    {
      hide WellFormed, Table, Stale, Xor, XorMask, Shr, Low, OnStale, Hit, OnPage, Offset, NumAt, Slot, LengthToLevel;
      hide Tracks, Without, StaleSince;
      ghost var t, mem0, tree0 := table.Pages(), table.mem, table.tree;
      var cur: Address := va;
      ghost var last: Address, lastLevel: nat, lastBase: nat := va, 0, 0;
      SweptStart(pl, t, va);
      StaleStart(t, mem0, tree0);
      while cur < vaEnd
        invariant Valid()
        invariant Swept(pl, t, table.Pages(), va, cur)
        invariant va < cur ==> va <= last < vaEnd && Bounds(pl, last, lastLevel, lastBase, cur)
        invariant StaleSince(t, table.Pages(), mem0, tree0, table.mem, table.tree)
        invariant forall a: Address :: va <= a < cur && a < vaEnd ==> !OnStale(pl, mem0, tree0, a)
        decreases vaEnd - cur
      {
        var pageLen := pl(cur);
        if pageLen <= 0 {
          break;
        }
        var level := LengthToLevel(pageLen);
        MappedLevel(pl, cur);
        PageOf(pl, cur, level);
        var base := cur - Offset(cur, level);
        ghost var now, mem1, tree1 := table.Pages(), table.mem, table.tree;
        WithoutTracks(pl, t, va, cur);
        NextStale(pl, t, now, va, cur, level, base, base + pageLen, mem0, tree0, mem1, tree1);
        var u := DropPage(pl, base, level);
        StaleMore(t, now, table.Pages(), mem0, tree0, mem1, tree1, table.mem, table.tree);
        if u == Assertion {
          WithoutTracks(pl, t, va, cur);
          assert Reached(pl, va, vaEnd, cur) && OnStale(pl, mem0, tree0, cur);
          return Assertion;
        }
        SweptNext(pl, t, now, va, cur, level, base, base + pageLen);
        last, lastLevel, lastBase := cur, level, base;
        cur := base + pageLen;
      }
      SweptEnd(pl, t, table.Pages(), va, cur, vaEnd, last, lastLevel, lastBase);
      WithoutTracks(pl, t, va, vaEnd);
      r := Ok;
    }

    /** The records, and the account of the past, are right for every mapping that leaves the recorded
        addresses alone. */
    lemma Remapped(pl: PageLen, pl': PageLen)
      requires Consistent(pl) && Consistent(pl') && Tracks(pl, table.Pages())
      requires ChangesUnrecorded(pl, pl', table.Pages())
      ensures Tracks(pl', table.Pages())
      ensures Tracked(pl) ==> Tracked(pl')
    {
      hide Tracks, Accounted, ChangesUnrecorded, Table;
      TracksAfterChange(pl, pl', table.Pages());
      if Tracked(pl) {
        AfterChange(pl, pl', log, table.Pages(), table.mem, table.tree);
      }
    }

    /** Only one page of the table covers an address. */
    lemma OneCover(p: nat, level: nat)
      requires Valid() && level <= 2 && Covering(p, level) in table.Pages()
      ensures forall k: nat :: k <= 2 && Covering(p, k) in table.Pages() ==> k == level
    {
      hide Table, WellFormed;
      forall k: nat | k <= 2 && k != level && Covering(p, k) in table.Pages()
        ensures false
      {
        if k < level {
          NotBoth(p, k, level);
        } else {
          NotBoth(p, level, k);
        }
      }
    }

    lemma NotBoth(p: nat, low: nat, high: nat)
      requires Valid() && low < high
      ensures Covering(p, low) !in table.Pages() || Covering(p, high) !in table.Pages()
    {
      hide Table, WellFormed;
      UpUp(p, low, high - low);
      if Covering(p, low) in table.Pages() && Covering(p, high) in table.Pages() {
        PinnedDisjoint(table.mem, table.tree, Covering(p, low), Covering(p, high));
      }
    }
  }

  // ---------------------------------------------------------------- where unpinning goes wrong

  /** Unpinning a 4KB page once more than it was pinned is not an error return but a failed
      assertion, in a table that has held nothing else. */
  method SecondUnpin(root: Word, va: Address, iova: Address) returns (pinned: Outcome, second: Outcome)
    requires IsPointer(root)
    ensures pinned == Ok ==> second == Assertion
  {
    var t := new PageTable(root);
    ghost var x := Covering(PageNo(iova), 0);
    ghost var noMemory;
    pinned, noMemory := t.PinPage(va, iova, 0);
    second := Ok;
    if pinned == Ok {
      assert t.Pages()[x].count == 1;
      var first := t.UnpinPage(iova, 0);
      second := t.UnpinPage(iova, 0);
    }
  }

  /** Translating an address of a 4KB page once and invalidating it twice, with nothing between,
      fails an assertion. */
  method InvalidateTwice(pl: PageLen, root: Word, va: Address, length: Address)
    returns (translated: Outcome, second: Outcome)
    requires Consistent(pl) && IsPointer(root)
    requires 4096 <= va && pl(va) == 4 * KB && length > 0 && va < RangeEnd(va, length)
    ensures translated == Ok ==> second == Assertion
  {
    hide WellFormed, Table, Accounted, OnStale, Without, StaleSince, Tracks, RecordIn, ReachesRetired;
    var t := new PaTable(root);
    ghost var noMemory;
    var pa, pageLen;
    NothingTracked(pl);
    translated, pa, pageLen, noMemory := t.VaToPa(pl, va);
    second := Ok;
    if translated == Ok {
      RetiredByRange(pl, va, RangeEnd(va, length));
      OneExposure(pl, va, va, RangeEnd(va, length));
      var first := t.InvalVaRange(pl, va, length);
      second := t.InvalVaRange(pl, va, length);
    }
  }

  /** A range is invalidated up to its first unmapped address. A page behind such a hole that has been
      translated stays recorded, and the records are then wrong for every mapping without it. */
  method InvalidateAcrossHole(pl: PageLen, root: Word, va: Address, length: Address, hole: Address, far: Address)
    returns (translated: Outcome, r: Outcome, t: PaTable)
    requires Consistent(pl) && IsPointer(root)
    requires 4096 <= far && Mapped(pl, far) && !Mapped(pl, hole) && va <= hole < far < RangeEnd(va, length)
    ensures translated == Ok ==> r == Ok && Recorded(pl, t.table.Pages(), far)
    ensures translated == Ok ==>
              forall pl': PageLen :: Consistent(pl') && pl'(far) != pl(far) ==> !Tracks(pl', t.table.Pages())
  {
    hide WellFormed, Table, Accounted, OnStale, Without, Reached, StaleSince, Tracks, Recorded;
    t := new PaTable(root);
    ghost var noMemory;
    var pa, pageLen;
    NothingTracked(pl);
    translated, pa, pageLen, noMemory := t.VaToPa(pl, far);
    r := Ok;
    if translated == Ok {
      ghost var end := RangeEnd(va, length);
      ghost var pages := t.table.Pages();
      RecordedNow(pl, map[], far);
      OneExposure(pl, far, va, end);
      LeftBehind(pl, pages, va, end, hole, far);
      r := t.InvalVaRange(pl, va, length);
    }
  }

  lemma RecordedNow(pl: PageLen, t: map<Page, Pin>, va: Address)
    requires Mapped(pl, va) && LevelOf(pl, va) >= 0
    ensures Recorded(pl, RecordIn(pl, t, va), va)
  {
  }

  lemma NothingTracked(pl: PageLen)
    ensures Tracks(pl, map[])
  {
  }

  /** Unpinning a page inside a pinned larger one is not an error return but a bad access. */
  method UnpinInside(root: Word, va: Address, iova: Address, level: nat, small: nat)
    returns (pinned: Outcome, r: Outcome)
    requires IsPointer(root) && small < level <= 2
    ensures pinned == Ok ==> r == Fault
  {
    var t := new PageTable(root);
    ghost var noMemory;
    pinned, noMemory := t.PinPage(va, iova, level);
    r := Ok;
    if pinned == Ok {
      assert Covering(PageNo(iova), level) in t.Pages();
      r := t.UnpinPage(iova, small);
    }
  }
}
