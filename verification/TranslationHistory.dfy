/** The table of exposed pages as the account of past translations and invalidations, and what
    becomes of it when the system's mapping changes. */
module TranslationHistory {
  import opened AddressBits
  import opened PageTableSpec
  import opened PageTableMap
  import opened PhysicalMap
  import opened Translation

  /** An address was translated, or a range invalidated, with success, under a mapping. */
  datatype Event = Exposure(pl: PageLen, va: Address) | Invalidation(pl: PageLen, va: Address, end: Address)

  /** What has become of an address: not exposed, exposed, or exposed in a 4KB page and taken back. */
  datatype Status = Fresh | Exposed | Retired

  /** What an event does to an address. */
  ghost function StatusAfter(before: Status, e: Event, a: Address): Status
  {
    match e
    case Exposure(pl, va) => if OnPage(pl, va, a) then Exposed else before
    case Invalidation(pl, va, end) =>
      if before == Exposed && Hit(pl, a, va, end) then (if LevelOf(pl, a) == 0 then Retired else Fresh) else before
  }

  ghost function StatusOf(log: seq<Event>, a: Address): Status
  {
    if log == [] then Fresh
    else StatusAfter(StatusOf(log[..|log| - 1], a), log[|log| - 1], a)
  }

  /** The table records exactly the pages of exposed addresses, and its stale entries are those of
      the 4KB pages taken back. */
  ghost predicate Accounted(pl: PageLen, log: seq<Event>, t: map<Page, Pin>, mem: Mem, tree: Tree)
  {
    forall a: Address :: a < SPAN ==> AddressAccounted(pl, log, t, mem, tree, a)
  }

  ghost predicate AddressAccounted(pl: PageLen, log: seq<Event>, t: map<Page, Pin>, mem: Mem, tree: Tree, a: Address)
  {
    && (StatusOf(log, a) == Exposed <==> Recorded(pl, t, a))
    && (StatusOf(log, a) == Retired <==> StaleAt(mem, tree, a))
  }

  /** The page of a mapped address is recorded. */
  ghost predicate Recorded(pl: PageLen, t: map<Page, Pin>, a: Address)
  {
    Mapped(pl, a) && LevelOf(pl, a) >= 0 && Slot(pl, a) in t
  }

  /** The entry that stands for the 4KB page of an address has a flag bit but no references. */
  ghost predicate StaleAt(mem: Mem, tree: Tree, a: Address)
  {
    PaOf(a, 0) < SPAN && Stale(mem, tree, PageNo(PaOf(a, 0)))
  }

  lemma StatusNext(log: seq<Event>, e: Event, a: Address)
    ensures StatusOf(log + [e], a) == StatusAfter(StatusOf(log, a), e, a)
  {
    assert (log + [e])[..|log|] == log;
  }

  /** Number of the table's 4KB page that stands for an address. */
  lemma SmallPage(a: Address)
    requires a < SPAN
    ensures PaOf(a, 0) < SPAN && PageNo(PaOf(a, 0)) == NumAt(PaOf(a, 0), 0)
    ensures forall k: nat :: k <= 2 ==> Up(PageNo(PaOf(a, 0)), k) == NumAt(PaOf(a, 0), k)
  {
    hide PaOf, NumAt, Up, PageNo;
    PaBasics(a, 0);
    forall k: nat | k <= 2
      ensures Up(PageNo(PaOf(a, 0)), k) == NumAt(PaOf(a, 0), k)
    {
      NumIsUp(PaOf(a, 0), k);
    }
    UpNone(PageNo(PaOf(a, 0)));
  }

  lemma UpNone(p: nat)
    ensures Up(p, 0) == p
  {
  }

  /** The table's 4KB page of an address is the slot of a mapped page, or lies in it, exactly when
      the address is in that page. */
  lemma InSlot(pl: PageLen, va: Address, a: Address)
    requires Consistent(pl) && Mapped(pl, va) && LevelOf(pl, va) >= 0 && a < SPAN
    ensures PaOf(a, 0) < SPAN
    ensures var y := Page(0, PageNo(PaOf(a, 0)));
            y == Slot(pl, va) || Inside(y, Slot(pl, va)) <==> OnPage(pl, va, a)
  {
    hide PaOf, NumAt, Up, PageNo;
    SmallPage(a);
    SamePhysicalPage(a, va, 0, LevelOf(pl, va));
  }

  /** Addresses share a slot exactly when they share a page. */
  lemma SlotIsPage(pl: PageLen, a: Address, b: Address)
    requires Consistent(pl) && Mapped(pl, a) && Mapped(pl, b) && LevelOf(pl, a) >= 0 && LevelOf(pl, b) >= 0
    ensures Slot(pl, a) == Slot(pl, b) <==> OnPage(pl, a, b)
  {
    if Slot(pl, a) == Slot(pl, b) {
      SlotsMeet(pl, a, b);
    }
    if OnPage(pl, a, b) {
      CoveredByPage(pl, a, b);
    }
  }

  /** The addresses of a mapped page are mapped. */
  lemma PageMapped(pl: PageLen, va: Address, a: Address)
    requires Consistent(pl) && Mapped(pl, va) && OnPage(pl, va, a)
    ensures pl(a) == pl(va) && Mapped(pl, a) && a < SPAN
  {
    CoveredByPage(pl, va, a);
    assert pl(a) == pl(va);
  }

  /** Recording a page that was not recorded. */
  lemma TranslatedAccounted(pl: PageLen, log: seq<Event>, t: map<Page, Pin>, mem: Mem, tree: Tree,
                            t': map<Page, Pin>, mem': Mem, tree': Tree, va: Address)
    requires Consistent(pl) && Accounted(pl, log, t, mem, tree)
    requires Mapped(pl, va) && LevelOf(pl, va) >= 0
    requires t'.Keys == t.Keys + {Slot(pl, va)}
    requires PinnedStale(mem, tree, mem', tree', Slot(pl, va))
    ensures Accounted(pl, log + [Exposure(pl, va)], t', mem', tree')
  {
    hide Slot, OnPage, Stale, Inside, LengthToLevel, PaOf, PageNo;
    forall a: Address | a < SPAN
      ensures AddressAccounted(pl, log + [Exposure(pl, va)], t', mem', tree', a)
    {
      assert AddressAccounted(pl, log, t, mem, tree, a);
      StatusNext(log, Exposure(pl, va), a);
      InSlot(pl, va, a);
      if Mapped(pl, a) {
        MappedLevel(pl, a);
        SlotIsPage(pl, va, a);
      }
      if OnPage(pl, va, a) {
        PageMapped(pl, va, a);
      }
    }
  }

  /** Translating an address of a page that is recorded changes nothing. */
  lemma FoundAccounted(pl: PageLen, log: seq<Event>, t: map<Page, Pin>, mem: Mem, tree: Tree, va: Address)
    requires Consistent(pl) && Accounted(pl, log, t, mem, tree)
    requires Mapped(pl, va) && LevelOf(pl, va) >= 0 && Slot(pl, va) in t
    ensures Accounted(pl, log + [Exposure(pl, va)], t, mem, tree)
  {
    hide Slot, OnPage, StaleAt, LengthToLevel;
    forall a: Address | a < SPAN
      ensures AddressAccounted(pl, log + [Exposure(pl, va)], t, mem, tree, a)
    {
      assert AddressAccounted(pl, log, t, mem, tree, a);
      StatusNext(log, Exposure(pl, va), a);
      if OnPage(pl, va, a) {
        PageMapped(pl, va, a);
        MappedLevel(pl, a);
        SlotIsPage(pl, va, a);
      }
    }
  }

  /** Pages that share a slot are reached by the same ranges. */
  lemma SamePageHit(pl: PageLen, s: Address, a: Address, va: Address, end: nat)
    requires Consistent(pl) && Mapped(pl, s) && OnPage(pl, s, a)
    ensures Hit(pl, s, va, end) <==> Hit(pl, a, va, end)
  {
    CoveredByPage(pl, s, a);
  }

  /** The range drops the record of an address exactly when it reaches the address's page. */
  lemma DroppedWhenHit(pl: PageLen, t: map<Page, Pin>, va: Address, end: Address, a: Address)
    requires Consistent(pl) && Tracks(pl, t)
    ensures Recorded(pl, Without(pl, t, va, end), a) <==> Recorded(pl, t, a) && !Hit(pl, a, va, end)
  {
    hide Slot, OnPage, Hit, LengthToLevel;
    if Recorded(pl, t, a) {
      var s := t[Slot(pl, a)].va;
      SlotIsPage(pl, s, a);
      SamePageHit(pl, s, a, va, end);
    }
  }

  /** The 4KB page of an address is recorded only if the address is in a recorded 4KB page. */
  lemma SmallRecord(pl: PageLen, t: map<Page, Pin>, a: Address)
    requires Consistent(pl) && Tracks(pl, t) && a < SPAN
    ensures PaOf(a, 0) < SPAN
    ensures Page(0, PageNo(PaOf(a, 0))) in t <==> Recorded(pl, t, a) && LevelOf(pl, a) == 0
  {
    hide PaOf, NumAt, Up, PageNo, LengthToLevel;
    SmallPage(a);
    var y := Page(0, PageNo(PaOf(a, 0)));
    if y in t {
      var s := t[y].va;
      InSlot(pl, s, a);
      PageMapped(pl, s, a);
    }
  }

  /** Taking back the pages that a range reaches. */
  lemma InvalidatedAccounted(pl: PageLen, log: seq<Event>, t: map<Page, Pin>, mem: Mem, tree: Tree,
                             mem': Mem, tree': Tree, va: Address, end: Address)
    requires Consistent(pl) && Tracks(pl, t) && Accounted(pl, log, t, mem, tree)
    requires StaleSince(t, Without(pl, t, va, end), mem, tree, mem', tree')
    ensures Accounted(pl, log + [Invalidation(pl, va, end)], Without(pl, t, va, end), mem', tree')
  {
    hide Slot, Hit, Stale, LengthToLevel, PaOf, PageNo, Without, Recorded, Tracks;
    WithoutTracks(pl, t, va, end);
    forall a: Address | a < SPAN
      ensures AddressAccounted(pl, log + [Invalidation(pl, va, end)], Without(pl, t, va, end), mem', tree', a)
    {
      assert AddressAccounted(pl, log, t, mem, tree, a);
      StatusNext(log, Invalidation(pl, va, end), a);
      DroppedWhenHit(pl, t, va, end, a);
      SmallRecord(pl, t, a);
      SmallRecord(pl, Without(pl, t, va, end), a);
    }
  }

  lemma SameAccounted(pl: PageLen, log: seq<Event>, t: map<Page, Pin>, mem: Mem, tree: Tree, mem': Mem, tree': Tree)
    requires Accounted(pl, log, t, mem, tree) && SameStale(mem, tree, mem', tree')
    ensures Accounted(pl, log, t, mem', tree')
  {
    hide Recorded, Stale, PaOf, PageNo;
    forall a: Address | a < SPAN
      ensures AddressAccounted(pl, log, t, mem', tree', a)
    {
      assert AddressAccounted(pl, log, t, mem, tree, a);
    }
  }

  lemma EmptyAccounted(pl: PageLen, mem: Mem, tree: Tree)
    requires NothingStale(mem, tree)
    ensures Accounted(pl, [], map[], mem, tree)
  {
    hide Slot, Stale, PaOf, PageNo;
  }

  /** The range reaches a 4KB page that was taken back and not exposed since. */
  ghost predicate ReachesRetired(pl: PageLen, log: seq<Event>, va: Address, end: nat)
  {
    exists a: Address :: Reached(pl, va, end, a) && LevelOf(pl, a) == 0 && StatusOf(log, a) == Retired
  }

  lemma StaleIsRetired(pl: PageLen, log: seq<Event>, t: map<Page, Pin>, mem: Mem, tree: Tree, va: Address, end: nat)
    requires Consistent(pl) && Accounted(pl, log, t, mem, tree)
    ensures ReachesRetired(pl, log, va, end) <==>
              exists a: Address :: Reached(pl, va, end, a) && OnStale(pl, mem, tree, a)
  {
    hide Slot, Stale, PaOf, PageNo, Recorded;
    forall a: Address | Reached(pl, va, end, a)
      ensures LevelOf(pl, a) == 0 && StatusOf(log, a) == Retired <==> OnStale(pl, mem, tree, a)
    {
      MappedLevel(pl, a);
      assert AddressAccounted(pl, log, t, mem, tree, a);
    }
  }

  /** A page translated once is taken back by a range that starts in it, and stays so. */
  lemma RetiredByRange(pl: PageLen, va: Address, end: Address)
    requires Consistent(pl) && Mapped(pl, va) && LevelOf(pl, va) == 0 && va < end
    ensures ReachesRetired(pl, [] + [Exposure(pl, va)] + [Invalidation(pl, va, end)], va, end)
  {
    hide NumAt, Mapped, LevelOf;
    StatusNext([], Exposure(pl, va), va);
    StatusNext([] + [Exposure(pl, va)], Invalidation(pl, va, end), va);
    assert Reached(pl, va, end, va) && OnPage(pl, va, va);
  }

  /** One translation retires nothing. */
  lemma OneExposure(pl: PageLen, va: Address, from: Address, end: nat)
    ensures !ReachesRetired(pl, [] + [Exposure(pl, va)], from, end)
  {
    hide OnPage;
    forall a: Address
      ensures StatusOf([] + [Exposure(pl, va)], a) != Retired
    {
      StatusNext([], Exposure(pl, va), a);
    }
  }

  // ---------------------------------------------------------------- the mapping changes

  /** Every address whose page size differs is in no recorded page. */
  ghost predicate ChangesUnrecorded(pl: PageLen, pl': PageLen, t: map<Page, Pin>)
  {
    forall a: Address :: pl'(a) != pl(a) ==> !Recorded(pl, t, a)
  }

  /** The records stay right under a new mapping exactly when it leaves the recorded pages alone. */
  lemma TracksAfterChange(pl: PageLen, pl': PageLen, t: map<Page, Pin>)
    requires Consistent(pl) && Consistent(pl') && Tracks(pl, t)
    ensures Tracks(pl', t) <==> ChangesUnrecorded(pl, pl', t)
  {
    hide PaOf, NumAt;
    if ChangesUnrecorded(pl, pl', t) {
      forall x | x in t
        ensures pl'(t[x].va) == pl(t[x].va)
      {
        assert Recorded(pl, t, t[x].va);
      }
    }
    if Tracks(pl', t) {
      forall a: Address | Recorded(pl, t, a)
        ensures pl'(a) == pl(a)
      {
        SameRecord(pl, pl', t, a);
      }
    }
  }

  lemma SameRecord(pl: PageLen, pl': PageLen, t: map<Page, Pin>, a: Address)
    requires Consistent(pl) && Consistent(pl') && Tracks(pl, t) && Tracks(pl', t) && Recorded(pl, t, a)
    ensures pl'(a) == pl(a) && Recorded(pl', t, a)
  {
    hide PaOf, NumAt;
    var s := t[Slot(pl, a)].va;
    MappedLevel(pl, s);
    MappedLevel(pl', s);
    assert Slot(pl, s) == Slot(pl', s);
    SlotIsPage(pl, s, a);
    PageMapped(pl, s, a);
    PageMapped(pl', s, a);
  }

  /** The records and the account of the past survive every change of the mapping that leaves the
      recorded addresses alone. */
  lemma AfterChange(pl: PageLen, pl': PageLen, log: seq<Event>, t: map<Page, Pin>, mem: Mem, tree: Tree)
    requires Consistent(pl) && Consistent(pl') && ChangesUnrecorded(pl, pl', t)
    requires Tracks(pl, t) && Accounted(pl, log, t, mem, tree)
    ensures Tracks(pl', t) && Accounted(pl', log, t, mem, tree)
  {
    hide PaOf, NumAt, StaleAt;
    TracksAfterChange(pl, pl', t);
    forall a: Address | a < SPAN
      ensures AddressAccounted(pl', log, t, mem, tree, a)
    {
      assert AddressAccounted(pl, log, t, mem, tree, a);
      if Recorded(pl, t, a) {
        SameRecord(pl, pl', t, a);
      }
      if Recorded(pl', t, a) {
        SameRecord(pl', pl, t, a);
      }
    }
  }

  /** The addresses whose page size differs are unmapped before, or in pages that the range reaches. */
  ghost predicate ChangesReached(pl: PageLen, pl': PageLen, va: Address, end: nat)
  {
    forall a: Address :: pl'(a) != pl(a) ==> !Mapped(pl, a) || Hit(pl, a, va, end)
  }

  /** Once a range has been invalidated, the pages it reached may be unmapped or mapped anew. */
  lemma ReachedMayChange(pl: PageLen, pl': PageLen, t: map<Page, Pin>, va: Address, end: Address)
    requires Consistent(pl) && Tracks(pl, t) && ChangesReached(pl, pl', va, end)
    ensures ChangesUnrecorded(pl, pl', Without(pl, t, va, end))
  {
    hide Hit, Without, Slot;
    forall a: Address | pl'(a) != pl(a)
      ensures !Recorded(pl, Without(pl, t, va, end), a)
    {
      DroppedWhenHit(pl, t, va, end, a);
    }
  }

  /** A range without holes reaches all its addresses, so that its pages may change. */
  lemma NoHoles(pl: PageLen, pl': PageLen, va: Address, end: Address)
    requires Consistent(pl) && forall b: Address :: va <= b < end ==> Mapped(pl, b)
    requires forall a: Address :: pl'(a) != pl(a) ==> va <= a < end || !Mapped(pl, a)
    ensures ChangesReached(pl, pl', va, end)
  {
    hide NumAt;
    forall a: Address | va <= a < end
      ensures Hit(pl, a, va, end)
    {
      MappedLevel(pl, a);
      assert Reached(pl, va, end, a) && OnPage(pl, a, a);
    }
  }

  /** A range does not reach a page behind a hole. */
  lemma BehindHole(pl: PageLen, va: Address, end: nat, hole: Address, far: Address)
    requires Consistent(pl) && Mapped(pl, far) && !Mapped(pl, hole) && va <= hole < far
    ensures !Hit(pl, far, va, end)
  {
    hide Shr;
    MappedLevel(pl, far);
    var l := LevelOf(pl, far);
    forall a: Address | Reached(pl, va, end, a)
      ensures !OnPage(pl, far, a)
    {
      assert a < hole;
      if NumAt(a, l) == NumAt(far, l) {
        ShrMono(a, hole, BitIdx(l));
        ShrMono(hole, far, BitIdx(l));
        PageMapped(pl, far, hole);
      }
    }
  }

  /** A recorded page behind a hole in the range stays recorded, and no mapping may change it. */
  lemma LeftBehind(pl: PageLen, t: map<Page, Pin>, va: Address, end: Address, hole: Address, far: Address)
    requires Consistent(pl) && Tracks(pl, t) && Recorded(pl, t, far)
    requires !Mapped(pl, hole) && va <= hole < far
    ensures Recorded(pl, Without(pl, t, va, end), far)
    ensures forall pl': PageLen :: Consistent(pl') && pl'(far) != pl(far) ==> !Tracks(pl', Without(pl, t, va, end))
  {
    hide Hit, Without, Tracks;
    BehindHole(pl, va, end, hole, far);
    DroppedWhenHit(pl, t, va, end, far);
    WithoutTracks(pl, t, va, end);
    forall pl': PageLen | Consistent(pl') && pl'(far) != pl(far)
      ensures !Tracks(pl', Without(pl, t, va, end))
    {
      TracksAfterChange(pl, pl', Without(pl, t, va, end));
    }
  }
}
