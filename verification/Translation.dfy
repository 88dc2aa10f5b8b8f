/** Address translation for PCIe ATS: what the table of virtual pages exposed to the device holds,
    and what translating and invalidating do to it. */
module Translation {
  import opened AddressBits
  import opened PageTableSpec
  import opened PageTableMap
  import opened PhysicalMap

  const KB: nat := 1024
  const MB: nat := 0x10_0000
  const GB: nat := 0x4000_0000

  /** Page size to table level, or -1. */
  function LengthToLevel(length: int): (l: int)
    ensures -1 <= l <= 2
    ensures length == 4 * KB ==> l == 0
    ensures length == 2 * MB ==> l == 1
    ensures length == GB ==> l == 2
  {
    if length > 2 * MB then (if length == GB then 2 else -1)
    else if length > 4 * KB then 1
    else 0
  }

  /** The system's page sizes: 0 where nothing is mapped, -1 on a failure. */
  type PageLen = Address -> int

  predicate IsPageLen(n: int)
  {
    n == -1 || n == 0 || n == 4 * KB || n == 2 * MB || n == GB
  }

  function LevelOf(pl: PageLen, a: Address): (l: int)
    ensures -1 <= l <= 2
  {
    LengthToLevel(pl(a))
  }

  /** Something is mapped at the address. */
  predicate Mapped(pl: PageLen, a: Address)
  {
    pl(a) > 0
  }

  /** Page sizes are the three the program knows, mapped addresses have 48 bits, and all of a
      page has the same size. */
  ghost predicate Consistent(pl: PageLen)
  {
    && (forall a: Address :: IsPageLen(pl(a)))
    && (forall a: Address :: Mapped(pl, a) ==> a < SPAN)
    && (forall a: Address, b: Address :: Mapped(pl, a) && NumAt(a, LevelOf(pl, a)) == NumAt(b, LevelOf(pl, a)) ==>
          pl(b) == pl(a))
  }

  lemma MappedLevel(pl: PageLen, a: Address)
    requires Consistent(pl) && Mapped(pl, a)
    ensures 0 <= LevelOf(pl, a) <= 2 && pl(a) == PageSize(LevelOf(pl, a)) && a < SPAN
  {
    Sizes();
  }

  /** Simulated physical address of a mapped virtual one. */
  function Pa(pl: PageLen, va: Address): nat
    requires LevelOf(pl, va) >= 0
  {
    PaOf(va, LevelOf(pl, va))
  }

  /** The table page that stands for the virtual page of an address. */
  function Slot(pl: PageLen, va: Address): Page
    requires LevelOf(pl, va) >= 0
  {
    Page(LevelOf(pl, va), NumAt(Pa(pl, va), LevelOf(pl, va)))
  }

  /** Virtual address of the start of a page. */
  predicate Aligned(pl: PageLen, va: Address)
    requires LevelOf(pl, va) >= 0
  {
    Offset(va, LevelOf(pl, va)) == 0
  }

  /** Every table entry records an address of a mapped page, in the slot for it, once. */
  ghost predicate Tracks(pl: PageLen, t: map<Page, Pin>)
  {
    forall x :: x in t ==>
      && t[x].count == 1
      && 4096 <= t[x].va < SPAN
      && Mapped(pl, t[x].va) && LevelOf(pl, t[x].va) >= 0
      && x == Slot(pl, t[x].va)
  }

  /** Two addresses share the slot of the larger page exactly when they share the page. */
  lemma SlotsMeet(pl: PageLen, a: Address, b: Address)
    requires Consistent(pl) && Mapped(pl, a) && Mapped(pl, b)
    requires LevelOf(pl, a) >= 0 && LevelOf(pl, b) >= 0
    requires var la, lb := LevelOf(pl, a), LevelOf(pl, b);
             var top := if la < lb then lb else la;
             NumAt(Pa(pl, a), top) == NumAt(Pa(pl, b), top)
    ensures LevelOf(pl, a) == LevelOf(pl, b)
    ensures NumAt(a, LevelOf(pl, a)) == NumAt(b, LevelOf(pl, a))
  {
    var la, lb := LevelOf(pl, a), LevelOf(pl, b);
    if la <= lb {
      SamePhysicalPage(a, b, la, lb);
      assert NumAt(a, lb) == NumAt(b, lb);
    } else {
      SamePhysicalPage(b, a, lb, la);
      assert NumAt(b, la) == NumAt(a, la);
    }
  }

  /** The table covers the physical address of a mapped one only with that address's own page. */
  lemma OnlyOwnSlot(pl: PageLen, t: map<Page, Pin>, va: Address, k: nat)
    requires Consistent(pl) && Tracks(pl, t) && Mapped(pl, va) && LevelOf(pl, va) >= 0 && k <= 2
    requires Pa(pl, va) < SPAN && Covering(PageNo(Pa(pl, va)), k) in t
    ensures k == LevelOf(pl, va) && Covering(PageNo(Pa(pl, va)), k) == Slot(pl, va)
    ensures NumAt(t[Slot(pl, va)].va, k) == NumAt(va, k)
  {
    var pa: Address := Pa(pl, va);
    NumIsUp(pa, k);
    var x := Covering(PageNo(pa), k);
    var s := t[x].va;
    assert x == Slot(pl, s);
    var ls := LevelOf(pl, s);
    assert k == ls;
    var lv := LevelOf(pl, va);
    if lv > ls {
      NumUp(pa, Pa(pl, s), ls, lv);
    }
    SlotsMeet(pl, va, s);
  }

  lemma NumUp(a: nat, b: nat, level: nat, above: nat)
    requires NumAt(a, level) == NumAt(b, level) && level <= above
    ensures NumAt(a, above) == NumAt(b, above)
  {
    ShrShr(a, BitIdx(level), 9 * (above - level));
    ShrShr(b, BitIdx(level), 9 * (above - level));
  }

  lemma NumAbove(a: nat, level: nat, above: nat)
    requires level < above
    ensures Up(NumAt(a, level), above - level) == NumAt(a, above)
  {
    UpIsShr(NumAt(a, level), above - level);
    ShrShr(a, BitIdx(level), 9 * (above - level));
  }

  /** Recording an address of a mapped page that the table does not cover keeps the table right. */
  lemma PinTracks(pl: PageLen, t: map<Page, Pin>, va: Address)
    requires Consistent(pl) && Tracks(pl, t) && Mapped(pl, va) && LevelOf(pl, va) >= 0
    requires 4096 <= va < SPAN && Pa(pl, va) < SPAN
    requires forall k: nat :: k <= 2 ==> Covering(PageNo(Pa(pl, va)), k) !in t
    ensures Slot(pl, va) == Covering(PageNo(Pa(pl, va)), LevelOf(pl, va)) && Slot(pl, va) !in t
    ensures PinIn(t, Slot(pl, va), va) == t[Slot(pl, va) := Pin(4096 * Frame(va), 1)]
    ensures Tracks(pl, PinIn(t, Slot(pl, va), va))
  {
    hide Low, Shr, Pow2, Xor, XorMask, Up, LengthToLevel;
    var x := Slot(pl, va);
    NumIsUp(Pa(pl, va), LevelOf(pl, va));
    StoredSlot(pl, va);
    forall y | y in t
      ensures !Inside(y, x)
    {
      if Inside(y, x) {
        NothingSmaller(pl, t, va, y);
      }
    }
  }

  /** The address stored for a page is one of the page. */
  lemma StoredSlot(pl: PageLen, va: Address)
    requires Consistent(pl) && Mapped(pl, va) && LevelOf(pl, va) >= 0 && 4096 <= va < SPAN
    ensures var s := 4096 * Frame(va);
            && 4096 <= s < SPAN && Mapped(pl, s) && LevelOf(pl, s) == LevelOf(pl, va)
            && Slot(pl, s) == Slot(pl, va)
  {
    var l: nat, s := LevelOf(pl, va), 4096 * Frame(va);
    StoredIn(va, l);
    assert pl(s) == pl(va);
    SamePhysicalPage(s, va, l, l);
  }

  /** No smaller page of the table lies inside the slot of a mapped page. */
  lemma NothingSmaller(pl: PageLen, t: map<Page, Pin>, va: Address, y: Page)
    requires Consistent(pl) && Tracks(pl, t) && Mapped(pl, va) && LevelOf(pl, va) >= 0
    requires y in t
    ensures !Inside(y, Slot(pl, va))
  {
    var s := t[y].va;
    var ls, lv := LevelOf(pl, s), LevelOf(pl, va);
    if ls < lv {
      NumAbove(Pa(pl, s), ls, lv);
      if NumAt(Pa(pl, s), lv) == NumAt(Pa(pl, va), lv) {
        SlotsMeet(pl, s, va);
      }
    }
  }

  // ---------------------------------------------------------------- round trip

  /** The addresses of a recorded page are covered by its record, and all of them translate back to
      themselves exactly when the record is the page's start. */
  lemma RoundTrip(pl: PageLen, t: map<Page, Pin>, va: Address)
    requires Consistent(pl) && Tracks(pl, t) && Mapped(pl, va) && LevelOf(pl, va) >= 0 && Slot(pl, va) in t
    ensures forall a: Address :: OnPage(pl, va, a) ==>
              && Mapped(pl, a) && LevelOf(pl, a) == LevelOf(pl, va) && Pa(pl, a) < SPAN
              && Covering(PageNo(Pa(pl, a)), LevelOf(pl, va)) == Slot(pl, va)
    ensures (forall a: Address :: OnPage(pl, va, a) ==> ReadBack(t[Slot(pl, va)].va, a, LevelOf(pl, va)) == a)
       <==> Aligned(pl, t[Slot(pl, va)].va)
  {
    var l: nat := LevelOf(pl, va);
    var s: Address := t[Slot(pl, va)].va;
    SamePhysicalPage(s, va, l, l);
    SlotsMeet(pl, s, va);
    forall a: Address | OnPage(pl, va, a)
      ensures Mapped(pl, a) && LevelOf(pl, a) == l && Pa(pl, a) < SPAN
      ensures Covering(PageNo(Pa(pl, a)), l) == Slot(pl, va)
      ensures Aligned(pl, s) ==> ReadBack(s, a, l) == a
    {
      CoveredByPage(pl, va, a);
      if Aligned(pl, s) {
        AlignedTranslates(s, a, l);
      }
    }
    if !Aligned(pl, s) {
      var base := MisalignedFails(s, va, l);
      assert base < SPAN ==> OnPage(pl, va, base);
    }
  }

  lemma CoveredByPage(pl: PageLen, va: Address, a: Address)
    requires Consistent(pl) && Mapped(pl, va) && OnPage(pl, va, a)
    ensures Mapped(pl, a) && LevelOf(pl, a) == LevelOf(pl, va) && Pa(pl, a) < SPAN
    ensures Slot(pl, a) == Slot(pl, va) && Covering(PageNo(Pa(pl, a)), LevelOf(pl, va)) == Slot(pl, va)
  {
    hide Xor, XorMask, Low, Shr, Pow2, Up, Idx, PageNo;
    var l: nat := LevelOf(pl, va);
    assert pl(a) == pl(va);
    MappedLevel(pl, a);
    PaBasics(a, l);
    SamePhysicalPage(a, va, l, l);
    NumIsUp(Pa(pl, a), l);
  }

  /** Consecutive addresses of a virtual page map to consecutive physical ones. */
  lemma PaAdds(va: nat, level: nat, off: nat)
    requires level <= 2 && Offset(va, level) == 0 && off < PageSize(level)
    ensures NumAt(va + off, level) == NumAt(va, level)
    ensures PaOf(va + off, level) == PaOf(va, level) + off
  {
    hide Low, Shr, Pow2, Xor, XorMask;
    var k := BitIdx(level);
    AddLow(va, off, k);
    PaBasics(va, level);
    PaBasics(va + off, level);
    SamePhysicalPage(va + off, va, level, level);
    AddLow(PaOf(va, level), off, k);
    HighLow(PaOf(va + off, level), PaOf(va, level) + off, k);
  }

  /** What translation yields for an address when s is stored for its page. */
  function ReadBack(s: nat, a: nat, level: nat): nat
    requires level <= 2
  {
    Or(s, Offset(PaOf(a, level), level))
  }

  lemma AlignedTranslates(s: nat, a: nat, level: nat)
    requires level <= 2 && NumAt(s, level) == NumAt(a, level) && Offset(s, level) == 0
    ensures ReadBack(s, a, level) == a
  {
    var k := BitIdx(level);
    PaBasics(a, level);
    LowBound(a, k);
    OrAligned(s, Offset(a, level), k);
    AddLow(s, Offset(a, level), k);
    HighLow(s + Offset(a, level), a, k);
  }

  lemma MisalignedFails(s: nat, va: nat, level: nat) returns (base: nat)
    requires level <= 2 && NumAt(s, level) == NumAt(va, level) && Offset(s, level) != 0
    ensures base <= va && NumAt(base, level) == NumAt(va, level) && ReadBack(s, base, level) != base
  {
    hide Low, Shr, Or, PaOf, Pow2;
    SubLow(va, BitIdx(level));
    base := va - Offset(va, level);
    PaBasics(base, level);
    OrZero(s);
    assert Offset(PaOf(base, level), level) == 0;
  }

  /** An address that is not the start of its page may be recorded too, because only 4KB
      alignment is demanded of translation requests. The page then translates correctly for
      every offset exactly when the address lies in the first 4KB of its page. */
  lemma MisalignedRecord(va: Address, level: nat)
    requires level <= 2 && va < SPAN
    ensures (forall a: nat :: NumAt(a, level) == NumAt(va, level) ==> ReadBack(4096 * Frame(va), a, level) == a)
       <==> Offset(va, level) < 4096
  {
    var s := 4096 * Frame(va);
    StoredIn(va, level);
    if Offset(va, level) < 4096 {
      forall a: nat | NumAt(a, level) == NumAt(va, level)
        ensures ReadBack(s, a, level) == a
      {
        AlignedTranslates(s, a, level);
      }
    } else {
      var base := MisalignedFails(s, va, level);
    }
  }

  /** What is stored for an address: its 4KB page, in the same larger page. */
  lemma StoredIn(va: Address, level: nat)
    requires level <= 2 && va < SPAN
    ensures 4096 * Frame(va) == va / 4096 * 4096
    ensures NumAt(4096 * Frame(va), level) == NumAt(va, level)
    ensures Offset(4096 * Frame(va), level) == Offset(va, level) / 4096 * 4096
  {
    hide Low, Shr, Pow2;
    var s, m := va / 4096 * 4096, Pow2(9 * level);
    Shr12(s);
    Shr12(va);
    ShrShr(s, 12, 9 * level);
    ShrShr(va, 12, 9 * level);
    Split(s, level);
    Split(va, level);
    Sizes();
    PowAdd(12, 9 * level);
    WholePages(va, NumAt(va, level), m, Offset(va, level));
  }

  lemma WholePages(va: nat, n: nat, m: nat, off: nat)
    requires va == n * (4096 * m) + off
    ensures va / 4096 * 4096 - n * (4096 * m) == off / 4096 * 4096
  {
    var q := n * m;
    assert n * (4096 * m) == 4096 * q;
    assert va / 4096 == q + off / 4096;
  }

  // ---------------------------------------------------------------- invalidating a range

  /** The address lies in the virtual page that contains s. */
  ghost predicate OnPage(pl: PageLen, s: Address, a: Address)
  {
    LevelOf(pl, s) >= 0 && NumAt(a, LevelOf(pl, s)) == NumAt(s, LevelOf(pl, s))
  }

  /** The address is in the range with nothing unmapped before or at it. */
  ghost predicate Reached(pl: PageLen, va: Address, end: nat, a: Address)
  {
    va <= a < end && forall b: Address :: va <= b <= a ==> Mapped(pl, b)
  }

  /** The range reaches into the page that contains s. */
  ghost predicate Hit(pl: PageLen, s: Address, va: Address, end: nat)
  {
    exists a: Address :: Reached(pl, va, end, a) && OnPage(pl, s, a)
  }

  /** The table without the pages that the range reaches. */
  ghost function Without(pl: PageLen, t: map<Page, Pin>, va: Address, end: nat): map<Page, Pin>
  {
    map x | x in t && !(t[x].va < SPAN && Hit(pl, t[x].va, va, end)) :: t[x]
  }

  /** The address is in a 4KB page whose table entry has a flag bit but no references. */
  ghost predicate OnStale(pl: PageLen, mem: Mem, tree: Tree, a: Address)
  {
    LevelOf(pl, a) == 0 && Pa(pl, a) < SPAN && Stale(mem, tree, PageNo(Pa(pl, a)))
  }

  /** The page of a mapped address goes from base to next. */
  ghost predicate Bounds(pl: PageLen, cur: Address, level: nat, base: nat, next: nat)
  {
    && Mapped(pl, cur) && LevelOf(pl, cur) == level
    && base <= cur < next <= SPAN
    && Offset(base, level) == 0
    && NumAt(next, level) == NumAt(cur, level) + 1
    && forall a: Address :: base <= a < next ==> NumAt(a, level) == NumAt(cur, level) && pl(a) == pl(cur)
  }

  lemma PageOf(pl: PageLen, cur: Address, level: nat)
    requires Consistent(pl) && Mapped(pl, cur) && LevelOf(pl, cur) == level
    ensures Offset(cur, level) <= cur
    ensures Bounds(pl, cur, level, cur - Offset(cur, level), cur - Offset(cur, level) + PageSize(level))
  {
    hide Shr, Low, Pow2, LengthToLevel;
    var k := BitIdx(level);
    MappedLevel(pl, cur);
    SubLow(cur, k);
    LowBound(cur, k);
    var base := cur - Offset(cur, level);
    ShrNext(base, k);
    Sizes();
    forall a: Address | base <= a < base + PageSize(level)
      ensures NumAt(a, level) == NumAt(cur, level) && pl(a) == pl(cur)
    {
      AddLow(base, a - base, k);
    }
    var last: Address := base + PageSize(level) - 1;
    assert Mapped(pl, last);
  }

  /** How far invalidation has come: everything before cur is mapped, no page reaches across
      cur, and exactly the pages before cur are gone. */
  ghost predicate Swept(pl: PageLen, t: map<Page, Pin>, now: map<Page, Pin>, va: Address, cur: Address)
  {
    && va <= cur
    && (forall a: Address :: va <= a < cur ==> Mapped(pl, a))
    && (forall a: Address :: va <= a < cur ==> !OnPage(pl, a, cur))
    && now == Without(pl, t, va, cur)
  }

  lemma SweptStart(pl: PageLen, t: map<Page, Pin>, va: Address)
    ensures Swept(pl, t, t, va, va)
  {
  }

  /** Tracking survives dropping pages. */
  lemma WithoutTracks(pl: PageLen, t: map<Page, Pin>, va: Address, end: nat)
    requires Tracks(pl, t)
    ensures Tracks(pl, Without(pl, t, va, end)) && Without(pl, t, va, end).Keys <= t.Keys
  {
  }

  /** Reached addresses before next are those before cur and those in cur's page. */
  lemma HitNext(pl: PageLen, s: Address, va: Address, cur: Address, level: nat, base: nat, next: nat)
    requires Consistent(pl) && Bounds(pl, cur, level, base, next) && va <= cur
    requires forall a: Address :: va <= a < cur ==> Mapped(pl, a)
    requires Mapped(pl, s) && LevelOf(pl, s) >= 0
    ensures Hit(pl, s, va, next) <==>
              Hit(pl, s, va, cur) || (pl(s) == pl(base) && NumAt(s, level) == NumAt(base, level))
  {
    hide Shr, Low, Pow2, LengthToLevel;
    if a: Address :| Reached(pl, va, next, a) && OnPage(pl, s, a) {
      if a < cur {
        assert Reached(pl, va, cur, a);
      } else {
        assert pl(a) == pl(s);
      }
    }
    if a: Address :| Reached(pl, va, cur, a) && OnPage(pl, s, a) {
      assert Reached(pl, va, next, a);
    }
    if pl(s) == pl(base) && NumAt(s, level) == NumAt(base, level) {
      assert Reached(pl, va, next, cur) && OnPage(pl, s, cur);
    }
  }

  lemma NotOnNext(pl: PageLen, a: Address, cur: Address, level: nat, base: nat, next: nat)
    requires Bounds(pl, cur, level, base, next) && a < next
    requires a < cur ==> !OnPage(pl, a, cur)
    ensures !OnPage(pl, a, next)
  {
    var l := LevelOf(pl, a);
    if l >= 0 {
      if a < cur {
        ShrMono(a, cur, BitIdx(l));
        ShrMono(cur, next, BitIdx(l));
      }
    }
  }

  /** Dropping cur's page takes the sweep to the next page. */
  lemma SweptNext(pl: PageLen, t: map<Page, Pin>, now: map<Page, Pin>, va: Address, cur: Address, level: nat,
                  base: nat, next: nat)
    requires Consistent(pl) && Tracks(pl, t) && Swept(pl, t, now, va, cur)
    requires Bounds(pl, cur, level, base, next)
    ensures Swept(pl, t, now - {Slot(pl, base)}, va, next)
  {
    hide Shr, Low, Pow2, LengthToLevel, Hit, OnPage;
    forall a: Address | va <= a < next
      ensures Mapped(pl, a) && !OnPage(pl, a, next)
    {
      NotOnNext(pl, a, cur, level, base, next);
    }
    var after := now - {Slot(pl, base)};
    forall x | x in t
      ensures x in after <==> x in Without(pl, t, va, next)
    {
      HitNext(pl, t[x].va, va, cur, level, base, next);
      if x == Slot(pl, base) {
        SlotsMeet(pl, t[x].va, base);
      } else if pl(t[x].va) == pl(base) {
        SamePhysicalPage(t[x].va, base, level, level);
      }
    }
    assert after == Without(pl, t, va, next);
  }

  /** When the sweep stops, at the end of the range or at a hole, all reached pages are gone. */
  lemma SweptEnd(pl: PageLen, t: map<Page, Pin>, now: map<Page, Pin>, va: Address, cur: Address, end: nat,
                 last: Address, level: nat, base: nat)
    requires Consistent(pl) && Tracks(pl, t) && Swept(pl, t, now, va, cur)
    requires cur < end ==> !Mapped(pl, cur)
    requires va < cur ==> va <= last < end && Bounds(pl, last, level, base, cur)
    ensures now == Without(pl, t, va, end)
  {
    hide Shr, Low, Pow2, LengthToLevel;
    forall x | x in t
      ensures Hit(pl, t[x].va, va, cur) <==> Hit(pl, t[x].va, va, end)
    {
      var s := t[x].va;
      if a: Address :| Reached(pl, va, cur, a) && OnPage(pl, s, a) {
        if a < end {
          assert Reached(pl, va, end, a);
        } else {
          assert pl(a) == pl(s);
          assert Reached(pl, va, end, last) && OnPage(pl, s, last);
        }
      }
      if a: Address :| Reached(pl, va, end, a) && OnPage(pl, s, a) {
        assert Reached(pl, va, cur, a);
      }
    }
  }

  /** Since the start of a sweep, entries became stale exactly where it dropped 4KB pages. */
  ghost predicate StaleSince(t: map<Page, Pin>, now: map<Page, Pin>, mem0: Mem, tree0: Tree, mem: Mem, tree: Tree)
  {
    forall q: nat :: Stale(mem, tree, q) <==> Stale(mem0, tree0, q) || (Page(0, q) in t && Page(0, q) !in now)
  }

  lemma StaleStart(t: map<Page, Pin>, mem: Mem, tree: Tree)
    ensures StaleSince(t, t, mem, tree, mem, tree)
  {
  }

  lemma StaleMore(t: map<Page, Pin>, now: map<Page, Pin>, after: map<Page, Pin>,
                  mem0: Mem, tree0: Tree, mem1: Mem, tree1: Tree, mem2: Mem, tree2: Tree)
    requires StaleSince(t, now, mem0, tree0, mem1, tree1) && StaleSince(now, after, mem1, tree1, mem2, tree2)
    requires after.Keys <= now.Keys <= t.Keys
    ensures StaleSince(t, after, mem0, tree0, mem2, tree2)
  {
    hide Stale;
  }

  /** Dropping the one reference to a page makes its entry stale if it is a 4KB page. */
  lemma DroppedStale(pl: PageLen, t: map<Page, Pin>, mem: Mem, tree: Tree, mem': Mem, tree': Tree,
                     p: nat, level: nat, after: map<Page, Pin>)
    requires Tracks(pl, t) && StaleAfter(mem, tree, mem', tree', t, p, level)
    requires after == if Covering(p, level) in t then UnpinIn(t, Covering(p, level)) else t
    ensures StaleSince(t, after, mem, tree, mem', tree')
  {
    hide Stale;
    assert Covering(p, 0) == Page(0, p);
  }

  /** The sweep has not yet touched the page it comes to. */
  lemma NextStale(pl: PageLen, t: map<Page, Pin>, now: map<Page, Pin>, va: Address, cur: Address, level: nat,
                  base: nat, next: nat,
                  mem0: Mem, tree0: Tree, mem: Mem, tree: Tree)
    requires Consistent(pl) && Tracks(pl, t) && Swept(pl, t, now, va, cur)
    requires Bounds(pl, cur, level, base, next)
    requires StaleSince(t, now, mem0, tree0, mem, tree)
    ensures OnStale(pl, mem, tree, base) <==> OnStale(pl, mem0, tree0, base)
    ensures forall a: Address :: cur <= a < next ==> (OnStale(pl, mem0, tree0, a) <==> OnStale(pl, mem0, tree0, base))
  {
    hide Shr, Low, Pow2, LengthToLevel, Stale;
    forall a: Address | base <= a < next
      ensures OnStale(pl, mem0, tree0, a) <==> OnStale(pl, mem0, tree0, base)
    {
      if level == 0 {
        SamePa(a, base);
      }
    }
    if OnStale(pl, mem, tree, base) && !OnStale(pl, mem0, tree0, base) {
      NumIsUp(Pa(pl, base), 0);
      var x := Slot(pl, base);
      var s := t[x].va;
      SlotsMeet(pl, s, base);
      var a: Address :| Reached(pl, va, cur, a) && OnPage(pl, s, a);
      OnSamePage(pl, s, a, cur);
      assert false;
    }
  }

  lemma OnSamePage(pl: PageLen, s: Address, a: Address, b: Address)
    requires Consistent(pl) && Mapped(pl, s) && OnPage(pl, s, a) && OnPage(pl, s, b)
    ensures OnPage(pl, a, b)
  {
    assert pl(a) == pl(s);
  }

  /** Addresses of one 4KB page have the same physical page. */
  lemma SamePa(a: Address, b: Address)
    requires a < SPAN && b < SPAN && NumAt(a, 0) == NumAt(b, 0)
    ensures PaOf(a, 0) < SPAN && PaOf(b, 0) < SPAN && PageNo(PaOf(a, 0)) == PageNo(PaOf(b, 0))
  {
    PaBasics(a, 0);
    PaBasics(b, 0);
    SamePhysicalPage(a, b, 0, 0);
    NumIsUp(PaOf(a, 0), 0);
    NumIsUp(PaOf(b, 0), 0);
  }
}
