/** The XOR mapping between virtual and simulated physical addresses. */
module PhysicalMap {
  import opened AddressBits
  import opened PageTableSpec

  /** The 48-bit address range of the table. */
  const SPAN: nat := 0x1_0000_0000_0000

  /** Lowest address bit of a page number at a level. */
  function BitIdx(level: nat): nat
  {
    12 + 9 * level
  }

  /** Bytes in a page of a level. */
  function PageSize(level: nat): nat
  {
    Pow2(BitIdx(level))
  }

  /** The bits flipped for a page size: all from the page's lowest number bit up to bit 46. */
  function XorMask(level: nat): nat
    requires level <= 2
  {
    match level
    case 0 => 0x7FFF_FFFF_F000
    case 1 => 0x7FFF_FFE0_0000
    case 2 => 0x7FFF_C000_0000
  }

  function PaOf(va: nat, level: nat): nat
    requires level <= 2
  {
    Xor(va, XorMask(level))
  }

  /** Offset of an address in its page. */
  function Offset(a: nat, level: nat): nat
  {
    Low(a, BitIdx(level))
  }

  /** Number of the page of a level that contains an address. */
  function NumAt(a: nat, level: nat): nat
  {
    Shr(a, BitIdx(level))
  }

  lemma {:induction false} UpIsShr(q: nat, k: nat)
    ensures Up(q, k) == Shr(q, 9 * k)
  {
    if k > 0 {
      UpIsShr(q, k - 1);
      ShrShr(q, 9 * (k - 1), 9);
      Shr9(Shr(q, 9 * (k - 1)));
    }
  }

  lemma UpNum(a: nat, level: nat)
    ensures NumAt(a, level) == Up(a / 4096, level)
  {
    Shr12(a);
    ShrShr(a, 12, 9 * level);
    UpIsShr(a / 4096, level);
  }

  /** For 48-bit addresses the table's page numbers are the address's. */
  lemma NumIsUp(a: Address, level: nat)
    requires a < SPAN
    ensures PageNo(a) == a / 4096
    ensures Up(PageNo(a), level) == NumAt(a, level)
  {
    var q := a / 4096;
    UpDivides(q);
    assert q == q % 512 + 512 * (q / 512);
    assert q / 512 == q / 512 % 512 + 512 * (q / 512 / 512);
    assert q / 512 / 512 == q / 512 / 512 % 512 + 512 * (q / 512 / 512 / 512);
    assert q / 512 / 512 / 512 < 512;
    UpNum(a, level);
  }

  /** The address is its page's base plus its offset. */
  lemma Split(a: nat, level: nat)
    ensures a == NumAt(a, level) * PageSize(level) + Offset(a, level)
    ensures Offset(a, level) < PageSize(level)
  {
    LowShr(a, BitIdx(level));
  }

  /** Page numbers above 47 flipped bits: the mask inverts everything up to bit 46. */
  lemma MaskNum(level: nat, above: nat)
    requires level <= above <= 2
    ensures NumAt(XorMask(level), above) ==
              (match above case 0 => 0x7_FFFF_FFFF case 1 => 0x3FF_FFFF case _ => 0x1_FFFF)
  {
    var q := XorMask(level) / 4096;
    UpNum(XorMask(level), above);
    assert Up(q, 1) == q / 512;
    assert Up(q, 2) == q / 512 / 512;
  }

  lemma MaskBits(level: nat, above: nat)
    requires level <= above <= 2
    ensures NumAt(XorMask(level), above) == NumAt(XorMask(above), above)
    ensures Offset(XorMask(level), level) == 0
    ensures XorMask(level) < SPAN
  {
    MaskNum(level, above);
    MaskNum(above, above);
    MaskLow(level);
  }

  lemma MaskLow(level: nat)
    requires level <= 2
    ensures Offset(XorMask(level), level) == 0
  {
    hide Low, Shr, Pow2;
    Sizes();
    var m := match level case 0 => 0x7_FFFF_FFFF case 1 => 0x3FF_FFFF case _ => 0x1_FFFF;
    assert m * PageSize(level) == XorMask(level);
    LowOfShifted(m, BitIdx(level));
  }

  lemma Sizes()
    ensures PageSize(0) == 0x1000 && PageSize(1) == 0x20_0000 && PageSize(2) == 0x4000_0000
  {
    assert Pow2(4) == 16;
    assert Pow2(8) == 16 * Pow2(4);
    assert Pow2(12) == 16 * Pow2(8);
    assert Pow2(16) == 16 * Pow2(12);
    assert Pow2(20) == 16 * Pow2(16);
    assert Pow2(21) == 2 * Pow2(20);
    assert Pow2(24) == 8 * Pow2(21);
    assert Pow2(28) == 16 * Pow2(24);
    assert Pow2(30) == 4 * Pow2(28);
  }

  /** Mapping keeps offsets and 48-bit addresses, and is its own inverse. */
  lemma PaBasics(va: nat, level: nat)
    requires level <= 2
    ensures Offset(PaOf(va, level), level) == Offset(va, level)
    ensures PaOf(PaOf(va, level), level) == va
    ensures va < SPAN ==> PaOf(va, level) < SPAN
  {
    MaskBits(level, level);
    XorLow(va, XorMask(level), BitIdx(level));
    XorXor(va, XorMask(level));
    assert Pow2(48) == SPAN by {
      Sizes();
      assert Pow2(34) == 16 * Pow2(30);
      assert Pow2(38) == 16 * Pow2(34);
      assert Pow2(42) == 16 * Pow2(38);
      assert Pow2(46) == 16 * Pow2(42);
      assert Pow2(48) == 4 * Pow2(46);
    }
    if va < SPAN {
      XorBound(va, XorMask(level), 48);
    }
  }

  /** Physical pages count down from the top of each half of the 48-bit range: the offset in the page
      stays, and a page as far from the start of the half comes as far from its end. */
  lemma CountsDown(va: nat, level: nat)
    requires level <= 2
    ensures var half := 0x8000_0000_0000;
            var size := (match level case 0 => 0x1000 case 1 => 0x20_0000 case _ => 0x4000_0000);
            PaOf(va, level) == va / half * half + (half - size - (va % half - va % size)) + va % size
  {
    hide Low, Shr, Pow2, Xor, XorMask;
    var k, j := BitIdx(level), 35 - 9 * level;
    var n := NumAt(va, level);
    MaskBits(level, level);
    MaskNum(level, level);
    Sizes();
    Ones();
    XorLow(va, XorMask(level), k);
    XorShr(va, XorMask(level), k);
    XorOnes(n, j);
    LowShr(n, j);
    LowShr(va, k);
    LowShr(PaOf(va, level), k);
    FlippedPage(level, Shr(n, j), Low(n, j), Low(va, k), va, PaOf(va, level));
  }

  lemma FlippedPage(level: nat, high: nat, page: nat, offset: nat, va: nat, pa: nat)
    requires level <= 2
    requires var size := (match level case 0 => 0x1000 case 1 => 0x20_0000 case _ => 0x4000_0000);
             var pages := (match level case 0 => 0x8_0000_0000 case 1 => 0x400_0000 case _ => 0x2_0000);
             && page < pages && offset < size
             && va == (high * pages + page) * size + offset
             && pa == (high * pages + (pages - 1 - page)) * size + offset
    ensures var half := 0x8000_0000_0000;
            var size := (match level case 0 => 0x1000 case 1 => 0x20_0000 case _ => 0x4000_0000);
            pa == va / half * half + (half - size - (va % half - va % size)) + va % size
  {
    match level
    case 0 => assert va / 0x8000_0000_0000 == high && va % 0x1000 == offset;
    case 1 => assert va / 0x8000_0000_0000 == high && va % 0x20_0000 == offset;
    case _ => assert va / 0x8000_0000_0000 == high && va % 0x4000_0000 == offset;
  }

  lemma Ones()
    ensures Pow2(35) == 0x8_0000_0000 && Pow2(26) == 0x400_0000 && Pow2(17) == 0x2_0000
  {
    assert Pow2(4) == 16;
    assert Pow2(8) == 16 * Pow2(4);
    assert Pow2(12) == 16 * Pow2(8);
    assert Pow2(16) == 16 * Pow2(12);
    assert Pow2(17) == 2 * Pow2(16);
    assert Pow2(21) == 16 * Pow2(17);
    assert Pow2(25) == 16 * Pow2(21);
    assert Pow2(26) == 2 * Pow2(25);
    assert Pow2(30) == 16 * Pow2(26);
    assert Pow2(34) == 16 * Pow2(30);
    assert Pow2(35) == 2 * Pow2(34);
  }

  /** Two addresses mapped with different page sizes share a physical page of the larger size
      exactly when they share the virtual page of that size. */
  lemma SamePhysicalPage(a: nat, b: nat, level: nat, above: nat)
    requires level <= above <= 2
    ensures NumAt(PaOf(a, level), above) == NumAt(PaOf(b, above), above) <==> NumAt(a, above) == NumAt(b, above)
  {
    var k := BitIdx(above);
    MaskBits(level, above);
    XorShr(a, XorMask(level), k);
    XorShr(b, XorMask(above), k);
    if NumAt(PaOf(a, level), above) == NumAt(PaOf(b, above), above) {
      XorInjective(Shr(a, k), Shr(b, k), Shr(XorMask(above), k));
    }
  }

  /** Virtual pages of any two sizes that do not overlap map to physical pages that do not
      overlap. Page overlap is sharing the page number at the larger level. */
  lemma DisjointStaysDisjoint(a: nat, b: nat, la: nat, lb: nat)
    requires la <= 2 && lb <= 2
    requires var top := if la < lb then lb else la; NumAt(a, top) != NumAt(b, top)
    ensures var top := if la < lb then lb else la; NumAt(PaOf(a, la), top) != NumAt(PaOf(b, lb), top)
  {
    if la <= lb {
      SamePhysicalPage(a, b, la, lb);
    } else {
      SamePhysicalPage(b, a, lb, la);
    }
  }
}
