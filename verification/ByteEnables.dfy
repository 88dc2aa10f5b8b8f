/** PCIe byte enables and the byte count of a read completion
    (tables 2-38 and 2-39 in section 2.3.1.1 of the PCI Express Base Specification). */
module ByteEnables {
  import opened Wrappers

  /** A four-bit byte-enable mask. */
  type Mask = m: nat | m < 16

  const ALL: Mask := 15

  predicate Bit(m: Mask, k: nat)
  {
    match k
    case 0 => m % 2 == 1
    case 1 => m / 2 % 2 == 1
    case 2 => m / 4 % 2 == 1
    case 3 => m / 8 % 2 == 1
    case _ => false
  }

  /** Index of the lowest enabled byte. */
  function Lowest(m: Mask): (k: nat)
    requires m != 0
    ensures Bit(m, k)
    ensures forall j: nat :: j < k ==> !Bit(m, j)
  {
    if m % 2 == 1 then 0 else if m / 2 % 2 == 1 then 1 else if m / 4 % 2 == 1 then 2 else 3
  }

  /** Index of the highest enabled byte. */
  function Highest(m: Mask): (k: nat)
    requires m != 0
    ensures Bit(m, k)
    ensures forall j: nat :: Bit(m, j) ==> j <= k
  {
    if m / 8 % 2 == 1 then 3 else if m / 4 % 2 == 1 then 2 else if m / 2 % 2 == 1 then 1 else 0
  }

  /** The combinations of length and masks that the completion code accepts. */
  predicate Countable(lenDw: nat, first: Mask, last: Mask)
  {
    && lenDw > 0
    && (first == 0 ==> last == 0 && lenDw == 1)
    && (last == 0 ==> lenDw == 1)
  }

  /** A mask pair whose bytes are described by one mask when there is one DWORD. */
  predicate LegalMasks(lenDw: nat, first: Mask, last: Mask)
  {
    && Countable(lenDw, first, last)
    && (lenDw == 1 && last != 0 ==> first == ALL && last == ALL)
  }

  /** Is byte k of the transfer enabled? */
  predicate Enabled(lenDw: nat, first: Mask, last: Mask, k: nat)
  {
    && k < 4 * lenDw
    && (k < 4 ==> Bit(first, k))
    && (k >= 4 && k / 4 == lenDw - 1 ==> Bit(last, k % 4))
  }

  function FirstByte(lenDw: nat, first: Mask, last: Mask): nat
    requires LegalMasks(lenDw, first, last) && first != 0
  {
    Lowest(first)
  }

  function LastByte(lenDw: nat, first: Mask, last: Mask): nat
    requires LegalMasks(lenDw, first, last) && first != 0
  {
    4 * (lenDw - 1) + Highest(if last == 0 then first else last)
  }

  /** FirstByte and LastByte delimit the enabled bytes exactly. */
  lemma {:induction false} EnabledSpan(lenDw: nat, first: Mask, last: Mask)
    requires LegalMasks(lenDw, first, last) && first != 0
    ensures Enabled(lenDw, first, last, FirstByte(lenDw, first, last))
    ensures Enabled(lenDw, first, last, LastByte(lenDw, first, last))
    ensures forall k: nat :: Enabled(lenDw, first, last, k) ==>
              FirstByte(lenDw, first, last) <= k <= LastByte(lenDw, first, last)
  {
    var m: Mask := if last == 0 then first else last;
    assert Highest(m) < 4;
    if lenDw > 1 {
      assert (4 * (lenDw - 1) + Highest(m)) / 4 == lenDw - 1;
      assert (4 * (lenDw - 1) + Highest(m)) % 4 == Highest(m);
    }
    forall k: nat | Enabled(lenDw, first, last, k)
      ensures FirstByte(lenDw, first, last) <= k <= LastByte(lenDw, first, last)
    {
      if k >= 4 && k / 4 == lenDw - 1 {
        assert k % 4 <= Highest(last);
      }
    }
  }

  /** The byte count of a transfer: the span from its first to its last enabled byte;
      a zero-length read counts 1. */
  function Span(lenDw: nat, first: Mask, last: Mask): (n: int)
    requires Countable(lenDw, first, last)
  {
    if first == 0 then 1
    else 4 * lenDw - Lowest(first) - (3 - Highest(if last == 0 then first else last))
  }

  lemma LowestHalf(m: Mask)
    requires m != 0
    ensures m % 2 == 1 ==> Lowest(m) == 0
    ensures m % 2 == 0 ==> m / 2 != 0 && Lowest(m) == Lowest(m / 2) + 1
  {
  }

  lemma HighestDouble(m: Mask)
    requires m != 0
    ensures m / 8 % 2 == 1 ==> Highest(m) == 3
    ensures m / 8 % 2 == 0 ==> 2 * m < 16 && Highest(2 * m) == Highest(m) + 1
  {
  }

  /** The two counting loops. A mask combination that ends the simulator gives None. */
  method ByteCount(lenDw: nat, first: Mask, last: Mask) returns (r: Option<int>)
    ensures lenDw > 0 ==> (r.Some? <==> Countable(lenDw, first, last))
    ensures Countable(lenDw, first, last) ==> r == Some(Span(lenDw, first, last))
    ensures LegalMasks(lenDw, first, last) && first != 0 ==>
              r == Some(LastByte(lenDw, first, last) - FirstByte(lenDw, first, last) + 1)
  {
    if first == 0 {
      if last != 0 || lenDw != 1 {
        return None;
      }
      return Some(1);
    }
    var lastBe := last;
    if lastBe == 0 {
      if lenDw != 1 {
        return None;
      }
      lastBe := first;
    }

    hide Lowest, Highest;
    var count := 4 * lenDw;
    var f: Mask := first;
    while f % 2 == 0
      invariant f != 0
      invariant count == 4 * lenDw - Lowest(first) + Lowest(f)
      decreases f
    {
      LowestHalf(f);
      count := count - 1;
      f := f / 2;
    }
    LowestHalf(f);

    var l: Mask := lastBe;
    while l / 8 % 2 == 0
      invariant l != 0
      invariant count == 4 * lenDw - Lowest(first) - (Highest(l) - Highest(lastBe))
      decreases 16 - l
    {
      HighestDouble(l);
      count := count - 1;
      l := l * 2;
    }
    HighestDouble(l);
    return Some(count);
  }

  /** The loop that counts the disabled bytes at the start of a completion. */
  method LowerAddrByteOffset(first: Mask) returns (offset: nat)
    ensures first == 0 ==> offset == 0
    ensures first != 0 ==> offset == Lowest(first)
  {
    offset := 0;
    if first == 0 {
      return;
    }
    var f: Mask := first;
    while f % 2 == 0
      invariant f != 0
      invariant offset + Lowest(f) == Lowest(first)
      decreases f
    {
      offset := offset + 1;
      f := f / 2;
    }
  }
}
