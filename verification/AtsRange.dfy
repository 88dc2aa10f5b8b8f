/** Invalidation of an address range: covering it with naturally aligned power-of-two chunks,
    and the size-in-address encoding of a chunk (section 10.2.3.2 of the PCI Express Base
    Specification). */
module AtsRange {
  import opened AddressBits
  import opened PageTableSpec
  import opened PageTableMap
  import opened PhysicalMap
  import opened Translation
  import opened TranslationHistory
  import opened HostMemory

  const WORD: nat := 0x1_0000_0000_0000_0000

  // ---------------------------------------------------------------- covering

  /** Halvings, rounded up, that take n to 1. */
  function Log(n: nat): nat
  {
    if n <= 1 then 0 else 1 + Log((n + 1) / 2)
  }

  /** That is the least exponent whose power of two is not below n. */
  lemma {:induction false} LogIsCeiling(n: nat, k: nat)
    ensures Log(n) <= k <==> n <= Pow2(k)
    decreases n
  {
    if n > 1 {
      if k > 0 {
        LogIsCeiling((n + 1) / 2, k - 1);
      }
    }
  }

  lemma LogFrom(n: nat, k: nat)
    requires n <= Pow2(k) && (k > 0 ==> Pow2(k - 1) < n)
    ensures k == Log(n)
  {
    LogIsCeiling(n, k);
    if k > 0 {
      LogIsCeiling(n, k - 1);
    }
  }

  /** Integer ceiling of log2, by shifting. */
  method Ilog2Ceil(n: nat) returns (k: nat)
    requires n < WORD
    ensures k == Log(n)
  {
    if n <= 1 {
      return 0;
    }
    var shift, b := 1, n - 1;
    while b / 2 != 0
      invariant shift >= 1 && b >= 1
      invariant b * Pow2(shift - 1) <= n - 1 < (b + 1) * Pow2(shift - 1)
      decreases b
    {
      HalfStep(b, Pow2(shift - 1), n - 1);
      b := b / 2;
      shift := shift + 1;
    }
    LogFrom(n, shift);
    k := shift;
  }

  lemma HalfStep(b: nat, p: nat, m: nat)
    requires b * p <= m < (b + 1) * p
    ensures b / 2 * (2 * p) <= m < (b / 2 + 1) * (2 * p)
  {
    assert b / 2 * (2 * p) == b / 2 * 2 * p;
    assert b / 2 * 2 <= b < b / 2 * 2 + 2;
    Scale(b / 2 * 2, b, p);
    Scale(b + 1, b / 2 * 2 + 2, p);
    assert (b / 2 + 1) * (2 * p) == (b / 2 * 2 + 2) * p;
  }

  lemma Scale(a: nat, b: nat, p: nat)
    requires a <= b
    ensures a * p <= b * p
  {
    assert (b - a) * p >= 0;
  }

  /** A chunk is its start and its size. */
  datatype Chunk = Chunk(start: nat, bytes: nat)

  /** Round down to a multiple of a power of two. */
  function RoundDown(a: nat, k: nat): (r: nat)
    ensures r <= a
  {
    SubLow(a, k);
    a - Low(a, k)
  }

  lemma RoundDownIs(a: nat, k: nat)
    ensures Low(RoundDown(a, k), k) == 0
    ensures RoundDown(a, k) <= a < RoundDown(a, k) + Pow2(k)
  {
    SubLow(a, k);
    LowBound(a, k);
  }

  lemma AlignedMultiples(a: nat, b: nat, k: nat)
    requires Low(a, k) == 0 && Low(b, k) == 0 && a < b
    ensures a + Pow2(k) <= b
    ensures b < a + 2 * Pow2(k) ==> b == a + Pow2(k)
    ensures b < a + 3 * Pow2(k) ==> b == a + Pow2(k) || b == a + 2 * Pow2(k)
  {
    LowShr(a, k);
    LowShr(b, k);
    var x, y, p := Shr(a, k), Shr(b, k), Pow2(k);
    Multiples(x, y, p);
  }

  lemma Multiples(x: nat, y: nat, p: nat)
    requires x * p < y * p && p > 0
    ensures x * p + p <= y * p
    ensures y * p < x * p + 2 * p ==> y * p == x * p + p
    ensures y * p < x * p + 3 * p ==> y * p == x * p + p || y * p == x * p + 2 * p
  {
    if y <= x {
      Scale(y, x, p);
    }
    Scale(x + 1, y, p);
    assert (x + 1) * p == x * p + p && (x + 2) * p == x * p + 2 * p && (x + 3) * p == x * p + 3 * p;
    if y > x + 1 {
      Scale(x + 2, y, p);
    }
    if y > x + 2 {
      Scale(x + 3, y, p);
    }
  }

  /** Bytes of the range in whole 4KB units. */
  function Pages(length: nat): nat
  {
    (length + 4095) / 4096
  }

  /** The range and the rounding above it stay below 2^64. */
  predicate NoWrap(va: nat, length: nat, k: nat)
  {
    va + Pages(length) * 4096 + Pow2(12 + k) <= WORD
  }

  /** A chunk of 2^k pages at a multiple of its size. */
  ghost predicate Natural(c: Chunk, k: nat)
  {
    c.bytes == Pow2(12 + k) && Low(c.start, 12 + k) == 0 && c.start + c.bytes <= WORD
  }

  /** The chunks that are sent for a range: k is the ceiling of log2 of its pages. */
  ghost predicate Covers(chunks: seq<Chunk>, va: nat, length: nat, k: nat)
  {
    && (forall i :: 0 <= i < |chunks| ==> Natural(chunks[i], k))
    && |chunks| <= 2
    && (|chunks| == 2 ==> chunks[1].start == chunks[0].start + Pow2(12 + k))
    && (length > 0 ==> |chunks| > 0)
    && (|chunks| > 0 ==>
          && chunks[0].start <= va < chunks[0].start + Pow2(12 + k)
          && va + length <= chunks[|chunks| - 1].start + Pow2(12 + k))
  }

  /** The same in 64-bit arithmetic: none for a length within one page of 2^64. */
  function WordPages(length: Address): (n: nat)
    ensures n == if length + 4095 < WORD then Pages(length) else 0
  {
    Wrap(length + 4095) / 4096
  }

  /** The chunk size is a 64-bit number. */
  predicate SizeFits(length: Address)
  {
    12 + Log(WordPages(length)) < 64
  }

  /** What is sent for a range: chunks that cover it; nothing when rounding the end up passes the top
      of the 64-bit space, where the end wraps to the bottom; and no more than one page when even the
      number of pages wraps. */
  ghost predicate SentFor(chunks: seq<Chunk>, va: Address, length: Address)
  {
    if length + 4095 >= WORD then
      |chunks| <= 1 && forall i :: 0 <= i < |chunks| ==> chunks[i] == Chunk(RoundDown(va, 12), Pow2(12))
    else if NoWrap(va, length, Log(Pages(length))) then Covers(chunks, va, length, Log(Pages(length)))
    else chunks == []
  }

  /** Break the range down into aligned chunks of one size. */
  method CoverRange(va: Address, length: Address) returns (chunks: seq<Chunk>)
    requires SizeFits(length)
    ensures SentFor(chunks, va, length)
  {
    hide Pow2, Low, Log, Natural, RoundDown, Wrap, SentFor, WordPages;
    var pages := WordPages(length);
    var k := Ilog2Ceil(pages);
    var alignedBytes := Pow2(12 + k);
    var start := RoundDown(va, 12 + k);
    var end := RoundDown(Wrap(va + pages * 4096 + (alignedBytes - 1)), 12 + k);
    RangeEnds(va, length, k, start, end);
    chunks := Chunks(start, end, k);
    RangeSent(chunks, va, length, k, start, end);
  }

  /** The ends of what the loop goes through. */
  ghost predicate Between(va: Address, length: Address, k: nat, start: nat, end: nat)
  {
    && Low(start, 12 + k) == 0 && Low(end, 12 + k) == 0
    && start <= va < start + Pow2(12 + k) && end < start + 3 * Pow2(12 + k) && end <= WORD
    && if length + 4095 >= WORD then
         k == 0 && start == RoundDown(va, 12) && (start < end ==> end == start + Pow2(12))
       else if NoWrap(va, length, k) then va + length <= end else end <= start
  }

  lemma RangeEnds(va: Address, length: Address, k: nat, start: nat, end: nat)
    requires SizeFits(length) && k == Log(WordPages(length)) && start == RoundDown(va, 12 + k)
    requires end == RoundDown(Wrap(va + WordPages(length) * 4096 + (Pow2(12 + k) - 1)), 12 + k)
    ensures Between(va, length, k, start, end)
  {
    hide Pow2, Low, Log, RoundDown, Wrap, WordPages, Pages, NoWrap;
    LogIsCeiling(WordPages(length), k);
    var x := va + WordPages(length) * 4096 + (Pow2(12 + k) - 1);
    RoundDownIs(va, 12 + k);
    RoundDownIs(Wrap(x), 12 + k);
    WrapBound(x);
    LogZero();
    if length + 4095 >= WORD {
      NoPages(va, start, end);
    } else if NoWrap(va, length, k) {
      RangeBounds(va, length, k, start, end);
    } else {
      WrapsToNothing(va, length, k, start, end);
    }
  }

  lemma WrapBound(x: nat)
    ensures Wrap(x) < WORD
  {
  }

  lemma LogZero()
    ensures Log(0) == 0
  {
  }

  /** What the loop has sent. */
  lemma RangeSent(chunks: seq<Chunk>, va: Address, length: Address, k: nat, start: nat, end: nat)
    requires k == Log(WordPages(length)) && Between(va, length, k, start, end)
    requires |chunks| <= 2 && (chunks == [] <==> end <= start)
    requires start < end ==> start + |chunks| * Pow2(12 + k) == end
    requires forall i :: 0 <= i < |chunks| ==> Natural(chunks[i], k) && chunks[i].start == start + i * Pow2(12 + k)
    ensures SentFor(chunks, va, length)
  {
    hide Pow2, Low, Log, RoundDown, Wrap, WordPages, Pages, NoWrap;
    if length + 4095 >= WORD {
      hide Between, Natural, SentFor;
      OnlyPage(chunks, va, length, start, end);
    } else if NoWrap(va, length, k) {
      CoversRange(chunks, va, length, k, start, end);
    }
  }

  lemma CoversRange(chunks: seq<Chunk>, va: nat, length: nat, k: nat, start: nat, end: nat)
    requires start <= va < start + Pow2(12 + k) && va + length <= end
    requires |chunks| <= 2 && (chunks == [] <==> end <= start)
    requires start < end ==> start + |chunks| * Pow2(12 + k) == end
    requires forall i :: 0 <= i < |chunks| ==> Natural(chunks[i], k) && chunks[i].start == start + i * Pow2(12 + k)
    ensures Covers(chunks, va, length, k)
  {
    hide Pow2, Natural;
    assert |chunks| == 2 ==> 2 * Pow2(12 + k) == Pow2(12 + k) + Pow2(12 + k);
  }

  /** With no pages at all, the end is the start of the address's page or of the next. */
  lemma NoPages(va: Address, start: nat, end: nat)
    requires start == RoundDown(va, 12) && end == RoundDown(Wrap(va + (Pow2(12) - 1)), 12)
    ensures Low(start, 12) == 0 && Low(end, 12) == 0 && end <= WORD
    ensures start < end ==> end == start + Pow2(12)
  {
    hide Low, Wrap, Pow2, RoundDown;
    Pow11();
    var x := va + (Pow2(12) - 1);
    WrapOnce(x);
    RoundDownIs(va, 12);
    RoundDownIs(Wrap(x), 12);
    if start < end {
      AlignedMultiples(start, end, 12);
    }
  }

  lemma OnlyPage(chunks: seq<Chunk>, va: Address, length: Address, start: nat, end: nat)
    requires length + 4095 >= WORD && Between(va, length, 0, start, end)
    requires chunks == [] <==> end <= start
    requires start < end ==> start + |chunks| * Pow2(12) == end
    requires forall i :: 0 <= i < |chunks| ==> Natural(chunks[i], 0) && chunks[i].start == start + i * Pow2(12)
    ensures SentFor(chunks, va, length)
  {
    hide Low, Pow2, RoundDown;
    if |chunks| >= 2 {
      Scale(2, |chunks|, Pow2(12));
    }
  }

  /** An instance where nothing is sent: the two pages below the last one of the address space. */
  method WrappedRange() returns (chunks: seq<Chunk>)
    ensures chunks == []
  {
    hide Pow2, Log, Covers;
    SmallPowers();
    chunks := CoverRange(0xFFFF_FFFF_FFFF_D000, 0x2000);
  }

  /** The loop that sends the chunks. */
  method Chunks(from: nat, end: nat, k: nat) returns (chunks: seq<Chunk>)
    requires from < end ==>
              Low(from, 12 + k) == 0 && Low(end, 12 + k) == 0 && end < from + 3 * Pow2(12 + k) && end <= WORD
    ensures |chunks| <= 2 && (chunks == [] <==> end <= from)
    ensures from < end ==> from + |chunks| * Pow2(12 + k) == end
    ensures forall i :: 0 <= i < |chunks| ==> Natural(chunks[i], k) && chunks[i].start == from + i * Pow2(12 + k)
  {
    hide Pow2, Low, Natural;
    var start, alignedBytes := from, Pow2(12 + k);
    chunks := [];
    while start < end
      invariant start == from + |chunks| * alignedBytes
      invariant from < end ==> Low(start, 12 + k) == 0 && start <= end && |chunks| <= 2
      invariant end <= from ==> chunks == []
      invariant forall i :: 0 <= i < |chunks| ==> Natural(chunks[i], k) && chunks[i].start == from + i * alignedBytes
      decreases if start < end then end - start else 0
    {
      AlignedMultiples(start, end, 12 + k);
      NextAligned(start, 12 + k);
      IsNatural(start, k);
      chunks := chunks + [Chunk(start, alignedBytes)];
      start := start + alignedBytes;
    }
  }

  /** Truncation to 64 bits. */
  function Wrap(x: nat): nat
  {
    x % WORD
  }

  lemma WrapOnce(x: nat)
    ensures x < WORD ==> Wrap(x) == x
    ensures WORD <= x < 2 * WORD ==> Wrap(x) == x - WORD
  {
  }

  lemma PowLe(j: nat, k: nat)
    requires j <= k
    ensures Pow2(j) <= Pow2(k)
  {
    PowAdd(j, k - j);
    Scale(1, Pow2(k - j), Pow2(j));
  }

  lemma WrapsToNothing(va: nat, length: nat, k: nat, start: nat, end: nat)
    requires va < WORD && Pages(length) <= Pow2(k) && 12 + k < 64 && !NoWrap(va, length, k)
    requires start == RoundDown(va, 12 + k)
    requires end == RoundDown(Wrap(va + Pages(length) * 4096 + (Pow2(12 + k) - 1)), 12 + k)
    ensures end <= start
  {
    hide Low, Wrap, Pow2, Pages;
    var q, size := 12 + k, Pow2(12 + k);
    PowAdd(12, k);
    Pow11();
    Scale(Pages(length), Pow2(k), 4096);
    HalfWord();
    PowLe(q, 63);
    var x := va + Pages(length) * 4096 + (size - 1) - WORD;
    WrapOnce(x + WORD);
    RoundDownIs(x, q);
    RoundDownIs(va, q);
    hide RoundDown;
    if start < end {
      AlignedMultiples(start, end, q);
    }
  }

  lemma HalfWord()
    ensures Pow2(1) == 2 && Pow2(63) == 0x8000_0000_0000_0000
  {
    WordIsPow();
    assert Pow2(64) == 2 * Pow2(63);
    assert Pow2(1) == 2 * Pow2(0);
  }

  lemma IsNatural(start: nat, k: nat)
    requires Low(start, 12 + k) == 0 && start + Pow2(12 + k) <= WORD
    ensures Natural(Chunk(start, Pow2(12 + k)), k)
  {
  }

  lemma {:induction false} NextAligned(a: nat, k: nat)
    requires Low(a, k) == 0
    ensures Low(a + Pow2(k), k) == 0
    decreases k
  {
    if k > 0 {
      assert (a + Pow2(k)) / 2 == a / 2 + Pow2(k - 1);
      NextAligned(a / 2, k - 1);
    }
  }

  lemma RangeBounds(va: nat, length: nat, k: nat, start: nat, end: nat)
    requires Pages(length) <= Pow2(k)
    requires start == RoundDown(va, 12 + k)
    requires NoWrap(va, length, k)
    requires end == RoundDown(Wrap(va + Pages(length) * 4096 + (Pow2(12 + k) - 1)), 12 + k)
    ensures Low(start, 12 + k) == 0 && Low(end, 12 + k) == 0
    ensures start <= va < start + Pow2(12 + k)
    ensures start <= end < start + 3 * Pow2(12 + k)
    ensures end <= va + Pages(length) * 4096 + Pow2(12 + k)
    ensures va + length <= end
  {
    hide Low, Pow2, Wrap;
    var q, x := 12 + k, va + Pages(length) * 4096 + (Pow2(12 + k) - 1);
    RoundDownIs(va, q);
    RoundDownIs(x, q);
    WrapOnce(x);
    PowAdd(12, k);
    Pow11();
    Scale(Pages(length), Pow2(k), 4096);
  }

  // ---------------------------------------------------------------- encoding

  /** The n low bytes of a number, lowest first. */
  function ToBytes(v: nat, n: nat): (s: seq<nat>)
    ensures |s| == n && forall i :: 0 <= i < n ==> s[i] < 256
  {
    if n == 0 then [] else [v % 256] + ToBytes(v / 256, n - 1)
  }

  function FromBytes(s: seq<nat>): nat
  {
    if s == [] then 0 else s[0] + 256 * FromBytes(s[1..])
  }

  lemma {:induction false} ToFrom(v: nat, n: nat)
    requires v < Pow2(8 * n)
    ensures FromBytes(ToBytes(v, n)) == v
  {
    if n > 0 {
      Pow2Of8(n - 1);
      ToFrom(v / 256, n - 1);
      assert ToBytes(v, n)[1..] == ToBytes(v / 256, n - 1);
    }
  }

  lemma {:induction false} FromTo(s: seq<nat>)
    requires forall i :: 0 <= i < |s| ==> s[i] < 256
    ensures FromBytes(s) < Pow2(8 * |s|) && ToBytes(FromBytes(s), |s|) == s
  {
    hide Pow2;
    if s == [] {
      PowZero();
    } else {
      FromTo(s[1..]);
      Pow2Of8(|s| - 1);
      FirstByte(s[0], FromBytes(s[1..]), Pow2(8 * (|s| - 1)));
      assert s == [s[0]] + s[1..];
    }
  }

  lemma PowZero()
    ensures Pow2(0) == 1
  {
  }

  /** A byte in front of a number of lower than p values. */
  lemma FirstByte(b: nat, rest: nat, p: nat)
    requires b < 256
    ensures (b + 256 * rest) % 256 == b && (b + 256 * rest) / 256 == rest
    ensures rest < p ==> b + 256 * rest < 256 * p
  {
  }

  lemma Pow2Of8(n: nat)
    ensures Pow2(8 * (n + 1)) == 256 * Pow2(8 * n)
  {
    PowAdd(8, 8 * n);
    assert Pow2(4) == 16;
    PowAdd(4, 4);
  }

  function Reverse(s: seq<nat>): (r: seq<nat>)
    ensures |r| == |s| && forall i :: 0 <= i < |s| ==> r[i] == s[|s| - 1 - i]
  {
    seq(|s|, i requires 0 <= i < |s| => s[|s| - 1 - i])
  }

  /** bswap_64 */
  function ByteSwap(v: nat): nat
  {
    FromBytes(Reverse(ToBytes(v, 8)))
  }

  lemma SwapTwice(v: nat)
    requires v < WORD
    ensures ByteSwap(v) < WORD && ByteSwap(ByteSwap(v)) == v
  {
    var s := ToBytes(v, 8);
    FromTo(Reverse(s));
    assert Reverse(Reverse(s)) == s;
    WordIsPow();
    ToFrom(v, 8);
  }

  /** Byte i of a number, the lowest first. */
  lemma {:induction false} ByteOf(v: nat, n: nat, i: nat)
    requires i < n
    ensures ToBytes(v, n)[i] == v / Pow2(8 * i) % 256
    decreases n
  {
    hide Pow2;
    PowZero();
    if i > 0 {
      ByteOf(v / 256, n - 1, i - 1);
      Pow2Of8(i - 1);
      DivByte(v, Pow2(8 * (i - 1)));
    }
  }

  lemma DivByte(v: nat, p: nat)
    requires p > 0
    ensures v / 256 / p == v / (256 * p)
  {
    var q, r := v / 256, v % 256;
    var s, t := q / p, q % p;
    Regroup(p, s);
    assert v == (256 * p) * s + (256 * t + r);
    Quotient(v, 256 * p, s, 256 * t + r);
  }

  lemma Regroup(p: nat, s: nat)
    ensures 256 * (p * s) == (256 * p) * s
  {
  }

  lemma Quotient(v: nat, d: nat, q: nat, r: nat)
    requires d > 0 && v == d * q + r && r < d
    ensures v / d == q
  {
    var e := v / d;
    if e < q {
      Scale(e + 1, q, d);
    } else if e > q {
      Scale(q + 1, e, d);
    }
  }

  /** Swapping moves byte 7 - i to byte i. */
  lemma SwappedByte(v: nat, i: nat)
    requires v < WORD && i < 8
    ensures ByteSwap(v) / Pow2(8 * i) % 256 == v / Pow2(8 * (7 - i)) % 256
  {
    hide Pow2;
    var s := ToBytes(v, 8);
    FromTo(Reverse(s));
    ByteOf(ByteSwap(v), 8, i);
    ByteOf(v, 8, 7 - i);
  }

  lemma WordIsPow()
    ensures Pow2(64) == WORD
  {
    hide Pow2;
    Sizes();
    Four();
    PowAdd(30, 30);
    PowAdd(60, 4);
  }

  lemma Four()
    ensures Pow2(4) == 16
  {
  }

  /** The payload for a page: its address with the flags, and the size as a run of ones from
      bit 11, byte swapped. Address 0 is the invalid payload. */
  function PaEnc(pa: nat, pageLen: nat, flags: nat): nat
  {
    if pa == 0 then 0 else
      var pageMask := if pageLen < 4096 then WORD - 1 else pageLen / 4096 - 1;
      ByteSwap(Or(Or(RoundDown(pa, 12), flags), pageMask * 2048 % WORD))
  }

  datatype Payload = Payload(start: nat, bytes: nat, flags: nat)

  /** The number that bytes spell, the first one highest. */
  function BigEndian(s: seq<nat>): nat
  {
    if s == [] then 0 else 256 * BigEndian(s[..|s| - 1]) + s[|s| - 1]
  }

  /** The eight bytes of a payload word as they lie in memory, read in that order. */
  function OnTheWire(w: nat): nat
  {
    BigEndian(ToBytes(w, 8))
  }

  lemma {:induction false} BigIsReversed(s: seq<nat>)
    ensures BigEndian(s) == FromBytes(Reverse(s))
  {
    if s != [] {
      BigIsReversed(s[..|s| - 1]);
      assert Reverse(s)[1..] == Reverse(s[..|s| - 1]);
    }
  }

  lemma WireIsSwap(w: nat)
    ensures OnTheWire(w) == ByteSwap(w)
  {
    BigIsReversed(ToBytes(w, 8));
  }

  /** How the standard reads a payload: with bit 11 clear it names a 4KB page; otherwise the
      lowest clear address bit tells the size. */
  function Decode(w: nat): Payload
  {
    var v := OnTheWire(w);
    if Shr(v, 11) % 2 == 0 then Payload(RoundDown(v, 12), 4096, Low(v, 11))
    else
      var j := LowestClear(Shr(v, 12), 12);
      Payload(RoundDown(v, j + 1), Pow2(j + 1), Low(v, 11))
  }

  /** Position of the lowest clear bit, counting from k. */
  function LowestClear(v: nat, k: nat): (j: nat)
    ensures j >= k
  {
    if v % 2 == 0 then k else LowestClear(v / 2, k + 1)
  }

  lemma {:induction false} OrComm(a: nat, b: nat)
    ensures Or(a, b) == Or(b, a)
    decreases a + b
  {
    if a != 0 || b != 0 {
      OrComm(a / 2, b / 2);
    }
  }

  /** The run of ones that stands for 2^k pages. */
  function Run(k: nat): nat
  {
    (Pow2(k) - 1) * 2048
  }

  lemma RunBits(k: nat)
    ensures Run(k) < Pow2(11 + k) < Pow2(12 + k) && Low(Run(k), 11) == 0
  {
    PowAdd(11, k);
    PowAdd(12, k);
    Pow11();
    var m := Pow2(k) - 1;
    assert m * 2048 < 2048 * Pow2(k);
    LowOfShifted(m, 11);
  }

  lemma Pow11()
    ensures Pow2(11) == 2048 && Pow2(12) == 4096
  {
    assert Pow2(4) == 16;
    PowAdd(4, 4);
    PowAdd(8, 3);
    assert Pow2(3) == 8;
  }

  /** The parts of the payload do not overlap, so that or-ing them together adds them. */
  lemma PartsAdd(pa: nat, k: nat, flags: nat)
    requires Low(pa, 12 + k) == 0 && flags < 2048
    ensures Or(Or(RoundDown(pa, 12), flags), Run(k)) == pa + Run(k) + flags
  {
    hide Or, Low, Pow2, Shr;
    LowLess(pa, 12, 12 + k);
    Pow11();
    OrAligned(pa, flags, 12);
    RunBits(k);
    PowAdd(12, k);
    var q := 12 + k;
    var b := pa + flags;
    Scale(1, Pow2(k), 4096);
    AddLow(pa, flags, q);
    OrLow(b, Run(k), q);
    OrComm(flags, Run(k));
    OrAligned(Run(k), flags, 11);
    LowShr(Or(b, Run(k)), q);
    LowShr(pa, q);
  }

  lemma {:induction false} ClearAfterOnes(q: nat, k: nat, from: nat)
    requires Low(q, k + 1) == 0
    ensures LowestClear(q + Pow2(k) - 1, from) == from + k
    decreases k
  {
    if k > 0 {
      assert (q + Pow2(k) - 1) / 2 == q / 2 + Pow2(k - 1) - 1;
      ClearAfterOnes(q / 2, k - 1, from + 1);
    }
  }

  lemma {:induction false} LowOfShr(a: nat, j: nat, k: nat)
    requires Low(a, j + k) == 0
    ensures Low(Shr(a, j), k) == 0
    decreases j
  {
    if j > 0 {
      LowOfShr(a / 2, j - 1, k);
    }
  }

  /** What the bits of the assembled payload say. */
  lemma PayloadBits(pa: nat, k: nat, flags: nat)
    requires Low(pa, 12 + k) == 0 && flags < 2048
    ensures var v, q := pa + Run(k) + flags, Shr(pa, 11);
            && Low(q, k + 1) == 0
            && Low(v, 11) == flags && Shr(v, 11) == q + Pow2(k) - 1
            && RoundDown(v, 12 + k) == pa
  {
    hide Low, Pow2, Shr;
    var v, q := pa + Run(k) + flags, Shr(pa, 11);
    Pow11();
    LowOfShr(pa, 11, k + 1);
    LowLess(pa, 11, 12 + k);
    LowShr(pa, 11);
    var m := q + Pow2(k) - 1;
    assert pa + Run(k) == m * 2048;
    LowOfShifted(m, 11);
    AddLow(pa + Run(k), flags, 11);
    PowAdd(11, k);
    PowAdd(12, k);
    Scale(1, Pow2(k), 2048);
    AddLow(pa, Run(k) + flags, 12 + k);
  }

  /** Decoding the payload gives back the address, the size and the flags, for every page of a
      power-of-two size at its natural alignment other than address 0. */
  lemma DecodeEncodes(pa: nat, k: nat, flags: nat)
    requires 0 < pa && pa + Pow2(12 + k) <= WORD && Low(pa, 12 + k) == 0 && flags < 2048
    ensures Decode(PaEnc(pa, Pow2(12 + k), flags)) == Payload(pa, Pow2(12 + k), flags)
  {
    hide Low, Pow2, Shr, ByteSwap, OnTheWire, LowestClear, Or;
    var v, q := pa + Run(k) + flags, Shr(pa, 11);
    RunBits(k);
    PowAdd(11, k);
    PowAdd(12, k);
    Pow11();
    Scale(1, Pow2(k), 4096);
    assert Pow2(12 + k) / 4096 == Pow2(k);
    PartsAdd(pa, k, flags);
    PayloadBits(pa, k, flags);
    SwapTwice(v);
    WireIsSwap(PaEnc(pa, Pow2(12 + k), flags));
    assert OnTheWire(PaEnc(pa, Pow2(12 + k), flags)) == v;
    ReadSize(v, q, k);
  }

  lemma ReadSize(v: nat, q: nat, k: nat)
    requires Low(q, k + 1) == 0 && Shr(v, 11) == q + Pow2(k) - 1
    ensures k == 0 <==> Shr(v, 11) % 2 == 0
    ensures k > 0 ==> LowestClear(Shr(v, 12), 12) == 11 + k
  {
    if k > 0 {
      ShrShr(v, 11, 1);
      assert Shr(Shr(v, 11), 1) == Shr(v, 11) / 2;
      assert (q + Pow2(k) - 1) / 2 == q / 2 + Pow2(k - 1) - 1;
      ClearAfterOnes(q / 2, k - 1, 12);
    }
  }

  /** A length below a page sets every bit from bit 11 up. */
  lemma TinyPage(pa: nat, pageLen: nat, flags: nat)
    requires 0 < pa < WORD && pageLen < 4096 && flags < 2048
    ensures OnTheWire(PaEnc(pa, pageLen, flags)) == WORD - 2048 + flags
  {
    hide Low, Pow2, Or, ByteSwap, OnTheWire;
    var base := RoundDown(pa, 12);
    RoundDownIs(pa, 12);
    LowLess(base, 11, 12);
    Pow11();
    WordIsPow();
    OrAligned(base, flags, 11);
    AddLow(base, flags, 11);
    RoundedBound(base);
    OrOnes(base + flags, 11, 64);
    SwapTwice(WORD - 2048 + flags);
    WireIsSwap(PaEnc(pa, pageLen, flags));
  }

  /** Rounded down to a page, a 64-bit number leaves room for an offset. */
  lemma RoundedBound(base: nat)
    requires base < WORD && Low(base, 12) == 0
    ensures base + 4096 <= WORD
  {
    hide Low, Shr, Pow2;
    Pow11();
    LowShr(base, 12);
  }

  /** Or-ing all bits from k up to n leaves the k low bits. */
  lemma {:induction false} OrOnes(x: nat, k: nat, n: nat)
    requires k <= n && x < Pow2(n)
    ensures Pow2(k) <= Pow2(n) && Or(x, Pow2(n) - Pow2(k)) == Pow2(n) - Pow2(k) + Low(x, k)
    decreases n
  {
    hide Or;
    if k == 0 {
      PowLe(k, n);
      OrAll(x, n);
    } else {
      OrOnes(x / 2, k - 1, n - 1);
      OrTop(x, Pow2(n) - Pow2(k), Pow2(n - 1) - Pow2(k - 1), Low(x / 2, k - 1), Low(x, k));
    }
  }

  /** One bit more, with the numbers as they come. */
  lemma OrTop(x: nat, m: nat, half: nat, low: nat, more: nat)
    requires m == 2 * half && Or(x / 2, half) == half + low && more == x % 2 + 2 * low
    ensures Or(x, m) == m + more
  {
    EvenOr(x, half);
  }

  lemma {:induction false} OrAll(x: nat, n: nat)
    requires x < Pow2(n)
    ensures Or(x, Pow2(n) - 1) == Pow2(n) - 1
    decreases n
  {
    if n > 0 {
      var p := Pow2(n - 1);
      OrAll(x / 2, n - 1);
      OddOr(x, p - 1);
      hide Or;
      assert Pow2(n) - 1 == 2 * (p - 1) + 1;
    }
  }

  lemma OddOr(x: nat, half: nat)
    ensures Or(x, 2 * half + 1) == 1 + 2 * Or(x / 2, half)
  {
  }

  lemma EvenOr(x: nat, half: nat)
    ensures Or(x, 2 * half) == x % 2 + 2 * Or(x / 2, half)
  {
  }

  // ---------------------------------------------------------------- the hook

  /** The payload names a page with the address. */
  predicate Names(w: nat, a: nat)
  {
    var p := Decode(w);
    p.start <= a < p.start + p.bytes
  }

  ghost predicate NamedInSome(chunks: seq<Chunk>, a: nat)
  {
    exists i :: 0 <= i < |chunks| && Names(PaEnc(chunks[i].start, chunks[i].bytes, 0), a)
  }

  /** A natural chunk is named exactly, unless it is at address 0, which names page 0. */
  lemma NamedChunk(c: Chunk, k: nat)
    requires Natural(c, k)
    ensures Decode(PaEnc(c.start, c.bytes, 0))
         == if c.start == 0 then Payload(0, 4096, 0) else Payload(c.start, c.bytes, 0)
  {
    if c.start == 0 {
      ZeroPayload();
    } else {
      DecodeEncodes(c.start, k, 0);
    }
  }

  lemma ZeroPayload()
    ensures Decode(0) == Payload(0, 4096, 0)
  {
    ZeroBytes(8);
    ZeroShr(11);
    ZeroShr(12);
    ZeroLow(11);
    ZeroLow(12);
    ZerosFrom(Reverse(ToBytes(0, 8)));
    WireIsSwap(0);
  }

  lemma {:induction false} ZeroBytes(n: nat)
    ensures forall i :: 0 <= i < n ==> ToBytes(0, n)[i] == 0
  {
    if n > 0 {
      ZeroBytes(n - 1);
    }
  }

  lemma {:induction false} ZerosFrom(s: seq<nat>)
    requires forall i :: 0 <= i < |s| ==> s[i] == 0
    ensures FromBytes(s) == 0
  {
    if s != [] {
      ZerosFrom(s[1..]);
    }
  }

  lemma {:induction false} ZeroShr(k: nat)
    ensures Shr(0, k) == 0
  {
    if k > 0 {
      ZeroShr(k - 1);
    }
  }

  lemma {:induction false} ZeroLow(k: nat)
    ensures Low(0, k) == 0
  {
    if k > 0 {
      ZeroLow(k - 1);
    }
  }

  /** What a chunk's payload names. */
  ghost predicate Reads(c: Chunk, size: nat)
  {
    && c.bytes == size
    && Decode(PaEnc(c.start, c.bytes, 0)) == if c.start == 0 then Payload(0, 4096, 0) else Payload(c.start, size, 0)
  }

  lemma NamedBy(c: Chunk, size: nat, a: nat)
    requires Reads(c, size) && size >= 4096
    ensures Names(PaEnc(c.start, c.bytes, 0), a) <==> c.start <= a < c.start + (if c.start == 0 then 4096 else size)
  {
    hide Decode, PaEnc;
  }

  /** The payloads sent for a range invalidate every byte of it exactly when the range is one
      page or starts no lower than its chunk size: a chunk at address 0 is sent as the invalid
      payload. */
  lemma InvalidationCovers(chunks: seq<Chunk>, va: nat, length: nat)
    requires length > 0 && Covers(chunks, va, length, Log(Pages(length)))
    ensures (forall a: nat :: va <= a < va + length ==> NamedInSome(chunks, a))
       <==> va >= Pow2(12 + Log(Pages(length))) || length <= 4096
  {
    hide Low, Pow2, Decode, PaEnc, Log, Natural, Names;
    var k := Log(Pages(length));
    var size := Pow2(12 + k);
    OnePage(length);
    forall i | 0 <= i < |chunks|
      ensures Reads(chunks[i], size)
    {
      NamedChunk(chunks[i], k);
      SizeOf(chunks[i], k);
    }
    StartsAtZero(chunks[0], va, k);
    hide Reads;
    if va >= size || length <= 4096 {
      forall a: nat | va <= a < va + length
        ensures NamedInSome(chunks, a)
      {
        var i := if a < chunks[0].start + size then 0 else 1;
        NamedBy(chunks[i], size, a);
      }
    } else {
      var a := if va < 4096 then 4096 else va;
      forall i | 0 <= i < |chunks|
        ensures !Names(PaEnc(chunks[i].start, chunks[i].bytes, 0), a)
      {
        NamedBy(chunks[i], size, a);
      }
      assert !NamedInSome(chunks, a);
    }
  }

  lemma SizeOf(c: Chunk, k: nat)
    requires Natural(c, k)
    ensures c.bytes == Pow2(12 + k)
  {
  }

  lemma OnePage(length: nat)
    requires length > 0
    ensures var size := Pow2(12 + Log(Pages(length)));
            && size >= 4096
            && (length <= 4096 <==> Log(Pages(length)) == 0)
            && (length <= 4096 <==> size == 4096)
  {
    var k := Log(Pages(length));
    LogIsCeiling(Pages(length), 0);
    PowAdd(12, k);
    Pow11();
    if k > 0 {
      assert Pow2(k) == 2 * Pow2(k - 1);
      Scale(2, Pow2(k), 4096);
    }
  }

  /** The first chunk is at address 0 exactly when the range starts below the chunk size. */
  lemma StartsAtZero(c: Chunk, va: nat, k: nat)
    requires Natural(c, k) && c.start <= va < c.start + Pow2(12 + k)
    ensures c.start == 0 <==> va < Pow2(12 + k)
  {
    ZeroLow(12 + k);
    if c.start > 0 {
      AlignedMultiples(0, c.start, 12 + k);
    }
  }

  /** An instance that fails: invalidating the two pages at 0x1000 leaves out the first. */
  lemma LowRangeMissed()
    ensures var chunks := [Chunk(0, 0x2000), Chunk(0x2000, 0x2000)];
            Covers(chunks, 0x1000, 0x2000, Log(Pages(0x2000))) && !NamedInSome(chunks, 0x1000)
  {
    hide Low, Pow2, Decode, PaEnc, Log, Natural, Names;
    var a, b := Chunk(0, 0x2000), Chunk(0x2000, 0x2000);
    SmallPowers();
    ZeroLow(13);
    NextAligned(0, 13);
    IsNatural(0, 1);
    IsNatural(0x2000, 1);
    NamedChunk(a, 1);
    NamedChunk(b, 1);
    NamedBy(a, 0x2000, 0x1000);
    NamedBy(b, 0x2000, 0x1000);
    var chunks := [a, b];
    assert forall i :: 0 <= i < |chunks| ==> chunks[i] == a || chunks[i] == b;
  }

  lemma SmallPowers()
    ensures Pow2(13) == 0x2000 && Log(2) == 1
  {
    Pow11();
    assert Pow2(13) == 2 * Pow2(12);
    assert Log(2) == 1 + Log(1);
  }

  /** Send the invalidation requests. */
  method SendAll(chunks: seq<Chunk>) returns (sent: seq<nat>)
    ensures |sent| == |chunks|
    ensures forall i :: 0 <= i < |sent| ==> sent[i] == PaEnc(chunks[i].start, chunks[i].bytes, 0)
  {
    hide PaEnc;
    sent := [];
    var i := 0;
    while i < |chunks|
      invariant 0 <= i <= |chunks| && |sent| == i
      invariant forall j :: 0 <= j < i ==> sent[j] == PaEnc(chunks[j].start, chunks[j].bytes, 0)
    {
      sent := sent + [PaEnc(chunks[i].start, chunks[i].bytes, 0)];
      i := i + 1;
    }
  }

  /** What happens when a range is unmapped: its chunks are invalidated at the device, and its
      pages dropped from the table. */
  method UnmapHook(t: PaTable, pl: PageLen, va: Address, length: Address, active: bool)
    returns (sent: seq<nat>, chunks: seq<Chunk>, r: Outcome)
    requires t.Valid() && Consistent(pl) && Tracks(pl, t.table.Pages()) && SizeFits(length)
    modifies t`log, t.table
    ensures t.Valid() && Tracks(pl, t.table.Pages())
    ensures !active ==> sent == [] && r == Ok && t.table.Pages() == old(t.table.Pages())
    ensures active ==> SentFor(chunks, va, length)
    ensures active ==>
              && |sent| == |chunks|
              && forall i :: 0 <= i < |sent| ==> sent[i] == PaEnc(chunks[i].start, chunks[i].bytes, 0)
    ensures active && r == Ok ==>
              t.table.Pages() == Without(pl, old(t.table.Pages()), va, RangeEnd(va, length))
    ensures active ==> (r == Assertion <==>
              exists a: Address :: Reached(pl, va, RangeEnd(va, length), a)
                && OnStale(pl, old(t.table.mem), old(t.table.tree), a))
    ensures active && old(t.Tracked(pl)) ==>
              (r == Assertion <==> ReachesRetired(pl, old(t.log), va, RangeEnd(va, length)))
    ensures old(t.Tracked(pl)) && r == Ok ==> t.Tracked(pl)
    ensures active && r == Ok ==>
              forall pl': PageLen :: Consistent(pl') && ChangesReached(pl, pl', va, RangeEnd(va, length)) ==>
                Tracks(pl', t.table.Pages()) && (old(t.Tracked(pl)) ==> t.Tracked(pl'))
  {
    hide *;
    sent, chunks, r := [], [], Ok;
    if !active {
      return;
    }
    ghost var was, tracked := t.table.Pages(), t.Tracked(pl);
    chunks := CoverRange(va, length);
    sent := SendAll(chunks);
    r := t.InvalVaRange(pl, va, length);
    if r == Ok {
      ghost var end := RangeEnd(va, length);
      forall pl': PageLen | Consistent(pl') && ChangesReached(pl, pl', va, end)
        ensures Tracks(pl', t.table.Pages()) && (tracked ==> t.Tracked(pl'))
      {
        ReachedMayChange(pl, pl', was, va, end);
        t.Remapped(pl, pl');
      }
    }
  }
}
