/** Memory writes with PCIe byte enables, and the encoding of a byte range as one. */
module ByteWrite {
  import opened ByteEnables

  type byte = b: int | 0 <= b < 256

  /** A write request as sent by the simulator. */
  datatype Request = Request(addr: nat, dataBytes: nat, byteEn: bool, firstBe: Mask, lastBe: Mask)

  /** Byte j of the payload is written. */
  predicate Writes(r: Request, j: nat)
  {
    && j < r.dataBytes
    && (r.byteEn ==>
          && (j < 4 ==> Bit(r.firstBe, j))
          && (r.dataBytes > 4 && j >= r.dataBytes - 4 ==> Bit(r.lastBe, j - (r.dataBytes - 4))))
  }

  /** Memory after a write: the written bytes and no others. */
  ghost predicate Written(before: seq<byte>, after: seq<byte>, r: Request, at: nat, data: seq<byte>)
    requires |data| == r.dataBytes && at + r.dataBytes <= |before|
  {
    && |after| == |before|
    && forall i :: 0 <= i < |before| ==>
         after[i] == if at <= i && Writes(r, i - at) then data[i - at] else before[i]
  }

  /** Copy one byte if the lowest mask bit is set; shift the mask. */
  method BeCopy(dst: array<byte>, at: nat, b: byte, mask: Mask) returns (rest: Mask)
    requires at < dst.Length
    modifies dst
    ensures rest == mask / 2
    ensures dst[..] == if mask % 2 == 1 then old(dst[..])[at := b] else old(dst[..])
  {
    if mask % 2 == 1 {
      dst[at] := b;
    }
    rest := mask / 2;
  }

  /** A DWORD with the bytes of an enable mask copied in. */
  predicate Masked(before: seq<byte>, after: seq<byte>, at: nat, data: seq<byte>, from: nat, mask: Mask)
    requires from + 4 <= |data| && at + 4 <= |before|
  {
    && |after| == |before|
    && forall i :: 0 <= i < |before| ==>
         after[i] == if at <= i < at + 4 && Bit(mask, i - at) then data[from + i - at] else before[i]
  }

  /** Copy the enabled bytes of a DWORD. */
  method MaskedDword(dst: array<byte>, at: nat, data: seq<byte>, from: nat, mask: Mask)
    requires at + 4 <= dst.Length && from + 4 <= |data|
    modifies dst
    ensures Masked(old(dst[..]), dst[..], at, data, from, mask)
  {
    var m := BeCopy(dst, at, data[from], mask);
    m := BeCopy(dst, at + 1, data[from + 1], m);
    m := BeCopy(dst, at + 2, data[from + 2], m);
    m := BeCopy(dst, at + 3, data[from + 3], m);
  }

  method Copy(dst: array<byte>, at: nat, data: seq<byte>, from: nat, len: nat)
    requires at + len <= dst.Length && from + len <= |data|
    modifies dst
    ensures forall i :: 0 <= i < dst.Length ==>
              dst[i] == if at <= i < at + len then data[from + i - at] else old(dst[i])
  {
    var k := 0;
    while k < len
      invariant 0 <= k <= len
      invariant forall i :: 0 <= i < dst.Length ==>
                  dst[i] == if at <= i < at + k then data[from + i - at] else old(dst[i])
    {
      dst[at + k] := data[from + k];
      k := k + 1;
    }
  }

  datatype Status = Valid | Illegal

  /** Write the payload at an index of memory, masking the first and last DWORD. */
  method Write(mem: array<byte>, at: nat, r: Request, data: seq<byte>) returns (status: Status)
    requires |data| == r.dataBytes && at + r.dataBytes <= mem.Length
    modifies mem
    ensures status == Illegal <==> r.byteEn && (r.dataBytes % 4 != 0 || r.dataBytes == 0)
    ensures status == Illegal ==> mem[..] == old(mem[..])
    ensures status == Valid ==> Written(old(mem[..]), mem[..], r, at, data)
  {
    if r.byteEn && (r.dataBytes % 4 != 0 || r.dataBytes == 0) {
      return Illegal;
    }
    status := Valid;
    var dst, src, len := at, 0, r.dataBytes;
    var maskedLast := false;
    if r.byteEn {
      if r.firstBe != ALL {
        MaskedDword(mem, dst, data, src, r.firstBe);
        dst, src, len := dst + 4, src + 4, len - 4;
      }
      if r.dataBytes > 4 && r.lastBe != ALL {
        len := len - 4;
        maskedLast := true;
      }
    }
    Copy(mem, dst, data, src, len);
    AllOn();
    if maskedLast {
      MaskedDword(mem, dst + len, data, src + len, r.lastBe);
    }
  }

  lemma AllOn()
    ensures forall j: nat :: j < 4 ==> Bit(ALL, j)
  {
  }

  // ---------------------------------------------------------------- encoding a byte range

  /** Enables from byte s of a DWORD on, and those below byte e; none stands for all. */
  function From(s: nat): Mask
    requires s < 4
  {
    match s case 0 => 15 case 1 => 14 case 2 => 12 case 3 => 8
  }

  function Below(e: nat): Mask
    requires e < 4
  {
    match e case 0 => 0 case 1 => 1 case 2 => 3 case 3 => 7
  }

  function And(a: Mask, b: Mask): Mask
  {
    (if a % 2 == 1 && b % 2 == 1 then 1 else 0)
    + (if a / 2 % 2 == 1 && b / 2 % 2 == 1 then 2 else 0)
    + (if a / 4 % 2 == 1 && b / 4 % 2 == 1 then 4 else 0)
    + (if a / 8 % 2 == 1 && b / 8 % 2 == 1 then 8 else 0)
  }

  /** The request for len bytes from byte start of the line at base. */
  function RangeRequest(base: nat, start: nat, len: nat): (r: Request)
    requires len > 0
  {
    var fdw, ldw := start / 4, (start + len - 1) / 4;
    var firstBe, lastBe := From(start % 4), Below((start + len) % 4);
    var last: Mask := if lastBe == 0 then ALL else lastBe;
    if ldw == fdw then Request(base + 4 * fdw, 4 * (ldw - fdw + 1), true, And(firstBe, last), 0)
    else Request(base + 4 * fdw, 4 * (ldw - fdw + 1), true, firstBe, last)
  }

  lemma Bits(j: nat)
    requires j < 4
    ensures forall s: nat :: s < 4 ==> (Bit(From(s), j) <==> s <= j)
    ensures forall e: nat :: 0 < e < 4 ==> (Bit(Below(e), j) <==> j < e)
    ensures forall a: Mask, b: Mask :: Bit(And(a, b), j) <==> Bit(a, j) && Bit(b, j)
  {
    forall a: Mask, b: Mask
      ensures Bit(And(a, b), j) <==> Bit(a, j) && Bit(b, j)
    {
      AndBits(a, b);
    }
    forall s: nat | s < 4
      ensures Bit(From(s), j) <==> s <= j
    {
    }
    forall e: nat | 0 < e < 4
      ensures Bit(Below(e), j) <==> j < e
    {
    }
  }

  lemma AndBits(a: Mask, b: Mask)
    ensures forall j: nat :: j < 4 ==> (Bit(And(a, b), j) <==> Bit(a, j) && Bit(b, j))
  {
    Digits(a % 2 == 1 && b % 2 == 1, a / 2 % 2 == 1 && b / 2 % 2 == 1,
           a / 4 % 2 == 1 && b / 4 % 2 == 1, a / 8 % 2 == 1 && b / 8 % 2 == 1);
  }

  /** The bits of a mask put together from four. */
  lemma Digits(p: bool, q: bool, r: bool, s: bool)
    ensures var m := (if p then 1 else 0) + (if q then 2 else 0) + (if r then 4 else 0) + (if s then 8 else 0);
            && (m % 2 == 1 <==> p) && (m / 2 % 2 == 1 <==> q) && (m / 4 % 2 == 1 <==> r) && (m / 8 % 2 == 1 <==> s)
  {
  }

  /** The enables below the end of a range, where none stands for all. */
  lemma LastBits(e: nat, j: nat)
    requires e < 4 && j < 4
    ensures Bit(if Below(e) == 0 then ALL else Below(e), j) <==> e == 0 || j < e
  {
    AllOn();
    Bits(j);
  }

  /** Encoding a non-empty byte range and carrying out the request writes exactly the range. */
  lemma RangeWritten(base: nat, start: nat, len: nat, i: nat)
    requires len > 0
    ensures var r := RangeRequest(base, start, len);
            && r.addr % 4 == base % 4 && r.dataBytes % 4 == 0 && r.dataBytes > 0
            && base + start >= r.addr && base + start + len <= r.addr + r.dataBytes
            && ((r.addr <= i && Writes(r, i - r.addr)) <==> base + start <= i < base + start + len)
  {
    hide And, From, Below, Bit;
    var r := RangeRequest(base, start, len);
    var fdw, ldw := start / 4, (start + len - 1) / 4;
    Ends(start, len);
    if r.addr <= i < r.addr + r.dataBytes {
      var j := i - r.addr;
      if j < 4 {
        Bits(j);
        LastBits((start + len) % 4, j);
      }
      if j >= r.dataBytes - 4 {
        LastBits((start + len) % 4, j - (r.dataBytes - 4));
      }
    }
  }

  lemma Ends(start: nat, len: nat)
    requires len > 0
    ensures start == 4 * (start / 4) + start % 4
    ensures start + len == 4 * ((start + len - 1) / 4) + (if (start + len) % 4 == 0 then 4 else (start + len) % 4)
  {
  }

  /** Fill in the request for a byte range. */
  method EncodeRange(base: nat, start: nat, len: nat) returns (r: Request)
    requires len > 0
    ensures r == RangeRequest(base, start, len)
  {
    var fdw, ldw := start / 4, (start + len - 1) / 4;
    var firstBe, lastBe := From(start % 4), Below((start + len) % 4);
    if lastBe == 0 {
      lastBe := ALL;
    }
    if ldw == fdw {
      firstBe := And(firstBe, lastBe);
      lastBe := 0;
    }
    r := Request(base + 4 * fdw, 4 * (ldw - fdw + 1), true, firstBe, lastBe);
  }

  lemma InsideLine(base: nat, start: nat, len: nat, size: nat)
    requires len > 0 && start + len <= size && size % 4 == 0
    ensures var r := RangeRequest(base, start, len); base <= r.addr && r.addr + r.dataBytes <= base + size && r.byteEn
  {
  }

  /** A byte range of a line, sent as a byte-enabled write and carried out: memory takes the
      line's bytes in the range and keeps all others. */
  method WriteRange(mem: array<byte>, base: nat, line: seq<byte>, start: nat, len: nat) returns (status: Status)
    requires len > 0 && start + len <= |line| && |line| % 4 == 0 && base + |line| <= mem.Length
    modifies mem
    ensures status == Valid
    ensures forall i :: 0 <= i < mem.Length ==>
              mem[i] == if base + start <= i < base + start + len then line[i - base] else old(mem[i])
  {
    hide And, From, Below, RangeRequest, Writes;
    var r := EncodeRange(base, start, len);
    RangeWritten(base, start, len, base);
    InsideLine(base, start, len, |line|);
    var from := r.addr - base;
    ghost var before := mem[..];
    var payload := line[from..from + r.dataBytes];
    status := Write(mem, r.addr, r, payload);
    forall i | 0 <= i < mem.Length
      ensures mem[..][i] == if base + start <= i < base + start + len then line[i - base] else before[i]
    {
      RangeWritten(base, start, len, i);
    }
  }
}
