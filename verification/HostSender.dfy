/** The code that sends MMIO requests on the host-to-AFU bus, and the code that collects the
    payload of a write from a bus, both against the channel's specification. */
module HostSender {
  import opened Wrappers
  import opened ReadCompletion
  import opened HostStream

  class MmioSender {
    const c: Config
    const random: Oracle
    var queue: seq<MmioPkt>
    var dwRem: nat
    var lastCycle: int
    var draws: nat

    ghost predicate Valid()
      reads this
    {
      ValidConfig(c) && MmioOk(Abs())
    }

    /** The sender as the specification sees it. */
    ghost function Abs(): Mmio
      reads this
    {
      Mmio(queue, dwRem, lastCycle)
    }

    constructor (c: Config, random: Oracle)
      requires ValidConfig(c)
      ensures Valid() && this.c == c && this.random == random && draws == 0 && Abs() == Mmio([], 0, 0)
    {
      this.c, this.random := c, random;
      queue, dwRem, lastCycle, draws := [], 0, 0, 0;
    }

    /** A new request goes to the tail of the list. */
    method Push(p: MmioPkt)
      requires Valid() && ValidPkt(p)
      modifies this`queue
      ensures Valid() && Abs() == old(Abs()).(queue := old(queue) + [p])
    {
      queue := queue + [p];
    }

    /** Copy n words of a request to the bus behind the first hdrDw ones. */
    static method CopyWords(tdata: array<Dw>, hdrDw: nat, p: MmioPkt, from: nat, n: nat)
      requires hdrDw + n <= tdata.Length && from + n <= |p.words|
      requires tdata[hdrDw..] == Words(p, tdata.Length - hdrDw, 0, 0)
      modifies tdata
      ensures tdata[hdrDw..] == Words(p, tdata.Length - hdrDw, from, n)
    {
      for i := 0 to n
        invariant forall j :: hdrDw <= j < tdata.Length ==>
                  tdata[j] == if j - hdrDw < i then p.words[from + j - hdrDw] else 0
      {
        tdata[hdrDw + i] := p.words[from + i];
      }
    }

    static method Clear(tdata: array<Dw>, ghost p: MmioPkt)
      modifies tdata
      ensures forall k :: 0 <= k <= tdata.Length ==> tdata[k..] == Words(p, tdata.Length - k, 0, 0)
    {
      for i := 0 to tdata.Length
        invariant forall j :: 0 <= j < i ==> tdata[j] == 0
      {
        tdata[i] := 0;
      }
    }

    /** One call of the sender with a request waiting. Without a beat it has refused to start a
        packet; otherwise the bus holds the beat's words behind the header's place. */
    method SendRequest(cycle: int, tdata: array<Dw>) returns (tvalid: bool, tlast: bool, hdr: Option<MemHdr>)
      requires Valid() && queue != [] && tdata.Length == c.tdataDw
      modifies this, tdata
      ensures Valid()
      ensures var (refuse, drawn) := MmioRefuses(random, old(Abs()), old(draws), cycle);
              && draws == drawn && tvalid == !refuse
              && (refuse ==> Abs() == old(Abs()) && !tlast)
      ensures tvalid ==>
                var (m, b) := SendMmio(c, old(Abs()), cycle);
                && Abs() == m && hdr == b.hdr && tlast == b.last
                && tdata[if hdr.Some? then HDR_DW else 0..] == b.data
    {
      tvalid, tlast, hdr := false, false, None;
      if dwRem == 0 {
        if cycle - lastCycle < 63 {
          return;
        }
        var r := random(draws);
        draws := draws + 1;
        if r % 256 > 0xD0 {
          return;
        }
      }
      tvalid := true;
      lastCycle := cycle;
      hdr, tlast := Emit(tdata);
    }

    /** Put the next beat of the head request on the bus. */
    method Emit(tdata: array<Dw>) returns (hdr: Option<MemHdr>, tlast: bool)
      requires Valid() && queue != [] && tdata.Length == c.tdataDw
      modifies this`queue, this`dwRem, tdata
      ensures Valid()
      ensures var (m, b) := SendMmio(c, old(Abs()), lastCycle);
              && Abs() == m && hdr == b.hdr && tlast == b.last
              && tdata[if hdr.Some? then HDR_DW else 0..] == b.data
    {
      hide Words, MmioHdr;
      var p := queue[0];
      var startDw, hdrDw := 0, 0;
      hdr := None;
      if dwRem != 0 {
        startDw := p.width / 32 - dwRem;
      } else {
        hdr := Some(MmioHdr(p));
        dwRem := p.width / 8 / 4;
        hdrDw := HDR_DW;
      }
      Clear(tdata, p);
      tlast := false;
      if !p.write {
        tlast := true;
        dwRem := 0;
      } else {
        tlast := EmitWords(tdata, hdrDw, p, startDw);
      }
      if tlast {
        queue := queue[1..];
      }
    }

    /** Put the next words of a write on the bus, up to the end of the bus or of the write. */
    method EmitWords(tdata: array<Dw>, hdrDw: nat, p: MmioPkt, startDw: nat) returns (tlast: bool)
      requires hdrDw <= tdata.Length == c.tdataDw && startDw + dwRem <= |p.words|
      requires tdata[hdrDw..] == Words(p, tdata.Length - hdrDw, 0, 0)
      modifies this`dwRem, tdata
      ensures var lanes := c.tdataDw - hdrDw;
              var n := if tlast then old(dwRem) else lanes;
              && tlast == (old(dwRem) <= lanes)
              && dwRem == old(dwRem) - n && tdata[hdrDw..] == Words(p, lanes, startDw, n)
    {
      hide Words;
      tlast := false;
      var reqDw := dwRem;
      if reqDw <= c.tdataDw - hdrDw {
        tlast := true;
      } else {
        reqDw := c.tdataDw - hdrDw;
      }
      CopyWords(tdata, hdrDw, p, startDw, reqDw);
      dwRem := dwRem - reqDw;
    }
  }

  /** A DMA write header as unpacked from the stream. */
  datatype WriteHdr = WriteHdr(mem: MemHdr, dm: bool, addr64: bool, at: nat)

  /** The largest power-user and data-mover writes in bytes. */
  datatype Limits = Limits(maxWr: nat, maxDmWr: nat)

  /** DWORDs of the largest write of any kind. */
  function MaxDw(limits: Limits): nat
  {
    ((if limits.maxWr < limits.maxDmWr then limits.maxDmWr else limits.maxWr) + 3) / 4
  }

  /** What a write's header must be: a length that is not zero and within its limit, byte enables
      where the length has DWORDs for them, the short header for a short address, and an address that
      is no translation request. */
  predicate WriteOk(limits: Limits, h: WriteHdr)
  {
    && 0 < h.mem.lenBytes <= (if h.dm then limits.maxDmWr else limits.maxWr)
    && h.mem.firstBe != 0
    && (h.mem.lenBytes > 4 ==> h.mem.lastBe != 0)
    && (h.mem.lenBytes <= 4 && !h.dm ==> h.mem.lastBe == 0)
    && (!h.dm && h.mem.addr <= 0xFFFF_FFFF ==> !h.addr64)
    && (h.at == 0 || h.at == 2)
  }

  /** The collector of a write's payload. */
  class WriteCollector {
    const limits: Limits
    const payload: array<Dw>
    var hdr: MemHdr
    var nextDw: nat

    ghost predicate Valid()
      reads this, payload
    {
      && payload.Length == MaxDw(limits)
      && nextDw <= (hdr.lenBytes + 3) / 4 <= payload.Length
    }

    ghost function Abs(): Collector
      requires nextDw <= payload.Length
      reads this, payload
    {
      Collector(hdr, payload[..nextDw])
    }

    constructor (limits: Limits)
      ensures Valid() && this.limits == limits && fresh(payload) && Abs() == NoMem
    {
      this.limits := limits;
      payload := new Dw[MaxDw(limits)](_ => 0);
      hdr := MemHdr(false, 0, 0, 0, 0, 0);
      nextDw := 0;
    }

    /** Append n words of the bus to the payload. */
    method CopyIn(tdata: array<Dw>, hdrDw: nat, n: nat)
      requires nextDw + n <= payload.Length && hdrDw + n <= tdata.Length && tdata != payload
      modifies payload
      ensures payload[..nextDw + n] == old(payload[..nextDw]) + tdata[hdrDw..][..n]
    {
      ghost var got, data := payload[..nextDw], tdata[hdrDw..];
      for i := 0 to n
        invariant tdata[hdrDw..] == data
        invariant payload[..nextDw + i] == got + data[..i]
      {
        payload[nextDw + i] := tdata[hdrDw + i];
        assert payload[..nextDw + i + 1] == payload[..nextDw + i] + [data[i]];
        assert data[..i + 1] == data[..i] + [data[i]];
      }
    }

    /** The checks on a write's header, one by one. */
    static method CheckHeader(limits: Limits, h: WriteHdr) returns (ok: bool)
      ensures ok <==> WriteOk(limits, h)
      ensures !ok <==>
                || h.mem.lenBytes == 0 || h.mem.firstBe == 0
                || h.mem.lenBytes > (if h.dm then limits.maxDmWr else limits.maxWr)
                || (h.mem.lenBytes > 4 && h.mem.lastBe == 0)
                || (!h.dm && h.mem.lenBytes <= 4 && h.mem.lastBe != 0)
                || (!h.dm && h.addr64 && h.mem.addr < 0x1_0000_0000)
                || h.at == 1 || h.at > 2
    {
      var lenBytes := h.mem.lenBytes;
      if !h.dm && lenBytes > limits.maxWr {
        return false;
      }
      if h.dm && lenBytes > limits.maxDmWr {
        return false;
      }
      if lenBytes == 0 {
        return false;
      }
      if h.mem.firstBe == 0 {
        return false;
      }
      if lenBytes <= 4 && h.mem.lastBe != 0 && !h.dm {
        return false;
      }
      if lenBytes > 4 && h.mem.lastBe == 0 {
        return false;
      }
      if !h.dm && h.mem.addr <= 0xFFFF_FFFF && h.addr64 {
        return false;
      }
      if h.at == 1 {
        return false;
      }
      ok := h.at <= 2;
    }

    static lemma FitsPayload(limits: Limits, h: WriteHdr)
      requires WriteOk(limits, h)
      ensures (h.mem.lenBytes + 3) / 4 <= MaxDw(limits)
    {
    }

    /** Take one beat, whose payload follows the first hdrDw words of the bus. An error, in the header
        or in the framing, ends the run. */
    method CollectBeat(newHdr: Option<WriteHdr>, tlast: bool, tdata: array<Dw>, hdrDw: nat) returns (ok: bool)
      requires Valid() && hdrDw <= tdata.Length && tdata != payload
      modifies this, payload
      ensures var b := MemBeat(if newHdr.Some? then Some(newHdr.value.mem) else None, tlast, tdata[hdrDw..]);
              && (ok <==> (newHdr.Some? ==> WriteOk(limits, newHdr.value)) && Collect(old(Abs()), b).Some?)
              && (ok ==> Valid() && Abs() == Collect(old(Abs()), b).value)
    {
      hide WriteOk, MaxDw, Collect;
      if newHdr.Some? {
        var fine := CheckHeader(limits, newHdr.value);
        if !fine {
          return false;
        }
        FitsPayload(limits, newHdr.value);
        StartsNew(Abs(), newHdr.value.mem, tlast, tdata[hdrDw..]);
        hdr := newHdr.value.mem;
        nextDw := 0;
      }
      ok := TakeWords(tlast, tdata, hdrDw);
    }

    /** A header starts a packet without words. */
    static lemma StartsNew(col: Collector, h: MemHdr, last: bool, data: seq<Dw>)
      ensures Collect(col, MemBeat(Some(h), last, data)) == Collect(Collector(h, []), MemBeat(None, last, data))
    {
    }

    /** The words of a beat. */
    method TakeWords(tlast: bool, tdata: array<Dw>, hdrDw: nat) returns (ok: bool)
      requires Valid() && hdrDw <= tdata.Length && tdata != payload
      modifies this`nextDw, payload
      ensures var b := MemBeat(None, tlast, tdata[hdrDw..]);
              && (ok <==> Collect(old(Abs()), b).Some?)
              && (ok ==> Valid() && Abs() == Collect(old(Abs()), b).value)
    {
      hide MaxDw;
      var dws := (hdr.lenBytes + 3) / 4 - nextDw;
      if dws > tdata.Length - hdrDw {
        if tlast {
          return false;
        }
        dws := tdata.Length - hdrDw;
      } else if !tlast {
        return false;
      }
      ghost var data := tdata[hdrDw..];
      CopyIn(tdata, hdrDw, dws);
      assert data[..|data|] == data;
      nextDw := nextDw + dws;
      ok := true;
    }
  }
}
