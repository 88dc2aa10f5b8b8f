/** The read completion engine as the program runs it: read states in an array, completions in
    a linked list, beats written into the bus buffers. Every method refines its step of the
    engine's state machine. */
module ReadChannel {
  import opened Wrappers
  import opened ByteEnables
  import opened ReadCompletion
  import opened ReadEngine
  import opened CompletionList

  /** What the split loop computes from its current variables. */
  ghost function Finish(c: Config, o: Oracle, req: Req, st: nat, buf: nat, s: Split): Split
    requires ValidConfig(c) && (s.dwRem > 0 ==> SplitReady(c, req, s))
  {
    if s.dwRem > 0 then SplitLoop(c, o, req, st, buf, s) else s
  }

  lemma FinishStep(c: Config, o: Oracle, req: Req, st: nat, buf: nat, s: Split)
    requires ValidConfig(c) && SplitReady(c, req, s)
    ensures Finish(c, o, req, st, buf, SplitOne(c, o, req, st, buf, s)) == Finish(c, o, req, st, buf, s)
  {
  }

  class ReadChannel {
    const c: Config
    const o: Oracle
    var draws: nat
    var states: array<RdState>
    var freeHead: int
    const list: CplList
    var rem: nat
    var bufs: map<nat, seq<Byte>>
    var nextBuf: nat
    ghost var inflight: set<nat>

    ghost function Abs(): Engine
      reads this, states, list
    {
      Engine(states[..], freeHead, inflight, list.Contents(), rem, bufs, nextBuf, draws)
    }

    ghost predicate Valid()
      reads this, states, list, list.nodes
    {
      && ValidConfig(c)
      && list.Valid()
      && StatesOk(c, Abs())
    }

    /** Set up the read states and thread all of them on the free list. */
    constructor (c: Config, o: Oracle)
      requires ValidConfig(c)
      ensures Valid() && this.c == c && this.o == o
      ensures Abs() == InitEngine(c, 0)
      ensures fresh(states) && fresh(list) && list.nodes == []
    {
      this.c, this.o := c, o;
      var s := new RdState[c.numStates](_ => RdState(0, NoReq, false));
      for i := 0 to s.Length
        invariant forall k :: 0 <= k < i ==> s[k] == RdState(k + 1, NoReq, false)
        invariant forall k :: i <= k < s.Length ==> s[k] == RdState(0, NoReq, false)
      {
        s[i] := s[i].(startCycle := i + 1);
      }
      s[s.Length - 1] := s[s.Length - 1].(startCycle := READ_STATE_NULL);
      states := s;
      freeHead := 0;
      draws, rem, nextBuf := 0, 0, 0;
      bufs, inflight := map[], {};
      list := new CplList();
      new;
      InitStatesIs(states[..], c.numStates, 0);
      assert states[..][0..] == states[..];
    }

    static lemma InitStatesIs(s: seq<RdState>, n: nat, i: nat)
      requires i <= n == |s|
      requires forall k :: 0 <= k < n ==> s[k] == RdState(if k == n - 1 then READ_STATE_NULL else k + 1, NoReq, false)
      ensures s[i..] == InitStates(n, i)
      decreases n - i
    {
      if i < n {
        InitStatesIs(s, n, i + 1);
        assert s[i..] == [s[i]] + s[i + 1..];
      }
    }

    method Rand() returns (r: nat)
      modifies this`draws
      ensures r == o(old(draws)) && draws == old(draws) + 1
    {
      r := o(draws);
      draws := draws + 1;
    }

    /** The checks on an arriving request, one by one. None: an error that ends the simulation. */
    static method CheckRequest(c: Config, hdr: ReadHdr, tlast: bool) returns (req: Option<Req>)
      ensures req == CheckRead(c, hdr, tlast)
    {
      if !tlast {
        return None;
      }
      if !hdr.dm && hdr.lenBytes > c.maxRd {
        return None;
      }
      if hdr.dm && hdr.lenBytes > c.maxDmRd {
        return None;
      }
      if hdr.lenBytes == 0 {
        return None;
      }
      var h := hdr;
      if h.func != Read {
        if h.dm {
          return None;
        }
        if h.func == CompareAndSwap {
          if h.lenBytes != 8 && h.lenBytes != 16 {
            return None;
          }
        } else if h.lenBytes != 4 && h.lenBytes != 8 {
          return None;
        }
        if h.firstBe != 0 || h.lastBe != 0 {
          return None;
        }
        h := h.(firstBe := ALL);
        if h.lenBytes > 4 {
          h := h.(lastBe := ALL);
        }
      }
      if h.firstBe == 0 && (h.lastBe != 0 || h.lenBytes > 4) {
        return None;
      }
      if h.lenBytes <= 4 && h.lastBe != 0 && !h.dm {
        return None;
      }
      if h.lenBytes > 4 && h.lastBe == 0 {
        return None;
      }
      if !h.dm && h.addr <= 0xFFFF_FFFF && h.addr64 {
        return None;
      }
      if h.at == 1 {
        if h.dm || h.lenBytes % 2 != 0 || h.addr % 0x1000 != 0 || h.lenBytes > 128 || h.func != Read {
          return None;
        }
      }
      if h.at > 2 {
        return None;
      }
      if h.tag >= c.numStates {
        return None;
      }
      var lenBytes := h.lenBytes;
      if h.func == CompareAndSwap {
        lenBytes := lenBytes / 2;
      }
      req := Some(Req(lenBytes, h.firstBe, h.lastBe, h.dm, h.tag, h.addr));
    }

    /** Process a read request header. None: an error that ends the simulation. */
    method ReceiveReadRequest(hdr: ReadHdr, tlast: bool, cycle: int) returns (tag: Option<nat>)
      requires Valid() && Unpacked(hdr)
      modifies this, states
      ensures list.nodes == old(list.nodes) && states == old(states)
      ensures CheckRead(c, hdr, tlast) == None ==> tag == None
      ensures CheckRead(c, hdr, tlast).Some? ==>
                var a := Accept(c, old(Abs()), CheckRead(c, hdr, tlast).value, cycle);
                && (tag == None <==> a == None)
                && (a.Some? ==> tag == Some(a.value.1) && Abs() == a.value.0)
      ensures tag == None && !(c.tagMapper && old(freeHead) != READ_STATE_NULL && old(states[freeHead].busy)) ==>
                Abs() == old(Abs())
    {
      var checked := CheckRequest(c, hdr, tlast);
      if checked == None {
        return None;
      }
      var req := checked.value;
      var t: nat := req.tag;
      if c.tagMapper {
        if freeHead == READ_STATE_NULL {
          return None;
        }
        t := freeHead;
        freeHead := states[t].startCycle;
      }
      if states[t].busy {
        return None;
      }
      states[t] := RdState(cycle, req, true);
      inflight := inflight + {t};
      tag := Some(t);
    }

    method RandomCplLength(dwRem: nat, dm: bool) returns (length: nat)
      requires ValidConfig(c)
      modifies this`draws
      ensures (length, draws) == RandomLength(c, o, old(draws), dwRem, dm)
    {
      if !(c.ordered && dm) && dwRem > c.rcb / 4 {
        var maxChunks := c.maxRd / c.rcb;
        var rand := Rand();
        MaxChunksPositive(c);
        var chunks := if rand == 0 then maxChunks else 1 + rand % maxChunks;
        var randLength := chunks * c.rcb / 4;
        length := if dwRem <= randLength then dwRem else randLength;
      } else {
        length := dwRem;
      }
    }

    /** Push a completion, overtaking a random number of pending ones. */
    method PushNewReadCpl(node: CplNode)
      requires list.Valid() && node !in list.nodes
      modifies this`draws, list, node, list.Repr()
      ensures list.Valid()
      ensures draws == NumLater(c, o, old(draws)).1
      ensures list.Contents() == Push(old(list.Contents()), node.cpl, NumLater(c, o, old(draws)).0)
      ensures list.Repr() == old(list.Repr()) + {node}
    {
      var r := 0;
      if !c.ordered {
        r := Rand();
        r := r % 256;
      }
      var nLater: nat;
      if r >= 0x80 || r == 0 {
        nLater := 0;
      } else if r >= 0x20 {
        nLater := 5;
      } else if r >= 0x10 {
        nLater := 2;
      } else {
        nLater := 1;
      }
      list.PushNew(node, nLater);
    }

    /** Bytes that a piece of n DWORDs uses up of the request's byte count. */
    method PieceSpan(req: Req, n: nat, isFirst: bool, isLast: bool, ghost s: Split) returns (used: int)
      requires SplitReady(c, req, s) && 0 < n <= s.dwRem
      requires isFirst == (s.startDw == 0) && isLast == (n == s.dwRem)
      ensures used == NextSpan(c, req, s, n)
    {
      var count := ByteCount(n, if isFirst then req.firstBe else ALL, if isLast then req.lastBe else ALL);
      used := count.value;
    }

    /** Create and push the next completion of a response; s holds the loop variables. */
    method PushPiece(req: Req, tag: nat, buf: nat, startDw: nat, dwRem: nat, bytesRem: int, countRem: int,
                     ghost s: Split)
      returns (thisDw: nat, used: int, ghost s': Split)
      requires ValidConfig(c) && list.Valid() && SplitReady(c, req, s)
      requires s.list == list.Contents() && s.draws == draws
      requires s.startDw == startDw && s.dwRem == dwRem && s.bytesRem == bytesRem && s.countRem == countRem
      modifies this`draws, list, list.Repr()
      ensures list.Valid()
      ensures fresh(list.Repr() - old(list.Repr()))
      ensures s' == SplitOne(c, o, req, tag, buf, s)
      ensures s'.list == list.Contents() && s'.draws == draws
      ensures s'.startDw == startDw + thisDw && s'.dwRem == dwRem - thisDw
      ensures s'.bytesRem == bytesRem - 4 * thisDw && s'.countRem == countRem - used
    {
      hide Span, Push, NumLater, RandomLength, LegalReq, CplList.Valid;
      RandomLengthBounds(c, o, draws, dwRem, req.dm);
      thisDw := RandomCplLength(dwRem, req.dm);
      var isFirst := startDw == 0;
      var isLast := thisDw == dwRem;
      var cpl := Cpl(tag, buf, startDw, if isLast then bytesRem else 4 * thisDw, countRem, isFirst, isLast);
      var node := new CplNode(cpl);
      PushNewReadCpl(node);
      used := PieceSpan(req, thisDw, isFirst, isLast, s);
      assert cpl == NextCpl(c, req, tag, buf, s, thisDw);
      s' := SplitOne(c, o, req, tag, buf, s);
    }

    /** Receive one memory response: allocate its buffer and cut it into completions. */
    method ReceiveResponse(tag: nat, data: seq<Byte>)
      requires Valid() && tag < states.Length && LegalReq(c, states[tag].req)
      modifies this, list, list.Repr()
      ensures Valid() && states == old(states) && states[..] == old(states[..])
      ensures Abs() == Respond(c, o, old(Abs()), tag, data)
      ensures fresh(list.Repr() - old(list.Repr()))
    {
      hide SplitAll, LegalReq, CplList.Valid, ValidConfig;
      ghost var e := Abs();
      var buf := nextBuf;
      SplitResponse(states[tag].req, tag, buf);
      nextBuf := nextBuf + 1;
      bufs := bufs[buf := data];
      inflight := inflight - {tag};
      assert states[..] == e.states;
    }

    /** The splitting loop. */
    method SplitResponse(req: Req, tag: nat, buf: nat)
      requires ValidConfig(c) && list.Valid() && LegalReq(c, req)
      modifies this`draws, list, list.Repr()
      ensures list.Valid()
      ensures fresh(list.Repr() - old(list.Repr()))
      ensures var s := SplitAll(c, o, req, tag, buf, old(list.Contents()), old(draws));
              list.Contents() == s.list && draws == s.draws
    {
      hide SplitOne, Span;
      var dwRem := LenDw(req.lenBytes);
      var bytesRem: int := req.lenBytes;
      var count := ByteCount(dwRem, req.firstBe, req.lastBe);
      var countRem := count.value;
      var startDw := 0;
      ghost var s := SplitStart(list.Contents(), draws, req);
      ghost var goal := Finish(c, o, req, tag, buf, s);
      var more := true;
      while more
        invariant list.Valid()
        invariant fresh(list.Repr() - old(list.Repr()))
        invariant s.list == list.Contents() && s.draws == draws
        invariant s.startDw == startDw && s.dwRem == dwRem && s.bytesRem == bytesRem && s.countRem == countRem
        invariant more == (dwRem > 0)
        invariant more ==> SplitReady(c, req, s)
        invariant Finish(c, o, req, tag, buf, s) == goal
        decreases dwRem
      {
        FinishStep(c, o, req, tag, buf, s);
        var thisDw, used;
        thisDw, used, s := PushPiece(req, tag, buf, startDw, dwRem, bytesRem, countRem, s);
        countRem := countRem - used;
        dwRem := dwRem - thisDw;
        bytesRem := bytesRem - 4 * thisDw;
        startDw := startDw + thisDw;
        more := dwRem > 0;
      }
    }

    /** Keep flags in DWORD i of a beat of n DWORDs: fewer than four only at the very end. */
    static function KeepInDw(cpl: Cpl, n: nat, last: bool, i: nat): nat
    {
      if last && i + 1 == n && cpl.lenBytes % 4 != 0 then cpl.lenBytes % 4 else 4
    }

    /** Copy n DWORDs of a response into the bus behind the first hdrDw ones. */
    static method CopyPayload(tdata: array<Byte>, tkeep: array<bool>, hdrDw: nat, cpl: Cpl, buf: seq<Byte>,
                              start: nat, n: nat, last: bool)
      requires 4 * (hdrDw + n) <= tdata.Length == tkeep.Length
      requires 4 * (start + n) <= |buf|
      requires forall j :: 4 * hdrDw <= j < tdata.Length ==> tdata[j] == 0 && !tkeep[j]
      modifies tdata, tkeep
      ensures forall j :: 0 <= j < 4 * hdrDw ==> tdata[j] == old(tdata[j]) && tkeep[j] == old(tkeep[j])
      ensures forall j :: 4 * hdrDw <= j < tdata.Length ==>
                && tdata[j] == Lane(buf, 4 * start, 4 * n, j - 4 * hdrDw)
                && tkeep[j] == (j - 4 * hdrDw < KeptBytes(cpl, n, last))
    {
      for i := 0 to n
        invariant forall j :: 0 <= j < 4 * hdrDw ==> tdata[j] == old(tdata[j]) && tkeep[j] == old(tkeep[j])
        invariant forall j :: 4 * hdrDw <= j < 4 * (hdrDw + i) ==>
                    && tdata[j] == buf[4 * start + j - 4 * hdrDw]
                    && tkeep[j] == (j - 4 * hdrDw < KeptBytes(cpl, n, last))
        invariant forall j :: 4 * (hdrDw + i) <= j < tdata.Length ==> tdata[j] == 0 && !tkeep[j]
      {
        CopyDw(tdata, tkeep, 4 * (hdrDw + i), buf, 4 * (start + i), KeepInDw(cpl, n, last, i));
      }
    }

    /** Copy one DWORD and set the keep flags of its first bytes. */
    static method CopyDw(tdata: array<Byte>, tkeep: array<bool>, to: nat, buf: seq<Byte>, from: nat, keep: nat)
      requires to + 4 <= tdata.Length == tkeep.Length && from + 4 <= |buf|
      modifies tdata, tkeep
      ensures forall j :: 0 <= j < tdata.Length ==>
                && tdata[j] == (if to <= j < to + 4 then buf[from + j - to] else old(tdata[j]))
                && tkeep[j] == (if to <= j < to + 4 then j - to < keep else old(tkeep[j]))
    {
      tdata[to], tdata[to + 1], tdata[to + 2], tdata[to + 3] := buf[from], buf[from + 1], buf[from + 2], buf[from + 3];
      tkeep[to], tkeep[to + 1], tkeep[to + 2], tkeep[to + 3] := 0 < keep, 1 < keep, 2 < keep, 3 < keep;
    }

    /** Clear the bus and mark the bytes of a header, if there is one, as kept. */
    static method ResetBus(tdata: array<Byte>, tkeep: array<bool>, hdrDw: nat)
      requires 4 * hdrDw <= tdata.Length == tkeep.Length
      modifies tdata, tkeep
      ensures forall j :: 0 <= j < tdata.Length ==> tdata[j] == 0 && tkeep[j] == (j < 4 * hdrDw)
    {
      for i := 0 to tdata.Length
        invariant forall j :: 0 <= j < i ==> tdata[j] == 0 && tkeep[j] == (j < 4 * hdrDw)
      {
        tdata[i] := 0;
        tkeep[i] := i < 4 * hdrDw;
      }
    }

    /** The bus holds beat b behind a header of hdrDw DWORDs. */
    static ghost predicate OnBus(tdata: array<Byte>, tkeep: array<bool>, hdrDw: nat, b: Beat)
      reads tdata, tkeep
    {
      && 4 * hdrDw <= tdata.Length == tkeep.Length
      && tdata[4 * hdrDw..] == b.data
      && tkeep[4 * hdrDw..] == b.keep
      && forall j :: 0 <= j < 4 * hdrDw ==> tkeep[j]
    }

    /** The beat of a completion with left DWORDs to go. */
    ghost function NextBeat(cpl: Cpl, sop: bool, left: nat, hdr: Option<CplHdr>): Beat
      requires c.tdataDw >= HDR_DW && left <= LenDw(cpl.lenBytes) && cpl.buf in bufs
      reads this
    {
      var lanes := if sop then c.tdataDw - HDR_DW else c.tdataDw;
      MakeBeat(hdr, cpl, bufs[cpl.buf], lanes, cpl.startDw + LenDw(cpl.lenBytes) - left,
               if left <= lanes then left else lanes, left <= lanes)
    }

    /** Put the next beat b of the head completion on the bus. */
    method FillBus(tdata: array<Byte>, tkeep: array<bool>, cpl: Cpl, sop: bool, left: nat, ghost b: Beat)
      returns (n: nat, last: bool)
      requires c.tdataDw >= HDR_DW && tdata.Length == tkeep.Length == 4 * c.tdataDw
      requires left <= LenDw(cpl.lenBytes) && cpl.buf in bufs && 4 * EndOf(cpl) <= |bufs[cpl.buf]|
      requires b == NextBeat(cpl, sop, left, b.hdr)
      modifies tdata, tkeep
      ensures var lanes := if sop then c.tdataDw - HDR_DW else c.tdataDw;
              last == b.last == (left <= lanes) && n == (if last then left else lanes)
      ensures OnBus(tdata, tkeep, if sop then HDR_DW else 0, b)
    {
      var hdrDw := if sop then HDR_DW else 0;
      ResetBus(tdata, tkeep, hdrDw);
      n := left;
      last := n <= c.tdataDw - hdrDw;
      if !last {
        n := c.tdataDw - hdrDw;
      }
      var start := cpl.startDw + LenDw(cpl.lenBytes) - left;
      CopyPayload(tdata, tkeep, hdrDw, cpl, bufs[cpl.buf], start, n, last);
    }

    /** The header of a completion that starts; its request's last one idles the read state. */
    method StartCompletion(cpl: Cpl) returns (hdr: CplHdr)
      requires cpl.state < states.Length
      modifies this`freeHead, states
      ensures hdr == Header(old(states[cpl.state].req), cpl)
      ensures states[..] == (if cpl.isLast then Release(c, old(Abs()), cpl.state).states else old(states[..]))
      ensures freeHead == (if cpl.isLast then Release(c, old(Abs()), cpl.state).freeHead else old(freeHead))
    {
      var st := states[cpl.state];
      var offset := LowerAddrByteOffset(st.req.firstBe);
      var lowAddr := st.req.addr + cpl.startDw * 4;
      if cpl.isFirst {
        lowAddr := lowAddr + offset;
      }
      lowAddr := lowAddr % 0x1_0000_0000;
      if st.req.dm {
        lowAddr := cpl.startDw * 4;
      }
      hdr := CplHdr(st.req.tag, cpl.lenBytes, cpl.byteCount, lowAddr, cpl.isLast, st.req.dm);
      if cpl.isLast {
        states[cpl.state] := states[cpl.state].(busy := false);
        if c.tagMapper {
          states[cpl.state] := states[cpl.state].(startCycle := freeHead);
          freeHead := cpl.state;
        }
      }
    }

    /** Send the next beat of the head completion, and pop it when the packet ends. */
    method SendBeat(tdata: array<Byte>, tkeep: array<bool>, cpl: Cpl, sop: bool, ghost b: Beat)
      returns (tlast: bool)
      requires c.tdataDw >= HDR_DW && tdata.Length == tkeep.Length == 4 * c.tdataDw
      requires list.Valid() && list.nodes != [] && cpl == list.Contents()[0]
      requires rem <= LenDw(cpl.lenBytes) && cpl.buf in bufs && 4 * EndOf(cpl) <= |bufs[cpl.buf]|
      requires b == NextBeat(cpl, sop, rem, b.hdr)
      modifies this`rem, this`bufs, list, list.Repr(), tdata, tkeep
      ensures list.Valid() && list.Repr() <= old(list.Repr())
      ensures Abs() == Advance(old(Abs()), if sop then c.tdataDw - HDR_DW else c.tdataDw)
      ensures tlast == b.last
      ensures OnBus(tdata, tkeep, if sop then HDR_DW else 0, b)
    {
      hide MakeBeat, OnBus, NextBeat, CplList.Valid;
      var n;
      n, tlast := FillBus(tdata, tkeep, cpl, sop, rem, b);
      PopSent(cpl, n, tlast);
    }

    /** Count the DWORDs just sent; at the end of a packet, release what it used. */
    method PopSent(cpl: Cpl, n: nat, tlast: bool)
      requires list.Valid() && list.nodes != [] && cpl == list.Contents()[0] && n <= rem
      modifies this`rem, this`bufs, list, list.Repr()
      ensures list.Valid() && list.Repr() <= old(list.Repr())
      ensures rem == old(rem) - n
      ensures list.Contents() == (if tlast then old(list.Contents())[1..] else old(list.Contents()))
      ensures bufs == (if tlast && cpl.isLast then old(bufs) - {cpl.buf} else old(bufs))
    {
      rem := rem - n;
      if tlast {
        if cpl.isLast {
          bufs := bufs - {cpl.buf};
        }
        list.Pop();
      }
    }

    /** Decide whether the sender stalls; if not, start a completion unless one is under way. */
    method BeginBeat(cycle: int) returns (stall: bool, hdr: Option<CplHdr>)
      requires Valid() && list.nodes != [] && Abs().list[0].state < states.Length
      modifies this`draws, this`freeHead, this`rem, states
      ensures var e := old(Abs());
              && stall == Stalled(c, o, e, cycle)
              && hdr == (if stall then None else HeadHdr(e))
              && Abs() == (if stall then e.(draws := e.draws + 1)
                           else Started(c, e).(draws := e.draws + 1, rem := Unsent(e)))
    {
      hdr := None;
      var cpl := list.head.cpl;
      assert cpl == list.Contents()[0];
      var r := Rand();
      stall := r % 256 > 0xD0;
      if !stall && rem == 0 {
        stall := cycle - states[cpl.state].startCycle < 250 && !c.unlimitedBw;
        if !stall {
          var h := StartCompletion(cpl);
          hdr := Some(h);
          rem := LenDw(cpl.lenBytes);
        }
      }
    }

    /** Send the head completion's next beat, once BeginBeat has prepared it from state e. */
    method Transmit(tdata: array<Byte>, tkeep: array<bool>, sop: bool, ghost e: Engine) returns (tlast: bool)
      requires c.tdataDw >= HDR_DW && tdata.Length == tkeep.Length == 4 * c.tdataDw
      requires list.Valid() && e.list != [] && e.list[0].state < |e.states| && e.list[0].buf in e.bufs
      requires e.rem <= LenDw(e.list[0].lenBytes) && 4 * EndOf(e.list[0]) <= |e.bufs[e.list[0].buf]|
      requires Abs() == Started(c, e).(draws := e.draws + 1, rem := Unsent(e)) && sop == (e.rem == 0)
      modifies this`rem, this`bufs, list, list.Repr(), tdata, tkeep
      ensures list.Valid() && list.Repr() <= old(list.Repr())
      ensures Abs() == Advance(old(Abs()), Lanes(c, e))
      ensures tlast == HeadBeat(c, e).last
      ensures OnBus(tdata, tkeep, if sop then HDR_DW else 0, HeadBeat(c, e))
    {
      StartedKeeps(c, e);
      hide MakeBeat, OnBus, Header, Started, Advance;
      assert Abs().list == e.list && Abs().bufs == e.bufs;
      var cpl := list.head.cpl;
      assert cpl == list.Contents()[0];
      tlast := SendBeat(tdata, tkeep, cpl, sop, HeadBeat(c, e));
    }

    static lemma StartedKeeps(c: Config, e: Engine)
      requires e.list != [] && e.list[0].state < |e.states|
      ensures Started(c, e).list == e.list && Started(c, e).bufs == e.bufs
    {
    }

    static lemma HeadBeatHdr(c: Config, e: Engine)
      requires c.tdataDw >= HDR_DW
      requires e.list != [] && e.list[0].state < |e.states| && e.list[0].buf in e.bufs
      requires e.rem <= LenDw(e.list[0].lenBytes)
      ensures HeadBeat(c, e).hdr == HeadHdr(e)
    {
    }

    static lemma SendKeepsStates(c: Config, o: Oracle, e: Engine, cycle: int)
      requires c.tdataDw >= HDR_DW && StatesOk(c, e)
      requires e.list != [] && e.list[0].state < |e.states| && e.list[0].buf in e.bufs
      requires e.rem <= LenDw(e.list[0].lenBytes)
      ensures StatesOk(c, Send(c, o, e, cycle).0)
    {
      hide HeadBeat, Stalled;
    }

    static lemma SendIs(c: Config, o: Oracle, e: Engine, cycle: int)
      requires c.tdataDw >= HDR_DW
      requires e.list != [] && e.list[0].state < |e.states| && e.list[0].buf in e.bufs
      requires e.rem <= LenDw(e.list[0].lenBytes)
      ensures Send(c, o, e, cycle)
           == if Stalled(c, o, e, cycle) then (e.(draws := e.draws + 1), None)
              else (Advance(Started(c, e).(draws := e.draws + 1, rem := Unsent(e)), Lanes(c, e)), Some(HeadBeat(c, e)))
    {
    }

    /** One call of the completion sender. done is false in the middle of a packet. */
    method SendCompletion(cycle: int, tdata: array<Byte>, tkeep: array<bool>)
      returns (done: bool, tvalid: bool, tlast: bool, hdr: Option<CplHdr>)
      requires Valid() && list.nodes != [] && tdata.Length == tkeep.Length == 4 * c.tdataDw
      requires var e := Abs();
               && e.list[0].state < |e.states| && e.list[0].buf in e.bufs
               && e.rem <= LenDw(e.list[0].lenBytes)
               && 4 * EndOf(e.list[0]) <= |e.bufs[e.list[0].buf]|
      modifies this, states, list, list.Repr(), tdata, tkeep
      ensures Valid() && states == old(states) && list.Repr() <= old(list.Repr())
      ensures var (e', b) := Send(c, o, old(Abs()), cycle);
              && Abs() == e'
              && tvalid == b.Some?
              && (tvalid ==> hdr == b.value.hdr && tlast == b.value.last
                             && OnBus(tdata, tkeep, if hdr.Some? then HDR_DW else 0, b.value))
              && (!tvalid ==> !tlast)
              && done == if tvalid then tlast else old(rem) == 0
    {
      ghost var e := Abs();
      SendKeepsStates(c, o, e, cycle);
      SendIs(c, o, e, cycle);
      HeadBeatHdr(c, e);
      var sop := rem == 0;
      assert sop == (e.rem == 0) && c.tdataDw >= HDR_DW;
      hide Abs, ValidConfig, CplList.Valid, Send, Stalled, Started, HeadBeat, Lanes, Unsent, OnBus, Advance, Header;
      hide StatesOk;
      var stall;
      stall, hdr := BeginBeat(cycle);
      if stall {
        return sop, false, false, None;
      }
      tvalid := true;
      tlast := Transmit(tdata, tkeep, sop, e);
      done := tlast;
    }
  }
}
