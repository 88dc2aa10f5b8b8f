/** The read completion engine as a state machine: accepting read requests (with or without
    tag mapping), receiving memory responses, and sending completion beats to the AFU. */
module ReadEngine {
  import opened Wrappers
  import opened ByteEnables
  import opened ReadCompletion

  type Byte = b: nat | b < 256

  /** The end-of-list marker of the free list of read states. */
  const READ_STATE_NULL: nat := 0xFFFF_FFFF_FFFF_FFFF

  /** startCycle is the arrival cycle of a busy state and, with tag mapping, the next free
      index of an idle one. */
  datatype RdState = RdState(startCycle: int, req: Req, busy: bool)

  const NoReq := Req(0, 0, 0, false, 0, 0)

  /** inflight holds the tags sent to the memory model and not answered yet; bufs holds the
      allocated response buffers; rem counts the unsent DWORDs of the head completion. */
  datatype Engine = Engine(
    states: seq<RdState>, freeHead: int, inflight: set<nat>,
    list: seq<Cpl>, rem: nat, bufs: map<nat, seq<Byte>>, nextBuf: nat, draws: nat)

  // ---------------------------------------------------------------- initial state

  function InitStates(n: nat, i: nat): seq<RdState>
    requires i <= n
    decreases n - i
  {
    if i == n then []
    else [RdState(if i == n - 1 then READ_STATE_NULL else i + 1, NoReq, false)] + InitStates(n, i + 1)
  }

  function InitEngine(c: Config, draws: nat): Engine
  {
    Engine(InitStates(c.numStates, 0), 0, {}, [], 0, map[], 0, draws)
  }

  // ---------------------------------------------------------------- read requests

  datatype Func = Read | FetchAddOrSwap | CompareAndSwap

  /** A read or atomic request header as unpacked from the stream. */
  datatype ReadHdr = ReadHdr(lenBytes: nat, firstBe: Mask, lastBe: Mask, dm: bool, tag: nat,
                             addr: nat, addr64: bool, at: nat, func: Func)

  /** Header unpacking enables every byte of data-mover requests. */
  predicate Unpacked(h: ReadHdr)
  {
    h.dm ==> h.firstBe == ALL && h.lastBe == ALL
  }

  predicate AtomicOk(h: ReadHdr)
  {
    h.func != Read ==>
      && !h.dm
      && (if h.func == CompareAndSwap then h.lenBytes == 8 || h.lenBytes == 16
          else h.lenBytes == 4 || h.lenBytes == 8)
      && h.firstBe == 0 && h.lastBe == 0
  }

  /** Accepted atomics get ordinary byte enables. */
  function AtomicBe(h: ReadHdr): ReadHdr
  {
    if h.func == Read then h
    else h.(firstBe := ALL, lastBe := if h.lenBytes > 4 then ALL else h.lastBe)
  }

  predicate TranslationOk(h: ReadHdr)
  {
    && h.at <= 2
    && (h.at == 1 ==>
          && !h.dm && h.lenBytes % 2 == 0 && h.addr % 0x1000 == 0 && h.lenBytes <= 128 && h.func == Read)
  }

  /** The checks on an arriving request: the request to record, or None for an error that
      ends the simulation. The completion of a compare-and-swap is half its request. */
  function CheckRead(c: Config, hdr: ReadHdr, tlast: bool): Option<Req>
  {
    if !tlast || hdr.lenBytes > (if hdr.dm then c.maxDmRd else c.maxRd) || hdr.lenBytes == 0
       || !AtomicOk(hdr) then None
    else
      var h := AtomicBe(hdr);
      if (h.firstBe == 0 && (h.lastBe != 0 || h.lenBytes > 4))
         || (h.lenBytes <= 4 && h.lastBe != 0 && !h.dm)
         || (h.lenBytes > 4 && h.lastBe == 0)
         || (!h.dm && h.addr <= 0xFFFF_FFFF && h.addr64)
         || !TranslationOk(h)
         || h.tag >= c.numStates then None
      else
        Some(Req(if h.func == CompareAndSwap then h.lenBytes / 2 else h.lenBytes,
                 h.firstBe, h.lastBe, h.dm, h.tag, h.addr))
  }

  /** Every request that passes the checks can be split: the byte counter never exits. */
  lemma CheckedIsLegal(c: Config, h: ReadHdr, tlast: bool)
    requires ValidConfig(c) && Unpacked(h)
    ensures CheckRead(c, h, tlast).Some? ==> LegalReq(c, CheckRead(c, h, tlast).value)
  {
  }

  predicate StatesOk(c: Config, e: Engine)
  {
    && |e.states| == c.numStates
    && (e.freeHead == READ_STATE_NULL || 0 <= e.freeHead < c.numStates)
  }

  /** Record a checked request. None: no free index, or the tag is already in use. */
  function Accept(c: Config, e: Engine, req: Req, cycle: int): Option<(Engine, nat)>
    requires StatesOk(c, e) && req.tag < c.numStates
  {
    if c.tagMapper && e.freeHead == READ_STATE_NULL then None
    else
      var tag: nat := if c.tagMapper then e.freeHead else req.tag;
      var head := if c.tagMapper then e.states[tag].startCycle else e.freeHead;
      if e.states[tag].busy then None
      else Some((e.(states := e.states[tag := RdState(cycle, req, true)], freeHead := head,
                    inflight := e.inflight + {tag}), tag))
  }

  // ---------------------------------------------------------------- memory responses

  /** A response with its buffer arrives for an outstanding tag and is cut into completions. */
  function Respond(c: Config, o: Oracle, e: Engine, tag: nat, data: seq<Byte>): Engine
    requires ValidConfig(c) && tag < |e.states| && LegalReq(c, e.states[tag].req)
  {
    var req := e.states[tag].req;
    var s := SplitAll(c, o, req, tag, e.nextBuf, e.list, e.draws);
    e.(inflight := e.inflight - {tag}, list := s.list, draws := s.draws,
       bufs := e.bufs[e.nextBuf := data], nextBuf := e.nextBuf + 1)
  }

  // ---------------------------------------------------------------- completion beats

  /** The header fields that describe a completion. */
  datatype CplHdr = CplHdr(tag: nat, lenBytes: nat, byteCount: int, lowAddr: nat, fc: bool, dm: bool)

  /** A beat: its header when it starts a packet, the payload byte lanes after the header, and
      their keep flags. */
  datatype Beat = Beat(hdr: Option<CplHdr>, last: bool, data: seq<Byte>, keep: seq<bool>)

  function LowAddr(req: Req, cpl: Cpl): nat
  {
    if req.dm then cpl.startDw * 4
    else (req.addr + cpl.startDw * 4
          + (if cpl.isFirst && req.firstBe != 0 then Lowest(req.firstBe) else 0)) % 0x1_0000_0000
  }

  function Header(req: Req, cpl: Cpl): CplHdr
  {
    CplHdr(req.tag, cpl.lenBytes, cpl.byteCount, LowAddr(req, cpl), cpl.isLast, req.dm)
  }

  function Lane(buf: seq<Byte>, from: nat, n: nat, i: nat): Byte
  {
    if i < n && from + i < |buf| then buf[from + i] else 0
  }

  /** Bytes of a beat of n DWORDs whose keep flag is set. */
  function KeptBytes(cpl: Cpl, n: nat, last: bool): int
  {
    if last && cpl.lenBytes % 4 != 0 then 4 * (n - 1) + cpl.lenBytes % 4 else 4 * n
  }

  function MakeBeat(hdr: Option<CplHdr>, cpl: Cpl, buf: seq<Byte>, lanes: nat, start: nat, n: nat, last: bool): Beat
  {
    Beat(hdr, last,
         seq(4 * lanes, i requires 0 <= i => Lane(buf, 4 * start, 4 * n, i)),
         seq(4 * lanes, i => i < KeptBytes(cpl, n, last)))
  }

  /** DWORDs of the head completion still to send when a beat is produced. */
  function Unsent(e: Engine): nat
    requires e.list != []
  {
    if e.rem > 0 then e.rem else LenDw(e.list[0].lenBytes)
  }

  function Lanes(c: Config, e: Engine): nat
    requires c.tdataDw >= HDR_DW
  {
    if e.rem > 0 then c.tdataDw else c.tdataDw - HDR_DW
  }

  predicate Stalled(c: Config, o: Oracle, e: Engine, cycle: int)
    requires e.list != [] && e.list[0].state < |e.states|
  {
    || o(e.draws) % 256 > 0xD0
    || (e.rem == 0 && cycle - e.states[e.list[0].state].startCycle < 250 && !c.unlimitedBw)
  }

  /** Starting the last completion of a request idles its read state. */
  function Release(c: Config, e: Engine, st: nat): Engine
    requires st < |e.states|
  {
    var s := e.states[st];
    if c.tagMapper then
      e.(states := e.states[st := s.(busy := false, startCycle := e.freeHead)], freeHead := st)
    else
      e.(states := e.states[st := s.(busy := false)])
  }

  /** The engine once the head completion has been started. */
  function Started(c: Config, e: Engine): Engine
    requires e.list != [] && e.list[0].state < |e.states|
  {
    if e.rem == 0 && e.list[0].isLast then Release(c, e, e.list[0].state) else e
  }

  /** The header of the beat about to be sent, when it starts a packet. */
  function HeadHdr(e: Engine): Option<CplHdr>
    requires e.list != [] && e.list[0].state < |e.states|
  {
    if e.rem > 0 then None else Some(Header(e.states[e.list[0].state].req, e.list[0]))
  }

  /** The beat that sends the next DWORDs of the head completion. */
  function HeadBeat(c: Config, e: Engine): Beat
    requires c.tdataDw >= HDR_DW
    requires e.list != [] && e.list[0].state < |e.states| && e.list[0].buf in e.bufs
    requires e.rem <= LenDw(e.list[0].lenBytes)
  {
    var cpl := e.list[0];
    var left := Unsent(e);
    var lanes := Lanes(c, e);
    var last := left <= lanes;
    MakeBeat(HeadHdr(e), cpl, e.bufs[cpl.buf], lanes, cpl.startDw + LenDw(cpl.lenBytes) - left,
             if last then left else lanes, last)
  }

  /** DWORDs of the head completion left after the next beat. */
  function NextRem(c: Config, e: Engine): nat
    requires c.tdataDw >= HDR_DW && e.list != []
  {
    if Unsent(e) <= Lanes(c, e) then 0 else Unsent(e) - Lanes(c, e)
  }

  /** The engine after a beat of at most the given number of DWORDs of its head completion. */
  function Advance(e: Engine, lanes: nat): Engine
    requires e.list != []
  {
    var last := e.rem <= lanes;
    e.(rem := if last then 0 else e.rem - lanes,
       list := if last then e.list[1..] else e.list,
       bufs := if last && e.list[0].isLast then e.bufs - {e.list[0].buf} else e.bufs)
  }

  /** One call of the completion sender with a non-empty list. */
  function Send(c: Config, o: Oracle, e: Engine, cycle: int): (Engine, Option<Beat>)
    requires c.tdataDw >= HDR_DW
    requires e.list != [] && e.list[0].state < |e.states| && e.list[0].buf in e.bufs
    requires e.rem <= LenDw(e.list[0].lenBytes)
  {
    if Stalled(c, o, e, cycle) then (e.(draws := e.draws + 1), None)
    else
      (Advance(Started(c, e).(draws := e.draws + 1, rem := Unsent(e)), Lanes(c, e)), Some(HeadBeat(c, e)))
  }

  // ---------------------------------------------------------------- what a beat delivers

  /** The payload bytes of a beat, as its keep flags select them. */
  function Kept(data: seq<Byte>, keep: seq<bool>): seq<Byte>
    requires |data| == |keep|
  {
    if data == [] then []
    else (if keep[0] then [data[0]] else []) + Kept(data[1..], keep[1..])
  }

  lemma {:induction false} KeptPrefix(data: seq<Byte>, keep: seq<bool>, n: nat)
    requires |data| == |keep| && n <= |data|
    requires forall i :: 0 <= i < |keep| ==> keep[i] == (i < n)
    ensures Kept(data, keep) == data[..n]
  {
    if data == [] {
    } else if n == 0 {
      KeptPrefix(data[1..], keep[1..], 0);
    } else {
      KeptPrefix(data[1..], keep[1..], n - 1);
      assert data[..n] == [data[0]] + data[1..][..n - 1];
    }
  }

  /** The keep flags of a beat select exactly the next bytes of the response. */
  lemma BeatDelivers(hdr: Option<CplHdr>, cpl: Cpl, buf: seq<Byte>, lanes: nat, start: nat, n: nat, last: bool)
    requires n <= lanes && 4 * (start + n) <= |buf|
    requires last ==> n > 0
    ensures var b := MakeBeat(hdr, cpl, buf, lanes, start, n, last);
            && |b.data| == |b.keep|
            && 0 <= KeptBytes(cpl, n, last) <= 4 * n
            && Kept(b.data, b.keep) == buf[4 * start..4 * start + KeptBytes(cpl, n, last)]
  {
    var b := MakeBeat(hdr, cpl, buf, lanes, start, n, last);
    var k := KeptBytes(cpl, n, last);
    KeptPrefix(b.data, b.keep, k);
    assert b.data[..k] == buf[4 * start..4 * start + k];
  }
}
