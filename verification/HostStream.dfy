/** The host-to-AFU channel: messages, MMIO requests and read completions share one bus. */
module HostStream {
  import opened Wrappers
  import opened ByteEnables
  import opened ReadCompletion
  import opened ReadEngine
  import opened ReadDelivery
  import opened ReadDeliveryProof

  /** A 32-bit bus word. */
  type Dw = w: nat | w < 0x1_0000_0000

  /** An MMIO request; a write carries the first width / 32 words of its buffer. */
  datatype MmioPkt = MmioPkt(write: bool, slot: nat, addr: nat, width: nat, words: seq<Dw>)

  predicate ValidPkt(p: MmioPkt)
  {
    && (p.width == 32 || p.width == 64 || p.width == 512)
    && |p.words| == 16
  }

  function Payload(p: MmioPkt): seq<Dw>
    requires ValidPkt(p)
  {
    if p.write then p.words[..p.width / 32] else []
  }

  datatype MemHdr = MemHdr(write: bool, lenBytes: nat, tag: nat, firstBe: Mask, lastBe: Mask, addr: nat)

  function MmioHdr(p: MmioPkt): MemHdr
  {
    MemHdr(p.write, p.width / 8, p.slot, ALL, if p.width <= 32 then 0 else ALL, p.addr)
  }

  /** The header's masks are legal and enable exactly the bytes of the request's width. */
  lemma MmioHdrCovers(p: MmioPkt, k: nat)
    requires ValidPkt(p)
    ensures var h := MmioHdr(p);
            && h.lenBytes % 4 == 0 && LegalMasks(h.lenBytes / 4, h.firstBe, h.lastBe)
            && (Enabled(h.lenBytes / 4, h.firstBe, h.lastBe, k) <==> k < p.width / 8)
  {
    assert forall j: nat :: j < 4 ==> Bit(ALL, j);
    assert k % 4 < 4;
  }

  /** An MMIO beat: its header when it starts a packet, and the bus words after the header. */
  datatype MemBeat = MemBeat(hdr: Option<MemHdr>, last: bool, data: seq<Dw>)

  datatype Mmio = Mmio(queue: seq<MmioPkt>, rem: nat, lastCycle: int)

  function Words(p: MmioPkt, lanes: nat, from: nat, n: nat): seq<Dw>
  {
    seq(lanes, i requires 0 <= i => if i < n && from + i < |p.words| then p.words[from + i] else 0)
  }

  predicate MmioOk(m: Mmio)
  {
    && (forall i :: 0 <= i < |m.queue| ==> ValidPkt(m.queue[i]))
    && (m.rem > 0 ==> m.queue != [] && m.queue[0].write && m.rem <= m.queue[0].width / 32)
  }

  /** May the MMIO sender not start a packet now? Returns the draws used as well. */
  function MmioRefuses(o: Oracle, m: Mmio, draws: nat, cycle: int): (bool, nat)
  {
    if m.rem > 0 then (false, draws)
    else if cycle - m.lastCycle < 63 then (true, draws)
    else (o(draws) % 256 > 0xD0, draws + 1)
  }

  /** There is a request, and no more of it left than it has. */
  predicate MmioReady(m: Mmio)
  {
    m.queue != [] && m.rem <= m.queue[0].width / 32
  }

  /** One call of the MMIO sender with a non-empty queue, once it has not refused. */
  function SendMmio(c: Config, m: Mmio, cycle: int): (Mmio, MemBeat)
    requires c.tdataDw >= HDR_DW && MmioReady(m)
  {
    var p := m.queue[0];
    var sop := m.rem == 0;
    var lanes := if sop then c.tdataDw - HDR_DW else c.tdataDw;
    var hdr := if sop then Some(MmioHdr(p)) else None;
    if !p.write then
      (Mmio(m.queue[1..], 0, cycle), MemBeat(hdr, true, Words(p, lanes, 0, 0)))
    else
      var left := if sop then p.width / 32 else m.rem;
      var last := left <= lanes;
      var n := if last then left else lanes;
      (Mmio(if last then m.queue[1..] else m.queue, left - n, cycle),
       MemBeat(hdr, last, Words(p, lanes, p.width / 32 - left, n)))
  }

  // ---------------------------------------------------------------- reassembly

  /** The receiver of a write stream: the packet under way with the words collected for it. */
  datatype Collector = Collector(hdr: MemHdr, got: seq<Dw>)

  /** What the receiver does with one beat: None is a framing error that ends the simulation;
      otherwise the packet so far. */
  function Collect(col: Collector, b: MemBeat): Option<Collector>
  {
    var cur := if b.hdr.Some? then Collector(b.hdr.value, []) else col;
    var want := (cur.hdr.lenBytes + 3) / 4 - |cur.got|;
    if want > |b.data| then
      if b.last then None else Some(cur.(got := cur.got + b.data))
    else if !b.last || want < 0 then None
    else Some(cur.(got := cur.got + b.data[..want]))
  }

  /** What collecting a sequence of beats yields. */
  function CollectAll(col: Collector, beats: seq<MemBeat>): Option<Collector>
  {
    if beats == [] then Some(col) else
      match CollectAll(col, beats[..|beats| - 1])
      case None => None
      case Some(got) => Collect(got, beats[|beats| - 1])
  }

  function Data(beats: seq<MemBeat>): seq<Dw>
  {
    if beats == [] then [] else Data(beats[..|beats| - 1]) + beats[|beats| - 1].data
  }

  /** One beat after some words: it completes the n words of the packet exactly when it is the last. */
  lemma OneBeat(col: Collector, h: MemHdr, got: seq<Dw>, b: MemBeat)
    requires if b.hdr.Some? then b.hdr.value == h && got == [] else col == Collector(h, got)
    ensures var n, data := (h.lenBytes + 3) / 4, got + b.data;
            Collect(col, b)
              == if b.hdr == None && |got| > n then None
                 else if b.last then (if |data| >= n then Some(Collector(h, data[..n])) else None)
                 else if |data| < n then Some(Collector(h, data))
                 else None
  {
    var n, data := (h.lenBytes + 3) / 4, got + b.data;
    var cur := if b.hdr.Some? then Collector(h, []) else col;
    assert cur == Collector(h, got);
    if |got| <= n <= |data| {
      assert data[..n] == got + b.data[..n - |got|];
    }
  }

  /** A packet is collected exactly when the beat that completes its length is the one marked last,
      and then what was collected is that many words from the bus. */
  lemma {:induction false} CollectsExactly(col: Collector, h: MemHdr, beats: seq<MemBeat>)
    requires beats != [] && beats[0].hdr == Some(h)
    requires forall i :: 0 < i < |beats| ==> beats[i].hdr == None
    requires forall i :: 0 <= i < |beats| - 1 ==> !beats[i].last
    ensures var n, last := (h.lenBytes + 3) / 4, |beats| - 1;
            var before, data := Data(beats[..last]), Data(beats);
            CollectAll(col, beats)
              == if last > 0 && |before| >= n then None
                 else if beats[last].last then (if |data| >= n then Some(Collector(h, data[..n])) else None)
                 else if |data| < n then Some(Collector(h, data))
                 else None
  {
    hide Collect;
    var front, b := beats[..|beats| - 1], beats[|beats| - 1];
    if front == [] {
      OneBeat(col, h, [], b);
    } else {
      CollectsExactly(col, h, front);
      if CollectAll(col, front).Some? {
        OneBeat(CollectAll(col, front).value, h, Data(front), b);
      }
    }
  }

  /** The part of the head write that has been sent. */
  function Partial(m: Mmio): Collector
    requires MmioOk(m) && m.rem > 0
  {
    Collector(MmioHdr(m.queue[0]), m.queue[0].words[..m.queue[0].width / 32 - m.rem])
  }

  function Whole(p: MmioPkt): Collector
    requires ValidPkt(p)
  {
    Collector(MmioHdr(p), Payload(p))
  }

  lemma WordsOf(p: MmioPkt, lanes: nat, done: nat, n: nat)
    requires ValidPkt(p) && done + n <= p.width / 32 && n <= lanes
    ensures |Words(p, lanes, done, n)| == lanes
    ensures p.words[..done] + Words(p, lanes, done, n)[..n] == p.words[..done + n]
  {
    var data := Words(p, lanes, done, n);
    assert data[..n] == p.words[done..done + n];
  }

  lemma CollectWords(p: MmioPkt, lanes: nat, done: nat, n: nat, hdr: Option<MemHdr>, col: Collector)
    requires ValidPkt(p) && done + n <= p.width / 32 && n <= lanes
    requires n == lanes || done + n == p.width / 32
    requires if hdr.Some? then hdr.value == MmioHdr(p) && done == 0 else col == Collector(MmioHdr(p), p.words[..done])
    ensures var last := done + lanes >= p.width / 32;
            Collect(col, MemBeat(hdr, last, Words(p, lanes, done, n)))
              == Some(Collector(MmioHdr(p), p.words[..done + n]))
  {
    hide Words;
    WordsOf(p, lanes, done, n);
    var data := Words(p, lanes, done, n);
    assert data[..|data|] == data;
    assert p.words[..0] == [];
  }

  /** Collecting the next beat of a write adds exactly its words to what was collected before,
      on every bus at least as wide as a header. */
  lemma CollectSent(c: Config, m: Mmio, cycle: int, col: Collector)
    requires ValidConfig(c) && MmioOk(m) && m.queue != [] && m.queue[0].write
    requires m.rem > 0 ==> col == Partial(m)
    ensures var (m', b) := SendMmio(c, m, cycle);
            var p := m.queue[0];
            && MmioOk(m')
            && (b.last <==> m'.rem == 0)
            && Collect(col, b) == Some(if b.last then Whole(p) else Partial(m'))
  {
    var p := m.queue[0];
    var (m', b) := SendMmio(c, m, cycle);
    var lanes := if m.rem == 0 then c.tdataDw - HDR_DW else c.tdataDw;
    var left := if m.rem == 0 then p.width / 32 else m.rem;
    CollectWords(p, lanes, p.width / 32 - left, left - m'.rem, b.hdr, col);
  }

  // ---------------------------------------------------------------- the channel

  datatype HostState = Sop | InCpl | InMwr

  /** What a cycle puts on the bus. */
  datatype Out =
    | MsgOut
    | MemOut(mem: MemBeat)
    | CplOut(cpl: Entry)

  /** The channel with its history: the bus traffic and the MMIO requests sent completely. */
  datatype Channel = Channel(state: HostState, run: Run, mmio: Mmio, out: seq<Out>, sent: seq<MmioPkt>)

  /** A cycle of the channel, with whether the AFU is ready and whether a message waits. */
  datatype Tick = Tick(cycle: int, tready: bool, msg: bool)

  function EndsPacket(x: Out): bool
  {
    match x
    case MsgOut => true
    case MemOut(b) => b.last
    case CplOut(e) => e.beat.last
  }

  function StartsPacket(x: Out): bool
  {
    match x
    case MsgOut => true
    case MemOut(b) => b.hdr.Some?
    case CplOut(e) => e.beat.hdr.Some?
  }

  ghost predicate ChannelReady(c: Config, ch: Channel)
  {
    ValidConfig(c) && Inv(c, ch.run) && MmioOk(ch.mmio)
  }

  lemma ReadyToSend(c: Config, o: Oracle, r: Run, cycle: int)
    requires ValidConfig(c) && Inv(c, r)
    ensures CanStep(c, o, r, Cycle(cycle))
  {
    assert r.e.list != [] ==> r.e.list[0] in r.e.list && CplOk(c, r, r.e.list[0]);
  }

  /** A turn of the MMIO sender: the new channel, whether a beat was sent, and whether the
      sender is between packets. */
  ghost function MemTurn(c: Config, o: Oracle, ch: Channel, cycle: int): (Channel, bool, bool)
    requires c.tdataDw >= HDR_DW && MmioReady(ch.mmio)
  {
    var (refuse, draws) := MmioRefuses(o, ch.mmio, ch.run.e.draws, cycle);
    var ch1 := ch.(run := ch.run.(e := ch.run.e.(draws := draws)));
    if refuse then (ch1, false, true)
    else
      var (m, b) := SendMmio(c, ch.mmio, cycle);
      (ch1.(mmio := m, out := ch.out + [MemOut(b)], sent := if b.last then ch.sent + [ch.mmio.queue[0]] else ch.sent),
       true, b.last)
  }

  /** A turn of the completion sender. */
  ghost function CplTurn(c: Config, o: Oracle, ch: Channel, cycle: int): (Channel, bool, bool)
    requires ValidConfig(c) && ch.run.e.list != [] && CanStep(c, o, ch.run, Cycle(cycle))
  {
    var r := Next(c, o, ch.run, Cycle(cycle));
    if Stalled(c, o, ch.run.e, cycle) then (ch.(run := r), false, ch.run.e.rem == 0)
    else
      var b := HeadBeat(c, ch.run.e);
      (ch.(run := r, out := ch.out + [CplOut(Entry(ch.run.e.list[0].buf, b))]), true, b.last)
  }

  lemma MemTurnReady(c: Config, o: Oracle, ch: Channel, cycle: int)
    requires ChannelReady(c, ch) && MmioReady(ch.mmio)
    ensures ChannelReady(c, MemTurn(c, o, ch, cycle).0)
  {
    DrawsInv(c, ch.run, MmioRefuses(o, ch.mmio, ch.run.e.draws, cycle).1);
  }

  lemma CplTurnReady(c: Config, o: Oracle, ch: Channel, cycle: int)
    requires ChannelReady(c, ch) && ch.run.e.list != [] && CanStep(c, o, ch.run, Cycle(cycle))
    ensures ChannelReady(c, CplTurn(c, o, ch, cycle).0)
  {
    CycleInv(c, o, ch.run, Cycle(cycle));
  }

  /** What a cycle needs so that the senders find what they are about to send. */
  ghost predicate CanTick(c: Config, o: Oracle, ch: Channel, t: Tick)
  {
    && CanStep(c, o, ch.run, Cycle(t.cycle))
    && (ch.mmio.queue != [] ==> MmioReady(ch.mmio))
    && (ch.state == InMwr ==> ch.mmio.queue != [])
    && (ch.state == InCpl ==> ch.run.e.list != [])
  }

  /** A cycle of the channel: an arriving message goes first, then an MMIO request, then a
      completion; a packet under way keeps the channel. */
  ghost function ChannelCycle(c: Config, o: Oracle, ch: Channel, t: Tick): Channel
    requires ValidConfig(c) && CanTick(c, o, ch, t)
  {
    if !t.tready then ch
    else
      match ch.state
      case Sop =>
        if t.msg then ch.(out := ch.out + [MsgOut])
        else
          var (ch1, sent, done) :=
            if ch.mmio.queue != [] then MemTurn(c, o, ch, t.cycle) else (ch, false, true);
          if !done then ch1.(state := InMwr)
          else if !sent && ch1.run.e.list != [] then
            var (ch2, _, done2) := CplTurn(c, o, ch1, t.cycle);
            if !done2 then ch2.(state := InCpl) else ch2
          else ch1
      case InCpl =>
        var (ch1, _, done) := CplTurn(c, o, ch, t.cycle);
        if done then ch1.(state := Sop) else ch1
      case InMwr =>
        var (ch1, _, done) := MemTurn(c, o, ch, t.cycle);
        if done then ch1.(state := Sop) else ch1
  }

  // ---------------------------------------------------------------- the channel invariant

  /** A beat starts a packet exactly when the one before it ended one; otherwise it continues
      the same kind of packet, and for completions the same response. */
  ghost predicate FramedOut(out: seq<Out>, i: nat)
    requires i < |out|
  {
    if i == 0 || EndsPacket(out[i - 1]) then StartsPacket(out[i])
    else
      && !StartsPacket(out[i])
      && (out[i].MemOut? <==> out[i - 1].MemOut?)
      && (out[i].CplOut? ==> out[i - 1].CplOut? && out[i].cpl.buf == out[i - 1].cpl.buf)
  }

  /** The completion beats among the bus traffic. */
  function CplEntries(out: seq<Out>): seq<Entry>
  {
    if out == [] then []
    else
      var x := out[|out| - 1];
      CplEntries(out[..|out| - 1]) + (if x.CplOut? then [x.cpl] else [])
  }

  /** What a receiver that collects MMIO packets has: the complete ones and the current one. */
  datatype Received = Received(done: seq<Collector>, cur: Collector)

  function Receive(out: seq<Out>, none: Collector): Option<Received>
  {
    if out == [] then Some(Received([], none))
    else
      match (Receive(out[..|out| - 1], none), out[|out| - 1])
      case (Some(r), MemOut(b)) =>
        if b.hdr.Some? && !b.hdr.value.write then Some(Received(r.done + [Collector(b.hdr.value, [])], r.cur))
        else
          (match Collect(r.cur, b)
           case None => None
           case Some(col) => Some(if b.last then Received(r.done + [col], col) else r.(cur := col)))
      case (r, _) => r
  }

  function Wholes(s: seq<MmioPkt>): seq<Collector>
    requires forall i :: 0 <= i < |s| ==> ValidPkt(s[i])
  {
    seq(|s|, i requires 0 <= i < |s| => Whole(s[i]))
  }

  const NoMem := Collector(MemHdr(false, 0, 0, 0, 0, 0), [])

  /** The receiver has every request sent completely, with its payload, in order, and the sent
      part of the one under way. */
  ghost predicate Reassembled(ch: Channel)
  {
    && MmioOk(ch.mmio)
    && (forall i :: 0 <= i < |ch.sent| ==> ValidPkt(ch.sent[i]))
    && var r := Receive(ch.out, NoMem);
       && r.Some?
       && r.value.done == Wholes(ch.sent)
       && (ch.mmio.rem > 0 ==> r.value.cur == Partial(ch.mmio))
  }

  /** The state says which sender is in the middle of a packet, and the bus agrees. */
  ghost predicate BusFramed(ch: Channel)
  {
    && (ch.state == InCpl <==> ch.run.e.rem > 0)
    && (ch.state == InMwr <==> ch.mmio.rem > 0)
    && (forall i :: 0 <= i < |ch.out| ==> FramedOut(ch.out, i))
    && (ch.state == Sop <==> ch.out == [] || EndsPacket(ch.out[|ch.out| - 1]))
    && (ch.state == InMwr ==> ch.out[|ch.out| - 1].MemOut?)
    && (ch.state == InCpl ==> ch.out[|ch.out| - 1].CplOut?)
  }

  ghost predicate ChannelInv(c: Config, ch: Channel)
  {
    && ChannelReady(c, ch)
    && BusFramed(ch)
    && Reassembled(ch)
    && CplEntries(ch.out) == ch.run.log
    && (ch.state == InCpl ==> ch.run.e.list != [] && ch.out[|ch.out| - 1].cpl.buf == ch.run.e.list[0].buf)
  }
}
