/** End-to-end delivery: over every run of the read completion engine, the AFU receives each
    response exactly, in order, in packets that never interleave. */
module ReadDelivery {
  import opened Wrappers
  import opened ByteEnables
  import opened ReadCompletion
  import opened ReadEngine

  /** A beat on the bus together with the response it belongs to. */
  datatype Entry = Entry(buf: nat, beat: Beat)

  /** The engine and the history of a run: the beats sent so far, and for every response
      buffer its request and its data, and the indices on the free list. */
  datatype Run = Run(e: Engine, log: seq<Entry>, reqs: seq<Req>, resp: seq<seq<Byte>>, free: seq<nat>)

  /** What can happen next: a request arrives, the memory model answers an outstanding tag,
      or the host-to-AFU channel has a cycle for completions. */
  datatype Event =
    | Request(hdr: ReadHdr, tlast: bool, reqCycle: int)
    | Response(tag: nat, data: seq<Byte>)
    | Cycle(cycle: int)

  function InitRun(c: Config, draws: nat): Run
  {
    Run(InitEngine(c, draws), [], [], [], seq(c.numStates, i => i))
  }

  // ---------------------------------------------------------------- delivered data

  /** Everything the AFU has received for response h. */
  function Sent(log: seq<Entry>, h: nat): seq<Byte>
  {
    if log == [] then []
    else
      var last := log[|log| - 1];
      Sent(log[..|log| - 1], h)
      + (if last.buf == h && |last.beat.data| == |last.beat.keep| then Kept(last.beat.data, last.beat.keep) else [])
  }

  /** Bytes of the head completion that are already on the bus. */
  function HeadSent(list: seq<Cpl>, rem: nat): int
  {
    if list == [] || rem == 0 then 0 else 4 * (LenDw(list[0].lenBytes) - rem)
  }

  /** How far response h has been delivered, from the completions still pending for it. */
  function Progress(list: seq<Cpl>, rem: nat, h: nat, total: nat): int
  {
    var mine := Of(list, h);
    if mine == [] then total
    else 4 * mine[0].startDw + (if list[0].buf == h then HeadSent(list, rem) else 0)
  }

  /** The pending completions of a response continue one another up to its end, and only the
      final one is marked last. */
  ghost predicate Chain(s: seq<Cpl>, total: nat)
  {
    s != [] ==>
      && s[0].isLast == (|s| == 1)
      && 4 * s[0].startDw + s[0].lenBytes == (if |s| == 1 then total else 4 * s[1].startDw)
      && Chain(s[1..], total)
  }

  // ---------------------------------------------------------------- the invariant

  /** A pending completion is one of the pieces of its response, and its data is allocated. */
  ghost predicate CplOk(c: Config, r: Run, p: Cpl)
  {
    && p.state < c.numStates
    && p.buf < |r.resp| == |r.reqs|
    && p.lenBytes > 0
    && 4 * p.startDw + p.lenBytes <= |r.resp[p.buf]|
    && LegalReq(c, r.reqs[p.buf])
    && |r.resp[p.buf]| == r.reqs[p.buf].lenBytes
    && p.byteCount == Remaining(r.reqs[p.buf], p.startDw)
    && p.isFirst == (p.startDw == 0)
    && p.buf in r.e.bufs
    && r.resp[p.buf] <= r.e.bufs[p.buf]
    && |r.e.bufs[p.buf]| == MaxAnyRd(c)
  }

  /** A buffer holds the response to one request, so it belongs to one read state. */
  ghost predicate OneStatePerBuf(list: seq<Cpl>)
  {
    forall p, q :: p in list && q in list && p.buf == q.buf ==> p.state == q.state
  }

  ghost predicate Shape(c: Config, r: Run)
  {
    && StatesOk(c, r.e)
    && |r.reqs| == |r.resp| == r.e.nextBuf
    && (forall p :: p in r.e.list ==> CplOk(c, r, p))
    && OneStatePerBuf(r.e.list)
    && (r.e.rem > 0 ==> r.e.list != [] && r.e.rem <= LenDw(r.e.list[0].lenBytes))
    && (forall i :: 0 <= i < |r.log| ==> r.log[i].buf < |r.resp|)
  }

  /** Response h has been delivered up to its progress, no byte missing or repeated. */
  ghost predicate DeliveredUpTo(r: Run, h: nat)
    requires h < |r.resp|
  {
    var p := Progress(r.e.list, r.e.rem, h, |r.resp[h]|);
    && Chain(Of(r.e.list, h), |r.resp[h]|)
    && 0 <= p <= |r.resp[h]|
    && Sent(r.log, h) == r.resp[h][..p]
  }

  ghost predicate Delivery(r: Run)
  {
    forall h :: 0 <= h < |r.resp| ==> DeliveredUpTo(r, h)
  }

  /** The low address due after some bytes of a request: that of the next byte, or of the first
      enabled one at the start; for data-mover reads the offset from the start. */
  function DueAddr(req: Req, done: nat): nat
  {
    if req.dm then done
    else if done == 0 && req.firstBe != 0 then (req.addr + Lowest(req.firstBe)) % 0x1_0000_0000
    else (req.addr + done) % 0x1_0000_0000
  }

  /** A packet header announces the tag of its request, the enabled bytes not delivered
      before this packet, the address of its data, and whether it is the request's last. */
  ghost predicate HeaderOk(reqs: seq<Req>, before: seq<Entry>, entry: Entry)
  {
    entry.beat.hdr.Some? ==>
      var hdr := entry.beat.hdr.value;
      var done := |Sent(before, entry.buf)|;
      && entry.buf < |reqs|
      && done % 4 == 0
      && LegalMasks(LenDw(reqs[entry.buf].lenBytes), reqs[entry.buf].firstBe, reqs[entry.buf].lastBe)
      && hdr.byteCount == Remaining(reqs[entry.buf], done / 4)
      && hdr.tag == reqs[entry.buf].tag && hdr.dm == reqs[entry.buf].dm
      && hdr.lowAddr == DueAddr(reqs[entry.buf], done)
      && hdr.fc == (done + hdr.lenBytes == reqs[entry.buf].lenBytes)
  }

  /** A beat starts a packet exactly when the beat before it ended one, and continues the
      same response otherwise. */
  ghost predicate Framed(log: seq<Entry>, i: nat)
    requires i < |log|
  {
    if i == 0 || log[i - 1].beat.last then log[i].beat.hdr.Some?
    else log[i].beat.hdr == None && log[i].buf == log[i - 1].buf
  }

  ghost predicate LogOk(reqs: seq<Req>, log: seq<Entry>)
  {
    forall i :: 0 <= i < |log| ==> Framed(log, i) && HeaderOk(reqs, log[..i], log[i])
  }

  /** The sender is in the middle of a packet exactly when the last beat did not end one. */
  ghost predicate Framing(r: Run)
  {
    && LogOk(r.reqs, r.log)
    && (r.e.rem > 0 <==> r.log != [] && !r.log[|r.log| - 1].beat.last)
    && (r.e.rem > 0 ==> r.e.list != [] && r.e.list[0].buf == r.log[|r.log| - 1].buf)
  }

  /** What had been delivered of its response when the latest packet began, and the length that
      its header announced. */
  function Opened(log: seq<Entry>): (int, int)
  {
    if log == [] then (0, 0)
    else
      var x := log[|log| - 1];
      if x.beat.hdr.Some? then (|Sent(log[..|log| - 1], x.buf)|, x.beat.hdr.value.lenBytes)
      else Opened(log[..|log| - 1])
  }

  /** A packet that ends has delivered as many bytes as its header announced. */
  ghost predicate LengthOk(log: seq<Entry>, i: nat)
    requires i < |log|
  {
    log[i].beat.last ==>
      var (done, len) := Opened(log[..i + 1]);
      |Sent(log[..i + 1], log[i].buf)| == done + len
  }

  ghost predicate Lengths(r: Run)
  {
    && (forall i :: 0 <= i < |r.log| ==> LengthOk(r.log, i))
    && (r.e.rem > 0 ==> r.e.list != [] && Opened(r.log) == (4 * r.e.list[0].startDw, r.e.list[0].lenBytes))
  }

  /** The completions whose header is still to be sent. */
  function Unstarted(e: Engine): seq<Cpl>
  {
    if e.rem > 0 && e.list != [] then e.list[1..] else e.list
  }

  ghost predicate HasLast(e: Engine, st: nat)
  {
    exists p :: p in Unstarted(e) && p.state == st && p.isLast
  }

  /** A read state is busy exactly while its request is in the memory model or its last
      completion has not started, and it then describes that one request. */
  ghost predicate Tags(c: Config, r: Run)
    requires Shape(c, r)
  {
    var e := r.e;
    && (forall t :: t in e.inflight ==> t < c.numStates && e.states[t].busy && LegalReq(c, e.states[t].req))
    && (forall p :: p in Unstarted(e) ==>
          && p.state < c.numStates
          && p.buf < |r.reqs|
          && e.states[p.state].busy
          && e.states[p.state].req == r.reqs[p.buf]
          && p.state !in e.inflight)
    && (forall p, q :: p in Unstarted(e) && q in Unstarted(e) && p.state == q.state ==> p.buf == q.buf)
    && (forall s :: 0 <= s < c.numStates && e.states[s].busy && s !in e.inflight ==> HasLast(e, s))
  }

  /** Entry i of the free list is idle and points at entry i + 1. */
  ghost predicate Link(states: seq<RdState>, free: seq<nat>, i: nat)
    requires i < |free|
  {
    && free[i] < |states|
    && !states[free[i]].busy
    && states[free[i]].startCycle == (if i + 1 < |free| then free[i + 1] else READ_STATE_NULL)
  }

  /** The list threaded through startCycle visits each idle index once and ends. */
  ghost predicate FreeChain(states: seq<RdState>, head: int, free: seq<nat>)
  {
    && head == (if free == [] then READ_STATE_NULL else free[0])
    && (forall i :: 0 <= i < |free| ==> Link(states, free, i))
    && (forall i, j :: 0 <= i < j < |free| ==> free[i] != free[j])
    && (forall s :: 0 <= s < |states| && !states[s].busy ==> s in free)
  }

  ghost predicate FreeOk(c: Config, r: Run)
  {
    c.tagMapper ==> FreeChain(r.e.states, r.e.freeHead, r.free)
  }

  ghost predicate Inv(c: Config, r: Run)
  {
    && Shape(c, r)
    && Tags(c, r)
    && FreeOk(c, r)
    && Delivery(r)
    && Framing(r)
    && Lengths(r)
  }

  // ---------------------------------------------------------------- steps

  /** What the code needs to take a step without an error that ends the simulation. */
  ghost predicate CanStep(c: Config, o: Oracle, r: Run, ev: Event)
  {
    match ev
    case Request(hdr, tlast, cycle) =>
      && Unpacked(hdr)
      && StatesOk(c, r.e)
      && CheckRead(c, hdr, tlast).Some?
      && Accept(c, r.e, CheckRead(c, hdr, tlast).value, cycle).Some?
    case Response(tag, data) =>
      && tag in r.e.inflight
      && tag < |r.e.states|
      && LegalReq(c, r.e.states[tag].req)
      && |data| == MaxAnyRd(c)
    case Cycle(cycle) =>
      r.e.list != [] ==>
        && r.e.list[0].state < |r.e.states|
        && r.e.list[0].buf in r.e.bufs
        && r.e.rem <= LenDw(r.e.list[0].lenBytes)
  }

  function Released(c: Config, o: Oracle, r: Run, cycle: int): bool
    requires r.e.list != [] && r.e.list[0].state < |r.e.states|
  {
    !Stalled(c, o, r.e, cycle) && r.e.rem == 0 && r.e.list[0].isLast
  }

  ghost function Next(c: Config, o: Oracle, r: Run, ev: Event): Run
    requires ValidConfig(c) && CanStep(c, o, r, ev)
  {
    match ev
    case Request(hdr, tlast, cycle) =>
      var a := Accept(c, r.e, CheckRead(c, hdr, tlast).value, cycle).value;
      r.(e := a.0, free := if c.tagMapper && r.free != [] then r.free[1..] else r.free)
    case Response(tag, data) =>
      var req := r.e.states[tag].req;
      r.(e := Respond(c, o, r.e, tag, data), reqs := r.reqs + [req], resp := r.resp + [data[..req.lenBytes]])
    case Cycle(cycle) =>
      if r.e.list == [] then r
      else
        var (e, beat) := Send(c, o, r.e, cycle);
        r.(e := e,
           log := r.log + (if beat.Some? then [Entry(r.e.list[0].buf, beat.value)] else []),
           free := if c.tagMapper && Released(c, o, r, cycle) then [r.e.list[0].state] + r.free else r.free)
  }

  // ---------------------------------------------------------------- initial state

  lemma {:induction false} InitStatesAt(n: nat, i: nat)
    requires i <= n
    ensures var s := InitStates(n, i);
            && |s| == n - i
            && forall k :: 0 <= k < n - i ==>
                 s[k] == RdState(if i + k == n - 1 then READ_STATE_NULL else i + k + 1, NoReq, false)
    decreases n - i
  {
    if i < n {
      InitStatesAt(n, i + 1);
    }
  }

  lemma InitInv(c: Config, draws: nat)
    requires ValidConfig(c)
    ensures Inv(c, InitRun(c, draws))
  {
    InitStatesAt(c.numStates, 0);
    var r := InitRun(c, draws);
    forall s | 0 <= s < |r.e.states|
      ensures s in r.free
    {
      assert r.free[s] == s;
    }
  }
}
