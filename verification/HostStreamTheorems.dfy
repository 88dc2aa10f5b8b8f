/** Every cycle of the host-to-AFU channel keeps packets whole and delivers what was queued. */
module HostStreamTheorems {
  import opened ReadCompletion
  import opened ReadEngine
  import opened ReadDelivery
  import opened ReadDeliveryProof
  import opened HostStream

  lemma FramedMore(out: seq<Out>, x: Out)
    requires forall i :: 0 <= i < |out| ==> FramedOut(out, i)
    requires FramedOut(out + [x], |out|)
    ensures forall i :: 0 <= i < |out| + 1 ==> FramedOut(out + [x], i)
  {
    forall i | 0 <= i < |out|
      ensures FramedOut(out + [x], i)
    {
      assert FramedOut(out, i);
    }
  }

  lemma OutOne(out: seq<Out>, x: Out)
    ensures (out + [x])[..|out|] == out
    ensures CplEntries(out + [x]) == CplEntries(out) + (if x.CplOut? then [x.cpl] else [])
  {
    assert (out + [x])[..|out|] == out;
  }

  lemma WholesMore(s: seq<MmioPkt>, p: MmioPkt)
    requires forall i :: 0 <= i < |s| ==> ValidPkt(s[i])
    requires ValidPkt(p)
    ensures Wholes(s + [p]) == Wholes(s) + [Whole(p)]
  {
  }

  // ---------------------------------------------------------------- turns

  /** The state after a turn of the MMIO sender. */
  ghost function AfterMem(c: Config, o: Oracle, ch: Channel, cycle: int): Channel
    requires c.tdataDw >= HDR_DW && MmioReady(ch.mmio)
  {
    var (ch1, _, done) := MemTurn(c, o, ch, cycle);
    ch1.(state := if done then Sop else InMwr)
  }

  ghost function AfterCpl(c: Config, o: Oracle, ch: Channel, cycle: int): Channel
    requires ValidConfig(c) && ch.run.e.list != [] && CanStep(c, o, ch.run, Cycle(cycle))
  {
    var (ch1, _, done) := CplTurn(c, o, ch, cycle);
    ch1.(state := if done then Sop else InCpl)
  }

  lemma MemReassembled(c: Config, o: Oracle, ch: Channel, cycle: int)
    requires ChannelReady(c, ch) && MmioReady(ch.mmio) && Reassembled(ch)
    ensures Reassembled(MemTurn(c, o, ch, cycle).0)
  {
    hide Inv;
    var (refuse, _) := MmioRefuses(o, ch.mmio, ch.run.e.draws, cycle);
    if !refuse {
      var (m, b) := SendMmio(c, ch.mmio, cycle);
      var p := ch.mmio.queue[0];
      OutOne(ch.out, MemOut(b));
      WholesMore(ch.sent, p);
      if p.write {
        CollectSent(c, ch.mmio, cycle, Receive(ch.out, NoMem).value.cur);
      }
    }
  }

  lemma MemFramed(ch: Channel, ch': Channel, b: MemBeat)
    requires BusFramed(ch) && ch.state != InCpl && ch'.run.e.rem == ch.run.e.rem
    requires ch'.out == ch.out + [MemOut(b)]
    requires b.hdr.Some? <==> ch.mmio.rem == 0
    requires b.last <==> ch'.mmio.rem == 0
    requires ch'.state == if b.last then Sop else InMwr
    ensures BusFramed(ch')
  {
    FramedMore(ch.out, MemOut(b));
  }

  lemma SendShape(c: Config, m: Mmio, cycle: int)
    requires c.tdataDw >= HDR_DW && MmioOk(m) && MmioReady(m)
    ensures var (m', b) := SendMmio(c, m, cycle);
            && (b.hdr.Some? <==> m.rem == 0) && (b.last <==> m'.rem == 0)
  {
  }

  /** What a turn of the MMIO sender does to the channel. */
  lemma MemTurnShape(c: Config, o: Oracle, ch: Channel, cycle: int)
    requires ChannelReady(c, ch) && MmioReady(ch.mmio)
    ensures var (ch1, sent, done) := MemTurn(c, o, ch, cycle);
            && ch1.state == ch.state && ch1.run == ch.run.(e := ch.run.e.(draws := ch1.run.e.draws))
            && (!sent ==> done && ch.mmio.rem == 0 && ch1.mmio == ch.mmio && ch1.out == ch.out && ch1.sent == ch.sent)
            && (sent ==>
                  var b := SendMmio(c, ch.mmio, cycle).1;
                  && ch1.out == ch.out + [MemOut(b)] && done == b.last
                  && (b.hdr.Some? <==> ch.mmio.rem == 0) && (b.last <==> ch1.mmio.rem == 0))
  {
    SendShape(c, ch.mmio, cycle);
    hide Inv, SendMmio, MmioOk;
  }

  lemma MemTurnInv(c: Config, o: Oracle, ch: Channel, cycle: int)
    requires ChannelInv(c, ch) && MmioReady(ch.mmio) && ch.state != InCpl
    ensures ChannelInv(c, AfterMem(c, o, ch, cycle))
    ensures !MemTurn(c, o, ch, cycle).1 ==> MemTurn(c, o, ch, cycle).2 && ch.state == Sop
  {
    hide MemTurn, Inv, SendMmio, FramedOut, Reassembled, MmioOk, CplEntries, EndsPacket;
    MemTurnReady(c, o, ch, cycle);
    MemReassembled(c, o, ch, cycle);
    MemTurnShape(c, o, ch, cycle);
    var (ch1, sent, done) := MemTurn(c, o, ch, cycle);
    var ch' := AfterMem(c, o, ch, cycle);
    SameReassembled(ch1, ch');
    if sent {
      var b := SendMmio(c, ch.mmio, cycle).1;
      OutOne(ch.out, MemOut(b));
      MemFramed(ch, ch', b);
    }
  }

  lemma SameReassembled(ch: Channel, ch': Channel)
    requires Reassembled(ch) && ch'.mmio == ch.mmio && ch'.sent == ch.sent && ch'.out == ch.out
    ensures Reassembled(ch')
  {
  }

  lemma CplReassembled(ch: Channel, ch': Channel, x: Out)
    requires Reassembled(ch) && ch'.mmio == ch.mmio && ch'.sent == ch.sent && ch'.out == ch.out + [x] && !x.MemOut?
    ensures Reassembled(ch')
  {
    OutOne(ch.out, x);
  }

  lemma CplTurnInv(c: Config, o: Oracle, ch: Channel, cycle: int)
    requires ChannelInv(c, ch) && ch.run.e.list != [] && ch.state != InMwr
    requires CanStep(c, o, ch.run, Cycle(cycle))
    ensures ChannelInv(c, AfterCpl(c, o, ch, cycle))
  {
    hide Inv, Receive, Wholes, FramedOut;
    CplTurnReady(c, o, ch, cycle);
    if Stalled(c, o, ch.run.e, cycle) {
      assert ch.run.log + [] == ch.run.log;
    } else {
      CplSendInv(c, o, ch, cycle);
    }
  }

  /** What a turn of the completion sender does to the channel when it is not stalled. */
  lemma CplTurnShape(c: Config, o: Oracle, ch: Channel, cycle: int)
    requires ValidConfig(c) && Shape(c, ch.run) && ch.run.e.list != [] && CanStep(c, o, ch.run, Cycle(cycle))
    requires !Stalled(c, o, ch.run.e, cycle)
    ensures var ch', head, b := AfterCpl(c, o, ch, cycle), ch.run.e.list[0], HeadBeat(c, ch.run.e);
            && ch'.run == CplTurn(c, o, ch, cycle).0.run && ch'.mmio == ch.mmio && ch'.sent == ch.sent
            && ch'.out == ch.out + [CplOut(Entry(head.buf, b))]
            && ch'.run.log == ch.run.log + [Entry(head.buf, b)]
            && ch'.state == (if b.last then Sop else InCpl)
            && (b.hdr.Some? <==> ch.run.e.rem == 0) && (b.last <==> ch'.run.e.rem == 0)
  {
    hide CplOk;
    SendEffect(c, o, ch.run, Cycle(cycle));
  }

  lemma CplSendInv(c: Config, o: Oracle, ch: Channel, cycle: int)
    requires ChannelInv(c, ch) && ch.run.e.list != [] && ch.state != InMwr
    requires CanStep(c, o, ch.run, Cycle(cycle)) && !Stalled(c, o, ch.run.e, cycle)
    requires ChannelReady(c, CplTurn(c, o, ch, cycle).0)
    ensures ChannelInv(c, AfterCpl(c, o, ch, cycle))
  {
    hide HeadBeat, CplTurn, AfterCpl, CplEntries, FramedOut, Reassembled, Tags, Delivery, Lengths, FreeOk, MmioOk;
    hide Stalled, LogOk, CplOk, OneStatePerBuf;
    var x := CplOut(Entry(ch.run.e.list[0].buf, HeadBeat(c, ch.run.e)));
    var ch' := AfterCpl(c, o, ch, cycle);
    CplTurnShape(c, o, ch, cycle);
    OutOne(ch.out, x);
    CplReassembled(ch, ch', x);
    CplFramed(ch, ch', x);
  }

  lemma CplFramed(ch: Channel, ch': Channel, x: Out)
    requires BusFramed(ch) && ch.state != InMwr && ch'.mmio == ch.mmio
    requires ch'.out == ch.out + [x] && x.CplOut?
    requires x.cpl.beat.hdr.Some? <==> ch.run.e.rem == 0
    requires x.cpl.beat.last <==> ch'.run.e.rem == 0
    requires ch.state == InCpl ==> x.cpl.buf == ch.out[|ch.out| - 1].cpl.buf
    requires ch'.state == if x.cpl.beat.last then Sop else InCpl
    ensures BusFramed(ch')
  {
    FramedMore(ch.out, x);
  }

  lemma MsgInv(c: Config, ch: Channel)
    requires ChannelInv(c, ch) && ch.state == Sop
    ensures ChannelInv(c, ch.(out := ch.out + [MsgOut]))
  {
    OutOne(ch.out, MsgOut);
    FramedMore(ch.out, MsgOut);
    CplReassembled(ch, ch.(out := ch.out + [MsgOut]), MsgOut);
  }

  // ---------------------------------------------------------------- cycles

  /** A cycle is always possible. */
  lemma TickPossible(c: Config, o: Oracle, ch: Channel, t: Tick)
    requires ChannelInv(c, ch)
    ensures CanTick(c, o, ch, t)
  {
    ReadyToSend(c, o, ch.run, t.cycle);
  }

  /** Drawing random numbers does not change what can be sent. */
  lemma StillReady(c: Config, o: Oracle, ch: Channel, cycle: int)
    requires c.tdataDw >= HDR_DW && MmioReady(ch.mmio) && CanStep(c, o, ch.run, Cycle(cycle))
    ensures CanStep(c, o, MemTurn(c, o, ch, cycle).0.run, Cycle(cycle))
    ensures MemTurn(c, o, ch, cycle).0.state == ch.state
  {
    hide SendMmio;
  }

  /** Framing and reassembly survive every cycle, whatever arrives and whatever is drawn. */
  lemma CycleKeepsInv(c: Config, o: Oracle, ch: Channel, t: Tick)
    requires ChannelInv(c, ch) && CanTick(c, o, ch, t)
    ensures ChannelInv(c, ChannelCycle(c, o, ch, t))
  {
    hide BusFramed, Reassembled, CplEntries, Inv, MemTurn, CplTurn, CanStep;
    if t.tready {
      match ch.state {
        case Sop =>
          if t.msg {
            MsgInv(c, ch);
          } else if ch.mmio.queue != [] {
            StillReady(c, o, ch, t.cycle);
            MemTurnInv(c, o, ch, t.cycle);
            var (ch1, sent, done) := MemTurn(c, o, ch, t.cycle);
            if done && !sent && ch1.run.e.list != [] {
              assert ch1.(state := Sop) == ch1;
              CplTurnInv(c, o, ch1, t.cycle);
              CplTurnState(c, o, ch1, t.cycle);
            }
          } else if ch.run.e.list != [] {
            CplTurnInv(c, o, ch, t.cycle);
            CplTurnState(c, o, ch, t.cycle);
          }
        case InCpl =>
          CplTurnInv(c, o, ch, t.cycle);
          CplTurnState(c, o, ch, t.cycle);
        case InMwr =>
          StillReady(c, o, ch, t.cycle);
          MemTurnInv(c, o, ch, t.cycle);
      }
    }
  }

  lemma CplTurnState(c: Config, o: Oracle, ch: Channel, cycle: int)
    requires ValidConfig(c) && ch.run.e.list != [] && CanStep(c, o, ch.run, Cycle(cycle))
    ensures CplTurn(c, o, ch, cycle).0.state == ch.state
  {
    hide Next, HeadBeat;
  }

  /** A new MMIO request joins the queue. */
  lemma NewRequestInv(c: Config, ch: Channel, p: MmioPkt)
    requires ChannelInv(c, ch) && ValidPkt(p)
    ensures ChannelInv(c, ch.(mmio := ch.mmio.(queue := ch.mmio.queue + [p])))
  {
  }

  /** Read requests and memory responses leave a packet under way alone. */
  lemma ReadEventFrame(c: Config, o: Oracle, r: Run, ev: Event)
    requires ValidConfig(c) && Inv(c, r) && !ev.Cycle? && CanStep(c, o, r, ev)
    ensures var r' := Next(c, o, r, ev);
            && r'.log == r.log && r'.e.rem == r.e.rem
            && (r.e.list != [] ==> r'.e.list != [] && r'.e.list[0] == r.e.list[0])
  {
    if ev.Response? {
      ResponseKeepsHead(c, o, r, ev);
    }
  }

  lemma ReadEventInv(c: Config, o: Oracle, ch: Channel, ev: Event)
    requires ChannelInv(c, ch) && !ev.Cycle? && CanStep(c, o, ch.run, ev)
    ensures ChannelInv(c, ch.(run := Next(c, o, ch.run, ev)))
  {
    hide Next, Inv, FramedOut, CplEntries, Receive, Wholes, MmioOk;
    ReadEventFrame(c, o, ch.run, ev);
    if ev.Request? {
      RequestInv(c, o, ch.run, ev);
    } else {
      ResponseInv(c, o, ch.run, ev);
    }
  }

  lemma ResponseKeepsHead(c: Config, o: Oracle, r: Run, ev: Event)
    requires ValidConfig(c) && Inv(c, r) && ev.Response? && CanStep(c, o, r, ev)
    ensures r.e.list != [] ==> Next(c, o, r, ev).e.list != [] && Next(c, o, r, ev).e.list[0] == r.e.list[0]
  {
    assert forall p :: p in r.e.list ==> CplOk(c, r, p);
    var made := SplitResult(c, o, r.e.states[ev.tag].req, ev.tag, r.e.nextBuf, r.e.list, r.e.draws);
  }

  // ---------------------------------------------------------------- runs

  datatype Action = Ticks(t: Tick) | NewMmio(p: MmioPkt) | Reads(ev: Event)

  ghost predicate CanAct(c: Config, o: Oracle, ch: Channel, a: Action)
    requires ValidConfig(c)
  {
    match a
    case Ticks(t) => CanTick(c, o, ch, t)
    case NewMmio(p) => ValidPkt(p)
    case Reads(ev) => !ev.Cycle? && CanStep(c, o, ch.run, ev)
  }

  ghost function Act(c: Config, o: Oracle, ch: Channel, a: Action): Channel
    requires ValidConfig(c) && CanAct(c, o, ch, a)
  {
    match a
    case Ticks(t) => ChannelCycle(c, o, ch, t)
    case NewMmio(p) => ch.(mmio := ch.mmio.(queue := ch.mmio.queue + [p]))
    case Reads(ev) => ch.(run := Next(c, o, ch.run, ev))
  }

  function InitChannel(c: Config, draws: nat, cycle: int): Channel
  {
    Channel(Sop, InitRun(c, draws), Mmio([], 0, cycle), [], [])
  }

  /** The MMIO requests that arrived, in order. */
  function Arrived(actions: seq<Action>): seq<MmioPkt>
  {
    if actions == [] then []
    else
      Arrived(actions[..|actions| - 1])
      + (match actions[|actions| - 1] case NewMmio(p) => [p] case _ => [])
  }

  /** A run of the channel. */
  ghost predicate ChannelRun(c: Config, o: Oracle, trace: seq<Channel>, actions: seq<Action>)
    requires ValidConfig(c)
  {
    && |trace| == |actions| + 1
    && (exists draws: nat, cycle: int :: trace[0] == InitChannel(c, draws, cycle))
    && forall i :: 0 <= i < |actions| ==>
         CanAct(c, o, trace[i], actions[i]) && trace[i + 1] == Act(c, o, trace[i], actions[i])
  }

  lemma MemConserves(c: Config, o: Oracle, ch: Channel, cycle: int)
    requires c.tdataDw >= HDR_DW && MmioReady(ch.mmio)
    ensures var ch' := MemTurn(c, o, ch, cycle).0;
            ch'.sent + ch'.mmio.queue == ch.sent + ch.mmio.queue
  {
    MoveHead(ch.sent, ch.mmio.queue);
    var (refuse, _) := MmioRefuses(o, ch.mmio, ch.run.e.draws, cycle);
    if !refuse {
      var (m, b) := SendMmio(c, ch.mmio, cycle);
      assert m.queue == if b.last then ch.mmio.queue[1..] else ch.mmio.queue;
    }
  }

  lemma MoveHead(a: seq<MmioPkt>, q: seq<MmioPkt>)
    requires q != []
    ensures (a + [q[0]]) + q[1..] == a + q
  {
  }

  lemma CplConserves(c: Config, o: Oracle, ch: Channel, cycle: int)
    requires ValidConfig(c) && ch.run.e.list != [] && CanStep(c, o, ch.run, Cycle(cycle))
    ensures CplTurn(c, o, ch, cycle).0.sent == ch.sent && CplTurn(c, o, ch, cycle).0.mmio == ch.mmio
  {
  }

  lemma CycleConserves(c: Config, o: Oracle, ch: Channel, t: Tick)
    requires ValidConfig(c) && CanTick(c, o, ch, t)
    ensures var ch' := ChannelCycle(c, o, ch, t);
            ch'.sent + ch'.mmio.queue == ch.sent + ch.mmio.queue
  {
    hide MemTurn, CplTurn, CanStep;
    if t.tready && !(ch.state == Sop && t.msg) {
      var ch1 := ch;
      if ch.state != InCpl && ch.mmio.queue != [] {
        StillReady(c, o, ch, t.cycle);
        MemConserves(c, o, ch, t.cycle);
        ch1 := MemTurn(c, o, ch, t.cycle).0;
      }
      if ch1.run.e.list != [] {
        CplConserves(c, o, ch1, t.cycle);
      }
    }
  }

  lemma StartInv(c: Config, draws: nat, cycle: int)
    requires ValidConfig(c)
    ensures var ch := InitChannel(c, draws, cycle); ChannelInv(c, ch) && ch.sent + ch.mmio.queue == []
  {
    hide Inv;
    InitInv(c, draws);
  }

  lemma ArrivedOne(actions: seq<Action>, i: nat)
    requires i < |actions|
    ensures Arrived(actions[..i + 1])
         == Arrived(actions[..i]) + (match actions[i] case NewMmio(p) => [p] case _ => [])
  {
    assert actions[..i + 1][..i] == actions[..i];
  }

  lemma {:induction false} RunInv(c: Config, o: Oracle, trace: seq<Channel>, actions: seq<Action>, i: nat)
    requires ValidConfig(c) && ChannelRun(c, o, trace, actions) && i < |trace|
    ensures ChannelInv(c, trace[i])
    ensures trace[i].sent + trace[i].mmio.queue == Arrived(actions[..i])
  {
    hide ChannelInv, InitChannel, Act, CanAct;
    if i == 0 {
      var draws: nat, cycle: int :| trace[0] == InitChannel(c, draws, cycle);
      StartInv(c, draws, cycle);
    } else {
      RunInv(c, o, trace, actions, i - 1);
      ArrivedOne(actions, i - 1);
      ActInv(c, o, trace[i - 1], actions[i - 1]);
    }
  }

  lemma ActInv(c: Config, o: Oracle, ch: Channel, a: Action)
    requires ValidConfig(c) && ChannelInv(c, ch) && CanAct(c, o, ch, a)
    ensures ChannelInv(c, Act(c, o, ch, a))
    ensures var ch' := Act(c, o, ch, a);
            ch'.sent + ch'.mmio.queue == ch.sent + ch.mmio.queue + (match a case NewMmio(p) => [p] case _ => [])
  {
    match a {
      case Ticks(t) =>
        CycleKeepsInv(c, o, ch, t);
        CycleConserves(c, o, ch, t);
      case NewMmio(p) =>
        NewRequestInv(c, ch, p);
        assert (ch.sent + ch.mmio.queue) + [p] == ch.sent + (ch.mmio.queue + [p]);
      case Reads(ev) =>
        ReadEventInv(c, o, ch, ev);
    }
  }

  /** In every state of every run a cycle is possible, whatever arrives in it. */
  lemma TicksAlwaysPossible(c: Config, o: Oracle, trace: seq<Channel>, actions: seq<Action>, i: nat, t: Tick)
    requires ValidConfig(c) && ChannelRun(c, o, trace, actions) && i < |trace|
    ensures CanAct(c, o, trace[i], Ticks(t))
  {
    RunInv(c, o, trace, actions, i);
    TickPossible(c, o, trace[i], t);
  }

  /** Over every run: the channel state is exactly the sender with an unfinished packet, and
      packets of different senders never interleave. */
  lemma PacketsStayWhole(c: Config, o: Oracle, trace: seq<Channel>, actions: seq<Action>, i: nat)
    requires ValidConfig(c) && ChannelRun(c, o, trace, actions) && i < |trace|
    ensures trace[i].state == InCpl <==> trace[i].run.e.rem > 0
    ensures trace[i].state == InMwr <==> trace[i].mmio.rem > 0
    ensures forall k :: 0 <= k < |trace[i].out| ==> FramedOut(trace[i].out, k)
  {
    RunInv(c, o, trace, actions, i);
  }

  /** What a receiver has of an MMIO request that arrived whole. */
  predicate CollectedAs(col: Collector, p: MmioPkt)
    requires ValidPkt(p)
  {
    && col.hdr.write == p.write && col.hdr.tag == p.slot && col.hdr.addr == p.addr
    && col.hdr.lenBytes == p.width / 8
    && col.hdr.firstBe == 15 && col.hdr.lastBe == (if p.width == 32 then 0 else 15)
    && col.got == (if p.write then p.words[..p.width / 32] else [])
  }

  /** The MMIO requests that arrived are received in that order, each once, with slot, address, size
      and payload, and those not yet received are in the queue. */
  lemma MmioDelivered(c: Config, o: Oracle, trace: seq<Channel>, actions: seq<Action>, i: nat)
    requires ValidConfig(c) && ChannelRun(c, o, trace, actions) && i < |trace|
    ensures forall k :: 0 <= k < |Arrived(actions[..i])| ==> ValidPkt(Arrived(actions[..i])[k])
    ensures var r, arrived, waiting := Receive(trace[i].out, NoMem), Arrived(actions[..i]), |trace[i].mmio.queue|;
            && r.Some?
            && |r.value.done| + waiting == |arrived|
            && trace[i].mmio.queue == arrived[|r.value.done|..]
            && forall k :: 0 <= k < |r.value.done| ==> CollectedAs(r.value.done[k], arrived[k])
  {
    hide Inv, Receive, Arrived, BusFramed, CplEntries, Wholes;
    RunInv(c, o, trace, actions, i);
    var ch, arrived := trace[i], Arrived(actions[..i]);
    assert arrived[|ch.sent|..] == ch.mmio.queue;
    forall k | 0 <= k < |arrived|
      ensures ValidPkt(arrived[k]) && (k < |ch.sent| ==> arrived[k] == ch.sent[k])
    {
      if k >= |ch.sent| {
        assert arrived[k] == ch.mmio.queue[k - |ch.sent|];
      }
    }
    WholesAre(ch.sent);
  }

  lemma WholesAre(s: seq<MmioPkt>)
    requires forall i :: 0 <= i < |s| ==> ValidPkt(s[i])
    ensures |Wholes(s)| == |s| && forall i :: 0 <= i < |s| ==> CollectedAs(Wholes(s)[i], s[i])
  {
  }

  /** Over every run: the completion beats on the shared bus deliver each response exactly. */
  lemma ResponsesDelivered(c: Config, o: Oracle, trace: seq<Channel>, actions: seq<Action>, i: nat, h: nat)
    requires ValidConfig(c) && ChannelRun(c, o, trace, actions) && i < |trace|
    requires h < |trace[i].run.resp|
    ensures Sent(CplEntries(trace[i].out), h) <= trace[i].run.resp[h]
    ensures (forall p :: p in trace[i].run.e.list ==> p.buf != h) ==>
              Sent(CplEntries(trace[i].out), h) == trace[i].run.resp[h]
  {
    RunInv(c, o, trace, actions, i);
    InvDelivers(c, trace[i].run, h);
  }
}
