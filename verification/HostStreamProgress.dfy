/** When a cycle of the host-to-AFU channel sends something, and that everything is sent in the end. */
module HostStreamProgress {
  import opened ReadCompletion
  import opened ReadEngine
  import opened ReadDelivery
  import opened ReadDeliveryProof
  import opened ReadDeliveryTheorems
  import opened HostStream
  import opened HostStreamTheorems

  /** The MMIO sender draws a random number: it is between packets and its last beat is at least 63
      cycles ago. */
  predicate MmioDraws(ch: Channel, cycle: int)
  {
    ch.state == Sop && ch.mmio.queue != [] && cycle - ch.mmio.lastCycle >= 63
  }

  /** The MMIO sender sends: it always goes on with a packet, and starts one if its draw is at most 208. */
  predicate MmioSends(o: Oracle, ch: Channel, cycle: int)
  {
    ch.state == InMwr || (MmioDraws(ch, cycle) && o(ch.run.e.draws) % 256 <= 208)
  }

  /** The completion sender sends: its draw, which follows that of the MMIO sender, is at most 208, and a
      packet that would start has waited 250 cycles unless the bandwidth is not limited. */
  ghost predicate CplSends(c: Config, o: Oracle, ch: Channel, cycle: int)
    requires ch.run.e.list != [] ==> ch.run.e.list[0].state < |ch.run.e.states|
  {
    && ch.state != InMwr && ch.run.e.list != []
    && o(ch.run.e.draws + (if MmioDraws(ch, cycle) then 1 else 0)) % 256 <= 208
    && (ch.run.e.rem > 0 || c.unlimitedBw || cycle - ch.run.e.states[ch.run.e.list[0].state].startCycle >= 250)
  }

  datatype Kind = Nothing | Message | MmioBeat | CplBeat

  /** What a cycle sends. */
  ghost function Sends(c: Config, o: Oracle, ch: Channel, t: Tick): Kind
    requires ch.run.e.list != [] ==> ch.run.e.list[0].state < |ch.run.e.states|
  {
    if !t.tready then Nothing
    else if ch.state == Sop && t.msg then Message
    else if MmioSends(o, ch, t.cycle) then MmioBeat
    else if CplSends(c, o, ch, t.cycle) then CplBeat
    else Nothing
  }

  /** The traffic grows by one beat of that kind. */
  ghost predicate Grows(before: seq<Out>, after: seq<Out>, kind: Kind)
  {
    if kind == Nothing then after == before
    else
      && |after| == |before| + 1 && after[..|before|] == before
      && (kind == Message <==> after[|before|].MsgOut?)
      && (kind == MmioBeat <==> after[|before|].MemOut?)
  }

  /** What is left to send of MMIO requests: DWORDs, and one for each request. */
  function MmioWork(queue: seq<MmioPkt>): nat
  {
    if queue == [] then 0 else queue[0].width / 32 + 1 + MmioWork(queue[1..])
  }

  function MmioOwed(m: Mmio): nat
  {
    if m.rem > 0 && m.queue != [] then m.rem + MmioWork(m.queue[1..]) else MmioWork(m.queue)
  }

  function ChannelOwed(ch: Channel): nat
  {
    MmioOwed(ch.mmio) + Owed(ch.run.e)
  }

  // ---------------------------------------------------------------- one turn

  lemma BeatOwes(c: Config, m: Mmio, cycle: int)
    requires ValidConfig(c) && MmioOk(m) && MmioReady(m)
    ensures MmioOwed(SendMmio(c, m, cycle).0) < MmioOwed(m) && SendMmio(c, m, cycle).0.lastCycle == cycle
  {
  }

  /** The channel once the MMIO sender has refused, if it was asked. */
  ghost function Refusing(ch: Channel, cycle: int): Channel
  {
    ch.(run := ch.run.(e := ch.run.e.(draws := ch.run.e.draws + (if MmioDraws(ch, cycle) then 1 else 0))))
  }

  lemma OneMore(out: seq<Out>, x: Out)
    ensures Grows(out, out + [x], match x case MsgOut => Message case MemOut(_) => MmioBeat case _ => CplBeat)
  {
  }

  lemma MmioTurn(c: Config, o: Oracle, ch: Channel, cycle: int)
    requires ValidConfig(c) && MmioOk(ch.mmio) && MmioReady(ch.mmio)
    requires ch.state != InCpl && (ch.state == InMwr <==> ch.mmio.rem > 0)
    ensures var (ch1, sent, done) := MemTurn(c, o, ch, cycle);
            && sent == MmioSends(o, ch, cycle)
            && (!sent ==> done && ch1 == Refusing(ch, cycle))
            && (sent ==>
                  && ch1.run == Refusing(ch, cycle).run && Grows(ch.out, ch1.out, MmioBeat)
                  && MmioOwed(ch1.mmio) < MmioOwed(ch.mmio) && ch1.mmio.lastCycle == cycle)
  {
    BeatOwes(c, ch.mmio, cycle);
    OneMore(ch.out, MemOut(SendMmio(c, ch.mmio, cycle).1));
    hide SendMmio, MmioOk, MmioOwed, Grows;
  }

  lemma CompletionTurn(c: Config, o: Oracle, ch: Channel, cycle: int)
    requires ValidConfig(c) && Inv(c, ch.run) && ch.run.e.list != [] && CanStep(c, o, ch.run, Cycle(cycle))
    ensures var (ch1, sent, _) := CplTurn(c, o, ch, cycle);
            && sent == !Stalled(c, o, ch.run.e, cycle)
            && (if sent then Grows(ch.out, ch1.out, CplBeat) else ch1.out == ch.out)
            && ch1.mmio == ch.mmio && (sent ==> Owed(ch1.run.e) < Owed(ch.run.e))
            && (!sent ==> Owed(ch1.run.e) == Owed(ch.run.e))
  {
    CycleOwes(c, o, ch.run, cycle);
    if !Stalled(c, o, ch.run.e, cycle) {
      OneMore(ch.out, CplOut(Entry(ch.run.e.list[0].buf, HeadBeat(c, ch.run.e))));
    }
    hide Inv, CanStep, Stalled, HeadBeat, Owed, Next, Grows;
  }

  // ---------------------------------------------------------------- one cycle

  lemma HeadState(c: Config, r: Run)
    requires ValidConfig(c) && Inv(c, r)
    ensures r.e.list != [] ==> r.e.list[0].state < |r.e.states|
  {
    AlwaysSteps(c, n => 0, r);
    assert CanStep(c, n => 0, r, Cycle(0));
  }

  lemma CycleMmio(c: Config, o: Oracle, ch: Channel, t: Tick)
    requires ChannelInv(c, ch) && CanTick(c, o, ch, t) && t.tready && MmioSends(o, ch, t.cycle)
    requires ch.state == Sop ==> !t.msg
    ensures MmioReady(ch.mmio) && ch.state != InCpl
    ensures var ch', ch1 := ChannelCycle(c, o, ch, t), MemTurn(c, o, ch, t.cycle).0;
            ch' == ch1.(state := ch'.state)
    ensures MemTurn(c, o, ch, t.cycle).1
  {
    hide Inv, MemTurn, CplTurn, Reassembled, FramedOut, CplEntries, CanStep;
    MmioTurn(c, o, ch, t.cycle);
  }

  lemma CycleCompletion(c: Config, o: Oracle, ch: Channel, t: Tick)
    requires ChannelInv(c, ch) && CanTick(c, o, ch, t) && t.tready && !MmioSends(o, ch, t.cycle)
    requires ch.state == Sop ==> !t.msg
    ensures var ch', ch1 := ChannelCycle(c, o, ch, t), Refusing(ch, t.cycle);
            && CanStep(c, o, ch1.run, Cycle(t.cycle))
            && ch' == (if ch.run.e.list != [] then CplTurn(c, o, ch1, t.cycle).0 else ch1).(state := ch'.state)
  {
    hide Inv, MemTurn, CplTurn, Reassembled, FramedOut, CplEntries, CanStep;
    if ch.state == Sop && ch.mmio.queue != [] {
      MmioTurn(c, o, ch, t.cycle);
      StillReady(c, o, ch, t.cycle);
      assert MemTurn(c, o, ch, t.cycle).0 == Refusing(ch, t.cycle);
    } else {
      assert Refusing(ch, t.cycle) == ch;
    }
  }

  ghost predicate SendsAs(ch: Channel, ch': Channel, kind: Kind, cycle: int)
  {
    && Grows(ch.out, ch'.out, kind)
    && ch'.mmio.lastCycle == (if kind == MmioBeat then cycle else ch.mmio.lastCycle)
    && (if kind == MmioBeat || kind == CplBeat then ChannelOwed(ch') < ChannelOwed(ch)
        else ChannelOwed(ch') == ChannelOwed(ch))
  }

  lemma CompletionOwes(c: Config, o: Oracle, ch: Channel, cycle: int)
    requires ValidConfig(c) && Inv(c, ch.run) && ch.run.e.list != [] && ch.state != InMwr
    requires ch.run.e.list[0].state < |ch.run.e.states|
    requires CanStep(c, o, Refusing(ch, cycle).run, Cycle(cycle))
    ensures SendsAs(ch, CplTurn(c, o, Refusing(ch, cycle), cycle).0,
                    if CplSends(c, o, ch, cycle) then CplBeat else Nothing, cycle)
  {
    var ch1 := Refusing(ch, cycle);
    DrawsInv(c, ch.run, ch1.run.e.draws);
    CompletionTurn(c, o, ch1, cycle);
    hide Inv, CplTurn, CanStep, Grows, MmioDraws;
  }

  lemma StateApart(ch: Channel, ch1: Channel, s: HostState, kind: Kind, cycle: int)
    requires SendsAs(ch, ch1, kind, cycle)
    ensures SendsAs(ch, ch1.(state := s), kind, cycle)
  {
  }

  lemma CompletionCycle(c: Config, o: Oracle, ch: Channel, t: Tick)
    requires ChannelInv(c, ch) && CanTick(c, o, ch, t) && t.tready && !MmioSends(o, ch, t.cycle)
    requires ch.state == Sop ==> !t.msg
    requires ch.run.e.list != [] ==> ch.run.e.list[0].state < |ch.run.e.states|
    ensures SendsAs(ch, ChannelCycle(c, o, ch, t), if CplSends(c, o, ch, t.cycle) then CplBeat else Nothing, t.cycle)
  {
    CycleCompletion(c, o, ch, t);
    hide ChannelCycle, Inv, CplTurn, CanStep, MmioDraws, Reassembled, FramedOut, CplEntries, BusFramed;
    var ch', kind := ChannelCycle(c, o, ch, t), if CplSends(c, o, ch, t.cycle) then CplBeat else Nothing;
    hide CplSends;
    if ch.run.e.list != [] {
      CompletionOwes(c, o, ch, t.cycle);
      StateApart(ch, CplTurn(c, o, Refusing(ch, t.cycle), t.cycle).0, ch'.state, kind, t.cycle);
    } else {
      NotSending(c, o, ch, t.cycle);
    }
  }

  lemma NotSending(c: Config, o: Oracle, ch: Channel, cycle: int)
    requires ch.run.e.list == []
    ensures !CplSends(c, o, ch, cycle) && SendsAs(ch, Refusing(ch, cycle), Nothing, cycle)
  {
  }

  /** What a cycle sends, and the work it leaves. */
  lemma CycleSends(c: Config, o: Oracle, ch: Channel, t: Tick)
    requires ChannelInv(c, ch) && CanTick(c, o, ch, t)
    ensures ch.run.e.list != [] ==> ch.run.e.list[0].state < |ch.run.e.states|
    ensures SendsAs(ch, ChannelCycle(c, o, ch, t), Sends(c, o, ch, t), t.cycle)
  {
    HeadState(c, ch.run);
    if t.tready && !(ch.state == Sop && t.msg) {
      hide ChannelInv, CanTick, ChannelCycle, MmioSends, CplSends, SendsAs;
      if MmioSends(o, ch, t.cycle) {
        MmioCycle(c, o, ch, t);
      } else {
        CompletionCycle(c, o, ch, t);
      }
    } else {
      OneMore(ch.out, MsgOut);
      hide ChannelInv, CanTick, MmioSends, CplSends, Grows;
    }
  }

  lemma MmioCycle(c: Config, o: Oracle, ch: Channel, t: Tick)
    requires ChannelInv(c, ch) && CanTick(c, o, ch, t) && t.tready && MmioSends(o, ch, t.cycle)
    requires ch.state == Sop ==> !t.msg
    ensures SendsAs(ch, ChannelCycle(c, o, ch, t), MmioBeat, t.cycle)
  {
    CycleMmio(c, o, ch, t);
    MmioTurn(c, o, ch, t.cycle);
    hide ChannelCycle, Inv, MemTurn, CanStep, Reassembled, FramedOut, CplEntries, Owed, MmioOwed, Grows;
  }

  // ---------------------------------------------------------------- runs

  /** Over every run, when a cycle sends what: a waiting message first; else an MMIO packet goes on, or
      starts at least 63 cycles after the last MMIO beat unless refused by its draw; else a completion
      goes on, or starts at least 250 cycles after its request arrived, unless refused by its draw. */
  lemma TickSends(c: Config, o: Oracle, trace: seq<Channel>, actions: seq<Action>, i: nat)
    requires ValidConfig(c) && ChannelRun(c, o, trace, actions) && i < |actions| && actions[i].Ticks?
    ensures trace[i].run.e.list != [] ==> trace[i].run.e.list[0].state < |trace[i].run.e.states|
    ensures var kind, cycle := Sends(c, o, trace[i], actions[i].t), actions[i].t.cycle;
            && Grows(trace[i].out, trace[i + 1].out, kind)
            && trace[i + 1].mmio.lastCycle == (if kind == MmioBeat then cycle else trace[i].mmio.lastCycle)
  {
    RunInv(c, o, trace, actions, i);
    hide ChannelInv, ChannelCycle, CanTick, Sends;
    CycleSends(c, o, trace[i], actions[i].t);
  }

  /** The cycles from i on that send an MMIO or completion beat, or have none to send. */
  ghost function Served(c: Config, o: Oracle, trace: seq<Channel>, actions: seq<Action>, i: nat): nat
    requires |trace| == |actions| + 1 && i <= |actions|
    requires forall k :: i <= k < |actions| ==>
               && actions[k].Ticks?
               && (trace[k].run.e.list != [] ==> trace[k].run.e.list[0].state < |trace[k].run.e.states|)
    decreases |actions| - i
  {
    if i == |actions| then 0
    else
      var ch, kind := trace[i], Sends(c, o, trace[i], actions[i].t);
      (if kind == MmioBeat || kind == CplBeat || (ch.mmio.queue == [] && ch.run.e.list == []) then 1 else 0)
      + Served(c, o, trace, actions, i + 1)
  }

  lemma HeadStates(c: Config, o: Oracle, trace: seq<Channel>, actions: seq<Action>)
    requires ValidConfig(c) && ChannelRun(c, o, trace, actions)
    ensures forall k :: 0 <= k < |trace| && trace[k].run.e.list != [] ==>
              trace[k].run.e.list[0].state < |trace[k].run.e.states|
  {
    forall k | 0 <= k < |trace|
      ensures trace[k].run.e.list != [] ==> trace[k].run.e.list[0].state < |trace[k].run.e.states|
    {
      RunInv(c, o, trace, actions, k);
      HeadState(c, trace[k].run);
    }
  }

  lemma NothingOwed(c: Config, ch: Channel)
    requires ChannelInv(c, ch)
    ensures ch.mmio.queue == [] && ch.run.e.list == [] <==> ChannelOwed(ch) == 0
  {
    hide Reassembled, FramedOut, CplEntries, Inv;
  }

  /** Nothing else arriving, once there were as many cycles that send as there is work owed, every MMIO
      request and every completion has been sent. */
  lemma {:induction false} ChannelDrains(c: Config, o: Oracle, trace: seq<Channel>, actions: seq<Action>, i: nat)
    requires ValidConfig(c) && ChannelRun(c, o, trace, actions) && i < |trace|
    requires forall k :: i <= k < |actions| ==> actions[k].Ticks?
    ensures forall k :: 0 <= k < |trace| && trace[k].run.e.list != [] ==>
              trace[k].run.e.list[0].state < |trace[k].run.e.states|
    ensures Served(c, o, trace, actions, i) >= ChannelOwed(trace[i]) ==>
              trace[|actions|].mmio.queue == [] && trace[|actions|].run.e.list == []
    decreases |actions| - i
  {
    HeadStates(c, o, trace, actions);
    RunInv(c, o, trace, actions, i);
    NothingOwed(c, trace[i]);
    hide ChannelInv, ChannelOwed, ChannelCycle, CanTick, Sends;
    if i < |actions| {
      CycleSends(c, o, trace[i], actions[i].t);
      ChannelDrains(c, o, trace, actions, i + 1);
    }
  }

  /** And then what the AFU received is each MMIO request that arrived and each response, completely. */
  lemma AllDelivered(c: Config, o: Oracle, trace: seq<Channel>, actions: seq<Action>, i: nat)
    requires ValidConfig(c) && ChannelRun(c, o, trace, actions) && i < |trace|
    requires forall k :: i <= k < |actions| ==> actions[k].Ticks?
    ensures forall k :: 0 <= k < |trace| && trace[k].run.e.list != [] ==>
              trace[k].run.e.list[0].state < |trace[k].run.e.states|
    ensures Served(c, o, trace, actions, i) >= ChannelOwed(trace[i]) ==>
              var last, r := trace[|actions|], Receive(trace[|actions|].out, NoMem);
              && r.Some? && |r.value.done| == |Arrived(actions)|
              && forall h :: 0 <= h < |last.run.resp| ==> Sent(CplEntries(last.out), h) == last.run.resp[h]
  {
    hide Receive, Arrived, CplEntries, Sent, ChannelOwed, Served, CollectedAs;
    ChannelDrains(c, o, trace, actions, i);
    var last := trace[|actions|];
    if Served(c, o, trace, actions, i) >= ChannelOwed(trace[i]) {
      assert actions[..|actions|] == actions;
      MmioDelivered(c, o, trace, actions, |actions|);
      forall h | 0 <= h < |last.run.resp|
        ensures Sent(CplEntries(last.out), h) == last.run.resp[h]
      {
        ResponsesDelivered(c, o, trace, actions, |actions|, h);
      }
    }
  }

  // ---------------------------------------------------------------- the width of the bus

  /** The words or bytes behind the header of a beat, or of all of it, are as many as the bus has room for. */
  ghost predicate FillsBus(c: Config, x: Out)
  {
    match x
    case MsgOut => true
    case MemOut(b) => |b.data| == c.tdataDw - (if b.hdr.Some? then 8 else 0)
    case CplOut(e) => |e.beat.data| == 4 * (c.tdataDw - (if e.beat.hdr.Some? then 8 else 0))
  }

  ghost predicate AllFill(c: Config, out: seq<Out>)
  {
    forall k :: 0 <= k < |out| ==> FillsBus(c, out[k])
  }

  lemma MmioFills(c: Config, o: Oracle, ch: Channel, cycle: int)
    requires ValidConfig(c) && MmioReady(ch.mmio) && AllFill(c, ch.out)
    ensures AllFill(c, MemTurn(c, o, ch, cycle).0.out)
  {
  }

  lemma CompletionFills(c: Config, o: Oracle, ch: Channel, cycle: int)
    requires ValidConfig(c) && ch.run.e.list != [] && CanStep(c, o, ch.run, Cycle(cycle)) && AllFill(c, ch.out)
    ensures AllFill(c, CplTurn(c, o, ch, cycle).0.out)
  {
    hide Next;
  }

  lemma CycleFills(c: Config, o: Oracle, ch: Channel, t: Tick)
    requires ValidConfig(c) && CanTick(c, o, ch, t) && AllFill(c, ch.out)
    ensures AllFill(c, ChannelCycle(c, o, ch, t).out)
  {
    hide MemTurn, CplTurn, CanStep;
    if t.tready && !(ch.state == Sop && t.msg) {
      var ch1 := ch;
      if ch.state != InCpl && ch.mmio.queue != [] {
        StillReady(c, o, ch, t.cycle);
        MmioFills(c, o, ch, t.cycle);
        ch1 := MemTurn(c, o, ch, t.cycle).0;
      }
      if ch1.run.e.list != [] {
        CompletionFills(c, o, ch1, t.cycle);
      }
    }
  }

  /** In every run every MMIO and completion beat fills the bus, behind its header if it has one. */
  lemma {:induction false} BeatsFill(c: Config, o: Oracle, trace: seq<Channel>, actions: seq<Action>, i: nat)
    requires ValidConfig(c) && ChannelRun(c, o, trace, actions) && i < |trace|
    ensures forall k :: 0 <= k < |trace[i].out| ==> FillsBus(c, trace[i].out[k])
  {
    hide ChannelCycle, CanTick, FillsBus, Next, CanStep;
    if i > 0 {
      BeatsFill(c, o, trace, actions, i - 1);
      if actions[i - 1].Ticks? {
        CycleFills(c, o, trace[i - 1], actions[i - 1].t);
      }
    }
  }
}
