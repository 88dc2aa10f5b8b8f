/** The main results about read completions, over every run and every random choice. */
module ReadDeliveryTheorems {
  import opened Wrappers
  import opened ReadCompletion
  import opened ReadEngine
  import opened ReadDelivery
  import opened ReadDeliveryProof

  /** A run of the engine from its initial state. */
  ghost predicate Execution(c: Config, o: Oracle, trace: seq<Run>, events: seq<Event>)
    requires ValidConfig(c)
  {
    && |trace| == |events| + 1
    && (exists draws: nat :: trace[0] == InitRun(c, draws))
    && forall i :: 0 <= i < |events| ==>
         CanStep(c, o, trace[i], events[i]) && trace[i + 1] == Next(c, o, trace[i], events[i])
  }

  lemma StepInv(c: Config, o: Oracle, r: Run, ev: Event)
    requires ValidConfig(c) && Inv(c, r) && CanStep(c, o, r, ev)
    ensures Inv(c, Next(c, o, r, ev))
  {
    match ev
    case Request(_, _, _) => RequestInv(c, o, r, ev);
    case Response(_, _) => ResponseInv(c, o, r, ev);
    case Cycle(_) => CycleInv(c, o, r, ev);
  }

  lemma {:induction false} ReachableInv(c: Config, o: Oracle, trace: seq<Run>, events: seq<Event>, i: nat)
    requires ValidConfig(c) && Execution(c, o, trace, events) && i < |trace|
    ensures Inv(c, trace[i])
  {
    if i == 0 {
      var draws: nat :| trace[0] == InitRun(c, draws);
      InitInv(c, draws);
    } else {
      ReachableInv(c, o, trace, events, i - 1);
      StepInv(c, o, trace[i - 1], events[i - 1]);
    }
  }

  /** End-to-end delivery. At every moment of every run the payload received for a response
      is a prefix of it, and once none of its completions is pending it is all of it: each
      byte once and in order, whatever other packets and stalls came in between. */
  lemma EndToEndDelivery(c: Config, o: Oracle, trace: seq<Run>, events: seq<Event>, i: nat, h: nat)
    requires ValidConfig(c) && Execution(c, o, trace, events) && i < |trace|
    requires h < |trace[i].resp|
    ensures Sent(trace[i].log, h) <= trace[i].resp[h]
    ensures (forall p :: p in trace[i].e.list ==> p.buf != h) ==> Sent(trace[i].log, h) == trace[i].resp[h]
    ensures Sent(trace[i].log, h) == trace[i].resp[h] ==>
              forall p :: p in trace[i].e.list ==> p.buf != h
  {
    ReachableInv(c, o, trace, events, i);
    InvDelivers(c, trace[i], h);
    if exists p :: p in trace[i].e.list && p.buf == h {
      PendingMeansUnsent(c, trace[i], h);
    }
  }

  /** A response with a pending completion has not been delivered completely. */
  lemma PendingMeansUnsent(c: Config, r: Run, h: nat)
    requires Inv(c, r) && h < |r.resp|
    requires exists p :: p in r.e.list && p.buf == h
    ensures |Sent(r.log, h)| < |r.resp[h]|
  {
    assert DeliveredUpTo(r, h);
    var mine := Of(r.e.list, h);
    if mine == [] {
      OfEmptyNone(r.e.list, h);
      assert false;
    }
    OfMember(r.e.list, h);
    assert mine[0] in mine && CplOk(c, r, mine[0]);
    if r.e.list[0].buf == h {
      assert mine[0] == r.e.list[0];
    }
  }

  /** Packets never interleave. Each header announces its request's tag, the enabled bytes not
      yet delivered, the address of the data that follows, and whether it is the request's last
      packet; and each packet delivers as many bytes as its header announced. */
  lemma PacketsOnTheBus(c: Config, o: Oracle, trace: seq<Run>, events: seq<Event>, i: nat, k: nat)
    requires ValidConfig(c) && Execution(c, o, trace, events) && i < |trace|
    requires k < |trace[i].log|
    ensures Framed(trace[i].log, k) && LengthOk(trace[i].log, k)
    ensures HeaderOk(trace[i].reqs, trace[i].log[..k], trace[i].log[k])
  {
    ReachableInv(c, o, trace, events, i);
  }

  /** No reachable state makes the completion sender or the receiver fail: buffers are
      allocated when read and read inside their bounds, read states exist, and split requests are
      countable. */
  lemma NeverFaults(c: Config, o: Oracle, trace: seq<Run>, events: seq<Event>, i: nat)
    requires ValidConfig(c) && Execution(c, o, trace, events) && i < |trace|
    ensures forall cycle :: CanStep(c, o, trace[i], Cycle(cycle))
    ensures forall tag, data :: tag in trace[i].e.inflight && |data| == MaxAnyRd(c) ==>
              CanStep(c, o, trace[i], Response(tag, data))
    ensures forall p :: p in trace[i].e.list ==>
              p.buf in trace[i].e.bufs && 4 * EndOf(p) <= |trace[i].e.bufs[p.buf]|
  {
    ReachableInv(c, o, trace, events, i);
    AlwaysSteps(c, o, trace[i]);
  }

  lemma AlwaysSteps(c: Config, o: Oracle, r: Run)
    requires ValidConfig(c) && Inv(c, r)
    ensures forall cycle :: CanStep(c, o, r, Cycle(cycle))
    ensures forall tag, data :: tag in r.e.inflight && |data| == MaxAnyRd(c) ==> CanStep(c, o, r, Response(tag, data))
    ensures forall p :: p in r.e.list ==> p.buf in r.e.bufs && 4 * EndOf(p) <= |r.e.bufs[p.buf]|
  {
    assert r.e.list != [] ==> r.e.list[0] in r.e.list && CplOk(c, r, r.e.list[0]);
    forall p | p in r.e.list
      ensures p.buf in r.e.bufs && 4 * EndOf(p) <= |r.e.bufs[p.buf]|
    {
      RoomForDw(c, r, p);
    }
  }

  /** With tag mapping a legal request is refused exactly when every read state is busy; the
      index it gets is idle, so the in-use error is unreachable. */
  lemma MapperRefusesOnlyWhenFull(c: Config, o: Oracle, trace: seq<Run>, events: seq<Event>, i: nat,
                                  req: Req, cycle: int)
    requires ValidConfig(c) && Execution(c, o, trace, events) && i < |trace|
    requires c.tagMapper && req.tag < c.numStates && StatesOk(c, trace[i].e)
    ensures Accept(c, trace[i].e, req, cycle) == None <==>
              forall s :: 0 <= s < c.numStates ==> trace[i].e.states[s].busy
    ensures Accept(c, trace[i].e, req, cycle).Some? ==>
              !trace[i].e.states[Accept(c, trace[i].e, req, cycle).value.1].busy
  {
    ReachableInv(c, o, trace, events, i);
    var r := trace[i];
    assert FreeChain(r.e.states, r.e.freeHead, r.free);
    if r.free != [] {
      assert Link(r.e.states, r.free, 0);
    }
  }

  /** Free and busy indices partition the read states, and the list that threads the free ones
      has no repetition. */
  lemma FreeAndBusyPartition(c: Config, o: Oracle, trace: seq<Run>, events: seq<Event>, i: nat, s: nat)
    requires ValidConfig(c) && Execution(c, o, trace, events) && i < |trace| && c.tagMapper && s < c.numStates
    ensures |trace[i].e.states| == c.numStates
    ensures s in trace[i].free <==> !trace[i].e.states[s].busy
    ensures FreeChain(trace[i].e.states, trace[i].e.freeHead, trace[i].free)
  {
    ReachableInv(c, o, trace, events, i);
    var r := trace[i];
    if s in r.free {
      var k :| 0 <= k < |r.free| && r.free[k] == s;
      assert Link(r.e.states, r.free, k);
    }
  }

  /** The beat starts the last completion of the request of a read state. */
  predicate StartsLast(c: Config, o: Oracle, r: Run, ev: Event, s: nat)
    requires ev.Cycle? && r.e.list != [] ==> r.e.list[0].state < |r.e.states|
  {
    && ev.Cycle? && r.e.list != [] && r.e.list[0].state == s
    && r.e.list[0].isLast && r.e.rem == 0
    && !Stalled(c, o, r.e, ev.cycle)
  }

  lemma StepReturns(c: Config, o: Oracle, r: Run, ev: Event, s: nat)
    requires ValidConfig(c) && Inv(c, r) && CanStep(c, o, r, ev) && s < c.numStates
    ensures |r.e.states| == |Next(c, o, r, ev).e.states| == c.numStates
    ensures r.e.states[s].busy && !Next(c, o, r, ev).e.states[s].busy <==> StartsLast(c, o, r, ev, s)
  {
    match ev
    case Request(_, _, _) =>
      var tag := RequestEffect(c, o, r, ev);
    case Response(_, _) =>
      ResponseEffect(c, o, r, ev);
    case Cycle(cycle) =>
      if r.e.list != [] && !Stalled(c, o, r.e, cycle) {
        SendReturns(c, o, r, ev, s);
      }
  }

  lemma SendReturns(c: Config, o: Oracle, r: Run, ev: Event, s: nat)
    requires ValidConfig(c) && Inv(c, r) && Sends(c, o, r, ev) && s < c.numStates
    ensures |r.e.states| == |Next(c, o, r, ev).e.states| == c.numStates
    ensures r.e.states[s].busy && !Next(c, o, r, ev).e.states[s].busy <==> StartsLast(c, o, r, ev, s)
  {
    hide Next, HeadBeat, CplOk, HasLast, Delivery, Framing, Lengths;
    SendEffect(c, o, r, ev);
    assert r.e.rem == 0 ==> r.e.list[0] in Unstarted(r.e);
  }

  /** A read state is given back only by the beat that starts its request's last completion,
      and it was busy until then. */
  lemma ReturnedOnce(c: Config, o: Oracle, trace: seq<Run>, events: seq<Event>, i: nat, s: nat)
    requires ValidConfig(c) && Execution(c, o, trace, events) && i < |events| && s < c.numStates
    ensures |trace[i].e.states| == |trace[i + 1].e.states| == c.numStates
    ensures trace[i].e.states[s].busy && !trace[i + 1].e.states[s].busy <==>
              && events[i].Cycle? && trace[i].e.list != [] && trace[i].e.list[0].state == s
              && trace[i].e.list[0].isLast && trace[i].e.rem == 0
              && !Stalled(c, o, trace[i].e, events[i].cycle)
  {
    ReachableInv(c, o, trace, events, i);
    hide Next, Inv, Stalled;
    StepReturns(c, o, trace[i], events[i], s);
  }

  // ---------------------------------------------------------------- progress

  /** Beats and header starts still owed to the list. */
  function Work(list: seq<Cpl>): nat
  {
    if list == [] then 0 else LenDw(list[0].lenBytes) + 1 + Work(list[1..])
  }

  function Owed(e: Engine): nat
  {
    if e.rem > 0 && e.list != [] then e.rem + Work(e.list[1..]) else Work(e.list)
  }

  /** Every cycle that is not refused reduces what is owed. */
  lemma BeatProgress(c: Config, o: Oracle, r: Run, cycle: int)
    requires ValidConfig(c) && Inv(c, r) && CanStep(c, o, r, Cycle(cycle))
    requires r.e.list != [] && !Stalled(c, o, r.e, cycle)
    ensures Owed(Next(c, o, r, Cycle(cycle)).e) < Owed(r.e)
  {
    SendEffect(c, o, r, Cycle(cycle));
  }

  /** The events from i on that are cycles the sender does not refuse. */
  ghost function Unrefused(c: Config, o: Oracle, trace: seq<Run>, events: seq<Event>, i: nat): nat
    requires ValidConfig(c) && Execution(c, o, trace, events) && i <= |events|
    decreases |events| - i
  {
    if i == |events| then 0
    else (if Refused(c, o, trace[i], events[i]) then 0 else 1) + Unrefused(c, o, trace, events, i + 1)
  }

  /** The sender has something to send, but stalls in this cycle. */
  predicate Refused(c: Config, o: Oracle, r: Run, ev: Event)
    requires ev.Cycle? && r.e.list != [] ==> r.e.list[0].state < |r.e.states|
  {
    ev.Cycle? && r.e.list != [] && Stalled(c, o, r.e, ev.cycle)
  }

  /** Nothing else arriving, cycles that are refused in between delay the delivery and no more: once
      there were as many others as there is work owed, every response received so far has been
      delivered completely. */
  lemma {:induction false} Drains(c: Config, o: Oracle, trace: seq<Run>, events: seq<Event>, i: nat)
    requires ValidConfig(c) && Execution(c, o, trace, events) && i < |trace|
    requires forall k :: i <= k < |events| ==> events[k].Cycle?
    requires Unrefused(c, o, trace, events, i) >= Owed(trace[i].e)
    ensures trace[|events|].e.list == []
    ensures |trace[i].resp| <= |trace[|events|].resp|
    ensures forall h :: 0 <= h < |trace[i].resp| ==> Sent(trace[|events|].log, h) == trace[i].resp[h]
    decreases |events| - i
  {
    ReachableInv(c, o, trace, events, i);
    var r := trace[i];
    if i == |events| {
      assert Owed(r.e) == 0;
      forall h | 0 <= h < |r.resp|
        ensures Sent(r.log, h) == r.resp[h]
      {
        EndToEndDelivery(c, o, trace, events, i, h);
      }
    } else {
      CycleOwes(c, o, r, events[i].cycle);
      Drains(c, o, trace, events, i + 1);
    }
  }

  /** A refused cycle, like one with nothing to send, leaves the work and the responses as they are. */
  lemma CycleOwes(c: Config, o: Oracle, r: Run, cycle: int)
    requires ValidConfig(c) && Inv(c, r) && CanStep(c, o, r, Cycle(cycle))
    ensures var r' := Next(c, o, r, Cycle(cycle));
            && r'.resp == r.resp
            && (Refused(c, o, r, Cycle(cycle)) || r.e.list == [] ==> Owed(r'.e) == Owed(r.e))
            && (!Refused(c, o, r, Cycle(cycle)) && r.e.list != [] ==> Owed(r'.e) < Owed(r.e))
  {
    if r.e.list != [] && !Stalled(c, o, r.e, cycle) {
      BeatProgress(c, o, r, cycle);
    }
  }
}
