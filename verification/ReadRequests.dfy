/** What the AFU gets for the requests that it sent: every response and every packet traced back to the
    request header that arrived, over every run. */
module ReadRequests {
  import opened Wrappers
  import opened ByteEnables
  import opened ReadCompletion
  import opened ReadEngine
  import opened ReadDelivery
  import opened ReadDeliveryProof
  import opened ReadDeliveryTheorems

  // ---------------------------------------------------------------- what a header asks for

  /** Bytes that a request gets back: a compare-and-swap sends two operands and gets one. */
  function AskedBytes(h: ReadHdr): nat
  {
    if h.func == CompareAndSwap then h.lenBytes / 2 else h.lenBytes
  }

  /** The byte enables of the answer; atomics have none of their own and get all bytes. */
  function AskedFirst(h: ReadHdr): Mask
  {
    if h.func == Read then h.firstBe else 15
  }

  function AskedLast(h: ReadHdr): Mask
  {
    if h.func == Read then h.lastBe else if h.lenBytes > 4 then 15 else 0
  }

  /** The arrival checks accept exactly these headers. */
  lemma AcceptedExactly(c: Config, h: ReadHdr, tlast: bool)
    ensures CheckRead(c, h, tlast).Some? <==>
              && tlast && 0 < h.lenBytes <= (if h.dm then c.maxDmRd else c.maxRd) && h.tag < c.numStates
              && (h.func == Read ==>
                    && (h.lenBytes > 4 ==> h.firstBe != 0 && h.lastBe != 0)
                    && (h.lenBytes <= 4 ==> h.lastBe == 0 || (h.dm && h.firstBe != 0)))
              && (h.func != Read ==>
                    && !h.dm && h.firstBe == h.lastBe == 0
                    && (h.lenBytes == 8 || h.lenBytes == (if h.func == CompareAndSwap then 16 else 4)))
              && (h.addr64 ==> h.dm || h.addr >= 0x1_0000_0000)
              && (h.at == 0 || h.at == 2
                  || (h.at == 1 && h.func == Read && !h.dm
                      && h.lenBytes % 2 == 0 && h.lenBytes <= 128 && h.addr % 4096 == 0))
  {
  }

  /** And this is what they record. */
  ghost predicate Records(h: ReadHdr, req: Req)
  {
    && req.tag == h.tag && req.dm == h.dm && req.addr == h.addr
    && req.lenBytes == AskedBytes(h) && req.firstBe == AskedFirst(h) && req.lastBe == AskedLast(h)
  }

  lemma CheckedRecords(c: Config, h: ReadHdr, tlast: bool)
    requires CheckRead(c, h, tlast).Some?
    ensures Records(h, CheckRead(c, h, tlast).value) && CheckRead(c, h, tlast).value.tag < c.numStates
  {
  }

  // ---------------------------------------------------------------- the requests behind a state

  /** Response data answers the request at event a, and came with event b. */
  ghost predicate Answers(events: seq<Event>, i: nat, a: nat, b: nat, req: Req, data: seq<Byte>)
  {
    && a < b < i <= |events| && events[a].Request? && events[b].Response?
    && Records(events[a].hdr, req)
    && AskedBytes(events[a].hdr) <= |events[b].data| && data == events[b].data[..AskedBytes(events[a].hdr)]
  }

  /** A busy read state describes the request of event a, and the cycle at which it arrived. */
  ghost predicate Describes(events: seq<Event>, i: nat, a: nat, s: RdState)
  {
    && a < i <= |events| && events[a].Request?
    && Records(events[a].hdr, s.req) && s.startCycle == events[a].reqCycle
  }

  /** asked and answered are the events behind each response. */
  ghost predicate Past(r: Run, events: seq<Event>, i: nat, asked: seq<nat>, answered: seq<nat>)
  {
    && |asked| == |answered| == |r.reqs| == |r.resp|
    && (forall h :: 0 <= h < |asked| ==> Answers(events, i, asked[h], answered[h], r.reqs[h], r.resp[h]))
    && (forall g, h :: 0 <= g < h < |asked| ==> asked[g] != asked[h] && answered[g] < answered[h])
  }

  /** holder are the events behind the busy states. */
  ghost predicate Held(e: Engine, events: seq<Event>, i: nat, holder: map<nat, nat>)
  {
    forall s :: 0 <= s < |e.states| && e.states[s].busy ==>
      s in holder && Describes(events, i, holder[s], e.states[s])
  }

  /** The reads under way are not answered yet, and each is a request of its own; a completion to be
      started belongs to the request of its response. */
  ghost predicate Outstanding(e: Engine, asked: seq<nat>, holder: map<nat, nat>)
  {
    && (forall s :: s in e.inflight ==> s in holder && holder[s] !in asked)
    && (forall s, t :: s in e.inflight && t in e.inflight && s != t ==>
          s in holder && t in holder && holder[s] != holder[t])
    && (forall p :: p in Unstarted(e) ==> p.buf < |asked| && p.state in holder && holder[p.state] == asked[p.buf])
  }

  ghost predicate Traced(r: Run, events: seq<Event>, i: nat, asked: seq<nat>, answered: seq<nat>, holder: map<nat, nat>)
  {
    Past(r, events, i, asked, answered) && Held(r.e, events, i, holder) && Outstanding(r.e, asked, holder)
  }

  /** Later nothing of the past has changed. */
  lemma StillPast(r: Run, r': Run, events: seq<Event>, i: nat, asked: seq<nat>, answered: seq<nat>)
    requires Past(r, events, i, asked, answered) && i < |events| && r'.reqs == r.reqs && r'.resp == r.resp
    ensures Past(r', events, i + 1, asked, answered)
    ensures forall h :: 0 <= h < |asked| ==> asked[h] < i && answered[h] < i
  {
    hide Records;
    assert forall h :: 0 <= h < |asked| ==> Answers(events, i, asked[h], answered[h], r.reqs[h], r.resp[h]);
  }

  lemma StillHeld(e: Engine, e': Engine, events: seq<Event>, i: nat, holder: map<nat, nat>)
    requires Held(e, events, i, holder) && i < |events| && |e'.states| == |e.states|
    requires forall s :: 0 <= s < |e.states| && e'.states[s].busy ==> e'.states[s] == e.states[s]
    ensures Held(e', events, i + 1, holder)
  {
    hide Records;
    assert forall s :: 0 <= s < |e.states| && e.states[s].busy ==> Describes(events, i, holder[s], e.states[s]);
  }

  lemma StartTraced(c: Config, draws: nat, events: seq<Event>)
    requires ValidConfig(c)
    ensures Traced(InitRun(c, draws), events, 0, [], [], map[])
  {
    InitStatesAt(c.numStates, 0);
  }

  /** A request is recorded in an idle state. */
  lemma RequestTraced(c: Config, o: Oracle, r: Run, events: seq<Event>, i: nat,
                      asked: seq<nat>, answered: seq<nat>, holder: map<nat, nat>)
    returns (holder': map<nat, nat>)
    requires ValidConfig(c) && Inv(c, r) && i < |events| && events[i].Request? && CanStep(c, o, r, events[i])
    requires Traced(r, events, i, asked, answered, holder)
    ensures Traced(Next(c, o, r, events[i]), events, i + 1, asked, answered, holder')
  {
    hide Inv, Next, CanStep, Tags, Shape, Describes, Answers, Unstarted;
    var ev := events[i];
    InvTags(c, r);
    var tag := RequestRecords(c, o, r, ev);
    var r' := Next(c, o, r, ev);
    holder' := holder[tag := i];
    StillPast(r, r', events, i, asked, answered);
    NewHolder(r.e, r'.e, events, i, tag, holder);
  }

  lemma NewHolder(e: Engine, e': Engine, events: seq<Event>, i: nat, tag: nat, holder: map<nat, nat>)
    requires Held(e, events, i, holder) && i < |events| && |e'.states| == |e.states| && tag < |e.states|
    requires events[i].Request? && Records(events[i].hdr, e'.states[tag].req)
    requires e'.states[tag].startCycle == events[i].reqCycle
    requires forall s :: 0 <= s < |e.states| && s != tag ==> e'.states[s] == e.states[s]
    ensures Held(e', events, i + 1, holder[tag := i])
    ensures forall s :: 0 <= s < |e.states| && e.states[s].busy ==> s in holder && holder[s] < i
  {
    hide Records;
    assert forall s :: 0 <= s < |e.states| && e.states[s].busy ==> Describes(events, i, holder[s], e.states[s]);
  }

  lemma InvTags(c: Config, r: Run)
    requires Inv(c, r)
    ensures Shape(c, r) && Tags(c, r) && |r.e.states| == c.numStates
  {
  }

  /** What an accepted request does. */
  lemma RequestRecords(c: Config, o: Oracle, r: Run, ev: Event) returns (tag: nat)
    requires ValidConfig(c) && Shape(c, r) && Tags(c, r) && ev.Request? && CanStep(c, o, r, ev)
    ensures var r' := Next(c, o, r, ev);
            && tag < |r.e.states| && !r.e.states[tag].busy && tag !in r.e.inflight
            && |r'.e.states| == |r.e.states|
            && Records(ev.hdr, r'.e.states[tag].req) && r'.e.states[tag].startCycle == ev.reqCycle
            && (forall s :: 0 <= s < |r.e.states| && s != tag ==> r'.e.states[s] == r.e.states[s])
            && r'.e.inflight == r.e.inflight + {tag}
            && Unstarted(r'.e) == Unstarted(r.e) && r'.reqs == r.reqs && r'.resp == r.resp
            && (forall p :: p in Unstarted(r.e) ==> p.state != tag)
            && (forall t :: t in r.e.inflight ==> t < |r.e.states| && r.e.states[t].busy)
  {
    hide CheckRead, HasLast, CplOk, Records, OneStatePerBuf;
    CheckedRecords(c, ev.hdr, ev.tlast);
    tag := Accept(c, r.e, CheckRead(c, ev.hdr, ev.tlast).value, ev.reqCycle).value.1;
  }

  /** A response takes over the request of its read state. */
  lemma ResponseTraced(c: Config, o: Oracle, r: Run, events: seq<Event>, i: nat,
                       asked: seq<nat>, answered: seq<nat>, holder: map<nat, nat>)
    requires ValidConfig(c) && Inv(c, r) && i < |events| && events[i].Response? && CanStep(c, o, r, events[i])
    requires Traced(r, events, i, asked, answered, holder)
    ensures events[i].tag in holder
    ensures Traced(Next(c, o, r, events[i]), events, i + 1, asked + [holder[events[i].tag]], answered + [i], holder)
  {
    hide Inv, Next, CanStep, Tags, Shape, Answers, Unstarted, LegalReq;
    var ev := events[i];
    InvTags(c, r);
    ResponseFacts(c, o, r, ev);
    var r', t := Next(c, o, r, ev), ev.tag;
    var a := holder[t];
    assert Describes(events, i, a, r.e.states[t]);
    hide Describes;
    StillHeld(r.e, r'.e, events, i, holder);
    OneMoreAnswer(r, r', events, i, asked, answered, a);
  }

  lemma OneMoreAnswer(r: Run, r': Run, events: seq<Event>, i: nat, asked: seq<nat>, answered: seq<nat>, a: nat)
    requires Past(r, events, i, asked, answered) && i < |events| && events[i].Response?
    requires |r'.reqs| == |r'.resp| == |r.reqs| + 1 && r'.reqs[..|r.reqs|] == r.reqs && r'.resp[..|r.resp|] == r.resp
    requires a < i && events[a].Request? && Records(events[a].hdr, r'.reqs[|r.reqs|]) && a !in asked
    requires r'.reqs[|r.reqs|].lenBytes <= |events[i].data|
    requires r'.resp[|r.reqs|] == events[i].data[..r'.reqs[|r.reqs|].lenBytes]
    ensures Past(r', events, i + 1, asked + [a], answered + [i])
  {
    var n := |asked|;
    StillPast(r, r, events, i, asked, answered);
    NewAnswer(events, i, a, r'.reqs[n], r'.resp[n]);
    hide Answers, Records;
    forall h | 0 <= h < n
      ensures r'.reqs[h] == r.reqs[h] && r'.resp[h] == r.resp[h]
    {
      assert r'.reqs[..n][h] == r'.reqs[h] && r'.resp[..n][h] == r'.resp[h];
    }
    assert forall h :: 0 <= h < n ==> Answers(events, i + 1, asked[h], answered[h], r.reqs[h], r.resp[h]);
  }

  lemma NewAnswer(events: seq<Event>, i: nat, a: nat, req: Req, data: seq<Byte>)
    requires a < i < |events| && events[a].Request? && events[i].Response?
    requires Records(events[a].hdr, req)
    requires req.lenBytes <= |events[i].data| && data == events[i].data[..req.lenBytes]
    ensures Answers(events, i + 1, a, i, req, data)
  {
  }

  lemma ResponseFacts(c: Config, o: Oracle, r: Run, ev: Event)
    requires ValidConfig(c) && Shape(c, r) && Tags(c, r) && ev.Response? && CanStep(c, o, r, ev)
    ensures ev.tag in r.e.inflight && ev.tag < |r.e.states| && r.e.states[ev.tag].busy
    ensures var r', req, buf := Next(c, o, r, ev), r.e.states[ev.tag].req, |r.reqs|;
            && r'.e.states == r.e.states && r'.e.inflight == r.e.inflight - {ev.tag}
            && |r'.reqs| == |r'.resp| == buf + 1 && r'.reqs[..buf] == r.reqs && r'.resp[..buf] == r.resp
            && r'.reqs[buf] == req
            && req.lenBytes <= |ev.data| && r'.resp[buf] == ev.data[..req.lenBytes]
            && forall p :: p in Unstarted(r'.e) ==> p in Unstarted(r.e) || (p.state == ev.tag && p.buf == buf)
  {
    hide HasLast, OneStatePerBuf, SplitAll, LegalMasks, Remaining;
    ResponseEffect(c, o, r, ev);
    assert forall p :: p in r.e.list ==> CplOk(c, r, p);
    var r', req := Next(c, o, r, ev), r.e.states[ev.tag].req;
    var made := SplitResult(c, o, req, ev.tag, r.e.nextBuf, r.e.list, r.e.draws);
    forall p | p in made
      ensures p.state == ev.tag && p.buf == r.e.nextBuf
    {
      MadeOk(c, r', ev.tag, r.e.nextBuf, made, p);
    }
  }

  /** A cycle leaves what is traced alone. */
  lemma CycleTraced(c: Config, o: Oracle, r: Run, events: seq<Event>, i: nat,
                    asked: seq<nat>, answered: seq<nat>, holder: map<nat, nat>)
    requires ValidConfig(c) && Inv(c, r) && i < |events| && events[i].Cycle? && CanStep(c, o, r, events[i])
    requires Traced(r, events, i, asked, answered, holder)
    ensures Traced(Next(c, o, r, events[i]), events, i + 1, asked, answered, holder)
  {
    hide Inv, Next, CanStep, Tags, Shape, Answers, Describes, Unstarted;
    InvTags(c, r);
    CycleFacts(c, o, r, events[i]);
    var r' := Next(c, o, r, events[i]);
    StillPast(r, r', events, i, asked, answered);
    StillHeld(r.e, r'.e, events, i, holder);
  }

  lemma CycleFacts(c: Config, o: Oracle, r: Run, ev: Event)
    requires ValidConfig(c) && Shape(c, r) && ev.Cycle? && CanStep(c, o, r, ev)
    ensures var r' := Next(c, o, r, ev);
            && |r'.e.states| == |r.e.states|
            && (forall s :: 0 <= s < |r.e.states| && r'.e.states[s].busy ==> r'.e.states[s] == r.e.states[s])
            && r'.e.inflight == r.e.inflight && r'.reqs == r.reqs && r'.resp == r.resp
            && forall p :: p in Unstarted(r'.e) ==> p in Unstarted(r.e)
  {
    hide CplOk, HeadBeat, OneStatePerBuf;
    if r.e.list != [] && !Stalled(c, o, r.e, ev.cycle) {
      SendEffect(c, o, r, ev);
    }
  }

  /** The events behind every response and every busy state of a run. */
  lemma {:induction false} RunTraced(c: Config, o: Oracle, trace: seq<Run>, events: seq<Event>, i: nat)
    returns (asked: seq<nat>, answered: seq<nat>, holder: map<nat, nat>)
    requires ValidConfig(c) && Execution(c, o, trace, events) && i < |trace|
    ensures Traced(trace[i], events, i, asked, answered, holder)
  {
    hide Traced, Inv, Next, CanStep;
    if i == 0 {
      var draws: nat :| trace[0] == InitRun(c, draws);
      StartTraced(c, draws, events);
      return [], [], map[];
    }
    asked, answered, holder := RunTraced(c, o, trace, events, i - 1);
    ReachableInv(c, o, trace, events, i - 1);
    match events[i - 1]
    case Request(_, _, _) =>
      holder := RequestTraced(c, o, trace[i - 1], events, i - 1, asked, answered, holder);
    case Response(_, _) =>
      ResponseTraced(c, o, trace[i - 1], events, i - 1, asked, answered, holder);
      asked, answered := asked + [holder[events[i - 1].tag]], answered + [i - 1];
    case Cycle(_) =>
      CycleTraced(c, o, trace[i - 1], events, i - 1, asked, answered, holder);
  }

  // ---------------------------------------------------------------- what the AFU sees

  /** A packet header in answer to a request of which done bytes have been delivered. */
  ghost predicate Describe(p: CplHdr, h: ReadHdr, done: nat)
  {
    && done % 4 == 0 && p.tag == h.tag && p.dm == h.dm
    && p.lowAddr == (if h.dm then done else (h.addr + done + Skipped(h, done)) % 0x1_0000_0000)
    && p.byteCount == BytesLeft(h, done)
    && p.fc == (done + p.lenBytes == AskedBytes(h))
  }

  /** Bytes that are not enabled before the first one that is, at the start of a read. */
  function Skipped(h: ReadHdr, done: nat): nat
  {
    if done == 0 && AskedFirst(h) != 0 then Lowest(AskedFirst(h)) else 0
  }

  /** From the next byte, or the first enabled one, to the last enabled one; 1 if there is none. */
  function BytesLeft(h: ReadHdr, done: nat): int
  {
    if AskedFirst(h) == 0 then 1
    else
      var last := if AskedLast(h) == 0 then AskedFirst(h) else AskedLast(h);
      4 * ((AskedBytes(h) + 3) / 4 - 1) + Highest(last) + 1 - done - Skipped(h, done)
  }

  /** Every response answers a request of its own, with the data that the memory model gave for it, and
      every packet of it carries the request's tag, kind and address. */
  lemma Transactions(c: Config, o: Oracle, trace: seq<Run>, events: seq<Event>, i: nat)
    returns (asked: seq<nat>, answered: seq<nat>)
    requires ValidConfig(c) && Execution(c, o, trace, events) && i < |trace|
    ensures |asked| == |answered| == |trace[i].resp|
    ensures forall g, h :: 0 <= g < h < |asked| ==> asked[g] != asked[h] && answered[g] < answered[h]
    ensures forall h :: 0 <= h < |asked| ==>
              && asked[h] < answered[h] < i && events[asked[h]].Request? && events[answered[h]].Response?
              && AskedBytes(events[asked[h]].hdr) <= |events[answered[h]].data|
              && trace[i].resp[h] == events[answered[h]].data[..AskedBytes(events[asked[h]].hdr)]
    ensures forall k :: 0 <= k < |trace[i].log| ==>
              && trace[i].log[k].buf < |asked|
              && (trace[i].log[k].beat.hdr.Some? ==>
                    Describe(trace[i].log[k].beat.hdr.value, events[asked[trace[i].log[k].buf]].hdr,
                             |Sent(trace[i].log[..k], trace[i].log[k].buf)|))
  {
    hide Describe, HeaderOk, Inv, Next, CanStep, Records, Framed, LengthOk, Execution;
    ghost var holder;
    asked, answered, holder := RunTraced(c, o, trace, events, i);
    var r := trace[i];
    ReachableInv(c, o, trace, events, i);
    LogInBounds(c, r);
    forall k | 0 <= k < |r.log|
      ensures r.log[k].buf < |asked|
      ensures r.log[k].beat.hdr.Some? ==>
                Describe(r.log[k].beat.hdr.value, events[asked[r.log[k].buf]].hdr, |Sent(r.log[..k], r.log[k].buf)|)
    {
      PacketsOnTheBus(c, o, trace, events, i, k);
      var h := r.log[k].buf;
      assert Answers(events, i, asked[h], answered[h], r.reqs[h], r.resp[h]);
      if r.log[k].beat.hdr.Some? {
        PacketDescribes(r.reqs, r.log[..k], r.log[k], events[asked[h]].hdr);
      }
    }
  }

  lemma LogInBounds(c: Config, r: Run)
    requires Inv(c, r)
    ensures |r.reqs| == |r.resp| && forall k :: 0 <= k < |r.log| ==> r.log[k].buf < |r.resp|
  {
  }

  lemma PacketDescribes(reqs: seq<Req>, before: seq<Entry>, entry: Entry, h: ReadHdr)
    requires HeaderOk(reqs, before, entry) && entry.beat.hdr.Some? && entry.buf < |reqs| && Records(h, reqs[entry.buf])
    ensures Describe(entry.beat.hdr.value, h, |Sent(before, entry.buf)|)
  {
    hide Sent;
  }

  /** When a beat is sent: exactly when something is pending, the random draw allows it, and a packet
      that would start has waited 250 cycles since its request arrived, unless the bandwidth is not
      limited. */
  lemma SendsExactly(c: Config, o: Oracle, trace: seq<Run>, events: seq<Event>, i: nat)
    returns (asked: seq<nat>, answered: seq<nat>)
    requires ValidConfig(c) && Execution(c, o, trace, events) && i < |events| && events[i].Cycle?
    ensures |asked| == |trace[i].resp|
    ensures forall h :: 0 <= h < |asked| ==> asked[h] < i && events[asked[h]].Request?
    ensures forall p :: p in trace[i].e.list ==> p.buf < |asked|
    ensures |trace[i + 1].log| == |trace[i].log| + (if
              && trace[i].e.list != [] && o(trace[i].e.draws) % 256 <= 208
              && (trace[i].e.rem > 0 || c.unlimitedBw
                  || events[i].cycle >= events[asked[trace[i].e.list[0].buf]].reqCycle + 250) then 1 else 0)
  {
    hide Inv, Next, CanStep, Records;
    ghost var holder;
    asked, answered, holder := RunTraced(c, o, trace, events, i);
    ReachableInv(c, o, trace, events, i);
    var r := trace[i];
    ListInBounds(c, r);
    forall h | 0 <= h < |asked|
      ensures asked[h] < i && events[asked[h]].Request?
    {
      assert Answers(events, i, asked[h], answered[h], r.reqs[h], r.resp[h]);
    }
    LogGrows(c, o, r, events[i]);
    if r.e.list != [] && r.e.rem == 0 {
      var p := r.e.list[0];
      assert p in Unstarted(r.e);
      HeadBusy(c, r);
      assert Describes(events, i, holder[p.state], r.e.states[p.state]);
    }
  }

  lemma ListInBounds(c: Config, r: Run)
    requires Inv(c, r)
    ensures forall p :: p in r.e.list ==> p.buf < |r.resp|
  {
    assert forall p :: p in r.e.list ==> CplOk(c, r, p);
  }

  lemma HeadBusy(c: Config, r: Run)
    requires Inv(c, r) && r.e.list != [] && r.e.rem == 0
    ensures r.e.list[0].state < |r.e.states| && r.e.states[r.e.list[0].state].busy
  {
    assert r.e.list[0] in Unstarted(r.e);
  }

  lemma LogGrows(c: Config, o: Oracle, r: Run, ev: Event)
    requires ValidConfig(c) && Inv(c, r) && ev.Cycle? && CanStep(c, o, r, ev)
    ensures r.e.list != [] ==> r.e.list[0].state < |r.e.states|
    ensures |Next(c, o, r, ev).log| == |r.log| + (if r.e.list != [] && !Stalled(c, o, r.e, ev.cycle) then 1 else 0)
  {
  }

  /** The payload lanes of a beat are the bytes of the bus behind the header, or all of them. */
  predicate FillsBus(c: Config, b: Beat)
  {
    |b.data| == |b.keep| == 4 * c.tdataDw - (if b.hdr.Some? then 32 else 0)
  }

  lemma StepFills(c: Config, o: Oracle, r: Run, ev: Event)
    requires ValidConfig(c) && CanStep(c, o, r, ev) && forall k :: 0 <= k < |r.log| ==> FillsBus(c, r.log[k].beat)
    ensures var r' := Next(c, o, r, ev); forall k :: 0 <= k < |r'.log| ==> FillsBus(c, r'.log[k].beat)
  {
    if ev.Cycle? && r.e.list != [] && !Stalled(c, o, r.e, ev.cycle) {
      assert FillsBus(c, HeadBeat(c, r.e));
      hide HeadBeat, FillsBus, Stalled, Released;
    }
  }

  lemma {:induction false} BeatsFill(c: Config, o: Oracle, trace: seq<Run>, events: seq<Event>, i: nat)
    requires ValidConfig(c) && Execution(c, o, trace, events) && i < |trace|
    ensures forall k :: 0 <= k < |trace[i].log| ==> FillsBus(c, trace[i].log[k].beat)
  {
    hide Next, CanStep, FillsBus;
    if i > 0 {
      BeatsFill(c, o, trace, events, i - 1);
      StepFills(c, o, trace[i - 1], events[i - 1]);
    }
  }

  // ---------------------------------------------------------------- ordered completions

  /** The numbers of the responses do not decrease along the list. */
  ghost predicate Rising(list: seq<Cpl>)
  {
    forall j, k :: 0 <= j < k < |list| ==> list[j].buf <= list[k].buf
  }

  ghost predicate RisingLog(log: seq<Entry>)
  {
    forall j, k :: 0 <= j < k < |log| ==> log[j].buf <= log[k].buf
  }

  /** The bus and then the list go through the responses in order. */
  ghost predicate Ordered(r: Run)
  {
    && Rising(r.e.list) && RisingLog(r.log)
    && (r.log != [] ==> forall k :: 0 <= k < |r.e.list| ==> r.log[|r.log| - 1].buf <= r.e.list[k].buf)
    && (forall k :: 0 <= k < |r.e.list| ==> r.e.list[k].buf < |r.resp|)
    && (forall k :: 0 <= k < |r.log| ==> r.log[k].buf < |r.resp|)
  }

  /** With ordered completions nothing is overtaken: a new completion goes to the end. */
  lemma OrderedPush(c: Config, o: Oracle, list: seq<Cpl>, cpl: Cpl, draws: nat)
    requires c.ordered
    ensures Push(list, cpl, NumLater(c, o, draws).0) == list + [cpl]
  {
    assert NumLater(c, o, draws).0 == 0;
  }

  lemma {:induction false} OrderedSplit(c: Config, o: Oracle, req: Req, st: nat, buf: nat, s: Split)
    requires ValidConfig(c) && c.ordered && SplitReady(c, req, s)
    ensures var f := SplitLoop(c, o, req, st, buf, s);
            && |s.list| <= |f.list| && f.list[..|s.list|] == s.list
            && forall k :: |s.list| <= k < |f.list| ==> f.list[k].buf == buf
    decreases s.dwRem
  {
    hide RandomLength, NextSpan, LegalReq, Push;
    RandomLengthBounds(c, o, s.draws, s.dwRem, req.dm);
    var (n, draws1) := RandomLength(c, o, s.draws, s.dwRem, req.dm);
    OrderedPush(c, o, s.list, NextCpl(c, req, st, buf, s, n), draws1);
    var s' := SplitOne(c, o, req, st, buf, s);
    assert s'.list == s.list + [NextCpl(c, req, st, buf, s, n)];
    if s'.dwRem > 0 {
      OrderedSplit(c, o, req, st, buf, s');
      var f := SplitLoop(c, o, req, st, buf, s');
      assert f.list[..|s.list|] == f.list[..|s'.list|][..|s.list|];
      assert f.list[|s.list|] == f.list[..|s'.list|][|s.list|];
    }
  }

  lemma OrderedStep(c: Config, o: Oracle, r: Run, ev: Event)
    requires ValidConfig(c) && c.ordered && Inv(c, r) && CanStep(c, o, r, ev) && Ordered(r)
    ensures Ordered(Next(c, o, r, ev))
  {
    hide Next, CanStep, Inv, Tags, Shape, Stalled;
    InvTags(c, r);
    match ev
    case Request(_, _, _) => RequestKeeps(c, o, r, ev);
    case Response(_, _) => OrderedResponse(c, o, r, ev);
    case Cycle(_) => OrderedCycle(c, o, r, ev);
  }

  lemma OrderedCycle(c: Config, o: Oracle, r: Run, ev: Event)
    requires ValidConfig(c) && Shape(c, r) && Ordered(r) && ev.Cycle? && CanStep(c, o, r, ev)
    ensures Ordered(Next(c, o, r, ev))
  {
    hide Ordered, CplOk, HeadBeat, StatesOk, OneStatePerBuf;
    var r' := Next(c, o, r, ev);
    if r.e.list != [] && !Stalled(c, o, r.e, ev.cycle) {
      SendEffect(c, o, r, ev);
      OrderedSend(r, r');
    } else {
      SameOrder(r, r');
    }
  }

  lemma SameOrder(r: Run, r': Run)
    requires Ordered(r) && r'.e.list == r.e.list && r'.log == r.log && r'.resp == r.resp
    ensures Ordered(r')
  {
  }

  lemma RequestKeeps(c: Config, o: Oracle, r: Run, ev: Event)
    requires ValidConfig(c) && ev.Request? && CanStep(c, o, r, ev)
    ensures var r' := Next(c, o, r, ev); r'.e.list == r.e.list && r'.log == r.log && r'.resp == r.resp
  {
  }

  lemma OrderedResponse(c: Config, o: Oracle, r: Run, ev: Event)
    requires ValidConfig(c) && c.ordered && Shape(c, r) && Tags(c, r) && Ordered(r)
    requires ev.Response? && CanStep(c, o, r, ev)
    ensures Ordered(Next(c, o, r, ev))
  {
    hide CplOk, OneStatePerBuf, HasLast;
    ResponseEffect(c, o, r, ev);
    var req := r.e.states[ev.tag].req;
    var r' := Next(c, o, r, ev);
    OrderedAll(c, o, req, ev.tag, r.e.nextBuf, r.e.list, r.e.draws);
    hide Tags, Shape, SplitAll;
    ListIs(c, o, r, ev);
    hide Next, CanStep;
    var n := |r.e.list|;
    forall k | 0 <= k < |r'.e.list|
      ensures k < n ==> r'.e.list[k] == r.e.list[k]
      ensures k >= n ==> r'.e.list[k].buf == r.e.nextBuf
    {
      if k < n {
        assert r'.e.list[..n][k] == r.e.list[k];
      }
    }
  }

  lemma ListIs(c: Config, o: Oracle, r: Run, ev: Event)
    requires ValidConfig(c) && ev.Response? && CanStep(c, o, r, ev)
    ensures Next(c, o, r, ev).e.list
         == SplitAll(c, o, r.e.states[ev.tag].req, ev.tag, r.e.nextBuf, r.e.list, r.e.draws).list
  {
  }

  lemma OrderedAll(c: Config, o: Oracle, req: Req, st: nat, buf: nat, list: seq<Cpl>, draws: nat)
    requires ValidConfig(c) && c.ordered && LegalReq(c, req)
    ensures var f := SplitAll(c, o, req, st, buf, list, draws);
            && |list| <= |f.list| && f.list[..|list|] == list
            && forall k :: |list| <= k < |f.list| ==> f.list[k].buf == buf
  {
    hide SplitLoop;
    OrderedSplit(c, o, req, st, buf, SplitStart(list, draws, req));
  }

  lemma OrderedSend(r: Run, r': Run)
    requires Ordered(r) && r.e.list != [] && r'.resp == r.resp
    requires r'.e.list == r.e.list || r'.e.list == r.e.list[1..]
    requires |r'.log| == |r.log| + 1 && r'.log[..|r.log|] == r.log && r'.log[|r.log|].buf == r.e.list[0].buf
    ensures Ordered(r')
  {
    assert forall k :: 0 <= k < |r.log| ==> r'.log[k] == r'.log[..|r.log|][k];
  }

  /** With ordered completions the bus serves the responses one after the other, in the order in which
      the memory model gave them. */
  lemma {:induction false} InOrder(c: Config, o: Oracle, trace: seq<Run>, events: seq<Event>, i: nat)
    requires ValidConfig(c) && c.ordered && Execution(c, o, trace, events) && i < |trace|
    ensures forall j, k :: 0 <= j < k < |trace[i].log| ==> trace[i].log[j].buf <= trace[i].log[k].buf
    ensures Ordered(trace[i])
  {
    hide Next, CanStep, Inv;
    if i > 0 {
      InOrder(c, o, trace, events, i - 1);
      ReachableInv(c, o, trace, events, i - 1);
      OrderedStep(c, o, trace[i - 1], events[i - 1]);
    }
  }
}
