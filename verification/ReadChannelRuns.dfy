/** Runs of the read completion code are runs of the read completion engine. */
module ReadChannelRuns {
  import opened Wrappers
  import opened ReadCompletion
  import opened ReadEngine
  import opened ReadDelivery
  import opened ReadDeliveryProof
  import opened ReadDeliveryTheorems
  import opened CompletionList
  import opened ReadChannel

  /** What the AFU sees of a beat behind the place of its header. */
  method Sample(tdata: array<Byte>, tkeep: array<bool>, hdr: Option<CplHdr>, tlast: bool) returns (b: Beat)
    requires tdata.Length == tkeep.Length >= 4 * HDR_DW
    ensures b == Beat(hdr, tlast, tdata[if hdr.Some? then 4 * HDR_DW else 0..],
                      tkeep[if hdr.Some? then 4 * HDR_DW else 0..])
  {
    var from := if hdr.Some? then 4 * HDR_DW else 0;
    b := Beat(hdr, tlast, tdata[from..], tkeep[from..]);
  }

  /** A read request arrives. */
  method Requested(ch: ReadChannel, hdr: ReadHdr, tlast: bool, cycle: int, ghost r: Run) returns (tag: Option<nat>)
    requires ch.Valid() && Inv(ch.c, r) && ch.Abs() == r.e
    modifies ch, ch.states
    ensures ch.Valid() && ch.states == old(ch.states) && ch.list.nodes == old(ch.list.nodes)
    ensures tag.Some? <==> CanStep(ch.c, ch.o, r, Request(hdr, tlast, cycle))
    ensures tag == None ==> ch.Abs() == r.e
    ensures tag.Some? ==> ch.Abs() == Next(ch.c, ch.o, r, Request(hdr, tlast, cycle)).e
    ensures tag.Some? ==> ch.inflight == old(ch.inflight) + {tag.value}
  {
    hide Inv, CheckRead, CplList.Valid;
    if !Unpacked(hdr) {
      return None;
    }
    HeadIdle(ch.c, r);
    InvStates(ch.c, r);
    CheckedTag(ch.c, hdr, tlast);
    tag := ch.ReceiveReadRequest(hdr, tlast, cycle);
    if tag.Some? {
      RequestInv(ch.c, ch.o, r, Request(hdr, tlast, cycle));
      InvStates(ch.c, Next(ch.c, ch.o, r, Request(hdr, tlast, cycle)));
    }
  }

  /** The memory model answers a read. */
  method Answered(ch: ReadChannel, tag: nat, data: seq<Byte>, ghost r: Run)
    requires ch.Valid() && Inv(ch.c, r) && ch.Abs() == r.e && CanStep(ch.c, ch.o, r, Response(tag, data))
    modifies ch, ch.list, ch.list.Repr()
    ensures ch.Valid() && ch.states == old(ch.states) && fresh(ch.list.Repr() - old(ch.list.Repr()))
    ensures ch.Abs() == Next(ch.c, ch.o, r, Response(tag, data)).e
    ensures ch.inflight == old(ch.inflight) - {tag}
  {
    hide Inv, Respond, CplList.Valid, LegalReq;
    ch.ReceiveResponse(tag, data);
    Untagged(ch.c, ch.o, r.e, tag, data);
  }

  lemma Untagged(c: Config, o: Oracle, e: Engine, tag: nat, data: seq<Byte>)
    requires ValidConfig(c) && tag < |e.states| && LegalReq(c, e.states[tag].req)
    ensures Respond(c, o, e, tag, data).inflight == e.inflight - {tag}
  {
  }

  /** The channel has a cycle for completions. */
  method Cycled(ch: ReadChannel, cycle: int, tdata: array<Byte>, tkeep: array<bool>, ghost r: Run)
    returns (seen: Option<Beat>)
    requires ch.Valid() && Inv(ch.c, r) && ch.Abs() == r.e && tdata.Length == tkeep.Length == 4 * ch.c.tdataDw
    requires CanStep(ch.c, ch.o, r, Cycle(cycle))
    modifies ch, ch.states, ch.list, ch.list.Repr(), tdata, tkeep
    ensures ch.Valid() && ch.states == old(ch.states) && ch.list.Repr() <= old(ch.list.Repr())
    ensures ch.Abs() == Next(ch.c, ch.o, r, Cycle(cycle)).e && ch.inflight == old(ch.inflight)
    ensures var log' := Next(ch.c, ch.o, r, Cycle(cycle)).log;
            if seen == None then log' == r.log
            else |log'| == |r.log| + 1 && log'[..|r.log|] == r.log && log'[|r.log|].beat == seen.value
  {
    hide Inv, Stalled, HeadBeat, Advance, Started, Released;
    seen := None;
    AlwaysSteps(ch.c, ch.o, r);
    CycleEffect(ch.c, ch.o, r, cycle);
    if ch.list.head != null {
      var done, tvalid, tlast, hdr := ch.SendCompletion(cycle, tdata, tkeep);
      if tvalid {
        var b := Sample(tdata, tkeep, hdr, tlast);
        seen := Some(b);
      }
    }
  }

  lemma CycleEffect(c: Config, o: Oracle, r: Run, cycle: int)
    requires ValidConfig(c) && CanStep(c, o, r, Cycle(cycle))
    ensures var r' := Next(c, o, r, Cycle(cycle));
            && r'.e.inflight == r.e.inflight
            && (r.e.list == [] ==> r' == r)
            && (r.e.list != [] ==>
                  var (e, b) := Send(c, o, r.e, cycle);
                  && r'.e == e
                  && (b == None ==> r'.log == r.log)
                  && (b.Some? ==> r'.log == r.log + [Entry(r.e.list[0].buf, b.value)]))
  {
    hide HeadBeat, Stalled;
    assert r.log + [] == r.log;
  }

  /** One event, if it is possible; before and after, the reads that the memory model has and the
      beats that the AFU has seen. */
  method Feed(ch: ReadChannel, ev: Event, outstanding: set<nat>, seen: seq<Beat>,
              tdata: array<Byte>, tkeep: array<bool>, ghost r: Run)
    returns (ok: bool, outstanding': set<nat>, seen': seq<Beat>)
    requires ch.Valid() && Inv(ch.c, r) && ch.Abs() == r.e && tdata.Length == tkeep.Length == 4 * ch.c.tdataDw
    requires outstanding == ch.inflight && Shown(r.log, seen)
    modifies ch, ch.states, ch.list, ch.list.Repr(), tdata, tkeep
    ensures ch.Valid() && ch.states == old(ch.states) && fresh(ch.list.Repr() - old(ch.list.Repr()))
    ensures ok <==> CanStep(ch.c, ch.o, r, ev)
    ensures ok ==> ch.Abs() == Next(ch.c, ch.o, r, ev).e && Shown(Next(ch.c, ch.o, r, ev).log, seen')
    ensures !ok ==> ch.Abs() == r.e && seen' == seen
    ensures outstanding' == ch.inflight
  {
    hide Inv, Next, CanStep, Shown, MaxAnyRd, CplList.Valid, CplList.Contents, StatesOk, ValidConfig;
    AlwaysSteps(ch.c, ch.o, r);
    ok, outstanding', seen' := true, outstanding, seen;
    match ev
    case Request(hdr, tlast, cycle) =>
      var tag := Requested(ch, hdr, tlast, cycle, r);
      if tag == None {
        ok := false;
      } else {
        outstanding' := outstanding + {tag.value};
        SameLog(ch.c, ch.o, r, ev, seen);
      }
    case Response(tag, data) =>
      if tag !in outstanding || |data| != MaxAnyRd(ch.c) {
        NotAnswered(ch.c, ch.o, r, tag, data);
        ok := false;
      } else {
        Answered(ch, tag, data, r);
        outstanding' := outstanding - {tag};
        SameLog(ch.c, ch.o, r, ev, seen);
      }
    case Cycle(cycle) =>
      var b := Cycled(ch, cycle, tdata, tkeep, r);
      LogShown(ch.c, ch.o, r, cycle, b, seen);
      if b.Some? {
        seen' := seen + [b.value];
      }
  }

  /** Feed events to the code until one is not possible: a request that ends the simulation, or an
      answer to a read that the memory model does not have. What has happened is a run of the engine,
      the code is in its state, and the AFU has seen its beats. */
  method RunEvents(c: Config, o: Oracle, events: seq<Event>)
    returns (ch: ReadChannel, n: nat, seen: seq<Beat>, ghost trace: seq<Run>)
    requires ValidConfig(c)
    ensures n <= |events| && Execution(c, o, trace, events[..n])
    ensures ch.Valid() && ch.Abs() == trace[n].e
    ensures n < |events| ==> !CanStep(c, o, trace[n], events[n])
    ensures Shown(trace[n].log, seen)
  {
    hide Inv, Next, CanStep, Execution, Shown, CplList.Valid, CplList.Contents, InitRun, StatesOk;
    ch := new ReadChannel(c, o);
    var tdata, tkeep := new Byte[4 * c.tdataDw](_ => 0), new bool[4 * c.tdataDw](_ => false);
    trace, n, seen := [InitRun(c, 0)], 0, [];
    var outstanding: set<nat> := {};
    Start(c, o, events);
    while n < |events|
      invariant n <= |events| && |trace| == n + 1 && Execution(c, o, trace, events[..n])
      invariant ch.Valid() && ch.Abs() == trace[n].e && ch.c == c && ch.o == o
      invariant fresh(ch) && fresh(ch.states) && fresh(ch.list) && fresh(ch.list.Repr())
      invariant fresh(tdata) && fresh(tkeep) && tdata.Length == tkeep.Length == 4 * c.tdataDw
      invariant outstanding == ch.inflight
      invariant Shown(trace[n].log, seen)
    {
      ghost var r := trace[n];
      ReachableInv(c, o, trace, events[..n], n);
      var ok;
      ok, outstanding, seen := Feed(ch, events[n], outstanding, seen, tdata, tkeep, r);
      if !ok {
        break;
      }
      OneMore(c, o, trace, events, n);
      trace := trace + [Next(c, o, r, events[n])];
      n := n + 1;
    }
  }

  /** The beats that the AFU has seen are those of the log. */
  ghost predicate Shown(log: seq<Entry>, seen: seq<Beat>)
  {
    |seen| == |log| && forall i :: 0 <= i < |seen| ==> seen[i] == log[i].beat
  }

  lemma Start(c: Config, o: Oracle, events: seq<Event>)
    requires ValidConfig(c)
    ensures Execution(c, o, [InitRun(c, 0)], events[..0])
    ensures InitRun(c, 0).e == InitEngine(c, 0) && InitEngine(c, 0).inflight == {} && Shown(InitRun(c, 0).log, [])
  {
  }

  lemma OneMore(c: Config, o: Oracle, trace: seq<Run>, events: seq<Event>, n: nat)
    requires ValidConfig(c) && n < |events| && |trace| == n + 1 && Execution(c, o, trace, events[..n])
    requires CanStep(c, o, trace[n], events[n])
    ensures Execution(c, o, trace + [Next(c, o, trace[n], events[n])], events[..n + 1])
  {
    hide Next, CanStep, InitRun;
    forall i | 0 <= i < n
      ensures events[..n + 1][i] == events[..n][i]
    {
    }
  }

  lemma SameLog(c: Config, o: Oracle, r: Run, ev: Event, seen: seq<Beat>)
    requires ValidConfig(c) && CanStep(c, o, r, ev) && !ev.Cycle? && Shown(r.log, seen)
    ensures Shown(Next(c, o, r, ev).log, seen)
  {
  }

  lemma LogShown(c: Config, o: Oracle, r: Run, cycle: int, b: Option<Beat>, seen: seq<Beat>)
    requires ValidConfig(c) && CanStep(c, o, r, Cycle(cycle)) && Shown(r.log, seen)
    requires var log' := Next(c, o, r, Cycle(cycle)).log;
             if b == None then log' == r.log
             else |log'| == |r.log| + 1 && log'[..|r.log|] == r.log && log'[|r.log|].beat == b.value
    ensures Shown(Next(c, o, r, Cycle(cycle)).log, if b == None then seen else seen + [b.value])
  {
    hide Next, CanStep;
  }

  lemma NotAnswered(c: Config, o: Oracle, r: Run, tag: nat, data: seq<Byte>)
    requires tag !in r.e.inflight || |data| != MaxAnyRd(c)
    ensures !CanStep(c, o, r, Response(tag, data))
  {
  }

  lemma InvStates(c: Config, r: Run)
    requires Inv(c, r)
    ensures StatesOk(c, r.e)
  {
  }

  lemma CheckedTag(c: Config, hdr: ReadHdr, tlast: bool)
    ensures CheckRead(c, hdr, tlast).Some? ==> CheckRead(c, hdr, tlast).value.tag < c.numStates
  {
  }

  /** The first free index is idle. */
  lemma HeadIdle(c: Config, r: Run)
    requires Inv(c, r)
    ensures c.tagMapper && r.e.freeHead != READ_STATE_NULL ==>
              0 <= r.e.freeHead < |r.e.states| && !r.e.states[r.e.freeHead].busy
  {
    if c.tagMapper && r.free != [] {
      assert Link(r.e.states, r.free, 0);
    }
  }
}
