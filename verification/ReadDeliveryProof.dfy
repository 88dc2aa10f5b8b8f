/** Every step of the read completion engine keeps the delivery invariant. */
module ReadDeliveryProof {
  import opened Wrappers
  import opened ReadCompletion
  import opened ReadEngine
  import opened ReadDelivery

  // ---------------------------------------------------------------- the free list

  lemma AllocKeepsChain(states: seq<RdState>, head: int, free: seq<nat>, s: RdState)
    requires FreeChain(states, head, free) && head != READ_STATE_NULL && |states| < READ_STATE_NULL
    requires s.busy
    ensures free != [] && 0 <= head < |states| && !states[head].busy
    ensures FreeChain(states[head := s], states[head].startCycle, free[1..])
    ensures head !in free[1..]
  {
    assert free != [] && Link(states, free, 0);
    var states', free' := states[head := s], free[1..];
    forall i | 0 <= i < |free'|
      ensures Link(states', free', i) && free'[i] != head
    {
      assert Link(states, free, i + 1);
    }
    forall k | 0 <= k < |states'| && !states'[k].busy
      ensures k in free'
    {
      assert k in free && k != free[0];
    }
  }

  lemma ReleaseKeepsChain(states: seq<RdState>, head: int, free: seq<nat>, st: nat)
    requires FreeChain(states, head, free) && st < |states| && states[st].busy
    ensures st !in free
    ensures FreeChain(states[st := states[st].(busy := false, startCycle := head)], st, [st] + free)
  {
    var states' := states[st := states[st].(busy := false, startCycle := head)];
    var free' := [st] + free;
    forall i | 0 <= i < |free|
      ensures free[i] != st
    {
      assert Link(states, free, i);
    }
    forall i | 0 <= i < |free'|
      ensures Link(states', free', i)
    {
      if i > 0 {
        assert Link(states, free, i - 1);
      }
    }
    forall k | 0 <= k < |states'| && !states'[k].busy
      ensures k in free'
    {
      if k != st {
        assert k in free;
      }
    }
  }

  lemma ChainHead(c: Config, states: seq<RdState>, head: int, free: seq<nat>)
    requires FreeChain(states, head, free)
    ensures head == READ_STATE_NULL || 0 <= head < |states|
  {
    assert free != [] ==> Link(states, free, 0);
  }

  // ---------------------------------------------------------------- what a step leaves alone

  lemma SameShape(c: Config, r: Run, r': Run)
    requires Shape(c, r) && StatesOk(c, r'.e)
    requires r'.e.list == r.e.list && r'.e.rem == r.e.rem && r'.e.bufs == r.e.bufs && r'.e.nextBuf == r.e.nextBuf
    requires r'.log == r.log && r'.reqs == r.reqs && r'.resp == r.resp
    ensures Shape(c, r')
  {
    assert forall p :: p in r'.e.list ==> CplOk(c, r, p) && CplOk(c, r', p);
  }

  lemma SameDelivery(r: Run, r': Run)
    requires Delivery(r)
    requires r'.e.list == r.e.list && r'.e.rem == r.e.rem && r'.log == r.log && r'.resp == r.resp
    ensures Delivery(r')
  {
    forall h | 0 <= h < |r'.resp|
      ensures DeliveredUpTo(r', h)
    {
      assert DeliveredUpTo(r, h);
    }
  }

  // ---------------------------------------------------------------- requests

  lemma RequestInv(c: Config, o: Oracle, r: Run, ev: Event)
    requires ValidConfig(c)
    requires Inv(c, r) && ev.Request? && CanStep(c, o, r, ev)
    ensures Inv(c, Next(c, o, r, ev))
  {
    var r' := Next(c, o, r, ev);
    var req := CheckRead(c, ev.hdr, ev.tlast).value;
    if c.tagMapper {
      AllocKeepsChain(r.e.states, r.e.freeHead, r.free, RdState(ev.reqCycle, req, true));
      ChainHead(c, r'.e.states, r'.e.freeHead, r'.free);
    }
    SameShape(c, r, r');
    SameDelivery(r, r');
    RequestTags(c, o, r, ev);
  }

  /** What an accepted request does to the engine and the history. */
  lemma RequestEffect(c: Config, o: Oracle, r: Run, ev: Event) returns (tag: nat)
    requires ValidConfig(c) && ev.Request? && CanStep(c, o, r, ev)
    ensures var r' := Next(c, o, r, ev);
            && tag < |r.e.states| && !r.e.states[tag].busy
            && |r'.e.states| == |r.e.states|
            && r'.e.states[tag].busy && LegalReq(c, r'.e.states[tag].req)
            && (forall s :: 0 <= s < |r.e.states| && s != tag ==> r'.e.states[s] == r.e.states[s])
            && r'.e.inflight == r.e.inflight + {tag}
            && Unstarted(r'.e) == Unstarted(r.e) && r'.reqs == r.reqs
  {
    CheckedIsLegal(c, ev.hdr, ev.tlast);
    tag := Accept(c, r.e, CheckRead(c, ev.hdr, ev.tlast).value, ev.reqCycle).value.1;
  }

  lemma RequestTags(c: Config, o: Oracle, r: Run, ev: Event)
    requires ValidConfig(c) && Shape(c, r) && Tags(c, r)
    requires ev.Request? && CanStep(c, o, r, ev) && Shape(c, Next(c, o, r, ev))
    ensures Tags(c, Next(c, o, r, ev))
  {
    hide Next, CplOk, OneStatePerBuf, CanStep, LegalReq, Unstarted;
    var r' := Next(c, o, r, ev);
    var tag := RequestEffect(c, o, r, ev);
    forall s | 0 <= s < c.numStates && r'.e.states[s].busy && s !in r'.e.inflight
      ensures HasLast(r'.e, s)
    {
      assert HasLast(r.e, s);
    }
  }

  // ---------------------------------------------------------------- responses

  lemma PushMembers(list: seq<Cpl>, cpl: Cpl, n: nat)
    ensures var l := Push(list, cpl, n);
            && l != []
            && (forall p :: p in l <==> p in list || p == cpl)
            && (list == [] ==> l == [cpl])
            && (list != [] ==> l[0] == list[0] && forall p :: p in l[1..] <==> p in list[1..] || p == cpl)
  {
    var k := InsertAt(list, cpl.state, n);
    var l := Push(list, cpl, n);
    assert list == list[..k] + list[k..];
    assert forall p :: p in list <==> p in list[..k] || p in list[k..];
    if list != [] {
      assert list[1..] == list[1..k] + list[k..];
      assert l[1..] == list[1..k] + [cpl] + list[k..];
    }
  }

  /** The head as seen by Unstarted: what the split loop adds to the list, and where. */
  ghost predicate Added(list: seq<Cpl>, list': seq<Cpl>, made: seq<Cpl>, buf: nat)
  {
    && (forall p :: p in list' <==> p in list || p in made)
    && (list != [] ==> list' != [] && list'[0] == list[0]
                       && forall p :: p in list'[1..] <==> p in list[1..] || p in made)
    && (forall h :: Of(list', h) == Of(list, h) + (if h == buf then made else []))
  }

  lemma AddOne(list: seq<Cpl>, l1: seq<Cpl>, made: seq<Cpl>, buf: nat, cpl: Cpl, n: nat)
    requires Added(list, l1, made, buf) && cpl.buf == buf
    requires forall p :: p in made ==> p.buf == buf && p.state == cpl.state
    requires forall p :: p in list && p.buf == buf ==> p.state == cpl.state
    ensures Added(list, Push(l1, cpl, n), made + [cpl], buf)
  {
    PushMembers(l1, cpl, n);
    PushKeepsOrder(l1, cpl, n);
    var l2 := Push(l1, cpl, n);
    forall h
      ensures Of(l2, h) == Of(list, h) + (if h == buf then made + [cpl] else [])
    {
      if h == buf {
        assert (Of(list, h) + made) + [cpl] == Of(list, h) + (made + [cpl]);
      }
    }
  }

  lemma SplitOneAdds(c: Config, o: Oracle, req: Req, st: nat, buf: nat, s0: seq<Cpl>, s: Split)
    requires ValidConfig(c) && SplitReady(c, req, s)
    requires Added(s0, s.list, s.made, buf)
    requires forall p :: p in s.made ==> p.buf == buf && p.state == st
    requires forall p :: p in s0 && p.buf == buf ==> p.state == st
    ensures var f := SplitOne(c, o, req, st, buf, s);
            && Added(s0, f.list, f.made, buf)
            && forall p :: p in f.made ==> p.buf == buf && p.state == st
  {
    RandomLengthBounds(c, o, s.draws, s.dwRem, req.dm);
    var (n, draws1) := RandomLength(c, o, s.draws, s.dwRem, req.dm);
    AddOne(s0, s.list, s.made, buf, NextCpl(c, req, st, buf, s, n), NumLater(c, o, draws1).0);
  }

  lemma {:induction false} SplitAdds(c: Config, o: Oracle, req: Req, st: nat, buf: nat, s0: seq<Cpl>, s: Split)
    requires ValidConfig(c) && SplitReady(c, req, s)
    requires Added(s0, s.list, s.made, buf)
    requires forall p :: p in s.made ==> p.buf == buf && p.state == st
    requires forall p :: p in s0 && p.buf == buf ==> p.state == st
    ensures var f := SplitLoop(c, o, req, st, buf, s);
            && Added(s0, f.list, f.made, buf)
            && forall p :: p in f.made ==> p.buf == buf && p.state == st
    decreases s.dwRem
  {
    SplitOneAdds(c, o, req, st, buf, s0, s);
    var s' := SplitOne(c, o, req, st, buf, s);
    if s'.dwRem > 0 {
      SplitAdds(c, o, req, st, buf, s0, s');
    }
  }

  /** A response is cut into completions that tile its request, and they join the list behind
      whatever was pending, in order. */
  lemma SplitResult(c: Config, o: Oracle, req: Req, st: nat, buf: nat, list: seq<Cpl>, draws: nat)
    returns (made: seq<Cpl>)
    requires ValidConfig(c) && LegalReq(c, req)
    requires forall p :: p in list ==> p.buf != buf
    ensures var f := SplitAll(c, o, req, st, buf, list, draws);
            && made == f.made
            && Added(list, f.list, made, buf)
            && Tiles(c, req, st, buf, made)
  {
    var s := SplitStart(list, draws, req);
    SplitTiles(c, o, req, st, buf, s);
    SplitAdds(c, o, req, st, buf, list, s);
    made := SplitLoop(c, o, req, st, buf, s).made;
  }

  /** Consecutive pieces meet, and the final one ends the request. */
  lemma TilesLink(c: Config, req: Req, st: nat, buf: nat, made: seq<Cpl>, i: nat)
    requires Tiles(c, req, st, buf, made) && i < |made|
    ensures made[i].lenBytes > 0 && made[i].isLast == (i + 1 == |made|)
    ensures 4 * made[i].startDw + made[i].lenBytes
         == if i + 1 == |made| then req.lenBytes else 4 * made[i + 1].startDw
  {
    PieceStart(c, req, st, buf, made, i);
    if i + 1 < |made| {
      PieceStart(c, req, st, buf, made, i + 1);
      WholeDw(made[i]);
    }
  }

  lemma WholeDw(p: Cpl)
    requires p.lenBytes % 4 == 0
    ensures 4 * EndOf(p) == 4 * p.startDw + p.lenBytes
  {
  }

  lemma PieceStart(c: Config, req: Req, st: nat, buf: nat, made: seq<Cpl>, i: nat)
    requires i < |made| && Piece(c, req, st, buf, made, i)
    ensures made[i].startDw == if i == 0 then 0 else EndOf(made[i - 1])
    ensures made[i].lenBytes > 0 && (!made[i].isLast ==> made[i].lenBytes % 4 == 0)
  {
  }

  /** Tiling from piece i on: the rest is a chain, and every piece lies inside the request. */
  lemma {:induction false} TilesChain(c: Config, req: Req, st: nat, buf: nat, made: seq<Cpl>, i: nat)
    requires Tiles(c, req, st, buf, made) && i <= |made|
    ensures Chain(made[i..], req.lenBytes)
    ensures forall k :: i <= k < |made| ==> 4 * made[k].startDw + made[k].lenBytes <= req.lenBytes
    decreases |made| - i
  {
    if i < |made| {
      TilesChain(c, req, st, buf, made, i + 1);
      TilesLink(c, req, st, buf, made, i);
      if i + 1 < |made| {
        assert 4 * made[i + 1].startDw + made[i + 1].lenBytes <= req.lenBytes;
      }
      ChainCons(made[i..], req.lenBytes, made[i + 1..]);
    }
  }

  lemma ChainCons(s: seq<Cpl>, total: nat, tail: seq<Cpl>)
    requires s != [] && tail == s[1..] && Chain(tail, total)
    requires s[0].isLast == (|s| == 1)
    requires 4 * s[0].startDw + s[0].lenBytes == (if |s| == 1 then total else 4 * s[1].startDw)
    ensures Chain(s, total)
  {
  }

  lemma {:induction false} TilesStart(c: Config, req: Req, st: nat, buf: nat, made: seq<Cpl>, i: nat)
    requires Tiles(c, req, st, buf, made) && i < |made|
    ensures Piece(c, req, st, buf, made, i)
    ensures made[i].isFirst == (made[i].startDw == 0)
  {
    assert Piece(c, req, st, buf, made, i);
    if i > 0 {
      assert Piece(c, req, st, buf, made, i - 1);
      assert LenDw(made[i - 1].lenBytes) > 0;
    }
  }

  lemma {:induction false} SentNone(log: seq<Entry>, h: nat)
    requires forall i :: 0 <= i < |log| ==> log[i].buf != h
    ensures Sent(log, h) == []
  {
    if log != [] {
      SentNone(log[..|log| - 1], h);
    }
  }

  /** What a memory response does to the engine and the history. */
  lemma ResponseEffect(c: Config, o: Oracle, r: Run, ev: Event)
    requires ValidConfig(c) && |r.reqs| == |r.resp| == r.e.nextBuf
    requires ev.Response? && CanStep(c, o, r, ev)
    ensures ev.tag in r.e.inflight && ev.tag < |r.e.states| && LegalReq(c, r.e.states[ev.tag].req)
    ensures var r', req, buf := Next(c, o, r, ev), r.e.states[ev.tag].req, r.e.nextBuf;
            && r'.e.states == r.e.states && r'.e.freeHead == r.e.freeHead && r'.e.rem == r.e.rem
            && r'.e.inflight == r.e.inflight - {ev.tag}
            && r'.log == r.log
            && r'.e.nextBuf == buf + 1 == |r'.reqs| == |r'.resp|
            && r'.reqs[..buf] == r.reqs && r'.resp[..buf] == r.resp
            && r'.reqs[buf] == req && |r'.resp[buf]| == req.lenBytes
            && buf in r'.e.bufs && r'.resp[buf] <= r'.e.bufs[buf] && |r'.e.bufs[buf]| == MaxAnyRd(c)
            && (forall b :: b in r.e.bufs && b != buf ==> b in r'.e.bufs && r'.e.bufs[b] == r.e.bufs[b])
  {
    hide SplitAll;
  }

  /** A new completion is one of the pieces of the newest response. */
  lemma MadeOk(c: Config, r': Run, st: nat, buf: nat, made: seq<Cpl>, p: Cpl)
    requires |r'.reqs| == |r'.resp| == buf + 1 && st < c.numStates
    requires LegalReq(c, r'.reqs[buf]) && |r'.resp[buf]| == r'.reqs[buf].lenBytes
    requires buf in r'.e.bufs && r'.resp[buf] <= r'.e.bufs[buf] && |r'.e.bufs[buf]| == MaxAnyRd(c)
    requires Tiles(c, r'.reqs[buf], st, buf, made) && p in made
    ensures CplOk(c, r', p) && p.buf == buf && p.state == st
  {
    hide Chain, LegalReq, Remaining, MaxAnyRd;
    TilesChain(c, r'.reqs[buf], st, buf, made, 0);
    var i :| 0 <= i < |made| && made[i] == p;
    TilesStart(c, r'.reqs[buf], st, buf, made, i);
  }

  /** An older completion stays one of the pieces of its response. */
  lemma OldOk(c: Config, r: Run, r': Run, p: Cpl)
    requires CplOk(c, r, p) && |r.resp| < |r'.resp| == |r'.reqs|
    requires r'.reqs[..|r.reqs|] == r.reqs && r'.resp[..|r.resp|] == r.resp
    requires p.buf in r'.e.bufs && r'.e.bufs[p.buf] == r.e.bufs[p.buf]
    ensures CplOk(c, r', p)
  {
    hide LegalReq, Remaining, MaxAnyRd;
    assert r'.reqs[p.buf] == r.reqs[p.buf] && r'.resp[p.buf] == r.resp[p.buf];
  }

  lemma ResponseShape(c: Config, o: Oracle, r: Run, ev: Event, made: seq<Cpl>)
    requires ValidConfig(c) && Shape(c, r) && Tags(c, r)
    requires ev.Response? && CanStep(c, o, r, ev)
    requires var req := r.e.states[ev.tag].req;
             && Added(r.e.list, Next(c, o, r, ev).e.list, made, r.e.nextBuf)
             && Tiles(c, req, ev.tag, r.e.nextBuf, made)
    ensures Shape(c, Next(c, o, r, ev))
  {
    hide Next, CanStep, Tags, LegalReq, CplOk, Tiles, Of, ValidConfig;
    var r' := Next(c, o, r, ev);
    ResponseEffect(c, o, r, ev);
    forall p | p in r'.e.list
      ensures CplOk(c, r', p)
      ensures p in made ==> p.buf == r.e.nextBuf && p.state == ev.tag
      ensures p !in made ==> p in r.e.list && p.buf < r.e.nextBuf
    {
      if p in made {
        MadeOk(c, r', ev.tag, r.e.nextBuf, made, p);
      } else {
        OldBuf(c, r, p);
        OldOk(c, r, r', p);
      }
    }
  }

  lemma OldBuf(c: Config, r: Run, p: Cpl)
    requires CplOk(c, r, p)
    ensures p.buf < |r.resp| && p.buf in r.e.bufs
  {
  }

  lemma ResponseTags(c: Config, o: Oracle, r: Run, ev: Event, made: seq<Cpl>)
    requires ValidConfig(c) && Shape(c, r) && Tags(c, r)
    requires ev.Response? && CanStep(c, o, r, ev)
    requires var req := r.e.states[ev.tag].req;
             && Added(r.e.list, Next(c, o, r, ev).e.list, made, r.e.nextBuf)
             && Tiles(c, req, ev.tag, r.e.nextBuf, made)
    requires Shape(c, Next(c, o, r, ev))
    ensures Tags(c, Next(c, o, r, ev))
  {
    hide Next, CanStep, LegalReq, CplOk, Of, ValidConfig, OneStatePerBuf, Tags, HasLast;
    var r' := Next(c, o, r, ev);
    ResponseEffect(c, o, r, ev);
    forall p | p in made
      ensures p.state == ev.tag && p.buf == r.e.nextBuf
    {
      MadeOk(c, r', ev.tag, r.e.nextBuf, made, p);
    }
    assert forall p :: p in Unstarted(r'.e) <==> p in Unstarted(r.e) || p in made;
    var last := made[|made| - 1];
    assert last in made && last.isLast;
    MadeTags(c, r, r', ev.tag, made, last);
  }

  /** The answered request's completions take over its read state. */
  lemma MadeTags(c: Config, r: Run, r': Run, tag: nat, made: seq<Cpl>, last: Cpl)
    requires Shape(c, r) && Tags(c, r) && Shape(c, r')
    requires tag in r.e.inflight && tag < |r.e.states|
    requires r'.e.states == r.e.states && r'.e.inflight == r.e.inflight - {tag}
    requires |r'.reqs| == |r.reqs| + 1 && r'.reqs[..|r.reqs|] == r.reqs && r'.reqs[|r.reqs|] == r.e.states[tag].req
    requires forall p :: p in made ==> p.state == tag && p.buf == |r.reqs|
    requires forall p :: p in Unstarted(r'.e) <==> p in Unstarted(r.e) || p in made
    requires last in made && last.isLast
    ensures Tags(c, r')
  {
    hide CplOk, OneStatePerBuf, LegalReq, Unstarted;
    assert last in Unstarted(r'.e);
    forall s | 0 <= s < c.numStates && r'.e.states[s].busy && s !in r'.e.inflight
      ensures HasLast(r'.e, s)
    {
      if s != tag {
        assert HasLast(r.e, s);
      }
    }
  }

  lemma ResponseDelivery(c: Config, o: Oracle, r: Run, ev: Event, made: seq<Cpl>)
    requires ValidConfig(c) && Shape(c, r) && Delivery(r)
    requires ev.Response? && CanStep(c, o, r, ev)
    requires var req := r.e.states[ev.tag].req;
             && Added(r.e.list, Next(c, o, r, ev).e.list, made, r.e.nextBuf)
             && Tiles(c, req, ev.tag, r.e.nextBuf, made)
    ensures Delivery(Next(c, o, r, ev))
  {
    var r' := Next(c, o, r, ev);
    var req := r.e.states[ev.tag].req;
    assert req.lenBytes <= |ev.data|;
    forall h | 0 <= h < |r'.resp|
      ensures DeliveredUpTo(r', h)
    {
      if h < |r.resp| {
        OldDelivery(r, r', made, h);
      } else {
        NewDelivery(c, r, r'.e.list, req, ev.tag, made);
        SentNone(r.log, h);
      }
    }
  }

  /** A new response does not touch what is pending for an earlier one. */
  lemma OldDelivery(r: Run, r': Run, made: seq<Cpl>, h: nat)
    requires h < |r.resp| && r.resp <= r'.resp && r'.log == r.log && r'.e.rem == r.e.rem
    requires Added(r.e.list, r'.e.list, made, r.e.nextBuf) && h != r.e.nextBuf
    requires r.e.rem > 0 ==> r.e.list != []
    requires DeliveredUpTo(r, h)
    ensures DeliveredUpTo(r', h)
  {
    assert Of(r'.e.list, h) == Of(r.e.list, h);
  }

  /** Nothing of a new response has been delivered. */
  lemma NewDelivery(c: Config, r: Run, list': seq<Cpl>, req: Req, st: nat, made: seq<Cpl>)
    requires Shape(c, r)
    requires Added(r.e.list, list', made, r.e.nextBuf) && Tiles(c, req, st, r.e.nextBuf, made)
    ensures Chain(Of(list', r.e.nextBuf), req.lenBytes)
    ensures Progress(list', r.e.rem, r.e.nextBuf, req.lenBytes) == 0
  {
    var h := r.e.nextBuf;
    assert forall p :: p in r.e.list ==> CplOk(c, r, p);
    forall i | 0 <= i < |r.e.list|
      ensures r.e.list[i].buf != h
    {
      assert r.e.list[i] in r.e.list;
    }
    OfNone(r.e.list, h);
    assert Of(list', h) == made;
    assert made[0..] == made;
    TilesChain(c, req, st, h, made, 0);
    assert Piece(c, req, st, h, made, 0);
    assert r.e.list != [] ==> list'[0] == r.e.list[0] && r.e.list[0] in r.e.list;
  }

  lemma ResponseInv(c: Config, o: Oracle, r: Run, ev: Event)
    requires ValidConfig(c)
    requires Inv(c, r) && ev.Response? && CanStep(c, o, r, ev)
    ensures Inv(c, Next(c, o, r, ev))
  {
    var r' := Next(c, o, r, ev);
    assert forall p :: p in r.e.list ==> CplOk(c, r, p);
    var made := SplitResult(c, o, r.e.states[ev.tag].req, ev.tag, r.e.nextBuf, r.e.list, r.e.draws);
    ResponseShape(c, o, r, ev, made);
    ResponseTags(c, o, r, ev, made);
    ResponseDelivery(c, o, r, ev, made);
    ResponseFraming(c, o, r, ev, made);
  }

  lemma MoreRequests(reqs: seq<Req>, more: seq<Req>, log: seq<Entry>)
    requires LogOk(reqs, log)
    ensures LogOk(reqs + more, log)
  {
    forall i | 0 <= i < |log|
      ensures HeaderOk(reqs + more, log[..i], log[i])
    {
      assert HeaderOk(reqs, log[..i], log[i]);
    }
  }

  lemma ResponseFraming(c: Config, o: Oracle, r: Run, ev: Event, made: seq<Cpl>)
    requires ValidConfig(c) && Framing(r)
    requires ev.Response? && CanStep(c, o, r, ev)
    requires Added(r.e.list, Next(c, o, r, ev).e.list, made, r.e.nextBuf)
    ensures Framing(Next(c, o, r, ev))
  {
    MoreRequests(r.reqs, [r.e.states[ev.tag].req], r.log);
  }

  // ---------------------------------------------------------------- completion beats

  lemma {:induction false} OfEmptyNone(list: seq<Cpl>, h: nat)
    requires Of(list, h) == []
    ensures forall p :: p in list ==> p.buf != h
  {
    if list != [] {
      OfEmptyNone(list[1..], h);
      assert forall p :: p in list ==> p == list[0] || p in list[1..];
    }
  }

  lemma {:induction false} OfMember(list: seq<Cpl>, h: nat)
    ensures forall p :: p in Of(list, h) ==> p in list && p.buf == h
  {
    if list != [] {
      OfMember(list[1..], h);
    }
  }

  lemma SentOne(log: seq<Entry>, entry: Entry, h: nat)
    ensures Sent(log + [entry], h) == Sent(log, h)
         + (if entry.buf == h && |entry.beat.data| == |entry.beat.keep|
            then Kept(entry.beat.data, entry.beat.keep) else [])
  {
    assert (log + [entry])[..|log|] == log;
  }

  /** The call sends a beat of the head completion. */
  ghost predicate Sends(c: Config, o: Oracle, r: Run, ev: Event)
  {
    && ev.Cycle? && CanStep(c, o, r, ev)
    && r.e.list != [] && !Stalled(c, o, r.e, ev.cycle)
  }

  /** What a sent beat does to the engine and the history. */
  lemma SendEffect(c: Config, o: Oracle, r: Run, ev: Event)
    requires ValidConfig(c) && Shape(c, r) && Sends(c, o, r, ev)
    ensures var r' := Next(c, o, r, ev);
            var e' := r'.e;
            var cpl := r.e.list[0];
            && cpl in r.e.list && CplOk(c, r, cpl)
            && e'.rem == NextRem(c, r.e)
            && HeadBeat(c, r.e).last == (e'.rem == 0)
            && e'.list == (if e'.rem == 0 then r.e.list[1..] else r.e.list)
            && e'.bufs == (if e'.rem == 0 && cpl.isLast then r.e.bufs - {cpl.buf} else r.e.bufs)
            && e'.inflight == r.e.inflight && e'.nextBuf == r.e.nextBuf
            && e'.states == (if r.e.rem == 0 && cpl.isLast then Release(c, r.e, cpl.state).states else r.e.states)
            && e'.freeHead == (if r.e.rem == 0 && cpl.isLast then Release(c, r.e, cpl.state).freeHead else r.e.freeHead)
            && r'.log == r.log + [Entry(cpl.buf, HeadBeat(c, r.e))]
            && r'.reqs == r.reqs && r'.resp == r.resp
  {
    assert r.e.list[0] in r.e.list && CplOk(c, r, r.e.list[0]);
  }

  /** Whole DWORDs may be read up to the end of any completion: the buffer has room. */
  lemma RoomForDw(c: Config, r: Run, p: Cpl)
    requires ValidConfig(c) && CplOk(c, r, p)
    ensures 4 * EndOf(p) <= |r.e.bufs[p.buf]|
    ensures |r.resp[p.buf]| <= |r.e.bufs[p.buf]|
  {
    assert 4 * p.startDw + p.lenBytes <= MaxAnyRd(c);
  }

  /** The payload of a beat is the next stretch of the completion, from DWORD total - left. */
  lemma BeatStretch(hdr: Option<CplHdr>, cpl: Cpl, buf: seq<Byte>, resp: seq<Byte>, lanes: nat, left: nat)
    requires 0 < left <= LenDw(cpl.lenBytes) && 4 * EndOf(cpl) <= |buf|
    requires resp <= buf && 4 * cpl.startDw + cpl.lenBytes <= |resp|
    ensures var last := left <= lanes;
            var n := if last then left else lanes;
            var b := MakeBeat(hdr, cpl, buf, lanes, cpl.startDw + LenDw(cpl.lenBytes) - left, n, last);
            var p := 4 * (cpl.startDw + LenDw(cpl.lenBytes) - left);
            var q := if last then 4 * cpl.startDw + cpl.lenBytes else p + 4 * n;
            && |b.data| == |b.keep|
            && p <= q <= |resp|
            && Kept(b.data, b.keep) == resp[p..q]
  {
    hide MakeBeat, Kept;
    var last := left <= lanes;
    var n := if last then left else lanes;
    var start := cpl.startDw + LenDw(cpl.lenBytes) - left;
    BeatDelivers(hdr, cpl, buf, lanes, start, n, last);
    SamePrefix(resp, buf, 4 * start, 4 * start + KeptBytes(cpl, n, last));
  }

  lemma SamePrefix(s: seq<Byte>, t: seq<Byte>, p: int, q: int)
    requires s <= t && 0 <= p <= q <= |s|
    ensures s[p..q] == t[p..q]
  {
  }

  /** The bytes of its response that the next beat carries. */
  function BeatFrom(e: Engine): int
    requires e.list != []
  {
    4 * e.list[0].startDw + HeadSent(e.list, e.rem)
  }

  function BeatTo(c: Config, e: Engine): int
    requires c.tdataDw >= HDR_DW && e.list != []
  {
    if NextRem(c, e) == 0 then 4 * e.list[0].startDw + e.list[0].lenBytes
    else 4 * e.list[0].startDw + HeadSent(e.list, NextRem(c, e))
  }

  lemma BeatBounds(c: Config, e: Engine)
    requires c.tdataDw >= HDR_DW && e.list != [] && e.list[0].lenBytes > 0 && e.rem <= LenDw(e.list[0].lenBytes)
    ensures var from := 4 * (e.list[0].startDw + LenDw(e.list[0].lenBytes) - Unsent(e));
            && BeatFrom(e) == from
            && 0 < Unsent(e) <= LenDw(e.list[0].lenBytes)
            && BeatTo(c, e) == if Unsent(e) <= Lanes(c, e) then 4 * e.list[0].startDw + e.list[0].lenBytes
                               else from + 4 * Lanes(c, e)
  {
  }

  /** The payload of a sent beat is the next stretch of its response. */
  lemma BeatData(c: Config, e: Engine, resp: seq<Byte>)
    requires c.tdataDw >= HDR_DW && e.list != [] && e.list[0].lenBytes > 0 && e.rem <= LenDw(e.list[0].lenBytes)
    requires e.list[0].state < |e.states| && e.list[0].buf in e.bufs
    requires resp <= e.bufs[e.list[0].buf] && 4 * e.list[0].startDw + e.list[0].lenBytes <= |resp|
    requires 4 * EndOf(e.list[0]) <= |e.bufs[e.list[0].buf]|
    ensures var b := HeadBeat(c, e);
            && |b.data| == |b.keep|
            && 0 <= BeatFrom(e) <= BeatTo(c, e) <= |resp|
            && Kept(b.data, b.keep) == resp[BeatFrom(e)..BeatTo(c, e)]
  {
    hide MakeBeat, KeptBytes, Kept, Lane, EndOf, Lanes, Unsent, BeatFrom, BeatTo;
    BeatBounds(c, e);
    var cpl := e.list[0];
    BeatStretch(HeadHdr(e), cpl, e.bufs[cpl.buf], resp, Lanes(c, e), Unsent(e));
  }

  /** Progress after the head has been sent down to rem' DWORDs. */
  lemma HeadProgress(list: seq<Cpl>, rem: nat, rem': nat, h: nat, total: nat)
    requires list != [] && Chain(Of(list, h), total)
    ensures var cpl := list[0];
            var list' := if rem' == 0 then list[1..] else list;
            && Chain(Of(list', h), total)
            && (h != cpl.buf ==> Progress(list', rem', h, total) == Progress(list, rem, h, total))
            && (h == cpl.buf ==>
                  && Progress(list, rem, h, total) == 4 * cpl.startDw + HeadSent(list, rem)
                  && Progress(list', rem', h, total) == (if rem' == 0 then 4 * cpl.startDw + cpl.lenBytes
                                                         else 4 * cpl.startDw + HeadSent(list, rem')))
  {
    var mine := Of(list, h);
    if h == list[0].buf {
      assert mine == [list[0]] + Of(list[1..], h);
      assert mine[1..] == Of(list[1..], h);
    } else {
      assert mine == Of(list[1..], h);
    }
  }

  lemma AfterBeat(c: Config, r: Run, r': Run, h: nat, beat: Beat, p: int, q: int)
    requires r.e.list != [] && h < |r.resp| && r'.resp == r.resp && DeliveredUpTo(r, h)
    requires r'.e.list == (if r'.e.rem == 0 then r.e.list[1..] else r.e.list)
    requires r'.log == r.log + [Entry(r.e.list[0].buf, beat)]
    requires h == r.e.list[0].buf ==>
               && 0 <= p <= q <= |r.resp[h]|
               && |beat.data| == |beat.keep| && Kept(beat.data, beat.keep) == r.resp[h][p..q]
    requires p == BeatFrom(r.e)
    requires q == if r'.e.rem == 0 then 4 * r.e.list[0].startDw + r.e.list[0].lenBytes
                  else 4 * r.e.list[0].startDw + HeadSent(r.e.list, r'.e.rem)
    ensures DeliveredUpTo(r', h)
  {
    SentOne(r.log, Entry(r.e.list[0].buf, beat), h);
    HeadProgress(r.e.list, r.e.rem, r'.e.rem, h, |r.resp[h]|);
    if h == r.e.list[0].buf {
      Extended(r.resp[h], p, q);
    }
  }

  lemma SendDelivery(c: Config, o: Oracle, r: Run, ev: Event, h: nat)
    requires ValidConfig(c) && Shape(c, r) && Sends(c, o, r, ev)
    requires h < |r.resp| && DeliveredUpTo(r, h)
    ensures DeliveredUpTo(Next(c, o, r, ev), h)
  {
    SendEffect(c, o, r, ev);
    RoomForDw(c, r, r.e.list[0]);
    BeatData(c, r.e, r.resp[r.e.list[0].buf]);
    AfterBeat(c, r, Next(c, o, r, ev), h, HeadBeat(c, r.e), BeatFrom(r.e), BeatTo(c, r.e));
  }

  lemma Extended(s: seq<Byte>, p: int, q: int)
    requires 0 <= p <= q <= |s|
    ensures s[..p] + s[p..q] == s[..q]
  {
  }

  lemma SendShape(c: Config, o: Oracle, r: Run, ev: Event)
    requires ValidConfig(c) && Shape(c, r) && Delivery(r) && Sends(c, o, r, ev)
    ensures Shape(c, Next(c, o, r, ev))
  {
    hide Sent, Kept, HeadBeat, Chain, LegalReq, Remaining, Stalled, Next;
    var r' := Next(c, o, r, ev);
    var cpl := r.e.list[0];
    SendEffect(c, o, r, ev);
    assert cpl in r.e.list && CplOk(c, r, cpl);
    HeadIsLast(r);
    forall p | p in r'.e.list
      ensures p in r.e.list && CplOk(c, r', p)
    {
      assert CplOk(c, r, p);
    }
    assert r'.e.list != [] ==> r'.e.list[0] in r.e.list;
  }

  /** When the head is a request's last completion, nothing else of the response is pending. */
  lemma HeadIsLast(r: Run)
    requires r.e.list != [] && r.e.list[0].buf < |r.resp| && Delivery(r)
    ensures r.e.list[0].isLast ==> forall p :: p in r.e.list[1..] ==> p.buf != r.e.list[0].buf
  {
    var h := r.e.list[0].buf;
    assert DeliveredUpTo(r, h);
    assert Of(r.e.list, h) == [r.e.list[0]] + Of(r.e.list[1..], h);
    if r.e.list[0].isLast {
      OfEmptyNone(r.e.list[1..], h);
    }
  }

  lemma SendTags(c: Config, o: Oracle, r: Run, ev: Event)
    requires ValidConfig(c) && Shape(c, r) && Tags(c, r) && Delivery(r) && Sends(c, o, r, ev)
    requires Shape(c, Next(c, o, r, ev))
    ensures Tags(c, Next(c, o, r, ev))
  {
    var r' := Next(c, o, r, ev);
    var cpl := r.e.list[0];
    SendEffect(c, o, r, ev);
    assert cpl in r.e.list && CplOk(c, r, cpl);
    HeadIsLast(r);
    assert Unstarted(r'.e) == r.e.list[1..];
    if r.e.rem == 0 {
      HeadTags(c, r, r');
    } else {
      SameTags(c, r, r');
    }
  }

  /** The head completion starts: its read state goes idle if it is the request's last. */
  lemma HeadTags(c: Config, r: Run, r': Run)
    requires Shape(c, r) && Tags(c, r) && Shape(c, r') && r.e.list != [] && r.e.rem == 0
    requires r'.reqs == r.reqs && r'.e.inflight == r.e.inflight && Unstarted(r'.e) == r.e.list[1..]
    requires r.e.list[0].state < |r.e.states|
    requires r'.e.states == (if r.e.list[0].isLast then Release(c, r.e, r.e.list[0].state).states else r.e.states)
    requires r.e.list[0].isLast ==> forall p :: p in r.e.list[1..] ==> p.buf != r.e.list[0].buf
    ensures Tags(c, r')
  {
    var cpl := r.e.list[0];
    assert Unstarted(r.e) == r.e.list;
    assert forall p :: p in r.e.list <==> p == cpl || p in r.e.list[1..];
    assert cpl in Unstarted(r.e);
    forall s | 0 <= s < c.numStates && r'.e.states[s].busy && s !in r'.e.inflight
      ensures HasLast(r'.e, s)
    {
      assert HasLast(r.e, s);
      var p :| p in Unstarted(r.e) && p.state == s && p.isLast;
      assert p in Unstarted(r'.e);
    }
  }

  lemma SendFree(c: Config, o: Oracle, r: Run, ev: Event)
    requires ValidConfig(c) && Shape(c, r) && Tags(c, r) && FreeOk(c, r) && Sends(c, o, r, ev)
    ensures FreeOk(c, Next(c, o, r, ev))
  {
    var cpl := r.e.list[0];
    SendEffect(c, o, r, ev);
    if c.tagMapper && r.e.rem == 0 && cpl.isLast {
      assert cpl in Unstarted(r.e);
      ReleaseKeepsChain(r.e.states, r.e.freeHead, r.free, cpl.state);
    }
  }

  /** The head completion of a packet about to start begins where its response has been
      delivered to, and is marked last exactly when it ends its request. */
  lemma HeadStarts(c: Config, r: Run)
    requires Shape(c, r) && Delivery(r) && r.e.list != [] && r.e.rem == 0
    ensures var cpl := r.e.list[0];
            && cpl.buf < |r.resp|
            && |Sent(r.log, cpl.buf)| == 4 * cpl.startDw
            && cpl.isLast == (4 * cpl.startDw + cpl.lenBytes == |r.resp[cpl.buf]|)
  {
    var cpl := r.e.list[0];
    var h := cpl.buf;
    assert cpl in r.e.list && CplOk(c, r, cpl);
    assert DeliveredUpTo(r, h);
    var mine := Of(r.e.list, h);
    assert mine == [cpl] + Of(r.e.list[1..], h);
    if |mine| > 1 {
      OfMember(r.e.list, h);
      assert mine[1] in mine && CplOk(c, r, mine[1]);
    }
  }

  lemma SendHeader(c: Config, o: Oracle, r: Run, ev: Event)
    requires ValidConfig(c) && Shape(c, r) && Tags(c, r) && Delivery(r) && Sends(c, o, r, ev)
    ensures HeaderOk(r.reqs, r.log, Entry(r.e.list[0].buf, HeadBeat(c, r.e)))
  {
    hide Next, Stalled, Delivery, HasLast, OneStatePerBuf, Remaining, Sent, Lane, KeptBytes;
    var cpl := r.e.list[0];
    assert cpl in r.e.list && CplOk(c, r, cpl);
    if r.e.rem == 0 {
      assert cpl in Unstarted(r.e);
      HeadStarts(c, r);
    }
  }

  lemma LogOne(reqs: seq<Req>, log: seq<Entry>, entry: Entry)
    requires LogOk(reqs, log)
    requires HeaderOk(reqs, log, entry) && Framed(log + [entry], |log|)
    ensures LogOk(reqs, log + [entry])
  {
    var log' := log + [entry];
    forall i | 0 <= i < |log'|
      ensures Framed(log', i) && HeaderOk(reqs, log'[..i], log'[i])
    {
      if i < |log| {
        assert log'[..i] == log[..i];
        assert Framed(log, i) && HeaderOk(reqs, log[..i], log[i]);
      } else {
        assert log'[..i] == log;
      }
    }
  }

  lemma SendFraming(c: Config, o: Oracle, r: Run, ev: Event)
    requires ValidConfig(c) && Shape(c, r) && Tags(c, r) && Delivery(r) && Framing(r) && Sends(c, o, r, ev)
    ensures Framing(Next(c, o, r, ev))
  {
    SendEffect(c, o, r, ev);
    SendHeader(c, o, r, ev);
    LogOne(r.reqs, r.log, Entry(r.e.list[0].buf, HeadBeat(c, r.e)));
  }

  lemma LengthOne(log: seq<Entry>, entry: Entry)
    requires forall i :: 0 <= i < |log| ==> LengthOk(log, i)
    requires LengthOk(log + [entry], |log|)
    ensures forall i :: 0 <= i < |log + [entry]| ==> LengthOk(log + [entry], i)
  {
    hide Sent, Opened;
    var log' := log + [entry];
    forall i | 0 <= i < |log'|
      ensures LengthOk(log', i)
    {
      if i < |log| {
        assert log'[..i + 1] == log[..i + 1];
        assert LengthOk(log, i);
      }
    }
  }

  /** The packet that a sent beat belongs to began at its completion's start. */
  lemma SendOpened(c: Config, o: Oracle, r: Run, ev: Event)
    requires ValidConfig(c) && Shape(c, r) && Delivery(r) && Lengths(r) && Sends(c, o, r, ev)
    ensures var cpl := r.e.list[0];
            Opened(r.log + [Entry(cpl.buf, HeadBeat(c, r.e))]) == (4 * cpl.startDw, cpl.lenBytes)
  {
    SendEffect(c, o, r, ev);
    var cpl := r.e.list[0];
    var log' := r.log + [Entry(cpl.buf, HeadBeat(c, r.e))];
    assert log'[..|log'| - 1] == r.log;
    if r.e.rem == 0 {
      HeadStarts(c, r);
    }
  }

  lemma SendLengths(c: Config, o: Oracle, r: Run, ev: Event)
    requires ValidConfig(c) && Shape(c, r) && Delivery(r) && Lengths(r) && Sends(c, o, r, ev)
    ensures Lengths(Next(c, o, r, ev))
  {
    hide HeadBeat, Chain, Sent, Of, Stalled, HeadHdr, StatesOk, OneStatePerBuf;
    var cpl, r' := r.e.list[0], Next(c, o, r, ev);
    var h, entry := cpl.buf, Entry(cpl.buf, HeadBeat(c, r.e));
    SendEffect(c, o, r, ev);
    SendOpened(c, o, r, ev);
    assert DeliveredUpTo(r, h);
    SendDelivery(c, o, r, ev, h);
    HeadProgress(r.e.list, r.e.rem, r'.e.rem, h, |r.resp[h]|);
    assert r'.log[..|r.log| + 1] == r'.log;
    assert LengthOk(r'.log, |r.log|);
    LengthOne(r.log, entry);
  }

  lemma CycleInv(c: Config, o: Oracle, r: Run, ev: Event)
    requires ValidConfig(c)
    requires Inv(c, r) && ev.Cycle? && CanStep(c, o, r, ev)
    ensures Inv(c, Next(c, o, r, ev))
  {
    if r.e.list == [] {
    } else if Stalled(c, o, r.e, ev.cycle) {
      StallInv(c, o, r, ev);
    } else {
      SendShape(c, o, r, ev);
      SendTags(c, o, r, ev);
      SendFree(c, o, r, ev);
      SendFraming(c, o, r, ev);
      SendLengths(c, o, r, ev);
      forall h | 0 <= h < |Next(c, o, r, ev).resp|
        ensures DeliveredUpTo(Next(c, o, r, ev), h)
      {
        assert DeliveredUpTo(r, h);
        SendDelivery(c, o, r, ev, h);
      }
    }
  }

  /** The invariant does not depend on how many random numbers have been drawn. */
  lemma DrawsInv(c: Config, r: Run, draws: nat)
    requires Inv(c, r)
    ensures Inv(c, r.(e := r.e.(draws := draws)))
  {
    hide Opened, Sent, Framed, HeaderOk, LengthOk, CplOk, DeliveredUpTo, HasLast, FreeChain;
    var r' := r.(e := r.e.(draws := draws));
    SameShape(c, r, r');
    SameDelivery(r, r');
    SameTags(c, r, r');
  }

  lemma StallInv(c: Config, o: Oracle, r: Run, ev: Event)
    requires ValidConfig(c)
    requires Inv(c, r) && ev.Cycle? && CanStep(c, o, r, ev)
    requires r.e.list != [] && Stalled(c, o, r.e, ev.cycle)
    ensures Inv(c, Next(c, o, r, ev))
  {
    hide Inv;
    assert Next(c, o, r, ev) == r.(e := r.e.(draws := r.e.draws + 1)) by {
      assert r.log + [] == r.log;
    }
    DrawsInv(c, r, r.e.draws + 1);
  }

  lemma SameTags(c: Config, r: Run, r': Run)
    requires Shape(c, r) && Tags(c, r) && Shape(c, r')
    requires r'.e.states == r.e.states && r'.e.inflight == r.e.inflight && r'.reqs == r.reqs
    requires Unstarted(r'.e) == Unstarted(r.e)
    ensures Tags(c, r')
  {
    forall s | 0 <= s < c.numStates && r'.e.states[s].busy && s !in r'.e.inflight
      ensures HasLast(r'.e, s)
    {
      assert HasLast(r.e, s);
    }
  }

  /** What the invariant says about a response. */
  lemma InvDelivers(c: Config, r: Run, h: nat)
    requires Inv(c, r) && h < |r.resp|
    ensures Sent(r.log, h) <= r.resp[h]
    ensures (forall p :: p in r.e.list ==> p.buf != h) ==> Sent(r.log, h) == r.resp[h]
  {
    assert DeliveredUpTo(r, h);
    if forall p :: p in r.e.list ==> p.buf != h {
      forall k | 0 <= k < |r.e.list|
        ensures r.e.list[k].buf != h
      {
        assert r.e.list[k] in r.e.list;
      }
      OfNone(r.e.list, h);
      assert r.resp[h][..|r.resp[h]|] == r.resp[h];
    }
  }
}
