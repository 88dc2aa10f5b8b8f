/** What the AFU is sent for the calls that the application makes, over every interleaving. */
module MmioWrites {
  import opened MmioProtocol
  import opened MmioInvariant
  import opened MmioProof
  import opened MmioTheorems

  /** A call with the data that the application gave for it. */
  datatype Issued = Issued(call: Call, data: int)

  /** The calls that have taken the port lock, in that order. */
  ghost function IssuedBy(answer: nat -> int, actions: seq<Action>): seq<Issued>
  {
    if actions == [] then [] else
      var before, a := actions[..|actions| - 1], actions[|actions| - 1];
      var st := Run(answer, before);
      IssuedBy(answer, before)
      + (if a.Issue? && st.error == NoError && st.put == NoPut && (a.call.write ==> a.call.port)
         then [Issued(a.call, a.data)] else [])
  }

  /** The messages that the simulator has put on the channel to the AFU, in that order. */
  ghost function SentBy(answer: nat -> int, actions: seq<Action>): seq<Pkt>
  {
    if actions == [] then [] else
      var before, a := actions[..|actions| - 1], actions[|actions| - 1];
      var st := Run(answer, before);
      SentBy(answer, before) + (if a == SendToAfu && st.error == NoError && st.list != [] then [st.list[0]] else [])
  }

  // ---------------------------------------------------------------- the invariant

  /** A message carries the kind and the data of its call. */
  predicate Carries(p: Pkt, issued: seq<Issued>)
  {
    p.id < |issued| && p.write == issued[p.id].call.write && p.data == issued[p.id].data
  }

  /** Calls are numbered as they were issued; the one that waits for its number is the last. */
  predicate Numbered(st: State, issued: seq<Issued>)
  {
    && |issued| == |st.calls| + (if st.put.Counting? then 1 else 0)
    && (forall id: nat :: id < |st.calls| ==> st.calls[id] == issued[id].call)
    && (st.put.Counting? ==> st.put.call == issued[|st.calls|].call && st.put.data == issued[|st.calls|].data)
  }

  /** The call being put, from when it has its number. */
  predicate Putting(put: Put, id: nat)
  {
    match put
    case NoPut => false
    case Counting(_, _, _, _) => false
    case ScanTx(n, _, _) => n == id
    case ScanRx(n, _, _) => n == id
    case _ => put.pkt.id == id
  }

  predicate PutCarries(st: State, issued: seq<Issued>)
  {
    match st.put
    case NoPut => true
    case Counting(_, _, _, _) => true
    case ScanTx(id, data, _) => id + 1 == |st.calls| <= |issued| && data == issued[id].data
    case ScanRx(id, data, _) => id + 1 == |st.calls| <= |issued| && data == issued[id].data
    case _ => st.put.pkt.id + 1 == |st.calls| && Carries(st.put.pkt, issued)
  }

  /** The messages sent and to be sent, oldest first, carry their calls, each at most once and in
      order; only calls of a port get past the simulator. */
  ghost predicate Flows(st: State, issued: seq<Issued>, sent: seq<Pkt>)
  {
    var flow := sent + st.list + st.requests;
    && (forall k :: 0 <= k < |flow| ==>
          Carries(flow[k], issued) && flow[k].id < |st.calls| && !Putting(st.put, flow[k].id))
    && Rising(flow)
    && (forall k :: 0 <= k < |sent + st.list| ==> flow[k].id < |issued| && issued[flow[k].id].call.port)
  }

  ghost predicate Rising(flow: seq<Pkt>)
  {
    forall j, k :: 0 <= j < k < |flow| ==> flow[j].id < flow[k].id
  }

  ghost predicate Among(sent: seq<Pkt>, id: nat)
  {
    exists k: nat :: k < |sent| && sent[k].id == id
  }

  /** What acknowledges a write has been sent to the AFU. */
  ghost predicate Acknowledged(st: State, sent: seq<Pkt>)
  {
    && (forall k: nat :: k < |st.responses| && st.responses[k].write ==> Among(sent, st.responses[k].id))
    && (st.watch != Idle && !st.watch.ClearRx? && st.watch.rsp.write ==> Among(sent, st.watch.rsp.id))
    && (forall id: nat :: id in st.done && id < |st.calls| && st.calls[id].write ==> Among(sent, id))
  }

  /** No call of a port is lost on its way. */
  ghost predicate OnItsWay(st: State, sent: seq<Pkt>)
  {
    forall id: nat :: id < |st.calls| && st.calls[id].port ==>
      Putting(st.put, id) || Among(st.requests, id) || Among(st.list, id) || Among(sent, id)
  }

  ghost predicate WritesInv(st: State, issued: seq<Issued>, sent: seq<Pkt>)
  {
    && Numbered(st, issued) && PutCarries(st, issued) && Flows(st, issued, sent)
    && Acknowledged(st, sent) && OnItsWay(st, sent)
  }

  // ---------------------------------------------------------------- steps

  lemma AmongMore(a: seq<Pkt>, b: seq<Pkt>, id: nat)
    requires Among(a, id)
    ensures Among(a + b, id)
  {
    var k: nat :| k < |a| && a[k].id == id;
    assert (a + b)[k].id == id;
  }

  lemma AmongNew(a: seq<Pkt>, p: Pkt)
    ensures Among(a + [p], p.id)
  {
    assert (a + [p])[|a|].id == p.id;
  }

  lemma AmongRest(q: seq<Pkt>, id: nat)
    requires q != [] && Among(q, id)
    ensures q[0].id == id || Among(q[1..], id)
  {
    var k: nat :| k < |q| && q[k].id == id;
    if k > 0 {
      assert q[1..][k - 1].id == id;
    }
  }

  /** A thread takes the lock. */
  lemma IssueWrites(st: State, issued: seq<Issued>, sent: seq<Pkt>, call: Call, data: int)
    requires WritesInv(st, issued, sent) && st.put == NoPut && (call.write ==> call.port)
    ensures WritesInv(IssueCall(st, call, data), issued + [Issued(call, data)], sent)
  {
    hide Among;
    var r, issued' := IssueCall(st, call, data), issued + [Issued(call, data)];
    forall k | 0 <= k < |sent + st.list + st.requests|
      ensures Carries((sent + st.list + st.requests)[k], issued')
    {
      assert Carries((sent + st.list + st.requests)[k], issued);
    }
  }

  /** The number is taken. */
  lemma NumberWrites(st: State, issued: seq<Issued>, sent: seq<Pkt>)
    requires |st.slots| == SLOTS && WritesInv(st, issued, sent) && st.put.Counting?
    requires forall id: nat :: id in st.done ==> id < |st.calls|
    ensures WritesInv(StepPut(st), issued, sent)
  {
    hide Among, Room;
    var r := StepPut(st);
    if !r.put.Counting? {
      forall id: nat | id < |r.calls| && r.calls[id].port
        ensures Putting(r.put, id) || Among(r.requests, id) || Among(r.list, id) || Among(sent, id)
      {
        if id < |st.calls| {
          assert st.calls[id].port;
        }
      }
    }
  }

  lemma PutMoves(st: State)
    requires |st.slots| == SLOTS && !st.put.Counting? && !st.put.Send?
    ensures var r := StepPut(st);
            && r.calls == st.calls && r.done == st.done && r.requests == st.requests && r.list == st.list
            && r.responses == st.responses && r.watch == st.watch && !r.put.Counting?
  {
    hide Room;
  }

  lemma SamePutting(st: State, id: nat)
    requires |st.slots| == SLOTS && !st.put.Counting? && !st.put.Send?
    ensures Putting(StepPut(st).put, id) <==> Putting(st.put, id)
  {
    hide Room;
  }

  lemma PutGoesOn(st: State, issued: seq<Issued>)
    requires |st.slots| == SLOTS && Numbered(st, issued) && PutCarries(st, issued)
    requires !st.put.Counting? && !st.put.Send?
    ensures Numbered(StepPut(st), issued) && PutCarries(StepPut(st), issued)
  {
    hide Room, Putting;
  }

  /** The put goes on, up to the sending of the message. */
  lemma PutWrites(st: State, issued: seq<Issued>, sent: seq<Pkt>)
    requires |st.slots| == SLOTS && WritesInv(st, issued, sent) && !st.put.Counting? && !st.put.Send?
    ensures WritesInv(StepPut(st), issued, sent)
  {
    var r := StepPut(st);
    PutMoves(st);
    PutGoesOn(st, issued);
    forall id: nat
      ensures Putting(r.put, id) <==> Putting(st.put, id)
    {
      SamePutting(st, id);
    }
    hide Among, Carries, StepPut, PutCarries, Putting;
  }

  lemma SendWrites(st: State, issued: seq<Issued>, sent: seq<Pkt>)
    requires |st.slots| == SLOTS && WritesInv(st, issued, sent) && st.put.Send?
    ensures WritesInv(StepPut(st), issued, sent)
  {
    var r, p := StepPut(st), st.put.pkt;
    var flow := sent + st.list + st.requests;
    assert sent + r.list + r.requests == flow + [p];
    forall k | 0 <= k < |flow|
      ensures flow[k].id < p.id
    {
      assert !Putting(st.put, flow[k].id);
    }
    AmongNew(st.requests, p);
    hide Among;
    forall id: nat | id < |r.calls| && r.calls[id].port
      ensures Putting(r.put, id) || Among(r.requests, id) || Among(r.list, id) || Among(sent, id)
    {
      if Among(st.requests, id) {
        AmongMore(st.requests, [p], id);
      }
    }
  }

  /** The thread with the lock does nothing. */
  lemma PutWaits(st: State, r: State, issued: seq<Issued>)
    requires Numbered(st, issued) && PutCarries(st, issued) && r.put == st.put && r.calls == st.calls
    ensures Numbered(r, issued) && PutCarries(r, issued)
  {
  }

  /** No message moves. */
  lemma NothingMoves(st: State, r: State, issued: seq<Issued>, sent: seq<Pkt>)
    requires WritesInv(st, issued, sent) && r.put == st.put && r.calls == st.calls
    requires r.requests == st.requests && r.list == st.list
    ensures Numbered(r, issued) && PutCarries(r, issued) && Flows(r, issued, sent) && OnItsWay(r, sent)
  {
    hide Among, Carries, Acknowledged;
    PutWaits(st, r, issued);
  }

  /** The simulator takes a request. */
  lemma ReceiveWrites(st: State, issued: seq<Issued>, sent: seq<Pkt>)
    requires |st.slots| == |st.busy| == SLOTS && WritesInv(st, issued, sent) && st.requests != []
    requires st.error == NewRequest(st).error == NoError
    ensures WritesInv(NewRequest(st), issued, sent)
  {
    var r, p := NewRequest(st), st.requests[0];
    ReceiveMoves(st, issued, sent);
    hide NewRequest;
    PutWaits(st, r, issued);
    ReceiveFlows(st, r, issued, sent);
    AmongNew(st.list, p);
    hide Among, PutCarries, Carries, Flows;
    forall id: nat | id < |r.calls| && r.calls[id].port
      ensures Putting(r.put, id) || Among(r.requests, id) || Among(r.list, id) || Among(sent, id)
    {
      if Among(st.requests, id) {
        AmongRest(st.requests, id);
      }
      if Among(st.list, id) {
        AmongMore(st.list, [p], id);
      }
    }
  }

  /** A request of a port is queued and any other is dropped; no write is acknowledged. */
  lemma ReceiveMoves(st: State, issued: seq<Issued>, sent: seq<Pkt>)
    requires |st.slots| == |st.busy| == SLOTS && Numbered(st, issued) && Flows(st, issued, sent) && st.requests != []
    requires st.error == NewRequest(st).error == NoError
    ensures var p, r := st.requests[0], NewRequest(st);
            && p.id < |st.calls| && r.put == st.put && r.calls == st.calls
            && r.watch == st.watch && r.done == st.done && r.requests == st.requests[1..]
            && r.list == (if st.calls[p.id].port then st.list + [p] else st.list)
            && (forall k: nat :: k < |r.responses| && r.responses[k].write ==>
                  k < |st.responses| && r.responses[k] == st.responses[k])
  {
    var p, flow, n := st.requests[0], sent + st.list + st.requests, |sent + st.list|;
    assert flow[n] == p && flow[n].id < |st.calls|;
    hide Flows, Numbered;
  }

  lemma SkipOne(a: seq<Pkt>, q: seq<Pkt>)
    requires q != []
    ensures forall k :: 0 <= k < |a + q[1..]| ==> (a + q[1..])[k] == (a + q)[if k < |a| then k else k + 1]
    ensures Rising(a + q) ==> Rising(a + q[1..])
  {
    forall j, k | 0 <= j < k < |a + q[1..]| && Rising(a + q)
      ensures (a + q[1..])[j].id < (a + q[1..])[k].id
    {
      var j', k' := if j < |a| then j else j + 1, if k < |a| then k else k + 1;
      assert (a + q)[j'].id < (a + q)[k'].id;
    }
  }

  lemma ReceiveFlows(st: State, r: State, issued: seq<Issued>, sent: seq<Pkt>)
    requires Numbered(st, issued) && Flows(st, issued, sent) && st.requests != []
    requires var p := st.requests[0];
             && p.id < |st.calls| && r.put == st.put && r.calls == st.calls && r.requests == st.requests[1..]
             && r.list == (if st.calls[p.id].port then st.list + [p] else st.list)
    ensures Flows(r, issued, sent)
  {
    hide Carries, Putting, Rising;
    var p, n := st.requests[0], |sent + st.list|;
    var flow := sent + st.list + st.requests;
    if st.calls[p.id].port {
      assert sent + r.list + r.requests == flow;
      assert flow[n] == p;
    } else {
      SkipOne(sent + st.list, st.requests);
      hide Numbered;
      forall k | 0 <= k < |sent + st.list|
        ensures issued[(sent + r.list + r.requests)[k].id].call.port
      {
        assert (sent + r.list + r.requests)[k] == flow[k];
      }
    }
  }

  lemma ChannelMoves(st: State, issued: seq<Issued>, sent: seq<Pkt>)
    requires |st.slots| == |st.busy| == SLOTS && st.list != []
    requires Numbered(st, issued) && PutCarries(st, issued) && Flows(st, issued, sent)
    ensures var r, p := SendHead(st), st.list[0];
            && Numbered(r, issued) && PutCarries(r, issued) && Flows(r, issued, sent + [p])
            && r.put == st.put && r.calls == st.calls && r.requests == st.requests && r.list == st.list[1..]
            && r.watch == st.watch && r.done == st.done
            && r.responses == if p.write then st.responses + [p] else st.responses
  {
    var r, p := SendHead(st), st.list[0];
    PutWaits(st, r, issued);
    assert sent + [p] + r.list + r.requests == sent + st.list + st.requests;
    assert sent + [p] + r.list == sent + st.list;
    hide SendHead, Numbered, PutCarries, Carries, Putting;
  }

  /** The simulator has sent the first queued request on the channel. */
  lemma ChannelWrites(st: State, issued: seq<Issued>, sent: seq<Pkt>)
    requires |st.slots| == |st.busy| == SLOTS && WritesInv(st, issued, sent) && st.list != []
    ensures WritesInv(SendHead(st), issued, sent + [st.list[0]])
  {
    var r, p, sent' := SendHead(st), st.list[0], sent + [st.list[0]];
    ChannelMoves(st, issued, sent);
    hide SendHead, Flows, Numbered;
    AmongNew(sent, p);
    hide Among, PutCarries;
    forall id: nat | Among(sent, id)
      ensures Among(sent', id)
    {
      AmongMore(sent, [p], id);
    }
    forall id: nat | id < |r.calls| && r.calls[id].port
      ensures Putting(r.put, id) || Among(r.requests, id) || Among(r.list, id) || Among(sent', id)
    {
      if Among(st.list, id) {
        AmongRest(st.list, id);
      }
    }
  }

  /** The AFU answers a read. */
  lemma AnswerWrites(st: State, issued: seq<Issued>, sent: seq<Pkt>, k: nat)
    requires |st.slots| == |st.busy| == SLOTS && WritesInv(st, issued, sent) && k < |st.afu|
    ensures WritesInv(ReadCompletion(st, k), issued, sent)
  {
    var r := ReadCompletion(st, k);
    NothingMoves(st, r, issued, sent);
    hide Among, PutCarries, Carries, Flows, OnItsWay, Numbered;
    assert Acknowledged(r, sent);
  }

  lemma WatchMoves(st: State)
    requires |st.slots| == SLOTS
    ensures var r := StepWatch(st);
            && r.put == st.put && r.calls == st.calls && r.requests == st.requests && r.list == st.list
  {
  }

  lemma WatchAcknowledges(st: State, sent: seq<Pkt>)
    requires |st.slots| == SLOTS && Acknowledged(st, sent)
    ensures Acknowledged(StepWatch(st), sent)
  {
    hide Among;
  }

  /** The watcher takes a response or works on one. */
  lemma WatchWrites(st: State, issued: seq<Issued>, sent: seq<Pkt>)
    requires |st.slots| == SLOTS && WritesInv(st, issued, sent)
    ensures WritesInv(StepWatch(st), issued, sent)
  {
    var r := StepWatch(st);
    WatchMoves(st);
    WatchAcknowledges(st, sent);
    hide StepWatch, Acknowledged;
    NothingMoves(st, r, issued, sent);
    hide Among, PutCarries, Carries, Flows, OnItsWay, Numbered;
  }

  /** A reader goes on; only reads have one. */
  lemma ReaderWrites(st: State, issued: seq<Issued>, sent: seq<Pkt>, id: nat)
    requires |st.slots| == SLOTS && WritesInv(st, issued, sent) && id in st.readers
    requires id < |st.calls| ==> !st.calls[id].write
    ensures WritesInv(StepReader(st, id), issued, sent)
  {
    var r := StepReader(st, id);
    NothingMoves(st, r, issued, sent);
    hide Among, PutCarries, Carries, Flows, OnItsWay, Numbered;
    assert Acknowledged(r, sent);
  }

  lemma ReadersRead(st: State, b: Book, id: nat)
    requires Inv(st, b) && id in st.readers
    ensures id < |st.calls| && !st.calls[id].write
  {
    hide QueuesOk, PutOk, WatchOk, FlagsOk, ReaderOk, LowerOk;
    assert ReaderOwns(st.readers[id], b, id);
    SlotsAt(st, b, st.readers[id].slot);
  }

  /** Taking a request never fails. */
  lemma NoReceiveError(st: State, b: Book)
    requires Inv(st, b) && st.requests != [] && st.error == NoError
    ensures st.error == NewRequest(st).error == NoError
  {
    hide NewRequest;
    ReceiveFacts(st, b);
  }

  lemma DoneCalled(st: State, b: Book)
    requires Inv(st, b)
    ensures forall id: nat :: id in st.done ==> id < |st.calls|
  {
  }

  lemma StepWrites(st: State, b: Book, issued: seq<Issued>, sent: seq<Pkt>, a: Action)
    requires Inv(st, b) && WritesInv(st, issued, sent)
    ensures |st.slots| == |st.busy| == SLOTS
    ensures WritesInv(Do(st, a),
              issued + (if a.Issue? && st.error == NoError && st.put == NoPut && (a.call.write ==> a.call.port)
                        then [Issued(a.call, a.data)] else []),
              sent + (if a == SendToAfu && st.error == NoError && st.list != [] then [st.list[0]] else []))
  {
    hide WritesInv, SlotsOk, QueuesOk, CallsOk, PutOk, WatchOk;
    hide StepPut, NewRequest, SendHead, ReadCompletion, StepWatch, StepReader;
    assert issued + [] == issued && sent + [] == sent;
    if st.error == NoError {
      match a
      case Issue(call, data) =>
        if st.put == NoPut && (call.write ==> call.port) {
          IssueWrites(st, issued, sent, call, data);
        }
      case PutStep =>
        DoneCalled(st, b);
        if st.put.Counting? {
          NumberWrites(st, issued, sent);
        } else if st.put.Send? {
          SendWrites(st, issued, sent);
        } else {
          PutWrites(st, issued, sent);
        }
      case Receive =>
        if st.requests != [] {
          NoReceiveError(st, b);
          ReceiveWrites(st, issued, sent);
        }
      case SendToAfu =>
        if st.list != [] {
          ChannelWrites(st, issued, sent);
        }
      case Complete(k) =>
        if k < |st.afu| {
          AnswerWrites(st, issued, sent, k);
        }
      case Watcher => WatchWrites(st, issued, sent);
      case ReaderStep(id) =>
        if id in st.readers {
          ReadersRead(st, b, id);
          ReaderWrites(st, issued, sent, id);
        }
    }
  }

  lemma {:induction false} RunWrites(answer: nat -> int, actions: seq<Action>)
    ensures WritesInv(Run(answer, actions), IssuedBy(answer, actions), SentBy(answer, actions))
  {
    hide WritesInv, Inv;
    if actions == [] {
      StartWrites(answer);
    } else {
      var before := actions[..|actions| - 1];
      RunWrites(answer, before);
      var b := RunInv(answer, before);
      StepWrites(Run(answer, before), b, IssuedBy(answer, before), SentBy(answer, before), actions[|actions| - 1]);
    }
  }

  lemma StartWrites(answer: nat -> int)
    ensures WritesInv(Init(answer), [], [])
  {
  }

  // ---------------------------------------------------------------- the result

  /** What the AFU is sent: messages of calls that name a port, each at most once, in the order in which
      the calls were issued, and with the kind and the data given for them. A write that is over has
      been sent, and so has every call of a port once no thread puts and both queues are empty. */
  lemma WritesDelivered(answer: nat -> int, actions: seq<Action>)
    ensures var st, issued, sent := Run(answer, actions), IssuedBy(answer, actions), SentBy(answer, actions);
            && (forall k :: 0 <= k < |sent| ==>
                  && sent[k].id < |issued| && issued[sent[k].id].call.port
                  && sent[k].write == issued[sent[k].id].call.write && sent[k].data == issued[sent[k].id].data)
            && (forall j, k :: 0 <= j < k < |sent| ==> sent[j].id < sent[k].id)
            && (forall id: nat :: id in st.done ==>
                  id < |issued| && (issued[id].call.write ==> exists k: nat :: k < |sent| && sent[k].id == id))
            && (st.put == NoPut && st.requests == st.list == [] ==>
                  forall id: nat :: id < |issued| && issued[id].call.port ==>
                    exists k: nat :: k < |sent| && sent[k].id == id)
  {
    hide Run, IssuedBy, SentBy;
    var st, issued, sent := Run(answer, actions), IssuedBy(answer, actions), SentBy(answer, actions);
    RunWrites(answer, actions);
    var b := RunInv(answer, actions);
    DoneCalled(st, b);
    hide Inv;
    var flow := sent + st.list + st.requests;
    assert forall k :: 0 <= k < |sent| ==> flow[k] == sent[k] && (sent + st.list)[k] == sent[k];
    forall k | 0 <= k < |sent|
      ensures sent[k].id < |issued| && issued[sent[k].id].call.port && Carries(sent[k], issued)
    {
      assert Carries(flow[k], issued);
    }
  }
}
