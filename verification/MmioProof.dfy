/** Every step of the MMIO protocol keeps the invariant. */
module MmioProof {
  import opened MmioProtocol
  import opened MmioInvariant

  // ---------------------------------------------------------------- what a step leaves alone

  /** Slots other than s are as they were. */
  lemma OthersKeep(st: State, b: Book, r: State, c: Book, s: nat)
    requires |st.slots| == |st.busy| == |b.own| == |b.last| == SLOTS && SlotsOk(st, b)
    requires s < SLOTS && |r.slots| == |r.busy| == |c.own| == |c.last| == SLOTS
    requires forall t: nat :: t < SLOTS && t != s ==>
               r.slots[t] == st.slots[t] && r.busy[t] == st.busy[t] && c.own[t] == b.own[t] && c.last[t] == b.last[t]
    requires r.calls == st.calls && r.answer == st.answer
    requires forall t: nat :: t < SLOTS && t != s && Owned(b.own[t]) ==>
               && (b.own[t].pkt.id in r.done <==> b.own[t].pkt.id in st.done)
               && (b.own[t].pkt.id in st.readers ==>
                     b.own[t].pkt.id in r.readers && r.readers[b.own[t].pkt.id] == st.readers[b.own[t].pkt.id])
               && (s < t ==> Near(c.last[s], b.own[t].pkt.id))
    requires FlagsOk(r, c, s) && OwnerOk(r, c.own[s], s) && ReaderOk(r, c.own[s], s) && LowerOk(c, s)
    ensures SlotsOk(r, c)
  {
    forall t: nat | t < SLOTS && t != s
      ensures FlagsOk(r, c, t) && OwnerOk(r, c.own[t], t) && ReaderOk(r, c.own[t], t) && LowerOk(c, t)
    {
      assert FlagsOk(st, b, t) && OwnerOk(st, b.own[t], t) && ReaderOk(st, b.own[t], t) && LowerOk(b, t);
    }
  }

  /** The transaction ID of slot s was last written by a call near every owner above. */
  ghost predicate NearAbove(b: Book, s: nat)
  {
    s < |b.last| && forall t: nat :: s < t < |b.own| && Owned(b.own[t]) ==> Near(b.last[s], b.own[t].pkt.id)
  }

  lemma SlotsAt(st: State, b: Book, s: nat)
    requires |st.slots| == |st.busy| == |b.own| == |b.last| == SLOTS && SlotsOk(st, b) && s < SLOTS
    ensures FlagsOk(st, b, s) && OwnerOk(st, b.own[s], s) && ReaderOk(st, b.own[s], s) && LowerOk(b, s)
    ensures NearAbove(b, s)
  {
    forall t: nat | s < t < |b.own| && Owned(b.own[t])
      ensures Near(b.last[s], b.own[t].pkt.id)
    {
      assert LowerOk(b, t);
    }
  }

  /** No slot changes. */
  lemma SlotsSame(st: State, b: Book, r: State)
    requires |st.slots| == |st.busy| == |b.own| == |b.last| == SLOTS && SlotsOk(st, b)
    requires r.slots == st.slots && r.busy == st.busy && r.done == st.done && r.readers == st.readers
    requires Extends(st, r)
    ensures SlotsOk(r, b)
  {
    forall s: nat | s < SLOTS
      ensures FlagsOk(r, b, s) && OwnerOk(r, b.own[s], s) && ReaderOk(r, b.own[s], s) && LowerOk(b, s)
    {
      assert FlagsOk(st, b, s) && OwnerOk(st, b.own[s], s) && ReaderOk(st, b.own[s], s) && LowerOk(b, s);
    }
  }

  /** Calls are only added. */
  ghost predicate Extends(st: State, r: State)
  {
    r.answer == st.answer && |st.calls| <= |r.calls| && r.calls[..|st.calls|] == st.calls
  }

  lemma ResponseKeeps(st: State, r: State, p: Pkt)
    requires Extends(st, r) && ResponseOk(st, p) && p.id < |st.calls|
    ensures ResponseOk(r, p)
  {
    assert r.calls[..|st.calls|][p.id] == r.calls[p.id];
  }

  lemma QueuesSame(st: State, b: Book, r: State)
    requires |b.own| == SLOTS && QueuesOk(st, b.own)
    requires forall s: nat :: s < SLOTS ==> OwnerOk(st, b.own[s], s)
    requires r.requests == st.requests && r.list == st.list && r.afu == st.afu && r.responses == st.responses
    requires Extends(st, r)
    ensures QueuesOk(r, b.own)
  {
    ResponsesKeep(st, b, r);
  }

  lemma ResponsesKeep(st: State, b: Book, r: State)
    requires |b.own| == SLOTS && QueuesOk(st, b.own) && Extends(st, r)
    requires forall s: nat :: s < SLOTS ==> OwnerOk(st, b.own[s], s)
    ensures forall k: nat :: k < |st.responses| ==> ResponseOk(r, st.responses[k])
  {
    forall k: nat | k < |st.responses|
      ensures ResponseOk(r, st.responses[k])
    {
      HeldStage(st.responses, Responded, b.own, k);
      assert OwnerOk(st, b.own[st.responses[k].slot], st.responses[k].slot);
      assert ResponseOk(st, st.responses[k]);
      ResponseKeeps(st, r, st.responses[k]);
    }
  }

  /** Owners stay, though they may move on. */
  ghost predicate SameOwners(b: Book, c: Book)
  {
    && |c.own| == |b.own|
    && forall t: nat :: t < |b.own| ==>
         && Owned(c.own[t]) == Owned(b.own[t]) && (Owned(b.own[t]) ==> c.own[t].pkt == b.own[t].pkt)
         && (Sent(b.own[t]) ==> Sent(c.own[t]))
  }

  lemma CallsKeep(st: State, b: Book, r: State, c: Book)
    requires CallsOk(st, b) && SameOwners(b, c)
    requires r.calls == st.calls && r.done == st.done && r.results == st.results && r.answer == st.answer
    requires forall id: nat :: Scanning(st.put, id) ==> Scanning(r.put, id)
    requires forall id :: id in r.readers ==>
              (id in st.readers && r.readers[id].slot == st.readers[id].slot) || ReaderOwns(r.readers[id], c, id)
    ensures CallsOk(r, c)
  {
    forall id: nat | Outstanding(r, id)
      ensures Scanning(r.put, id) || exists s: nat :: Owns(c, s, id)
    {
      if !Scanning(st.put, id) {
        assert Outstanding(st, id);
        var s: nat :| Owns(b, s, id);
        assert Owns(c, s, id);
      }
    }
    forall id: nat | id in r.readers
      ensures ReaderOwns(r.readers[id], c, id)
    {
      if id in st.readers && r.readers[id].slot == st.readers[id].slot {
        assert ReaderOwns(st.readers[id], b, id);
      }
    }
  }

  /** Slots move on without touching what the putting thread relies on. */
  ghost predicate QuietForPut(b: Book, c: Book)
  {
    && |c.own| == |b.own| && c.last == b.last
    && forall t: nat :: t < |b.own| ==>
         && (c.own[t].stage == Claimed <==> b.own[t].stage == Claimed)
         && (b.own[t].stage == Claimed ==> c.own[t] == b.own[t])
         && (Owned(c.own[t]) ==> Owned(b.own[t]) && c.own[t].pkt == b.own[t].pkt)
         && (b.own[t].stage == Clearing ==> c.own[t].stage == Free || c.own[t].stage == Clearing)
  }

  lemma PutKeeps(st: State, b: Book, r: State, c: Book)
    requires PutOk(st, b) && QuietForPut(b, c)
    requires r.put == st.put && r.calls == st.calls
    requires forall id: nat :: Outstanding(r, id) ==> Outstanding(st, id)
    requires forall id: nat :: Outstanding(st, id) && (forall t: nat :: !Owns(b, t, id)) ==> Outstanding(r, id)
    ensures PutOk(r, c)
  {
    match st.put
    case ScanTx(id, _, i) => ScanKeeps(st, b, r, c, id, i);
    case ScanRx(id, _, i) => ScanKeeps(st, b, r, c, id, i);
    case SetTx(p) => ScanKeeps(st, b, r, c, p.id, p.slot);
    case _ =>
  }

  lemma ScanKeeps(st: State, b: Book, r: State, c: Book, id: nat, i: nat)
    requires ScanOk(st, b, id, i) && QuietForPut(b, c)
    requires r.calls == st.calls
    requires forall id: nat :: Outstanding(st, id) && (forall t: nat :: !Owns(b, t, id)) ==> Outstanding(r, id)
    ensures ScanOk(r, c, id, i)
  {
    assert forall t: nat :: !Owns(b, t, id);
  }

  /** Slots move on without touching what the watcher relies on. */
  ghost predicate QuietForWatch(st: State, b: Book, r: State, c: Book)
  {
    && |c.own| == |b.own| && |r.slots| == |st.slots|
    && forall t: nat :: t < |b.own| ==>
         && (c.own[t].stage == Handling <==> b.own[t].stage == Handling)
         && (b.own[t].stage == Handling ==>
               c.own[t] == b.own[t] && (t < |st.slots| ==> r.slots[t].data == st.slots[t].data))
         && (c.own[t].stage == Ready ==> b.own[t].stage == Ready)
         && (c.own[t].stage == Clearing ==> b.own[t].stage == Ready || b.own[t].stage == Clearing)
  }

  lemma WatchKeeps(st: State, b: Book, r: State, c: Book)
    requires WatchOk(st, b) && QuietForWatch(st, b, r, c) && r.watch == st.watch && Extends(st, r)
    requires forall s: nat :: s < |b.own| ==> OwnerOk(st, b.own[s], s)
    ensures WatchOk(r, c)
  {
    match st.watch
    case Idle =>
    case ClearRx(_) =>
    case _ =>
      var p := st.watch.rsp;
      assert OwnerOk(st, b.own[p.slot], p.slot);
      ResponseKeeps(st, r, p);
  }

  // ---------------------------------------------------------------- issuing and putting a call

  lemma IssueInv(st: State, b: Book, call: Call, data: int)
    requires Inv(st, b)
    ensures Inv(IssueCall(st, call, data), b)
  {
    var r := IssueCall(st, call, data);
    if r != st {
      StillCounting(st, b, r);
    }
  }

  /** Counting slots changes nothing but the count. */
  lemma StillCounting(st: State, b: Book, r: State)
    requires Inv(st, b) && (st.put == NoPut || st.put.Counting?)
    requires r == st.(put := r.put) && r.put.Counting? && (r.put.call.write ==> r.put.call.port)
    ensures Inv(r, b)
  {
    AllOwners(st, b);
    hide SlotsOk, QueuesOk, WatchOk, CallsOk, OwnerOk;
    SlotsSame(st, b, r);
    QueuesSame(st, b, r);
    WatchKeeps(st, b, r, b);
    CallsKeep(st, b, r, b);
  }

  lemma CountInv(st: State, b: Book)
    requires Inv(st, b) && st.put.Counting?
    ensures Inv(StepPut(st), b)
  {
    hide SlotsOk, QueuesOk, WatchOk, CallsOk, Near;
    var r := StepPut(st);
    if r.put.Counting? {
      StillCounting(st, b, r);
    } else {
      CallInv(st, b, r);
    }
  }

  /** A transaction ID is taken. */
  lemma CallInv(st: State, b: Book, r: State)
    requires Inv(st, b) && st.put.Counting? && Room(st)
    requires r == st.(put := ScanTx(|st.calls|, st.put.data, 0), calls := st.calls + [st.put.call], skipped := {})
    ensures Inv(r, b)
  {
    AllOwners(st, b);
    hide SlotsOk, QueuesOk, WatchOk, Near;
    SlotsSame(st, b, r);
    QueuesSame(st, b, r);
    WatchKeeps(st, b, r, b);
    CallsIssue(st, b, r);
    PutIssue(st, b, r);
  }

  lemma AllOwners(st: State, b: Book)
    requires |st.slots| == |st.busy| == |b.own| == |b.last| == SLOTS && SlotsOk(st, b)
    ensures forall s: nat :: s < SLOTS ==> OwnerOk(st, b.own[s], s)
  {
    forall s: nat | s < SLOTS
      ensures OwnerOk(st, b.own[s], s)
    {
      SlotsAt(st, b, s);
    }
  }

  lemma CallsIssue(st: State, b: Book, r: State)
    requires CallsOk(st, b) && st.put.Counting?
    requires |r.calls| == |st.calls| + 1 && r.calls[..|st.calls|] == st.calls && Scanning(r.put, |st.calls|)
    requires r.calls[|st.calls|].write ==> r.calls[|st.calls|].port
    requires r == st.(put := r.put, calls := r.calls, skipped := r.skipped)
    ensures CallsOk(r, b)
  {
    assert forall id: nat :: id < |st.calls| ==> r.calls[id] == r.calls[..|st.calls|][id];
    forall id: nat | Outstanding(r, id)
      ensures Scanning(r.put, id) || exists s: nat :: Owns(b, s, id)
    {
      if id < |st.calls| {
        assert Outstanding(st, id);
      }
    }
  }

  lemma PutIssue(st: State, b: Book, r: State)
    requires PutOk(st, b) && CallsOk(st, b) && st.put.Counting? && Room(st)
    requires forall s: nat :: s < |b.own| ==> OwnerOk(st, b.own[s], s)
    requires |r.calls| == |st.calls| + 1 && r == st.(put := r.put, calls := r.calls, skipped := r.skipped)
    requires r.put.ScanTx? && r.put.id == |st.calls| && r.put.i == 0
    ensures PutOk(r, b)
  {
    assert |st.calls| !in st.done;
    forall id: nat | Outstanding(r, id)
      ensures |r.calls| - 1 - id < TIDS
    {
      assert id < |st.calls| ==> Outstanding(st, id);
    }
    assert forall s: nat :: s < |b.own| ==> OwnerOk(st, b.own[s], s);
  }

  /** An occupied slot was last used by a call near the one being put. */
  lemma OccupiedNear(st: State, b: Book, i: nat)
    requires Inv(st, b) && (st.put.ScanTx? || st.put.ScanRx?) && st.put.i == i && i < SLOTS
    ensures st.slots[i].tx || st.slots[i].rx ==> Near(b.last[i], st.put.id)
    ensures !st.slots[i].tx ==> b.own[i].stage == Free || b.own[i].stage == Clearing
    ensures !st.slots[i].rx && b.own[i].stage == Clearing ==> false
  {
    SlotsAt(st, b, i);
  }

  lemma PutScan(st: State, b: Book)
    requires Inv(st, b) && (st.put.ScanTx? || st.put.ScanRx?)
    ensures PutOk(StepPut(st), b)
  {
    hide SlotsOk, QueuesOk, WatchOk, Near;
    var r, i := StepPut(st), st.put.i;
    assert forall id: nat :: Outstanding(r, id) ==> Outstanding(st, id);
    if i < SLOTS {
      OccupiedNear(st, b, i);
      if r.put.SetTx? {
        assert b.own[i].stage == Free;
        assert r.put.pkt.write ==> st.calls[st.put.id].port;
        assert ScanOk(r, b, r.put.pkt.id, i);
      } else if r.put.ScanTx? {
        assert ScanOk(r, b, st.put.id, i + 1);
      } else {
        assert ScanOk(r, b, st.put.id, i);
      }
    } else {
      PutKeeps(st, b, r, b);
    }
  }

  lemma StillScanning(st: State)
    requires |st.slots| == SLOTS && (st.put.ScanTx? || st.put.ScanRx?)
    ensures var r := StepPut(st);
            && r == st.(put := r.put, error := r.error, skipped := r.skipped)
            && (r.error == st.error || r.error == NoSlot)
    ensures forall id: nat :: Scanning(st.put, id) ==> Scanning(StepPut(st).put, id)
  {
  }

  lemma ScanInv(st: State, b: Book)
    requires Inv(st, b) && (st.put.ScanTx? || st.put.ScanRx?)
    ensures Inv(StepPut(st), b)
  {
    PutScan(st, b);
    StillScanning(st);
    AllOwners(st, b);
    hide SlotsOk, QueuesOk, WatchOk, PutOk, StepPut, OwnerOk, CallsOk, Scanning;
    var r := StepPut(st);
    SlotsSame(st, b, r);
    QueuesSame(st, b, r);
    WatchKeeps(st, b, r, b);
    CallsKeep(st, b, r, b);
  }

  /** Claiming a slot. */
  lemma ClaimInv(st: State, b: Book)
    requires Inv(st, b) && st.put.SetTx?
    ensures Inv(StepPut(st), Claim(b, st.put.pkt))
  {
    hide SlotsOk, QueuesOk, WatchOk;
    var r, c := StepPut(st), Claim(b, st.put.pkt);
    assert r == st.(put := SetRx(st.put.pkt), slots := r.slots);
    ClaimSlots(st, b, r, c);
    ClaimCalls(st, b, r, c);
    ClaimPut(st, b, r, c);
    ClaimRest(st, b, r, c);
  }

  lemma ClaimFrame(st: State, b: Book)
    requires Inv(st, b) && st.put.SetTx?
    ensures var r, s := StepPut(st), st.put.pkt.slot;
            && s < SLOTS && b.own[s].stage == Free
            && r == st.(put := SetRx(st.put.pkt), slots := r.slots)
            && QuietForWatch(st, b, r, Claim(b, st.put.pkt))
  {
    hide SlotsOk, QueuesOk, WatchOk, CallsOk;
  }

  lemma ClaimRest(st: State, b: Book, r: State, c: Book)
    requires Inv(st, b) && st.put.SetTx? && r == StepPut(st) && c == Claim(b, st.put.pkt)
    ensures QueuesOk(r, c.own) && WatchOk(r, c)
  {
    hide SlotsOk, QueuesOk, WatchOk, CallsOk, PutOk, OwnerOk, StepPut, QuietForWatch;
    ClaimFrame(st, b);
    AllOwners(st, b);
    QueuesUnmoved(st, b, r, st.put.pkt.slot, Own(Claimed, st.put.pkt));
    WatchKeeps(st, b, r, c);
  }

  function Claim(b: Book, p: Pkt): Book
    requires p.slot < |b.own|
  {
    b.(own := b.own[p.slot := Own(Claimed, p)])
  }

  lemma ClaimSlots(st: State, b: Book, r: State, c: Book)
    requires |st.slots| == |st.busy| == |b.own| == |b.last| == SLOTS && SlotsOk(st, b) && PutOk(st, b)
    requires st.put.SetTx? && r == StepPut(st) && c == Claim(b, st.put.pkt)
    ensures SlotsOk(r, c)
  {
    SlotsAt(st, b, st.put.pkt.slot);
    OthersKeep(st, b, r, c, st.put.pkt.slot);
  }

  lemma ClaimPut(st: State, b: Book, r: State, c: Book)
    requires PutOk(st, b) && st.put.SetTx? && |b.own| <= |b.last|
    requires r == st.(put := SetRx(st.put.pkt), slots := r.slots)
    requires c == Claim(b, st.put.pkt)
    ensures PutOk(r, c)
  {
    assert forall id: nat :: Outstanding(r, id) ==> Outstanding(st, id);
  }

  /** The slot moves on outside the queues. */
  predicate OffQueue(stage: Stage)
  {
    stage != Requested && stage != Queued && stage != AtAfu && stage != Responded
  }

  lemma QueuesUnmoved(st: State, b: Book, r: State, s: nat, o: Own)
    requires |b.own| == SLOTS && QueuesOk(st, b.own) && s < SLOTS
    requires forall t: nat :: t < SLOTS ==> OwnerOk(st, b.own[t], t)
    requires OffQueue(b.own[s].stage) && OffQueue(o.stage)
    requires r.requests == st.requests && r.list == st.list && r.afu == st.afu && r.responses == st.responses
    requires Extends(st, r)
    ensures QueuesOk(r, b.own[s := o])
  {
    HoldsKeep(st.requests, Requested, b.own, s, o);
    HoldsKeep(st.list, Queued, b.own, s, o);
    HoldsKeep(st.afu, AtAfu, b.own, s, o);
    HoldsKeep(st.responses, Responded, b.own, s, o);
    ResponsesKeep(st, b, r);
  }

  lemma ClaimCalls(st: State, b: Book, r: State, c: Book)
    requires CallsOk(st, b) && PutOk(st, b) && st.put.SetTx?
    requires r == st.(put := SetRx(st.put.pkt), slots := r.slots)
    requires c == Claim(b, st.put.pkt)
    ensures CallsOk(r, c)
  {
    var p := st.put.pkt;
    forall id: nat | Outstanding(r, id)
      ensures Scanning(r.put, id) || exists t: nat :: Owns(c, t, id)
    {
      assert Outstanding(st, id);
      if id == p.id {
        assert Owns(c, p.slot, id);
      } else {
        var t: nat :| Owns(b, t, id);
        assert Owns(c, t, id);
      }
    }
    forall id: nat | id in r.readers
      ensures ReaderOwns(r.readers[id], c, id)
    {
      assert ReaderOwns(st.readers[id], b, id);
    }
  }

  /** The owner of a slot moves on to a stage. */
  function Move(b: Book, s: nat, stage: Stage): Book
    requires s < |b.own|
  {
    b.(own := b.own[s := b.own[s].(stage := stage)])
  }

  /** The owner's transaction ID is recorded for its slot. */
  function Record(b: Book, p: Pkt): Book
    requires p.slot < |b.last|
  {
    b.(last := b.last[p.slot := p.id])
  }

  predicate Filling(put: Put)
  {
    put.SetRx? || put.SetTid? || put.SetData?
  }

  function FillBook(st: State, b: Book): Book
    requires Filling(st.put) && st.put.pkt.slot < |b.last|
  {
    if st.put.SetTid? then Record(b, st.put.pkt) else b
  }

  lemma FillSlots(st: State, b: Book)
    requires Inv(st, b) && Filling(st.put)
    ensures SlotsOk(StepPut(st), FillBook(st, b))
  {
    hide QueuesOk, WatchOk;
    var r, c, s := StepPut(st), FillBook(st, b), st.put.pkt.slot;
    SlotsAt(st, b, s);
    AllOwners(st, b);
    hide SlotsOk;
    forall t: nat | t < SLOTS && s < t && Owned(b.own[t])
      ensures Near(c.last[s], b.own[t].pkt.id)
    {
      assert OwnerOk(st, b.own[t], t) && Owned(b.own[s]);
      assert Outstanding(st, b.own[t].pkt.id);
    }
    OthersKeep(st, b, r, c, s);
  }

  lemma FillPut(st: State, b: Book)
    requires PutOk(st, b) && Filling(st.put) && |st.slots| == |b.own| == |b.last| == SLOTS
    ensures PutOk(StepPut(st), FillBook(st, b))
  {
    var r := StepPut(st);
    assert forall id: nat :: Outstanding(r, id) ==> Outstanding(st, id);
  }

  lemma FillFrame(st: State)
    requires |st.slots| == SLOTS && Filling(st.put) && st.put.pkt.slot < SLOTS
    ensures var r := StepPut(st); r == st.(put := r.put, slots := r.slots)
    ensures forall t: nat :: t < SLOTS && t != st.put.pkt.slot ==> StepPut(st).slots[t] == st.slots[t]
    ensures forall id: nat :: !Scanning(st.put, id)
  {
  }

  lemma FillQuiet(st: State, b: Book)
    requires |st.slots| == |b.own| == |b.last| == SLOTS && PutOk(st, b) && Filling(st.put)
    ensures QuietForWatch(st, b, StepPut(st), FillBook(st, b)) && SameOwners(b, FillBook(st, b))
  {
    FillFrame(st);
    hide StepPut;
  }

  lemma FillRest(st: State, b: Book)
    requires Inv(st, b) && Filling(st.put)
    ensures CallsOk(StepPut(st), FillBook(st, b)) && WatchOk(StepPut(st), FillBook(st, b))
    ensures QueuesOk(StepPut(st), FillBook(st, b).own)
  {
    hide StepPut, SlotsOk, QueuesOk, CallsOk, WatchOk, OwnerOk, QuietForWatch;
    var r, c := StepPut(st), FillBook(st, b);
    FillFrame(st);
    FillQuiet(st, b);
    AllOwners(st, b);
    QueuesSame(st, b, r);
    CallsKeep(st, b, r, c);
    WatchKeeps(st, b, r, c);
  }

  lemma FillInv(st: State, b: Book)
    requires Inv(st, b) && Filling(st.put)
    ensures Inv(StepPut(st), FillBook(st, b))
  {
    hide SlotsOk, QueuesOk, CallsOk, WatchOk;
    FillSlots(st, b);
    FillPut(st, b);
    FillRest(st, b);
  }

  lemma SendSlots(st: State, b: Book)
    requires Inv(st, b) && st.put.Send?
    ensures SlotsOk(StepPut(st), Move(b, st.put.pkt.slot, Requested))
    ensures PutOk(StepPut(st), Move(b, st.put.pkt.slot, Requested))
  {
    hide QueuesOk, WatchOk, CallsOk;
    var r, p := StepPut(st), st.put.pkt;
    var s := p.slot;
    var c := Move(b, s, Requested);
    SlotsAt(st, b, s);
    DistinctOwners(b, s);
    hide SlotsOk, Near;
    OthersKeep(st, b, r, c, s);
  }

  /** The calls of other owners are other calls. */
  lemma DistinctOwners(b: Book, s: nat)
    requires s < |b.own| && Owned(b.own[s])
    requires forall s: nat, t: nat :: s < t < |b.own| && Owned(b.own[s]) && Owned(b.own[t]) ==>
              b.own[s].pkt.id != b.own[t].pkt.id
    ensures forall t: nat :: t < |b.own| && t != s && Owned(b.own[t]) ==> b.own[t].pkt.id != b.own[s].pkt.id
  {
  }

  lemma SendFrame(st: State, b: Book)
    requires Inv(st, b) && st.put.Send?
    ensures var r, p := StepPut(st), st.put.pkt;
            && p.slot < SLOTS && b.own[p.slot].stage == Claimed
            && p.(data := b.own[p.slot].pkt.data) == b.own[p.slot].pkt
            && r == st.(put := NoPut, requests := st.requests + [p], readers := r.readers)
            && Extends(st, r)
            && var c := Move(b, p.slot, Requested);
               && QuietForWatch(st, b, r, c) && SameOwners(b, c)
               && forall id :: id in r.readers ==>
                    (id in st.readers && r.readers[id] == st.readers[id]) || ReaderOwns(r.readers[id], c, id)
  {
    hide SlotsOk, QueuesOk, WatchOk, CallsOk;
  }

  lemma SendQueues(st: State, b: Book)
    requires Inv(st, b) && st.put.Send?
    ensures st.put.pkt.slot < SLOTS
    ensures QueuesOk(StepPut(st), Move(b, st.put.pkt.slot, Requested).own)
  {
    hide SlotsOk, CallsOk, WatchOk, PutOk, OwnerOk, QueuesOk, StepPut, QuietForWatch, SameOwners, ReaderOwns;
    var r, p := StepPut(st), st.put.pkt;
    SendFrame(st, b);
    AllOwners(st, b);
    ResponsesKeep(st, b, r);
    PushRequest(st, b.own, r, p, Move(b, p.slot, Requested).own[p.slot]);
  }

  lemma PushRequest(st: State, own: seq<Own>, r: State, p: Pkt, o: Own)
    requires QueuesOk(st, own) && p.slot < |own| && own[p.slot].stage == Claimed
    requires o.stage == Requested && p.(data := o.pkt.data) == o.pkt
    requires r.requests == st.requests + [p] && r.list == st.list && r.afu == st.afu && r.responses == st.responses
    requires forall k: nat :: k < |r.responses| ==> ResponseOk(r, r.responses[k])
    ensures QueuesOk(r, own[p.slot := o])
  {
    hide Holds;
    HoldsPush(st.requests, Requested, own, p, o);
    HoldsKeep(st.list, Queued, own, p.slot, o);
    HoldsKeep(st.afu, AtAfu, own, p.slot, o);
    HoldsKeep(st.responses, Responded, own, p.slot, o);
  }

  lemma SendRest(st: State, b: Book)
    requires Inv(st, b) && st.put.Send?
    ensures st.put.pkt.slot < SLOTS
    ensures CallsOk(StepPut(st), Move(b, st.put.pkt.slot, Requested))
    ensures WatchOk(StepPut(st), Move(b, st.put.pkt.slot, Requested))
  {
    hide SlotsOk, QueuesOk, CallsOk, PutOk, WatchOk, OwnerOk, StepPut, QuietForWatch, SameOwners, ReaderOwns;
    var r, p := StepPut(st), st.put.pkt;
    SendFrame(st, b);
    var c := Move(b, p.slot, Requested);
    AllOwners(st, b);
    CallsKeep(st, b, r, c);
    WatchKeeps(st, b, r, c);
  }

  lemma SendInv(st: State, b: Book)
    requires Inv(st, b) && st.put.Send?
    ensures Inv(StepPut(st), Move(b, st.put.pkt.slot, Requested))
  {
    hide SlotsOk, QueuesOk, CallsOk, WatchOk;
    SendSlots(st, b);
    SendQueues(st, b);
    SendRest(st, b);
  }

  // ---------------------------------------------------------------- the simulator

  lemma First(q: seq<Pkt>)
    requires q != []
    ensures q[..0] + q[1..] == q[1..]
  {
  }

  /** The request at the head of a queue belongs to an owner at that queue's stage. */
  lemma HeadOwner(st: State, b: Book, q: seq<Pkt>, stage: Stage, k: nat)
    requires |st.slots| == |st.busy| == |b.own| == |b.last| == SLOTS && SlotsOk(st, b)
    requires Holds(q, stage, b.own) && k < |q|
    ensures var s := q[k].slot;
            && s < SLOTS && b.own[s].stage == stage && q[k].(data := b.own[s].pkt.data) == b.own[s].pkt
            && FlagsOk(st, b, s) && OwnerOk(st, b.own[s], s) && ReaderOk(st, b.own[s], s) && LowerOk(b, s)
            && NearAbove(b, s)
  {
    HeldStage(q, stage, b.own, k);
    SlotsAt(st, b, q[k].slot);
  }

  /** The slot whose request the simulator takes, and the stage it moves on to. */
  function ReceiveStage(st: State): Stage
    requires st.requests != []
  {
    var p := st.requests[0];
    if p.id < |st.calls| && !st.calls[p.id].port then Responded else Queued
  }

  lemma RequestHead(st: State, b: Book)
    requires Inv(st, b) && st.requests != []
    ensures var p := st.requests[0];
            && p.slot < SLOTS && b.own[p.slot].stage == Requested
            && p.(data := b.own[p.slot].pkt.data) == b.own[p.slot].pkt
            && FlagsOk(st, b, p.slot) && OwnerOk(st, b.own[p.slot], p.slot)
  {
    hide SlotsOk, CallsOk, PutOk, WatchOk, FlagsOk, OwnerOk, ReaderOk, LowerOk, NearAbove, Holds;
    HeadOwner(st, b, st.requests, Requested, 0);
  }

  lemma ReceiveFacts(st: State, b: Book)
    requires Inv(st, b) && st.requests != []
    ensures var p, r := st.requests[0], NewRequest(st);
            && p.slot < SLOTS && b.own[p.slot].stage == Requested
            && p.(data := b.own[p.slot].pkt.data) == b.own[p.slot].pkt
            && r == st.(requests := st.requests[1..], list := r.list, responses := r.responses, busy := r.busy)
            && (if ReceiveStage(st) == Responded then
                  !p.write && r.list == st.list && r.busy == st.busy && r.responses == st.responses + [p.(data := -1)]
                  && Expected(r, p.id) == -1
                else
                  r.list == st.list + [p] && r.responses == st.responses
                  && (r.busy == if p.write then st.busy else st.busy[p.slot := Busy(true, p.tid)]))
  {
    hide SlotsOk, QueuesOk, CallsOk, PutOk, WatchOk, LowerOk, ReaderOk;
    RequestHead(st, b);
  }

  /** Stages between sending the request and the watcher taking the response. */
  predicate InFlight(stage: Stage)
  {
    stage == Requested || stage == Queued || stage == AtAfu || stage == Responded
  }

  /** The simulator moves one request on. */
  ghost predicate Simulated(st: State, b: Book, r: State, s: nat, stage: Stage)
  {
    && |st.busy| == |b.own| == SLOTS && s < SLOTS && InFlight(b.own[s].stage) && InFlight(stage)
    && r == st.(requests := r.requests, list := r.list, afu := r.afu, responses := r.responses, busy := r.busy)
    && |r.busy| == SLOTS && forall t: nat :: t < SLOTS && t != s ==> r.busy[t] == st.busy[t]
  }

  lemma SimSlots(st: State, b: Book, r: State, s: nat, stage: Stage)
    requires Inv(st, b) && Simulated(st, b, r, s, stage)
    requires FlagsOk(r, Move(b, s, stage), s) && OwnerOk(r, Move(b, s, stage).own[s], s)
    ensures SlotsOk(r, Move(b, s, stage))
  {
    SlotsAt(st, b, s);
    hide SlotsOk, QueuesOk, CallsOk, PutOk, WatchOk, FlagsOk, OwnerOk;
    OthersKeep(st, b, r, Move(b, s, stage), s);
  }

  lemma SimQuiet(st: State, b: Book, r: State, s: nat, stage: Stage)
    requires Simulated(st, b, r, s, stage)
    ensures QuietForPut(b, Move(b, s, stage)) && QuietForWatch(st, b, r, Move(b, s, stage))
    ensures SameOwners(b, Move(b, s, stage))
    ensures Extends(st, r)
  {
  }

  lemma SimRest(st: State, b: Book, r: State, s: nat, stage: Stage)
    requires |b.own| == SLOTS && CallsOk(st, b) && PutOk(st, b) && WatchOk(st, b)
    requires forall t: nat :: t < SLOTS ==> OwnerOk(st, b.own[t], t)
    requires Simulated(st, b, r, s, stage)
    ensures CallsOk(r, Move(b, s, stage)) && PutOk(r, Move(b, s, stage)) && WatchOk(r, Move(b, s, stage))
  {
    hide CallsOk, PutOk, WatchOk, OwnerOk, QuietForPut, QuietForWatch, SameOwners;
    var c := Move(b, s, stage);
    SimQuiet(st, b, r, s, stage);
    CallsKeep(st, b, r, c);
    PutKeeps(st, b, r, c);
    WatchKeeps(st, b, r, c);
  }

  lemma SimInv(st: State, b: Book, r: State, s: nat, stage: Stage)
    requires Inv(st, b) && Simulated(st, b, r, s, stage)
    requires FlagsOk(r, Move(b, s, stage), s) && OwnerOk(r, Move(b, s, stage).own[s], s)
    requires QueuesOk(r, Move(b, s, stage).own)
    ensures Inv(r, Move(b, s, stage))
  {
    hide SlotsOk, QueuesOk, CallsOk, PutOk, WatchOk, FlagsOk, OwnerOk;
    SimSlots(st, b, r, s, stage);
    AllOwners(st, b);
    SimRest(st, b, r, s, stage);
  }

  /** A message leaves one queue, and its slot's next message enters another. */
  lemma Transfer(from: seq<Pkt>, a: Stage, to: seq<Pkt>, c: Stage, own: seq<Own>, k: nat, p: Pkt, o: Own)
    requires Holds(from, a, own) && Holds(to, c, own) && k < |from| && p.slot == from[k].slot
    requires o.stage == c && c != a && p.(data := o.pkt.data) == o.pkt
    ensures p.slot < |own|
    ensures Holds(from[..k] + from[k + 1..], a, own[p.slot := o]) && Holds(to + [p], c, own[p.slot := o])
  {
    HeldStage(from, a, own, k);
    HoldsTake(from, a, own, k, o);
    HoldsPush(to, c, own, p, o);
  }

  lemma ReceiveQueues(st: State, b: Book)
    requires Inv(st, b) && st.requests != []
    ensures st.requests[0].slot < SLOTS
    ensures QueuesOk(NewRequest(st), Move(b, st.requests[0].slot, ReceiveStage(st)).own)
  {
    hide SlotsOk, CallsOk, PutOk, WatchOk, NewRequest, Holds;
    ReceiveFacts(st, b);
    AllOwners(st, b);
    var p, r := st.requests[0], NewRequest(st);
    var o := Move(b, p.slot, ReceiveStage(st)).own[p.slot];
    First(st.requests);
    HoldsKeep(st.afu, AtAfu, b.own, p.slot, o);
    ResponsesKeep(st, b, r);
    if ReceiveStage(st) == Responded {
      HoldsKeep(st.list, Queued, b.own, p.slot, o);
      Transfer(st.requests, Requested, st.responses, Responded, b.own, 0, p.(data := -1), o);
    } else {
      HoldsKeep(st.responses, Responded, b.own, p.slot, o);
      Transfer(st.requests, Requested, st.list, Queued, b.own, 0, p, o);
    }
  }

  lemma ReceiveSlot(st: State, b: Book)
    requires Inv(st, b) && st.requests != []
    ensures var r, s, stage := NewRequest(st), st.requests[0].slot, ReceiveStage(st);
            && Simulated(st, b, r, s, stage)
            && FlagsOk(r, Move(b, s, stage), s) && OwnerOk(r, Move(b, s, stage).own[s], s)
  {
    hide SlotsOk, QueuesOk, CallsOk, PutOk, WatchOk, NewRequest, LowerOk, NearAbove, ReaderOk;
    ReceiveFacts(st, b);
    assert QueuesOk(st, b.own) && SlotsOk(st, b);
    RequestHead(st, b);
  }

  lemma ReceiveInv(st: State, b: Book)
    requires Inv(st, b) && st.requests != []
    ensures st.requests[0].slot < SLOTS
    ensures Inv(NewRequest(st), Move(b, st.requests[0].slot, ReceiveStage(st)))
  {
    hide SlotsOk, QueuesOk, CallsOk, PutOk, WatchOk, FlagsOk, OwnerOk, Simulated, NewRequest, SendHead, ReadCompletion;
    ReceiveSlot(st, b);
    ReceiveQueues(st, b);
    SimInv(st, b, NewRequest(st), st.requests[0].slot, ReceiveStage(st));
  }

  function SentStage(p: Pkt): Stage
  {
    if p.write then Responded else AtAfu
  }

  lemma SendHeadFacts(st: State, b: Book)
    requires Inv(st, b) && st.list != []
    ensures var p, r := st.list[0], SendHead(st);
            && p.slot < SLOTS && b.own[p.slot].stage == Queued
            && p.(data := b.own[p.slot].pkt.data) == b.own[p.slot].pkt
            && FlagsOk(st, b, p.slot) && OwnerOk(st, b.own[p.slot], p.slot)
            && r == st.(list := st.list[1..], afu := r.afu, responses := r.responses)
            && r.afu == (if p.write then st.afu else st.afu + [p])
            && r.responses == (if p.write then st.responses + [p] else st.responses)
  {
    HeadOwner(st, b, st.list, Queued, 0);
  }

  lemma SendHeadSlot(st: State, b: Book)
    requires Inv(st, b) && st.list != []
    ensures var r, s, stage := SendHead(st), st.list[0].slot, SentStage(st.list[0]);
            && Simulated(st, b, r, s, stage)
            && FlagsOk(r, Move(b, s, stage), s) && OwnerOk(r, Move(b, s, stage).own[s], s)
  {
    hide SlotsOk, QueuesOk, CallsOk, PutOk, WatchOk, SendHead;
    SendHeadFacts(st, b);
  }

  lemma SendHeadInv(st: State, b: Book)
    requires Inv(st, b) && st.list != []
    ensures st.list[0].slot < SLOTS
    ensures Inv(SendHead(st), Move(b, st.list[0].slot, SentStage(st.list[0])))
  {
    hide SlotsOk, QueuesOk, CallsOk, PutOk, WatchOk, FlagsOk, OwnerOk, Simulated, NewRequest, SendHead, ReadCompletion;
    SendHeadSlot(st, b);
    SendHeadQueues(st, b);
    SimInv(st, b, SendHead(st), st.list[0].slot, SentStage(st.list[0]));
  }

  lemma SendHeadQueues(st: State, b: Book)
    requires Inv(st, b) && st.list != []
    ensures st.list[0].slot < SLOTS
    ensures QueuesOk(SendHead(st), Move(b, st.list[0].slot, SentStage(st.list[0])).own)
  {
    hide SlotsOk, CallsOk, PutOk, WatchOk, Holds, SendHead, FlagsOk, OwnerOk;
    SendHeadFacts(st, b);
    AllOwners(st, b);
    First(st.list);
    var p, r := st.list[0], SendHead(st);
    var o := Move(b, p.slot, SentStage(p)).own[p.slot];
    HoldsKeep(st.requests, Requested, b.own, p.slot, o);
    ResponsesKeep(st, b, r);
    if p.write {
      HoldsKeep(st.afu, AtAfu, b.own, p.slot, o);
      Transfer(st.list, Queued, st.responses, Responded, b.own, 0, p, o);
    } else {
      HoldsKeep(st.responses, Responded, b.own, p.slot, o);
      Transfer(st.list, Queued, st.afu, AtAfu, b.own, 0, p, o);
    }
  }

  /** The AFU's completion finds its tag active; the response carries the owner's call. */
  lemma CompleteFacts(st: State, b: Book, k: nat)
    requires Inv(st, b) && k < |st.afu|
    ensures var p, r := st.afu[k], ReadCompletion(st, k);
            && p.slot < SLOTS && b.own[p.slot].stage == AtAfu && !p.write
            && p.(data := b.own[p.slot].pkt.data) == b.own[p.slot].pkt
            && st.busy[p.slot].tid == p.tid
            && Expected(st, p.id) == st.answer(p.id)
            && r == st.(afu := st.afu[..k] + st.afu[k + 1..], busy := st.busy[p.slot := Busy(false, p.tid)],
                        responses := st.responses + [p.(data := st.answer(p.id))])
  {
    HeadOwner(st, b, st.afu, AtAfu, k);
  }

  lemma CompleteQueues(st: State, b: Book, k: nat)
    requires Inv(st, b) && k < |st.afu|
    ensures st.afu[k].slot < SLOTS
    ensures QueuesOk(ReadCompletion(st, k), Move(b, st.afu[k].slot, Responded).own)
  {
    hide SlotsOk, QueuesOk, CallsOk, PutOk, WatchOk, OwnerOk, FlagsOk, ReadCompletion;
    var p, r := st.afu[k], ReadCompletion(st, k);
    CompleteFacts(st, b, k);
    AllOwners(st, b);
    ResponsesKeep(st, b, r);
    PushResponse(st, b.own, r, k, p.(data := st.answer(p.id)), Move(b, p.slot, Responded).own[p.slot]);
  }

  lemma PushResponse(st: State, own: seq<Own>, r: State, k: nat, p: Pkt, o: Own)
    requires QueuesOk(st, own) && k < |st.afu| && p.slot == st.afu[k].slot < |own| && own[p.slot].stage == AtAfu
    requires o.stage == Responded && p.(data := o.pkt.data) == o.pkt
    requires r.requests == st.requests && r.list == st.list
    requires r.afu == st.afu[..k] + st.afu[k + 1..] && r.responses == st.responses + [p]
    requires forall k: nat :: k < |st.responses| ==> ResponseOk(r, st.responses[k])
    requires ResponseOk(r, p)
    ensures QueuesOk(r, own[p.slot := o])
  {
    hide Holds;
    HoldsKeep(st.requests, Requested, own, p.slot, o);
    HoldsKeep(st.list, Queued, own, p.slot, o);
    Transfer(st.afu, AtAfu, st.responses, Responded, own, k, p, o);
  }

  lemma CompleteSlot(st: State, b: Book, k: nat)
    requires Inv(st, b) && k < |st.afu|
    ensures var r, s := ReadCompletion(st, k), st.afu[k].slot;
            && Simulated(st, b, r, s, Responded)
            && FlagsOk(r, Move(b, s, Responded), s) && OwnerOk(r, Move(b, s, Responded).own[s], s)
  {
    hide SlotsOk, QueuesOk, CallsOk, PutOk, WatchOk, ReadCompletion;
    CompleteFacts(st, b, k);
    AfuOwner(st, b, k);
  }

  lemma AfuOwner(st: State, b: Book, k: nat)
    requires Inv(st, b) && k < |st.afu|
    ensures var s := st.afu[k].slot; s < SLOTS && FlagsOk(st, b, s) && OwnerOk(st, b.own[s], s)
  {
    HeadOwner(st, b, st.afu, AtAfu, k);
  }

  lemma CompleteInv(st: State, b: Book, k: nat)
    requires Inv(st, b) && k < |st.afu|
    ensures st.afu[k].slot < SLOTS
    ensures Inv(ReadCompletion(st, k), Move(b, st.afu[k].slot, Responded))
  {
    hide SlotsOk, QueuesOk, CallsOk, PutOk, WatchOk, FlagsOk, OwnerOk, Simulated, NewRequest, SendHead, ReadCompletion;
    CompleteSlot(st, b, k);
    CompleteQueues(st, b, k);
    SimInv(st, b, ReadCompletion(st, k), st.afu[k].slot, Responded);
  }

  // ---------------------------------------------------------------- the watcher

  lemma TakeInv(st: State, b: Book)
    requires Inv(st, b) && st.watch == Idle && st.responses != []
    ensures st.responses[0].slot < SLOTS
    ensures Inv(StepWatch(st), Move(b, st.responses[0].slot, Handling))
  {
    hide SlotsOk, QueuesOk, CallsOk, PutOk, WatchOk;
    TakeSlots(st, b);
    TakeQueues(st, b);
    TakeRest(st, b);
  }

  lemma TakeHead(st: State, b: Book)
    requires Inv(st, b) && st.responses != []
    ensures var p, s := st.responses[0], st.responses[0].slot;
            && s < SLOTS && b.own[s].stage == Responded && p.(data := b.own[s].pkt.data) == b.own[s].pkt
            && FlagsOk(st, b, s) && OwnerOk(st, b.own[s], s) && ReaderOk(st, b.own[s], s) && LowerOk(b, s)
            && NearAbove(b, s)
            && ResponseOk(st, p)
  {
    HeadOwner(st, b, st.responses, Responded, 0);
  }

  lemma TakeSlots(st: State, b: Book)
    requires Inv(st, b) && st.watch == Idle && st.responses != []
    ensures st.responses[0].slot < SLOTS
    ensures SlotsOk(StepWatch(st), Move(b, st.responses[0].slot, Handling))
  {
    hide SlotsOk, QueuesOk, CallsOk, PutOk, WatchOk;
    TakeHead(st, b);
    OthersKeep(st, b, StepWatch(st), Move(b, st.responses[0].slot, Handling), st.responses[0].slot);
  }

  lemma TakeQueues(st: State, b: Book)
    requires Inv(st, b) && st.watch == Idle && st.responses != []
    ensures st.responses[0].slot < SLOTS
    ensures QueuesOk(StepWatch(st), Move(b, st.responses[0].slot, Handling).own)
  {
    hide SlotsOk, CallsOk, PutOk, WatchOk, Holds, OwnerOk, FlagsOk;
    TakeHead(st, b);
    AllOwners(st, b);
    var p, r := st.responses[0], StepWatch(st);
    var o := Move(b, p.slot, Handling).own[p.slot];
    ResponsesKeep(st, b, r);
    First(st.responses);
    HoldsTake(st.responses, Responded, b.own, 0, o);
    HoldsKeep(st.requests, Requested, b.own, p.slot, o);
    HoldsKeep(st.list, Queued, b.own, p.slot, o);
    HoldsKeep(st.afu, AtAfu, b.own, p.slot, o);
  }

  lemma TakeRest(st: State, b: Book)
    requires Inv(st, b) && st.watch == Idle && st.responses != []
    ensures st.responses[0].slot < SLOTS
    ensures var r, c := StepWatch(st), Move(b, st.responses[0].slot, Handling);
            CallsOk(r, c) && PutOk(r, c) && WatchOk(r, c)
  {
    hide SlotsOk, QueuesOk, CallsOk, PutOk;
    TakeHead(st, b);
    var r, c := StepWatch(st), Move(b, st.responses[0].slot, Handling);
    assert QuietForPut(b, c) && SameOwners(b, c);
    hide QuietForPut, SameOwners;
    CallsKeep(st, b, r, c);
    PutKeeps(st, b, r, c);
  }

  predicate Finding(w: Watch)
  {
    w.FindTx? || w.FindTid?
  }

  /** The scan for a transaction ID cannot stop at an earlier slot nor pass the right one. */
  lemma FindRight(st: State, b: Book)
    requires Inv(st, b) && Finding(st.watch)
    ensures var p, i := st.watch.rsp, st.watch.i;
            && i <= p.slot < SLOTS
            && (i < p.slot ==> st.slots[i].tid != p.tid)
            && (i == p.slot ==> st.slots[i].tx && st.slots[i].tid == p.tid)
  {
    var p, i := st.watch.rsp, st.watch.i;
    hide QueuesOk, PutOk, CallsOk;
    SlotsAt(st, b, p.slot);
    SlotsAt(st, b, i);
    if i < p.slot {
      NearTidsDiffer(b.last[i], p.id);
    }
  }

  lemma NearTidsDiffer(m: int, n: nat)
    requires Near(m, n) && m >= 0
    ensures m % TIDS != n % TIDS
  {
  }

  lemma FindInv(st: State, b: Book)
    requires Inv(st, b) && Finding(st.watch)
    ensures Inv(StepWatch(st), b)
  {
    FindRight(st, b);
    FindWatch(st, b);
    AllOwners(st, b);
    var r := StepWatch(st);
    assert r == st.(watch := r.watch);
    hide SlotsOk, QueuesOk, WatchOk, StepWatch, OwnerOk, CallsOk, PutOk;
    SlotsSame(st, b, r);
    QueuesSame(st, b, r);
    CallsKeep(st, b, r, b);
    PutKeeps(st, b, r, b);
  }

  lemma FindWatch(st: State, b: Book)
    requires Inv(st, b) && Finding(st.watch)
    ensures WatchOk(StepWatch(st), b)
  {
    hide SlotsOk, QueuesOk, CallsOk, PutOk;
    FindRight(st, b);
  }

  predicate Updating(w: Watch)
  {
    (w.Found? && !w.rsp.write) || w.PutData? || w.PutTx?
  }

  /** The watcher rewrites a slot it handles for a read; the flags stay. */
  lemma UpdateInv(st: State, b: Book)
    requires Inv(st, b) && Updating(st.watch)
    ensures Inv(StepWatch(st), b)
  {
    hide SlotsOk, QueuesOk, CallsOk, PutOk;
    UpdateSlots(st, b);
    UpdateRest(st, b);
  }

  lemma UpdateSlots(st: State, b: Book)
    requires Inv(st, b) && Updating(st.watch)
    ensures SlotsOk(StepWatch(st), b)
  {
    hide SlotsOk, QueuesOk, CallsOk, PutOk;
    SlotsAt(st, b, st.watch.slot);
    OthersKeep(st, b, StepWatch(st), b, st.watch.slot);
  }

  lemma UpdateFrame(st: State, b: Book)
    requires Inv(st, b) && Updating(st.watch)
    ensures var r := StepWatch(st); r == st.(watch := r.watch, slots := r.slots)
    ensures QuietForPut(b, b) && SameOwners(b, b)
  {
    hide SlotsOk, QueuesOk, CallsOk, PutOk;
  }

  lemma UpdateRest(st: State, b: Book)
    requires Inv(st, b) && Updating(st.watch)
    ensures var r := StepWatch(st); QueuesOk(r, b.own) && CallsOk(r, b) && PutOk(r, b)
  {
    hide SlotsOk, QueuesOk, CallsOk, PutOk, WatchOk, OwnerOk, StepWatch, StepReader, QuietForPut, QuietForWatch;
    hide SameOwners;
    AllOwners(st, b);
    UpdateFrame(st, b);
    var r := StepWatch(st);
    QueuesSame(st, b, r);
    CallsKeep(st, b, r, b);
    PutKeeps(st, b, r, b);
  }

  /** The watcher announces the data to the waiting thread. */
  lemma ReadyInv(st: State, b: Book)
    requires Inv(st, b) && st.watch.PutRx?
    ensures Inv(StepWatch(st), Move(b, st.watch.slot, Ready))
  {
    hide SlotsOk, QueuesOk, CallsOk, PutOk;
    ReadySlots(st, b);
    ReadyRest(st, b);
  }

  lemma ReadySlots(st: State, b: Book)
    requires Inv(st, b) && st.watch.PutRx?
    ensures SlotsOk(StepWatch(st), Move(b, st.watch.slot, Ready))
  {
    hide SlotsOk, QueuesOk, CallsOk, PutOk;
    SlotsAt(st, b, st.watch.slot);
    OthersKeep(st, b, StepWatch(st), Move(b, st.watch.slot, Ready), st.watch.slot);
  }

  lemma ReadyFrame(st: State, b: Book)
    requires Inv(st, b) && st.watch.PutRx?
    ensures st.watch.slot < SLOTS
    ensures var r, c := StepWatch(st), Move(b, st.watch.slot, Ready);
            && r == st.(watch := r.watch, slots := r.slots)
            && b.own[st.watch.slot].stage == Handling
            && QuietForPut(b, c) && SameOwners(b, c)
  {
    hide SlotsOk, QueuesOk, CallsOk, PutOk;
  }

  lemma ReadyRest(st: State, b: Book)
    requires Inv(st, b) && st.watch.PutRx?
    ensures var r, c := StepWatch(st), Move(b, st.watch.slot, Ready);
            QueuesOk(r, c.own) && CallsOk(r, c) && PutOk(r, c)
  {
    hide SlotsOk, QueuesOk, CallsOk, PutOk, WatchOk, OwnerOk, StepWatch, StepReader, QuietForPut, QuietForWatch;
    hide SameOwners;
    ReadyFrame(st, b);
    AllOwners(st, b);
    var r, c, s := StepWatch(st), Move(b, st.watch.slot, Ready), st.watch.slot;
    QueuesUnmoved(st, b, r, s, c.own[s]);
    CallsKeep(st, b, r, c);
    PutKeeps(st, b, r, c);
  }

  predicate Acknowledging(w: Watch)
  {
    w.Found? && w.rsp.write
  }

  /** The watcher ends a write: its slot is free with the first flag it clears. */
  lemma AckInv(st: State, b: Book)
    requires Inv(st, b) && Acknowledging(st.watch)
    ensures Inv(StepWatch(st), Move(b, st.watch.slot, Free))
  {
    hide SlotsOk, QueuesOk, CallsOk, PutOk;
    AckSlots(st, b);
    AckCalls(st, b);
    AckRest(st, b);
  }

  lemma AckSlots(st: State, b: Book)
    requires Inv(st, b) && Acknowledging(st.watch)
    ensures SlotsOk(StepWatch(st), Move(b, st.watch.slot, Free))
  {
    hide SlotsOk, QueuesOk, PutOk;
    var s := st.watch.slot;
    SlotsAt(st, b, s);
    DistinctOwners(b, s);
    hide CallsOk;
    OthersKeep(st, b, StepWatch(st), Move(b, s, Free), s);
  }

  lemma AckCalls(st: State, b: Book)
    requires Inv(st, b) && Acknowledging(st.watch)
    ensures CallsOk(StepWatch(st), Move(b, st.watch.slot, Free))
  {
    hide QueuesOk, PutOk, SlotsOk;
    var r, s := StepWatch(st), st.watch.slot;
    SlotsAt(st, b, s);
    assert r == st.(watch := r.watch, slots := r.slots, done := st.done + {st.watch.rsp.id});
    hide StepWatch;
    FreeCalls(st, b, r, s, st.watch.rsp.id);
  }

  /** Freeing one call's slot leaves the other calls theirs. */
  lemma FreeKeeps(b: Book, s: nat, id: nat, n: nat)
    requires Owns(b, s, id) && n != id
    ensures forall t: nat :: Owns(b, t, n) ==> Owns(Move(b, s, Free), t, n)
    ensures forall r: Reader :: ReaderOwns(r, b, n) ==> ReaderOwns(r, Move(b, s, Free), n)
  {
  }

  /** A call that is over no longer needs its slot. */
  lemma FreeCalls(st: State, b: Book, r: State, s: nat, id: nat)
    requires CallsOk(st, b) && s < |b.own| && Owns(b, s, id) && id < |st.calls|
    requires r.calls == st.calls && r.answer == st.answer && r.done == st.done + {id} && r.put == st.put
    requires r.readers == st.readers - {id}
    requires r.results == st.results || r.results == st.results[id := Expected(st, id)]
    requires !st.calls[id].write ==> id in r.results
    requires id in r.results && id !in st.results ==> r.results == st.results[id := Expected(st, id)]
    ensures CallsOk(r, Move(b, s, Free))
  {
    hide Owns, ReaderOwns;
    var c := Move(b, s, Free);
    forall n: nat | Outstanding(r, n)
      ensures Scanning(r.put, n) || exists t: nat :: Owns(c, t, n)
    {
      assert Outstanding(st, n);
      FreeKeeps(b, s, id, n);
    }
    forall n: nat | n in r.readers
      ensures ReaderOwns(r.readers[n], c, n)
    {
      FreeKeeps(b, s, id, n);
      assert ReaderOwns(st.readers[n], b, n);
    }
  }

  lemma AckFrame(st: State, b: Book)
    requires Inv(st, b) && Acknowledging(st.watch)
    ensures st.watch.slot < SLOTS
    ensures var r, s := StepWatch(st), st.watch.slot;
            && r == st.(watch := r.watch, slots := r.slots, done := st.done + {st.watch.rsp.id})
            && b.own[s].stage == Handling && Owns(b, s, st.watch.rsp.id)
            && QuietForPut(b, Move(b, s, Free))
  {
    hide SlotsOk, QueuesOk, CallsOk, PutOk;
  }

  lemma AckRest(st: State, b: Book)
    requires Inv(st, b) && Acknowledging(st.watch)
    ensures var r, c := StepWatch(st), Move(b, st.watch.slot, Free);
            QueuesOk(r, c.own) && PutOk(r, c)
  {
    hide SlotsOk, QueuesOk, CallsOk, PutOk, WatchOk, OwnerOk, StepWatch, StepReader, QuietForPut, QuietForWatch;
    hide SameOwners;
    AckFrame(st, b);
    AllOwners(st, b);
    var r, c, s := StepWatch(st), Move(b, st.watch.slot, Free), st.watch.slot;
    QueuesUnmoved(st, b, r, s, c.own[s]);
    PutKeeps(st, b, r, c);
  }

  /** The watcher clears the second flag of a write's slot, which may already be in use again. */
  lemma ClearFrame(st: State, b: Book)
    requires Inv(st, b) && st.watch.ClearRx?
    ensures StepWatch(st) == st.(watch := Idle)
    ensures WatchOk(StepWatch(st), b) && QuietForPut(b, b) && SameOwners(b, b)
  {
    hide SlotsOk, QueuesOk, CallsOk, PutOk;
    SlotsAt(st, b, st.watch.slot);
    var w := st.slots[st.watch.slot];
    assert w.(rx := false) == w;
  }

  lemma ClearInv(st: State, b: Book)
    requires Inv(st, b) && st.watch.ClearRx?
    ensures Inv(StepWatch(st), b)
  {
    hide SlotsOk, QueuesOk, CallsOk, PutOk, WatchOk, OwnerOk, StepWatch, StepReader, QuietForPut, QuietForWatch;
    hide SameOwners;
    AllOwners(st, b);
    ClearFrame(st, b);
    var r := StepWatch(st);
    SlotsSame(st, b, r);
    QueuesSame(st, b, r);
    CallsKeep(st, b, r, b);
    PutKeeps(st, b, r, b);
  }

  // ---------------------------------------------------------------- the reading threads

  /** The thread waits for the flag, or has seen it and is about to take the data. */
  predicate Looking(r: Reader)
  {
    r.Wait? || r.Seen?
  }

  /** A waiting thread sees the flag only when its own data is in the slot. */
  lemma GotInv(st: State, b: Book, id: nat)
    requires Inv(st, b) && id in st.readers && Looking(st.readers[id])
    ensures Inv(StepReader(st, id), b)
  {
    hide SlotsOk, QueuesOk, CallsOk, PutOk, WatchOk;
    GotSlots(st, b, id);
    GotRest(st, b, id);
  }

  lemma ReaderSlot(st: State, b: Book, id: nat)
    requires Inv(st, b) && id in st.readers
    ensures var s := st.readers[id].slot;
            && s < SLOTS && Owns(b, s, id) && Sent(b.own[s]) && !b.own[s].pkt.write
            && FlagsOk(st, b, s) && OwnerOk(st, b.own[s], s) && ReaderOk(st, b.own[s], s) && LowerOk(b, s)
            && NearAbove(b, s)
            && forall t: nat :: t < |b.own| && t != s && Owned(b.own[t]) ==> b.own[t].pkt.id != id
  {
    assert ReaderOwns(st.readers[id], b, id);
    SlotsAt(st, b, st.readers[id].slot);
    DistinctOwners(b, st.readers[id].slot);
  }

  lemma GotSlots(st: State, b: Book, id: nat)
    requires Inv(st, b) && id in st.readers && Looking(st.readers[id])
    ensures SlotsOk(StepReader(st, id), b)
  {
    hide SlotsOk, QueuesOk, CallsOk, PutOk, WatchOk;
    ReaderSlot(st, b, id);
    OthersKeep(st, b, StepReader(st, id), b, st.readers[id].slot);
  }

  lemma GotFrame(st: State, b: Book, id: nat)
    requires Inv(st, b) && id in st.readers && Looking(st.readers[id])
    ensures var r := StepReader(st, id);
            && r == st.(readers := r.readers)
            && (forall n :: n in r.readers ==> n in st.readers && r.readers[n].slot == st.readers[n].slot)
            && QuietForWatch(st, b, r, b)
    ensures QuietForPut(b, b) && SameOwners(b, b)
  {
    hide SlotsOk, QueuesOk, CallsOk, PutOk, WatchOk;
  }

  lemma GotRest(st: State, b: Book, id: nat)
    requires Inv(st, b) && id in st.readers && Looking(st.readers[id])
    ensures var r := StepReader(st, id); QueuesOk(r, b.own) && CallsOk(r, b) && PutOk(r, b) && WatchOk(r, b)
  {
    hide SlotsOk, QueuesOk, CallsOk, PutOk, WatchOk, OwnerOk, StepWatch, StepReader, QuietForPut, QuietForWatch;
    hide SameOwners;
    AllOwners(st, b);
    GotFrame(st, b, id);
    var r := StepReader(st, id);
    QueuesSame(st, b, r);
    CallsKeep(st, b, r, b);
    PutKeeps(st, b, r, b);
    WatchKeeps(st, b, r, b);
  }

  /** Having its data, the thread clears the first flag. */
  lemma ClearingInv(st: State, b: Book, id: nat)
    requires Inv(st, b) && id in st.readers && st.readers[id].Got?
    ensures st.readers[id].slot < SLOTS
    ensures Inv(StepReader(st, id), Move(b, st.readers[id].slot, Clearing))
  {
    hide SlotsOk, QueuesOk, CallsOk, PutOk, WatchOk;
    ReaderSlot(st, b, id);
    ClearingSlots(st, b, id);
    ClearingRest(st, b, id);
  }

  lemma ClearingSlots(st: State, b: Book, id: nat)
    requires Inv(st, b) && id in st.readers && st.readers[id].Got?
    ensures st.readers[id].slot < SLOTS
    ensures SlotsOk(StepReader(st, id), Move(b, st.readers[id].slot, Clearing))
  {
    hide SlotsOk, QueuesOk, CallsOk, PutOk, WatchOk;
    ReaderSlot(st, b, id);
    OthersKeep(st, b, StepReader(st, id), Move(b, st.readers[id].slot, Clearing), st.readers[id].slot);
  }

  lemma ClearingFrame(st: State, b: Book, id: nat)
    requires Inv(st, b) && id in st.readers && st.readers[id].Got?
    ensures var r, s := StepReader(st, id), st.readers[id].slot;
            && s < SLOTS && b.own[s].stage == Ready
            && r == st.(readers := r.readers, slots := r.slots)
            && (forall n :: n in r.readers ==> n in st.readers && r.readers[n].slot == st.readers[n].slot)
            && QuietForPut(b, Move(b, s, Clearing)) && QuietForWatch(st, b, r, Move(b, s, Clearing))
            && SameOwners(b, Move(b, s, Clearing))
  {
    hide SlotsOk, QueuesOk, CallsOk, PutOk, WatchOk;
    ReaderSlot(st, b, id);
  }

  lemma ClearingRest(st: State, b: Book, id: nat)
    requires Inv(st, b) && id in st.readers && st.readers[id].Got?
    ensures st.readers[id].slot < SLOTS
    ensures var r, c := StepReader(st, id), Move(b, st.readers[id].slot, Clearing);
            QueuesOk(r, c.own) && CallsOk(r, c) && PutOk(r, c) && WatchOk(r, c)
  {
    hide SlotsOk, QueuesOk, CallsOk, PutOk, WatchOk, OwnerOk, StepWatch, StepReader, QuietForPut, QuietForWatch;
    hide SameOwners;
    AllOwners(st, b);
    ClearingFrame(st, b, id);
    var r, s := StepReader(st, id), st.readers[id].slot;
    var c := Move(b, s, Clearing);
    QueuesUnmoved(st, b, r, s, c.own[s]);
    CallsKeep(st, b, r, c);
    PutKeeps(st, b, r, c);
    WatchKeeps(st, b, r, c);
  }

  /** The thread clears the second flag and returns with its data. */
  lemma ReturnInv(st: State, b: Book, id: nat)
    requires Inv(st, b) && id in st.readers && st.readers[id].Cleared?
    ensures st.readers[id].slot < SLOTS
    ensures Inv(StepReader(st, id), Move(b, st.readers[id].slot, Free))
  {
    hide SlotsOk, QueuesOk, CallsOk, PutOk, WatchOk;
    ReaderSlot(st, b, id);
    ReturnSlots(st, b, id);
    ReturnCalls(st, b, id);
    ReturnRest(st, b, id);
  }

  lemma ReturnSlots(st: State, b: Book, id: nat)
    requires Inv(st, b) && id in st.readers && st.readers[id].Cleared?
    ensures st.readers[id].slot < SLOTS
    ensures SlotsOk(StepReader(st, id), Move(b, st.readers[id].slot, Free))
  {
    hide SlotsOk, QueuesOk, CallsOk, PutOk, WatchOk;
    ReaderSlot(st, b, id);
    OthersKeep(st, b, StepReader(st, id), Move(b, st.readers[id].slot, Free), st.readers[id].slot);
  }

  lemma ReturnCalls(st: State, b: Book, id: nat)
    requires Inv(st, b) && id in st.readers && st.readers[id].Cleared?
    ensures st.readers[id].slot < SLOTS
    ensures CallsOk(StepReader(st, id), Move(b, st.readers[id].slot, Free))
  {
    hide SlotsOk, QueuesOk, PutOk, WatchOk, CallsOk;
    ReaderSlot(st, b, id);
    FreeCalls(st, b, StepReader(st, id), st.readers[id].slot, id);
  }

  lemma ReturnFrame(st: State, b: Book, id: nat)
    requires Inv(st, b) && id in st.readers && st.readers[id].Cleared?
    ensures var r, s := StepReader(st, id), st.readers[id].slot;
            && s < SLOTS && b.own[s].stage == Clearing && Owns(b, s, id)
            && r == st.(readers := r.readers, slots := r.slots, results := r.results, done := st.done + {id})
            && QuietForPut(b, Move(b, s, Free)) && QuietForWatch(st, b, r, Move(b, s, Free))
  {
    hide SlotsOk, QueuesOk, CallsOk, PutOk, WatchOk;
    ReaderSlot(st, b, id);
  }

  lemma ReturnRest(st: State, b: Book, id: nat)
    requires Inv(st, b) && id in st.readers && st.readers[id].Cleared?
    ensures st.readers[id].slot < SLOTS
    ensures var r, c := StepReader(st, id), Move(b, st.readers[id].slot, Free);
            QueuesOk(r, c.own) && PutOk(r, c) && WatchOk(r, c)
  {
    hide SlotsOk, QueuesOk, CallsOk, PutOk, WatchOk, OwnerOk, StepWatch, StepReader, QuietForPut, QuietForWatch;
    hide SameOwners;
    AllOwners(st, b);
    ReturnFrame(st, b, id);
    var r, s := StepReader(st, id), st.readers[id].slot;
    var c := Move(b, s, Free);
    QueuesUnmoved(st, b, r, s, c.own[s]);
    PutKeeps(st, b, r, c);
    WatchKeeps(st, b, r, c);
  }
}
