/** The invariant of the MMIO scoreboard: who owns each slot and where its one token is. */
module MmioInvariant {
  import opened MmioProtocol

  /** How far the call that owns a slot has come. */
  datatype Stage = Free | Claimed | Requested | Queued | AtAfu | Responded | Handling | Ready | Clearing

  datatype Own = Own(stage: Stage, pkt: Pkt)

  /** Bookkeeping beside the state: each slot's owner, and the call whose transaction ID was
      last written to it. */
  datatype Book = Book(own: seq<Own>, last: seq<int>)

  const NONE: int := -1

  /** How many messages of a queue belong to a slot. */
  function Count(q: seq<Pkt>, s: nat): nat
  {
    if q == [] then 0 else Count(q[..|q| - 1], s) + (if q[|q| - 1].slot == s then 1 else 0)
  }

  lemma {:induction false} CountConcat(a: seq<Pkt>, b: seq<Pkt>, s: nat)
    ensures Count(a + b, s) == Count(a, s) + Count(b, s)
  {
    if b == [] {
      assert a + b == a;
    } else {
      assert (a + b)[..|a + b| - 1] == a + b[..|b| - 1];
      CountConcat(a, b[..|b| - 1], s);
    }
  }

  lemma CountOne(p: Pkt, s: nat)
    ensures Count([p], s) == if p.slot == s then 1 else 0
  {
    assert [p][..0] == [];
  }

  lemma CountWithout(q: seq<Pkt>, k: nat, s: nat)
    requires k < |q|
    ensures Count(q[..k] + q[k + 1..], s) == Count(q, s) - (if q[k].slot == s then 1 else 0)
  {
    assert q == q[..k] + ([q[k]] + q[k + 1..]);
    CountConcat(q[..k], [q[k]] + q[k + 1..], s);
    CountConcat([q[k]], q[k + 1..], s);
    CountConcat(q[..k], q[k + 1..], s);
    CountOne(q[k], s);
  }

  lemma {:induction false} CountMember(q: seq<Pkt>, k: nat)
    requires k < |q|
    ensures Count(q, q[k].slot) >= 1
  {
    if k < |q| - 1 {
      assert q[..|q| - 1][k] == q[k];
      CountMember(q[..|q| - 1], k);
    }
  }

  /** The queue holds exactly one message for each slot at the stage, and no other. */
  ghost predicate Holds(q: seq<Pkt>, stage: Stage, own: seq<Own>)
  {
    && (forall s: nat :: s < |own| ==> Count(q, s) == if own[s].stage == stage then 1 else 0)
    && (forall k: nat :: k < |q| ==> q[k].slot < |own| && q[k].(data := own[q[k].slot].pkt.data) == own[q[k].slot].pkt)
  }

  lemma HeldStage(q: seq<Pkt>, stage: Stage, own: seq<Own>, k: nat)
    requires Holds(q, stage, own) && k < |q|
    ensures own[q[k].slot].stage == stage
  {
    CountMember(q, k);
  }

  lemma HoldsPush(q: seq<Pkt>, stage: Stage, own: seq<Own>, p: Pkt, o: Own)
    requires Holds(q, stage, own) && p.slot < |own| && own[p.slot].stage != stage
    requires o.stage == stage && p.(data := o.pkt.data) == o.pkt
    ensures Holds(q + [p], stage, own[p.slot := o])
  {
    forall s: nat | s < |own|
      ensures Count(q + [p], s) == if own[p.slot := o][s].stage == stage then 1 else 0
    {
      CountConcat(q, [p], s);
      CountOne(p, s);
    }
    forall k: nat | k < |q|
      ensures q[k].slot != p.slot
    {
      CountMember(q, k);
    }
  }

  lemma HoldsTake(q: seq<Pkt>, stage: Stage, own: seq<Own>, k: nat, o: Own)
    requires Holds(q, stage, own) && k < |q| && o.stage != stage
    ensures Holds(q[..k] + q[k + 1..], stage, own[q[k].slot := o])
  {
    var r, s := q[..k] + q[k + 1..], q[k].slot;
    forall j: nat | j < |own|
      ensures Count(r, j) == if own[s := o][j].stage == stage then 1 else 0
    {
      CountWithout(q, k, j);
      CountMember(q, k);
    }
    forall j: nat | j < |r|
      ensures r[j].slot < |own| && r[j].slot != s && r[j].(data := own[r[j].slot].pkt.data) == own[r[j].slot].pkt
    {
      CountMember(r, j);
      CountWithout(q, k, s);
      CountMember(q, k);
    }
  }

  lemma HoldsKeep(q: seq<Pkt>, stage: Stage, own: seq<Own>, s: nat, o: Own)
    requires Holds(q, stage, own) && s < |own| && own[s].stage != stage && o.stage != stage
    ensures Holds(q, stage, own[s := o])
  {
    forall k: nat | k < |q|
      ensures q[k].slot != s
    {
      CountMember(q, k);
    }
  }

  /** The last call to write a slot's transaction ID is near call n, but not n: their
      transaction IDs differ. */
  predicate Near(last: int, n: nat)
  {
    last != NONE && last != n && last - n < TIDS && n - last < TIDS
  }

  predicate Owned(o: Own)
  {
    o.stage != Free
  }

  /** The slot's request has been sent. */
  predicate Sent(o: Own)
  {
    o.stage != Free && o.stage != Claimed
  }

  /** The flags of a slot follow from the stage of its owner. */
  ghost predicate FlagsOk(st: State, b: Book, s: nat)
    requires s < |st.slots| && s < |b.own| && s < |b.last| && s < |st.busy|
  {
    var w, o := st.slots[s], b.own[s];
    && w.tx == (o.stage != Free && o.stage != Clearing)
    && w.rx == (o.stage == Ready || o.stage == Clearing)
    && (b.last[s] != NONE ==> b.last[s] >= 0 && w.tid == b.last[s] % TIDS)
    && (Sent(o) ==> b.last[s] == o.pkt.id)
    && (o.stage == Ready ==> w.data == Expected(st, o.pkt.id))
    && (st.busy[s].busy <==> o.stage == AtAfu || (o.stage == Queued && !o.pkt.write))
    && (st.busy[s].busy ==> st.busy[s].tid == o.pkt.tid)
  }

  /** An owner is an outstanding call. */
  ghost predicate OwnerOk(st: State, o: Own, s: nat)
  {
    Owned(o) ==>
      && o.pkt.slot == s && o.pkt.tid == o.pkt.id % TIDS
      && Outstanding(st, o.pkt.id)
      && o.pkt.write == st.calls[o.pkt.id].write
      && (o.pkt.write ==> st.calls[o.pkt.id].port && o.stage != AtAfu && o.stage != Ready && o.stage != Clearing)
      && (o.stage == AtAfu || o.stage == Queued ==> st.calls[o.pkt.id].port)
  }

  /** The thread that made a read waits at its slot until the data is there. */
  ghost predicate ReaderOk(st: State, o: Own, s: nat)
  {
    Sent(o) && !o.pkt.write ==>
      && o.pkt.id in st.readers
      && match st.readers[o.pkt.id]
         case Wait(t) => t == s && o.stage != Clearing
         case Seen(t) => t == s && o.stage == Ready
         case Got(t, d) => t == s && o.stage == Ready && d == Expected(st, o.pkt.id)
         case Cleared(t, d) => t == s && o.stage == Clearing && d == Expected(st, o.pkt.id)
  }

  /** All slots below an owned one were last used by calls near its owner. */
  ghost predicate LowerOk(b: Book, s: nat)
    requires s < |b.own| <= |b.last|
  {
    Owned(b.own[s]) ==> forall j: nat :: j < s ==> Near(b.last[j], b.own[s].pkt.id)
  }

  ghost predicate SlotsOk(st: State, b: Book)
    requires |st.slots| == |st.busy| == |b.own| == |b.last| == SLOTS
  {
    forall s: nat :: s < SLOTS ==>
      FlagsOk(st, b, s) && OwnerOk(st, b.own[s], s) && ReaderOk(st, b.own[s], s) && LowerOk(b, s)
  }

  ghost predicate QueuesOk(st: State, own: seq<Own>)
  {
    && Holds(st.requests, Requested, own)
    && Holds(st.list, Queued, own)
    && Holds(st.afu, AtAfu, own)
    && Holds(st.responses, Responded, own)
    && forall k: nat :: k < |st.responses| ==> ResponseOk(st, st.responses[k])
  }

  ghost predicate ResponseOk(st: State, p: Pkt)
  {
    !p.write ==> p.data == Expected(st, p.id)
  }

  /** A call owns one slot at most, and every outstanding call owns one or is being put. */
  ghost predicate CallsOk(st: State, b: Book)
  {
    && (forall s: nat, t: nat :: s < t < |b.own| && Owned(b.own[s]) && Owned(b.own[t]) ==>
          b.own[s].pkt.id != b.own[t].pkt.id)
    && (forall id: nat :: Outstanding(st, id) ==> Scanning(st.put, id) || exists s: nat :: Owns(b, s, id))
    && (forall id: nat :: id in st.readers ==> ReaderOwns(st.readers[id], b, id))
    && (forall id: nat :: id < |st.calls| && st.calls[id].write ==> st.calls[id].port)
    && (forall id: nat :: id in st.done ==> id < |st.calls|)
    && (forall id: nat :: id in st.done && !st.calls[id].write ==> id in st.results)
    && (forall id: nat :: id in st.results ==> id in st.done && st.results[id] == Expected(st, id))
  }

  ghost predicate Owns(b: Book, s: nat, id: nat)
  {
    s < |b.own| && Owned(b.own[s]) && b.own[s].pkt.id == id
  }

  ghost predicate ReaderOwns(r: Reader, b: Book, id: nat)
  {
    Owns(b, r.slot, id) && Sent(b.own[r.slot]) && !b.own[r.slot].pkt.write
  }

  /** The call being put has no slot yet. */
  predicate Scanning(put: Put, id: nat)
  {
    match put
    case ScanTx(n, _, _) => n == id
    case ScanRx(n, _, _) => n == id
    case SetTx(p) => p.id == id
    case _ => false
  }

  /** The slots below i were last used by calls near the one being put. */
  ghost predicate ScanOk(st: State, b: Book, id: nat, i: nat)
  {
    && id + 1 == |st.calls| && Outstanding(st, id)
    && i <= |b.last|
    && (forall j: nat :: j < i ==> Near(b.last[j], id))
    && (forall s: nat :: s < |b.own| ==> b.own[s].stage != Claimed)
    && (forall s: nat :: s < |b.own| && Owned(b.own[s]) ==> b.own[s].pkt.id != id)
  }

  ghost predicate ClaimOk(b: Book, p: Pkt, written: bool)
  {
    && p.slot < |b.own| <= |b.last|
    && b.own[p.slot].stage == Claimed && p.(data := b.own[p.slot].pkt.data) == b.own[p.slot].pkt
    && (forall s: nat :: s < |b.own| && s != p.slot ==> b.own[s].stage != Claimed)
    && (written ==> b.last[p.slot] == p.id)
  }

  /** While a call is put no other is issued, so those outstanding stay near. */
  ghost predicate PutOk(st: State, b: Book)
  {
    && (st.put != NoPut && !st.put.Counting? ==> forall id: nat :: Outstanding(st, id) ==> |st.calls| - 1 - id < TIDS)
    && match st.put
       case NoPut => forall s: nat :: s < |b.own| ==> b.own[s].stage != Claimed
       case Counting(call, _, _, _) =>
         (call.write ==> call.port) && forall s: nat :: s < |b.own| ==> b.own[s].stage != Claimed
       case ScanTx(id, _, i) => ScanOk(st, b, id, i)
       case ScanRx(id, _, i) =>
         ScanOk(st, b, id, i) && i < |b.own| && (b.own[i].stage == Free || b.own[i].stage == Clearing)
       case SetTx(p) =>
         && ScanOk(st, b, p.id, p.slot) && p.slot < |b.own| && b.own[p.slot].stage == Free
         && p.tid == p.id % TIDS && p.write == st.calls[p.id].write && (p.write ==> st.calls[p.id].port)
       case SetRx(p) => ClaimOk(b, p, false) && p.id + 1 == |st.calls|
       case SetTid(p) => ClaimOk(b, p, false) && p.id + 1 == |st.calls|
       case SetData(p) => ClaimOk(b, p, true) && p.id + 1 == |st.calls|
       case Send(p) => ClaimOk(b, p, true) && p.id + 1 == |st.calls|
  }

  ghost predicate HandlingOk(st: State, b: Book, p: Pkt)
  {
    && p.slot < |b.own| && b.own[p.slot].stage == Handling && p.(data := b.own[p.slot].pkt.data) == b.own[p.slot].pkt
    && ResponseOk(st, p)
    && forall s: nat :: s < |b.own| && s != p.slot ==> b.own[s].stage != Handling
  }

  ghost predicate WatchOk(st: State, b: Book)
  {
    match st.watch
    case Idle => forall s: nat :: s < |b.own| ==> b.own[s].stage != Handling
    case FindTx(p, i) => HandlingOk(st, b, p) && i <= p.slot
    case FindTid(p, i) => HandlingOk(st, b, p) && i <= p.slot
    case Found(p, s) => HandlingOk(st, b, p) && s == p.slot
    case PutData(p, s) => HandlingOk(st, b, p) && s == p.slot && !p.write
    case PutTx(p, s) => HandlingOk(st, b, p) && s == p.slot && !p.write && s < |st.slots| && st.slots[s].data == p.data
    case PutRx(p, s) => HandlingOk(st, b, p) && s == p.slot && !p.write && s < |st.slots| && st.slots[s].data == p.data
    case ClearRx(s) =>
      && (forall t: nat :: t < |b.own| ==> b.own[t].stage != Handling)
      && s < |b.own| && b.own[s].stage != Ready && b.own[s].stage != Clearing
  }

  /** No error but running out of slots has happened, and all parts agree. */
  ghost predicate Inv(st: State, b: Book)
  {
    && |st.slots| == |st.busy| == |b.own| == |b.last| == SLOTS
    && (st.error == NoError || st.error == NoSlot)
    && SlotsOk(st, b)
    && QueuesOk(st, b.own)
    && CallsOk(st, b)
    && PutOk(st, b)
    && WatchOk(st, b)
  }
}
