/** What holds in every interleaving of the MMIO protocol. */
module MmioTheorems {
  import opened MmioProtocol
  import opened MmioInvariant
  import opened MmioProof

  lemma InitInv(answer: nat -> int) returns (b: Book)
    ensures Inv(Init(answer), b)
  {
    b := Book(seq(SLOTS, i => Own(Free, Pkt(0, false, 0, 0, 0))), seq(SLOTS, i => NONE));
  }

  lemma PutInv(st: State, b: Book) returns (c: Book)
    requires Inv(st, b)
    ensures Inv(StepPut(st), c)
  {
    hide SlotsOk, QueuesOk, CallsOk, WatchOk;
    match st.put
    case NoPut => c := b;
    case Counting(_, _, _, _) => CountInv(st, b); c := b;
    case ScanTx(_, _, _) => ScanInv(st, b); c := b;
    case ScanRx(_, _, _) => ScanInv(st, b); c := b;
    case SetTx(p) => ClaimInv(st, b); c := Claim(b, p);
    case SetRx(_) => FillInv(st, b); c := FillBook(st, b);
    case SetTid(_) => FillInv(st, b); c := FillBook(st, b);
    case SetData(_) => FillInv(st, b); c := FillBook(st, b);
    case Send(p) => SendInv(st, b); c := Move(b, p.slot, Requested);
  }

  lemma WatcherInv(st: State, b: Book) returns (c: Book)
    requires Inv(st, b)
    ensures Inv(StepWatch(st), c)
  {
    hide SlotsOk, QueuesOk, CallsOk, PutOk;
    c := b;
    if st.watch == Idle {
      if st.responses != [] {
        TakeInv(st, b);
        c := Move(b, st.responses[0].slot, Handling);
      }
    } else if Finding(st.watch) {
      FindInv(st, b);
    } else if Updating(st.watch) {
      UpdateInv(st, b);
    } else if st.watch.PutRx? {
      ReadyInv(st, b);
      c := Move(b, st.watch.slot, Ready);
    } else if st.watch.ClearRx? {
      ClearInv(st, b);
    } else {
      AckInv(st, b);
      c := Move(b, st.watch.slot, Free);
    }
  }

  lemma ReaderInv(st: State, b: Book, id: nat) returns (c: Book)
    requires Inv(st, b) && id in st.readers
    ensures Inv(StepReader(st, id), c)
  {
    hide SlotsOk, QueuesOk, CallsOk, PutOk, WatchOk;
    match st.readers[id]
    case Wait(_) => GotInv(st, b, id); c := b;
    case Seen(_) => GotInv(st, b, id); c := b;
    case Got(s, _) => ClearingInv(st, b, id); c := Move(b, s, Clearing);
    case Cleared(s, _) => ReturnInv(st, b, id); c := Move(b, s, Free);
  }

  /** Every step of every party keeps the invariant. */
  lemma StepInv(st: State, b: Book, a: Action) returns (c: Book)
    requires Inv(st, b)
    ensures |st.slots| == |st.busy| == SLOTS
    ensures Inv(Do(st, a), c)
  {
    hide SlotsOk, QueuesOk, CallsOk, PutOk, WatchOk;
    c := b;
    if st.error == NoError {
      match a
      case Issue(call, data) => IssueInv(st, b, call, data);
      case PutStep => c := PutInv(st, b);
      case Receive =>
        if st.requests != [] {
          ReceiveInv(st, b);
          c := Move(b, st.requests[0].slot, ReceiveStage(st));
        }
      case SendToAfu =>
        if st.list != [] {
          SendHeadInv(st, b);
          c := Move(b, st.list[0].slot, SentStage(st.list[0]));
        }
      case Complete(k) =>
        if k < |st.afu| {
          CompleteInv(st, b, k);
          c := Move(b, st.afu[k].slot, Responded);
        }
      case Watcher => c := WatcherInv(st, b);
      case ReaderStep(id) =>
        if id in st.readers {
          c := ReaderInv(st, b, id);
        }
    }
  }

  lemma {:induction false} RunInv(answer: nat -> int, actions: seq<Action>) returns (b: Book)
    ensures Inv(Run(answer, actions), b)
  {
    if actions == [] {
      b := InitInv(answer);
    } else {
      b := RunInv(answer, actions[..|actions| - 1]);
      b := StepInv(Run(answer, actions[..|actions| - 1]), b, actions[|actions| - 1]);
    }
  }

  /** The simulator never finds a read's slot already busy or a completion's tag inactive, and
      the watcher always finds the slot of a response. */
  lemma ErrorsUnreachable(answer: nat -> int, actions: seq<Action>)
    ensures var e := Run(answer, actions).error; e == NoError || e == NoSlot
  {
    var b := RunInv(answer, actions);
  }

  /** Every read that has returned got the AFU's answer to that very read, and all ones if it
      named no AFU port. A call is over once. */
  lemma ReadsGetTheirAnswers(answer: nat -> int, actions: seq<Action>)
    ensures var st := Run(answer, actions);
            forall id: nat :: id in st.done ==>
              && id < |st.calls|
              && (!st.calls[id].write ==>
                    id in st.results && st.results[id] == if st.calls[id].port then answer(id) else -1)
  {
    var b := RunInv(answer, actions);
    AnswerKept(answer, actions);
  }

  lemma SameAnswer(st: State, a: Action)
    requires |st.slots| == SLOTS && |st.busy| == SLOTS
    ensures Do(st, a).answer == st.answer
  {
    hide StepPut, NewRequest, SendHead, ReadCompletion, StepWatch, StepReader;
  }

  lemma {:induction false} AnswerKept(answer: nat -> int, actions: seq<Action>)
    ensures Run(answer, actions).answer == answer
  {
    if actions != [] {
      AnswerKept(answer, actions[..|actions| - 1]);
      SameAnswer(Run(answer, actions[..|actions| - 1]), actions[|actions| - 1]);
    }
  }


  // ---------------------------------------------------------------- tokens

  /** How many tokens of slot s exist: a claim of the putting thread, a request or response in
      a queue, a read at the AFU, a response in the watcher's hands, or data waiting in the
      slot. */
  function Tokens(st: State, s: nat): nat
    requires |st.slots| == SLOTS && s < SLOTS
  {
    Claims(st.put, s) + Count(st.requests, s) + Count(st.list, s) + Count(st.afu, s) + Count(st.responses, s)
    + Handles(st.watch, s) + (if st.slots[s].rx then 1 else 0)
  }

  function Claims(put: Put, s: nat): nat
  {
    match put
    case SetRx(p) => if p.slot == s then 1 else 0
    case SetTid(p) => if p.slot == s then 1 else 0
    case SetData(p) => if p.slot == s then 1 else 0
    case Send(p) => if p.slot == s then 1 else 0
    case _ => 0
  }

  function Handles(w: Watch, s: nat): nat
  {
    match w
    case Idle => 0
    case ClearRx(_) => 0
    case _ => if w.rsp.slot == s then 1 else 0
  }

  /** A slot with either flag set owns exactly one token, and a free slot none. */
  lemma OneToken(answer: nat -> int, actions: seq<Action>, s: nat)
    requires s < SLOTS
    ensures var st := Run(answer, actions);
            Tokens(st, s) == if st.slots[s].tx || st.slots[s].rx then 1 else 0
  {
    var st := Run(answer, actions);
    var b := RunInv(answer, actions);
    hide CallsOk, OwnerOk, ReaderOk, LowerOk, Near, Run;
    TokenOfStage(st, b, s);
  }

  lemma TokenOfStage(st: State, b: Book, s: nat)
    requires Inv(st, b) && s < SLOTS
    ensures Tokens(st, s) == if st.slots[s].tx || st.slots[s].rx then 1 else 0
  {
    hide CallsOk, OwnerOk, ReaderOk, LowerOk, Near, SlotsOk, PutOk, WatchOk;
    SlotsAt(st, b, s);
    ClaimsStage(st, b, s);
    HandlesStage(st, b, s);
  }

  lemma ClaimsStage(st: State, b: Book, s: nat)
    requires PutOk(st, b) && s < |b.own|
    ensures Claims(st.put, s) == if b.own[s].stage == Claimed then 1 else 0
  {
  }

  lemma HandlesStage(st: State, b: Book, s: nat)
    requires WatchOk(st, b) && s < |b.own|
    ensures Handles(st.watch, s) == if b.own[s].stage == Handling then 1 else 0
  {
  }

  /** Nothing is lost: once no thread puts, no message is under way, the watcher is idle and no
      thread waits, every call is over and every slot is free. */
  lemma NothingLost(answer: nat -> int, actions: seq<Action>)
    requires var st := Run(answer, actions);
             && st.put == NoPut && st.watch == Idle && st.readers == map[]
             && st.requests == st.list == st.afu == st.responses == []
    ensures var st := Run(answer, actions);
            && (forall id: nat :: id < |st.calls| ==> id in st.done)
            && (forall s: nat :: s < SLOTS ==> !st.slots[s].tx && !st.slots[s].rx)
  {
    var st := Run(answer, actions);
    var b := RunInv(answer, actions);
    hide SlotsOk, QueuesOk, CallsOk, PutOk, WatchOk, Run;
    forall s: nat | s < SLOTS
      ensures b.own[s].stage == Free && !st.slots[s].tx && !st.slots[s].rx
    {
      NobodyOwns(st, b, s);
    }
    NobodyOutstanding(st, b);
  }

  lemma NobodyOutstanding(st: State, b: Book)
    requires CallsOk(st, b) && st.put == NoPut
    requires forall s: nat :: s < |b.own| ==> b.own[s].stage == Free
    ensures forall id: nat :: id < |st.calls| ==> id in st.done
  {
    forall id: nat | id < |st.calls|
      ensures id in st.done
    {
      assert Outstanding(st, id) ==> exists s: nat :: Owns(b, s, id);
    }
  }

  lemma NobodyOwns(st: State, b: Book, s: nat)
    requires Inv(st, b) && s < SLOTS
    requires st.put == NoPut && st.watch == Idle && st.readers == map[]
    requires st.requests == st.list == st.afu == st.responses == []
    ensures b.own[s].stage == Free && !st.slots[s].tx && !st.slots[s].rx
  {
    SlotsAt(st, b, s);
    assert Count([], s) == 0;
  }
}
