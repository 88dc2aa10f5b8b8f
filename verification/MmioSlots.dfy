/** When the MMIO protocol runs out of slots: exactly because of a thread that has cleared one flag of
    its slot and not yet the other. */
module MmioSlots {
  import opened MmioProtocol
  import opened MmioInvariant
  import opened MmioProof
  import opened MmioTheorems

  /** The thread of a read has cleared the first flag of slot k and not yet the second. */
  ghost predicate BetweenClears(st: State, k: nat)
  {
    exists id: nat :: id in st.readers && st.readers[id].Cleared? && st.readers[id].slot == k
  }

  /** The step passes over slot k, which is in no use but has its second flag set. */
  ghost predicate PassesOver(st: State, a: Action, k: nat)
  {
    a == PutStep && st.error == NoError && st.put.ScanRx? && st.put.i == k && BetweenClears(st, k)
  }

  /** The scan finds the second flag of an unused slot set exactly when its thread is between the two
      clears. */
  lemma SecondFlag(st: State, b: Book)
    requires Inv(st, b) && st.put.ScanRx?
    ensures st.put.i < SLOTS && (st.slots[st.put.i].rx <==> BetweenClears(st, st.put.i))
    ensures StepPut(st).put.SetTx? <==> !BetweenClears(st, st.put.i)
  {
    hide QueuesOk, WatchOk, LowerOk, SlotsOk;
    var i := st.put.i;
    SlotsAt(st, b, i);
    if st.slots[i].rx {
      assert b.own[i].stage == Clearing;
      assert b.own[i].pkt.id in st.readers;
    }
    if id: nat :| id in st.readers && st.readers[id].Cleared? && st.readers[id].slot == i {
      assert ReaderOwns(st.readers[id], b, id);
    }
  }

  // ---------------------------------------------------------------- what a scan has left

  /** Slot k is in no use. */
  predicate Unused(st: State, k: nat)
  {
    k < SLOTS && k < |st.slots| && !st.slots[k].tx
  }

  /** Counting finds an unused slot, and the scan comes to one or has passed over it. */
  ghost predicate Left(st: State)
  {
    match st.put
    case Counting(_, _, i, used) => i <= SLOTS && used <= i && (used < i ==> exists k: nat :: k < i && Unused(st, k))
    case ScanTx(_, _, i) => i <= SLOTS && exists k: nat :: Unused(st, k) && (k >= i || k in st.skipped)
    case ScanRx(_, _, i) => i < SLOTS && exists k: nat :: Unused(st, k) && (k >= i || k in st.skipped)
    case _ => true
  }

  ghost predicate Ended(st: State)
  {
    st.error == NoSlot ==> st.put.ScanTx? && st.put.i >= SLOTS
  }

  lemma PutLeft(st: State)
    requires |st.slots| == SLOTS && Left(st) && st.error == NoError
    ensures Left(StepPut(st)) && Ended(StepPut(st))
  {
    hide Room;
    var r := StepPut(st);
    match st.put
    case Counting(_, _, i, used) =>
      if used < i {
        var k: nat :| k < i && Unused(st, k);
        assert Unused(r, k);
      }
      if i < SLOTS && !st.slots[i].tx {
        assert Unused(r, i);
      }
    case ScanTx(_, _, i) =>
      var k: nat :| Unused(st, k) && (k >= i || k in st.skipped);
      assert Unused(r, k);
    case ScanRx(_, _, i) =>
      var k: nat :| Unused(st, k) && (k >= i || k in st.skipped);
      assert Unused(r, k);
    case _ =>
  }

  /** The other parties take no unused slot. */
  lemma OnlyClears(st: State, b: Book, a: Action)
    requires Inv(st, b) && a != PutStep
    ensures |Do(st, a).slots| == SLOTS && forall k: nat :: Unused(st, k) ==> Unused(Do(st, a), k)
    ensures Do(st, a).skipped == st.skipped && Do(st, a).calls == st.calls
    ensures Do(st, a).error == NoSlot <==> st.error == NoSlot
    ensures Do(st, a).put == st.put || (st.put == NoPut && Started(Do(st, a).put))
  {
    hide SlotsOk, QueuesOk, CallsOk, PutOk, WatchOk, StepPut, StepWatch, StepReader;
    if st.error == NoError {
      if a == Watcher {
        WatcherClears(st, b);
      } else if a.ReaderStep? && a.id in st.readers {
        ReaderClears(st, a.id);
      }
    }
  }

  predicate Started(put: Put)
  {
    put.Counting? && put.i == 0 && put.used == 0
  }

  lemma WatcherClears(st: State, b: Book)
    requires Inv(st, b) && st.error == NoError
    ensures var r := StepWatch(st);
            && r == st.(slots := r.slots, watch := r.watch, responses := r.responses, done := r.done, error := r.error)
            && r.error != NoSlot && forall k: nat :: Unused(st, k) ==> Unused(r, k)
  {
    hide SlotsOk, QueuesOk, CallsOk, PutOk, WatchOk;
    if st.watch.PutTx? {
      HandledInUse(st, b);
    }
  }

  lemma ReaderClears(st: State, id: nat)
    requires |st.slots| == SLOTS && id in st.readers
    ensures var r := StepReader(st, id);
            && r == st.(slots := r.slots, readers := r.readers, results := r.results, done := r.done)
            && forall k: nat :: Unused(st, k) ==> Unused(r, k)
  {
  }

  lemma HandledInUse(st: State, b: Book)
    requires Inv(st, b) && st.watch.PutTx?
    ensures st.watch.slot < SLOTS && st.slots[st.watch.slot].tx
  {
    hide QueuesOk, CallsOk, PutOk, LowerOk, ReaderOk, OwnerOk, SlotsOk;
    SlotsAt(st, b, st.watch.slot);
  }

  lemma StepLeft(st: State, b: Book, a: Action)
    requires Inv(st, b) && Left(st) && Ended(st)
    ensures |st.slots| == SLOTS && |st.busy| == SLOTS && Left(Do(st, a)) && Ended(Do(st, a))
  {
    hide SlotsOk, QueuesOk, CallsOk, PutOk, WatchOk, Unused;
    if a == PutStep {
      if st.error == NoError {
        PutLeft(st);
      }
    } else {
      OnlyClears(st, b, a);
      hide Do;
    }
  }

  lemma {:induction false} RunLeft(answer: nat -> int, actions: seq<Action>)
    ensures Left(Run(answer, actions)) && Ended(Run(answer, actions))
  {
    if actions != [] {
      var before := actions[..|actions| - 1];
      RunLeft(answer, before);
      var b := RunInv(answer, before);
      StepLeft(Run(answer, before), b, actions[|actions| - 1]);
    }
  }

  // ---------------------------------------------------------------- why a slot was passed over

  /** A slot counts as passed over because of a step of the same scan. */
  ghost predicate PassedAt(answer: nat -> int, actions: seq<Action>, j: nat, k: nat)
  {
    && j < |actions|
    && PassesOver(Run(answer, actions[..j]), actions[j], k)
    && |Run(answer, actions[..j]).calls| == |Run(answer, actions).calls|
  }

  lemma {:induction false} SkippedWhy(answer: nat -> int, actions: seq<Action>, k: nat)
    requires k in Run(answer, actions).skipped
    ensures exists j: nat :: PassedAt(answer, actions, j, k)
  {
    if actions != [] {
      var n := |actions| - 1;
      var before := actions[..n];
      var st := Run(answer, before);
      var b := RunInv(answer, before);
      SkippedStep(st, b, actions[n], k);
      if k in st.skipped {
        SkippedWhy(answer, before, k);
        var j: nat :| PassedAt(answer, before, j, k);
        assert actions[..j] == before[..j] && actions[j] == before[j];
        assert PassedAt(answer, actions, j, k);
      } else {
        assert PassedAt(answer, actions, n, k);
      }
    }
  }

  /** A step adds a slot only by passing over it, and a new call starts anew. */
  lemma SkippedStep(st: State, b: Book, a: Action, k: nat)
    requires Inv(st, b)
    requires |st.slots| == |st.busy| == SLOTS && k in Do(st, a).skipped
    ensures k in st.skipped || PassesOver(st, a, k)
    ensures |Do(st, a).calls| == |st.calls|
  {
    hide Inv, StepPut, BetweenClears;
    if a != PutStep {
      OnlyClears(st, b, a);
    } else if st.error == NoError {
      PutSkips(st, k);
      if k !in st.skipped {
        SecondFlag(st, b);
      }
    }
  }

  lemma PutSkips(st: State, k: nat)
    requires |st.slots| == SLOTS && k in StepPut(st).skipped
    ensures |StepPut(st).calls| == |st.calls|
    ensures k in st.skipped || (st.put.ScanRx? && st.put.i == k && k < SLOTS && st.slots[k].rx)
  {
    hide Room;
  }

  /** A call that finds no slot has passed over an unused one because of a thread between the two
      clears. */
  lemma NoSlotOnlyPastClearing(answer: nat -> int, actions: seq<Action>)
    requires Run(answer, actions).error == NoSlot
    ensures exists j: nat, k: nat :: PassedAt(answer, actions, j, k) && Unused(Run(answer, actions), k)
  {
    hide PassedAt, Run;
    RunLeft(answer, actions);
    var st := Run(answer, actions);
    var k: nat :| Unused(st, k) && (k >= st.put.i || k in st.skipped);
    SkippedWhy(answer, actions, k);
    var j: nat :| PassedAt(answer, actions, j, k);
  }

  // ---------------------------------------------------------------- a run that ends so

  lemma More(answer: nat -> int, actions: seq<Action>, a: Action)
    ensures Run(answer, actions + [a]) == Do(Run(answer, actions), a)
  {
    assert (actions + [a])[..|actions|] == actions;
  }

  /** The thread with the lock counts the slots from i on. */
  lemma {:induction false} CountOn(answer: nat -> int, actions: seq<Action>, i: nat) returns (more: seq<Action>)
    requires var st := Run(answer, actions);
             st.error == NoError && st.put.Counting? && st.put.i == i <= SLOTS && st.put.used <= i
    ensures var st, r := Run(answer, actions), Run(answer, more);
            && r == st.(put := r.put) && r.put.Counting? && r.put.call == st.put.call && r.put.data == st.put.data
            && r.put.i == SLOTS && r.put.used <= SLOTS
            && (st.put.used < i || (exists k: nat :: k >= i && Unused(st, k)) ==> r.put.used < SLOTS)
    decreases SLOTS - i
  {
    hide Run;
    more := actions;
    if i < SLOTS {
      More(answer, actions, PutStep);
      var st, next := Run(answer, actions), Run(answer, actions + [PutStep]);
      more := CountOn(answer, actions + [PutStep], i + 1);
      if k: nat :| k >= i + 1 && Unused(st, k) {
        assert Unused(next, k);
      }
    }
  }

  /** The scan goes past slots in use. */
  lemma {:induction false} ScanOn(answer: nat -> int, actions: seq<Action>, i: nat, n: nat) returns (more: seq<Action>)
    requires var st := Run(answer, actions); st.error == NoError && st.put.ScanTx? && st.put.i == i <= n <= SLOTS
    requires forall k: nat :: i <= k < n ==> !Unused(Run(answer, actions), k)
    ensures var st := Run(answer, actions); Run(answer, more) == st.(put := ScanTx(st.put.id, st.put.data, n))
    decreases n - i
  {
    hide Run;
    more := actions;
    if i < n {
      assert !Unused(Run(answer, actions), i);
      More(answer, actions, PutStep);
      forall k: nat | i + 1 <= k < n
        ensures !Unused(Run(answer, actions + [PutStep]), k)
      {
        assert !Unused(Run(answer, actions), k);
      }
      more := ScanOn(answer, actions + [PutStep], i + 1, n);
    }
  }

  const READ := Call(false, false)

  /** Reads of no AFU fill the first n slots; nothing has been received. */
  ghost predicate Filled(st: State, n: nat)
  {
    && st.error == NoError && st.put == NoPut && st.watch == Idle && st.responses == [] && st.done == {}
    && |st.calls| == n && (forall k: nat :: k < n ==> st.calls[k] == READ)
    && |st.slots| == |st.busy| == SLOTS
    && (forall k: nat :: k < SLOTS ==> st.slots[k].tx == (k < n) && !st.slots[k].rx)
    && (n == 0 ==> st.requests == [])
    && (n > 0 ==>
          && st.requests != [] && st.requests[0] == Pkt(0, false, 0, 0, 0)
          && 0 in st.readers && st.readers[0] == Wait(0) && st.slots[0].tid == 0)
  }

  /** A thread takes the lock, counts and takes the next transaction ID. */
  lemma TakeId(answer: nat -> int, actions: seq<Action>) returns (more: seq<Action>)
    requires var st := Run(answer, actions);
             && st.error == NoError && st.put == NoPut && |st.calls| < TIDS
             && exists k: nat :: Unused(st, k)
    ensures var st := Run(answer, actions);
            Run(answer, more) == st.(put := ScanTx(|st.calls|, 0, 0), calls := st.calls + [READ], skipped := {})
  {
    hide Run;
    var st := Run(answer, actions);
    More(answer, actions, Issue(READ, 0));
    var k: nat :| Unused(st, k);
    assert Unused(Run(answer, actions + [Issue(READ, 0)]), k);
    more := CountOn(answer, actions + [Issue(READ, 0)], 0);
    More(answer, more, PutStep);
    more := more + [PutStep];
  }

  /** One more slot is filled. */
  lemma FillOne(answer: nat -> int, actions: seq<Action>, n: nat) returns (more: seq<Action>)
    requires Filled(Run(answer, actions), n) && n < SLOTS
    ensures Filled(Run(answer, more), n + 1)
  {
    hide Run;
    assert Unused(Run(answer, actions), n);
    more := TakeId(answer, actions);
    more := ScanOn(answer, more, 0, n);
    more := PutSlot(answer, more, n);
  }

  /** The scan has come to a free slot: it is claimed and filled and the request sent. */
  lemma PutSlot(answer: nat -> int, actions: seq<Action>, n: nat) returns (more: seq<Action>)
    requires var st := Run(answer, actions);
             && st.error == NoError && st.put == ScanTx(n, 0, n) && n < SLOTS && !st.slots[n].tx && !st.slots[n].rx
             && |st.calls| == n + 1 && st.calls[n] == READ
    ensures var st, p := Run(answer, actions), Pkt(n, false, n, n, 0);
            Run(answer, more) == st.(put := NoPut, slots := st.slots[n := Slot(true, false, n, 0)],
                                     requests := st.requests + [p], readers := st.readers[n := Wait(n)])
  {
    hide *;
    more := FindSlot(answer, actions, n);
    more := ClaimSlot(answer, more, n);
    more := FillSlot(answer, more, n);
  }

  lemma FindSlot(answer: nat -> int, actions: seq<Action>, n: nat) returns (more: seq<Action>)
    requires var st := Run(answer, actions);
             && st.error == NoError && st.put == ScanTx(n, 0, n) && n < SLOTS && !st.slots[n].tx && !st.slots[n].rx
             && |st.calls| == n + 1 && st.calls[n] == READ
    ensures var st := Run(answer, actions); Run(answer, more) == st.(put := SetTx(Pkt(n, false, n, n, 0)))
  {
    hide Run;
    More(answer, actions, PutStep);
    More(answer, actions + [PutStep], PutStep);
    more := actions + [PutStep] + [PutStep];
  }

  lemma ClaimSlot(answer: nat -> int, actions: seq<Action>, n: nat) returns (more: seq<Action>)
    requires var st := Run(answer, actions);
             && st.error == NoError && st.put == SetTx(Pkt(n, false, n, n, 0)) && n < SLOTS
    ensures var st := Run(answer, actions);
            Run(answer, more) == st.(put := SetTid(Pkt(n, false, n, n, 0)),
                                     slots := st.slots[n := st.slots[n].(tx := true, rx := false)])
  {
    hide Run;
    More(answer, actions, PutStep);
    More(answer, actions + [PutStep], PutStep);
    more := actions + [PutStep] + [PutStep];
  }

  lemma FillSlot(answer: nat -> int, actions: seq<Action>, n: nat) returns (more: seq<Action>)
    requires var st := Run(answer, actions);
             && st.error == NoError && st.put == SetTid(Pkt(n, false, n, n, 0)) && n < SLOTS
    ensures var st, p := Run(answer, actions), Pkt(n, false, n, n, 0);
            Run(answer, more) == st.(put := NoPut, slots := st.slots[n := st.slots[n].(tid := n, data := 0)],
                                     requests := st.requests + [p], readers := st.readers[n := Wait(n)])
  {
    hide Run, Room;
    More(answer, actions, PutStep);
    More(answer, actions + [PutStep], PutStep);
    More(answer, actions + [PutStep] + [PutStep], PutStep);
    more := actions + [PutStep] + [PutStep] + [PutStep];
  }

  lemma {:induction false} FillAll(answer: nat -> int, actions: seq<Action>, n: nat) returns (more: seq<Action>)
    requires Filled(Run(answer, actions), n) && n <= SLOTS
    ensures Filled(Run(answer, more), SLOTS)
    decreases SLOTS - n
  {
    hide Run, Filled;
    more := actions;
    if n < SLOTS {
      more := FillOne(answer, actions, n);
      more := FillAll(answer, more, n + 1);
    }
  }

  /** The simulator answers the first read at once, and the watcher takes the answer to its slot. */
  lemma AnswerFirst(answer: nat -> int, actions: seq<Action>) returns (more: seq<Action>)
    requires Filled(Run(answer, actions), SLOTS)
    ensures var st, r := Run(answer, actions), Run(answer, more);
            r == st.(requests := r.requests, slots := st.slots[0 := Slot(true, true, 0, -1)])
  {
    more := Taken(answer, actions);
    hide Filled;
    more := Looked(answer, more);
    more := Delivered(answer, more);
  }

  /** The watcher has the answer in hand. */
  lemma Taken(answer: nat -> int, actions: seq<Action>) returns (more: seq<Action>)
    requires Filled(Run(answer, actions), SLOTS)
    ensures var st, r := Run(answer, actions), Run(answer, more);
            && r == st.(requests := r.requests, watch := FindTx(Pkt(0, false, 0, 0, -1), 0))
            && r.error == NoError && r.slots[0].tx && !r.slots[0].rx && r.slots[0].tid == 0
            && st.watch == Idle
  {
    hide Run;
    More(answer, actions, Receive);
    More(answer, actions + [Receive], Watcher);
    var st := Run(answer, actions);
    assert (st.responses + [Pkt(0, false, 0, 0, -1)])[1..] == [];
    more := actions + [Receive] + [Watcher];
  }

  lemma Looked(answer: nat -> int, actions: seq<Action>) returns (more: seq<Action>)
    requires var st := Run(answer, actions);
             && st.error == NoError && st.watch == FindTx(Pkt(0, false, 0, 0, -1), 0)
             && st.slots[0].tx && st.slots[0].tid == 0
    ensures var st := Run(answer, actions); Run(answer, more) == st.(watch := Found(Pkt(0, false, 0, 0, -1), 0))
  {
    hide Run;
    More(answer, actions, Watcher);
    More(answer, actions + [Watcher], Watcher);
    more := actions + [Watcher] + [Watcher];
  }

  lemma Delivered(answer: nat -> int, actions: seq<Action>) returns (more: seq<Action>)
    requires var st := Run(answer, actions);
             && st.error == NoError && st.watch == Found(Pkt(0, false, 0, 0, -1), 0)
             && st.slots[0].tx && st.slots[0].tid == 0
    ensures var st := Run(answer, actions);
            Run(answer, more) == st.(watch := Idle, slots := st.slots[0 := Slot(true, true, 0, -1)])
  {
    hide Run;
    More(answer, actions, Watcher);
    More(answer, actions + [Watcher], Watcher);
    More(answer, actions + [Watcher] + [Watcher], Watcher);
    More(answer, actions + [Watcher] + [Watcher] + [Watcher], Watcher);
    more := actions + [Watcher] + [Watcher] + [Watcher] + [Watcher];
  }

  /** Its thread sees the flag, takes the data and clears the first flag. */
  lemma ClearFirst(answer: nat -> int, actions: seq<Action>) returns (more: seq<Action>)
    requires var st := Run(answer, actions);
             && st.error == NoError && 0 in st.readers && st.readers[0] == Wait(0)
             && st.slots[0] == Slot(true, true, 0, -1)
    ensures var st := Run(answer, actions);
            Run(answer, more) == st.(readers := st.readers[0 := Cleared(0, -1)],
                                     slots := st.slots[0 := Slot(false, true, 0, -1)])
  {
    hide Run;
    var a := ReaderStep(0);
    More(answer, actions, a);
    More(answer, actions + [a], a);
    More(answer, actions + [a] + [a], a);
    more := actions + [a] + [a] + [a];
  }

  /** Such a run: 64 reads hold the slots, the thread of the first is between its two clears, and one
      more call has counted 63 slots in use. */
  lemma OutOfSlots(answer: nat -> int) returns (actions: seq<Action>)
    ensures Run(answer, actions).error == NoSlot
  {
    assert Filled(Run(answer, []), 0);
    actions := FillAll(answer, [], 0);
    hide Run;
    var full := Run(answer, actions);
    actions := AnswerFirst(answer, actions);
    actions := ClearFirst(answer, actions);
    assert Unused(Run(answer, actions), 0);
    actions := TakeId(answer, actions);
    actions := SkipFirst(answer, actions);
    actions := ScanOn(answer, actions, 1, SLOTS);
    More(answer, actions, PutStep);
    actions := actions + [PutStep];
  }

  lemma SkipFirst(answer: nat -> int, actions: seq<Action>) returns (more: seq<Action>)
    requires var st := Run(answer, actions);
             && st.error == NoError && st.put == ScanTx(SLOTS, 0, 0)
             && !st.slots[0].tx && st.slots[0].rx && |st.calls| > SLOTS
    ensures var st := Run(answer, actions);
            Run(answer, more) == st.(put := ScanTx(SLOTS, 0, 1), skipped := st.skipped + {0})
  {
    hide Run;
    More(answer, actions, PutStep);
    More(answer, actions + [PutStep], PutStep);
    more := actions + [PutStep] + [PutStep];
  }
}
