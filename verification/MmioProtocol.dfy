/** The MMIO scoreboard: application threads, the response watcher and the simulator share 64
    slots and two message queues. Every access to shared memory is a step of its own. */
module MmioProtocol {

  /** MMIO_MAX_OUTSTANDING, and the number of transaction IDs. */
  const SLOTS: nat := 64
  const TIDS: nat := 512

  /** A scoreboard line. */
  datatype Slot = Slot(tx: bool, rx: bool, tid: nat, data: int)

  /** A request or response message. The id numbers the call it belongs to; the program does not
      see it. */
  datatype Pkt = Pkt(id: nat, write: bool, slot: nat, tid: nat, data: int)

  /** An application call, and whether it names an emulated AFU port. */
  datatype Call = Call(write: bool, port: bool)

  /** Where the thread that holds the port lock is in its call. */
  datatype Put =
    | NoPut
    | Counting(call: Call, data: int, i: nat, used: nat)
    | ScanTx(id: nat, data: int, i: nat)
    | ScanRx(id: nat, data: int, i: nat)
    | SetTx(pkt: Pkt)
    | SetRx(pkt: Pkt)
    | SetTid(pkt: Pkt)
    | SetData(pkt: Pkt)
    | Send(pkt: Pkt)

  /** Where the response watcher is: the scan for the slot, then the field updates in turn. */
  datatype Watch =
    | Idle
    | FindTx(rsp: Pkt, i: nat)
    | FindTid(rsp: Pkt, i: nat)
    | Found(rsp: Pkt, slot: nat)
    | PutData(rsp: Pkt, slot: nat)
    | PutTx(rsp: Pkt, slot: nat)
    | PutRx(rsp: Pkt, slot: nat)
    | ClearRx(slot: nat)

  /** Where the thread that made a read is, once its request is sent. */
  datatype Reader =
    | Wait(slot: nat)
    | Seen(slot: nat)
    | Got(slot: nat, data: int)
    | Cleared(slot: nat, data: int)

  /** The simulator's table of reads, by slot. */
  datatype Busy = Busy(busy: bool, tid: nat)

  datatype Error = NoError | NoSlot | AlreadyBusy | NotActive | BadSlot

  datatype State = State(
    slots: seq<Slot>,
    put: Put,
    requests: seq<Pkt>,
    list: seq<Pkt>,
    busy: seq<Busy>,
    afu: seq<Pkt>,
    responses: seq<Pkt>,
    watch: Watch,
    readers: map<nat, Reader>,
    error: Error,
    // What has happened so far: the calls, those that are over, what the reads returned, and the
    // slots that the scan under way has found with only the second flag set.
    calls: seq<Call>,
    done: set<nat>,
    results: map<nat, int>,
    skipped: set<nat>,
    // What the AFU answers to each call.
    answer: nat -> int)

  function Init(answer: nat -> int): State
  {
    State(seq(SLOTS, i => Slot(false, false, 0, 0)), NoPut, [], [], seq(SLOTS, i => Busy(false, 0)),
          [], [], Idle, map[], NoError, [], {}, map[], {}, answer)
  }

  /** What a read must return: the AFU's answer, or all ones where there is no AFU. */
  function Expected(st: State, id: nat): int
  {
    if id < |st.calls| && st.calls[id].port then st.answer(id) else -1
  }

  /** A call that is not over. */
  predicate Outstanding(st: State, id: nat)
  {
    id < |st.calls| && id !in st.done
  }

  /** Fewer than 512 requests are issued while any one is outstanding, the next one included. */
  ghost predicate Room(st: State)
  {
    forall id: nat :: Outstanding(st, id) ==> |st.calls| - id < TIDS
  }

  datatype Action =
    | Issue(call: Call, data: int)
    | PutStep
    | Receive
    | SendToAfu
    | Complete(k: nat)
    | Watcher
    | ReaderStep(id: nat)

  /** One step. An action that cannot happen changes nothing, nor does any after an error. */
  ghost function Do(st: State, a: Action): State
    requires |st.slots| == SLOTS && |st.busy| == SLOTS
  {
    if st.error != NoError then st else
      match a
      case Issue(call, data) => IssueCall(st, call, data)
      case PutStep => StepPut(st)
      case Receive => if st.requests == [] then st else NewRequest(st)
      case SendToAfu => if st.list == [] then st else SendHead(st)
      case Complete(k) => if k < |st.afu| then ReadCompletion(st, k) else st
      case Watcher => StepWatch(st)
      case ReaderStep(id) => if id in st.readers then StepReader(st, id) else st
  }

  /** A thread takes the port lock. */
  function IssueCall(st: State, call: Call, data: int): State
  {
    if st.put != NoPut || (call.write && !call.port) then st else st.(put := Counting(call, data, 0, 0))
  }

  /** The thread with the lock: count the slots in use until one is not, and take a transaction ID;
      then find an empty slot, claim it, fill it and send the request. */
  ghost function StepPut(st: State): (r: State)
    requires |st.slots| == SLOTS
    ensures |r.slots| == SLOTS && r.busy == st.busy && r.answer == st.answer
  {
    match st.put
    case NoPut => st
    case Counting(call, data, i, used) =>
      if i < SLOTS then st.(put := Counting(call, data, i + 1, if st.slots[i].tx then used + 1 else used))
      else if used >= SLOTS then st.(put := Counting(call, data, 0, 0))
      else if !Room(st) then st
      else st.(put := ScanTx(|st.calls|, data, 0), calls := st.calls + [call], skipped := {})
    case ScanTx(id, data, i) =>
      if i >= SLOTS then st.(error := NoSlot)
      else if st.slots[i].tx then st.(put := ScanTx(id, data, i + 1))
      else st.(put := ScanRx(id, data, i))
    case ScanRx(id, data, i) =>
      if i >= SLOTS || id >= |st.calls| then st
      else if st.slots[i].rx then st.(put := ScanTx(id, data, i + 1), skipped := st.skipped + {i})
      else st.(put := SetTx(Pkt(id, st.calls[id].write, i, id % TIDS, data)))
    case SetTx(p) =>
      if p.slot >= SLOTS then st else
        st.(put := SetRx(p), slots := st.slots[p.slot := st.slots[p.slot].(tx := true)])
    case SetRx(p) =>
      if p.slot >= SLOTS then st else
        st.(put := SetTid(p), slots := st.slots[p.slot := st.slots[p.slot].(rx := false)])
    case SetTid(p) =>
      if p.slot >= SLOTS then st else
        st.(put := SetData(p), slots := st.slots[p.slot := st.slots[p.slot].(tid := p.tid)])
    case SetData(p) =>
      if p.slot >= SLOTS then st else
        st.(put := Send(p), slots := st.slots[p.slot := st.slots[p.slot].(data := p.data)])
    case Send(p) =>
      st.(put := NoPut, requests := st.requests + [p],
          readers := if p.write then st.readers else st.readers[p.id := Wait(p.slot)])
  }

  /** The simulator takes a request: without an AFU to name a read is answered at once;
      otherwise the request is queued and a read is entered in the table. */
  function NewRequest(st: State): (r: State)
    requires |st.slots| == SLOTS && |st.busy| == SLOTS && st.requests != []
    ensures |r.slots| == SLOTS && |r.busy| == SLOTS && r.answer == st.answer
  {
    var p := st.requests[0];
    var s := st.(requests := st.requests[1..]);
    if p.id < |st.calls| && !st.calls[p.id].port then
      if p.write then s else s.(responses := s.responses + [p.(data := -1)])
    else if p.write then s.(list := s.list + [p])
    else if p.slot >= SLOTS || s.busy[p.slot].busy then s.(error := AlreadyBusy)
    else s.(list := s.list + [p], busy := s.busy[p.slot := Busy(true, p.tid)])
  }

  /** The first queued request has been sent on the channel. A write is then over for the
      simulator and is acknowledged. */
  function SendHead(st: State): (r: State)
    requires |st.slots| == SLOTS && |st.busy| == SLOTS && st.list != []
    ensures |r.slots| == SLOTS && |r.busy| == SLOTS && r.answer == st.answer
  {
    var p := st.list[0];
    var s := st.(list := st.list[1..]);
    if p.write then s.(responses := s.responses + [p]) else s.(afu := s.afu + [p])
  }

  /** The AFU completes one of its reads. The completion carries the tag and data; the
      transaction ID comes from the table. */
  function ReadCompletion(st: State, k: nat): (r: State)
    requires |st.slots| == SLOTS && |st.busy| == SLOTS && k < |st.afu|
    ensures |r.slots| == SLOTS && |r.busy| == SLOTS && r.answer == st.answer
  {
    var id, tag := st.afu[k].id, st.afu[k].slot;
    var s := st.(afu := st.afu[..k] + st.afu[k + 1..]);
    if tag >= SLOTS || !s.busy[tag].busy then s.(error := NotActive)
    else
      s.(busy := s.busy[tag := s.busy[tag].(busy := false)],
         responses := s.responses + [Pkt(id, false, tag, s.busy[tag].tid, st.answer(id))])
  }

  /** The watcher: take a response, find the first slot in use with its transaction ID, and
      update that slot field by field. */
  function StepWatch(st: State): (r: State)
    requires |st.slots| == SLOTS
    ensures |r.slots| == SLOTS && r.busy == st.busy && r.answer == st.answer
  {
    match st.watch
    case Idle =>
      if st.responses == [] then st
      else st.(watch := FindTx(st.responses[0], 0), responses := st.responses[1..])
    case FindTx(p, i) =>
      if i >= SLOTS then st.(error := BadSlot)
      else if st.slots[i].tx then st.(watch := FindTid(p, i))
      else st.(watch := FindTx(p, i + 1))
    case FindTid(p, i) =>
      if i >= SLOTS then st
      else if st.slots[i].tid == p.tid then st.(watch := Found(p, i))
      else st.(watch := FindTx(p, i + 1))
    case Found(p, s) =>
      if s >= SLOTS then st
      else if p.write then
        st.(watch := ClearRx(s), slots := st.slots[s := st.slots[s].(tx := false)], done := st.done + {p.id})
      else st.(watch := PutData(p, s), slots := st.slots[s := st.slots[s].(tid := p.tid)])
    case PutData(p, s) =>
      if s >= SLOTS then st else
        st.(watch := PutTx(p, s), slots := st.slots[s := st.slots[s].(data := p.data)])
    case PutTx(p, s) =>
      if s >= SLOTS then st else
        st.(watch := PutRx(p, s), slots := st.slots[s := st.slots[s].(tx := true)])
    case PutRx(p, s) =>
      if s >= SLOTS then st else
        st.(watch := Idle, slots := st.slots[s := st.slots[s].(rx := true)])
    case ClearRx(s) =>
      if s >= SLOTS then st else
        st.(watch := Idle, slots := st.slots[s := st.slots[s].(rx := false)])
  }

  /** A thread waiting for its read: once the data is there, take it and free the slot. */
  function StepReader(st: State, id: nat): (r: State)
    requires |st.slots| == SLOTS && id in st.readers
    ensures |r.slots| == SLOTS && r.busy == st.busy && r.answer == st.answer
  {
    match st.readers[id]
    case Wait(s) =>
      if s >= SLOTS || !st.slots[s].rx then st else st.(readers := st.readers[id := Seen(s)])
    case Seen(s) =>
      if s >= SLOTS then st else st.(readers := st.readers[id := Got(s, st.slots[s].data)])
    case Got(s, d) =>
      if s >= SLOTS then st else
        st.(readers := st.readers[id := Cleared(s, d)], slots := st.slots[s := st.slots[s].(tx := false)])
    case Cleared(s, d) =>
      if s >= SLOTS then st else
        st.(readers := st.readers - {id}, slots := st.slots[s := st.slots[s].(rx := false)],
            results := st.results[id := d], done := st.done + {id})
  }

  /** The state after a run. */
  ghost function Run(answer: nat -> int, actions: seq<Action>): (st: State)
    ensures |st.slots| == SLOTS && |st.busy| == SLOTS
  {
    if actions == [] then Init(answer) else Do(Run(answer, actions[..|actions| - 1]), actions[|actions| - 1])
  }
}
