/** The queue of AFU interrupts waiting for a response, threaded through the interrupt table. */
module InterruptQueue {
  import opened Wrappers

  datatype Result = Accepted | NotLast | TooHigh | StillBusy

  /** The interrupt that follows position k of the queue. */
  function After(q: seq<int>, k: nat): int
  {
    if k + 1 < |q| then q[k + 1] else -1
  }

  class Interrupts {
    const next: array<int>
    const busy: array<bool>
    const startCycle: array<int>
    var head: int
    var tail: int
    /** The interrupts in the list, and all that were requested and answered so far. */
    ghost var queue: seq<int>
    ghost var requested: seq<int>
    ghost var answered: seq<int>

    /** The list of the table threads the queue, each interrupt once. */
    ghost predicate Threaded()
      reads this`head, this`tail, this`queue, next
    {
      && (forall k :: 0 <= k < |queue| ==> 0 <= queue[k] < next.Length)
      && (forall j, k :: 0 <= j < k < |queue| ==> queue[j] != queue[k])
      && head == (if queue == [] then -1 else queue[0])
      && tail == (if queue == [] then -1 else queue[|queue| - 1])
      && (forall k :: 0 <= k < |queue| ==> next[queue[k]] == After(queue, k))
    }

    ghost predicate Valid()
      reads this, next, busy, startCycle
    {
      && next.Length == busy.Length == startCycle.Length && next != startCycle
      && Threaded()
      && (forall i :: 0 <= i < busy.Length ==> (busy[i] <==> i in queue))
      && requested == answered + queue
    }

    constructor (numInterrupts: nat)
      ensures Valid() && queue == requested == [] && busy.Length == numInterrupts
      ensures fresh(next) && fresh(busy) && fresh(startCycle)
    {
      next := new int[numInterrupts](_ => 0);
      busy := new bool[numInterrupts](_ => false);
      startCycle := new int[numInterrupts](_ => 0);
      head, tail := -1, -1;
      queue, requested, answered := [], [], [];
    }

    /** The AFU asks for an interrupt. Anything but Accepted ends the run. */
    method Request(irqId: nat, eop: bool, cycle: int) returns (r: Result)
      requires Valid()
      modifies this, next, busy, startCycle
      ensures Valid() && answered == old(answered)
      ensures r == Accepted <==> eop && irqId < busy.Length && !old(irqId in queue)
      ensures r == Accepted ==> queue == old(queue) + [irqId] && startCycle[..] == old(startCycle[..])[irqId := cycle]
      ensures r != Accepted ==> queue == old(queue) && startCycle[..] == old(startCycle[..])
    {
      hide Threaded;
      if !eop {
        return NotLast;
      }
      if irqId >= busy.Length {
        return TooHigh;
      }
      if busy[irqId] {
        return StillBusy;
      }
      busy[irqId] := true;
      startCycle[irqId] := cycle;
      Append(irqId);
      requested := requested + [irqId];
      r := Accepted;
    }

    /** Add an interrupt at the tail of the list. */
    method Append(irqId: nat)
      requires Threaded() && irqId < next.Length && irqId !in queue
      modifies this`head, this`tail, this`queue, next
      ensures Threaded() && queue == old(queue) + [irqId]
    {
      next[irqId] := -1;
      if tail == -1 {
        head := irqId;
      } else {
        next[tail] := irqId;
      }
      tail := irqId;
      queue := queue + [irqId];
    }

    static lemma Taken(q: seq<int>, before: seq<int>)
      requires q != [] && forall j, k :: 0 <= j < k < |q| ==> q[j] != q[k]
      ensures forall i :: i in q[1..] <==> i in q && i != q[0]
      ensures before + q == before + [q[0]] + q[1..]
    {
      assert q == [q[0]] + q[1..];
    }

    /** Answer the interrupt that has waited longest, at least 200 cycles, unless the random
        draw delays it. */
    method Respond(cycle: int, ready: bool, draw: nat) returns (id: Option<int>)
      requires Valid()
      modifies this, busy
      ensures Valid() && requested == old(requested)
      ensures id.Some? <==> ready && old(queue) != [] && cycle - startCycle[old(queue[0])] >= 200 && draw % 256 <= 0xc0
      ensures id.Some? ==>
                && id.value == old(queue[0]) && queue == old(queue[1..])
                && answered == old(answered) + [id.value] && !busy[id.value]
      ensures id == None ==> queue == old(queue) && answered == old(answered)
    {
      if !ready || head == -1 {
        return None;
      }
      if cycle - startCycle[head] < 200 {
        return None;
      }
      if draw % 256 > 0xc0 {
        return None;
      }
      ghost var q := queue;
      id := Some(head);
      busy[head] := false;
      head := next[head];
      if head == -1 {
        tail := -1;
      }
      Taken(queue, answered);
      answered := answered + [queue[0]];
      queue := queue[1..];
      forall k | 0 <= k < |queue|
        ensures next[queue[k]] == After(queue, k)
      {
        assert old(next[q[k + 1]]) == After(q, k + 1);
      }
      forall i | 0 <= i < busy.Length
        ensures busy[i] <==> i in queue
      {
        assert old(busy[i]) <==> i in q;
      }
    }
  }
}
