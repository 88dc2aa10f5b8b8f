/** The doubly linked list of pending read completions, updated in place. */
module CompletionList {
  import opened ReadCompletion

  class CplNode {
    const cpl: Cpl
    var next: CplNode?
    var prev: CplNode?

    constructor (cpl: Cpl)
      ensures this.cpl == cpl
    {
      this.cpl := cpl;
      next, prev := null, null;
    }
  }

  ghost function Members(nodes: seq<CplNode>): set<CplNode>
  {
    set n | n in nodes
  }

  ghost function Values(nodes: seq<CplNode>): (s: seq<Cpl>)
    ensures |s| == |nodes|
    ensures forall i :: 0 <= i < |nodes| ==> s[i] == nodes[i].cpl
  {
    seq(|nodes|, i requires 0 <= i < |nodes| => nodes[i].cpl)
  }

  /** The node at position i, or null outside the list. */
  ghost function At(nodes: seq<CplNode>, i: int): CplNode?
  {
    if 0 <= i < |nodes| then nodes[i] else null
  }

  function WithNode(nodes: seq<CplNode>, k: nat, node: CplNode): (t: seq<CplNode>)
    requires k <= |nodes|
    ensures |t| == |nodes| + 1
  {
    nodes[..k] + [node] + nodes[k..]
  }

  lemma WithNodeAt(nodes: seq<CplNode>, k: nat, node: CplNode)
    requires k <= |nodes| && node !in nodes
    requires forall i, j :: 0 <= i < j < |nodes| ==> nodes[i] != nodes[j]
    ensures var t := WithNode(nodes, k, node);
            && (forall i {:trigger t[i]} {:trigger nodes[i]} :: 0 <= i < k ==> t[i] == nodes[i])
            && t[k] == node
            && (forall i {:trigger t[i]} :: k < i < |t| ==> t[i] == nodes[i - 1])
            && forall i, j :: 0 <= i < j < |t| ==> t[i] != t[j]
  {
  }

  lemma ValuesWithNode(nodes: seq<CplNode>, k: nat, node: CplNode)
    requires k <= |nodes|
    ensures Values(WithNode(nodes, k, node)) == Insert(Values(nodes), k, node.cpl)
    ensures Members(WithNode(nodes, k, node)) == Members(nodes) + {node}
  {
    var t, v := WithNode(nodes, k, node), Values(nodes);
    InsertedAt(v, k, node.cpl);
    assert |t| == |Insert(v, k, node.cpl)|;
    forall i | 0 <= i < |t|
      ensures t[i].cpl == Insert(v, k, node.cpl)[i]
    {
      hide Insert;
    }
    MembersWithNode(nodes, k, node);
  }

  lemma InsertedAt(list: seq<Cpl>, k: nat, cpl: Cpl)
    requires k <= |list|
    ensures var t := Insert(list, k, cpl);
            && |t| == |list| + 1
            && forall i :: 0 <= i < |t| ==> t[i] == if i < k then list[i] else if i == k then cpl else list[i - 1]
  {
  }

  lemma MembersWithNode(nodes: seq<CplNode>, k: nat, node: CplNode)
    requires k <= |nodes|
    ensures Members(WithNode(nodes, k, node)) == Members(nodes) + {node}
  {
    assert nodes == nodes[..k] + nodes[k..];
  }

  lemma EmptyInsert(list: seq<Cpl>, st: nat, n: nat)
    ensures InsertAt(list, st, n) == 0 ==> list == []
  {
  }

  /** The forward links thread the nodes, and the backward links. */
  ghost predicate Nexts(nodes: seq<CplNode>)
    reads nodes`next
  {
    && (nodes != [] ==> nodes[|nodes| - 1].next == null)
    && (forall i {:trigger nodes[i].next} :: 0 <= i < |nodes| - 1 ==> nodes[i].next == nodes[i + 1])
  }

  ghost predicate Prevs(nodes: seq<CplNode>)
    reads nodes`prev
  {
    && (nodes != [] ==> nodes[0].prev == null)
    && (forall i {:trigger nodes[i].prev} :: 0 < i < |nodes| ==> nodes[i].prev == nodes[i - 1])
  }

  /** head and tail of the list; nodes is the sequence the links thread. */
  class CplList {
    var head: CplNode?
    var tail: CplNode?
    ghost var nodes: seq<CplNode>

    ghost predicate Valid()
      reads this, nodes
    {
      && (forall i, j :: 0 <= i < j < |nodes| ==> nodes[i] != nodes[j])
      && head == At(nodes, 0)
      && tail == At(nodes, |nodes| - 1)
      && Nexts(nodes)
      && Prevs(nodes)
    }

    ghost function Repr(): set<CplNode>
      reads this
    {
      Members(nodes)
    }

    ghost function Contents(): seq<Cpl>
      reads this
    {
      Values(nodes)
    }

    constructor ()
      ensures Valid() && nodes == [] && Contents() == []
    {
      head, tail := null, null;
      nodes := [];
    }

    /** Walk from the tail over at most nLater completions that a new one may overtake. */
    method WalkFromTail(st: nat, nLater: nat) returns (prevCpl: CplNode?, ghost p: int)
      requires Valid()
      ensures p == InsertAt(Contents(), st, nLater) - 1
      ensures prevCpl == At(nodes, p)
    {
      ghost var list := Contents();
      prevCpl := tail;
      var n := nLater;
      p := |nodes| - 1;
      while n > 0
        invariant prevCpl == At(nodes, p)
        invariant nodes == [] ==> p == -1
        invariant nodes != [] ==>
                  0 <= p < |nodes| && WalkBack(list, st, p, n) == WalkBack(list, st, |nodes| - 1, nLater)
      {
        if prevCpl != null {
          assert list[p] == nodes[p].cpl;
          // Responses for the same request must stay in order, and the head may be in flight.
          if prevCpl.cpl.state == st || prevCpl == head {
            break;
          }
          prevCpl := prevCpl.prev;
          p := p - 1;
        }
        n := n - 1;
      }
    }

    /** Link a new node behind prevCpl, or as the only one. */
    method LinkAfter(node: CplNode, prevCpl: CplNode?, ghost p: int)
      requires Valid() && node !in nodes
      requires -1 <= p < |nodes| && prevCpl == At(nodes, p) && (p == -1 ==> nodes == [])
      modifies this, node, nodes
      ensures Valid()
      ensures nodes == WithNode(old(nodes), p + 1, node)
    {
      hide WithNode, Nexts, Prevs;
      WithNodeAt(nodes, p + 1, node);
      LinkNext(node, prevCpl, p);
      LinkPrev(node, prevCpl, p);
      nodes := WithNode(nodes, p + 1, node);
    }

    /** The forward links around the new node. */
    method LinkNext(node: CplNode, prevCpl: CplNode?, ghost p: int)
      requires Valid() && node !in nodes
      requires -1 <= p < |nodes| && prevCpl == At(nodes, p) && (p == -1 ==> nodes == [])
      modifies this`head, node`next, nodes`next
      ensures Nexts(WithNode(nodes, p + 1, node)) && head == WithNode(nodes, p + 1, node)[0]
      ensures node.next == At(nodes, p + 1)
    {
      hide WithNode;
      WithNodeAt(nodes, p + 1, node);
      if prevCpl != null {
        node.next := prevCpl.next;
        prevCpl.next := node;
      } else {
        node.next := null;
        head := node;
      }
    }

    /** The backward links around the new node. */
    method LinkPrev(node: CplNode, prevCpl: CplNode?, ghost p: int)
      requires node !in nodes && Prevs(nodes) && tail == At(nodes, |nodes| - 1)
      requires forall i, j :: 0 <= i < j < |nodes| ==> nodes[i] != nodes[j]
      requires -1 <= p < |nodes| && prevCpl == At(nodes, p) && (p == -1 ==> nodes == [])
      requires node.next == At(nodes, p + 1)
      modifies this`tail, node`prev, nodes`prev
      ensures Prevs(WithNode(nodes, p + 1, node)) && tail == WithNode(nodes, p + 1, node)[|nodes|]
    {
      hide WithNode;
      WithNodeAt(nodes, p + 1, node);
      node.prev := prevCpl;
      if node.next != null {
        node.next.prev := node;
      } else {
        tail := node;
      }
    }

    /** Insert a new completion, letting it overtake up to nLater pending ones. */
    method PushNew(node: CplNode, nLater: nat)
      requires Valid() && node !in nodes
      modifies this, node, nodes
      ensures Valid()
      ensures Contents() == Push(old(Contents()), node.cpl, nLater)
      ensures Repr() == old(Repr()) + {node}
    {
      hide WithNode, Insert, InsertAt, Nexts, Prevs;
      var prevCpl, p := WalkFromTail(node.cpl.state, nLater);
      EmptyInsert(Contents(), node.cpl.state, nLater);
      ValuesWithNode(nodes, p + 1, node);
      LinkAfter(node, prevCpl, p);
    }

    /** Remove the completion that has been sent. */
    method Pop()
      requires Valid() && nodes != []
      modifies this, nodes
      ensures Valid()
      ensures nodes == old(nodes)[1..] && Contents() == old(Contents())[1..] && Repr() <= old(Repr())
    {
      ghost var oldNodes := nodes;
      assert head.next == At(nodes, 1) by {
        assert head == nodes[0];
      }
      head := head.next;
      nodes := nodes[1..];
      if head == null {
        tail := null;
      } else {
        head.prev := null;
      }
    }
  }
}
