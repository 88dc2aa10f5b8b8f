/** The hash table of workspace IDs: buckets of singly linked nodes. An ID may be added more
    than once; the last addition is the one that is found and deleted first. */
module WorkspaceTable {

  /** What is recorded for a workspace. */
  datatype Entry = Entry(addr: nat, phys: nat, len: nat, offset: nat, index: nat, flags: int)

  class Node {
    const wsid: nat
    const entry: Entry
    var next: Node?

    constructor (wsid: nat, entry: Entry, next: Node?)
      ensures this.wsid == wsid && this.entry == entry && this.next == next
    {
      this.wsid := wsid;
      this.entry := entry;
      this.next := next;
    }
  }

  function Hash(wsid: nat, buckets: nat): (b: nat)
    requires buckets > 0
    ensures b < buckets
  {
    wsid % 17659 % buckets
  }

  function At(chain: seq<Node>, k: nat): Node?
  {
    if k < |chain| then chain[k] else null
  }

  /** The nodes of a chain follow each other from its head to the end. */
  ghost predicate Linked(chain: seq<Node>, head: Node?)
    reads set k | 0 <= k < |chain| :: chain[k]
  {
    head == At(chain, 0) && forall k :: 0 <= k < |chain| ==> chain[k].next == At(chain, k + 1)
  }

  ghost predicate NoDup(chain: seq<Node>)
  {
    forall j, k :: 0 <= j < k < |chain| ==> chain[j] != chain[k]
  }

  /** The entries of an ID in a chain, latest first. */
  function Of(chain: seq<Node>, wsid: nat): seq<Entry>
  {
    if chain == [] then [] else Own(chain[0], wsid) + Of(chain[1..], wsid)
  }

  function Own(n: Node, wsid: nat): seq<Entry>
  {
    if n.wsid == wsid then [n.entry] else []
  }

  lemma {:induction false} OfNone(chain: seq<Node>, wsid: nat)
    requires forall k :: 0 <= k < |chain| ==> chain[k].wsid != wsid
    ensures Of(chain, wsid) == []
  {
    if chain != [] {
      OfNone(chain[1..], wsid);
    }
  }

  lemma {:induction false} OfConcat(a: seq<Node>, b: seq<Node>, wsid: nat)
    ensures Of(a + b, wsid) == Of(a, wsid) + Of(b, wsid)
  {
    hide Own;
    if a == [] {
      assert a + b == b;
    } else {
      var c := a + b;
      assert c[0] == a[0] && c[1..] == a[1..] + b;
      OfConcat(a[1..], b, wsid);
      assert Of(c, wsid) == Own(a[0], wsid) + (Of(a[1..], wsid) + Of(b, wsid));
    }
  }

  /** The entries of an ID before, at and after node k. */
  lemma OfSplit(chain: seq<Node>, k: nat, wsid: nat)
    requires k < |chain|
    ensures Of(chain, wsid) == Of(chain[..k], wsid) + Own(chain[k], wsid) + Of(chain[k + 1..], wsid)
  {
    var front, back := chain[..k], chain[k..];
    assert chain == front + back;
    assert back[0] == chain[k] && back[1..] == chain[k + 1..];
    assert Of(back, wsid) == Own(chain[k], wsid) + Of(chain[k + 1..], wsid);
    hide Of;
    OfConcat(front, back, wsid);
  }

  /** The first node with an ID holds its latest entry. */
  lemma FirstIs(chain: seq<Node>, k: nat, wsid: nat)
    requires k < |chain| && chain[k].wsid == wsid
    requires forall j :: 0 <= j < k ==> chain[j].wsid != wsid
    ensures Of(chain, wsid) == [chain[k].entry] + Of(chain[k + 1..], wsid)
  {
    hide Of;
    OfSplit(chain, k, wsid);
    OfNone(chain[..k], wsid);
  }

  /** Taking out the first node of an ID drops its latest entry and nothing else. */
  lemma WithoutFirst(chain: seq<Node>, k: nat, wsid: nat)
    requires k < |chain| && chain[k].wsid == wsid
    requires forall j :: 0 <= j < k ==> chain[j].wsid != wsid
    ensures var rest := chain[..k] + chain[k + 1..];
            && Of(chain, wsid) != [] && Of(rest, wsid) == Of(chain, wsid)[1..]
            && forall w: nat :: w != wsid ==> Of(rest, w) == Of(chain, w)
  {
    hide Of;
    var rest := chain[..k] + chain[k + 1..];
    FirstIs(chain, k, wsid);
    OfConcat(chain[..k], chain[k + 1..], wsid);
    OfNone(chain[..k], wsid);
    forall w: nat | w != wsid
      ensures Of(rest, w) == Of(chain, w)
    {
      OfSplit(chain, k, w);
      OfConcat(chain[..k], chain[k + 1..], w);
    }
  }

  predicate LegalBuckets(buckets: int)
  {
    1 <= buckets <= 16384
  }

  /** The chain of every bucket is made of nodes of the table that belong there, each once, and
      every node of the table is in one. */
  ghost predicate Chains(chains: seq<seq<Node>>, repr: set<Node>, buckets: nat)
  {
    && |chains| == buckets > 0
    && (forall b, n :: 0 <= b < buckets && n in chains[b] ==> n in repr && Hash(n.wsid, buckets) == b)
    && (forall n :: n in repr ==> n in chains[Hash(n.wsid, buckets)])
    && (forall b :: 0 <= b < buckets ==> NoDup(chains[b]))
  }

  /** A node is in one chain only. */
  lemma OneChain(chains: seq<seq<Node>>, repr: set<Node>, buckets: nat, b: nat, n: Node)
    requires Chains(chains, repr, buckets) && b < buckets && n in chains[b]
    ensures n in repr && NoDup(chains[b]) && forall c :: 0 <= c < buckets && c != b ==> n !in chains[c]
  {
  }

  lemma ChainsAdd(chains: seq<seq<Node>>, repr: set<Node>, buckets: nat, n: Node)
    requires Chains(chains, repr, buckets) && n !in repr
    ensures var b := Hash(n.wsid, buckets);
            Chains(chains[b := [n] + chains[b]], repr + {n}, buckets)
  {
  }

  lemma ChainsDrop(chains: seq<seq<Node>>, repr: set<Node>, buckets: nat, b: nat, k: nat)
    requires Chains(chains, repr, buckets) && b < buckets && k < |chains[b]|
    ensures Chains(chains[b := chains[b][..k] + chains[b][k + 1..]], repr - {chains[b][k]}, buckets)
  {
    var chain, gone := chains[b], chains[b][k];
    var rest := chain[..k] + chain[k + 1..];
    WithoutNode(chain, k);
    OneChain(chains, repr, buckets, b, gone);
    hide NoDup;
    var now := chains[b := rest];
    forall c, n | 0 <= c < buckets && n in now[c]
      ensures n in repr - {gone} && Hash(n.wsid, buckets) == c
    {
      assert n in chains[c];
    }
  }

  lemma WithoutNode(chain: seq<Node>, k: nat)
    requires k < |chain| && NoDup(chain)
    ensures NoDup(chain[..k] + chain[k + 1..])
    ensures forall n :: n in chain[..k] + chain[k + 1..] <==> n in chain && n != chain[k]
  {
    assert chain == chain[..k] + [chain[k]] + chain[k + 1..];
  }

  /** Taking the first node of an ID out of its bucket drops that ID's latest entry only. */
  lemma StacksDrop(chains: seq<seq<Node>>, buckets: nat, wsid: nat, k: nat)
    requires |chains| == buckets > 0
    requires var chain := chains[Hash(wsid, buckets)];
             k < |chain| && chain[k].wsid == wsid && forall j :: 0 <= j < k ==> chain[j].wsid != wsid
    ensures var b := Hash(wsid, buckets);
            var now := chains[b := chains[b][..k] + chains[b][k + 1..]];
            && Of(chains[b], wsid) != [] && Of(chains[b], wsid)[0] == chains[b][k].entry
            && forall w: nat {:trigger Hash(w, buckets)} :: Of(now[Hash(w, buckets)], w)
                 == if w == wsid then Of(chains[b], w)[1..] else Of(chains[Hash(w, buckets)], w)
  {
    hide Of, Hash;
    WithoutFirst(chains[Hash(wsid, buckets)], k, wsid);
    FirstIs(chains[Hash(wsid, buckets)], k, wsid);
  }

  class Tracker {
    const buckets: nat
    const table: array<Node?>
    ghost var chains: seq<seq<Node>>
    ghost var repr: set<Node>

    ghost predicate Valid()
      reads this, table, repr
    {
      && LegalBuckets(buckets) && table.Length == |chains| == buckets
      && Chains(chains, repr, buckets)
      && (forall b :: 0 <= b < buckets ==> Linked(chains[b], table[b]))
    }

    /** The entries added for an ID and not deleted, latest first. */
    ghost function Stack(wsid: nat): seq<Entry>
      requires buckets > 0 && |chains| == buckets
      reads this
    {
      Of(chains[Hash(wsid, buckets)], wsid)
    }

    constructor (buckets: nat)
      requires LegalBuckets(buckets)
      ensures Valid() && this.buckets == buckets && fresh(table) && repr == {}
      ensures forall w: nat :: Stack(w) == []
    {
      this.buckets := buckets;
      table := new Node?[buckets](_ => null);
      chains := seq(buckets, i => []);
      repr := {};
    }

    /** Record an entry for an ID; false when there is no memory for it. */
    method Add(wsid: nat, entry: Entry) returns (ok: bool)
      requires Valid()
      modifies this, table
      ensures Valid() && fresh(repr - old(repr))
      ensures Stack(wsid) == if ok then [entry] + old(Stack(wsid)) else old(Stack(wsid))
      ensures forall w: nat :: w != wsid ==> Stack(w) == old(Stack(w))
      ensures forall b :: 0 <= b < buckets && (!ok || b != wsid % 17659 % buckets) ==> table[b] == old(table[b])
      ensures ok ==>
                var n := table[wsid % 17659 % buckets];
                n != null && n.wsid == wsid && n.entry == entry && n.next == old(table[wsid % 17659 % buckets])
    {
      hide Chains;
      var idx := Hash(wsid, buckets);
      ok := *;
      if !ok {
        return;
      }
      var tmp := new Node(wsid, entry, table[idx]);
      ghost var was := chains;
      table[idx] := tmp;
      chains := chains[idx := [tmp] + chains[idx]];
      ChainsAdd(was, repr, buckets, tmp);
      repr := repr + {tmp};
      assert chains[idx][1..] == was[idx];
      AddedLinks(was[idx], tmp);
      forall b | 0 <= b < buckets && b != idx
        ensures Linked(was[b], table[b])
      {
        assert old(Linked(was[b], table[b]));
      }
    }

    static lemma AddedLinks(chain: seq<Node>, n: Node)
      requires Linked(chain, n.next)
      ensures Linked([n] + chain, n)
    {
    }

    /** The node with an ID's latest entry, or null. */
    method Find(wsid: nat) returns (n: Node?)
      requires Valid()
      ensures n == null <==> Stack(wsid) == []
      ensures n != null ==> n in repr && n.wsid == wsid && n.entry == Stack(wsid)[0]
    {
      hide Chains, NoDup, Of;
      var idx := Hash(wsid, buckets);
      ghost var chain := chains[idx];
      ghost var k := 0;
      n := table[idx];
      while n != null && n.wsid != wsid
        invariant 0 <= k <= |chain| && n == At(chain, k)
        invariant forall j :: 0 <= j < k ==> chain[j].wsid != wsid
        decreases |chain| - k
      {
        n := n.next;
        k := k + 1;
      }
      if n == null {
        OfNone(chain, wsid);
      } else {
        FirstIs(chain, k, wsid);
        OneChain(chains, repr, buckets, idx, n);
      }
    }

    /** Unlink the first node of a bucket and release it. */
    method UnlinkHead(idx: nat)
      requires Valid() && idx < buckets && chains[idx] != []
      modifies this`chains, this`repr, table
      ensures Valid() && chains == old(chains)[idx := old(chains)[idx][..0] + old(chains)[idx][1..]]
      ensures repr == old(repr) - {old(chains)[idx][0]}
    {
      hide Chains, NoDup;
      ghost var was, gone := chains, chains[idx][0];
      ChainsDrop(was, repr, buckets, idx, 0);
      assert was[idx][..0] + was[idx][1..] == was[idx][1..];
      table[idx] := table[idx].next;
      chains := chains[idx := chains[idx][1..]];
      repr := repr - {gone};
      forall b | 0 <= b < buckets && b != idx
        ensures Linked(was[b], table[b])
      {
        assert old(Linked(was[b], table[b]));
      }
    }

    /** Unlink the node after node k of a bucket and release it. */
    method UnlinkAfter(idx: nat, n: Node, ghost k: nat)
      requires Valid() && idx < buckets && k + 1 < |chains[idx]| && n == chains[idx][k]
      modifies this`chains, this`repr, n
      ensures Valid() && chains == old(chains)[idx := old(chains)[idx][..k + 1] + old(chains)[idx][k + 2..]]
      ensures repr == old(repr) - {old(chains)[idx][k + 1]}
    {
      hide NoDup, Chains;
      ghost var was, gone := chains, chains[idx][k + 1];
      ChainsDrop(was, repr, buckets, idx, k + 1);
      OneChain(was, repr, buckets, idx, n);
      SkipNext(was[idx], table[idx], n, k);
      chains := chains[idx := was[idx][..k + 1] + was[idx][k + 2..]];
      repr := repr - {gone};
      forall b | 0 <= b < buckets && b != idx
        ensures Linked(was[b], table[b])
      {
        assert old(Linked(was[b], table[b]));
      }
    }

    /** Let a node's successor's successor follow it. */
    static method SkipNext(ghost chain: seq<Node>, ghost head: Node?, n: Node, ghost k: nat)
      requires Linked(chain, head) && NoDup(chain) && k + 1 < |chain| && n == chain[k]
      modifies n`next
      ensures Linked(chain[..k + 1] + chain[k + 2..], head)
    {
      n.next := n.next.next;
    }

    /** Node k of a bucket's chain, before the first with the ID; every earlier one has another
        ID. The last node if there is none. */
    method FindBefore(idx: nat, wsid: nat) returns (n: Node, ghost k: nat)
      requires Valid() && idx < buckets && chains[idx] != [] && chains[idx][0].wsid != wsid
      ensures k < |chains[idx]| && n == chains[idx][k]
      ensures forall j :: 0 <= j <= k ==> chains[idx][j].wsid != wsid
      ensures k + 1 < |chains[idx]| ==> chains[idx][k + 1].wsid == wsid
    {
      hide Chains, NoDup;
      n, k := table[idx], 0;
      while n.next != null && n.next.wsid != wsid
        invariant k < |chains[idx]| && n == chains[idx][k]
        invariant forall j :: 0 <= j <= k ==> chains[idx][j].wsid != wsid
        decreases |chains[idx]| - k
      {
        n := n.next;
        k := k + 1;
      }
    }

    /** Delete an ID's latest entry and release its node. */
    method Del(wsid: nat) returns (ok: bool, ghost gone: Node?)
      requires Valid()
      modifies this, table, repr
      ensures Valid()
      ensures ok <==> old(Stack(wsid)) != []
      ensures Stack(wsid) == if ok then old(Stack(wsid))[1..] else []
      ensures forall w: nat :: w != wsid ==> Stack(w) == old(Stack(w))
      ensures ok ==> gone != null && gone in old(repr) && gone.wsid == wsid && gone.entry == old(Stack(wsid))[0]
      ensures repr == if ok && gone != null then old(repr) - {gone} else old(repr)
    {
      hide NoDup, Of, Chains, Hash;
      var idx := Hash(wsid, buckets);
      ghost var chain := chains[idx];
      gone := null;
      if table[idx] == null {
        OfNone(chain, wsid);
        return false, null;
      }
      if table[idx].wsid == wsid {
        StacksDrop(chains, buckets, wsid, 0);
        OneChain(chains, repr, buckets, idx, chain[0]);
        UnlinkHead(idx);
        return true, chain[0];
      }
      ghost var k;
      var tmp;
      tmp, k := FindBefore(idx, wsid);
      if tmp.next == null {
        OfNone(chain, wsid);
        return false, null;
      }
      StacksDrop(chains, buckets, wsid, k + 1);
      OneChain(chains, repr, buckets, idx, chain[k]);
      OneChain(chains, repr, buckets, idx, chain[k + 1]);
      UnlinkAfter(idx, tmp, k);
      return true, chain[k + 1];
    }

    /** Visit and release every node; each is visited once, whatever the visitor. */
    method Cleanup() returns (visited: seq<Node>)
      requires Valid()
      ensures NoDup(visited)
      ensures forall n :: n in visited <==> n in repr
    {
      hide Chains;
      visited := [];
      var idx := 0;
      while idx < buckets
        invariant 0 <= idx <= buckets
        invariant visited == Flat(chains[..idx])
      {
        ghost var chain := chains[idx];
        ghost var k := 0;
        var tmp := table[idx];
        while tmp != null
          invariant 0 <= k <= |chain| && tmp == At(chain, k)
          invariant visited == Flat(chains[..idx]) + chain[..k]
          decreases |chain| - k
        {
          visited := visited + [tmp];
          tmp := tmp.next;
          k := k + 1;
        }
        assert chain[..k] == chain;
        assert chains[..idx + 1][..idx] == chains[..idx];
        idx := idx + 1;
      }
      assert chains[..idx] == chains;
      FlatOnce(chains, repr, buckets);
      FlatMembers(chains);
      ReprVisited(visited);
    }

    lemma ReprVisited(visited: seq<Node>)
      requires Valid() && forall n :: n in visited <==> exists b :: 0 <= b < |chains| && n in chains[b]
      ensures forall n :: n in visited <==> n in repr
    {
      hide NoDup, Linked;
    }
  }

  function Flat(chains: seq<seq<Node>>): seq<Node>
  {
    if chains == [] then [] else Flat(chains[..|chains| - 1]) + chains[|chains| - 1]
  }

  lemma {:induction false} FlatMembers(chains: seq<seq<Node>>)
    ensures forall n :: n in Flat(chains) <==> exists b :: 0 <= b < |chains| && n in chains[b]
  {
    if chains != [] {
      var front := chains[..|chains| - 1];
      FlatMembers(front);
      assert chains == front + [chains[|chains| - 1]];
    }
  }

  /** A table, or none for an unusable number of buckets. */
  method Init(buckets: int) returns (t: Tracker?)
    ensures t == null <==> buckets < 1 || buckets > 0x4000
    ensures t != null ==> t.Valid() && t.buckets == buckets && forall w: nat :: t.Stack(w) == []
  {
    if !LegalBuckets(buckets) {
      return null;
    }
    t := new Tracker(buckets);
  }

  lemma FlatOnce(chains: seq<seq<Node>>, repr: set<Node>, buckets: nat)
    requires Chains(chains, repr, buckets)
    ensures NoDup(Flat(chains))
  {
    FlatNoDup(chains, buckets);
  }

  /** Chains whose nodes hash to their own bucket have no node in common, and none twice. */
  lemma {:induction false} FlatNoDup(chains: seq<seq<Node>>, buckets: nat)
    requires buckets > 0
    requires forall b :: 0 <= b < |chains| ==> NoDup(chains[b])
    requires forall b, n :: 0 <= b < |chains| && n in chains[b] ==> Hash(n.wsid, buckets) == b
    ensures NoDup(Flat(chains))
    ensures forall n :: n in Flat(chains) ==> Hash(n.wsid, buckets) < |chains|
  {
    if chains != [] {
      var front := chains[..|chains| - 1];
      assert forall b :: 0 <= b < |front| ==> front[b] == chains[b];
      FlatNoDup(front, buckets);
      NoDupConcat(Flat(front), chains[|chains| - 1]);
    }
  }

  lemma NoDupConcat(a: seq<Node>, b: seq<Node>)
    requires NoDup(a) && NoDup(b) && forall n :: n in a ==> n !in b
    ensures NoDup(a + b)
  {
    forall j, k | 0 <= j < k < |a + b|
      ensures (a + b)[j] != (a + b)[k]
    {
      if j < |a| <= k {
        assert a[j] in a && b[k - |a|] in b;
      }
    }
  }
}
