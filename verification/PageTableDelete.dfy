/** Deleting a sub-tree releases exactly the nodes below an entry. */
module PageTableDelete {
  import opened PageTableSpec
  import opened PageTableSteps

  /** y is x or lies below it. */
  predicate Under(y: Node, x: Node)
  {
    y.level <= x.level && Up(y.prefix, x.level - y.level) == x.prefix
  }

  /** The entry of x through which y is reached. */
  function Branch(y: Node, x: Node): nat
    requires y.level < x.level
  {
    Up(y.prefix, x.level - 1 - y.level) % 512
  }

  /** The memory of the sub-tree at x. */
  ghost function Gone(tree: Tree, x: Node): set<Word>
  {
    set y | y in tree && Under(y, x) :: tree[y]
  }

  /** The memory of the sub-trees at the first i entries of x. */
  ghost function GoneTo(tree: Tree, x: Node, i: nat): set<Word>
  {
    set y | y in tree && Under(y, x) && y.level < x.level && Branch(y, x) < i :: tree[y]
  }

  lemma UnderChild(y: Node, x: Node, i: nat)
    requires x.level > 0 && i < 512
    ensures Under(y, Child(x, i)) <==> Under(y, x) && y.level < x.level && Branch(y, x) == i
  {
    if y.level < x.level {
      var up := Up(y.prefix, x.level - 1 - y.level);
      assert Up(y.prefix, x.level - y.level) == up / 512;
    }
  }

  lemma UnderSelf(x: Node)
    ensures Under(x, x)
    ensures forall y: Node :: y.level == x.level && Under(y, x) ==> y == x
  {
  }

  lemma GoneStart(tree: Tree, x: Node)
    ensures GoneTo(tree, x, 0) == {}
    ensures x in tree ==> Gone(tree, x) == GoneTo(tree, x, 512) + {tree[x]}
  {
    UnderSelf(x);
    if x in tree {
      forall a | a in Gone(tree, x)
        ensures a in GoneTo(tree, x, 512) + {tree[x]}
      {
        var y :| y in tree && Under(y, x) && tree[y] == a;
        if y.level < x.level {
          assert Branch(y, x) < 512;
        }
      }
    }
  }

  lemma GoneStep(tree: Tree, x: Node, i: nat)
    requires x.level > 0 && i < 512
    ensures GoneTo(tree, x, i + 1) == GoneTo(tree, x, i) + Gone(tree, Child(x, i))
    ensures Gone(tree, Child(x, i)) <= Gone(tree, x) && GoneTo(tree, x, i) <= Gone(tree, x)
  {
    forall y | y in tree
      ensures Under(y, Child(x, i)) <==> Under(y, x) && y.level < x.level && Branch(y, x) == i
    {
      UnderChild(y, x, i);
    }
  }

  lemma GoneDisjoint(tree: Tree, x: Node, i: nat)
    requires Injective(tree) && x.level > 0 && i < 512
    ensures Gone(tree, Child(x, i)) !! GoneTo(tree, x, i)
    ensures x in tree ==> tree[x] !in GoneTo(tree, x, 512)
  {
    forall a | a in Gone(tree, Child(x, i))
      ensures a !in GoneTo(tree, x, i)
    {
      var y :| y in tree && Under(y, Child(x, i)) && tree[y] == a;
      UnderChild(y, x, i);
    }
  }

  /** Nothing lies below an entry that is not a node. */
  lemma NothingBelow(mem: Mem, tree: Tree, x: Node)
    requires NodesOk(mem, tree) && x.level <= 3 && x !in tree
    ensures Gone(tree, x) == {}
  {
    forall y | y in tree && Under(y, x)
      ensures false
    {
      Ancestors(mem, tree, y, x.level - y.level);
    }
  }

  /** The nodes that remain when the sub-tree at x is gone. */
  ghost function Remaining(tree: Tree, x: Node): Tree
  {
    map y | y in tree && !Under(y, x) :: tree[y]
  }

  lemma StaysUnder(y: Node, x: Node)
    requires Under(Parent(y), x)
    ensures Under(y, x)
  {
    UpUp(y.prefix, 1, x.level - y.level - 1);
    assert Up(y.prefix, 1) == y.prefix / 512;
  }

  /** Memory of remaining nodes is not released. */
  lemma Kept(mem: Mem, tree: Tree, x: Node, y: Node)
    requires NodesOk(mem, tree) && Injective(tree) && y in tree && !Under(y, x)
    ensures y in Remaining(tree, x)
    ensures tree[y] in mem && tree[y] !in Gone(tree, x)
  {
    assert NodeOk(mem, tree, y);
  }

  /** The table with the sub-tree below entry i of p released and the entry cleared. */
  ghost function Pruned(mem: Mem, tree: Tree, p: Node, i: nat): Mem
    requires NodesOk(mem, tree) && Injective(tree) && p in tree && p.level > 0 && i < 512 && NodeOk(mem, tree, p)
  {
    NotUnderChild(p, i);
    Kept(mem, tree, Child(p, i), p);
    Write(mem - Gone(tree, Child(p, i)), tree[p], i, ZERO)
  }

  lemma NotUnderChild(p: Node, i: nat)
    requires p.level > 0
    ensures !Under(p, Child(p, i))
  {
  }

  lemma PruneNodes(mem: Mem, tree: Tree, p: Node, i: nat)
    requires NodesOk(mem, tree) && Injective(tree) && p in tree && p.level > 0 && i < 512 && NodeOk(mem, tree, p)
    requires Child(p, i) in tree
    ensures NodesOk(Pruned(mem, tree, p, i), Remaining(tree, Child(p, i)))
  {
    forall y | y in Remaining(tree, Child(p, i))
      ensures NodeOk(Pruned(mem, tree, p, i), Remaining(tree, Child(p, i)), y)
    {
      PruneNode(mem, tree, p, i, y);
    }
  }

  /** What a remaining node holds. */
  lemma PrunedAt(mem: Mem, tree: Tree, p: Node, i: nat, y: Node)
    requires NodesOk(mem, tree) && Injective(tree) && p in tree && p.level > 0 && i < 512 && NodeOk(mem, tree, p)
    requires y in tree && !Under(y, Child(p, i))
    ensures NodeOk(mem, tree, y) && tree[y] in Pruned(mem, tree, p, i)
    ensures Pruned(mem, tree, p, i)[tree[y]] == if y == p then mem[tree[y]][i := ZERO] else mem[tree[y]]
  {
    NotUnderChild(p, i);
    Kept(mem, tree, Child(p, i), y);
    assert NodeOk(mem, tree, y);
    hide Gone;
  }

  lemma PruneNode(mem: Mem, tree: Tree, p: Node, i: nat, y: Node)
    requires NodesOk(mem, tree) && Injective(tree) && p in tree && p.level > 0 && i < 512 && NodeOk(mem, tree, p)
    requires Child(p, i) in tree && y in Remaining(tree, Child(p, i))
    ensures NodeOk(Pruned(mem, tree, p, i), Remaining(tree, Child(p, i)), y)
  {
    hide Pruned, Under, Gone, Injective;
    var x := Child(p, i);
    PrunedAt(mem, tree, p, i, y);
    if y.level < 3 {
      var q := Parent(y);
      if Under(q, x) {
        StaysUnder(y, x);
      }
      PrunedAt(mem, tree, p, i, q);
      UnderSelf(x);
      assert q == p && y.prefix % 512 == i ==> y == x;
    }
  }

  lemma PruneEntries(mem: Mem, tree: Tree, p: Node, i: nat)
    requires NodesOk(mem, tree) && EntriesOk(mem, tree) && Injective(tree)
    requires p in tree && p.level > 0 && i < 512 && NodeOk(mem, tree, p) && Child(p, i) in tree
    requires NodesOk(Pruned(mem, tree, p, i), Remaining(tree, Child(p, i)))
    ensures EntriesOk(Pruned(mem, tree, p, i), Remaining(tree, Child(p, i)))
  {
    var x := Child(p, i);
    var mem', tree' := Pruned(mem, tree, p, i), Remaining(tree, x);
    forall y, j | y in tree' && 0 <= j < 512
      ensures EntryOk(mem', tree', y, j)
    {
      PruneEntryOk(mem, tree, p, i, y, j);
    }
  }

  lemma PruneEntryOk(mem: Mem, tree: Tree, p: Node, i: nat, y: Node, j: nat)
    requires NodesOk(mem, tree) && EntriesOk(mem, tree) && Injective(tree)
    requires p in tree && p.level > 0 && i < 512 && NodeOk(mem, tree, p)
    requires y in tree && !Under(y, Child(p, i)) && j < 512
    requires tree[y] in Pruned(mem, tree, p, i) && |Pruned(mem, tree, p, i)[tree[y]]| == 512
    ensures y in Remaining(tree, Child(p, i))
    ensures EntryOk(Pruned(mem, tree, p, i), Remaining(tree, Child(p, i)), y, j)
  {
    var x := Child(p, i);
    assert NodeOk(mem, tree, y) && EntryOk(mem, tree, y, j);
    Kept(mem, tree, x, y);
    if y.level > 0 && Child(y, j) in tree && Under(Child(y, j), x) {
      OnlyThere(y, j, p, i);
    }
  }

  /** Only entry i of p leads from outside into the sub-tree of its child. */
  lemma OnlyThere(y: Node, j: nat, p: Node, i: nat)
    requires y.level > 0 && p.level > 0 && j < 512 && i < 512
    requires Under(Child(y, j), Child(p, i)) && !Under(y, Child(p, i))
    ensures y == p && j == i
  {
    var z, x := Child(y, j), Child(p, i);
    assert Up(z.prefix, 1) == y.prefix;
    if z.level < x.level {
      UpUp(z.prefix, 1, x.level - z.level - 1);
    }
  }

  /** Releasing the sub-tree below an entry keeps the rest well formed, with no leak. */
  lemma Prune(mem: Mem, tree: Tree, p: Node, i: nat)
    requires WellFormed(mem, tree) && p in tree && p.level > 0 && i < 512 && NodeOk(mem, tree, p)
    requires Child(p, i) in tree
    ensures WellFormed(Pruned(mem, tree, p, i), Remaining(tree, Child(p, i)))
  {
    PruneNodes(mem, tree, p, i);
    PruneEntries(mem, tree, p, i);
    var x := Child(p, i);
    var mem', tree' := Pruned(mem, tree, p, i), Remaining(tree, x);
    assert !Under(ROOT, x) by {
      assert x.level < 3;
    }
    forall a | a in mem'
      ensures a in tree'.Values
    {
      var y :| y in tree && tree[y] == a;
      assert y in tree' && tree'[y] == a;
    }
  }

  /** The pages inside an entry's page are those described by nodes below the entry. */
  lemma InsideUnder(level: nat, n: nat, p: Node, i: nat)
    requires p.level > 0 && i < 512
    ensures Inside(Page(level, n), Page(p.level, 512 * p.prefix + i)) <==> Under(Node(level, n / 512), Child(p, i))
  {
    if level < p.level {
      UpUp(n, 1, p.level - level - 1);
      assert Up(n, 1) == n / 512;
    }
  }

  /** A remaining node keeps its memory, except for the cleared entry. */
  lemma RemainingNode(mem: Mem, tree: Tree, p: Node, i: nat, y: Node)
    requires WellFormed(mem, tree) && p in tree && p.level > 0 && i < 512 && NodeOk(mem, tree, p)
    requires y in tree && !Under(y, Child(p, i))
    ensures var m := Pruned(mem, tree, p, i);
            && tree[y] in m && tree[y] in mem && |mem[tree[y]]| == 512
            && m[tree[y]] == if y == p then mem[tree[y]][i := ZERO] else mem[tree[y]]
  {
    NotUnderChild(p, i);
    Kept(mem, tree, Child(p, i), y);
    assert NodeOk(mem, tree, y);
    assert y != p ==> tree[y] != tree[p];
  }

  lemma RemainingAt(tree: Tree, x: Node, y: Node)
    ensures y in Remaining(tree, x) <==> y in tree && !Under(y, x)
    ensures y in Remaining(tree, x) ==> Remaining(tree, x)[y] == tree[y]
  {
  }

  /** The entries that remain: everything inside the entry's page is gone, nothing else. */
  lemma PruneEntry(mem: Mem, tree: Tree, p: Node, i: nat, level: nat, n: nat)
    requires WellFormed(mem, tree) && p in tree && p.level > 0 && i < 512 && NodeOk(mem, tree, p)
    ensures Entry(Pruned(mem, tree, p, i), Remaining(tree, Child(p, i)), level, n)
         == if Page(level, n) == Page(p.level, 512 * p.prefix + i)
               || Inside(Page(level, n), Page(p.level, 512 * p.prefix + i)) then ZERO
            else Entry(mem, tree, level, n)
  {
    hide EntriesOk, NoLeak, Injective, NodesOk, Pruned, Remaining, Gone;
    var x, y := Child(p, i), Node(level, n / 512);
    SamePlace(p, i, level, n);
    NotUnderChild(p, i);
    InsideUnder(level, n, p, i);
    RemainingAt(tree, x, y);
    hide Inside, Under, WellFormed, Gone, Pruned, Remaining;
    if y in tree && !Under(y, x) {
      RemainingNode(mem, tree, p, i, y);
    }
  }
}
