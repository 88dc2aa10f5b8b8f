/** What each kind of change to the table's memory does to its well-formedness and entries. */
module PageTableSteps {
  import opened PageTableSpec

  /** The node of a level that describes 4KB page p. */
  function At(p: nat, level: nat): Node
  {
    Node(level, Up(p, level + 1))
  }

  /** Every walk starts at the root. */
  lemma StartAtRoot(mem: Mem, tree: Tree, p: nat)
    requires WellFormed(mem, tree) && p < PageCount(0)
    ensures At(p, 3) == ROOT && ROOT in tree
  {
    UpDivides(p);
  }

  function Zeros(): (s: seq<Word>)
    ensures |s| == 512 && forall i :: 0 <= i < 512 ==> s[i] == ZERO
  {
    seq(512, i => ZERO)
  }

  /** Write one entry of a node. */
  function Write(mem: Mem, a: Word, i: nat, w: Word): Mem
    requires a in mem && i < |mem[a]|
  {
    var node: seq<Word> := mem[a][i := w];
    mem[a := node]
  }

  /** The entry read on the way down leads to the next node, or there is none below. */
  lemma WalkDown(mem: Mem, tree: Tree, p: nat, level: nat)
    requires WellFormed(mem, tree) && 0 < level <= 3 && At(p, level) in tree
    ensures tree[At(p, level)] in mem && |mem[tree[At(p, level)]]| == 512
    ensures var w := mem[tree[At(p, level)]][Up(p, level) % 512];
            && w == Entry(mem, tree, level, Up(p, level))
            && (At(p, level - 1) in tree <==> IsPointer(w))
            && (At(p, level - 1) in tree ==> tree[At(p, level - 1)] == w)
            && (IsTerminal(w) ==> level <= 2 && RefCount(w) > 0)
  {
    var x, i := At(p, level), Up(p, level) % 512;
    assert NodeOk(mem, tree, x);
    assert Up(p, level + 1) == Up(p, level) / 512;
    assert EntryOk(mem, tree, x, i);
    assert Child(x, i) == At(p, level - 1);
    if At(p, level - 1) in tree {
      assert NodeOk(mem, tree, At(p, level - 1));
    }
  }

  /** Without the node of a level there is none further down. */
  lemma NotBelow(mem: Mem, tree: Tree, p: nat, level: nat, below: nat)
    requires WellFormed(mem, tree) && below <= level <= 3 && At(p, level) !in tree
    ensures At(p, below) !in tree
    ensures Entry(mem, tree, below, Up(p, below)) == ZERO
  {
    hide EntriesOk, Injective, NoLeak;
    assert Up(p, below + 1) == Up(p, below) / 512;
    if At(p, below) in tree {
      Ancestors(mem, tree, At(p, below), level - below);
      UpUp(p, below + 1, level - below);
      assert false;
    }
  }

  lemma SamePlace(x: Node, i: nat, level: nat, n: nat)
    requires i < 512
    ensures level == x.level && n == 512 * x.prefix + i <==> x == Node(level, n / 512) && i == n % 512
  {
  }

  lemma WriteEntryAt(mem: Mem, tree: Tree, x: Node, i: nat, w: Word, level: nat, n: nat)
    requires NodesOk(mem, tree) && Injective(tree) && x in tree && i < 512
    requires tree[x] in mem && |mem[tree[x]]| == 512
    ensures Entry(Write(mem, tree[x], i, w), tree, level, n)
         == if level == x.level && n == 512 * x.prefix + i then w else Entry(mem, tree, level, n)
  {
    SamePlace(x, i, level, n);
    var y := Node(level, n / 512);
    if y in tree && y != x {
      assert NodeOk(mem, tree, y) && tree[y] != tree[x];
    }
  }

  /** Writing an entry changes that entry and no other. */
  lemma WriteEntry(mem: Mem, tree: Tree, x: Node, i: nat, w: Word)
    requires WellFormed(mem, tree) && x in tree && i < 512
    ensures NodeOk(mem, tree, x)
    ensures var mem' := Write(mem, tree[x], i, w);
            forall level: nat, n: nat :: Entry(mem', tree, level, n)
              == if level == x.level && n == 512 * x.prefix + i then w else Entry(mem, tree, level, n)
  {
    assert NodeOk(mem, tree, x);
    forall level: nat, n: nat
      ensures Entry(Write(mem, tree[x], i, w), tree, level, n)
           == if level == x.level && n == 512 * x.prefix + i then w else Entry(mem, tree, level, n)
    {
      WriteEntryAt(mem, tree, x, i, w, level, n);
    }
  }

  lemma SetLeafEntry(mem: Mem, tree: Tree, x: Node, i: nat, w: Word, y: Node, j: nat)
    requires NodesOk(mem, tree) && Injective(tree) && x in tree && i < 512 && x.level <= 2
    requires y in tree && j < 512 && NodeOk(mem, tree, x) && NodeOk(mem, tree, y)
    requires w == ZERO || (IsTerminal(w) && (x.level > 0 ==> RefCount(w) > 0))
    requires EntryOk(mem, tree, y, j)
    ensures EntryOk(Write(mem, tree[x], i, w), tree, y, j)
  {
    hide NodesOk;
  }

  /** Replacing an empty or page entry by an empty or page entry keeps the tree well formed. */
  lemma SetLeaf(mem: Mem, tree: Tree, x: Node, i: nat, w: Word)
    requires WellFormed(mem, tree) && x in tree && i < 512 && x.level <= 2
    requires NodeOk(mem, tree, x)
    requires mem[tree[x]][i] == ZERO || IsTerminal(mem[tree[x]][i])
    requires w == ZERO || (IsTerminal(w) && (x.level > 0 ==> RefCount(w) > 0))
    ensures WellFormed(Write(mem, tree[x], i, w), tree)
  {
    hide EntryOk;
    SetLeafNodes(mem, tree, x, i, w);
    var mem' := Write(mem, tree[x], i, w);
    forall y, j | y in tree && 0 <= j < 512
      ensures EntryOk(mem', tree, y, j)
    {
      assert EntryOk(mem, tree, y, j) && NodeOk(mem, tree, y);
      SetLeafEntry(mem, tree, x, i, w, y, j);
    }
  }

  lemma SetLeafNodes(mem: Mem, tree: Tree, x: Node, i: nat, w: Word)
    requires NodesOk(mem, tree) && Injective(tree) && x in tree && i < 512
    requires NodeOk(mem, tree, x)
    requires mem[tree[x]][i] == ZERO || IsTerminal(mem[tree[x]][i])
    ensures NodesOk(Write(mem, tree[x], i, w), tree)
  {
    var mem' := Write(mem, tree[x], i, w);
    forall y | y in tree
      ensures NodeOk(mem', tree, y)
    {
      assert NodeOk(mem, tree, y);
    }
  }

  /** The table with a fresh empty node linked below an entry. */
  function Linked(mem: Mem, at: Word, i: nat, a: Word): Mem
    requires at in mem && i < |mem[at]|
  {
    Write(mem, at, i, a)[a := Zeros()]
  }

  lemma AddNodeOld(mem: Mem, tree: Tree, x: Node, i: nat, a: Word, y: Node)
    requires x in tree && i < 512 && x.level > 0 && NodeOk(mem, tree, x)
    requires mem[tree[x]][i] == ZERO && Child(x, i) !in tree && a !in mem
    requires y in tree && NodeOk(mem, tree, y)
    ensures tree[y] != a && NodeOk(Linked(mem, tree[x], i, a), tree[Child(x, i) := a], y)
  {
  }

  lemma AddNodeNew(mem: Mem, tree: Tree, x: Node, i: nat, a: Word)
    requires x in tree && i < 512 && x.level > 0 && NodeOk(mem, tree, x)
    requires Child(x, i) !in tree && a !in mem && IsPointer(a)
    ensures NodeOk(Linked(mem, tree[x], i, a), tree[Child(x, i) := a], Child(x, i))
  {
    assert Parent(Child(x, i)) == x;
  }

  lemma AddNodeNodes(mem: Mem, tree: Tree, x: Node, i: nat, a: Word)
    requires WellFormed(mem, tree) && x in tree && i < 512 && 0 < x.level <= 3
    requires NodeOk(mem, tree, x) && mem[tree[x]][i] == ZERO && Child(x, i) !in tree
    requires a !in mem && IsPointer(a)
    ensures NodesOk(Linked(mem, tree[x], i, a), tree[Child(x, i) := a])
    ensures forall y :: y in tree ==> tree[y] != a
  {
    hide EntriesOk, Injective, NoLeak, Linked, Child;
    var z := Child(x, i);
    var mem', tree' := Linked(mem, tree[x], i, a), tree[z := a];
    forall y | y in tree
      ensures tree[y] != a && NodeOk(mem', tree', y)
    {
      assert NodeOk(mem, tree, y);
      AddNodeOld(mem, tree, x, i, a, y);
    }
    AddNodeNew(mem, tree, x, i, a);
  }

  /** Linking a fresh empty node below an empty entry keeps the tree well formed. */
  lemma AddNode(mem: Mem, tree: Tree, x: Node, i: nat, a: Word)
    requires WellFormed(mem, tree) && x in tree && i < 512 && 0 < x.level <= 3
    requires NodeOk(mem, tree, x) && mem[tree[x]][i] == ZERO && Child(x, i) !in tree
    requires a !in mem && IsPointer(a)
    ensures WellFormed(Linked(mem, tree[x], i, a), tree[Child(x, i) := a])
  {
    AddNodeNodes(mem, tree, x, i, a);
    AddNodeOthers(mem, tree, x, i, a);
    var z := Child(x, i);
    var mem', tree' := Linked(mem, tree[x], i, a), tree[z := a];
    forall b | b in mem'
      ensures b in tree'.Values
    {
      if b == a {
        assert tree'[z] == b;
      } else {
        var y :| y in tree && tree[y] == b;
        assert tree'[y] == b;
      }
    }
  }

  lemma AddNodeOthers(mem: Mem, tree: Tree, x: Node, i: nat, a: Word)
    requires NodesOk(mem, tree) && EntriesOk(mem, tree) && Injective(tree)
    requires x in tree && i < 512 && 0 < x.level <= 3
    requires NodeOk(mem, tree, x) && Child(x, i) !in tree && a !in mem
    requires NodesOk(Linked(mem, tree[x], i, a), tree[Child(x, i) := a])
    ensures EntriesOk(Linked(mem, tree[x], i, a), tree[Child(x, i) := a])
  {
    var z := Child(x, i);
    var mem', tree' := Linked(mem, tree[x], i, a), tree[z := a];
    forall y, j | y in tree' && 0 <= j < 512
      ensures EntryOk(mem', tree', y, j)
    {
      if y != z {
        assert NodeOk(mem, tree, y) && EntryOk(mem, tree, y, j);
      }
    }
  }

  lemma AddNodeEntries(mem: Mem, tree: Tree, x: Node, i: nat, a: Word)
    requires WellFormed(mem, tree) && x in tree && i < 512 && 0 < x.level <= 3
    requires NodeOk(mem, tree, x) && mem[tree[x]][i] == ZERO && Child(x, i) !in tree
    requires a !in mem && IsPointer(a)
    ensures forall level: nat, n: nat :: Entry(Linked(mem, tree[x], i, a), tree[Child(x, i) := a], level, n)
              == if level == x.level && n == 512 * x.prefix + i then a else Entry(mem, tree, level, n)
  {
    var mem', tree' := Linked(mem, tree[x], i, a), tree[Child(x, i) := a];
    WriteEntry(mem, tree, x, i, a);
    forall level: nat, n: nat
      ensures Entry(mem', tree', level, n) == Entry(Write(mem, tree[x], i, a), tree, level, n)
    {
      var y := Node(level, n / 512);
      if y in tree {
        assert NodeOk(mem, tree, y);
      }
    }
  }
}
