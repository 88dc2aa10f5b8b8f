/** The page table code: walks over node memory that update entries in place. */
module PageTable {
  import opened Wrappers
  import opened PageTableSpec
  import opened PageTableSteps
  import opened PageTableDelete
  import opened PageTableMap

  class PageTable {
    /** Node memory, as mapped and unmapped by the table. */
    var mem: Mem
    const root: Word
    ghost var tree: Tree

    ghost predicate Valid()
      reads this
    {
      WellFormed(mem, tree) && tree[ROOT] == root
    }

    ghost function Pages(): map<Page, Pin>
      reads this
    {
      Table(mem, tree)
    }

    /** An empty table whose root node is at address a. */
    constructor (a: Word)
      requires IsPointer(a)
      ensures Valid() && Pages() == map[] && NothingStale(mem, tree)
    {
      root := a;
      mem := map[a := Zeros()];
      tree := map[ROOT := a];
      new;
      assert NodeOk(mem, tree, ROOT);
      assert forall i :: 0 <= i < 512 ==> EntryOk(mem, tree, ROOT, i);
    }

    /** Ask the system for a zeroed node: any unused user-space address, or a failure. */
    method Mmap() returns (a: Option<Word>)
      ensures a.Some? ==> IsPointer(a.value) && a.value !in mem
    {
      var w: Word := *;
      if IsPointer(w) && w !in mem {
        a := Some(w);
      } else {
        a := None;
      }
    }

    /** The stored address of the page covering an address and its level, or 0 and -1. */
    method LookupAddr(addr: Address) returns (va: nat, level: int)
      requires Valid()
      ensures -1 <= level <= 2
      ensures level == -1 ==> va == 0 && forall k: nat :: k <= 2 ==> Covering(PageNo(addr), k) !in Pages()
      ensures level >= 0 ==>
                && Covering(PageNo(addr), level) in Pages()
                && va == Pages()[Covering(PageNo(addr), level)].va
    {
      hide EntriesOk, NoLeak, Injective, Table, Covering;
      ghost var p := PageNo(addr);
      StartAtRoot(mem, tree, p);
      var l := 3;
      var pt := root;
      while l > 0
        invariant 0 <= l <= 3
        invariant if pt == ZERO then At(p, l) !in tree else At(p, l) in tree && pt == tree[At(p, l)]
        invariant forall k: nat :: l < k <= 2 ==> Covering(p, k) !in Pages()
      {
        if pt == ZERO {
          NothingCovers(p, l);
          return 0, -1;
        }
        WalkDown(mem, tree, p, l);
        IdxIsUp(addr, l);
        EntryOnPath(p, l);
        pt := mem[pt][Idx(addr, l)];
        if IsTerminal(pt) {
          return Addr(pt), l;
        }
        l := l - 1;
      }
      IdxIsUp(addr, 0);
      EntryOnPath(p, 0);
      if pt != ZERO {
        LastEntry(p);
        var i := Idx(addr, 0);
        if RefCount(mem[pt][i]) != 0 {
          return Addr(mem[pt][i]), 0;
        }
      } else {
        NothingCovers(p, 0);
      }
      return 0, -1;
    }

    /** The entry read from a lowest-level node. */
    lemma LastEntry(p: nat)
      requires Valid() && At(p, 0) in tree
      ensures tree[At(p, 0)] in mem && |mem[tree[At(p, 0)]]| == 512
      ensures var w := mem[tree[At(p, 0)]][Up(p, 0) % 512];
              w == Entry(mem, tree, 0, Up(p, 0)) && (w == ZERO || IsTerminal(w))
    {
      assert NodeOk(mem, tree, At(p, 0));
      assert Up(p, 1) == Up(p, 0) / 512;
      assert EntryOk(mem, tree, At(p, 0), Up(p, 0) % 512);
    }

    /** Once the walk runs out of nodes, no page of that level or below covers the address. */
    lemma NothingCovers(p: nat, l: nat)
      requires Valid() && p < PageCount(0) && l <= 3 && At(p, l) !in tree
      ensures forall k: nat :: k <= l && k <= 2 ==> Covering(p, k) !in Pages()
    {
      forall k: nat | k <= l && k <= 2
        ensures Covering(p, k) !in Pages()
      {
        NotBelow(mem, tree, p, l, k);
        EntryOnPath(p, k);
      }
    }

    /** Release the sub-tree behind an entry. */
    method DeleteTree(w: Word, level: nat, ghost x: Node, ghost full: Mem, ghost t: Tree, ghost gone: set<Word>)
      requires WellFormed(full, t) && x.level == level <= 3
      requires IsPointer(w) <==> x in t
      requires x in t ==> t[x] == w
      requires gone !! Gone(t, x) && mem == full - gone
      modifies this`mem
      ensures mem == full - (gone + Gone(t, x))
      decreases level, 1
    {
      hide Injective, EntriesOk, NoLeak;
      if w == ZERO || IsTerminal(w) {
        NothingBelow(full, t, x);
        assert gone + Gone(t, x) == gone;
        return;
      }
      hide WellFormed, Gone, GoneTo, Injective;
      RootOfSubtree(full, t, x);
      if level > 0 {
        for i := 0 to 512
          invariant mem == full - (gone + GoneTo(t, x, i))
        {
          DeleteBranch(w, i, level, x, full, t, gone);
        }
      }
      RootLast(full, gone, GoneTo(t, x, 512), w);
      mem := mem - {w};
    }

    /** Release the sub-tree behind entry i of a node. */
    method DeleteBranch(w: Word, i: nat, level: nat, ghost x: Node, ghost full: Mem, ghost t: Tree,
                        ghost gone: set<Word>)
      requires WellFormed(full, t) && x.level == level && 0 < level <= 3 && x in t && t[x] == w && i < 512
      requires gone !! Gone(t, x) && w in Gone(t, x) && mem == full - (gone + GoneTo(t, x, i))
      modifies this`mem
      ensures mem == full - (gone + GoneTo(t, x, i + 1))
      decreases level, 0
    {
      hide WellFormed, Gone, GoneTo, Injective;
      BranchOfSubtree(full, t, x, i);
      BranchSets(gone, Gone(t, x), GoneTo(t, x, i), Gone(t, Child(x, i)), w);
      StillThere(full, gone + GoneTo(t, x, i), w);
      DeleteTree(mem[w][i], level - 1, Child(x, i), full, t, gone + GoneTo(t, x, i));
    }

    static lemma BranchSets(gone: set<Word>, whole: set<Word>, part: set<Word>, child: set<Word>, w: Word)
      requires gone !! whole && child <= whole && child !! part && w !in part && w in whole
      ensures gone + part !! child && w !in gone + part
      ensures gone + part + child == gone + (part + child)
    {
    }

    static lemma StillThere(full: Mem, gone: set<Word>, w: Word)
      requires w in full && w !in gone
      ensures w in full - gone && (full - gone)[w] == full[w]
    {
    }

    static lemma RootLast(full: Mem, gone: set<Word>, part: set<Word>, w: Word)
      ensures full - (gone + part) - {w} == full - (gone + (part + {w}))
    {
    }

    static lemma RootOfSubtree(full: Mem, t: Tree, x: Node)
      requires WellFormed(full, t) && x in t
      ensures NodeOk(full, t, x) && t[x] in Gone(t, x)
      ensures GoneTo(t, x, 0) == {} && Gone(t, x) == GoneTo(t, x, 512) + {t[x]}
      ensures x.level == 0 ==> Gone(t, x) == {t[x]}
    {
      GoneStart(t, x);
      UnderSelf(x);
      assert NodeOk(full, t, x);
      assert x.level == 0 ==> GoneTo(t, x, 512) == {};
    }

    static lemma BranchOfSubtree(full: Mem, t: Tree, x: Node, i: nat)
      requires WellFormed(full, t) && x in t && 0 < x.level <= 3 && i < 512
      ensures GoneTo(t, x, i + 1) == GoneTo(t, x, i) + Gone(t, Child(x, i))
      ensures Gone(t, Child(x, i)) <= Gone(t, x) && Gone(t, Child(x, i)) !! GoneTo(t, x, i)
      ensures t[x] !in GoneTo(t, x, i)
      ensures NodeOk(full, t, x)
      ensures IsPointer(full[t[x]][i]) <==> Child(x, i) in t
      ensures Child(x, i) in t ==> t[Child(x, i)] == full[t[x]][i]
    {
      GoneStep(t, x, i);
      GoneDisjoint(t, x, i);
      ChildEntry(full, t, x, i);
    }

    /** An entry points at a node exactly when there is a node below it. */
    static lemma ChildEntry(full: Mem, t: Tree, x: Node, i: nat)
      requires WellFormed(full, t) && x in t && 0 < x.level <= 3 && i < 512
      ensures NodeOk(full, t, x)
      ensures var w := full[t[x]][i];
              && (IsPointer(w) <==> Child(x, i) in t)
              && (Child(x, i) in t ==> t[Child(x, i)] == w)
    {
      assert NodeOk(full, t, x) && EntryOk(full, t, x, i);
      if Child(x, i) in t {
        assert NodeOk(full, t, Child(x, i)) && Parent(Child(x, i)) == x;
      }
    }

    /** Create the missing node below an empty entry. */
    method AddBelow(pt: Word, i: nat, a: Word, ghost x: Node)
      requires Valid() && x in tree && pt == tree[x] && i < 512 && 0 < x.level <= 3
      requires NodeOk(mem, tree, x) && mem[pt][i] == ZERO && Child(x, i) !in tree
      requires IsPointer(a) && a !in mem
      modifies this
      ensures Valid() && Pages() == old(Pages())
      ensures tree == old(tree)[Child(x, i) := a]
      ensures SameStale(old(mem), old(tree), mem, tree)
      ensures x in tree && pt == tree[x] && pt in mem && |mem[pt]| == 512 && mem[pt][i] == a
    {
      assert ROOT in tree && x != Child(x, i);
      AddedNode(mem, tree, x, i, a);
      hide WellFormed, Table, NodeOk, Linked;
      tree := tree[Child(x, i) := a];
      mem := Linked(mem, pt, i, a);
    }

    /** What linking a node means for the whole table. */
    static lemma AddedNode(mem: Mem, tree: Tree, x: Node, i: nat, a: Word)
      requires WellFormed(mem, tree) && x in tree && i < 512 && 0 < x.level <= 3
      requires NodeOk(mem, tree, x) && mem[tree[x]][i] == ZERO && Child(x, i) !in tree
      requires IsPointer(a) && a !in mem
      ensures WellFormed(Linked(mem, tree[x], i, a), tree[Child(x, i) := a])
      ensures Table(Linked(mem, tree[x], i, a), tree[Child(x, i) := a]) == Table(mem, tree)
      ensures SameStale(mem, tree, Linked(mem, tree[x], i, a), tree[Child(x, i) := a])
      ensures var m := Linked(mem, tree[x], i, a);
              tree[x] in m && |m[tree[x]]| == 512 && m[tree[x]][i] == a
    {
      hide WellFormed, Table, Linked;
      AddNode(mem, tree, x, i, a);
      AddedTable(mem, tree, x, i, a);
      AddedStale(mem, tree, x, i, a);
      LinkedAt(mem, tree[x], i, a);
    }

    static lemma AddedStale(mem: Mem, tree: Tree, x: Node, i: nat, a: Word)
      requires WellFormed(mem, tree) && x in tree && i < 512 && 0 < x.level <= 3
      requires NodeOk(mem, tree, x) && mem[tree[x]][i] == ZERO && Child(x, i) !in tree
      requires IsPointer(a) && a !in mem
      ensures SameStale(mem, tree, Linked(mem, tree[x], i, a), tree[Child(x, i) := a])
    {
      hide WellFormed, Linked, Entry;
      AddNodeEntries(mem, tree, x, i, a);
    }

    static lemma LinkedAt(mem: Mem, at: Word, i: nat, a: Word)
      requires at in mem && |mem[at]| == 512 && i < 512 && at != a
      ensures at in Linked(mem, at, i, a) && |Linked(mem, at, i, a)[at]| == 512 && Linked(mem, at, i, a)[at][i] == a
    {
    }

    static lemma AddedTable(mem: Mem, tree: Tree, x: Node, i: nat, a: Word)
      requires WellFormed(mem, tree) && x in tree && i < 512 && 0 < x.level <= 3
      requires NodeOk(mem, tree, x) && mem[tree[x]][i] == ZERO && Child(x, i) !in tree
      requires IsPointer(a) && a !in mem
      ensures Table(Linked(mem, tree[x], i, a), tree[Child(x, i) := a]) == Table(mem, tree)
    {
      hide WellFormed, Table, Linked;
      AddNodeEntries(mem, tree, x, i, a);
      SamePlace(x, i, x.level, 512 * x.prefix + i);
      assert Entry(mem, tree, x.level, 512 * x.prefix + i) == ZERO;
      hide Entry;
      SameTable(mem, tree, Linked(mem, tree[x], i, a), tree[Child(x, i) := a]);
    }

    /** One step down, creating the next node if the entry is empty. */
    method StepCreating(iova: Address, level: nat, pt: Word) returns (r: Outcome, next: Word, ghost noMemory: bool)
      requires Valid() && 0 < level <= 3 && At(PageNo(iova), level) in tree && pt == tree[At(PageNo(iova), level)]
      modifies this
      ensures Valid() && Pages() == old(Pages())
      ensures SameStale(old(mem), old(tree), mem, tree) && Grown(old(tree), tree)
      ensures r == Ok || r == Error
      ensures noMemory ==> At(PageNo(iova), level - 1) !in old(tree) && tree == old(tree)
      ensures r == Ok ==>
                && At(PageNo(iova), level - 1) in tree && next == tree[At(PageNo(iova), level - 1)]
                && Covering(PageNo(iova), level) !in Pages()
      ensures r == Error ==> noMemory || (level <= 2 && Covering(PageNo(iova), level) in Pages())
      ensures r == Ok ==> !noMemory
    {
      ghost var p := PageNo(iova);
      ghost var x := At(p, level);
      noMemory := false;
      WalkDown(mem, tree, p, level);
      IdxIsUp(iova, level);
      assert NodeOk(mem, tree, x);
      var idx := Idx(iova, level);
      assert Child(x, idx) == At(p, level - 1);
      EntryOnPath(p, level);
      hide WellFormed, Table, Entry;
      if mem[pt][idx] == ZERO {
        var a := Mmap();
        if a == None {
          return Error, ZERO, true;
        }
        AddBelow(pt, idx, a.value, x);
      } else if IsTerminal(mem[pt][idx]) {
        return Error, ZERO, false;
      }
      next := mem[pt][idx];
      r := Ok;
    }

    /** Walk down to the node of a level, creating nodes on the way. */
    method WalkCreating(iova: Address, ptLevel: nat) returns (r: Outcome, pt: Word, ghost noMemory: bool)
      requires Valid() && ptLevel <= 2
      modifies this
      ensures Valid() && Pages() == old(Pages())
      ensures SameStale(old(mem), old(tree), mem, tree)
      ensures noMemory ==> MissingNode(old(tree), PageNo(iova), ptLevel) && MissingNode(tree, PageNo(iova), ptLevel)
      ensures r == Ok || r == Error
      ensures r == Ok ==> At(PageNo(iova), ptLevel) in tree && pt == tree[At(PageNo(iova), ptLevel)]
      ensures r == Ok ==> !noMemory && !CoveredAbove(Pages(), PageNo(iova), ptLevel)
      ensures r == Error ==> noMemory || CoveredAbove(Pages(), PageNo(iova), ptLevel)
    {
      ghost var p := PageNo(iova);
      hide WellFormed, Table, Up, At, Covering;
      StartAtRoot(mem, tree, p);
      var level := 3;
      pt := root;
      r, noMemory := Ok, false;
      ghost var t := Pages();
      while level != ptLevel
        invariant ptLevel <= level <= 3
        invariant Valid() && Pages() == t
        invariant SameStale(old(mem), old(tree), mem, tree) && Grown(old(tree), tree)
        invariant At(p, level) in tree && pt == tree[At(p, level)]
        invariant r == Ok && !noMemory
        invariant forall k: nat :: level < k <= 2 ==> Covering(p, k) !in t
      {
        r, pt, noMemory := StepCreating(iova, level, pt);
        if r == Error {
          return;
        }
        level := level - 1;
      }
    }

    /** Replace the smaller pages behind an entry: release their nodes and clear it. */
    method ClearBelow(pt: Word, i: nat, level: nat, ghost x: Node)
      requires Valid() && x in tree && pt == tree[x] && i < 512 && 0 < x.level == level <= 2
      requires NodeOk(mem, tree, x) && Child(x, i) in tree
      modifies this
      ensures mem == Pruned(old(mem), old(tree), x, i) && tree == Remaining(old(tree), Child(x, i))
    {
      NotUnderChild(x, i);
      Kept(mem, tree, Child(x, i), x);
      ChildEntry(mem, tree, x, i);
      ghost var full := mem;
      assert mem == full - {};
      DeleteTree(mem[pt][i], level - 1, Child(x, i), full, tree, {});
      assert {} + Gone(tree, Child(x, i)) == Gone(tree, Child(x, i));
      mem := Write(mem, pt, i, ZERO);
      tree := Remaining(tree, Child(x, i));
    }

    /** Make room for a page at an entry: afterwards the entry is empty or a page entry, and
        nothing inside its page is left. */
    method MakeRoom(pt: Word, i: nat, level: nat, ghost x: Node)
      requires Valid() && x in tree && pt == tree[x] && i < 512 && x.level == level <= 2 && NodeOk(mem, tree, x)
      modifies this
      ensures Valid() && x in tree && pt == tree[x] && NodeOk(mem, tree, x)
      ensures mem[pt][i] == ZERO || IsTerminal(mem[pt][i])
      ensures mem[pt][i] == (if IsPointer(old(mem[pt][i])) then ZERO else old(mem[pt][i]))
      ensures EmptiedInside(old(mem), old(tree), mem, tree, PageAt(x, i))
      ensures !IsPointer(old(mem[pt][i])) ==> mem == old(mem) && tree == old(tree)
    {
      assert EntryOk(mem, tree, x, i);
      if level > 0 {
        ChildEntry(mem, tree, x, i);
        if !IsTerminal(mem[pt][i]) && mem[pt][i] != ZERO {
          PruneEmpties(mem, tree, x, i);
          Prune(mem, tree, x, i);
          NotUnderChild(x, i);
          ClearBelow(pt, i, level, x);
          assert NodeOk(mem, tree, x);
        } else {
          EmptyInside(mem, tree, x, i);
        }
      }
    }

    /** Write a page entry. */
    method SetEntry(pt: Word, i: nat, w: Word, ghost x: Node)
      requires Valid() && x in tree && pt == tree[x] && i < 512 && x.level <= 2 && NodeOk(mem, tree, x)
      requires mem[pt][i] == ZERO || IsTerminal(mem[pt][i])
      requires w == ZERO || (IsTerminal(w) && (x.level > 0 ==> RefCount(w) > 0))
      modifies this`mem
      ensures Valid() && mem == Write(old(mem), pt, i, w)
    {
      SetLeaf(mem, tree, x, i, w);
      mem := Write(mem, pt, i, w);
    }

    /** Pin the page at iova: count one more reference and record its address. */
    method PinPage(va: Address, iova: Address, ptLevel: nat) returns (r: Outcome, ghost noMemory: bool)
      requires Valid() && ptLevel <= 2
      modifies this
      ensures Valid() && r != Fault
      ensures r == Ok ==> Pages() == PinIn(old(Pages()), Covering(PageNo(iova), ptLevel), va)
      ensures r != Ok ==> Pages() == old(Pages())
      ensures r == Error <==> noMemory || CoveredAbove(old(Pages()), PageNo(iova), ptLevel)
      ensures noMemory ==> MissingNode(old(tree), PageNo(iova), ptLevel) && MissingNode(tree, PageNo(iova), ptLevel)
      ensures r == Ok ==> PinnedStale(old(mem), old(tree), mem, tree, Covering(PageNo(iova), ptLevel))
      ensures r != Ok ==> SameStale(old(mem), old(tree), mem, tree)
      ensures r == Assertion <==>
                && !noMemory && !CoveredAbove(old(Pages()), PageNo(iova), ptLevel)
                && Covering(PageNo(iova), ptLevel) in old(Pages())
                && old(Pages())[Covering(PageNo(iova), ptLevel)].count == 255
    {
      ghost var p := PageNo(iova);
      var pt;
      r, pt, noMemory := WalkCreating(iova, ptLevel);
      if r == Error {
        return;
      }
      ghost var x := At(p, ptLevel);
      var idx := Idx(iova, ptLevel);
      IdxIsUp(iova, ptLevel);
      assert NodeOk(mem, tree, x);
      OnPath(p, ptLevel);
      ghost var before := mem[pt][idx];
      EntryOnPath(p, ptLevel);
      r := CountPin(va, pt, idx, ptLevel, x);
    }

    /** Count a reference in a page entry and set its address. */
    method CountPin(va: Address, pt: Word, idx: nat, level: nat, ghost x: Node) returns (r: Outcome)
      requires Valid() && x in tree && pt == tree[x] && idx < 512 && x.level == level <= 2 && NodeOk(mem, tree, x)
      requires PageAt(x, idx).num < PageCount(level)
      modifies this
      ensures Valid()
      ensures r == Ok || r == Assertion
      ensures r == Ok ==> Pages() == PinIn(old(Pages()), PageAt(x, idx), va)
      ensures r == Ok ==> PinnedStale(old(mem), old(tree), mem, tree, PageAt(x, idx))
      ensures r == Assertion ==> mem == old(mem) && tree == old(tree)
      ensures r == Assertion <==> PageAt(x, idx) in old(Pages()) && old(Pages())[PageAt(x, idx)].count == 255
    {
      hide WellFormed, Table, EmptiedInside, Entry;
      ghost var mem0, tree0, e := mem, tree, mem[pt][idx];
      EntryAt(mem, tree, x, idx);
      TableAt(mem, tree, level, PageAt(x, idx).num);
      MakeRoom(pt, idx, level, x);
      var w := Incr(mem[pt][idx]);
      if w == None {
        return Assertion;
      }
      PinEntry(mem0, tree0, mem, tree, x, idx, e, va);
      SetEntry(pt, idx, SetAddr(w.value, va), x);
      r := Ok;
    }

    /** Writing the counted entry after making room pins the page in the map. */
    static lemma PinEntry(mem0: Mem, tree0: Tree, mem1: Mem, tree1: Tree, x: Node, i: nat, e: Word, va: Address)
      requires WellFormed(mem1, tree1) && x in tree1 && i < 512 && NodeOk(mem1, tree1, x) && x.level <= 2
      requires PageAt(x, i).num < PageCount(x.level)
      requires EmptiedInside(mem0, tree0, mem1, tree1, PageAt(x, i))
      requires e == Entry(mem0, tree0, x.level, PageAt(x, i).num)
      requires mem1[tree1[x]][i] == (if IsPointer(e) then ZERO else e)
      requires Incr(mem1[tree1[x]][i]).Some?
      ensures Table(Write(mem1, tree1[x], i, SetAddr(Incr(mem1[tree1[x]][i]).value, va)), tree1)
           == PinIn(Table(mem0, tree0), PageAt(x, i), va)
      ensures PinnedStale(mem0, tree0, Write(mem1, tree1[x], i, SetAddr(Incr(mem1[tree1[x]][i]).value, va)), tree1,
                PageAt(x, i))
    {
      hide WellFormed, Table, Up;
      var w := SetAddr(Incr(mem1[tree1[x]][i]).value, va);
      WriteEntry(mem1, tree1, x, i, w);
      TableAt(mem0, tree0, x.level, PageAt(x, i).num);
      hide NodeOk;
      PinnedTable(mem0, tree0, Write(mem1, tree1[x], i, w), tree1, PageAt(x, i), va);
      PinnedStaleEntries(mem0, tree0, Write(mem1, tree1[x], i, w), tree1, PageAt(x, i));
    }

    static lemma EntryAt(m: Mem, t: Tree, x: Node, i: nat)
      requires x in t && t[x] in m && |m[t[x]]| == 512 && i < 512
      ensures Entry(m, t, x.level, PageAt(x, i).num) == m[t[x]][i]
    {
      SamePlace(x, i, x.level, PageAt(x, i).num);
    }

    /** The entry for a level on an address's path. */
    lemma OnPath(p: nat, level: nat)
      requires level <= 3 && p < PageCount(0)
      ensures PageAt(At(p, level), Up(p, level) % 512) == Covering(p, level)
      ensures Covering(p, level).num < PageCount(level)
    {
      UpBound(p, level);
      assert Up(p, level + 1) == Up(p, level) / 512;
    }

    /** Whether the map covers p at a level shows in the entry on its path. */
    lemma EntryOnPath(p: nat, level: nat)
      requires Valid() && p < PageCount(0) && level <= 3
      ensures level <= 2 ==> (Covering(p, level) in Pages() <==> LiveWord(Entry(mem, tree, level, Up(p, level))))
      ensures level <= 2 && Covering(p, level) in Pages() ==>
                Pages()[Covering(p, level)] == PinOf(Entry(mem, tree, level, Up(p, level)))
      ensures level == 3 ==> Covering(p, level) !in Pages()
    {
      UpBound(p, level);
      if level <= 2 {
        TableAt(mem, tree, level, Up(p, level));
      }
    }

    /** An empty entry on the path: nothing is pinned at or below the level. */
    lemma AbsentBelow(p: nat, level: nat, ptLevel: nat)
      requires Valid() && p < PageCount(0) && ptLevel < level <= 3 && At(p, level) in tree
      requires Entry(mem, tree, level, Up(p, level)) == ZERO
      requires forall k: nat :: level < k <= 2 ==> Covering(p, k) !in Pages()
      ensures Covering(p, ptLevel) !in Pages() && !CoveredAbove(Pages(), p, ptLevel)
      ensures !Stale(mem, tree, p)
    {
      hide WellFormed, Table, NodesOk;
      WalkDown(mem, tree, p, level);
      NotBelow(mem, tree, p, level - 1, 0);
      forall k: nat | ptLevel <= k <= 2
        ensures Covering(p, k) !in Pages()
      {
        EntryOnPath(p, k);
        if k < level {
          NotBelow(mem, tree, p, level - 1, k);
        }
      }
    }

    /** A page with a stale entry is not inside a pinned larger page. */
    lemma StaleNotCovered(p: nat)
      requires Valid() && p < PageCount(0) && Stale(mem, tree, p)
      ensures !CoveredAbove(Pages(), p, 0)
    {
      assert Up(p, 1) == p / 512;
      assert At(p, 0) == Node(0, p / 512) && At(p, 0) in tree;
      forall k: nat | 0 < k <= 2
        ensures Covering(p, k) !in Pages()
      {
        Ancestors(mem, tree, At(p, 0), k);
        UpUp(p, 1, k - 1);
        assert Up(p, 1) == p / 512;
        EntryOnPath(p, k);
      }
    }

    /** Below a pinned page nothing is pinned. */
    lemma CoveredNotPinned(p: nat, level: nat, ptLevel: nat)
      requires Valid() && p < PageCount(0) && ptLevel < level <= 2
      requires Covering(p, level) in Pages()
      ensures Covering(p, ptLevel) !in Pages()
    {
      UpUp(p, ptLevel, level - ptLevel);
      if Covering(p, ptLevel) in Pages() {
        PinnedDisjoint(mem, tree, Covering(p, ptLevel), Covering(p, level));
      }
    }

    /** Count a reference out of a page entry; a large page's entry is cleared with the last. */
    method CountUnpin(pt: Word, idx: nat, level: nat, ghost x: Node, ghost p: nat) returns (r: Outcome)
      requires Valid() && p < PageCount(0) && level <= 2 && x == At(p, level)
      requires x in tree && pt == tree[x] && idx == Up(p, level) % 512
      modifies this
      ensures Valid()
      ensures r != Fault
      ensures r == Ok <==> Covering(p, level) in old(Pages())
      ensures r == Ok ==> Pages() == UnpinIn(old(Pages()), Covering(p, level))
      ensures r != Ok ==> Pages() == old(Pages())
      ensures r == Assertion <==> level == 0 && Stale(old(mem), old(tree), p)
      ensures StaleAfter(old(mem), old(tree), mem, tree, old(Pages()), p, level)
      ensures r != Ok ==> mem == old(mem) && tree == old(tree)
    {
      assert NodeOk(mem, tree, x) && EntryOk(mem, tree, x, idx);
      OnPath(p, level);
      EntryOnPath(p, level);
      SamePlace(x, idx, level, Up(p, level));
      ghost var mem0 := mem;
      var e := mem[pt][idx];
      if !IsTerminal(e) {
        return Error;
      }
      var w := Decr(e);
      if w == None {
        return Assertion;
      }
      var v := if level > 0 && RefCount(w.value) == 0 then ZERO else w.value;
      SetEntry(pt, idx, v, x);
      WriteEntry(mem0, tree, x, idx, v);
      UnpinnedTable(mem0, tree, mem, Covering(p, level), v);
      UpUp(p, 0, level);
      r := Ok;
    }

    /** Release the whole table: no node stays allocated. */
    method Terminate()
      requires Valid()
      modifies this
      ensures mem == map[]
    {
      StartAtRoot(mem, tree, 0);
      assert NodeOk(mem, tree, ROOT);
      ghost var full := mem;
      assert mem == full - {};
      WholeTree(full, tree);
      DeleteTree(root, 3, ROOT, full, tree, {});
      assert {} + Gone(tree, ROOT) == full.Keys;
    }

    static lemma WholeTree(full: Mem, t: Tree)
      requires WellFormed(full, t)
      ensures Gone(t, ROOT) == full.Keys
    {
      forall x | x in t
        ensures Under(x, ROOT) && t[x] in full
      {
        assert NodeOk(full, t, x);
        Ancestors(full, t, x, 3 - x.level);
        assert NodeOk(full, t, Node(3, Up(x.prefix, 3 - x.level)));
      }
      forall a | a in full
        ensures a in Gone(t, ROOT)
      {
        var x :| x in t && t[x] == a;
      }
    }

    /** Drop one reference to the page at iova. */
    method UnpinPage(iova: Address, ptLevel: nat) returns (r: Outcome)
      requires Valid() && ptLevel <= 2
      modifies this
      ensures Valid()
      ensures r == Fault <==> CoveredAbove(old(Pages()), PageNo(iova), ptLevel)
      ensures r == Ok <==> Covering(PageNo(iova), ptLevel) in old(Pages())
      ensures r == Ok ==> Pages() == UnpinIn(old(Pages()), Covering(PageNo(iova), ptLevel))
      ensures r != Ok ==> Pages() == old(Pages())
      ensures r == Assertion <==> ptLevel == 0 && Stale(old(mem), old(tree), PageNo(iova))
      ensures StaleAfter(old(mem), old(tree), mem, tree, old(Pages()), PageNo(iova), ptLevel)
    {
      ghost var p := PageNo(iova);
      hide WellFormed, Table, Up, At, Covering, Stale;
      if Stale(mem, tree, p) {
        StaleNotCovered(p);
      }
      StartAtRoot(mem, tree, p);
      var level := 3;
      var pt := root;
      while level != ptLevel
        invariant ptLevel <= level <= 3
        invariant mem == old(mem) && tree == old(tree)
        invariant At(p, level) in tree && pt == tree[At(p, level)]
        invariant forall k: nat :: level < k <= 2 ==> Covering(p, k) !in Pages()
      {
        r, pt := StepDown(iova, level, pt, ptLevel);
        if r != Ok {
          assert r == Error ==> !(ptLevel == 0 && Stale(mem, tree, p));
          return;
        }
        level := level - 1;
      }
      IdxIsUp(iova, ptLevel);
      r := CountUnpin(pt, Idx(iova, ptLevel), ptLevel, At(p, ptLevel), p);
    }

    /** One step down towards the entry to unpin. A page entry on the way is taken for a node,
        so that the next read faults. */
    method StepDown(iova: Address, level: nat, pt: Word, ghost ptLevel: nat) returns (r: Outcome, next: Word)
      requires Valid() && ptLevel < level <= 3 && At(PageNo(iova), level) in tree && pt == tree[At(PageNo(iova), level)]
      requires forall k: nat :: level < k <= 2 ==> Covering(PageNo(iova), k) !in Pages()
      ensures r == Ok || r == Error || r == Fault
      ensures r == Ok ==>
                && At(PageNo(iova), level - 1) in tree && next == tree[At(PageNo(iova), level - 1)]
                && Covering(PageNo(iova), level) !in Pages()
      ensures r == Error ==>
                Covering(PageNo(iova), ptLevel) !in Pages() && !CoveredAbove(Pages(), PageNo(iova), ptLevel)
      ensures r == Error ==> ptLevel == 0 ==> !Stale(mem, tree, PageNo(iova))
      ensures r == Fault ==>
                Covering(PageNo(iova), ptLevel) !in Pages() && CoveredAbove(Pages(), PageNo(iova), ptLevel)
    {
      ghost var p := PageNo(iova);
      WalkDown(mem, tree, p, level);
      IdxIsUp(iova, level);
      EntryOnPath(p, level);
      next := mem[pt][Idx(iova, level)];
      if next == ZERO {
        AbsentBelow(p, level, ptLevel);
        return Error, ZERO;
      }
      if IsTerminal(next) {
        CoveredNotPinned(p, level, ptLevel);
        return Fault, ZERO;
      }
      r := Ok;
    }

    /** Carry out one operation. */
    method Carry(op: Operation) returns (r: Outcome, ghost noMemory: bool)
      requires Valid()
      modifies this
      ensures Valid()
      ensures r == if noMemory then Error else Answer(old(Pages()), old(Stale(mem, tree, PageNo(op.iova))), op)
      ensures r == Ok ==> Allowed(old(Pages()), op) && Pages() == Result(old(Pages()), op)
      ensures r == Ok && op.PinOp? ==> PinnedStale(old(mem), old(tree), mem, tree, Named(op))
      ensures r == Ok && op.UnpinOp? ==>
                StaleAfter(old(mem), old(tree), mem, tree, old(Pages()), PageNo(op.iova), op.level)
      ensures r != Ok ==> Pages() == old(Pages()) && SameStale(old(mem), old(tree), mem, tree)
      ensures noMemory ==> op.PinOp? && MissingNode(old(tree), PageNo(op.iova), op.level)
      ensures noMemory ==> MissingNode(tree, PageNo(op.iova), op.level)
    {
      hide WellFormed, Table, Stale, MissingNode, PinIn, UnpinIn, PageNo, Inside, Entry;
      match op
      case PinOp(iova, level, va) => r, noMemory := PinPage(va, iova, level);
      case UnpinOp(iova, level) =>
        r := UnpinPage(iova, level);
        noMemory := false;
    }
  }

  /** Carry out a run on an empty table until an operation does not succeed. The table then holds
      what the operations carried out say, and what they say decides how the next one ends, unless
      there is no memory for a node. */
  method RunOperations(root: Word, ops: seq<Operation>)
    returns (t: PageTable, n: nat, r: Outcome, ghost noMemory: bool)
    requires IsPointer(root)
    ensures t.Valid() && n <= |ops|
    ensures After(ops[..n]) == Some(t.Pages())
    ensures r == Ok <==> n == |ops|
    ensures n < |ops| ==> r == if noMemory then Error else Verdict(ops[..n], ops[n])
    ensures noMemory ==> n < |ops| && ops[n].PinOp? && MissingNode(t.tree, PageNo(ops[n].iova), ops[n].level)
    ensures Accounts(ops[..n], t.Pages()) && StaleSpent(ops[..n], t.mem, t.tree)
  {
    hide After, Allowed, Result, Net, LastVa, Table, WellFormed, Frame, Accounts, MissingNode;
    hide StaleSpent, Verdict, Answer, PinnedStale, StaleAfter, SameStale, Stale, Spent, PageNo;
    t := new PageTable(root);
    n, r, noMemory := 0, Ok, false;
    RunStart(ops);
    StartSpent(t.mem, t.tree);
    assert ops[..0] == [];
    AllCounted(ops[..0]);
    while n < |ops|
      invariant n <= |ops| && fresh(t) && t.Valid() && r == Ok && !noMemory
      invariant After(ops[..n]) == Some(t.Pages())
      invariant Accounts(ops[..n], t.Pages()) && StaleSpent(ops[..n], t.mem, t.tree)
    {
      ghost var m, mem, tree := t.Pages(), t.mem, t.tree;
      AfterNext(ops, n);
      VerdictAt(ops, n, m, mem, tree);
      r, noMemory := t.Carry(ops[n]);
      if r != Ok {
        SameSpent(ops[..n], mem, tree, t.mem, t.tree);
        break;
      }
      if ops[n].PinOp? {
        PinSpent(ops, n, mem, tree, t.mem, t.tree);
      } else {
        UnpinAllowed(m, ops[n]);
        UnpinSpent(ops, n, mem, tree, t.mem, t.tree);
      }
      n := n + 1;
      AllCounted(ops[..n]);
    }
  }

  lemma RunStart(ops: seq<Operation>)
    ensures After(ops[..0]) == Some(map[])
  {
  }

  lemma VerdictAt(ops: seq<Operation>, n: nat, m: map<Page, Pin>, mem: Mem, tree: Tree)
    requires n < |ops| && Accounts(ops[..n], m) && StaleSpent(ops[..n], mem, tree)
    ensures Verdict(ops[..n], ops[n]) == Answer(m, Stale(mem, tree, PageNo(ops[n].iova)), ops[n])
  {
    hide Stale, Accounts, Verdict, Answer, Spent, PageNo;
    VerdictIs(ops[..n], m, ops[n]);
  }

  lemma SameSpent(ops: seq<Operation>, mem: Mem, tree: Tree, mem': Mem, tree': Tree)
    requires StaleSpent(ops, mem, tree) && SameStale(mem, tree, mem', tree')
    ensures StaleSpent(ops, mem', tree')
  {
    hide Stale, Spent;
  }

  lemma UnpinAllowed(m: map<Page, Pin>, op: Operation)
    requires Allowed(m, op) && op.UnpinOp?
    ensures Named(op) in m
  {
  }
}
