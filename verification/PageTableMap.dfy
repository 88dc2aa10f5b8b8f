/** The page table as a map: what pinning and unpinning mean for its contents. */
module PageTableMap {
  import opened Wrappers
  import opened PageTableSpec
  import opened PageTableSteps
  import opened PageTableDelete

  /** The map with page x pinned once more at va; smaller pages inside it are replaced. */
  ghost function PinIn(t: map<Page, Pin>, x: Page, va: Address): map<Page, Pin>
  {
    (map y | y in t && !Inside(y, x) :: t[y])[x := Pin(4096 * Frame(va), (if x in t then t[x].count else 0) + 1)]
  }

  /** The map with one reference to page x dropped; the page goes with its last reference. */
  ghost function UnpinIn(t: map<Page, Pin>, x: Page): map<Page, Pin>
    requires x in t
  {
    if t[x].count <= 1 then t - {x} else t[x := t[x].(count := t[x].count - 1)]
  }

  /** A larger page covers 4KB page p. */
  ghost predicate CoveredAbove(t: map<Page, Pin>, p: nat, level: nat)
  {
    exists k: nat :: level < k <= 2 && Covering(p, k) in t
  }

  ghost function PinOf(w: Word): Pin
  {
    Pin(Addr(w), RefCount(w))
  }

  ghost predicate LiveWord(w: Word)
  {
    IsTerminal(w) && RefCount(w) > 0
  }

  /** The map holds a page exactly when its entry is live, with the entry's contents. */
  lemma TableAt(mem: Mem, tree: Tree, level: nat, n: nat)
    requires level <= 2 && n < PageCount(level)
    ensures Page(level, n) in Table(mem, tree) <==> LiveWord(Entry(mem, tree, level, n))
    ensures Page(level, n) in Table(mem, tree) ==>
              Table(mem, tree)[Page(level, n)] == PinOf(Entry(mem, tree, level, n))
  {
  }

  lemma TableDomain(mem: Mem, tree: Tree)
    ensures forall y :: y in Table(mem, tree) ==> y.level <= 2 && y.num < PageCount(y.level)
  {
  }

  /** Entries that differ only in dead words give the same map. */
  lemma SameTable(mem: Mem, tree: Tree, mem': Mem, tree': Tree)
    requires forall level: nat, n: nat :: Entry(mem', tree', level, n) != Entry(mem, tree, level, n) ==>
               !LiveWord(Entry(mem', tree', level, n)) && !LiveWord(Entry(mem, tree, level, n))
    ensures Table(mem', tree') == Table(mem, tree)
  {
    forall level: nat, n: nat | level <= 2 && n < PageCount(level)
      ensures Page(level, n) in Table(mem', tree') <==> Page(level, n) in Table(mem, tree)
      ensures Page(level, n) in Table(mem, tree) ==>
                Table(mem', tree')[Page(level, n)] == Table(mem, tree)[Page(level, n)]
    {
      TableAt(mem, tree, level, n);
      TableAt(mem', tree', level, n);
    }
    SameMaps(Table(mem', tree'), Table(mem, tree));
  }

  lemma SameMaps(a: map<Page, Pin>, b: map<Page, Pin>)
    requires forall y :: y in a || y in b ==> y.level <= 2 && y.num < PageCount(y.level)
    requires forall level: nat, n: nat :: level <= 2 && n < PageCount(level) ==>
               && (Page(level, n) in a <==> Page(level, n) in b)
               && (Page(level, n) in b ==> a[Page(level, n)] == b[Page(level, n)])
    ensures a == b
  {
    forall y
      ensures y in a <==> y in b
      ensures y in b ==> a[y] == b[y]
    {
      if y in a || y in b {
        assert y == Page(y.level, y.num);
      }
    }
  }

  /** One live entry counted down: the map is unpinned. */
  lemma UnpinnedTable(mem: Mem, tree: Tree, mem': Mem, x: Page, w: Word)
    requires x in Table(mem, tree)
    requires forall level: nat, n: nat :: Entry(mem', tree, level, n)
               == if Page(level, n) == x then w else Entry(mem, tree, level, n)
    requires var entry := Entry(mem, tree, x.level, x.num);
             if RefCount(entry) == 1 then !LiveWord(w)
             else IsTerminal(w) && Addr(w) == Addr(entry) && RefCount(w) == RefCount(entry) - 1
    ensures Table(mem', tree) == UnpinIn(Table(mem, tree), x)
  {
    hide Table, Entry;
    var t, t' := Table(mem, tree), UnpinIn(Table(mem, tree), x);
    TableDomain(mem, tree);
    TableDomain(mem', tree);
    TableAt(mem, tree, x.level, x.num);
    forall level: nat, n: nat | level <= 2 && n < PageCount(level)
      ensures Page(level, n) in Table(mem', tree) <==> Page(level, n) in t'
      ensures Page(level, n) in t' ==> Table(mem', tree)[Page(level, n)] == t'[Page(level, n)]
    {
      TableAt(mem, tree, level, n);
      TableAt(mem', tree, level, n);
    }
    SameMaps(Table(mem', tree), t');
  }

  /** Without a node below an entry, nothing inside its page has an entry. */
  lemma NothingInside(mem: Mem, tree: Tree, p: Node, i: nat, level: nat, n: nat)
    requires NodesOk(mem, tree) && 0 < p.level <= 3 && i < 512 && Child(p, i) !in tree
    requires Inside(Page(level, n), Page(p.level, 512 * p.prefix + i))
    ensures Entry(mem, tree, level, n) == ZERO
  {
    InsideUnder(level, n, p, i);
    var y := Node(level, n / 512);
    if y in tree {
      Ancestors(mem, tree, y, Child(p, i).level - y.level);
      assert false;
    }
  }

  /** The page that entry i of a node describes. */
  function PageAt(x: Node, i: nat): Page
  {
    Page(x.level, 512 * x.prefix + i)
  }

  /** Apart from a page's own entry, everything inside it is gone and everything else kept. */
  ghost predicate EmptiedInside(mem: Mem, tree: Tree, mem': Mem, tree': Tree, page: Page)
  {
    forall level: nat, n: nat {:trigger Entry(mem', tree', level, n)} :: Page(level, n) != page ==>
      Entry(mem', tree', level, n) == if Inside(Page(level, n), page) then ZERO else Entry(mem, tree, level, n)
  }

  lemma PruneEmpties(mem: Mem, tree: Tree, x: Node, i: nat)
    requires WellFormed(mem, tree) && x in tree && x.level > 0 && i < 512 && NodeOk(mem, tree, x)
    ensures EmptiedInside(mem, tree, Pruned(mem, tree, x, i), Remaining(tree, Child(x, i)), PageAt(x, i))
  {
    hide EntriesOk, NoLeak, Pruned, Remaining, Entry, Inside;
    forall level: nat, n: nat | Page(level, n) != PageAt(x, i)
      ensures Entry(Pruned(mem, tree, x, i), Remaining(tree, Child(x, i)), level, n)
           == if Inside(Page(level, n), PageAt(x, i)) then ZERO else Entry(mem, tree, level, n)
    {
      PruneEntry(mem, tree, x, i, level, n);
    }
  }

  lemma EmptyInside(mem: Mem, tree: Tree, x: Node, i: nat)
    requires NodesOk(mem, tree) && 0 < x.level <= 3 && i < 512 && Child(x, i) !in tree
    ensures EmptiedInside(mem, tree, mem, tree, PageAt(x, i))
  {
    forall level: nat, n: nat | Inside(Page(level, n), PageAt(x, i))
      ensures Entry(mem, tree, level, n) == ZERO
    {
      NothingInside(mem, tree, x, i, level, n);
    }
  }

  /** One entry set to a live word, and everything inside its page gone: the map is pinned. */
  lemma PinnedTable(mem: Mem, tree: Tree, mem': Mem, tree': Tree, x: Page, va: Address)
    requires x.level <= 2 && x.num < PageCount(x.level)
    requires EmptiedInside(mem, tree, mem', tree', x)
    requires var w := Entry(mem', tree', x.level, x.num);
             && IsTerminal(w) && w.frame == Frame(va)
             && RefCount(w) == (if x in Table(mem, tree) then Table(mem, tree)[x].count else 0) + 1
    ensures Table(mem', tree') == PinIn(Table(mem, tree), x, va)
  {
    hide Table, PinIn, Entry, EmptiedInside;
    var t, t' := Table(mem, tree), PinIn(Table(mem, tree), x, va);
    PinInDomain(mem, tree, x, va);
    TableDomain(mem', tree');
    forall level: nat, n: nat | level <= 2 && n < PageCount(level)
      ensures Page(level, n) in Table(mem', tree') <==> Page(level, n) in t'
      ensures Page(level, n) in t' ==> Table(mem', tree')[Page(level, n)] == t'[Page(level, n)]
    {
      PinnedAt(mem, tree, mem', tree', x, va, level, n);
    }
    SameMaps(Table(mem', tree'), t');
  }

  lemma PinInDomain(mem: Mem, tree: Tree, x: Page, va: Address)
    requires x.level <= 2 && x.num < PageCount(x.level)
    ensures forall y :: y in PinIn(Table(mem, tree), x, va) ==> y.level <= 2 && y.num < PageCount(y.level)
  {
  }

  lemma PinnedAt(mem: Mem, tree: Tree, mem': Mem, tree': Tree, x: Page, va: Address, level: nat, n: nat)
    requires x.level <= 2 && x.num < PageCount(x.level) && level <= 2 && n < PageCount(level)
    requires EmptiedInside(mem, tree, mem', tree', x)
    requires var w := Entry(mem', tree', x.level, x.num);
             && IsTerminal(w) && w.frame == Frame(va)
             && RefCount(w) == (if x in Table(mem, tree) then Table(mem, tree)[x].count else 0) + 1
    ensures var y, t' := Page(level, n), PinIn(Table(mem, tree), x, va);
            && (y in Table(mem', tree') <==> y in t')
            && (y in t' ==> Table(mem', tree')[y] == t'[y])
  {
    hide Table, Inside, Entry;
    TableAt(mem, tree, level, n);
    TableAt(mem', tree', level, n);
  }

  // ---------------------------------------------------------------- stale entries

  /** A 4KB entry whose count has dropped to zero keeps its flag bit. */
  ghost predicate Stale(mem: Mem, tree: Tree, p: nat)
  {
    var w := Entry(mem, tree, 0, p);
    IsTerminal(w) && RefCount(w) == 0
  }

  /** Unpinning leaves a stale entry exactly where it takes the last reference to a 4KB page. */
  ghost predicate StaleAfter(mem: Mem, tree: Tree, mem': Mem, tree': Tree, t: map<Page, Pin>, p: nat, level: nat)
  {
    forall q: nat :: Stale(mem', tree', q) <==>
      Stale(mem, tree, q) || (level == 0 && q == p && Covering(p, 0) in t && t[Covering(p, 0)].count == 1)
  }

  ghost predicate NothingStale(mem: Mem, tree: Tree)
  {
    forall q: nat :: !Stale(mem, tree, q)
  }

  ghost predicate SameStale(mem: Mem, tree: Tree, mem': Mem, tree': Tree)
  {
    forall q: nat :: Stale(mem', tree', q) <==> Stale(mem, tree, q)
  }

  /** Pinning a page revives or removes the stale entries of the page and inside it. */
  ghost predicate PinnedStale(mem: Mem, tree: Tree, mem': Mem, tree': Tree, x: Page)
  {
    forall q: nat :: Stale(mem', tree', q) <==>
      Stale(mem, tree, q) && Page(0, q) != x && !Inside(Page(0, q), x)
  }

  lemma PinnedStaleEntries(mem: Mem, tree: Tree, mem': Mem, tree': Tree, x: Page)
    requires EmptiedInside(mem, tree, mem', tree', x)
    requires LiveWord(Entry(mem', tree', x.level, x.num))
    ensures PinnedStale(mem, tree, mem', tree', x)
  {
    hide Entry, Inside;
    forall q: nat
      ensures Stale(mem', tree', q) <==> Stale(mem, tree, q) && Page(0, q) != x && !Inside(Page(0, q), x)
    {
      if Page(0, q) != x {
        assert Entry(mem', tree', 0, q) == if Inside(Page(0, q), x) then ZERO else Entry(mem, tree, 0, q);
      }
    }
  }

  // ---------------------------------------------------------------- growing

  ghost predicate Grown(tree: Tree, tree': Tree)
  {
    forall x :: x in tree ==> x in tree'
  }

  /** Some node on the way to a page of a level does not exist. */
  ghost predicate MissingNode(tree: Tree, p: nat, level: nat)
  {
    exists k: nat :: level <= k < 3 && At(p, k) !in tree
  }

  // ---------------------------------------------------------------- runs

  type Level = l: nat | l <= 2

  datatype Operation = PinOp(iova: Address, level: Level, va: Address) | UnpinOp(iova: Address, level: Level)

  /** The page that an operation names. */
  function Named(op: Operation): Page
  {
    Covering(PageNo(op.iova), op.level)
  }

  /** A pin needs no larger page to cover its page, and room in the count; an unpin needs its page. */
  ghost predicate Allowed(m: map<Page, Pin>, op: Operation)
  {
    var x := Named(op);
    match op
    case PinOp(iova, level, _) => !CoveredAbove(m, PageNo(iova), level) && (x in m ==> m[x].count != 255)
    case UnpinOp(_, _) => x in m
  }

  ghost function Result(m: map<Page, Pin>, op: Operation): map<Page, Pin>
    requires Allowed(m, op)
  {
    match op
    case PinOp(_, _, va) => PinIn(m, Named(op), va)
    case UnpinOp(_, _) => UnpinIn(m, Named(op))
  }

  /** The map after a run from the empty table; None once an operation is not allowed. */
  ghost function After(ops: seq<Operation>): Option<map<Page, Pin>>
  {
    if ops == [] then Some(map[]) else
      match After(ops[..|ops| - 1])
      case None => None
      case Some(m) => if Allowed(m, ops[|ops| - 1]) then Some(Result(m, ops[|ops| - 1])) else None
  }

  lemma AfterNext(ops: seq<Operation>, n: nat)
    requires n < |ops| && After(ops[..n]).Some?
    ensures var m := After(ops[..n]).value;
            After(ops[..n + 1]) == if Allowed(m, ops[n]) then Some(Result(m, ops[n])) else None
  {
    assert ops[..n + 1][..n] == ops[..n];
  }

  /** Pins of a page less its unpins, from the last time a larger page replaced it. */
  function Net(ops: seq<Operation>, x: Page): int
  {
    if ops == [] then 0 else
      var n, op := Net(ops[..|ops| - 1], x), ops[|ops| - 1];
      if Named(op) == x then (if op.PinOp? then n + 1 else n - 1)
      else if op.PinOp? && Inside(x, Named(op)) then 0 else n
  }

  /** The address given by a page's last pin. */
  function LastVa(ops: seq<Operation>, x: Page): Address
  {
    if ops == [] then 0 else
      var op := ops[|ops| - 1];
      if op.PinOp? && Named(op) == x then op.va else LastVa(ops[..|ops| - 1], x)
  }

  /** Over every run, a page is in the table exactly while it has been pinned more often than
      unpinned; its count is the difference and its address the last one given. */
  lemma {:induction false} CountsReferences(ops: seq<Operation>, x: Page)
    requires After(ops).Some?
    ensures Net(ops, x) >= 0
    ensures x in After(ops).value <==> Net(ops, x) > 0
    ensures Net(ops, x) > 0 ==> After(ops).value[x] == Pin(4096 * Frame(LastVa(ops, x)), Net(ops, x))
  {
    hide Covering, PageNo, CoveredAbove, Inside, Frame;
    if ops != [] {
      CountsReferences(ops[..|ops| - 1], x);
    }
  }

  /** The table is the account of a run: each page with its references and its last address. */
  ghost predicate Accounts(ops: seq<Operation>, m: map<Page, Pin>)
  {
    forall x: Page ::
      && (x in m <==> Net(ops, x) > 0)
      && (x in m ==> m[x] == Pin(4096 * Frame(LastVa(ops, x)), Net(ops, x)))
  }

  lemma AllCounted(ops: seq<Operation>)
    requires After(ops).Some?
    ensures Accounts(ops, After(ops).value)
  {
    forall x: Page
      ensures var m := After(ops).value;
              (x in m <==> Net(ops, x) > 0) && (x in m ==> m[x] == Pin(4096 * Frame(LastVa(ops, x)), Net(ops, x)))
    {
      CountsReferences(ops, x);
    }
  }

  // ---------------------------------------------------------------- what an operation answers

  /** How a table operation ends: normally, with the error return, with a failed assertion, or
      by reading through an entry that is not a node. */
  datatype Outcome = Ok | Error | Assertion | Fault

  /** What an operation on a table answers when there is memory; stale says whether the 4KB entry for
      its address has outlived its count. */
  ghost function Answer(m: map<Page, Pin>, stale: bool, op: Operation): Outcome
  {
    match op
    case PinOp(iova, level, _) =>
      if CoveredAbove(m, PageNo(iova), level) then Error
      else if Named(op) in m && m[Named(op)].count == 255 then Assertion
      else Ok
    case UnpinOp(iova, level) =>
      if CoveredAbove(m, PageNo(iova), level) then Fault
      else if Named(op) in m then Ok
      else if level == 0 && stale then Assertion
      else Error
  }

  /** 4KB page q has been unpinned to zero, and since then neither pinned nor replaced by a larger
      page. */
  ghost function Spent(ops: seq<Operation>, q: nat): bool
  {
    if ops == [] then false else
      var x, op := Page(0, q), ops[|ops| - 1];
      if Named(op) == x then op.UnpinOp? && Net(ops, x) == 0
      else if op.PinOp? && Inside(x, Named(op)) then false
      else Spent(ops[..|ops| - 1], q)
  }

  /** A larger page over p is pinned after a run. */
  ghost predicate PinnedAbove(ops: seq<Operation>, p: nat, level: nat)
  {
    exists k: nat :: level < k <= 2 && Net(ops, Covering(p, k)) > 0
  }

  /** What an operation answers after a run, when there is memory. */
  ghost function Verdict(ops: seq<Operation>, op: Operation): Outcome
  {
    match op
    case PinOp(iova, level, _) =>
      if PinnedAbove(ops, PageNo(iova), level) then Error
      else if Net(ops, Named(op)) == 255 then Assertion
      else Ok
    case UnpinOp(iova, level) =>
      if PinnedAbove(ops, PageNo(iova), level) then Fault
      else if Net(ops, Named(op)) > 0 then Ok
      else if level == 0 && Spent(ops, PageNo(iova)) then Assertion
      else Error
  }

  lemma VerdictIs(ops: seq<Operation>, m: map<Page, Pin>, op: Operation)
    requires Accounts(ops, m)
    ensures Verdict(ops, op) == Answer(m, Spent(ops, PageNo(op.iova)), op)
  {
    hide Covering, PageNo, Net, LastVa, Frame, Spent;
    var p := PageNo(op.iova);
    if k: nat :| op.level < k <= 2 && Net(ops, Covering(p, k)) > 0 {
      assert Covering(p, k) in m;
    }
    if k: nat :| op.level < k <= 2 && Covering(p, k) in m {
      assert Net(ops, Covering(p, k)) > 0;
    }
  }

  /** The stale entries are those of spent pages. */
  ghost predicate StaleSpent(ops: seq<Operation>, mem: Mem, tree: Tree)
  {
    forall q: nat :: Stale(mem, tree, q) <==> Spent(ops, q)
  }

  lemma StartSpent(mem: Mem, tree: Tree)
    requires NothingStale(mem, tree)
    ensures StaleSpent([], mem, tree)
  {
    hide Stale;
  }

  lemma PinSpent(ops: seq<Operation>, n: nat, mem: Mem, tree: Tree, mem': Mem, tree': Tree)
    requires n < |ops| && ops[n].PinOp? && StaleSpent(ops[..n], mem, tree)
    requires PinnedStale(mem, tree, mem', tree', Named(ops[n]))
    ensures StaleSpent(ops[..n + 1], mem', tree')
  {
    hide Stale, Inside, Named, Net;
    assert ops[..n + 1][..n] == ops[..n];
  }

  lemma UnpinSpent(ops: seq<Operation>, n: nat, mem: Mem, tree: Tree, mem': Mem, tree': Tree)
    requires n < |ops| && ops[n].UnpinOp? && StaleSpent(ops[..n], mem, tree)
    requires Accounts(ops[..n], Table(mem, tree)) && Named(ops[n]) in Table(mem, tree)
    requires StaleAfter(mem, tree, mem', tree', Table(mem, tree), PageNo(ops[n].iova), ops[n].level)
    ensures StaleSpent(ops[..n + 1], mem', tree')
  {
    hide Inside, LastVa, Frame, PageNo, Table, Stale;
    assert ops[..n + 1][..n] == ops[..n];
    var x := Named(ops[n]);
    assert Net(ops[..n + 1], x) == Net(ops[..n], x) - 1;
    forall q: nat
      ensures Stale(mem', tree', q) <==> Spent(ops[..n + 1], q)
    {
      NotBothStale(mem, tree, q);
      assert Covering(q, 0) == Page(0, q);
    }
  }

  lemma NotBothStale(mem: Mem, tree: Tree, q: nat)
    ensures Stale(mem, tree, q) ==> Page(0, q) !in Table(mem, tree)
  {
    hide Table, Entry;
    TableDomain(mem, tree);
    if Page(0, q) in Table(mem, tree) {
      TableAt(mem, tree, 0, q);
    }
  }
}
