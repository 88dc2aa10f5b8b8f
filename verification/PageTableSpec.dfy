/** The simulated IOMMU page table as memory words, and what well-formed contents mean. */
module PageTableSpec {
  import opened Wrappers

  /** A 64-bit address. */
  type Address = a: nat | a < 0x1_0000_0000_0000_0000

  /** Number of 4KB frames that address bits 12 to 62 can name. */
  const FRAMES: nat := 0x8_0000_0000_0000

  /** A 64-bit table word by its bit fields: bit 63, bits 62 to 12, and bits 11 to 0, whose
      low eight hold the reference count of a page entry. */
  datatype Word = Word(flag: bool, frame: nat, low: nat)

  const ZERO := Word(false, 0, 0)

  /** Bit 63 marks an entry that refers to a user page instead of a table node. */
  predicate IsTerminal(w: Word)
  {
    w.flag
  }

  /** The value of a node pointer is a user-space address: not null, bit 63 clear. */
  predicate IsPointer(w: Word)
  {
    !w.flag && w != ZERO
  }

  function RefCount(w: Word): (c: nat)
    ensures c < 256
  {
    w.low % 256
  }

  /** The address bits of an entry: bits 12 to 62. */
  function Addr(w: Word): nat
  {
    4096 * w.frame
  }

  /** The frame that an address contributes to an entry: its bits 12 to 62. */
  function Frame(a: Address): (f: nat)
    ensures f < FRAMES
  {
    a / 4096 % FRAMES
  }

  /** Replace the address bits of an entry, keeping the flag bit and the low 12 bits. */
  function SetAddr(w: Word, addr: Address): Word
  {
    w.(frame := Frame(addr))
  }

  /** Stepping the low bits steps the count, short of its ends. */
  lemma CountStep(low: nat)
    ensures low % 256 < 255 ==> (low + 1) % 256 == low % 256 + 1
    ensures low % 256 > 0 ==> (low - 1) % 256 == low % 256 - 1
  {
    var q, c := low / 256, low % 256;
    assert low == 256 * q + c;
  }

  /** Count one more reference; None is a failed assertion. */
  function Incr(w: Word): (r: Option<Word>)
    ensures r.Some? ==>
              IsTerminal(r.value) && RefCount(r.value) == (if w == ZERO then 1 else RefCount(w) + 1)
    ensures r == None <==> w != ZERO && (!IsTerminal(w) || RefCount(w) == 255)
  {
    CountStep(w.low);
    if w == ZERO then Some(Word(true, 0, 1))
    else if !IsTerminal(w) || RefCount(w) == 255 then None
    else Some(w.(low := w.low + 1))
  }

  /** Count one reference less; None is a failed assertion. */
  function Decr(w: Word): (r: Option<Word>)
    ensures r.Some? ==>
              IsTerminal(r.value) && RefCount(r.value) == RefCount(w) - 1 && Addr(r.value) == Addr(w)
    ensures r == None <==> !IsTerminal(w) || RefCount(w) == 0
  {
    CountStep(w.low);
    if !IsTerminal(w) || RefCount(w) == 0 then None else Some(w.(low := w.low - 1))
  }

  // ---------------------------------------------------------------- addresses and indices

  /** Number of pages of a level in the 48-bit space. */
  function PageCount(level: nat): nat
    requires level <= 3
  {
    match level
    case 0 => 0x10_0000_0000
    case 1 => 0x800_0000
    case 2 => 0x4_0000
    case 3 => 0x200
  }

  /** The page k levels up that contains page p: shift by nine bits k times. */
  function Up(p: nat, k: nat): nat
  {
    if k == 0 then p else Up(p, k - 1) / 512
  }

  /** Index of an address in a table node of a level: drop the 4KB offset and nine bits per
      level, keep nine. */
  function Idx(addr: Address, level: nat): (i: nat)
    requires level <= 3
    ensures i < 512
  {
    Up(addr / 4096, level) % 512
  }

  /** Number of the 4KB page of an address. The table uses 48 address bits. */
  function PageNo(addr: Address): (p: nat)
    ensures p < PageCount(0)
  {
    Idx(addr, 0) + 512 * (Idx(addr, 1) + 512 * (Idx(addr, 2) + 512 * Idx(addr, 3)))
  }

  lemma UpDivides(p: nat)
    requires p < PageCount(0)
    ensures Up(p, 0) == p && Up(p, 1) == p / 512 && Up(p, 2) == p / 512 / 512 && Up(p, 3) == p / 512 / 512 / 512
    ensures Up(p, 4) == 0
  {
    assert Up(p, 1) == p / 512;
    assert Up(p, 2) == p / 512 / 512;
    assert Up(p, 3) == p / 512 / 512 / 512;
    assert Up(p, 4) == p / 512 / 512 / 512 / 512;
  }

  /** The index taken from an address is that of the page containing it at the level. */
  lemma IdxIsUp(addr: Address, level: nat)
    requires level <= 3
    ensures Idx(addr, level) == Up(PageNo(addr), level) % 512
  {
    var i0, i1, i2, i3 := Idx(addr, 0), Idx(addr, 1), Idx(addr, 2), Idx(addr, 3);
    var p := PageNo(addr);
    UpDivides(p);
    assert p / 512 == i1 + 512 * (i2 + 512 * i3);
    assert p / 512 / 512 == i2 + 512 * i3;
    assert p / 512 / 512 / 512 == i3;
  }

  lemma {:induction false} UpUp(p: nat, j: nat, k: nat)
    ensures Up(Up(p, j), k) == Up(p, j + k)
  {
    if k > 0 {
      UpUp(p, j, k - 1);
    }
  }

  // ---------------------------------------------------------------- table nodes

  /** A table node: its level and the number of the page one level up that it describes. */
  datatype Node = Node(level: nat, prefix: nat)

  const ROOT := Node(3, 0)

  function Parent(x: Node): Node
  {
    Node(x.level + 1, x.prefix / 512)
  }

  function Child(x: Node, i: nat): Node
    requires x.level > 0
  {
    Node(x.level - 1, 512 * x.prefix + i)
  }

  /** Node memory by address, and where each node of the tree is. */
  type Mem = map<Word, seq<Word>>
  type Tree = map<Node, Word>

  ghost predicate NodeOk(mem: Mem, tree: Tree, x: Node)
    requires x in tree
  {
    && x.level <= 3
    && tree[x] in mem && |mem[tree[x]]| == 512
    && IsPointer(tree[x])
    && (x.level == 3 ==> x == ROOT)
    && (x.level < 3 ==> Parent(x) in tree && tree[Parent(x)] in mem && |mem[tree[Parent(x)]]| == 512
                        && mem[tree[Parent(x)]][x.prefix % 512] == tree[x])
  }

  /** Entry i of a node is empty, a user page, or the node below. A 4KB entry keeps its flag
      bit when its count drops to zero; larger ones are cleared. */
  ghost predicate EntryOk(mem: Mem, tree: Tree, x: Node, i: nat)
    requires x in tree && tree[x] in mem && |mem[tree[x]]| == 512 && i < 512
  {
    var w := mem[tree[x]][i];
    || w == ZERO
    || (IsTerminal(w) && x.level <= 2 && (x.level > 0 ==> RefCount(w) > 0))
    || (x.level > 0 && Child(x, i) in tree && w == tree[Child(x, i)])
  }

  ghost predicate NodesOk(mem: Mem, tree: Tree)
  {
    forall x :: x in tree ==> NodeOk(mem, tree, x)
  }

  ghost predicate EntriesOk(mem: Mem, tree: Tree)
    requires NodesOk(mem, tree)
  {
    forall x, i :: x in tree && 0 <= i < 512 ==> EntryOk(mem, tree, x, i)
  }

  ghost predicate Injective(tree: Tree)
  {
    forall x, y :: x in tree && y in tree && tree[x] == tree[y] ==> x == y
  }

  /** Every allocated node belongs to the tree. */
  ghost predicate NoLeak(mem: Mem, tree: Tree)
  {
    forall a :: a in mem ==> a in tree.Values
  }

  ghost predicate WellFormed(mem: Mem, tree: Tree)
  {
    ROOT in tree && NodesOk(mem, tree) && EntriesOk(mem, tree) && Injective(tree) && NoLeak(mem, tree)
  }

  /** The entry for page n of a level; ZERO where no node exists. */
  ghost function Entry(mem: Mem, tree: Tree, level: nat, n: nat): Word
  {
    var x := Node(level, n / 512);
    if x in tree && tree[x] in mem && |mem[tree[x]]| == 512 then mem[tree[x]][n % 512] else ZERO
  }

  /** Page n of a level is pinned. */
  ghost predicate Live(mem: Mem, tree: Tree, level: nat, n: nat)
  {
    level <= 2 && IsTerminal(Entry(mem, tree, level, n)) && RefCount(Entry(mem, tree, level, n)) > 0
  }

  // ---------------------------------------------------------------- the table as a map

  datatype Page = Page(level: nat, num: nat)
  datatype Pin = Pin(va: nat, count: nat)

  /** The map holds every pinned page, and no other, with its address and reference count. */
  ghost predicate IsTable(t: map<Page, Pin>, mem: Mem, tree: Tree)
  {
    && (forall x :: x in t <==> x.level <= 2 && x.num < PageCount(x.level) && Live(mem, tree, x.level, x.num))
    && (forall x :: x in t ==>
          t[x] == Pin(Addr(Entry(mem, tree, x.level, x.num)), RefCount(Entry(mem, tree, x.level, x.num))))
  }

  lemma TableExists(mem: Mem, tree: Tree)
    ensures exists t :: IsTable(t, mem, tree)
  {
    hide Live, Entry, Addr, RefCount, PageCount;
    var live := set level: nat, n: nat | level <= 2 && n < PageCount(level) && Live(mem, tree, level, n) ::
        Page(level, n);
    forall x: Page | x.level <= 2 && x.num < PageCount(x.level) && Live(mem, tree, x.level, x.num)
      ensures x in live
    {
      assert x == Page(x.level, x.num);
    }
    var t := map x | x in live ::
        Pin(Addr(Entry(mem, tree, x.level, x.num)), RefCount(Entry(mem, tree, x.level, x.num)));
    assert IsTable(t, mem, tree);
  }

  /** What the table says. */
  ghost function Table(mem: Mem, tree: Tree): map<Page, Pin>
  {
    TableExists(mem, tree);
    var t :| IsTable(t, mem, tree);
    t
  }

  /** The page of a level that contains 4KB page p. */
  function Covering(p: nat, level: nat): Page
  {
    Page(level, Up(p, level))
  }

  /** Page x lies strictly inside page y. */
  predicate Inside(x: Page, y: Page)
  {
    x.level < y.level && Up(x.num, y.level - x.level) == y.num
  }

  lemma {:induction false} UpBound(p: nat, level: nat)
    requires p < PageCount(0) && level <= 3
    ensures Up(p, level) < PageCount(level)
  {
    assert Up(p, 1) == p / 512;
    assert Up(p, 2) == p / 512 / 512;
    assert Up(p, 3) == p / 512 / 512 / 512;
  }

  /** The ancestors of a node are in the tree, and the entries on the way are nodes. */
  lemma {:induction false} Ancestors(mem: Mem, tree: Tree, x: Node, k: nat)
    requires NodesOk(mem, tree) && x in tree && x.level + k <= 3
    ensures Node(x.level + k, Up(x.prefix, k)) in tree
    ensures k > 0 ==> var w := Entry(mem, tree, x.level + k, Up(x.prefix, k - 1)); IsPointer(w)
  {
    if k > 0 {
      Ancestors(mem, tree, x, k - 1);
      var y := Node(x.level + k - 1, Up(x.prefix, k - 1));
      assert NodeOk(mem, tree, y);
      assert Parent(y) == Node(x.level + k, Up(x.prefix, k));
    }
  }

  lemma InsideNode(x: Page, y: Page)
    requires Inside(x, y)
    ensures Up(x.num / 512, y.level - x.level - 1) == y.num
  {
    assert Up(x.num, 1) == x.num / 512;
    UpUp(x.num, 1, y.level - x.level - 1);
  }

  lemma PinnedEntry(mem: Mem, tree: Tree, x: Page)
    requires x in Table(mem, tree)
    ensures x.level <= 2 && IsTerminal(Entry(mem, tree, x.level, x.num)) && Node(x.level, x.num / 512) in tree
  {
    assert Live(mem, tree, x.level, x.num);
  }

  /** Pinned pages of different sizes never overlap. */
  lemma PinnedDisjoint(mem: Mem, tree: Tree, x: Page, y: Page)
    requires WellFormed(mem, tree)
    requires x in Table(mem, tree) && y in Table(mem, tree)
    ensures !Inside(x, y)
  {
    hide Table, Entry, Up, NodesOk, EntriesOk, Injective, NoLeak;
    if Inside(x, y) {
      InsideNode(x, y);
      PinnedEntry(mem, tree, x);
      PinnedEntry(mem, tree, y);
      Ancestors(mem, tree, Node(x.level, x.num / 512), y.level - x.level);
    }
  }
}
