/** The host-side read completion engine as pure functions: how one memory response is cut
    into completions and where each completion is inserted into the pending list. */
module ReadCompletion {
  import opened ByteEnables

  /** Simulation parameters. ordered, tagMapper and unlimitedBw are the switches
      ordered_completions, emulate_tag_mapper and unlimited_bw_mode. */
  datatype Config = Config(
    rcb: nat,          // request completion boundary in bytes
    maxRd: nat,        // largest power-user read in bytes
    maxDmRd: nat,      // largest data-mover read in bytes
    numStates: nat,    // number of read states, one per tag
    tdataDw: nat,      // DWORDs on the data bus
    ordered: bool,
    tagMapper: bool,
    unlimitedBw: bool)

  /** DWORDs in a TLP header. */
  const HDR_DW: nat := 8

  function MaxAnyRd(c: Config): nat
  {
    if c.maxRd > c.maxDmRd then c.maxRd else c.maxDmRd
  }

  ghost predicate ValidConfig(c: Config)
  {
    && c.rcb > 0 && c.rcb % 4 == 0 && c.rcb <= c.maxRd
    && MaxAnyRd(c) % 4 == 0 && MaxAnyRd(c) < 0x1_0000
    && 0 < c.numStates < 0x8000_0000
    && c.tdataDw >= HDR_DW
  }

  /** The random generator: an arbitrary sequence of draws. */
  type Oracle = nat -> nat

  /** The fields of a recorded read request that completions depend on. */
  datatype Req = Req(lenBytes: nat, firstBe: Mask, lastBe: Mask, dm: bool, tag: nat, addr: nat)

  function LenDw(lenBytes: nat): nat
  {
    (lenBytes + 3) / 4
  }

  /** What the request checks establish about a recorded request. */
  predicate LegalReq(c: Config, req: Req)
  {
    && 0 < req.lenBytes <= MaxAnyRd(c)
    && LegalMasks(LenDw(req.lenBytes), req.firstBe, req.lastBe)
  }

  /** One pending completion packet. state indexes the read state, buf names the response
      buffer shared by all completions of one response. */
  datatype Cpl = Cpl(state: nat, buf: nat, startDw: nat, lenBytes: nat, byteCount: int,
                     isFirst: bool, isLast: bool)

  // ---------------------------------------------------------------- completion length

  function RandomLength(c: Config, o: Oracle, draws: nat, dwRem: nat, dm: bool): (r: (nat, nat))
    requires ValidConfig(c)
  {
    if !(c.ordered && dm) && dwRem > c.rcb / 4 then
      var maxChunks := c.maxRd / c.rcb;
      var rand := o(draws);
      MaxChunksPositive(c);
      var chunks := if rand == 0 then maxChunks else 1 + rand % maxChunks;
      var length := chunks * c.rcb / 4;
      (if dwRem <= length then dwRem else length, draws + 1)
    else
      (dwRem, draws)
  }

  lemma MaxChunksPositive(c: Config)
    requires ValidConfig(c)
    ensures c.maxRd / c.rcb > 0
  {
  }

  function Times(q: nat, k: nat): nat
  {
    q * k
  }

  /** n is a whole number of units of size k. */
  ghost predicate IsMultiple(n: nat, k: nat)
  {
    exists q: nat :: n == Times(q, k)
  }

  lemma ChunkLength(c: Config, chunks: nat)
    requires ValidConfig(c) && 1 <= chunks <= c.maxRd / c.rcb
    ensures 4 * (chunks * c.rcb / 4) == chunks * c.rcb
    ensures c.rcb <= chunks * c.rcb <= c.maxRd
  {
    ChunkBounds(chunks, c.rcb, c.maxRd / c.rcb, c.maxRd);
    WholeChunks(c.maxRd, c.rcb);
    FourTimes(chunks, c.rcb / 4, c.rcb);
  }

  lemma ChunkBounds(n: nat, rcb: nat, m: nat, maxRd: nat)
    requires 1 <= n <= m
    ensures rcb <= n * rcb && (m * rcb <= maxRd ==> n * rcb <= maxRd)
  {
    MulMono(n, m, rcb);
    MulMono(1, n, rcb);
  }

  lemma FourTimes(n: nat, q: nat, rcb: nat)
    requires rcb == 4 * q
    ensures 4 * (n * rcb / 4) == n * rcb
  {
    assert n * rcb == 4 * (n * q);
  }

  lemma WholeChunks(a: nat, b: nat)
    requires b > 0
    ensures a / b * b <= a
  {
  }

  lemma MulMono(a: nat, b: nat, k: nat)
    requires a <= b
    ensures a * k <= b * k
  {
  }

  /** Every completion carries data and fits; one that is not the rest of the request is a
      whole number of completion boundaries, and no larger than a read may be. */
  lemma RandomLengthBounds(c: Config, o: Oracle, draws: nat, dwRem: nat, dm: bool)
    requires ValidConfig(c) && dwRem > 0
    ensures var n := RandomLength(c, o, draws, dwRem, dm).0;
            && 0 < n <= dwRem
            && (n < dwRem ==> IsMultiple(4 * n, c.rcb) && c.rcb <= 4 * n <= c.maxRd && !(c.ordered && dm))
  {
    if !(c.ordered && dm) && dwRem > c.rcb / 4 {
      var maxChunks := c.maxRd / c.rcb;
      MaxChunksPositive(c);
      var rand := o(draws);
      var chunks := if rand == 0 then maxChunks else 1 + rand % maxChunks;
      ChunkLength(c, chunks);
      assert chunks * c.rcb == Times(chunks, c.rcb);
    }
  }

  /** Every whole number of completion boundaries up to the largest read can be drawn, and is the length
      of the completion if the request has more than that left. */
  lemma EveryLength(c: Config, draws: nat, dwRem: nat, dm: bool, chunks: nat) returns (o: Oracle)
    requires ValidConfig(c) && !c.ordered && 1 <= chunks <= c.maxRd / c.rcb && chunks * c.rcb < 4 * dwRem
    ensures 4 * RandomLength(c, o, draws, dwRem, dm).0 == chunks * c.rcb
  {
    var m := c.maxRd / c.rcb;
    var draw: nat := if chunks == m then 0 else chunks - 1 + m;
    o := _ => draw;
    ChunkLength(c, chunks);
    if chunks < m {
      SmallMod(chunks - 1, m);
    }
  }

  lemma SmallMod(a: nat, m: nat)
    requires a < m
    ensures (a + m) % m == a
  {
  }

  // ---------------------------------------------------------------- pending list order

  /** How many pending completions a new one may overtake. */
  function NumLater(c: Config, o: Oracle, draws: nat): (r: (nat, nat))
    ensures r.0 <= 5
  {
    var r := if c.ordered then 0 else o(draws) % 256;
    var draws' := if c.ordered then draws else draws + 1;
    (if r >= 0x80 || r == 0 then 0 else if r >= 0x20 then 5 else if r >= 0x10 then 2 else 1, draws')
  }

  /** How many others a draw lets a completion overtake. */
  function Later(c: Config, draw: nat): nat
  {
    NumLater(c, _ => draw, 0).0
  }

  lemma LaterIs(c: Config, draw: nat)
    requires !c.ordered && draw < 256
    ensures Later(c, draw)
         == if draw == 0 || draw >= 128 then 0 else if draw < 16 then 1 else if draw < 32 then 2 else 5
  {
  }

  /** How many of the draws below d let a completion overtake n others. */
  function Allowing(c: Config, n: nat, d: nat): nat
  {
    if d == 0 then 0 else Allowing(c, n, d - 1) + (if Later(c, d - 1) == n then 1 else 0)
  }

  /** The draws below d that are in [from, to). */
  function Within(d: nat, from: nat, to: nat): nat
  {
    if d <= from then 0 else if d < to then d - from else if from < to then to - from else 0
  }

  lemma {:induction false} AllowingUpTo(c: Config, n: nat, d: nat)
    requires !c.ordered && d <= 256
    ensures Allowing(c, n, d) ==
              match n
              case 0 => Within(d, 0, 1) + Within(d, 128, 256)
              case 1 => Within(d, 1, 16)
              case 2 => Within(d, 16, 32)
              case 5 => Within(d, 32, 128)
              case _ => 0
  {
    if d > 0 {
      LaterIs(c, d - 1);
      hide Later;
      AllowingUpTo(c, n, d - 1);
    }
  }

  /** Of the 256 values of a draw, 129 let a completion overtake none, 15 one, 16 two and 96 five. */
  lemma LaterShares(c: Config)
    requires !c.ordered
    ensures Allowing(c, 0, 256) == 129 && Allowing(c, 1, 256) == 15
    ensures Allowing(c, 2, 256) == 16 && Allowing(c, 5, 256) == 96
  {
    AllowingUpTo(c, 0, 256);
    AllowingUpTo(c, 1, 256);
    AllowingUpTo(c, 2, 256);
    AllowingUpTo(c, 5, 256);
  }

  /** The walk from position p towards the head: the new completion goes after the result. */
  function WalkBack(list: seq<Cpl>, st: nat, p: nat, n: nat): (q: nat)
    requires p < |list|
    ensures q <= p && p - q <= n
    ensures forall i :: q < i <= p ==> list[i].state != st
    ensures p - q < n ==> q == 0 || list[q].state == st
    decreases n
  {
    if n == 0 || list[p].state == st || p == 0 then p else WalkBack(list, st, p - 1, n - 1)
  }

  function Insert(list: seq<Cpl>, k: nat, cpl: Cpl): seq<Cpl>
    requires k <= |list|
  {
    list[..k] + [cpl] + list[k..]
  }

  function InsertAt(list: seq<Cpl>, st: nat, n: nat): (k: nat)
    ensures k <= |list|
  {
    if list == [] then 0 else WalkBack(list, st, |list| - 1, n) + 1
  }

  function Push(list: seq<Cpl>, cpl: Cpl, n: nat): seq<Cpl>
  {
    Insert(list, InsertAt(list, cpl.state, n), cpl)
  }

  /** The pending completions of one response, in list order. */
  function Of(list: seq<Cpl>, h: nat): seq<Cpl>
  {
    if list == [] then []
    else (if list[0].buf == h then [list[0]] else []) + Of(list[1..], h)
  }

  lemma {:induction false} OfConcat(a: seq<Cpl>, b: seq<Cpl>, h: nat)
    ensures Of(a + b, h) == Of(a, h) + Of(b, h)
  {
    if a == [] {
      assert a + b == b;
    } else {
      var head := if a[0].buf == h then [a[0]] else [];
      OfConcat(a[1..], b, h);
      assert (a + b)[0] == a[0] && (a + b)[1..] == a[1..] + b;
      assert Of(a + b, h) == head + (Of(a[1..], h) + Of(b, h));
      assert Of(a, h) == head + Of(a[1..], h);
    }
  }

  lemma {:induction false} OfNone(a: seq<Cpl>, h: nat)
    requires forall i :: 0 <= i < |a| ==> a[i].buf != h
    ensures Of(a, h) == []
  {
    if a != [] {
      OfNone(a[1..], h);
    }
  }

  lemma OfInsert(list: seq<Cpl>, k: nat, cpl: Cpl, h: nat)
    requires k <= |list|
    requires h == cpl.buf ==> forall i :: k <= i < |list| ==> list[i].buf != h
    ensures Of(Insert(list, k, cpl), h) == Of(list, h) + (if h == cpl.buf then [cpl] else [])
  {
    assert list == list[..k] + list[k..];
    OfConcat(list[..k], list[k..], h);
    OfConcat(list[..k] + [cpl], list[k..], h);
    OfConcat(list[..k], [cpl], h);
    assert Of([cpl], h) == (if h == cpl.buf then [cpl] else []);
    if h == cpl.buf {
      OfNone(list[k..], h);
    }
  }

  /** Random insertion never displaces the head, overtakes at most n completions, none of
      the same request, and keeps every response's completions in the order they were
      pushed. */
  lemma PushKeepsOrder(list: seq<Cpl>, cpl: Cpl, n: nat)
    requires forall i :: 0 <= i < |list| && list[i].buf == cpl.buf ==> list[i].state == cpl.state
    ensures list != [] ==> Push(list, cpl, n)[0] == list[0]
    ensures var k := InsertAt(list, cpl.state, n);
            && |list| - k <= n
            && forall i :: k <= i < |list| ==> list[i].state != cpl.state
    ensures forall h :: Of(Push(list, cpl, n), h) == Of(list, h) + (if h == cpl.buf then [cpl] else [])
  {
    forall h
      ensures Of(Push(list, cpl, n), h) == Of(list, h) + (if h == cpl.buf then [cpl] else [])
    {
      OfInsert(list, InsertAt(list, cpl.state, n), cpl, h);
    }
  }

  // ---------------------------------------------------------------- the split loop

  /** The loop variables of the splitting loop; made records the completions in the order
      they were created. */
  datatype Split = Split(list: seq<Cpl>, made: seq<Cpl>, draws: nat, startDw: nat, dwRem: nat,
                         bytesRem: int, countRem: int)

  function SplitStart(list: seq<Cpl>, draws: nat, req: Req): Split
    requires Countable(LenDw(req.lenBytes), req.firstBe, req.lastBe)
  {
    Split(list, [], draws, 0, LenDw(req.lenBytes), req.lenBytes,
          Span(LenDw(req.lenBytes), req.firstBe, req.lastBe))
  }

  predicate SplitReady(c: Config, req: Req, s: Split)
  {
    && LegalReq(c, req)
    && s.dwRem > 0
    && s.startDw + s.dwRem == LenDw(req.lenBytes)
    && s.bytesRem == req.lenBytes - 4 * s.startDw
  }

  /** The completion of n DWORDs that the loop creates next. */
  function NextCpl(c: Config, req: Req, st: nat, buf: nat, s: Split, n: nat): Cpl
    requires SplitReady(c, req, s) && 0 < n <= s.dwRem
  {
    Cpl(st, buf, s.startDw, if n == s.dwRem then s.bytesRem else 4 * n, s.countRem, s.startDw == 0, n == s.dwRem)
  }

  function NextSpan(c: Config, req: Req, s: Split, n: nat): int
    requires SplitReady(c, req, s) && 0 < n <= s.dwRem
  {
    Span(n, if s.startDw == 0 then req.firstBe else ALL, if n == s.dwRem then req.lastBe else ALL)
  }

  function SplitOne(c: Config, o: Oracle, req: Req, st: nat, buf: nat, s: Split): (s': Split)
    requires ValidConfig(c) && SplitReady(c, req, s)
    ensures s'.dwRem < s.dwRem
    ensures s'.dwRem > 0 ==> SplitReady(c, req, s')
  {
    RandomLengthBounds(c, o, s.draws, s.dwRem, req.dm);
    var (n, draws1) := RandomLength(c, o, s.draws, s.dwRem, req.dm);
    var cpl := NextCpl(c, req, st, buf, s, n);
    var (later, draws2) := NumLater(c, o, draws1);
    Split(Push(s.list, cpl, later), s.made + [cpl], draws2, s.startDw + n, s.dwRem - n, s.bytesRem - 4 * n,
          s.countRem - NextSpan(c, req, s, n))
  }

  function SplitLoop(c: Config, o: Oracle, req: Req, st: nat, buf: nat, s: Split): Split
    requires ValidConfig(c) && SplitReady(c, req, s)
    decreases s.dwRem
  {
    var s' := SplitOne(c, o, req, st, buf, s);
    if s'.dwRem > 0 then SplitLoop(c, o, req, st, buf, s') else s'
  }

  /** The whole splitting loop, from the list and the draws it starts with. */
  function SplitAll(c: Config, o: Oracle, req: Req, st: nat, buf: nat, list: seq<Cpl>, draws: nat): Split
    requires ValidConfig(c) && LegalReq(c, req)
  {
    SplitLoop(c, o, req, st, buf, SplitStart(list, draws, req))
  }

  /** Enabled bytes of the request from DWORD dw on: what byte_count must announce. */
  function Remaining(req: Req, dw: nat): int
    requires LegalMasks(LenDw(req.lenBytes), req.firstBe, req.lastBe)
  {
    var n := LenDw(req.lenBytes);
    if req.firstBe == 0 then 1
    else
      var first := FirstByte(n, req.firstBe, req.lastBe);
      LastByte(n, req.firstBe, req.lastBe) - (if first < 4 * dw then 4 * dw else first) + 1
  }

  /** Completion number i of a response starts at DWORD start, is marked first exactly when
      i is 0, belongs to the request, and announces the enabled bytes from its start on. */
  ghost predicate IsPiece(c: Config, req: Req, st: nat, buf: nat, start: nat, i: nat, p: Cpl)
  {
    && p.state == st && p.buf == buf
    && p.startDw == start
    && p.isFirst == (i == 0)
    && p.lenBytes > 0
    && LegalMasks(LenDw(req.lenBytes), req.firstBe, req.lastBe)
    && p.byteCount == Remaining(req, p.startDw)
    && (!p.isLast ==> IsMultiple(p.lenBytes, c.rcb) && p.lenBytes % 4 == 0 && c.rcb <= p.lenBytes <= c.maxRd)
  }

  /** Completion i starts where completion i - 1 ended. */
  ghost predicate Piece(c: Config, req: Req, st: nat, buf: nat, made: seq<Cpl>, i: nat)
    requires i < |made|
  {
    IsPiece(c, req, st, buf, if i == 0 then 0 else EndOf(made[i - 1]), i, made[i])
  }

  function EndOf(p: Cpl): nat
  {
    p.startDw + LenDw(p.lenBytes)
  }

  function EndDw(made: seq<Cpl>): nat
  {
    if made == [] then 0 else EndOf(made[|made| - 1])
  }

  ghost predicate SplitInv(c: Config, req: Req, st: nat, buf: nat, s: Split)
  {
    && SplitReady(c, req, s)
    && (forall i :: 0 <= i < |s.made| ==> Piece(c, req, st, buf, s.made, i) && !s.made[i].isLast)
    && s.startDw == EndDw(s.made)
    && (s.startDw == 0 <==> s.made == [])
    && s.countRem == Remaining(req, s.startDw)
  }

  /** The completions made for a response tile the request. */
  ghost predicate Tiles(c: Config, req: Req, st: nat, buf: nat, made: seq<Cpl>)
  {
    && made != []
    && (forall i :: 0 <= i < |made| ==> Piece(c, req, st, buf, made, i))
    && (forall i :: 0 <= i < |made| ==> made[i].isLast == (i == |made| - 1))
    && 4 * made[|made| - 1].startDw + made[|made| - 1].lenBytes == req.lenBytes
  }

  /** The byte count left after a piece is what the next piece must announce. */
  lemma CountStep(c: Config, req: Req, s: Split, n: nat)
    requires SplitReady(c, req, s) && 0 < n <= s.dwRem
    ensures Remaining(req, s.startDw) - NextSpan(c, req, s, n)
         == if n == s.dwRem then 0 else Remaining(req, s.startDw + n)
  {
  }

  lemma NextIsPiece(c: Config, req: Req, st: nat, buf: nat, s: Split, n: nat)
    requires SplitReady(c, req, s) && 0 < n <= s.dwRem
    requires s.startDw == 0 <==> s.made == []
    requires s.countRem == Remaining(req, s.startDw)
    requires n < s.dwRem ==> IsMultiple(4 * n, c.rcb) && c.rcb <= 4 * n <= c.maxRd
    ensures var p := NextCpl(c, req, st, buf, s, n);
            && EndOf(p) == s.startDw + n
            && IsPiece(c, req, st, buf, s.startDw, |s.made|, p)
  {
  }

  lemma Extend(c: Config, req: Req, st: nat, buf: nat, made: seq<Cpl>, p: Cpl)
    requires forall i :: 0 <= i < |made| ==> Piece(c, req, st, buf, made, i)
    requires IsPiece(c, req, st, buf, EndDw(made), |made|, p)
    ensures forall i :: 0 <= i < |made| + 1 ==> Piece(c, req, st, buf, made + [p], i)
  {
    forall i | 0 <= i < |made| + 1
      ensures Piece(c, req, st, buf, made + [p], i)
    {
      if i < |made| {
        assert Piece(c, req, st, buf, made, i);
      }
    }
  }

  lemma NextPiece(c: Config, req: Req, st: nat, buf: nat, s: Split, n: nat)
    requires ValidConfig(c) && SplitInv(c, req, st, buf, s) && 0 < n <= s.dwRem
    requires n < s.dwRem ==> IsMultiple(4 * n, c.rcb) && c.rcb <= 4 * n <= c.maxRd
    ensures var made := s.made + [NextCpl(c, req, st, buf, s, n)];
            && (forall i :: 0 <= i < |made| ==> Piece(c, req, st, buf, made, i))
            && EndDw(made) == s.startDw + n
  {
    NextIsPiece(c, req, st, buf, s, n);
    Extend(c, req, st, buf, s.made, NextCpl(c, req, st, buf, s, n));
  }

  /** What one round of the loop does to its variables. */
  lemma SplitOneEffect(c: Config, o: Oracle, req: Req, st: nat, buf: nat, s: Split) returns (n: nat)
    requires ValidConfig(c) && SplitReady(c, req, s)
    ensures 0 < n <= s.dwRem && (n < s.dwRem ==> IsMultiple(4 * n, c.rcb) && c.rcb <= 4 * n <= c.maxRd)
    ensures var s' := SplitOne(c, o, req, st, buf, s);
            && s'.made == s.made + [NextCpl(c, req, st, buf, s, n)]
            && s'.startDw == s.startDw + n && s'.dwRem == s.dwRem - n
            && s'.bytesRem == s.bytesRem - 4 * n && s'.countRem == s.countRem - NextSpan(c, req, s, n)
  {
    RandomLengthBounds(c, o, s.draws, s.dwRem, req.dm);
    n := RandomLength(c, o, s.draws, s.dwRem, req.dm).0;
  }

  lemma SplitOneInv(c: Config, o: Oracle, req: Req, st: nat, buf: nat, s: Split)
    requires ValidConfig(c) && SplitInv(c, req, st, buf, s)
    ensures var s' := SplitOne(c, o, req, st, buf, s);
            && (s'.dwRem > 0 ==> SplitInv(c, req, st, buf, s'))
            && (s'.dwRem == 0 ==> s'.countRem == 0 && Tiles(c, req, st, buf, s'.made))
  {
    hide SplitOne, NextSpan, Remaining, Piece, LegalReq, IsMultiple;
    var n := SplitOneEffect(c, o, req, st, buf, s);
    CountStep(c, req, s, n);
    NextPiece(c, req, st, buf, s, n);
  }

  /** What the split loop guarantees: the completions tile the request, the byte count is
      used up, and each completion was pushed onto the list in address order. */
  lemma {:induction false} SplitTiles(c: Config, o: Oracle, req: Req, st: nat, buf: nat, s: Split)
    requires ValidConfig(c) && SplitInv(c, req, st, buf, s)
    ensures var f := SplitLoop(c, o, req, st, buf, s);
            && f.dwRem == 0 && f.countRem == 0
            && Tiles(c, req, st, buf, f.made)
            && |s.made| <= |f.made| && f.made[..|s.made|] == s.made
    decreases s.dwRem
  {
    hide Piece, LegalReq, Remaining, RandomLength;
    SplitOneInv(c, o, req, st, buf, s);
    var s' := SplitOne(c, o, req, st, buf, s);
    if s'.dwRem > 0 {
      SplitTiles(c, o, req, st, buf, s');
      var f := SplitLoop(c, o, req, st, buf, s');
      assert f.made[..|s.made|] == f.made[..|s'.made|][..|s.made|];
    }
  }
}
