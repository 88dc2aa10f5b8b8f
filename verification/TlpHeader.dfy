/** TLP headers: packing into eight DWORDs of the bus, and unpacking power-user ones. */
module TlpHeader {

  /** A DWORD of the bus. */
  datatype Dword = Dword(v: bv32)

  const ZERO := Dword(0)

  // The groups of header fields that share DWORDs. Each field is the 32-bit word in which the
  // code shifts and masks it.

  datatype Function = Function(bar: bv32, mm: bv32, slot: bv32, active: bv32, vf: bv32, pf: bv32)
  datatype Prefix = Prefix(present: bv32, kind: bv32, pref: bv32)
  datatype Metadata = Metadata(value: bv64)
  datatype Frame = Frame(fmtType: bv32, len: bv32, tag: bv32, reqId: bv32)
  datatype Attr = Attr(ln: bv32, th: bv32, td: bv32, ep: bv32, at: bv32)

  /** The fields of one kind of header. */
  datatype Body =
    | Req(addr: bv64, lastBe: bv32, firstBe: bv32, attr: Attr)
    | Cpl(compId: bv32, status: bv32, bcm: bv32, byteCount: bv32, lowAddr: bv32, fc: bool)
    | Msg(msg2: bv32, msg1: bv32, msg0: bv32, code: bv32)
    | Other

  /** An unpacked header; dm tells a data-mover header from a power-user one. */
  datatype Hdr = Hdr(dm: bool, metadata: Metadata, fn: Function, prefix: Prefix, frame: Frame, body: Body)

  /** The bus DWORDs of a header. */
  datatype Wire = Wire(d0: Dword, d1: Dword, d2: Dword, d3: Dword, d4: Dword, d5: Dword, d6: Dword, d7: Dword)

  datatype Kind = MemReq | Completion | Message | Unknown

  predicate IsAtomic(f: bv32)
  {
    f & 0x40 != 0 && f & 0x1c == 0xc
  }

  /** The kind of header that a type byte calls for. */
  function KindOf(f: bv32): Kind
  {
    if f & 0x1f == 0 || IsAtomic(f) then MemReq
    else if f & 0x1f == 0xa then Completion
    else if f & 0xb8 == 0x30 then Message
    else Unknown
  }

  predicate IsAddr64(f: bv32)
  {
    f & 32 != 0
  }

  predicate IsByte(f: bv32)
  {
    f < 0x100
  }

  /** The header's type is a byte, and it has the fields that the type calls for. */
  predicate Typed(h: Hdr)
  {
    && IsByte(h.frame.fmtType)
    && match KindOf(h.frame.fmtType)
       case MemReq => h.body.Req?
       case Completion => h.body.Cpl?
       case Message => if h.dm then h.body.Other? else h.body.Msg?
       case Unknown => h.body.Other?
  }

  // ---------------------------------------------------------------- packing

  function PackType(f: Frame): Dword
  {
    Dword((f.fmtType << 24) | (((f.tag >> 9) & 1) << 23) | (((f.tag >> 8) & 1) << 19) | ((f.len >> 2) & 0x3ff))
  }

  function PackPrefix(p: Prefix): Dword
  {
    Dword((p.present << 29) | (p.kind << 24) | p.pref)
  }

  function PackFunction(f: Function): Dword
  {
    Dword((f.bar << 25) | (f.mm << 24) | (f.slot << 15) | (f.active << 14) | (f.vf << 3) | f.pf)
  }

  function High32(a: bv64): Dword
  {
    Dword((a >> 32) as bv32)
  }

  function Low32(a: bv64): Dword
  {
    Dword((a & 0xffff_ffff) as bv32)
  }

  /** Requester, low tag byte and last byte. */
  function PackTag(f: Frame, low: bv32): Dword
  {
    Dword((f.reqId << 16) | ((f.tag & 0xff) << 8) | low)
  }

  /** The last byte of the tag DWORD. */
  function LowByte(b: Body): bv32
  {
    match b
    case Req(_, lastBe, firstBe, _) => (lastBe << 4) | firstBe
    case Cpl(_, _, _, _, lowAddr, _) => lowAddr & 0x7f
    case Msg(_, _, _, code) => code
    case Other => 0
  }

  function PackStatus(b: Body): Dword
    requires b.Cpl?
  {
    Dword((b.compId << 16) | (b.status << 13) | (b.bcm << 12) | b.byteCount)
  }

  /** A data-mover completion's tag, fc flag, the ends of its length and the high part of its
      address. */
  function PackDmTag(f: Frame, b: Body): Dword
    requires b.Cpl?
  {
    Dword((f.tag << 22) | ((if b.fc then 1 else 0) << 21) | (((f.len >> 12) & 3) << 18) | ((f.len & 3) << 16)
          | ((b.lowAddr >> 8) & 0xffff))
  }

  function PackDmLow(b: Body): Dword
    requires b.Cpl?
  {
    Dword(b.lowAddr & 0xff)
  }

  function PackDmStatus(b: Body): Dword
    requires b.Cpl?
  {
    Dword(b.status << 13)
  }

  /** The low address DWORD without its two lowest bits. */
  function ClearLow(d: Dword): Dword
  {
    Dword(d.v & 0xffff_fffc)
  }

  function Pack(h: Hdr): Wire
    requires Typed(h)
  {
    var w := Wire(PackType(h.frame), ZERO, ZERO, ZERO, PackPrefix(h.prefix), PackFunction(h.fn),
                  High32(h.metadata.value), Low32(h.metadata.value));
    var tagWord := PackTag(h.frame, LowByte(h.body));
    match h.body
    case Req(addr, _, _, _) =>
      if IsAddr64(h.frame.fmtType) then w.(d1 := tagWord, d2 := High32(addr), d3 := ClearLow(Low32(addr)))
      else w.(d1 := tagWord, d2 := Low32(addr))
    case Cpl(_, _, _, _, _, _) =>
      if h.dm then w.(d1 := PackDmStatus(h.body), d2 := PackDmLow(h.body), d3 := PackDmTag(h.frame, h.body))
      else w.(d1 := PackStatus(h.body), d2 := tagWord)
    case Msg(msg2, msg1, _, _) => w.(d1 := tagWord, d2 := Dword(msg1), d3 := Dword(msg2))
    case Other => w
  }

  // ---------------------------------------------------------------- unpacking

  /** The bits of a mask, from bit n on. */
  function Bits(d: Dword, n: bv32, mask: bv32): bv32
    requires n < 32
  {
    (d.v >> n) & mask
  }

  function TypeOf(d0: Dword): bv32
  {
    Bits(d0, 24, 0xff)
  }

  function UnpackFrame(d0: Dword, d: Dword): Frame
  {
    Frame(TypeOf(d0), (d0.v & 0x3ff) << 2, (Bits(d0, 23, 1) << 9) | (Bits(d0, 19, 1) << 8) | Bits(d, 8, 0xff),
        Bits(d, 16, 0xffff))
  }

  function UnpackPrefix(d: Dword): Prefix
  {
    Prefix(Bits(d, 29, 1), Bits(d, 24, 0x1f), Bits(d, 0, 0xff_ffff))
  }

  function UnpackFunction(d: Dword): Function
  {
    Function(Bits(d, 25, 0x7f), Bits(d, 24, 1), Bits(d, 15, 0x1f), Bits(d, 14, 1), Bits(d, 3, 0x7ff), Bits(d, 0, 7))
  }

  function Join(high: Dword, low: Dword): bv64
  {
    ((high.v as bv64) << 32) | (low.v as bv64)
  }

  function UnpackReq(d0: Dword, d1: Dword, d2: Dword, d3: Dword): Body
  {
    Req(if IsAddr64(TypeOf(d0)) then Join(d2, ClearLow(d3)) else Join(ZERO, d2), Bits(d1, 4, 0xf), Bits(d1, 0, 0xf),
        Attr(Bits(d0, 17, 1), Bits(d0, 16, 1), Bits(d0, 15, 1), Bits(d0, 14, 1), Bits(d0, 10, 3)))
  }

  function UnpackCpl(d1: Dword, d2: Dword): Body
  {
    Cpl(Bits(d1, 16, 0xffff), Bits(d1, 13, 7), Bits(d1, 12, 1), Bits(d1, 0, 0xfff), Bits(d2, 0, 0x7f), false)
  }

  function UnpackMsg(d1: Dword, d2: Dword, d3: Dword): Body
  {
    Msg(d3.v, d2.v, Bits(d1, 8, 0xff), Bits(d1, 0, 0xff))
  }

  /** Unpacking with the data-mover flag clear. */
  function Unpack(w: Wire): Hdr
  {
    var h := Hdr(false, Metadata(Join(w.d6, w.d7)), UnpackFunction(w.d5), UnpackPrefix(w.d4),
        Frame(TypeOf(w.d0), 0, 0, 0), Other);
    match KindOf(TypeOf(w.d0))
    case MemReq => h.(frame := UnpackFrame(w.d0, w.d1), body := UnpackReq(w.d0, w.d1, w.d2, w.d3))
    case Completion => h.(frame := UnpackFrame(w.d0, w.d2), body := UnpackCpl(w.d1, w.d2))
    case Message => h.(frame := UnpackFrame(w.d0, w.d1), body := UnpackMsg(w.d1, w.d2, w.d3))
    case Unknown => h
  }

  // ---------------------------------------------------------------- what the wire has room for

  predicate FunctionFits(f: Function)
  {
    f.bar < 0x80 && f.mm < 2 && f.slot < 0x20 && f.active < 2 && f.vf < 0x800 && f.pf < 8
  }

  predicate PrefixFits(p: Prefix)
  {
    p.present < 2 && p.kind < 0x20 && p.pref < 0x100_0000
  }

  /** Ten tag bits, and a length in whole DWORDs below 4096 bytes. */
  predicate FrameFits(f: Frame)
  {
    IsByte(f.fmtType) && f.tag < 0x400 && f.reqId < 0x1_0000 && f.len & 3 == 0 && f.len < 0x1000
  }

  predicate BodyFits(f: Frame, b: Body)
  {
    match b
    case Req(addr, lastBe, firstBe, attr) =>
      && lastBe < 16 && firstBe < 16 && attr == Attr(0, 0, 0, 0, 0)
      && if IsAddr64(f.fmtType) then addr & 3 == 0 else addr < 0x1_0000_0000
    case Cpl(compId, status, bcm, byteCount, lowAddr, fc) =>
      compId < 0x1_0000 && status < 8 && bcm < 2 && byteCount < 0x1000 && lowAddr < 0x80 && !fc
    case Msg(_, _, msg0, code) => msg0 == f.tag & 0xff && IsByte(code)
    case Other => true
  }

  /** Every field fits the bits that the wire has for it. A header of another kind has none but
      the common fields. */
  predicate Fits(h: Hdr)
  {
    && FunctionFits(h.fn) && PrefixFits(h.prefix) && BodyFits(h.frame, h.body)
    && if h.body.Other? then h.frame == Frame(h.frame.fmtType, 0, 0, 0) else FrameFits(h.frame)
  }

  // ---------------------------------------------------------------- round trip, group by group

  lemma FunctionBack(f: Function)
    ensures FunctionFits(f) <==> UnpackFunction(PackFunction(f)) == f
  {
    UnpackedFunction(PackFunction(f));
    if FunctionFits(f) {
      FunctionFields(f);
    }
  }

  lemma FunctionFields(f: Function)
    requires FunctionFits(f)
    ensures UnpackFunction(PackFunction(f)) == f
  {
  }

  lemma UnpackedFunction(d: Dword)
    ensures FunctionFits(UnpackFunction(d))
  {
  }

  lemma PrefixBack(p: Prefix)
    ensures PrefixFits(p) <==> UnpackPrefix(PackPrefix(p)) == p
  {
    UnpackedPrefix(PackPrefix(p));
  }

  lemma UnpackedPrefix(d: Dword)
    ensures PrefixFits(UnpackPrefix(d))
  {
  }

  lemma MetadataBack(m: Metadata)
    ensures Metadata(Join(High32(m.value), Low32(m.value))) == m
  {
  }

  /** The type byte survives whatever the other fields are. */
  lemma TypeBack(f: Frame)
    requires IsByte(f.fmtType)
    ensures TypeOf(PackType(f)) == f.fmtType
  {
  }

  lemma FrameBack(f: Frame, low: bv32)
    requires FrameFits(f) && IsByte(low)
    ensures UnpackFrame(PackType(f), PackTag(f, low)) == f
  {
  }

  lemma UnpackedFrame(d0: Dword, d: Dword)
    ensures FrameFits(UnpackFrame(d0, d))
  {
  }

  lemma LowByteFits(f: Frame, b: Body)
    requires BodyFits(f, b)
    ensures IsByte(LowByte(b))
  {
  }

  lemma ReqBack(f: Frame, b: Body)
    requires b.Req? && IsByte(f.fmtType) && BodyFits(f, b)
    ensures var d0, d1 := PackType(f), PackTag(f, LowByte(b));
            if IsAddr64(f.fmtType) then UnpackReq(d0, d1, High32(b.addr), ClearLow(Low32(b.addr))) == b
            else UnpackReq(d0, d1, Low32(b.addr), ZERO) == b
  {
    TypeBack(f);
  }

  /** What unpacking a packed request yields fits. */
  lemma UnpackedReq(f: Frame, d1: Dword, d2: Dword, d3: Dword)
    requires IsByte(f.fmtType)
    ensures BodyFits(f, UnpackReq(PackType(f), d1, d2, d3))
  {
    TypeBack(f);
  }

  lemma CplBack(f: Frame, b: Body)
    requires b.Cpl? && BodyFits(f, b)
    ensures UnpackCpl(PackStatus(b), PackTag(f, LowByte(b))) == b
  {
  }

  lemma UnpackedCpl(f: Frame, d1: Dword, d2: Dword)
    ensures BodyFits(f, UnpackCpl(d1, d2))
  {
  }

  lemma MsgBack(f: Frame, b: Body)
    requires b.Msg? && BodyFits(f, b)
    ensures UnpackMsg(PackTag(f, LowByte(b)), Dword(b.msg1), Dword(b.msg2)) == b
  {
  }

  lemma UnpackedMsg(f: Frame, b: Body, d2: Dword, d3: Dword)
    requires b.Msg? && UnpackMsg(PackTag(f, LowByte(b)), d2, d3) == b
    ensures BodyFits(f, b)
  {
  }

  /** A header whose fields fit comes back as it was. */
  lemma FittingRoundTrip(h: Hdr)
    requires !h.dm && Typed(h) && Fits(h)
    ensures Unpack(Pack(h)) == h
  {
    hide PackType, PackPrefix, PackFunction, PackTag, PackStatus, LowByte, High32, Low32, ClearLow, Join, TypeOf;
    hide UnpackFrame, UnpackPrefix, UnpackFunction, UnpackReq, UnpackCpl, UnpackMsg, KindOf, IsAddr64, IsByte;
    hide FunctionFits, PrefixFits, FrameFits, BodyFits;
    FunctionBack(h.fn);
    PrefixBack(h.prefix);
    MetadataBack(h.metadata);
    TypeBack(h.frame);
    LowByteFits(h.frame, h.body);
    if !h.body.Other? {
      FrameBack(h.frame, LowByte(h.body));
    }
    match h.body
    case Req(_, _, _, _) => ReqBack(h.frame, h.body);
    case Cpl(_, _, _, _, _, _) => CplBack(h.frame, h.body);
    case Msg(_, _, _, _) => MsgBack(h.frame, h.body);
    case Other =>
  }

  /** Only a header whose fields fit comes back as it was. */
  lemma OnlyFitting(h: Hdr)
    requires !h.dm && Typed(h) && Unpack(Pack(h)) == h
    ensures Fits(h)
  {
    hide PackType, PackPrefix, PackFunction, PackTag, PackStatus, LowByte, High32, Low32, ClearLow, Join, TypeOf;
    hide UnpackFrame, UnpackPrefix, UnpackFunction, UnpackReq, UnpackCpl, UnpackMsg, KindOf, IsAddr64, IsByte;
    hide FunctionFits, PrefixFits, FrameFits, BodyFits;
    var w := Pack(h);
    FunctionBack(h.fn);
    PrefixBack(h.prefix);
    TypeBack(h.frame);
    match h.body
    case Req(_, _, _, _) =>
      UnpackedFrame(w.d0, w.d1);
      UnpackedReq(h.frame, w.d1, w.d2, w.d3);
    case Cpl(_, _, _, _, _, _) =>
      UnpackedFrame(w.d0, w.d2);
      UnpackedCpl(h.frame, w.d1, w.d2);
    case Msg(_, _, _, _) =>
      UnpackedFrame(w.d0, w.d1);
      UnpackedMsg(h.frame, h.body, w.d2, w.d3);
    case Other => OtherFits(h.frame, h.body);
  }

  lemma OtherFits(f: Frame, b: Body)
    requires b.Other?
    ensures BodyFits(f, b)
  {
  }

  /** Packing and unpacking gives a power-user header back exactly when its fields fit. */
  lemma RoundTrip(h: Hdr)
    requires !h.dm && Typed(h)
    ensures Unpack(Pack(h)) == h <==> Fits(h)
  {
    hide *;
    if Fits(h) {
      FittingRoundTrip(h);
    }
    if Unpack(Pack(h)) == h {
      OnlyFitting(h);
    }
  }

  // ---------------------------------------------------------------- where each field is

  /** Type, two high tag bits and length in DWORDs. */
  predicate TypeLayout(d0: bv32, f: Frame)
  {
    && d0 / 0x100_0000 == f.fmtType
    && d0 / 0x80_0000 % 2 == f.tag / 512
    && d0 / 0x8_0000 % 2 == f.tag / 256 % 2
    && d0 % 1024 == f.len / 4
  }

  /** Requester, the low eight tag bits and the last byte. */
  predicate TagLayout(d: bv32, f: Frame, low: bv32)
  {
    d / 0x1_0000 == f.reqId && d / 256 % 256 == f.tag % 256 && d % 256 == low
  }

  predicate Halves(high: Dword, low: Dword, v: bv64)
  {
    (high.v as bv64) * 0x1_0000_0000 + (low.v as bv64) == v
  }

  function MaskByte(b: Body): bv32
    requires b.Req?
  {
    16 * b.lastBe + b.firstBe
  }

  predicate Wide(f: Frame)
  {
    f.fmtType / 32 % 2 == 1
  }

  /** A request has its masks in the tag DWORD, the last DWORD's above the first's; the address
      follows, with the high half first if it has 64 bits. */
  predicate ReqLayout(w: Wire, f: Frame, b: Body)
    requires b.Req?
  {
    && TagLayout(w.d1.v, f, MaskByte(b))
    && if Wide(f) then Halves(w.d2, w.d3, b.addr) else Halves(w.d3, w.d2, b.addr) && w.d3 == Dword(0)
  }

  predicate StatusLayout(d1: bv32, b: Body)
    requires b.Cpl?
  {
    d1 / 0x1_0000 == b.compId && d1 / 0x2000 % 8 == b.status && d1 / 0x1000 % 2 == b.bcm && d1 % 0x1000 == b.byteCount
  }

  predicate CplLayout(w: Wire, f: Frame, b: Body)
    requires b.Cpl?
  {
    StatusLayout(w.d1.v, b) && TagLayout(w.d2.v, f, b.lowAddr) && w.d3 == Dword(0)
  }

  predicate PrefixLayout(d4: bv32, p: Prefix)
  {
    d4 / 0x2000_0000 == p.present && d4 / 0x100_0000 % 32 == p.kind && d4 % 0x100_0000 == p.pref
  }

  predicate FunctionLayout(d5: bv32, f: Function)
  {
    && d5 / 0x200_0000 == f.bar && d5 / 0x100_0000 % 2 == f.mm && d5 / 0x8000 % 32 == f.slot
    && d5 / 0x4000 % 2 == f.active && d5 / 8 % 2048 == f.vf && d5 % 8 == f.pf
  }

  predicate MsgLayout(w: Wire, f: Frame, b: Body)
    requires b.Msg?
  {
    TagLayout(w.d1.v, f, b.code) && w.d2.v == b.msg1 && w.d3.v == b.msg2
  }

  /** Where a power-user header whose fields fit has each of them. */
  lemma Layout(h: Hdr)
    requires !h.dm && Typed(h) && Fits(h)
    ensures var w := Pack(h);
            && TypeLayout(w.d0.v, h.frame) && PrefixLayout(w.d4.v, h.prefix) && FunctionLayout(w.d5.v, h.fn)
            && Halves(w.d6, w.d7, h.metadata.value)
            && match h.body
               case Req(_, _, _, _) => ReqLayout(w, h.frame, h.body)
               case Cpl(_, _, _, _, _, _) => CplLayout(w, h.frame, h.body)
               case Msg(_, _, _, _) => MsgLayout(w, h.frame, h.body)
               case Other => w.d1 == w.d2 == w.d3 == Dword(0)
  {
    hide PackType, PackPrefix, PackFunction, PackTag, PackStatus, LowByte, High32, Low32, ClearLow, KindOf, IsAddr64;
    hide IsByte, FunctionFits, PrefixFits, FrameFits, BodyFits, TypeLayout, PrefixLayout, FunctionLayout;
    hide Halves, ReqLayout, CplLayout, MsgLayout;
    TypePlaces(h.frame);
    PrefixPlaces(h.prefix);
    FunctionPlaces(h.fn);
    HalvesPlaces(h.metadata.value);
    var w := Pack(h);
    match h.body
    case Req(_, _, _, _) => ReqPlaces(w, h.frame, h.body);
    case Cpl(_, _, _, _, _, _) => CplPlaces(w, h.frame, h.body);
    case Msg(_, _, _, _) => MsgPlaces(w, h.frame, h.body);
    case Other =>
  }

  /** Which types have which fields: memory reads and writes end in five zero bits, and atomic ones, which
      have data, in 12 to 15; completions end in 10, and messages in 16 to 23 with the address bit set. */
  lemma Kinds(f: bv32)
    requires f < 256
    ensures KindOf(f) == MemReq <==> f % 32 == 0 || (f / 64 % 2 == 1 && 12 <= f % 32 <= 15)
    ensures KindOf(f) == Completion <==> f % 32 == 10
    ensures KindOf(f) == Message <==> f < 128 && f / 32 % 2 == 1 && 16 <= f % 32 <= 23
  {
  }

  lemma TypePlaces(f: Frame)
    requires IsByte(f.fmtType) && (FrameFits(f) || f == Frame(f.fmtType, 0, 0, 0))
    ensures TypeLayout(PackType(f).v, f)
  {
  }

  lemma PrefixPlaces(p: Prefix)
    requires PrefixFits(p)
    ensures PrefixLayout(PackPrefix(p).v, p)
  {
  }

  lemma FunctionPlaces(f: Function)
    requires FunctionFits(f)
    ensures FunctionLayout(PackFunction(f).v, f)
  {
  }

  lemma HalvesPlaces(a: bv64)
    ensures Halves(High32(a), Low32(a), a)
  {
  }

  lemma TagPlaces(f: Frame, low: bv32)
    requires FrameFits(f) && IsByte(low)
    ensures TagLayout(PackTag(f, low).v, f, low)
  {
  }

  lemma AddressPlaces(f: Frame, a: bv64)
    requires if IsAddr64(f.fmtType) then a & 3 == 0 else a < 0x1_0000_0000
    ensures IsAddr64(f.fmtType) <==> Wide(f)
    ensures if IsAddr64(f.fmtType) then Halves(High32(a), ClearLow(Low32(a)), a) else Halves(ZERO, Low32(a), a)
  {
  }

  lemma MaskPlaces(b: Body)
    requires b.Req? && b.lastBe < 16 && b.firstBe < 16
    ensures IsByte(LowByte(b)) && LowByte(b) == MaskByte(b)
  {
  }

  lemma ReqPlaces(w: Wire, f: Frame, b: Body)
    requires b.Req? && FrameFits(f) && BodyFits(f, b) && w.d1 == PackTag(f, LowByte(b))
    requires if IsAddr64(f.fmtType) then w.d2 == High32(b.addr) && w.d3 == ClearLow(Low32(b.addr))
             else w.d2 == Low32(b.addr) && w.d3 == ZERO
    ensures ReqLayout(w, f, b)
  {
    hide TagLayout, PackTag, High32, Low32, ClearLow, Halves, LowByte, FrameFits, IsAddr64, IsByte, MaskByte, Wide;
    MaskPlaces(b);
    TagPlaces(f, LowByte(b));
    AddressPlaces(f, b.addr);
  }

  lemma StatusPlaces(b: Body)
    requires b.Cpl? && b.compId < 0x1_0000 && b.status < 8 && b.bcm < 2 && b.byteCount < 0x1000
    ensures StatusLayout(PackStatus(b).v, b)
  {
  }

  lemma AddrByte(b: Body)
    requires b.Cpl? && b.lowAddr < 0x80
    ensures IsByte(LowByte(b)) && LowByte(b) == b.lowAddr
  {
  }

  lemma CplPlaces(w: Wire, f: Frame, b: Body)
    requires b.Cpl? && FrameFits(f) && BodyFits(f, b)
    requires w.d1 == PackStatus(b) && w.d2 == PackTag(f, LowByte(b)) && w.d3 == ZERO
    ensures CplLayout(w, f, b)
  {
    hide TagLayout, PackTag, PackStatus, LowByte, FrameFits, IsByte, StatusLayout;
    StatusPlaces(b);
    AddrByte(b);
    TagPlaces(f, LowByte(b));
  }

  lemma MsgPlaces(w: Wire, f: Frame, b: Body)
    requires b.Msg? && FrameFits(f) && BodyFits(f, b)
    requires w.d1 == PackTag(f, LowByte(b)) && w.d2.v == b.msg1 && w.d3.v == b.msg2
    ensures MsgLayout(w, f, b)
  {
    hide TagLayout, PackTag, FrameFits;
    TagPlaces(f, LowByte(b));
  }

  // ---------------------------------------------------------------- data-mover completions

  /** The fields of a data-mover completion where the layout of such headers places them. */
  datatype DmCompletion = DmCompletion(tag: bv32, fc: bool, len: bv32, lowAddr: bv32, status: bv32)

  function ReadDm(w: Wire): DmCompletion
  {
    DmCompletion(Bits(w.d3, 22, 0x3ff), Bits(w.d3, 21, 1) == 1,
                 (Bits(w.d3, 18, 3) << 12) | ((w.d0.v & 0x3ff) << 2) | Bits(w.d3, 16, 3),
                 (Bits(w.d3, 0, 0xffff) << 8) | Bits(w.d2, 0, 0xff),
                 Bits(w.d1, 13, 7))
  }

  /** A packed data-mover completion has its fields where the layout places them exactly when they
      fit: ten tag bits, a length below 16KB, a 24-bit address and three status bits. */
  lemma DmCompletionBack(h: Hdr)
    requires h.dm && Typed(h) && h.body.Cpl?
    ensures ReadDm(Pack(h)) == DmCompletion(h.frame.tag, h.body.fc, h.frame.len, h.body.lowAddr, h.body.status)
       <==> h.frame.tag < 0x400 && h.frame.len < 0x4000 && h.body.lowAddr < 0x100_0000 && h.body.status < 8
  {
    DmParts(h.frame, h.body);
  }

  lemma DmParts(f: Frame, b: Body)
    requires b.Cpl?
    ensures var d := PackDmTag(f, b);
            && (Bits(d, 22, 0x3ff) == f.tag <==> f.tag < 0x400)
            && (Bits(d, 21, 1) == 1 <==> b.fc)
            && ((Bits(d, 18, 3) << 12) | ((PackType(f).v & 0x3ff) << 2) | Bits(d, 16, 3) == f.len <==> f.len < 0x4000)
            && ((Bits(d, 0, 0xffff) << 8) | Bits(PackDmLow(b), 0, 0xff) == b.lowAddr <==> b.lowAddr < 0x100_0000)
            && (Bits(PackDmStatus(b), 13, 7) == b.status <==> b.status < 8)
  {
    hide PackDmTag, PackDmLow, PackDmStatus, PackType, Bits;
    DmTagPart(f, b);
    DmFcPart(f, b);
    DmLenPart(f, b);
    DmAddrPart(f, b);
    DmStatusPart(b);
  }

  lemma DmTagPart(f: Frame, b: Body)
    requires b.Cpl?
    ensures Bits(PackDmTag(f, b), 22, 0x3ff) == f.tag <==> f.tag < 0x400
  {
  }

  lemma DmFcPart(f: Frame, b: Body)
    requires b.Cpl?
    ensures Bits(PackDmTag(f, b), 21, 1) == 1 <==> b.fc
  {
  }

  lemma DmLenPart(f: Frame, b: Body)
    requires b.Cpl?
    ensures var d := PackDmTag(f, b);
            (Bits(d, 18, 3) << 12) | ((PackType(f).v & 0x3ff) << 2) | Bits(d, 16, 3) == f.len <==> f.len < 0x4000
  {
  }

  lemma DmAddrPart(f: Frame, b: Body)
    requires b.Cpl?
    ensures (Bits(PackDmTag(f, b), 0, 0xffff) << 8) | Bits(PackDmLow(b), 0, 0xff) == b.lowAddr
       <==> b.lowAddr < 0x100_0000
  {
  }

  lemma DmStatusPart(b: Body)
    requires b.Cpl?
    ensures Bits(PackDmStatus(b), 13, 7) == b.status <==> b.status < 8
  {
  }

  // ---------------------------------------------------------------- on the bus

  const HDR_DWORDS: nat := 8

  function Words(w: Wire): (s: seq<Dword>)
    ensures |s| == HDR_DWORDS
  {
    [w.d0, w.d1, w.d2, w.d3, w.d4, w.d5, w.d6, w.d7]
  }

  function FromWords(s: seq<Dword>): Wire
    requires |s| >= HDR_DWORDS
  {
    Wire(s[0], s[1], s[2], s[3], s[4], s[5], s[6], s[7])
  }

  /** Clear the bus and write a header to its first DWORDs, marking the header's bytes kept. */
  method PackHeader(tdata: array<Dword>, tkeep: array<bool>, h: Hdr) returns (tuserDm: bool)
    requires tdata.Length >= HDR_DWORDS && tkeep.Length == 4 * tdata.Length && Typed(h)
    modifies tdata, tkeep
    ensures tuserDm == h.dm
    ensures tdata[..HDR_DWORDS] == Words(Pack(h))
    ensures forall i :: HDR_DWORDS <= i < tdata.Length ==> tdata[i] == ZERO
    ensures forall i :: 0 <= i < tkeep.Length ==> (tkeep[i] <==> i < 4 * HDR_DWORDS)
  {
    hide PackType, PackPrefix, PackFunction, High32, Low32, Pack, Typed;
    CommonWords(h);
    ResetPayload(tdata, tkeep);
    tuserDm := h.dm;
    KeepHeader(tkeep);
    tdata[0] := PackType(h.frame);
    tdata[5] := PackFunction(h.fn);
    tdata[4] := PackPrefix(h.prefix);
    tdata[7] := Low32(h.metadata.value);
    tdata[6] := High32(h.metadata.value);
    WriteBody(tdata, h);
  }

  lemma CommonWords(h: Hdr)
    requires Typed(h)
    ensures var w := Pack(h);
            && w.d0 == PackType(h.frame) && w.d4 == PackPrefix(h.prefix) && w.d5 == PackFunction(h.fn)
            && w.d6 == High32(h.metadata.value) && w.d7 == Low32(h.metadata.value)
  {
  }

  /** The DWORDs that differ by kind of header. */
  method WriteBody(tdata: array<Dword>, h: Hdr)
    requires tdata.Length >= HDR_DWORDS && Typed(h)
    requires tdata[1] == tdata[2] == tdata[3] == ZERO
    modifies tdata
    ensures forall i :: 0 <= i < tdata.Length && !(1 <= i <= 3) ==> tdata[i] == old(tdata[i])
    ensures var w := Pack(h); tdata[1] == w.d1 && tdata[2] == w.d2 && tdata[3] == w.d3
  {
    hide PackType, PackPrefix, PackFunction, PackTag, PackStatus, LowByte, High32, Low32, ClearLow, KindOf, IsAddr64;
    hide IsByte;
    hide PackDmTag, PackDmLow, PackDmStatus;
    match KindOf(h.frame.fmtType) {
      case MemReq =>
        tdata[1] := PackTag(h.frame, LowByte(h.body));
        if IsAddr64(h.frame.fmtType) {
          tdata[2] := High32(h.body.addr);
          tdata[3] := ClearLow(Low32(h.body.addr));
        } else {
          tdata[2] := Low32(h.body.addr);
        }
      case Completion =>
        if h.dm {
          tdata[3] := PackDmTag(h.frame, h.body);
          tdata[2] := PackDmLow(h.body);
          tdata[1] := PackDmStatus(h.body);
        } else {
          tdata[2] := PackTag(h.frame, LowByte(h.body));
          tdata[1] := PackStatus(h.body);
        }
      case Message =>
        if h.dm {
          return;
        }
        tdata[1] := PackTag(h.frame, LowByte(h.body));
        tdata[2] := Dword(h.body.msg1);
        tdata[3] := Dword(h.body.msg2);
      case Unknown =>
    }
  }

  method ResetPayload(tdata: array<Dword>, tkeep: array<bool>)
    modifies tdata, tkeep
    ensures forall i :: 0 <= i < tdata.Length ==> tdata[i] == ZERO
    ensures forall i :: 0 <= i < tkeep.Length ==> !tkeep[i]
  {
    for i := 0 to tdata.Length
      modifies tdata
      invariant forall j :: 0 <= j < i ==> tdata[j] == ZERO
    {
      tdata[i] := ZERO;
    }
    for i := 0 to tkeep.Length
      modifies tkeep
      invariant forall j :: 0 <= j < tdata.Length ==> tdata[j] == ZERO
      invariant forall j :: 0 <= j < i ==> !tkeep[j]
    {
      tkeep[i] := false;
    }
  }

  method KeepHeader(tkeep: array<bool>)
    requires tkeep.Length >= 4 * HDR_DWORDS
    modifies tkeep
    ensures forall i :: 0 <= i < tkeep.Length ==> (tkeep[i] <==> i < 4 * HDR_DWORDS || old(tkeep[i]))
  {
    for i := 0 to 4 * HDR_DWORDS
      invariant forall j :: 0 <= j < tkeep.Length ==> (tkeep[j] <==> j < i || old(tkeep[j]))
    {
      tkeep[i] := true;
    }
  }

  /** A power-user header written to the bus is read back from it, exactly when its fields fit. */
  method SendAndRead(tdata: array<Dword>, tkeep: array<bool>, h: Hdr) returns (r: Hdr)
    requires tdata.Length >= HDR_DWORDS && tkeep.Length == 4 * tdata.Length && !h.dm && Typed(h)
    modifies tdata, tkeep
    ensures r == h <==> Fits(h)
  {
    hide *;
    var dm := PackHeader(tdata, tkeep, h);
    assert tdata[..HDR_DWORDS] == Words(Pack(h));
    WordsBack(Pack(h), tdata[..HDR_DWORDS]);
    RoundTrip(h);
    r := Unpack(FromWords(tdata[..HDR_DWORDS]));
  }

  lemma WordsBack(w: Wire, s: seq<Dword>)
    requires s == Words(w)
    ensures FromWords(s) == w
  {
  }
}
