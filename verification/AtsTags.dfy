/** Tags of PCIe ATS invalidation requests. A tag is busy from its request until as many
    responses have named it as the responses say to expect (sections 10.3.1 and 10.3.2 of the
    PCI Express Base Specification). */
module AtsTags {
  import opened AddressBits

  const TAGS: nat := 32

  // ---------------------------------------------------------------- one tag

  /** A busy tag's counters; -1 before the first response. */
  datatype Counts = Counts(expected: int, received: int)

  /** What responses have done to a tag since its request. */
  datatype Status = Pending(counts: Counts) | Released | Failed

  /** How many responses a response's count field announces: 0 means 8. */
  function Announced(cc: nat): nat
  {
    if cc == 0 then 8 else cc
  }

  /** One response that names a pending tag. */
  function Respond(c: Counts, cc: nat): Status
  {
    var n := Announced(cc);
    if c.expected == -1 then Settle(Counts(n, 1), n)
    else if c.expected != n then Failed
    else Settle(Counts(n, c.received + 1), n)
  }

  function Settle(c: Counts, n: nat): Status
  {
    if c.received == n then Released else Pending(c)
  }

  /** The responses that named a tag since its request, in order. */
  function After(ccs: seq<nat>): Status
  {
    if ccs == [] then Pending(Counts(-1, -1)) else
      match After(ccs[..|ccs| - 1])
      case Pending(c) => Respond(c, ccs[|ccs| - 1])
      case _ => Failed
  }

  lemma AfterNext(ccs: seq<nat>, cc: nat)
    ensures After(ccs + [cc]) == match After(ccs) case Pending(c) => Respond(c, cc) case _ => Failed
  {
    assert (ccs + [cc])[..|ccs|] == ccs;
  }

  predicate Same(ccs: seq<nat>)
  {
    forall i :: 0 <= i < |ccs| ==> ccs[i] == ccs[0]
  }

  /** A tag is released by exactly as many responses as all of them announce, a count of 0 meaning 8.
      Until then its counters are those of the responses seen, and any disagreement is an error. */
  lemma {:induction false} ReleasedExactly(ccs: seq<nat>)
    requires forall i :: 0 <= i < |ccs| ==> ccs[i] < 8
    ensures After(ccs) == Released <==> ccs != [] && Same(ccs) && |ccs| == (if ccs[0] == 0 then 8 else ccs[0])
    ensures After(ccs).Pending? <==> ccs == [] || (Same(ccs) && |ccs| < (if ccs[0] == 0 then 8 else ccs[0]))
    ensures After(ccs).Pending? ==>
              After(ccs).counts
                == if ccs == [] then Counts(-1, -1) else Counts(if ccs[0] == 0 then 8 else ccs[0], |ccs|)
  {
    if ccs != [] {
      var before := ccs[..|ccs| - 1];
      ReleasedExactly(before);
      if before != [] {
        assert Same(ccs) <==> Same(before) && ccs[|ccs| - 1] == ccs[0];
      }
    }
  }

  // ---------------------------------------------------------------- bit vectors

  /** Bit t of a vector. */
  predicate Bit(v: nat, t: nat)
  {
    if t == 0 then v % 2 == 1 else Bit(v / 2, t - 1)
  }

  /** The vector with bit t inverted. */
  function Flip(v: nat, t: nat): nat
  {
    if t == 0 then (if v % 2 == 1 then v - 1 else v + 1) else v % 2 + 2 * Flip(v / 2, t - 1)
  }

  lemma {:induction false} FlipBit(v: nat, t: nat, i: nat)
    ensures Bit(Flip(v, t), i) <==> (Bit(v, i) != (i == t))
    decreases t
  {
    if t == 0 {
      assert i > 0 ==> Flip(v, t) / 2 == v / 2;
    } else {
      assert Flip(v, t) / 2 == Flip(v / 2, t - 1) && Flip(v, t) % 2 == v % 2;
      if i > 0 {
        FlipBit(v / 2, t - 1, i - 1);
      }
    }
  }

  lemma {:induction false} FlipBound(v: nat, t: nat, n: nat)
    requires v < Pow2(n) && t < n
    ensures Flip(v, t) < Pow2(n)
    decreases t
  {
    if t > 0 {
      FlipBound(v / 2, t - 1, n - 1);
      assert Pow2(n) == 2 * Pow2(n - 1);
    } else {
      assert Pow2(n) == 2 * Pow2(n - 1);
      assert v / 2 < Pow2(n - 1);
    }
  }

  lemma {:induction false} NoBits(t: nat)
    ensures !Bit(0, t)
  {
    if t > 0 {
      NoBits(t - 1);
    }
  }

  lemma {:induction false} BitBound(v: nat, n: nat, t: nat)
    requires v < Pow2(n) && n <= t
    ensures !Bit(v, t)
    decreases t
  {
    if n == 0 {
      NoBits(t);
    } else {
      BitBound(v / 2, n - 1, t - 1);
    }
  }

  /** v is the vector with its t lowest bits shifted out. */
  ghost predicate Rest(v: nat, vec: nat, t: nat)
  {
    forall i: nat :: Bit(v, i) <==> Bit(vec, t + i)
  }

  lemma NextBit(vec: nat, t: nat, v: nat)
    requires Rest(v, vec, t)
    ensures v % 2 == 1 <==> Bit(vec, t)
    ensures Rest(v / 2, vec, t + 1)
  {
    assert Bit(v, 0) <==> Bit(vec, t + 0);
    forall i: nat
      ensures Bit(v / 2, i) <==> Bit(vec, t + 1 + i)
    {
      assert Bit(v, i + 1) <==> Bit(vec, t + (i + 1));
    }
  }

  lemma NothingLeft(vec: nat, t: nat, i: nat)
    requires Rest(0, vec, t) && t <= i
    ensures !Bit(vec, i)
  {
    assert Bit(0, i - t) <==> Bit(vec, t + (i - t));
    NoBits(i - t);
  }

  // ---------------------------------------------------------------- the table

  datatype Result = Ok | Error

  /** A response names a tag that is not busy, or disagrees with the responses before. */
  ghost predicate Bad(busy: nat, seen: seq<seq<nat>>, t: nat, cc: nat)
    requires t < |seen|
  {
    !Bit(busy, t) || (seen[t] != [] && seen[t][0] != cc)
  }

  /** A busy tag's counters are those of the responses seen. */
  ghost predicate TagOk(busy: nat, seen: seq<seq<nat>>, counts: seq<Counts>, t: nat)
    requires t < |seen| && t < |counts|
  {
    && (forall i :: 0 <= i < |seen[t]| ==> seen[t][i] < 8)
    && (Bit(busy, t) ==> After(seen[t]) == Pending(counts[t]))
  }

  /** One more response for a pending tag fails exactly when its count differs from the others. */
  lemma FailsExactly(ccs: seq<nat>, cc: nat)
    requires (forall i :: 0 <= i < |ccs| ==> ccs[i] < 8) && cc < 8 && After(ccs).Pending?
    ensures After(ccs + [cc]) == Failed <==> ccs != [] && ccs[0] != cc
    ensures After(ccs + [cc]) == Released <==> (ccs == [] || ccs[0] == cc) && |ccs| + 1 == (if cc == 0 then 8 else cc)
  {
    hide After;
    var all := ccs + [cc];
    ReleasedExactly(ccs);
    ReleasedExactly(all);
    assert Same(all) <==> ccs == [] || ccs[0] == cc by {
      assert all[|ccs|] == cc && all[0] == if ccs == [] then cc else ccs[0];
      assert forall i :: 0 <= i < |ccs| ==> all[i] == ccs[i];
    }
  }

  class TagTable {
    /** The vector of busy tags, and each tag's counters and time of request. */
    var busy: nat
    var counts: seq<Counts>
    var setCycle: seq<nat>
    var cycle: nat
    /** The count fields of the responses that have named each tag since its last request. */
    ghost var seen: seq<seq<nat>>

    ghost predicate Shape()
      reads this
    {
      |counts| == |setCycle| == |seen| == TAGS
    }

    ghost predicate Valid()
      reads this
    {
      && Shape() && busy < Pow2(TAGS)
      && (forall t: nat :: t < TAGS ==> TagOk(busy, seen, counts, t))
      && (forall t: nat :: t < TAGS ==> setCycle[t] <= cycle)
    }

    /** What the invariant says in numbers. */
    lemma BusyCounts(t: nat)
      requires Valid() && t < TAGS && Bit(busy, t)
      ensures counts[t] == Counts(-1, -1) || 1 <= counts[t].received < counts[t].expected <= 8
      ensures seen[t] == [] <==> counts[t] == Counts(-1, -1)
      ensures seen[t] != [] ==>
                && counts[t] == Counts(if seen[t][0] == 0 then 8 else seen[t][0], |seen[t]|)
                && Same(seen[t])
    {
      assert TagOk(busy, seen, counts, t);
      ReleasedExactly(seen[t]);
    }

    constructor ()
      ensures Valid() && forall t: nat :: t < TAGS ==> !Bit(busy, t)
    {
      busy := 0;
      counts := seq(TAGS, i => Counts(0, 0));
      setCycle := seq(TAGS, i => 0);
      cycle := 0;
      seen := seq(TAGS, i => []);
      new;
      forall t: nat | t < TAGS
        ensures !Bit(busy, t)
      {
        NoBits(t);
      }
    }

    /** The lowest clear bit, or none. */
    method FirstFree() returns (t: nat)
      ensures t <= TAGS
      ensures t < TAGS ==> !Bit(busy, t)
      ensures forall i: nat :: i < t ==> Bit(busy, i)
    {
      t := 0;
      while t < TAGS && Bit(busy, t)
        invariant t <= TAGS
        invariant forall i: nat :: i < t ==> Bit(busy, i)
      {
        t := t + 1;
      }
    }

    /** Take a free tag; TAGS when there is none, where the program tries again. */
    method Alloc() returns (tag: nat)
      requires Valid()
      modifies this
      ensures Valid() && cycle == old(cycle)
      ensures tag == TAGS <==> forall t: nat :: t < TAGS ==> old(Bit(busy, t))
      ensures tag == TAGS ==> busy == old(busy) && seen == old(seen) && setCycle == old(setCycle)
      ensures tag != TAGS ==> tag < TAGS && setCycle == old(setCycle)[tag := cycle]
      ensures tag != TAGS ==> tag < TAGS && !old(Bit(busy, tag)) && seen[tag] == []
      ensures tag != TAGS ==> forall t: nat :: t < TAGS ==> (Bit(busy, t) <==> old(Bit(busy, t)) || t == tag)
      ensures forall t: nat :: t < TAGS && t != tag ==> seen[t] == old(seen[t]) && counts[t] == old(counts[t])
    {
      hide Bit, Flip, Pow2;
      tag := FirstFree();
      if tag < TAGS {
        ghost var busy0 := busy;
        counts := counts[tag := Counts(-1, -1)];
        setCycle := setCycle[tag := cycle];
        seen := seen[tag := []];
        busy := Flip(busy, tag);
        forall t: nat | t < TAGS
          ensures Bit(busy, t) <==> Bit(busy0, t) || t == tag
        {
          FlipBit(busy0, tag, t);
        }
        FlipBound(busy0, tag, TAGS);
        forall t: nat | t < TAGS
          ensures TagOk(busy, seen, counts, t)
        {
          assert old(TagOk(busy, seen, counts, t));
        }
      }
    }

    /** One response names one tag. */
    method FreeOne(t: nat, cc: nat) returns (r: Result)
      requires t < TAGS && Shape() && busy < Pow2(TAGS) && TagOk(busy, seen, counts, t) && cc < 8
      modifies this
      ensures Shape() && busy < Pow2(TAGS) && cycle == old(cycle) && setCycle == old(setCycle)
      ensures r == Error <==> Bad(old(busy), old(seen), t, cc)
      ensures r == Ok ==> TagOk(busy, seen, counts, t) && seen == old(seen)[t := old(seen[t]) + [cc]]
      ensures r == Ok ==> (!Bit(busy, t) <==> |seen[t]| == (if cc == 0 then 8 else cc))
      ensures r == Error ==> seen == old(seen) && busy == old(busy)
      ensures r == Error ==> counts[t] == Stopped(old(busy), t, old(counts[t]))
      ensures forall i: nat :: i < TAGS && i != t ==>
                counts[i] == old(counts[i]) && (Bit(busy, i) <==> old(Bit(busy, i)))
    {
      hide Bit, Flip, After, Pow2;
      var n := Announced(cc);
      if !Bit(busy, t) {
        return Error;
      }
      ghost var ccs := seen[t];
      AfterNext(ccs, cc);
      FailsExactly(ccs, cc);
      if counts[t].expected == -1 {
        counts := counts[t := Counts(n, 1)];
      } else {
        counts := counts[t := Counts(counts[t].expected, counts[t].received + 1)];
        if counts[t].expected != n {
          return Error;
        }
      }
      seen := seen[t := ccs + [cc]];
      if counts[t].received == n {
        Release(t);
      }
      r := Ok;
    }

    /** Clear a tag's busy bit. */
    method Release(t: nat)
      requires t < TAGS && busy < Pow2(TAGS)
      modifies this`busy
      ensures busy < Pow2(TAGS)
      ensures forall i: nat :: i < TAGS ==> (Bit(busy, i) <==> (old(Bit(busy, i)) != (i == t)))
    {
      FlipBound(busy, t, TAGS);
      forall i: nat | i < TAGS
        ensures Bit(Flip(busy, t), i) <==> (Bit(busy, i) != (i == t))
      {
        FlipBit(busy, t, i);
      }
      busy := Flip(busy, t);
    }

    /** A response names a set of tags. */
    method Free(tagVec: nat, cc: nat) returns (r: Result)
      requires Valid() && cc < 8 && tagVec < Pow2(TAGS)
      modifies this
      ensures cycle == old(cycle) && setCycle == old(setCycle)
      ensures r == Error <==> exists t: nat :: t < TAGS && Bit(tagVec, t) && Bad(old(busy), old(seen), t, cc)
      ensures Shape()
      ensures r == Error ==> exists t: nat :: t < TAGS && StoppedAt(tagVec, cc, t, old(seen), old(busy), old(counts))
      ensures r == Ok ==> Valid()
      ensures r == Ok ==> forall t: nat :: t < TAGS && !Bit(tagVec, t) ==>
                seen[t] == old(seen[t]) && counts[t] == old(counts[t]) && (Bit(busy, t) <==> old(Bit(busy, t)))
      ensures r == Ok ==> forall t: nat :: t < TAGS && Bit(tagVec, t) ==>
                && old(Bit(busy, t)) && seen[t] == old(seen[t]) + [cc]
                && (!Bit(busy, t) <==> |seen[t]| == (if cc == 0 then 8 else cc))
    {
      hide After, Pow2, Same, Bit, Rest;
      ghost var seen0, busy0, counts0 := seen, busy, counts;
      var v, t := tagVec, 0;
      RestStart(tagVec);
      while t < TAGS
        invariant t <= TAGS && Shape() && busy < Pow2(TAGS)
        invariant cycle == old(cycle) && setCycle == old(setCycle)
        invariant Progress(tagVec, cc, t, v, seen0, busy0, counts0)
      {
        r := FreeNext(tagVec, cc, t, v, seen0, busy0, counts0);
        if r == Error {
          return;
        }
        v := v / 2;
        t := t + 1;
        if v == 0 {
          break;
        }
      }
      AllDone(tagVec, cc, t, v, seen0, busy0, counts0);
      r := Ok;
    }

    /** Once no bits are left all 32 tags are done. */
    lemma AllDone(tagVec: nat, cc: nat, t: nat, v: nat, seen0: seq<seq<nat>>, busy0: nat, counts0: seq<Counts>)
      requires |seen0| == |counts0| == TAGS && Shape() && t <= TAGS && (v == 0 || t == TAGS)
      requires Progress(tagVec, cc, t, v, seen0, busy0, counts0)
      ensures forall i: nat :: i < TAGS ==>
                if Bit(tagVec, i) then Named(cc, i, seen0, busy0) else Kept(i, seen0, busy0, counts0)
    {
      hide Bit, Named, Kept, Rest;
      forall i: nat | t <= i < TAGS
        ensures !Bit(tagVec, i)
      {
        NothingLeft(tagVec, t, i);
      }
    }

    /** The next tag of the vector. */
    method FreeNext(ghost tagVec: nat, cc: nat, t: nat, v: nat,
                    ghost seen0: seq<seq<nat>>, ghost busy0: nat, ghost counts0: seq<Counts>) returns (r: Result)
      requires |seen0| == |counts0| == TAGS && Shape() && busy < Pow2(TAGS) && cc < 8 && t < TAGS
      requires Progress(tagVec, cc, t, v, seen0, busy0, counts0)
      modifies this
      ensures Shape() && busy < Pow2(TAGS) && cycle == old(cycle) && setCycle == old(setCycle)
      ensures r == Error <==> Bit(tagVec, t) && Bad(busy0, seen0, t, cc)
      ensures r == Ok ==> Progress(tagVec, cc, t + 1, v / 2, seen0, busy0, counts0)
      ensures r == Error ==> StoppedAt(tagVec, cc, t, seen0, busy0, counts0)
    {
      hide After, Pow2, Same, Bit, Rest;
      NextBit(tagVec, t, v);
      assert Kept(t, seen0, busy0, counts0) && TagOk(busy, seen, counts, t);
      r := Ok;
      if v % 2 == 1 {
        r := FreeOne(t, cc);
        if r == Error {
          forall i: nat | i < TAGS && i != t
            ensures old(Kept(i, seen0, busy0, counts0)) ==> Kept(i, seen0, busy0, counts0)
            ensures old(Named(cc, i, seen0, busy0)) ==> Named(cc, i, seen0, busy0)
          {
          }
          return;
        }
        assert Named(cc, t, seen0, busy0);
        forall i: nat | i < TAGS && i != t
          ensures TagOk(busy, seen, counts, i)
          ensures (old(Kept(i, seen0, busy0, counts0)) ==> Kept(i, seen0, busy0, counts0))
          ensures old(Named(cc, i, seen0, busy0)) ==> Named(cc, i, seen0, busy0)
        {
          assert old(TagOk(busy, seen, counts, i));
        }
      }
    }

    /** The tags below t are done and the others as they were; v holds the bits to come. */
    ghost predicate Progress(tagVec: nat, cc: nat, t: nat, v: nat, seen0: seq<seq<nat>>, busy0: nat,
                             counts0: seq<Counts>)
      requires |seen0| == |counts0| == TAGS && Shape()
      reads this
    {
      && Rest(v, tagVec, t)
      && (forall i: nat :: i < TAGS ==> TagOk(busy, seen, counts, i))
      && (forall i: nat :: t <= i < TAGS ==> Kept(i, seen0, busy0, counts0))
      && (forall i: nat :: i < t && i < TAGS ==>
            if Bit(tagVec, i) then Named(cc, i, seen0, busy0) else Kept(i, seen0, busy0, counts0))
    }

    /** The counters of a tag at which the response stops: of a busy tag it has been counted. */
    static ghost function Stopped(busy: nat, t: nat, c: Counts): Counts
    {
      if Bit(busy, t) then Counts(c.expected, c.received + 1) else c
    }

    /** An error at tag t: the response has advanced the tags below it that it names, and no other;
        tag t itself keeps its busy bit, though the response has been counted. */
    ghost predicate StoppedAt(tagVec: nat, cc: nat, t: nat, seen0: seq<seq<nat>>, busy0: nat, counts0: seq<Counts>)
      requires |seen0| == |counts0| == TAGS && Shape() && t < TAGS
      reads this
    {
      && Bit(tagVec, t) && Bad(busy0, seen0, t, cc)
      && seen[t] == seen0[t] && (Bit(busy, t) <==> Bit(busy0, t)) && counts[t] == Stopped(busy0, t, counts0[t])
      && (forall i: nat :: t < i < TAGS ==> Kept(i, seen0, busy0, counts0))
      && (forall i: nat :: i < t ==>
            if Bit(tagVec, i) then Named(cc, i, seen0, busy0) else Kept(i, seen0, busy0, counts0))
    }

    ghost predicate Kept(i: nat, seen0: seq<seq<nat>>, busy0: nat, counts0: seq<Counts>)
      requires |seen0| == |counts0| == TAGS && i < TAGS && Shape()
      reads this
    {
      seen[i] == seen0[i] && counts[i] == counts0[i] && (Bit(busy, i) <==> Bit(busy0, i))
    }

    ghost predicate Named(cc: nat, i: nat, seen0: seq<seq<nat>>, busy0: nat)
      requires |seen0| == TAGS && i < TAGS && Shape()
      reads this
    {
      && !Bad(busy0, seen0, i, cc) && seen[i] == seen0[i] + [cc]
      && (!Bit(busy, i) <==> |seen[i]| == (if cc == 0 then 8 else cc))
    }

    /** Count a clock cycle; an error when a request has been waiting too long. */
    method Cycle() returns (r: Result)
      requires Valid()
      modifies this
      ensures Valid() && cycle == old(cycle) + 1 && setCycle == old(setCycle)
      ensures busy == old(busy) && seen == old(seen) && counts == old(counts)
      ensures r == Error <==> exists t: nat :: t < TAGS && Bit(busy, t) && cycle - setCycle[t] > 10000
    {
      hide Bit, Pow2, TagOk;
      cycle := cycle + 1;
      r := CheckWaiting();
    }

    method CheckWaiting() returns (r: Result)
      requires Valid()
      ensures r == Error <==> exists t: nat :: t < TAGS && Bit(busy, t) && cycle - setCycle[t] > 10000
    {
      hide Bit, Rest, Pow2, After;
      var v, t := busy, 0;
      RestStart(busy);
      while v != 0
        invariant Rest(v, busy, t)
        invariant forall i: nat :: i < t && i < TAGS && Bit(busy, i) ==> cycle - setCycle[i] <= 10000
      {
        NextBit(busy, t, v);
        if v % 2 == 1 {
          InTable(t);
          if cycle - setCycle[t] > 10000 {
            return Error;
          }
        }
        t := t + 1;
        v := v / 2;
      }
      forall i: nat | t <= i
        ensures !Bit(busy, i)
      {
        NothingLeft(busy, t, i);
      }
      r := Ok;
    }

    static lemma RestStart(vec: nat)
      ensures Rest(vec, vec, 0)
    {
    }

    lemma InTable(t: nat)
      requires Valid() && Bit(busy, t)
      ensures t < TAGS
    {
      if t >= TAGS {
        BitBound(busy, TAGS, t);
      }
    }
  }
}
