/** In which order the blocks of a span in use are given: those that were freed first come
  * last, and a block that was never given only when no freed one is left. */
module SpanReuse {
  import opened Sequences
  import opened SizeTables
  import opened SpanSpec
  import opened SpanInv
  import opened SpanSteps

  /** Span h is the one that thread t uses for requests of sz bytes. */
  ghost predicate Serves(s: Heap, t: nat, sz: nat, h: nat) {
    && Running(s, t) && PoolReady(s) && Known(s) && 0 < sz <= MAX_SMALL && Size2Cls(sz) < CLASSES
    && s.lists[Using(t, Size2Cls(sz))] == [h] && h in s.spans
  }

  /** A span in use with a free block gives the block that was freed last, and if there is none
    * the lowest one that was never given; nothing but the account of that span changes. */
  lemma UsedSpanGives(s: Heap, t: nat, sz: nat, contiguous: bool, h: nat)
    requires Serves(s, t, sz, h) && s.spans[h].freeCnt > 0
    ensures Malloc(s, t, sz, contiguous).Some?
    ensures var (r, b) := Malloc(s, t, sz, contiguous).value;
      var sp := s.spans[h];
      && r == s.(spans := r.spans, live := s.live[b := sz])
      && r.spans == s.spans[h := sp.(freeCnt := sp.freeCnt - 1, blkList := r.spans[h].blkList, freeBlk := r.spans[h].freeBlk)]
      && (if sp.blkList != [] then sp.blkList == [b] + r.spans[h].blkList && r.spans[h].freeBlk == sp.freeBlk
          else r.spans[h].blkList == [] && b == sp.freeBlk && r.spans[h].freeBlk == sp.freeBlk + sp.blkSize)
  {
    hide Size2Cls, Known;
    assert Prepared(s, t, Size2Cls(sz), contiguous) == Some(s);
  }

  /** The pointer to the blocks that were never given moves only when no freed block is left. */
  lemma FreshBlocksComeLast(s: Heap, t: nat, sz: nat, contiguous: bool, h: nat)
    requires Serves(s, t, sz, h) && s.spans[h].freeCnt > 0
    ensures Malloc(s, t, sz, contiguous).Some? && h in Malloc(s, t, sz, contiguous).value.0.spans
    ensures var r := Malloc(s, t, sz, contiguous).value.0;
      r.spans[h].freeBlk != s.spans[h].freeBlk ==> s.spans[h].blkList == []
  {
    hide Malloc, Size2Cls, Known;
    UsedSpanGives(s, t, sz, contiguous, h);
  }

  /** A block of a span in use is freed, whoever frees it. */
  lemma UsedSpanTakes(s: Heap, u: nat, b: nat, h: nat)
    requires Safe(s) && b in s.live && GetHeader(b) == h && h in s.spans && s.spans[h].state == IN_USE
    requires s.spans[h].blkSize > 0 && Free(s, u, b).Some?
    ensures var sp := s.spans[h];
      && sp.freeCnt + 1 < 0x1_0000_0000
      && Free(s, u, b).value
         == s.(spans := s.spans[h := sp.(freeCnt := sp.freeCnt + 1, blkList := [b] + sp.blkList)], live := s.live - {b})
    ensures Safe(Free(s, u, b).value)
  {
    hide Safe;
    FreeIsSafe(s, u, b);
    BlocksAreCounted(s, h);
    hide FreeGoesWell;
    CapacityIsSmall(s.spans[h].blkSize);
  }

  lemma ServingSpan(s: Heap, t: nat, sz: nat, h: nat)
    requires Safe(s) && Serves(s, t, sz, h)
    ensures s.spans[h].state == IN_USE && s.spans[h].owner == Thread(t) && s.spans[h].blkSize > 0
  {
    var w :| Sound(s, w) && Complete(s, w);
    assert s.spans[h].state == IN_USE && s.spans[h].owner == Thread(t) by {
      PlacedPop(s, w, Using(t, Size2Cls(sz)));
      hide Region, Lists, Placed, Counted, LiveFits, Size2Cls;
    }
    BlocksAreCounted(s, h);
  }

  /** A free undone by an allocation: the block that is freed into the span in use is the next one
    * that the span gives, and everything is as before. */
  lemma FreedBlockComesBack(s: Heap, t: nat, sz: nat, contiguous: bool, u: nat, b: nat, h: nat)
    requires Safe(s) && Serves(s, t, sz, h) && b in s.live && GetHeader(b) == h
    ensures s.spans[h].blkSize > 0 && Free(s, u, b).Some?
    ensures var r := Free(s, u, b).value;
      && Safe(r) && Serves(r, t, sz, h)
      && Malloc(r, t, sz, contiguous) == Some((s.(live := s.live[b := sz]), b))
  {
    ServingSpan(s, t, sz, h);
    UsedSpanIsFreed(s, t, sz, u, b, h);
    UsedSpanTakes(s, u, b, h);
    var r := Free(s, u, b).value;
    hide Safe, Free, Size2Cls, Malloc;
    UsedSpanGives(r, t, sz, contiguous, h);
    GivenBack(s, r, Malloc(r, t, sz, contiguous).value, b, h, sz);
  }

  lemma UsedSpanIsFreed(s: Heap, t: nat, sz: nat, u: nat, b: nat, h: nat)
    requires Serves(s, t, sz, h) && GetHeader(b) == h && s.spans[h].state == IN_USE && s.spans[h].owner == Thread(t) && s.spans[h].blkSize > 0
    ensures Free(s, u, b).Some?
  {
    hide Size2Cls, Known, GetHeader, Freed;
  }

  lemma GivenBack(s: Heap, r: Heap, m: (Heap, nat), b: nat, h: nat, sz: nat)
    requires h in s.spans && b in s.live && h in r.spans && h in m.0.spans
    requires var sp := s.spans[h];
      r == s.(spans := s.spans[h := sp.(freeCnt := sp.freeCnt + 1, blkList := [b] + sp.blkList)], live := s.live - {b})
    requires var sp := r.spans[h];
      && m.0 == r.(spans := m.0.spans, live := r.live[m.1 := sz])
      && m.0.spans == r.spans[h := sp.(freeCnt := sp.freeCnt - 1, blkList := m.0.spans[h].blkList, freeBlk := m.0.spans[h].freeBlk)]
      && sp.blkList == [m.1] + m.0.spans[h].blkList && m.0.spans[h].freeBlk == sp.freeBlk
    ensures m == (s.(live := s.live[b := sz]), b)
  {
    var sp := s.spans[h];
    assert m.1 == r.spans[h].blkList[0] == b;
    assert m.0.spans[h].blkList == r.spans[h].blkList[1..] == sp.blkList;
    assert m.0.spans == s.spans;
    assert (s.live - {b})[b := sz] == s.live[b := sz];
  }

  // Any number of blocks.

  function Reversed<T>(xs: seq<T>): seq<T> {
    if xs == [] then [] else Reversed(xs[1..]) + [xs[0]]
  }

  /** Thread u frees the blocks bs, the first one first. */
  ghost function FreeAll(s: Heap, u: nat, bs: seq<nat>): Option<Heap>
    decreases |bs|
  {
    if bs == [] then Some(s)
    else if GetHeader(bs[0]) !in s.spans || s.spans[GetHeader(bs[0])].blkSize == 0 then None
    else
      match Free(s, u, bs[0])
      case None => None
      case Some(r) => FreeAll(r, u, bs[1..])
  }

  /** Thread t allocates n times; the blocks that it is given, the first one first. */
  ghost function MallocTimes(s: Heap, t: nat, sz: nat, contiguous: bool, n: nat): Option<(Heap, seq<nat>)>
    requires 0 < sz <= MAX_SMALL
  {
    if n == 0 then Some((s, []))
    else
      match MallocTimes(s, t, sz, contiguous, n - 1)
      case None => None
      case Some((r, bs)) =>
        if Running(r, t) && PoolReady(r) && Known(r) then
          match Malloc(r, t, sz, contiguous)
          case None => None
          case Some((q, b)) => Some((q, bs + [b]))
        else None
  }

  /** The state after block b of span h has come back. */
  ghost predicate HasBack(s: Heap, r: Heap, b: nat, h: nat) {
    && h in s.spans
    && r == s.(spans := s.spans[h := s.spans[h].(freeCnt := s.spans[h].freeCnt + 1, blkList := [b] + s.spans[h].blkList)], live := r.live)
  }

  /** And is given again, whatever else has been given meanwhile. */
  lemma GivenAgain(s: Heap, r: Heap, q: Heap, t: nat, sz: nat, contiguous: bool, b: nat, h: nat)
    requires HasBack(s, r, b, h) && q == r.(live := q.live) && Serves(s, t, sz, h)
    ensures Serves(q, t, sz, h) && Malloc(q, t, sz, contiguous).Some?
    ensures var (p, a) := Malloc(q, t, sz, contiguous).value; a == b && p == s.(live := p.live)
  {
    hide Size2Cls, Malloc;
    UsedSpanGives(q, t, sz, contiguous, h);
    var (p, a) := Malloc(q, t, sz, contiguous).value;
    assert a == q.spans[h].blkList[0] == b;
    assert p.spans[h].blkList == q.spans[h].blkList[1..] == s.spans[h].blkList;
    assert p.spans == s.spans;
  }

  /** Blocks that are freed into the span in use come back in reverse order, and then the span and
    * the lists are as before. */
  lemma {:induction false} FreedBlocksComeBackReversed(s: Heap, t: nat, sz: nat, contiguous: bool, u: nat, bs: seq<nat>, h: nat)
    requires Safe(s) && Serves(s, t, sz, h) && Distinct(bs)
    requires forall b :: b in bs ==> b in s.live && GetHeader(b) == h
    ensures FreeAll(s, u, bs).Some?
    ensures var m := MallocTimes(FreeAll(s, u, bs).value, t, sz, contiguous, |bs|);
      m.Some? && m.value.0 == s.(live := m.value.0.live) && m.value.1 == Reversed(bs)
    decreases |bs|
  {
    hide Safe, Serves, Free, Malloc, GetHeader, Size2Cls, HasBack;
    if bs != [] {
      var b, rest := bs[0], bs[1..];
      assert bs == [b] + rest;
      IsServed(s, t, sz, h);
      FreedBlockComesBack(s, t, sz, contiguous, u, b, h);
      ServingSpan(s, t, sz, h);
      var r := Free(s, u, b).value;
      FreedOne(s, u, b, h, rest);
      FreedBlocksComeBackReversed(r, t, sz, contiguous, u, rest, h);
      var m := MallocTimes(FreeAll(r, u, rest).value, t, sz, contiguous, |rest|).value;
      GivenAgain(s, r, m.0, t, sz, contiguous, b, h);
      IsServed(m.0, t, sz, h);
    }
  }

  lemma IsServed(s: Heap, t: nat, sz: nat, h: nat)
    requires Serves(s, t, sz, h)
    ensures Running(s, t) && PoolReady(s) && Known(s) && h in s.spans && 0 < sz <= MAX_SMALL
  {
  }

  lemma FreedOne(s: Heap, u: nat, b: nat, h: nat, rest: seq<nat>)
    requires Safe(s) && b in s.live && GetHeader(b) == h && h in s.spans && s.spans[h].state == IN_USE
    requires s.spans[h].blkSize > 0 && Free(s, u, b).Some? && Distinct([b] + rest)
    requires forall a :: a in rest ==> a in s.live
    ensures var r := Free(s, u, b).value;
      HasBack(s, r, b, h) && Distinct(rest) && forall a :: a in rest ==> a in r.live
  {
    hide Safe, Free, GetHeader;
    UsedSpanTakes(s, u, b, h);
    var bs := [b] + rest;
    assert bs[0] == b && forall i :: 0 <= i < |rest| ==> rest[i] == bs[i + 1];
  }
}
