/** A run in which list_del of a lost span breaks a list and list_add_tail mends it in the same
  * call, wherever the first mapping lies. */
module SpanMended {
  import opened SizeTables
  import opened SpanSpec
  import opened Rings
  import opened SpanInv
  import opened SpanSlots
  import opened SpanSteps
  import opened SpanRuns
  import opened SpanDefects

  /** A block of 8192 bytes; two of them use up a span. */
  const BLOCK := 8192

  /** What thread 0 has for this size, when the pool has no span and room for some more. */
  ghost predicate Scene(s: Heap, using: seq<nat>, suspended: seq<nat>, free: seq<nat>, room: nat) {
    && Running(s, 0) && PoolReady(s) && Known(s)
    && s.lists[Using(0, 26)] == using && s.lists[Suspended(0, 26)] == suspended && s.lists[FreeOf(0)] == free
    && s.lists[PoolSuspended(26)] == [] && s.lists[PoolFree] == []
    && s.freeStart + room * SPAN <= s.end
  }

  ghost predicate Own(s: Heap, h: nat, state: SpanState, cnt: nat) {
    && h in s.spans && s.spans[h].owner == Thread(0) && s.spans[h].cls == 26 && s.spans[h].blkSize == BLOCK
    && s.spans[h].state == state && s.spans[h].freeCnt == cnt && h % SPAN == 0
  }

  /** The first block of h is outstanding, and the second one comes next. */
  ghost predicate Half(s: Heap, h: nat) {
    Own(s, h, IN_USE, 1) && s.spans[h].blkList == [] && s.spans[h].freeBlk == h + HEADER + BLOCK && h + HEADER in s.live
  }

  /** Both blocks of h are outstanding. */
  ghost predicate Full(s: Heap, h: nat, state: SpanState) {
    Own(s, h, state, 0) && h + HEADER in s.live && h + HEADER + BLOCK in s.live
  }

  /** The span h is suspended, and its first block has been freed. */
  ghost predicate Loose(s: Heap, h: nat) {
    Own(s, h, SUSPEND, 1) && h + HEADER + BLOCK in s.live
  }

  /** The other spans and the blocks that are outstanding stay. */
  ghost predicate Others(s: Heap, r: Heap, h: nat) {
    && (forall g :: g in s.spans && g != h ==> g in r.spans && r.spans[g] == s.spans[g])
    && s.live.Keys <= r.live.Keys
  }

  /** The second block of the span in use. */
  lemma Second(s: Heap, h: nat, suspended: seq<nat>, room: nat) returns (r: Heap)
    requires Safe(s) && Scene(s, [h], suspended, [], room) && Half(s, h)
    ensures Next(s, MallocOp(0, BLOCK, true), r) && Safe(r)
    ensures Scene(r, [h], suspended, [], room) && Full(r, h, IN_USE) && Others(s, r, h)
    ensures r.stale == s.stale && r.freeStart == s.freeStart
  {
    Class26();
    hide Safe, Size2Cls, Cls2Size;
    assert Prepared(s, 0, 26, true) == Some(s);
    r := HandOut(s, h, BLOCK).0;
    assert Malloc(s, 0, BLOCK, true) == Some(HandOut(s, h, BLOCK));
    MallocIsSafeExactly(s, 0, BLOCK, true);
  }

  lemma RegionEnds(s: Heap)
    requires Safe(s)
    ensures s.freeStart !in s.spans && s.freeStart % SPAN == 0
  {
    var w :| Sound(s, w) && Complete(s, w);
    hide Lists, Placed, Agreed, Counted, LiveFits;
  }

  /** The span in use is full: it is suspended. */
  lemma Suspend(s: Heap, h: nat, suspended: seq<nat>, room: nat) returns (m: Heap)
    requires Scene(s, [h], suspended, [], room) && Full(s, h, IN_USE)
    ensures m == Retire(s, 0, 26, h) && Scene(m, [], suspended + [h], [], room)
    ensures m.spans == s.spans[h := s.spans[h].(state := SUSPEND)]
    ensures m.live == s.live && m.stale == s.stale && m.freeStart == s.freeStart
  {
    m := Retire(s, 0, 26, h);
  }

  /** A span is carved, and its first block is given. */
  ghost function Carved(d: Heap): Heap {
    HandOut(Install(Carve(d, 26), 0, 26, d.freeStart), d.freeStart, BLOCK).0
  }

  lemma CarvedScene(d: Heap, suspended: seq<nat>, room: nat)
    requires Scene(d, [], suspended, [], room) && room > 0 && d.freeStart % SPAN == 0 && d.freeStart !in d.spans
    ensures var f, r := d.freeStart, Carved(d);
      && Scene(r, [f], suspended, [], room - 1) && Half(r, f) && Others(d, r, f)
      && r.stale == d.stale && r.freeStart == f + SPAN
  {
    Class26();
    hide Size2Cls, Cls2Size, Capacity;
  }

  lemma CarvedReplaces(m: Heap, d: Heap, suspended: seq<nat>, room: nat)
    requires Running(m, 0) && Known(m) && PoolReady(m) && d == DropUsable(m, 0, 26)
    requires Scene(d, [], suspended, [], room) && room > 0
    ensures Replace(m, 0, 26, true) == Some(Install(Carve(d, 26), 0, 26, d.freeStart))
  {
    hide SpanInit, DropUsable;
  }

  /** The allocation that ends so, with d the state after the walk. */
  lemma Given(s: Heap, h: nat, suspended: seq<nat>, m: Heap, d: Heap, rest: seq<nat>, room: nat) returns (r: Heap)
    requires Safe(s) && Scene(s, [h], suspended, [], room) && Full(s, h, IN_USE) && m == Retire(s, 0, 26, h)
    requires Scene(m, [], suspended + [h], [], room) && d == DropUsable(m, 0, 26) && Scene(d, [], rest, [], room) && room > 0
    ensures Next(s, MallocOp(0, BLOCK, true), r) && Safe(r) && r == Carved(d)
  {
    Class26();
    GivenIsSafe(s, h, suspended, room);
    GivenMalloc(s, h, suspended, m, d, rest, room);
    r := Carved(d);
    assert Allocates(s, MallocOp(0, BLOCK, true));
    hide *;
    MallocIsNext(s, r);
  }

  lemma MallocIsNext(s: Heap, r: Heap)
    requires Safe(s) && Allocates(s, MallocOp(0, BLOCK, true)) && HasBlock(s, 0, 26)
    requires Malloc(s, 0, BLOCK, true).Some? && Malloc(s, 0, BLOCK, true).value.0 == r
    ensures Next(s, MallocOp(0, BLOCK, true), r) && Safe(r)
  {
    Class26();
    hide Safe, Known, Running, PoolReady, Size2Cls, Malloc, HasBlock;
    MallocIsSafeExactly(s, 0, BLOCK, true);
  }

  lemma GivenMalloc(s: Heap, h: nat, suspended: seq<nat>, m: Heap, d: Heap, rest: seq<nat>, room: nat)
    requires Scene(s, [h], suspended, [], room) && Full(s, h, IN_USE) && m == Retire(s, 0, 26, h)
    requires Scene(m, [], suspended + [h], [], room) && d == DropUsable(m, 0, 26) && Scene(d, [], rest, [], room) && room > 0
    ensures Malloc(s, 0, BLOCK, true).Some? && Malloc(s, 0, BLOCK, true).value.0 == Carved(d)
  {
    Class26();
    CarvedReplaces(m, d, rest, room);
    InstalledSlot(d);
    hide Known, Running, PoolReady, Size2Cls, Cls2Size, Capacity, Replace, Carve, Install, HandOut, DropUsable, Retire;
  }

  lemma InstalledSlot(d: Heap)
    ensures d.freeStart in Carve(d, 26).spans
    ensures var f := Install(Carve(d, 26), 0, 26, d.freeStart); f.lists[Using(0, 26)] == [d.freeStart] && d.freeStart in f.spans
  {
  }

  lemma GivenIsSafe(s: Heap, h: nat, suspended: seq<nat>, room: nat)
    requires Scene(s, [h], suspended, [], room)
    ensures HasBlock(s, 0, 26)
  {
  }

  /** The span in use is full and all the suspended ones are: nothing is dropped. */
  lemma Another(s: Heap, h: nat, suspended: seq<nat>, room: nat) returns (r: Heap)
    requires Safe(s) && Scene(s, [h], suspended, [], room) && Full(s, h, IN_USE) && room > 0
    requires h !in suspended && forall g :: g in suspended ==> Full(s, g, SUSPEND)
    ensures Next(s, MallocOp(0, BLOCK, true), r) && Safe(r)
    ensures Scene(r, [s.freeStart], suspended + [h], [], room - 1) && r.stale == s.stale
    ensures Half(r, s.freeStart) && Full(r, h, SUSPEND) && Others(s, r, h) && r.freeStart == s.freeStart + SPAN
  {
    hide Safe, Scene, Next, Retire, Carved, DropUsable, Half;
    var m := Suspend(s, h, suspended, room);
    RegionEnds(s);
    NoneDropped(m, suspended + [h], room);
    CarvedScene(m, suspended + [h], room);
    r := Given(s, h, suspended, m, m, suspended + [h], room);
  }

  lemma NoneDropped(m: Heap, xs: seq<nat>, room: nat)
    requires Scene(m, [], xs, [], room) && forall g :: g in xs ==> g in m.spans && m.spans[g].freeCnt == 0
    ensures DropUsable(m, 0, 26) == m
  {
    assert FirstUsable(m, xs) == |xs|;
  }

  lemma MiddleDropped(m: Heap, a: nat, b: nat, h: nat, room: nat) returns (d: Heap)
    requires Scene(m, [], [a, b, h], [], room) && a != b && a in m.spans && b in m.spans
    requires m.spans[a].freeCnt == 0 && m.spans[b].freeCnt > 0
    ensures d == DropUsable(m, 0, 26) && Scene(d, [], [a, h], [], room)
    ensures d == m.(lists := d.lists, stale := m.stale[b := Links(NodeOf(a), NodeOf(h))])
  {
    var xs := [a, b, h];
    assert FirstUsable(m, xs) == 1;
    assert xs[1..] == [b, h] && [b, h][1..] == [h];
    assert Without(xs, b) == [a] + Without([b, h], b) == [a, h];
    d := DropUsable(m, 0, 26);
  }

  /** Of the suspended spans a and b, the latter has a free block: it is lost. */
  lemma Losing(s: Heap, h: nat, a: nat, b: nat, room: nat) returns (r: Heap)
    requires Safe(s) && Scene(s, [h], [a, b], [], room) && Full(s, h, IN_USE) && room > 0
    requires a != b && h != a && h != b && Full(s, a, SUSPEND) && Loose(s, b)
    ensures Next(s, MallocOp(0, BLOCK, true), r) && Safe(r)
    ensures Scene(r, [s.freeStart], [a, h], [], room - 1) && r.stale == s.stale[b := Links(NodeOf(a), NodeOf(h))]
    ensures Half(r, s.freeStart) && Full(r, h, SUSPEND) && Others(s, r, h) && r.freeStart == s.freeStart + SPAN
  {
    hide Safe, Scene, Next, Retire, Carved, DropUsable, Half;
    var m := Suspend(s, h, [a, b], room);
    assert [a, b] + [h] == [a, b, h];
    RegionEnds(s);
    var d := MiddleDropped(m, a, b, h, room);
    CarvedScene(d, [a, h], room);
    r := Given(s, h, [a, b], m, d, [a, h], room);
  }

  // Freeing.

  lemma FreeIsNext(s: Heap, h: nat, b: nat) returns (r: Heap)
    requires Safe(s) && b in s.live && h in s.spans && s.spans[h].blkSize > 0 && GetHeader(b) == h
    requires FreeGoesWell(s, 0, h)
    ensures Next(s, FreeOp(0, b), r) && Safe(r) && r == Freed(s, h, b, FreeList(s.spans[h], 0))
  {
    hide Safe, GetHeader, FreeGoesWell, Freed;
    FreeIsSafe(s, 0, b);
    r := Free(s, 0, b).value;
  }

  lemma BlockHeaders(s: Heap, h: nat, state: SpanState, cnt: nat)
    requires Own(s, h, state, cnt)
    ensures h in s.spans && s.spans[h].blkSize > 0 && GetHeader(h + HEADER) == h && GetHeader(h + HEADER + BLOCK) == h
  {
    HeaderOfByte(h, h + HEADER);
    HeaderOfByte(h, h + HEADER + BLOCK);
  }

  lemma FreedOne(s: Heap, h: nat)
    requires Full(s, h, SUSPEND)
    ensures FreeGoesWell(s, 0, h)
    ensures var r := Freed(s, h, h + HEADER, FreeList(s.spans[h], 0));
      && Loose(r, h) && r == s.(spans := r.spans, live := s.live - {h + HEADER})
      && r.spans.Keys == s.spans.Keys && forall g :: g != h && g in s.spans ==> r.spans[g] == s.spans[g]
  {
    Class26();
    hide Capacity, CanMove, Moved;
  }

  /** The first block of a full suspended span comes back. */
  lemma FreeOne(s: Heap, h: nat) returns (r: Heap)
    requires Safe(s) && Full(s, h, SUSPEND)
    ensures Next(s, FreeOp(0, h + HEADER), r) && Safe(r) && Loose(r, h)
    ensures r == s.(spans := r.spans, live := s.live - {h + HEADER})
    ensures r.spans.Keys == s.spans.Keys && forall g :: g != h && g in s.spans ==> r.spans[g] == s.spans[g]
  {
    hide GetHeader, Freed, FreeGoesWell, Safe, Next;
    BlockHeaders(s, h, SUSPEND, 0);
    FreedOne(s, h);
    assert h + HEADER in s.live;
    hide *;
    r := FreeIsNext(s, h, h + HEADER);
  }

  lemma FreedLast(s: Heap, h: nat, using: seq<nat>, g: nat, room: nat)
    requires Scene(s, using, [h, g], [], room) && Loose(s, h)
    ensures FreeGoesWell(s, 0, h)
    ensures var r := Freed(s, h, h + HEADER + BLOCK, FreeList(s.spans[h], 0));
      && Scene(r, using, [g], [h], room) && r.stale == s.stale && r.live == s.live - {h + HEADER + BLOCK}
      && r.spans.Keys == s.spans.Keys && forall k :: k != h && k in s.spans ==> r.spans[k] == s.spans[k]
  {
    Class26();
    assert Without([h, g], h) == [g] && [] + [h] == [h];
    assert IsListed(s, h);
    hide Capacity, StaleDel, RingsStay, IsMended, Without;
  }

  /** The last one comes back, and the span, which is the first suspended one, joins the free
    * list. */
  lemma FreeLast(s: Heap, h: nat, using: seq<nat>, g: nat, room: nat) returns (r: Heap)
    requires Safe(s) && Scene(s, using, [h, g], [], room) && Loose(s, h)
    ensures Next(s, FreeOp(0, h + HEADER + BLOCK), r) && Safe(r) && Scene(r, using, [g], [h], room)
    ensures r.stale == s.stale && r.live == s.live - {h + HEADER + BLOCK}
    ensures r.spans.Keys == s.spans.Keys && forall k :: k != h && k in s.spans ==> r.spans[k] == s.spans[k]
  {
    hide Scene, GetHeader, Freed, FreeGoesWell, Safe, Next;
    BlockHeaders(s, h, SUSPEND, 1);
    FreedLast(s, h, using, g, room);
    assert h + HEADER + BLOCK in s.live;
    hide *;
    r := FreeIsNext(s, h, h + HEADER + BLOCK);
  }

  /** Span b is lost and remembers a, the only span of the free list, and c, which is lost. */
  ghost predicate Torn(s: Heap, a: nat, b: nat, c: nat) {
    b in s.stale && s.stale[b] == Links(NodeOf(a), NodeOf(c)) && c in s.stale
  }

  lemma LostIsOff(s: Heap, h: nat)
    requires Safe(s) && h in s.stale
    ensures OnNoRing(s.lists, NodeOf(h)) && forall pl :: pl in s.lists ==> h !in s.lists[pl]
  {
    var w :| Sound(s, w) && Complete(s, w);
    hide Region, Lists, Agreed, Counted, LiveFits;
    forall pl | pl in s.lists
      ensures h !in s.lists[pl]
    {
      assert OnlyHere(s.lists[pl], w, pl);
    }
  }

  /** list_del alone would leave a free list that is no ring. */
  lemma TornIsMended(s: Heap, a: nat, b: nat, c: nat, using: seq<nat>, suspended: seq<nat>, room: nat)
    requires Safe(s) && Scene(s, using, suspended, [a], room) && Torn(s, a, b, c)
    ensures !RingsStay(s.lists, s.stale[b]) && IsMended(s.lists, s.stale[b], FreeOf(0))
    ensures OnNoRing(s.lists, s.stale[b].next) && FreeOf(0) in s.lists && s.lists[FreeOf(0)] == [a]
  {
    LostIsOff(s, c);
    hide Safe;
    assert IndexOf([a], a) == 0;
    assert OnRing(s.lists, FreeOf(0), NodeOf(a));
  }

  lemma FreedTorn(s: Heap, a: nat, b: nat)
    requires Loose(s, b) && b in s.stale && FreeOf(0) in s.lists && s.lists[FreeOf(0)] == [a]
    requires forall pl :: pl in s.lists ==> b !in s.lists[pl]
    requires IsMended(s.lists, s.stale[b], FreeOf(0)) && StaleDel(s, s.stale[b]).lists == s.lists
    ensures FreeGoesWell(s, 0, b)
    ensures var r := Freed(s, b, b + HEADER + BLOCK, FreeList(s.spans[b], 0));
      FreeOf(0) in r.lists && r.lists[FreeOf(0)] == [a, b]
  {
    Class26();
    assert [a] + [b] == [a, b];
    hide Capacity, StaleDel, RingsStay, IsMended, Without;
  }

  /** The last block of b comes back. */
  lemma FreeTorn(s: Heap, a: nat, b: nat, c: nat, using: seq<nat>, suspended: seq<nat>, room: nat) returns (r: Heap)
    requires Safe(s) && Scene(s, using, suspended, [a], room) && Torn(s, a, b, c) && Loose(s, b)
    ensures !RingsStay(s.lists, s.stale[b])
    ensures Next(s, FreeOp(0, b + HEADER + BLOCK), r) && Safe(r) && FreeOf(0) in r.lists && r.lists[FreeOf(0)] == [a, b]
  {
    hide Scene, GetHeader, Freed, FreeGoesWell, Safe, Next, RingsStay, IsMended, StaleDel, OnNoRing;
    BlockHeaders(s, b, SUSPEND, 1);
    TornIsMended(s, a, b, c, using, suspended, room);
    LostIsOff(s, b);
    TornStays(s, b);
    FreedTorn(s, a, b);
    assert b + HEADER + BLOCK in s.live;
    hide *;
    r := FreeIsNext(s, b, b + HEADER + BLOCK);
  }

  lemma TornStays(s: Heap, b: nat)
    requires b in s.stale && OnNoRing(s.lists, s.stale[b].next)
    ensures StaleDel(s, s.stale[b]).lists == s.lists
  {
    hide OnRing;
  }

  // The run.

  /** The first span with its first block given. */
  lemma FirstHalf(raw: nat) returns (s0: Heap, s1: Heap, s2: Heap)
    requires raw > 0
    ensures s0 == Initial(raw) && Next(s0, StartOp(0), s1) && Next(s1, MallocOp(0, BLOCK, true), s2)
    ensures Safe(s2) && Scene(s2, [s0.start], [], [], 4) && Half(s2, s0.start) && s2.freeStart == s0.start + SPAN
  {
    hide Inv, Safe, Next, Initial, HandOut, Install, Carve, Known, Size2Cls, Cls2Size, Capacity;
    Class26();
    s0, s1 := FirstThread(raw);
    s2 := BareMalloc(s1, 0, BLOCK);
    FirstOfTwo(s1);
    InvReady(s2);
    InvIsSafe(s2);
  }

  lemma SameScene(s: Heap, r: Heap, using: seq<nat>, suspended: seq<nat>, free: seq<nat>, room: nat)
    requires Scene(s, using, suspended, free, room) && r == s.(spans := r.spans, live := r.live) && r.spans.Keys == s.spans.Keys
    ensures Scene(r, using, suspended, free, room)
  {
  }

  /** Three spans are filled. */
  lemma ThreeSpans(s2: Heap, a: nat) returns (s3: Heap, s4: Heap, s5: Heap, s6: Heap, s7: Heap)
    requires Safe(s2) && Scene(s2, [a], [], [], 4) && Half(s2, a) && s2.freeStart == a + SPAN
    ensures var m := MallocOp(0, BLOCK, true);
      Next(s2, m, s3) && Next(s3, m, s4) && Next(s4, m, s5) && Next(s5, m, s6) && Next(s6, m, s7)
    ensures Safe(s7) && Scene(s7, [a + 2 * SPAN], [a, a + SPAN], [], 2) && s7.freeStart == a + 3 * SPAN
    ensures Full(s7, a, SUSPEND) && Full(s7, a + SPAN, SUSPEND) && Full(s7, a + 2 * SPAN, IN_USE)
  {
    hide Safe, Scene, Next;
    var b, c := a + SPAN, a + 2 * SPAN;
    s3 := Second(s2, a, [], 4);
    s4 := Another(s3, a, [], 4);
    assert [] + [a] == [a] && [a] + [b] == [a, b];
    s5 := Second(s4, b, [a], 3);
    s6 := Another(s5, b, [a], 3);
    s7 := Second(s6, c, [a, b], 2);
  }

  /** The first block of b is freed, and the next allocation drops b between a and c. */
  lemma OneLost(s7: Heap, a: nat, b: nat, c: nat, d: nat) returns (s8: Heap, s9: Heap)
    requires Safe(s7) && Scene(s7, [c], [a, b], [], 2) && s7.freeStart == d && a < b < c < d
    requires Full(s7, a, SUSPEND) && Full(s7, b, SUSPEND) && Full(s7, c, IN_USE)
    ensures Next(s7, FreeOp(0, b + HEADER), s8) && Next(s8, MallocOp(0, BLOCK, true), s9)
    ensures Safe(s9) && Scene(s9, [d], [a, c], [], 1) && s9.freeStart == d + SPAN
    ensures b in s9.stale && s9.stale[b] == Links(NodeOf(a), NodeOf(c))
    ensures Full(s9, a, SUSPEND) && Loose(s9, b) && Full(s9, c, SUSPEND) && Half(s9, d)
  {
    hide Safe, Scene, Next, Half;
    s8 := FreeOne(s7, b);
    SameScene(s7, s8, [c], [a, b], [], 2);
    s9 := Losing(s8, c, a, b, 2);
  }

  /** Then the same happens to c, between a and d. */
  lemma TwoLost(s9: Heap, a: nat, b: nat, c: nat, d: nat) returns (s10: Heap, s11: Heap, s12: Heap)
    requires Safe(s9) && Scene(s9, [d], [a, c], [], 1) && s9.freeStart == d + SPAN && a < b < c < d
    requires b in s9.stale && s9.stale[b] == Links(NodeOf(a), NodeOf(c))
    requires Full(s9, a, SUSPEND) && Loose(s9, b) && Full(s9, c, SUSPEND) && Half(s9, d)
    ensures var m := MallocOp(0, BLOCK, true);
      Next(s9, FreeOp(0, c + HEADER), s10) && Next(s10, m, s11) && Next(s11, m, s12)
    ensures Safe(s12) && Scene(s12, [d + SPAN], [a, d], [], 0) && Torn(s12, a, b, c)
    ensures Full(s12, a, SUSPEND) && Loose(s12, b)
  {
    hide Safe, Scene, Next;
    s10 := FreeOne(s9, c);
    SameScene(s9, s10, [d], [a, c], [], 1);
    s11 := Second(s10, d, [a, c], 1);
    s12 := Losing(s11, d, a, c, 1);
  }

  /** Both blocks of a are freed, so that it joins the free list, and then the second one of b. */
  lemma TwoFreed(s12: Heap, a: nat, b: nat, c: nat, d: nat) returns (s13: Heap, s14: Heap, s15: Heap)
    requires Safe(s12) && Scene(s12, [d + SPAN], [a, d], [], 0) && Torn(s12, a, b, c) && a < b < c < d
    requires Full(s12, a, SUSPEND) && Loose(s12, b)
    ensures Next(s12, FreeOp(0, a + HEADER), s13) && Next(s13, FreeOp(0, a + HEADER + BLOCK), s14)
    ensures b in s14.stale && !RingsStay(s14.lists, s14.stale[b])
    ensures Next(s14, FreeOp(0, b + HEADER + BLOCK), s15) && Safe(s15) && FreeOf(0) in s15.lists && s15.lists[FreeOf(0)] == [a, b]
  {
    hide Safe, Scene, Next, RingsStay;
    s13 := FreeOne(s12, a);
    SameScene(s12, s13, [d + SPAN], [a, d], [], 0);
    s14 := FreeLast(s13, a, [d + SPAN], d, 0);
    s15 := FreeTorn(s14, a, b, c, [d + SPAN], [d], 0);
  }

  /** A run of 15 calls of one thread, with spans a, b and c. When the last block of b comes back,
    * b is lost and remembers a, which is the last span of the free list now, and c, which is
    * lost. list_del alone would break the free list, but the call leaves every list a ring, and b
    * behind a in the free list. */
  lemma TornListIsMended(raw: nat) returns (run: seq<Outcome>, ops: seq<Op>)
    requires raw > 0
    ensures IsRun(run, ops) && run[0] == Done(Initial(raw))
    ensures var m, a := MallocOp(0, BLOCK, true), run[0].heap.start;
      var b, c := a + SPAN, a + 2 * SPAN;
      && ops == [StartOp(0), m, m, m, m, m, m, FreeOp(0, b + HEADER), m, FreeOp(0, c + HEADER), m, m,
                 FreeOp(0, a + HEADER), FreeOp(0, a + HEADER + BLOCK), FreeOp(0, b + HEADER + BLOCK)]
      && run[14].Done? && b in run[14].heap.stale && !RingsStay(run[14].heap.lists, run[14].heap.stale[b])
      && run[15].Done? && Safe(run[15].heap)
      && FreeOf(0) in run[15].heap.lists && run[15].heap.lists[FreeOf(0)] == [a, b]
  {
    hide Safe, Scene, Next, Initial, IsRun, Step, RingsStay, Half, Full, Loose, Torn;
    var s0, s1, s2 := FirstHalf(raw);
    var a, m := s0.start, MallocOp(0, BLOCK, true);
    var b, c, d := a + SPAN, a + 2 * SPAN, a + 3 * SPAN;
    var s3, s4, s5, s6, s7 := ThreeSpans(s2, a);
    var s8, s9 := OneLost(s7, a, b, c, d);
    var s10, s11, s12 := TwoLost(s9, a, b, c, d);
    var s13, s14, s15 := TwoFreed(s12, a, b, c, d);
    RunStarts(raw, s0);
    run, ops := [Done(s0)], [];
    run, ops := Extended(run, ops, s0, StartOp(0), s1);
    run, ops := Extended(run, ops, s1, m, s2);
    run, ops := Extended(run, ops, s2, m, s3);
    run, ops := Extended(run, ops, s3, m, s4);
    run, ops := Extended(run, ops, s4, m, s5);
    run, ops := Extended(run, ops, s5, m, s6);
    run, ops := Extended(run, ops, s6, m, s7);
    run, ops := Extended(run, ops, s7, FreeOp(0, b + HEADER), s8);
    run, ops := Extended(run, ops, s8, m, s9);
    run, ops := Extended(run, ops, s9, FreeOp(0, c + HEADER), s10);
    run, ops := Extended(run, ops, s10, m, s11);
    run, ops := Extended(run, ops, s11, m, s12);
    run, ops := Extended(run, ops, s12, FreeOp(0, a + HEADER), s13);
    run, ops := Extended(run, ops, s13, FreeOp(0, a + HEADER + BLOCK), s14);
    run, ops := Extended(run, ops, s14, FreeOp(0, b + HEADER + BLOCK), s15);
  }
}
