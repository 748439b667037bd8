/** Three short runs of the span allocator that leave the guards of SpanRuns.dfy, and two that
  * go on from the second: one finds the lost span again, the other one its owner gone. The first
  * mapping may lie anywhere. */
module SpanDefects {
  import opened SizeTables
  import opened SpanSpec
  import opened Rings
  import opened SpanInv
  import opened SpanSlots
  import opened SpanSteps
  import opened SpanRuns

  /** Nothing is at hand for class c of thread t, and the pool has room. */
  ghost predicate Bare(s: Heap, t: nat, c: nat) {
    && Running(s, t) && PoolReady(s) && Known(s) && c < CLASSES
    && s.lists[Suspended(t, c)] == [] && s.lists[FreeOf(t)] == []
    && s.lists[PoolSuspended(c)] == [] && s.lists[PoolFree] == [] && s.freeStart + SPAN <= s.end
  }

  lemma InvReady(s: Heap)
    requires Inv(s)
    ensures PoolReady(s) && Known(s)
  {
    var w :| Sound(s, w) && w.Keys == s.spans.Keys;
    hide Sound;
    SoundReady(s, w);
  }

  /** An allocation of a small size in thread t succeeds and returns b. */
  ghost predicate Returns(s: Heap, t: nat, sz: nat, b: nat) {
    Allocates(s, MallocOp(t, sz, true)) && Malloc(s, t, sz, true).Some? && Malloc(s, t, sz, true).value.1 == b
  }

  /** With nothing at hand and an empty using slot, the block is the first one of a newly
    * carved span. */
  lemma BareMalloc(s: Heap, t: nat, sz: nat) returns (r: Heap)
    requires Inv(s) && 0 < sz <= MAX_SMALL && Size2Cls(sz) < CLASSES && Bare(s, t, Size2Cls(sz))
    requires s.lists[Using(t, Size2Cls(sz))] == []
    ensures Next(s, MallocOp(t, sz, true), r) && Inv(r)
    ensures var c, h := Size2Cls(sz), s.freeStart;
      && r == HandOut(Install(Carve(s, c), t, c, h), h, sz).0 && Returns(s, t, sz, h + HEADER)
  {
    hide Inv, Size2Cls, Replace, HandOut, Install, Carve, Bare, Known, Guard;
    var c, h := Size2Cls(sz), s.freeStart;
    Size2ClsFits(sz);
    BareReplace(s, t, c);
    InvReady(s);
    BareGuard(s, t, c);
    FirstBlock(s, t, c, sz);
    assert Prepared(s, t, c, true) == Some(Install(Carve(s, c), t, c, h));
    r := HandOut(Install(Carve(s, c), t, c, h), h, sz).0;
    MallocKeepsExactly(s, t, sz, true);
  }

  lemma BareGuard(s: Heap, t: nat, c: nat)
    requires Bare(s, t, c)
    ensures Running(s, t) && PoolReady(s) && Known(s) && Guard(s, t, c)
  {
  }

  lemma FirstBlock(s: Heap, t: nat, c: nat, sz: nat)
    requires c < CLASSES
    ensures s.freeStart in Carve(s, c).spans
    ensures var h := s.freeStart;
      var r := Install(Carve(s, c), t, c, h);
      Using(t, c) in r.lists && r.lists[Using(t, c)] == [h] && h in r.spans && HandOut(r, h, sz).1 == h + HEADER
  {
    hide Cls2Size, Capacity;
  }

  lemma BareReplace(s: Heap, t: nat, c: nat)
    requires Bare(s, t, c)
    ensures Replace(s, t, c, true) == Some(Install(Carve(s, c), t, c, s.freeStart))
  {
  }

  /** The pool with its first mapping at raw, when thread 0 has started. */
  lemma FirstThread(raw: nat) returns (s: Heap, r: Heap)
    requires raw > 0
    ensures s == Initial(raw) && Next(s, StartOp(0), r) && Inv(r)
    ensures forall c :: 0 <= c < CLASSES ==> Bare(r, 0, c) && r.lists[Using(0, c)] == []
    ensures r.freeStart == r.start == s.start && s.start % SPAN == 0 && s.start + 5 * SPAN <= r.end
  {
    hide Inv, Start, Initial, Known;
    s := Initial(raw);
    InitialHolds(raw);
    InitialLists(raw);
    r := Start(s, 0);
    StartIsSafe(s, 0);
    StartedWith(s, 0);
    InvReady(r);
  }

  /** The first calls of a run. */
  lemma RunStarts(raw: nat, s: Heap)
    requires raw > 0 && s == Initial(raw)
    ensures IsRun([Done(s)], [])
  {
    hide Initial, Step;
  }

  /** One more call. */
  lemma RunGoesOn(run: seq<Outcome>, ops: seq<Op>, op: Op, p: Outcome)
    requires IsRun(run, ops) && Step(run[|ops|], op, p)
    ensures IsRun(run + [p], ops + [op])
  {
    hide Initial, Step;
    var longer, more := run + [p], ops + [op];
    forall i | 0 <= i < |more|
      ensures Step(longer[i], more[i], longer[i + 1])
    {
      if i < |ops| {
        assert Step(run[i], ops[i], run[i + 1]);
      }
    }
  }

  lemma StartedWith(s: Heap, t: nat)
    requires FreeOf(t) !in s.lists
    ensures var r := Start(s, t);
      && r.spans == s.spans && r.start == s.start && r.end == s.end && r.freeStart == s.freeStart
      && (forall c :: 0 <= c < CLASSES ==> Using(t, c) in r.lists && r.lists[Using(t, c)] == [])
      && (forall c :: 0 <= c < CLASSES ==> Suspended(t, c) in r.lists && r.lists[Suspended(t, c)] == [])
      && FreeOf(t) in r.lists && r.lists[FreeOf(t)] == []
      && (forall pl :: pl in s.lists && !OfThread(pl, t) ==> pl in r.lists && r.lists[pl] == s.lists[pl])
      && (forall pl :: pl in r.lists && !OfThread(pl, t) ==> pl in s.lists)
  {
  }

  lemma ExitedWith(s: Heap, t: nat)
    requires Running(s, t) && PoolReady(s)
    ensures var r := Exit(s, t);
      && (forall c :: 0 <= c < CLASSES ==> PoolSuspended(c) in r.lists
                                           && r.lists[PoolSuspended(c)] == s.lists[PoolSuspended(c)] + Holdings(s, t, c))
      && (forall pl :: pl in r.lists ==> pl in s.lists)
      && (forall h :: h in s.spans ==> h in r.spans && r.spans[h] == s.spans[h].(owner := r.spans[h].owner))
  {
  }

  // A span without a free block is taken from the pool.

  /** The span at h is used up, and it is the first one that the pool has for class c. */
  ghost predicate PoolHasSpent(s: Heap, h: nat, c: nat) {
    && PoolReady(s) && Known(s) && c < CLASSES && s.lists[PoolSuspended(c)] == [h] && h in s.spans
    && s.spans[h].freeCnt == 0 && s.spans[h].blkList == [] && s.spans[h].freeBlk == h + SPAN
  }

  lemma ExitLeavesSpent(s: Heap, h: nat, c: nat) returns (r: Heap)
    requires Inv(s) && Running(s, 0) && FreeOf(1) !in s.lists && h in s.spans && c < CLASSES && PoolReady(s)
    requires s.lists[PoolSuspended(c)] == [] && s.lists[Suspended(0, c)] == [] && s.lists[Using(0, c)] == [h]
    requires s.spans[h].freeCnt == 0 && s.spans[h].blkList == [] && s.spans[h].freeBlk == h + SPAN
    ensures Next(s, ExitOp(0), r) && Inv(r) && PoolHasSpent(r, h, c) && FreeOf(1) !in r.lists
  {
    hide Inv, Exit, Known;
    r := Exit(s, 0);
    ExitIsSafe(s, 0);
    ExitedWith(s, 0);
    InvReady(r);
    assert [] + ([] + [h]) == [h];
  }

  lemma StartFindsSpent(s: Heap, h: nat, c: nat) returns (r: Heap)
    requires Inv(s) && PoolHasSpent(s, h, c) && FreeOf(1) !in s.lists
    ensures Next(s, StartOp(1), r) && Inv(r) && PoolHasSpent(r, h, c) && Running(r, 1)
    ensures r.lists[Using(1, c)] == [] && r.lists[Suspended(1, c)] == [] && r.lists[FreeOf(1)] == []
  {
    hide Inv, Start, Known;
    r := Start(s, 1);
    StartIsSafe(s, 1);
    StartedWith(s, 1);
    InvReady(r);
  }

  lemma SpentIsReused(s: Heap, h: nat, sz: nat) returns (r: Heap)
    requires 0 < sz <= MAX_SMALL && Size2Cls(sz) < CLASSES
    requires Inv(s) && PoolHasSpent(s, h, Size2Cls(sz)) && Running(s, 1)
    requires s.lists[Using(1, Size2Cls(sz))] == [] && s.lists[Suspended(1, Size2Cls(sz))] == [] && s.lists[FreeOf(1)] == []
    ensures Next(s, MallocOp(1, sz, true), r) && Returns(s, 1, sz, h + SPAN) && !Safe(r)
  {
    hide Inv, Safe, Size2Cls;
    InvIsSafe(s);
    var c := Size2Cls(sz);
    assert Replace(s, 1, c, true) == Some(Install(Pop(s, PoolSuspended(c)), 1, c, h));
    r := Malloc(s, 1, sz, true).value.0;
    MallocIsSafeExactly(s, 1, sz, true);
    assert !HasBlock(s, 1, c);
  }

  lemma Class28()
    ensures Size2Cls(16384) == 28 && Cls2Size(28) == 16384 && Capacity(16384) == 1
  {
  }

  /** The block of 16384 bytes uses up its span. */
  lemma OnlyBlock(s: Heap)
    requires Bare(s, 0, 28)
    ensures var h := s.freeStart;
      var r := HandOut(Install(Carve(s, 28), 0, 28, h), h, 16384).0;
      && Running(r, 0) && PoolReady(r) && r.freeStart == h + SPAN && r.end == s.end
      && r.lists[Using(0, 28)] == [h] && r.lists[Suspended(0, 28)] == [] && r.lists[FreeOf(0)] == []
      && r.lists[PoolSuspended(28)] == [] && r.lists[PoolFree] == []
      && Fresh(r, h, 28, IN_USE, 0) && r.spans[h].blkSize == 16384 && r.spans[h].freeBlk == h + SPAN && h + HEADER in r.live
  {
    Class28();
  }

  /** Thread 0 allocates the only block of a span and exits; thread 1 is given that span,
    * and its block starts where the span ends: at the header of the next one. */
  lemma FullSpanIsReused(raw: nat) returns (run: seq<Outcome>, ops: seq<Op>)
    requires raw > 0
    ensures IsRun(run, ops) && run[0] == Done(Initial(raw))
    ensures ops == [StartOp(0), MallocOp(0, 16384, true), ExitOp(0), StartOp(1), MallocOp(1, 16384, true)]
    ensures run[4].Done? && Returns(run[4].heap, 1, 16384, run[0].heap.start + SPAN)
    ensures run[5].Done? && !Safe(run[5].heap)
  {
    hide Inv, Safe, Bare, Returns, Next, Initial, HandOut, Install, Carve, PoolHasSpent, IsRun, Step;
    Class28();
    var s0, s1 := FirstThread(raw);
    var s2 := BareMalloc(s1, 0, 16384);
    OnlyBlock(s1);
    InvReady(s2);
    OneThread(raw, s0, s1, s2, 28, 16384);
    var s3 := ExitLeavesSpent(s2, s0.start, 28);
    var s4 := StartFindsSpent(s3, s0.start, 28);
    var s5 := SpentIsReused(s4, s0.start, 16384);
    RunStarts(raw, s0);
    run, ops := [Done(s0)], [];
    run, ops := Extended(run, ops, s0, StartOp(0), s1);
    run, ops := Extended(run, ops, s1, MallocOp(0, 16384, true), s2);
    run, ops := Extended(run, ops, s2, ExitOp(0), s3);
    run, ops := Extended(run, ops, s3, StartOp(1), s4);
    run, ops := Extended(run, ops, s4, MallocOp(1, 16384, true), s5);
  }

  lemma Extended(run: seq<Outcome>, ops: seq<Op>, s: Heap, op: Op, r: Heap) returns (longer: seq<Outcome>, more: seq<Op>)
    requires IsRun(run, ops) && |run| == |ops| + 1 && run[|ops|] == Done(s) && Next(s, op, r)
    ensures longer == run + [Done(r)] && more == ops + [op] && IsRun(longer, more)
  {
    hide Next, IsRun, Step;
    NextIsStep(s, op, r);
    RunGoesOn(run, ops, op, Done(r));
    longer, more := run + [Done(r)], ops + [op];
  }

  lemma OneThread(raw: nat, s0: Heap, s1: Heap, s2: Heap, c: nat, sz: nat)
    requires s0 == Initial(raw) && Next(s0, StartOp(0), s1) && Bare(s1, 0, c)
    requires s2 == HandOut(Install(Carve(s1, c), 0, c, s1.freeStart), s1.freeStart, sz).0
    ensures FreeOf(1) !in s2.lists
  {
    hide Initial, Start, SpanInit, GetBlk, Known;
    InitialLists(raw);
    StartedWith(s0, 0);
  }

  // A suspended span with a free block is lost.

  /** What thread 0 has for class c, when nothing else is at hand and the pool has room. */
  ghost predicate Shelf(s: Heap, c: nat, using: seq<nat>, suspended: seq<nat>) {
    && Running(s, 0) && PoolReady(s) && Known(s) && c < CLASSES
    && s.lists[Using(0, c)] == using && s.lists[Suspended(0, c)] == suspended && s.lists[FreeOf(0)] == []
    && s.lists[PoolSuspended(c)] == [] && s.lists[PoolFree] == [] && s.freeStart + SPAN <= s.end
  }

  /** Span h belongs to thread 0 and class c, and has cnt free blocks, none of them freed. */
  ghost predicate Fresh(s: Heap, h: nat, c: nat, state: SpanState, cnt: int) {
    h in s.spans && s.spans[h].owner == Thread(0) && s.spans[h].cls == c && s.spans[h].state == state
    && s.spans[h].freeCnt == cnt && s.spans[h].blkList == []
  }

  /** A slot whose span has a block left gives it. */
  lemma NextBlock(s: Heap, c: nat, h: nat, suspended: seq<nat>, sz: nat, cnt: nat) returns (r: Heap)
    requires Inv(s) && 0 < sz <= MAX_SMALL && Size2Cls(sz) == c
    requires Shelf(s, c, [h], suspended) && Fresh(s, h, c, IN_USE, cnt) && cnt > 0
    ensures Next(s, MallocOp(0, sz, true), r) && Inv(r)
    ensures Shelf(r, c, [h], suspended) && Fresh(r, h, c, IN_USE, cnt - 1)
    ensures forall g :: g in s.spans && g != h ==> g in r.spans && r.spans[g] == s.spans[g]
    ensures r.freeStart == s.freeStart && r.end == s.end && r.live == s.live[s.spans[h].freeBlk := sz]
    ensures r.spans[h].blkSize == s.spans[h].blkSize
  {
    hide Inv, Known, Size2Cls;
    assert Prepared(s, 0, c, true) == Some(s);
    r := Malloc(s, 0, sz, true).value.0;
    MallocKeepsExactly(s, 0, sz, true);
    assert Guard(s, 0, c);
    InvReady(r);
  }

  /** The span h is suspended and the newly carved g is used, with one block given. */
  ghost predicate NewSpan(s: Heap, r: Heap, c: nat, h: nat, g: nat, cap: nat) {
    && Shelf(r, c, [g], [h]) && Fresh(r, g, c, IN_USE, cap - 1) && Fresh(r, h, c, SUSPEND, 0)
    && r.freeStart == s.freeStart + SPAN && r.end == s.end && r.lists.Keys == s.lists.Keys
    && h in s.spans && r.spans[h].blkSize == s.spans[h].blkSize
  }

  /** A slot whose span is used up gets a newly carved span, and the old one is suspended. */
  lemma NextSpan(s: Heap, c: nat, h: nat, sz: nat, cap: nat) returns (r: Heap)
    requires Inv(s) && 0 < sz <= MAX_SMALL && Size2Cls(sz) == c < CLASSES && SpanInit(RAW, s.freeStart, c).freeCnt == cap > 0
    requires Shelf(s, c, [h], []) && Fresh(s, h, c, IN_USE, 0) && s.freeStart !in s.spans
    requires s.freeStart + 2 * SPAN <= s.end
    ensures Next(s, MallocOp(0, sz, true), r) && Inv(r) && NewSpan(s, r, c, h, s.freeStart, cap)
    ensures r.live == s.live[s.freeStart + HEADER := sz]
  {
    hide Inv, Known, Size2Cls;
    var g := s.freeStart;
    var m := Retire(s, 0, c, h);
    assert [] + [h] == [h];
    RetiredShelf(s, c, h);
    SpentWalk(m, c, h);
    assert Prepared(s, 0, c, true) == Some(Install(Carve(m, c), 0, c, g));
    r := HandOut(Install(Carve(m, c), 0, c, g), g, sz).0;
    assert Malloc(s, 0, sz, true) == Some(HandOut(Install(Carve(m, c), 0, c, g), g, sz));
    MallocKeepsExactly(s, 0, sz, true);
    assert Guard(s, 0, c);
    InvReady(r);
  }

  lemma RetiredShelf(s: Heap, c: nat, h: nat)
    requires Shelf(s, c, [h], []) && Fresh(s, h, c, IN_USE, 0)
    ensures Shelf(Retire(s, 0, c, h), c, [], [h]) && Fresh(Retire(s, 0, c, h), h, c, SUSPEND, 0)
  {
    assert [] + [h] == [h];
  }

  /** The walk over used up spans does nothing. */
  lemma SpentWalk(s: Heap, c: nat, h: nat)
    requires Shelf(s, c, [], [h]) && Fresh(s, h, c, SUSPEND, 0)
    ensures DropUsable(s, 0, c) == s
  {
    assert [h][1..] == [];
  }

  lemma Class26()
    ensures Size2Cls(8192) == 26 && Cls2Size(26) == 8192 && Capacity(8192) == 2
  {
  }

  lemma FirstOfTwo(s: Heap)
    requires Bare(s, 0, 26)
    ensures var h := s.freeStart;
      var r := HandOut(Install(Carve(s, 26), 0, 26, h), h, 8192).0;
      && Running(r, 0) && PoolReady(r) && r.freeStart == h + SPAN && r.end == s.end
      && r.lists[Using(0, 26)] == [h] && r.lists[Suspended(0, 26)] == [] && r.lists[FreeOf(0)] == []
      && r.lists[PoolSuspended(26)] == [] && r.lists[PoolFree] == []
      && Fresh(r, h, 26, IN_USE, 1) && r.spans[h].blkSize == 8192 && h + HEADER in r.live
      && r.spans[h].freeBlk == h + HEADER + 8192
  {
    Class26();
  }

  /** Freeing the first block of a suspended span of two leaves it suspended. */
  lemma FreeFirst(s: Heap, h: nat, using: seq<nat>) returns (r: Heap)
    requires Inv(s) && Shelf(s, 26, using, [h]) && Fresh(s, h, 26, SUSPEND, 0) && s.spans[h].blkSize == 8192
    requires h % SPAN == 0 && h + HEADER in s.live
    ensures Next(s, FreeOp(0, h + HEADER), r) && Inv(r)
    ensures Shelf(r, 26, using, [h]) && r.spans == s.spans[h := s.spans[h].(freeCnt := 1, blkList := [h + HEADER])]
    ensures r.freeStart == s.freeStart && r.live == s.live - {h + HEADER}
  {
    hide Inv, Known, GetHeader, Free, Next;
    HeaderOfByte(h, h + HEADER);
    r := FreeLive(s, h + HEADER);
    FreeOnStack(s, h + HEADER, h);
    assert [h + HEADER] + [] == [h + HEADER];
    InvReady(r);
  }

  lemma FreeLive(s: Heap, b: nat) returns (r: Heap)
    requires Inv(s) && Running(s, 0) && b in s.live
    ensures Next(s, FreeOp(0, b), r) && Inv(r)
    ensures GetHeader(b) in s.spans && s.spans[GetHeader(b)].blkSize > 0
    ensures Free(s, 0, b) == Some(r)
  {
    hide Inv, GetHeader, Free, TurnsFree, Running;
    FreeKeepsExactly(s, 0, b);
    r := Free(s, 0, b).value;
  }

  lemma FreeOnStack(s: Heap, b: nat, h: nat)
    requires GetHeader(b) == h && h in s.spans && s.spans[h].blkSize > 0 && Free(s, 0, b).Some?
    requires s.spans[h].freeCnt + 1 < Capacity(s.spans[h].blkSize)
    ensures Free(s, 0, b).value
         == s.(spans := s.spans[h := s.spans[h].(freeCnt := s.spans[h].freeCnt + 1, blkList := [b] + s.spans[h].blkList)],
               live := s.live - {b})
  {
    CapacityIsSmall(s.spans[h].blkSize);
    hide Capacity;
  }

  /** Span h of thread 0 is the only lost one. Its node remembers the head of the suspend list
    * of class c and the span g, which is what that list holds now. */
  ghost predicate Stray(s: Heap, c: nat, h: nat, g: nat) {
    && Running(s, 0) && c < CLASSES && s.lists[Suspended(0, c)] == [g] && g != h
    && s.stale == map[h := Links(HeadOf(Suspended(0, c)), NodeOf(g))]
  }

  /** The walk unlinks the first suspended span; then a newly carved span is used, and the
    * unlinked one is in no list. */
  lemma SuspendedIsLost(s: Heap, c: nat, g: nat, h: nat, sz: nat) returns (r: Heap)
    requires Inv(s) && 0 < sz <= MAX_SMALL && Size2Cls(sz) == c
    requires Shelf(s, c, [g], [h]) && g in s.spans && s.spans[g].freeCnt == 0
    requires h in s.spans && s.spans[h].freeCnt > 0 && h < s.freeStart && g != h
    ensures Next(s, MallocOp(0, sz, true), r) && !Inv(r) && Safe(r)
    ensures h in r.spans && r.spans[h] == s.spans[h] && forall pl :: pl in r.lists ==> h !in r.lists[pl]
    ensures Stray(r, c, h, g) && s.live.Keys <= r.live.Keys
  {
    hide Inv, Safe, Known, Size2Cls, Malloc, Guard, HasBlock;
    InvIsNoneLost(s);
    r := LosingMalloc(s, c, g, h, sz);
    MallocKeepsExactly(s, 0, sz, true);
    MallocIsSafeExactly(s, 0, sz, true);
    LosingGuards(s, c, g, h);
    OnlySuspended(s, c, h);
  }

  lemma LosingGuards(s: Heap, c: nat, g: nat, h: nat)
    requires Shelf(s, c, [g], [h]) && g in s.spans && s.spans[g].freeCnt == 0 && h in s.spans && s.spans[h].freeCnt > 0
    ensures HasBlock(s, 0, c) && !Guard(s, 0, c)
  {
    assert s.lists[Suspended(0, c)][0] == h;
  }

  lemma LosingMalloc(s: Heap, c: nat, g: nat, h: nat, sz: nat) returns (r: Heap)
    requires 0 < sz <= MAX_SMALL && Size2Cls(sz) == c && s.stale == map[]
    requires Shelf(s, c, [g], [h]) && g in s.spans && s.spans[g].freeCnt == 0
    requires h in s.spans && s.spans[h].freeCnt > 0 && h < s.freeStart && g != h
    ensures Malloc(s, 0, sz, true).Some? && r == Malloc(s, 0, sz, true).value.0
    ensures r.lists == s.lists[Using(0, c) := [s.freeStart]][Suspended(0, c) := [g]]
    ensures r.stale == map[h := Links(HeadOf(Suspended(0, c)), NodeOf(g))]
    ensures h in r.spans && r.spans[h] == s.spans[h] && s.live.Keys <= r.live.Keys
  {
    hide Known, Size2Cls, SpanInit, DropUsable;
    var f := s.freeStart;
    var m := Retire(s, 0, c, g);
    assert [h] + [g] == [h, g] && m.lists[Suspended(0, c)] == [h, g];
    FirstDropped(m, c, h, g);
    var d := m.(lists := m.lists[Suspended(0, c) := [g]], stale := m.stale[h := Links(HeadOf(Suspended(0, c)), NodeOf(g))]);
    assert Prepared(s, 0, c, true) == Some(Install(Carve(d, c), 0, c, f));
    r := HandOut(Install(Carve(d, c), 0, c, f), f, sz).0;
  }

  lemma FirstDropped(s: Heap, c: nat, h: nat, g: nat)
    requires Running(s, 0) && Known(s) && c < CLASSES
    requires s.lists[Suspended(0, c)] == [h, g] && h in s.spans && s.spans[h].freeCnt > 0
    ensures DropUsable(s, 0, c)
         == s.(lists := s.lists[Suspended(0, c) := [g]], stale := s.stale[h := Links(HeadOf(Suspended(0, c)), NodeOf(g))])
  {
    assert [h, g][1..] == [g];
  }

  lemma OnlySuspended(s: Heap, c: nat, h: nat)
    requires Inv(s) && Suspended(0, c) in s.lists && s.lists[Suspended(0, c)] == [h]
    ensures forall pl :: pl in s.lists && pl != Suspended(0, c) ==> h !in s.lists[pl]
  {
    forall pl | pl in s.lists && pl != Suspended(0, c)
      ensures h !in s.lists[pl]
    {
      if h in s.lists[pl] {
        var i :| 0 <= i < |s.lists[pl]| && s.lists[pl][i] == h;
        OnePlace(s, h, pl, i, Suspended(0, c), 0);
      }
    }
  }

  /** Thread 0 allocates all the blocks of two spans of two, frees the first block and
    * allocates again. The suspended first span, which has a free block now, is unlinked and
    * never used: it is in no list, and a third span is carved. The blocks are good all the
    * same. */
  lemma SuspendedSpanIsLost(raw: nat) returns (run: seq<Outcome>, ops: seq<Op>)
    requires raw > 0
    ensures IsRun(run, ops) && run[0] == Done(Initial(raw))
    ensures var m := MallocOp(0, 8192, true);
      ops == [StartOp(0), m, m, m, m, FreeOp(0, run[0].heap.start + HEADER), m]
    ensures run[6].Done? && run[7].Done? && Inv(run[6].heap) && !Inv(run[7].heap) && Safe(run[7].heap)
    ensures var h, r := run[0].heap.start, run[7].heap;
      && h in r.spans && (forall pl :: pl in r.lists ==> h !in r.lists[pl])
      && Stray(r, 26, h, h + SPAN) && OneLeft(r, h)
  {
    hide Inv, Safe, Next, Initial, HandOut, Install, Carve, Known, Size2Cls, Cls2Size, Capacity, GetHeader, IsRun, Step;
    Class26();
    var s0, s1 := FirstThread(raw);
    var s2 := BareMalloc(s1, 0, 8192);
    FirstOfTwo(s1);
    InvReady(s2);
    var s3 := NextBlock(s2, 26, s0.start, [], 8192, 1);
    var s4, s5, s6, s7 := TwoSpans(s3, s0.start);
    var m := MallocOp(0, 8192, true);
    RunStarts(raw, s0);
    run, ops := [Done(s0)], [];
    run, ops := Extended(run, ops, s0, StartOp(0), s1);
    run, ops := Extended(run, ops, s1, m, s2);
    run, ops := Extended(run, ops, s2, m, s3);
    run, ops := Extended(run, ops, s3, m, s4);
    run, ops := Extended(run, ops, s4, m, s5);
    run, ops := Extended(run, ops, s5, FreeOp(0, s0.start + HEADER), s6);
    run, ops := Extended(run, ops, s6, m, s7);
  }

  /** Of the two blocks of h, a suspended span of thread 0, the second one is outstanding. */
  ghost predicate OneLeft(s: Heap, h: nat) {
    && h in s.spans && s.spans[h].owner == Thread(0) && s.spans[h].cls == 26 && s.spans[h].state == SUSPEND
    && s.spans[h].blkSize == 8192 && s.spans[h].freeCnt == 1
    && h % SPAN == 0 && h + HEADER + 8192 in s.live
  }

  /** From the first used up span on. */
  lemma TwoSpans(s3: Heap, h: nat) returns (s4: Heap, s5: Heap, s6: Heap, s7: Heap)
    requires Inv(s3) && Shelf(s3, 26, [h], []) && Fresh(s3, h, 26, IN_USE, 0) && s3.spans[h].blkSize == 8192
    requires h + HEADER in s3.live && h + HEADER + 8192 in s3.live && h % SPAN == 0 && s3.freeStart == h + SPAN && s3.freeStart + 2 * SPAN <= s3.end
    ensures var m := MallocOp(0, 8192, true);
      Next(s3, m, s4) && Next(s4, m, s5) && Next(s5, FreeOp(0, h + HEADER), s6) && Next(s6, m, s7)
    ensures Inv(s6) && !Inv(s7) && Safe(s7) && forall pl :: pl in s7.lists ==> h !in s7.lists[pl]
    ensures Stray(s7, 26, h, h + SPAN) && OneLeft(s7, h)
  {
    hide Inv, Safe, Next, Known, Size2Cls, Cls2Size, Capacity, GetHeader;
    Class26();
    InvRegion(s3);
    s4 := NextSpan(s3, 26, h, 8192, 2);
    s5 := NextBlock(s4, 26, h + SPAN, [h], 8192, 1);
    s6 := FreeFirst(s5, h, [h + SPAN]);
    s7 := SuspendedIsLost(s6, 26, h + SPAN, h, 8192);
  }

  // And found again.

  /** The second block of the lost span is freed: its node is linked between neighbours that
    * face each other, so that list_del changes nothing, and the span joins the free list. */
  lemma StrayIsFreed(s: Heap, h: nat) returns (r: Heap)
    requires Safe(s) && !Inv(s) && Stray(s, 26, h, h + SPAN) && OneLeft(s, h)
    requires forall pl :: pl in s.lists ==> h !in s.lists[pl]
    ensures Next(s, FreeOp(0, h + HEADER + 8192), r) && Inv(r)
    ensures r.lists == s.lists[FreeOf(0) := s.lists[FreeOf(0)] + [h]]
  {
    hide Safe, Inv, GetHeader, Freed;
    HeaderOfByte(h, h + HEADER + 8192);
    StrayGoesWell(s, h);
    FreeIsSafe(s, 0, h + HEADER + 8192);
    r := Free(s, 0, h + HEADER + 8192).value;
    StrayJoins(s, h);
    InvIsNoneLost(r);
  }

  lemma StrayRing(s: Heap, h: nat)
    requires Stray(s, 26, h, h + SPAN)
    ensures RingsStay(s.lists, s.stale[h])
    ensures StaleDel(s, s.stale[h]) == s
  {
    var pl, l := Suspended(0, 26), s.stale[h];
    NothingBetween(s, pl, h + SPAN);
    hide CutAt, OnRing, GoesOnAt;
    forall ql | InOrder(s.lists, ql, l)
      ensures ql == pl
    {
      OneHead(s, ql, pl);
    }
  }

  lemma OneHead(s: Heap, ql: Place, pl: Place)
    requires OnRing(s.lists, ql, HeadOf(pl))
    ensures ql == pl
  {
  }

  /** The head of a list and its only span face each other. */
  lemma NothingBetween(s: Heap, pl: Place, g: nat)
    requires pl in s.lists && !pl.Using? && s.lists[pl] == [g]
    ensures var l := Links(HeadOf(pl), NodeOf(g)); InOrder(s.lists, pl, l) && CutAt(s, pl, l) == s
  {
    hide LinksOf, Position, Kept, CutOut;
    FacingEachOther(pl, g);
    NoLinks([g], pl);
    assert s.lists[pl := [g]] == s.lists;
  }

  lemma FacingEachOther(pl: Place, g: nat)
    ensures var xs, l := [g], Links(HeadOf(pl), NodeOf(g));
      && Position(xs, pl, l.prev) == 0 && Position(xs, pl, l.next) == 1
      && Kept(xs, pl, l) == xs && CutOut(xs, pl, l) == []
  {
    assert IndexOf([g], g) == 0;
  }

  lemma NoLinks(xs: seq<nat>, pl: Place)
    ensures LinksOf(xs, pl, []) == map[]
  {
  }

  lemma StrayGoesWell(s: Heap, h: nat)
    requires Stray(s, 26, h, h + SPAN) && OneLeft(s, h)
    ensures TurnsFree(s.spans[h]) && FreeGoesWell(s, 0, h)
  {
    hide RingsStay, StaleDel;
    Class26();
    StrayRing(s, h);
  }

  lemma StrayJoins(s: Heap, h: nat)
    requires Stray(s, 26, h, h + SPAN) && OneLeft(s, h) && FreeGoesWell(s, 0, h) && TurnsFree(s.spans[h])
    requires forall pl :: pl in s.lists ==> h !in s.lists[pl]
    ensures var r := Freed(s, h, h + HEADER + 8192, FreeOf(0));
      r.lists == s.lists[FreeOf(0) := s.lists[FreeOf(0)] + [h]] && r.stale == map[]
  {
    hide RingsStay, StaleDel, TurnsFree;
    StrayRing(s, h);
    assert s.stale - {h} == map[];
  }

  /** After the run of SuspendedSpanIsLost, thread 0 frees the second block of the lost span:
    * the span is in its free list, and the invariant holds again. */
  lemma LostSpanIsFound(raw: nat) returns (run: seq<Outcome>, ops: seq<Op>)
    requires raw > 0
    ensures IsRun(run, ops) && run[0] == Done(Initial(raw))
    ensures var m, start := MallocOp(0, 8192, true), run[0].heap.start;
      ops == [StartOp(0), m, m, m, m, FreeOp(0, start + HEADER), m, FreeOp(0, start + HEADER + 8192)]
    ensures run[7].Done? && run[8].Done? && !Inv(run[7].heap) && Inv(run[8].heap)
    ensures FreeOf(0) in run[8].heap.lists && run[0].heap.start in run[8].heap.lists[FreeOf(0)]
  {
    hide Inv, Safe, Next, Initial, IsRun, Step;
    run, ops := SuspendedSpanIsLost(raw);
    RunLength(run, ops);
    var h := run[0].heap.start;
    var s8 := StrayIsFreed(run[7].heap, h);
    run, ops := Extended(run, ops, run[7].heap, FreeOp(0, h + HEADER + 8192), s8);
  }

  /** When the owner of a lost span has exited, its lock is gone, but the span has not been handed
    * over to the pool. */
  lemma ExitForgetsLost(s: Heap, h: nat) returns (r: Heap)
    requires Safe(s) && Running(s, 0) && OneLeft(s, h) && forall pl :: pl in s.lists ==> h !in s.lists[pl]
    ensures Next(s, ExitOp(0), r) && Safe(r) && OneLeft(r, h) && FreeOf(0) !in r.lists
  {
    hide Safe, OneLeft, Exit, Running, PoolReady;
    SafeHasPool(s);
    r := Exit(s, 0);
    ExitIsSafe(s, 0);
    LeftIsSpan(s, h);
    LostKeepsOwner(s, h);
    StillLeft(s, r, h);
  }

  lemma LeftIsSpan(s: Heap, h: nat)
    requires OneLeft(s, h)
    ensures h in s.spans && s.spans[h].blkSize > 0 && h + HEADER + 8192 in s.live
    ensures GetHeader(h + HEADER + 8192) == h && s.spans[h].owner == Thread(0)
  {
    HeaderOfByte(h, h + HEADER + 8192);
  }

  lemma StillLeft(s: Heap, r: Heap, h: nat)
    requires OneLeft(s, h) && h in r.spans && h in s.spans && r.spans[h] == s.spans[h] && r.live == s.live
    ensures OneLeft(r, h)
  {
  }

  lemma SafeHasPool(s: Heap)
    requires Safe(s)
    ensures PoolReady(s)
  {
    var w :| Sound(s, w) && Complete(s, w);
    hide Region, Placed, Agreed, Counted, LiveFits;
  }

  lemma LostKeepsOwner(s: Heap, h: nat)
    requires Running(s, 0) && PoolReady(s) && h in s.spans && forall pl :: pl in s.lists ==> h !in s.lists[pl]
    ensures h in Exit(s, 0).spans && Exit(s, 0).spans[h] == s.spans[h] && FreeOf(0) !in Exit(s, 0).lists
  {
    forall c | 0 <= c < CLASSES
      ensures h !in Holdings(s, 0, c)
    {
    }
  }

  lemma LockIsGone(s: Heap, h: nat)
    requires Safe(s) && OneLeft(s, h) && FreeOf(0) !in s.lists
    ensures Step(Done(s), FreeOp(1, h + HEADER + 8192), Faults)
  {
    hide OneLeft, Safe, GetHeader, TurnsFree, Freed, CanMove;
    LeftIsSpan(s, h);
    assert !FreeGoesWell(s, 1, h);
  }

  /** After the run of SuspendedSpanIsLost, thread 0 exits. A thread that frees the second block of
    * the lost span then does not find the lock of its owner. */
  lemma LostSpanOutlivesOwner(raw: nat) returns (run: seq<Outcome>, ops: seq<Op>)
    requires raw > 0
    ensures IsRun(run, ops) && run[0] == Done(Initial(raw))
    ensures var m, start := MallocOp(0, 8192, true), run[0].heap.start;
      ops == [StartOp(0), m, m, m, m, FreeOp(0, start + HEADER), m, ExitOp(0), FreeOp(1, start + HEADER + 8192)]
    ensures run[8].Done? && Safe(run[8].heap) && run[9] == Faults
  {
    hide Inv, Safe, Next, Initial, IsRun, Step, OneLeft;
    run, ops := SuspendedSpanIsLost(raw);
    RunLength(run, ops);
    var h := run[0].heap.start;
    var s8 := ExitForgetsLost(run[7].heap, h);
    var f := FreeOp(1, h + HEADER + 8192);
    run, ops := Extended(run, ops, run[7].heap, ExitOp(0), s8);
    LockIsGone(s8, h);
    RunGoesOn(run, ops, f, Faults);
    run, ops := run + [Faults], ops + [f];
  }

  lemma RunLength(run: seq<Outcome>, ops: seq<Op>)
    requires IsRun(run, ops)
    ensures |run| == |ops| + 1
  {
  }

  lemma InvRegion(s: Heap)
    requires Inv(s)
    ensures s.freeStart !in s.spans
  {
    var w :| Sound(s, w) && w.Keys == s.spans.Keys;
  }

  // A thread that has not allocated turns a span of another thread FREE.

  /** Thread 0 allocates the only blocks of two spans, and thread 1, which has not allocated
    * anything, frees the first of them. Its span would join the free list of thread 1, which
    * has not been initialised. */
  lemma FirstCallIsFree(raw: nat) returns (run: seq<Outcome>, ops: seq<Op>)
    requires raw > 0
    ensures IsRun(run, ops) && run[0] == Done(Initial(raw))
    ensures var m := MallocOp(0, 16384, true);
      ops == [StartOp(0), m, m, FreeOp(1, run[0].heap.start + HEADER)]
    ensures run[3].Done? && Inv(run[3].heap) && run[4] == Faults
  {
    hide Inv, Next, Initial, HandOut, Install, Carve, Known, Size2Cls, Cls2Size, Capacity, GetHeader, IsRun, Step;
    Class28();
    var s0, s1 := FirstThread(raw);
    var s2 := BareMalloc(s1, 0, 16384);
    OnlyBlock(s1);
    InvReady(s2);
    OneThread(raw, s0, s1, s2, 28, 16384);
    InvRegion(s2);
    var s3 := NextSpan(s2, 28, s0.start, 16384, 1);
    StrangerFaults(s3, s0.start);
    var m, f := MallocOp(0, 16384, true), FreeOp(1, s0.start + HEADER);
    RunStarts(raw, s0);
    run, ops := [Done(s0)], [];
    run, ops := Extended(run, ops, s0, StartOp(0), s1);
    run, ops := Extended(run, ops, s1, m, s2);
    run, ops := Extended(run, ops, s2, m, s3);
    RunGoesOn(run, ops, f, Faults);
    run, ops := run + [Faults], ops + [f];
  }

  lemma StrangerFaults(s: Heap, h: nat)
    requires Inv(s) && Fresh(s, h, 28, SUSPEND, 0) && s.spans[h].blkSize == 16384 && h % SPAN == 0
    requires h + HEADER in s.live && FreeOf(1) !in s.lists
    ensures Step(Done(s), FreeOp(1, h + HEADER), Faults)
  {
    hide Inv, GetHeader, Free, FreeGuard, Running;
    HeaderOfByte(h, h + HEADER);
    FreeKeepsExactly(s, 1, h + HEADER);
    NotForStranger(s, h);
  }

  lemma NotForStranger(s: Heap, h: nat)
    requires Fresh(s, h, 28, SUSPEND, 0) && s.spans[h].blkSize == 16384 && FreeOf(1) !in s.lists
    ensures !FreeGuard(s, 1, h)
  {
    Class28();
  }
}
