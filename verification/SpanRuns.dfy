/** Runs of the span allocator: any number of threads, each of whose calls is one step,
  * in any order. */
module SpanRuns {
  import opened SizeTables
  import opened SpanSpec
  import opened Rings
  import opened SpanInv
  import opened SpanSteps

  /** A thread starts; it allocates a small block; it frees an outstanding block, its own or
    * that of another thread, whether it has started or not; it exits. A thread is named by its
    * cache, so that t may start again after it has exited, as another thread. */
  datatype Op =
    | StartOp(t: nat)
    | MallocOp(t: nat, sz: nat, contiguous: bool)
    | FreeOp(t: nat, b: nat)
    | ExitOp(t: nat)

  /** How a call ends: well; with the end of the program, because the pool cannot grow; or
    * with a fault, which is an access through a link or a lock that is not there or a call after
    * which the head of a list is on no ring any more. */
  datatype Outcome = Done(heap: Heap) | Stops | Faults

  ghost predicate Allocates(s: Heap, op: Op) {
    op.MallocOp? && Running(s, op.t) && PoolReady(s) && Known(s) && 0 < op.sz <= MAX_SMALL
  }

  /** The calls that the program may make. */
  ghost predicate Enabled(s: Heap, op: Op) {
    match op
    case StartOp(t) => FreeOf(t) !in s.lists
    case MallocOp(_, _, _) => Allocates(s, op)
    case FreeOp(_, b) => b in s.live && GetHeader(b) in s.spans && s.spans[GetHeader(b)].blkSize > 0
    case ExitOp(t) => Running(s, t) && PoolReady(s)
  }

  ghost function Call(s: Heap, op: Op): Outcome
    requires Enabled(s, op)
  {
    match op
    case StartOp(t) => Done(Start(s, t))
    case MallocOp(t, sz, contiguous) =>
      (match Malloc(s, t, sz, contiguous)
       case None => Stops
       case Some((r, _)) => Done(r))
    case FreeOp(t, b) =>
      (match Free(s, t, b)
       case None => Faults
       case Some(r) => Done(r))
    case ExitOp(t) => Done(Exit(s, t))
  }

  ghost predicate Next(s: Heap, op: Op, r: Heap) {
    Enabled(s, op) && Call(s, op) == Done(r)
  }

  /** Any calls in any order, until one of them faults or the program stops. */
  ghost predicate IsRun(run: seq<Outcome>, ops: seq<Op>) {
    && |run| == |ops| + 1
    && (exists raw :: raw > 0 && run[0] == Done(Initial(raw)))
    && forall i :: 0 <= i < |ops| ==> Step(run[i], ops[i], run[i + 1])
  }

  ghost predicate Step(o: Outcome, op: Op, p: Outcome) {
    o.Done? && Enabled(o.heap, op) && p == Call(o.heap, op) && p != Stops
  }

  lemma NextIsStep(s: Heap, op: Op, r: Heap)
    requires Next(s, op, r)
    ensures Step(Done(s), op, Done(r))
  {
    hide Enabled, Call;
  }

  // The two guards, which can be told before the call.

  /** For the invariant: an allocation takes neither of its two bad branches, and a thread that
    * has not started turns no span of a thread FREE. */
  ghost predicate Guarded(s: Heap, op: Op)
    requires Enabled(s, op)
  {
    match op
    case MallocOp(t, sz, _) => Size2Cls(sz) < CLASSES ==> Guard(s, t, Size2Cls(sz))
    case FreeOp(t, b) => FreeGuard(s, t, GetHeader(b))
    case _ => true
  }

  /** For block safety: an allocation takes its block from a span that has one, a free finds
    * the lock of the owner, and a span that turns FREE can move to the free list. */
  ghost predicate SafelyGuarded(s: Heap, op: Op)
    requires Enabled(s, op)
  {
    match op
    case MallocOp(t, sz, _) => Size2Cls(sz) < CLASSES ==> HasBlock(s, t, Size2Cls(sz))
    case FreeOp(t, b) => FreeGoesWell(s, t, GetHeader(b))
    case _ => true
  }

  /** One call ends well and keeps the invariant if and only if it is guarded. */
  lemma CallKeepsExactly(s: Heap, op: Op)
    requires Inv(s) && Enabled(s, op) && Call(s, op) != Stops
    ensures Call(s, op).Done? && Inv(Call(s, op).heap) <==> Guarded(s, op)
  {
    hide Inv, Guard, FreeGuard, Running, Malloc, Free, Start, Exit, Size2Cls, GetHeader;
    match op
    case StartOp(t) => StartIsSafe(s, t);
    case MallocOp(t, sz, contiguous) => MallocKeepsExactly(s, t, sz, contiguous);
    case FreeOp(t, b) => FreeKeepsExactly(s, t, b);
    case ExitOp(t) => ExitIsSafe(s, t);
  }

  /** One call ends well and keeps block safety if and only if it is safely guarded. */
  lemma CallIsSafeExactly(s: Heap, op: Op)
    requires Safe(s) && Enabled(s, op) && Call(s, op) != Stops
    ensures Call(s, op).Done? && Safe(Call(s, op).heap) <==> SafelyGuarded(s, op)
  {
    hide Safe, HasBlock, FreeGoesWell, Running, Malloc, Free, Start, Exit, Size2Cls, GetHeader;
    match op
    case StartOp(t) => StartIsSafe(s, t);
    case MallocOp(t, sz, contiguous) => MallocIsSafeExactly(s, t, sz, contiguous);
    case FreeOp(t, b) => FreeIsSafe(s, t, b);
    case ExitOp(t) => ExitIsSafe(s, t);
  }

  // Whole runs.

  ghost predicate Keeps(o: Outcome) {
    o.Done? && Inv(o.heap)
  }

  ghost predicate IsSafe(o: Outcome) {
    o.Done? && Safe(o.heap)
  }

  ghost predicate GuardedAt(o: Outcome, op: Op) {
    o.Done? && Enabled(o.heap, op) && Guarded(o.heap, op)
  }

  ghost predicate SafelyGuardedAt(o: Outcome, op: Op) {
    o.Done? && Enabled(o.heap, op) && SafelyGuarded(o.heap, op)
  }

  lemma StepKeepsExactly(o: Outcome, op: Op, p: Outcome)
    requires Step(o, op, p)
    ensures Keeps(o) ==> (Keeps(p) <==> GuardedAt(o, op))
    ensures IsSafe(o) ==> (IsSafe(p) <==> SafelyGuardedAt(o, op))
  {
    hide Inv, Safe, Enabled, Call, Guarded, SafelyGuarded;
    if Keeps(o) {
      CallKeepsExactly(o.heap, op);
    }
    if IsSafe(o) {
      CallIsSafeExactly(o.heap, op);
    }
  }

  lemma FirstState(run: seq<Outcome>, ops: seq<Op>)
    requires IsRun(run, ops)
    ensures Keeps(run[0]) && IsSafe(run[0])
  {
    var raw :| raw > 0 && run[0] == Done(Initial(raw));
    hide Inv, Safe, Step, Initial;
    InitialHolds(raw);
    InvIsSafe(Initial(raw));
  }

  /** Across any interleaving: the calls up to j end well with the invariant in every state if
    * and only if every call before j is guarded. */
  lemma {:induction false} RunKeepsExactly(run: seq<Outcome>, ops: seq<Op>, j: nat)
    requires IsRun(run, ops) && j < |run|
    ensures (forall i :: 0 <= i <= j ==> Keeps(run[i])) <==> (forall i :: 0 <= i < j ==> GuardedAt(run[i], ops[i]))
  {
    hide Keeps, IsSafe, GuardedAt, SafelyGuardedAt, Step;
    FirstState(run, ops);
    if j > 0 {
      RunKeepsExactly(run, ops, j - 1);
      assert Step(run[j - 1], ops[j - 1], run[j - 1 + 1]);
      StepKeepsExactly(run[j - 1], ops[j - 1], run[j]);
      assert Keeps(run[j - 1]) || exists i :: 0 <= i <= j && !Keeps(run[i]);
    }
  }

  /** The same for block safety, under the weaker guard: runs may go on with lost spans. */
  lemma {:induction false} RunIsSafeExactly(run: seq<Outcome>, ops: seq<Op>, j: nat)
    requires IsRun(run, ops) && j < |run|
    ensures (forall i :: 0 <= i <= j ==> IsSafe(run[i])) <==> (forall i :: 0 <= i < j ==> SafelyGuardedAt(run[i], ops[i]))
  {
    hide Keeps, IsSafe, GuardedAt, SafelyGuardedAt, Step;
    FirstState(run, ops);
    if j > 0 {
      RunIsSafeExactly(run, ops, j - 1);
      assert Step(run[j - 1], ops[j - 1], run[j - 1 + 1]);
      StepKeepsExactly(run[j - 1], ops[j - 1], run[j]);
      assert IsSafe(run[j - 1]) || exists i :: 0 <= i <= j && !IsSafe(run[i]);
    }
  }

  /** A block is large enough for its request, lies in the data area of its span, and each
    * of its bytes leads GET_HEADER to that span. */
  ghost predicate Contained(s: Heap, b: nat) {
    var h := GetHeader(b);
    && b in s.live && h in s.spans && 0 < s.live[b] <= s.spans[h].blkSize
    && h + HEADER <= b && b + s.spans[h].blkSize <= h + SPAN
    && forall p :: b <= p < b + s.spans[h].blkSize ==> GetHeader(p) == h
  }

  /** All outstanding blocks are contained in their spans and no two share a byte. */
  ghost predicate BlocksAreGood(s: Heap) {
    && (forall b :: b in s.live ==> Contained(s, b))
    && (forall a, b :: a in s.live && b in s.live && a < b ==> Before(s, a, b))
  }

  ghost predicate Before(s: Heap, a: nat, b: nat) {
    GetHeader(a) in s.spans && a + s.spans[GetHeader(a)].blkSize <= b
  }

  lemma SafeBlocksAreGood(s: Heap)
    requires Safe(s)
    ensures BlocksAreGood(s)
  {
    hide Safe, GetHeader, Contained;
    forall b | b in s.live
      ensures Contained(s, b)
    {
      LiveIsContained(s, b);
    }
    forall a, b | a in s.live && b in s.live && a < b
      ensures Before(s, a, b)
    {
      var j := LiveIsSlot(s, a);
      LiveBlocksAreApart(s, a, b);
    }
  }

  lemma LiveIsContained(s: Heap, b: nat)
    requires Safe(s) && b in s.live
    ensures Contained(s, b)
  {
    hide Safe, GetHeader;
    var j := LiveIsSlot(s, b);
    LiveBlockIsInSpan(s, b, b);
    forall p | b <= p < b + s.spans[GetHeader(b)].blkSize
      ensures GetHeader(p) == GetHeader(b)
    {
      LiveBlockIsInSpan(s, b, p);
    }
  }

  /** Over every run, whatever the interleaving and whatever spans it has lost: if the calls
    * before j are safely guarded, they all end well, and the outstanding blocks are contained
    * in their spans and share no byte. */
  lemma SafeRunHasGoodBlocks(run: seq<Outcome>, ops: seq<Op>, j: nat)
    requires IsRun(run, ops) && j < |run|
    requires forall i :: 0 <= i < j ==> SafelyGuardedAt(run[i], ops[i])
    ensures run[j].Done? && BlocksAreGood(run[j].heap)
  {
    RunIsSafeExactly(run, ops, j);
    hide Safe, IsRun, SafelyGuardedAt, BlocksAreGood;
    assert IsSafe(run[j]);
    SafeBlocksAreGood(run[j].heap);
  }

  /** And if they are guarded, the lists of all threads and of the pool together hold every
    * carved span once. */
  lemma GuardedRunCountsSpans(run: seq<Outcome>, ops: seq<Op>, j: nat)
    requires IsRun(run, ops) && j < |run|
    requires forall i :: 0 <= i < j ==> GuardedAt(run[i], ops[i])
    ensures run[j].Done? && BlocksAreGood(run[j].heap)
    ensures TotalLength(run[j].heap.lists) == (run[j].heap.freeStart - run[j].heap.start) / SPAN
  {
    RunKeepsExactly(run, ops, j);
    hide Inv, Safe, IsRun, GuardedAt, BlocksAreGood;
    assert Keeps(run[j]);
    InvIsSafe(run[j].heap);
    SafeBlocksAreGood(run[j].heap);
    PlacesCountSpans(run[j].heap);
  }

  // Pool carving does not depend on the guards.

  lemma AcquireKeepsRegion(s: Heap, c: nat, contiguous: bool)
    requires Region(s) && PoolReady(s) && Known(s) && c < CLASSES && Acquire(s, c, contiguous).Some?
    ensures Region(Acquire(s, c, contiguous).value.0)
  {
    var r := Acquire(s, c, contiguous).value.0;
    if s.lists[PoolSuspended(c)] != [] {
      RegionSame(s, r);
    } else if s.lists[PoolFree] != [] {
      assert s.lists[PoolFree][0] in s.spans;
      RegionSame(s, r);
    } else if s.freeStart + SPAN <= s.end {
      CarvedRegion(s, c);
    } else {
      assert Region(s.(end := s.end + UNIT));
      CarvedRegion(s.(end := s.end + UNIT), c);
    }
  }

  lemma ReplaceKeepsRegion(s: Heap, t: nat, c: nat, contiguous: bool)
    requires Region(s) && Running(s, t) && PoolReady(s) && Known(s) && c < CLASSES && Replace(s, t, c, contiguous).Some?
    ensures Region(Replace(s, t, c, contiguous).value)
  {
    hide Region, Acquire, SpanInit;
    var d := DropUsable(s, t, c);
    RegionSame(s, d);
    var (r, h) := Fetch(d, t, c, contiguous).value;
    if d.lists[FreeOf(t)] != [] {
      assert d.lists[FreeOf(t)][0] in d.spans;
      RegionSame(d, r);
    } else {
      AcquireKeepsRegion(d, c, contiguous);
    }
    RegionSame(r, Install(r, t, c, h));
  }

  lemma MallocKeepsRegion(s: Heap, t: nat, sz: nat, contiguous: bool)
    requires Region(s) && Running(s, t) && PoolReady(s) && Known(s) && 0 < sz <= MAX_SMALL
    requires Malloc(s, t, sz, contiguous).Some?
    ensures Region(Malloc(s, t, sz, contiguous).value.0)
  {
    Size2ClsFits(sz);
    var c := Size2Cls(sz);
    hide Region, Replace, Retire, Size2Cls, Cls2Size, GetBlk;
    var r := Prepared(s, t, c, contiguous).value;
    if s.lists[Using(t, c)] == [] {
      ReplaceKeepsRegion(s, t, c, contiguous);
    } else {
      var h := s.lists[Using(t, c)][0];
      if s.spans[h].freeCnt == 0 {
        var m := Retire(s, t, c, h);
        RetireKeepsRegion(s, t, c, h);
        ReplaceKeepsRegion(m, t, c, contiguous);
      }
    }
    RegionSame(r, HandOut(r, r.lists[Using(t, c)][0], sz).0);
  }

  lemma RetireKeepsRegion(s: Heap, t: nat, c: nat, h: nat)
    requires Region(s) && Running(s, t) && PoolReady(s) && Known(s) && c < CLASSES && h in s.spans
    ensures var r := Retire(s, t, c, h); Region(r) && Running(r, t) && PoolReady(r)
  {
    hide Region;
    RegionSame(s, Retire(s, t, c, h));
  }

  lemma NextKeepsRegion(s: Heap, op: Op, r: Heap)
    requires Region(s) && Next(s, op, r)
    ensures Region(r)
  {
    hide Region, Malloc;
    match op
    case StartOp(t) => RegionSame(s, r);
    case MallocOp(t, sz, contiguous) => MallocKeepsRegion(s, t, sz, contiguous);
    case FreeOp(t, b) => RegionSame(s, r);
    case ExitOp(t) => RegionSame(s, r);
  }

  lemma {:induction false} RunKeepsRegion(run: seq<Outcome>, ops: seq<Op>, j: nat)
    requires IsRun(run, ops) && j < |run| && run[j].Done?
    ensures Region(run[j].heap)
  {
    hide Step, Region, Initial;
    if j == 0 {
      var raw :| raw > 0 && run[0] == Done(Initial(raw));
      InitialRegion(raw);
    } else {
      assert Step(run[j - 1], ops[j - 1], run[j - 1 + 1]);
      StepIsNext(run[j - 1], ops[j - 1], run[j]);
      RunKeepsRegion(run, ops, j - 1);
      NextKeepsRegion(run[j - 1].heap, ops[j - 1], run[j].heap);
    }
  }

  lemma StepIsNext(o: Outcome, op: Op, p: Outcome)
    requires Step(o, op, p) && p.Done?
    ensures o.Done? && Next(o.heap, op, p.heap)
  {
    hide Enabled, Call;
  }

  /** In every run, guarded or not, as long as no call faults: all span addresses are multiples
    * of the span size, the spans are disjoint and tile the pool from its start to the part
    * that is free, also when one of them straddles an old end of the pool. */
  lemma RunTilesThePool(run: seq<Outcome>, ops: seq<Op>, j: nat, h: nat, g: nat)
    requires IsRun(run, ops) && j < |run| && run[j].Done?
    ensures var s := run[j].heap;
      && Region(s)
      && (h in s.spans ==> h + SPAN <= s.freeStart <= s.end)
      && (h in s.spans && g in s.spans && h < g ==> h + SPAN <= g)
  {
    hide IsRun;
    RunKeepsRegion(run, ops, j);
  }

  // Nor does it depend on them that headers and lists agree.

  /** The lists are those of the pool and of the threads that run; the node of a span is linked
    * into one of them at most, and what this says about its header is so; and a span that is in
    * none of them is known to be lost. */
  ghost predicate InLists(s: Heap, w: map<nat, Place>) {
    Lists(s) && Placed(s, w) && Agreed(s, w) && Complete(s, w)
  }

  ghost predicate Arranged(s: Heap) {
    exists w :: InLists(s, w)
  }

  /** The same for all spans but h, which is on its way to a using slot of class c. */
  ghost predicate InHand(s: Heap, w: map<nat, Place>, h: nat, c: nat) {
    && Lists(s) && Placed(s, w) && Agreed(s, w) && s.spans.Keys <= w.Keys + s.stale.Keys + {h}
    && h !in w && h !in s.stale && h in s.spans && s.spans[h].cls == c
  }

  lemma PlacedReady(s: Heap, w: map<nat, Place>)
    requires Lists(s) && Placed(s, w)
    ensures PoolReady(s) && Known(s) && w.Keys <= s.spans.Keys && s.stale.Keys <= s.spans.Keys && w.Keys !! s.stale.Keys
    ensures forall t, c :: Using(t, c) in s.lists ==> |s.lists[Using(t, c)]| <= 1
  {
    PlacedIsKnown(s, w);
  }

  lemma PlacedAgrees(s: Heap, w: map<nat, Place>, h: nat)
    requires Placed(s, w) && Agreed(s, w) && h in w
    ensures h in s.spans && Agree(w[h], s.spans[h]) && w[h] in s.lists && h in s.lists[w[h]]
  {
    hide Agree;
  }

  lemma PopInLists(s: Heap, w: map<nat, Place>, pl: Place, c: nat, r: Heap)
    requires InLists(s, w) && pl in s.lists && s.lists[pl] != [] && !pl.Using? && s.lists[pl][0] in r.spans
    requires var h := s.lists[pl][0];
      && r.spans == s.spans[h := r.spans[h]]
      && (if pl == PoolSuspended(c) then r.spans[h] == s.spans[h] else r.spans[h].cls == c)
    requires r.lists == Pop(s, pl).lists && r.stale == s.stale
    ensures InHand(r, w - {s.lists[pl][0]}, s.lists[pl][0], c)
  {
    var h := s.lists[pl][0];
    PlacedReady(s, w);
    PlacedPop(s, w, pl);
    PlacedAgrees(s, w, h);
    hide Placed, Lists;
    PlacedSame(Pop(s, pl), r, w - {h});
    AgreedAway(s, r, w, h);
    ListsKept(s, r);
  }

  lemma AcquireInLists(s: Heap, w: map<nat, Place>, c: nat, contiguous: bool)
    requires InLists(s, w) && Region(s) && PoolReady(s) && Known(s) && c < CLASSES && Acquire(s, c, contiguous).Some?
    ensures var (r, h) := Acquire(s, c, contiguous).value;
      InHand(r, w - {h}, h, c) && forall pl :: pl in s.lists && pl.Using? ==> r.lists[pl] == s.lists[pl]
  {
    PlacedReady(s, w);
    hide Placed, Lists, Agreed, SpanInit, Region;
    var (r, h) := Acquire(s, c, contiguous).value;
    if s.lists[PoolSuspended(c)] != [] {
      PopInLists(s, w, PoolSuspended(c), c, r);
    } else if s.lists[PoolFree] != [] {
      InitKeepsFree(s.spans[h], h, c);
      PopInLists(s, w, PoolFree, c, r);
    } else {
      CarvedInHand(s, w, c, r);
    }
  }

  lemma CarvedInHand(s: Heap, w: map<nat, Place>, c: nat, r: Heap)
    requires InLists(s, w) && Region(s) && c < CLASSES
    requires r == Carve(s.(end := r.end), c)
    ensures InHand(r, w - {s.freeStart}, s.freeStart, c)
  {
    PlacedReady(s, w);
    FreeStartIsNew(s);
    InitKeepsFree(RAW, s.freeStart, c);
    hide Placed, Lists, SpanInit, Region;
    assert w - {s.freeStart} == w;
    PlacedSame(s, r, w);
    AgreedAway(s, r, w, s.freeStart);
    ListsKept(s, r);
  }

  lemma FreeStartIsNew(s: Heap)
    requires Region(s)
    ensures s.freeStart !in s.spans
  {
  }

  lemma DropInLists(s: Heap, w: map<nat, Place>, t: nat, c: nat) returns (u: map<nat, Place>)
    requires InLists(s, w) && Running(s, t) && Known(s) && c < CLASSES
    ensures InLists(DropUsable(s, t, c), u)
    ensures forall pl :: pl in s.lists && pl != Suspended(t, c) ==> DropUsable(s, t, c).lists[pl] == s.lists[pl]
  {
    PlacedReady(s, w);
    hide Placed, Lists, Agreed, FirstUsable, Dropped;
    var xs := s.lists[Suspended(t, c)];
    var i := FirstUsable(s, xs);
    if i < |xs| {
      u := DroppedInLists(s, w, Suspended(t, c), i);
      ListsKept(s, DropUsable(s, t, c));
    } else {
      u := w;
    }
  }

  lemma DroppedInLists(s: Heap, w: map<nat, Place>, pl: Place, i: nat) returns (u: map<nat, Place>)
    requires Placed(s, w) && Agreed(s, w) && Complete(s, w) && pl in s.lists && i < |s.lists[pl]|
    ensures Placed(Dropped(s, pl, i), u) && Agreed(Dropped(s, pl, i), u) && Complete(Dropped(s, pl, i), u)
    ensures forall ql :: ql in s.lists && ql != pl ==> ql in Dropped(s, pl, i).lists && Dropped(s, pl, i).lists[ql] == s.lists[ql]
  {
    var h := s.lists[pl][i];
    u := w - {h};
    PlacedRemove(s, w, pl, h);
    SpanKnown(s, w, h);
    LoseOne(Remove(s, pl, h), u, h, LinksAt(s.lists[pl], pl, i));
    AgreedLess(s, w, {h});
    hide Placed, Without, Agree;
  }

  lemma LoseOne(s: Heap, w: map<nat, Place>, h: nat, l: Links<Node>)
    requires Placed(s, w) && h in s.spans && h !in w
    ensures Placed(s.(stale := s.stale[h := l]), w)
  {
  }

  lemma InstallInLists(s: Heap, w: map<nat, Place>, t: nat, c: nat, h: nat)
    requires InHand(s, w, h, c) && Using(t, c) in s.lists && s.lists[Using(t, c)] == []
    ensures InLists(Install(s, t, c, h), w[h := Using(t, c)])
  {
    PlacedReady(s, w);
    var r := Install(s, t, c, h);
    hide Placed, Lists;
    PlacedAppend(s, w, Using(t, c), h);
    assert [] + [h] == [h];
    PlacedSame(Append(s, Using(t, c), h), r, w[h := Using(t, c)]);
    AgreedUpdate(s, r, w, h, Using(t, c));
    ListsKept(s, r);
  }

  lemma ReplaceInLists(s: Heap, w: map<nat, Place>, t: nat, c: nat, contiguous: bool) returns (v: map<nat, Place>)
    requires InLists(s, w) && Region(s) && Running(s, t) && PoolReady(s) && Known(s) && c < CLASSES
    requires s.lists[Using(t, c)] == [] && Replace(s, t, c, contiguous).Some?
    ensures InLists(Replace(s, t, c, contiguous).value, v)
  {
    hide InLists, InHand, Region, Acquire, SpanInit, Install, DropUsable;
    var u := DropInLists(s, w, t, c);
    var d := DropUsable(s, t, c);
    DropKeepsRegion(s, t, c);
    var (r, h) := Fetch(d, t, c, contiguous).value;
    if d.lists[FreeOf(t)] != [] {
      InitKeepsFree(d.spans[h], h, c);
      PopInLists(d, u, FreeOf(t), c, r);
    } else {
      AcquireInLists(d, u, c, contiguous);
    }
    v := (u - {h})[h := Using(t, c)];
    InstallInLists(r, u - {h}, t, c, h);
  }

  lemma DropKeepsRegion(s: Heap, t: nat, c: nat)
    requires Region(s) && Running(s, t) && Known(s) && c < CLASSES
    ensures Region(DropUsable(s, t, c))
  {
    hide Region;
    RegionSame(s, DropUsable(s, t, c));
  }

  lemma MallocInLists(s: Heap, w: map<nat, Place>, t: nat, sz: nat, contiguous: bool) returns (v: map<nat, Place>)
    requires InLists(s, w) && Region(s) && Running(s, t) && PoolReady(s) && Known(s) && 0 < sz <= MAX_SMALL
    requires Malloc(s, t, sz, contiguous).Some?
    ensures InLists(Malloc(s, t, sz, contiguous).value.0, v)
  {
    Size2ClsFits(sz);
    var c := Size2Cls(sz);
    hide InLists, Region, Replace, Size2Cls, Cls2Size, Prepared;
    v := PreparedInLists(s, w, t, c, contiguous);
    var r := Prepared(s, t, c, contiguous).value;
    var h := r.lists[Using(t, c)][0];
    SameInLists(r, v, HandOut(r, h, sz).0, h);
  }

  lemma PreparedInLists(s: Heap, w: map<nat, Place>, t: nat, c: nat, contiguous: bool) returns (v: map<nat, Place>)
    requires InLists(s, w) && Region(s) && Running(s, t) && PoolReady(s) && Known(s) && c < CLASSES
    requires Prepared(s, t, c, contiguous).Some?
    ensures InLists(Prepared(s, t, c, contiguous).value, v)
  {
    PlacedReady(s, w);
    hide InLists, Region, Replace, Retire;
    if s.lists[Using(t, c)] == [] {
      v := ReplaceInLists(s, w, t, c, contiguous);
    } else {
      var h := s.lists[Using(t, c)][0];
      assert s.lists[Using(t, c)] == [h];
      if s.spans[h].freeCnt == 0 {
        RetireInLists(s, w, t, c, h);
        RetireKeepsRegion(s, t, c, h);
        EmptySlot(s, t, c, h);
        v := ReplaceInLists(Retire(s, t, c, h), w[h := Suspended(t, c)], t, c, contiguous);
      } else {
        v := w;
      }
    }
  }

  lemma EmptySlot(s: Heap, t: nat, c: nat, h: nat)
    requires Running(s, t) && Known(s) && c < CLASSES && h in s.spans
    ensures Using(t, c) in Retire(s, t, c, h).lists && Retire(s, t, c, h).lists[Using(t, c)] == []
  {
  }

  lemma RetireInLists(s: Heap, w: map<nat, Place>, t: nat, c: nat, h: nat)
    requires InLists(s, w) && Running(s, t) && Known(s) && c < CLASSES && s.lists[Using(t, c)] == [h] && h in s.spans
    ensures InLists(Retire(s, t, c, h), w[h := Suspended(t, c)])
  {
    PlacedReady(s, w);
    RetirePlaces(s, w, t, c, h);
    PlacedAgrees(s, w, h);
    hide Placed, Lists;
    AgreedUpdate(s, Retire(s, t, c, h), w, h, Suspended(t, c));
    ListsKept(s, Retire(s, t, c, h));
  }

  lemma SameInLists(s: Heap, w: map<nat, Place>, r: Heap, h: nat)
    requires InLists(s, w) && r.lists == s.lists && r.stale == s.stale && h in s.spans && h in r.spans
    requires r.spans == s.spans[h := r.spans[h]]
    requires r.spans[h].owner == s.spans[h].owner && r.spans[h].cls == s.spans[h].cls && r.spans[h].state == s.spans[h].state
    ensures InLists(r, w)
  {
    PlacedReady(s, w);
    AgreedTake(s, r, w, h);
    hide Placed, Lists, Agreed;
    PlacedSame(s, r, w);
    ListsKept(s, r);
  }

  lemma FreeInLists(s: Heap, w: map<nat, Place>, t: nat, b: nat) returns (v: map<nat, Place>)
    requires InLists(s, w) && GetHeader(b) in s.spans && s.spans[GetHeader(b)].blkSize > 0 && Free(s, t, b).Some?
    ensures InLists(Free(s, t, b).value, v)
  {
    hide InLists, Capacity, Unlinked, IsListed, RingsStay, IsMended, GetHeader, TurnsFree;
    var h := GetHeader(b);
    var r := Free(s, t, b).value;
    if TurnsFree(s.spans[h]) {
      v := MovedInLists(s, w, h, FreeList(s.spans[h], t), r);
    } else {
      v := w;
      SameInLists(s, w, r, h);
    }
  }

  lemma MovedInLists(s: Heap, w: map<nat, Place>, h: nat, to: Place, r: Heap) returns (v: map<nat, Place>)
    requires InLists(s, w) && h in s.spans && (IsListed(s, h) || h in s.stale) && to in s.lists && (to.FreeOf? || to.PoolFree?)
    requires h in r.spans && r.spans == s.spans[h := r.spans[h]] && r.spans[h].state == FREE
    requires var a := Append(Unlinked(s, h), to, h); r.lists == a.lists && r.stale == a.stale
    ensures InLists(r, v)
  {
    hide Unlinked, IsListed;
    var u := UnlinkInLists(s, w, h);
    var m := Unlinked(s, h);
    PlacedReady(m, u);
    hide Placed, Lists;
    v := u[h := to];
    PlacedAppend(m, u, to, h);
    PlacedSame(Append(m, to, h), r, v);
    AgreedUpdate(m, r, u, h, to);
    ListsKept(m, r);
  }

  lemma UnlinkInLists(s: Heap, w: map<nat, Place>, h: nat) returns (u: map<nat, Place>)
    requires InLists(s, w) && h in s.spans && (IsListed(s, h) || h in s.stale)
    ensures var m := Unlinked(s, h);
      && Lists(m) && Placed(m, u) && Agreed(m, u) && s.spans.Keys <= u.Keys + m.stale.Keys + {h}
      && h !in u && h !in m.stale && h in m.spans
  {
    PlacedReady(s, w);
    hide Placed, Lists, StaleDel, Without;
    var m := Unlinked(s, h);
    if IsListed(s, h) {
      u := w - {h};
      PlacedRemove(s, w, SuspendList(s.spans[h]), h);
      AgreedLess(s, w, {h});
    } else {
      u := StaleDelInLists(s, w, s.stale[h]);
      PlacedSame(StaleDel(s, s.stale[h]), m, u);
      AgreedLess(s, w, w.Keys - u.Keys);
    }
    ListsShrink(s, m, h);
    ListsKept(s, m);
  }

  lemma StaleDelInLists(s: Heap, w: map<nat, Place>, l: Links<Node>) returns (u: map<nat, Place>)
    requires Placed(s, w)
    ensures var m := StaleDel(s, l);
      Placed(m, u) && u.Keys <= w.Keys && u == w - (w.Keys - u.Keys) && m.stale.Keys == s.stale.Keys + (w.Keys - u.Keys)
  {
    hide Placed, CutAt, Rewritten, InOrder, OnNoRing;
    if exists pl :: InOrder(s.lists, pl, l) {
      u := CutPlaces(s, w, RingOf(s.lists, l), l);
    } else {
      u := w;
      PlacedSame(s, StaleDel(s, l), w);
    }
  }

  lemma ListsShrink(s: Heap, m: Heap, h: nat)
    requires h in s.spans && (IsListed(s, h) || h in s.stale) && m == Unlinked(s, h)
    ensures forall pl :: pl in s.lists && pl.Using? ==> m.lists[pl] == s.lists[pl]
  {
    hide Without, LinksOf, Kept;
  }

  lemma StartInLists(s: Heap, w: map<nat, Place>, t: nat)
    requires InLists(s, w) && FreeOf(t) !in s.lists
    ensures InLists(Start(s, t), w)
  {
    StartedLists(s, t);
    StartedPlaces(s, w, t);
    hide Placed, Lists, Agree;
  }

  lemma ExitInLists(s: Heap, w: map<nat, Place>, t: nat)
    requires InLists(s, w) && Running(s, t) && PoolReady(s)
    ensures InLists(Exit(s, t), Left(w, t))
  {
    ExitLists(s, t);
    ExitPlaces(s, w, t);
    ExitAgrees(s, w, t);
    hide Placed, Lists, Agreed;
  }

  lemma NextInLists(s: Heap, w: map<nat, Place>, op: Op, r: Heap) returns (v: map<nat, Place>)
    requires InLists(s, w) && Region(s) && Next(s, op, r)
    ensures InLists(r, v)
  {
    hide InLists, Region, Malloc, Free, Running, GetHeader, Start, Exit;
    match op
    case StartOp(t) =>
      v := w;
      StartInLists(s, w, t);
    case MallocOp(t, sz, contiguous) => v := MallocInLists(s, w, t, sz, contiguous);
    case FreeOp(t, b) => v := FreeInLists(s, w, t, b);
    case ExitOp(t) =>
      v := Left(w, t);
      ExitInLists(s, w, t);
  }

  /** In every run, guarded or not, as long as no call faults: headers and lists agree, the node
    * of a span is linked into one list at most, and there once, and a span that is in no list is
    * known to be lost. */
  lemma RunKeepsLinked(run: seq<Outcome>, ops: seq<Op>, j: nat)
    requires IsRun(run, ops) && j < |run| && run[j].Done?
    ensures Lists(run[j].heap) && Linked(run[j].heap) && Arranged(run[j].heap)
  {
    var w := RunInLists(run, ops, j);
  }

  lemma {:induction false} RunInLists(run: seq<Outcome>, ops: seq<Op>, j: nat) returns (w: map<nat, Place>)
    requires IsRun(run, ops) && j < |run| && run[j].Done?
    ensures InLists(run[j].heap, w)
  {
    hide Step, InLists, Region, Initial;
    if j == 0 {
      var raw :| raw > 0 && run[0] == Done(Initial(raw));
      w := map[];
      InitialInLists(raw);
    } else {
      assert Step(run[j - 1], ops[j - 1], run[j - 1 + 1]);
      StepIsNext(run[j - 1], ops[j - 1], run[j]);
      w := RunInLists(run, ops, j - 1);
      RunKeepsRegion(run, ops, j - 1);
      w := NextInLists(run[j - 1].heap, w, ops[j - 1], run[j].heap);
    }
  }

  lemma InitialInLists(raw: nat)
    ensures InLists(Initial(raw), map[])
  {
    InitialLists(raw);
    assert Initial(raw).spans == map[];
    hide Lists, Initial;
  }
}
