/** Where spans come from, where they go when a thread exits, and the memory that the pool
  * consists of. */
module SpanPool {
  import opened Sequences
  import opened SizeTables
  import opened SpanSpec
  import opened SpanInv
  import opened SpanSteps
  import opened SpanRuns
  import opened SpanLinks

  // One allocation.

  /** The free lists of the thread and of the pool, and the pool's suspended spans of the class,
    * are empty. */
  ghost predicate NothingAtHand(s: Heap, t: nat, c: nat)
    requires FreeOf(t) in s.lists && PoolSuspended(c) in s.lists && PoolFree in s.lists
  {
    s.lists[FreeOf(t)] == [] && s.lists[PoolSuspended(c)] == [] && s.lists[PoolFree] == []
  }

  /** Only the list pl has changed: its first span is h, and it is gone. */
  ghost predicate FirstTaken(lists: map<Place, seq<nat>>, after: map<Place, seq<nat>>, pl: Place, h: nat) {
    pl in lists && pl in after && lists[pl] == [h] + after[pl]
  }

  /** The span that an allocation puts into a slot that lacks one: the first free span of the
    * thread; or else the first one that the pool has suspended for this class; or else the first
    * free one of the pool; or else the lowest part of the pool that was never used, and if that
    * is too small, the pool has grown by the next mapping. A span that was free, or new, gives
    * its first block. */
  ghost predicate Taken(s: Heap, t: nat, c: nat, contiguous: bool, r: Heap, h: nat, b: nat)
    requires FreeOf(t) in s.lists && PoolSuspended(c) in s.lists && PoolFree in s.lists
  {
    r.start == s.start &&
    if NothingAtHand(s, t, c) then
      && h == s.freeStart && b == h + 72 && r.freeStart == s.freeStart + 16456
      && r.end == (if s.freeStart + 16456 <= s.end then s.end else s.end + 134217728)
      && (s.freeStart + 16456 <= s.end || contiguous)
    else
      && r.freeStart == s.freeStart && r.end == s.end
      && (if s.lists[FreeOf(t)] != [] then FirstTaken(s.lists, r.lists, FreeOf(t), h) && b == h + 72
          else if s.lists[PoolSuspended(c)] != [] then FirstTaken(s.lists, r.lists, PoolSuspended(c), h)
          else FirstTaken(s.lists, r.lists, PoolFree, h) && b == h + 72)
  }

  lemma DropTakesNothing(s: Heap, t: nat, c: nat)
    requires Running(s, t) && PoolReady(s) && Known(s) && c < CLASSES
    ensures var d := DropUsable(s, t, c);
      && Running(d, t) && PoolReady(d) && Known(d) && d.lists.Keys == s.lists.Keys
      && d == s.(lists := d.lists, stale := d.stale)
      && forall pl :: pl in s.lists && pl != Suspended(t, c) ==> pl in d.lists && d.lists[pl] == s.lists[pl]
  {
    hide FirstUsable, Without;
  }

  lemma FetchTakes(s: Heap, t: nat, c: nat, contiguous: bool)
    requires Running(s, t) && PoolReady(s) && Known(s) && c < CLASSES
    ensures Fetch(s, t, c, contiguous).None? <==> Exhausted(s, t, c, contiguous)
    ensures Fetch(s, t, c, contiguous).Some? ==>
              var (r, h) := Fetch(s, t, c, contiguous).value;
              Taken(s, t, c, contiguous, r, h, GetBlk(r.spans[h]).1)
  {
    hide Cls2Size, Capacity;
  }

  /** What is left of the suspended spans xs: the first one with a free block is dropped. */
  ghost predicate FirstUsableDropped(spans: map<nat, Span>, xs: seq<nat>, rest: seq<nat>) {
    || (rest == xs && forall k :: 0 <= k < |xs| ==> xs[k] in spans && spans[xs[k]].freeCnt == 0)
    || exists i :: 0 <= i < |xs| && IsFirstUsable(spans, xs, i) && rest == xs[..i] + xs[i + 1..]
  }

  ghost predicate IsFirstUsable(spans: map<nat, Span>, xs: seq<nat>, i: nat)
    requires i < |xs|
  {
    xs[i] in spans && spans[xs[i]].freeCnt > 0 && forall k :: 0 <= k < i ==> xs[k] in spans && spans[xs[k]].freeCnt == 0
  }

  lemma WalkDrops(s: Heap, t: nat, c: nat)
    requires Running(s, t) && Known(s) && c < CLASSES && Distinct(s.lists[Suspended(t, c)])
    ensures FirstUsableDropped(s.spans, s.lists[Suspended(t, c)], DropUsable(s, t, c).lists[Suspended(t, c)])
  {
    var xs := s.lists[Suspended(t, c)];
    var i := FirstUsable(s, xs);
    assert forall k :: 0 <= k < |xs| ==> xs[k] in s.spans;
    hide FirstUsable, Without;
    if i < |xs| {
      WithoutAt(xs, i);
      assert IsFirstUsable(s.spans, xs, i);
    }
  }

  /** From s to r, with the suspended spans xs, the slot has been filled, and b is the first block
    * that its span has to give. */
  ghost predicate Filled(s: Heap, t: nat, c: nat, contiguous: bool, xs: seq<nat>, r: Heap, b: nat)
    requires FreeOf(t) in s.lists && PoolSuspended(c) in s.lists && PoolFree in s.lists
  {
    && Using(t, c) in r.lists && |r.lists[Using(t, c)]| == 1 && Suspended(t, c) in r.lists
    && Taken(s, t, c, contiguous, r, r.lists[Using(t, c)][0], b)
    && FirstUsableDropped(s.spans, xs, r.lists[Suspended(t, c)])
  }

  /** No span is at hand, and the pool cannot grow. */
  ghost predicate Exhausted(s: Heap, t: nat, c: nat, contiguous: bool)
    requires FreeOf(t) in s.lists && PoolSuspended(c) in s.lists && PoolFree in s.lists
  {
    NothingAtHand(s, t, c) && s.freeStart + 16456 > s.end && !contiguous
  }

  /** An empty slot is filled. */
  lemma ReplaceTakes(s: Heap, t: nat, c: nat, contiguous: bool)
    requires Running(s, t) && PoolReady(s) && Known(s) && c < CLASSES && Distinct(s.lists[Suspended(t, c)])
    ensures Replace(s, t, c, contiguous).None? <==> Exhausted(s, t, c, contiguous)
    ensures Replace(s, t, c, contiguous).Some? ==>
              var r := Replace(s, t, c, contiguous).value;
              && Using(t, c) in r.lists && r.lists[Using(t, c)] != [] && r.lists[Using(t, c)][0] in r.spans
              && Filled(s, t, c, contiguous, s.lists[Suspended(t, c)], r, GetBlk(r.spans[r.lists[Using(t, c)][0]]).1)
  {
    SlotsExist(s, t, c);
    DropTakesNothing(s, t, c);
    hide DropUsable, Fetch, FirstUsableDropped, Filled, Taken, GetBlk, Known, Running, PoolReady;
    var d := DropUsable(s, t, c);
    FetchTakes(d, t, c, contiguous);
    if Fetch(d, t, c, contiguous).Some? {
      InstalledFilled(s, t, c, contiguous);
    }
  }

  lemma InstalledFilled(s: Heap, t: nat, c: nat, contiguous: bool)
    requires Running(s, t) && PoolReady(s) && Known(s) && c < CLASSES && Distinct(s.lists[Suspended(t, c)])
    requires Fetch(DropUsable(s, t, c), t, c, contiguous).Some?
    ensures var (e, h) := Fetch(DropUsable(s, t, c), t, c, contiguous).value;
      var r := Install(e, t, c, h);
      Filled(s, t, c, contiguous, s.lists[Suspended(t, c)], r, GetBlk(r.spans[h]).1)
  {
    WalkDrops(s, t, c);
    DropTakesNothing(s, t, c);
    SlotsExist(s, t, c);
    var d := DropUsable(s, t, c);
    FetchTakes(d, t, c, contiguous);
    FetchLeaves(d, t, c, contiguous);
    hide DropUsable, Fetch, FirstUsableDropped, Taken, GetBlk, Known, Running, PoolReady;
    var (e, h) := Fetch(d, t, c, contiguous).value;
    SameTaken(s, d, t, c, contiguous, e, Install(e, t, c, h), h, GetBlk(e.spans[h]).1);
    InstalledBlock(e, t, c, h);
  }

  lemma SlotsExist(s: Heap, t: nat, c: nat)
    requires Running(s, t) && PoolReady(s) && c < CLASSES
    ensures Using(t, c) in s.lists && Suspended(t, c) in s.lists && FreeOf(t) in s.lists
    ensures PoolSuspended(c) in s.lists && PoolFree in s.lists
  {
  }

  lemma InstalledBlock(e: Heap, t: nat, c: nat, h: nat)
    requires h in e.spans
    ensures GetBlk(Install(e, t, c, h).spans[h]).1 == GetBlk(e.spans[h]).1
  {
  }

  lemma SameTaken(s: Heap, d: Heap, t: nat, c: nat, contiguous: bool, e: Heap, r: Heap, h: nat, b: nat)
    requires FreeOf(t) in s.lists && PoolSuspended(c) in s.lists && PoolFree in s.lists
    requires d == s.(lists := d.lists, stale := d.stale) && d.lists.Keys == s.lists.Keys
    requires forall pl :: pl in s.lists && pl != Suspended(t, c) ==> d.lists[pl] == s.lists[pl]
    requires Taken(d, t, c, contiguous, e, h, b)
    requires r.start == e.start && r.freeStart == e.freeStart && r.end == e.end && r.lists == e.lists[Using(t, c) := [h]]
    ensures Taken(s, t, c, contiguous, r, h, b)
  {
  }

  lemma FetchLeaves(s: Heap, t: nat, c: nat, contiguous: bool)
    requires Running(s, t) && PoolReady(s) && Known(s) && c < CLASSES && Fetch(s, t, c, contiguous).Some?
    ensures var (r, _) := Fetch(s, t, c, contiguous).value; r.lists[Suspended(t, c)] == s.lists[Suspended(t, c)]
  {
    hide SpanInit;
  }

  lemma RetireLeaves(s: Heap, t: nat, c: nat, h: nat)
    requires Linked(s) && Running(s, t) && PoolReady(s) && Known(s) && c < CLASSES && s.lists[Using(t, c)] == [h] && h in s.spans
    ensures var m := Retire(s, t, c, h);
      && Running(m, t) && PoolReady(m) && m.start == s.start && m.freeStart == s.freeStart && m.end == s.end && m.lists.Keys == s.lists.Keys
      && Distinct(m.lists[Suspended(t, c)]) && m.lists[Suspended(t, c)] == s.lists[Suspended(t, c)] + [h]
      && (forall pl :: pl in s.lists && pl != Suspended(t, c) && pl != Using(t, c) ==> m.lists[pl] == s.lists[pl])
      && m.spans.Keys == s.spans.Keys && (forall g :: g in s.spans ==> m.spans[g].freeCnt == s.spans[g].freeCnt)
  {
    RetiredDistinct(s, t, c, h);
    hide Distinct, Linked, Known;
  }

  lemma RetiredDistinct(s: Heap, t: nat, c: nat, h: nat)
    requires Linked(s) && Running(s, t) && Known(s) && c < CLASSES && s.lists[Using(t, c)] == [h] && h in s.spans
    ensures Distinct(Retire(s, t, c, h).lists[Suspended(t, c)])
  {
    var w :| Placed(s, w);
    RetirePlaces(s, w, t, c, h);
    hide Distinct, Known;
    PlacedDistinct(Retire(s, t, c, h), w[h := Suspended(t, c)], Suspended(t, c));
  }

  lemma PlacedDistinct(s: Heap, w: map<nat, Place>, pl: Place)
    requires Placed(s, w) && pl in s.lists
    ensures Distinct(s.lists[pl])
  {
  }

  lemma LinkedIsDistinct(s: Heap, pl: Place)
    requires Linked(s) && pl in s.lists
    ensures Distinct(s.lists[pl])
  {
    var w :| Placed(s, w);
  }

  lemma OneUsed(s: Heap, t: nat, c: nat)
    requires Lists(s) && Known(s) && Using(t, c) in s.lists && s.lists[Using(t, c)] != []
    ensures s.lists[Using(t, c)] == [s.lists[Using(t, c)][0]] && s.lists[Using(t, c)][0] in s.spans
  {
  }

  lemma SameCounts(spans: map<nat, Span>, after: map<nat, Span>, xs: seq<nat>, rest: seq<nat>)
    requires after.Keys == spans.Keys && forall h :: h in spans ==> after[h].freeCnt == spans[h].freeCnt
    requires FirstUsableDropped(after, xs, rest)
    ensures FirstUsableDropped(spans, xs, rest)
  {
    if i :| 0 <= i < |xs| && IsFirstUsable(after, xs, i) && rest == xs[..i] + xs[i + 1..] {
      assert IsFirstUsable(spans, xs, i);
    }
  }

  lemma PreparedTakes(s: Heap, t: nat, c: nat, contiguous: bool)
    requires Lists(s) && Linked(s) && Running(s, t) && PoolReady(s) && Known(s) && c < CLASSES
    ensures Prepared(s, t, c, contiguous).None? <==> NeedsSpan(s, t, c) && Exhausted(s, t, c, contiguous)
    ensures Prepared(s, t, c, contiguous).Some? ==>
              var r := Prepared(s, t, c, contiguous).value;
              if NeedsSpan(s, t, c) then
                Filled(s, t, c, contiguous, s.lists[Suspended(t, c)] + s.lists[Using(t, c)], r, GetBlk(r.spans[r.lists[Using(t, c)][0]]).1)
              else r == s
  {
    SlotsExist(s, t, c);
    hide Replace, Retire, Linked, Lists, GetBlk, Filled, Exhausted, Running, PoolReady, Known;
    if s.lists[Using(t, c)] == [] {
      EmptyTakes(s, t, c, contiguous);
    } else if NeedsSpan(s, t, c) {
      OneUsed(s, t, c);
      RetiredTakes(s, t, c, contiguous, s.lists[Using(t, c)][0]);
    }
  }

  lemma EmptyTakes(s: Heap, t: nat, c: nat, contiguous: bool)
    requires Linked(s) && Running(s, t) && PoolReady(s) && Known(s) && c < CLASSES && s.lists[Using(t, c)] == []
    ensures Replace(s, t, c, contiguous).None? <==> Exhausted(s, t, c, contiguous)
    ensures Replace(s, t, c, contiguous).Some? ==>
              var r := Replace(s, t, c, contiguous).value;
              && Using(t, c) in r.lists && r.lists[Using(t, c)] != [] && r.lists[Using(t, c)][0] in r.spans
              && Filled(s, t, c, contiguous, s.lists[Suspended(t, c)] + s.lists[Using(t, c)], r, GetBlk(r.spans[r.lists[Using(t, c)][0]]).1)
  {
    SlotsExist(s, t, c);
    LinkedIsDistinct(s, Suspended(t, c));
    hide Replace, Linked, Known, GetBlk, Filled, Exhausted, Running, PoolReady;
    ReplaceTakes(s, t, c, contiguous);
    assert s.lists[Suspended(t, c)] + [] == s.lists[Suspended(t, c)];
  }

  lemma RetiredTakes(s: Heap, t: nat, c: nat, contiguous: bool, h: nat)
    requires Linked(s) && Running(s, t) && PoolReady(s) && Known(s) && c < CLASSES && s.lists[Using(t, c)] == [h] && h in s.spans
    ensures var m := Retire(s, t, c, h);
      && Running(m, t) && PoolReady(m)
      && (Replace(m, t, c, contiguous).None? <==> Exhausted(s, t, c, contiguous))
      && (Replace(m, t, c, contiguous).Some? ==>
            var r := Replace(m, t, c, contiguous).value;
            && Using(t, c) in r.lists && r.lists[Using(t, c)] != [] && r.lists[Using(t, c)][0] in r.spans
            && Filled(s, t, c, contiguous, s.lists[Suspended(t, c)] + [h], r, GetBlk(r.spans[r.lists[Using(t, c)][0]]).1))
  {
    RetireLeaves(s, t, c, h);
    SlotsExist(s, t, c);
    hide Replace, Retire, Linked, Known, GetBlk, Filled, Running, PoolReady;
    var m := Retire(s, t, c, h);
    ReplaceTakes(m, t, c, contiguous);
    if Replace(m, t, c, contiguous).Some? {
      var r := Replace(m, t, c, contiguous).value;
      RetiredFilled(s, m, t, c, contiguous, m.lists[Suspended(t, c)], r, GetBlk(r.spans[r.lists[Using(t, c)][0]]).1);
    }
  }

  lemma RetiredFilled(s: Heap, m: Heap, t: nat, c: nat, contiguous: bool, xs: seq<nat>, r: Heap, b: nat)
    requires FreeOf(t) in s.lists && PoolSuspended(c) in s.lists && PoolFree in s.lists && m.lists.Keys == s.lists.Keys
    requires m.start == s.start && m.freeStart == s.freeStart && m.end == s.end && Suspended(t, c) in s.lists
    requires forall pl :: pl in s.lists && pl != Suspended(t, c) && pl != Using(t, c) ==> m.lists[pl] == s.lists[pl]
    requires m.spans.Keys == s.spans.Keys && forall g :: g in s.spans ==> m.spans[g].freeCnt == s.spans[g].freeCnt
    requires Filled(m, t, c, contiguous, xs, r, b)
    ensures Filled(s, t, c, contiguous, xs, r, b)
  {
    SameCounts(s.spans, m.spans, xs, r.lists[Suspended(t, c)]);
    hide FirstUsableDropped;
  }

  /** One allocation: when it stops the program, where its span and its block come from, and which
    * suspended span it drops. */
  lemma AllocationTakes(s: Heap, t: nat, sz: nat, contiguous: bool)
    requires Lists(s) && Linked(s) && Running(s, t) && PoolReady(s) && Known(s) && 0 < sz <= 16384
    ensures Size2Cls(sz) < CLASSES
    ensures var c := Size2Cls(sz); Malloc(s, t, sz, contiguous).None? <==> NeedsSpan(s, t, c) && Exhausted(s, t, c, contiguous)
    ensures Malloc(s, t, sz, contiguous).Some? ==>
              var c := Size2Cls(sz);
              var (r, b) := Malloc(s, t, sz, contiguous).value;
              if NeedsSpan(s, t, c) then Filled(s, t, c, contiguous, s.lists[Suspended(t, c)] + s.lists[Using(t, c)], r, b)
              else r == s.(spans := r.spans, live := s.live[b := sz])
  {
    Size2ClsFits(sz);
    var c := Size2Cls(sz);
    hide Size2Cls, Cls2Size, Prepared, Linked, Lists, Known, Running, PoolReady, NeedsSpan, Exhausted, GetBlk;
    PreparedTakes(s, t, c, contiguous);
    if Prepared(s, t, c, contiguous).Some? && NeedsSpan(s, t, c) {
      var r := Prepared(s, t, c, contiguous).value;
      HandedOut(s, t, c, contiguous, s.lists[Suspended(t, c)] + s.lists[Using(t, c)], r, sz);
    }
  }

  lemma HandedOut(s: Heap, t: nat, c: nat, contiguous: bool, xs: seq<nat>, r: Heap, sz: nat)
    requires FreeOf(t) in s.lists && PoolSuspended(c) in s.lists && PoolFree in s.lists
    requires Using(t, c) in r.lists && r.lists[Using(t, c)] != [] && r.lists[Using(t, c)][0] in r.spans
    ensures var h := r.lists[Using(t, c)][0];
      var (q, b) := HandOut(r, h, sz);
      b == GetBlk(r.spans[h]).1 && (Filled(s, t, c, contiguous, xs, r, b) ==> Filled(s, t, c, contiguous, xs, q, b))
  {
    hide FirstUsableDropped;
  }

  // The memory of the pool over a run.

  ghost predicate Grows(o: Outcome, p: Outcome) {
    o.Done? && p.Done? && p.heap.end != o.heap.end
  }

  /** The number of calls before j in which the pool has grown. */
  ghost function Growths(run: seq<Outcome>, j: nat): nat
    requires j < |run|
  {
    if j == 0 then 0 else Growths(run, j - 1) + if Grows(run[j - 1], run[j]) then 1 else 0
  }

  lemma AllocationGrows(s: Heap, t: nat, sz: nat, contiguous: bool)
    requires Lists(s) && Linked(s) && Running(s, t) && PoolReady(s) && Known(s) && 0 < sz <= 16384
    requires Malloc(s, t, sz, contiguous).Some?
    ensures var r := Malloc(s, t, sz, contiguous).value.0;
      r.end != s.end ==> contiguous && s.freeStart + 16456 > s.end && r.end == s.end + 134217728
    ensures Malloc(s, t, sz, contiguous).value.0.start == s.start
  {
    AllocationTakes(s, t, sz, contiguous);
    hide FirstUsableDropped, FirstTaken, NothingAtHand, Malloc;
  }

  /** The pool grows only in an allocation for which the system's next mapping starts at its end,
    * and by that mapping, when what is left of it is too small for a span. */
  lemma GrowthIsMapping(run: seq<Outcome>, ops: seq<Op>, i: nat)
    requires IsRun(run, ops) && i < |ops| && Grows(run[i], run[i + 1])
    ensures ops[i].MallocOp? && ops[i].contiguous && run[i].heap.freeStart + 16456 > run[i].heap.end
    ensures run[i + 1].heap.end == run[i].heap.end + 134217728
  {
    assert Step(run[i], ops[i], run[i + 1]);
    RunKeepsLinked(run, ops, i);
    StepGrows(run[i], ops[i], run[i + 1]);
  }

  lemma StepGrows(o: Outcome, op: Op, p: Outcome)
    requires Step(o, op, p) && o.Done? && p.Done? && Lists(o.heap) && Linked(o.heap)
    ensures p.heap.start == o.heap.start
    ensures Grows(o, p) ==>
              op.MallocOp? && op.contiguous && o.heap.freeStart + 16456 > o.heap.end && p.heap.end == o.heap.end + 134217728
  {
    hide Lists, Linked, Running, PoolReady, Known, Malloc, FreeGoesWell, GetHeader;
    if op.MallocOp? {
      AllocationGrows(o.heap, op.t, op.sz, op.contiguous);
    }
  }

  /** In every run, guarded or not, the pool is the first mapping, from the next multiple of the span
    * size on, and those of the calls in which it has grown. */
  lemma {:induction false} RunGrowsByMappings(run: seq<Outcome>, ops: seq<Op>, raw: nat, j: nat)
    requires IsRun(run, ops) && run[0] == Done(Initial(raw)) && j < |run| && run[j].Done?
    ensures raw <= run[j].heap.start < raw + 16456 && run[j].heap.start % 16456 == 0
    ensures run[j].heap.end == raw + 134217728 * (1 + Growths(run, j))
  {
    hide Step, Initial;
    if j == 0 {
      FirstMapping(raw);
    } else {
      assert Step(run[j - 1], ops[j - 1], run[j - 1 + 1]);
      StepIsNext(run[j - 1], ops[j - 1], run[j]);
      RunGrowsByMappings(run, ops, raw, j - 1);
      RunKeepsLinked(run, ops, j - 1);
      StepGrows(run[j - 1], ops[j - 1], run[j]);
    }
  }

  lemma FirstMapping(raw: nat)
    ensures var s := Initial(raw);
      raw <= s.start < raw + 16456 && s.start % 16456 == 0 && s.end == raw + 134217728
  {
    var k := (raw + 16455) / 16456;
    assert raw <= k * 16456 < raw + 16456;
  }

  /** Byte p is in the first mapping or in one by which the pool has grown before j. */
  ghost predicate IsMapped(run: seq<Outcome>, ops: seq<Op>, raw: nat, j: nat, p: nat)
    requires |run| == |ops| + 1 && j <= |ops|
  {
    || raw <= p < raw + 134217728
    || exists i :: 0 <= i < j && MappedBy(run[i], ops[i], p)
  }

  ghost predicate MappedBy(o: Outcome, op: Op, p: nat) {
    o.Done? && op.MallocOp? && op.contiguous && o.heap.end <= p < o.heap.end + 134217728
  }

  /** So the pool has no byte that no mapping has returned. */
  lemma {:induction false} PoolIsMapped(run: seq<Outcome>, ops: seq<Op>, raw: nat, j: nat, p: nat)
    requires IsRun(run, ops) && run[0] == Done(Initial(raw)) && j < |run| && run[j].Done?
    requires run[j].heap.start <= p < run[j].heap.end
    ensures IsMapped(run, ops, raw, j, p)
  {
    hide IsRun, IsMapped, Initial;
    DoneBefore(run, ops, j);
    if j == 0 {
      RunGrowsByMappings(run, ops, raw, 0);
      InFirstMapping(run, ops, raw, p);
    } else {
      SameStart(run, ops, j - 1);
      if p < run[j - 1].heap.end {
        PoolIsMapped(run, ops, raw, j - 1, p);
      } else {
        GrowthMaps(run, ops, j - 1, p);
      }
      OneMoreMapped(run, ops, raw, j, p);
    }
  }

  lemma DoneBefore(run: seq<Outcome>, ops: seq<Op>, j: nat)
    requires IsRun(run, ops) && j < |run| && run[j].Done?
    ensures |run| == |ops| + 1 && (j > 0 ==> run[j - 1].Done?)
  {
    hide Initial;
    if j > 0 {
      assert Step(run[j - 1], ops[j - 1], run[j - 1 + 1]);
    }
  }

  lemma InFirstMapping(run: seq<Outcome>, ops: seq<Op>, raw: nat, p: nat)
    requires |run| == |ops| + 1 && raw <= p < raw + 134217728
    ensures IsMapped(run, ops, raw, 0, p)
  {
  }

  lemma OneMoreMapped(run: seq<Outcome>, ops: seq<Op>, raw: nat, j: nat, p: nat)
    requires |run| == |ops| + 1 && 0 < j <= |ops|
    requires IsMapped(run, ops, raw, j - 1, p) || MappedBy(run[j - 1], ops[j - 1], p)
    ensures IsMapped(run, ops, raw, j, p)
  {
    hide MappedBy;
  }

  lemma SameStart(run: seq<Outcome>, ops: seq<Op>, i: nat)
    requires IsRun(run, ops) && i < |ops| && run[i].Done? && run[i + 1].Done?
    ensures run[i + 1].heap.start == run[i].heap.start
  {
    assert Step(run[i], ops[i], run[i + 1]);
    RunKeepsLinked(run, ops, i);
    hide Step;
    StepGrows(run[i], ops[i], run[i + 1]);
  }

  lemma GrowthMaps(run: seq<Outcome>, ops: seq<Op>, i: nat, p: nat)
    requires IsRun(run, ops) && i < |ops| && run[i].Done? && run[i + 1].Done? && run[i].heap.end <= p < run[i + 1].heap.end
    ensures MappedBy(run[i], ops[i], p)
  {
    GrowthIsMapping(run, ops, i);
  }

  /** No span has a byte that no mapping has returned. */
  lemma SpansAreMapped(run: seq<Outcome>, ops: seq<Op>, raw: nat, j: nat, h: nat, p: nat)
    requires IsRun(run, ops) && run[0] == Done(Initial(raw)) && j < |run| && run[j].Done?
    requires h in run[j].heap.spans && h <= p < h + 16456
    ensures IsMapped(run, ops, raw, j, p)
  {
    RunTilesThePool(run, ops, j, h, h);
    hide IsRun, Step, IsMapped;
    PoolIsMapped(run, ops, raw, j, p);
  }

  /** A run comes to its end, because the pool cannot grow, exactly at an allocation in a thread that
    * has no span with a free block for the class, when no span is at hand, what is left of the
    * pool is too small for one, and the next mapping would start elsewhere. */
  lemma RunStopsExactly(run: seq<Outcome>, ops: seq<Op>, op: Op)
    requires IsRun(run, ops) && run[|ops|].Done? && Enabled(run[|ops|].heap, op)
    ensures var s := run[|ops|].heap;
      Call(s, op) == Stops
      <==> op.MallocOp? && Size2Cls(op.sz) < CLASSES
           && NeedsSpan(s, op.t, Size2Cls(op.sz)) && Exhausted(s, op.t, Size2Cls(op.sz), op.contiguous)
  {
    RunKeepsLinked(run, ops, |ops|);
    hide Lists, Linked, Running, PoolReady, Known, FreeGoesWell, GetHeader, Malloc, Size2Cls, NeedsSpan, Exhausted;
    if op.MallocOp? {
      AllocationTakes(run[|ops|].heap, op.t, op.sz, op.contiguous);
    }
  }

  // Where a span goes when a block of it comes back.

  /** A free that goes well makes a span FREE exactly if it is suspended and its counter, a 32-bit
    * number, reaches the number of blocks of its size in 16384 bytes. Then it goes to the end of
    * the pool's free list, if it belongs to the pool, or of that of the thread that frees. If not,
    * the block goes in front of the freed ones, and no list changes. */
  lemma FreeTurnsExactly(s: Heap, t: nat, b: nat)
    requires GetHeader(b) in s.spans && s.spans[GetHeader(b)].blkSize > 0 && Free(s, t, b).Some?
    ensures var r, h := Free(s, t, b).value, GetHeader(b);
      var sp := s.spans[h];
      && r.spans.Keys == s.spans.Keys && (forall g :: g in s.spans && g != h ==> r.spans[g] == s.spans[g])
      && r.spans[h].freeCnt == (sp.freeCnt + 1) % 0x1_0000_0000
      && (if sp.state == SUSPEND && (sp.freeCnt + 1) % 0x1_0000_0000 == 16384 / sp.blkSize then
            var to := if sp.owner == PoolOwner then PoolFree else FreeOf(t);
            r.spans[h].state == FREE && to in r.lists && r.lists[to] != [] && r.lists[to][|r.lists[to]| - 1] == h
          else
            r.spans[h].state == sp.state && r.spans[h].blkList == [b] + sp.blkList && r.lists == s.lists)
  {
    hide GetHeader, Unlinked, IsListed, RingsStay, IsMended;
  }

  // What a thread leaves.

  /** thread_exit: for each class, the suspended spans of the thread and then the one in its slot go
    * to the end of the pool's list, and change their owner; its free spans go to the end of
    * the pool's free list; and the thread has no list any more. */
  lemma ExitHandsOver(s: Heap, t: nat)
    requires Running(s, t) && PoolReady(s) && Lists(s)
    ensures var r := Exit(s, t);
      && PoolReady(r) && FreeOf(t) !in r.lists
      && (forall c :: 0 <= c < CLASSES ==>
            r.lists[PoolSuspended(c)] == s.lists[PoolSuspended(c)] + s.lists[Suspended(t, c)] + s.lists[Using(t, c)])
      && r.lists[PoolFree] == s.lists[PoolFree] + s.lists[FreeOf(t)]
      && (forall h, c :: h in s.spans && 0 <= c < CLASSES && (h in s.lists[Suspended(t, c)] || h in s.lists[Using(t, c)]) ==>
            h in r.spans && r.spans[h] == s.spans[h].(owner := PoolOwner))
  {
    var r := Exit(s, t);
    forall c | 0 <= c < CLASSES
      ensures r.lists[PoolSuspended(c)] == s.lists[PoolSuspended(c)] + s.lists[Suspended(t, c)] + s.lists[Using(t, c)]
    {
    }
    forall h, c | h in s.spans && 0 <= c < CLASSES && (h in s.lists[Suspended(t, c)] || h in s.lists[Using(t, c)])
      ensures h in r.spans && r.spans[h] == s.spans[h].(owner := PoolOwner)
    {
      assert h in Holdings(s, t, c);
    }
  }
}
