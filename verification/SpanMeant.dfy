/** The span allocator as it is meant: the walk over the suspended spans ends the search with
  * the span that it has found, and a suspended span of the pool is taken only if it has a
  * free block. */
module SpanMeant {
  import opened SizeTables
  import opened SpanSpec
  import opened SpanInv
  import opened SpanSteps
  import opened SpanRuns

  function AcquireMeant(s: Heap, c: nat, contiguous: bool): (r: Option<(Heap, nat)>)
    requires PoolReady(s) && Known(s) && c < CLASSES
    ensures r.Some? ==> r.value.1 in r.value.0.spans && r.value.0.lists.Keys == s.lists.Keys
  {
    if s.lists[PoolSuspended(c)] != [] && s.spans[s.lists[PoolSuspended(c)][0]].freeCnt > 0 then
      Some((Pop(s, PoolSuspended(c)), s.lists[PoolSuspended(c)][0]))
    else
      AcquireFresh(s, c, contiguous)
  }

  function FetchMeant(s: Heap, t: nat, c: nat, contiguous: bool): (r: Option<(Heap, nat)>)
    requires Running(s, t) && PoolReady(s) && Known(s) && c < CLASSES
    ensures r.Some? ==> r.value.1 in r.value.0.spans && r.value.0.lists.Keys == s.lists.Keys
  {
    var xs := s.lists[Suspended(t, c)];
    var i := FirstUsable(s, xs);
    if i < |xs| then
      Some((Remove(s, Suspended(t, c), xs[i]), xs[i]))
    else if s.lists[FreeOf(t)] != [] then
      var h := s.lists[FreeOf(t)][0];
      Some((Pop(s, FreeOf(t)).(spans := s.spans[h := SpanInit(s.spans[h], h, c)]), h))
    else
      AcquireMeant(s, c, contiguous)
  }

  function ReplaceMeant(s: Heap, t: nat, c: nat, contiguous: bool): Option<Heap>
    requires Running(s, t) && PoolReady(s) && Known(s) && c < CLASSES
  {
    match FetchMeant(s, t, c, contiguous)
    case None => None
    case Some((r, h)) => Some(Install(r, t, c, h))
  }

  function PreparedMeant(s: Heap, t: nat, c: nat, contiguous: bool): (r: Option<Heap>)
    requires Running(s, t) && PoolReady(s) && Known(s) && c < CLASSES
    ensures r.Some? ==> Using(t, c) in r.value.lists && r.value.lists[Using(t, c)] != []
                        && r.value.lists[Using(t, c)][0] in r.value.spans
  {
    if s.lists[Using(t, c)] == [] then ReplaceMeant(s, t, c, contiguous)
    else
      var h := s.lists[Using(t, c)][0];
      if s.spans[h].freeCnt == 0 then ReplaceMeant(Retire(s, t, c, h), t, c, contiguous) else Some(s)
  }

  function MallocMeant(s: Heap, t: nat, sz: nat, contiguous: bool): Option<(Heap, nat)>
    requires Running(s, t) && PoolReady(s) && Known(s) && 0 < sz <= MAX_SMALL
  {
    Size2ClsFits(sz);
    var c := Size2Cls(sz);
    match PreparedMeant(s, t, c, contiguous)
    case None => None
    case Some(r) => Some(HandOut(r, r.lists[Using(t, c)][0], sz))
  }

  // It keeps the invariant.

  lemma AcquireMeantKeeps(s: Heap, w: map<nat, Place>, c: nat, contiguous: bool)
    requires Sound(s, w) && PoolReady(s) && Known(s) && c < CLASSES && AcquireMeant(s, c, contiguous).Some?
    ensures var (r, h) := AcquireMeant(s, c, contiguous).value;
      && Loose(r, w - {h}, h, c) && r.spans.Keys == s.spans.Keys + {h} && r.live == s.live
      && r.spans[h].freeCnt > 0 && (h in w || h !in s.spans)
      && (forall pl :: pl in s.lists && !pl.PoolSuspended? && !pl.PoolFree? ==> r.lists[pl] == s.lists[pl])
  {
    hide Sound, Loose, AcquireFresh;
    if s.lists[PoolSuspended(c)] != [] && s.spans[s.lists[PoolSuspended(c)][0]].freeCnt > 0 {
      PopSuspended(s, w, c);
    } else {
      AcquireFreshKeeps(s, w, c, contiguous);
    }
  }

  /** A suspended span is taken for its class. */
  lemma TakeSuspended(s: Heap, w: map<nat, Place>, t: nat, c: nat, h: nat)
    requires Sound(s, w) && Suspended(t, c) in s.lists && h in s.lists[Suspended(t, c)]
    ensures h in w && h in s.spans && Loose(Remove(s, Suspended(t, c), h), w - {h}, h, c)
  {
    hide Region, Lists, Placed, Agreed, Counted, LiveFits, Account, Without;
    RemoveKeeps(s, w, Suspended(t, c), h);
    PlacedSpan(s, w, h);
  }

  lemma FetchMeantKeeps(s: Heap, w: map<nat, Place>, t: nat, c: nat, contiguous: bool)
    requires Sound(s, w) && Running(s, t) && PoolReady(s) && Known(s) && c < CLASSES
    requires FetchMeant(s, t, c, contiguous).Some?
    ensures var (r, h) := FetchMeant(s, t, c, contiguous).value;
      && Loose(r, w - {h}, h, c) && r.spans.Keys == s.spans.Keys + {h} && r.live == s.live
      && r.spans[h].freeCnt > 0 && (h in w || h !in s.spans)
      && r.lists[Using(t, c)] == s.lists[Using(t, c)]
  {
    hide Sound, Loose, SpanInit, AcquireMeant, Without;
    var xs := s.lists[Suspended(t, c)];
    var i := FirstUsable(s, xs);
    if i < |xs| {
      TakeSuspended(s, w, t, c, xs[i]);
    } else if s.lists[FreeOf(t)] != [] {
      PopFree(s, w, FreeOf(t), c);
      PopPlace(s, w, FreeOf(t));
    } else {
      AcquireMeantKeeps(s, w, c, contiguous);
    }
  }

  lemma ReplaceMeantKeeps(s: Heap, w: map<nat, Place>, t: nat, c: nat, contiguous: bool) returns (v: map<nat, Place>)
    requires Sound(s, w) && Running(s, t) && PoolReady(s) && Known(s) && c < CLASSES
    requires s.lists[Using(t, c)] == [] && ReplaceMeant(s, t, c, contiguous).Some?
    ensures var r := ReplaceMeant(s, t, c, contiguous).value;
      && Sound(r, v) && r.live == s.live
      && Using(t, c) in r.lists && |r.lists[Using(t, c)]| == 1
      && (var h := r.lists[Using(t, c)][0];
          && h in r.spans && r.spans[h].state == IN_USE && r.spans[h].cls == c && r.spans[h].freeCnt > 0)
      && (w.Keys == s.spans.Keys ==> v.Keys == r.spans.Keys)
  {
    hide Sound, Loose, FetchMeant;
    FetchMeantKeeps(s, w, t, c, contiguous);
    var (e, h) := FetchMeant(s, t, c, contiguous).value;
    SoundLoose(e, w - {h}, h, c);
    InstallKeeps(e, w - {h}, t, c, h);
    v := (w - {h})[h := Using(t, c)];
    assert v.Keys == w.Keys + {h};
  }

  lemma PreparedMeantKeeps(s: Heap, w: map<nat, Place>, t: nat, c: nat, contiguous: bool) returns (v: map<nat, Place>)
    requires Sound(s, w) && w.Keys == s.spans.Keys
    requires Running(s, t) && PoolReady(s) && Known(s) && c < CLASSES && PreparedMeant(s, t, c, contiguous).Some?
    ensures var r := PreparedMeant(s, t, c, contiguous).value;
      && Sound(r, v) && v.Keys == r.spans.Keys && r.live == s.live
      && Using(t, c) in r.lists && |r.lists[Using(t, c)]| == 1
      && (var h := r.lists[Using(t, c)][0];
          && h in r.spans && r.spans[h].state == IN_USE && r.spans[h].cls == c && r.spans[h].freeCnt > 0)
  {
    hide Sound, ReplaceMeant;
    SoundReady(s, w);
    if s.lists[Using(t, c)] == [] {
      v := ReplaceMeantKeeps(s, w, t, c, contiguous);
    } else {
      var h := s.lists[Using(t, c)][0];
      assert s.lists[Using(t, c)] == [h];
      UsingSpan(s, w, t, c);
      if s.spans[h].freeCnt == 0 {
        RetireKeeps(s, w, t, c, h);
        RetireChangesNoGuard(s, w, t, c, h);
        v := ReplaceMeantKeeps(Retire(s, t, c, h), w[h := Suspended(t, c)], t, c, contiguous);
      } else {
        v := w;
      }
    }
  }

  /** Every allocation keeps the invariant and returns a block that was not outstanding. */
  lemma MallocMeantKeeps(s: Heap, t: nat, sz: nat, contiguous: bool)
    requires Inv(s) && Running(s, t) && PoolReady(s) && Known(s) && 0 < sz <= MAX_SMALL
    requires MallocMeant(s, t, sz, contiguous).Some?
    ensures var (r, b) := MallocMeant(s, t, sz, contiguous).value;
      Inv(r) && b !in s.live && r.live == s.live[b := sz]
  {
    hide Sound, MallocMeant;
    var w :| Sound(s, w) && w.Keys == s.spans.Keys;
    MallocMeantPlaced(s, w, t, sz, contiguous);
  }

  lemma MallocMeantPlaced(s: Heap, w: map<nat, Place>, t: nat, sz: nat, contiguous: bool)
    requires Sound(s, w) && w.Keys == s.spans.Keys
    requires Running(s, t) && PoolReady(s) && Known(s) && 0 < sz <= MAX_SMALL
    requires MallocMeant(s, t, sz, contiguous).Some?
    ensures var (r, b) := MallocMeant(s, t, sz, contiguous).value;
      Inv(r) && b !in s.live && r.live == s.live[b := sz]
  {
    Size2ClsFits(sz);
    var c := Size2Cls(sz);
    hide Sound, PreparedMeant, HandOut, Size2Cls, Cls2Size, Inv, Safe;
    var v := PreparedMeantKeeps(s, w, t, c, contiguous);
    var r := PreparedMeant(s, t, c, contiguous).value;
    var h := r.lists[Using(t, c)][0];
    BlockSize(r, v, h);
    HandOutKeepsExactly(r, v, h, sz);
  }

  /** While a suspended span of the thread has a free block, the first such one is used next, and
    * nothing is taken from elsewhere. */
  lemma SuspendedAreUsedFirst(s: Heap, t: nat, sz: nat, contiguous: bool, i: nat)
    requires Running(s, t) && PoolReady(s) && Known(s) && 0 < sz <= MAX_SMALL && Size2Cls(sz) < CLASSES
    requires var c := Size2Cls(sz);
      && NeedsSpan(s, t, c) && i < |s.lists[Suspended(t, c)]|
      && s.spans[s.lists[Suspended(t, c)][i]].freeCnt > 0
      && forall k :: 0 <= k < i ==> s.spans[s.lists[Suspended(t, c)][k]].freeCnt == 0
    ensures MallocMeant(s, t, sz, contiguous).Some?
    ensures var c, r := Size2Cls(sz), MallocMeant(s, t, sz, contiguous).value.0;
      && Using(t, c) in r.lists && r.lists[Using(t, c)] == [s.lists[Suspended(t, c)][i]]
      && r.freeStart == s.freeStart && r.end == s.end
      && forall pl :: pl in s.lists && pl != Using(t, c) && pl != Suspended(t, c) ==> pl in r.lists && r.lists[pl] == s.lists[pl]
  {
    var c := Size2Cls(sz);
    hide Size2Cls;
    if s.lists[Using(t, c)] == [] {
      FoundIsInstalled(s, t, c, contiguous, i);
    } else {
      var m := Retire(s, t, c, s.lists[Using(t, c)][0]);
      assert m.lists[Suspended(t, c)][..|s.lists[Suspended(t, c)]|] == s.lists[Suspended(t, c)];
      FoundIsInstalled(m, t, c, contiguous, i);
    }
  }

  lemma FoundIsInstalled(s: Heap, t: nat, c: nat, contiguous: bool, i: nat)
    requires Running(s, t) && PoolReady(s) && Known(s) && c < CLASSES && i < |s.lists[Suspended(t, c)]|
    requires s.spans[s.lists[Suspended(t, c)][i]].freeCnt > 0
    requires forall k :: 0 <= k < i ==> s.spans[s.lists[Suspended(t, c)][k]].freeCnt == 0
    ensures var h := s.lists[Suspended(t, c)][i];
      ReplaceMeant(s, t, c, contiguous) == Some(Install(Remove(s, Suspended(t, c), h), t, c, h))
  {
    assert FirstUsable(s, s.lists[Suspended(t, c)]) == i;
    hide AcquireMeant, SpanInit, Without;
  }

  // How the code relates to it.

  /** Where an allocation is guarded, the code does what is meant. */
  lemma GuardedIsMeant(s: Heap, t: nat, sz: nat, contiguous: bool)
    requires Inv(s) && Running(s, t) && PoolReady(s) && Known(s) && 0 < sz <= MAX_SMALL
    requires Size2Cls(sz) < CLASSES && Guard(s, t, Size2Cls(sz))
    ensures Malloc(s, t, sz, contiguous) == MallocMeant(s, t, sz, contiguous)
  {
    hide Sound, Guard, Size2Cls, Prepared, PreparedMeant, HandOut;
    var w :| Sound(s, w) && w.Keys == s.spans.Keys;
    PreparedIsMeant(s, w, t, Size2Cls(sz), contiguous);
  }

  lemma PreparedIsMeant(s: Heap, w: map<nat, Place>, t: nat, c: nat, contiguous: bool)
    requires Sound(s, w) && Running(s, t) && PoolReady(s) && Known(s) && c < CLASSES && Guard(s, t, c)
    ensures Prepared(s, t, c, contiguous) == PreparedMeant(s, t, c, contiguous)
  {
    hide Sound, Replace, ReplaceMeant, NoneUsable, FetchUsable;
    SoundReady(s, w);
    if s.lists[Using(t, c)] == [] {
      ReplaceIsMeant(s, t, c, contiguous);
    } else {
      var h := s.lists[Using(t, c)][0];
      assert s.lists[Using(t, c)] == [h];
      if s.spans[h].freeCnt == 0 {
        RetireChangesNoGuard(s, w, t, c, h);
        ReplaceIsMeant(Retire(s, t, c, h), t, c, contiguous);
      }
    }
  }

  lemma ReplaceIsMeant(s: Heap, t: nat, c: nat, contiguous: bool)
    requires Running(s, t) && PoolReady(s) && Known(s) && c < CLASSES && NoneUsable(s, t, c) && FetchUsable(s, t, c)
    ensures Replace(s, t, c, contiguous) == ReplaceMeant(s, t, c, contiguous)
  {
    hide SpanInit, AcquireFresh, Without;
    assert FirstUsable(s, s.lists[Suspended(t, c)]) == |s.lists[Suspended(t, c)]|;
  }

  // Runs.

  ghost function CallMeant(s: Heap, op: Op): Outcome
    requires Enabled(s, op)
  {
    if op.MallocOp? then
      (match MallocMeant(s, op.t, op.sz, op.contiguous)
       case None => Stops
       case Some((r, _)) => Done(r))
    else
      Call(s, op)
  }

  ghost predicate StepMeant(o: Outcome, op: Op, p: Outcome) {
    o.Done? && Enabled(o.heap, op) && p == CallMeant(o.heap, op) && p != Stops
  }

  ghost predicate IsMeantRun(run: seq<Outcome>, ops: seq<Op>) {
    && |run| == |ops| + 1
    && (exists raw :: raw > 0 && run[0] == Done(Initial(raw)))
    && forall i :: 0 <= i < |ops| ==> StepMeant(run[i], ops[i], run[i + 1])
  }

  /** A free is guarded; nothing is asked of an allocation. */
  ghost predicate FreesGuardedAt(o: Outcome, op: Op) {
    op.FreeOp? ==> GuardedAt(o, op)
  }

  lemma StepMeantKeepsExactly(o: Outcome, op: Op, p: Outcome)
    requires StepMeant(o, op, p) && Keeps(o)
    ensures Keeps(p) <==> FreesGuardedAt(o, op)
  {
    hide Inv, Running, MallocMeant, Guarded, FreeGuard;
    if op.MallocOp? {
      MallocMeantKeeps(o.heap, op.t, op.sz, op.contiguous);
    } else {
      OtherStep(o, op, p);
    }
  }

  lemma OtherStep(o: Outcome, op: Op, p: Outcome)
    requires StepMeant(o, op, p) && Keeps(o) && !op.MallocOp?
    ensures Keeps(p) <==> FreesGuardedAt(o, op)
  {
    hide Inv, Enabled, Call, MallocMeant, Guard, FreeGuard;
    assert Step(o, op, p);
    StepKeepsExactly(o, op, p);
  }

  /** In every run of the allocator as it is meant the invariant holds, without any guard on
    * the allocations, as long as no thread that has not started turns a span of a thread
    * FREE. */
  lemma {:induction false} MeantRunKeepsExactly(run: seq<Outcome>, ops: seq<Op>, j: nat)
    requires IsMeantRun(run, ops) && j < |run|
    ensures (forall i :: 0 <= i <= j ==> Keeps(run[i])) <==> (forall i :: 0 <= i < j ==> FreesGuardedAt(run[i], ops[i]))
  {
    hide Keeps, FreesGuardedAt, StepMeant, Initial;
    if j == 0 {
      var raw :| raw > 0 && run[0] == Done(Initial(raw));
      FirstKeeps(raw);
    } else {
      MeantRunKeepsExactly(run, ops, j - 1);
      assert StepMeant(run[j - 1], ops[j - 1], run[j - 1 + 1]);
      if Keeps(run[j - 1]) {
        StepMeantKeepsExactly(run[j - 1], ops[j - 1], run[j]);
      }
      assert Keeps(run[j - 1]) || exists i :: 0 <= i <= j && !Keeps(run[i]);
    }
  }

  lemma FirstKeeps(raw: nat)
    requires raw > 0
    ensures Keeps(Done(Initial(raw)))
  {
    hide Inv, Initial;
    InitialHolds(raw);
  }
}
