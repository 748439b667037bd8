/** Properties of the collector over single operations and over whole runs. */
module GcRuns {
  import opened Arith
  import opened GcSpec

  // One operation.

  lemma SurvivorsAreFewer(v: View, blocks: Blocks)
    requires Readable(v, blocks)
    ensures Survivors(v, blocks).Keys <= blocks.Keys
    ensures |Survivors(v, blocks)| <= |blocks|
  {
    SubsetIsSmaller(Survivors(v, blocks).Keys, blocks.Keys);
  }

  lemma {:induction false} SubsetIsSmaller(a: set<nat>, b: set<nat>)
    requires a <= b
    ensures |a| <= |b|
  {
    assert b == a + (b - a);
  }

  lemma SweptIsSound(s: State, v: View, m: State)
    requires Readable(v, s.blocks) && Sound(s) && Swept(s, v, m)
    ensures Sound(m)
  {
    SurvivorsAreFewer(v, s.blocks);
  }

  lemma DoubledCapacity(capacity: nat)
    requires IsCapacity(capacity)
    ensures IsCapacity(2 * capacity) && capacity >= DEFAULT_CAPACITY && capacity % 2 == 0
  {
    var k: nat :| capacity == DEFAULT_CAPACITY * Pow2(k);
    assert 2 * capacity == DEFAULT_CAPACITY * Pow2(k + 1);
  }

  lemma ResizedIsSound(m: State)
    requires Sound(m)
    ensures Sound(Resized(m)) && !NeedCollect(Resized(m))
  {
    DoubledCapacity(m.capacity);
  }

  lemma CollectIsSound(s: State, v: View, t: State)
    requires Readable(v, s.blocks) && Sound(s) && CollectStep(s, v, t)
    ensures Sound(t) && !NeedCollect(t)
    ensures t.blocks == Survivors(v, s.blocks)
  {
    if s.blocks != map[] {
      var m :| Swept(s, v, m) && t == if NeedCollect(m) || NeedResize(m) then Resized(m) else m;
      SweptIsSound(s, v, m);
      if NeedCollect(m) || NeedResize(m) {
        ResizedIsSound(m);
      }
    }
  }

  /** After the check at the head of an allocation the table is within its limit: a
    * single doubling is always enough. */
  lemma CheckIsSound(s: State, v: View, t: State)
    requires Readable(v, s.blocks) && Sound(s) && CheckStep(s, v, t)
    ensures Sound(t)
    ensures |t.blocks| <= t.sweepLimit
  {
    if NeedCollect(s) {
      CollectIsSound(s, v, t);
    }
  }

  lemma AllocIsSound(s: State, v: View, n: nat, p: nat, t: State)
    requires Sound(s) && Readable(v, s.blocks) && AllocStep(s, v, n, p, t) && n % 8 == 0
    ensures Sound(t)
  {
    var m :| CheckStep(s, v, m) && FreshBlock(m.blocks, p, n) && t == Registered(m, p, n);
    CheckIsSound(s, v, m);
    RegisteredIsSound(m, p, n);
  }

  /** What every operation keeps. */
  lemma NextIsSound(s: State, op: Op, t: State)
    requires Sound(s) && Next(s, op, t)
    ensures Sound(t)
  {
    hide Sound, RoundUp, AllocStep, CollectStep, Freed, Readable;
    match op
    case Malloc(v, size, p) =>
      if size != 0 {
        RoundUpIsMultiple(size, 1);
        AllocIsSound(s, v, RoundUp(size), p, t);
      }
    case Calloc(v, nmemb, size, p) =>
      if nmemb != 0 && size != 0 {
        RoundUpIsMultiple(size, nmemb);
        AllocIsSound(s, v, RoundUp(size) * nmemb, p, t);
      }
    case Collect(v) => CollectIsSound(s, v, t);
    case Free(q) => FreedIsSound(s, q);
  }

  lemma RoundUpIsMultiple(size: nat, n: nat)
    ensures RoundUp(size) % 8 == 0 && RoundUp(size) * n % 8 == 0
  {
    MultipleOf8((size + 7) % WORD_RANGE / 8, n);
  }

  lemma MultipleOf8(k: nat, n: nat)
    ensures k * 8 * n % 8 == 0
  {
    assert k * 8 * n == 8 * (k * n);
  }

  lemma RegisteredIsSound(m: State, p: nat, n: nat)
    requires Sound(m) && |m.blocks| <= m.sweepLimit && FreshBlock(m.blocks, p, n) && n % 8 == 0
    ensures Sound(Registered(m, p, n))
  {
    var t := Registered(m, p, n);
    if p != 0 {
      FreshIsNew(m.blocks, p, n);
      assert t.blocks.Keys == m.blocks.Keys + {p};
      assert |t.blocks.Keys| == |m.blocks| + 1;
    }
  }

  lemma FreedIsSound(s: State, q: nat)
    requires Sound(s)
    ensures Sound(Freed(s, q))
  {
    var t := Freed(s, q);
    SubsetIsSmaller(t.blocks.Keys, s.blocks.Keys);
  }

  lemma CheckKeeps(s: State, v: View, m: State, a: nat)
    requires Sound(s) && Readable(v, s.blocks) && CheckStep(s, v, m) && a in s.blocks
    requires NeedCollect(s) ==> Reachable(v, s.blocks, a)
    ensures a in m.blocks && m.blocks[a] == s.blocks[a]
  {
    if NeedCollect(s) {
      CollectIsSound(s, v, m);
    }
  }

  lemma FreshIsNew(blocks: Blocks, p: nat, n: nat)
    requires FreshBlock(blocks, p, n) && p != 0
    ensures p !in blocks
  {
    if p in blocks {
      assert false;
    }
  }

  lemma AllocKeeps(s: State, v: View, n: nat, p: nat, t: State, a: nat)
    requires Sound(s) && Readable(v, s.blocks) && AllocStep(s, v, n, p, t) && a in s.blocks
    requires NeedCollect(s) ==> Reachable(v, s.blocks, a)
    ensures a in t.blocks && t.blocks[a] == s.blocks[a]
  {
    var m :| CheckStep(s, v, m) && FreshBlock(m.blocks, p, n) && t == Registered(m, p, n);
    CheckKeeps(s, v, m, a);
    if p != 0 {
      FreshIsNew(m.blocks, p, n);
    }
  }

  /** The collector never frees a block that is reachable when it runs: one that goes
    * away in an operation was unreachable for a collection or freed by address. */
  lemma ReachableIsKept(s: State, op: Op, t: State, a: nat)
    requires Sound(s) && Next(s, op, t) && a in s.blocks
    requires op != Free(a)
    requires Collects(s, op) ==> Reachable(op.v, s.blocks, a)
    ensures a in t.blocks && t.blocks[a] == s.blocks[a]
  {
    match op
    case Malloc(v, size, p) =>
      if size != 0 {
        AllocKeeps(s, v, RoundUp(size), p, t, a);
      }
    case Calloc(v, nmemb, size, p) =>
      if nmemb != 0 && size != 0 {
        AllocKeeps(s, v, RoundUp(size) * nmemb, p, t, a);
      }
    case Collect(v) => CollectIsSound(s, v, t);
    case Free(q) =>
  }

  /** The block that an allocation returns is tracked when the call is over, with the
    * rounded size: the sweep of the same call does not touch it. */
  lemma ReturnedBlockIsTracked(s: State, op: Op, t: State)
    requires Sound(s) && Next(s, op, t)
    ensures op.Malloc? && op.p != 0 ==> op.p in t.blocks && t.blocks[op.p] == RoundUp(op.size)
    ensures op.Calloc? && op.p != 0 ==> op.p in t.blocks && t.blocks[op.p] == RoundUp(op.size) * op.nmemb < WORD_RANGE
  {
  }

  /** The rounded size is the next multiple of 8, which holds the requested one, if and only if
    * the rounding does not wrap around; if it does, it is 0. */
  lemma RoundUpFits(size: nat)
    requires size < 0x1_0000_0000_0000_0000
    ensures RoundUp(size) % 8 == 0
    ensures RoundUp(size) >= size <==> size <= 0xffff_ffff_ffff_fff8
    ensures size <= 0xffff_ffff_ffff_fff8 ==> RoundUp(size) < size + 8
    ensures size > 0xffff_ffff_ffff_fff8 ==> RoundUp(size) == 0
  {
  }

  /** A request within 7 bytes of the whole address range is rounded to nothing. */
  lemma RoundUpCanVanish()
    ensures RoundUp(0xffff_ffff_ffff_ffff) == 0
  {
  }

  /** A request for nothing is answered with null, and no collection takes place. An allocation
    * that finds at most half as many blocks as the table has buckets frees none. */
  lemma BelowTheLimitNothingIsFreed(s: State, op: Op, t: State)
    requires Sound(s) && Next(s, op, t) && (op.Malloc? || op.Calloc?)
    ensures op.size == 0 || (op.Calloc? && op.nmemb == 0) ==> op.p == 0 && t == s
    ensures 2 * |s.blocks| <= s.capacity ==>
              && t.released == s.released && t.capacity == s.capacity
              && t.blocks.Keys == if op.p == 0 then s.blocks.Keys else s.blocks.Keys + {op.p}
  {
  }

  /** One that finds more starts with a collection. */
  lemma AboveTheLimitGarbageIsFreed(s: State, op: Op, t: State, a: nat)
    requires Sound(s) && Next(s, op, t) && (op.Malloc? || op.Calloc?) && op.size != 0 && (op.Calloc? ==> op.nmemb != 0)
    requires 2 * |s.blocks| > s.capacity && a in s.blocks && !Reachable(op.v, s.blocks, a)
    ensures multiset(t.released)[a] == multiset(s.released)[a] + 1
  {
    hide Reachable, Swept;
    DoubledCapacity(s.capacity);
    var n := if op.Malloc? then RoundUp(op.size) else RoundUp(op.size) * op.nmemb;
    var m :| CheckStep(s, op.v, m) && FreshBlock(m.blocks, op.p, n) && t == Registered(m, op.p, n);
    CollectIsSound(s, op.v, m);
    CollectReleasesOnce(s, op.v, m, a);
  }

  /** Freeing an address forgets the block there, if there is one, and nothing else. */
  lemma FreeForgets(s: State, q: nat, t: State)
    requires Next(s, Free(q), t)
    ensures t.blocks.Keys == s.blocks.Keys - {q} && forall a :: a in t.blocks ==> t.blocks[a] == s.blocks[a]
    ensures t.released == if q in s.blocks then s.released + [q] else s.released
    ensures t.capacity == s.capacity && t.sweepLimit == s.sweepLimit
  {
  }

  /** A second collection that sees the same memory and stack changes nothing. */
  lemma SecondCollectFreesNothing(s: State, v: View, t: State, u: State)
    requires Sound(s) && Readable(v, s.blocks) && CollectStep(s, v, t)
    requires Readable(v, t.blocks) && CollectStep(t, v, u)
    ensures u == t
  {
    CollectIsSound(s, v, t);
    SurvivorsSurvive(s.blocks, v);
    NothingToCollect(t, v, u);
  }

  lemma NothingToCollect(t: State, v: View, u: State)
    requires Limits(t) && !NeedCollect(t)
    requires Readable(v, t.blocks) && Survivors(v, t.blocks) == t.blocks && CollectStep(t, v, u)
    ensures u == t
  {
    if t.blocks != map[] {
      var m :| Swept(t, v, m) && u == if NeedCollect(m) || NeedResize(m) then Resized(m) else m;
      assert t.blocks.Keys - m.blocks.Keys == {};
      NothingLogged(t.released, m.released);
    }
  }

  lemma NothingLogged(before: seq<nat>, after: seq<nat>)
    requires before <= after && multiset(after[|before|..]) == multiset({})
    ensures before == after
  {
    EmptyMultiset(after[|before|..]);
    assert after == before + after[|before|..];
  }

  lemma SurvivorsSurvive(blocks: Blocks, v: View)
    requires Readable(v, blocks) && Readable(v, Survivors(v, blocks))
    ensures Survivors(v, Survivors(v, blocks)) == Survivors(v, blocks)
  {
    forall b
      ensures Reachable(v, Survivors(v, blocks), b) <==> Reachable(v, blocks, b)
    {
      SurvivorsStayReachable(v, blocks, b);
    }
  }

  lemma EmptyMultiset(s: seq<nat>)
    requires multiset(s) == multiset{}
    ensures s == []
  {
    assert |s| == |multiset(s)|;
  }

  // The sweep in progress.

  /** Some blocks of s have been freed so far, each of them once. */
  ghost predicate Trimmed(s: State, t: State) {
    && t.blocks.Keys <= s.blocks.Keys && (forall a :: a in t.blocks ==> t.blocks[a] == s.blocks[a])
    && t.capacity == s.capacity && t.sweepLimit == s.sweepLimit
    && t.collected == s.collected + (|s.blocks| - |t.blocks|)
    && s.released <= t.released
    && multiset(t.released[|s.released|..]) == multiset(s.blocks.Keys - t.blocks.Keys)
  }

  lemma NothingTrimmed(s: State)
    ensures Trimmed(s, s)
  {
    assert s.blocks.Keys - s.blocks.Keys == {};
  }

  lemma OneMoreTrimmed(s: State, t: State, p: nat)
    requires Trimmed(s, t) && p in t.blocks
    ensures Trimmed(s, Freed(t, p))
  {
    var u := Freed(t, p);
    var n := |s.released|;
    assert u.blocks.Keys == t.blocks.Keys - {p};
    assert u.released[n..] == t.released[n..] + [p];
    assert s.blocks.Keys - u.blocks.Keys == (s.blocks.Keys - t.blocks.Keys) + {p};
  }

  lemma TrimmedToSurvivors(s: State, v: View, t: State)
    requires Readable(v, s.blocks) && Trimmed(s, t)
    requires forall a :: a in s.blocks ==> (a in t.blocks <==> Reachable(v, s.blocks, a))
    ensures Swept(s, v, t)
  {
    hide Reachable;
    assert t.blocks == Survivors(v, s.blocks);
  }

  // Whole runs.

  /** The table limits and the layout of the blocks hold between any two operations of
    * any run: size <= capacity/2 + 1, sweep_limit = capacity/2, capacity = 4096 * 2^k. */
  lemma {:induction false} RunIsSound(run: seq<State>, ops: seq<Op>, i: nat)
    requires IsRun(run, ops) && i < |run|
    ensures Sound(run[i])
  {
    if i == 0 {
      assert DEFAULT_CAPACITY == DEFAULT_CAPACITY * Pow2(0);
    } else {
      RunIsSound(run, ops, i - 1);
      NextIsSound(run[i - 1], ops[i - 1], run[i]);
    }
  }

  /** Block a is not freed by address in the operations from i up to j, and it is
    * reachable in the eyes of each collection among them. */
  ghost predicate HeldOver(run: seq<State>, ops: seq<Op>, a: nat, i: nat, j: nat)
    requires IsRun(run, ops) && i <= j < |run|
  {
    forall k :: i <= k < j ==> ops[k] != Free(a)
                               && (Collects(run[k], ops[k]) ==> Next(run[k], ops[k], run[k + 1]) && Reachable(ops[k].v, run[k].blocks, a))
  }

  /** Over a whole run: a tracked block that stays reachable and is not freed by
    * address stays tracked, with its size, however many collections intervene. */
  lemma {:induction false} ReachableBlocksAreNeverCollected(run: seq<State>, ops: seq<Op>, a: nat, i: nat, j: nat)
    requires IsRun(run, ops) && i <= j < |run|
    requires a in run[i].blocks && HeldOver(run, ops, a, i, j)
    ensures a in run[j].blocks && run[j].blocks[a] == run[i].blocks[a]
  {
    if i < j {
      ReachableBlocksAreNeverCollected(run, ops, a, i, j - 1);
      RunIsSound(run, ops, j - 1);
      ReachableIsKept(run[j - 1], ops[j - 1], run[j], a);
    }
  }

  /** The address that an operation registers, or 0. */
  function RegisteredBy(op: Op): nat {
    match op
    case Malloc(_, _, p) => p
    case Calloc(_, _, _, p) => p
    case _ => 0
  }

  function Registrations(ops: seq<Op>, a: nat): nat {
    if ops == [] then 0
    else Registrations(ops[..|ops| - 1], a) + (if RegisteredBy(ops[|ops| - 1]) == a then 1 else 0)
  }

  function Holds(blocks: Blocks, a: nat): nat {
    if a in blocks then 1 else 0
  }

  /** Conservation: an address has been released exactly as often as it has been
    * registered, except for the registration that is still tracked. So no block is
    * released twice, and none that left the table was forgotten. */
  lemma {:induction false} EveryBlockIsReleasedOnce(run: seq<State>, ops: seq<Op>, a: nat)
    requires IsRun(run, ops) && a != 0
    ensures Registrations(ops, a) == multiset(run[|ops|].released)[a] + Holds(run[|ops|].blocks, a)
    ensures run[|ops|].collected == |run[|ops|].released|
  {
    var n := |ops|;
    if n > 0 {
      var run', ops' := run[..n], ops[..n - 1];
      assert IsRun(run', ops');
      EveryBlockIsReleasedOnce(run', ops', a);
      RunIsSound(run, ops, n - 1);
      StepReleasesOnce(run[n - 1], ops[n - 1], run[n], a);
    }
  }

  lemma StepReleasesOnce(s: State, op: Op, t: State, a: nat)
    requires Sound(s) && Next(s, op, t) && a != 0
    ensures multiset(t.released)[a] + Holds(t.blocks, a)
            == multiset(s.released)[a] + Holds(s.blocks, a) + (if RegisteredBy(op) == a then 1 else 0)
    ensures t.collected - s.collected == |t.released| - |s.released|
  {
    hide Reachable, Survivors, Swept, AllocStep, CollectStep, Readable, RoundUp, Disjoint, Limits;
    match op
    case Malloc(v, size, p) =>
      if size != 0 {
        AllocReleasesOnce(s, v, RoundUp(size), p, t, a);
      }
    case Calloc(v, nmemb, size, p) =>
      if nmemb != 0 && size != 0 {
        AllocReleasesOnce(s, v, RoundUp(size) * nmemb, p, t, a);
      }
    case Collect(v) => CollectReleasesOnce(s, v, t, a);
    case Free(q) =>
  }

  lemma AllocReleasesOnce(s: State, v: View, n: nat, p: nat, t: State, a: nat)
    requires Sound(s) && Readable(v, s.blocks) && AllocStep(s, v, n, p, t) && a != 0
    ensures multiset(t.released)[a] + Holds(t.blocks, a)
            == multiset(s.released)[a] + Holds(s.blocks, a) + (if p == a then 1 else 0)
    ensures t.collected - s.collected == |t.released| - |s.released|
  {
    var m :| CheckStep(s, v, m) && FreshBlock(m.blocks, p, n) && t == Registered(m, p, n);
    if NeedCollect(s) {
      CollectReleasesOnce(s, v, m, a);
    }
    if p != 0 {
      FreshIsNew(m.blocks, p, n);
    }
  }

  lemma CollectReleasesOnce(s: State, v: View, t: State, a: nat)
    requires Sound(s) && Readable(v, s.blocks) && CollectStep(s, v, t)
    ensures multiset(t.released)[a] + Holds(t.blocks, a) == multiset(s.released)[a] + Holds(s.blocks, a)
    ensures t.collected - s.collected == |t.released| - |s.released|
  {
    if s.blocks != map[] {
      var m :| Swept(s, v, m) && t == if NeedCollect(m) || NeedResize(m) then Resized(m) else m;
      SweptReleasesOnce(s, v, m, a);
    }
  }

  lemma SweptReleasesOnce(s: State, v: View, m: State, a: nat)
    requires Readable(v, s.blocks) && Swept(s, v, m)
    ensures multiset(m.released)[a] + Holds(m.blocks, a) == multiset(s.released)[a] + Holds(s.blocks, a)
    ensures m.collected - s.collected == |m.released| - |s.released|
  {
    ReleasedCounts(s.released, m.released, s.blocks.Keys, m.blocks.Keys, a);
  }

  lemma ReleasedCounts(before: seq<nat>, after: seq<nat>, all: set<nat>, kept: set<nat>, a: nat)
    requires before <= after && kept <= all
    requires multiset(after[|before|..]) == multiset(all - kept)
    ensures multiset(after)[a] + (if a in kept then 1 else 0) == multiset(before)[a] + (if a in all then 1 else 0)
    ensures |all| - |kept| == |after| - |before|
  {
    var log := after[|before|..];
    LogHoldsEachOnce(log, all - kept, a);
    assert after == before + log;
    assert all == (all - kept) + kept;
  }

  lemma LogHoldsEachOnce(log: seq<nat>, gone: set<nat>, a: nat)
    requires multiset(log) == multiset(gone)
    ensures multiset(log)[a] == if a in gone then 1 else 0
    ensures |log| == |gone|
  {
    assert |log| == |multiset(log)|;
  }

  /** The table is as small as when it started, or smaller than four times the number
    * of blocks that survived some collection of the run. */
  lemma {:induction false} CapacityFollowsSurvivors(run: seq<State>, ops: seq<Op>, j: nat)
    requires IsRun(run, ops) && j < |run|
    ensures run[j].capacity == 4096
            || exists k :: 0 <= k < j && Collects(run[k], ops[k]) && Next(run[k], ops[k], run[k + 1])
                           && run[j].capacity < 4 * |Survivors(ops[k].v, run[k].blocks)|
  {
    if j > 0 {
      var s, op, t := run[j - 1], ops[j - 1], run[j];
      CapacityFollowsSurvivors(run, ops, j - 1);
      RunIsSound(run, ops, j - 1);
      GrowthFollowsSurvivors(s, op, t);
      assert t.capacity != s.capacity ==> Collects(run[j - 1], ops[j - 1]) && Next(run[j - 1], ops[j - 1], run[j - 1 + 1]);
    }
  }

  lemma GrowthFollowsSurvivors(s: State, op: Op, t: State)
    requires Sound(s) && Next(s, op, t)
    ensures t.capacity != s.capacity ==> Collects(s, op) && t.capacity < 4 * |Survivors(op.v, s.blocks)|
  {
    match op
    case Malloc(v, size, p) =>
      if size != 0 {
        AllocGrowth(s, v, RoundUp(size), p, t);
      }
    case Calloc(v, nmemb, size, p) =>
      if nmemb != 0 && size != 0 {
        AllocGrowth(s, v, RoundUp(size) * nmemb, p, t);
      }
    case Collect(v) => CollectGrowth(s, v, t);
    case Free(q) =>
  }

  lemma AllocGrowth(s: State, v: View, n: nat, p: nat, t: State)
    requires Sound(s) && Readable(v, s.blocks) && AllocStep(s, v, n, p, t)
    ensures t.capacity != s.capacity ==> NeedCollect(s) && t.capacity < 4 * |Survivors(v, s.blocks)|
  {
    var m :| CheckStep(s, v, m) && FreshBlock(m.blocks, p, n) && t == Registered(m, p, n);
    if NeedCollect(s) {
      CollectGrowth(s, v, m);
    }
  }

  lemma CollectGrowth(s: State, v: View, t: State)
    requires Sound(s) && Readable(v, s.blocks) && CollectStep(s, v, t)
    ensures t.capacity != s.capacity ==> t.capacity < 4 * |Survivors(v, s.blocks)|
  {
    DoubledCapacity(s.capacity);
  }
}
