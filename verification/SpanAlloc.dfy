/** The span allocator of src/wlmalloc.c as it runs: span headers and lists that are
  * updated in place. Every method does to the state what its step in SpanSpec.dfy says. */
module SpanAlloc {
  import opened SizeTables
  import opened SpanSpec
  import opened Rings
  import opened SpanInv
  import SpanSteps

  /** span_t, at the address base. */
  class SpanRecord {
    const base: nat
    var owner: Owner
    var state: SpanState
    var cls: nat
    var blkSize: nat
    var freeBlk: nat
    var freeCnt: nat
    var blkList: seq<nat>

    ghost function Value(): Span
      reads this
    {
      Span(owner, state, cls, blkSize, freeBlk, freeCnt, blkList)
    }

    /** A header in memory that was never used. */
    constructor (base: nat)
      ensures this.base == base && Value() == RAW
    {
      this.base := base;
      owner, state, cls, blkSize, freeBlk, freeCnt, blkList := NoOwner, IN_USE, 0, 0, 0, 0, [];
    }

    /** span_init */
    method Init(c: nat)
      requires c < CLASSES
      modifies this
      ensures Value() == SpanInit(old(Value()), base, c)
    {
      SizesRise(0, c);
      cls := c;
      blkSize := Cls2Size(c);
      freeCnt := Capacity(blkSize);
      freeBlk := base + HEADER;
      blkList := [];
    }

    /** get_blk */
    method GetBlk() returns (ret: nat)
      modifies this
      ensures (Value(), ret) == SpanSpec.GetBlk(old(Value()))
    {
      if blkList != [] {
        ret := blkList[0];
        blkList := blkList[1..];
        freeCnt := Decremented(freeCnt);
        return;
      }
      ret := freeBlk;
      freeBlk := freeBlk + blkSize;
      freeCnt := Decremented(freeCnt);
    }

    // The writes of span_free_blk.

    /** The counter goes up; full says whether this makes the span FREE. */
    method CountUp() returns (full: bool)
      requires blkSize > 0
      modifies this`freeCnt
      ensures Value() == old(Value()).(freeCnt := Incremented(old(freeCnt))) && full == old(TurnsFree(Value()))
    {
      freeCnt := Incremented(freeCnt);
      full := state == SUSPEND && freeCnt == Capacity(blkSize);
    }

    method Clear()
      modifies this`blkList, this`state
      ensures Value() == old(Value()).(blkList := [], state := FREE)
    {
      blkList := [];
      state := FREE;
    }

    method Push(blk: nat)
      modifies this`blkList
      ensures Value() == old(Value()).(blkList := [blk] + old(blkList))
    {
      blkList := [blk] + blkList;
    }
  }

  /** What wl_malloc comes to: a null pointer, a block, a request that it leaves to the branch
    * for large ones, or the end of the program. */
  datatype Answer = Null | Block(ptr: nat) | LargeRequest | Fatal

  /** The thread caches and the pool, with the headers of all the spans. The node by which
    * a span is linked is its membership in a list. */
  class Allocator {
    var spans: map<nat, SpanRecord>
    var lists: map<Place, seq<nat>>
    var start: nat
    var end: nat
    var freeStart: nat
    ghost var live: map<nat, nat>
    var stale: map<nat, Links<Node>>

    ghost predicate Valid()
      reads this
    {
      forall h :: h in spans ==> spans[h].base == h
    }

    ghost function Abs(): Heap
      reads this, spans.Values
    {
      Heap(map h | h in spans :: spans[h].Value(), lists, start, end, freeStart, live, stale)
    }

    /** global_init */
    constructor (raw: nat)
      ensures Valid() && Abs() == Initial(raw)
    {
      spans, live, stale := map[], map[], map[];
      start := (raw + SPAN - 1) / SPAN * SPAN;
      end := raw + UNIT;
      freeStart := (raw + SPAN - 1) / SPAN * SPAN;
      lists := map[PoolFree := []];
      new;
      hide WithEmpty;
      NoneEmpty(map[PoolFree := []]);
      for i := 0 to CLASSES
        invariant spans == map[] && live == map[] && stale == map[] && start == freeStart == (raw + SPAN - 1) / SPAN * SPAN && end == raw + UNIT
        invariant lists == WithEmpty(map[PoolFree := []], PoolLists(i))
      {
        OneEmpty(map[PoolFree := []], PoolLists(i), PoolSuspended(i));
        lists := lists[PoolSuspended(i) := []];
        assert PoolLists(i + 1) == PoolLists(i) + {PoolSuspended(i)};
      }
      assert Abs().spans == map[];
    }

    /** thread_cache_init */
    method ThreadCacheInit(t: nat)
      requires Valid()
      modifies this`lists
      ensures Valid() && Abs() == Start(old(Abs()), t)
    {
      hide WithEmpty;
      NoneEmpty(lists);
      assert ClassLists(t, 0) == {};
      for i := 0 to CLASSES
        invariant lists == WithEmpty(old(lists), ClassLists(t, i))
      {
        OneEmpty(old(lists), ClassLists(t, i), Using(t, i));
        lists := lists[Using(t, i) := []];
        OneEmpty(old(lists), ClassLists(t, i) + {Using(t, i)}, Suspended(t, i));
        lists := lists[Suspended(t, i) := []];
        assert ClassLists(t, i + 1) == ClassLists(t, i) + {Using(t, i)} + {Suspended(t, i)};
      }
      OneEmpty(old(lists), ClassLists(t, CLASSES), FreeOf(t));
      lists := lists[FreeOf(t) := []];
    }

    /** A span is cut off the unused part of the pool. */
    method Cut(c: nat) returns (span: SpanRecord)
      requires Valid() && c < CLASSES
      modifies this`spans, this`freeStart
      ensures Valid() && fresh(span) && span in spans.Values && spans.Values <= old(spans.Values) + {span}
      ensures (Abs(), span.base) == (Carve(old(Abs()), c), old(freeStart))
    {
      hide SpanInit;
      span := new SpanRecord(freeStart);
      spans := spans[freeStart := span];
      assert freeStart in spans;
      freeStart := freeStart + SPAN;
      span.Init(c);
      assert Abs().spans == old(Abs()).spans[old(freeStart) := SpanInit(RAW, old(freeStart), c)];
    }

    /** The first span of a list of free spans is unlinked and prepared for class c. */
    method TakeFree(pl: Place, c: nat) returns (span: SpanRecord)
      requires Valid() && Known(Abs()) && pl in lists && lists[pl] != [] && c < CLASSES
      modifies this`lists, spans.Values
      ensures Valid() && span in spans.Values && span.base == old(lists[pl][0])
      ensures var h, s := old(lists[pl][0]), old(Abs());
        h in s.spans && Abs() == Pop(s, pl).(spans := s.spans[h := SpanInit(s.spans[h], h, c)])
    {
      hide SpanInit;
      var h := lists[pl][0];
      assert h in Abs().spans;
      span := spans[h];
      lists := lists[pl := lists[pl][1..]];
      span.Init(c);
      assert Abs().spans == old(Abs()).spans[h := SpanInit(old(spans[h].Value()), h, c)];
    }

    /** acquire_span; without a result the program has ended. */
    method AcquireSpan(c: nat, contiguous: bool) returns (r: Option<SpanRecord>)
      requires Valid() && PoolReady(Abs()) && Known(Abs()) && c < CLASSES
      modifies this, spans.Values
      ensures Valid() && fresh(spans.Values - old(spans.Values))
      ensures r.None? <==> Acquire(old(Abs()), c, contiguous).None?
      ensures r.Some? ==> r.value in spans.Values && (Abs(), r.value.base) == Acquire(old(Abs()), c, contiguous).value
    {
      hide SpanInit;
      if lists[PoolSuspended(c)] != [] {
        var h := lists[PoolSuspended(c)][0];
        assert h in Abs().spans;
        lists := lists[PoolSuspended(c) := lists[PoolSuspended(c)][1..]];
        assert Abs().spans == old(Abs()).spans;
        return Some(spans[h]);
      }
      if lists[PoolFree] != [] {
        var span := TakeFree(PoolFree, c);
        return Some(span);
      }
      if freeStart + SPAN <= end {
        var span := Cut(c);
        return Some(span);
      }
      if !contiguous {
        return None;
      }
      end := end + UNIT;
      assert Abs() == old(Abs()).(end := old(end) + UNIT) by {
        assert Abs().spans == old(Abs()).spans;
      }
      var span := Cut(c);
      return Some(span);
    }

    /** The search for a span in replace_available_span; without a result the program has
      * ended. */
    method FindSpan(t: nat, c: nat, contiguous: bool) returns (r: Option<SpanRecord>)
      requires Valid() && Running(Abs(), t) && PoolReady(Abs()) && Known(Abs()) && c < CLASSES
      modifies this, spans.Values
      ensures Valid() && fresh(spans.Values - old(spans.Values))
      ensures var f := Fetch(DropUsable(old(Abs()), t, c), t, c, contiguous);
        if f.None? then r.None? else r.Some? && r.value in spans.Values && (Abs(), r.value.base) == f.value
    {
      hide Acquire, DropUsable, Without, SpanInit;
      ghost var d := DropUsable(Abs(), t, c);
      NoWalk(Abs(), t, c);
      if lists[Suspended(t, c)] != [] {
        UnlinkUsable(t, c);
      }
      assert Abs() == d;
      if lists[FreeOf(t)] != [] {
        var span := TakeFree(FreeOf(t), c);
        return Some(span);
      }
      r := AcquireSpan(c, contiguous);
    }

    /** replace_available_span; without success the program has ended. */
    method ReplaceAvailableSpan(t: nat, c: nat, contiguous: bool) returns (ok: bool)
      requires Valid() && Running(Abs(), t) && PoolReady(Abs()) && Known(Abs()) && c < CLASSES
      modifies this, spans.Values
      ensures Valid() && fresh(spans.Values - old(spans.Values))
      ensures ok == Replace(old(Abs()), t, c, contiguous).Some?
      ensures ok ==> Some(Abs()) == Replace(old(Abs()), t, c, contiguous)
    {
      hide DropUsable, Fetch, SpanSpec.Install;
      var r := FindSpan(t, c, contiguous);
      if r.None? {
        return false;
      }
      Install(t, c, r.value);
      ok := true;
    }

    /** The end of replace_available_span. */
    method Install(t: nat, c: nat, span: SpanRecord)
      requires Valid() && span in spans.Values
      modifies this`lists, span
      ensures Valid() && Abs() == SpanSpec.Install(old(Abs()), t, c, span.base)
    {
      lists := lists[Using(t, c) := [span.base]];
      span.owner := Thread(t);
      span.state := IN_USE;
      assert Abs().spans == SpanSpec.Install(old(Abs()), t, c, span.base).spans;
    }

    /** The walk over the suspended spans in replace_available_span, with its break. */
    method UnlinkUsable(t: nat, c: nat)
      requires Valid() && Running(Abs(), t) && Known(Abs()) && c < CLASSES
      modifies this`lists, this`stale
      ensures Valid() && Abs() == DropUsable(old(Abs()), t, c)
    {
      var xs := lists[Suspended(t, c)];
      for i := 0 to |xs|
        invariant lists == old(lists) && stale == old(stale)
        invariant FirstUsable(Abs(), xs) == i + FirstUsable(Abs(), xs[i..])
      {
        var h := xs[i];
        assert h in Abs().spans;
        if spans[h].freeCnt > 0 {
          lists := lists[Suspended(t, c) := Without(xs, h)];
          stale := stale[h := LinksAt(xs, Suspended(t, c), i)];
          break;
        }
        assert xs[i..][1..] == xs[i + 1..];
      }
    }

    /** small_alloc; without a result the program has ended. */
    method SmallAlloc(t: nat, c: nat, contiguous: bool, ghost sz: nat) returns (ret: Option<nat>)
      requires Valid() && Running(Abs(), t) && PoolReady(Abs()) && Known(Abs()) && c < CLASSES
      modifies this, spans.Values
      ensures Valid() && fresh(spans.Values - old(spans.Values))
      ensures var p := Prepared(old(Abs()), t, c, contiguous);
        if p.None? then ret.None?
        else ret.Some? && (Abs(), ret.value) == SpanSpec.HandOut(p.value, p.value.lists[Using(t, c)][0], sz)
    {
      hide Replace, SpanSpec.Retire, SpanSpec.HandOut;
      ghost var p := Prepared(Abs(), t, c, contiguous);
      if lists[Using(t, c)] == [] {
        var ok := ReplaceAvailableSpan(t, c, contiguous);
        if !ok {
          return None;
        }
      } else {
        var h := lists[Using(t, c)][0];
        assert h in Abs().spans;
        if spans[h].freeCnt == 0 {
          Retire(t, c, h);
          var ok := ReplaceAvailableSpan(t, c, contiguous);
          if !ok {
            return None;
          }
        }
      }
      assert Some(Abs()) == p;
      var h := lists[Using(t, c)][0];
      assert h in Abs().spans;
      var b := HandOut(h, sz);
      ret := Some(b);
    }

    /** The used up span of small_alloc joins the suspend list. */
    method Retire(t: nat, c: nat, h: nat)
      requires Valid() && Running(Abs(), t) && Known(Abs()) && c < CLASSES && h in spans
      modifies this`lists, spans.Values
      ensures Valid() && Abs() == SpanSpec.Retire(old(Abs()), t, c, h)
    {
      spans[h].state := SUSPEND;
      lists := lists[Suspended(t, c) := lists[Suspended(t, c)] + [h]];
      lists := lists[Using(t, c) := []];
      OneChanged(h);
    }

    /** get_blk for a request of sz bytes. */
    method HandOut(h: nat, ghost sz: nat) returns (ret: nat)
      requires Valid() && h in spans
      modifies this`live, spans.Values
      ensures Valid() && (Abs(), ret) == SpanSpec.HandOut(old(Abs()), h, sz)
    {
      hide SpanSpec.GetBlk;
      ret := spans[h].GetBlk();
      live := live[ret := sz];
      assert Abs().spans == old(Abs()).spans[h := SpanSpec.GetBlk(old(spans[h].Value())).0];
    }

    /** wl_malloc in thread t; size2cls of a size above the small ones is LARGE_CLASS. */
    method WlMalloc(t: nat, sz: nat, contiguous: bool) returns (ret: Answer)
      requires Valid() && Running(Abs(), t) && PoolReady(Abs()) && Known(Abs())
      modifies this, spans.Values
      ensures Valid() && fresh(spans.Values - old(spans.Values))
      ensures sz == 0 ==> ret == Null && Abs() == old(Abs())
      ensures sz > MAX_SMALL ==> ret == LargeRequest && Abs() == old(Abs())
      ensures 0 < sz <= MAX_SMALL ==>
                match SpanSpec.Malloc(old(Abs()), t, sz, contiguous)
                case None => ret == Fatal
                case Some((s, b)) => Abs() == s && ret == Block(b)
      ensures old(Inv(Abs())) && ret.Block? ==>
                && Size2Cls(sz) < CLASSES
                && (Inv(Abs()) <==> old(SpanSteps.Guard(Abs(), t, Size2Cls(sz))))
    {
      hide Inv, SpanSteps.Guard;
      if sz == 0 {
        return Null;
      }
      Size2ClsFits(sz);
      var c := Size2Cls(sz);
      hide Size2Cls, Cls2Size, Prepared, SpanSpec.HandOut;
      if Inv(Abs()) && sz <= MAX_SMALL && SpanSpec.Malloc(Abs(), t, sz, contiguous).Some? {
        SpanSteps.MallocKeepsExactly(Abs(), t, sz, contiguous);
      }
      if c < CLASSES {
        var b := SmallAlloc(t, c, contiguous, sz);
        ret := if b.None? then Fatal else Block(b.value);
      } else {
        ret := LargeRequest;
      }
    }

    /** wl_free in thread t of a block of the pool: the three branches of span_free_blk for
      * a span of this thread, of the pool and of another thread, whose lock is taken. Without
      * ok there has been an access through a link or a lock that is not there, or a list is no
      * ring any more. */
    method WlFree(t: nat, ptr: nat) returns (ok: bool)
      requires Valid() && Linked(Abs()) && GetHeader(ptr) in spans && spans[GetHeader(ptr)].blkSize > 0
      modifies this`lists, this`live, this`stale, spans.Values
      ensures Valid() && ok == SpanSpec.Free(old(Abs()), t, ptr).Some?
      ensures ok ==> Some(Abs()) == SpanSpec.Free(old(Abs()), t, ptr)
      ensures old(Inv(Abs())) && ptr in old(live) ==>
                && (ok <==> old(SpanSteps.FreeGuard(Abs(), t, GetHeader(ptr))))
                && (ok ==> Inv(Abs()))
      ensures old(Safe(Abs())) && ptr in old(live) && ok ==> Safe(Abs())
    {
      hide Inv, Safe, Linked, SpanSteps.FreeGuard, TurnsFree, Freed, CanMove;
      if Inv(Abs()) && ptr in live {
        SpanSteps.FreeKeepsExactly(Abs(), t, ptr);
      }
      if Safe(Abs()) && ptr in live {
        SpanSteps.FreeIsSafe(Abs(), t, ptr);
      }
      var h := GetHeader(ptr);
      var span := spans[h];
      var owner := span.owner;
      if owner == Thread(t) {
        ok := FreeBlock(h, ptr, FreeOf(t));
      } else if owner == PoolOwner {
        ok := FreeBlock(h, ptr, PoolFree);
      } else if owner.Thread? && FreeOf(owner.t) in lists {
        ok := FreeBlock(h, ptr, FreeOf(t));
      } else {
        ok := false;
      }
    }

    /** What the three branches of span_free_blk share: the counter goes up, a suspended span
      * of which all blocks are free moves from its list to the free list to, and the
      * block is pushed. */
    method FreeBlock(h: nat, blk: nat, to: Place) returns (ok: bool)
      requires Valid() && Linked(Abs()) && h in spans && spans[h].blkSize > 0
      modifies this`lists, this`live, this`stale, spans[h]
      ensures Valid() && ok == old(TurnsFree(spans[h].Value()) ==> CanMove(Abs(), h, to))
      ensures ok ==> Abs() == Freed(old(Abs()), h, blk, to)
    {
      hide TurnsFree, Reclaimed, CanMove, Linked;
      assert Abs().spans[h] == spans[h].Value();
      ok := Reclaim(h, to);
      if ok {
        spans[h].Push(blk);
        live := live - {blk};
        OneChanged(h);
      }
    }

    /** The span is counted up and moved if it has to. */
    method Reclaim(h: nat, to: Place) returns (ok: bool)
      requires Valid() && Linked(Abs()) && h in spans && spans[h].blkSize > 0
      modifies this`lists, this`stale, spans[h]
      ensures Valid() && ok == old(TurnsFree(spans[h].Value()) ==> CanMove(Abs(), h, to))
      ensures ok ==> Abs() == Reclaimed(old(Abs()), h, to)
    {
      hide TurnsFree, Incremented, CanMove, Moved, Linked;
      var span := spans[h];
      ghost var s := Abs();
      assert s.spans[h] == span.Value();
      var full := span.CountUp();
      if full {
        OneChanged(h);
        SameIsLinked(s, Abs());
        SameNodes(s, Abs(), h, to);
        ok := Move(h, to);
        if !ok {
          return;
        }
        span.Clear();
      }
      ok := true;
      OneChanged(h);
    }

    /** list_del of the node of span h, and list_add_tail to the list to. */
    method Move(h: nat, to: Place) returns (ok: bool)
      requires Valid() && Linked(Abs()) && h in spans
      modifies this`lists, this`stale
      ensures ok == old(CanMove(Abs(), h, to))
      ensures ok ==> lists == Moved(old(Abs()), h, to).lists && stale == Moved(old(Abs()), h, to).stale
    {
      hide Linked, StaleDel, RingsStay, IsMended, Without;
      assert Abs().spans[h] == spans[h].Value();
      if to !in lists {
        return false;
      }
      var from := if spans[h].owner.Thread? then Suspended(spans[h].owner.t, spans[h].cls) else PoolSuspended(spans[h].cls);
      if from in lists && h in lists[from] {
        lists := lists[from := Without(lists[from], h)];
      } else if h !in stale {
        return false;
      } else {
        ok := LinkNeighbours(stale[h], to);
        if !ok {
          return;
        }
        stale := stale - {h};
      }
      lists := lists[to := lists[to] + [h]];
      ok := true;
    }

    /** __list_del of two nodes that a lost span remembers, when the span goes on to the list
      * to. */
    method LinkNeighbours(l: Links<Node>, to: Place) returns (ok: bool)
      requires Linked(Abs())
      modifies this`lists, this`stale
      ensures ok == old(RingsStay(lists, l) || IsMended(lists, l, to))
      ensures ok ==> lists == StaleDel(old(Abs()), l).lists && stale == StaleDel(old(Abs()), l).stale
    {
      hide Linked, Position, CutAt, Rewritten;
      ghost var s := Abs();
      if !NodeExists(lists, l.prev) || !NodeExists(lists, l.next) {
        return false;
      }
      if pl :| pl in lists && InOrder(lists, pl, l) {
        OneRing(s, pl, RingOf(lists, l), l.prev);
        CutRing(pl, l);
      } else if pl :| pl in lists && OnRing(lists, pl, l.next) {
        return false;
      } else if pl :| pl in lists && OnRing(lists, pl, l.prev) {
        if pl != to || Position(lists[to], to, l.prev) != |lists[to]| {
          OneRingAtMost(s, pl, l.prev);
          return false;
        }
        stale := Rewritten(stale, l);
      } else {
        stale := Rewritten(stale, l);
      }
      ok := true;
    }

    /** The spans between the two nodes are lost, with the links they have. */
    method CutRing(pl: Place, l: Links<Node>)
      requires InOrder(lists, pl, l)
      modifies this`lists, this`stale
      ensures lists == CutAt(old(Abs()), pl, l).lists && stale == CutAt(old(Abs()), pl, l).stale
    {
      var xs := lists[pl];
      lists := lists[pl := Kept(xs, pl, l)];
      stale := stale + LinksOf(xs, pl, CutOut(xs, pl, l));
    }

    /** thread_exit. Each using slot holds at most one span. */
    method ThreadExit(t: nat)
      requires Valid() && Running(Abs(), t) && PoolReady(Abs()) && Known(Abs())
      requires forall c :: 0 <= c < CLASSES ==> |lists[Using(t, c)]| <= 1
      modifies this`lists, spans.Values
      ensures Valid() && Abs() == Exit(old(Abs()), t)
      ensures old(Inv(Abs())) ==> Inv(Abs())
    {
      hide Inv, Holdings, Known, Shelved, Pooled, Exit, Disowned, Running, PoolReady, WithoutThread;
      ghost var s := Abs();
      NoneDisowned(spans, s, t);
      Shelve(t);
      GiveToPool(s, t);
      AllPooled(s, t);
      lists := lists[PoolFree := lists[PoolFree] + lists[FreeOf(t)]];
      lists := WithoutThread(lists, t);
      AllDisowned(spans, s, t);
      assert Abs() == Exit(s, t);
      if Inv(s) {
        SpanSteps.ExitIsSafe(s, t);
      }
    }

    /** The first loop of thread_exit: the used spans are suspended. */
    method Shelve(t: nat)
      requires Running(Abs(), t) && forall c :: 0 <= c < CLASSES ==> |lists[Using(t, c)]| <= 1
      modifies this`lists
      ensures lists == Shelved(old(lists), t, CLASSES)
    {
      hide Shelved;
      NoneShelved(lists, t);
      for i := 0 to CLASSES
        invariant lists == Shelved(old(lists), t, i)
      {
        OneShelved(old(lists), t, i);
        if lists[Using(t, i)] != [] {
          lists := lists[Suspended(t, i) := lists[Suspended(t, i)] + [lists[Using(t, i)][0]]];
        }
      }
    }

    /** The second loop: the suspended spans go to the pool. */
    method GiveToPool(ghost s: Heap, t: nat)
      requires Valid() && Running(s, t) && PoolReady(s) && Known(s) && spans.Keys == s.spans.Keys
      requires lists == Shelved(s.lists, t, CLASSES) && Disowned(spans, s, t, 0)
      modifies this`lists, spans.Values
      ensures Valid() && lists == Pooled(Shelved(s.lists, t, CLASSES), t, CLASSES) && Disowned(spans, s, t, CLASSES)
    {
      hide Holdings, Known, Shelved, Pooled, Disowned;
      ghost var shelved := lists;
      AllShelved(s, t);
      NonePooled(lists, t);
      for i := 0 to CLASSES
        invariant lists == Pooled(shelved, t, i) && Disowned(spans, s, t, i) && spans.Keys == s.spans.Keys
      {
        OnePooled(shelved, t, i);
        HoldingsAreKnown(s, t, i);
        Disown(s, t, i, lists[Suspended(t, i)]);
        lists := lists[PoolSuspended(i) := lists[PoolSuspended(i)] + lists[Suspended(t, i)]];
      }
    }

    /** The loop over the spans of one class in thread_exit. */
    method Disown(ghost s: Heap, ghost t: nat, ghost c: nat, xs: seq<nat>)
      requires Valid() && Running(s, t) && c < CLASSES && Disowned(spans, s, t, c)
      requires xs == Holdings(s, t, c) && forall h :: h in xs ==> h in spans
      modifies spans.Values
      ensures Valid() && Disowned(spans, s, t, c + 1)
    {
      hide Holdings;
      for k := 0 to |xs|
        invariant forall h :: h in spans ==>
          spans[h].Value() == if Held(s, t, c, h) || h in xs[..k] then s.spans[h].(owner := PoolOwner) else s.spans[h]
      {
        assert xs[..k + 1] == xs[..k] + [xs[k]];
        var span := spans[xs[k]];
        span.owner := PoolOwner;
      }
      assert xs[..|xs|] == xs;
    }

    /** If only the header at h has changed, so has only its value. */
    twostate lemma OneChanged(h: nat)
      requires spans == old(spans) && h in spans
      requires forall g :: g in spans && g != h ==> unchanged(spans[g])
      ensures Abs().spans == old(Abs()).spans[h := spans[h].Value()]
    {
    }
  }

  lemma OneRingAtMost(s: Heap, pl: Place, n: Node)
    requires Linked(s) && OnRing(s.lists, pl, n)
    ensures forall ql :: OnRing(s.lists, ql, n) ==> ql == pl
  {
    forall ql | OnRing(s.lists, ql, n)
      ensures ql == pl
    {
      OneRing(s, pl, ql, n);
    }
  }

  /** Only the owner and the class of a header matter for moving its node. */
  lemma SameNodes(s: Heap, r: Heap, h: nat, to: Place)
    requires h in s.spans && h in r.spans && r == s.(spans := s.spans[h := r.spans[h]])
    requires r.spans[h].owner == s.spans[h].owner && r.spans[h].cls == s.spans[h].cls
    ensures CanMove(r, h, to) <==> CanMove(s, h, to)
    ensures CanMove(s, h, to) ==> Moved(r, h, to).lists == Moved(s, h, to).lists && Moved(r, h, to).stale == Moved(s, h, to).stale
  {
    assert IsListed(r, h) <==> IsListed(s, h);
    hide RingsStay, IsMended, Unlinked, IsListed;
    if IsListed(s, h) || h in s.stale {
      SameUnlinked(s, r, h);
    }
  }

  lemma SameIsLinked(s: Heap, r: Heap)
    requires r == s.(spans := r.spans) && r.spans.Keys == s.spans.Keys && Linked(s)
    ensures Linked(r)
  {
    var w :| Placed(s, w);
    SpanSteps.PlacedSame(s, r, w);
  }

  lemma SameUnlinked(s: Heap, r: Heap, h: nat)
    requires h in s.spans && h in r.spans && r == s.(spans := s.spans[h := r.spans[h]])
    requires r.spans[h].owner == s.spans[h].owner && r.spans[h].cls == s.spans[h].cls && (IsListed(s, h) || h in s.stale)
    ensures Unlinked(r, h).lists == Unlinked(s, h).lists && Unlinked(r, h).stale == Unlinked(s, h).stale
  {
    hide StaleDel, Without;
    if h in s.stale {
      SameStale(s, r, s.stale[h]);
    }
  }

  lemma SameStale(s: Heap, r: Heap, l: Links<Node>)
    requires r.lists == s.lists && r.stale == s.stale
    ensures StaleDel(r, l).lists == StaleDel(s, l).lists && StaleDel(r, l).stale == StaleDel(s, l).stale
  {
    hide InOrder, Kept, CutOut, LinksOf;
  }

  // The loops of thread_exit, class by class.

  ghost predicate Held(s: Heap, t: nat, n: nat, h: nat)
    requires Running(s, t) && n <= CLASSES
  {
    exists c :: 0 <= c < n && h in Holdings(s, t, c)
  }

  /** The lists of a thread are gone when it has exited. */
  function WithoutThread(lists: map<Place, seq<nat>>, t: nat): map<Place, seq<nat>> {
    map pl | pl in lists && !OfThread(pl, t) :: lists[pl]
  }

  /** The spans that thread t holds for the first n classes belong to the pool. */
  ghost predicate Disowned(spans: map<nat, SpanRecord>, s: Heap, t: nat, n: nat)
    requires Running(s, t) && n <= CLASSES
    reads spans.Values
  {
    spans.Keys == s.spans.Keys && forall h :: h in spans ==>
      spans[h].Value() == if Held(s, t, n, h) then s.spans[h].(owner := PoolOwner) else s.spans[h]
  }

  lemma NoneDisowned(spans: map<nat, SpanRecord>, s: Heap, t: nat)
    requires Running(s, t) && s.spans == map h | h in spans :: spans[h].Value()
    ensures Disowned(spans, s, t, 0)
  {
  }

  lemma AllDisowned(spans: map<nat, SpanRecord>, s: Heap, t: nat)
    requires Running(s, t) && PoolReady(s) && Disowned(spans, s, t, CLASSES)
    ensures (map h | h in spans :: spans[h].Value()) == Exit(s, t).spans
    ensures Exit(s, t) == s.(lists := Exit(s, t).lists, spans := Exit(s, t).spans)
  {
    hide Holdings;
  }

  /** For the first n classes, the span in the using slot has joined the suspended ones. */
  ghost function Shelved(lists: map<Place, seq<nat>>, t: nat, n: nat): map<Place, seq<nat>> {
    map pl | pl in lists ::
      if pl.Suspended? && pl.t == t && pl.c < n && Using(t, pl.c) in lists then lists[pl] + lists[Using(t, pl.c)] else lists[pl]
  }

  /** For the first n classes, the suspended spans have joined those of the pool. */
  ghost function Pooled(lists: map<Place, seq<nat>>, t: nat, n: nat): map<Place, seq<nat>> {
    map pl | pl in lists ::
      if pl.PoolSuspended? && pl.c < n && Suspended(t, pl.c) in lists then lists[pl] + lists[Suspended(t, pl.c)] else lists[pl]
  }

  lemma NoneShelved(lists: map<Place, seq<nat>>, t: nat)
    ensures Shelved(lists, t, 0) == lists
  {
  }

  lemma NonePooled(lists: map<Place, seq<nat>>, t: nat)
    ensures Pooled(lists, t, 0) == lists
  {
  }

  lemma OneShelved(lists: map<Place, seq<nat>>, t: nat, n: nat)
    requires Using(t, n) in lists && Suspended(t, n) in lists && |lists[Using(t, n)]| <= 1
    ensures var l := Shelved(lists, t, n);
      && l.Keys == lists.Keys && l[Using(t, n)] == lists[Using(t, n)]
      && Shelved(lists, t, n + 1)
         == if l[Using(t, n)] == [] then l else l[Suspended(t, n) := l[Suspended(t, n)] + [l[Using(t, n)][0]]]
  {
    var l := Shelved(lists, t, n);
    var xs := l[Using(t, n)];
    assert xs == if xs == [] then [] else [xs[0]];
    assert l[Suspended(t, n)] + [] == l[Suspended(t, n)];
  }

  lemma AllShelved(s: Heap, t: nat)
    requires Running(s, t)
    ensures var l := Shelved(s.lists, t, CLASSES);
      l.Keys == s.lists.Keys && forall c :: 0 <= c < CLASSES ==> l[Suspended(t, c)] == Holdings(s, t, c)
  {
  }

  lemma OnePooled(lists: map<Place, seq<nat>>, t: nat, n: nat)
    requires PoolSuspended(n) in lists && Suspended(t, n) in lists
    ensures var p := Pooled(lists, t, n);
      && p.Keys == lists.Keys && p[Suspended(t, n)] == lists[Suspended(t, n)]
      && Pooled(lists, t, n + 1) == p[PoolSuspended(n) := p[PoolSuspended(n)] + p[Suspended(t, n)]]
  {
  }

  lemma HoldingsAreKnown(s: Heap, t: nat, c: nat)
    requires Running(s, t) && Known(s) && c < CLASSES
    ensures forall h :: h in Holdings(s, t, c) ==> h in s.spans
  {
  }

  lemma AllPooled(s: Heap, t: nat)
    requires Running(s, t) && PoolReady(s)
    ensures var p := Pooled(Shelved(s.lists, t, CLASSES), t, CLASSES);
      && PoolFree in p && FreeOf(t) in p
      && (var q := p[PoolFree := p[PoolFree] + p[FreeOf(t)]];
          WithoutThread(q, t) == Exit(s, t).lists)
  {
    var p := Pooled(Shelved(s.lists, t, CLASSES), t, CLASSES);
    forall pl | pl in s.lists
      ensures PooledAt(s, t, pl, p)
    {
      AtPlace(s, t, pl);
    }
    hide Shelved, Pooled;
    KeptLists(s, t, p);
  }

  ghost predicate PooledAt(s: Heap, t: nat, pl: Place, p: map<Place, seq<nat>>)
    requires Running(s, t) && pl in s.lists
  {
    pl in p && (!OfThread(pl, t) || pl.FreeOf? ==>
      p[pl] == if pl.PoolSuspended? && pl.c < CLASSES then s.lists[pl] + Holdings(s, t, pl.c) else s.lists[pl])
  }

  lemma AtPlace(s: Heap, t: nat, pl: Place)
    requires Running(s, t) && PoolReady(s) && pl in s.lists
    ensures PooledAt(s, t, pl, Pooled(Shelved(s.lists, t, CLASSES), t, CLASSES))
    ensures Pooled(Shelved(s.lists, t, CLASSES), t, CLASSES).Keys == s.lists.Keys
  {
  }

  lemma KeptLists(s: Heap, t: nat, p: map<Place, seq<nat>>)
    requires Running(s, t) && PoolReady(s) && p.Keys == s.lists.Keys
    requires forall pl :: pl in s.lists ==> PooledAt(s, t, pl, p)
    ensures var q := p[PoolFree := p[PoolFree] + p[FreeOf(t)]];
      WithoutThread(q, t) == Exit(s, t).lists
  {
    hide Holdings;
    assert PooledAt(s, t, FreeOf(t), p) && PooledAt(s, t, PoolFree, p);
    var q := p[PoolFree := p[PoolFree] + p[FreeOf(t)]];
    forall pl | pl in s.lists && !OfThread(pl, t)
      ensures q[pl] == Exit(s, t).lists[pl]
    {
      assert PooledAt(s, t, pl, p);
      assert s.lists[pl] + [] == s.lists[pl];
    }
  }

  lemma NoneEmpty(lists: map<Place, seq<nat>>)
    ensures WithEmpty(lists, {}) == lists
  {
  }

  lemma OneEmpty(lists: map<Place, seq<nat>>, places: set<Place>, pl: Place)
    ensures WithEmpty(lists, places + {pl}) == WithEmpty(lists, places)[pl := []]
  {
  }

  lemma NoWalk(s: Heap, t: nat, c: nat)
    requires Running(s, t) && Known(s) && c < CLASSES
    ensures s.lists[Suspended(t, c)] == [] ==> DropUsable(s, t, c) == s
  {
  }
}
