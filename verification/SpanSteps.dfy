/** What every operation of the span allocator keeps, and when an allocation does not. */
module SpanSteps {
  import opened Sequences
  import opened SizeTables
  import opened SpanSpec
  import opened Rings
  import opened SpanSlots
  import opened SpanInv

  // Lists: moving a span.

  lemma ListsKept(s: Heap, r: Heap)
    requires Lists(s) && r.lists.Keys == s.lists.Keys
    requires forall t, c :: Using(t, c) in r.lists ==> |r.lists[Using(t, c)]| <= 1
    ensures Lists(r)
  {
  }

  lemma PlacedIsKnown(s: Heap, w: map<nat, Place>)
    requires Placed(s, w)
    ensures Known(s)
  {
    forall pl, i | pl in s.lists && 0 <= i < |s.lists[pl]|
      ensures s.lists[pl][i] in s.spans
    {
      assert OnlyHere(s.lists[pl], w, pl) && s.lists[pl][i] in s.lists[pl];
    }
  }

  /** Only the lists and the sets of spans and of lost spans matter for the places. */
  lemma PlacedSame(s: Heap, r: Heap, w: map<nat, Place>)
    requires Placed(s, w) && r.lists == s.lists && s.spans.Keys <= r.spans.Keys && r.stale.Keys <= s.stale.Keys
    ensures Placed(r, w)
  {
  }

  lemma PlacedPop(s: Heap, w: map<nat, Place>, pl: Place)
    requires Placed(s, w) && pl in s.lists && s.lists[pl] != []
    ensures Placed(Pop(s, pl), w - {s.lists[pl][0]}) && s.lists[pl][0] in w && w[s.lists[pl][0]] == pl
    ensures s.lists[pl][0] !in s.stale
  {
    var h := s.lists[pl][0];
    assert OnlyHere(s.lists[pl], w, pl);
    TailDistinct(s.lists[pl]);
    hide Distinct;
    forall ql | ql in s.lists && ql != pl
      ensures h !in s.lists[ql]
    {
      assert OnlyHere(s.lists[ql], w, ql);
    }
  }

  lemma TailDistinct(xs: seq<nat>)
    requires Distinct(xs) && xs != []
    ensures Distinct(xs[1..]) && forall x :: x in xs[1..] <==> x in xs && x != xs[0]
  {
    assert xs == [xs[0]] + xs[1..];
  }

  lemma PlacedAppend(s: Heap, w: map<nat, Place>, pl: Place, h: nat)
    requires Placed(s, w) && pl in s.lists && h !in w && h in s.spans && h !in s.stale
    ensures Placed(Append(s, pl, h), w[h := pl])
  {
    assert OnlyHere(s.lists[pl], w, pl) && Distinct(s.lists[pl]);
  }

  lemma {:induction false} WithoutOne(xs: seq<nat>, h: nat)
    requires Distinct(xs)
    ensures Distinct(Without(xs, h)) && forall x :: x in Without(xs, h) <==> x in xs && x != h
  {
    if xs != [] {
      assert xs == [xs[0]] + xs[1..];
      assert xs[0] !in xs[1..];
      if xs[0] != h {
        WithoutOne(xs[1..], h);
        assert xs[0] !in Without(xs[1..], h);
      }
    }
  }

  lemma PlacedRemove(s: Heap, w: map<nat, Place>, pl: Place, h: nat)
    requires Placed(s, w) && pl in s.lists && h in s.lists[pl]
    ensures Placed(Remove(s, pl, h), w - {h}) && h in w && w[h] == pl && h !in s.stale
  {
    assert OnlyHere(s.lists[pl], w, pl);
    WithoutOne(s.lists[pl], h);
    hide Distinct;
    forall ql | ql in s.lists && ql != pl
      ensures h !in s.lists[ql]
    {
      assert OnlyHere(s.lists[ql], w, ql);
    }
  }

  // Headers and blocks.

  /** The header of h is rewritten, the blocks stay as they are. */
  lemma CountedHeader(s: Heap, r: Heap, h: nat)
    requires Counted(s) && LiveFits(s) && h in s.spans && r.live == s.live
    requires h in r.spans && r.spans == s.spans[h := r.spans[h]] && r.spans[h].state != FREE
    requires Account(h, r.spans[h], s.live)
    requires r.spans[h].blkSize == s.spans[h].blkSize || Outstanding(s.live, h) == {}
    ensures Counted(r) && LiveFits(r)
  {
    hide Account;
    forall b | b in r.live
      ensures GetHeader(b) in r.spans && 0 < r.live[b] <= r.spans[GetHeader(b)].blkSize
    {
      if GetHeader(b) == h {
        assert b in Outstanding(s.live, h);
      }
    }
  }

  lemma RegionSame(s: Heap, r: Heap)
    requires Region(s) && r.spans.Keys == s.spans.Keys
    requires r.start == s.start && r.end == s.end && r.freeStart == s.freeStart
    ensures Region(r)
  {
    assert forall h :: h in s.spans <==> h in r.spans;
  }

  lemma AgreedUpdate(s: Heap, r: Heap, w: map<nat, Place>, h: nat, pl: Place)
    requires Agreed(s, w) && h in r.spans && r.spans == s.spans[h := r.spans[h]] && Agree(pl, r.spans[h])
    ensures Agreed(r, w[h := pl])
  {
    hide Agree;
  }

  /** What is known of a span that has a place. */
  lemma PlacedSpan(s: Heap, w: map<nat, Place>, h: nat)
    requires Sound(s, w) && h in w
    ensures h in s.spans && Agree(w[h], s.spans[h])
    ensures if s.spans[h].state == FREE then Outstanding(s.live, h) == {} else Account(h, s.spans[h], s.live)
  {
    hide Region, Lists, Placed, Account, LiveFits;
  }

  lemma AccountSame(h: nat, sp: Span, tp: Span, live: map<nat, nat>)
    requires Account(h, sp, live)
    requires tp == sp.(owner := tp.owner, state := tp.state)
    ensures Account(h, tp, live)
  {
    var carved: nat :| AccountAt(h, sp, live, carved);
    assert AccountAt(h, tp, live, carved);
  }

  /** span_init opens the books of a span without outstanding blocks. */
  lemma AccountOpens(h: nat, sp: Span, c: nat, live: map<nat, nat>)
    requires c < CLASSES && Outstanding(live, h) == {}
    ensures Account(h, SpanInit(sp, h, c), live) && SpanInit(sp, h, c).freeCnt > 0
  {
    CapacityIsPositive(c);
    var tp := SpanInit(sp, h, c);
    assert forall b :: b in live && GetHeader(b) == h ==> b in Outstanding(live, h);
    assert AccountAt(h, tp, live, 0);
  }

  // Retire.

  lemma RetireKeeps(s: Heap, w: map<nat, Place>, t: nat, c: nat, h: nat)
    requires Sound(s, w) && Running(s, t) && Known(s) && c < CLASSES && s.lists[Using(t, c)] == [h] && h in s.spans
    ensures h in w && w[h] == Using(t, c)
    ensures Sound(Retire(s, t, c, h), w[h := Suspended(t, c)])
  {
    hide Region, Lists, Placed, Agreed, Counted, LiveFits, Account;
    var r := Retire(s, t, c, h);
    RetirePlaces(s, w, t, c, h);
    PlacedSpan(s, w, h);
    AgreedUpdate(s, r, w, h, Suspended(t, c));
    AccountSame(h, s.spans[h], r.spans[h], s.live);
    CountedHeader(s, r, h);
    RegionSame(s, r);
    UsingSlots(s);
    ListsKept(s, r);
  }

  lemma UsingSlots(s: Heap)
    requires Lists(s)
    ensures forall t, c :: Using(t, c) in s.lists ==> |s.lists[Using(t, c)]| <= 1
  {
  }

  lemma RetirePlaces(s: Heap, w: map<nat, Place>, t: nat, c: nat, h: nat)
    requires Placed(s, w) && Running(s, t) && Known(s) && c < CLASSES && s.lists[Using(t, c)] == [h] && h in s.spans
    ensures h in w && w[h] == Using(t, c)
    ensures Placed(Retire(s, t, c, h), w[h := Suspended(t, c)])
  {
    hide Placed, Known;
    var pl, ql := Using(t, c), Suspended(t, c);
    PlacedPop(s, w, pl);
    var m := Pop(s, pl);
    PlacedAppend(m, w - {h}, ql, h);
    var r := Append(m, ql, h);
    assert (w - {h})[h := ql] == w[h := ql];
    assert [h][1..] == [];
    PlacedSame(r, Retire(s, t, c, h), w[h := ql]);
  }

  // The walk over the suspended spans.

  /** No suspended span of the class has a free block. */
  ghost predicate NoneUsable(s: Heap, t: nat, c: nat)
    requires Running(s, t) && Known(s) && c < CLASSES
  {
    forall i :: 0 <= i < |s.lists[Suspended(t, c)]| ==> s.spans[s.lists[Suspended(t, c)][i]].freeCnt == 0
  }

  lemma AgreedLess(s: Heap, w: map<nat, Place>, gone: set<nat>)
    requires Agreed(s, w)
    ensures Agreed(s, w - gone)
  {
    hide Agree;
  }

  /** The walk does nothing, or it takes the first suspended span with a free block out of its
    * list and so out of every list. */
  lemma DropKeeps(s: Heap, w: map<nat, Place>, t: nat, c: nat) returns (lost: set<nat>)
    requires Sound(s, w) && Running(s, t) && Known(s) && c < CLASSES
    ensures NoneUsable(s, t, c) ==> lost == {} && DropUsable(s, t, c) == s
    ensures !NoneUsable(s, t, c) ==>
              var xs := s.lists[Suspended(t, c)];
              var i := FirstUsable(s, xs);
              i < |xs| && lost == {xs[i]} && xs[i] in w && w[xs[i]] == Suspended(t, c)
    ensures Sound(DropUsable(s, t, c), w - lost) && DropUsable(s, t, c).stale.Keys == s.stale.Keys + lost
    ensures forall pl :: pl in s.lists && pl != Suspended(t, c) ==> DropUsable(s, t, c).lists[pl] == s.lists[pl]
  {
    hide Sound;
    var xs := s.lists[Suspended(t, c)];
    var i := FirstUsable(s, xs);
    if i < |xs| {
      lost := {xs[i]};
      RemoveKeeps(s, w, Suspended(t, c), xs[i]);
      LoseKeeps(Remove(s, Suspended(t, c), xs[i]), w - lost, xs[i], LinksAt(xs, Suspended(t, c), i));
      assert !NoneUsable(s, t, c);
    } else {
      lost := {};
      assert w - lost == w;
    }
  }

  /** Taking a span out of a list takes it out of every list. */
  lemma RemoveKeeps(s: Heap, w: map<nat, Place>, pl: Place, h: nat)
    requires Sound(s, w) && pl in s.lists && h in s.lists[pl] && !pl.Using?
    ensures h in w && w[h] == pl && Sound(Remove(s, pl, h), w - {h}) && h in s.spans && h !in s.stale
  {
    hide Region, Lists, Placed, Agreed, Counted, LiveFits, Without;
    var r := Remove(s, pl, h);
    PlacedRemove(s, w, pl, h);
    SpanKnown(s, w, h);
    AgreedLess(s, w, {h});
    RegionSame(s, r);
    UsingSlots(s);
    ListsKept(s, r);
    SameSpans(s, r);
  }

  /** A span without a place may be lost. */
  lemma LoseKeeps(s: Heap, w: map<nat, Place>, h: nat, l: Links<Node>)
    requires Sound(s, w) && h in s.spans && h !in w
    ensures Sound(s.(stale := s.stale[h := l]), w)
  {
    var r := s.(stale := s.stale[h := l]);
    assert Placed(r, w);
    hide Region, Lists, Placed, Agreed, Counted, LiveFits;
    RegionSame(s, r);
    UsingSlots(s);
    ListsKept(s, r);
    SameSpans(s, r);
  }

  lemma SameSpans(s: Heap, r: Heap)
    requires r.spans == s.spans && r.live == s.live
    ensures Counted(s) ==> Counted(r)
    ensures LiveFits(s) ==> LiveFits(r)
    ensures forall w :: Agreed(s, w) ==> Agreed(r, w)
  {
    hide Account, Agree;
  }

  // Fetching a span.

  /** A span on its way from one place to another: its books are open for class c. */
  ghost predicate Loose(s: Heap, w: map<nat, Place>, h: nat, c: nat) {
    && Sound(s, w) && h !in w && h in s.spans && h !in s.stale
    && s.spans[h].cls == c && Account(h, s.spans[h], s.live)
  }

  /** A FREE span is popped from a list and initialised. */
  lemma PopFree(s: Heap, w: map<nat, Place>, pl: Place, c: nat)
    requires Sound(s, w) && pl in s.lists && s.lists[pl] != [] && c < CLASSES
    requires pl.FreeOf? || pl.PoolFree?
    ensures var h := s.lists[pl][0];
      && h in w && h in s.spans
      && Loose(Pop(s, pl).(spans := s.spans[h := SpanInit(s.spans[h], h, c)]), w - {h}, h, c)
      && SpanInit(s.spans[h], h, c).freeCnt > 0
  {
    hide Region, Lists, Placed, Agreed, Counted, LiveFits, Account, SpanInit;
    var h := s.lists[pl][0];
    PlacedPop(s, w, pl);
    PlacedSpan(s, w, h);
    var m := Pop(s, pl);
    var r := m.(spans := s.spans[h := SpanInit(s.spans[h], h, c)]);
    PlacedSame(m, r, w - {h});
    AccountOpens(h, s.spans[h], c, s.live);
    AgreedAway(s, r, w, h);
    InitKeepsFree(s.spans[h], h, c);
    CountedFree(s, r, h);
    RegionSame(s, r);
    UsingSlots(s);
    ListsKept(s, r);
  }

  lemma AgreedAway(s: Heap, r: Heap, w: map<nat, Place>, h: nat)
    requires Agreed(s, w) && h in r.spans && r.spans == s.spans[h := r.spans[h]]
    ensures Agreed(r, w - {h})
  {
    hide Agree;
  }

  lemma InitKeepsFree(sp: Span, h: nat, c: nat)
    requires c < CLASSES
    ensures SpanInit(sp, h, c).state == sp.state && SpanInit(sp, h, c).cls == c
  {
  }

  lemma CountedFree(s: Heap, r: Heap, h: nat)
    requires Counted(s) && LiveFits(s) && h in s.spans && r.live == s.live
    requires h in r.spans && r.spans == s.spans[h := r.spans[h]] && r.spans[h].state == FREE
    requires Outstanding(s.live, h) == {}
    ensures Counted(r) && LiveFits(r)
  {
    hide Account;
    forall b | b in r.live
      ensures GetHeader(b) in r.spans && 0 < r.live[b] <= r.spans[GetHeader(b)].blkSize
    {
      assert GetHeader(b) == h ==> b in Outstanding(s.live, h);
    }
  }

  /** A suspended span is popped from the pool as it is. */
  lemma PopSuspended(s: Heap, w: map<nat, Place>, c: nat)
    requires Sound(s, w) && PoolSuspended(c) in s.lists && s.lists[PoolSuspended(c)] != []
    ensures var h := s.lists[PoolSuspended(c)][0];
      h in w && w[h] == PoolSuspended(c) && Loose(Pop(s, PoolSuspended(c)), w - {h}, h, c)
  {
    hide Region, Lists, Placed, Agreed, Counted, LiveFits, Account;
    var pl := PoolSuspended(c);
    var h := s.lists[pl][0];
    var r := Pop(s, pl);
    PlacedPop(s, w, pl);
    PlacedSpan(s, w, h);
    SameSpans(s, r);
    AgreedLess(s, w, {h});
    RegionSame(s, r);
    UsingSlots(s);
    ListsKept(s, r);
  }

  /** A new span is carved; the pool may have grown before. */
  lemma CarveKeeps(s: Heap, w: map<nat, Place>, c: nat)
    requires Sound(s, w) && c < CLASSES && s.freeStart + SPAN <= s.end
    ensures s.freeStart !in s.spans
    ensures Loose(Carve(s, c), w, s.freeStart, c)
    ensures Carve(s, c).spans[s.freeStart].freeCnt > 0
  {
    var h, r := s.freeStart, Carve(s, c);
    CarvedRegion(s, c);
    NothingOutstanding(s, h);
    hide Region, Lists, Placed, Agreed, Counted, LiveFits, Account, SpanInit;
    PlacedIsOld(s, w);
    PlacedSame(s, r, w);
    AccountOpens(h, RAW, c, s.live);
    InitKeepsFree(RAW, h, c);
    AgreedAway(s, r, w, h);
    assert w - {h} == w;
    CountedNew(s, r, h);
    UsingSlots(s);
    ListsKept(s, r);
  }

  lemma CarvedRegion(s: Heap, c: nat)
    requires Region(s) && c < CLASSES && s.freeStart + SPAN <= s.end
    ensures s.freeStart !in s.spans && Region(Carve(s, c))
  {
    hide SpanInit;
    var r := Carve(s, c);
    forall h
      ensures h in r.spans <==> r.start <= h < r.freeStart && h % SPAN == 0
    {
      if s.freeStart < h && h % SPAN == 0 {
        AlignedAreApart(s.freeStart, h);
      }
    }
  }

  lemma NothingOutstanding(s: Heap, h: nat)
    requires LiveFits(s) && h !in s.spans
    ensures Outstanding(s.live, h) == {}
  {
  }

  lemma PlacedIsOld(s: Heap, w: map<nat, Place>)
    requires Placed(s, w)
    ensures w.Keys <= s.spans.Keys && s.stale.Keys <= s.spans.Keys
  {
  }

  lemma CountedNew(s: Heap, r: Heap, h: nat)
    requires Counted(s) && LiveFits(s) && h !in s.spans && r.live == s.live
    requires h in r.spans && r.spans == s.spans[h := r.spans[h]] && Account(h, r.spans[h], s.live) && r.spans[h].state != FREE
    ensures Counted(r) && LiveFits(r)
  {
    hide Account;
  }

  lemma GrownIsSound(s: Heap, w: map<nat, Place>)
    requires Sound(s, w)
    ensures Sound(s.(end := s.end + UNIT), w)
    ensures s.freeStart + SPAN <= s.end + UNIT
  {
    var r := s.(end := s.end + UNIT);
    hide Counted, LiveFits, Agreed, Placed, Lists;
    assert Region(r);
    SameSpans(s, r);
    hide Region;
    PlacedSame(s, r, w);
    UsingSlots(s);
    ListsKept(s, r);
  }

  /** The first suspended span of the pool, if acquire_span would take it, has a block. */
  ghost predicate PoolHeadUsable(s: Heap, c: nat)
    requires PoolReady(s) && Known(s) && c < CLASSES
  {
    s.lists[PoolSuspended(c)] != [] ==> s.spans[s.lists[PoolSuspended(c)][0]].freeCnt > 0
  }

  /** The sources of the pool that always have a block. */
  lemma AcquireFreshKeeps(s: Heap, w: map<nat, Place>, c: nat, contiguous: bool)
    requires Sound(s, w) && PoolReady(s) && Known(s) && c < CLASSES && AcquireFresh(s, c, contiguous).Some?
    ensures var (r, h) := AcquireFresh(s, c, contiguous).value;
      && Loose(r, w - {h}, h, c) && r.spans.Keys == s.spans.Keys + {h} && r.live == s.live && r.stale == s.stale
      && r.spans[h].freeCnt > 0
      && (h in w ==> w[h] == PoolFree) && (h in w || h !in s.spans)
      && (forall pl :: pl in s.lists && !pl.PoolSuspended? && !pl.PoolFree? ==> r.lists[pl] == s.lists[pl])
  {
    hide Sound, Loose, SpanInit;
    if s.lists[PoolFree] != [] {
      PopFree(s, w, PoolFree, c);
      PopPlace(s, w, PoolFree);
    } else {
      var g := if s.freeStart + SPAN <= s.end then s else s.(end := s.end + UNIT);
      if s.freeStart + SPAN > s.end {
        GrownIsSound(s, w);
      }
      CarveKeeps(g, w, c);
      assert w - {s.freeStart} == w by {
        LooseIsNew(Carve(g, c), w, s.freeStart, c);
      }
    }
  }

  lemma AcquireKeeps(s: Heap, w: map<nat, Place>, c: nat, contiguous: bool)
    requires Sound(s, w) && PoolReady(s) && Known(s) && c < CLASSES && Acquire(s, c, contiguous).Some?
    ensures var (r, h) := Acquire(s, c, contiguous).value;
      && Loose(r, w - {h}, h, c) && r.spans.Keys == s.spans.Keys + {h} && r.live == s.live && r.stale == s.stale
      && (r.spans[h].freeCnt > 0 <==> PoolHeadUsable(s, c))
      && (h in w ==> w[h] == PoolSuspended(c) || w[h] == PoolFree) && (h in w || h !in s.spans)
      && (forall pl :: pl in s.lists && !pl.PoolSuspended? && !pl.PoolFree? ==> r.lists[pl] == s.lists[pl])
  {
    hide Sound, Loose, AcquireFresh;
    if s.lists[PoolSuspended(c)] != [] {
      PopSuspended(s, w, c);
    } else {
      AcquireFreshKeeps(s, w, c, contiguous);
    }
  }

  lemma PopPlace(s: Heap, w: map<nat, Place>, pl: Place)
    requires Sound(s, w) && pl in s.lists && s.lists[pl] != []
    ensures s.lists[pl][0] in w && w[s.lists[pl][0]] == pl
  {
    hide Region, Lists, Agreed, Counted, LiveFits;
    PlacedPop(s, w, pl);
  }

  lemma LooseIsNew(s: Heap, w: map<nat, Place>, h: nat, c: nat)
    requires Loose(s, w, h, c)
    ensures h !in w
  {
  }

  /** What Fetch takes has a free block unless it is the pool's first suspended span. */
  ghost predicate FetchUsable(s: Heap, t: nat, c: nat)
    requires Running(s, t) && PoolReady(s) && Known(s) && c < CLASSES
  {
    s.lists[FreeOf(t)] == [] ==> PoolHeadUsable(s, c)
  }

  lemma FetchKeeps(s: Heap, w: map<nat, Place>, t: nat, c: nat, contiguous: bool)
    requires Sound(s, w) && Running(s, t) && PoolReady(s) && Known(s) && c < CLASSES && Fetch(s, t, c, contiguous).Some?
    ensures var (r, h) := Fetch(s, t, c, contiguous).value;
      && Loose(r, w - {h}, h, c) && r.spans.Keys == s.spans.Keys + {h} && r.live == s.live && r.stale == s.stale
      && (r.spans[h].freeCnt > 0 <==> FetchUsable(s, t, c))
      && (h in w ==> !w[h].Suspended?) && (h in w || h !in s.spans)
      && (forall d :: Using(t, d) in s.lists ==> r.lists[Using(t, d)] == s.lists[Using(t, d)])
  {
    hide Sound, Loose, SpanInit, Acquire;
    if s.lists[FreeOf(t)] != [] {
      PopFree(s, w, FreeOf(t), c);
      PopPlace(s, w, FreeOf(t));
    } else {
      AcquireKeeps(s, w, c, contiguous);
    }
  }

  // Installing it.

  lemma InstallKeeps(s: Heap, w: map<nat, Place>, t: nat, c: nat, h: nat)
    requires Loose(s, w, h, c) && Using(t, c) in s.lists && s.lists[Using(t, c)] == []
    ensures Sound(Install(s, t, c, h), w[h := Using(t, c)])
    ensures Install(s, t, c, h).spans[h].freeCnt == s.spans[h].freeCnt
  {
    var r := Install(s, t, c, h);
    hide Region, Lists, Placed, Agreed, Counted, LiveFits, Account;
    PlacedAppend(s, w, Using(t, c), h);
    assert [] + [h] == [h];
    var m := Append(s, Using(t, c), h);
    PlacedSame(m, r, w[h := Using(t, c)]);
    AgreedUpdate(s, r, w, h, Using(t, c));
    AccountSame(h, s.spans[h], r.spans[h], s.live);
    CountedHeader(s, r, h);
    RegionSame(s, r);
    UsingSlots(s);
    ListsKept(s, r);
  }

  // Handing out a block.

  lemma HandOutKeeps(s: Heap, w: map<nat, Place>, h: nat, sz: nat)
    requires Sound(s, w) && h in s.spans && s.spans[h].state != FREE && s.spans[h].freeCnt > 0
    requires 0 < sz <= s.spans[h].blkSize
    ensures var (r, b) := HandOut(s, h, sz);
      && Sound(r, w) && b !in s.live && GetHeader(b) == h
      && r.live == s.live[b := sz] && r.spans.Keys == s.spans.Keys && r.stale == s.stale
  {
    var (r, b) := HandOut(s, h, sz);
    AlignedSpan(s, h);
    hide Region, Lists, Placed, Agreed, LiveFits;
    assert Account(h, s.spans[h], s.live);
    AccountTakes(h, s.spans[h], s.live, sz);
    hide Counted, Account;
    CountedTake(s, h, b, sz);
    RegionSame(s, r);
    PlacedSame(s, r, w);
    AgreedTake(s, r, w, h);
    UsingSlots(s);
    ListsKept(s, r);
  }

  lemma AlignedSpan(s: Heap, h: nat)
    requires Region(s) && h in s.spans
    ensures h % SPAN == 0
  {
  }

  lemma AgreedTake(s: Heap, r: Heap, w: map<nat, Place>, h: nat)
    requires Agreed(s, w) && h in s.spans && h in r.spans && r.spans == s.spans[h := r.spans[h]]
    requires r.spans[h].owner == s.spans[h].owner && r.spans[h].cls == s.spans[h].cls && r.spans[h].state == s.spans[h].state
    ensures Agreed(r, w)
  {
  }

  /** Taking a block from a span that has one. */
  lemma AccountTakes(h: nat, sp: Span, live: map<nat, nat>, sz: nat)
    requires h % SPAN == 0 && Account(h, sp, live) && sp.freeCnt > 0
    ensures var (tp, b) := GetBlk(sp);
      && b !in live && GetHeader(b) == h && Account(h, tp, live[b := sz])
      && tp.blkSize == sp.blkSize && tp.state == sp.state && tp.owner == sp.owner && tp.cls == sp.cls
  {
    var carved: nat :| AccountAt(h, sp, live, carved);
    var (tp, b) := GetBlk(sp);
    var more := live[b := sz];
    if sp.blkList != [] {
      TakeListed(h, sp, live, carved, sz);
      assert AccountAt(h, tp, more, carved);
    } else {
      TakeFresh(h, sp, live, carved, sz);
      assert AccountAt(h, tp, more, carved + 1);
    }
  }

  lemma TakeListed(h: nat, sp: Span, live: map<nat, nat>, carved: nat, sz: nat)
    requires h % SPAN == 0 && sp.blkSize > 0 && AccountAt(h, sp, live, carved) && sp.blkList != []
    ensures var (tp, b) := GetBlk(sp);
      b !in live && GetHeader(b) == h && tp.blkSize == sp.blkSize && AccountAt(h, tp, live[b := sz], carved)
  {
    var (tp, b) := GetBlk(sp);
    assert sp.blkList == [b] + tp.blkList;
    assert IsSlot(h, sp.blkSize, carved, b);
    var j: nat :| j < carved && b == Slot(h, sp.blkSize, j);
    HeaderOfSlot(h, sp.blkSize, j);
    OneMore(live, h, b, sz);
    hide IsSlot;
  }

  lemma TakeFresh(h: nat, sp: Span, live: map<nat, nat>, carved: nat, sz: nat)
    requires h % SPAN == 0 && sp.blkSize > 0 && AccountAt(h, sp, live, carved) && sp.blkList == [] && sp.freeCnt > 0
    ensures var (tp, b) := GetBlk(sp);
      b !in live && GetHeader(b) == h && tp.blkSize == sp.blkSize && AccountAt(h, tp, live[b := sz], carved + 1)
  {
    var (tp, b) := GetBlk(sp);
    HeaderOfSlot(h, sp.blkSize, carved);
    if b in live {
      assert IsSlot(h, sp.blkSize, carved, b);
      var j: nat :| j < carved && b == Slot(h, sp.blkSize, j);
      SlotIsInjective(h, sp.blkSize, j, carved);
    }
    NextSlot(h, sp.blkSize, carved);
    OneMore(live, h, b, sz);
    forall x | x in live[b := sz] && GetHeader(x) == h
      ensures IsSlot(h, sp.blkSize, carved + 1, x)
    {
      if x != b {
        assert IsSlot(h, sp.blkSize, carved, x);
      }
    }
  }

  lemma NextSlot(h: nat, blkSize: nat, j: nat)
    ensures Slot(h, blkSize, j) + blkSize == Slot(h, blkSize, j + 1)
  {
  }

  lemma OneMore(live: map<nat, nat>, h: nat, b: nat, sz: nat)
    requires b !in live && GetHeader(b) == h
    ensures |Outstanding(live[b := sz], h)| == |Outstanding(live, h)| + 1
  {
    assert Outstanding(live[b := sz], h) == Outstanding(live, h) + {b};
  }

  /** A block that comes or goes does not touch the books of another span. */
  lemma OtherSpan(live: map<nat, nat>, more: map<nat, nat>, h: nat, sp: Span, b: nat)
    requires h % SPAN == 0 && GetHeader(b) != h
    requires forall x :: x != b ==> (x in live <==> x in more)
    ensures Outstanding(more, h) == Outstanding(live, h)
    ensures Account(h, sp, live) ==> Account(h, sp, more)
  {
    assert Outstanding(more, h) == Outstanding(live, h);
    if Account(h, sp, live) {
      var carved: nat :| AccountAt(h, sp, live, carved);
      forall x | x in sp.blkList
        ensures x !in more
      {
        assert IsSlot(h, sp.blkSize, carved, x);
        var j: nat :| j < carved && x == Slot(h, sp.blkSize, j);
        HeaderOfSlot(h, sp.blkSize, j);
      }
      hide IsSlot;
      assert AccountAt(h, sp, more, carved);
    }
  }

  /** One span hands out block b. */
  lemma CountedTake(s: Heap, h: nat, b: nat, sz: nat)
    requires Region(s) && Counted(s) && LiveFits(s) && h in s.spans && s.spans[h].state != FREE
    requires b == GetBlk(s.spans[h]).1 && GetHeader(b) == h && 0 < sz <= s.spans[h].blkSize
    requires Account(h, GetBlk(s.spans[h]).0, s.live[b := sz])
    requires GetBlk(s.spans[h]).0.blkSize == s.spans[h].blkSize && GetBlk(s.spans[h]).0.state == s.spans[h].state
    ensures Counted(HandOut(s, h, sz).0) && LiveFits(HandOut(s, h, sz).0)
  {
    hide Account, GetBlk;
    var r := HandOut(s, h, sz).0;
    forall g | g in r.spans
      ensures if r.spans[g].state == FREE then Outstanding(r.live, g) == {} else Account(g, r.spans[g], r.live)
    {
      if g != h {
        OtherSpan(s.live, r.live, g, s.spans[g], b);
      }
    }
  }

  // Which allocations keep the invariant.

  // An allocation goes wrong in exactly two branches, each of which can be told from the
  // lists beforehand.

  /** The span that gives the block has one: the pool's first suspended span is not taken
    * unless it does. */
  ghost predicate HasBlock(s: Heap, t: nat, c: nat)
    requires Running(s, t) && PoolReady(s) && Known(s) && c < CLASSES
  {
    NeedsSpan(s, t, c) ==> FetchUsable(s, t, c)
  }

  /** The walk does not find, and lose, a suspended span with a free block. */
  ghost predicate LosesNone(s: Heap, t: nat, c: nat)
    requires Running(s, t) && PoolReady(s) && Known(s) && c < CLASSES
  {
    NeedsSpan(s, t, c) ==> NoneUsable(s, t, c)
  }

  ghost predicate Guard(s: Heap, t: nat, c: nat)
    requires Running(s, t) && PoolReady(s) && Known(s) && c < CLASSES
  {
    HasBlock(s, t, c) && LosesNone(s, t, c)
  }

  lemma DropChangesNoFetch(s: Heap, t: nat, c: nat)
    requires Running(s, t) && PoolReady(s) && Known(s) && c < CLASSES
    ensures var d := DropUsable(s, t, c);
      PoolReady(d) && Running(d, t) && d.live == s.live && (FetchUsable(d, t, c) <==> FetchUsable(s, t, c))
  {
    hide FirstUsable, Without;
  }

  /** Replacing the span of an empty using slot. */
  lemma ReplaceKeeps(s: Heap, w: map<nat, Place>, t: nat, c: nat, contiguous: bool) returns (v: map<nat, Place>)
    requires Sound(s, w) && Running(s, t) && PoolReady(s) && Known(s) && c < CLASSES
    requires s.lists[Using(t, c)] == [] && Replace(s, t, c, contiguous).Some?
    ensures var r := Replace(s, t, c, contiguous).value;
      && Sound(r, v) && r.live == s.live
      && Using(t, c) in r.lists && |r.lists[Using(t, c)]| == 1
      && (var h := r.lists[Using(t, c)][0];
          && h in r.spans && r.spans[h].state == IN_USE && r.spans[h].cls == c
          && (r.spans[h].freeCnt > 0 <==> FetchUsable(s, t, c)))
      && (w.Keys == s.spans.Keys ==> (v.Keys == r.spans.Keys <==> NoneUsable(s, t, c)))
      && (Complete(s, w) ==> Complete(r, v))
  {
    hide Sound, Loose, NoneUsable, FetchUsable, DropUsable, Complete, Fetch, Install;
    var lost := DropKeeps(s, w, t, c);
    DropChangesNoFetch(s, t, c);
    var d := DropUsable(s, t, c);
    var h := FetchedIsInstalled(d, w - lost, t, c, contiguous);
    v := (w - lost - {h})[h := Using(t, c)];
    LostAreApart(s, w);
    KeysAfter(s.spans.Keys, w.Keys, lost, h, v.Keys);
    if Complete(s, w) {
      StaysComplete(s, w, Replace(s, t, c, contiguous).value, v, lost, h);
    }
  }

  lemma FetchedIsInstalled(d: Heap, w: map<nat, Place>, t: nat, c: nat, contiguous: bool) returns (h: nat)
    requires Sound(d, w) && Running(d, t) && PoolReady(d) && Known(d) && c < CLASSES
    requires d.lists[Using(t, c)] == [] && Fetch(d, t, c, contiguous).Some?
    ensures h == Fetch(d, t, c, contiguous).value.1 && (h in w || h !in d.spans)
    ensures var r := Install(Fetch(d, t, c, contiguous).value.0, t, c, h);
      && Sound(r, (w - {h})[h := Using(t, c)]) && r.live == d.live && r.stale == d.stale && r.spans.Keys == d.spans.Keys + {h}
      && Using(t, c) in r.lists && r.lists[Using(t, c)] == [h]
      && h in r.spans && r.spans[h].state == IN_USE && r.spans[h].cls == c
      && (r.spans[h].freeCnt > 0 <==> FetchUsable(d, t, c))
  {
    hide Sound, Loose, FetchUsable, Fetch;
    FetchKeeps(d, w, t, c, contiguous);
    var (e, g) := Fetch(d, t, c, contiguous).value;
    h := g;
    SoundLoose(e, w - {h}, h, c);
    InstallKeeps(e, w - {h}, t, c, h);
  }

  lemma StaysComplete(s: Heap, w: map<nat, Place>, r: Heap, v: map<nat, Place>, lost: set<nat>, h: nat)
    requires Complete(s, w) && r.spans.Keys == s.spans.Keys + {h} && r.stale.Keys == s.stale.Keys + lost
    requires v.Keys == w.Keys - lost - {h} + {h}
    ensures Complete(r, v)
  {
  }

  lemma KeysAfter(spans: set<nat>, placed: set<nat>, lost: set<nat>, h: nat, after: set<nat>)
    requires lost <= placed <= spans && (h in placed - lost || h !in spans)
    requires after == placed - lost - {h} + {h}
    ensures after <= spans + {h}
    ensures placed == spans ==> (after == spans + {h} <==> lost == {})
  {
    if placed == spans && lost != {} {
      var x :| x in lost;
      assert x !in after;
    }
  }

  lemma SoundLoose(s: Heap, w: map<nat, Place>, h: nat, c: nat)
    requires Loose(s, w, h, c)
    ensures Sound(s, w) && h in s.spans && s.spans[h].cls == c && w.Keys <= s.spans.Keys
  {
    hide Region, Lists, Agreed, Counted, LiveFits;
    PlacedIsOld(s, w);
  }

  lemma RetireChangesNoGuard(s: Heap, w: map<nat, Place>, t: nat, c: nat, h: nat)
    requires Sound(s, w) && Running(s, t) && PoolReady(s) && Known(s) && c < CLASSES
    requires s.lists[Using(t, c)] == [h] && h in s.spans && s.spans[h].freeCnt == 0
    ensures var r := Retire(s, t, c, h);
      && Running(r, t) && PoolReady(r) && Known(r)
      && (NoneUsable(r, t, c) <==> NoneUsable(s, t, c)) && (FetchUsable(r, t, c) <==> FetchUsable(s, t, c))
  {
    hide Sound;
    var r := Retire(s, t, c, h);
    var xs, ys := s.lists[Suspended(t, c)], r.lists[Suspended(t, c)];
    assert ys == xs + [h];
    assert forall g :: g in s.spans ==> r.spans[g].freeCnt == s.spans[g].freeCnt;
    if NoneUsable(r, t, c) {
      forall i | 0 <= i < |xs|
        ensures s.spans[xs[i]].freeCnt == 0
      {
        assert ys[i] == xs[i];
      }
    }
  }

  lemma SoundReady(s: Heap, w: map<nat, Place>)
    requires Sound(s, w)
    ensures PoolReady(s) && Known(s)
    ensures forall t, c :: Using(t, c) in s.lists ==> |s.lists[Using(t, c)]| <= 1
  {
    hide Region, Agreed, Counted, LiveFits;
    PlacedIsKnown(s, w);
  }

  lemma UsingSpan(s: Heap, w: map<nat, Place>, t: nat, c: nat)
    requires Sound(s, w) && Using(t, c) in s.lists && s.lists[Using(t, c)] != []
    ensures var h := s.lists[Using(t, c)][0]; h in s.spans && s.spans[h].state == IN_USE && s.spans[h].cls == c
  {
    hide Region, Lists, Counted, LiveFits;
    PlacedPop(s, w, Using(t, c));
  }

  /** The state in which the block is taken. */
  lemma PreparedKeeps(s: Heap, w: map<nat, Place>, t: nat, c: nat, contiguous: bool) returns (v: map<nat, Place>)
    requires Sound(s, w)
    requires Running(s, t) && PoolReady(s) && Known(s) && c < CLASSES && Prepared(s, t, c, contiguous).Some?
    ensures var r := Prepared(s, t, c, contiguous).value;
      && Sound(r, v) && r.live == s.live && (Complete(s, w) ==> Complete(r, v))
      && Using(t, c) in r.lists && |r.lists[Using(t, c)]| == 1
      && (var h := r.lists[Using(t, c)][0];
          && h in r.spans && r.spans[h].state == IN_USE && r.spans[h].cls == c
          && (HasBlock(s, t, c) <==> r.spans[h].freeCnt > 0))
      && (w.Keys == s.spans.Keys ==> (v.Keys == r.spans.Keys <==> LosesNone(s, t, c)))
  {
    hide Sound, NoneUsable, FetchUsable, Replace;
    SoundReady(s, w);
    if s.lists[Using(t, c)] == [] {
      v := ReplaceKeeps(s, w, t, c, contiguous);
    } else {
      var h := s.lists[Using(t, c)][0];
      assert s.lists[Using(t, c)] == [h];
      UsingSpan(s, w, t, c);
      if s.spans[h].freeCnt == 0 {
        RetireKeeps(s, w, t, c, h);
        RetireChangesNoGuard(s, w, t, c, h);
        v := ReplaceKeeps(Retire(s, t, c, h), w[h := Suspended(t, c)], t, c, contiguous);
      } else {
        v := w;
      }
    }
  }

  /** From a span without a free block get_blk takes what lies behind its last slot: the
    * block sticks out of the span, and the counter wraps around. */
  lemma HandOutOverruns(s: Heap, w: map<nat, Place>, h: nat, sz: nat)
    requires Sound(s, w) && h in s.spans && s.spans[h].state != FREE && s.spans[h].freeCnt == 0
    ensures var (r, b) := HandOut(s, h, sz);
      b + s.spans[h].blkSize > h + SPAN && r.spans[h].freeCnt == 0xffff_ffff && !Safe(r)
  {
    hide Region, Lists, Placed, Agreed, LiveFits, Safe, Slot, Capacity, IsSlot, Cls2Size, GetHeader;
    var (r, b) := HandOut(s, h, sz);
    var sp, tp := s.spans[h], r.spans[h];
    assert Account(h, sp, s.live);
    var cap := Capacity(sp.blkSize);
    var carved: nat :| AccountAt(h, sp, s.live, carved);
    NoSlotBehindLast(h, sp.blkSize);
    NextSlot(h, sp.blkSize, cap);
    assert carved == cap && tp.freeBlk == Slot(h, sp.blkSize, cap + 1);
    hide Counted;
    if Safe(r) {
      BlocksAreCounted(r, h);
      var n: nat :| n <= cap && tp.freeBlk == Slot(h, sp.blkSize, n);
      SlotIsInjective(h, sp.blkSize, n, cap + 1);
    }
  }

  lemma SoundIsInv(s: Heap, w: map<nat, Place>)
    requires Sound(s, w) && Complete(s, w)
    ensures Safe(s)
    ensures w.Keys == s.spans.Keys ==> Inv(s)
  {
    hide Sound;
  }

  lemma HandOutKeepsExactly(s: Heap, w: map<nat, Place>, h: nat, sz: nat)
    requires Sound(s, w) && Complete(s, w)
    requires h in s.spans && s.spans[h].state == IN_USE && 0 < sz <= s.spans[h].blkSize
    ensures var (r, b) := HandOut(s, h, sz);
      && (Safe(r) <==> s.spans[h].freeCnt > 0)
      && (Inv(r) <==> w.Keys == s.spans.Keys && s.spans[h].freeCnt > 0)
      && (if s.spans[h].freeCnt > 0 then b !in s.live && r.live == s.live[b := sz] else b + s.spans[h].blkSize > h + SPAN)
      && h in r.spans && r.lists == s.lists
  {
    hide Sound, GetBlk, Inv, Safe;
    var (r, b) := HandOut(s, h, sz);
    if s.spans[h].freeCnt > 0 {
      HandOutKeeps(s, w, h, sz);
      SoundIsInv(r, w);
      LostAreApart(s, w);
      if w.Keys != s.spans.Keys {
        var x :| x in s.spans && x !in w;
        SoundIsPlaced(r, w);
        LostSpan(r, w, x);
      }
    } else {
      HandOutOverruns(s, w, h, sz);
      if Inv(r) {
        InvIsSafe(r);
      }
    }
  }

  /** What an allocation does to a state in which w places the spans. */
  lemma MallocKeeps(s: Heap, w: map<nat, Place>, t: nat, sz: nat, contiguous: bool)
    requires Sound(s, w) && Complete(s, w) && Running(s, t) && PoolReady(s) && Known(s) && 0 < sz <= MAX_SMALL
    requires Malloc(s, t, sz, contiguous).Some?
    ensures Size2Cls(sz) < CLASSES
    ensures var (r, b) := Malloc(s, t, sz, contiguous).value;
      var c := Size2Cls(sz);
      && (Safe(r) <==> HasBlock(s, t, c))
      && (w.Keys == s.spans.Keys ==> (Inv(r) <==> Guard(s, t, c)))
      && (if HasBlock(s, t, c) then b !in s.live && r.live == s.live[b := sz] else SticksOut(r, t, c, b))
  {
    Size2ClsFits(sz);
    var c := Size2Cls(sz);
    hide Sound, HasBlock, LosesNone, Prepared, HandOut, Size2Cls, Cls2Size, Inv, Safe;
    var v := PreparedKeeps(s, w, t, c, contiguous);
    var r := Prepared(s, t, c, contiguous).value;
    var h := r.lists[Using(t, c)][0];
    BlockSize(r, v, h);
    HandOutKeepsExactly(r, v, h, sz);
  }

  /** Block b ends behind the span in the using slot. */
  ghost predicate SticksOut(s: Heap, t: nat, c: nat, b: nat) {
    && Using(t, c) in s.lists && |s.lists[Using(t, c)]| == 1 && c < CLASSES
    && b + Cls2Size(c) > s.lists[Using(t, c)][0] + SPAN
  }

  /** The exact condition: an allocation keeps the invariant if and only if it takes
    * neither of the two branches that go wrong. */
  lemma MallocKeepsExactly(s: Heap, t: nat, sz: nat, contiguous: bool)
    requires Inv(s) && Running(s, t) && PoolReady(s) && Known(s) && 0 < sz <= MAX_SMALL
    requires Malloc(s, t, sz, contiguous).Some?
    ensures Size2Cls(sz) < CLASSES
    ensures Inv(Malloc(s, t, sz, contiguous).value.0) <==> Guard(s, t, Size2Cls(sz))
  {
    var w :| Sound(s, w) && w.Keys == s.spans.Keys;
    hide Sound, Inv, Safe, Malloc, Guard, HasBlock, Size2Cls, Cls2Size;
    MallocKeeps(s, w, t, sz, contiguous);
  }

  /** Block safety, which does not mind a lost span, is kept if and only if the span that
    * gives the block has one. If it has, the block was not outstanding and it is the only one
    * that becomes so; if it has not, the block sticks out of its span. */
  lemma MallocIsSafeExactly(s: Heap, t: nat, sz: nat, contiguous: bool)
    requires Safe(s) && Running(s, t) && PoolReady(s) && Known(s) && 0 < sz <= MAX_SMALL
    requires Malloc(s, t, sz, contiguous).Some?
    ensures Size2Cls(sz) < CLASSES
    ensures var (r, b) := Malloc(s, t, sz, contiguous).value;
      var c := Size2Cls(sz);
      && (Safe(r) <==> HasBlock(s, t, c))
      && (if HasBlock(s, t, c) then b !in s.live && r.live == s.live[b := sz]
          else SticksOut(r, t, c, b))
  {
    var w :| Sound(s, w) && Complete(s, w);
    hide Sound, Inv, Safe, Malloc, Guard, HasBlock, Size2Cls, Cls2Size;
    MallocKeeps(s, w, t, sz, contiguous);
  }

  lemma BlockSize(s: Heap, w: map<nat, Place>, h: nat)
    requires Sound(s, w) && h in s.spans && s.spans[h].state != FREE
    ensures s.spans[h].cls < CLASSES && s.spans[h].blkSize == Cls2Size(s.spans[h].cls)
  {
    hide Region, Lists, Placed, Agreed, LiveFits;
    assert Account(h, s.spans[h], s.live);
  }

  lemma SoundIsPlaced(s: Heap, w: map<nat, Place>)
    requires Sound(s, w)
    ensures Placed(s, w)
  {
    hide Region, Lists, Placed, Agreed, Counted, LiveFits;
  }

  // Freeing.

  lemma OneLess(live: map<nat, nat>, h: nat, b: nat)
    requires b in live && GetHeader(b) == h
    ensures |Outstanding(live - {b}, h)| == |Outstanding(live, h)| - 1
  {
    assert Outstanding(live - {b}, h) == Outstanding(live, h) - {b};
  }

  /** A block comes back to its span. */
  lemma AccountGives(h: nat, sp: Span, live: map<nat, nat>, b: nat)
    requires Account(h, sp, live) && b in live && GetHeader(b) == h
    ensures Incremented(sp.freeCnt) == sp.freeCnt + 1
    ensures Account(h, sp.(freeCnt := sp.freeCnt + 1, blkList := [b] + sp.blkList), live - {b})
    ensures sp.freeCnt + 1 == Capacity(sp.blkSize) <==> Outstanding(live - {b}, h) == {}
  {
    var carved: nat :| AccountAt(h, sp, live, carved);
    var tp := sp.(freeCnt := sp.freeCnt + 1, blkList := [b] + sp.blkList);
    hide IsSlot;
    OneLess(live, h, b);
    CapacityIsSmall(sp.blkSize);
    hide Capacity;
    assert b !in sp.blkList;
    assert AccountAt(h, tp, live - {b}, carved);
  }

  /** The counter is a 32-bit number: a block that is taken and comes back leaves it as it was, also
    * across its two ends. */
  lemma CounterGoesRound(cnt: nat)
    requires cnt < 0x1_0000_0000
    ensures Incremented(Decremented(cnt)) == cnt == Decremented(Incremented(cnt))
    ensures Decremented(cnt) < 0x1_0000_0000 && (Decremented(cnt) > cnt <==> cnt == 0)
  {
  }

  lemma CapacityIsSmall(blkSize: nat)
    requires blkSize > 0
    ensures Capacity(blkSize) <= DATA
  {
  }

  /** What a valid free finds. */
  lemma FreeReady(s: Heap, w: map<nat, Place>, b: nat)
    requires Sound(s, w) && b in s.live
    ensures var h := GetHeader(b);
      h in s.spans && s.spans[h].state != FREE && s.spans[h].blkSize > 0 && Account(h, s.spans[h], s.live)
  {
    var h := GetHeader(b);
    HeaderKnown(s, b);
    assert b in Outstanding(s.live, h);
    hide Region, Lists, Placed, Agreed, LiveFits, Account;
    AccountSize(h, s.spans[h], s.live);
  }

  lemma HeaderKnown(s: Heap, b: nat)
    requires LiveFits(s) && b in s.live
    ensures GetHeader(b) in s.spans
  {
  }

  lemma AccountSize(h: nat, sp: Span, live: map<nat, nat>)
    requires Account(h, sp, live)
    ensures sp.cls < CLASSES && sp.blkSize == Cls2Size(sp.cls) && sp.blkSize > 0
  {
  }

  /** A span takes back a block and may turn FREE. */
  lemma CountedGive(s: Heap, r: Heap, h: nat, b: nat)
    requires Region(s) && Counted(s) && LiveFits(s) && h in s.spans && b in s.live && GetHeader(b) == h
    requires h in r.spans && r.spans == s.spans[h := r.spans[h]] && r.live == s.live - {b}
    requires r.spans[h].blkSize == s.spans[h].blkSize
    requires if r.spans[h].state == FREE then Outstanding(r.live, h) == {} else Account(h, r.spans[h], r.live)
    ensures Counted(r) && LiveFits(r)
  {
    hide Account;
    forall g | g in r.spans
      ensures if r.spans[g].state == FREE then Outstanding(r.live, g) == {} else Account(g, r.spans[g], r.live)
    {
      if g != h {
        OtherSpan(s.live, r.live, g, s.spans[g], b);
      }
    }
  }

  /** A free that goes well keeps the places, but that the span may move and that a lost span
    * may take others out of their list. */
  lemma FreeKeeps(s: Heap, w: map<nat, Place>, t: nat, b: nat) returns (v: map<nat, Place>)
    requires Sound(s, w) && b in s.live
    requires GetHeader(b) in s.spans && s.spans[GetHeader(b)].blkSize > 0 && Free(s, t, b).Some?
    ensures var r := Free(s, t, b).value;
      && Sound(r, v) && r.live == s.live - {b} && r.spans.Keys == s.spans.Keys
      && (Complete(s, w) ==> Complete(r, v))
    ensures w.Keys == s.spans.Keys ==>
              v == if TurnsFree(s.spans[GetHeader(b)]) then w[GetHeader(b) := FreeList(s.spans[GetHeader(b)], t)] else w
  {
    hide Sound, TurnsFree, GetHeader, Freed;
    if TurnsFree(s.spans[GetHeader(b)]) {
      v := FreeMoves(s, w, t, b);
    } else {
      v := w;
      FreeStays(s, w, t, b);
    }
  }

  lemma FreeStays(s: Heap, w: map<nat, Place>, t: nat, b: nat)
    requires Sound(s, w) && b in s.live
    requires GetHeader(b) in s.spans && s.spans[GetHeader(b)].blkSize > 0 && !TurnsFree(s.spans[GetHeader(b)])
    ensures var h := GetHeader(b);
      var r := Freed(s, h, b, FreeList(s.spans[h], t));
      Sound(r, w) && r.live == s.live - {b} && r.spans.Keys == s.spans.Keys && r.stale == s.stale
  {
    hide Region, Lists, Placed, Agreed, Counted, LiveFits, Account, Capacity;
    var h := GetHeader(b);
    var r := Freed(s, h, b, FreeList(s.spans[h], t));
    FreeReady(s, w, b);
    AccountGives(h, s.spans[h], s.live, b);
    CountedGive(s, r, h, b);
    RegionSame(s, r);
    PlacedSame(s, r, w);
    AgreedTake(s, r, w, h);
    UsingSlots(s);
    ListsKept(s, r);
  }

  lemma FreeMoves(s: Heap, w: map<nat, Place>, t: nat, b: nat) returns (v: map<nat, Place>)
    requires Sound(s, w) && b in s.live
    requires GetHeader(b) in s.spans && s.spans[GetHeader(b)].blkSize > 0 && TurnsFree(s.spans[GetHeader(b)])
    requires CanMove(s, GetHeader(b), FreeList(s.spans[GetHeader(b)], t))
    ensures var h := GetHeader(b);
      var to := FreeList(s.spans[h], t);
      var r := Freed(s, h, b, to);
      && Sound(r, v) && r.live == s.live - {b} && r.spans.Keys == s.spans.Keys
      && (Complete(s, w) ==> Complete(r, v))
      && (w.Keys == s.spans.Keys ==> v == w[h := to])
  {
    hide Region, Lists, Placed, Agreed, Counted, LiveFits, Account, Capacity, Unlinked, IsListed, RingsStay, IsMended;
    var h := GetHeader(b);
    var to := FreeList(s.spans[h], t);
    FreeReady(s, w, b);
    var u := UnlinkKeeps(s, w, h);
    var m := Unlinked(s, h);
    v := u[h := to];
    PlacedAppend(m, u, to, h);
    AccountGives(h, s.spans[h], s.live, b);
    MovedIsSound(s, m, u, Append(m, to, h), Freed(s, h, b, to), h, to, b);
  }

  /** list_del of a span that turns FREE. */
  lemma UnlinkKeeps(s: Heap, w: map<nat, Place>, h: nat) returns (u: map<nat, Place>)
    requires Sound(s, w) && h in s.spans && (IsListed(s, h) || h in s.stale)
    ensures var m := Unlinked(s, h);
      && Sound(m, u) && h !in u && h !in m.stale
      && m == s.(lists := m.lists, stale := m.stale) && m.lists.Keys == s.lists.Keys
      && (Complete(s, w) ==> forall g :: g in s.spans && g != h ==> g in u || g in m.stale)
      && (w.Keys == s.spans.Keys ==> u == w - {h})
  {
    hide Sound, StaleDel;
    LostAreApart(s, w);
    if IsListed(s, h) {
      u := w - {h};
      RemoveKeeps(s, w, SuspendList(s.spans[h]), h);
    } else {
      u := StaleDelKeeps(s, w, s.stale[h]);
      ForgetKeeps(StaleDel(s, s.stale[h]), u, h);
      LostAreApart(StaleDel(s, s.stale[h]), u);
    }
  }

  lemma ForgetKeeps(s: Heap, w: map<nat, Place>, h: nat)
    requires Sound(s, w)
    ensures Sound(s.(stale := s.stale - {h}), w)
  {
    hide Region, Lists, Placed, Agreed, Counted, LiveFits;
    var r := s.(stale := s.stale - {h});
    RegionSame(s, r);
    PlacedSame(s, r, w);
    UsingSlots(s);
    ListsKept(s, r);
    SameSpans(s, r);
  }

  /** Linking two nodes to each other: whatever it takes out of a list is lost. */
  lemma StaleDelKeeps(s: Heap, w: map<nat, Place>, l: Links<Node>) returns (u: map<nat, Place>)
    requires Sound(s, w)
    ensures var m := StaleDel(s, l);
      && Sound(m, u) && u.Keys <= w.Keys && m.stale.Keys == s.stale.Keys + (w.Keys - u.Keys)
      && m == s.(lists := m.lists, stale := m.stale) && m.lists.Keys == s.lists.Keys
  {
    hide Sound, InOrder, CutAt, Rewritten;
    if exists pl :: InOrder(s.lists, pl, l) {
      u := CutKeeps(s, w, RingOf(s.lists, l), l);
    } else {
      u := w;
      RewriteKeeps(s, w, Rewritten(s.stale, l));
    }
  }

  lemma RewriteKeeps(s: Heap, w: map<nat, Place>, stale: map<nat, Links<Node>>)
    requires Sound(s, w) && stale.Keys == s.stale.Keys
    ensures Sound(s.(stale := stale), w)
  {
    hide Region, Lists, Placed, Agreed, Counted, LiveFits;
    var r := s.(stale := stale);
    RegionSame(s, r);
    PlacedSame(s, r, w);
    UsingSlots(s);
    ListsKept(s, r);
    SameSpans(s, r);
  }

  lemma CutKeeps(s: Heap, w: map<nat, Place>, pl: Place, l: Links<Node>) returns (u: map<nat, Place>)
    requires Sound(s, w) && InOrder(s.lists, pl, l)
    ensures var m := CutAt(s, pl, l);
      && Sound(m, u) && u.Keys <= w.Keys && m.stale.Keys == s.stale.Keys + (w.Keys - u.Keys)
      && m == s.(lists := m.lists, stale := m.stale) && m.lists.Keys == s.lists.Keys
  {
    hide Region, Lists, Agreed, Counted, LiveFits, Placed, LinksAt;
    var m := CutAt(s, pl, l);
    u := CutPlaces(s, w, pl, l);
    var gone := w.Keys - u.Keys;
    assert u == w - gone;
    AgreedLess(s, w, gone);
    RegionSame(s, m);
    UsingSlots(s);
    ListsKept(s, m);
    SameSpans(s, m);
  }

  /** A sequence is cut into what is kept and what is cut out. */
  lemma CutApart(xs: seq<nat>, a: nat, b: nat)
    requires Distinct(xs) && a <= b <= |xs|
    ensures Distinct(xs[..a] + xs[b..])
    ensures forall x :: x in xs <==> x in xs[..a] + xs[b..] || x in xs[a..b]
    ensures forall x :: x in xs[..a] + xs[b..] ==> x !in xs[a..b]
  {
    var kept, cut := xs[..a] + xs[b..], xs[a..b];
    assert forall i :: 0 <= i < |kept| ==> kept[i] == xs[if i < a then i else i - a + b];
    forall x | x in xs
      ensures x in kept || x in cut
    {
      var i :| 0 <= i < |xs| && xs[i] == x;
      if a <= i < b {
        assert cut[i - a] == x;
      } else {
        assert kept[if i < a then i else i + a - b] == x;
      }
    }
  }

  lemma KeptAndCut(xs: seq<nat>, pl: Place, l: Links<Node>)
    requires Distinct(xs) && Position(xs, pl, l.prev) < GoesOnAt(xs, pl, l.next) <= |xs| + 1
    ensures Distinct(Kept(xs, pl, l))
    ensures forall x :: x in xs <==> x in Kept(xs, pl, l) || x in CutOut(xs, pl, l)
    ensures forall x :: x in Kept(xs, pl, l) ==> x !in CutOut(xs, pl, l)
  {
    hide Distinct;
    CutApart(xs, Position(xs, pl, l.prev), GoesOnAt(xs, pl, l.next) - 1);
  }

  lemma CutPlaces(s: Heap, w: map<nat, Place>, pl: Place, l: Links<Node>) returns (u: map<nat, Place>)
    requires Placed(s, w) && InOrder(s.lists, pl, l)
    ensures var m := CutAt(s, pl, l);
      Placed(m, u) && u.Keys <= w.Keys && u == w - (w.Keys - u.Keys) && m.stale.Keys == s.stale.Keys + (w.Keys - u.Keys)
  {
    hide Placed, Position, LinksAt, Kept, CutOut, CutAt, Distinct;
    var xs := s.lists[pl];
    ListIsPlaced(s, w, pl);
    KeptAndCut(xs, pl, l);
    CutParts(s, pl, l);
    var gone := set x | x in CutOut(xs, pl, l);
    u := w - gone;
    assert w.Keys - u.Keys == gone;
    PartIsPlaced(s, CutAt(s, pl, l), w, pl, gone);
  }

  lemma CutParts(s: Heap, pl: Place, l: Links<Node>)
    requires InOrder(s.lists, pl, l) && forall x :: x in CutOut(s.lists[pl], pl, l) ==> x in s.lists[pl]
    ensures var m := CutAt(s, pl, l);
      && m == s.(lists := s.lists[pl := Kept(s.lists[pl], pl, l)], stale := m.stale)
      && m.stale.Keys == s.stale.Keys + set x | x in CutOut(s.lists[pl], pl, l)
  {
    hide LinksAt, Position, Kept, CutOut;
    assert forall x :: x in CutOut(s.lists[pl], pl, l) ==> IndexOf(s.lists[pl], x) < |s.lists[pl]|;
  }

  /** The list of pl keeps its spans but for those in gone, which are lost. */
  lemma PartIsPlaced(s: Heap, m: Heap, w: map<nat, Place>, pl: Place, gone: set<nat>)
    requires Placed(s, w) && pl in s.lists && pl in m.lists
    requires m.spans == s.spans && m.lists == s.lists[pl := m.lists[pl]] && m.stale.Keys == s.stale.Keys + gone
    requires Distinct(m.lists[pl]) && forall x :: x in s.lists[pl] <==> x in m.lists[pl] || x in gone
    requires forall x :: x in m.lists[pl] ==> x !in gone
    ensures Placed(m, w - gone)
  {
    var u := w - gone;
    ListIsPlaced(s, w, pl);
    forall ql | ql in m.lists
      ensures Distinct(m.lists[ql]) && OnlyHere(m.lists[ql], u, ql)
    {
      ListIsPlaced(s, w, ql);
    }
    hide Distinct;
  }

  lemma ListedIsPlaced(s: Heap, w: map<nat, Place>, pl: Place, h: nat)
    requires Placed(s, w) && pl in s.lists && h in s.lists[pl]
    ensures h in w && w[h] == pl
  {
    assert OnlyHere(s.lists[pl], w, pl);
  }

  /** The state m, in which the span has been unlinked, gets it in a free list. */
  lemma MovedIsSound(s: Heap, m: Heap, u: map<nat, Place>, a: Heap, r: Heap, h: nat, to: Place, b: nat)
    requires Sound(m, u) && h !in u && h in m.spans && b in m.live && GetHeader(b) == h
    requires m == s.(lists := m.lists, stale := m.stale) && to in m.lists && (to.FreeOf? || to.PoolFree?)
    requires a == Append(m, to, h) && Placed(a, u[h := to])
    requires r == a.(spans := r.spans, live := m.live - {b})
    requires h in r.spans && r.spans == m.spans[h := r.spans[h]] && r.spans[h].blkSize == m.spans[h].blkSize
    requires r.spans[h].state == FREE && Outstanding(r.live, h) == {}
    ensures Sound(r, u[h := to])
  {
    hide Region, Lists, Placed, Agreed, Counted, LiveFits, Account;
    PlacedSame(a, r, u[h := to]);
    AgreedUpdate(m, r, u, h, to);
    CountedGive(m, r, h, b);
    RegionSame(m, r);
    UsingSlots(m);
    ListsKept(m, r);
  }

  /** The free does not turn a span of a thread FREE for a thread that has not started. */
  predicate FreeGuard(s: Heap, t: nat, h: nat)
    requires h in s.spans && s.spans[h].blkSize > 0
  {
    Running(s, t) || s.spans[h].owner == PoolOwner || !TurnsFree(s.spans[h])
  }

  /** When no span is lost, the lock is there and a span that turns FREE is linked: only the
    * free list of the thread may be missing. */
  lemma FreeFindsSpan(s: Heap, w: map<nat, Place>, t: nat, h: nat)
    requires Sound(s, w) && h in w && h in s.spans && s.spans[h].state != FREE && s.spans[h].blkSize > 0
    ensures FreeGoesWell(s, t, h) <==> FreeGuard(s, t, h)
  {
    PlacedSpan(s, w, h);
    SpanIsListed(s, w, h);
    OwnerRuns(s, w[h]);
    hide Region, Lists, Placed, Agreed, Counted, LiveFits, Account, Running;
    SoundReady(s, w);
    NoThreadNoList(s, t);
    var sp := s.spans[h];
    if sp.owner.Thread? {
      NoThreadNoList(s, sp.owner.t);
    }
    assert TurnsFree(sp) ==> w[h] == SuspendList(sp);
  }

  lemma OwnerRuns(s: Heap, pl: Place)
    requires Lists(s) && pl in s.lists
    ensures pl.Using? || pl.Suspended? ==> Running(s, pl.t)
  {
  }

  lemma NoThreadNoList(s: Heap, t: nat)
    requires Lists(s)
    ensures FreeOf(t) in s.lists <==> Running(s, t)
  {
  }

  lemma FreeKeepsPlaced(s: Heap, w: map<nat, Place>, t: nat, b: nat)
    requires Sound(s, w) && w.Keys == s.spans.Keys && b in s.live
    ensures var h := GetHeader(b);
      && h in s.spans && s.spans[h].blkSize > 0
      && (Free(s, t, b).Some? <==> FreeGuard(s, t, h))
      && (FreeGuard(s, t, h) ==> Inv(Free(s, t, b).value) && Free(s, t, b).value.live == s.live - {b})
  {
    hide Sound, FreeGoesWell, FreeGuard, GetHeader, TurnsFree, Freed, Inv, Safe, FreeList, Account;
    FreeReady(s, w, b);
    FreeFindsSpan(s, w, t, GetHeader(b));
    if FreeGuard(s, t, GetHeader(b)) {
      var v := FreeKeeps(s, w, t, b);
      assert v.Keys == w.Keys;
      SoundIsInv(Free(s, t, b).value, v);
    }
  }

  /** wl_free of an outstanding block, whoever owns the span and whichever thread frees, also
    * one that has not allocated yet: it goes well, and keeps the invariant, if and only if it
    * is guarded. */
  lemma FreeKeepsExactly(s: Heap, t: nat, b: nat)
    requires Inv(s) && b in s.live
    ensures var h := GetHeader(b);
      && h in s.spans && s.spans[h].blkSize > 0
      && (Free(s, t, b).Some? <==> FreeGuard(s, t, h))
      && (FreeGuard(s, t, h) ==> Inv(Free(s, t, b).value) && Free(s, t, b).value.live == s.live - {b})
  {
    hide Sound, FreeGuard, GetHeader, Free;
    var w :| Sound(s, w) && w.Keys == s.spans.Keys;
    FreeKeepsPlaced(s, w, t, b);
  }

  /** Block safety is kept by every free that goes well, also of a block of a lost span. */
  lemma FreeIsSafe(s: Heap, t: nat, b: nat)
    requires Safe(s) && b in s.live
    ensures var h := GetHeader(b);
      && h in s.spans && s.spans[h].blkSize > 0
      && (Free(s, t, b).Some? <==> FreeGoesWell(s, t, h))
      && (FreeGoesWell(s, t, h) ==> Safe(Free(s, t, b).value) && Free(s, t, b).value.live == s.live - {b})
  {
    var w :| Sound(s, w) && Complete(s, w);
    hide Sound, FreeGoesWell, GetHeader, TurnsFree, Freed, Safe;
    FreeReady(s, w, b);
    if FreeGoesWell(s, t, GetHeader(b)) {
      var v := FreeKeeps(s, w, t, b);
      SoundIsInv(Free(s, t, b).value, v);
    }
  }

  /** The span is linked in a list of the pool: the free list, or the suspend list of its
    * class with all its blocks free. */
  ghost predicate InPool(s: Heap, h: nat, free: bool) {
    && PoolReady(s) && h in s.spans && s.spans[h].cls < CLASSES && s.spans[h].blkSize > 0
    && (h in s.lists[PoolFree] <==> free)
    && (!free ==> h in s.lists[PoolSuspended(s.spans[h].cls)] && s.spans[h].state == IN_USE
                  && s.spans[h].freeCnt == Capacity(s.spans[h].blkSize))
  }

  /** A span of the pool whose last outstanding block is freed reaches the pool's free list if
    * and only if it was suspended. One that was still in use when its thread exited stays in
    * the suspend list, with a full counter, whoever frees. */
  lemma PoolSpanIsFreedExactly(s: Heap, t: nat, b: nat)
    requires Inv(s) && b in s.live && GetHeader(b) in s.spans && s.spans[GetHeader(b)].owner == PoolOwner
    requires Outstanding(s.live, GetHeader(b)) == {b}
    ensures s.spans[GetHeader(b)].blkSize > 0 && Free(s, t, b).Some?
    ensures InPool(Free(s, t, b).value, GetHeader(b), s.spans[GetHeader(b)].state == SUSPEND)
  {
    hide Sound, FreeGuard, GetHeader, Free, InPool;
    FreeKeepsExactly(s, t, b);
    assert FreeGuard(s, t, GetHeader(b)) by {
      GuardOfPool(s, t, GetHeader(b));
    }
    var w :| Sound(s, w) && w.Keys == s.spans.Keys;
    PoolSpanIsFreed(s, w, t, b);
  }

  lemma GuardOfPool(s: Heap, t: nat, h: nat)
    requires h in s.spans && s.spans[h].blkSize > 0 && s.spans[h].owner == PoolOwner
    ensures FreeGuard(s, t, h)
  {
  }

  lemma PoolSpanIsFreed(s: Heap, w: map<nat, Place>, t: nat, b: nat)
    requires Sound(s, w) && w.Keys == s.spans.Keys
    requires b in s.live && GetHeader(b) in s.spans && s.spans[GetHeader(b)].owner == PoolOwner
    requires s.spans[GetHeader(b)].blkSize > 0 && Free(s, t, b).Some?
    requires Outstanding(s.live, GetHeader(b)) == {b}
    ensures InPool(Free(s, t, b).value, GetHeader(b), s.spans[GetHeader(b)].state == SUSPEND)
  {
    hide Sound, GetHeader, Capacity, Freed, Agree, Account, PoolReady;
    var h := GetHeader(b);
    FreeReady(s, w, b);
    PoolSpan(s, w, h);
    AccountGives(h, s.spans[h], s.live, b);
    assert Outstanding(s.live - {b}, h) == {};
    AccountSize(h, s.spans[h], s.live);
    var v := FreeKeeps(s, w, t, b);
    FreedHeader(s, h, b, FreeList(s.spans[h], t));
    Listed(Free(s, t, b).value, v, h);
  }

  lemma PoolSpan(s: Heap, w: map<nat, Place>, h: nat)
    requires Sound(s, w) && h in w && h in s.spans && s.spans[h].owner == PoolOwner && s.spans[h].state != FREE
    ensures w[h] == PoolSuspended(s.spans[h].cls) && (s.spans[h].state == IN_USE || s.spans[h].state == SUSPEND)
  {
    hide Region, Lists, Placed, Counted, LiveFits;
  }

  lemma FreedHeader(s: Heap, h: nat, b: nat, to: Place)
    requires h in s.spans && s.spans[h].blkSize > 0
    requires TurnsFree(s.spans[h]) ==> CanMove(s, h, to)
    ensures var sp := Freed(s, h, b, to).spans[h];
      && sp.blkSize == s.spans[h].blkSize && sp.cls == s.spans[h].cls && sp.freeCnt == Incremented(s.spans[h].freeCnt)
      && sp.state == if TurnsFree(s.spans[h]) then FREE else s.spans[h].state
  {
    hide Capacity;
  }

  /** A span is in the list that w says, and in the pool's free list if and only if w says
    * so. */
  lemma Listed(s: Heap, w: map<nat, Place>, h: nat)
    requires Sound(s, w) && h in w
    ensures w[h] in s.lists && h in s.lists[w[h]] && PoolReady(s) && PoolFree in s.lists
    ensures h in s.lists[PoolFree] <==> w[h] == PoolFree
  {
    SoundReady(s, w);
    hide Region, Lists, Agreed, Counted, LiveFits;
    SpanIsListed(s, w, h);
    if h in s.lists[PoolFree] {
      ListedIsPlaced(s, w, PoolFree, h);
    }
  }

  lemma SpanKnown(s: Heap, w: map<nat, Place>, h: nat)
    requires Placed(s, w) && h in w
    ensures h in s.spans
  {
  }

  lemma SpanIsListed(s: Heap, w: map<nat, Place>, h: nat)
    requires Placed(s, w) && h in w
    ensures w[h] in s.lists && h in s.lists[w[h]]
  {
  }

  // Threads.

  lemma StartKeeps(s: Heap, w: map<nat, Place>, t: nat)
    requires Sound(s, w) && FreeOf(t) !in s.lists
    ensures Sound(Start(s, t), w) && Running(Start(s, t), t)
  {
    var r := Start(s, t);
    SameSpans(s, r);
    RegionSame(s, r);
    StartedLists(s, t);
    StartedPlaces(s, w, t);
  }

  /** A thread that starts keeps the invariant, and block safety. */
  lemma StartIsSafe(s: Heap, t: nat)
    requires FreeOf(t) !in s.lists
    ensures Inv(s) ==> Inv(Start(s, t))
    ensures Safe(s) ==> Safe(Start(s, t)) && Running(Start(s, t), t)
  {
    hide Sound, Running, WithEmpty;
    if Inv(s) {
      var w :| Sound(s, w) && w.Keys == s.spans.Keys;
      StartKeeps(s, w, t);
    }
    if Safe(s) {
      var w :| Sound(s, w) && Complete(s, w);
      StartKeeps(s, w, t);
    }
  }

  /** A thread that is not running has no list at all. */
  lemma NoListOf(s: Heap, t: nat, pl: Place)
    requires Lists(s) && FreeOf(t) !in s.lists && OfThread(pl, t)
    ensures pl !in s.lists
  {
  }

  lemma StartedLists(s: Heap, t: nat)
    requires Lists(s) && FreeOf(t) !in s.lists
    ensures Lists(Start(s, t)) && Running(Start(s, t), t)
  {
    var r := Start(s, t);
    forall pl | pl in r.lists
      ensures match pl
        case Using(u, c) => c < CLASSES && Running(r, u) && |r.lists[pl]| <= 1
        case Suspended(u, c) => c < CLASSES && Running(r, u)
        case FreeOf(u) => Running(r, u)
        case PoolSuspended(c) => c < CLASSES
        case PoolFree => true
    {
      if !OfThread(pl, t) {
        assert pl in s.lists;
      }
    }
  }

  lemma StartedPlaces(s: Heap, w: map<nat, Place>, t: nat)
    requires Lists(s) && Placed(s, w) && FreeOf(t) !in s.lists
    ensures Placed(Start(s, t), w)
  {
    var r := Start(s, t);
    forall pl | pl in s.lists
      ensures pl in r.lists && r.lists[pl] == s.lists[pl]
    {
      if OfThread(pl, t) {
        NoListOf(s, t, pl);
      }
    }
    forall pl | pl in r.lists
      ensures Distinct(r.lists[pl]) && OnlyHere(r.lists[pl], w, pl)
    {
      if pl !in s.lists {
        assert r.lists[pl] == [];
      }
    }
  }

  /** Where a span goes when thread t exits. */
  function Leave(pl: Place, t: nat): Place {
    match pl
    case Using(u, c) => if u == t then PoolSuspended(c) else pl
    case Suspended(u, c) => if u == t then PoolSuspended(c) else pl
    case FreeOf(u) => if u == t then PoolFree else pl
    case _ => pl
  }

  ghost function Left(w: map<nat, Place>, t: nat): map<nat, Place> {
    map h | h in w :: Leave(w[h], t)
  }

  lemma ExitLists(s: Heap, t: nat)
    requires Lists(s) && Running(s, t)
    ensures Lists(Exit(s, t))
  {
    var r := Exit(s, t);
    forall pl | pl in r.lists
      ensures match pl
        case Using(u, c) => c < CLASSES && Running(r, u) && |r.lists[pl]| <= 1
        case Suspended(u, c) => c < CLASSES && Running(r, u)
        case FreeOf(u) => Running(r, u)
        case PoolSuspended(c) => c < CLASSES
        case PoolFree => true
    {
      assert pl in s.lists && !OfThread(pl, t);
    }
  }

  /** What thread t holds for a class is what w places there. */
  lemma HoldingsPlaced(s: Heap, w: map<nat, Place>, t: nat, c: nat)
    requires Placed(s, w) && Running(s, t) && c < CLASSES
    ensures Distinct(Holdings(s, t, c))
    ensures forall h :: h in Holdings(s, t, c) <==> h in w && (w[h] == Suspended(t, c) || w[h] == Using(t, c))
  {
    var xs, ys := s.lists[Suspended(t, c)], s.lists[Using(t, c)];
    assert Distinct(xs) && OnlyHere(xs, w, Suspended(t, c)) && Distinct(ys) && OnlyHere(ys, w, Using(t, c));
    JoinedDistinct(xs, ys);
  }

  lemma JoinedDistinct(xs: seq<nat>, ys: seq<nat>)
    requires Distinct(xs) && Distinct(ys) && forall x :: x in xs ==> x !in ys
    ensures Distinct(xs + ys)
  {
    var zs := xs + ys;
    forall i, j | 0 <= i < j < |zs|
      ensures zs[i] != zs[j]
    {
      if i < |xs| <= j {
        assert zs[i] in xs && zs[j] in ys;
      }
    }
  }

  lemma ExitPlaces(s: Heap, w: map<nat, Place>, t: nat)
    requires Lists(s) && Placed(s, w) && Running(s, t)
    ensures Placed(Exit(s, t), Left(w, t))
  {
    var r, v := Exit(s, t), Left(w, t);
    forall pl | pl in r.lists
      ensures Distinct(r.lists[pl]) && forall h :: h in r.lists[pl] <==> h in v && v[h] == pl
    {
      ExitList(s, w, t, pl);
    }
    forall h | h in v
      ensures h in r.spans && v[h] in r.lists && h in r.lists[v[h]]
    {
      LeftSomewhere(s, w, t, h);
    }
  }

  lemma LeftSomewhere(s: Heap, w: map<nat, Place>, t: nat, h: nat)
    requires Lists(s) && Placed(s, w) && Running(s, t) && h in w
    ensures h in Exit(s, t).spans && Leave(w[h], t) in Exit(s, t).lists
  {
    assert w[h] in s.lists;
  }

  lemma ExitList(s: Heap, w: map<nat, Place>, t: nat, pl: Place)
    requires Lists(s) && Placed(s, w) && Running(s, t) && pl in Exit(s, t).lists
    ensures var xs := Exit(s, t).lists[pl];
      Distinct(xs) && forall h :: h in xs <==> h in w && Leave(w[h], t) == pl
  {
    ListIsPlaced(s, w, pl);
    hide Lists, Distinct;
    match pl
    case PoolSuspended(c) =>
      ExitClass(s, w, t, c);
    case PoolFree =>
      ListIsPlaced(s, w, FreeOf(t));
      JoinedDistinct(s.lists[pl], s.lists[FreeOf(t)]);
    case _ =>
  }

  lemma ListIsPlaced(s: Heap, w: map<nat, Place>, pl: Place)
    requires Placed(s, w) && pl in s.lists
    ensures Distinct(s.lists[pl]) && forall h :: h in s.lists[pl] <==> h in w && w[h] == pl
  {
    assert OnlyHere(s.lists[pl], w, pl);
  }

  lemma ExitClass(s: Heap, w: map<nat, Place>, t: nat, c: nat)
    requires Lists(s) && Placed(s, w) && Running(s, t) && PoolSuspended(c) in s.lists
    ensures c < CLASSES
    ensures var xs := s.lists[PoolSuspended(c)] + Holdings(s, t, c);
      Distinct(xs) && forall h :: h in xs <==> h in w && Leave(w[h], t) == PoolSuspended(c)
  {
    ListIsPlaced(s, w, PoolSuspended(c));
    HoldingsPlaced(s, w, t, c);
    hide Distinct, Lists, Placed, Holdings;
    JoinedDistinct(s.lists[PoolSuspended(c)], Holdings(s, t, c));
  }

  lemma ExitSpan(s: Heap, w: map<nat, Place>, t: nat, h: nat)
    requires Lists(s) && Placed(s, w) && Running(s, t) && h in w && h in s.spans
    ensures var r := Exit(s, t);
      && h in r.spans
      && r.spans[h] == (if OfThread(w[h], t) && !w[h].FreeOf? then s.spans[h].(owner := PoolOwner) else s.spans[h])
  {
    forall c | 0 <= c < CLASSES
      ensures h in Holdings(s, t, c) <==> w[h] == Suspended(t, c) || w[h] == Using(t, c)
    {
      HoldingsPlaced(s, w, t, c);
    }
    assert w[h] in s.lists;
    hide Placed, Holdings, Distinct;
    if OfThread(w[h], t) && !w[h].FreeOf? {
      var c := w[h].c;
      assert h in Holdings(s, t, c);
    }
  }

  lemma ExitAgrees(s: Heap, w: map<nat, Place>, t: nat)
    requires Lists(s) && Placed(s, w) && Agreed(s, w) && Running(s, t)
    ensures Agreed(Exit(s, t), Left(w, t))
  {
    assert PoolReady(s);
    hide Lists, Placed, Exit;
    forall h | h in w
      ensures h in Exit(s, t).spans && Agree(Leave(w[h], t), Exit(s, t).spans[h])
    {
      ExitSpan(s, w, t, h);
    }
  }

  lemma ExitOwner(s: Heap, t: nat, h: nat)
    requires Running(s, t) && PoolReady(s) && h in s.spans
    ensures h in Exit(s, t).spans && Exit(s, t).spans[h] == s.spans[h].(owner := Exit(s, t).spans[h].owner)
  {
    hide Holdings;
  }

  lemma ExitCounted(s: Heap, w: map<nat, Place>, t: nat)
    requires Sound(s, w) && Running(s, t)
    ensures Exit(s, t).spans.Keys == s.spans.Keys
    ensures Counted(Exit(s, t)) && LiveFits(Exit(s, t))
  {
    var r := Exit(s, t);
    assert r.live == s.live;
    SoundReady(s, w);
    hide Region, Lists, Placed, Agreed, Account, Exit, Running;
    forall h | h in r.spans
      ensures r.spans[h].blkSize == s.spans[h].blkSize
      ensures if r.spans[h].state == FREE then Outstanding(r.live, h) == {} else Account(h, r.spans[h], r.live)
    {
      ExitOwner(s, t, h);
      if s.spans[h].state != FREE {
        AccountSame(h, s.spans[h], r.spans[h], s.live);
      }
    }
  }

  /** When a thread exits, every span it held has a place in the pool. */
  lemma ExitKeeps(s: Heap, w: map<nat, Place>, t: nat)
    requires Sound(s, w) && Running(s, t)
    ensures PoolReady(s) && Sound(Exit(s, t), Left(w, t)) && Exit(s, t).live == s.live && FreeOf(t) !in Exit(s, t).lists
    ensures Exit(s, t).spans.Keys == s.spans.Keys && Left(w, t).Keys == w.Keys && Exit(s, t).stale == s.stale
  {
    hide Region, Lists, Placed, Agreed, Counted, LiveFits;
    SoundReady(s, w);
    var r, v := Exit(s, t), Left(w, t);
    ExitLists(s, t);
    ExitPlaces(s, w, t);
    ExitAgrees(s, w, t);
    ExitCounted(s, w, t);
    RegionSame(s, r);
  }

  /** A thread that exits keeps the invariant, and block safety. */
  lemma ExitIsSafe(s: Heap, t: nat)
    requires Running(s, t) && PoolReady(s)
    ensures Inv(s) ==> Inv(Exit(s, t)) && FreeOf(t) !in Exit(s, t).lists
    ensures Safe(s) ==> Safe(Exit(s, t)) && Exit(s, t).live == s.live
  {
    hide Sound, Running, Exit, Left;
    if Inv(s) {
      var w :| Sound(s, w) && w.Keys == s.spans.Keys;
      ExitKeeps(s, w, t);
    }
    if Safe(s) {
      var w :| Sound(s, w) && Complete(s, w);
      ExitKeeps(s, w, t);
    }
  }

  lemma InitialLists(raw: nat)
    ensures var s := Initial(raw);
      && PoolReady(s) && (forall pl :: pl in s.lists ==> pl == PoolFree || (pl.PoolSuspended? && pl.c < CLASSES))
      && (forall pl :: pl in s.lists ==> s.lists[pl] == [])
      && s == Heap(map[], s.lists, s.start, raw + UNIT, s.start, map[], map[]) && s.start == (raw + SPAN - 1) / SPAN * SPAN
  {
  }

  lemma InitialRegion(raw: nat)
    requires raw > 0
    ensures Region(Initial(raw))
  {
    hide WithEmpty;
  }

  /** The pool that global_init sets up. */
  lemma InitialHolds(raw: nat)
    requires raw > 0
    ensures Inv(Initial(raw))
  {
    hide Initial;
    InitialLists(raw);
    InitialRegion(raw);
    var s := Initial(raw);
    var w: map<nat, Place> := map[];
    assert Lists(s) && Placed(s, w) && Agreed(s, w) && Counted(s) && LiveFits(s);
    assert Sound(s, w) && w.Keys == s.spans.Keys;
  }
}
