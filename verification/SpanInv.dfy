/** The invariant of the span allocator and what its parts mean. */
module SpanInv {
  import opened Sequences
  import opened SizeTables
  import opened SpanSpec
  import opened SpanSlots

  // The region.

  /** The pool region is carved into spans from its aligned start; the spans are exactly
    * the aligned addresses below the part that is still free. */
  ghost predicate Region(s: Heap) {
    && 0 < s.start <= s.freeStart <= s.end
    && s.start % SPAN == 0 && s.freeStart % SPAN == 0
    && forall h :: h in s.spans <==> s.start <= h < s.freeStart && h % SPAN == 0
  }

  // The lists.

  /** The lists are those of the pool and those of the threads that are running; a using
    * slot holds at most one span. */
  ghost predicate Lists(s: Heap) {
    && PoolReady(s)
    && forall pl :: pl in s.lists ==>
         match pl
         case Using(t, c) => c < CLASSES && Running(s, t) && |s.lists[pl]| <= 1
         case Suspended(t, c) => c < CLASSES && Running(s, t)
         case FreeOf(t) => Running(s, t)
         case PoolSuspended(c) => c < CLASSES
         case PoolFree => true
  }

  /** Each list holds, without repetition, exactly the spans that have its place in w; the
    * node of a lost span is in no list. */
  ghost predicate Placed(s: Heap, w: map<nat, Place>) {
    && (forall h :: h in s.stale ==> h in s.spans && h !in w)
    && (forall h :: h in w ==> h in s.spans && w[h] in s.lists && h in s.lists[w[h]])
    && (forall pl :: pl in s.lists ==> Distinct(s.lists[pl]) && OnlyHere(s.lists[pl], w, pl))
  }

  /** The node of a span is linked into one list at most, and there once. */
  ghost predicate Linked(s: Heap) {
    exists w :: Placed(s, w)
  }

  ghost predicate OnlyHere(xs: seq<nat>, w: map<nat, Place>, pl: Place) {
    forall h :: h in xs ==> h in w && w[h] == pl
  }

  // The headers.

  /** What the place of a span says about its header. */
  ghost predicate Agree(pl: Place, sp: Span) {
    match pl
    case Using(t, c) => sp.owner == Thread(t) && sp.cls == c && sp.state == IN_USE
    case Suspended(t, c) => sp.owner == Thread(t) && sp.cls == c && sp.state == SUSPEND
    case PoolSuspended(c) => sp.owner == PoolOwner && sp.cls == c && sp.state != FREE
    case _ => sp.state == FREE
  }

  ghost predicate Agreed(s: Heap, w: map<nat, Place>) {
    forall h :: h in w ==> h in s.spans && Agree(w[h], s.spans[h])
  }

  // The blocks.

  /** The blocks of span h that are in the hands of the program. */
  ghost function Outstanding(live: map<nat, nat>, h: nat): set<nat> {
    set b | b in live && GetHeader(b) == h
  }

  /** The first carved slots of a span are its freed and its outstanding blocks; its
    * counter counts the freed blocks and the slots that were never carved, and all the
    * blocks are either counted or outstanding. */
  ghost predicate AccountAt(h: nat, sp: Span, live: map<nat, nat>, carved: nat)
    requires sp.blkSize > 0
  {
    && carved <= Capacity(sp.blkSize) && sp.freeBlk == Slot(h, sp.blkSize, carved)
    && Distinct(sp.blkList)
    && (forall b :: b in sp.blkList ==> IsSlot(h, sp.blkSize, carved, b) && b !in live)
    && (forall b :: b in live && GetHeader(b) == h ==> IsSlot(h, sp.blkSize, carved, b))
    && sp.freeCnt == |sp.blkList| + Capacity(sp.blkSize) - carved
    && sp.freeCnt + |Outstanding(live, h)| == Capacity(sp.blkSize)
  }

  ghost predicate Account(h: nat, sp: Span, live: map<nat, nat>) {
    && sp.cls < CLASSES && sp.blkSize == Cls2Size(sp.cls) && sp.blkSize > 0
    && exists carved: nat :: AccountAt(h, sp, live, carved)
  }

  /** A span that turned FREE has no outstanding block, but its list is not in order until
    * span_init resets it: the block that was freed last has been pushed on it. */
  ghost predicate Counted(s: Heap) {
    forall h :: h in s.spans ==>
      if s.spans[h].state == FREE then Outstanding(s.live, h) == {} else Account(h, s.spans[h], s.live)
  }

  /** Every outstanding block belongs to a span whose blocks are large enough for it. */
  ghost predicate LiveFits(s: Heap) {
    forall b :: b in s.live ==> GetHeader(b) in s.spans && 0 < s.live[b] <= s.spans[GetHeader(b)].blkSize
  }

  /** Everything but that no span is lost. */
  ghost predicate Sound(s: Heap, w: map<nat, Place>) {
    Region(s) && Lists(s) && Placed(s, w) && Agreed(s, w) && Counted(s) && LiveFits(s)
  }

  /** Every carved span has a place or has been lost. */
  ghost predicate Complete(s: Heap, w: map<nat, Place>) {
    s.spans.Keys <= w.Keys + s.stale.Keys
  }

  /** Block safety; spans may have been lost. */
  ghost predicate Safe(s: Heap) {
    exists w :: Sound(s, w) && Complete(s, w)
  }

  /** The invariant: moreover, every carved span has a place. */
  ghost predicate Inv(s: Heap) {
    exists w :: Sound(s, w) && w.Keys == s.spans.Keys
  }

  // What the invariant means.

  /** A carved span is in one list, at one index of it. */
  lemma OnePlace(s: Heap, h: nat, pl: Place, i: nat, ql: Place, j: nat)
    requires Inv(s) && pl in s.lists && ql in s.lists
    requires i < |s.lists[pl]| && j < |s.lists[ql]| && s.lists[pl][i] == h == s.lists[ql][j]
    ensures pl == ql && i == j
  {
    var w :| Sound(s, w) && w.Keys == s.spans.Keys;
    assert OnlyHere(s.lists[pl], w, pl) && OnlyHere(s.lists[ql], w, ql);
    assert h in s.lists[pl] && h in s.lists[ql];
    assert Distinct(s.lists[pl]);
  }

  lemma SomePlace(s: Heap, h: nat)
    requires Inv(s) && h in s.spans
    ensures exists pl :: pl in s.lists && h in s.lists[pl] && Agree(pl, s.spans[h])
  {
    var w :| Sound(s, w) && w.Keys == s.spans.Keys;
    assert w[h] in s.lists && h in s.lists[w[h]];
  }

  /** A node is on one ring at most. */
  lemma OneRing(s: Heap, pl: Place, ql: Place, n: Node)
    requires Linked(s) && OnRing(s.lists, pl, n) && OnRing(s.lists, ql, n)
    ensures pl == ql
  {
    var w :| Placed(s, w);
    assert OnlyHere(s.lists[pl], w, pl) && OnlyHere(s.lists[ql], w, ql);
    if n.NodeOf? {
      assert n.h in s.lists[pl] && n.h in s.lists[ql];
    }
  }

  lemma InvIsSafe(s: Heap)
    requires Inv(s)
    ensures Safe(s)
  {
    hide Sound;
    var w :| Sound(s, w) && w.Keys == s.spans.Keys;
    assert Complete(s, w);
  }

  lemma LostAreApart(s: Heap, w: map<nat, Place>)
    requires Sound(s, w)
    ensures w.Keys <= s.spans.Keys
    ensures forall h :: h in s.stale ==> h in s.spans && h !in w
  {
    hide Region, Lists, Agreed, Counted, LiveFits;
  }

  /** The invariant is block safety without lost spans. */
  lemma InvIsNoneLost(s: Heap)
    ensures Inv(s) <==> Safe(s) && s.stale == map[]
  {
    hide Sound;
    if Inv(s) {
      InvIsSafe(s);
      var w :| Sound(s, w) && w.Keys == s.spans.Keys;
      LostAreApart(s, w);
      assert s.stale.Keys == {};
    }
    if Safe(s) && s.stale == map[] {
      var w :| Sound(s, w) && Complete(s, w);
      LostAreApart(s, w);
      assert w.Keys == s.spans.Keys;
    }
  }

  /** A span without a place shows that the invariant is broken. */
  lemma LostSpan(s: Heap, w: map<nat, Place>, h: nat)
    requires Placed(s, w) && h in s.spans && h !in w
    ensures !Inv(s)
  {
    assert forall pl :: pl in s.lists ==> h !in s.lists[pl];
    if Inv(s) {
      SomePlace(s, h);
    }
  }

  /** An outstanding block is a slot of its span, within the data area. */
  lemma LiveIsSlot(s: Heap, b: nat) returns (j: nat)
    requires Safe(s) && b in s.live
    ensures var h := GetHeader(b);
      && h in s.spans && h % SPAN == 0 && s.spans[h].blkSize > 0
      && j < Capacity(s.spans[h].blkSize) && b == Slot(h, s.spans[h].blkSize, j)
  {
    var w :| Sound(s, w) && Complete(s, w);
    var h := GetHeader(b);
    assert b in Outstanding(s.live, h);
    assert Account(h, s.spans[h], s.live);
    var carved: nat :| AccountAt(h, s.spans[h], s.live, carved);
    assert IsSlot(h, s.spans[h].blkSize, carved, b);
    j :| j < carved && b == Slot(h, s.spans[h].blkSize, j);
  }

  /** An outstanding block is at least as large as requested, lies wholly in the data area
    * of its span, and GET_HEADER of each of its bytes yields the header of the span. */
  lemma LiveBlockIsInSpan(s: Heap, b: nat, p: nat)
    requires Safe(s) && b in s.live
    requires b <= p < b + s.spans[GetHeader(b)].blkSize
    ensures var h := GetHeader(b);
      && 0 < s.live[b] <= s.spans[h].blkSize
      && h + HEADER <= b && b + s.spans[h].blkSize <= h + SPAN
      && s.start <= h && h + SPAN <= s.freeStart
      && GetHeader(p) == h
  {
    var j := LiveIsSlot(s, b);
    var h := GetHeader(b);
    SlotInData(h, s.spans[h].blkSize, j);
    HeaderOfByte(h, p);
    var w :| Sound(s, w) && Complete(s, w);
    AlignedAreApart(h, s.freeStart);
  }

  /** Outstanding blocks share no byte. */
  lemma LiveBlocksAreApart(s: Heap, a: nat, b: nat)
    requires Safe(s) && a in s.live && b in s.live && a < b
    ensures a + s.spans[GetHeader(a)].blkSize <= b
  {
    hide Safe, Slot, Capacity, GetHeader;
    var i := LiveIsSlot(s, a);
    var j := LiveIsSlot(s, b);
    var g, h := GetHeader(a), GetHeader(b);
    SlotInData(g, s.spans[g].blkSize, i);
    SlotInData(h, s.spans[h].blkSize, j);
    if g == h {
      if j < i {
        SlotsAreApart(h, s.spans[h].blkSize, j, i);
      }
      SlotsAreApart(h, s.spans[h].blkSize, i, j);
    } else if g < h {
      AlignedAreApart(g, h);
    } else {
      AlignedAreApart(h, g);
    }
  }

  /** The counter of a span that is not FREE counts its freed blocks and the slots that
    * were never carved, and together with the outstanding blocks they are all the blocks
    * of the span. So a counter at its maximum means that nothing is outstanding. */
  lemma BlocksAreCounted(s: Heap, h: nat)
    requires Safe(s) && h in s.spans && s.spans[h].state != FREE
    ensures var sp := s.spans[h];
      && sp.blkSize > 0
      && (exists carved: nat :: carved <= Capacity(sp.blkSize) && sp.freeBlk == Slot(h, sp.blkSize, carved)
                                && sp.freeCnt == |sp.blkList| + (Capacity(sp.blkSize) - carved))
      && sp.freeCnt + |Outstanding(s.live, h)| == Capacity(sp.blkSize)
      && (sp.freeCnt == Capacity(sp.blkSize) <==> Outstanding(s.live, h) == {})
      && (forall b :: b in sp.blkList ==> b !in s.live)
  {
    hide Region, Lists, Placed, Agreed, LiveFits, Slot, IsSlot, Capacity, Cls2Size;
    var w :| Sound(s, w) && Complete(s, w);
    var carved: nat :| AccountAt(h, s.spans[h], s.live, carved);
  }

  // Counting the spans.

  /** The number of spans in all the lists together. */
  ghost function TotalLength(lists: map<Place, seq<nat>>): nat {
    if lists == map[] then 0
    else
      var pl :| pl in lists;
      |lists[pl]| + TotalLength(lists - {pl})
  }

  ghost function PlacedIn(w: map<nat, Place>, places: set<Place>): set<nat> {
    set h | h in w && w[h] in places
  }

  ghost function Elements(xs: seq<nat>): set<nat> {
    set x | x in xs
  }

  lemma {:induction false} DistinctElements(xs: seq<nat>)
    requires Distinct(xs)
    ensures |Elements(xs)| == |xs|
  {
    if xs == [] {
      assert Elements(xs) == {};
    } else {
      var rest := xs[1..];
      DistinctElements(rest);
      assert xs == [xs[0]] + rest;
      assert Elements(xs) == {xs[0]} + Elements(rest);
      assert xs[0] !in rest;
    }
  }

  /** The lists of lists hold exactly what w places there. */
  ghost predicate Match(lists: map<Place, seq<nat>>, w: map<nat, Place>) {
    && (forall pl :: pl in lists ==> Distinct(lists[pl]) && OnlyHere(lists[pl], w, pl))
    && (forall h :: h in w && w[h] in lists ==> h in lists[w[h]])
  }

  lemma PeelList(lists: map<Place, seq<nat>>, w: map<nat, Place>, pl: Place)
    requires Match(lists, w) && pl in lists
    ensures Match(lists - {pl}, w) && |lists - {pl}| < |lists|
    ensures |PlacedIn(w, lists.Keys)| == |lists[pl]| + |PlacedIn(w, (lists - {pl}).Keys)|
  {
    var rest := lists - {pl};
    assert rest.Keys == lists.Keys - {pl};
    assert |rest.Keys| == |lists.Keys| - 1;
    DistinctElements(lists[pl]);
    var here, there := Elements(lists[pl]), PlacedIn(w, rest.Keys);
    hide Distinct;
    assert PlacedIn(w, lists.Keys) == here + there;
    assert here !! there;
  }

  lemma {:induction false} TotalIsPlaced(lists: map<Place, seq<nat>>, w: map<nat, Place>)
    requires Match(lists, w)
    ensures TotalLength(lists) == |PlacedIn(w, lists.Keys)|
    decreases |lists|
  {
    hide Match;
    if lists == map[] {
      assert PlacedIn(w, lists.Keys) == {};
    } else {
      var pl :| pl in lists && TotalLength(lists) == |lists[pl]| + TotalLength(lists - {pl});
      PeelList(lists, w, pl);
      TotalIsPlaced(lists - {pl}, w);
    }
  }

  lemma {:induction false} AlignedAddresses(start: nat, n: nat, hs: set<nat>)
    requires start % SPAN == 0
    requires forall h :: h in hs <==> start <= h < start + n * SPAN && h % SPAN == 0
    ensures |hs| == n
  {
    if n == 0 {
      assert hs == {};
    } else {
      var last := start + (n - 1) * SPAN;
      assert last in hs;
      AlignedAddresses(start, n - 1, hs - {last});
    }
  }

  lemma RegionCount(s: Heap)
    requires Region(s)
    ensures |s.spans| == (s.freeStart - s.start) / SPAN && (s.freeStart - s.start) % SPAN == 0
  {
    var n := (s.freeStart - s.start) / SPAN;
    assert s.freeStart == s.start + n * SPAN;
    AlignedAddresses(s.start, n, s.spans.Keys);
    assert |s.spans| == |s.spans.Keys|;
  }

  lemma AllPlaced(s: Heap, w: map<nat, Place>)
    requires Placed(s, w) && w.Keys == s.spans.Keys
    ensures TotalLength(s.lists) == |s.spans|
  {
    TotalIsPlaced(s.lists, w);
    assert PlacedIn(w, s.lists.Keys) == s.spans.Keys;
  }

  /** The lists together hold as many spans as have been carved. */
  lemma PlacesCountSpans(s: Heap)
    requires Inv(s)
    ensures TotalLength(s.lists) == |s.spans| == (s.freeStart - s.start) / SPAN
    ensures (s.freeStart - s.start) % SPAN == 0
  {
    var w :| Sound(s, w) && w.Keys == s.spans.Keys;
    hide Lists, Agreed, Counted, LiveFits, Placed, Region;
    AllPlaced(s, w);
    RegionCount(s);
  }
}
