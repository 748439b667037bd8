/** The calls of the allocator as pointer writes. A call reads and writes the lists through a
  * memory of links only. In every run the memory stays what the lists of the specification
  * stand for, and a call faults exactly where the memory shows it. */
module SpanLinkRuns {
  import opened Rings
  import opened Sequences
  import opened SizeTables
  import opened SpanSpec
  import opened SpanInv
  import opened SpanSteps
  import opened SpanRuns
  import opened SpanLinks
  import SpanAlloc

  // What the calls do to the links; None is an access through a link that is not there.

  /** list_empty */
  predicate ListEmpty(mem: Memory<Node>, head: Node)
    requires head in mem
  {
    mem[head] == Links(head, head)
  }

  /** The walk over a list for the first span with a free block; the head, if there is none. */
  function Walk(mem: Memory<Node>, spans: map<nat, Span>, n: Node, head: Node, unseen: set<Node>): Node
    requires unseen <= mem.Keys
    decreases |unseen|
  {
    if n == head || n !in unseen || n.HeadOf? || n.h !in spans then head
    else if spans[n.h].freeCnt > 0 then n
    else Walk(mem, spans, mem[n].next, head, unseen - {n})
  }

  /** The first part of replace_available_span. */
  function UnlinkUsable(mem: Memory<Node>, spans: map<nat, Span>, head: Node): Option<Memory<Node>> {
    if head !in mem then None
    else
      var n := Walk(mem, spans, mem[head].next, head, mem.Keys);
      if n == head then Some(mem) else ListDel(mem, n)
  }

  /** The first node of the first list of heads that is not empty is unlinked; if all of them are
    * empty, a span is carved. */
  function UnlinkFirst(mem: Memory<Node>, heads: seq<Node>): Option<Memory<Node>> {
    if heads == [] then Some(mem)
    else if heads[0] !in mem then None
    else if !ListEmpty(mem, heads[0]) then ListDel(mem, mem[heads[0]].next)
    else UnlinkFirst(mem, heads[1..])
  }

  /** replace_available_span with acquire_span */
  function ReplaceLinks(mem: Memory<Node>, spans: map<nat, Span>, t: nat, c: nat): Option<Memory<Node>> {
    match UnlinkUsable(mem, spans, HeadOf(Suspended(t, c)))
    case None => None
    case Some(m) => UnlinkFirst(m, [HeadOf(FreeOf(t)), HeadOf(PoolSuspended(c)), HeadOf(PoolFree)])
  }

  /** small_alloc */
  function MallocLinks(mem: Memory<Node>, s: Heap, t: nat, c: nat): Option<Memory<Node>>
    requires Running(s, t) && Known(s) && c < CLASSES
  {
    if !NeedsSpan(s, t, c) then Some(mem)
    else if s.lists[Using(t, c)] == [] then ReplaceLinks(mem, s.spans, t, c)
    else
      var h := s.lists[Using(t, c)][0];
      match ListAddTail(mem, NodeOf(h), HeadOf(Suspended(t, c)))
      case None => None
      case Some(m) => ReplaceLinks(m, Retire(s, t, c, h).spans, t, c)
  }

  // Allocation.

  lemma {:induction false} WalkIsFirstUsable(mem: Memory<Node>, s: Heap, pl: Place, i: nat, unseen: set<Node>)
    requires Depicts(mem, s) && HasHead(s.lists, pl) && i <= |s.lists[pl]| && unseen <= mem.Keys
    requires forall h :: h in s.lists[pl] ==> h in s.spans
    requires forall k :: i <= k < |s.lists[pl]| ==> NodeOf(s.lists[pl][k]) in unseen
    ensures var xs := s.lists[pl];
      var k := i + FirstUsable(s, xs[i..]);
      Walk(mem, s.spans, RingNode(xs, pl, i + 1), HeadOf(pl), unseen) == if k < |xs| then NodeOf(xs[k]) else HeadOf(pl)
    decreases |s.lists[pl]| - i
  {
    var xs, r := s.lists[pl], NodesOf(s.lists[pl], pl);
    if i < |xs| && s.spans[xs[i]].freeCnt == 0 {
      assert LinkedAt(mem, r, i + 1) && r[i + 1] == NodeOf(xs[i]);
      assert xs[i..][1..] == xs[i + 1..];
      NodesDistinct(xs, pl);
      WalkIsFirstUsable(mem, s, pl, i + 1, unseen - {NodeOf(xs[i])});
    }
  }

  lemma SpansAreHeld(mem: Memory<Node>, xs: seq<nat>, pl: Place)
    requires Ring(mem, NodesOf(xs, pl))
    ensures forall h :: h in xs ==> NodeOf(h) in mem
    ensures HeadOf(pl) in mem && mem[HeadOf(pl)].next == RingNode(xs, pl, 1)
  {
    var r := NodesOf(xs, pl);
    RingIsHeld(mem, r);
    assert LinkedAt(mem, r, 0);
    forall h | h in xs
      ensures NodeOf(h) in mem
    {
      var k :| 0 <= k < |xs| && xs[k] == h;
      assert r[k + 1] in r;
    }
  }

  lemma DropIsUnlinkUsable(mem: Memory<Node>, s: Heap, t: nat, c: nat)
    requires Depicts(mem, s) && Running(s, t) && Known(s) && c < CLASSES
    ensures var m := UnlinkUsable(mem, s.spans, HeadOf(Suspended(t, c)));
      m.Some? && Depicts(m.value, DropUsable(s, t, c))
  {
    var pl := Suspended(t, c);
    var xs := s.lists[pl];
    SpansAreHeld(mem, xs, pl);
    hide Depicts, Walk, ListDel, FirstUsable;
    WalkIsFirstUsable(mem, s, pl, 0, mem.Keys);
    assert xs[0..] == xs;
    if FirstUsable(s, xs) < |xs| {
      DropIsListDel(mem, s, pl, FirstUsable(s, xs));
    }
  }

  /** list_empty and the first node, as the calls read them. */
  lemma HeadTells(mem: Memory<Node>, s: Heap, pl: Place)
    requires Depicts(mem, s) && HasHead(s.lists, pl)
    ensures HeadOf(pl) in mem && (ListEmpty(mem, HeadOf(pl)) <==> s.lists[pl] == [])
    ensures s.lists[pl] != [] ==> mem[HeadOf(pl)].next == NodeOf(s.lists[pl][0])
  {
    assert LinkedAt(mem, NodesOf(s.lists[pl], pl), 0);
  }

  /** The first span of a list is unlinked. */
  lemma PopIsListDel(mem: Memory<Node>, s: Heap, pl: Place)
    requires Depicts(mem, s) && HasHead(s.lists, pl) && s.lists[pl] != []
    ensures HeadOf(pl) in mem
    ensures var m := ListDel(mem, mem[HeadOf(pl)].next); m.Some? && Depicts(m.value, Pop(s, pl))
  {
    HeadTells(mem, s, pl);
    RemoveIsListDel(mem, s, pl, s.lists[pl][0]);
  }

  lemma ThreeHeads(mem: Memory<Node>, a: Node, b: Node, c: Node)
    requires a in mem && b in mem && c in mem
    ensures UnlinkFirst(mem, [a, b, c])
         == if !ListEmpty(mem, a) then ListDel(mem, mem[a].next)
            else if !ListEmpty(mem, b) then ListDel(mem, mem[b].next)
            else if !ListEmpty(mem, c) then ListDel(mem, mem[c].next)
            else Some(mem)
  {
    hide ListEmpty, ListDel;
    assert [a, b, c][1..] == [b, c] && [b, c][1..] == [c] && [c][1..] == [];
    assert UnlinkFirst(mem, [c]) == if !ListEmpty(mem, c) then ListDel(mem, mem[c].next) else Some(mem);
  }

  lemma FetchIsUnlinkFirst(mem: Memory<Node>, s: Heap, t: nat, c: nat, contiguous: bool)
    requires Depicts(mem, s) && Running(s, t) && PoolReady(s) && Known(s) && c < CLASSES && Fetch(s, t, c, contiguous).Some?
    ensures var m := UnlinkFirst(mem, [HeadOf(FreeOf(t)), HeadOf(PoolSuspended(c)), HeadOf(PoolFree)]);
      m.Some? && Depicts(m.value, Fetch(s, t, c, contiguous).value.0)
  {
    HeadTells(mem, s, FreeOf(t));
    HeadTells(mem, s, PoolSuspended(c));
    HeadTells(mem, s, PoolFree);
    ThreeHeads(mem, HeadOf(FreeOf(t)), HeadOf(PoolSuspended(c)), HeadOf(PoolFree));
    hide Depicts, ListDel, ListEmpty, SpanInit, UnlinkFirst;
    var r := Fetch(s, t, c, contiguous).value.0;
    if s.lists[FreeOf(t)] != [] {
      PopDepicts(mem, s, FreeOf(t), r);
    } else if s.lists[PoolSuspended(c)] != [] {
      PopDepicts(mem, s, PoolSuspended(c), r);
    } else if s.lists[PoolFree] != [] {
      PopDepicts(mem, s, PoolFree, r);
    } else {
      DepictsSame(mem, s, r);
    }
  }

  lemma PopDepicts(mem: Memory<Node>, s: Heap, pl: Place, r: Heap)
    requires Depicts(mem, s) && HasHead(s.lists, pl) && s.lists[pl] != []
    requires r.lists == Pop(s, pl).lists && r.stale == s.stale
    ensures HeadOf(pl) in mem
    ensures var m := ListDel(mem, mem[HeadOf(pl)].next); m.Some? && Depicts(m.value, r)
  {
    PopIsListDel(mem, s, pl);
    hide Depicts, ListDel;
    DepictsSame(ListDel(mem, mem[HeadOf(pl)].next).value, Pop(s, pl), r);
  }

  lemma ReplaceDepicts(mem: Memory<Node>, s: Heap, t: nat, c: nat, contiguous: bool)
    requires Depicts(mem, s) && Running(s, t) && PoolReady(s) && Known(s) && c < CLASSES && Replace(s, t, c, contiguous).Some?
    ensures var m := ReplaceLinks(mem, s.spans, t, c);
      m.Some? && Depicts(m.value, Replace(s, t, c, contiguous).value)
  {
    hide Depicts, UnlinkUsable, UnlinkFirst, Fetch, DropUsable;
    DropIsUnlinkUsable(mem, s, t, c);
    var m, d := UnlinkUsable(mem, s.spans, HeadOf(Suspended(t, c))).value, DropUsable(s, t, c);
    FetchIsUnlinkFirst(m, d, t, c, contiguous);
    var (r, h) := Fetch(d, t, c, contiguous).value;
    var n := UnlinkFirst(m, [HeadOf(FreeOf(t)), HeadOf(PoolSuspended(c)), HeadOf(PoolFree)]).value;
    DepictsSame(n, r, Install(r, t, c, h));
  }

  /** The span in a using slot is in no list. */
  lemma UsingIsApart(s: Heap, t: nat, c: nat)
    requires Linked(s) && Using(t, c) in s.lists && s.lists[Using(t, c)] != []
    ensures var h := s.lists[Using(t, c)][0];
      h !in s.stale && forall pl :: pl in s.lists && pl != Using(t, c) ==> h !in s.lists[pl]
  {
    var w :| Placed(s, w);
    var h := s.lists[Using(t, c)][0];
    assert h in s.lists[Using(t, c)] && OnlyHere(s.lists[Using(t, c)], w, Using(t, c));
    forall pl | pl in s.lists && pl != Using(t, c)
      ensures h !in s.lists[pl]
    {
      assert OnlyHere(s.lists[pl], w, pl);
    }
  }

  lemma RetireDepicts(mem: Memory<Node>, s: Heap, t: nat, c: nat)
    requires Depicts(mem, s) && Linked(s) && Running(s, t) && Known(s) && c < CLASSES && s.lists[Using(t, c)] != []
    ensures var h := s.lists[Using(t, c)][0];
      var m := ListAddTail(mem, NodeOf(h), HeadOf(Suspended(t, c)));
      m.Some? && Depicts(m.value, Retire(s, t, c, h))
  {
    var h := s.lists[Using(t, c)][0];
    UsingIsApart(s, t, c);
    AddTailDepicts(mem, s, Suspended(t, c), h);
    hide Depicts, ListAddTail;
    var m := ListAddTail(mem, NodeOf(h), HeadOf(Suspended(t, c))).value;
    DepictsSame(m, Append(s, Suspended(t, c), h), Retire(s, t, c, h));
  }

  lemma MallocDepicts(mem: Memory<Node>, s: Heap, t: nat, sz: nat, contiguous: bool)
    requires Depicts(mem, s) && Linked(s) && Running(s, t) && PoolReady(s) && Known(s) && 0 < sz <= MAX_SMALL
    requires Malloc(s, t, sz, contiguous).Some?
    ensures Size2Cls(sz) < CLASSES
    ensures var m := MallocLinks(mem, s, t, Size2Cls(sz));
      m.Some? && Depicts(m.value, Malloc(s, t, sz, contiguous).value.0)
  {
    Size2ClsFits(sz);
    var c := Size2Cls(sz);
    hide Depicts, Linked, ListAddTail, ReplaceLinks, Retire, Replace, Size2Cls, GetBlk;
    var r := Prepared(s, t, c, contiguous).value;
    if s.lists[Using(t, c)] == [] {
      ReplaceDepicts(mem, s, t, c, contiguous);
    } else if NeedsSpan(s, t, c) {
      var h := s.lists[Using(t, c)][0];
      RetireDepicts(mem, s, t, c);
      ReplaceDepicts(ListAddTail(mem, NodeOf(h), HeadOf(Suspended(t, c))).value, Retire(s, t, c, h), t, c, contiguous);
    }
    DepictsSame(MallocLinks(mem, s, t, c).value, r, HandOut(r, r.lists[Using(t, c)][0], sz).0);
  }

  // Threads.

  /** list_splice_tail */
  function ListSpliceTail(mem: Memory<Node>, list: Node, head: Node): Option<Memory<Node>> {
    if list !in mem || head !in mem then None
    else if ListEmpty(mem, list) then Some(mem)
    else if mem[list].next in mem && mem[list].prev in mem && mem[head].prev in mem then
      Some(SpliceBetween(mem, mem[list].next, mem[list].prev, mem[head].prev, head))
    else None
  }

  /** The same, for a list whose head is gone then. */
  function HandOver(mem: Memory<Node>, from: Place, to: Place): Option<Memory<Node>> {
    match ListSpliceTail(mem, HeadOf(from), HeadOf(to))
    case None => None
    case Some(m) => Some(m - {HeadOf(from)})
  }

  function HandedOver(s: Heap, from: Place, to: Place): Heap
    requires from in s.lists && to in s.lists && from != to
  {
    s.(lists := (s.lists - {from})[to := s.lists[to] + s.lists[from]])
  }

  lemma SplicedRing(mem: Memory<Node>, s: Heap, from: Place, to: Place)
    requires Depicts(mem, s) && HasHead(s.lists, from) && HasHead(s.lists, to) && from != to && s.lists[from] != []
    ensures HeadOf(from) in mem && HeadOf(to) in mem
    ensures var first, last, prev := mem[HeadOf(from)].next, mem[HeadOf(from)].prev, mem[HeadOf(to)].prev;
      && first in mem && last in mem && prev in mem
      && first in NodesOf(s.lists[from], from) && last in NodesOf(s.lists[from], from) && prev in NodesOf(s.lists[to], to)
      && Ring(SpliceBetween(mem, first, last, prev, HeadOf(to)), NodesOf(s.lists[to] + s.lists[from], to))
  {
    var l, r := NodesOf(s.lists[from], from), NodesOf(s.lists[to], to);
    HeadIsHeld(mem, s, to);
    HeadIsHeld(mem, s, from);
    assert LinkedAt(mem, l, 0);
    forall n | n in l
      ensures n !in r
    {
      ApartRings(mem, s, from, to, n);
    }
    SpliceRing(mem, l, r, |r| - 1);
    assert r[..|r|] + l[1..] + r[|r|..] == NodesOf(s.lists[to] + s.lists[from], to);
  }

  /** The writes of list_splice_tail are to the nodes of its two rings. */
  lemma SpliceTailRing(mem: Memory<Node>, s: Heap, from: Place, to: Place)
    requires Depicts(mem, s) && HasHead(s.lists, from) && HasHead(s.lists, to) && from != to
    ensures var m := ListSpliceTail(mem, HeadOf(from), HeadOf(to));
      && m.Some? && m.value.Keys == mem.Keys
      && Ring(m.value, NodesOf(s.lists[to] + s.lists[from], to))
      && forall n :: n in mem && n !in NodesOf(s.lists[from], from) && n !in NodesOf(s.lists[to], to) ==> m.value[n] == mem[n]
  {
    HeadTells(mem, s, from);
    HeadTells(mem, s, to);
    if s.lists[from] != [] {
      SplicedRing(mem, s, from, to);
      assert NodesOf(s.lists[to], to)[0] in NodesOf(s.lists[to], to);
    } else {
      assert s.lists[to] + s.lists[from] == s.lists[to];
    }
  }

  lemma HandOverRing(mem: Memory<Node>, s: Heap, from: Place, to: Place, pl: Place)
    requires Depicts(mem, s) && HasHead(s.lists, from) && HasHead(s.lists, to) && from != to
    requires HasHead(s.lists, pl) && pl != from
    ensures var m := HandOver(mem, from, to); m.Some? && Ring(m.value, NodesOf(HandedOver(s, from, to).lists[pl], pl))
  {
    SpliceTailRing(mem, s, from, to);
    var xs, m := HandedOver(s, from, to).lists[pl], ListSpliceTail(mem, HeadOf(from), HeadOf(to)).value;
    NodeIsOn(xs, pl, HeadOf(from));
    if pl == to {
      RingSame(m, m - {HeadOf(from)}, NodesOf(xs, to));
    } else {
      forall n | n in NodesOf(xs, pl)
        ensures n !in NodesOf(s.lists[from], from) && n !in NodesOf(s.lists[to], to)
      {
        ApartRings(mem, s, pl, from, n);
        ApartRings(mem, s, pl, to, n);
      }
      RingSame(mem, m - {HeadOf(from)}, NodesOf(xs, pl));
    }
  }

  lemma HandOverDepicts(mem: Memory<Node>, s: Heap, from: Place, to: Place)
    requires Depicts(mem, s) && HasHead(s.lists, from) && HasHead(s.lists, to) && from != to
    ensures var m := HandOver(mem, from, to); m.Some? && Depicts(m.value, HandedOver(s, from, to))
  {
    SpliceTailRing(mem, s, from, to);
    var r, m := HandedOver(s, from, to), HandOver(mem, from, to).value;
    hide Ring, ListSpliceTail;
    forall pl | HasHead(r.lists, pl)
      ensures Ring(m, NodesOf(r.lists[pl], pl))
    {
      HandOverRing(mem, s, from, to, pl);
    }
    forall h | h in s.stale
      ensures RememberedAt(m, h, s.stale[h])
    {
      StaleIsOff(mem, s, from, h);
      StaleIsOff(mem, s, to, h);
    }
  }

  // thread_cache_init and global_init

  function Heads(places: set<Place>): set<Node> {
    set pl | pl in places && !pl.Using? :: HeadOf(pl)
  }

  /** INIT_LIST_HEAD of each head. */
  function WithEmptyLists(mem: Memory<Node>, heads: set<Node>): Memory<Node> {
    mem + map n | n in heads :: Links(n, n)
  }

  lemma EmptyRing(mem: Memory<Node>, pl: Place)
    requires HeadOf(pl) in mem && mem[HeadOf(pl)] == Links(HeadOf(pl), HeadOf(pl))
    ensures Ring(mem, NodesOf([], pl))
  {
    assert LinkedAt(mem, NodesOf([], pl), 0);
  }

  lemma WithEmptyDepicts(mem: Memory<Node>, s: Heap, places: set<Place>)
    requires Depicts(mem, s) && forall pl :: pl in places ==> pl !in s.lists
    ensures Depicts(WithEmptyLists(mem, Heads(places)), s.(lists := WithEmpty(s.lists, places)))
  {
    var m, r := WithEmptyLists(mem, Heads(places)), s.(lists := WithEmpty(s.lists, places));
    forall pl | HasHead(r.lists, pl)
      ensures Ring(m, NodesOf(r.lists[pl], pl))
    {
      if pl in places {
        EmptyRing(m, pl);
      } else {
        var ns := NodesOf(s.lists[pl], pl);
        forall n | n in ns
          ensures n !in Heads(places)
        {
          NodeIsOn(s.lists[pl], pl, n);
        }
        RingSame(mem, m, ns);
      }
    }
  }

  // thread_exit

  /** The first loop: the spans in the using slots of the first n classes are suspended. */
  function ShelveLinks(mem: Memory<Node>, s: Heap, t: nat, n: nat): Option<Memory<Node>>
    requires Running(s, t) && n <= CLASSES
  {
    if n == 0 then Some(mem)
    else
      match ShelveLinks(mem, s, t, n - 1)
      case None => None
      case Some(m) =>
        if s.lists[Using(t, n - 1)] == [] then Some(m)
        else ListAddTail(m, NodeOf(s.lists[Using(t, n - 1)][0]), HeadOf(Suspended(t, n - 1)))
  }

  /** The second loop: the suspended spans of the first n classes go to the pool. */
  function PoolLinks(mem: Memory<Node>, t: nat, n: nat): Option<Memory<Node>> {
    if n == 0 then Some(mem)
    else
      match PoolLinks(mem, t, n - 1)
      case None => None
      case Some(m) => HandOver(m, Suspended(t, n - 1), PoolSuspended(n - 1))
  }

  function ExitLinks(mem: Memory<Node>, s: Heap, t: nat): Option<Memory<Node>>
    requires Running(s, t)
  {
    match ShelveLinks(mem, s, t, CLASSES)
    case None => None
    case Some(m) =>
      match PoolLinks(m, t, CLASSES)
      case None => None
      case Some(p) => HandOver(p, FreeOf(t), PoolFree)
  }

  ghost function ShelvedHeap(s: Heap, t: nat, n: nat): Heap {
    s.(lists := SpanAlloc.Shelved(s.lists, t, n))
  }

  /** What is shelved in class n is not shelved in another one. */
  lemma ShelvedApart(s: Heap, t: nat, n: nat)
    requires Linked(s) && Using(t, n) in s.lists && s.lists[Using(t, n)] != []
    ensures var h := s.lists[Using(t, n)][0];
      h !in s.stale && forall pl :: HasHead(ShelvedHeap(s, t, n).lists, pl) ==> h !in ShelvedHeap(s, t, n).lists[pl]
  {
    hide Linked;
    UsingIsApart(s, t, n);
  }

  lemma {:induction false} ShelveDepicts(mem: Memory<Node>, s: Heap, t: nat, n: nat)
    requires Depicts(mem, s) && Linked(s) && Running(s, t) && n <= CLASSES
    requires forall c :: 0 <= c < CLASSES ==> |s.lists[Using(t, c)]| <= 1
    ensures var m := ShelveLinks(mem, s, t, n); m.Some? && Depicts(m.value, ShelvedHeap(s, t, n))
  {
    hide Depicts, Linked, ListAddTail, SpanAlloc.Shelved;
    if n == 0 {
      SpanAlloc.NoneShelved(s.lists, t);
    } else {
      ShelveDepicts(mem, s, t, n - 1);
      SpanAlloc.OneShelved(s.lists, t, n - 1);
      if s.lists[Using(t, n - 1)] != [] {
        ShelvedApart(s, t, n - 1);
        var m, r := ShelveLinks(mem, s, t, n - 1).value, ShelvedHeap(s, t, n - 1);
        AddTailDepicts(m, r, Suspended(t, n - 1), s.lists[Using(t, n - 1)][0]);
      }
    }
  }

  /** The lists that are left when those of the first n classes have been handed over. */
  ghost function Remaining(lists: map<Place, seq<nat>>, t: nat, n: nat): map<Place, seq<nat>> {
    map pl | pl in lists && !(pl.Suspended? && pl.t == t && pl.c < n) :: lists[pl]
  }

  ghost function PooledHeap(s: Heap, t: nat, n: nat): Heap {
    s.(lists := Remaining(SpanAlloc.Pooled(s.lists, t, n), t, n))
  }

  lemma OneHandedOver(s: Heap, t: nat, n: nat)
    requires PoolSuspended(n) in s.lists && Suspended(t, n) in s.lists
    ensures var r := PooledHeap(s, t, n);
      && HasHead(r.lists, Suspended(t, n)) && HasHead(r.lists, PoolSuspended(n))
      && HandedOver(r, Suspended(t, n), PoolSuspended(n)) == PooledHeap(s, t, n + 1)
  {
    SpanAlloc.OnePooled(s.lists, t, n);
    hide SpanAlloc.Pooled;
    var r := PooledHeap(s, t, n);
    assert HandedOver(r, Suspended(t, n), PoolSuspended(n)).lists == PooledHeap(s, t, n + 1).lists;
  }

  lemma {:induction false} PoolDepicts(mem: Memory<Node>, s: Heap, t: nat, n: nat)
    requires Depicts(mem, s) && Running(s, t) && PoolReady(s) && n <= CLASSES
    ensures var m := PoolLinks(mem, t, n); m.Some? && Depicts(m.value, PooledHeap(s, t, n))
  {
    hide Depicts, HandOver, SpanAlloc.Pooled;
    if n == 0 {
      SpanAlloc.NonePooled(s.lists, t);
      assert Remaining(s.lists, t, 0) == s.lists;
    } else {
      PoolDepicts(mem, s, t, n - 1);
      OneHandedOver(s, t, n - 1);
      HandOverDepicts(PoolLinks(mem, t, n - 1).value, PooledHeap(s, t, n - 1), Suspended(t, n - 1), PoolSuspended(n - 1));
    }
  }

  /** The lists of a thread that are left in the end are its using slots and its free list. */
  lemma LastHandedOver(s: Heap, q: map<Place, seq<nat>>, t: nat)
    requires Lists(s) && q.Keys == s.lists.Keys && PoolFree in q && FreeOf(t) in q
    ensures var r := HandedOver(s.(lists := Remaining(q, t, CLASSES)), FreeOf(t), PoolFree).lists;
      var e := SpanAlloc.WithoutThread(q[PoolFree := q[PoolFree] + q[FreeOf(t)]], t);
      && (forall pl :: HasHead(r, pl) <==> HasHead(e, pl))
      && (forall pl :: HasHead(r, pl) && HasHead(e, pl) ==> r[pl] == e[pl])
  {
  }

  lemma PooledKeys(lists: map<Place, seq<nat>>, t: nat, n: nat)
    ensures SpanAlloc.Pooled(lists, t, n).Keys == lists.Keys
  {
  }

  lemma ExitLeaves(s: Heap, t: nat)
    requires Running(s, t) && PoolReady(s)
    ensures Exit(s, t).stale == s.stale
  {
  }

  lemma ExitDepicts(mem: Memory<Node>, s: Heap, t: nat)
    requires Depicts(mem, s) && Linked(s) && Lists(s) && Running(s, t) && PoolReady(s)
    ensures var m := ExitLinks(mem, s, t); m.Some? && Depicts(m.value, Exit(s, t))
  {
    hide Depicts, Linked, ShelveLinks, PoolLinks, HandOver, SpanAlloc.Shelved, SpanAlloc.Pooled, Exit;
    ShelveDepicts(mem, s, t, CLASSES);
    SpanAlloc.AllShelved(s, t);
    var m, sh := ShelveLinks(mem, s, t, CLASSES).value, ShelvedHeap(s, t, CLASSES);
    PoolDepicts(m, sh, t, CLASSES);
    var p, ph := PoolLinks(m, t, CLASSES).value, PooledHeap(sh, t, CLASSES);
    SpanAlloc.AllPooled(s, t);
    HandOverDepicts(p, ph, FreeOf(t), PoolFree);
    PooledKeys(sh.lists, t, CLASSES);
    LastHandedOver(s, SpanAlloc.Pooled(sh.lists, t, CLASSES), t);
    assert Exit(s, t).stale == s.stale by { ExitLeaves(s, t); }
    DepictsSame(HandOver(p, FreeOf(t), PoolFree).value, HandedOver(ph, FreeOf(t), PoolFree), Exit(s, t));
  }

  // Freeing.

  /** span_free_blk, whatever the owner of the span */
  function FreeLinks(mem: Memory<Node>, s: Heap, t: nat, b: nat): Option<Memory<Node>>
    requires GetHeader(b) in s.spans && s.spans[GetHeader(b)].blkSize > 0
  {
    var h := GetHeader(b);
    if TurnsFree(s.spans[h]) then ListMove(mem, NodeOf(h), HeadOf(FreeList(s.spans[h], t))) else Some(mem)
  }

  lemma FreeDepicts(mem: Memory<Node>, s: Heap, t: nat, b: nat)
    requires Depicts(mem, s) && GetHeader(b) in s.spans && s.spans[GetHeader(b)].blkSize > 0 && Free(s, t, b).Some?
    ensures var m := FreeLinks(mem, s, t, b); m.Some? && Depicts(m.value, Free(s, t, b).value)
  {
    hide Depicts, GetHeader, TurnsFree, CanMove, Moved, ListMove;
    var h, r := GetHeader(b), Free(s, t, b).value;
    if TurnsFree(s.spans[h]) {
      var to := FreeList(s.spans[h], t);
      MoveIsListMove(mem, s, h, to);
      DepictsSame(ListMove(mem, NodeOf(h), HeadOf(to)).value, Moved(s, h, to), r);
    } else {
      DepictsSame(mem, s, r);
    }
  }

  /** The lock of the owner is there, and the writes of the call find all their links and leave
    * every list a ring. */
  ghost predicate LinksGoWell(mem: Memory<Node>, s: Heap, t: nat, b: nat)
    requires GetHeader(b) in s.spans && s.spans[GetHeader(b)].blkSize > 0
  {
    && OwnerExists(s, s.spans[GetHeader(b)], t)
    && FreeLinks(mem, s, t, b).Some? && AllAreLists(FreeLinks(mem, s, t, b).value, s.lists)
  }

  lemma SuspendedOrLost(s: Heap, h: nat)
    requires Arranged(s) && h in s.spans && s.spans[h].state == SUSPEND
    ensures IsListed(s, h) || h in s.stale
  {
    var w :| InLists(s, w);
    hide Lists, Placed, Agreed;
    if h in w {
      PlacedAgrees(s, w, h);
    }
  }

  lemma NoHeadNoMove(mem: Memory<Node>, n: Node, head: Node)
    requires head !in mem && n != head
    ensures ListMove(mem, n, head).None?
  {
  }

  /** In every state of a run, block safety or not, a free goes well by the specification if and
    * only if its pointer writes go well. */
  lemma FreeGoesWellExactly(mem: Memory<Node>, s: Heap, t: nat, b: nat)
    requires Arranged(s) && Depicts(mem, s) && GetHeader(b) in s.spans && s.spans[GetHeader(b)].blkSize > 0
    ensures FreeGoesWell(s, t, GetHeader(b)) <==> LinksGoWell(mem, s, t, b)
  {
    hide Arranged, Depicts, GetHeader, Capacity, ListMove, AllAreLists, CanMove;
    if TurnsFree(s.spans[GetHeader(b)]) {
      CanMoveExactly(mem, s, GetHeader(b), FreeList(s.spans[GetHeader(b)], t));
    } else {
      DepictedAreLists(mem, s);
    }
  }

  lemma CanMoveExactly(mem: Memory<Node>, s: Heap, h: nat, to: Place)
    requires Arranged(s) && Depicts(mem, s) && h in s.spans && s.spans[h].state == SUSPEND && !to.Using?
    ensures var m := ListMove(mem, NodeOf(h), HeadOf(to));
      CanMove(s, h, to) <==> m.Some? && AllAreLists(m.value, s.lists)
  {
    hide Arranged, Depicts, ListMove, AllAreLists, RingsStay, IsMended, IsListed, Moved;
    if to !in s.lists {
      HeadsOf(mem, s, to);
      NoHeadNoMove(mem, NodeOf(h), HeadOf(to));
    } else {
      SuspendedOrLost(s, h);
      if IsListed(s, h) {
        MoveIsListMove(mem, s, h, to);
        var m := ListMove(mem, NodeOf(h), HeadOf(to)).value;
        DepictedAreLists(m, Moved(s, h, to));
        SameHeads(m, s.lists, Moved(s, h, to).lists);
      } else {
        MoveExactly(mem, s, h, to);
      }
    }
  }

  lemma HeadsOf(mem: Memory<Node>, s: Heap, pl: Place)
    requires Depicts(mem, s) && pl !in s.lists
    ensures HeadOf(pl) !in mem
  {
  }

  // Calls and runs.

  function CallLinks(mem: Memory<Node>, s: Heap, op: Op): Option<Memory<Node>>
    requires Enabled(s, op)
  {
    match op
    case StartOp(t) => Some(WithEmptyLists(mem, Heads(ClassLists(t, CLASSES) + {FreeOf(t)})))
    case MallocOp(t, sz, _) =>
      Size2ClsFits(sz);
      MallocLinks(mem, s, t, Size2Cls(sz))
    case FreeOp(t, b) => FreeLinks(mem, s, t, b)
    case ExitOp(t) => ExitLinks(mem, s, t)
  }

  lemma StartDepicts(mem: Memory<Node>, s: Heap, t: nat)
    requires Depicts(mem, s) && Lists(s) && FreeOf(t) !in s.lists
    ensures Depicts(WithEmptyLists(mem, Heads(ClassLists(t, CLASSES) + {FreeOf(t)})), Start(s, t))
  {
    var places := ClassLists(t, CLASSES) + {FreeOf(t)};
    forall pl | pl in places
      ensures pl !in s.lists
    {
      NoListOf(s, t, pl);
    }
    hide Depicts, WithEmpty, Lists;
    WithEmptyDepicts(mem, s, places);
  }

  /** Every call that ends well finds all its links, and the links that it leaves are those of the
    * lists that the specification gives. */
  lemma CallDepicts(mem: Memory<Node>, s: Heap, op: Op)
    requires Depicts(mem, s) && Lists(s) && Linked(s) && Enabled(s, op) && Call(s, op).Done?
    ensures var m := CallLinks(mem, s, op); m.Some? && Depicts(m.value, Call(s, op).heap)
  {
    hide Depicts, Lists, Linked, Malloc, MallocLinks, Free, FreeLinks, Exit, ExitLinks, Start, Running, GetHeader;
    match op
    case StartOp(t) => StartDepicts(mem, s, t);
    case MallocOp(t, sz, contiguous) => MallocDepicts(mem, s, t, sz, contiguous);
    case FreeOp(t, b) => FreeDepicts(mem, s, t, b);
    case ExitOp(t) => ExitDepicts(mem, s, t);
  }

  /** The memory that global_init leaves. */
  function InitialLinks(): Memory<Node> {
    WithEmptyLists(map[], Heads(PoolLists(CLASSES) + {PoolFree}))
  }

  lemma InitialDepicts(raw: nat)
    ensures Depicts(InitialLinks(), Initial(raw))
  {
    var s := Initial(raw);
    var bare := s.(lists := map[]);
    assert Depicts(map[], bare);
    hide Depicts, Initial;
    WithEmptyDepicts(map[], bare, PoolLists(CLASSES) + {PoolFree});
    InitialEmpty(raw);
  }

  lemma InitialEmpty(raw: nat)
    ensures var s := Initial(raw);
      s.(lists := WithEmpty(map[], PoolLists(CLASSES) + {PoolFree})) == s && s.stale == map[]
  {
  }

  /** The memories of a run: each call that ends well makes its writes. */
  ghost predicate IsTrace(run: seq<Outcome>, ops: seq<Op>, mems: seq<Memory<Node>>) {
    && |mems| == |run| == |ops| + 1 && mems[0] == InitialLinks()
    && forall i :: 0 <= i < |ops| ==> Traced(run[i], ops[i], run[i + 1], mems[i], mems[i + 1])
  }

  ghost predicate Traced(o: Outcome, op: Op, p: Outcome, mem: Memory<Node>, after: Memory<Node>) {
    o.Done? && p.Done? && Enabled(o.heap, op) ==> CallLinks(mem, o.heap, op) == Some(after)
  }

  /** In every run, guarded or not: no call that ends well follows a link that is not there, and
    * the links are those of the lists. */
  lemma {:induction false} RunDepicts(run: seq<Outcome>, ops: seq<Op>, mems: seq<Memory<Node>>, j: nat)
    requires IsRun(run, ops) && IsTrace(run, ops, mems) && j < |run| && run[j].Done?
    ensures Depicts(mems[j], run[j].heap)
  {
    hide Step, Depicts, Initial, Traced, InitialLinks;
    if j == 0 {
      var raw :| raw > 0 && run[0] == Done(Initial(raw));
      InitialDepicts(raw);
    } else {
      assert Step(run[j - 1], ops[j - 1], run[j - 1 + 1]);
      assert Traced(run[j - 1], ops[j - 1], run[j - 1 + 1], mems[j - 1], mems[j - 1 + 1]);
      StepIsNext(run[j - 1], ops[j - 1], run[j]);
      RunDepicts(run, ops, mems, j - 1);
      RunKeepsLinked(run, ops, j - 1);
      StepDepicts(run[j - 1], ops[j - 1], run[j], mems[j - 1], mems[j]);
    }
  }

  lemma StepDepicts(o: Outcome, op: Op, p: Outcome, mem: Memory<Node>, after: Memory<Node>)
    requires o.Done? && p.Done? && Next(o.heap, op, p.heap) && Lists(o.heap) && Linked(o.heap) && Depicts(mem, o.heap)
    requires Traced(o, op, p, mem, after)
    ensures Depicts(after, p.heap)
  {
    hide Enabled, Call, CallLinks, Depicts, Lists, Linked;
    CallDepicts(mem, o.heap, op);
  }

  /** Such memories exist for every run. */
  lemma {:induction false} RunHasTrace(run: seq<Outcome>, ops: seq<Op>) returns (mems: seq<Memory<Node>>)
    requires IsRun(run, ops)
    ensures IsTrace(run, ops, mems)
  {
    hide Step, Traced, InitialLinks, CallLinks;
    if ops == [] {
      mems := [InitialLinks()];
    } else {
      var n := |ops| - 1;
      RunPrefix(run, ops);
      var before := RunHasTrace(run[..n + 1], ops[..n]);
      var after := StepHasTrace(run, ops, before);
      mems := before + [after];
      forall i | 0 <= i < |ops|
        ensures Traced(run[i], ops[i], run[i + 1], mems[i], mems[i + 1])
      {
        if i < n {
          assert Traced(run[..n + 1][i], ops[..n][i], run[..n + 1][i + 1], before[i], before[i + 1]);
        }
      }
    }
  }

  lemma RunPrefix(run: seq<Outcome>, ops: seq<Op>)
    requires IsRun(run, ops) && ops != []
    ensures IsRun(run[..|ops|], ops[..|ops| - 1])
  {
    hide Step;
    var n := |ops| - 1;
    forall i | 0 <= i < n
      ensures Step(run[..n + 1][i], ops[..n][i], run[..n + 1][i + 1])
    {
      assert Step(run[i], ops[i], run[i + 1]);
    }
  }

  lemma StepHasTrace(run: seq<Outcome>, ops: seq<Op>, mems: seq<Memory<Node>>) returns (after: Memory<Node>)
    requires IsRun(run, ops) && ops != [] && IsTrace(run[..|ops|], ops[..|ops| - 1], mems)
    ensures var n := |ops| - 1; Traced(run[n], ops[n], run[n + 1], mems[n], after)
  {
    var n := |ops| - 1;
    after := mems[n];
    assert Step(run[n], ops[n], run[n + 1]);
    if run[n].Done? && run[n + 1].Done? && Enabled(run[n].heap, ops[n]) {
      RunPrefix(run, ops);
      RunDepicts(run[..n + 1], ops[..n], mems, n);
      RunKeepsLinked(run, ops, n);
      hide Enabled, Call, CallLinks, Depicts, Lists, Linked, IsTrace, IsRun;
      CallDepicts(mems[n], run[n].heap, ops[n]);
      after := CallLinks(mems[n], run[n].heap, ops[n]).value;
    }
  }

  /** The guard of block safety as the memory shows it: an allocation takes its block from a span
    * that has one, and the writes of a free go well. */
  ghost predicate LinkGuarded(mem: Memory<Node>, s: Heap, op: Op)
    requires Enabled(s, op)
  {
    match op
    case MallocOp(t, sz, _) => Size2Cls(sz) < CLASSES ==> HasBlock(s, t, Size2Cls(sz))
    case FreeOp(t, b) => LinksGoWell(mem, s, t, b)
    case _ => true
  }

  ghost predicate LinkGuardedAt(mem: Memory<Node>, o: Outcome, op: Op) {
    o.Done? && Enabled(o.heap, op) && LinkGuarded(mem, o.heap, op)
  }

  lemma GuardsAgree(mem: Memory<Node>, s: Heap, op: Op)
    requires Arranged(s) && Depicts(mem, s) && Enabled(s, op)
    ensures LinkGuarded(mem, s, op) <==> SafelyGuarded(s, op)
  {
    hide Arranged, Depicts, HasBlock, FreeGoesWell, LinksGoWell, GetHeader, Running;
    if op.FreeOp? {
      FreeGoesWellExactly(mem, s, op.t, op.b);
    }
  }

  lemma GuardsAgreeAt(run: seq<Outcome>, ops: seq<Op>, mems: seq<Memory<Node>>, j: nat)
    requires IsRun(run, ops) && IsTrace(run, ops, mems) && j < |ops|
    ensures LinkGuardedAt(mems[j], run[j], ops[j]) <==> SafelyGuardedAt(run[j], ops[j])
  {
    assert Step(run[j], ops[j], run[j + 1]);
    RunDepicts(run, ops, mems, j);
    RunKeepsLinked(run, ops, j);
    hide Arranged, Depicts, Lists, Linked, LinkGuarded, SafelyGuarded, Enabled, Call;
    GuardsAgree(mems[j], run[j].heap, ops[j]);
  }

  /** Across any interleaving, and without a word about what lost spans remember: the calls up to
    * j end well with block safety in every state if and only if every allocation before j takes
    * its block from a span that has one, and every free before j finds the lock of the owner and
    * all the links that it follows and leaves every list a ring. */
  lemma RunIsSafeByLinks(run: seq<Outcome>, ops: seq<Op>, mems: seq<Memory<Node>>, j: nat)
    requires IsRun(run, ops) && IsTrace(run, ops, mems) && j < |run|
    ensures (forall i :: 0 <= i <= j ==> IsSafe(run[i])) <==> (forall i :: 0 <= i < j ==> LinkGuardedAt(mems[i], run[i], ops[i]))
  {
    RunIsSafeExactly(run, ops, j);
    forall i | 0 <= i < j
      ensures LinkGuardedAt(mems[i], run[i], ops[i]) <==> SafelyGuardedAt(run[i], ops[i])
    {
      GuardsAgreeAt(run, ops, mems, i);
    }
  }

  /** A run, guarded or not, comes to a fault exactly at a free that does not find the lock of the
    * owner or a link that it follows, or that leaves a list which is no ring. */
  lemma RunFaultsExactly(run: seq<Outcome>, ops: seq<Op>, mems: seq<Memory<Node>>, j: nat)
    requires IsRun(run, ops) && IsTrace(run, ops, mems) && j < |ops|
    ensures run[j + 1] == Faults <==> ops[j].FreeOp? && !LinkGuardedAt(mems[j], run[j], ops[j])
  {
    assert Step(run[j], ops[j], run[j + 1]);
    GuardsAgreeAt(run, ops, mems, j);
    FaultsExactly(run[j].heap, ops[j]);
  }

  lemma FaultsExactly(s: Heap, op: Op)
    requires Enabled(s, op)
    ensures Call(s, op) == Faults <==> op.FreeOp? && !SafelyGuarded(s, op)
  {
    hide Malloc, GetHeader, FreeGoesWell, Freed, HasBlock;
  }
}
