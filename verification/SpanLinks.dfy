/** What the lists of SpanSpec.dfy stand for: nodes that are linked into rings. list_del and
  * list_add_tail are pointer writes here, also for the node of a lost span, and the steps of the
  * specification are what the writes leave. */
module SpanLinks {
  import opened Rings
  import opened Sequences
  import opened SpanSpec
  import opened SpanInv
  import opened SpanSteps

  /** The ring of a list: its head and the spans xs. */
  function NodesOf(xs: seq<nat>, pl: Place): (r: seq<Node>)
    ensures |r| == |xs| + 1 && forall i :: 0 <= i <= |xs| ==> r[i] == RingNode(xs, pl, i)
  {
    [HeadOf(pl)] + seq(|xs|, i requires 0 <= i < |xs| => NodeOf(xs[i]))
  }

  predicate HasHead(lists: map<Place, seq<nat>>, pl: Place) {
    pl in lists && !pl.Using?
  }

  /** The memory links each head and the spans of its list into one ring, in this order; it
    * has no other heads; and the lost spans, which are on no ring, remember what they should. */
  ghost predicate Depicts(mem: Memory<Node>, s: Heap) {
    && (forall pl :: HasHead(s.lists, pl) ==> Ring(mem, NodesOf(s.lists[pl], pl)))
    && (forall pl :: HeadOf(pl) in mem ==> HasHead(s.lists, pl))
    && (forall h :: h in s.stale ==> RememberedAt(mem, h, s.stale[h]))
    && (forall h, pl :: h in s.stale && HasHead(s.lists, pl) ==> h !in s.lists[pl])
  }

  ghost predicate RememberedAt(mem: Memory<Node>, h: nat, l: Links<Node>) {
    && NodeOf(h) in mem && mem[NodeOf(h)] == l
    && (l.prev.NodeOf? ==> l.prev in mem) && (l.next.NodeOf? ==> l.next in mem)
  }

  // The operations; None is an access through a link that is not there.

  /** list_del */
  function ListDel(mem: Memory<Node>, n: Node): (r: Option<Memory<Node>>) {
    if n in mem && mem[n].prev in mem && mem[n].next in mem then Some(Unlink(mem, mem[n].prev, mem[n].next)) else None
  }

  /** list_add_tail */
  function ListAddTail(mem: Memory<Node>, n: Node, head: Node): Option<Memory<Node>>
    requires n != head
  {
    if head in mem && mem[head].prev in mem then Some(LinkBetween(mem, n, mem[head].prev, head)) else None
  }

  /** Both, as in span_free_blk. */
  function ListMove(mem: Memory<Node>, n: Node, head: Node): Option<Memory<Node>>
    requires n != head
  {
    match ListDel(mem, n)
    case None => None
    case Some(m) => ListAddTail(m, n, head)
  }

  // Lists and rings.

  lemma NodeIsOn(xs: seq<nat>, pl: Place, n: Node)
    ensures n in NodesOf(xs, pl) <==> Position(xs, pl, n) <= |xs|
    ensures Position(xs, pl, n) <= |xs| ==> NodesOf(xs, pl)[Position(xs, pl, n)] == n
  {
    var r := NodesOf(xs, pl);
    if n in r {
      var i :| 0 <= i <= |xs| && r[i] == n;
    } 
    if Position(xs, pl, n) <= |xs| {
      assert r[Position(xs, pl, n)] in r;
    }
  }

  lemma NodesDistinct(xs: seq<nat>, pl: Place)
    requires Distinct(NodesOf(xs, pl))
    ensures Distinct(xs)
  {
    var r := NodesOf(xs, pl);
    forall i, j | 0 <= i < j < |xs|
      ensures xs[i] != xs[j]
    {
      assert r[i + 1] != r[j + 1];
    }
  }

  lemma PositionOf(xs: seq<nat>, pl: Place, i: nat)
    requires Distinct(NodesOf(xs, pl)) && i <= |xs|
    ensures Position(xs, pl, NodesOf(xs, pl)[i]) == i
  {
    NodeIsOn(xs, pl, NodesOf(xs, pl)[i]);
  }

  lemma SpansExactly(xs: seq<nat>, pl: Place, l: Links<Node>, j: nat, m: nat)
    requires Distinct(NodesOf(xs, pl))
    ensures Spans(NodesOf(xs, pl), l.prev, l.next, j, m)
            <==> j == Position(xs, pl, l.prev) < m == GoesOnAt(xs, pl, l.next) <= |xs| + 1 && Position(xs, pl, l.next) <= |xs|
  {
    var r := NodesOf(xs, pl);
    NodeIsOn(xs, pl, l.prev);
    NodeIsOn(xs, pl, l.next);
    if j <= |xs| {
      PositionOf(xs, pl, j);
    }
    if m <= |xs| {
      PositionOf(xs, pl, m);
    }
    PositionOf(xs, pl, 0);
  }

  lemma KeptNodes(xs: seq<nat>, pl: Place, l: Links<Node>)
    requires Position(xs, pl, l.prev) < GoesOnAt(xs, pl, l.next) <= |xs| + 1
    ensures var j, m := Position(xs, pl, l.prev), GoesOnAt(xs, pl, l.next);
      NodesOf(Kept(xs, pl, l), pl) == NodesOf(xs, pl)[..j + 1] + NodesOf(xs, pl)[m..]
  {
    hide Position, GoesOnAt;
  }

  /** Two rings of the same memory that share a node have the same nodes. */
  lemma {:induction false} SharedNode(mem: Memory<Node>, r: seq<Node>, s: seq<Node>, i: nat)
    requires Ring(mem, r) && Ring(mem, s) && i < |r| && r[i] in s
    ensures r[0] in s
  {
    if i > 0 {
      assert LinkedAt(mem, r, i);
      Rings.LinksAreInverse(mem, s, r[i]);
      SharedNode(mem, r, s, i - 1);
    }
  }

  /** So a node is on the ring of one head at most. */
  lemma ApartRings(mem: Memory<Node>, s: Heap, pl: Place, ql: Place, n: Node)
    requires Depicts(mem, s) && HasHead(s.lists, pl) && HasHead(s.lists, ql) && pl != ql
    requires n in NodesOf(s.lists[pl], pl)
    ensures n !in NodesOf(s.lists[ql], ql)
  {
    var r, q := NodesOf(s.lists[pl], pl), NodesOf(s.lists[ql], ql);
    var i :| 0 <= i < |r| && r[i] == n;
    if n in q {
      SharedNode(mem, r, q, i);
      NodeIsOn(s.lists[ql], ql, HeadOf(pl));
    }
  }

  lemma OnRingExactly(lists: map<Place, seq<nat>>, pl: Place, n: Node)
    ensures OnRing(lists, pl, n) <==> HasHead(lists, pl) && n in NodesOf(lists[pl], pl)
  {
    if HasHead(lists, pl) {
      NodeIsOn(lists[pl], pl, n);
    }
  }

  lemma StaleIsOff(mem: Memory<Node>, s: Heap, pl: Place, h: nat)
    requires Depicts(mem, s) && HasHead(s.lists, pl) && h !in s.lists[pl]
    ensures NodeOf(h) !in NodesOf(s.lists[pl], pl)
  {
    NodeIsOn(s.lists[pl], pl, NodeOf(h));
  }

  // What the operations leave.

  /** Only the rings and the lost spans matter. */
  lemma DepictsSame(mem: Memory<Node>, s: Heap, r: Heap)
    requires Depicts(mem, s) && r.stale == s.stale
    requires forall pl :: HasHead(r.lists, pl) <==> HasHead(s.lists, pl)
    requires forall pl :: HasHead(s.lists, pl) && HasHead(r.lists, pl) ==> r.lists[pl] == s.lists[pl]
    ensures Depicts(mem, r)
  {
  }

  lemma Forgotten(mem: Memory<Node>, s: Heap, h: nat)
    requires Depicts(mem, s)
    ensures Depicts(mem, s.(stale := s.stale - {h}))
  {
    hide Ring;
  }

  /** list_add_tail of a span that is in no list. */
  lemma AddTailDepicts(mem: Memory<Node>, s: Heap, pl: Place, h: nat)
    requires Depicts(mem, s) && HasHead(s.lists, pl) && h !in s.stale
    requires forall ql :: HasHead(s.lists, ql) ==> h !in s.lists[ql]
    ensures var m := ListAddTail(mem, NodeOf(h), HeadOf(pl)); m.Some? && Depicts(m.value, Append(s, pl, h))
  {
    var xs, r := s.lists[pl], NodesOf(s.lists[pl], pl);
    assert LinkedAt(mem, r, 0);
    assert Around(r, |r|) == HeadOf(pl) && mem[HeadOf(pl)].prev == r[|xs|];
    StaleIsOff(mem, s, pl, h);
    InsertRing(mem, r, |xs|, NodeOf(h));
    var after := LinkBetween(mem, NodeOf(h), r[|xs|], HeadOf(pl));
    assert NodesOf(xs + [h], pl) == r[..|xs| + 1] + [NodeOf(h)] + r[|xs| + 1..];
    hide Ring;
    forall ql | HasHead(s.lists, ql) && ql != pl
      ensures Ring(after, NodesOf(s.lists[ql], ql))
    {
      ApartRings(mem, s, pl, ql, r[|xs|]);
      ApartRings(mem, s, pl, ql, HeadOf(pl));
      StaleIsOff(mem, s, ql, h);
      RingSame(mem, after, NodesOf(s.lists[ql], ql));
    }
    forall g | g in s.stale
      ensures RememberedAt(after, g, s.stale[g])
    {
      StaleIsOff(mem, s, pl, g);
    }
  }

  lemma CutIndex(xs: seq<nat>, pl: Place, l: Links<Node>, h: nat)
    requires Distinct(xs) && Position(xs, pl, l.prev) < GoesOnAt(xs, pl, l.next) <= |xs| + 1 && h in CutOut(xs, pl, l)
    ensures IndexOf(xs, h) < |xs| && h !in Kept(xs, pl, l) && NodeOf(h) != l.prev && NodeOf(h) != l.next
  {
    KeptAndCut(xs, pl, l);
    var k :| 0 <= k < |CutOut(xs, pl, l)| && CutOut(xs, pl, l)[k] == h;
    assert xs[Position(xs, pl, l.prev) + k] == h;
  }

  lemma RingLinks(mem: Memory<Node>, xs: seq<nat>, pl: Place, i: nat)
    requires Ring(mem, NodesOf(xs, pl)) && i < |xs|
    ensures RememberedAt(mem, xs[i], LinksAt(xs, pl, i))
  {
    var r := NodesOf(xs, pl);
    RingIsHeld(mem, r);
    assert LinkedAt(mem, r, i + 1) && Around(r, i) in r && Around(r, i + 2) in r;
  }

  /** A span between the two nodes keeps its links, and it is in no list any more. */
  lemma CutIsRemembered(mem: Memory<Node>, s: Heap, pl: Place, l: Links<Node>, h: nat)
    requires Depicts(mem, s) && InOrder(s.lists, pl, l) && l.prev in mem && l.next in mem && h in CutOut(s.lists[pl], pl, l)
    ensures IndexOf(s.lists[pl], h) < |s.lists[pl]|
    ensures RememberedAt(Unlink(mem, l.prev, l.next), h, LinksAt(s.lists[pl], pl, IndexOf(s.lists[pl], h)))
    ensures h !in Kept(s.lists[pl], pl, l)
    ensures forall ql :: HasHead(s.lists, ql) && ql != pl ==> h !in s.lists[ql]
  {
    var xs := s.lists[pl];
    NodesDistinct(xs, pl);
    CutIndex(xs, pl, l, h);
    RingLinks(mem, xs, pl, IndexOf(xs, h));
    NodeIsOn(xs, pl, NodeOf(h));
    hide Ring, LinksAt, GoesOnAt, Kept, CutOut;
    forall ql | HasHead(s.lists, ql) && ql != pl
      ensures h !in s.lists[ql]
    {
      ApartRings(mem, s, pl, ql, NodeOf(h));
      NodeIsOn(s.lists[ql], ql, NodeOf(h));
    }
  }

  lemma CutNodesAreHeld(mem: Memory<Node>, s: Heap, pl: Place, l: Links<Node>)
    requires Depicts(mem, s) && InOrder(s.lists, pl, l)
    ensures HasHead(s.lists, pl) && l.prev in NodesOf(s.lists[pl], pl) && l.next in NodesOf(s.lists[pl], pl)
    ensures l.prev in mem && l.next in mem
  {
    OnRingExactly(s.lists, pl, l.prev);
    OnRingExactly(s.lists, pl, l.next);
    RingIsHeld(mem, NodesOf(s.lists[pl], pl));
  }

  lemma CutRings(mem: Memory<Node>, s: Heap, pl: Place, l: Links<Node>, ql: Place)
    requires Depicts(mem, s) && InOrder(s.lists, pl, l) && l.prev in mem && l.next in mem && HasHead(s.lists, ql)
    ensures Ring(Unlink(mem, l.prev, l.next), NodesOf(CutAt(s, pl, l).lists[ql], ql))
  {
    var xs, r := s.lists[pl], NodesOf(s.lists[pl], pl);
    CutNodesAreHeld(mem, s, pl, l);
    if ql == pl {
      SpansExactly(xs, pl, l, Position(xs, pl, l.prev), GoesOnAt(xs, pl, l.next));
      KeptNodes(xs, pl, l);
      CutRing(mem, r, Position(xs, pl, l.prev), GoesOnAt(xs, pl, l.next));
    } else {
      hide Position, Kept, LinksOf, CutOut;
      ApartRings(mem, s, pl, ql, l.prev);
      ApartRings(mem, s, pl, ql, l.next);
      RingSame(mem, Unlink(mem, l.prev, l.next), NodesOf(s.lists[ql], ql));
    }
  }

  lemma CutStale(mem: Memory<Node>, s: Heap, pl: Place, l: Links<Node>, h: nat)
    requires Depicts(mem, s) && InOrder(s.lists, pl, l) && l.prev in mem && l.next in mem && h in CutAt(s, pl, l).stale
    ensures var t := CutAt(s, pl, l);
      && RememberedAt(Unlink(mem, l.prev, l.next), h, t.stale[h])
      && forall ql :: HasHead(t.lists, ql) ==> h !in t.lists[ql]
  {
    CutNodesAreHeld(mem, s, pl, l);
    if h in CutOut(s.lists[pl], pl, l) {
      CutIsRemembered(mem, s, pl, l, h);
    } else {
      hide Ring, Position, LinksAt, GoesOnAt;
      StaleIsOff(mem, s, pl, h);
    }
  }

  /** The two nodes are on one ring, in order: what lies between them leaves it. */
  lemma CutDepicts(mem: Memory<Node>, s: Heap, pl: Place, l: Links<Node>)
    requires Depicts(mem, s) && InOrder(s.lists, pl, l)
    ensures l.prev in mem && l.next in mem && Depicts(Unlink(mem, l.prev, l.next), CutAt(s, pl, l))
  {
    CutNodesAreHeld(mem, s, pl, l);
    hide Ring, InOrder, Kept, LinksOf, RememberedAt;
    var t := CutAt(s, pl, l);
    forall ql | HasHead(t.lists, ql)
      ensures Ring(Unlink(mem, l.prev, l.next), NodesOf(t.lists[ql], ql))
    {
      CutRings(mem, s, pl, l, ql);
    }
    forall h | h in t.stale
      ensures RememberedAt(Unlink(mem, l.prev, l.next), h, t.stale[h])
      ensures forall ql :: HasHead(t.lists, ql) ==> h !in t.lists[ql]
    {
      CutStale(mem, s, pl, l, h);
    }
  }

  lemma HeadIsHeld(mem: Memory<Node>, s: Heap, pl: Place)
    requires Depicts(mem, s) && HasHead(s.lists, pl)
    ensures var r := NodesOf(s.lists[pl], pl);
      && HeadOf(pl) in mem && mem[HeadOf(pl)].prev == r[|s.lists[pl]|] && r[|s.lists[pl]|] in mem
      && mem[r[|s.lists[pl]|]].next == HeadOf(pl)
  {
    var r := NodesOf(s.lists[pl], pl);
    assert LinkedAt(mem, r, 0) && LinkedAt(mem, r, |r| - 1);
  }

  /** The nodes that a lost span remembers are held exactly if those that are heads exist. */
  lemma NodesAreHeld(mem: Memory<Node>, s: Heap, h: nat)
    requires Depicts(mem, s) && h in s.stale
    ensures var l := s.stale[h];
      l.prev in mem && l.next in mem <==> NodeExists(s.lists, l.prev) && NodeExists(s.lists, l.next)
  {
    var l := s.stale[h];
    assert RememberedAt(mem, h, l);
    forall pl | HasHead(s.lists, pl)
      ensures HeadOf(pl) in mem
    {
      HeadIsHeld(mem, s, pl);
    }
  }

  /** Neither node is on a ring. */
  lemma RewriteDepicts(mem: Memory<Node>, s: Heap, l: Links<Node>)
    requires Depicts(mem, s) && l.prev in mem && l.next in mem && OnNoRing(s.lists, l.prev) && OnNoRing(s.lists, l.next)
    ensures Depicts(Unlink(mem, l.prev, l.next), s.(stale := Rewritten(s.stale, l)))
  {
    hide Ring, OnRing;
    forall pl | HasHead(s.lists, pl)
      ensures Ring(Unlink(mem, l.prev, l.next), NodesOf(s.lists[pl], pl))
    {
      assert !OnRing(s.lists, pl, l.prev) && !OnRing(s.lists, pl, l.next);
      OnRingExactly(s.lists, pl, l.prev);
      OnRingExactly(s.lists, pl, l.next);
      RingSame(mem, Unlink(mem, l.prev, l.next), NodesOf(s.lists[pl], pl));
    }
  }

  /** list_del where both nodes are on one ring, in order, or neither is on any. */
  lemma StaleDelIsListDel(mem: Memory<Node>, s: Heap, l: Links<Node>)
    requires Depicts(mem, s) && l.prev in mem && l.next in mem && RingsStay(s.lists, l)
    ensures Depicts(Unlink(mem, l.prev, l.next), StaleDel(s, l))
  {
    hide Depicts, CutAt, Rewritten, InOrder, OnNoRing, Unlink;
    if exists pl :: InOrder(s.lists, pl, l) {
      CutDepicts(mem, s, RingOf(s.lists, l), l);
    } else {
      RewriteDepicts(mem, s, l);
    }
  }

  /** prev is the last node of the list that the span joins, and next is on no ring. */
  lemma MendDepicts(mem: Memory<Node>, s: Heap, h: nat, to: Place)
    requires Depicts(mem, s) && h in s.stale && HasHead(s.lists, to) && IsMended(s.lists, s.stale[h], to)
    ensures var l := s.stale[h];
      && l.prev in mem && l.next in mem && HeadOf(to) in mem && l.next != HeadOf(to)
      && Depicts(LinkBetween(Unlink(mem, l.prev, l.next), NodeOf(h), l.prev, HeadOf(to)),
                 Append(s.(stale := Rewritten(s.stale, l) - {h}), to, h))
  {
    var l := s.stale[h];
    var after := MendRings(mem, s, h, to);
    hide Ring, IsMended;
    forall g | g in s.stale && g != h
      ensures RememberedAt(after, g, Rewritten(s.stale, l)[g])
    {
      assert RememberedAt(mem, g, s.stale[g]);
      StaleIsOff(mem, s, to, g);
      hide Depicts;
    }
    StaleIsOff(mem, s, to, h);
  }

  lemma MendRings(mem: Memory<Node>, s: Heap, h: nat, to: Place) returns (after: Memory<Node>)
    requires Depicts(mem, s) && h in s.stale && HasHead(s.lists, to) && IsMended(s.lists, s.stale[h], to)
    ensures var l := s.stale[h];
      && l.prev in mem && l.next in mem && HeadOf(to) in mem && l.next != HeadOf(to)
      && l.prev in NodesOf(s.lists[to], to)
      && after == LinkBetween(Unlink(mem, l.prev, l.next), NodeOf(h), l.prev, HeadOf(to))
    ensures Ring(after, NodesOf(s.lists[to] + [h], to))
    ensures forall pl :: HasHead(s.lists, pl) && pl != to ==> Ring(after, NodesOf(s.lists[pl], pl))
  {
    var l, xs, r := s.stale[h], s.lists[to], NodesOf(s.lists[to], to);
    NodesAreHeld(mem, s, h);
    HeadIsHeld(mem, s, to);
    NodeIsOn(xs, to, l.prev);
    StaleIsOff(mem, s, to, h);
    OffRings(mem, s, l.next);
    InsertRing(mem, r, |xs|, NodeOf(h));
    assert NodesOf(xs + [h], to) == r[..|xs| + 1] + [NodeOf(h)] + r[|xs| + 1..];
    assert r[0] in r && Around(r, |xs| + 1) == HeadOf(to) && r[|xs|] == l.prev;
    after := LinkBetween(Unlink(mem, l.prev, l.next), NodeOf(h), l.prev, HeadOf(to));
    RingSame(LinkBetween(mem, NodeOf(h), l.prev, HeadOf(to)), after, NodesOf(xs + [h], to));
    hide Ring;
    forall pl | HasHead(s.lists, pl) && pl != to
      ensures Ring(after, NodesOf(s.lists[pl], pl))
    {
      ApartRings(mem, s, to, pl, l.prev);
      ApartRings(mem, s, to, pl, HeadOf(to));
      StaleIsOff(mem, s, pl, h);
      RingSame(mem, after, NodesOf(s.lists[pl], pl));
    }
  }

  lemma OffRings(mem: Memory<Node>, s: Heap, n: Node)
    requires OnNoRing(s.lists, n)
    ensures forall pl :: HasHead(s.lists, pl) ==> n !in NodesOf(s.lists[pl], pl)
  {
    forall pl | HasHead(s.lists, pl)
      ensures n !in NodesOf(s.lists[pl], pl)
    {
      assert !OnRing(s.lists, pl, n);
      OnRingExactly(s.lists, pl, n);
    }
  }

  // A span that is linked.

  lemma DropIsCut(s: Heap, pl: Place, i: nat)
    requires HasHead(s.lists, pl) && i < |s.lists[pl]| && Distinct(NodesOf(s.lists[pl], pl))
    ensures var l := LinksAt(s.lists[pl], pl, i); InOrder(s.lists, pl, l) && CutAt(s, pl, l) == Dropped(s, pl, i)
  {
    var xs := s.lists[pl];
    LinksStand(xs, pl, i);
    NodesDistinct(xs, pl);
    CutIsWithout(xs, pl, i);
    hide Position, GoesOnAt, LinksAt, LinksOf, Without, Distinct, Kept, CutOut, NodesOf;
    assert s.stale + map[xs[i] := LinksAt(xs, pl, i)] == s.stale[xs[i] := LinksAt(xs, pl, i)];
  }

  lemma CutIsWithout(xs: seq<nat>, pl: Place, i: nat)
    requires i < |xs| && Distinct(xs)
    requires Position(xs, pl, LinksAt(xs, pl, i).prev) == i && GoesOnAt(xs, pl, LinksAt(xs, pl, i).next) == i + 2
    ensures var l := LinksAt(xs, pl, i);
      Kept(xs, pl, l) == Without(xs, xs[i]) && LinksOf(xs, pl, CutOut(xs, pl, l)) == map[xs[i] := l]
  {
    hide Position, GoesOnAt, LinksAt, LinksOf, Without, Distinct, Kept, CutOut;
    WithoutAt(xs, i);
    OneLinks(xs, pl, i);
    CutOne(xs, pl, LinksAt(xs, pl, i), i);
  }

  lemma CutOne(xs: seq<nat>, pl: Place, l: Links<Node>, i: nat)
    requires i < |xs| && Position(xs, pl, l.prev) == i && GoesOnAt(xs, pl, l.next) == i + 2
    ensures Kept(xs, pl, l) == xs[..i] + xs[i + 1..] && CutOut(xs, pl, l) == [xs[i]]
  {
    hide Position, GoesOnAt;
  }

  /** The neighbours of a span stand around it. */
  lemma LinksStand(xs: seq<nat>, pl: Place, i: nat)
    requires i < |xs| && Distinct(NodesOf(xs, pl))
    ensures var l := LinksAt(xs, pl, i);
      Position(xs, pl, l.prev) == i && Position(xs, pl, l.next) <= |xs| && GoesOnAt(xs, pl, l.next) == i + 2
  {
    PositionOf(xs, pl, i);
    PositionOf(xs, pl, if i + 1 == |xs| then 0 else i + 2);
  }

  lemma OneLinks(xs: seq<nat>, pl: Place, i: nat)
    requires i < |xs| && Distinct(xs)
    ensures LinksOf(xs, pl, [xs[i]]) == map[xs[i] := LinksAt(xs, pl, i)]
  {
    assert IndexOf(xs, xs[i]) == i;
    hide LinksAt;
  }

  lemma {:induction false} WithoutAt(xs: seq<nat>, i: nat)
    requires i < |xs| && Distinct(xs)
    ensures Without(xs, xs[i]) == xs[..i] + xs[i + 1..]
  {
    if i > 0 {
      WithoutAt(xs[1..], i - 1);
    }
  }

  /** The span that the walk unlinks keeps the links that are recorded for it. */
  lemma DropIsListDel(mem: Memory<Node>, s: Heap, pl: Place, i: nat)
    requires Depicts(mem, s) && HasHead(s.lists, pl) && i < |s.lists[pl]|
    ensures var m := ListDel(mem, NodeOf(s.lists[pl][i])); m.Some? && Depicts(m.value, Dropped(s, pl, i))
  {
    var xs, r := s.lists[pl], NodesOf(s.lists[pl], pl);
    assert LinkedAt(mem, r, i + 1) && r[i + 1] == NodeOf(xs[i]);
    assert mem[NodeOf(xs[i])] == LinksAt(xs, pl, i);
    DropIsCut(s, pl, i);
    CutDepicts(mem, s, pl, LinksAt(xs, pl, i));
  }

  /** list_del of a span that is linked. */
  lemma RemoveIsListDel(mem: Memory<Node>, s: Heap, pl: Place, h: nat)
    requires Depicts(mem, s) && HasHead(s.lists, pl) && h in s.lists[pl]
    ensures var m := ListDel(mem, NodeOf(h)); m.Some? && Depicts(m.value, Remove(s, pl, h))
    ensures h !in s.stale && forall ql :: HasHead(s.lists, ql) ==> h !in Remove(s, pl, h).lists[ql]
  {
    var i :| 0 <= i < |s.lists[pl]| && s.lists[pl][i] == h;
    DropIsListDel(mem, s, pl, i);
    assert h !in s.stale;
    var t := Dropped(s, pl, i);
    assert h in t.stale;
    hide Ring, ListDel, Without;
    Forgotten(ListDel(mem, NodeOf(h)).value, t, h);
    assert t.(stale := t.stale - {h}) == Remove(s, pl, h);
  }

  // A span that turns FREE.

  /** The span moves: the two calls find all their links, and what they leave is what the
    * specification says. */
  lemma MoveIsListMove(mem: Memory<Node>, s: Heap, h: nat, to: Place)
    requires Depicts(mem, s) && h in s.spans && CanMove(s, h, to) && !to.Using?
    ensures var m := ListMove(mem, NodeOf(h), HeadOf(to)); m.Some? && Depicts(m.value, Moved(s, h, to))
  {
    hide Depicts, StaleDel, RingsStay, IsMended, Without, Unlink, LinkBetween;
    if IsListed(s, h) {
      var pl := SuspendList(s.spans[h]);
      RemoveIsListDel(mem, s, pl, h);
      AddTailDepicts(ListDel(mem, NodeOf(h)).value, Remove(s, pl, h), to, h);
    } else if RingsStay(s.lists, s.stale[h]) {
      RelinkedMove(mem, s, h, to);
    } else {
      MendedMove(mem, s, h, to);
    }
  }

  lemma RelinkedMove(mem: Memory<Node>, s: Heap, h: nat, to: Place)
    requires Depicts(mem, s) && h in s.stale && HasHead(s.lists, to) && RingsStay(s.lists, s.stale[h])
    ensures var t := StaleDel(s, s.stale[h]);
      var m := ListMove(mem, NodeOf(h), HeadOf(to));
      m.Some? && Depicts(m.value, Append(t.(stale := t.stale - {h}), to, h))
  {
    var l := s.stale[h];
    assert RememberedAt(mem, h, l);
    NodesAreHeld(mem, s, h);
    StaleDelIsListDel(mem, s, l);
    StaleStays(mem, s, h);
    var t := StaleDel(s, l);
    hide Ring, StaleDel, RingsStay, Unlink;
    Forgotten(Unlink(mem, l.prev, l.next), t, h);
    AddTailDepicts(Unlink(mem, l.prev, l.next), t.(stale := t.stale - {h}), to, h);
  }

  /** A lost span does not come back into a list when others leave theirs. */
  lemma StaleStays(mem: Memory<Node>, s: Heap, h: nat)
    requires Depicts(mem, s) && h in s.stale
    ensures var t := StaleDel(s, s.stale[h]);
      forall pl :: HasHead(t.lists, pl) ==> HasHead(s.lists, pl) && h !in t.lists[pl]
  {
    hide Ring, Position, GoesOnAt, LinksOf, CutOut, Rewritten, RememberedAt;
  }

  lemma MendedMove(mem: Memory<Node>, s: Heap, h: nat, to: Place)
    requires Depicts(mem, s) && h in s.stale && HasHead(s.lists, to) && !RingsStay(s.lists, s.stale[h]) && IsMended(s.lists, s.stale[h], to)
    ensures var t := StaleDel(s, s.stale[h]);
      var m := ListMove(mem, NodeOf(h), HeadOf(to));
      m.Some? && Depicts(m.value, Append(t.(stale := t.stale - {h}), to, h))
  {
    var l := s.stale[h];
    assert RememberedAt(mem, h, l);
    MendDepicts(mem, s, h, to);
    HeadIsHeld(mem, s, to);
    NodeIsOn(s.lists[to], to, l.prev);
    assert StaleDel(s, l) == s.(stale := Rewritten(s.stale, l));
    assert Unlink(mem, l.prev, l.next)[HeadOf(to)].prev == l.prev;
  }

  // And otherwise a list is no ring in the end.

  /** The head of pl is on a ring of spans. */
  ghost predicate IsAList(mem: Memory<Node>, pl: Place) {
    exists xs :: Ring(mem, NodesOf(xs, pl))
  }

  ghost predicate AllAreLists(mem: Memory<Node>, lists: map<Place, seq<nat>>) {
    forall pl :: HasHead(lists, pl) ==> IsAList(mem, pl)
  }

  /** If list_del alone leaves rings, the two nodes were on one, in order, or on none. */
  lemma DelOnlyIf(mem: Memory<Node>, s: Heap, l: Links<Node>)
    requires Depicts(mem, s) && l.prev in mem && l.next in mem
    requires AllAreLists(Unlink(mem, l.prev, l.next), s.lists)
    ensures RingsStay(s.lists, l)
  {
    if n :| n in [l.prev, l.next] && !OnNoRing(s.lists, n) {
      var pl :| OnRing(s.lists, pl, n);
      OnRingExactly(s.lists, pl, n);
      assert IsAList(Unlink(mem, l.prev, l.next), pl);
      StaysInOrder(mem, s, pl, l);
    }
  }

  /** list_del alone leaves every list a ring if and only if the two nodes are on one, in order,
    * or on none. */
  lemma RingsStayExactly(mem: Memory<Node>, s: Heap, l: Links<Node>)
    requires Depicts(mem, s) && l.prev in mem && l.next in mem
    ensures RingsStay(s.lists, l) <==> AllAreLists(Unlink(mem, l.prev, l.next), s.lists)
  {
    hide Depicts, RingsStay, Unlink, AllAreLists;
    if RingsStay(s.lists, l) {
      StaleDelIsListDel(mem, s, l);
      DepictedAreLists(Unlink(mem, l.prev, l.next), StaleDel(s, l));
      SameHeads(Unlink(mem, l.prev, l.next), s.lists, StaleDel(s, l).lists);
    } else if AllAreLists(Unlink(mem, l.prev, l.next), s.lists) {
      DelOnlyIf(mem, s, l);
    }
  }

  lemma SameHeads(mem: Memory<Node>, lists: map<Place, seq<nat>>, others: map<Place, seq<nat>>)
    requires lists.Keys == others.Keys && AllAreLists(mem, others)
    ensures AllAreLists(mem, lists)
  {
  }

  lemma StaysInOrder(mem: Memory<Node>, s: Heap, pl: Place, l: Links<Node>)
    requires Depicts(mem, s) && HasHead(s.lists, pl) && l.prev in mem && l.next in mem
    requires l.prev in NodesOf(s.lists[pl], pl) || l.next in NodesOf(s.lists[pl], pl)
    requires IsAList(Unlink(mem, l.prev, l.next), pl)
    ensures InOrder(s.lists, pl, l)
  {
    var r := NodesOf(s.lists[pl], pl);
    var ys :| Ring(Unlink(mem, l.prev, l.next), NodesOf(ys, pl));
    StillARing(mem, r, l.prev, l.next, NodesOf(ys, pl));
    var j: nat, m: nat :| Spans(r, l.prev, l.next, j, m);
    SpansExactly(s.lists[pl], pl, l, j, m);
  }

  /** list_add_tail leaves rings only where there were rings before, unless it writes the link
    * that list_del broke. */
  lemma TailOnlyIf(mem: Memory<Node>, lists: map<Place, seq<nat>>, h: nat, to: Place)
    requires HeadOf(to) in mem && mem[HeadOf(to)].prev in mem && mem[mem[HeadOf(to)].prev].next == HeadOf(to)
    requires AllAreLists(LinkBetween(mem, NodeOf(h), mem[HeadOf(to)].prev, HeadOf(to)), lists)
    ensures AllAreLists(mem, lists)
  {
    var last := mem[HeadOf(to)].prev;
    var after := LinkBetween(mem, NodeOf(h), last, HeadOf(to));
    forall pl | HasHead(lists, pl)
      ensures IsAList(mem, pl)
    {
      assert IsAList(after, pl);
      var ys :| Ring(after, NodesOf(ys, pl));
      var r := NodesOf(ys, pl);
      TailUndone(mem, NodeOf(h), last, HeadOf(to), r);
      if pl == to {
        assert NodesOf(ys[..|ys| - 1], pl) == r[..|r| - 1];
      } else {
        NodeIsOn(ys, pl, HeadOf(to));
      }
    }
  }

  lemma MoveOnlyIf(mem: Memory<Node>, s: Heap, h: nat, to: Place)
    requires Depicts(mem, s) && h in s.stale && HasHead(s.lists, to)
    requires ListMove(mem, NodeOf(h), HeadOf(to)).Some? && AllAreLists(ListMove(mem, NodeOf(h), HeadOf(to)).value, s.lists)
    ensures RingsStay(s.lists, s.stale[h]) || IsMended(s.lists, s.stale[h], to)
  {
    var l, xs := s.stale[h], s.lists[to];
    assert RememberedAt(mem, h, l);
    NodesAreHeld(mem, s, h);
    HeadIsHeld(mem, s, to);
    var m := Unlink(mem, l.prev, l.next);
    if l.prev == NodesOf(xs, to)[|xs|] && l.next != HeadOf(to) {
      NodeIsOn(xs, to, l.prev);
      if pl :| OnRing(s.lists, pl, l.next) {
        NoMending(mem, s, h, to, pl);
      }
    } else {
      assert m[m[HeadOf(to)].prev].next == HeadOf(to);
      TailOnlyIf(m, s.lists, h, to);
      DelOnlyIf(mem, s, l);
    }
  }

  lemma NoMending(mem: Memory<Node>, s: Heap, h: nat, to: Place, pl: Place)
    requires Depicts(mem, s) && h in s.stale && HasHead(s.lists, to) && OnRing(s.lists, pl, s.stale[h].next)
    requires s.stale[h].prev == NodesOf(s.lists[to], to)[|s.lists[to]|] && s.stale[h].next != HeadOf(to)
    ensures var m := ListMove(mem, NodeOf(h), HeadOf(to)); m.None? || !IsAList(m.value, pl)
  {
    var l, r, q := s.stale[h], NodesOf(s.lists[to], to), NodesOf(s.lists[pl], pl);
    OnRingExactly(s.lists, pl, l.next);
    StaleIsOff(mem, s, to, h);
    StaleIsOff(mem, s, pl, h);
    HeadIsHeld(mem, s, to);
    RingIsHeld(mem, q);
    assert RememberedAt(mem, h, l);
    if pl != to {
      forall n | n in q
        ensures n !in r
      {
        ApartRings(mem, s, pl, to, n);
      }
    }
    forall ys
      ensures !Ring(LinkBetween(Unlink(mem, l.prev, l.next), NodeOf(h), l.prev, HeadOf(to)), NodesOf(ys, pl))
    {
      NotMended(mem, r, NodeOf(h), l.next, q, NodesOf(ys, pl));
    }
  }

  /** list_del of the node of a lost span and list_add_tail to the list to find all their links
    * and leave every list a ring, if and only if one of the conditions of the specification
    * holds. */
  lemma MoveExactly(mem: Memory<Node>, s: Heap, h: nat, to: Place)
    requires Depicts(mem, s) && h in s.spans && h in s.stale && HasHead(s.lists, to)
    ensures var m := ListMove(mem, NodeOf(h), HeadOf(to));
      m.Some? && AllAreLists(m.value, s.lists)
      <==> RingsStay(s.lists, s.stale[h]) || IsMended(s.lists, s.stale[h], to)
  {
    hide RingsStay, IsMended, ListMove;
    if RingsStay(s.lists, s.stale[h]) || IsMended(s.lists, s.stale[h], to) {
      MoveIsListMove(mem, s, h, to);
      DepictedAreLists(ListMove(mem, NodeOf(h), HeadOf(to)).value, Moved(s, h, to));
    } else if ListMove(mem, NodeOf(h), HeadOf(to)).Some? && AllAreLists(ListMove(mem, NodeOf(h), HeadOf(to)).value, s.lists) {
      MoveOnlyIf(mem, s, h, to);
    }
  }

  lemma DepictedAreLists(mem: Memory<Node>, s: Heap)
    requires Depicts(mem, s)
    ensures AllAreLists(mem, s.lists)
  {
  }
}
