/** The intrusive circular doubly linked list of src/list.h, with its head as a
  * sentinel. A list is described by a ghost sequence; every operation is proved
  * to act on that sequence as cons, snoc, removal or concatenation, and the
  * modifies clauses name the only nodes whose links it writes. What the writes do
  * to rings is proved in Rings.dfy. */
module ListHead {
  import opened Sequences
  import opened Rings

  class Node {
    var prev: Node
    var next: Node

    /** A node starts as an empty list: both links point back to it. */
    constructor ()
      ensures IsList(this, [])
    {
      prev, next := this, this;
      new;
      OneNode(this);
    }
  }

  /** What the heap holds for the nodes ns. */
  ghost function LinksOf(ns: set<Node>): Memory<Node>
    reads ns
  {
    map n | n in ns :: Links(n.prev, n.next)
  }

  ghost function NodesOf(r: seq<Node>): set<Node> {
    set n | n in r
  }

  /** The nodes of r are distinct and linked, in this order, into one ring; next and
    * prev are inverse of each other on it. */
  ghost predicate IsRing(r: seq<Node>)
    reads r
  {
    Ring(LinksOf(NodesOf(r)), r)
  }

  /** head is the sentinel of a list whose elements are xs. */
  ghost predicate IsList(head: Node, xs: seq<Node>)
    reads [head] + xs
  {
    IsRing([head] + xs)
  }

  lemma RingWithin(ns: set<Node>, r: seq<Node>)
    requires NodesOf(r) <= ns
    ensures IsRing(r) <==> Ring(LinksOf(ns), r)
  {
    var here, there := LinksOf(NodesOf(r)), LinksOf(ns);
    if Ring(here, r) {
      RingSame(here, there, r);
    }
    if Ring(there, r) {
      RingSame(there, here, r);
    }
  }

  lemma OneNode(n: Node)
    requires n.next == n && n.prev == n
    ensures IsList(n, [])
  {
    var r, mem := [n] + [], LinksOf(NodesOf([n] + []));
    assert r[0] in r;
    assert LinkedAt(mem, r, 0);
  }

  /** On a list, next and prev undo each other at every node. */
  lemma LinksAreInverse(head: Node, xs: seq<Node>, n: Node)
    requires IsList(head, xs) && n in [head] + xs
    ensures n.next in [head] + xs && n.prev in [head] + xs
    ensures n.next.prev == n && n.prev.next == n
  {
    Rings.LinksAreInverse(LinksOf(NodesOf([head] + xs)), [head] + xs, n);
  }

  /** A heap links a head to at most one sequence of elements. */
  lemma ElementsAreDetermined(head: Node, xs: seq<Node>, ys: seq<Node>)
    requires IsList(head, xs) && IsList(head, ys)
    ensures xs == ys
  {
    var r, s := [head] + xs, [head] + ys;
    var mem, after := LinksOf(NodesOf(r)), LinksOf(NodesOf(s));
    SameRing(mem, r, after, s);
    assert xs == r[1..] && ys == s[1..];
  }

  /** INIT_LIST_HEAD */
  method Init(list: Node)
    modifies list
    ensures IsList(list, [])
  {
    list.next := list;
    list.prev := list;
    OneNode(list);
  }

  /** The neighbours of a place in a ring. */
  lemma RingEnds(r: seq<Node>, j: nat, m: nat)
    requires IsRing(r) && j < |r| && m <= |r|
    ensures r[j] in r && Around(r, m) in r
    ensures r[j].next == Around(r, j + 1) && r[j].prev == Around(r, j - 1)
  {
    assert LinkedAt(LinksOf(NodesOf(r)), r, j);
  }

  /** __list_add: links entry between two neighbours of a ring. */
  method LinkBetween(entry: Node, prev: Node, next: Node, ghost r: seq<Node>, ghost k: nat)
    requires IsRing(r) && entry !in r
    requires k < |r| && prev == r[k] && next == Around(r, k + 1)
    modifies entry, prev`next, next`prev
    ensures IsRing(r[..k + 1] + [entry] + r[k + 1..])
  {
    ghost var s, ns := r[..k + 1] + [entry] + r[k + 1..], NodesOf(r) + {entry};
    ghost var mem := LinksOf(ns);
    RingWithin(ns, r);
    RingEnds(r, k, k + 1);
    InsertRing(mem, r, k, entry);
    assert mem.Keys == ns && forall n :: n in ns ==> mem[n] == Links(n.prev, n.next);
    hide Ring, IsRing, LinksOf;
    entry.next := next;
    next.prev := entry;
    prev.next := entry;
    entry.prev := prev;
    InsertedLinks(mem, ns, entry, prev, next);
    RingWithin(ns, s);
  }

  lemma InsertedLinks(mem: Memory<Node>, ns: set<Node>, entry: Node, prev: Node, next: Node)
    requires {entry, prev, next} <= ns && mem.Keys == ns && entry != prev && entry != next
    requires entry.prev == prev && entry.next == next
    requires forall n :: n in ns && n != entry ==> n.next == if n == prev then entry else mem[n].next
    requires forall n :: n in ns && n != entry ==> n.prev == if n == next then entry else mem[n].prev
    ensures LinksOf(ns) == Rings.LinkBetween(mem, entry, prev, next)
  {
  }

  /** list_add: puts entry first. */
  method Add(entry: Node, head: Node, ghost xs: seq<Node>)
    requires IsList(head, xs) && entry !in [head] + xs
    modifies entry, head`next, head.next`prev
    ensures IsList(head, [entry] + xs)
  {
    ghost var r := [head] + xs;
    RingEnds(r, 0, 0);
    LinkBetween(entry, head, head.next, r, 0);
    assert r[..1] + [entry] + r[1..] == [head] + ([entry] + xs);
  }

  /** list_add_tail: puts entry last. */
  method AddTail(entry: Node, head: Node, ghost xs: seq<Node>)
    requires IsList(head, xs) && entry !in [head] + xs
    modifies entry, head`prev, head.prev`next
    ensures IsList(head, xs + [entry])
  {
    ghost var r := [head] + xs;
    RingEnds(r, 0, 0);
    LinkBetween(entry, head.prev, head, r, |r| - 1);
    assert r[..|r|] + [entry] + r[|r|..] == [head] + (xs + [entry]);
  }

  /** __list_del: links two nodes of a ring to each other, which drops whatever lay
    * between them: one node when an element is deleted, none when its neighbours
    * are adjacent already. */
  method Unlink(prev: Node, next: Node, ghost r: seq<Node>, ghost j: nat, ghost m: nat)
    requires IsRing(r)
    requires j < m <= |r| && prev == r[j] && next == Around(r, m)
    modifies prev`next, next`prev
    ensures IsRing(r[..j + 1] + r[m..])
  {
    ghost var ns := NodesOf(r);
    ghost var mem := LinksOf(ns);
    RingEnds(r, j, m);
    CutRing(mem, r, j, m);
    prev.next := next;
    next.prev := prev;
    assert LinksOf(ns) == Rings.Unlink(mem, prev, next);
    RingWithin(ns, r[..j + 1] + r[m..]);
  }

  /** list_del: takes out the element at index k. The links of the removed node
    * itself are left as they were. */
  method Del(entry: Node, ghost head: Node, ghost xs: seq<Node>, ghost k: nat)
    requires IsList(head, xs)
    requires k < |xs| && xs[k] == entry
    modifies entry.prev`next, entry.next`prev
    ensures IsList(head, xs[..k] + xs[k + 1..])
    ensures entry.prev == old(entry.prev) && entry.next == old(entry.next)
  {
    ghost var r := [head] + xs;
    RingEnds(r, k + 1, 0);
    Unlink(entry.prev, entry.next, r, k, k + 2);
    assert r[..k + 1] + r[k + 2..] == [head] + (xs[..k] + xs[k + 1..]);
  }

  /** The heap is what mem was, but that p and n have been linked to each other. */
  ghost predicate IsUnlinked(mem: Memory<Node>, ns: set<Node>, p: Node, n: Node)
    reads ns
  {
    && mem.Keys == ns
    && forall x :: x in ns ==> x.next == (if x == p then n else mem[x].next) && x.prev == (if x == n then p else mem[x].prev)
  }

  lemma UnlinkedLinks(mem: Memory<Node>, ns: set<Node>, p: Node, n: Node)
    requires IsUnlinked(mem, ns, p, n) && {p, n} <= ns
    ensures LinksOf(ns) == Rings.Unlink(mem, p, n)
  {
  }

  lemma Shortened(mem: Memory<Node>, r: seq<Node>, p: Node, n: Node, j: nat, m: nat)
    requires IsUnlinked(mem, NodesOf(r), p, n) && Ring(mem, r) && Spans(r, p, n, j, m)
    ensures IsRing(r[..j + 1] + r[m..])
  {
    var ns := NodesOf(r);
    assert r[j] in r && Around(r, m) in r;
    CutRing(mem, r, j, m);
    UnlinkedLinks(mem, ns, p, n);
    hide Spans, Rings.Unlink;
    RingIsHeld(LinksOf(ns), r[..j + 1] + r[m..]);
    RingWithin(ns, r[..j + 1] + r[m..]);
  }

  lemma Untouched(mem: Memory<Node>, r: seq<Node>, p: Node, n: Node)
    requires IsUnlinked(mem, NodesOf(r), p, n) && Ring(mem, r) && p !in r && n !in r
    ensures IsRing(r)
  {
    RingSame(mem, LinksOf(NodesOf(r)), r);
  }

  lemma StaysAList(mem: Memory<Node>, head: Node, xs: seq<Node>, p: Node, n: Node)
    requires IsUnlinked(mem, NodesOf([head] + xs), p, n) && Ring(mem, [head] + xs)
    ensures p !in [head] + xs && n !in [head] + xs ==> IsList(head, xs)
    ensures forall j: nat, m: nat :: Spans([head] + xs, p, n, j, m) ==> IsList(head, xs[..j] + xs[m - 1..])
  {
    var r := [head] + xs;
    forall j: nat, m: nat | Spans(r, p, n, j, m)
      ensures IsList(head, xs[..j] + xs[m - 1..])
    {
      Shortened(mem, r, p, n, j, m);
      assert r[..j + 1] + r[m..] == [head] + (xs[..j] + xs[m - 1..]);
    }
    if p !in r && n !in r {
      Untouched(mem, r, p, n);
    }
  }

  lemma OrderedBefore(was: Memory<Node>, mem: Memory<Node>, ns: set<Node>, r: seq<Node>, p: Node, n: Node, s: seq<Node>)
    requires Ring(was, r) && (forall x :: x in was ==> x in mem && mem[x] == was[x]) && IsUnlinked(mem, ns, p, n)
    requires ns == NodesOf(s) + was.Keys + {p, n} && (p in r || n in r) && IsRing(s) && s[0] == r[0]
    ensures exists j: nat, m: nat :: Spans(r, p, n, j, m)
  {
    UnlinkedLinks(mem, ns, p, n);
    RingSame(was, mem, r);
    hide Ring, IsUnlinked;
    RingWithin(ns, s);
    StillARing(mem, r, p, n, s);
  }

  /** list_del on a node that is not in the list and still remembers any two nodes. If neither
    * of them is in the list, it stays as it was. If both are, in their order, every element
    * between them is lost. In every other case the head is not that of a list any more. */
  method DelStale(entry: Node, ghost head: Node, ghost xs: seq<Node>)
    requires IsList(head, xs) && entry !in [head] + xs
    modifies entry.prev`next, entry.next`prev
    ensures old(entry.prev) !in [head] + xs && old(entry.next) !in [head] + xs ==> IsList(head, xs)
    ensures forall j: nat, m: nat :: Spans([head] + xs, old(entry.prev), old(entry.next), j, m) ==>
              IsList(head, xs[..j] + xs[m - 1..])
    ensures old(entry.prev) in [head] + xs || old(entry.next) in [head] + xs ==>
              (exists j: nat, m: nat :: Spans([head] + xs, old(entry.prev), old(entry.next), j, m))
              || forall ys :: !IsList(head, ys)
  {
    ghost var r := [head] + xs;
    ghost var p, n := entry.prev, entry.next;
    ghost var was := LinksOf(NodesOf(r));
    assert Ring(was, r) && was.Keys == NodesOf(r) && forall x :: x in was ==> was[x] == Links(x.prev, x.next);
    hide LinksOf, NodesOf, IsRing, Ring;
    entry.prev.next := entry.next;
    entry.next.prev := entry.prev;
    StaysAList(was, head, xs, p, n);
    hide Spans;
    if p in r || n in r {
      forall ys | IsList(head, ys)
        ensures exists j: nat, m: nat :: Spans(r, p, n, j, m)
      {
        var ns := NodesOf([head] + ys) + was.Keys + {p, n};
        var mem := map x: Node | x in ns :: Links(old(x.prev), old(x.next));
        assert IsUnlinked(mem, ns, p, n);
        hide IsUnlinked;
        OrderedBefore(was, mem, ns, r, p, n, [head] + ys);
      }
    }
  }

  /** list_empty */
  predicate Empty(list: Node)
    reads list
  {
    list.next == list && list.prev == list
  }

  lemma EmptyIsNoElement(head: Node, xs: seq<Node>)
    requires IsList(head, xs)
    ensures Empty(head) <==> xs == []
  {
    RingEnds([head] + xs, 0, 0);
  }

  /** The writes of __list_splice. */
  method Join(first: Node, last: Node, prev: Node, next: Node, ghost ns: set<Node>)
    requires {first, last, prev, next} <= ns
    modifies first`prev, last`next, prev`next, next`prev
    ensures LinksOf(ns) == Rings.SpliceBetween(old(LinksOf(ns)), first, last, prev, next)
  {
    ghost var mem := LinksOf(ns);
    assert mem.Keys == ns && forall n :: n in ns ==> mem[n] == Links(n.prev, n.next);
    hide LinksOf;
    first.prev := prev;
    prev.next := first;
    last.next := next;
    next.prev := last;
    JoinedLinks(mem, ns, first, last, prev, next);
  }

  lemma JoinedLinks(mem: Memory<Node>, ns: set<Node>, first: Node, last: Node, prev: Node, next: Node)
    requires {first, last, prev, next} <= ns && mem.Keys == ns
    requires forall n :: n in ns ==> n.next == if n == last then next else if n == prev then first else mem[n].next
    requires forall n :: n in ns ==> n.prev == if n == next then last else if n == first then prev else mem[n].prev
    ensures LinksOf(ns) == Rings.SpliceBetween(mem, first, last, prev, next)
  {
  }

  /** __list_splice: links all the elements of a list between two neighbours of
    * another ring. */
  method SpliceBetween(list: Node, prev: Node, next: Node, ghost xs: seq<Node>, ghost r: seq<Node>, ghost k: nat)
    requires IsList(list, xs) && xs != [] && IsRing(r)
    requires forall x :: x in [list] + xs ==> x !in r
    requires k < |r| && prev == r[k] && next == Around(r, k + 1)
    modifies list.next`prev, list.prev`next, prev`next, next`prev
    ensures IsRing(r[..k + 1] + xs + r[k + 1..])
  {
    ghost var l := [list] + xs;
    assert l[1..] == xs;
    ghost var ns := NodesOf(l) + NodesOf(r);
    ghost var mem := LinksOf(ns);
    RingWithin(ns, l);
    RingWithin(ns, r);
    RingEnds(l, 0, 0);
    RingEnds(r, k, k + 1);
    SpliceRing(mem, l, r, k);
    hide Ring, IsRing;
    Join(list.next, list.prev, prev, next, ns);
    RingWithin(ns, r[..k + 1] + xs + r[k + 1..]);
  }

  /** list_splice: puts the elements of list in front of those of head. */
  method Splice(list: Node, head: Node, ghost xs: seq<Node>, ghost ys: seq<Node>)
    requires IsList(list, xs) && IsList(head, ys)
    requires forall x :: x in [list] + xs ==> x !in [head] + ys
    modifies list.next`prev, list.prev`next, head`next, head.next`prev
    ensures IsList(head, xs + ys)
  {
    EmptyIsNoElement(list, xs);
    ghost var r := [head] + ys;
    RingEnds(r, 0, 0);
    if !Empty(list) {
      SpliceBetween(list, head, head.next, xs, r, 0);
      assert r[..1] + xs + r[1..] == [head] + (xs + ys);
    } else {
      assert xs + ys == ys;
    }
  }

  /** list_splice_tail: puts the elements of list behind those of head. */
  method SpliceTail(list: Node, head: Node, ghost xs: seq<Node>, ghost ys: seq<Node>)
    requires IsList(list, xs) && IsList(head, ys)
    requires forall x :: x in [list] + xs ==> x !in [head] + ys
    modifies list.next`prev, list.prev`next, head`prev, head.prev`next
    ensures IsList(head, ys + xs)
  {
    EmptyIsNoElement(list, xs);
    ghost var r := [head] + ys;
    RingEnds(r, 0, 0);
    if !Empty(list) {
      SpliceBetween(list, head.prev, head, xs, r, |r| - 1);
      assert r[..|r|] + xs + r[|r|..] == [head] + (ys + xs);
    } else {
      assert ys + xs == ys;
    }
  }
}
