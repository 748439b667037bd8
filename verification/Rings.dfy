/** Nodes that are linked into rings, as in src/list.h, on values: a memory holds the two links
  * of each node, and the operations are the writes that they do. */
module Rings {
  import opened Sequences

  datatype Links<N> = Links(prev: N, next: N)

  type Memory<N(==)> = map<N, Links<N>>

  /** The element of r at index i, where r is read as a ring. */
  function Around<N>(r: seq<N>, i: int): N
    requires |r| > 0 && -1 <= i <= |r|
  {
    if i == -1 then r[|r| - 1] else if i == |r| then r[0] else r[i]
  }

  /** The nodes of r are distinct and linked, in this order, into one ring. */
  ghost predicate Ring<N>(mem: Memory<N>, r: seq<N>) {
    |r| > 0 && Distinct(r) && forall i :: 0 <= i < |r| ==> LinkedAt(mem, r, i)
  }

  ghost predicate LinkedAt<N>(mem: Memory<N>, r: seq<N>, i: int)
    requires 0 <= i < |r|
  {
    r[i] in mem && mem[r[i]] == Links(Around(r, i - 1), Around(r, i + 1))
  }

  // The writes.

  function SetNext<N>(mem: Memory<N>, n: N, to: N): Memory<N>
    requires n in mem
  {
    mem[n := mem[n].(next := to)]
  }

  function SetPrev<N>(mem: Memory<N>, n: N, to: N): Memory<N>
    requires n in mem
  {
    mem[n := mem[n].(prev := to)]
  }

  /** __list_add; the two writes to entry are one. */
  function LinkBetween<N>(mem: Memory<N>, entry: N, prev: N, next: N): Memory<N>
    requires prev in mem && next in mem && entry != next
  {
    SetNext(SetPrev(mem[entry := Links(prev, next)], next, entry), prev, entry)
  }

  /** __list_del */
  function Unlink<N>(mem: Memory<N>, prev: N, next: N): (r: Memory<N>)
    requires prev in mem && next in mem
    ensures r.Keys == mem.Keys
  {
    SetPrev(SetNext(mem, prev, next), next, prev)
  }

  /** __list_splice, with the first and the last node behind the head of a list */
  function SpliceBetween<N>(mem: Memory<N>, first: N, last: N, prev: N, next: N): Memory<N>
    requires first in mem && last in mem && prev in mem && next in mem
  {
    SetPrev(SetNext(SetNext(SetPrev(mem, first, prev), prev, first), last, next), next, last)
  }

  // What a ring is.

  /** On a ring, next and prev undo each other at every node. */
  lemma LinksAreInverse<N>(mem: Memory<N>, r: seq<N>, n: N)
    requires Ring(mem, r) && n in r
    ensures n in mem && mem[n].next in r && mem[n].prev in r
    ensures mem[n].next in mem && mem[mem[n].next].prev == n
    ensures mem[n].prev in mem && mem[mem[n].prev].next == n
  {
    var i :| 0 <= i < |r| && r[i] == n;
    assert LinkedAt(mem, r, i);
    assert LinkedAt(mem, r, if i + 1 == |r| then 0 else i + 1);
    assert LinkedAt(mem, r, if i == 0 then |r| - 1 else i - 1);
  }

  /** The nodes of r have the same next links in both memories. */
  ghost predicate SameNext<N>(mem: Memory<N>, r: seq<N>, after: Memory<N>) {
    forall n :: n in r && n in mem && n in after ==> after[n].next == mem[n].next
  }

  lemma {:induction false} SamePrefix<N>(mem: Memory<N>, r: seq<N>, after: Memory<N>, s: seq<N>, k: nat)
    requires Ring(mem, r) && Ring(after, s) && r[0] == s[0]
    requires k < |r|
    requires forall i :: 0 <= i < k && r[i] in mem && r[i] in after ==> after[r[i]].next == mem[r[i]].next
    ensures k < |s| && s[k] == r[k]
  {
    if k > 0 {
      SamePrefix(mem, r, after, s, k - 1);
      assert LinkedAt(mem, r, k - 1) && LinkedAt(after, s, k - 1);
      assert r[k] != r[0];
    }
  }

  /** From the same head, a ring is determined by the next links. */
  lemma SameRing<N>(mem: Memory<N>, r: seq<N>, after: Memory<N>, s: seq<N>)
    requires Ring(mem, r) && Ring(after, s) && r[0] == s[0] && SameNext(mem, r, after)
    ensures r == s
  {
    var n := |r|;
    forall k | 0 <= k < n
      ensures k < |s| && s[k] == r[k]
    {
      assert forall i :: 0 <= i < k ==> r[i] in r;
      SamePrefix(mem, r, after, s, k);
    }
    assert LinkedAt(mem, r, n - 1) && LinkedAt(after, s, n - 1);
    assert Around(s, n) == s[0];
  }

  lemma RingIsHeld<N>(mem: Memory<N>, r: seq<N>)
    requires Ring(mem, r)
    ensures forall n :: n in r ==> n in mem
  {
    forall n | n in r
      ensures n in mem
    {
      var i :| 0 <= i < |r| && r[i] == n;
      assert LinkedAt(mem, r, i);
    }
  }

  // What the writes do to a ring.

  /** Only the links of the nodes of r matter. */
  lemma RingSame<N>(mem: Memory<N>, after: Memory<N>, r: seq<N>)
    requires Ring(mem, r) && forall n :: n in r && n in mem ==> n in after && after[n] == mem[n]
    ensures Ring(after, r)
  {
    forall i | 0 <= i < |r|
      ensures LinkedAt(after, r, i)
    {
      assert LinkedAt(mem, r, i) && r[i] in r;
    }
  }

  /** prev is the node of r at index j, and next is the one at index m behind it, where the
    * index behind the last one is the head again. */
  ghost predicate Spans<N>(r: seq<N>, prev: N, next: N, j: nat, m: nat) {
    j < m <= |r| && r[j] == prev && Around(r, m) == next
  }

  lemma SubDistinct<N>(r: seq<N>, j: nat, m: nat)
    requires Distinct(r) && j < m <= |r|
    ensures Distinct(r[..j + 1] + r[m..])
  {
    var s := r[..j + 1] + r[m..];
    assert forall i :: 0 <= i < |s| ==> s[i] == r[if i <= j then i else i + m - j - 1];
  }

  /** The two outer parts of a ring are a ring once they are linked to each other. */
  lemma CutRing<N>(mem: Memory<N>, r: seq<N>, j: nat, m: nat)
    requires Ring(mem, r) && j < m <= |r|
    ensures r[j] in mem && Around(r, m) in mem && Ring(Unlink(mem, r[j], Around(r, m)), r[..j + 1] + r[m..])
  {
    var s := r[..j + 1] + r[m..];
    SubDistinct(r, j, m);
    assert LinkedAt(mem, r, j) && LinkedAt(mem, r, if m == |r| then 0 else m);
    var after := Unlink(mem, r[j], Around(r, m));
    forall i | 0 <= i < |s|
      ensures LinkedAt(after, s, i)
    {
      var o := if i <= j then i else i + m - j - 1;
      assert s[i] == r[o] && LinkedAt(mem, r, o);
    }
  }

  /** A node joins a ring behind index k. */
  lemma InsertRing<N>(mem: Memory<N>, r: seq<N>, k: nat, entry: N)
    requires Ring(mem, r) && k < |r| && entry !in r
    ensures var next := Around(r, k + 1);
      && r[k] in mem && next in mem && entry != next
      && Ring(LinkBetween(mem, entry, r[k], next), r[..k + 1] + [entry] + r[k + 1..])
  {
    var s := r[..k + 1] + [entry] + r[k + 1..];
    DistinctInsert(r, k + 1, [entry]);
    assert LinkedAt(mem, r, k) && LinkedAt(mem, r, if k + 1 == |r| then 0 else k + 1);
    assert entry != Around(r, k + 1);
    var after := LinkBetween(mem, entry, r[k], Around(r, k + 1));
    forall i | 0 <= i < |s|
      ensures LinkedAt(after, s, i)
    {
      if i != k + 1 {
        var o := if i <= k then i else i - 1;
        assert s[i] == r[o] && LinkedAt(mem, r, o);
      }
    }
  }

  lemma DistinctInsert<N>(r: seq<N>, k: nat, xs: seq<N>)
    requires Distinct(r) && Distinct(xs) && k <= |r|
    requires forall x :: x in xs ==> x !in r
    ensures Distinct(r[..k] + xs + r[k..])
  {
    var s := r[..k] + xs + r[k..];
    forall i, j | 0 <= i < j < |s|
      ensures s[i] != s[j]
    {
      var a := if i < k then r[i] else if i < k + |xs| then xs[i - k] else r[i - |xs|];
      var b := if j < k then r[j] else if j < k + |xs| then xs[j - k] else r[j - |xs|];
      assert s[i] == a && s[j] == b;
      assert (k <= i < k + |xs| ==> a in xs) && (k <= j < k + |xs| ==> b in xs);
    }
  }

  /** All the nodes of a ring l but its head join the ring r behind index k. */
  lemma SpliceRing<N>(mem: Memory<N>, l: seq<N>, r: seq<N>, k: nat)
    requires Ring(mem, l) && Ring(mem, r) && |l| > 1 && k < |r| && forall n :: n in l ==> n !in r
    ensures l[0] in mem && mem[l[0]].next in mem && mem[l[0]].prev in mem && r[k] in mem && Around(r, k + 1) in mem
    ensures var s := r[..k + 1] + l[1..] + r[k + 1..];
      Ring(SpliceBetween(mem, mem[l[0]].next, mem[l[0]].prev, r[k], Around(r, k + 1)), s)
  {
    var s := r[..k + 1] + l[1..] + r[k + 1..];
    assert forall n :: n in l[1..] ==> n in l;
    DistinctInsert(r, k + 1, l[1..]);
    assert LinkedAt(mem, r, k) && LinkedAt(mem, r, if k + 1 == |r| then 0 else k + 1);
    assert LinkedAt(mem, l, 0) && LinkedAt(mem, l, 1) && LinkedAt(mem, l, |l| - 1);
    assert l[1] in l && l[|l| - 1] in l && r[k] in r && Around(r, k + 1) in r;
    var after := SpliceBetween(mem, l[1], l[|l| - 1], r[k], Around(r, k + 1));
    forall i | 0 <= i < |s|
      ensures LinkedAt(after, s, i)
    {
      SplicedAt(mem, l, r, k, i);
    }
  }

  lemma SplicedAt<N>(mem: Memory<N>, l: seq<N>, r: seq<N>, k: nat, i: nat)
    requires Ring(mem, l) && Ring(mem, r) && |l| > 1 && k < |r| && forall n :: n in l ==> n !in r
    requires l[1] in mem && l[|l| - 1] in mem && r[k] in mem && Around(r, k + 1) in mem
    requires i < |r| + |l| - 1
    ensures LinkedAt(SpliceBetween(mem, l[1], l[|l| - 1], r[k], Around(r, k + 1)), r[..k + 1] + l[1..] + r[k + 1..], i)
  {
    var s := r[..k + 1] + l[1..] + r[k + 1..];
    if k < i < k + |l| {
      assert s[i] == l[i - k] && LinkedAt(mem, l, i - k) && l[i - k] in l;
    } else {
      var o := if i <= k then i else i - |l| + 1;
      assert s[i] == r[o] && LinkedAt(mem, r, o) && r[o] in r;
    }
  }

  // When the writes of __list_del leave no ring.

  /** The nodes of r are linked as a ring, but for the link from p to n and the one back. */
  ghost predicate Relinked<N>(mem: Memory<N>, r: seq<N>, p: N, n: N) {
    && |r| > 0 && p in mem && n in mem && mem[p].next == n && mem[n].prev == p
    && forall i :: 0 <= i < |r| ==> RelinkedAt(mem, r, p, n, i)
  }

  ghost predicate RelinkedAt<N>(mem: Memory<N>, r: seq<N>, p: N, n: N, i: int)
    requires 0 <= i < |r|
  {
    && r[i] in mem
    && (r[i] != p ==> mem[r[i]].next == Around(r, i + 1))
    && (r[i] != n ==> mem[r[i]].prev == Around(r, i - 1))
  }

  lemma RingIsRelinked<N>(mem: Memory<N>, r: seq<N>, p: N, n: N)
    requires Ring(mem, r) && p in mem && n in mem
    ensures Relinked(Unlink(mem, p, n), r, p, n)
  {
    forall i | 0 <= i < |r|
      ensures RelinkedAt(Unlink(mem, p, n), r, p, n, i)
    {
      assert LinkedAt(mem, r, i);
    }
  }

  /** If the next links of r are as they were, s has no node that is not in r. */
  lemma {:induction false} WithinForward<N>(mem: Memory<N>, r: seq<N>, p: N, n: N, s: seq<N>, k: nat)
    requires Relinked(mem, r, p, n) && p !in r && Ring(mem, s) && s[0] == r[0] && k < |s|
    ensures s[k] in r
  {
    if k > 0 {
      WithinForward(mem, r, p, n, s, k - 1);
      var i :| 0 <= i < |r| && r[i] == s[k - 1];
      assert RelinkedAt(mem, r, p, n, i) && LinkedAt(mem, s, k - 1);
    }
  }

  lemma {:induction false} WithinBackward<N>(mem: Memory<N>, r: seq<N>, p: N, n: N, s: seq<N>, k: nat)
    requires Relinked(mem, r, p, n) && n !in r && Ring(mem, s) && s[0] == r[0] && k < |s|
    ensures s[k] in r
    decreases |s| - k
  {
    var q := if k + 1 < |s| then k + 1 else 0;
    if k + 1 < |s| {
      WithinBackward(mem, r, p, n, s, k + 1);
    }
    var i :| 0 <= i < |r| && r[i] == s[q];
    assert RelinkedAt(mem, r, p, n, i) && LinkedAt(mem, s, q);
  }

  /** If the head of r has a ring after the writes, both nodes were in r, in order, or neither
    * was. */
  lemma StillARing<N>(mem: Memory<N>, r: seq<N>, p: N, n: N, s: seq<N>)
    requires Ring(mem, r) && p in mem && n in mem && (p in r || n in r)
    requires Ring(Unlink(mem, p, n), s) && s[0] == r[0]
    ensures exists j: nat, m: nat :: Spans(r, p, n, j, m)
  {
    var after := Unlink(mem, p, n);
    RingIsRelinked(mem, r, p, n);
    if p in r {
      var j :| 0 <= j < |r| && r[j] == p;
      FollowsTo(mem, r, p, n, s, j, j);
      assert LinkedAt(after, s, j);
      if n in r {
        var m :| 0 <= m < |r| && r[m] == n;
        if m == 0 {
          assert Spans(r, p, n, j, |r|);
        } else if j < m {
          assert Spans(r, p, n, j, m);
        } else {
          FollowsTo(mem, r, p, n, s, j, m);
        }
      } else {
        WithinBackward(after, r, p, n, s, if j + 1 < |s| then j + 1 else 0);
      }
    } else {
      var m :| 0 <= m < |r| && r[m] == n;
      SamePrefix(mem, r, after, s, m);
      assert LinkedAt(after, s, m);
      WithinForward(after, r, p, n, s, if m == 0 then |s| - 1 else m - 1);
    }
  }

  /** From the same head, s follows r up to the node p at index j. */
  lemma FollowsTo<N>(mem: Memory<N>, r: seq<N>, p: N, n: N, s: seq<N>, j: nat, k: nat)
    requires Ring(mem, r) && p in mem && n in mem && Ring(Unlink(mem, p, n), s) && s[0] == r[0]
    requires k <= j < |r| && r[j] == p
    ensures k < |s| && s[k] == r[k]
  {
    forall i | 0 <= i < k
      ensures r[i] != p
    {
    }
    SamePrefix(mem, r, Unlink(mem, p, n), s, k);
  }

  // When the writes of list_del and list_add_tail together leave no ring.

  /** list_add_tail can be undone, if the two neighbours faced each other before. */
  lemma TailUndone<N>(mem: Memory<N>, entry: N, last: N, head: N, s: seq<N>)
    requires last in mem && head in mem && entry != head && mem[last].next == head && mem[head].prev == last
    requires Ring(LinkBetween(mem, entry, last, head), s) && s[0] != entry
    ensures s[0] == head ==> |s| > 1 && Ring(mem, s[..|s| - 1])
    ensures head !in s ==> Ring(mem, s)
  {
    var after := LinkBetween(mem, entry, last, head);
    if s[0] == head {
      var t := s[..|s| - 1];
      assert LinkedAt(after, s, 0) && LinkedAt(after, s, |s| - 1);
      assert |s| > 1 && s[|s| - 2] == last;
      forall i | 0 <= i < |t|
        ensures LinkedAt(mem, t, i)
      {
        assert LinkedAt(after, s, i) && t[i] == s[i] != entry;
      }
    }
    if head !in s {
      NotThere(mem, entry, last, head, s);
      RingSame(after, mem, s);
    }
  }

  lemma NotThere<N>(mem: Memory<N>, entry: N, last: N, head: N, s: seq<N>)
    requires last in mem && head in mem && entry != head
    requires Ring(LinkBetween(mem, entry, last, head), s) && s[0] != entry && head !in s
    ensures entry !in s && last !in s
  {
    var after := LinkBetween(mem, entry, last, head);
    forall i | 0 <= i < |s|
      ensures s[i] != entry
    {
      assert LinkedAt(after, s, i) && Around(s, i + 1) in s;
    }
    if last in s {
      LinksAreInverse(after, s, last);
    }
  }

  lemma BeforeTail<N>(mem: Memory<N>, r: seq<N>, entry: N, m: nat)
    requires Ring(mem, r + [entry]) && 0 < m < |r|
    ensures r[m] in mem && mem[r[m]].prev != r[|r| - 1]
  {
    var s := r + [entry];
    assert LinkedAt(mem, s, m) && s[m - 1] != s[|r| - 1];
  }

  /** The last node of the ring r that entry joins was linked to a node next, of r or of another
    * ring, and so it is what next remembers: then that ring is none. */
  lemma NotMended<N>(mem: Memory<N>, r: seq<N>, entry: N, next: N, q: seq<N>, s: seq<N>)
    requires Ring(mem, r) && Ring(mem, q) && entry !in r && entry !in q && next in q && next != r[0]
    requires q == r || forall n :: n in q ==> n !in r
    requires r[|r| - 1] in mem && next in mem && r[0] in mem && s != [] && s[0] == q[0]
    ensures !Ring(LinkBetween(Unlink(mem, r[|r| - 1], next), entry, r[|r| - 1], r[0]), s)
  {
    var last := r[|r| - 1];
    var after := LinkBetween(Unlink(mem, last, next), entry, last, r[0]);
    assert after[next].prev == last && last in r && r[0] in r;
    if Ring(after, s) {
      if q == r {
        var base := LinkBetween(mem, entry, last, r[0]);
        InsertRing(mem, r, |r| - 1, entry);
        assert r[..|r|] + [entry] + r[|r|..] == r + [entry];
        SameRing(base, r + [entry], after, s);
        var m :| 0 <= m < |r| && r[m] == next;
        BeforeTail(after, r, entry, m);
      } else {
        SameRing(mem, q, after, s);
        LinksAreInverse(after, q, next);
      }
    }
  }
}
