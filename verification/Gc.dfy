/** The conservative mark-sweep collector of src/wlgc.c: a chained hash table of
  * allocation records, a recursive marker, a sweep that unlinks while it walks, and
  * a resize that doubles the table. */
module Gc {
  import opened Arith
  import opened Memory
  import opened Sequences
  import opened GcSpec
  import opened GcRuns
  import opened Bits

  /** alloc_t: one record for each tracked block. The lowest bit of sizeTag is the
    * mark, the rest is the size. */
  class Alloc {
    const p: nat
    var sizeTag: nat
    var next: Alloc?

    constructor (p: nat, sizeTag: nat)
      ensures this.p == p && this.sizeTag == sizeTag && next == null
    {
      this.p, this.sizeTag, next := p, sizeTag, null;
    }
  }

  /** size_tag & 0x1 */
  predicate Tagged(sizeTag: nat) {
    sizeTag % 2 == 1
  }

  /** size_tag & ~0x1 */
  function SizeOf(sizeTag: nat): nat {
    sizeTag - sizeTag % 2
  }

  /** The bucket of a hashed address; the index variable has 32 bits. */
  function Bucket(h: nat, capacity: nat): (i: nat)
    requires capacity > 0
    ensures i < capacity
  {
    h % capacity % 0x1_0000_0000
  }

  /** The index that the resize computes with a mask is the bucket of the new table. */
  lemma MaskedIndex(h: nat, capacity: nat)
    requires IsCapacity(capacity)
    ensures capacity > 0 && BitAnd(h, capacity - 1) % 0x1_0000_0000 == Bucket(h, capacity)
  {
    CapacityMask(h, capacity);
  }

  ghost function NthOrNull(c: seq<Alloc>, j: nat): Alloc? {
    if j < |c| then c[j] else null
  }

  /** A picture of the hash table: the bucket heads, the successor of each record, the
    * records of every bucket in chain order, and for each tracked address its record
    * and its bucket. */
  datatype Table = Table(heads: seq<Alloc?>, succ: map<Alloc, Alloc?>, chains: seq<seq<Alloc>>,
                         at: map<nat, Alloc>, home: map<nat, nat>) {

    /** Addresses and records correspond one to one. */
    ghost predicate Keyed() {
      && home.Keys == at.Keys
      && (forall a :: a in at ==> at[a] in succ && at[a].p == a)
      && (forall n :: n in succ ==> n.p in at && at[n.p] == n)
    }

    /** Each bucket links its own records, from the head to null, without repetition. */
    ghost predicate Chained()
      requires Keyed()
    {
      && |heads| == |chains|
      && (forall n :: n in succ ==> home[n.p] < |chains| && n in chains[home[n.p]])
      && (forall i :: 0 <= i < |chains| ==> Bucketful(i) && Linked(heads[i], chains[i]))
    }

    ghost predicate Bucketful(i: nat)
      requires Keyed() && i < |chains|
    {
      Distinct(chains[i]) && forall n :: n in chains[i] ==> n in succ && home[n.p] == i
    }

    ghost predicate Linked(head: Alloc?, c: seq<Alloc>) {
      && head == NthOrNull(c, 0)
      && (forall j :: 0 <= j < |c| ==> c[j] in succ)
      && (forall j {:trigger succ[c[j]]} :: 0 <= j < |c| ==> succ[c[j]] == NthOrNull(c, j + 1))
    }

    ghost predicate Filed() {
      Keyed() && Chained()
    }

    /** The bucket of an address is the one that its hash selects. */
    ghost predicate Hashed(hash: nat -> nat)
      requires Filed()
    {
      |chains| > 0 && forall a {:trigger Bucket(hash(a), |chains|)} :: a in at ==> home[a] == Bucket(hash(a), |chains|)
    }

    /** The records that a sweep standing at index k of chain i has not visited. */
    ghost predicate Ahead(todo: set<Alloc>, i: nat, k: nat)
      requires Filed() && i < |chains| && k <= |chains[i]|
    {
      && todo <= succ.Keys
      && forall n :: n in succ ==> (n in todo <==> home[n.p] > i || (home[n.p] == i && n in chains[i][k..]))
    }

    /** The same between two buckets. */
    ghost predicate AheadOf(todo: set<Alloc>, i: nat)
      requires Filed()
    {
      todo <= succ.Keys && forall n :: n in succ ==> (n in todo <==> home[n.p] >= i)
    }

    lemma EnterBucket(todo: set<Alloc>, i: nat)
      requires Filed() && i < |chains| && AheadOf(todo, i)
      ensures Ahead(todo, i, 0)
      ensures i < |heads| && heads[i] == NthOrNull(chains[i], 0)
    {
      assert Linked(heads[i], chains[i]);
      hide Linked, Bucketful;
      assert chains[i][0..] == chains[i];
    }

    lemma LeaveBucket(todo: set<Alloc>, i: nat)
      requires Filed() && i < |chains| && Ahead(todo, i, |chains[i]|)
      ensures AheadOf(todo, i + 1)
    {
      hide Linked, Bucketful;
    }

    lemma RecordAhead(todo: set<Alloc>, i: nat, k: nat)
      requires Filed() && i < |chains| && k < |chains[i]| && Ahead(todo, i, k)
      ensures var n := chains[i][k]; n in todo && n in succ && n.p in at && at[n.p] == n && succ[n] == NthOrNull(chains[i], k + 1)
    {
      var c := chains[i];
      assert Linked(heads[i], c) && Bucketful(i);
      assert c[k] in c[k..];
    }

    lemma StepPast(todo: set<Alloc>, i: nat, k: nat)
      requires Filed() && i < |chains| && k < |chains[i]| && Ahead(todo, i, k)
      ensures Ahead(todo - {chains[i][k]}, i, k + 1)
    {
      var n := chains[i][k];
      assert Bucketful(i) && n in chains[i];
      TailMembers(chains[i], k);
      hide Linked, Bucketful;
      assert home[n.p] == i;
    }

    lemma StepOver(todo: set<Alloc>, i: nat, k: nat)
      requires Filed() && i < |chains| && k < |chains[i]| && Ahead(todo, i, k)
      requires Without(i, k).Filed() && Without(i, k).succ.Keys == succ.Keys - {chains[i][k]}
      ensures |Without(i, k).chains| == |chains| && k <= |Without(i, k).chains[i]|
      ensures Without(i, k).Ahead(todo - {chains[i][k]}, i, k)
      ensures NthOrNull(Without(i, k).chains[i], k) == NthOrNull(chains[i], k + 1)
    {
      StepPast(todo, i, k);
      hide Linked, Bucketful, Chained;
      var c, d := chains[i], Without(i, k).chains[i];
      assert d[k..] == c[k + 1..];
    }

    lemma HeadCount()
      requires Filed()
      ensures |heads| == |chains|
    {
    }

    lemma EverythingAhead()
      requires Filed()
      ensures AheadOf(succ.Keys, 0)
    {
    }

    lemma NothingAhead(todo: set<Alloc>)
      requires Filed() && AheadOf(todo, |chains|)
      ensures todo == {}
    {
      hide Linked, Bucketful;
    }

    /** A record stands at one place only. */
    lemma OnePlace(i: nat, k: nat, j: nat, l: nat)
      requires Filed() && i < |chains| && k < |chains[i]| && j < |chains| && l < |chains[j]|
      requires chains[i][k] == chains[j][l]
      ensures i == j && k == l
    {
      assert Bucketful(i) && Bucketful(j);
    }

    lemma RecordsAreKeyed()
      requires Filed()
      ensures Keyed()
      ensures forall n :: n in succ ==> n.p in at && at[n.p] == n
    {
    }

    /** What the chain of an address looks like. */
    lemma ChainOf(hash: nat -> nat, p: nat)
      requires Filed() && Hashed(hash)
      ensures |chains| > 0
      ensures var i := Bucket(hash(p), |chains|); var c := chains[i];
        && i < |heads| && heads[i] == NthOrNull(c, 0)
        && (p in at ==> at[p] in c && at[p].p == p)
        && (forall n :: n in c ==> n.p in at && at[n.p] == n)
        && (forall j :: 0 <= j < |c| ==> c[j] in succ)
        && (forall j {:trigger succ[c[j]]} :: 0 <= j < |c| ==> succ[c[j]] == NthOrNull(c, j + 1))
    {
      var i := Bucket(hash(p), |chains|);
      assert Bucketful(i) && Linked(heads[i], chains[i]);
    }

    lemma HashedWithout(hash: nat -> nat, i: nat, k: nat)
      requires Filed() && Hashed(hash) && i < |chains| && k < |chains[i]|
      requires Without(i, k).Filed()
      ensures Without(i, k).Hashed(hash)
    {
      hide Chained;
    }

    /** The table without the record at index k of chain i, with the link before it
      * turned to the record behind it. */
    ghost function Without(i: nat, k: nat): Table
      requires Filed() && i < |chains| && k < |chains[i]|
    {
      var c := chains[i];
      var n := c[k];
      Table(if k == 0 then heads[i := succ[n]] else heads,
            (if k == 0 then succ else succ[c[k - 1] := succ[n]]) - {n},
            chains[i := c[..k] + c[k + 1..]], at - {n.p}, home - {n.p})
    }

    /** The table with the new record n at the head of chain i. */
    ghost function With(i: nat, n: Alloc): Table
      requires i < |chains| && i < |heads|
    {
      Table(heads[i := n], succ[n := heads[i]], chains[i := [n] + chains[i]], at[n.p := n], home[n.p := i])
    }

    lemma BucketfulWith(i: nat, n: Alloc, b: nat)
      requires Filed() && i < |chains| && n !in succ && n.p !in at && b < |chains|
      requires With(i, n).Keyed()
      ensures With(i, n).Bucketful(b)
    {
      hide Linked;
      assert Bucketful(b);
    }

    lemma LinkedWith(i: nat, n: Alloc, b: nat)
      requires Filed() && i < |chains| && n !in succ && b < |chains|
      ensures With(i, n).Linked(With(i, n).heads[b], With(i, n).chains[b])
    {
      assert Bucketful(b) && Linked(heads[b], chains[b]);
      if b == i {
        LinksPush(succ, heads[i], chains[i], n);
      }
    }

    lemma FiledWith(i: nat, n: Alloc)
      requires Filed() && i < |chains| && n !in succ && n.p !in at
      ensures With(i, n).Filed()
    {
      hide Linked, Bucketful;
      var t := With(i, n);
      assert t.Keyed();
      forall b | 0 <= b < |t.chains|
        ensures t.Bucketful(b) && t.Linked(t.heads[b], t.chains[b])
      {
        BucketfulWith(i, n, b);
        LinkedWith(i, n, b);
      }
    }

    lemma HashedWith(hash: nat -> nat, i: nat, n: Alloc)
      requires Filed() && Hashed(hash) && i < |chains| && n !in succ && n.p !in at
      requires i < |heads| && i == Bucket(hash(n.p), |chains|) && With(i, n).Filed()
      ensures With(i, n).Hashed(hash)
    {
      hide Chained, Bucket;
    }

    lemma RecordAt(i: nat, k: nat)
      requires Filed() && i < |chains| && k < |chains[i]|
      ensures var n := chains[i][k]; n in succ && n.p in at && at[n.p] == n
      ensures k > 0 ==> chains[i][k - 1] in succ && chains[i][k - 1] != chains[i][k]
    {
      assert Bucketful(i) && chains[i][k] in chains[i];
      if k > 0 {
        assert chains[i][k - 1] in chains[i];
      }
    }

    lemma KeyedWithout(i: nat, k: nat)
      requires Filed() && i < |chains| && k < |chains[i]|
      ensures Without(i, k).Keyed()
      ensures Without(i, k).succ.Keys == succ.Keys - {chains[i][k]}
    {
      hide Linked, Chained, Bucketful;
      RecordAt(i, k);
      var n, t := chains[i][k], Without(i, k);
      assert t.succ.Keys == succ.Keys - {n};
      assert t.at.Keys == at.Keys - {n.p} && t.home.Keys == home.Keys - {n.p};
    }

    lemma BucketfulWithout(i: nat, k: nat, b: nat)
      requires Filed() && i < |chains| && k < |chains[i]| && b < |chains|
      requires Without(i, k).Keyed()
      requires Without(i, k).succ.Keys == succ.Keys - {chains[i][k]}
      ensures Without(i, k).Bucketful(b)
    {
      assert Bucketful(b) && Bucketful(i);
      WithoutOne(chains[i], k);
      var x := chains[i][k];
      assert x in chains[i];
      hide Linked, Chained;
      if b == i {
        assert forall n :: n in Without(i, k).chains[b] ==> n in chains[b] && n != x;
      } else {
        assert Without(i, k).chains[b] == chains[b];
        assert x !in chains[b];
      }
    }

    lemma HomeWithout(i: nat, k: nat, n: Alloc)
      requires Filed() && i < |chains| && k < |chains[i]|
      requires Without(i, k).Keyed()
      requires Without(i, k).succ.Keys == succ.Keys - {chains[i][k]}
      requires n in Without(i, k).succ
      ensures var t := Without(i, k); t.home[n.p] < |t.chains| && n in t.chains[t.home[n.p]]
    {
      hide Linked;
      assert Bucketful(i);
      WithoutOne(chains[i], k);
    }

    /** Once its predecessor points past record k, chain i is linked without it; and no
      * other chain has the predecessor in it. */
    lemma LinkedWithout(i: nat, k: nat, b: nat)
      requires Filed() && i < |chains| && k < |chains[i]| && b < |chains|
      ensures Without(i, k).Linked(Without(i, k).heads[b], Without(i, k).chains[b])
    {
      var c := chains[i];
      assert Bucketful(i) && Bucketful(b) && Linked(heads[b], chains[b]);
      if b == i {
        LinksSkip(succ, heads[i], c, k);
      }
    }

    lemma FiledWithout(i: nat, k: nat)
      requires Filed() && i < |chains| && k < |chains[i]|
      ensures Without(i, k).Filed()
      ensures Without(i, k).succ.Keys == succ.Keys - {chains[i][k]}
    {
      hide Linked, Bucketful;
      KeyedWithout(i, k);
      var t := Without(i, k);
      forall b | 0 <= b < |t.chains|
        ensures t.Bucketful(b) && t.Linked(t.heads[b], t.chains[b])
      {
        BucketfulWithout(i, k, b);
        LinkedWithout(i, k, b);
      }
      forall n | n in t.succ
        ensures t.home[n.p] < |t.chains| && n in t.chains[t.home[n.p]]
      {
        HomeWithout(i, k, n);
      }
    }
  }

  lemma LinksPush(succ: map<Alloc, Alloc?>, head: Alloc?, c: seq<Alloc>, n: Alloc)
    requires head == NthOrNull(c, 0) && n !in succ
    requires forall j :: 0 <= j < |c| ==> c[j] in succ
    requires forall j {:trigger succ[c[j]]} :: 0 <= j < |c| ==> succ[c[j]] == NthOrNull(c, j + 1)
    ensures var d := [n] + c;
      var succ' := succ[n := head];
      && (forall j :: 0 <= j < |d| ==> d[j] in succ')
      && (forall j {:trigger succ'[d[j]]} :: 0 <= j < |d| ==> succ'[d[j]] == NthOrNull(d, j + 1))
  {
    var d := [n] + c;
    assert forall j :: 1 <= j < |d| ==> d[j] == c[j - 1];
  }

  lemma LinksSkip(succ: map<Alloc, Alloc?>, head: Alloc?, c: seq<Alloc>, k: nat)
    requires k < |c| && Distinct(c)
    requires forall j :: 0 <= j < |c| ==> c[j] in succ
    requires forall j {:trigger succ[c[j]]} :: 0 <= j < |c| ==> succ[c[j]] == NthOrNull(c, j + 1)
    ensures var d := c[..k] + c[k + 1..];
      var succ' := (if k == 0 then succ else succ[c[k - 1] := succ[c[k]]]) - {c[k]};
      && NthOrNull(d, 0) == (if k == 0 then succ[c[0]] else c[0])
      && (forall j :: 0 <= j < |d| ==> d[j] in succ')
      && (forall j {:trigger succ'[d[j]]} :: 0 <= j < |d| ==> succ'[d[j]] == NthOrNull(d, j + 1))
  {
    var d := c[..k] + c[k + 1..];
    assert forall j :: 0 <= j < k ==> d[j] == c[j];
    assert forall j :: k <= j < |d| ==> d[j] == c[j + 1];
  }

  lemma TailMembers(c: seq<Alloc>, k: nat)
    requires k < |c| && Distinct(c)
    ensures c[k] !in c[k + 1..]
    ensures forall n :: n in c[k..] <==> n == c[k] || n in c[k + 1..]
  {
    assert c[k..] == [c[k]] + c[k + 1..];
  }

  lemma WithoutOne(c: seq<Alloc>, k: nat)
    requires k < |c| && Distinct(c)
    ensures var d := c[..k] + c[k + 1..];
      Distinct(d) && forall n :: n in d <==> n in c && n != c[k]
  {
    var d := c[..k] + c[k + 1..];
    forall n | n in c && n != c[k]
      ensures n in d
    {
      var j :| 0 <= j < |c| && c[j] == n;
      assert d[if j < k then j else j - 1] == n;
    }
  }

  /** The heap holds what the picture shows. */
  ghost predicate Depicts(allocs: array<Alloc?>, table: Table)
    reads allocs, table.succ.Keys`next
  {
    && allocs[..] == table.heads
    && forall n {:trigger n.next} :: n in table.succ ==> n.next == table.succ[n]
  }

  /** Under the mark bits, the records hold the sizes of the blocks. */
  ghost predicate Sized(nodes: set<Alloc>, blocks: Blocks)
    reads nodes`sizeTag
  {
    forall n :: n in nodes ==> n.p in blocks && SizeOf(n.sizeTag) == blocks[n.p]
  }

  lemma SizedWithout(table: Table, s: State, i: nat, k: nat)
    requires table.Filed() && i < |table.chains| && k < |table.chains[i]|
    requires Sized(table.succ.Keys, s.blocks)
    requires table.Without(i, k).succ.Keys == table.succ.Keys - {table.chains[i][k]}
    ensures Sized(table.Without(i, k).succ.Keys, Freed(s, table.chains[i][k].p).blocks)
  {
    assert table.Bucketful(i) && table.chains[i][k] in table.chains[i];
  }

  lemma CountsWithout(table: Table, s: State, i: nat, k: nat)
    requires table.Filed() && i < |table.chains| && k < |table.chains[i]|
    requires s.blocks.Keys == table.at.Keys && table.chains[i][k].p in table.at
    ensures var p := table.chains[i][k].p;
      && Freed(s, p).blocks.Keys == table.Without(i, k).at.Keys
      && |Freed(s, p).blocks| == |s.blocks| - 1
      && |table.Without(i, k).chains| == |table.chains|
      && Freed(s, p).collected == s.collected + 1 && Freed(s, p).capacity == s.capacity && Freed(s, p).sweepLimit == s.sweepLimit
  {
    hide Table.Chained;
    var p := table.chains[i][k].p;
    assert Freed(s, p).blocks.Keys == s.blocks.Keys - {p};
  }

  lemma SizedWith(table: Table, s: State, i: nat, n: Alloc, sz: nat)
    requires table.Filed() && n !in table.succ && n.p !in table.at && n.p != 0
    requires i < |table.chains| && i < |table.heads|
    requires Sized(table.succ.Keys, s.blocks) && SizeOf(n.sizeTag) == sz
    ensures table.With(i, n).succ.Keys == table.succ.Keys + {n}
    ensures Sized(table.With(i, n).succ.Keys, Registered(s, n.p, sz).blocks)
  {
    hide Table.Chained, SizeOf;
  }

  lemma CountsWith(table: Table, s: State, i: nat, n: Alloc, sz: nat)
    requires n.p !in table.at && n.p != 0
    requires i < |table.chains| && i < |table.heads| && s.blocks.Keys == table.at.Keys
    ensures var t := table.With(i, n);
      var s' := Registered(s, n.p, sz);
      && |t.chains| == |table.chains|
      && s'.blocks.Keys == t.at.Keys && |s'.blocks| == |s.blocks| + 1
      && s'.collected == s.collected && s'.capacity == s.capacity && s'.sweepLimit == s.sweepLimit
  {
    assert Registered(s, n.p, sz).blocks.Keys == s.blocks.Keys + {n.p};
  }

  /** The records that carry the mark bit. */
  ghost function Marked(nodes: set<Alloc>): set<Alloc>
    reads nodes`sizeTag
  {
    set n | n in nodes && Tagged(n.sizeTag)
  }

  lemma MarkedDef(nodes: set<Alloc>, n: Alloc)
    requires n in nodes
    ensures n in Marked(nodes) <==> Tagged(n.sizeTag)
    ensures Marked(nodes) <= nodes
  {
  }

  /** Every record that a record of from points to is in to. */
  ghost predicate Follows(v: View, blocks: Blocks, nodes: set<Alloc>, from: set<Alloc>, to: set<Alloc>)
    requires Readable(v, blocks)
  {
    forall n, m :: n in from && m in nodes && Points(v, blocks, n.p, m.p) ==> m in to
  }

  /** Nothing but what can be reached is added to before, if start can be reached. */
  ghost predicate OnlyReached(v: View, blocks: Blocks, start: nat, before: set<Alloc>, after: set<Alloc>)
    requires Readable(v, blocks)
  {
    Reachable(v, blocks, start) ==> forall n :: n in after && n !in before ==> Reachable(v, blocks, n.p)
  }

  /** What one call of the marker achieves: alloc is marked, the new marks are closed
    * under references, and only reachable records are marked. */
  ghost predicate MarksFrom(v: View, blocks: Blocks, nodes: set<Alloc>, alloc: Alloc, before: set<Alloc>, after: set<Alloc>)
    requires Readable(v, blocks)
  {
    && before <= after <= nodes && alloc in after
    && Follows(v, blocks, nodes, after - before, after)
    && OnlyReached(v, blocks, alloc.p, before, after)
  }

  /** The same in the middle of the scan of alloc's block: the windows before end have
    * been followed. */
  ghost predicate MarksUpTo(v: View, blocks: Blocks, nodes: set<Alloc>, alloc: Alloc, end: nat, before: set<Alloc>, after: set<Alloc>)
    requires Readable(v, blocks)
  {
    && before <= after <= nodes && alloc in after && alloc.p in blocks
    && Follows(v, blocks, nodes, after - before - {alloc}, after)
    && OnlyReached(v, blocks, alloc.p, before, after)
    && forall p, m :: alloc.p <= p < end && p <= alloc.p + blocks[alloc.p] - WORD && m in nodes && Word(v.mem, p) == m.p ==> m in after
  }

  lemma StartMarks(v: View, blocks: Blocks, nodes: set<Alloc>, alloc: Alloc, before: set<Alloc>)
    requires Readable(v, blocks) && before <= nodes && alloc in nodes && alloc.p in blocks
    ensures MarksUpTo(v, blocks, nodes, alloc, alloc.p, before, before + {alloc})
  {
    hide Points, Reachable;
  }

  lemma NoMarks(v: View, blocks: Blocks, nodes: set<Alloc>, alloc: Alloc, before: set<Alloc>)
    requires Readable(v, blocks) && before <= nodes && alloc in before
    ensures MarksFrom(v, blocks, nodes, alloc, before, before)
  {
    hide Points, Reachable;
  }

  lemma NextWindow(v: View, blocks: Blocks, nodes: set<Alloc>, alloc: Alloc, p: nat, before: set<Alloc>, marks: set<Alloc>, after: set<Alloc>,
                   child: Alloc?)
    requires Readable(v, blocks) && MarksUpTo(v, blocks, nodes, alloc, p, before, marks)
    requires alloc.p <= p <= alloc.p + blocks[alloc.p] - WORD && Mapped(v.mem, p, WORD)
    requires child == null ==> after == marks && forall m :: m in nodes ==> m.p != Word(v.mem, p)
    requires child != null ==> child.p == Word(v.mem, p) && child.p in blocks && (forall m :: m in nodes && m.p == child.p ==> m == child)
    requires child != null ==> MarksFrom(v, blocks, nodes, child, marks, after)
    ensures MarksUpTo(v, blocks, nodes, alloc, p + 1, before, after)
    ensures before <= after && alloc in after
  {
    if child != null {
      assert Points(v, blocks, alloc.p, child.p);
      if Reachable(v, blocks, alloc.p) {
        ReachableExtends(v, blocks, alloc.p, child.p);
      }
      hide Points, Reachable;
      assert Follows(v, blocks, nodes, after - before - {alloc}, after);
    }
  }

  lemma EndMarks(v: View, blocks: Blocks, nodes: set<Alloc>, alloc: Alloc, end: nat, before: set<Alloc>, after: set<Alloc>)
    requires Readable(v, blocks) && MarksUpTo(v, blocks, nodes, alloc, end, before, after)
    requires end > alloc.p + blocks[alloc.p] - WORD
    ensures MarksFrom(v, blocks, nodes, alloc, before, after)
  {
    forall m | m in nodes && Points(v, blocks, alloc.p, m.p)
      ensures m in after
    {
      var p :| alloc.p <= p <= alloc.p + blocks[alloc.p] - WORD && Word(v.mem, p) == m.p;
    }
    hide Points;
  }

  /** What the root scan has achieved when it has reached the stack address end. */
  ghost predicate RootsUpTo(v: View, blocks: Blocks, nodes: set<Alloc>, end: nat, marks: set<Alloc>)
    requires Readable(v, blocks)
  {
    && marks <= nodes
    && Follows(v, blocks, nodes, marks, marks)
    && (forall n :: n in marks ==> Reachable(v, blocks, n.p))
    && forall p, m :: v.tos <= p < end && p <= v.bos && m in nodes && Word(v.mem, p) == m.p ==> m in marks
  }

  lemma FollowsUnion(v: View, blocks: Blocks, nodes: set<Alloc>, marks: set<Alloc>, after: set<Alloc>)
    requires Readable(v, blocks) && marks <= after
    requires Follows(v, blocks, nodes, marks, marks) && Follows(v, blocks, nodes, after - marks, after)
    ensures Follows(v, blocks, nodes, after, after)
  {
    hide Points;
  }

  lemma NextRoot(v: View, blocks: Blocks, nodes: set<Alloc>, p: nat, marks: set<Alloc>, after: set<Alloc>, child: Alloc?)
    requires Readable(v, blocks) && RootsUpTo(v, blocks, nodes, p, marks)
    requires v.tos <= p <= v.bos
    requires child == null ==> after == marks && forall m :: m in nodes ==> m.p != Word(v.mem, p)
    requires child != null ==> child.p == Word(v.mem, p) && child.p in blocks && (forall m :: m in nodes && m.p == child.p ==> m == child)
    requires child != null ==> MarksFrom(v, blocks, nodes, child, marks, after)
    ensures RootsUpTo(v, blocks, nodes, p + 1, after)
  {
    if child != null {
      assert IsRoot(v, blocks, child.p);
      RootIsReachable(v, blocks, child.p);
      hide Points, Reachable;
      FollowsUnion(v, blocks, nodes, marks, after);
    }
  }

  ghost function ReachableRecords(v: View, blocks: Blocks, nodes: set<Alloc>): set<Alloc>
    requires Readable(v, blocks)
  {
    set n | n in nodes && Reachable(v, blocks, n.p)
  }

  lemma StackIsMapped(v: View, blocks: Blocks)
    requires Readable(v, blocks)
    ensures forall p :: v.tos <= p <= v.bos ==> Mapped(v.mem, p, WORD)
  {
  }

  lemma NoRoots(v: View, blocks: Blocks, nodes: set<Alloc>)
    requires Readable(v, blocks) && TagsClear(nodes)
    ensures RootsUpTo(v, blocks, nodes, v.tos, Marked(nodes))
  {
    hide Points, Reachable;
    assert Marked(nodes) == {};
  }

  lemma AllRootsScanned(v: View, blocks: Blocks, table: Table, end: nat, marks: set<Alloc>)
    requires Readable(v, blocks) && RootsUpTo(v, blocks, table.succ.Keys, end, marks) && end > v.bos
    requires table.Keyed() && blocks.Keys == table.at.Keys
    ensures marks == ReachableRecords(v, blocks, table.succ.Keys)
  {
    hide Reachable;
    var closed := set n | n in marks :: n.p;
    forall b | IsRoot(v, blocks, b)
      ensures b in closed
    {
      var p :| v.tos <= p <= v.bos && Word(v.mem, p) == b;
      assert table.at[b] in marks;
    }
    forall a, b | a in closed && Points(v, blocks, a, b)
      ensures b in closed
    {
      PointedIsMarked(v, blocks, table, marks, a, b);
    }
    ClosedHoldsReachable(v, blocks, closed);
    forall n | n in table.succ && Reachable(v, blocks, n.p)
      ensures n in marks
    {
      var m :| m in marks && m.p == n.p;
      assert table.at[m.p] == m && table.at[n.p] == n;
    }
  }

  lemma PointedIsMarked(v: View, blocks: Blocks, table: Table, marks: set<Alloc>, a: nat, b: nat)
    requires Readable(v, blocks) && Follows(v, blocks, table.succ.Keys, marks, marks)
    requires table.Keyed() && blocks.Keys == table.at.Keys
    requires (exists n :: n in marks && n.p == a) && Points(v, blocks, a, b)
    ensures exists m :: m in marks && m.p == b
  {
    hide Points;
    var n :| n in marks && n.p == a;
    PointsIntoTable(v, blocks, a, b);
    var m := table.at[b];
    assert m in table.succ && m.p == b;
  }

  lemma PointsIntoTable(v: View, blocks: Blocks, a: nat, b: nat)
    requires Readable(v, blocks) && Points(v, blocks, a, b)
    ensures a in blocks && b in blocks
  {
  }

  /** A sweep in progress: of the records nodes, those that were marked or are still
    * ahead are left, and the marks ahead have not been cleared. */
  ghost predicate HalfSwept(nodes: set<Alloc>, marked: set<Alloc>, todo: set<Alloc>, left: set<Alloc>, marks: set<Alloc>) {
    && left <= nodes && todo <= left
    && (forall n :: n in nodes ==> (n in left <==> n in todo || n in marked))
    && marks == todo * marked
  }

  lemma KeptOne(nodes: set<Alloc>, marked: set<Alloc>, todo: set<Alloc>, left: set<Alloc>, marks: set<Alloc>, n: Alloc)
    requires HalfSwept(nodes, marked, todo, left, marks) && n in todo && n in marks
    ensures HalfSwept(nodes, marked, todo - {n}, left, marks - {n})
  {
  }

  lemma DroppedOne(nodes: set<Alloc>, marked: set<Alloc>, todo: set<Alloc>, left: set<Alloc>, marks: set<Alloc>, n: Alloc)
    requires HalfSwept(nodes, marked, todo, left, marks) && n in todo && n !in marks
    ensures HalfSwept(nodes, marked, todo - {n}, left - {n}, marks)
  {
  }

  lemma MarkedLess(nodes: set<Alloc>, n: Alloc)
    requires !Tagged(n.sizeTag)
    ensures Marked(nodes - {n}) == Marked(nodes)
  {
  }

  lemma SweepStarts(nodes: set<Alloc>, marked: set<Alloc>)
    requires marked <= nodes
    ensures HalfSwept(nodes, marked, nodes, nodes, marked)
  {
  }

  lemma SweepEnds(nodes: set<Alloc>, marked: set<Alloc>, todo: set<Alloc>, left: set<Alloc>, marks: set<Alloc>)
    requires marked <= nodes && HalfSwept(nodes, marked, todo, left, marks) && todo == {}
    ensures left == marked && marks == {}
  {
  }

  lemma BlockIsMapped(v: View, blocks: Blocks, a: nat)
    requires Readable(v, blocks) && a in blocks
    ensures forall p :: a <= p <= a + blocks[a] - WORD ==> Mapped(v.mem, p, WORD)
  {
  }

  ghost predicate TagsClear(nodes: set<Alloc>)
    reads nodes`sizeTag
  {
    forall n :: n in nodes ==> !Tagged(n.sizeTag)
  }

  /** gc_t. The ghost fields are the picture of the table and the abstract state. */
  class Collector {
    const hash: nat -> nat
    var bos: nat
    var allocs: array<Alloc?>
    var capacity: nat
    var size: nat
    var sweepLimit: nat
    var gcCnt: nat

    ghost var table: Table
    ghost var state: State

    ghost predicate Shape()
      reads this, allocs, table.succ.Keys`next
    {
      table.Filed() && table.Hashed(hash) && |table.chains| == capacity && Depicts(allocs, table)
    }

    /** The fields agree with the abstract state. */
    ghost predicate Agrees()
      reads this
    {
      && state.capacity == capacity && state.sweepLimit == sweepLimit && state.collected == gcCnt
      && |state.blocks| == size && state.blocks.Keys == table.at.Keys
    }

    ghost predicate Valid()
      reads this, allocs, table.succ.Keys
    {
      Shape() && Sized(table.succ.Keys, state.blocks) && Agrees() && Sound(state)
    }

    lemma Parts()
      requires Valid()
      ensures Shape() && Sound(state) && table.Keyed() && state.blocks.Keys == table.at.Keys
      ensures forall n :: n in table.succ ==> n.p in table.at && table.at[n.p] == n
    {
      hide Sized, Sound, Depicts;
    }

    /** search */
    method Search(p: nat) returns (ret: Alloc?)
      requires Shape()
      ensures p in table.at ==> ret == table.at[p]
      ensures p !in table.at ==> ret == null
      ensures ret != null ==> ret in table.succ && ret.p == p
    {
      hide Table.Keyed, Table.Chained, Table.Hashed;
      table.ChainOf(hash, p);
      var index := Bucket(hash(p), capacity);
      ghost var c := table.chains[index];
      assert allocs[..][index] == table.heads[index];
      ghost var j := 0;
      ret := allocs[index];
      while ret != null
        invariant j <= |c| && ret == NthOrNull(c, j)
        invariant forall k :: 0 <= k < j ==> c[k].p != p
        decreases |c| - j
      {
        if ret.p == p {
          return;
        }
        ret := ret.next;
        j := j + 1;
      }
      assert forall n :: n in c ==> n.p != p;
    }

    /** The list surgery of gc_free_alloc: takes a record out of its chain. */
    method Detach(alloc: Alloc) returns (ghost i: nat, ghost k: nat)
      requires Shape() && alloc in table.succ && alloc.p in table.at && table.at[alloc.p] == alloc
      modifies allocs, table.succ.Keys`next
      ensures i < |table.chains| && k < |table.chains[i]| && table.chains[i][k] == alloc
      ensures Depicts(allocs, table.Without(i, k))
    {
      hide Table.Keyed, Table.Chained, Table.Hashed;
      table.ChainOf(hash, alloc.p);
      var index := Bucket(hash(alloc.p), capacity);
      ghost var c := table.chains[index];
      var p, q := allocs[index], null;
      assert allocs[..][index] == p;
      i, k := index, 0;
      if p == alloc {
        allocs[index] := alloc.next;
      } else {
        q := p.next;
        k := 1;
        while q != null
          invariant 1 <= k <= |c| && p == c[k - 1] && q == NthOrNull(c, k)
          invariant forall j :: 0 <= j < k ==> c[j] != alloc
          decreases |c| - k
        {
          if q == alloc {
            p.next := q.next;
            break;
          }
          p := q;
          q := q.next;
          k := k + 1;
        }
      }
    }

    /** The end of gc_free_alloc: one record less, and one block more is counted. */
    method CountFree(ghost t: Table, ghost s: State)
      requires t.Filed() && t.Hashed(hash) && |t.chains| == capacity && Depicts(allocs, t)
      requires Sized(t.succ.Keys, s.blocks) && s.blocks.Keys == t.at.Keys && Sound(s)
      requires size == |s.blocks| + 1 && gcCnt + 1 == s.collected
      requires capacity == s.capacity && sweepLimit == s.sweepLimit
      modifies `size, `gcCnt, `table, `state
      ensures Valid() && table == t && state == s
    {
      hide Table.Filed, Table.Hashed, Depicts, Sized, Sound;
      size := size - 1;
      gcCnt := gcCnt + 1;
      table := t;
      state := s;
    }

    /** gc_free_alloc: unlinks a record and frees the record and its block. The
      * source's fatal case, a record that is in no chain, does not arise. */
    method FreeAlloc(alloc: Alloc) returns (ghost i: nat, ghost k: nat)
      requires Valid() && alloc in table.succ && alloc.p in table.at && table.at[alloc.p] == alloc
      modifies allocs, table.succ.Keys`next, `size, `gcCnt, `table, `state
      ensures Valid() && state == Freed(old(state), alloc.p)
      ensures i < |old(table).chains| && k < |old(table).chains[i]| && old(table).chains[i][k] == alloc
      ensures table == old(table).Without(i, k) && table.succ.Keys == old(table.succ.Keys) - {alloc}
    {
      hide Table.Filed, Table.Hashed, Table.Without, Sized, Sound, Depicts, Freed;
      i, k := Detach(alloc);
      table.FiledWithout(i, k);
      table.HashedWithout(hash, i, k);
      FreedIsSound(state, alloc.p);
      SizedWithout(table, state, i, k);
      CountsWithout(table, state, i, k);
      CountFree(table.Without(i, k), Freed(state, alloc.p));
    }

    /** The list surgery of register_alloc: puts a record in front of its chain. */
    method Attach(alloc: Alloc) returns (ghost i: nat)
      requires Shape() && alloc !in table.succ
      modifies allocs, alloc`next
      ensures i < |table.chains| && i < |table.heads| && i == Bucket(hash(alloc.p), |table.chains|)
      ensures Depicts(allocs, table.With(i, alloc))
    {
      hide Table.Keyed, Table.Chained, Table.Hashed;
      table.ChainOf(hash, alloc.p);
      var index := Bucket(hash(alloc.p), capacity);
      i := index;
      var a := allocs[index];
      assert a == allocs[..][index];
      allocs[index] := alloc;
      alloc.next := a;
    }

    /** The end of register_alloc: one record more. */
    method CountAlloc(ghost t: Table, ghost s: State)
      requires t.Filed() && t.Hashed(hash) && |t.chains| == capacity && Depicts(allocs, t)
      requires Sized(t.succ.Keys, s.blocks) && s.blocks.Keys == t.at.Keys && Sound(s)
      requires size + 1 == |s.blocks| && gcCnt == s.collected
      requires capacity == s.capacity && sweepLimit == s.sweepLimit
      modifies `size, `table, `state
      ensures Valid() && table == t && state == s
    {
      hide Table.Filed, Table.Hashed, Depicts, Sized, Sound;
      size := size + 1;
      table := t;
      state := s;
    }

    /** register_alloc: a null address is not recorded. */
    method Register(p: nat, sz: nat)
      requires Valid() && |state.blocks| <= state.sweepLimit && FreshBlock(state.blocks, p, sz) && sz % 8 == 0
      modifies allocs, `size, `table, `state
      ensures Valid() && state == Registered(old(state), p, sz)
      ensures old(table.succ.Keys) <= table.succ.Keys && fresh(table.succ.Keys - old(table.succ.Keys))
      ensures forall n :: n in table.succ.Keys && n !in old(table.succ.Keys) ==> !Tagged(n.sizeTag)
    {
      hide *;
      Parts();
      NullIsNotRegistered(state, sz);
      EvenIsUntagged(sz);
      if p != 0 {
        FreshIsNew(state.blocks, p, sz);
        RegisteredIsSound(state, p, sz);
        var alloc := new Alloc(p, sz);
        RegisterRecord(alloc, sz);
      }
    }

    method RegisterRecord(alloc: Alloc, sz: nat)
      requires Valid() && alloc !in table.succ && alloc.p !in table.at && alloc.p != 0
      requires alloc.sizeTag == sz && sz % 2 == 0 && Sound(Registered(state, alloc.p, sz))
      modifies allocs, alloc`next, `size, `table, `state
      ensures Valid() && state == Registered(old(state), alloc.p, sz)
      ensures table.succ.Keys == old(table.succ.Keys) + {alloc}
    {
      hide Table.Filed, Table.Hashed, Table.With, Sized, Sound, Depicts;
      ghost var s := Registered(state, alloc.p, sz);
      ghost var i := Attach(alloc);
      table.FiledWith(i, alloc);
      table.HashedWith(hash, i, alloc);
      SizedWith(table, state, i, alloc, sz);
      CountsWith(table, state, i, alloc, sz);
      CountAlloc(table.With(i, alloc), s);
    }

    /** alloc->size_tag |= 0x1, on a record that is not marked */
    method SetTag(alloc: Alloc, ghost nodes: set<Alloc>, ghost blocks: Blocks)
      requires alloc in nodes && !Tagged(alloc.sizeTag) && Sized(nodes, blocks)
      modifies alloc`sizeTag
      ensures Sized(nodes, blocks) && Marked(nodes) == old(Marked(nodes)) + {alloc}
      ensures SizeOf(alloc.sizeTag) == blocks[alloc.p]
    {
      alloc.sizeTag := alloc.sizeTag + 1;
    }

    /** gc_mark_alloc: marks a record and, through every window of its block, whatever
      * can be reached from it and is not marked yet. */
    method MarkAlloc(alloc: Alloc, v: View)
      requires Shape() && Sized(table.succ.Keys, state.blocks) && state.blocks.Keys == table.at.Keys
      requires Readable(v, state.blocks) && alloc in table.succ && alloc.p in table.at
      modifies table.succ.Keys`sizeTag
      ensures Sized(table.succ.Keys, state.blocks)
      ensures MarksFrom(v, state.blocks, table.succ.Keys, alloc, old(Marked(table.succ.Keys)), Marked(table.succ.Keys))
      decreases table.succ.Keys - Marked(table.succ.Keys)
    {
      hide Table.Filed, Table.Hashed, Depicts, Sized, Readable, Marked, MarksFrom, MarksUpTo, Mapped, SizeOf, LittleEndian;
      ghost var nodes, blocks := table.succ.Keys, state.blocks;
      ghost var before := Marked(nodes);
      MarkedDef(nodes, alloc);
      table.RecordsAreKeyed();
      if !Tagged(alloc.sizeTag) {
        SetTag(alloc, nodes, blocks);
        var p1 := alloc.p;
        var p2 := alloc.p + SizeOf(alloc.sizeTag) - WORD;
        BlockIsMapped(v, blocks, alloc.p);
        StartMarks(v, blocks, nodes, alloc, before);
        while p1 <= p2
          invariant alloc.p <= p1
          invariant Sized(nodes, blocks)
          invariant before <= Marked(nodes) && alloc in Marked(nodes)
          invariant MarksUpTo(v, blocks, nodes, alloc, p1, before, Marked(nodes))
          decreases p2 - p1
        {
          ghost var marks := Marked(nodes);
          var child := Search(Word(v.mem, p1));
          if child != null {
            MarkAlloc(child, v);
          }
          NextWindow(v, blocks, nodes, alloc, p1, before, marks, Marked(nodes), child);
          p1 := p1 + 1;
        }
        EndMarks(v, blocks, nodes, alloc, p1, before, Marked(nodes));
      } else {
        NoMarks(v, blocks, nodes, alloc, before);
      }
    }

    /** gc_mark: marks from every word of the stack, at every byte offset. */
    method Mark(v: View)
      requires Shape() && Sized(table.succ.Keys, state.blocks) && state.blocks.Keys == table.at.Keys
      requires Readable(v, state.blocks) && v.bos == bos && TagsClear(table.succ.Keys)
      modifies table.succ.Keys`sizeTag
      ensures Sized(table.succ.Keys, state.blocks)
      ensures Marked(table.succ.Keys) == ReachableRecords(v, state.blocks, table.succ.Keys)
    {
      hide Table.Filed, Table.Hashed, Depicts, Sized, Marked, MarksFrom, Readable, RootsUpTo, ReachableRecords, TagsClear;
      ghost var nodes, blocks := table.succ.Keys, state.blocks;
      table.RecordsAreKeyed();
      StackIsMapped(v, blocks);
      NoRoots(v, blocks, nodes);
      var p := v.tos;
      while p <= bos
        invariant v.tos <= p
        invariant Sized(nodes, blocks)
        invariant RootsUpTo(v, blocks, nodes, p, Marked(nodes))
        decreases bos - p
      {
        ghost var marks := Marked(nodes);
        var alloc := Search(Word(v.mem, p));
        if alloc != null {
          MarkAlloc(alloc, v);
        }
        NextRoot(v, blocks, nodes, p, marks, Marked(nodes), alloc);
        p := p + 1;
      }
      AllRootsScanned(v, blocks, table, p, Marked(nodes));
    }

    /** alloc->size_tag &= ~0x1 */
    method ClearTag(alloc: Alloc, ghost nodes: set<Alloc>, ghost blocks: Blocks)
      requires alloc in nodes && Tagged(alloc.sizeTag) && Sized(nodes, blocks)
      modifies alloc`sizeTag
      ensures Sized(nodes, blocks) && Marked(nodes) == old(Marked(nodes)) - {alloc}
    {
      alloc.sizeTag := alloc.sizeTag - 1;
    }

    /** The body of the inner loop of gc_sweep: a marked record loses its mark, any
      * other one is freed; its successor is read before that. */
    method SweepRecord(alloc: Alloc, ghost i: nat, ghost k: nat,
                       ghost s0: State, ghost nodes: set<Alloc>, ghost marked: set<Alloc>, ghost todo: set<Alloc>)
      returns (next: Alloc?, ghost l: nat)
      requires Valid() && i < |table.chains| && k < |table.chains[i]| && alloc == table.chains[i][k]
      requires Trimmed(s0, state) && table.Ahead(todo, i, k)
      requires HalfSwept(nodes, marked, todo, table.succ.Keys, Marked(table.succ.Keys))
      modifies allocs, table.succ.Keys, `size, `gcCnt, `table, `state
      ensures Valid() && table.succ.Keys <= old(table.succ.Keys) && alloc in todo
      ensures |table.chains| == old(|table.chains|) && l <= |table.chains[i]| && next == NthOrNull(table.chains[i], l)
      ensures Trimmed(s0, state) && table.Ahead(todo - {alloc}, i, l)
      ensures HalfSwept(nodes, marked, todo - {alloc}, table.succ.Keys, Marked(table.succ.Keys))
    {
      hide Table.Filed, Table.Hashed, Table.Without, Table.Ahead, Depicts, Sized, Sound, Trimmed, Marked, HalfSwept, Freed;
      table.RecordAhead(todo, i, k);
      ghost var left := table.succ.Keys;
      ghost var marks := Marked(left);
      MarkedDef(left, alloc);
      NextOf(alloc);
      next := alloc.next;
      if Tagged(alloc.sizeTag) {
        KeptOne(nodes, marked, todo, left, marks, alloc);
        table.StepPast(todo, i, k);
        ClearTag(alloc, left, state.blocks);
        l := k + 1;
      } else {
        DropRecord(alloc, i, k, s0, todo);
        DroppedOne(nodes, marked, todo, left, marks, alloc);
        l := k;
      }
    }

    lemma HeadOf(i: nat)
      requires Shape() && i < capacity
      ensures i < allocs.Length && i < |table.heads| && allocs[i] == table.heads[i]
    {
      hide Table.Filed, Table.Hashed;
      assert Depicts(allocs, table);
      table.HeadCount();
      assert allocs[..][i] == table.heads[i];
    }

    lemma NextOf(n: Alloc)
      requires Shape() && n in table.succ
      ensures n.next == table.succ[n]
    {
    }

    method DropRecord(alloc: Alloc, ghost i: nat, ghost k: nat, ghost s0: State, ghost todo: set<Alloc>)
      requires Valid() && i < |table.chains| && k < |table.chains[i]| && alloc == table.chains[i][k]
      requires alloc in table.succ && alloc.p in table.at && table.at[alloc.p] == alloc && !Tagged(alloc.sizeTag)
      requires Trimmed(s0, state) && table.Ahead(todo, i, k)
      modifies allocs, table.succ.Keys`next, `size, `gcCnt, `table, `state
      ensures Valid() && table.succ.Keys == old(table.succ.Keys) - {alloc}
      ensures |table.chains| == old(|table.chains|) && k <= |table.chains[i]|
      ensures NthOrNull(table.chains[i], k) == NthOrNull(old(table.chains)[i], k + 1)
      ensures Trimmed(s0, state) && table.Ahead(todo - {alloc}, i, k)
      ensures Marked(table.succ.Keys) == old(Marked(table.succ.Keys))
    {
      hide Table.Filed, Table.Hashed, Table.Without, Table.Ahead, Depicts, Sized, Sound, Trimmed, Marked, Freed;
      ghost var t, left := table, table.succ.Keys;
      OneMoreTrimmed(s0, state, alloc.p);
      t.FiledWithout(i, k);
      t.StepOver(todo, i, k);
      MarkedLess(left, alloc);
      ghost var j, l := FreeAlloc(alloc);
      t.OnePlace(i, k, j, l);
    }

    /** The inner loop of gc_sweep: one bucket. */
    method SweepBucket(i: nat, ghost s0: State, ghost nodes: set<Alloc>, ghost marked: set<Alloc>, ghost todo: set<Alloc>)
      returns (ghost rest: set<Alloc>)
      requires Valid() && i < capacity && Trimmed(s0, state) && table.AheadOf(todo, i)
      requires HalfSwept(nodes, marked, todo, table.succ.Keys, Marked(table.succ.Keys))
      modifies allocs, table.succ.Keys, `size, `gcCnt, `table, `state
      ensures Valid() && Trimmed(s0, state) && table.AheadOf(rest, i + 1)
      ensures table.succ.Keys <= old(table.succ.Keys)
      ensures HalfSwept(nodes, marked, rest, table.succ.Keys, Marked(table.succ.Keys))
    {
      hide Table.Filed, Table.Hashed, Table.AheadOf, Table.Ahead, Depicts, Sized, Sound, Trimmed, Marked, HalfSwept;
      rest := todo;
      ghost var k: nat := 0;
      table.EnterBucket(todo, i);
      HeadOf(i);
      var alloc := allocs[i];
      while alloc != null
        invariant Valid() && table.succ.Keys <= old(table.succ.Keys)
        invariant i < |table.chains| && k <= |table.chains[i]| && alloc == NthOrNull(table.chains[i], k)
        invariant Trimmed(s0, state) && table.Ahead(rest, i, k)
        invariant HalfSwept(nodes, marked, rest, table.succ.Keys, Marked(table.succ.Keys))
        decreases rest
      {
        ghost var visited := alloc;
        alloc, k := SweepRecord(alloc, i, k, s0, nodes, marked, rest);
        rest := rest - {visited};
      }
      table.LeaveBucket(rest, i);
    }

    /** The loops of gc_sweep: the marked records stay, without their marks, and every
      * other one is freed. */
    method SweepAll(ghost marked: set<Alloc>)
      requires Valid() && marked == Marked(table.succ.Keys)
      modifies allocs, table.succ.Keys, `size, `gcCnt, `table, `state
      ensures Valid() && Trimmed(old(state), state)
      ensures table.succ.Keys == marked <= old(table.succ.Keys) && TagsClear(marked)
    {
      hide Table.Filed, Table.Hashed, Table.AheadOf, Depicts, Sized, Sound, Trimmed, HalfSwept, TagsClear;
      ghost var s0, nodes := state, table.succ.Keys;
      ghost var todo := nodes;
      NothingTrimmed(s0);
      SweepStarts(nodes, marked);
      table.EverythingAhead();
      var i := 0;
      hide Marked;
      while i < capacity
        invariant Valid() && table.succ.Keys <= nodes && i <= capacity
        invariant Trimmed(s0, state) && table.AheadOf(todo, i)
        invariant HalfSwept(nodes, marked, todo, table.succ.Keys, Marked(table.succ.Keys))
      {
        todo := SweepBucket(i, s0, nodes, marked, todo);
        i := i + 1;
      }
      table.NothingAhead(todo);
      SweepEnds(nodes, marked, todo, table.succ.Keys, Marked(table.succ.Keys));
      NoMarkIsClear(table.succ.Keys);
    }

    /** The body of the inner loop of gc_hash_resize: the record goes to the front of
      * its new chain; its old successor is read before that. */
    method MoveRecord(alloc: Alloc, newAllocs: array<Alloc?>, ghost t: Table, ghost todo: set<Alloc>)
      returns (next: Alloc?, ghost u: Table)
      requires table.Filed() && IsCapacity(newAllocs.Length) && |t.chains| == newAllocs.Length
      requires alloc in todo && alloc in table.succ && Unmoved(table, todo) && Moved(table, t, todo)
      requires t.Filed() && t.Hashed(hash) && Depicts(newAllocs, t)
      modifies newAllocs, alloc`next
      ensures next == table.succ[alloc] && Unmoved(table, todo - {alloc}) && Moved(table, u, todo - {alloc})
      ensures u.Filed() && u.Hashed(hash) && Depicts(newAllocs, u) && |u.chains| == newAllocs.Length
    {
      hide Bucket, Table.Filed, Table.Hashed, IsCapacity, BitAnd;
      next := alloc.next;
      MaskedIndex(hash(alloc.p), newAllocs.Length);
      var index := BitAnd(hash(alloc.p), newAllocs.Length - 1) % 0x1_0000_0000;
      t.HeadCount();
      NotYetMoved(table, t, todo, alloc);
      assert newAllocs[index] == newAllocs[..][index];
      u := t.With(index, alloc);
      t.FiledWith(index, alloc);
      t.HashedWith(hash, index, alloc);
      alloc.next := newAllocs[index];
      newAllocs[index] := alloc;
    }

    /** The inner loop of gc_hash_resize: moves the records of one old bucket. */
    method MoveBucket(i: nat, newAllocs: array<Alloc?>, ghost t: Table, ghost todo: set<Alloc>)
      returns (ghost u: Table, ghost rest: set<Alloc>)
      requires table.Filed() && i < |table.chains| && i < allocs.Length && allocs[..] == table.heads && allocs != newAllocs
      requires IsCapacity(newAllocs.Length) && |t.chains| == newAllocs.Length
      requires Unmoved(table, todo) && Moved(table, t, todo) && table.AheadOf(todo, i)
      requires t.Filed() && t.Hashed(hash) && Depicts(newAllocs, t)
      modifies newAllocs, table.succ.Keys`next
      ensures Unmoved(table, rest) && Moved(table, u, rest) && table.AheadOf(rest, i + 1)
      ensures u.Filed() && u.Hashed(hash) && Depicts(newAllocs, u) && |u.chains| == newAllocs.Length
    {
      hide Table.Filed, Table.Hashed, Table.AheadOf, Table.Ahead, Unmoved, Moved, Depicts, IsCapacity;
      u, rest := t, todo;
      ghost var k: nat := 0;
      table.EnterBucket(todo, i);
      assert allocs[i] == allocs[..][i];
      var alloc := allocs[i];
      while alloc != null
        invariant k <= |table.chains[i]| && alloc == NthOrNull(table.chains[i], k)
        invariant Unmoved(table, rest) && Moved(table, u, rest) && table.Ahead(rest, i, k)
        invariant u.Filed() && u.Hashed(hash) && Depicts(newAllocs, u) && |u.chains| == newAllocs.Length
        decreases rest
      {
        table.RecordAhead(rest, i, k);
        table.StepPast(rest, i, k);
        ghost var moved := alloc;
        alloc, u := MoveRecord(alloc, newAllocs, u, rest);
        rest := rest - {moved};
        k := k + 1;
      }
      table.LeaveBucket(rest, i);
    }

    /** The loops of gc_hash_resize. */
    method MoveAll(newAllocs: array<Alloc?>) returns (ghost t: Table)
      requires Shape() && allocs != newAllocs && IsCapacity(newAllocs.Length)
      requires newAllocs[..] == seq(newAllocs.Length, _ => null)
      modifies newAllocs, table.succ.Keys`next
      ensures t.Filed() && t.Hashed(hash) && Depicts(newAllocs, t) && |t.chains| == newAllocs.Length
      ensures t.succ.Keys == table.succ.Keys && t.at == table.at
    {
      var n := newAllocs.Length;
      MaskedIndex(0, n);
      t := EmptyTable(n);
      EmptyTableIsFiled(n, hash);
      ghost var todo := table.succ.Keys;
      table.EverythingAhead();
      table.HeadCount();
      assert Depicts(newAllocs, t) && Unmoved(table, todo) && Moved(table, t, todo);
      hide Table.Filed, Table.Hashed, Table.AheadOf, Unmoved, Moved, Depicts, IsCapacity;
      var i := 0;
      while i < capacity
        invariant i <= capacity
        invariant Unmoved(table, todo) && Moved(table, t, todo) && table.AheadOf(todo, i)
        invariant t.Filed() && t.Hashed(hash) && Depicts(newAllocs, t) && |t.chains| == newAllocs.Length
        invariant allocs[..] == table.heads
      {
        t, todo := MoveBucket(i, newAllocs, t, todo);
        i := i + 1;
      }
      table.NothingAhead(todo);
      EverythingMoved(table, t);
    }

    /** gc_hash_resize: the table gets twice the buckets and keeps its records. */
    method HashResize()
      requires Valid()
      modifies `allocs, `capacity, `sweepLimit, `table, `state, table.succ.Keys`next
      ensures Valid() && state == Resized(old(state)) && fresh(allocs)
      ensures table.succ.Keys == old(table.succ.Keys) && table.at == old(table.at)
    {
      hide Table.Filed, Table.Hashed, Depicts, Sized, Sound, IsCapacity;
      var newCap := capacity * 2;
      ResizedIsSound(state);
      SoundCapacity(state);
      var newAllocs := new Alloc?[newCap](_ => null);
      ghost var t := MoveAll(newAllocs);
      Install(newAllocs, newCap, t);
    }

    /** The end of gc_hash_resize. */
    method Install(newAllocs: array<Alloc?>, newCap: nat, ghost t: Table)
      requires Agrees() && newCap == 2 * capacity && Sound(Resized(state))
      requires t.Filed() && t.Hashed(hash) && Depicts(newAllocs, t) && |t.chains| == newCap && t.at == table.at
      requires Sized(t.succ.Keys, state.blocks)
      modifies `allocs, `capacity, `sweepLimit, `table, `state
      ensures Valid() && state == Resized(old(state)) && allocs == newAllocs && table == t
    {
      hide Table.Filed, Table.Hashed, Depicts, Sized, Sound, IsCapacity;
      capacity := newCap;
      allocs := newAllocs;
      sweepLimit := capacity / 2;
      table := t;
      state := Resized(state);
    }

    /** gc_sweep: a table without blocks is left alone; otherwise the unmarked blocks go,
      * and a table that is still too full is doubled. */
    method Sweep(ghost marked: set<Alloc>) returns (ghost m: State)
      requires Valid() && marked == Marked(table.succ.Keys)
      modifies this, allocs, table.succ.Keys
      ensures Valid() && TagsClear(table.succ.Keys) && bos == old(bos)
      ensures allocs == old(allocs) || fresh(allocs)
      ensures table.succ.Keys <= old(table.succ.Keys)
      ensures old(state.blocks) == map[] ==> state == old(state)
      ensures old(state.blocks) != map[] ==>
                && Trimmed(old(state), m) && table.succ.Keys == marked && m.blocks.Keys == table.at.Keys
                && state == if NeedCollect(m) || NeedResize(m) then Resized(m) else m
    {
      hide Table.Filed, Table.Hashed, Depicts, Sized, Sound, Trimmed, Marked, TagsClear;
      m := state;
      if size == 0 {
        NoBlocks(table, state.blocks);
        return;
      }
      SweepAll(marked);
      m := state;
      if size > sweepLimit || 10 * size > 7 * capacity {
        HashResize();
      }
    }

    /** gc_collect */
    method Collect(v: View)
      requires Valid() && TagsClear(table.succ.Keys) && Readable(v, state.blocks) && v.bos == bos
      modifies this, allocs, table.succ.Keys
      ensures Valid() && TagsClear(table.succ.Keys) && bos == old(bos)
      ensures allocs == old(allocs) || fresh(allocs)
      ensures table.succ.Keys <= old(table.succ.Keys)
      ensures CollectStep(old(state), v, state)
    {
      hide Table.Filed, Table.Hashed, Depicts, Sized, Sound, Trimmed, Marked, TagsClear, Readable, Swept, Reachable, ReachableRecords;
      ghost var s0, t0 := state, table;
      Mark(v);
      ghost var m := Sweep(Marked(table.succ.Keys));
      if s0.blocks != map[] {
        SurvivorsLeft(s0, v, t0, table, m);
      }
    }

    /** gc_init: an empty table over a fixed hash function. */
    constructor (hash: nat -> nat, bos: nat)
      ensures Valid() && TagsClear(table.succ.Keys) && state == INITIAL
      ensures this.hash == hash && this.bos == bos && fresh(allocs)
    {
      this.hash := hash;
      this.bos := bos;
      capacity := DEFAULT_CAPACITY;
      allocs := new Alloc?[DEFAULT_CAPACITY](_ => null);
      size := 0;
      sweepLimit := DEFAULT_CAPACITY / 2;
      gcCnt := 0;
      table := EmptyTable(DEFAULT_CAPACITY);
      state := INITIAL;
      new;
      EmptyTableIsFiled(DEFAULT_CAPACITY, hash);
      InitialIsSound();
    }

    /** The check at the head of every allocation. */
    method Check(v: View)
      requires Valid() && TagsClear(table.succ.Keys) && Readable(v, state.blocks) && v.bos == bos
      modifies this, allocs, table.succ.Keys
      ensures Valid() && TagsClear(table.succ.Keys) && bos == old(bos)
      ensures allocs == old(allocs) || fresh(allocs)
      ensures table.succ.Keys <= old(table.succ.Keys)
      ensures CheckStep(old(state), v, state) && |state.blocks| <= state.sweepLimit
      ensures state.blocks == BlocksAfterCheck(old(state), v)
    {
      hide Table.Filed, Table.Hashed, Depicts, Sized, Sound, TagsClear, Readable, CollectStep;
      ghost var s0 := state;
      if size > sweepLimit {
        Collect(v);
        CollectIsSound(s0, v, state);
      }
    }

    /** gc_malloc(size). answer is what the system allocator returns for the rounded
      * size after the check: a failure, or a block apart from those still tracked. */
    method Malloc(size: nat, v: View, answer: nat) returns (ret: nat)
      requires Valid() && TagsClear(table.succ.Keys) && Readable(v, state.blocks) && v.bos == bos
      requires FreshBlock(BlocksAfterCheck(state, v), answer, RoundUp(size))
      modifies this, allocs, table.succ.Keys
      ensures Valid() && TagsClear(table.succ.Keys) && bos == old(bos)
      ensures allocs == old(allocs) || fresh(allocs)
      ensures fresh(table.succ.Keys - old(table.succ.Keys))
      ensures MallocStep(old(state), v, size, ret, state)
      ensures size != 0 ==> ret == answer
    {
      hide Table.Filed, Table.Hashed, Depicts, Sized, Sound, TagsClear, Readable, CheckStep, FreshBlock, Registered, RoundUp;
      if size == 0 {
        return 0;
      }
      RoundUpIsEven(size);
      Check(v);
      ghost var nodes := table.succ.Keys;
      var sz := RoundUp(size);
      ret := answer;
      Register(ret, sz);
      TagsStayClear(nodes, table.succ.Keys);
    }

    /** gc_calloc(nmemb, size). The system's calloc fails when the product overflows. */
    method Calloc(nmemb: nat, size: nat, v: View, answer: nat) returns (ret: nat)
      requires Valid() && TagsClear(table.succ.Keys) && Readable(v, state.blocks) && v.bos == bos
      requires FreshBlock(BlocksAfterCheck(state, v), answer, RoundUp(size) * nmemb)
      requires RoundUp(size) * nmemb >= WORD_RANGE ==> answer == 0
      modifies this, allocs, table.succ.Keys
      ensures Valid() && TagsClear(table.succ.Keys) && bos == old(bos)
      ensures allocs == old(allocs) || fresh(allocs)
      ensures fresh(table.succ.Keys - old(table.succ.Keys))
      ensures CallocStep(old(state), v, nmemb, size, ret, state)
      ensures nmemb != 0 && size != 0 ==> ret == answer
    {
      hide Table.Filed, Table.Hashed, Depicts, Sized, Sound, TagsClear, Readable, CheckStep, FreshBlock, Registered, RoundUp;
      if nmemb == 0 || size == 0 {
        return 0;
      }
      RoundUpIsEven(size);
      MultipleOf8(RoundUp(size) / 8, nmemb);
      Check(v);
      ghost var nodes := table.succ.Keys;
      var sz := RoundUp(size);
      ret := answer;
      Register(ret, sz * nmemb);
      TagsStayClear(nodes, table.succ.Keys);
    }

    /** gc_free(ptr) */
    method Free(ptr: nat)
      requires Valid() && TagsClear(table.succ.Keys)
      modifies this, allocs, table.succ.Keys
      ensures Valid() && TagsClear(table.succ.Keys) && bos == old(bos) && allocs == old(allocs)
      ensures table.succ.Keys <= old(table.succ.Keys)
      ensures state == Freed(old(state), ptr)
    {
      hide *;
      Parts();
      UntrackedFree(state, ptr);
      if ptr == 0 {
        return;
      }
      var alloc := Search(ptr);
      if alloc != null {
        ghost var nodes := table.succ.Keys;
        ghost var i, k := FreeAlloc(alloc);
        TagsStayClear(nodes, table.succ.Keys);
      }
    }
  }

  /** A table of n empty buckets. */
  ghost function EmptyTable(n: nat): Table {
    Table(seq(n, _ => null), map[], seq(n, _ => []), map[], map[])
  }

  lemma EmptyTableIsFiled(n: nat, hash: nat -> nat)
    requires n > 0
    ensures EmptyTable(n).Filed() && EmptyTable(n).Hashed(hash)
  {
  }

  /** A rehash in progress: t holds the records of table that are not ahead. */
  ghost predicate Moved(table: Table, t: Table, todo: set<Alloc>)
  {
    t.succ.Keys == table.succ.Keys - todo
  }

  /** The records that have not been moved have their old successors. */
  ghost predicate Unmoved(table: Table, todo: set<Alloc>)
    reads todo`next
  {
    todo <= table.succ.Keys && forall n {:trigger n.next} :: n in todo ==> n.next == table.succ[n]
  }

  lemma NotYetMoved(table: Table, t: Table, todo: set<Alloc>, n: Alloc)
    requires table.Filed() && t.Filed() && n in todo && n in table.succ && Moved(table, t, todo)
    ensures n !in t.succ && n.p !in t.at
  {
    hide Table.Chained;
    assert forall a :: a in t.at ==> t.at[a] in table.succ && t.at[a] != n && t.at[a].p == a;
  }

  lemma EverythingMoved(table: Table, t: Table)
    requires table.Filed() && t.Filed() && Moved(table, t, {})
    ensures t.succ.Keys == table.succ.Keys && t.at == table.at
  {
    hide Table.Chained;
    SameRecords(t, table);
  }

  lemma SoundCapacity(s: State)
    requires Sound(s)
    ensures IsCapacity(2 * s.capacity)
  {
    DoubledCapacity(s.capacity);
  }

  lemma NoBlocks(table: Table, blocks: Blocks)
    requires table.Filed() && blocks.Keys == table.at.Keys && |blocks| == 0
    ensures blocks == map[] && TagsClear(table.succ.Keys)
  {
    hide Table.Chained;
  }

  /** The records that the sweep left stand for the reachable blocks. */
  lemma SurvivorsLeft(s0: State, v: View, t0: Table, t: Table, m: State)
    requires t0.Filed() && t.Filed() && Readable(v, s0.blocks) && s0.blocks.Keys == t0.at.Keys
    requires t.succ.Keys == ReachableRecords(v, s0.blocks, t0.succ.Keys)
    requires Trimmed(s0, m) && m.blocks.Keys == t.at.Keys
    ensures Swept(s0, v, m)
  {
    hide Table.Chained, Reachable, Trimmed, Swept;
    forall a | a in s0.blocks
      ensures a in m.blocks <==> Reachable(v, s0.blocks, a)
    {
      var n := t0.at[a];
      assert n in t0.succ && n.p == a;
      if a in m.blocks {
        assert t.at[a] in t.succ && t.at[a].p == a;
      }
    }
    TrimmedToSurvivors(s0, v, m);
  }

  /** The blocks that are tracked when an allocation turns to the system allocator. */
  ghost function BlocksAfterCheck(s: State, v: View): Blocks
    requires Readable(v, s.blocks)
  {
    if NeedCollect(s) then Survivors(v, s.blocks) else s.blocks
  }

  lemma InitialIsSound()
    ensures Sound(INITIAL)
  {
    assert DEFAULT_CAPACITY == DEFAULT_CAPACITY * Pow2(0);
  }

  lemma RoundUpIsEven(size: nat)
    ensures RoundUp(size) % 8 == 0 && RoundUp(size) / 8 * 8 == RoundUp(size)
  {
  }

  lemma TagsStayClear(before: set<Alloc>, after: set<Alloc>)
    requires TagsClear(before)
    requires forall n :: n in after && n !in before ==> !Tagged(n.sizeTag)
    ensures TagsClear(after)
  {
  }

  lemma EvenIsUntagged(n: nat)
    requires n % 8 == 0
    ensures !Tagged(n) && n % 2 == 0
  {
  }

  lemma NullIsNotRegistered(s: State, n: nat)
    ensures Registered(s, 0, n) == s
  {
  }

  lemma UntrackedFree(s: State, p: nat)
    requires Sound(s)
    ensures p == 0 || p !in s.blocks ==> Freed(s, p) == s
  {
  }

  lemma SameRecords(t: Table, u: Table)
    requires t.Keyed() && u.Keyed() && t.succ.Keys == u.succ.Keys
    ensures t.at == u.at
  {
    forall a | a in t.at
      ensures a in u.at && u.at[a] == t.at[a]
    {
      assert t.at[a].p == a && t.at[a] in u.succ;
    }
    forall a | a in u.at
      ensures a in t.at
    {
      assert u.at[a].p == a && u.at[a] in t.succ;
    }
  }

  lemma NoMarkIsClear(nodes: set<Alloc>)
    requires Marked(nodes) == {}
    ensures TagsClear(nodes)
  {
    forall n | n in nodes
      ensures !Tagged(n.sizeTag)
    {
      MarkedDef(nodes, n);
    }
  }
}
