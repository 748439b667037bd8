/** Triple modular redundancy: tri_mod_alloc, tri_mod_read and tri_mod_write of
  * src/wlmalloc.c. A block is kept three times, one copy behind the other; a read
  * compares the copies and repairs the one that differs. */
module TriMod {
  import opened Arith
  import opened SizeTables
  import opened SpanSpec
  import opened SpanInv
  import opened SpanSteps

  /** The three copies of a block, each of the same length. */
  datatype Copies = Copies(a: seq<bv8>, b: seq<bv8>, c: seq<bv8>)

  /** The copies of size bytes that start at ptr. */
  ghost function CopiesAt(mem: seq<bv8>, ptr: nat, size: nat): Copies
    requires ptr + 3 * size <= |mem|
  {
    Copies(mem[ptr..ptr + size], mem[ptr + size..ptr + 2 * size], mem[ptr + 2 * size..ptr + 3 * size])
  }

  /** The number of copies that hold v. */
  ghost function Votes(cs: Copies, v: seq<bv8>): nat {
    (if cs.a == v then 1 else 0) + (if cs.b == v then 1 else 0) + (if cs.c == v then 1 else 0)
  }

  ghost predicate AllDiffer(cs: Copies) {
    cs.a != cs.b && cs.b != cs.c && cs.c != cs.a
  }

  /** memcmp: the difference of the first bytes that are not equal, or 0. */
  function Memcmp(x: seq<bv8>, y: seq<bv8>): (r: int)
    requires |x| == |y|
    ensures r == 0 <==> x == y
  {
    if x == [] then 0
    else if x[0] != y[0] then x[0] as int - y[0] as int
    else
      assert x == [x[0]] + x[1..] && y == [y[0]] + y[1..];
      Memcmp(x[1..], y[1..])
  }

  /** The memory after memcpy. */
  ghost function Copied(mem: seq<bv8>, dst: nat, src: nat, n: nat): (r: seq<bv8>)
    requires dst + n <= |mem| && src + n <= |mem|
    ensures |r| == |mem|
  {
    mem[..dst] + mem[src..src + n] + mem[dst + n..]
  }

  /** memcpy between two parts of mem that do not overlap. */
  method Memcpy(mem: array<bv8>, dst: nat, src: nat, n: nat)
    requires dst + n <= mem.Length && src + n <= mem.Length && (dst + n <= src || src + n <= dst)
    modifies mem
    ensures mem[..] == Copied(old(mem[..]), dst, src, n)
  {
    forall i | 0 <= i < n {
      mem[dst + i] := mem[src + i];
    }
  }

  /** Outside of size bytes from p, m and mem agree. */
  ghost predicate SameOutside(m: seq<bv8>, mem: seq<bv8>, p: nat, size: nat)
    requires p + size <= |mem|
  {
    |m| == |mem| && m[..p] == mem[..p] && m[p + size..] == mem[p + size..]
  }

  /** Where copy i of a block starts. */
  function Start(ptr: nat, size: nat, i: nat): nat
    requires i < 3
  {
    if i == 0 then ptr else if i == 1 then ptr + size else ptr + size + size
  }

  ghost function CopyAt(mem: seq<bv8>, ptr: nat, size: nat, i: nat): seq<bv8>
    requires ptr + 3 * size <= |mem| && i < 3
  {
    mem[Start(ptr, size, i)..Start(ptr, size, i) + size]
  }

  lemma SliceOfCopied(mem: seq<bv8>, dst: nat, src: nat, n: nat, lo: nat, hi: nat)
    requires dst + n <= |mem| && src + n <= |mem| && lo <= hi <= |mem|
    ensures hi <= dst || dst + n <= lo ==> Copied(mem, dst, src, n)[lo..hi] == mem[lo..hi]
    ensures Copied(mem, dst, src, n)[dst..dst + n] == mem[src..src + n]
  {
  }

  lemma StartsAreApart(ptr: nat, size: nat, i: nat, k: nat)
    requires i < 3 && k < 3
    ensures ptr <= Start(ptr, size, i) && Start(ptr, size, i) + size <= ptr + 3 * size
    ensures i != k ==> Start(ptr, size, i) + size <= Start(ptr, size, k) || Start(ptr, size, k) + size <= Start(ptr, size, i)
  {
  }

  /** Copying copy j of a block over copy i of it changes only copy i. */
  lemma CopiedCopy(mem: seq<bv8>, ptr: nat, size: nat, i: nat, j: nat)
    requires ptr + 3 * size <= |mem| && i < 3 && j < 3
    ensures Start(ptr, size, i) + size <= |mem| && Start(ptr, size, j) + size <= |mem|
    ensures var m := Copied(mem, Start(ptr, size, i), Start(ptr, size, j), size);
      && SameOutside(m, mem, ptr, 3 * size)
      && forall k :: 0 <= k < 3 ==> CopyAt(m, ptr, size, k) == CopyAt(mem, ptr, size, if k == i then j else k)
  {
    hide Copied, Start;
    var dst, src := Start(ptr, size, i), Start(ptr, size, j);
    StartsAreApart(ptr, size, i, i);
    StartsAreApart(ptr, size, j, j);
    SliceOfCopied(mem, dst, src, size, 0, ptr);
    SliceOfCopied(mem, dst, src, size, ptr + 3 * size, |mem|);
    forall k | 0 <= k < 3
      ensures CopyAt(Copied(mem, dst, src, size), ptr, size, k) == CopyAt(mem, ptr, size, if k == i then j else k)
    {
      StartsAreApart(ptr, size, k, i);
      SliceOfCopied(mem, dst, src, size, Start(ptr, size, k), Start(ptr, size, k) + size);
    }
  }

  lemma TheCopies(mem: seq<bv8>, ptr: nat, size: nat)
    requires ptr + 3 * size <= |mem|
    ensures CopiesAt(mem, ptr, size) == Copies(CopyAt(mem, ptr, size, 0), CopyAt(mem, ptr, size, 1), CopyAt(mem, ptr, size, 2))
  {
    assert 2 * size == size + size;
  }

  /** memcmp of two copies. */
  method Compare(mem: array<bv8>, ptr: nat, size: nat, i: nat, j: nat) returns (r: int)
    requires ptr + 3 * size <= mem.Length && i < 3 && j < 3
    ensures r == 0 <==> CopyAt(mem[..], ptr, size, i) == CopyAt(mem[..], ptr, size, j)
  {
    var p, q := Start(ptr, size, i), Start(ptr, size, j);
    r := Memcmp(mem[p..p + size], mem[q..q + size]);
    assert mem[..][p..p + size] == mem[p..p + size] && mem[..][q..q + size] == mem[q..q + size];
  }

  /** The loop of tri_mod_read: each copy is compared with the next one. */
  method CompareCopies(mem: array<bv8>, ptr: nat, size: nat) returns (compare: seq<int>)
    requires ptr + 3 * size <= mem.Length
    ensures |compare| == 3
    ensures var cs := CopiesAt(mem[..], ptr, size);
      (compare[0] == 0 <==> cs.a == cs.b) && (compare[1] == 0 <==> cs.b == cs.c) && (compare[2] == 0 <==> cs.c == cs.a)
  {
    hide CopiesAt, CopyAt;
    compare := [0, 0, 0];
    ghost var cs := CopiesAt(mem[..], ptr, size);
    TheCopies(mem[..], ptr, size);
    for i := 0 to 3
      invariant |compare| == 3
      invariant i > 0 ==> (compare[0] == 0 <==> cs.a == cs.b)
      invariant i > 1 ==> (compare[1] == 0 <==> cs.b == cs.c)
      invariant i > 2 ==> (compare[2] == 0 <==> cs.c == cs.a)
    {
      var dif := Compare(mem, ptr, size, i, (i + 1) % 3);
      compare := compare[i := dif];
    }
  }

  // The steps of the protocol.

  /** A write of a value, a read, and a fault that puts anything in the place of a copy. */
  datatype Op = WriteOp(v: seq<bv8>) | ReadOp | FaultOp(copy: nat, v: seq<bv8>)

  ghost function WithCopy(cs: Copies, i: nat, v: seq<bv8>): Copies {
    if i == 0 then cs.(a := v) else if i == 1 then cs.(b := v) else cs.(c := v)
  }

  ghost function TheCopy(cs: Copies, i: nat): seq<bv8> {
    if i == 0 then cs.a else if i == 1 then cs.b else cs.c
  }

  /** One step on the copies; a write and a read as the methods above promise. */
  ghost predicate Next(cs: Copies, op: Op, r: Copies) {
    match op
    case WriteOp(v) => r == Copies(v, v, v)
    case ReadOp => if AllDiffer(cs) then r == cs else r.a == r.b == r.c && Votes(cs, r.a) >= 2
    case FaultOp(i, v) => i < 3 && r == WithCopy(cs, i, v)
  }

  /** tri_mod_read. It gives up if and only if no two copies agree, and then changes
    * nothing. Otherwise all the copies become what at least two of them were, and no other
    * byte changes. */
  method TriModRead(mem: array<bv8>, ptr: nat, size: nat) returns (r: Option<nat>)
    requires ptr + 3 * size <= mem.Length
    modifies mem
    ensures r.None? <==> AllDiffer(CopiesAt(old(mem[..]), ptr, size))
    ensures r.None? ==> mem[..] == old(mem[..])
    ensures r.Some? ==> r.value == ptr
    ensures r.Some? ==> var cs := CopiesAt(mem[..], ptr, size);
              cs.a == cs.b == cs.c && Votes(CopiesAt(old(mem[..]), ptr, size), cs.a) >= 2
    ensures SameOutside(mem[..], old(mem[..]), ptr, 3 * size)
    ensures Next(CopiesAt(old(mem[..]), ptr, size), ReadOp, CopiesAt(mem[..], ptr, size))
  {
    hide Copied, CopiesAt, CopyAt;
    ghost var m := mem[..];
    var compare := CompareCopies(mem, ptr, size);
    if compare[0] == 0 && compare[1] == 0 {
      return Some(ptr);
    }
    if compare[0] != 0 && compare[1] != 0 && compare[2] != 0 {
      return None;
    }
    TheCopies(m, ptr, size);
    if compare[0] == 0 {
      CopiedCopy(m, ptr, size, 2, 0);
      Memcpy(mem, ptr + size + size, ptr, size);
    } else if compare[1] == 0 {
      CopiedCopy(m, ptr, size, 0, 1);
      Memcpy(mem, ptr, ptr + size, size);
    } else {
      CopiedCopy(m, ptr, size, 1, 0);
      Memcpy(mem, ptr + size, ptr, size);
    }
    TheCopies(mem[..], ptr, size);
    return Some(ptr);
  }

  // Writing.

  /** size * 3 in size_t. */
  function Triple(size: nat): nat {
    3 * size % WORD_RANGE
  }

  /** What tri_mod_write asks for: the header of ptr is not null, and the block is not smaller than
    * the product. */
  predicate Accepted(ptr: nat, blkSize: nat, size: nat) {
    GetHeader(ptr) != 0 && blkSize >= Triple(size)
  }

  ghost function Put(mem: seq<bv8>, dst: nat, source: seq<bv8>): (r: seq<bv8>)
    requires dst + |source| <= |mem|
    ensures |r| == |mem|
  {
    mem[..dst] + source + mem[dst + |source|..]
  }

  /** memcpy from a buffer elsewhere. */
  method Store(mem: array<bv8>, dst: nat, source: seq<bv8>)
    requires dst + |source| <= mem.Length
    modifies mem
    ensures mem[..] == Put(old(mem[..]), dst, source)
  {
    forall i | 0 <= i < |source| {
      mem[dst + i] := source[i];
    }
  }

  /** tri_mod_write, with the block size in the header of ptr; without ok it returns -1. s is the
    * state of the allocator: an outstanding block is written to exactly if it holds three times
    * the source, unless that product wraps around, and no byte of another one is changed. */
  method TriModWrite(mem: array<bv8>, ptr: nat, source: seq<bv8>, blkSize: nat, ghost s: Heap) returns (ok: bool)
    requires GetHeader(ptr) != 0 && blkSize >= 3 * |source| % 0x1_0000_0000_0000_0000 ==> ptr + 3 * |source| <= mem.Length
    modifies mem
    ensures ok <==> GetHeader(ptr) != 0 && blkSize >= 3 * |source| % 0x1_0000_0000_0000_0000
    ensures !ok ==> mem[..] == old(mem[..])
    ensures ok ==> CopiesAt(mem[..], ptr, |source|) == Copies(source, source, source)
    ensures ok ==> SameOutside(mem[..], old(mem[..]), ptr, 3 * |source|)
    ensures ok ==> Next(CopiesAt(old(mem[..]), ptr, |source|), WriteOp(source), CopiesAt(mem[..], ptr, |source|))
    ensures IsBlock(s, ptr, blkSize) && |source| <= 0x5555_5555_5555_5555 ==>
              (ok <==> 3 * |source| <= blkSize) && OtherBlocksStay(s, ptr, mem[..], old(mem[..]))
  {
    hide Accepted, Put, CopiesAt, SameOutside, IsBlock, OtherBlocksStay;
    AcceptedExactly(s, ptr, blkSize, |source|);
    if !Accepted(ptr, blkSize, |source|) {
      NothingChanged(s, ptr, mem[..]);
      return false;
    }
    ghost var m := mem[..];
    var ptr2 := ptr + |source|;
    var ptr3 := ptr2 + |source|;
    Store(mem, ptr, source);
    Store(mem, ptr2, source);
    Store(mem, ptr3, source);
    Stored(m, ptr, source);
    ok := true;
    if IsBlock(s, ptr, blkSize) && 3 * |source| <= blkSize {
      InsideItsBlock(s, ptr, blkSize, mem[..], m, 3 * |source|);
    }
  }

  /** ptr is an outstanding block of blkSize bytes. */
  ghost predicate IsBlock(s: Heap, ptr: nat, blkSize: nat) {
    Safe(s) && ptr in s.live && GetHeader(ptr) in s.spans && blkSize == s.spans[GetHeader(ptr)].blkSize
  }

  /** From mem to m, no byte of an outstanding block other than ptr has changed. */
  ghost predicate OtherBlocksStay(s: Heap, ptr: nat, m: seq<bv8>, mem: seq<bv8>) {
    |m| == |mem| && forall a: nat, p: nat :: IsByte(s, a, p) && a != ptr && p < |mem| ==> m[p] == mem[p]
  }

  /** p is a byte of the outstanding block a. */
  ghost predicate IsByte(s: Heap, a: nat, p: nat) {
    a in s.live && GetHeader(a) in s.spans && a <= p < a + s.spans[GetHeader(a)].blkSize
  }

  lemma NothingChanged(s: Heap, ptr: nat, mem: seq<bv8>)
    ensures OtherBlocksStay(s, ptr, mem, mem)
  {
  }

  /** Within the allocator, only the size is decisive. */
  lemma AcceptedExactly(s: Heap, ptr: nat, blkSize: nat, size: nat)
    ensures Accepted(ptr, blkSize, size) <==> GetHeader(ptr) != 0 && blkSize >= 3 * size % 0x1_0000_0000_0000_0000
    ensures IsBlock(s, ptr, blkSize) && size <= 0x5555_5555_5555_5555 ==>
              (Accepted(ptr, blkSize, size) <==> 3 * size <= blkSize)
  {
    hide Safe, GetHeader;
    if IsBlock(s, ptr, blkSize) {
      BlockInSpan(s, ptr);
    }
  }

  /** Writes within a block reach no other one. */
  lemma InsideItsBlock(s: Heap, ptr: nat, blkSize: nat, m: seq<bv8>, mem: seq<bv8>, size: nat)
    requires IsBlock(s, ptr, blkSize) && size <= blkSize && ptr + size <= |mem| && SameOutside(m, mem, ptr, size)
    ensures OtherBlocksStay(s, ptr, m, mem)
  {
    hide Safe, GetHeader;
    forall a: nat, p: nat | IsByte(s, a, p) && a != ptr && p < |mem|
      ensures m[p] == mem[p]
    {
      if a < ptr {
        LiveBlocksAreApart(s, a, ptr);
        assert m[p] == m[..ptr][p];
      } else {
        LiveBlocksAreApart(s, ptr, a);
        assert m[p] == m[ptr + size..][p - ptr - size];
      }
    }
  }

  lemma Stored(mem: seq<bv8>, ptr: nat, source: seq<bv8>)
    requires ptr + 3 * |source| <= |mem|
    ensures var m := Put(Put(Put(mem, ptr, source), ptr + |source|, source), ptr + |source| + |source|, source);
      CopiesAt(m, ptr, |source|) == Copies(source, source, source) && SameOutside(m, mem, ptr, 3 * |source|)
  {
    var m := Put(Put(Put(mem, ptr, source), ptr + |source|, source), ptr + |source| + |source|, source);
    assert m == mem[..ptr] + source + source + source + mem[ptr + 3 * |source|..];
  }

  /** A block that tri_mod_alloc gets for a small product: no write of that size is ever
    * refused, but the block holds the three copies exactly if the product did not wrap. */
  lemma TriBlockFitsExactly(s: Heap, t: nat, size: nat, contiguous: bool)
    requires Safe(s) && Running(s, t) && PoolReady(s) && Known(s) && 0 < Triple(size) <= MAX_SMALL
    requires Size2Cls(Triple(size)) < CLASSES && HasBlock(s, t, Size2Cls(Triple(size)))
    requires Malloc(s, t, Triple(size), contiguous).Some?
    ensures var (r, b) := Malloc(s, t, Triple(size), contiguous).value;
      && GetHeader(b) in r.spans
      && (var blk := r.spans[GetHeader(b)].blkSize;
          && Accepted(b, blk, size)
          && (3 * size <= blk <==> size <= 0x5555_5555_5555_5555)
          && b + blk <= GetHeader(b) + SPAN)
  {
    hide Safe, HasBlock, Malloc, Size2Cls;
    MallocIsSafeExactly(s, t, Triple(size), contiguous);
    var (r, b) := Malloc(s, t, Triple(size), contiguous).value;
    BlockInSpan(r, b);
    hide GetHeader;
  }

  lemma BlockInSpan(r: Heap, b: nat)
    requires Safe(r) && b in r.live
    ensures var h := GetHeader(b); h > 0 && h in r.spans && r.live[b] <= r.spans[h].blkSize <= DATA && b + r.spans[h].blkSize <= h + SPAN
  {
    hide Safe, GetHeader;
    var j := LiveIsSlot(r, b);
    PartsOf(r);
    LiveBlockIsInSpan(r, b, b);
  }

  lemma PartsOf(r: Heap)
    requires Safe(r)
    ensures Region(r) && LiveFits(r)
  {
    var w :| Sound(r, w);
  }

  /** A size of which three times wrap around to 2. */
  lemma TripleWraps()
    ensures Triple(0x5555_5555_5555_5556) == 2
  {
  }

  // Runs.

  ghost predicate IsRun(run: seq<Copies>, ops: seq<Op>) {
    |run| == |ops| + 1 && forall i :: 0 <= i < |ops| ==> Next(run[i], ops[i], run[i + 1])
  }

  /** The copies that faults have hit since the last read or write. */
  ghost function Hit(ops: seq<Op>): set<nat> {
    if ops == [] then {}
    else
      var last := ops[|ops| - 1];
      if last.FaultOp? then Hit(ops[..|ops| - 1]) + {last.copy} else {}
  }

  ghost function LastWritten(ops: seq<Op>): seq<bv8> {
    if ops == [] then []
    else
      var last := ops[|ops| - 1];
      if last.WriteOp? then last.v else LastWritten(ops[..|ops| - 1])
  }

  /** Between two reads or writes, faults hit at most one of the copies. */
  ghost predicate OneCopyHit(ops: seq<Op>) {
    forall j :: 0 <= j <= |ops| ==> |Hit(ops[..j])| <= 1
  }

  /** A copy that was not hit holds what was written last. */
  lemma {:induction false} OthersHold(run: seq<Copies>, ops: seq<Op>, j: nat, i: nat)
    requires IsRun(run, ops) && ops != [] && ops[0].WriteOp? && OneCopyHit(ops)
    requires 1 <= j < |run| && i < 3 && i !in Hit(ops[..j])
    ensures TheCopy(run[j], i) == LastWritten(ops[..j])
    decreases j, 0
  {
    var op := ops[j - 1];
    assert Next(run[j - 1], op, run[j - 1 + 1]);
    assert ops[..j][..j - 1] == ops[..j - 1] && ops[..j][j - 1] == op;
    if op.FaultOp? {
      OthersHold(run, ops, j - 1, i);
    } else if op.ReadOp? {
      ReadRestores(run, ops, j - 1);
    }
  }

  /** In every run in which faults hit at most one copy between two reads or writes, each
    * read succeeds and leaves all three copies equal to what was written last. */
  lemma {:induction false} ReadRestores(run: seq<Copies>, ops: seq<Op>, j: nat)
    requires IsRun(run, ops) && ops != [] && ops[0].WriteOp? && OneCopyHit(ops)
    requires 1 <= j < |ops| && ops[j].ReadOp?
    ensures !AllDiffer(run[j])
    ensures var v := LastWritten(ops[..j]); run[j + 1] == Copies(v, v, v)
    decreases j, 1
  {
    assert Next(run[j], ops[j], run[j + 1]);
    assert |Hit(ops[..j])| <= 1;
    forall i | 0 <= i < 3 && i !in Hit(ops[..j])
      ensures TheCopy(run[j], i) == LastWritten(ops[..j])
    {
      OthersHold(run, ops, j, i);
    }
    var h, cs, v := Hit(ops[..j]), run[j], LastWritten(ops[..j]);
    AtMostOne(h);
    assert !(0 in h && 1 in h) && !(1 in h && 2 in h) && !(0 in h && 2 in h);
    assert (0 !in h ==> TheCopy(cs, 0) == v) && (1 !in h ==> TheCopy(cs, 1) == v) && (2 !in h ==> TheCopy(cs, 2) == v);
  }

  lemma AtMostOne(hit: set<nat>)
    requires |hit| <= 1
    ensures forall i, j :: i in hit && j in hit ==> i == j
  {
    forall i, j | i in hit && j in hit
      ensures i == j
    {
      assert |hit - {i}| == 0;
      assert j !in hit - {i};
    }
  }

  /** A read yields v exactly if at least two of the copies hold it. */
  lemma ReadYieldsExactly(cs: Copies, r: Copies, v: seq<bv8>)
    requires Next(cs, ReadOp, r)
    ensures r == Copies(v, v, v) <==> Votes(cs, v) >= 2
  {
  }

  /** Two copies that are hit alike outvote the third. */
  lemma TwoHitsOutvote(v: seq<bv8>, x: seq<bv8>)
    requires v != x
    ensures var run := [Copies(v, v, v), Copies(v, v, v), Copies(x, v, v), Copies(x, x, v), Copies(x, x, x)];
      IsRun(run, [WriteOp(v), FaultOp(0, x), FaultOp(1, x), ReadOp])
  {
  }
}
