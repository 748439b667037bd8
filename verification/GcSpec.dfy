/** The collector of src/wlgc.c as an abstract machine: the finite map of tracked
  * blocks, the table limits and the log of released addresses, with one transition
  * for every public operation. The class in Gc.dfy implements these transitions;
  * here they are put together into runs. */
module GcSpec {
  import opened Arith
  import opened Memory

  const DEFAULT_CAPACITY := 4096

  /** Tracked blocks: start address to size in bytes. */
  type Blocks = map<nat, nat>

  /** What a collection reads besides the tracked blocks: the memory and the bounds of
    * the stack it scans, from its own stack pointer to the recorded stack bottom. */
  datatype View = View(mem: Memory, tos: nat, bos: nat)

  /** Every word that a collection may look at can be read. */
  ghost predicate Readable(v: View, blocks: Blocks) {
    && (forall p :: v.tos <= p <= v.bos ==> Mapped(v.mem, p, WORD))
    && (forall a :: a in blocks ==> Mapped(v.mem, a, blocks[a]))
  }

  /** Some 8-byte window of the stack, at any byte offset, holds the address b. */
  ghost predicate IsRoot(v: View, blocks: Blocks, b: nat)
    requires Readable(v, blocks)
  {
    b in blocks && exists p :: v.tos <= p <= v.bos && Word(v.mem, p) == b
  }

  /** Some 8-byte window of block a, at any byte offset, holds the address b. */
  ghost predicate Points(v: View, blocks: Blocks, a: nat, b: nat)
    requires Readable(v, blocks)
  {
    a in blocks && b in blocks && exists p :: a <= p <= a + blocks[a] - WORD && Word(v.mem, p) == b
  }

  /** A chain of references that starts in the stack. */
  ghost predicate IsPath(v: View, blocks: Blocks, path: seq<nat>)
    requires Readable(v, blocks)
  {
    && |path| > 0
    && IsRoot(v, blocks, path[0])
    && forall i :: 0 <= i < |path| - 1 ==> Points(v, blocks, path[i], path[i + 1])
  }

  ghost predicate Reachable(v: View, blocks: Blocks, b: nat)
    requires Readable(v, blocks)
  {
    exists path :: IsPath(v, blocks, path) && path[|path| - 1] == b
  }

  lemma RootIsReachable(v: View, blocks: Blocks, b: nat)
    requires Readable(v, blocks) && IsRoot(v, blocks, b)
    ensures Reachable(v, blocks, b)
  {
    assert IsPath(v, blocks, [b]);
  }

  lemma ReachableExtends(v: View, blocks: Blocks, a: nat, b: nat)
    requires Readable(v, blocks) && Reachable(v, blocks, a) && Points(v, blocks, a, b)
    ensures Reachable(v, blocks, b)
  {
    var path :| IsPath(v, blocks, path) && path[|path| - 1] == a;
    var longer := path + [b];
    forall i | 0 <= i < |longer| - 1
      ensures Points(v, blocks, longer[i], longer[i + 1])
    {
      if i < |path| - 1 {
        assert Points(v, blocks, path[i], path[i + 1]);
      }
    }
    assert IsPath(v, blocks, longer);
    assert longer[|longer| - 1] == b;
  }

  lemma ReachableIsTracked(v: View, blocks: Blocks, b: nat)
    requires Readable(v, blocks) && Reachable(v, blocks, b)
    ensures b in blocks
  {
    var path :| IsPath(v, blocks, path) && path[|path| - 1] == b;
    if |path| > 1 {
      assert Points(v, blocks, path[|path| - 2], path[|path| - 1]);
    }
  }

  /** A set that holds the roots and is closed under references holds everything
    * reachable. */
  lemma {:induction false} ClosedHoldsPath(v: View, blocks: Blocks, closed: set<nat>, path: seq<nat>)
    requires Readable(v, blocks) && IsPath(v, blocks, path)
    requires forall b :: IsRoot(v, blocks, b) ==> b in closed
    requires forall a, b :: a in closed && Points(v, blocks, a, b) ==> b in closed
    ensures path[|path| - 1] in closed
  {
    if |path| > 1 {
      var shorter := path[..|path| - 1];
      assert IsPath(v, blocks, shorter);
      ClosedHoldsPath(v, blocks, closed, shorter);
      assert Points(v, blocks, shorter[|shorter| - 1], path[|path| - 1]);
    }
  }

  lemma ClosedHoldsReachable(v: View, blocks: Blocks, closed: set<nat>)
    requires Readable(v, blocks)
    requires forall b :: IsRoot(v, blocks, b) ==> b in closed
    requires forall a, b :: a in closed && Points(v, blocks, a, b) ==> b in closed
    ensures forall b :: Reachable(v, blocks, b) ==> b in closed
  {
    forall b | Reachable(v, blocks, b)
      ensures b in closed
    {
      var path :| IsPath(v, blocks, path) && path[|path| - 1] == b;
      ClosedHoldsPath(v, blocks, closed, path);
    }
  }

  /** The blocks that a collection must keep. */
  ghost function Survivors(v: View, blocks: Blocks): Blocks
    requires Readable(v, blocks)
  {
    map a | a in blocks && Reachable(v, blocks, a) :: blocks[a]
  }

  /** Whatever is reachable stays reachable when everything else is dropped: no chain
    * of references that starts in the stack passes through a dropped block. */
  lemma SurvivorsStayReachable(v: View, blocks: Blocks, b: nat)
    requires Readable(v, blocks)
    ensures Readable(v, Survivors(v, blocks))
    ensures Reachable(v, Survivors(v, blocks), b) <==> Reachable(v, blocks, b)
  {
    var kept := Survivors(v, blocks);
    if Reachable(v, blocks, b) {
      var path :| IsPath(v, blocks, path) && path[|path| - 1] == b;
      PathSurvives(v, blocks, path);
    }
    if Reachable(v, kept, b) {
      var path :| IsPath(v, kept, path) && path[|path| - 1] == b;
      forall i | 0 <= i < |path| - 1
        ensures Points(v, blocks, path[i], path[i + 1])
      {
        assert Points(v, kept, path[i], path[i + 1]);
      }
      assert IsPath(v, blocks, path);
    }
  }

  lemma {:induction false} PathSurvives(v: View, blocks: Blocks, path: seq<nat>)
    requires Readable(v, blocks) && IsPath(v, blocks, path)
    ensures Readable(v, Survivors(v, blocks))
    ensures IsPath(v, Survivors(v, blocks), path)
  {
    var kept := Survivors(v, blocks);
    if |path| == 1 {
      RootIsReachable(v, blocks, path[0]);
    } else {
      var shorter := path[..|path| - 1];
      assert IsPath(v, blocks, shorter);
      PathSurvives(v, blocks, shorter);
      var a, b := path[|path| - 2], path[|path| - 1];
      assert shorter[|shorter| - 1] == a;
      assert Points(v, blocks, a, b);
      ReachableExtends(v, blocks, a, b);
      ReachableIsTracked(v, blocks, a);
      assert Points(v, kept, a, b);
      forall i | 0 <= i < |path| - 1
        ensures Points(v, kept, path[i], path[i + 1])
      {
        if i < |path| - 2 {
          assert shorter[i] == path[i] && shorter[i + 1] == path[i + 1];
        }
      }
    }
  }

  /** The abstract state: tracked blocks, table limits, the number of blocks freed
    * through the table, and every address passed to the system's free for one of
    * them, in order. */
  datatype State = State(blocks: Blocks, capacity: nat, sweepLimit: nat, collected: nat, released: seq<nat>)

  const INITIAL := State(map[], DEFAULT_CAPACITY, DEFAULT_CAPACITY / 2, 0, [])

  predicate NeedCollect(s: State) {
    |s.blocks| > s.sweepLimit
  }

  /** size > capacity * 0.7 */
  predicate NeedResize(s: State) {
    10 * |s.blocks| > 7 * s.capacity
  }

  function Resized(s: State): State {
    s.(capacity := 2 * s.capacity, sweepLimit := 2 * s.capacity / 2)
  }

  /** The state after the sweep loop and before the resize check. */
  ghost predicate Swept(s: State, v: View, t: State)
    requires Readable(v, s.blocks)
  {
    && t.blocks == Survivors(v, s.blocks)
    && t.capacity == s.capacity && t.sweepLimit == s.sweepLimit
    && t.collected == s.collected + (|s.blocks| - |t.blocks|)
    && s.released <= t.released
    && multiset(t.released[|s.released|..]) == multiset(s.blocks.Keys - t.blocks.Keys)
  }

  /** gc_collect: exactly the reachable blocks survive, every other one is released
    * once, and a table that is still too full is doubled. */
  ghost predicate CollectStep(s: State, v: View, t: State)
    requires Readable(v, s.blocks)
  {
    if s.blocks == map[] then t == s
    else exists m :: Swept(s, v, m) && t == if NeedCollect(m) || NeedResize(m) then Resized(m) else m
  }

  /** The check at the head of every allocation. */
  ghost predicate CheckStep(s: State, v: View, t: State)
    requires Readable(v, s.blocks)
  {
    if NeedCollect(s) then CollectStep(s, v, t) else t == s
  }

  /** ROUNDUP(n, 8) in 64-bit arithmetic: the sum wraps around. */
  function RoundUp(n: nat): nat {
    (n + 7) % WORD_RANGE / 8 * 8
  }

  /** Two blocks share no byte; a block of size 0 still occupies its address. */
  predicate Apart(p: nat, n: nat, q: nat, m: nat) {
    p + (if n == 0 then 1 else n) <= q || q + (if m == 0 then 1 else m) <= p
  }

  /** What the system allocator promises about the address it returns: 0 for failure,
    * or a block that overlaps no tracked one. */
  predicate FreshBlock(blocks: Blocks, p: nat, n: nat) {
    p == 0 || forall a :: a in blocks ==> Apart(p, n, a, blocks[a])
  }

  /** register_alloc: a null pointer is not recorded. */
  function Registered(s: State, p: nat, n: nat): State {
    if p == 0 then s else s.(blocks := s.blocks[p := n])
  }

  /** The common part of the allocations: the check, then the registration of a block
    * of n bytes for which the system allocator answered p. */
  ghost predicate AllocStep(s: State, v: View, n: nat, p: nat, t: State)
    requires Readable(v, s.blocks)
  {
    exists m :: CheckStep(s, v, m) && FreshBlock(m.blocks, p, n) && t == Registered(m, p, n)
  }

  /** gc_malloc(size) */
  ghost predicate MallocStep(s: State, v: View, size: nat, p: nat, t: State)
    requires Readable(v, s.blocks)
  {
    if size == 0 then p == 0 && t == s
    else AllocStep(s, v, RoundUp(size), p, t)
  }

  /** gc_calloc(nmemb, size): the system's calloc fails when the product overflows. */
  ghost predicate CallocStep(s: State, v: View, nmemb: nat, size: nat, p: nat, t: State)
    requires Readable(v, s.blocks)
  {
    if nmemb == 0 || size == 0 then p == 0 && t == s
    else AllocStep(s, v, RoundUp(size) * nmemb, p, t) && (RoundUp(size) * nmemb >= WORD_RANGE ==> p == 0)
  }

  /** gc_free(p): an address that is not tracked goes straight to the system's free
    * and leaves the collector as it was. */
  function Freed(s: State, p: nat): State {
    if p in s.blocks then
      s.(blocks := map a | a in s.blocks && a != p :: s.blocks[a],
         collected := s.collected + 1, released := s.released + [p])
    else s
  }

  // Runs. Between two operations the program may store anything anywhere and change
  // its stack; so every operation that may collect comes with its own View.

  datatype Op =
    | Malloc(v: View, size: nat, p: nat)
    | Calloc(v: View, nmemb: nat, size: nat, p: nat)
    | Collect(v: View)
    | Free(q: nat)

  /** Whether op sweeps the blocks of s. */
  predicate Collects(s: State, op: Op) {
    match op
    case Malloc(_, size, _) => size != 0 && NeedCollect(s)
    case Calloc(_, nmemb, size, _) => nmemb != 0 && size != 0 && NeedCollect(s)
    case Collect(_) => true
    case Free(_) => false
  }

  ghost predicate Next(s: State, op: Op, t: State) {
    match op
    case Malloc(v, size, p) => Readable(v, s.blocks) && MallocStep(s, v, size, p, t)
    case Calloc(v, nmemb, size, p) => Readable(v, s.blocks) && CallocStep(s, v, nmemb, size, p, t)
    case Collect(v) => Readable(v, s.blocks) && CollectStep(s, v, t)
    case Free(q) => t == Freed(s, q)
  }

  ghost predicate IsRun(run: seq<State>, ops: seq<Op>) {
    && |run| == |ops| + 1
    && run[0] == INITIAL
    && forall i :: 0 <= i < |ops| ==> Next(run[i], ops[i], run[i + 1])
  }

  // What holds between any two operations.

  ghost predicate IsCapacity(capacity: nat) {
    exists k: nat :: capacity == DEFAULT_CAPACITY * Pow2(k)
  }

  /** The blocks are whole words, at proper addresses, and share no byte. */
  ghost predicate Disjoint(blocks: Blocks) {
    && 0 !in blocks
    && (forall a :: a in blocks ==> blocks[a] % 8 == 0)
    && (forall a, b :: a in blocks && b in blocks && a != b ==> Apart(a, blocks[a], b, blocks[b]))
  }

  ghost predicate Limits(s: State) {
    IsCapacity(s.capacity) && s.sweepLimit == s.capacity / 2 && |s.blocks| <= s.capacity / 2 + 1
  }

  ghost predicate Sound(s: State) {
    Limits(s) && Disjoint(s.blocks)
  }
}
