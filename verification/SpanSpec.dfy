/** The span allocator of src/wlmalloc.c as functions on values: what each operation
  * does to the spans, to the lists that hold them and to the pool. An operation is one
  * step; the class in SpanAlloc.dfy implements these steps. */
module SpanSpec {
  import opened Rings
  import opened SizeTables

  /** SPAN_DATA_SIZE, sizeof(span_t), SPAN_SIZE and ALLOC_UNIT */
  const DATA := 16384
  const HEADER := 72
  const SPAN := 16456
  const UNIT := 134217728

  datatype Option<+T> = None | Some(value: T)

  /** GET_HEADER */
  function GetHeader(p: nat): nat {
    p - p % SPAN
  }

  /** Where a span may be: in the using slot of a class, in the suspend list of a class,
    * in the free list of a thread; or in a list of the pool. */
  datatype Place =
    | Using(t: nat, c: nat)
    | Suspended(t: nat, c: nat)
    | FreeOf(t: nat)
    | PoolSuspended(c: nat)
    | PoolFree

  datatype Owner = NoOwner | Thread(t: nat) | PoolOwner

  datatype SpanState = IN_USE | SUSPEND | FREE

  /** span_t; the node that links it is its membership in a list. */
  datatype Span = Span(owner: Owner, state: SpanState, cls: nat, blkSize: nat, freeBlk: nat, freeCnt: nat, blkList: seq<nat>)

  /** A list_head: the head of a list, or the node of the span at h. */
  datatype Node = HeadOf(pl: Place) | NodeOf(h: nat)

  /** All the spans by the address of their header; every list by its place, where a
    * using slot is a list of at most one span; the pool region; as history, the blocks that
    * were handed out and not freed, with the sizes requested; and what the nodes of the
    * spans that have been unlinked for nothing still remember. */
  datatype Heap = Heap(spans: map<nat, Span>, lists: map<Place, seq<nat>>, start: nat, end: nat, freeStart: nat,
                       live: map<nat, nat>, stale: map<nat, Links<Node>>)

  /** The number of blocks of a size that fit in a span. */
  function Capacity(blkSize: nat): nat
    requires blkSize > 0
  {
    DATA / blkSize
  }

  // free_cnt is a 32-bit unsigned number.

  function Decremented(cnt: nat): nat {
    if cnt == 0 then 0xffff_ffff else cnt - 1
  }

  function Incremented(cnt: nat): nat {
    (cnt + 1) % 0x1_0000_0000
  }

  /** span_init; the owner and the state are left as they are. */
  function SpanInit(sp: Span, h: nat, c: nat): Span
    requires c < CLASSES
  {
    SizesRise(0, c);
    sp.(cls := c, blkSize := Cls2Size(c), freeCnt := Capacity(Cls2Size(c)), freeBlk := h + HEADER, blkList := [])
  }

  /** Fresh memory is zero; of the header only what span_init leaves alone matters. */
  const RAW := Span(NoOwner, IN_USE, 0, 0, 0, 0, [])

  function Pop(s: Heap, pl: Place): Heap
    requires pl in s.lists && s.lists[pl] != []
  {
    s.(lists := s.lists[pl := s.lists[pl][1..]])
  }

  function Append(s: Heap, pl: Place, h: nat): Heap
    requires pl in s.lists
  {
    s.(lists := s.lists[pl := s.lists[pl] + [h]])
  }

  function Without(xs: seq<nat>, h: nat): seq<nat> {
    if xs == [] then [] else if xs[0] == h then xs[1..] else [xs[0]] + Without(xs[1..], h)
  }

  function Remove(s: Heap, pl: Place, h: nat): Heap
    requires pl in s.lists
  {
    s.(lists := s.lists[pl := Without(s.lists[pl], h)])
  }

  /** The lists of thread t exist. */
  predicate Running(s: Heap, t: nat) {
    FreeOf(t) in s.lists && forall c :: 0 <= c < CLASSES ==> Using(t, c) in s.lists && Suspended(t, c) in s.lists
  }

  predicate PoolReady(s: Heap) {
    PoolFree in s.lists && forall c :: 0 <= c < CLASSES ==> PoolSuspended(c) in s.lists
  }

  /** Every list holds spans that exist. */
  predicate Known(s: Heap) {
    forall pl, i :: pl in s.lists && 0 <= i < |s.lists[pl]| ==> s.lists[pl][i] in s.spans
  }

  // The rings of the lists. The head of a list has index 0 in its ring, the span at index i of
  // the list has index i + 1, and behind the last one comes the head again.

  function RingNode(xs: seq<nat>, pl: Place, i: nat): Node
    requires i <= |xs| + 1
  {
    if i == 0 || i == |xs| + 1 then HeadOf(pl) else NodeOf(xs[i - 1])
  }

  /** The links of the span at index i of a list. */
  function LinksAt(xs: seq<nat>, pl: Place, i: nat): Links<Node>
    requires i < |xs|
  {
    Links(RingNode(xs, pl, i), RingNode(xs, pl, i + 2))
  }

  function IndexOf(xs: seq<nat>, h: nat): (i: nat)
    ensures i <= |xs| && (i < |xs| ==> xs[i] == h) && (i == |xs| ==> h !in xs)
  {
    if xs == [] || xs[0] == h then 0 else 1 + IndexOf(xs[1..], h)
  }

  /** The index of a node in a ring; without one, it is too large. */
  function Position(xs: seq<nat>, pl: Place, n: Node): nat {
    match n
    case HeadOf(q) => if q == pl then 0 else |xs| + 1
    case NodeOf(h) => 1 + IndexOf(xs, h)
  }

  /** The using slots are no rings. */
  predicate OnRing(lists: map<Place, seq<nat>>, pl: Place, n: Node) {
    pl in lists && !pl.Using? && Position(lists[pl], pl, n) <= |lists[pl]|
  }

  ghost predicate OnNoRing(lists: map<Place, seq<nat>>, n: Node) {
    forall pl :: !OnRing(lists, pl, n)
  }

  /** The head that a node may be exists. */
  predicate NodeExists(lists: map<Place, seq<nat>>, n: Node) {
    n.HeadOf? ==> n.pl in lists && !n.pl.Using?
  }

  /** The index of the node where the ring goes on; the head stands at the end. */
  function GoesOnAt(xs: seq<nat>, pl: Place, n: Node): nat {
    if Position(xs, pl, n) == 0 then |xs| + 1 else Position(xs, pl, n)
  }

  /** Both nodes are on the ring of pl, in order. */
  predicate InOrder(lists: map<Place, seq<nat>>, pl: Place, l: Links<Node>) {
    OnRing(lists, pl, l.prev) && OnRing(lists, pl, l.next)
    && Position(lists[pl], pl, l.prev) < GoesOnAt(lists[pl], pl, l.next)
  }

  // Taking a span out of the pool: acquire_span.

  function Carve(s: Heap, c: nat): Heap
    requires c < CLASSES
  {
    s.(spans := s.spans[s.freeStart := SpanInit(RAW, s.freeStart, c)], freeStart := s.freeStart + SPAN)
  }

  /** The last three sources of acquire_span, with what remains of s and the span that is
    * taken. contiguous says whether a new mapping would start at the end of the pool; if it
    * does not, the program gives up. */
  function AcquireFresh(s: Heap, c: nat, contiguous: bool): (r: Option<(Heap, nat)>)
    requires PoolReady(s) && Known(s) && c < CLASSES
    ensures r.Some? ==> r.value.1 in r.value.0.spans && r.value.0.lists.Keys == s.lists.Keys
  {
    if s.lists[PoolFree] != [] then
      var h := s.lists[PoolFree][0];
      Some((Pop(s, PoolFree).(spans := s.spans[h := SpanInit(s.spans[h], h, c)]), h))
    else if s.freeStart + SPAN <= s.end then
      Some((Carve(s, c), s.freeStart))
    else if contiguous then
      Some((Carve(s.(end := s.end + UNIT), c), s.freeStart))
    else
      None
  }

  /** acquire_span */
  function Acquire(s: Heap, c: nat, contiguous: bool): (r: Option<(Heap, nat)>)
    requires PoolReady(s) && Known(s) && c < CLASSES
    ensures r.Some? ==> r.value.1 in r.value.0.spans && r.value.0.lists.Keys == s.lists.Keys
  {
    if s.lists[PoolSuspended(c)] != [] then
      Some((Pop(s, PoolSuspended(c)), s.lists[PoolSuspended(c)][0]))
    else
      AcquireFresh(s, c, contiguous)
  }

  // Finding a new span for a using slot: replace_available_span.

  /** The first span of xs that has a free block; the length of xs if there is none. */
  function FirstUsable(s: Heap, xs: seq<nat>): (i: nat)
    requires forall h :: h in xs ==> h in s.spans
    ensures i <= |xs|
    ensures forall j :: 0 <= j < i ==> s.spans[xs[j]].freeCnt == 0
    ensures i < |xs| ==> s.spans[xs[i]].freeCnt > 0
  {
    if xs == [] || s.spans[xs[0]].freeCnt > 0 then 0 else 1 + FirstUsable(s, xs[1..])
  }

  /** The walk over the suspended spans. The first one with a free block is unlinked;
    * the break that follows leaves the walk only, so nothing is done with it. Its node still
    * remembers its neighbours. */
  function DropUsable(s: Heap, t: nat, c: nat): (r: Heap)
    requires Running(s, t) && Known(s) && c < CLASSES
    ensures r.lists.Keys == s.lists.Keys && r.spans == s.spans && Known(r)
  {
    var xs := s.lists[Suspended(t, c)];
    var i := FirstUsable(s, xs);
    WithoutIsPart(xs, if i < |xs| then xs[i] else 0);
    if i < |xs| then Dropped(s, Suspended(t, c), i) else s
  }

  /** The span at index i of a list is unlinked and lost. */
  function Dropped(s: Heap, pl: Place, i: nat): Heap
    requires pl in s.lists && i < |s.lists[pl]|
  {
    var xs := s.lists[pl];
    Remove(s, pl, xs[i]).(stale := s.stale[xs[i] := LinksAt(xs, pl, i)])
  }

  lemma {:induction false} WithoutIsPart(xs: seq<nat>, h: nat)
    ensures forall x :: x in Without(xs, h) ==> x in xs
    ensures forall x :: x in xs && x != h ==> x in Without(xs, h)
  {
    if xs != [] && xs[0] != h {
      WithoutIsPart(xs[1..], h);
    }
  }

  /** A span from the free list of the thread, or else from the pool. */
  function Fetch(s: Heap, t: nat, c: nat, contiguous: bool): (r: Option<(Heap, nat)>)
    requires Running(s, t) && PoolReady(s) && Known(s) && c < CLASSES
    ensures r.Some? ==> r.value.1 in r.value.0.spans && r.value.0.lists.Keys == s.lists.Keys
  {
    if s.lists[FreeOf(t)] != [] then
      var h := s.lists[FreeOf(t)][0];
      Some((Pop(s, FreeOf(t)).(spans := s.spans[h := SpanInit(s.spans[h], h, c)]), h))
    else
      Acquire(s, c, contiguous)
  }

  /** The using slot of class c becomes span h. */
  function Install(s: Heap, t: nat, c: nat, h: nat): Heap
    requires h in s.spans
  {
    s.(lists := s.lists[Using(t, c) := [h]], spans := s.spans[h := s.spans[h].(owner := Thread(t), state := IN_USE)])
  }

  function Replace(s: Heap, t: nat, c: nat, contiguous: bool): Option<Heap>
    requires Running(s, t) && PoolReady(s) && Known(s) && c < CLASSES
  {
    match Fetch(DropUsable(s, t, c), t, c, contiguous)
    case None => None
    case Some((r, h)) => Some(Install(r, t, c, h))
  }

  // Allocation: small_alloc and get_blk.

  /** A used up span leaves its slot for the suspend list. */
  function Retire(s: Heap, t: nat, c: nat, h: nat): (r: Heap)
    requires Running(s, t) && Known(s) && c < CLASSES && h in s.spans
    ensures r.lists.Keys == s.lists.Keys && r.spans.Keys == s.spans.Keys && Known(r)
  {
    s.(lists := s.lists[Using(t, c) := []][Suspended(t, c) := s.lists[Suspended(t, c)] + [h]],
       spans := s.spans[h := s.spans[h].(state := SUSPEND)])
  }

  /** The slot is empty or its span has no free block. */
  predicate NeedsSpan(s: Heap, t: nat, c: nat)
    requires Running(s, t) && Known(s) && c < CLASSES
  {
    s.lists[Using(t, c)] == [] || s.spans[s.lists[Using(t, c)][0]].freeCnt == 0
  }

  /** The state in which small_alloc takes a block from the using slot. */
  function Prepared(s: Heap, t: nat, c: nat, contiguous: bool): (r: Option<Heap>)
    requires Running(s, t) && PoolReady(s) && Known(s) && c < CLASSES
    ensures r.Some? ==> Using(t, c) in r.value.lists && r.value.lists[Using(t, c)] != []
                        && r.value.lists[Using(t, c)][0] in r.value.spans
  {
    if s.lists[Using(t, c)] == [] then Replace(s, t, c, contiguous)
    else
      var h := s.lists[Using(t, c)][0];
      if s.spans[h].freeCnt == 0 then Replace(Retire(s, t, c, h), t, c, contiguous) else Some(s)
  }

  /** get_blk: the front of the list of freed blocks, or else the next fresh block. */
  function GetBlk(sp: Span): (Span, nat) {
    if sp.blkList != [] then
      (sp.(blkList := sp.blkList[1..], freeCnt := Decremented(sp.freeCnt)), sp.blkList[0])
    else
      (sp.(freeBlk := sp.freeBlk + sp.blkSize, freeCnt := Decremented(sp.freeCnt)), sp.freeBlk)
  }

  function HandOut(s: Heap, h: nat, sz: nat): (Heap, nat)
    requires h in s.spans
  {
    var (sp, b) := GetBlk(s.spans[h]);
    (s.(spans := s.spans[h := sp], live := s.live[b := sz]), b)
  }

  /** wl_malloc(sz) of a small size in thread t, with the block that is returned. */
  function Malloc(s: Heap, t: nat, sz: nat, contiguous: bool): Option<(Heap, nat)>
    requires Running(s, t) && PoolReady(s) && Known(s) && 0 < sz <= MAX_SMALL
  {
    Size2ClsFits(sz);
    var c := Size2Cls(sz);
    match Prepared(s, t, c, contiguous)
    case None => None
    case Some(r) => Some(HandOut(r, r.lists[Using(t, c)][0], sz))
  }

  // Freeing: span_free_blk.

  /** The list in which the node of a suspended span is linked. */
  function SuspendList(sp: Span): Place {
    match sp.owner
    case Thread(o) => Suspended(o, sp.cls)
    case _ => PoolSuspended(sp.cls)
  }

  /** The free list that a span joins: of the pool, or of the thread that frees. */
  function FreeList(sp: Span, t: nat): Place {
    if sp.owner == PoolOwner then PoolFree else FreeOf(t)
  }

  /** Freeing one more block makes the span FREE: it is suspended and this is the last of
    * its outstanding blocks. */
  predicate TurnsFree(sp: Span)
    requires sp.blkSize > 0
  {
    sp.state == SUSPEND && Incremented(sp.freeCnt) == Capacity(sp.blkSize)
  }

  // list_del of a span that is in no list: the two nodes that it remembers are linked to each
  // other.

  /** What it leaves of the list on whose ring both of them are, and what it cuts out. */
  function Kept(xs: seq<nat>, pl: Place, l: Links<Node>): seq<nat>
    requires Position(xs, pl, l.prev) < GoesOnAt(xs, pl, l.next) <= |xs| + 1
  {
    xs[..Position(xs, pl, l.prev)] + xs[GoesOnAt(xs, pl, l.next) - 1..]
  }

  function CutOut(xs: seq<nat>, pl: Place, l: Links<Node>): seq<nat>
    requires Position(xs, pl, l.prev) < GoesOnAt(xs, pl, l.next) <= |xs| + 1
  {
    xs[Position(xs, pl, l.prev)..GoesOnAt(xs, pl, l.next) - 1]
  }

  /** The links of some spans of a list. */
  function LinksOf(xs: seq<nat>, pl: Place, some: seq<nat>): map<nat, Links<Node>> {
    map h | h in some && IndexOf(xs, h) < |xs| :: LinksAt(xs, pl, IndexOf(xs, h))
  }

  /** Both nodes are on the ring of pl: the spans between them are lost, with the links they
    * have. */
  function CutAt(s: Heap, pl: Place, l: Links<Node>): Heap
    requires InOrder(s.lists, pl, l)
  {
    var xs := s.lists[pl];
    s.(lists := s.lists[pl := Kept(xs, pl, l)],
       stale := s.stale + LinksOf(xs, pl, CutOut(xs, pl, l)))
  }

  /** Neither node is on a ring: the links of lost spans may change. */
  function Rewritten(stale: map<nat, Links<Node>>, l: Links<Node>): (r: map<nat, Links<Node>>)
    ensures r.Keys == stale.Keys
  {
    var m := if l.prev.NodeOf? && l.prev.h in stale then stale[l.prev.h := stale[l.prev.h].(next := l.next)] else stale;
    if l.next.NodeOf? && l.next.h in m then m[l.next.h := m[l.next.h].(prev := l.prev)] else m
  }

  /** Every list stays a ring: both nodes are on one of them, in order, or neither is on any.
    * And the head of a list that has gone is not written to. */
  ghost predicate RingsStay(lists: map<Place, seq<nat>>, l: Links<Node>) {
    && NodeExists(lists, l.prev) && NodeExists(lists, l.next)
    && ((OnNoRing(lists, l.prev) && OnNoRing(lists, l.next)) || exists pl :: InOrder(lists, pl, l))
  }

  ghost function RingOf(lists: map<Place, seq<nat>>, l: Links<Node>): (pl: Place)
    requires exists pl :: InOrder(lists, pl, l)
    ensures InOrder(lists, pl, l)
  {
    var pl :| InOrder(lists, pl, l);
    pl
  }

  /** What is left of the lists and of what lost spans remember. */
  ghost function StaleDel(s: Heap, l: Links<Node>): (r: Heap)
    ensures r == s.(lists := r.lists, stale := r.stale) && r.lists.Keys == s.lists.Keys
  {
    if exists pl :: InOrder(s.lists, pl, l) then CutAt(s, RingOf(s.lists, l), l) else s.(stale := Rewritten(s.stale, l))
  }

  /** One list is no ring after list_del, but it is one again when the node has joined the list
    * to: prev is the last node there, so that its next link is written once more, and next is
    * on no ring. */
  ghost predicate IsMended(lists: map<Place, seq<nat>>, l: Links<Node>, to: Place) {
    && NodeExists(lists, l.prev) && NodeExists(lists, l.next) && OnNoRing(lists, l.next)
    && OnRing(lists, to, l.prev) && Position(lists[to], to, l.prev) == |lists[to]|
  }

  /** Span h is linked where it should be. */
  predicate IsListed(s: Heap, h: nat)
    requires h in s.spans
  {
    SuspendList(s.spans[h]) in s.lists && h in s.lists[SuspendList(s.spans[h])]
  }

  /** list_del of span h and list_add_tail to the list to go well: both find the links that they
    * follow, and in the end every list is a ring. */
  ghost predicate CanMove(s: Heap, h: nat, to: Place)
    requires h in s.spans
  {
    && to in s.lists
    && (IsListed(s, h) || (h in s.stale && (RingsStay(s.lists, s.stale[h]) || IsMended(s.lists, s.stale[h], to))))
  }

  /** Without the node of span h. */
  ghost function Unlinked(s: Heap, h: nat): (r: Heap)
    requires h in s.spans && (IsListed(s, h) || h in s.stale)
    ensures r == s.(lists := r.lists, stale := r.stale) && r.lists.Keys == s.lists.Keys
  {
    if IsListed(s, h) then Remove(s, SuspendList(s.spans[h]), h)
    else
      var m := StaleDel(s, s.stale[h]);
      m.(stale := m.stale - {h})
  }

  ghost function Moved(s: Heap, h: nat, to: Place): (r: Heap)
    requires h in s.spans && CanMove(s, h, to)
    ensures r == s.(lists := r.lists, stale := r.stale) && r.lists.Keys == s.lists.Keys
  {
    Append(Unlinked(s, h), to, h)
  }

  /** The counter of span h goes up, and if that makes the span FREE it moves to the free
    * list to with an empty list of blocks. */
  ghost function Reclaimed(s: Heap, h: nat, to: Place): (r: Heap)
    requires h in s.spans && s.spans[h].blkSize > 0
    requires TurnsFree(s.spans[h]) ==> CanMove(s, h, to)
    ensures r.spans.Keys == s.spans.Keys
  {
    var sp := s.spans[h].(freeCnt := Incremented(s.spans[h].freeCnt));
    if TurnsFree(s.spans[h]) then
      Moved(s, h, to).(spans := s.spans[h := sp.(state := FREE, blkList := [])])
    else
      s.(spans := s.spans[h := sp])
  }

  /** A block b of span h is freed, with the free list that the span joins if it has to. */
  ghost function Freed(s: Heap, h: nat, b: nat, to: Place): Heap
    requires h in s.spans && s.spans[h].blkSize > 0
    requires TurnsFree(s.spans[h]) ==> CanMove(s, h, to)
  {
    var m := Reclaimed(s, h, to);
    m.(spans := s.spans[h := m.spans[h].(blkList := [b] + m.spans[h].blkList)], live := s.live - {b})
  }

  /** The owner whose lock a thread takes when it frees a block of sp is there. */
  predicate OwnerExists(s: Heap, sp: Span, t: nat) {
    match sp.owner
    case Thread(o) => o == t || FreeOf(o) in s.lists
    case PoolOwner => true
    case NoOwner => false
  }

  /** The lock is there, and a span that turns FREE can move. */
  ghost predicate FreeGoesWell(s: Heap, t: nat, h: nat)
    requires h in s.spans && s.spans[h].blkSize > 0
  {
    OwnerExists(s, s.spans[h], t) && (TurnsFree(s.spans[h]) ==> CanMove(s, h, FreeList(s.spans[h], t)))
  }

  /** wl_free(b) in thread t, which need not have allocated before. None stands for an
    * access through a link or a lock that is not there (list_add_tail into the zeroed list
    * of a thread that has not started, the lock or a list head of a thread that has exited)
    * and for a call that leaves the head of a list which is no ring any more. */
  ghost function Free(s: Heap, t: nat, b: nat): Option<Heap>
    requires GetHeader(b) in s.spans && s.spans[GetHeader(b)].blkSize > 0
  {
    var h := GetHeader(b);
    if FreeGoesWell(s, t, h) then Some(Freed(s, h, b, FreeList(s.spans[h], t))) else None
  }

  // Threads.

  predicate OfThread(pl: Place, t: nat) {
    match pl
    case Using(u, _) => u == t
    case Suspended(u, _) => u == t
    case FreeOf(u) => u == t
    case _ => false
  }

  /** pl is the using slot or the suspend list of thread t for one of the first n classes. */
  predicate ForClass(pl: Place, t: nat, n: nat) {
    match pl
    case Using(u, c) => u == t && c < n
    case Suspended(u, c) => u == t && c < n
    case _ => false
  }

  function ClassLists(t: nat, n: nat): (r: set<Place>)
    ensures forall pl :: pl in r <==> ForClass(pl, t, n)
  {
    (set c | 0 <= c < n :: Using(t, c)) + (set c | 0 <= c < n :: Suspended(t, c))
  }

  function WithEmpty(lists: map<Place, seq<nat>>, places: set<Place>): map<Place, seq<nat>> {
    lists + map pl | pl in places :: []
  }

  /** thread_cache_init: empty slots and lists. */
  function Start(s: Heap, t: nat): Heap {
    s.(lists := WithEmpty(s.lists, ClassLists(t, CLASSES) + {FreeOf(t)}))
  }

  /** What thread t holds for class c. */
  function Holdings(s: Heap, t: nat, c: nat): seq<nat>
    requires Running(s, t) && c < CLASSES
  {
    s.lists[Suspended(t, c)] + s.lists[Using(t, c)]
  }

  /** thread_exit: the suspended spans and those in the using slots go to the pool's
    * suspend lists under the pool's ownership, the free ones to its free list. */
  function Exit(s: Heap, t: nat): Heap
    requires Running(s, t) && PoolReady(s)
  {
    s.(lists := map pl | pl in s.lists && !OfThread(pl, t) ::
                  match pl
                  case PoolSuspended(c) => s.lists[pl] + (if c < CLASSES then Holdings(s, t, c) else [])
                  case PoolFree => s.lists[pl] + s.lists[FreeOf(t)]
                  case _ => s.lists[pl],
       spans := map h | h in s.spans ::
                  if exists c :: 0 <= c < CLASSES && h in Holdings(s, t, c) then s.spans[h].(owner := PoolOwner) else s.spans[h])
  }

  function PoolLists(n: nat): (r: set<Place>)
    ensures forall pl :: pl in r <==> pl.PoolSuspended? && pl.c < n
  {
    set c | 0 <= c < n :: PoolSuspended(c)
  }

  /** global_init, with the address that the first mapping returned: the pool starts at
    * the next multiple of the span size. */
  function Initial(raw: nat): Heap {
    var start := (raw + SPAN - 1) / SPAN * SPAN;
    Heap(map[], WithEmpty(map[PoolFree := []], PoolLists(CLASSES)), start, raw + UNIT, start, map[], map[])
  }
}
