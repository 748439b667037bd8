/** The comparison by which src/ls.c sorts directory entries. */
module EntryOrder {

  /** What sort_opts says; whatever else it may hold means the name. */
  datatype SortKey = ByName | ByDir | BySize | ByAtime | ByMtime | ByCtime

  datatype Order = Order(key: SortKey, reverse: bool)

  /** The parts of a dnode that are compared. */
  datatype Entry = Entry(name: string, size: int, atime: int, mtime: int, ctime: int, isDir: bool)

  /** Conversion to a 32-bit int. */
  function ToInt(d: int): (r: int)
    ensures -0x8000_0000 <= r < 0x8000_0000
  {
    (d + 0x8000_0000) % 0x1_0000_0000 - 0x8000_0000
  }

  function Key(d: Entry, key: SortKey): int {
    match key
    case ByName => 0
    case ByDir => if d.isDir then 1 else 0
    case BySize => d.size
    case ByAtime => d.atime
    case ByMtime => d.mtime
    case ByCtime => d.ctime
  }

  /** strcmp */
  function Strcmp(x: string, y: string): int {
    if x == [] && y == [] then 0
    else if x == [] then -1
    else if y == [] then 1
    else if x[0] != y[0] then x[0] as int - y[0] as int
    else Strcmp(x[1..], y[1..])
  }

  function Sign(n: int): int {
    if n > 0 then 1 else if n < 0 then -1 else 0
  }

  /** sortcmp */
  function SortCmp(d1: Entry, d2: Entry, order: Order): int {
    var dif := ToInt(Key(d1, order.key) - Key(d2, order.key));
    var cmp := if dif > 0 then -1 else if dif < 0 then 1 else Sign(Strcmp(d1.name, d2.name));
    if order.reverse then -1 * cmp else cmp
  }

  // The order that is meant.

  /** d1 belongs before d2: its key is larger, or as large and its name is less. */
  ghost predicate Before(d1: Entry, d2: Entry, key: SortKey) {
    Key(d1, key) > Key(d2, key) || (Key(d1, key) == Key(d2, key) && Less(d1.name, d2.name))
  }

  /** The lexicographic order of strings. */
  ghost predicate Less(x: string, y: string) {
    exists n: nat :: CommonPrefix(x, y, n) && n < |y| && (n == |x| || x[n] < y[n])
  }

  ghost predicate CommonPrefix(x: string, y: string, n: nat) {
    n <= |x| && n <= |y| && x[..n] == y[..n]
  }

  /** The sign of strcmp is the lexicographic order. */
  lemma {:induction false} StrcmpIsLess(x: string, y: string)
    ensures Strcmp(x, y) < 0 <==> Less(x, y)
    ensures Strcmp(x, y) > 0 <==> Less(y, x)
    ensures Strcmp(x, y) == 0 <==> x == y
  {
    if x != [] && y != [] && x[0] == y[0] {
      StrcmpIsLess(x[1..], y[1..]);
      LessTail(x, y);
      LessTail(y, x);
      assert x == [x[0]] + x[1..] && y == [y[0]] + y[1..];
    } else {
      Differs(x, y);
      Differs(y, x);
    }
  }

  lemma Differs(x: string, y: string)
    requires x == [] || y == [] || x[0] != y[0]
    ensures Less(x, y) <==> y != [] && (x == [] || x[0] < y[0])
  {
    assert CommonPrefix(x, y, 0);
    if Less(x, y) {
      var n: nat :| CommonPrefix(x, y, n) && n < |y| && (n == |x| || x[n] < y[n]);
      if n > 0 {
        PrefixHead(x, y, n);
      }
    }
  }

  lemma PrefixHead(x: string, y: string, n: nat)
    requires CommonPrefix(x, y, n) && n > 0
    ensures x[0] == y[0]
  {
    assert x[..n][0] == x[0] && y[..n][0] == y[0];
  }

  lemma LessTail(x: string, y: string)
    requires x != [] && y != [] && x[0] == y[0]
    ensures Less(x, y) <==> Less(x[1..], y[1..])
  {
    if Less(x, y) {
      var n: nat :| CommonPrefix(x, y, n) && n < |y| && (n == |x| || x[n] < y[n]);
      assert n > 0 && x[1..][..n - 1] == x[..n][1..] && y[1..][..n - 1] == y[..n][1..];
      assert CommonPrefix(x[1..], y[1..], n - 1);
    }
    if Less(x[1..], y[1..]) {
      var n: nat :| CommonPrefix(x[1..], y[1..], n) && n < |y[1..]| && (n == |x[1..]| || x[1..][n] < y[1..][n]);
      assert x[..n + 1] == [x[0]] + x[1..][..n] && y[..n + 1] == [y[0]] + y[1..][..n];
      assert CommonPrefix(x, y, n + 1);
    }
  }

  lemma LessIsTransitive(x: string, y: string, z: string)
    requires Less(x, y) && Less(y, z)
    ensures Less(x, z)
  {
    var n: nat :| CommonPrefix(x, y, n) && n < |y| && (n == |x| || x[n] < y[n]);
    var m: nat :| CommonPrefix(y, z, m) && m < |z| && (m == |y| || y[m] < z[m]);
    var k := if n < m then n else m;
    assert x[..k] == x[..n][..k] && y[..k] == y[..n][..k] && y[..k] == y[..m][..k] && z[..k] == z[..m][..k];
    assert n < m ==> y[n] == y[..m][n] && z[n] == z[..m][n];
    assert m < n ==> x[m] == x[..n][m] && y[m] == y[..n][m];
    assert CommonPrefix(x, z, k);
  }

  // Where the truncation to int matters.

  /** ToInt keeps the low 32 bits and is the identity on 32-bit numbers. */
  lemma ToIntOf(d: int)
    ensures ToInt(d) % 0x1_0000_0000 == d % 0x1_0000_0000
    ensures -0x8000_0000 <= d < 0x8000_0000 <==> ToInt(d) == d
    ensures ToInt(d) > 0 <==> 0 < d % 0x1_0000_0000 < 0x8000_0000
    ensures ToInt(d) < 0 <==> 0x8000_0000 <= d % 0x1_0000_0000
  {
  }

  /** What the sign of sortcmp means: negative for an entry that belongs before the other,
    * whenever the difference of the keys fits in an int. */
  lemma SortCmpIsOrder(d1: Entry, d2: Entry, order: Order)
    requires -0x8000_0000 <= Key(d1, order.key) - Key(d2, order.key) < 0x8000_0000
    ensures var cmp := SortCmp(d1, d2, order);
      var (a, b) := if order.reverse then (d2, d1) else (d1, d2);
      && (cmp < 0 <==> Before(a, b, order.key)) && (cmp > 0 <==> Before(b, a, order.key))
      && (cmp == 0 <==> Key(d1, order.key) == Key(d2, order.key) && d1.name == d2.name)
  {
    StrcmpIsLess(d1.name, d2.name);
    hide Less;
  }

  /** The number x is larger than y, or they are equal and the name comes first. */
  ghost predicate LargerOrFirst(x: int, y: int, d1: Entry, d2: Entry) {
    x > y || (x == y && Less(d1.name, d2.name))
  }

  /** Which fields are compared: sizes and times with the larger one first, directories before
    * everything else, or nothing but the names; as long as the differences fit in an int. */
  lemma SortCmpOnFields(d1: Entry, d2: Entry)
    ensures -0x8000_0000 <= d1.size - d2.size < 0x8000_0000 ==>
              (SortCmp(d1, d2, Order(BySize, false)) < 0 <==> LargerOrFirst(d1.size, d2.size, d1, d2))
    ensures -0x8000_0000 <= d1.atime - d2.atime < 0x8000_0000 ==>
              (SortCmp(d1, d2, Order(ByAtime, false)) < 0 <==> LargerOrFirst(d1.atime, d2.atime, d1, d2))
    ensures -0x8000_0000 <= d1.mtime - d2.mtime < 0x8000_0000 ==>
              (SortCmp(d1, d2, Order(ByMtime, false)) < 0 <==> LargerOrFirst(d1.mtime, d2.mtime, d1, d2))
    ensures -0x8000_0000 <= d1.ctime - d2.ctime < 0x8000_0000 ==>
              (SortCmp(d1, d2, Order(ByCtime, false)) < 0 <==> LargerOrFirst(d1.ctime, d2.ctime, d1, d2))
    ensures SortCmp(d1, d2, Order(ByDir, false)) < 0
            <==> (d1.isDir && !d2.isDir) || (d1.isDir == d2.isDir && Less(d1.name, d2.name))
    ensures SortCmp(d1, d2, Order(ByName, false)) < 0 <==> Less(d1.name, d2.name)
    ensures forall key :: SortCmp(d1, d2, Order(key, true)) == -SortCmp(d1, d2, Order(key, false))
  {
    StrcmpIsLess(d1.name, d2.name);
    hide Less, Strcmp;
  }

  /** Exactly when it means that: the low 32 bits of the difference have the sign of the
    * whole difference, or they are all zero and the names happen to decide alike. */
  lemma SortCmpIsOrderExactly(d1: Entry, d2: Entry, order: Order)
    ensures var dif := Key(d1, order.key) - Key(d2, order.key);
      var low := dif % 0x1_0000_0000;
      var (a, b) := if order.reverse then (d2, d1) else (d1, d2);
      var cmp := SortCmp(d1, d2, order);
      (cmp < 0 <==> Before(a, b, order.key)) && (cmp > 0 <==> Before(b, a, order.key))
      <==>
      || dif == 0
      || (dif > 0 && (0 < low < 0x8000_0000 || (low == 0 && Less(d1.name, d2.name))))
      || (dif < 0 && (low >= 0x8000_0000 || (low == 0 && Less(d2.name, d1.name))))
  {
    StrcmpIsLess(d1.name, d2.name);
    StrcmpIsLess(d2.name, d1.name);
    ToIntOf(Key(d1, order.key) - Key(d2, order.key));
    hide Less, ToInt, Strcmp;
  }

  /** Swapping the arguments changes the sign, unless the low 32 bits of the difference of
    * the keys are 2^31: then each of the two entries belongs before the other. */
  lemma SortCmpIsAntisymmetricExactly(d1: Entry, d2: Entry, order: Order)
    ensures var low := (Key(d1, order.key) - Key(d2, order.key)) % 0x1_0000_0000;
      && (SortCmp(d2, d1, order) == -SortCmp(d1, d2, order) <==> low != 0x8000_0000)
      && (low == 0x8000_0000 ==> SortCmp(d1, d2, order) == SortCmp(d2, d1, order) != 0)
  {
    StrcmpIsLess(d1.name, d2.name);
    StrcmpIsLess(d2.name, d1.name);
    var dif := Key(d1, order.key) - Key(d2, order.key);
    ToIntOf(dif);
    ToIntOf(-dif);
    NegatedLow(dif);
    hide Less, ToInt, Strcmp;
  }

  lemma NegatedLow(dif: int)
    ensures (-dif) % 0x1_0000_0000 == if dif % 0x1_0000_0000 == 0 then 0 else 0x1_0000_0000 - dif % 0x1_0000_0000
  {
  }

  /** Of any two entries of s, one may come before the other. */
  ghost predicate Total(s: set<Entry>, order: Order) {
    forall d, e :: d in s && e in s ==> SortCmp(d, e, order) <= 0 || SortCmp(e, d, order) <= 0
  }

  ghost predicate Transitive(s: set<Entry>, order: Order) {
    forall d, e, f :: d in s && e in s && f in s && SortCmp(d, e, order) <= 0 && SortCmp(e, f, order) <= 0 ==>
      SortCmp(d, f, order) <= 0
  }

  /** The keys of s differ by numbers that fit in an int. */
  ghost predicate Close(s: set<Entry>, key: SortKey) {
    forall d, e :: d in s && e in s ==> Key(d, key) - Key(e, key) < 0x8000_0000
  }

  /** The low 32 bits of the difference of two keys are 2^31, the same in both directions. */
  ghost predicate HalfApart(d: Entry, e: Entry, key: SortKey) {
    (Key(d, key) - Key(e, key)) % 0x1_0000_0000 == 0x8000_0000
  }

  /** sortcmp is total on s exactly if the order is reverse, or no two keys are half apart: in
    * reverse order each of two such entries may come before the other, forward neither. */
  lemma TotalExactly(s: set<Entry>, order: Order)
    ensures Total(s, order) <==> order.reverse || forall d, e :: d in s && e in s ==> !HalfApart(d, e, order.key)
  {
    hide SortCmp, HalfApart;
    forall d, e | d in s && e in s
      ensures SortCmp(d, e, order) <= 0 || SortCmp(e, d, order) <= 0 <==> order.reverse || !HalfApart(d, e, order.key)
    {
      TotalAtExactly(d, e, order);
    }
  }

  lemma TotalAtExactly(d: Entry, e: Entry, order: Order)
    ensures SortCmp(d, e, order) <= 0 || SortCmp(e, d, order) <= 0 <==> order.reverse || !HalfApart(d, e, order.key)
  {
    SortCmpIsAntisymmetricExactly(d, e, order);
    if HalfApart(d, e, order.key) {
      ToIntOf(Key(d, order.key) - Key(e, order.key));
      ToIntOf(Key(e, order.key) - Key(d, order.key));
      NegatedLow(Key(d, order.key) - Key(e, order.key));
    }
  }

  /** Forward or reverse, sortcmp is a total preorder on entries with close keys. */
  lemma CloseIsPreorder(s: set<Entry>, order: Order)
    requires Close(s, order.key)
    ensures Total(s, order) && Transitive(s, order)
  {
    hide SortCmp, Before;
    forall d, e | d in s && e in s
      ensures SortCmp(d, e, order) <= 0 || SortCmp(e, d, order) <= 0
    {
      TotalAt(d, e, order);
    }
    forall d, e, f | d in s && e in s && f in s && SortCmp(d, e, order) <= 0 && SortCmp(e, f, order) <= 0
      ensures SortCmp(d, f, order) <= 0
    {
      TransitiveAt(d, e, f, order);
    }
  }

  ghost predicate CloseKeys(d: Entry, e: Entry, key: SortKey) {
    -0x8000_0000 < Key(d, key) - Key(e, key) < 0x8000_0000
  }

  lemma TotalAt(d: Entry, e: Entry, order: Order)
    requires CloseKeys(d, e, order.key)
    ensures SortCmp(d, e, order) <= 0 || SortCmp(e, d, order) <= 0
  {
    SortCmpIsAntisymmetricExactly(d, e, order);
  }

  /** d does not belong behind e. */
  ghost predicate NotAfter(d: Entry, e: Entry, key: SortKey) {
    Key(d, key) > Key(e, key) || (Key(d, key) == Key(e, key) && (d.name == e.name || Less(d.name, e.name)))
  }

  lemma NotAfterIsSortCmp(d: Entry, e: Entry, order: Order)
    requires CloseKeys(d, e, order.key)
    ensures SortCmp(d, e, order) <= 0 <==> if order.reverse then NotAfter(e, d, order.key) else NotAfter(d, e, order.key)
  {
    StrcmpIsLess(d.name, e.name);
    StrcmpIsLess(e.name, d.name);
    hide Less, Strcmp;
  }

  lemma NotAfterIsTransitive(d: Entry, e: Entry, f: Entry, key: SortKey)
    requires NotAfter(d, e, key) && NotAfter(e, f, key)
    ensures NotAfter(d, f, key)
  {
    hide Less;
    if Less(d.name, e.name) && Less(e.name, f.name) {
      LessIsTransitive(d.name, e.name, f.name);
    }
  }

  lemma TransitiveAt(d: Entry, e: Entry, f: Entry, order: Order)
    requires CloseKeys(d, e, order.key) && CloseKeys(e, f, order.key) && CloseKeys(d, f, order.key)
    requires SortCmp(d, e, order) <= 0 && SortCmp(e, f, order) <= 0
    ensures SortCmp(d, f, order) <= 0
  {
    hide SortCmp, NotAfter, CloseKeys;
    NotAfterIsSortCmp(d, e, order);
    NotAfterIsSortCmp(e, f, order);
    NotAfterIsSortCmp(d, f, order);
    if order.reverse {
      NotAfterIsTransitive(f, e, d, order.key);
    } else {
      NotAfterIsTransitive(d, e, f, order.key);
    }
  }

  /** Three files, of no more than 3 GiB: each belongs before the next one, and the last one
    * before the first one. */
  lemma SizesGoRound()
    ensures var order := Order(BySize, false);
      var d, e, f := Entry("d", 0, 0, 0, 0, false), Entry("e", 0xC000_0000, 0, 0, 0, false), Entry("f", 0x6000_0000, 0, 0, 0, false);
      SortCmp(d, e, order) < 0 && SortCmp(e, f, order) < 0 && SortCmp(f, d, order) < 0
  {
  }
}
