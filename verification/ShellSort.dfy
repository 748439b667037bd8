/** shellsort of src/ls.c, in place. That sortcmp is total is enough for each entry to be in
  * order with the next one; that it is transitive as well makes the whole array sorted. */
module ShellSort {
  import opened EntryOrder

  ghost predicate InOrder(s: seq<Entry>, order: Order, i: nat, j: nat)
    requires i < |s| && j < |s|
  {
    SortCmp(s[i], s[j], order) <= 0
  }

  ghost function Elements(s: seq<Entry>): set<Entry> {
    set d | d in s
  }

  /** The first n entries are in es. */
  ghost predicate Within(s: seq<Entry>, es: set<Entry>, n: nat)
    requires n <= |s|
  {
    forall k :: 0 <= k < n ==> s[k] in es
  }

  ghost predicate Sorted(s: seq<Entry>, order: Order) {
    forall i, j :: 0 <= i < j < |s| ==> InOrder(s, order, i, j)
  }

  /** Entry k is in order with the one gap places behind it. */
  ghost predicate Link(s: seq<Entry>, order: Order, gap: nat, k: nat)
    requires k + gap < |s|
  {
    InOrder(s, order, k, k + gap)
  }

  /** Below n, each entry is in order with the one gap places behind it, but for the pair
    * that starts at hole. */
  ghost predicate SortedBut(s: seq<Entry>, order: Order, gap: nat, n: nat, hole: int)
    requires n <= |s|
  {
    forall k: nat :: k + gap < n && k != hole ==> Link(s, order, gap, k)
  }

  ghost predicate GapSorted(s: seq<Entry>, order: Order, gap: nat, n: nat)
    requires n <= |s|
  {
    SortedBut(s, order, gap, n, -1)
  }

  /** The state of the innermost loop: entry i, now at j + gap, has passed those behind it. */
  ghost predicate Sifted(s: seq<Entry>, order: Order, gap: nat, i: nat, j: int)
    requires i < |s|
  {
    && SortedBut(s, order, gap, i + 1, j)
    && (0 <= j && j + gap + gap <= i ==> InOrder(s, order, j, j + gap + gap))
  }

  function Swapped(s: seq<Entry>, i: nat, j: nat): (r: seq<Entry>)
    requires i < |s| && j < |s|
    ensures |r| == |s|
  {
    s[i := s[j]][j := s[i]]
  }

  /** Two entries that are out of order are in order when they are swapped, and their
    * neighbours at that gap stay in order. */
  lemma SwapSifts(s: seq<Entry>, es: set<Entry>, order: Order, gap: nat, i: nat, j: nat)
    requires 0 < gap && j + gap <= i < |s|
    requires Total(es, order) && Within(s, es, i + 1) && Sifted(s, order, gap, i, j) && !InOrder(s, order, j, j + gap)
    ensures Within(Swapped(s, j, j + gap), es, i + 1)
    ensures Sifted(Swapped(s, j, j + gap), order, gap, i, j - gap)
  {
    hide SortCmp;
    var r := Swapped(s, j, j + gap);
    assert SortCmp(s[j], s[j + gap], order) <= 0 || SortCmp(s[j + gap], s[j], order) <= 0;
    forall k: nat | k + gap < i + 1 && k != j - gap
      ensures Link(r, order, gap, k)
    {
      assert k != j ==> Link(s, order, gap, k);
    }
    if gap <= j {
      assert Link(s, order, gap, j - gap);
    }
  }

  method Swap(dn: array<Entry>, i: nat, j: nat)
    requires i < dn.Length && j < dn.Length
    modifies dn
    ensures dn[..] == Swapped(old(dn[..]), i, j)
  {
    var temp := dn[i];
    dn[i] := dn[j];
    dn[j] := temp;
  }

  lemma SwappedKeeps(s: seq<Entry>, i: nat, j: nat, n: nat)
    requires i < j < n <= |s|
    ensures multiset(Swapped(s, i, j)) == multiset(s)
    ensures Swapped(s, i, j)[n..] == s[n..]
  {
  }

  /** The innermost loop: entry i moves down among every gap-th entry. */
  method Sift(dn: array<Entry>, ghost es: set<Entry>, order: Order, gap: nat, i: nat)
    requires 0 < gap <= i < dn.Length
    modifies dn
    ensures multiset(dn[..]) == multiset(old(dn[..])) && dn[i + 1..] == old(dn[i + 1..])
    ensures Total(es, order) && Within(old(dn[..]), es, i + 1) && GapSorted(old(dn[..]), order, gap, i) ==>
              Within(dn[..], es, i + 1) && GapSorted(dn[..], order, gap, i + 1)
  {
    hide SortCmp, Total, GapSorted, Sifted, Swapped, Within;
    ghost var s := dn[..];
    ghost var good := Total(es, order) && Within(s, es, i + 1) && GapSorted(s, order, gap, i);
    var j := i - gap;
    if good {
      StartSift(s, order, gap, i);
    }
    while j >= 0
      invariant 0 <= j + gap <= i
      invariant multiset(dn[..]) == multiset(s) && dn[i + 1..] == s[i + 1..]
      invariant good ==> Within(dn[..], es, i + 1) && Sifted(dn[..], order, gap, i, j)
    {
      if SortCmp(dn[j], dn[j + gap], order) <= 0 {
        break;
      }
      ghost var t := dn[..];
      SwappedKeeps(t, j, j + gap, i + 1);
      if good {
        SwapSifts(t, es, order, gap, i, j);
      }
      Swap(dn, j, j + gap);
      j := j - gap;
    }
    if good {
      EndSift(dn[..], order, gap, i, j);
    }
  }

  lemma StartSift(s: seq<Entry>, order: Order, gap: nat, i: nat)
    requires 0 < gap <= i < |s| && GapSorted(s, order, gap, i)
    ensures Sifted(s, order, gap, i, i - gap)
  {
  }

  lemma EndSift(s: seq<Entry>, order: Order, gap: nat, i: nat, j: int)
    requires 0 < gap <= i < |s| && 0 <= j + gap <= i && Sifted(s, order, gap, i, j)
    requires j >= 0 ==> InOrder(s, order, j, j + gap)
    ensures GapSorted(s, order, gap, i + 1)
  {
  }

  /** One pass: every gap-th entry is in order afterwards, whatever the array was before. */
  method GapPass(dn: array<Entry>, ghost es: set<Entry>, order: Order, gap: nat, size: nat)
    requires 0 < gap && size <= dn.Length
    modifies dn
    ensures multiset(dn[..]) == multiset(old(dn[..])) && dn[size..] == old(dn[size..])
    ensures Total(es, order) && Within(old(dn[..]), es, size) ==>
              Within(dn[..], es, size) && GapSorted(dn[..], order, gap, size)
  {
    hide SortCmp, Total;
    ghost var good := Total(es, order) && Within(dn[..], es, size);
    var i := gap;
    while i < size
      invariant gap <= i && (size < i ==> i == gap)
      invariant multiset(dn[..]) == multiset(old(dn[..])) && dn[size..] == old(dn[size..])
      invariant good ==> Within(dn[..], es, size) && GapSorted(dn[..], order, gap, if i < size then i else size)
    {
      ghost var s := dn[..];
      Sift(dn, es, order, gap, i);
      SameTail(s, dn[..], i + 1, size);
      i := i + 1;
    }
  }

  lemma SameTail(s: seq<Entry>, t: seq<Entry>, n: nat, size: nat)
    requires |s| == |t| && n <= size <= |s| && s[n..] == t[n..]
    ensures s[size..] == t[size..] && forall k :: n <= k < |s| ==> s[k] == t[k]
  {
    assert s[size..] == s[n..][size - n..] && t[size..] == t[n..][size - n..];
    assert forall k :: n <= k < |s| ==> s[k] == s[n..][k - n] && t[k] == t[n..][k - n];
  }

  /** shellsort of the first size entries: it permutes them. If sortcmp is total on them,
    * each is in order with the next one; if it is transitive too, they are sorted. */
  method Shellsort(dn: array?<Entry>, order: Order, size: int)
    requires dn != null ==> size <= dn.Length
    modifies dn
    ensures dn != null && size < 0 ==> dn[..] == old(dn[..])
    ensures dn != null && size >= 0 ==> multiset(dn[..size]) == multiset(old(dn[..size])) && dn[size..] == old(dn[size..])
    ensures dn != null && size >= 0 && Total(Elements(old(dn[..size])), order) ==> GapSorted(dn[..], order, 1, size)
    ensures dn != null && size >= 0 && Total(Elements(old(dn[..size])), order) && Transitive(Elements(old(dn[..size])), order) ==>
              Sorted(dn[..size], order)
  {
    hide SortCmp, Total, Transitive, Within, GapSorted, Sorted, Elements;
    if dn == null || size < 2 {
      if dn != null && size >= 0 {
        FewAreSorted(dn[..], order, size);
      }
      return;
    }
    ghost var s := dn[..];
    ghost var es := Elements(dn[..size]);
    assert Within(s, es, size) by {
      ElementsWithin(s, size);
    }
    var gap := size / 2;
    while gap > 0
      invariant gap >= 0
      invariant multiset(dn[..]) == multiset(s) && dn[size..] == s[size..]
      invariant Total(es, order) ==> Within(dn[..], es, size) && (gap == 0 ==> GapSorted(dn[..], order, 1, size))
    {
      GapPass(dn, es, order, gap, size);
      gap := gap / 2;
    }
    PrefixPermutation(s, dn[..], size);
    assert dn[..][..size] == dn[..size] && s[..size] == old(dn[..size]);
    if Total(es, order) && Transitive(es, order) {
      LinksAreSorted(dn[..], es, order, size);
    }
  }

  lemma ElementsWithin(s: seq<Entry>, n: nat)
    requires n <= |s|
    ensures Within(s, Elements(s[..n]), n)
  {
    assert forall k :: 0 <= k < n ==> s[k] == s[..n][k];
  }

  lemma PrefixPermutation(s: seq<Entry>, t: seq<Entry>, n: nat)
    requires |s| == |t| && n <= |s| && multiset(s) == multiset(t) && s[n..] == t[n..]
    ensures multiset(s[..n]) == multiset(t[..n])
  {
    assert s == s[..n] + s[n..] && t == t[..n] + t[n..];
    assert multiset(s[..n]) == multiset(s) - multiset(s[n..]);
    assert multiset(t[..n]) == multiset(t) - multiset(t[n..]);
  }

  lemma FewAreSorted(s: seq<Entry>, order: Order, n: nat)
    requires n <= |s| && n < 2
    ensures GapSorted(s, order, 1, n) && Sorted(s[..n], order)
  {
  }

  lemma {:induction false} LinksReach(s: seq<Entry>, es: set<Entry>, order: Order, n: nat, i: nat, j: nat)
    requires n <= |s| && Within(s, es, n) && Transitive(es, order) && GapSorted(s, order, 1, n) && i < j < n
    ensures InOrder(s, order, i, j)
  {
    assert Link(s, order, 1, j - 1);
    if i < j - 1 {
      LinksReach(s, es, order, n, i, j - 1);
    }
  }

  lemma LinksAreSorted(s: seq<Entry>, es: set<Entry>, order: Order, n: nat)
    requires n <= |s| && Within(s, es, n) && Transitive(es, order) && GapSorted(s, order, 1, n)
    ensures Sorted(s[..n], order)
  {
    forall i, j | 0 <= i < j < n
      ensures InOrder(s[..n], order, i, j)
    {
      LinksReach(s, es, order, n, i, j);
    }
  }

  /** If the keys of the entries differ by numbers that fit in an int, the array is sorted
    * in the order that is meant: no entry belongs before an earlier one. */
  lemma SortedAsMeant(s: seq<Entry>, order: Order, i: nat, j: nat)
    requires Close(Elements(s), order.key) && Sorted(s, order) && i < j < |s|
    ensures if order.reverse then !Before(s[i], s[j], order.key) else !Before(s[j], s[i], order.key)
  {
    hide SortCmp, Before;
    assert InOrder(s, order, i, j);
    assert s[i] in Elements(s) && s[j] in Elements(s);
    SortCmpIsOrder(s[i], s[j], order);
  }
}
