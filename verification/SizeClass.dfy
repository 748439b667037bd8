/** The generator of the size classes, src/sizeclass.c. Its bound 2^14 is the parameter
  * n here; every statement is for all n from 9 up. */
module SizeClass {
  import opened Arith

  lemma {:induction false} Pow2Factors(n: nat)
    ensures n >= 7 ==> Pow2(n) == 128 * Pow2(n - 7)
    ensures n >= 8 ==> Pow2(n) == 256 * Pow2(n - 8)
    ensures n >= 9 ==> Pow2(n) == 512 * Pow2(n - 9)
  {
    SmallPowers();
    if n > 7 {
      Pow2Factors(n - 1);
    }
  }

  /** The class sizes up to 2^n: steps of 8 up to 128, then 3/2 and 2 times each power
    * of two. */
  function ClassSizes(n: nat): (s: seq<nat>)
    requires n >= 7
    ensures |s| == 15 + 2 * (n - 7)
  {
    if n == 7 then seq(15, i requires 0 <= i < 15 => 16 + 8 * i)
    else ClassSizes(n - 1) + [Pow2(n - 1) + Pow2(n - 1) / 2, 2 * Pow2(n - 1)]
  }

  /** How class c of a ladder of sizes relates to the class below it. */
  ghost predicate Rung(s: seq<nat>, c: nat)
    requires c < |s|
  {
    && s[c] % 8 == 0
    && (c > 0 ==> s[c - 1] + 8 <= s[c])
    && (c >= 15 ==> 2 * s[c] <= 3 * s[c - 1])
    && (c >= 18 ==> s[c] % 256 == 0)
    && (c > 18 ==> s[c - 1] + 256 <= s[c])
  }

  ghost predicate Ladder(s: seq<nat>) {
    |s| > 0 && s[0] == 16 && forall c :: 0 <= c < |s| ==> Rung(s, c)
  }

  lemma SmallPowers()
    ensures Pow2(7) == 128 && Pow2(8) == 256 && Pow2(9) == 512
  {
    assert Pow2(4) == 16;
    assert Pow2(6) == 64;
    assert Pow2(8) == 256;
  }

  lemma {:induction false} ClassSizesAreLadder(n: nat)
    requires n >= 7
    ensures Ladder(ClassSizes(n)) && ClassSizes(n)[|ClassSizes(n)| - 1] == Pow2(n)
    ensures n >= 9 ==> ClassSizes(n)[18] == 512
  {
    SmallPowers();
    if n > 7 {
      ClassSizesAreLadder(n - 1);
      var s, t := ClassSizes(n - 1), ClassSizes(n);
      var k := |s|;
      NewRungs(n, s[k - 1], t[k], t[k + 1]);
      forall c | 0 <= c < |t|
        ensures Rung(t, c)
      {
        if c < k {
          assert Rung(s, c);
        }
      }
    }
  }

  /** The two classes between 2^(n-1) and 2^n. */
  lemma NewRungs(n: nat, last: nat, half: nat, full: nat)
    requires n > 7 && last == Pow2(n - 1) && half == last + last / 2 && full == 2 * last
    ensures last % 128 == 0 && last >= 128 && half % 8 == 0 && full % 8 == 0
    ensures last + 8 <= half && half + 8 <= full
    ensures 2 * half <= 3 * last && 2 * full <= 3 * half
    ensures n > 8 ==> full % 256 == 0
    ensures n > 9 ==> half % 256 == 0 && last + 256 <= half && half + 256 <= full
  {
    Pow2Factors(n - 1);
    RungsOf128(Pow2(n - 8), last, half, full);
    if n > 9 {
      RungsOf512(Pow2(n - 10), last, half, full);
    }
  }

  lemma RungsOf128(m: nat, last: nat, half: nat, full: nat)
    requires m > 0 && last == 128 * m && half == last + last / 2 && full == 2 * last
    ensures last % 128 == 0 && last >= 128 && half % 8 == 0 && full % 8 == 0 && full % 256 == 0
    ensures last + 8 <= half && half + 8 <= full
    ensures 2 * half <= 3 * last && 2 * full <= 3 * half
  {
    assert half == 192 * m;
  }

  lemma RungsOf512(m: nat, last: nat, half: nat, full: nat)
    requires m > 0 && last == 512 * m && half == last + last / 2 && full == 2 * last
    ensures half % 256 == 0 && last + 256 <= half && half + 256 <= full
  {
    assert half == 768 * m;
  }

  /** gen_cls2size */
  method GenCls2Size(n: nat, cls2size: array<nat>) returns (curcls: nat)
    requires n >= 7 && cls2size.Length >= |ClassSizes(n)|
    modifies cls2size
    ensures curcls == |ClassSizes(n)| && cls2size[..curcls] == ClassSizes(n)
  {
    FirstSizes(n);
    hide ClassSizes, Pow2;
    curcls := 0;
    var cursize := 16;
    while cursize <= 128
      invariant curcls <= 15 && cursize == 16 + 8 * curcls
      invariant forall i :: 0 <= i < curcls ==> cls2size[i] == 16 + 8 * i
    {
      cls2size[curcls] := cursize;
      curcls := curcls + 1;
      cursize := cursize + 8;
    }
    assert cls2size[..curcls] == ClassSizes(7);
    cursize := 128;
    ghost var k := 7;
    while cursize < Pow2(n)
      invariant 7 <= k <= n && cursize == Pow2(k)
      invariant curcls == |ClassSizes(k)| && cls2size[..curcls] == ClassSizes(k)
      decreases n - k
    {
      MoreSizes(k, n);
      cls2size[curcls] := cursize + cursize / 2;
      cls2size[curcls + 1] := cursize * 2;
      assert cls2size[..curcls + 2] == ClassSizes(k) + [cursize + cursize / 2, cursize * 2];
      curcls := curcls + 2;
      cursize := cursize * 2;
      k := k + 1;
    }
    PowersGrow(k, n);
  }

  lemma FirstSizes(n: nat)
    requires n >= 7
    ensures Pow2(7) == 128 && |ClassSizes(7)| == 15 <= |ClassSizes(n)|
    ensures forall i :: 0 <= i < 15 ==> ClassSizes(7)[i] == 16 + 8 * i
  {
    SmallPowers();
  }

  lemma MoreSizes(k: nat, n: nat)
    requires 7 <= k <= n && Pow2(k) < Pow2(n)
    ensures k < n && |ClassSizes(k)| + 2 <= |ClassSizes(n)| && Pow2(k + 1) == 2 * Pow2(k)
    ensures ClassSizes(k + 1) == ClassSizes(k) + [Pow2(k) + Pow2(k) / 2, 2 * Pow2(k)]
  {
  }

  lemma {:induction false} PowersGrow(k: nat, n: nat)
    requires k <= n
    ensures k < n ==> Pow2(k) < Pow2(n)
    decreases n - k
  {
    if k < n {
      PowersGrow(k + 1, n);
    }
  }

  /** c is the class that fits sz: the least one whose size is not below sz. */
  ghost predicate Fits(s: seq<nat>, sz: nat, c: nat) {
    c < |s| && sz <= s[c] && forall d :: 0 <= d < c ==> s[d] < sz
  }

  /** The linear search that the two tables replace. */
  function FirstFit(s: seq<nat>, sz: nat, from: nat): (c: nat)
    requires from <= |s|
    ensures from <= c <= |s|
    decreases |s| - from
  {
    if from == |s| || sz <= s[from] then from else FirstFit(s, sz, from + 1)
  }

  lemma {:induction false} FirstFitFits(s: seq<nat>, sz: nat, from: nat, c: nat)
    requires Fits(s, sz, c) && from <= c
    ensures FirstFit(s, sz, from) == c
    decreases c - from
  {
    if from < c {
      FirstFitFits(s, sz, from + 1, c);
    }
  }

  /** On a ladder it is enough to look at the class below. */
  lemma {:induction false} FitsByNeighbour(s: seq<nat>, sz: nat, c: nat)
    requires Ladder(s) && c < |s| && sz <= s[c] && (c > 0 ==> s[c - 1] < sz)
    ensures Fits(s, sz, c)
  {
    forall d | 0 <= d < c
      ensures s[d] < sz
    {
      Rising(s, d, c - 1);
    }
  }

  lemma {:induction false} Rising(s: seq<nat>, d: nat, c: nat)
    requires Ladder(s) && d <= c < |s|
    ensures s[d] <= s[c]
    decreases c - d
  {
    if d < c {
      assert Rung(s, c);
      Rising(s, d, c - 1);
    }
  }

  /** The first loop of gen_size2cls. The entry 0 of the table is never written and
    * keeps its initial zero. */
  method FillTable8(ghost s: seq<nat>, cls2size: array<nat>, size2cls8: array<nat>) returns (curcls: nat)
    requires Ladder(s) && s[|s| - 1] >= 512 && cls2size != size2cls8
    requires |s| <= cls2size.Length && cls2size[..|s|] == s
    requires size2cls8.Length >= 64 && size2cls8[0] == 0
    modifies size2cls8
    ensures Fits(s, 512, curcls)
    ensures forall i :: 0 <= i < 64 ==> Fits(s, 8 * i + 8, size2cls8[i])
  {
    curcls := 0;
    var cursize := 16;
    assert Rung(s, 0) && Fits(s, 8, 0);
    while cursize <= 512
      invariant 16 <= cursize <= 520 && cursize % 8 == 0
      invariant Fits(s, cursize - 8, curcls)
      invariant cls2size[..|s|] == s
      invariant forall i :: 0 <= i < cursize / 8 - 1 ==> Fits(s, 8 * i + 8, size2cls8[i])
    {
      NextClass(s, cursize, 8, curcls);
      assert cls2size[curcls] == s[curcls];
      if cursize > cls2size[curcls] {
        curcls := curcls + 1;
      }
      size2cls8[(cursize - 1) / 8] := curcls;
      cursize := cursize + 8;
    }
  }

  /** The second loop of gen_size2cls, which starts with the class of 512 bytes. */
  method FillTable256(ghost s: seq<nat>, bound: nat, cls2size: array<nat>, size2cls512: array<nat>, start: nat)
    requires Ladder(s) && s[|s| - 1] == bound >= 512 && bound % 256 == 0 && Fits(s, 512, start) && start == 18
    requires cls2size != size2cls512 && |s| <= cls2size.Length && cls2size[..|s|] == s
    requires size2cls512.Length >= bound / 256
    modifies size2cls512
    ensures forall i :: 1 <= i < bound / 256 ==> Fits(s, 256 * i + 256, size2cls512[i])
  {
    var curcls := start;
    var cursize := 512;
    while cursize <= bound
      invariant 512 <= cursize <= bound + 256 && cursize % 256 == 0 && 18 <= curcls
      invariant Fits(s, if cursize == 512 then 512 else cursize - 256, curcls)
      invariant cls2size[..|s|] == s
      invariant forall i :: 1 <= i < cursize / 256 - 1 ==> Fits(s, 256 * i + 256, size2cls512[i])
    {
      if cursize > 512 {
        NextClass(s, cursize, 256, curcls);
      }
      assert cls2size[curcls] == s[curcls];
      if cursize > cls2size[curcls] {
        curcls := curcls + 1;
      }
      size2cls512[(cursize - 1) / 256] := curcls;
      cursize := cursize + 256;
    }
  }

  /** gen_size2cls: both tables hold, for each step, the class that fits its end. */
  method GenSize2Cls(n: nat, cls2size: array<nat>, size2cls8: array<nat>, size2cls512: array<nat>)
    requires n >= 9 && cls2size != size2cls8 && cls2size != size2cls512 && size2cls8 != size2cls512
    requires |ClassSizes(n)| <= cls2size.Length && cls2size[..|ClassSizes(n)|] == ClassSizes(n)
    requires size2cls8.Length >= 64 && size2cls512.Length >= Pow2(n) / 256 && size2cls8[0] == 0
    modifies size2cls8, size2cls512
    ensures forall i :: 0 <= i < 64 ==> Fits(ClassSizes(n), 8 * i + 8, size2cls8[i])
    ensures forall i :: 1 <= i < Pow2(n) / 256 ==> Fits(ClassSizes(n), 256 * i + 256, size2cls512[i])
  {
    ghost var s := ClassSizes(n);
    ClassSizesAreLadder(n);
    TopIsEnough(n);
    Class512(n);
    var curcls := FillTable8(s, cls2size, size2cls8);
    FirstFitFits(s, 512, 0, curcls);
    FirstFitFits(s, 512, 0, 18);
    FillTable256(s, Pow2(n), cls2size, size2cls512, curcls);
  }

  /** Within a step there is at most one class size, and it is where the step starts. */
  lemma NextClass(s: seq<nat>, cursize: nat, step: nat, c: nat)
    requires Ladder(s) && cursize <= s[|s| - 1]
    requires step == 8 || (step == 256 && c >= 18)
    requires cursize >= step && cursize % step == 0 && Fits(s, cursize - step, c)
    ensures cursize <= s[c] ==> Fits(s, cursize, c)
    ensures cursize > s[c] ==> Fits(s, cursize, c + 1)
  {
    assert Rung(s, c);
    if cursize > s[c] {
      assert s[c] % step == 0;
      assert c + 1 < |s|;
      assert Rung(s, c + 1);
      FitsByNeighbour(s, cursize, c + 1);
    } else {
      FitsByNeighbour(s, cursize, c);
    }
  }

  lemma TopIsEnough(n: nat)
    requires n >= 9
    ensures Pow2(n) >= 512 && Pow2(n) % 256 == 0
  {
    Pow2Factors(n);
  }

  lemma Class512(n: nat)
    requires n >= 9
    ensures Fits(ClassSizes(n), 512, 18)
  {
    ClassSizesAreLadder(n);
    assert Rung(ClassSizes(n), 18);
    FitsByNeighbour(ClassSizes(n), 512, 18);
  }

  /** size2cls over the generated tables, for the sizes that they cover. */
  function Lookup(table8: seq<nat>, table256: seq<nat>, sz: nat): nat
    requires 0 < sz && |table8| >= 64 && (sz > 512 ==> (sz - 1) / 256 < |table256|)
  {
    if sz <= 512 then table8[(sz - 1) / 8] else table256[(sz - 1) / 256]
  }

  /** A size fits the class of the end of its step. */
  lemma StepEnd(s: seq<nat>, sz: nat, step: nat, c: nat)
    requires Ladder(s) && sz > 0 && (step == 8 || (step == 256 && sz > 512 && |s| > 18 && s[18] == 512))
    requires Fits(s, (sz - 1) / step * step + step, c)
    ensures Fits(s, sz, c)
  {
    if step == 256 && c <= 18 {
      Rising(s, c, 18);
    }
    if c > 0 {
      assert Rung(s, c - 1);
    }
    FitsByNeighbour(s, sz, c);
  }

  /** The lookup in the two generated tables is the linear search for the least class
    * that is not below the size. */
  lemma LookupIsFirstFit(n: nat, table8: seq<nat>, table256: seq<nat>, sz: nat)
    requires n >= 9 && 0 < sz <= Pow2(n) && |table8| >= 64 && 256 * |table256| >= Pow2(n)
    requires forall i :: 0 <= i < 64 ==> Fits(ClassSizes(n), 8 * i + 8, table8[i])
    requires forall i :: 1 <= i < Pow2(n) / 256 ==> Fits(ClassSizes(n), 256 * i + 256, table256[i])
    ensures Lookup(table8, table256, sz) == FirstFit(ClassSizes(n), sz, 0)
    ensures Fits(ClassSizes(n), sz, Lookup(table8, table256, sz))
  {
    var s, c := ClassSizes(n), Lookup(table8, table256, sz);
    TopIsEnough(n);
    ClassSizesAreLadder(n);
    if sz <= 512 {
      StepEnd(s, sz, 8, c);
    } else {
      StepEnd(s, sz, 256, c);
    }
    FirstFitFits(s, sz, 0, c);
  }

  /** Above 128 bytes a class is less than one and a half times the request. */
  lemma LittleIsWasted(n: nat, sz: nat, c: nat)
    requires n >= 9 && sz > 128 && Fits(ClassSizes(n), sz, c)
    ensures 2 * ClassSizes(n)[c] < 3 * sz
  {
    var s := ClassSizes(n);
    ClassSizesAreLadder(n);
    FirstClasses(n);
    if c <= 14 {
      Rising(s, c, 14);
    }
    assert Rung(s, c);
  }

  lemma {:induction false} FirstClasses(n: nat)
    requires n >= 7
    ensures ClassSizes(n)[14] == 128
  {
    if n > 7 {
      FirstClasses(n - 1);
    }
  }
}
