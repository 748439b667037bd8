/** The size classes of src/wlmalloc.c. */
module SizeTables {
  import Arith
  import SizeClass

  /** DEFAULT_CLASS_NUM */
  const CLASSES := 29

  /** LARGE_CLASS */
  const LARGE := 31

  const MAX_SMALL := 16384

  /** cls2size, whose first fifteen entries are steps of 8. */
  function Cls2Size(c: nat): nat
    requires c < CLASSES
  {
    if c < 15 then 16 + 8 * c
    else [192, 256, 384, 512, 768, 1024, 1536, 2048, 3072, 4096, 6144, 8192, 12288, 16384][c - 15]
  }

  /** sizemap8, by the runs of equal entries. */
  function SizeMap8(i: nat): nat
    requires i < 64
  {
    if i < 2 then 0 else if i < 16 then i - 1 else if i < 24 then 15 else if i < 32 then 16 else if i < 48 then 17 else 18
  }

  /** sizemap256, by the runs of equal entries. */
  function SizeMap256(i: nat): nat
    requires i < 64
  {
    if i == 0 then 0 else if i < 4 then 17 + i else if i < 6 then 21 else if i < 8 then 22 else if i < 12 then 23
    else if i < 16 then 24 else if i < 24 then 25 else if i < 32 then 26 else if i < 48 then 27 else 28
  }

  /** size2cls */
  function Size2Cls(sz: nat): nat
    requires sz > 0
  {
    if sz <= 512 then SizeMap8((sz - 1) / 8) else if sz <= MAX_SMALL then SizeMap256((sz - 1) / 256) else LARGE
  }

  /** A small request gets the least class that holds it; every other one is large. */
  lemma Size2ClsFits(sz: nat)
    requires sz > 0
    ensures var c := Size2Cls(sz);
      if sz <= 16384 then c < 29 && sz <= Cls2Size(c) && forall d :: 0 <= d < c ==> Cls2Size(d) < sz
      else c == 31
  {
    if sz <= MAX_SMALL {
      var c := Size2Cls(sz);
      forall d | 0 <= d < c
        ensures Cls2Size(d) < sz
      {
        SizesRise(d, c - 1);
      }
    }
  }

  lemma {:induction false} SizesRise(d: nat, c: nat)
    requires d <= c < CLASSES
    ensures 16 <= Cls2Size(d) <= Cls2Size(c) <= MAX_SMALL
    decreases c - d
  {
    if d < c {
      SizesRise(d, c - 1);
    }
  }

  /** The classes of the allocator are those that the generator makes for 2^14. */
  lemma ClassesAreGenerated(c: nat)
    requires c < CLASSES
    ensures Cls2Size(c) == SizeClass.ClassSizes(14)[c]
  {
    SizeClass.SmallPowers();
    Doubling(8, 128);
    Doubling(9, 256);
    Doubling(10, 512);
    Doubling(11, 1024);
    Doubling(12, 2048);
    Doubling(13, 4096);
    Doubling(14, 8192);
  }

  lemma Doubling(n: nat, half: nat)
    requires n > 7 && Arith.Pow2(n - 1) == half
    ensures Arith.Pow2(n) == 2 * half
    ensures SizeClass.ClassSizes(n) == SizeClass.ClassSizes(n - 1) + [half + half / 2, 2 * half]
  {
  }

  /** So the shipped lookup is the linear search through the generated sizes. */
  lemma LookupIsGenerated(sz: nat)
    requires 0 < sz <= MAX_SMALL
    ensures Size2Cls(sz) == SizeClass.FirstFit(SizeClass.ClassSizes(14), sz, 0)
  {
    var c, s := Size2Cls(sz), SizeClass.ClassSizes(14);
    Size2ClsFits(sz);
    ClassesAreGenerated(c);
    forall d | 0 <= d < c
      ensures s[d] < sz
    {
      ClassesAreGenerated(d);
    }
    SizeClass.FirstFitFits(s, sz, 0, c);
  }
}
