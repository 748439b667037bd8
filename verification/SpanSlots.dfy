/** The block slots of a span: where they lie, and how GET_HEADER finds the span again. */
module SpanSlots {
  import opened Arith
  import opened SizeTables
  import opened SpanSpec

  /** The address of slot j of the span at h. */
  function Slot(h: nat, blkSize: nat, j: nat): nat {
    h + HEADER + j * blkSize
  }

  /** b is one of the first n slots. */
  ghost predicate IsSlot(h: nat, blkSize: nat, n: nat, b: nat) {
    exists j: nat :: j < n && b == Slot(h, blkSize, j)
  }

  /** A block lies wholly in the data area of the span. */
  lemma SlotInData(h: nat, blkSize: nat, j: nat)
    requires 0 < blkSize && j < Capacity(blkSize)
    ensures h + HEADER <= Slot(h, blkSize, j) && Slot(h, blkSize, j) + blkSize <= h + HEADER + DATA == h + SPAN
  {
    var cap := Capacity(blkSize);
    Product(j + 1, cap, blkSize);
    Times(cap, blkSize);
  }

  lemma Times(cap: nat, d: nat)
    requires 0 < d && cap == DATA / d
    ensures cap * d <= DATA < cap * d + d
  {
  }

  lemma Product(i: nat, j: nat, d: nat)
    requires i <= j
    ensures i * d <= j * d
  {
  }

  /** One slot past the last one would not fit. */
  lemma NoSlotBehindLast(h: nat, blkSize: nat)
    requires 0 < blkSize
    ensures Slot(h, blkSize, Capacity(blkSize)) + blkSize > h + SPAN
  {
    Times(Capacity(blkSize), blkSize);
  }

  lemma SlotsAreApart(h: nat, blkSize: nat, i: nat, j: nat)
    requires i < j
    ensures Slot(h, blkSize, i) + blkSize <= Slot(h, blkSize, j)
  {
    Product(i + 1, j, blkSize);
  }

  lemma SlotIsInjective(h: nat, blkSize: nat, i: nat, j: nat)
    requires 0 < blkSize && Slot(h, blkSize, i) == Slot(h, blkSize, j)
    ensures i == j
  {
    if i < j {
      SlotsAreApart(h, blkSize, i, j);
    } else if j < i {
      SlotsAreApart(h, blkSize, j, i);
    }
  }

  /** GET_HEADER of any byte behind an aligned header and within the span is the header. */
  lemma HeaderOfByte(h: nat, p: nat)
    requires h % SPAN == 0 && h <= p < h + SPAN
    ensures GetHeader(p) == h
  {
    var q := h / SPAN;
    UniqueQuotient(p, SPAN, q, p - h);
  }

  lemma HeaderOfSlot(h: nat, blkSize: nat, j: nat)
    requires h % SPAN == 0 && 0 < blkSize && j < Capacity(blkSize)
    ensures GetHeader(Slot(h, blkSize, j)) == h
  {
    SlotInData(h, blkSize, j);
    HeaderOfByte(h, Slot(h, blkSize, j));
  }

  /** Two aligned headers are at least a span apart. */
  lemma AlignedAreApart(h: nat, g: nat)
    requires h % SPAN == 0 && g % SPAN == 0 && h < g
    ensures h + SPAN <= g
  {
  }

  lemma CapacityIsPositive(c: nat)
    requires c < CLASSES
    ensures 16 <= Cls2Size(c) && Capacity(Cls2Size(c)) >= 1
  {
    SizesRise(0, c);
    SizesRise(c, CLASSES - 1);
    Times(Capacity(Cls2Size(c)), Cls2Size(c));
  }
}
