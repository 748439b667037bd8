/** The arithmetic of make_human_readable_str in src/ls.c. */
module HumanReadable {
  import opened Arith

  /** KILOBYTE */
  const KILO := 1024

  /** What is printed: 0, a whole number, or a number with tenths and the letter of a unit,
    * which is the first, second, third or fourth of k, M, G, T. */
  datatype Text = Zero | Whole(val: nat) | Tenths(val: nat, frac: nat, unit: nat)

  function KiloPower(k: nat): (r: nat)
    ensures r > 0
  {
    if k == 0 then 1 else KILO * KiloPower(k - 1)
  }

  /** What is left of v after k divisions. */
  function Scaled(v: nat, k: nat): nat {
    v / KiloPower(k)
  }

  /** The tenths that a text shows. */
  function ShownTenths(text: Text): nat {
    match text
    case Zero => 0
    case Whole(val) => 10 * val
    case Tenths(val, frac, _) => 10 * val + frac
  }

  /** The tenths of w / 1024, rounded half up. */
  function TenthsOf(w: nat): nat {
    (10 * w + KILO / 2) / KILO
  }

  /** What is shown for v in the unit du: the nearest multiple, if adding half of the unit
    * does not wrap around, and nothing if it does. */
  ghost predicate IsRounded(text: Text, v: nat, du: nat) {
    text.Whole? && if v + du / 2 < 0x1_0000_0000_0000_0000 then IsNearest(text.val, v, du) else text.val == 0
  }

  /** val units are nearest to v; halfway between two multiples it is the larger one. */
  ghost predicate IsNearest(val: nat, v: nat, du: nat) {
    2 * val * du - du <= 2 * v < 2 * val * du + du
  }

  /** The branch in which the unit is chosen: the number itself below 1024; otherwise tenths
    * after as many divisions as leave less than 1024, but four at most. */
  ghost predicate IsScaled(text: Text, v: nat) {
    if v < KILO then text == Whole(v)
    else
      && text.Tenths? && 1 <= text.unit <= 4 && text.frac < 10
      && Scaled(v, text.unit - 1) >= KILO && (text.unit < 4 ==> Scaled(v, text.unit) < KILO)
      && ShownTenths(text) == TenthsOf(Scaled(v, text.unit - 1))
  }

  /** A number of size blocks, in the unit that is asked for, or else in the one that suits. */
  method MakeHumanReadable(size: nat, blockSize: nat, displayUnit: nat) returns (text: Text)
    requires size < WORD_RANGE && blockSize < WORD_RANGE && displayUnit < WORD_RANGE
    ensures text == Zero <==> size * blockSize % 0x1_0000_0000_0000_0000 == 0
    ensures text != Zero && displayUnit > 0 ==> IsRounded(text, size * blockSize % 0x1_0000_0000_0000_0000, displayUnit)
    ensures text != Zero && displayUnit == 0 ==> IsScaled(text, size * blockSize % 0x1_0000_0000_0000_0000)
  {
    hide IsScaled;
    var val := size * blockSize % WORD_RANGE;
    if val == 0 {
      return Zero;
    }
    if displayUnit > 0 {
      RoundedExactly(val, displayUnit);
      val := (val + displayUnit / 2) % WORD_RANGE;
      val := val / displayUnit;
      text := Whole(val);
    } else {
      text := SuitableUnit(val);
    }
  }

  /** The branch in which the unit is chosen. u is an index into the letters. */
  method SuitableUnit(v: nat) returns (text: Text)
    ensures IsScaled(text, v) && text != Zero
  {
    hide Scaled, TenthsOf;
    var val, frac, u, tenths := v, 0, 1, false;
    FirstPower(v);
    while val >= KILO && u < 5
      invariant 1 <= u <= 5 && val == Scaled(v, u - 1)
      invariant if u == 1 then !tenths && frac == 0 && val == v else tenths && v >= KILO
      invariant u > 1 ==> Scaled(v, u - 2) >= KILO && 10 * val + frac == TenthsOf(Scaled(v, u - 2)) && 0 <= frac <= 10
    {
      tenths := true;
      u := u + 1;
      frac := (val % KILO * 10 + KILO / 2) / KILO;
      TenthsSplit(val);
      NextPower(v, u - 2);
      val := val / KILO;
    }
    if frac >= 10 {
      val := val + 1;
      frac := 0;
    }
    text := if tenths then Tenths(val, frac, u - 1) else Whole(val);
  }

  lemma FirstPower(v: nat)
    ensures Scaled(v, 0) == v
  {
  }

  /** The tenths of the remainder complete those of the quotient. */
  lemma TenthsSplit(w: nat)
    ensures 10 * (w / KILO) + (w % KILO * 10 + KILO / 2) / KILO == TenthsOf(w)
    ensures 0 <= (w % KILO * 10 + KILO / 2) / KILO <= 10
  {
  }

  lemma NextPower(v: nat, k: nat)
    ensures Scaled(v, k) / KILO == Scaled(v, k + 1)
  {
    var p := KiloPower(k);
    var w, r := v / p, v % p;
    var q, m := w / KILO, w % KILO;
    assert v == w * p + r && w == q * KILO + m;
    Expand(q, m, p, r);
    RestFits(m, p, r);
    UniqueQuotient(v, KILO * p, q, m * p + r);
  }

  lemma Expand(q: nat, m: nat, p: nat, r: nat)
    ensures (q * KILO + m) * p + r == q * (KILO * p) + (m * p + r)
  {
  }

  lemma RestFits(m: nat, p: nat, r: nat)
    requires m < KILO && r < p
    ensures m * p + r < KILO * p
  {
    Bound(m, KILO - 1, p);
  }

  /** Rounding in a given unit is to the nearest multiple exactly if adding half of the unit
    * does not wrap around; if it does, nothing is left of the number. */
  lemma RoundedExactly(v: nat, du: nat)
    requires 0 < v < WORD_RANGE && 0 < du < WORD_RANGE
    ensures var val := (v + du / 2) % WORD_RANGE / du;
      && (IsNearest(val, v, du) <==> v + du / 2 < WORD_RANGE)
      && (v + du / 2 >= WORD_RANGE ==> val == 0)
  {
    if v + du / 2 < WORD_RANGE {
      var q := (v + du / 2) / du;
      assert q * du <= v + du / 2 < q * du + du;
    } else {
      assert (v + du / 2) % WORD_RANGE == v + du / 2 - WORD_RANGE < du;
      UniqueQuotient(v + du / 2 - WORD_RANGE, du, 0, v + du / 2 - WORD_RANGE);
    }
  }

  /** k, M, G, T */
  function Unit(unit: nat): nat {
    match unit
    case 1 => 1024
    case 2 => 1048576
    case 3 => 1073741824
    case _ => 1099511627776
  }

  lemma UnitIsPower(unit: nat)
    requires 1 <= unit <= 4
    ensures KiloPower(unit) == Unit(unit) && KiloPower(unit - 1) == Unit(unit) / 1024
  {
    assert KiloPower(0) == 1 && KiloPower(1) == 1024 && KiloPower(2) == 1048576;
    assert KiloPower(3) == 1073741824;
  }

  /** The unit that is chosen is the largest one that is not above the number, which is shown as it
    * is below the first one. What is shown is less than 1/2 + 10/1024 of a tenth below the number
    * and at most 1/2 of a tenth above it. */
  lemma ShownIsClose(text: Text, v: nat)
    requires IsScaled(text, v)
    ensures v < 1024 ==> text == Whole(v)
    ensures v >= 1024 ==>
              && text.Tenths? && 1 <= text.unit <= 4 && text.frac < 10
              && Unit(text.unit) <= v && (text.unit < 4 ==> v < Unit(text.unit + 1))
              && (var u := Unit(text.unit);
                  10 * v - 522 * (u / 1024) < u * (10 * text.val + text.frac) <= 10 * v + 512 * (u / 1024))
  {
    if v >= 1024 {
      UnitIsPower(text.unit);
      var p := KiloPower(text.unit - 1);
      var w, t := v / p, ShownTenths(text);
      assert 10 * w + 512 - 1024 < 1024 * t <= 10 * w + 512;
      Scale(v, p, w, t);
      AtLeast(v, p, 1024);
      if text.unit < 4 {
        UnitIsPower(text.unit + 1);
        Below(v, KiloPower(text.unit), 1024);
      }
    }
  }

  lemma AtLeast(v: nat, p: nat, n: nat)
    requires p > 0 && v / p >= n
    ensures n * p <= v
  {
    Bound(n, v / p, p);
  }

  lemma Below(v: nat, p: nat, n: nat)
    requires p > 0 && v / p < n
    ensures v < n * p
  {
    Bound(v / p + 1, n, p);
    assert v < (v / p + 1) * p by {
      assert v == v / p * p + v % p;
    }
  }

  lemma Scale(v: nat, p: nat, w: nat, t: nat)
    requires p > 0 && w == v / p && 10 * w - 512 < 1024 * t <= 10 * w + 512
    ensures 10 * v - 522 * p < 1024 * p * t <= 10 * v + 512 * p
  {
    assert w * p <= v < w * p + p;
    Bound(1024 * t, 10 * w + 512, p);
    Bound(10 * w - 512, 1024 * t, p);
    Spread(w, p);
    assert 1024 * t * p == 1024 * p * t;
  }

  lemma Bound(x: int, y: int, p: nat)
    requires x <= y
    ensures x * p <= y * p
  {
  }

  lemma Spread(w: nat, p: nat)
    ensures (10 * w + 512) * p == 10 * (w * p) + 512 * p
    ensures (10 * w - 512) * p == 10 * (w * p) - 512 * p
  {
  }
}
