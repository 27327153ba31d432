/** Estimating how many rows of a column lie in a range from a histogram of its values.  Values are
    integers, ratios are reals. */
module Histogram {
  import opened Options

  datatype Bucket = Bucket(start: int, end: int, size: int, distinct: int)

  predicate WellFormed(b: Bucket) { b.start <= b.end && b.size >= 0 && b.distinct >= 1 }

  /** Buckets in order, with no value in two of them. */
  predicate Disjoint(bs: seq<Bucket>) {
    && (forall i :: 0 <= i < |bs| ==> WellFormed(bs[i]))
    && (forall i, j :: 0 <= i < j < |bs| ==> bs[i].end < bs[j].start)
  }

  function Ceil(x: real): int { -((-x).Floor) }

  function Clamp(ratio: real, least: real): real {
    var r := if ratio > 1.0 then 1.0 else ratio;
    if r < least then least else r
  }

  /** calc_fraction: the place of a value in a bucket. */
  function Fraction(b: Bucket, v: int): real
    requires b.start != b.end
  {
    (v - b.start) as real / (b.end - b.start) as real
  }

  /** calc_scalar: the rows of a bucket between lower and upper.  The bounds fall into a bucket only
      if it holds more than one value, so the fraction is defined. */
  function Scalar(lower: int, upper: int, b: Bucket): (n: int)
    requires WellFormed(b)
    ensures 0 <= n <= b.size
    ensures lower > b.end || upper < b.start ==> n == 0
    ensures lower <= b.start && b.end <= upper ==> n == b.size
  {
    var least := 1.0 / b.distinct as real;
    var count :=
      if lower <= b.start && upper >= b.end then b.size
      else if lower > b.end || upper < b.start then 0
      else if lower <= b.start then Rows(b.size, Clamp(Fraction(b, upper), least))
      else if upper >= b.end then Rows(b.size, 1.0 - Clamp(Fraction(b, lower), least))
      else Rows(b.size, Clamp(Fraction(b, upper) - Fraction(b, lower), least));
    if count < 0 then 0 else count
  }

  function Rows(size: int, ratio: real): (n: int)
    requires size >= 0 && 0.0 <= ratio <= 1.0
    ensures 0 <= n <= size
  {
    Ceil(size as real * ratio)
  }

  /** Every bucket's share. */
  function Total(lower: int, upper: int, bs: seq<Bucket>): (n: int)
    requires forall i :: 0 <= i < |bs| ==> WellFormed(bs[i])
    ensures n >= 0
  {
    if bs == [] then 0 else Total(lower, upper, bs[..|bs| - 1]) + Scalar(lower, upper, bs[|bs| - 1])
  }

  /** The rows of the buckets that a range overlaps. */
  function Overlapped(lower: int, upper: int, bs: seq<Bucket>): int {
    if bs == [] then 0
    else
      var b := bs[|bs| - 1];
      Overlapped(lower, upper, bs[..|bs| - 1]) + if lower <= b.end && upper >= b.start then b.size else 0
  }

  function AllRows(bs: seq<Bucket>): int {
    if bs == [] then 0 else AllRows(bs[..|bs| - 1]) + bs[|bs| - 1].size
  }

  lemma {:induction false} NothingBelow(lower: int, upper: int, bs: seq<Bucket>)
    requires forall i :: 0 <= i < |bs| ==> WellFormed(bs[i]) && bs[i].end < lower
    ensures Total(lower, upper, bs) == 0
  {
    if bs != [] {
      NothingBelow(lower, upper, bs[..|bs| - 1]);
    }
  }

  lemma {:induction false} NothingAbove(lower: int, upper: int, bs: seq<Bucket>, n: nat)
    requires n <= |bs| && forall i :: 0 <= i < |bs| ==> WellFormed(bs[i])
    requires forall i :: n <= i < |bs| ==> upper < bs[i].start
    ensures Total(lower, upper, bs) == Total(lower, upper, bs[..n])
    decreases |bs|
  {
    if n < |bs| {
      var front := bs[..|bs| - 1];
      NothingAbove(lower, upper, front, n);
      assert front[..n] == bs[..n];
    } else {
      assert bs[..n] == bs;
    }
  }

  /** The estimate lies between nothing and the rows of the overlapped buckets. */
  lemma {:induction false} TotalIsBounded(lower: int, upper: int, bs: seq<Bucket>)
    requires forall i :: 0 <= i < |bs| ==> WellFormed(bs[i])
    ensures 0 <= Total(lower, upper, bs) <= Overlapped(lower, upper, bs) <= AllRows(bs)
  {
    if bs != [] {
      TotalIsBounded(lower, upper, bs[..|bs| - 1]);
    }
  }

  /** A range that covers all buckets counts all rows. */
  lemma {:induction false} CoveringCountsAll(lower: int, upper: int, bs: seq<Bucket>)
    requires forall i :: 0 <= i < |bs| ==> WellFormed(bs[i]) && lower <= bs[i].start && bs[i].end <= upper
    ensures Total(lower, upper, bs) == AllRows(bs)
  {
    if bs != [] {
      CoveringCountsAll(lower, upper, bs[..|bs| - 1]);
    }
  }

  // ----- What a part of a bucket counts for, in whole numbers

  /** n is num / den of the size, rounded up. */
  predicate Share(n: int, size: int, num: int, den: int) {
    (n - 1) * den < size * num <= n * den
  }

  lemma RowsAreShare(size: nat, num: int, den: int, ratio: real)
    requires 0 <= num <= den && den > 0 && ratio * den as real == num as real && 0.0 <= ratio <= 1.0
    ensures Share(Rows(size, ratio), size, num, den)
  {
    hide Rows;
    var n := Rows(size, ratio);
    RowsAreCeiling(size, ratio);
    ScaleBetween((n - 1) as real, n as real, size as real, ratio, num as real, den as real);
    CastProduct(size, num);
    CastProduct(n - 1, den);
    CastProduct(n, den);
  }

  lemma RowsAreCeiling(size: nat, ratio: real)
    requires 0.0 <= ratio <= 1.0
    ensures var n := Rows(size, ratio); (n - 1) as real < size as real * ratio <= n as real
  {
  }

  lemma ScaleBetween(low: real, high: real, size: real, ratio: real, num: real, den: real)
    requires low < size * ratio <= high && ratio * den == num && den > 0.0
    ensures low * den < size * num <= high * den
  {
    var x := size * ratio;
    assert x * den == size * (ratio * den);
    ScaleOrder(low, x, den);
    ScaleUp(x, high, den);
  }

  lemma CastProduct(a: int, b: int)
    ensures (a * b) as real == a as real * b as real
  {
  }

  lemma ScaleOrder(x: real, y: real, d: real)
    requires x < y && d > 0.0
    ensures x * d < y * d
  {
    var e := (y - x) * d;
    assert e > 0.0 && y * d - x * d == e;
  }

  lemma ScaleUp(x: real, y: real, d: real)
    requires x <= y && d > 0.0
    ensures x * d <= y * d
  {
    if x < y { ScaleOrder(x, y, d); }
  }

  function Ratio(a: int, w: int): real
    requires w > 0
  {
    a as real / w as real
  }

  lemma RatioTimes(a: int, w: int)
    requires w > 0
    ensures Ratio(a, w) * w as real == a as real
    ensures 0 <= a ==> 0.0 <= Ratio(a, w)
    ensures a <= w ==> Ratio(a, w) <= 1.0
  {
  }

  /** x / w against 1 / d. */
  lemma CrossMultiply(x: real, a: real, w: real, y: real, d: real)
    requires w > 0.0 && d > 0.0 && x * w == a && y * d == 1.0
    ensures x < y <==> a * d < w
  {
    var z := w * d;
    assert z > 0.0;
    assert x * z == (x * w) * d;
    assert y * z == (y * d) * w;
    if x < y {
      ScaleOrder(x, y, z);
    } else {
      ScaleUp(y, x, z);
    }
  }

  lemma RatioOrder(a: int, w: int, d: int)
    requires w > 0 && d > 0
    ensures Ratio(a, w) < Ratio(1, d) <==> a * d < w
  {
    hide Ratio;
    RatioTimes(a, w);
    RatioTimes(1, d);
    CastProduct(a, d);
    CrossMultiply(Ratio(a, w), a as real, w as real, Ratio(1, d), d as real);
  }

  /** A part a of w of the bucket's values counts for a / w of its rows, but for no less than one distinct
      value. */
  lemma ClampedShare(b: Bucket, a: int, w: int)
    requires WellFormed(b) && w > 0 && a <= w
    ensures var ratio := Clamp(Ratio(a, w), Ratio(1, b.distinct));
            && 0.0 <= ratio <= 1.0
            && if a * b.distinct >= w then Share(Rows(b.size, ratio), b.size, a, w)
               else Share(Rows(b.size, ratio), b.size, 1, b.distinct)
  {
    hide Ratio, Rows, Share;
    var d := b.distinct;
    RatioTimes(a, w);
    RatioTimes(1, d);
    RatioOrder(a, w, d);
    if a * d >= w {
      NotNegative(a, w, d);
      RowsAreShare(b.size, a, w, Ratio(a, w));
    } else {
      RowsAreShare(b.size, 1, d, Ratio(1, d));
    }
  }

  lemma NotNegative(a: int, w: int, d: int)
    requires a * d >= w > 0 && d > 0
    ensures a > 0
  {
  }

  /** From the start of a bucket to inside it. */
  lemma FrontShare(lower: int, upper: int, b: Bucket)
    requires WellFormed(b) && lower <= b.start <= upper < b.end
    ensures var a, w := upper - b.start, b.end - b.start;
            if a * b.distinct >= w then Share(Scalar(lower, upper, b), b.size, a, w)
            else Share(Scalar(lower, upper, b), b.size, 1, b.distinct)
  {
    hide Rows, Share, Clamp;
    ClampedShare(b, upper - b.start, b.end - b.start);
  }

  /** Strictly inside. */
  lemma InnerShare(lower: int, upper: int, b: Bucket)
    requires WellFormed(b) && b.start < lower <= b.end && b.start <= upper < b.end
    ensures var a, w := upper - lower, b.end - b.start;
            if a * b.distinct >= w then Share(Scalar(lower, upper, b), b.size, a, w)
            else Share(Scalar(lower, upper, b), b.size, 1, b.distinct)
  {
    hide Rows, Share, Clamp;
    var a, w := upper - lower, b.end - b.start;
    Difference(upper - b.start, lower - b.start, w);
    ClampedShare(b, a, w);
  }

  lemma Difference(x: int, y: int, w: int)
    requires w > 0
    ensures Ratio(x, w) - Ratio(y, w) == Ratio(x - y, w)
  {
  }

  /** From inside a bucket to its end: what is in front counts for at least one distinct value. */
  lemma BackShare(lower: int, upper: int, b: Bucket)
    requires WellFormed(b) && b.start < lower <= b.end <= upper
    ensures var a, w := lower - b.start, b.end - b.start;
            if a * b.distinct >= w then Share(Scalar(lower, upper, b), b.size, w - a, w)
            else Share(Scalar(lower, upper, b), b.size, b.distinct - 1, b.distinct)
  {
    hide Rows, Share;
    var a, w, d := lower - b.start, b.end - b.start, b.distinct;
    RatioTimes(a, w);
    RatioTimes(1, d);
    RatioOrder(a, w, d);
    if a * d >= w {
      Rest(Ratio(a, w), a as real, w as real);
      RowsAreShare(b.size, w - a, w, 1.0 - Ratio(a, w));
    } else {
      Rest(Ratio(1, d), 1.0, d as real);
      RowsAreShare(b.size, d - 1, d, 1.0 - Ratio(1, d));
    }
  }

  lemma Rest(part: real, a: real, w: real)
    requires part * w == a
    ensures (1.0 - part) * w == w - a
  {
  }

  // ----- How the estimate grows

  lemma RowsMonotone(size: int, r: real, s: real)
    requires size >= 0 && 0.0 <= r <= s <= 1.0
    ensures Rows(size, r) <= Rows(size, s)
  {
    Product(size as real, s - r);
    assert size as real * s - size as real * r == size as real * (s - r);
  }

  lemma Product(x: real, y: real)
    requires x >= 0.0 && y >= 0.0
    ensures x * y >= 0.0
  {
  }

  lemma FractionMonotone(b: Bucket, v: int, w: int)
    requires b.start < b.end && v <= w
    ensures Fraction(b, v) <= Fraction(b, w)
  {
  }

  /** From below a bucket, a larger upper bound never counts fewer of its rows. */
  lemma PrefixGrows(lower: int, u1: int, u2: int, b: Bucket)
    requires WellFormed(b) && lower <= b.start && u1 <= u2
    ensures Scalar(lower, u1, b) <= Scalar(lower, u2, b)
  {
    if b.start <= u1 && u2 < b.end {
      FractionMonotone(b, u1, u2);
      var least := 1.0 / b.distinct as real;
      RowsMonotone(b.size, Clamp(Fraction(b, u1), least), Clamp(Fraction(b, u2), least));
    }
  }

  /** From inside a bucket it need not: a range within the bucket counts for at least one distinct
      value, but not one that reaches its end. */
  lemma EstimateDropsAtEnd(b: Bucket)
    requires b == Bucket(0, 10, 10, 2)
    ensures Scalar(9, 9, b) == 5 && Scalar(9, 10, b) == 1 && !GrowsAtEnd(b, 9)
  {
  }

  predicate Inside(b: Bucket, lower: int) { b.start < lower < b.end }

  function Least(b: Bucket): real
    requires b.distinct >= 1
  {
    1.0 / b.distinct as real
  }

  /** The shares of a range from `lower` that stops just short of the bucket's end, and of one that
      reaches it. */
  function ShortRatio(b: Bucket, lower: int): real
    requires WellFormed(b) && Inside(b, lower)
  {
    Clamp(Fraction(b, b.end - 1) - Fraction(b, lower), Least(b))
  }

  function EndRatio(b: Bucket, lower: int): real
    requires WellFormed(b) && Inside(b, lower)
  {
    1.0 - Clamp(Fraction(b, lower), Least(b))
  }

  /** Reaching the end does not lose rows. */
  predicate GrowsAtEnd(b: Bucket, lower: int)
    requires WellFormed(b) && Inside(b, lower)
  {
    Rows(b.size, ShortRatio(b, lower)) <= Rows(b.size, EndRatio(b, lower))
  }

  lemma SharesAtEnd(b: Bucket, lower: int, upper: int)
    requires WellFormed(b) && Inside(b, lower)
    ensures 0.0 <= ShortRatio(b, lower) <= 1.0 && 0.0 <= EndRatio(b, lower) <= 1.0
    ensures Scalar(lower, b.end - 1, b) == Rows(b.size, ShortRatio(b, lower))
    ensures upper >= b.end ==> Scalar(lower, upper, b) == Rows(b.size, EndRatio(b, lower))
  {
  }

  lemma GrowsInside(b: Bucket, lower: int, u1: int, u2: int)
    requires WellFormed(b) && Inside(b, lower) && lower <= u1 <= u2 < b.end
    ensures Scalar(lower, u1, b) <= Scalar(lower, u2, b)
  {
    FractionMonotone(b, u1, u2);
    var f := Fraction(b, lower);
    RowsMonotone(b.size, Clamp(Fraction(b, u1) - f, Least(b)), Clamp(Fraction(b, u2) - f, Least(b)));
  }

  lemma InsideGrows(b: Bucket, lower: int, u1: int, u2: int)
    requires WellFormed(b) && Inside(b, lower) && GrowsAtEnd(b, lower) && lower <= u1 <= u2
    ensures Scalar(lower, u1, b) <= Scalar(lower, u2, b)
  {
    SharesAtEnd(b, lower, u1);
    SharesAtEnd(b, lower, u2);
    hide Scalar, GrowsAtEnd;
    if u2 < b.end {
      GrowsInside(b, lower, u1, u2);
    } else if u1 < b.end {
      GrowsInside(b, lower, u1, b.end - 1);
      EndGuard(b, lower);
    }
  }

  lemma EndGuard(b: Bucket, lower: int)
    requires WellFormed(b) && Inside(b, lower)
    ensures GrowsAtEnd(b, lower) <==> Scalar(lower, b.end - 1, b) <= Scalar(lower, b.end, b)
  {
    SharesAtEnd(b, lower, b.end);
  }

  /** The estimate for ranges from inside a bucket grows with the upper bound exactly when reaching
      the bucket's end loses no rows. */
  lemma InsideGrowsIff(b: Bucket, lower: int)
    requires WellFormed(b) && Inside(b, lower)
    ensures GrowsAtEnd(b, lower) <==>
            forall u1, u2 :: lower <= u1 <= u2 ==> Scalar(lower, u1, b) <= Scalar(lower, u2, b)
  {
    hide Scalar, GrowsAtEnd;
    if GrowsAtEnd(b, lower) {
      forall u1, u2 | lower <= u1 <= u2 ensures Scalar(lower, u1, b) <= Scalar(lower, u2, b) {
        InsideGrows(b, lower, u1, u2);
      }
    }
    EndGuard(b, lower);
  }

  /** The share of one distinct value fits behind the place of the lower bound, twice into the bucket,
      and in front of that place with one more step. */
  predicate Fits(b: Bucket, lower: int)
    requires WellFormed(b) && Inside(b, lower)
  {
    var place, step := Fraction(b, lower), 1.0 / (b.end - b.start) as real;
    Least(b) + place <= 1.0 && 2.0 * Least(b) <= 1.0 && Least(b) <= place + step
  }

  lemma Places(b: Bucket, lower: int)
    requires WellFormed(b) && Inside(b, lower)
    ensures 0.0 < Fraction(b, lower) < 1.0
    ensures Fraction(b, b.end - 1) == 1.0 - 1.0 / (b.end - b.start) as real
  {
    var d := (b.end - b.start) as real;
    assert (b.end - 1 - b.start) as real == d - 1.0;
    assert (d - 1.0) / d == 1.0 - 1.0 / d;
  }

  lemma FitsIff(b: Bucket, lower: int)
    requires WellFormed(b) && Inside(b, lower)
    ensures ShortRatio(b, lower) <= EndRatio(b, lower) <==> Fits(b, lower)
  {
    Places(b, lower);
    hide Fraction;
    assert 1.0 / (b.end - b.start) as real > 0.0;
  }

  /** Of a larger ratio there is a size with more rows. */
  lemma RatioShows(r: real, q: real) returns (n: nat)
    requires 0.0 <= q < r <= 1.0
    ensures Rows(n, q) < Rows(n, r)
  {
    var d := r - q;
    n := (1.0 / d).Floor + 1;
    var x := n as real;
    assert x > 1.0 / d;
    Exceeds(x, d);
    assert x * r == x * q + x * d;
    CeilGap(x * q, x * r);
  }

  lemma CeilGap(x: real, y: real)
    requires x + 1.0 < y
    ensures Ceil(x) < Ceil(y)
  {
    assert Ceil(x) as real < x + 1.0 && y <= Ceil(y) as real;
  }

  lemma Exceeds(x: real, d: real)
    requires d > 0.0 && x > 1.0 / d
    ensures x * d > 1.0
  {
    Scaled(x, 1.0 / d, d);
  }

  lemma Scaled(x: real, i: real, d: real)
    requires i * d == 1.0 && x > i && d > 0.0
    ensures x * d > 1.0
  {
    var e := x - i;
    var p, q := e * d, i * d;
    assert p > 0.0 && q == 1.0;
    assert e + i == x;
    assert (e + i) * d == p + q;
    assert x * d == p + q;
  }

  /** For buckets of every size that is so exactly when the share of one distinct value fits. */
  lemma GrowsAtEndIff(b: Bucket, lower: int)
    requires WellFormed(b) && Inside(b, lower)
    ensures (forall n: nat :: GrowsAtEnd(b.(size := n), lower)) <==> Fits(b, lower)
  {
    FitsIff(b, lower);
    var r, q := ShortRatio(b, lower), EndRatio(b, lower);
    forall n: nat ensures GrowsAtEnd(b.(size := n), lower) <==> Rows(n, r) <= Rows(n, q) {
      assert ShortRatio(b.(size := n), lower) == r && EndRatio(b.(size := n), lower) == q;
    }
    hide GrowsAtEnd, Rows, ShortRatio, EndRatio, Fits;
    if r <= q {
      forall n: nat ensures GrowsAtEnd(b.(size := n), lower) {
        RowsMonotone(n, r, q);
      }
    } else {
      var n := RatioShows(r, q);
      assert !GrowsAtEnd(b.(size := n), lower);
    }
  }

  // ----- Over all buckets

  /** From the lower bound on, no bucket's share falls as the upper bound grows. */
  predicate GrowsFrom(b: Bucket, lower: int)
    requires WellFormed(b)
  {
    Inside(b, lower) ==> GrowsAtEnd(b, lower)
  }

  lemma ShareGrows(b: Bucket, lower: int, u1: int, u2: int)
    requires WellFormed(b) && GrowsFrom(b, lower) && lower <= u1 <= u2
    ensures Scalar(lower, u1, b) <= Scalar(lower, u2, b)
  {
    if lower <= b.start {
      PrefixGrows(lower, u1, u2, b);
    } else if lower < b.end {
      InsideGrows(b, lower, u1, u2);
    }
  }

  lemma {:induction false} AllSharesGrow(bs: seq<Bucket>, lower: int, u1: int, u2: int)
    requires forall i :: 0 <= i < |bs| ==> WellFormed(bs[i]) && GrowsFrom(bs[i], lower)
    requires lower <= u1 <= u2
    ensures Total(lower, u1, bs) <= Total(lower, u2, bs)
  {
    hide Scalar, GrowsFrom;
    if bs != [] {
      AllSharesGrow(bs[..|bs| - 1], lower, u1, u2);
      ShareGrows(bs[|bs| - 1], lower, u1, u2);
    }
  }

  /** A range within bucket k counts that bucket alone. */
  lemma OnlyBucket(bs: seq<Bucket>, k: nat, lower: int, upper: int)
    requires Disjoint(bs) && k < |bs| && bs[k].start < lower && upper <= bs[k].end
    ensures Total(lower, upper, bs) == Scalar(lower, upper, bs[k])
  {
    hide Scalar;
    NothingAbove(lower, upper, bs, k + 1);
    assert bs[..k + 1][..k] == bs[..k];
    NothingBelow(lower, upper, bs[..k]);
  }

  /** The estimate for ranges from a lower bound grows with the upper bound exactly when the bound
      falls into no bucket, or into one whose end loses no rows. */
  lemma TotalGrowsIff(bs: seq<Bucket>, lower: int)
    requires Disjoint(bs)
    ensures (forall i :: 0 <= i < |bs| ==> GrowsFrom(bs[i], lower)) <==>
            forall u1, u2 :: lower <= u1 <= u2 ==> Total(lower, u1, bs) <= Total(lower, u2, bs)
  {
    hide Scalar, GrowsAtEnd;
    if forall i :: 0 <= i < |bs| ==> GrowsFrom(bs[i], lower) {
      forall u1, u2 | lower <= u1 <= u2 ensures Total(lower, u1, bs) <= Total(lower, u2, bs) {
        AllSharesGrow(bs, lower, u1, u2);
      }
    } else {
      var i :| 0 <= i < |bs| && !GrowsFrom(bs[i], lower);
      var e := bs[i].end;
      EndGuard(bs[i], lower);
      OnlyBucket(bs, i, lower, e - 1);
      OnlyBucket(bs, i, lower, e);
      assert Total(lower, e - 1, bs) > Total(lower, e, bs);
    }
  }

  // ----- The walk

  /** std::map::upper_bound on the starts, as a position. */
  function UpperBound(bs: seq<Bucket>, v: int): (n: nat)
    ensures n <= |bs|
    ensures n < |bs| ==> bs[n].start > v
    ensures forall i :: 0 <= i < n ==> bs[i].start <= v
  {
    if bs == [] || bs[0].start > v then 0 else 1 + UpperBound(bs[1..], v)
  }

  /** get_count: the walk back from the last bucket that starts in the range, until one ends before
      it, counts every bucket's share. */
  method GetCount(bs: seq<Bucket>, lower: Option<int>, upper: Option<int>) returns (count: int)
    requires Disjoint(bs)
    ensures bs == [] <==> count == -1
    ensures bs != [] ==>
              var lo := if lower.None? then bs[0].start else lower.value;
              var hi := if upper.None? then bs[|bs| - 1].end else upper.value;
              if lo > bs[|bs| - 1].end || hi < bs[0].start then count == -2
              else count == Total(lo, hi, bs)
  {
    if bs == [] {
      return -1;
    }
    var lo := if lower.None? then bs[0].start else lower.value;
    var hi := if upper.None? then bs[|bs| - 1].end else upper.value;
    if lo > bs[|bs| - 1].end || hi < bs[0].start {
      return -2;
    }
    var iter := UpperBound(bs, hi);
    NothingAbove(lo, hi, bs, iter);
    count := Walk(bs, lo, hi, iter);
  }

  /** The loop of get_count. */
  method Walk(bs: seq<Bucket>, lo: int, hi: int, start: nat) returns (count: int)
    requires Disjoint(bs) && start <= |bs|
    ensures count == Total(lo, hi, bs[..start])
  {
    hide Scalar;
    count := 0;
    var iter := start;
    while iter != 0
      invariant 0 <= iter <= start
      invariant Total(lo, hi, bs[..start]) == count + Total(lo, hi, bs[..iter])
    {
      assert bs[..iter][..iter - 1] == bs[..iter - 1];
      iter := iter - 1;
      if lo > bs[iter].end {
        NothingBelow(lo, hi, bs[..iter + 1]);
        break;
      }
      count := count + Scalar(lo, hi, bs[iter]);
    }
  }

}
