/**
 Percentiles and the variance of a histogram, against the recorded values.
 */
module HistogramStats {
  import opened Options
  import opened Reals
  import opened Buckets
  import opened HistogramSpec

  // ---------------------------------------------------------------- percentile

  /** The upper edge of a bucket: `kBucketLimit[b]`. */
  function UpperEdge(b: nat): (x: real)
  {
    if b < NUM_BUCKETS - 1 then Limit(b) else 1e200
  }

  function LowerEdge(b: nat): (x: real)
  {
    if b == 0 then 0.0 else UpperEdge(b - 1)
  }

  /** The first bucket, from `b` on, at which the running sum reaches `t`. */
  function Reach(buckets: seq<real>, t: real, b: nat): (r: nat)
    requires b <= |buckets|
    ensures b <= r <= |buckets|
    decreases |buckets| - b, t
  {
    if b == |buckets| || Cum(buckets, b + 1) >= t then b else Reach(buckets, t, b + 1)
  }

  function Clamp(r: real, low: real, high: real): (x: real)
  {
    var y := if r < low then low else r;
    if y > high then high else y
  }

  /** Linear interpolation in bucket `b`, before clamping. */
  function Interpolate(buckets: seq<real>, b: nat, t: real): (r: real)
    requires b < |buckets| && buckets[b] != 0.0
  {
    LowerEdge(b) + Times(UpperEdge(b) - LowerEdge(b), Over(t - Cum(buckets, b), buckets[b]))
  }

  function Threshold(h: Hist, p: real): (t: real)
  {
    Times(h.num, p / 100.0)
  }

  /** `Percentile(p)`; None where the original divides by zero. */
  function Percentile(h: Hist, p: real): (r: Option<real>)
    requires h.Valid()
  {
    var b := Reach(h.buckets, Threshold(h, p), 0);
    if b == NUM_BUCKETS then Some(h.max)
    else if h.buckets[b] == 0.0 then None
    else Some(Clamp(Interpolate(h.buckets, b, Threshold(h, p)), h.min, h.max))
  }

  lemma {:induction false} ReachSpec(buckets: seq<real>, t: real, b: nat)
    requires b <= |buckets|
    ensures var r := Reach(buckets, t, b);
            (r > b ==> Cum(buckets, r) < t) && (r < |buckets| ==> t <= Cum(buckets, r + 1))
    decreases |buckets| - b
  {
    if b >= |buckets| || Cum(buckets, b + 1) >= t {
    } else {
      ReachSpec(buckets, t, b + 1);
    }
  }

  predicate Counts(buckets: seq<real>)
  {
    forall b :: 0 <= b < |buckets| ==> buckets[b] >= 0.0
  }

  lemma {:induction false} HistOfCounts(s: seq<real>)
    ensures Counts(HistOf(s).buckets)
  {
    if s == [] {
    } else {
      HistOfCounts(s[..|s| - 1]);
    }
  }

  lemma ThresholdSign(h: Hist, p: real)
    requires h.num >= 0.0
    ensures Threshold(h, p) > 0.0 <==> h.num > 0.0 && p > 0.0
  {
    if h.num > 0.0 && p > 0.0 { MulStrict(0.0, p / 100.0, h.num); }
    if p <= 0.0 { MulMonotone(p / 100.0, 0.0, h.num); }
  }

  /** A positive threshold is reached in a bucket that holds something, strictly above the running sum before it. */
  lemma ReachPositive(buckets: seq<real>, t: real)
    requires t > 0.0
    ensures var b := Reach(buckets, t, 0);
            b < |buckets| ==> Cum(buckets, b) < t <= Cum(buckets, b + 1) && buckets[b] > 0.0
  {
    ReachSpec(buckets, t, 0);
  }

  /**
   A percentile divides by zero exactly when the first bucket is empty and the
   threshold is not positive: an empty histogram, or p <= 0.
   */
  lemma {:induction false} DividesByZeroIff(build: Build, p: real)
    ensures Percentile(Eval(build), p) == None <==>
            (Recorded(build) == [] || p <= 0.0) && Eval(build).buckets[0] == 0.0
  {
    var h, t := Eval(build), Threshold(Eval(build), p);
    BucketsTotalNum(build);
    EvalIsHistOf(build);
    HistOfCounts(Recorded(build));
    ThresholdSign(h, p);
    if t > 0.0 {
      ReachPositive(h.buckets, t);
    } else {
      assert Cum(h.buckets, 1) == Cum(h.buckets, 0) + h.buckets[0];
      assert Reach(h.buckets, t, 0) == 0;
    }
  }

  /** An empty histogram has no percentile at all. */
  lemma EmptyPercentile(p: real)
    ensures Percentile(EMPTY, p) == None
  {
    DividesByZeroIff(Cleared, p);
  }

  // ---------------------------------------------------------------- edges

  lemma LastLimit()
    ensures Limit(NUM_BUCKETS - 2) == 9e9
  {
    BillionsRow();
    assert BILLIONS[15] == 9e9;
  }

  lemma EdgesIncrease(a: nat, b: nat)
    requires a < b < NUM_BUCKETS
    ensures LowerEdge(a) < UpperEdge(a) <= LowerEdge(b) < UpperEdge(b)
  {
    LastLimit();
    LimitIncreases(a, b);
    if a < b - 1 { LimitIncreases(a, b - 1); }
    if 0 < a { LimitIncreases(a - 1, a); }
    if b < NUM_BUCKETS - 1 { LimitIncreases(b - 1, b); }
  }

  lemma EdgeOrder(b: nat)
    requires b < NUM_BUCKETS
    ensures LowerEdge(b) < UpperEdge(b)
  {
    if b == 0 { LimitIncreases(0, 1); } else { EdgesIncrease(b - 1, b); }
  }

  /** Interpolation stays inside its bucket and grows with the threshold. */
  lemma InterpolateInside(buckets: seq<real>, b: nat, t: real)
    requires b < |buckets| == NUM_BUCKETS && Cum(buckets, b) < t <= Cum(buckets, b + 1) && buckets[b] > 0.0
    ensures LowerEdge(b) < Interpolate(buckets, b, t) <= UpperEdge(b)
  {
    EdgeOrder(b);
    var w, pos := UpperEdge(b) - LowerEdge(b), Over(t - Cum(buckets, b), buckets[b]);
    QuotientCompare(t - Cum(buckets, b), buckets[b], 1.0);
    QuotientCompare(t - Cum(buckets, b), buckets[b], 0.0);
    assert 0.0 < pos <= 1.0;
    MulStrict(0.0, pos, w);
    MulMonotone(pos, 1.0, w);
  }

  lemma InterpolateMonotone(buckets: seq<real>, b: nat, t: real, u: real)
    requires b < |buckets| == NUM_BUCKETS && buckets[b] > 0.0 && t <= u
    ensures Interpolate(buckets, b, t) <= Interpolate(buckets, b, u)
  {
    EdgeOrder(b);
    var n := buckets[b];
    var x, y := Over(t - Cum(buckets, b), n), Over(u - Cum(buckets, b), n);
    QuotientCompare(t - Cum(buckets, b), n, y);
    assert Times(y, n) == u - Cum(buckets, b);
    MulMonotone(x, y, UpperEdge(b) - LowerEdge(b));
  }

  // ---------------------------------------------------------------- range and monotonicity

  lemma MinBelowMax(s: seq<real>)
    requires s != []
    ensures HistOf(s).min <= HistOf(s).max && HistOf(s).num > 0.0
  {
    MinMaxSpec(s);
    NumIsLength(s);
    assert HistOf(s).min <= s[0] <= HistOf(s).max;
  }

  /** For p > 0 and a non-empty histogram, the percentile is defined and lies within [min, max]. */
  lemma {:induction false} PercentileInRange(build: Build, p: real)
    requires Recorded(build) != [] && p > 0.0
    ensures Percentile(Eval(build), p).Some?
    ensures Eval(build).min <= Percentile(Eval(build), p).value <= Eval(build).max
  {
    DividesByZeroIff(build, p);
    EvalIsHistOf(build);
    MinBelowMax(Recorded(build));
  }

  lemma {:induction false} ReachMonotone(buckets: seq<real>, t: real, u: real, b: nat)
    requires b <= |buckets| && t <= u
    ensures Reach(buckets, t, b) <= Reach(buckets, u, b)
    decreases |buckets| - b
  {
    if b >= |buckets| || Cum(buckets, b + 1) >= t {
    } else {
      ReachMonotone(buckets, t, u, b + 1);
    }
  }

  /** A larger p never gives a smaller percentile, within a bucket, across buckets and under clamping. */
  lemma {:induction false} PercentileMonotone(build: Build, p: real, q: real)
    requires Recorded(build) != [] && 0.0 < p <= q
    ensures Percentile(Eval(build), p).Some? && Percentile(Eval(build), q).Some?
    ensures Percentile(Eval(build), p).value <= Percentile(Eval(build), q).value
  {
    PercentileInRange(build, p);
    PercentileInRange(build, q);
    var h := Eval(build);
    EvalIsHistOf(build);
    MinBelowMax(Recorded(build));
    var t, u := Threshold(h, p), Threshold(h, q);
    ThresholdSign(h, p);
    MulMonotone(p / 100.0, q / 100.0, h.num);
    ReachMonotone(h.buckets, t, u, 0);
    ReachPositive(h.buckets, t);
    ReachPositive(h.buckets, u);
    var b, c := Reach(h.buckets, t, 0), Reach(h.buckets, u, 0);
    if c < NUM_BUCKETS {
      RawMonotone(h.buckets, b, c, t, u);
    }
  }

  lemma RawMonotone(buckets: seq<real>, b: nat, c: nat, t: real, u: real)
    requires b <= c < |buckets| == NUM_BUCKETS && t <= u
    requires Cum(buckets, b) < t <= Cum(buckets, b + 1) && buckets[b] > 0.0
    requires Cum(buckets, c) < u <= Cum(buckets, c + 1) && buckets[c] > 0.0
    ensures Interpolate(buckets, b, t) <= Interpolate(buckets, c, u)
  {
    if b == c {
      InterpolateMonotone(buckets, b, t, u);
    } else {
      InterpolateInside(buckets, b, t);
      InterpolateInside(buckets, c, u);
      EdgesIncrease(b, c);
    }
  }

  // ---------------------------------------------------------------- the percentile and the order statistic

  predicate Sorted(s: seq<real>)
  {
    forall i, j :: 0 <= i <= j < |s| ==> s[i] <= s[j]
  }

  /** In sorted order the values of the first `k` buckets come first. */
  lemma {:induction false} CountBelowSorted(s: seq<real>, k: nat, i: nat)
    requires Sorted(s) && i < |s|
    ensures i < CountBelow(s, k) <==> BucketOf(s[i]) < k
  {
    var n := |s| - 1;
    if i < n {
      CountBelowSorted(s[..n], k, i);
      BucketMonotone(s[i], s[n]);
    } else {
      CountBelowPrefix(s, k);
    }
  }

  lemma {:induction false} CountBelowPrefix(s: seq<real>, k: nat)
    requires Sorted(s) && s != []
    ensures BucketOf(s[|s| - 1]) < k ==> CountBelow(s, k) == |s|
  {
    var n := |s| - 1;
    if BucketOf(s[n]) >= k || n == 0 {
    } else {
      BucketMonotone(s[n - 1], s[n]);
      CountBelowPrefix(s[..n], k);
    }
  }

  function Ceil(x: real): (k: int)
    ensures k as real - 1.0 < x <= k as real
  {
    -(-x).Floor
  }

  /** The rank of the p-th percentile among n values: ceil(n p / 100), from 1 to n. */
  function Rank(n: nat, p: real): (k: int)
  {
    Ceil(Times(n as real, p / 100.0))
  }

  lemma RankInRange(n: nat, p: real)
    requires n > 0 && 0.0 < p <= 100.0
    ensures 1 <= Rank(n, p) <= n
  {
    MulStrict(0.0, p / 100.0, n as real);
    MulMonotone(p / 100.0, 1.0, n as real);
  }

  /** The bucket the percentile stops in is the bucket of the value of that rank. */
  lemma PercentileBucket(s: seq<real>, p: real)
    requires s != [] && Sorted(s) && 0.0 < p <= 100.0
    ensures 1 <= Rank(|s|, p) <= |s|
    ensures Reach(HistOf(s).buckets, Threshold(HistOf(s), p), 0) == BucketOf(s[Rank(|s|, p) - 1])
  {
    RankInRange(|s|, p);
    NumIsLength(s);
    var h := HistOf(s);
    var t, k := Threshold(h, p), Rank(|s|, p);
    var b := Reach(h.buckets, t, 0);
    ThresholdSign(h, p);
    ReachSpec(h.buckets, t, 0);
    CumCounts(s, NUM_BUCKETS);
    CountAll(s);
    assert b < NUM_BUCKETS;
    CumCounts(s, b);
    CumCounts(s, b + 1);
    CountBelowSorted(s, b, k - 1);
    CountBelowSorted(s, b + 1, k - 1);
  }

  /** How many of the values fall in bucket `b`. */
  function CountIn(s: seq<real>, b: nat): (n: nat)
  {
    if s == [] then 0 else CountIn(s[..|s| - 1], b) + if BucketOf(s[|s| - 1]) == b then 1 else 0
  }

  lemma {:induction false} CountInIsDifference(s: seq<real>, b: nat)
    ensures CountBelow(s, b + 1) == CountBelow(s, b) + CountIn(s, b)
  {
    if s == [] {
    } else {
      CountInIsDifference(s[..|s| - 1], b);
    }
  }

  /** The interpolated value is as far into the bucket as the threshold is into its count. */
  lemma InterpolateLinear(buckets: seq<real>, b: nat, t: real)
    requires b < |buckets| && buckets[b] != 0.0
    ensures Times(Interpolate(buckets, b, t) - LowerEdge(b), buckets[b]) ==
            Times(UpperEdge(b) - LowerEdge(b), t - Cum(buckets, b))
  {
    Proportional(LowerEdge(b), UpperEdge(b) - LowerEdge(b), t - Cum(buckets, b), buckets[b]);
  }

  lemma Proportional(left: real, w: real, d: real, n: real)
    requires n != 0.0
    ensures Times(left + Times(w, Over(d, n)) - left, n) == Times(w, d)
  {
    var q := Over(d, n);
    assert Times(q, n) == d;
    assert Times(left + Times(w, q) - left, n) == w * q * n == w * (q * n);
  }

  /** `r` is as far into bucket `b` as `into` is into its count, unless it was clamped. */
  predicate OnLine(r: real, min: real, max: real, b: nat, count: real, into: real)
  {
    var rise, line := Times(r - LowerEdge(b), count), Times(UpperEdge(b) - LowerEdge(b), into);
    (min < r < max ==> rise == line) && (r != max ==> rise >= line) && (r != min ==> rise <= line)
  }

  /**
   Linear scaling against the recorded values. In the bucket where the count of the values reaches the
   threshold |s| p / 100 (the first bucket for p <= 0, if it holds anything), the result lies on the line
   from the lower edge, at the count before the bucket, to the upper edge, at the count after it; where it
   does not, it was clamped to the min or the max.
   */
  lemma {:induction false} PercentileLinear(build: Build, p: real, b: nat)
    requires b < NUM_BUCKETS && CountIn(Recorded(build), b) > 0
    requires var s := Recorded(build); var t := Times(|s| as real, p / 100.0);
             (b == 0 || CountBelow(s, b) as real < t) && t <= CountBelow(s, b + 1) as real
    ensures var s, h := Recorded(build), Eval(build);
            var t, r := Times(|s| as real, p / 100.0), Percentile(h, p);
            r.Some? && OnLine(r.value, h.min, h.max, b, CountIn(s, b) as real, t - CountBelow(s, b) as real)
  {
    var s, h := Recorded(build), Eval(build);
    EvalIsHistOf(build);
    NumIsLength(s);
    BucketCounts(s, b);
    ReachUnique(h.buckets, Threshold(h, p), b);
    MinBelowMax(s);
    LinearIn(h, p, b);
  }

  lemma BucketCounts(s: seq<real>, b: nat)
    requires b < NUM_BUCKETS
    ensures var buckets := HistOf(s).buckets;
            && Cum(buckets, b) == CountBelow(s, b) as real && Cum(buckets, b + 1) == CountBelow(s, b + 1) as real
            && buckets[b] == CountIn(s, b) as real && Counts(buckets)
  {
    CumCounts(s, b);
    CumCounts(s, b + 1);
    CountInIsDifference(s, b);
    HistOfCounts(s);
  }

  lemma LinearIn(h: Hist, p: real, b: nat)
    requires h.Valid() && b < NUM_BUCKETS && h.buckets[b] > 0.0 && h.min <= h.max
    requires Reach(h.buckets, Threshold(h, p), 0) == b
    ensures var r := Percentile(h, p);
            r.Some? && OnLine(r.value, h.min, h.max, b, h.buckets[b], Threshold(h, p) - Cum(h.buckets, b))
  {
    var t := Threshold(h, p);
    InterpolateLinear(h.buckets, b, t);
    ClampedSide(Interpolate(h.buckets, b, t), h.min, h.max, LowerEdge(b), h.buckets[b]);
  }

  /** Clamping down only lowers the rise, clamping up only raises it. */
  lemma ClampedSide(x: real, min: real, max: real, left: real, n: real)
    requires min <= max && n > 0.0
    ensures var r := Clamp(x, min, max);
            && (min < r < max ==> r == x)
            && (r != max ==> Times(r - left, n) >= Times(x - left, n))
            && (r != min ==> Times(r - left, n) <= Times(x - left, n))
  {
    var r := Clamp(x, min, max);
    if r >= x { MulMonotone(x - left, r - left, n); }
    if r <= x { MulMonotone(r - left, x - left, n); }
  }

  lemma {:induction false} CumMonotone(buckets: seq<real>, a: nat, b: nat)
    requires a <= b <= |buckets| && Counts(buckets)
    ensures Cum(buckets, a) <= Cum(buckets, b)
  {
    if a == b {
    } else {
      CumMonotone(buckets, a, b - 1);
    }
  }

  /** Only one bucket takes the running sum from below the threshold up to it. */
  lemma ReachUnique(buckets: seq<real>, t: real, b: nat)
    requires b < |buckets| && Counts(buckets) && (b == 0 || Cum(buckets, b) < t) && t <= Cum(buckets, b + 1)
    ensures Reach(buckets, t, 0) == b
  {
    var r := Reach(buckets, t, 0);
    ReachSpec(buckets, t, 0);
    if r < b { CumMonotone(buckets, r + 1, b); }
    if b < r { CumMonotone(buckets, b + 1, r); }
  }

  /** Beyond the hundredth percentile the result is the max. */
  lemma {:induction false} PercentileBeyond(build: Build, p: real)
    requires Recorded(build) != [] && p > 100.0
    ensures Percentile(Eval(build), p) == Some(Eval(build).max)
  {
    var h := Eval(build);
    BucketsTotalNum(build);
    var t := Threshold(h, p);
    MulStrict(1.0, p / 100.0, h.num);
    assert t > h.num;
    EvalIsHistOf(build);
    HistOfCounts(Recorded(build));
    var r := Reach(h.buckets, t, 0);
    ReachSpec(h.buckets, t, 0);
    if r < NUM_BUCKETS { CumMonotone(h.buckets, r + 1, NUM_BUCKETS); }
  }

  predicate InDomain(s: seq<real>)
  {
    forall i :: 0 <= i < |s| ==> 0.0 <= s[i] <= 1e200
  }

  lemma BucketEdges(v: real)
    requires 0.0 <= v <= 1e200
    ensures LowerEdge(BucketOf(v)) <= v <= UpperEdge(BucketOf(v))
  {
    BucketSpec(v);
  }

  function Abs(x: real): (r: real)
  {
    if x < 0.0 then -x else x
  }

  /**
   For any histogram built from values in [0, 1e200] and any sorted listing of
   those values: the percentile is in the bucket of the true order statistic,
   and off by at most that bucket's width.
   */
  lemma {:induction false} PercentileAccuracy(build: Build, sorted: seq<real>, p: real)
    requires Recorded(build) != [] && InDomain(Recorded(build)) && 0.0 < p <= 100.0
    requires Sorted(sorted) && multiset(sorted) == multiset(Recorded(build))
    ensures 1 <= Rank(|sorted|, p) <= |sorted| && Percentile(Eval(build), p).Some?
    ensures var s, r := sorted[Rank(|sorted|, p) - 1], Percentile(Eval(build), p).value;
            && LowerEdge(BucketOf(s)) <= s <= UpperEdge(BucketOf(s))
            && Abs(r - s) <= UpperEdge(BucketOf(s)) - LowerEdge(BucketOf(s))
            && (4.0 <= s < 9e9 ==> Abs(r - s) <= s / 4.0)
  {
    EvalIsHistOf(build);
    HistOfPermutation(sorted, Recorded(build));
    SameSize(sorted, Recorded(build));
    forall i | 0 <= i < |sorted|
      ensures 0.0 <= sorted[i] <= 1e200
    {
      SameElements(sorted, Recorded(build), sorted[i]);
    }
    SortedAccuracy(sorted, p);
    var s := sorted[Rank(|sorted|, p) - 1];
    if 4.0 <= s < 9e9 { NarrowBucket(s); }
  }

  /** Clamping to an interval that holds `s` does not move a point away from `s`. */
  lemma ClampNear(raw: real, s: real, min: real, max: real, low: real, high: real)
    requires low <= s <= high && low < raw <= high && min <= s <= max
    ensures Abs(Clamp(raw, min, max) - s) <= high - low
  {
  }

  lemma SortedAccuracy(sorted: seq<real>, p: real)
    requires sorted != [] && InDomain(sorted) && Sorted(sorted) && 0.0 < p <= 100.0
    ensures 1 <= Rank(|sorted|, p) <= |sorted| && Percentile(HistOf(sorted), p).Some?
    ensures var s, r := sorted[Rank(|sorted|, p) - 1], Percentile(HistOf(sorted), p).value;
            && LowerEdge(BucketOf(s)) <= s <= UpperEdge(BucketOf(s))
            && Abs(r - s) <= UpperEdge(BucketOf(s)) - LowerEdge(BucketOf(s))
  {
    PercentileBucket(sorted, p);
    var h := HistOf(sorted);
    var t, s := Threshold(h, p), sorted[Rank(|sorted|, p) - 1];
    var b := BucketOf(s);
    BucketEdges(s);
    MinMaxSpec(sorted);
    NumIsLength(sorted);
    ThresholdSign(h, p);
    ReachPositive(h.buckets, t);
    InterpolateInside(h.buckets, b, t);
    ClampNear(Interpolate(h.buckets, b, t), s, h.min, h.max, LowerEdge(b), UpperEdge(b));
  }

  lemma SameSize(s: seq<real>, t: seq<real>)
    requires multiset(s) == multiset(t)
    ensures |s| == |t|
  {
    assert |multiset(s)| == |s| && |multiset(t)| == |t|;
  }

  lemma SameElements(s: seq<real>, t: seq<real>, x: real)
    requires multiset(s) == multiset(t) && x in s
    ensures x in t
  {
    assert x in multiset(s);
  }

  lemma {:induction false} LimitWidth(b: nat)
    requires b >= 4
    ensures 4.0 * (Limit(b) - Limit(b - 1)) <= Limit(b - 1)
  {
    if b <= 26 {
    } else {
      LimitWidth(b - 16);
    }
  }

  /** Between 4 and 9e9 a bucket is at most a quarter as wide as any value in it. */
  lemma NarrowBucket(v: real)
    requires 4.0 <= v < 9e9
    ensures 4.0 * (UpperEdge(BucketOf(v)) - LowerEdge(BucketOf(v))) <= v
  {
    BucketSpec(v);
    LastLimit();
    var b := BucketOf(v);
    assert b >= 4;
    assert b < NUM_BUCKETS - 1;
    LimitWidth(b);
  }

  // ---------------------------------------------------------------- variance

  function Square(x: real): (r: real)
    ensures r >= 0.0
  {
    Times(x, x)
  }

  /** Sum over the values of the squared distance to `v`. */
  function SquaredDistances(s: seq<real>, v: real): (d: real)
    ensures d >= 0.0
  {
    if s == [] then 0.0 else SquaredDistances(s[..|s| - 1], v) + Square(s[|s| - 1] - v)
  }

  /** Sum over all pairs of the squared difference. */
  function PairSpread(s: seq<real>): (d: real)
    ensures d >= 0.0
  {
    if s == [] then 0.0 else PairSpread(s[..|s| - 1]) + SquaredDistances(s[..|s| - 1], s[|s| - 1])
  }

  /** `sum_squares_ * num_ - sum_ * sum_`. */
  function Spread(h: Hist): (d: real)
  {
    SpreadOf(h.sumSquares, h.num, h.sum)
  }

  function SpreadOf(squares: real, n: real, sum: real): (d: real)
  {
    squares * n - sum * sum
  }

  /** The squared distances to `v` in terms of the running sums. */
  function DistanceOf(squares: real, n: real, sum: real, v: real): (d: real)
  {
    squares - 2.0 * (sum * v) + n * (v * v)
  }

  lemma DistanceStep(squares: real, n: real, sum: real, x: real, v: real)
    ensures DistanceOf(squares + Times(x, x), n + 1.0, sum + x, v) == DistanceOf(squares, n, sum, v) + Square(x - v)
  {
    assert Square(x - v) == x * x - 2.0 * (x * v) + v * v;
    assert (sum + x) * v == sum * v + x * v;
    assert (n + 1.0) * (v * v) == n * (v * v) + v * v;
  }

  lemma SpreadStep(squares: real, n: real, sum: real, v: real)
    ensures SpreadOf(squares + Times(v, v), n + 1.0, sum + v) ==
            SpreadOf(squares, n, sum) + DistanceOf(squares, n, sum, v)
  {
    assert (squares + v * v) * (n + 1.0) == squares * n + squares + n * (v * v) + v * v;
    assert (sum + v) * (sum + v) == sum * sum + 2.0 * (sum * v) + v * v;
  }

  lemma {:induction false} DistancesFromSums(s: seq<real>, v: real)
    ensures SquaredDistances(s, v) == DistanceOf(HistOf(s).sumSquares, HistOf(s).num, HistOf(s).sum, v)
  {
    if s == [] {
    } else {
      DistancesFromSums(s[..|s| - 1], v);
      var g := HistOf(s[..|s| - 1]);
      DistanceStep(g.sumSquares, g.num, g.sum, s[|s| - 1], v);
    }
  }

  lemma {:induction false} SpreadIsPairSpread(s: seq<real>)
    ensures Spread(HistOf(s)) == PairSpread(s)
  {
    if s == [] {
    } else {
      var n := |s| - 1;
      SpreadIsPairSpread(s[..n]);
      DistancesFromSums(s[..n], s[n]);
      var g := HistOf(s[..n]);
      SpreadStep(g.sumSquares, g.num, g.sum, s[n]);
    }
  }

  predicate AllEqual(s: seq<real>)
  {
    forall i, j :: 0 <= i < |s| && 0 <= j < |s| ==> s[i] == s[j]
  }

  lemma {:induction false} DistancesZero(s: seq<real>, v: real)
    ensures SquaredDistances(s, v) == 0.0 <==> forall i :: 0 <= i < |s| ==> s[i] == v
  {
    if s == [] {
    } else {
      DistancesZero(s[..|s| - 1], v);
      var x := s[|s| - 1] - v;
      SquareZero(x);
      assert forall i :: 0 <= i < |s| - 1 ==> s[..|s| - 1][i] == s[i];
    }
  }

  lemma SquareZero(x: real)
    ensures Square(x) == 0.0 <==> x == 0.0
  {
    if x > 0.0 { MulStrict(0.0, x, x); }
    if x < 0.0 { MulStrict(x, 0.0, -x); assert Times(x, -x) == -Square(x); }
  }

  lemma {:induction false} PairSpreadZero(s: seq<real>)
    ensures PairSpread(s) == 0.0 <==> AllEqual(s)
  {
    if s == [] {
    } else {
      var n := |s| - 1;
      PairSpreadZero(s[..n]);
      DistancesZero(s[..n], s[n]);
      assert forall i :: 0 <= i < n ==> s[..n][i] == s[i];
    }
  }

  /**
   The quantity under the root: for any histogram built by any run it is the sum over pairs of
   squared differences, so it is never negative, and zero only if all recorded values are equal.
   */
  lemma {:induction false} SpreadSpec(build: Build)
    ensures Spread(Eval(build)) == PairSpread(Recorded(build)) >= 0.0
    ensures Spread(Eval(build)) == 0.0 <==> AllEqual(Recorded(build))
  {
    EvalIsHistOf(build);
    SpreadIsPairSpread(Recorded(build));
    PairSpreadZero(Recorded(build));
  }

  function QuotientBySquare(d: real, n: real): (q: real)
    requires n != 0.0
    ensures d >= 0.0 ==> q >= 0.0
    ensures q == 0.0 <==> d == 0.0
  {
    SquareZero(n);
    QuotientCompare(d, Square(n), 0.0);
    d / Square(n)
  }

  function Variance(h: Hist): (v: real)
  {
    if h.num == 0.0 then 0.0 else QuotientBySquare(Spread(h), h.num)
  }

  /** The standard deviation, a square root of the variance, is never that of a negative number. */
  lemma {:induction false} VarianceSpec(build: Build)
    ensures Variance(Eval(build)) >= 0.0
    ensures Variance(Eval(build)) == 0.0 <==> AllEqual(Recorded(build))
  {
    SpreadSpec(build);
    BucketsTotalNum(build);
  }

  /** The sum of the values. */
  function Sum(s: seq<real>): (t: real)
  {
    if s == [] then 0.0 else Sum(s[..|s| - 1]) + s[|s| - 1]
  }

  lemma {:induction false} SumIsSum(s: seq<real>)
    ensures HistOf(s).sum == Sum(s)
  {
    if s == [] {
    } else {
      SumIsSum(s[..|s| - 1]);
    }
  }

  /** The average is the mean of the recorded values. */
  lemma {:induction false} AverageIsMean(build: Build)
    ensures Times(Average(Eval(build)), |Recorded(build)| as real) == Sum(Recorded(build))
    ensures Recorded(build) == [] ==> Average(Eval(build)) == 0.0
  {
    var s := Recorded(build);
    EvalIsHistOf(build);
    NumIsLength(s);
    SumIsSum(s);
    if s == [] {
      assert Times(0.0, 0.0) == 0.0;
    } else {
      QuotientTimes(Sum(s), |s| as real);
    }
  }

  lemma QuotientTimes(x: real, n: real)
    requires n != 0.0
    ensures Times(x / n, n) == x
  {
  }

  /**
   The variance is the mean squared distance from the mean, and the sum of squared differences over all
   pairs divided by the squared number of values.
   */
  lemma {:induction false} VarianceIsMeanSquare(build: Build)
    ensures var s, h := Recorded(build), Eval(build);
            && Times(Square(|s| as real), Variance(h)) == PairSpread(s)
            && Times(|s| as real, Variance(h)) == SquaredDistances(s, Average(h))
  {
    var s, h := Recorded(build), Eval(build);
    EvalIsHistOf(build);
    NumIsLength(s);
    SpreadSpec(build);
    DistancesFromSums(s, Average(h));
    if s == [] {
    } else {
      MeanSquare(h.sumSquares, h.num, h.sum, Variance(h), Average(h));
    }
  }

  lemma MeanSquare(squares: real, n: real, sum: real, v: real, m: real)
    requires n > 0.0 && v == QuotientBySquare(SpreadOf(squares, n, sum), n) && m == sum / n
    ensures Times(Square(n), v) == SpreadOf(squares, n, sum)
    ensures Times(n, v) == DistanceOf(squares, n, sum, m)
  {
    SquareZero(n);
    var d := SpreadOf(squares, n, sum);
    assert v == d / Square(n);
    assert Times(Square(n), v) == d;
    assert m * n == sum;
    assert Times(n, Times(n, v)) == d;
    assert n * (squares - 2.0 * (sum * m) + n * (m * m)) == squares * n - sum * sum;
    Cancel(n, Times(n, v), DistanceOf(squares, n, sum, m));
  }

  lemma Cancel(n: real, x: real, y: real)
    requires n > 0.0 && n * x == n * y
    ensures x == y
  {
  }

  /** `sqrt` is defined at `v` and yields its non-negative root. */
  ghost predicate Root(sqrt: real --> real, v: real)
  {
    sqrt.requires(v) && sqrt(v) >= 0.0 && Square(sqrt(v)) == v
  }

  /** What is assumed of `std::sqrt`: nothing about negative numbers. */
  ghost predicate SquareRoot(sqrt: real --> real)
  {
    forall v: real :: v >= 0.0 ==> Root(sqrt, v)
  }

  /** The mean of the recorded values. */
  function Average(h: Hist): (m: real)
  {
    if h.num == 0.0 then 0.0 else h.sum / h.num
  }

  lemma OneMore(x: real, n: real)
    ensures Times(x, n + 1.0) == Times(x, n) + x
  {
  }

  lemma {:induction false} SumBounds(s: seq<real>, low: real, high: real)
    requires forall i :: 0 <= i < |s| ==> low <= s[i] <= high
    ensures Times(low, HistOf(s).num) <= HistOf(s).sum <= Times(high, HistOf(s).num)
  {
    if s == [] {
    } else {
      SumBounds(s[..|s| - 1], low, high);
      OneMore(low, HistOf(s[..|s| - 1]).num);
      OneMore(high, HistOf(s[..|s| - 1]).num);
    }
  }

  /** The average of a non-empty histogram lies between its min and max. */
  lemma {:induction false} AverageInRange(build: Build)
    requires Recorded(build) != []
    ensures Eval(build).min <= Average(Eval(build)) <= Eval(build).max
  {
    var s := Recorded(build);
    EvalIsHistOf(build);
    MinMaxSpec(s);
    NumIsLength(s);
    var h := HistOf(s);
    SumBounds(s, h.min, h.max);
    QuotientCompare(h.sum, h.num, h.min);
    QuotientCompare(h.sum, h.num, h.max);
  }
}
