/**
 The histogram object of `utils/histogram.cc`, updated in place. The two
 recording methods leave the same state.
 */
module Histograms {
  import opened Options
  import opened Reals
  import opened Buckets
  import opened HistogramSpec
  import opened HistogramStats

  class Histogram {
    var min: real
    var max: real
    var num: real
    var sum: real
    var sumSquares: real
    const buckets: array<real>

    ghost predicate Valid()
    {
      buckets.Length == NUM_BUCKETS
    }

    /** The fields as a value. */
    ghost function Snapshot(): (h: Hist)
      requires Valid()
      reads this, buckets
      ensures h.Valid()
    {
      Hist(min, max, num, sum, sumSquares, buckets[..])
    }

    /** The original leaves every field unset until `Clear`. */
    constructor ()
      ensures Valid() && fresh(buckets)
    {
      buckets := new real[NUM_BUCKETS];
    }

    method Clear()
      requires Valid()
      modifies this, buckets
      ensures Snapshot() == EMPTY
    {
      TableIsClosedForm();
      min := BUCKET_LIMIT[NUM_BUCKETS - 1];
      max, num, sum, sumSquares := 0.0, 0.0, 0.0, 0.0;
      for i := 0 to NUM_BUCKETS
        invariant forall b :: 0 <= b < i ==> buckets[b] == 0.0
        invariant min == 1e200 && max == num == sum == sumSquares == 0.0
      {
        buckets[i] := 0.0;
      }
      assert buckets[..] == NoCounts();
    }

    /** Everything both recording methods do once the bucket is known. */
    method Count(b: nat, value: real)
      requires Valid() && b == BucketOf(value)
      modifies this, buckets
      ensures Snapshot() == Record(old(Snapshot()), value)
    {
      buckets[b] := buckets[b] + 1.0;
      if min > value {
        min := value;
      }
      if max < value {
        max := value;
      }
      num := num + 1.0;
      sum := sum + value;
      sumSquares := sumSquares + Times(value, value);
    }

    /** Linear search for the bucket. */
    method Add(value: real)
      requires Valid()
      modifies this, buckets
      ensures Snapshot() == Record(old(Snapshot()), value)
    {
      TableIsClosedForm();
      var b := 0;
      while b < NUM_BUCKETS - 1 && BUCKET_LIMIT[b] <= value
        invariant b < NUM_BUCKETS && Search(value, b) == BucketOf(value)
      {
        b := b + 1;
      }
      Count(b, value);
    }

    /** Arithmetic search for the bucket: the same new state as `Add`, for every real. */
    method AddFast(value: real)
      requires Valid()
      modifies this, buckets
      ensures Snapshot() == Record(old(Snapshot()), value)
    {
      var pos := 0;
      if 0.0 <= value < 10.0 {
        pos := value.Floor;
      } else {
        var b := value;
        while b >= 100.0
          invariant value >= 10.0 ==> b >= 10.0
          invariant pos + FastSlot(b) == FastSlot(value)
          decreases b.Floor
        {
          b := b / 10.0;
          pos := pos + 16;
        }
        if 10.0 <= b < 20.0 {
          pos := (pos as real + (10.0 + (b - 10.0) / 2.0)).Floor;
        } else if 20.0 <= b < 50.0 {
          pos := (pos as real + (15.0 + (b - 20.0) / 5.0)).Floor;
        } else if 50.0 <= b < 100.0 {
          pos := (pos as real + (21.0 + (b - 50.0) / 10.0)).Floor;
        }
      }
      if pos >= NUM_BUCKETS {
        pos := NUM_BUCKETS - 1;
      }
      FastIsSearch(value);
      Count(pos, value);
    }

    /** Adds another histogram in, possibly this one itself. */
    method Merge(other: Histogram)
      requires Valid() && other.Valid() && (other == this || other.buckets != buckets)
      modifies this, buckets
      ensures Snapshot() == Combine(old(Snapshot()), old(other.Snapshot()))
    {
      if other.min < min {
        min := other.min;
      }
      if other.max > max {
        max := other.max;
      }
      num := num + other.num;
      sum := sum + other.sum;
      sumSquares := sumSquares + other.sumSquares;
      ghost var h, g := old(buckets[..]), old(other.buckets[..]);
      for b := 0 to NUM_BUCKETS
        invariant forall k :: 0 <= k < b ==> buckets[k] == h[k] + g[k]
        invariant forall k :: b <= k < NUM_BUCKETS ==> buckets[k] == h[k] && other.buckets[k] == g[k]
        invariant Snapshot().(buckets := []) == Combine(old(Snapshot()), old(other.Snapshot())).(buckets := [])
      {
        buckets[b] := buckets[b] + other.buckets[b];
      }
      assert buckets[..] == AddCounts(h, g);
    }

    /** The edges of a bucket, looked up in the table. */
    static method Edges(b: nat) returns (left: real, right: real)
      requires b < NUM_BUCKETS
      ensures left == LowerEdge(b) && right == UpperEdge(b)
    {
      TableIsClosedForm();
      left := if b == 0 then 0.0 else BUCKET_LIMIT[b - 1];
      right := BUCKET_LIMIT[b];
    }

    /** Scale linearly within bucket `b`, at which the running sum has reached the threshold. */
    method ScaleWithin(b: nat, threshold: real, running: real) returns (r: Option<real>)
      requires Valid() && b < NUM_BUCKETS && running == Cum(buckets[..], b + 1)
      ensures buckets[b] == 0.0 ==> r == None
      ensures buckets[b] != 0.0 ==> r == Some(Clamp(Interpolate(buckets[..], b, threshold), min, max))
    {
      var left, right := Edges(b);
      var leftSum := running - buckets[b];
      if running - leftSum == 0.0 {
        return None;
      }
      assert running - leftSum == buckets[..][b] && leftSum == Cum(buckets[..], b);
      var pos := Over(threshold - leftSum, running - leftSum);
      var x := left + Times(right - left, pos);
      assert x == Interpolate(buckets[..], b, threshold);
      if x < min {
        x := min;
      }
      if x > max {
        x := max;
      }
      return Some(x);
    }

    /** None where the original would divide by zero. */
    method Percentile(p: real) returns (r: Option<real>)
      requires Valid()
      ensures r == HistogramStats.Percentile(Snapshot(), p)
    {
      var threshold := Times(num, p / 100.0);
      ghost var counts := buckets[..];
      var running := 0.0;
      for b := 0 to NUM_BUCKETS
        invariant running == Cum(counts, b)
        invariant Reach(counts, threshold, b) == Reach(counts, threshold, 0)
      {
        running := running + buckets[b];
        if running >= threshold {
          r := ScaleWithin(b, threshold, running);
          return;
        }
      }
      return Some(max);
    }

    /** The mean of the recorded values, for a histogram made by any run of operations. */
    method Average(ghost build: Build) returns (m: real)
      requires Valid() && Snapshot() == Eval(build)
      ensures m == HistogramStats.Average(Snapshot())
      ensures Times(m, |Recorded(build)| as real) == Sum(Recorded(build))
    {
      AverageIsMean(build);
      if num == 0.0 {
        return 0.0;
      }
      m := sum / num;
    }

    /**
     The standard deviation of a histogram made by any run of operations. The square root is asked for
     non-negative numbers only, and the result is zero exactly when all recorded values are equal.
     */
    method StandardDeviation(sqrt: real --> real, ghost build: Build) returns (r: real)
      requires Valid() && Snapshot() == Eval(build) && SquareRoot(sqrt)
      ensures r >= 0.0 && Square(r) == Variance(Snapshot())
      ensures var s := Recorded(build);
              Times(|s| as real, Square(r)) == SquaredDistances(s, HistogramStats.Average(Snapshot()))
      ensures r == 0.0 <==> AllEqual(Recorded(build))
    {
      VarianceSpec(build);
      VarianceIsMeanSquare(build);
      if num == 0.0 {
        return 0.0;
      }
      var variance := QuotientBySquare(SpreadOf(sumSquares, num, sum), num);
      assert Root(sqrt, variance);
      r := sqrt(variance);
      SquareZero(r);
    }
  }
}
