/**
 Histogram state as a value, with recording and merging as functions. Any
 histogram built by clearing, recording and merging is the histogram of its
 recorded values in any order.
 */
module HistogramSpec {
  import opened Reals
  import opened Buckets

  /** The fields of a histogram. */
  datatype Hist = Hist(min: real, max: real, num: real, sum: real, sumSquares: real, buckets: seq<real>) {
    predicate Valid()
    {
      |buckets| == NUM_BUCKETS
    }
  }

  function NoCounts(): (s: seq<real>)
    ensures |s| == NUM_BUCKETS && forall b :: 0 <= b < NUM_BUCKETS ==> s[b] == 0.0
  {
    seq(NUM_BUCKETS, _ => 0.0)
  }

  const EMPTY: Hist := Hist(1e200, 0.0, 0.0, 0.0, 0.0, NoCounts())

  function Min(x: real, y: real): (r: real)
  {
    if x > y then y else x
  }

  function Max(x: real, y: real): (r: real)
  {
    if x < y then y else x
  }

  /** Recording one value. */
  function Record(h: Hist, v: real): (r: Hist)
    requires h.Valid()
    ensures r.Valid()
  {
    var b := BucketOf(v);
    Hist(Min(h.min, v), Max(h.max, v), h.num + 1.0, h.sum + v, h.sumSquares + Times(v, v),
         h.buckets[b := h.buckets[b] + 1.0])
  }

  function Combine(h: Hist, g: Hist): (r: Hist)
    requires h.Valid() && g.Valid()
    ensures r.Valid()
  {
    Hist(Min(h.min, g.min), Max(h.max, g.max), h.num + g.num, h.sum + g.sum, h.sumSquares + g.sumSquares,
         AddCounts(h.buckets, g.buckets))
  }

  function AddCounts(s: seq<real>, t: seq<real>): (r: seq<real>)
    requires |s| == |t|
    ensures |r| == |s| && forall b :: 0 <= b < |s| ==> r[b] == s[b] + t[b]
  {
    seq(|s|, b requires 0 <= b < |s| == |t| => s[b] + t[b])
  }

  /** The histogram of a sequence of values. */
  function HistOf(values: seq<real>): (h: Hist)
    ensures h.Valid()
  {
    if values == [] then EMPTY else Record(HistOf(values[..|values| - 1]), values[|values| - 1])
  }

  // ---------------------------------------------------------------- order does not matter

  lemma RecordsCommute(h: Hist, v: real, w: real)
    requires h.Valid()
    ensures Record(Record(h, v), w) == Record(Record(h, w), v)
  {
    assert Record(Record(h, v), w).buckets == Record(Record(h, w), v).buckets;
  }

  lemma CombineRecord(h: Hist, g: Hist, v: real)
    requires h.Valid() && g.Valid()
    ensures Combine(h, Record(g, v)) == Record(Combine(h, g), v)
  {
    assert Combine(h, Record(g, v)).buckets == Record(Combine(h, g), v).buckets;
  }

  lemma {:induction false} MinMaxBounds(s: seq<real>)
    ensures HistOf(s).min <= 1e200 && HistOf(s).max >= 0.0
  {
    if s == [] {
    } else {
      MinMaxBounds(s[..|s| - 1]);
    }
  }

  lemma CombineEmpty(h: Hist)
    requires h.Valid() && h.min <= 1e200 && h.max >= 0.0
    ensures Combine(h, EMPTY) == h
  {
    assert Combine(h, EMPTY).buckets == h.buckets;
  }

  /** Merging the histograms of two sequences is recording one after the other. */
  lemma {:induction false} MergeIsConcat(s: seq<real>, t: seq<real>)
    ensures Combine(HistOf(s), HistOf(t)) == HistOf(s + t)
  {
    if t == [] {
      MinMaxBounds(s);
      CombineEmpty(HistOf(s));
      assert s + t == s;
    } else {
      var n := |t| - 1;
      MergeIsConcat(s, t[..n]);
      CombineRecord(HistOf(s), HistOf(t[..n]), t[n]);
      HistOfAppend(s + t[..n], t[n]);
      assert s + t == (s + t[..n]) + [t[n]];
    }
  }

  lemma HistOfAppend(s: seq<real>, v: real)
    ensures HistOf(s + [v]) == Record(HistOf(s), v)
  {
    assert (s + [v])[..|s|] == s;
  }

  /** A value recorded anywhere might as well have been recorded last. */
  lemma {:induction false} MoveToEnd(s: seq<real>, x: real, t: seq<real>)
    ensures HistOf(s + [x] + t) == Record(HistOf(s + t), x)
    decreases |t|
  {
    if t == [] {
      HistOfAppend(s, x);
      assert s + [x] + t == s + [x] && s + t == s;
    } else {
      var n := |t| - 1;
      var u, y := t[..n], t[n];
      MoveToEnd(s, x, u);
      assert s + [x] + t == (s + [x] + u) + [y] && s + t == (s + u) + [y];
      HistOfAppend(s + [x] + u, y);
      HistOfAppend(s + u, y);
      RecordsCommute(HistOf(s + u), x, y);
    }
  }

  lemma RemoveOne(s: seq<real>, x: real, l: seq<real>, r: seq<real>)
    requires multiset(s + [x]) == multiset(l + [x] + r)
    ensures multiset(s) == multiset(l + r)
  {
    assert multiset(s) == multiset(s + [x]) - multiset{x};
    assert multiset(l + r) == multiset(l + [x] + r) - multiset{x};
  }

  /** Only the multiset of recorded values matters. */
  lemma {:induction false} HistOfPermutation(s: seq<real>, t: seq<real>)
    requires multiset(s) == multiset(t)
    ensures HistOf(s) == HistOf(t)
    decreases |s|
  {
    if s == [] {
      assert |multiset(t)| == 0;
    } else {
      var n := |s| - 1;
      var x := s[n];
      assert s == s[..n] + [x];
      assert x in multiset(s);
      var i :| 0 <= i < |t| && t[i] == x;
      var l, r := t[..i], t[i + 1..];
      assert t == l + [x] + r;
      RemoveOne(s[..n], x, l, r);
      HistOfPermutation(s[..n], l + r);
      MoveToEnd(l, x, r);
    }
  }

  // ---------------------------------------------------------------- histograms built by any run of operations

  /** How a histogram object came about: cleared, then any mix of recording and merging in others. */
  datatype Build =
    | Cleared
    | Added(h: Build, v: real)
    | Merged(h: Build, other: Build)

  function Eval(b: Build): (h: Hist)
    ensures h.Valid()
  {
    match b
    case Cleared => EMPTY
    case Added(h, v) => Record(Eval(h), v)
    case Merged(h, other) => Combine(Eval(h), Eval(other))
  }

  /** Every value recorded along the way. */
  function Recorded(b: Build): (s: seq<real>)
  {
    match b
    case Cleared => []
    case Added(h, v) => Recorded(h) + [v]
    case Merged(h, other) => Recorded(h) + Recorded(other)
  }

  lemma {:induction false} EvalIsHistOf(b: Build)
    ensures Eval(b) == HistOf(Recorded(b))
  {
    match b
    case Cleared =>
    case Added(h, v) =>
      EvalIsHistOf(h);
      HistOfAppend(Recorded(h), v);
    case Merged(h, other) =>
      EvalIsHistOf(h);
      EvalIsHistOf(other);
      MergeIsConcat(Recorded(h), Recorded(other));
  }

  /** Two ways of building a histogram from the same values, in any order and grouping, agree in every field. */
  lemma {:induction false} AnyOrderAnyGrouping(a: Build, b: Build)
    requires multiset(Recorded(a)) == multiset(Recorded(b))
    ensures Eval(a) == Eval(b)
  {
    EvalIsHistOf(a);
    EvalIsHistOf(b);
    HistOfPermutation(Recorded(a), Recorded(b));
  }

  // ---------------------------------------------------------------- what the fields mean

  /** Sum of the first `k` buckets. */
  function Cum(buckets: seq<real>, k: nat): (t: real)
    requires k <= |buckets|
  {
    if k == 0 then 0.0 else Cum(buckets, k - 1) + buckets[k - 1]
  }

  /** How many of the values fall in the first `k` buckets. */
  function CountBelow(s: seq<real>, k: nat): (n: nat)
    ensures n <= |s|
  {
    if s == [] then 0
    else CountBelow(s[..|s| - 1], k) + if BucketOf(s[|s| - 1]) < k then 1 else 0
  }

  lemma {:induction false} CumUpdate(buckets: seq<real>, b: nat, k: nat)
    requires b < |buckets| && k <= |buckets|
    ensures Cum(buckets[b := buckets[b] + 1.0], k) == Cum(buckets, k) + if b < k then 1.0 else 0.0
  {
    if k == 0 {
    } else {
      CumUpdate(buckets, b, k - 1);
    }
  }

  lemma {:induction false} CumZero(k: nat)
    requires k <= NUM_BUCKETS
    ensures Cum(EMPTY.buckets, k) == 0.0
  {
    if k == 0 {
    } else {
      CumZero(k - 1);
    }
  }

  /** Cumulative bucket counts count the recorded values. */
  lemma {:induction false} CumCounts(s: seq<real>, k: nat)
    requires k <= NUM_BUCKETS
    ensures Cum(HistOf(s).buckets, k) == CountBelow(s, k) as real
  {
    if s == [] {
      CumZero(k);
    } else {
      var n := |s| - 1;
      CumCounts(s[..n], k);
      CumUpdate(HistOf(s[..n]).buckets, BucketOf(s[n]), k);
    }
  }

  lemma {:induction false} CountAll(s: seq<real>)
    ensures CountBelow(s, NUM_BUCKETS) == |s|
  {
    if s == [] {
    } else {
      CountAll(s[..|s| - 1]);
    }
  }

  lemma {:induction false} NumIsLength(s: seq<real>)
    ensures HistOf(s).num == |s| as real
  {
    if s == [] {
    } else {
      NumIsLength(s[..|s| - 1]);
    }
  }

  /** Bucket counts always total num, the number of values recorded. */
  lemma {:induction false} BucketsTotalNum(b: Build)
    ensures Cum(Eval(b).buckets, NUM_BUCKETS) == Eval(b).num == |Recorded(b)| as real
  {
    EvalIsHistOf(b);
    CumCounts(Recorded(b), NUM_BUCKETS);
    CountAll(Recorded(b));
    NumIsLength(Recorded(b));
  }

  /** min and max bound every recorded value, and are attained when some value is at most 1e200 (at least 0). */
  lemma {:induction false} MinMaxSpec(s: seq<real>)
    ensures forall i :: 0 <= i < |s| ==> HistOf(s).min <= s[i] <= HistOf(s).max
    ensures HistOf(s).min == 1e200 || HistOf(s).min in s
    ensures HistOf(s).max == 0.0 || HistOf(s).max in s
  {
    if s == [] {
    } else {
      MinMaxSpec(s[..|s| - 1]);
      assert s == s[..|s| - 1] + [s[|s| - 1]];
    }
  }

  /** For values in [0, 1e200], min and max are the extremes of what was recorded. */
  lemma {:induction false} MinMaxAttained(s: seq<real>)
    requires s != [] && forall i :: 0 <= i < |s| ==> 0.0 <= s[i] <= 1e200
    ensures HistOf(s).min in s && HistOf(s).max in s
  {
    MinMaxSpec(s);
    MinMaxBounds(s);
    assert HistOf(s).min <= s[0] <= HistOf(s).max;
  }
}
