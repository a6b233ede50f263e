/**
 The latency histogram of `utils/histogram.cc`. Doubles are exact reals. This
 module has the bucket table, the two ways of finding a bucket, and the proof
 that the linear search and the arithmetic one agree on every real.
 */
module Buckets {

  const NUM_BUCKETS: nat := 154

  // The rows of `kBucketLimit`, one per decade.
  const ONES: seq<real> := [1.0, 2.0, 3.0, 4.0, 5.0, 6.0, 7.0, 8.0, 9.0]
  const TENS: seq<real> := [
    10.0, 12.0, 14.0, 16.0, 18.0, 20.0, 25.0, 30.0, 35.0, 40.0, 45.0, 50.0, 60.0, 70.0, 80.0, 90.0]
  const HUNDREDS: seq<real> := [
    100.0, 120.0, 140.0, 160.0, 180.0, 200.0, 250.0, 300.0, 350.0, 400.0, 450.0, 500.0, 600.0, 700.0,
    800.0, 900.0]
  const THOUSANDS: seq<real> := [
    1000.0, 1200.0, 1400.0, 1600.0, 1800.0, 2000.0, 2500.0, 3000.0, 3500.0, 4000.0, 4500.0, 5000.0,
    6000.0, 7000.0, 8000.0, 9000.0]
  const TEN_THOUSANDS: seq<real> := [
    10_000.0, 12_000.0, 14_000.0, 16_000.0, 18_000.0, 20_000.0, 25_000.0, 30_000.0, 35_000.0, 40_000.0,
    45_000.0, 50_000.0, 60_000.0, 70_000.0, 80_000.0, 90_000.0]
  const HUNDRED_THOUSANDS: seq<real> := [
    100_000.0, 120_000.0, 140_000.0, 160_000.0, 180_000.0, 200_000.0, 250_000.0, 300_000.0, 350_000.0,
    400_000.0, 450_000.0, 500_000.0, 600_000.0, 700_000.0, 800_000.0, 900_000.0]
  const MILLIONS: seq<real> := [
    1_000_000.0, 1_200_000.0, 1_400_000.0, 1_600_000.0, 1_800_000.0, 2_000_000.0, 2_500_000.0,
    3_000_000.0, 3_500_000.0, 4_000_000.0, 4_500_000.0, 5_000_000.0, 6_000_000.0, 7_000_000.0,
    8_000_000.0, 9_000_000.0]
  const TEN_MILLIONS: seq<real> := [
    10_000_000.0, 12_000_000.0, 14_000_000.0, 16_000_000.0, 18_000_000.0, 20_000_000.0, 25_000_000.0,
    30_000_000.0, 35_000_000.0, 40_000_000.0, 45_000_000.0, 50_000_000.0, 60_000_000.0, 70_000_000.0,
    80_000_000.0, 90_000_000.0]
  const HUNDRED_MILLIONS: seq<real> := [
    100_000_000.0, 120_000_000.0, 140_000_000.0, 160_000_000.0, 180_000_000.0, 200_000_000.0,
    250_000_000.0, 300_000_000.0, 350_000_000.0, 400_000_000.0, 450_000_000.0, 500_000_000.0,
    600_000_000.0, 700_000_000.0, 800_000_000.0, 900_000_000.0]
  const BILLIONS: seq<real> := [
    1_000_000_000.0, 1_200_000_000.0, 1_400_000_000.0, 1_600_000_000.0, 1_800_000_000.0, 2_000_000_000.0,
    2_500_000_000.0, 3_000_000_000.0, 3_500_000_000.0, 4_000_000_000.0, 4_500_000_000.0, 5_000_000_000.0,
    6_000_000_000.0, 7_000_000_000.0, 8_000_000_000.0, 9_000_000_000.0]

  /** `kBucketLimit`: the exclusive upper bound of each bucket. */
  const BUCKET_LIMIT: seq<real> :=
    BELOW_MILLION + MILLIONS + TEN_MILLIONS + HUNDRED_MILLIONS + BILLIONS + [1e200]

  const BELOW_MILLION: seq<real> :=
    BELOW_THOUSAND + THOUSANDS + TEN_THOUSANDS + HUNDRED_THOUSANDS

  const BELOW_THOUSAND: seq<real> := ONES + TENS + HUNDREDS

  /** The limits in closed form, continued for ever: after the first decade, each block of 16 is ten times the last. */
  function Limit(b: nat): (x: real)
  {
    if b <= 9 then (b + 1) as real
    else if b <= 14 then (2 * b - 8) as real
    else if b <= 20 then (5 * b - 50) as real
    else if b <= 25 then (10 * b - 150) as real
    else 10.0 * Limit(b - 16)
  }

  predicate TenTimes(low: seq<real>, high: seq<real>)
  {
    |low| == 16 && |high| == 16 && forall i :: 0 <= i < 16 ==> high[i] == 10.0 * low[i]
  }

  lemma LimitDecade(b: nat)
    requires b >= 9
    ensures Limit(b + 16) == 10.0 * Limit(b)
  {
  }

  predicate RowAt(row: seq<real>, start: nat)
  {
    |row| == 16 && forall i :: 0 <= i < 16 ==> row[i] == Limit(start + i)
  }

  lemma NextRow(low: seq<real>, high: seq<real>, start: nat)
    requires start >= 9 && RowAt(low, start) && TenTimes(low, high)
    ensures RowAt(high, start + 16)
  {
    forall i | 0 <= i < 16
      ensures high[i] == Limit(start + 16 + i)
    {
      LimitDecade(start + i);
    }
  }

  predicate Closed(table: seq<real>)
  {
    forall b :: 0 <= b < |table| ==> table[b] == Limit(b)
  }

  lemma AppendRow(table: seq<real>, row: seq<real>)
    requires Closed(table) && RowAt(row, |table|)
    ensures Closed(table + row)
  {
  }

  lemma AppendThree(table: seq<real>, x: seq<real>, y: seq<real>, z: seq<real>)
    requires Closed(table) && RowAt(x, |table|) && RowAt(y, |table| + 16) && RowAt(z, |table| + 32)
    ensures Closed(table + x + y + z) && |table + x + y + z| == |table| + 48
  {
    AppendRow(table, x);
    AppendRow(table + x, y);
    AppendRow(table + x + y, z);
  }

  lemma HundredsRow()
    ensures RowAt(HUNDREDS, 25)
  {
    NextRow(TENS, HUNDREDS, 9);
  }

  lemma ThousandsRow()
    ensures RowAt(THOUSANDS, 41)
  {
    HundredsRow();
    NextRow(HUNDREDS, THOUSANDS, 25);
  }

  lemma TenThousandsRow()
    ensures RowAt(TEN_THOUSANDS, 57)
  {
    ThousandsRow();
    NextRow(THOUSANDS, TEN_THOUSANDS, 41);
  }

  lemma HundredThousandsRow()
    ensures RowAt(HUNDRED_THOUSANDS, 73)
  {
    TenThousandsRow();
    NextRow(TEN_THOUSANDS, HUNDRED_THOUSANDS, 57);
  }

  lemma MillionsRow()
    ensures RowAt(MILLIONS, 89)
  {
    HundredThousandsRow();
    NextRow(HUNDRED_THOUSANDS, MILLIONS, 73);
  }

  lemma TenMillionsRow()
    ensures RowAt(TEN_MILLIONS, 105)
  {
    MillionsRow();
    NextRow(MILLIONS, TEN_MILLIONS, 89);
  }

  lemma HundredMillionsRow()
    ensures RowAt(HUNDRED_MILLIONS, 121)
  {
    TenMillionsRow();
    NextRow(TEN_MILLIONS, HUNDRED_MILLIONS, 105);
  }

  lemma BillionsRow()
    ensures RowAt(BILLIONS, 137)
  {
    HundredMillionsRow();
    NextRow(HUNDRED_MILLIONS, BILLIONS, 121);
  }

  lemma BelowThousandClosed()
    ensures |BELOW_THOUSAND| == 41 && Closed(BELOW_THOUSAND)
  {
    HundredsRow();
    AppendRow(ONES, TENS);
    AppendRow(ONES + TENS, HUNDREDS);
  }

  lemma BelowMillionClosed()
    ensures |BELOW_MILLION| == 89 && Closed(BELOW_MILLION)
  {
    BelowThousandClosed();
    ThousandsRow();
    TenThousandsRow();
    HundredThousandsRow();
    AppendThree(BELOW_THOUSAND, THOUSANDS, TEN_THOUSANDS, HUNDRED_THOUSANDS);
  }

  /** The table is the closed form, except that its last entry is 1e200. */
  lemma TableIsClosedForm()
    ensures |BUCKET_LIMIT| == NUM_BUCKETS && BUCKET_LIMIT[NUM_BUCKETS - 1] == 1e200
    ensures forall b :: 0 <= b < NUM_BUCKETS - 1 ==> BUCKET_LIMIT[b] == Limit(b)
  {
    BelowMillionClosed();
    MillionsRow();
    TenMillionsRow();
    HundredMillionsRow();
    BillionsRow();
    AppendThree(BELOW_MILLION, MILLIONS, TEN_MILLIONS, HUNDRED_MILLIONS);
    var table := BELOW_MILLION + MILLIONS + TEN_MILLIONS + HUNDRED_MILLIONS;
    AppendRow(table, BILLIONS);
  }

  // ---------------------------------------------------------------- buckets of values

  lemma {:induction false} LimitIncreases(a: nat, b: nat)
    requires a < b
    ensures 0.0 < Limit(a) < Limit(b)
    decreases b, b - a
  {
    if a + 1 < b {
      LimitIncreases(a, b - 1);
      LimitIncreases(b - 1, b);
    } else if b > 25 {
      LimitIncreases(a - 16, b - 16);
    }
  }

  /** `v` lies in slot `b` of the endless table; negative values go in slot 0. */
  predicate InSlot(v: real, b: nat)
  {
    (b == 0 || Limit(b - 1) <= v) && v < Limit(b)
  }

  lemma SlotUnique(v: real, a: nat, b: nat)
    requires InSlot(v, a) && InSlot(v, b)
    ensures a == b
  {
    if a < b - 1 { LimitIncreases(a, b - 1); }
    if b < a - 1 { LimitIncreases(b, a - 1); }
  }

  /** The linear search of `Add`, started at bucket `b`. */
  function Search(v: real, b: nat): (r: nat)
    requires b < NUM_BUCKETS
    ensures b <= r < NUM_BUCKETS
    decreases NUM_BUCKETS - b, v
  {
    if b < NUM_BUCKETS - 1 && Limit(b) <= v then Search(v, b + 1) else b
  }

  /** The bucket a value is counted in. */
  function BucketOf(v: real): (b: nat)
    ensures b < NUM_BUCKETS
  {
    Search(v, 0)
  }

  lemma {:induction false} SearchSpec(v: real, b: nat)
    requires b < NUM_BUCKETS && (b == 0 || Limit(b - 1) <= v)
    ensures var r := Search(v, b);
            (r == 0 || Limit(r - 1) <= v) && (r < NUM_BUCKETS - 1 ==> v < Limit(r))
    decreases NUM_BUCKETS - b
  {
    if b >= NUM_BUCKETS - 1 || Limit(b) > v {
    } else {
      SearchSpec(v, b + 1);
    }
  }

  /** A value is at or above the limit below its bucket, and below its own bucket's limit unless that is the last. */
  lemma BucketSpec(v: real)
    ensures var b := BucketOf(v);
            (b == 0 || Limit(b - 1) <= v) && (b < NUM_BUCKETS - 1 ==> v < Limit(b))
  {
    SearchSpec(v, 0);
  }

  lemma BucketMonotone(v: real, w: real)
    requires v <= w
    ensures BucketOf(v) <= BucketOf(w)
  {
    BucketSpec(v);
    BucketSpec(w);
    if BucketOf(w) < BucketOf(v) - 1 { LimitIncreases(BucketOf(w), BucketOf(v) - 1); }
  }

  /** The slot `AddFast` computes: scale into [10, 100) counting 16 per division, then by steps of 2, 5 or 10. */
  function FastSlot(v: real): (b: nat)
    decreases v.Floor
  {
    if v >= 100.0 then FastSlot(v / 10.0) + 16
    else if v >= 50.0 then (21.0 + (v - 50.0) / 10.0).Floor
    else if v >= 20.0 then (15.0 + (v - 20.0) / 5.0).Floor
    else if v >= 10.0 then (10.0 + (v - 10.0) / 2.0).Floor
    else if v >= 0.0 then v.Floor
    else 0
  }

  lemma {:induction false} FastSlotSpec(v: real)
    ensures InSlot(v, FastSlot(v))
    ensures v >= 10.0 ==> FastSlot(v) >= 10
    decreases v.Floor
  {
    if v >= 100.0 {
      FastSlotSpec(v / 10.0);
      LimitDecade(FastSlot(v / 10.0));
      LimitDecade(FastSlot(v / 10.0) - 1);
    } else if v >= 10.0 {
      MidSlotSpec(v);
    }
  }

  lemma MidSlotSpec(v: real)
    requires 10.0 <= v < 100.0
    ensures InSlot(v, FastSlot(v)) && FastSlot(v) >= 10
  {
    var b := FastSlot(v);
    if v >= 50.0 {
      assert 21 <= b <= 25;
    } else if v >= 20.0 {
      assert 15 <= b <= 20;
    } else {
      assert 10 <= b <= 14;
    }
  }

  /** The arithmetic bucket, capped at the last one, is the searched bucket, for every real. */
  lemma FastIsSearch(v: real)
    ensures BucketOf(v) == if FastSlot(v) >= NUM_BUCKETS then NUM_BUCKETS - 1 else FastSlot(v)
  {
    var f, b := FastSlot(v), BucketOf(v);
    FastSlotSpec(v);
    BucketSpec(v);
    if b < NUM_BUCKETS - 1 {
      SlotUnique(v, f, b);
    } else if f < NUM_BUCKETS - 2 {
      LimitIncreases(f, NUM_BUCKETS - 2);
    }
  }
}
