/**
 The generators built on top of the Zipfian one: the atomic counter, the weighted
 choice of operations, the scrambled and the "latest" key choosers, and the
 rejection loop that draws a transaction key.
 */
module Generators {
  import opened Options
  import opened Reals
  import opened Fnv
  import opened Zipfian

  // ---------------------------------------------------------------- counter

  /** `CounterGenerator`: an atomic 64-bit word. */
  class CounterGenerator {
    var counter: uint64

    constructor (start: uint64)
      ensures counter == start
    {
      counter := start;
    }

    /** fetch_add(1): the old value, with wrap-around. */
    method Next() returns (r: uint64)
      modifies this
      ensures r == old(counter)
      ensures counter == if r + 1 == TWO64 then 0 else r + 1
    {
      r := counter;
      counter := (counter + 1) % TWO64;
    }

    /** The number handed out most recently; wraps at zero. */
    function Last(): (r: uint64)
      reads this
      ensures (r + 1) % TWO64 == counter
    {
      (counter + TWO64 - 1) % TWO64
    }

    method Set(start: uint64)
      modifies this
      ensures counter == start
    {
      counter := start;
    }
  }

  // ---------------------------------------------------------------- weighted choice

  function Total(weights: seq<real>): (t: real)
  {
    if weights == [] then 0.0 else Total(weights[..|weights| - 1]) + weights[|weights| - 1]
  }

  /** Sum of the first `i` weights. */
  function Prefix(weights: seq<real>, i: nat): (t: real)
    requires i <= |weights|
  {
    if i == 0 then 0.0 else weights[0] + Prefix(weights[1..], i - 1)
  }

  lemma {:induction false} PrefixOfAll(weights: seq<real>)
    ensures Prefix(weights, |weights|) == Total(weights)
  {
    if weights == [] {
    } else {
      PrefixOfAll(weights[..|weights| - 1]);
      PrefixLast(weights, |weights| - 1);
      PrefixCut(weights, |weights| - 1);
    }
  }

  lemma {:induction false} PrefixLast(weights: seq<real>, i: nat)
    requires i < |weights|
    ensures Prefix(weights, i + 1) == Prefix(weights, i) + weights[i]
  {
    if i == 0 {
    } else {
      PrefixLast(weights[1..], i - 1);
    }
  }

  lemma {:induction false} PrefixCut(weights: seq<real>, i: nat)
    requires i < |weights|
    ensures Prefix(weights, i) == Prefix(weights[..|weights| - 1], i)
  {
    if i == 0 {
    } else {
      PrefixCut(weights[1..], i - 1);
      assert weights[..|weights| - 1][1..] == weights[1..][..|weights[1..]| - 1];
    }
  }

  predicate NonNegative(weights: seq<real>)
  {
    forall i :: 0 <= i < |weights| ==> weights[i] >= 0.0
  }

  lemma {:induction false} PrefixNonNegative(weights: seq<real>, i: nat)
    requires NonNegative(weights) && i <= |weights|
    ensures Prefix(weights, i) >= 0.0
  {
    if i == 0 {
    } else {
      PrefixNonNegative(weights[1..], i - 1);
    }
  }

  /** The index picked by subtracting scaled weights from the draw until it falls below one. */
  function Pick(weights: seq<real>, sum: real, u: real): (r: Option<nat>)
    requires sum != 0.0
    decreases |weights|
  {
    if weights == [] then None
    else if u < weights[0] / sum then Some(0)
    else match Pick(weights[1..], sum, u - weights[0] / sum)
      case Some(i) => Some(i + 1)
      case None => None
  }

  /** The draw falls in the i-th slice of [0, 1). */
  predicate InSlice(weights: seq<real>, sum: real, u: real, i: nat)
    requires sum != 0.0
  {
    i < |weights| && Prefix(weights, i) / sum <= u < Prefix(weights, i + 1) / sum
  }

  lemma SplitQuotient(a: real, b: real, sum: real, u: real)
    requires sum > 0.0
    ensures (a + b) / sum <= u <==> b / sum <= u - a / sum
  {
    QuotientCompare(a + b, sum, u);
    QuotientCompare(b, sum, u - a / sum);
    assert Times(u - a / sum, sum) == Times(u, sum) - a;
  }

  lemma {:induction false} PickIsSlice(weights: seq<real>, sum: real, u: real, i: nat)
    requires NonNegative(weights) && sum > 0.0 && u >= 0.0
    ensures Pick(weights, sum, u) == Some(i) <==> InSlice(weights, sum, u, i)
    decreases |weights|
  {
    if weights == [] {
    } else {
      var w, rest := weights[0], weights[1..];
      if i > 0 {
        if i <= |rest| {
          SplitQuotient(w, Prefix(rest, i - 1), sum, u);
          PrefixNonNegative(rest, i - 1);
          QuotientCompare(Prefix(rest, i - 1), sum, 0.0);
          SplitQuotient(w, Prefix(rest, i), sum, u);
        }
        if u >= w / sum { PickIsSlice(rest, sum, u - w / sum, i - 1); }
      } else {
        assert Prefix(weights, 1) == w + Prefix(rest, 0);
      }
    }
  }

  /** Exactly one operation owns each draw in [0, 1), and the loop finds it. */
  lemma PickExactly(weights: seq<real>, u: real)
    requires NonNegative(weights) && Total(weights) > 0.0 && 0.0 <= u < 1.0
    ensures Pick(weights, Total(weights), u).Some?
    ensures forall i: nat :: Pick(weights, Total(weights), u) == Some(i) <==> InSlice(weights, Total(weights), u, i)
  {
    var t := Total(weights);
    forall i: nat
      ensures Pick(weights, t, u) == Some(i) <==> InSlice(weights, t, u, i)
    {
      PickIsSlice(weights, t, u, i);
    }
    PrefixOfAll(weights);
    assert Prefix(weights, |weights|) / t == 1.0;
    var i := SliceExists(weights, t, u, |weights|);
  }

  lemma {:induction false} SliceExists(weights: seq<real>, sum: real, u: real, n: nat) returns (i: nat)
    requires sum > 0.0 && u >= 0.0 && n <= |weights| && u < Prefix(weights, n) / sum
    ensures InSlice(weights, sum, u, i)
  {
    if n == 0 {
      assert false;
    }
    if Prefix(weights, n - 1) / sum <= u {
      i := n - 1;
    } else {
      i := SliceExists(weights, sum, u, n - 1);
    }
  }

  /**
   The same loop as it runs on doubles, total in `sum`. Over a zero sum a positive weight becomes
   +infinity, above every draw, and any other weight leaves a chooser (NaN or +infinity, here None) that
   is below nothing ever after.
   */
  function Choose(weights: seq<real>, sum: real, chooser: Option<real>): (r: Option<nat>)
    ensures r.Some? ==> r.value < |weights|
    decreases |weights|
  {
    if weights == [] then None
    else if Below(chooser, weights[0], sum) then Some(0)
    else match Choose(weights[1..], sum, Minus(chooser, weights[0], sum))
      case Some(i) => Some(i + 1)
      case None => None
  }

  /** `chooser < weight / sum`. */
  predicate Below(chooser: Option<real>, weight: real, sum: real)
  {
    chooser.Some? && if sum == 0.0 then weight > 0.0 else chooser.value < weight / sum
  }

  /** `chooser - weight / sum`, after that comparison has failed. */
  function Minus(chooser: Option<real>, weight: real, sum: real): (r: Option<real>)
  {
    if chooser.None? || sum == 0.0 then None else Some(chooser.value - weight / sum)
  }

  lemma {:induction false} ChooseIsPick(weights: seq<real>, sum: real, u: real)
    requires sum != 0.0
    ensures Choose(weights, sum, Some(u)) == Pick(weights, sum, u)
    decreases |weights|
  {
    if weights == [] {
    } else {
      ChooseIsPick(weights[1..], sum, u - weights[0] / sum);
    }
  }

  lemma {:induction false} ChooseNothing(weights: seq<real>, sum: real)
    ensures Choose(weights, sum, None) == None
  {
    if weights == [] {
    } else {
      ChooseNothing(weights[1..], sum);
    }
  }

  /** Weights that cancel out: the first value is chosen if its weight is positive, otherwise none ever is. */
  lemma ChooseOverZero(weights: seq<real>, u: real)
    ensures Choose(weights, 0.0, Some(u)) == if weights != [] && weights[0] > 0.0 then Some(0) else None
  {
    if weights == [] {
    } else {
      ChooseNothing(weights[1..], 0.0);
    }
  }

  function Weights<V>(values: seq<(V, real)>): (w: seq<real>)
  {
    seq(|values|, i requires 0 <= i < |values| => values[i].1)
  }

  class DiscreteGenerator<V(==)> {
    var values: seq<(V, real)>
    var sum: real
    var last: Option<V>

    ghost predicate Valid()
      reads this
    {
      sum == Total(Weights(values)) && (values == [] <==> last.None?)
    }

    constructor ()
      ensures Valid() && values == []
    {
      values, sum, last := [], 0.0, None;
    }

    method AddValue(value: V, weight: real)
      requires Valid()
      modifies this
      ensures Valid() && values == old(values) + [(value, weight)]
      ensures last == if old(values) == [] then Some(value) else old(last)
    {
      if values == [] {
        last := Some(value);
      }
      assert Weights(values + [(value, weight)])[..|values|] == Weights(values);
      values := values + [(value, weight)];
      sum := sum + weight;
    }

    /** None is the trailing `assert(false)`. */
    method Next(u: real) returns (r: Option<V>)
      requires Valid()
      modifies this`last
      ensures match Choose(Weights(values), sum, Some(u))
              case None => r == None
              case Some(i) => r == Some(values[i].0)
      ensures sum != 0.0 ==> Choose(Weights(values), sum, Some(u)) == Pick(Weights(values), sum, u)
      ensures last == if r.Some? then r else old(last)
    {
      var chooser: Option<real>, p := Some(u), 0;
      ghost var w := Weights(values);
      assert w[0..] == w;
      if sum != 0.0 { ChooseIsPick(w, sum, u); }
      while p < |values|
        invariant 0 <= p <= |values|
        invariant Choose(w, sum, Some(u)) ==
                  match Choose(w[p..], sum, chooser)
                  case Some(i) => Some(i + p)
                  case None => None
      {
        assert w[p..][0] == values[p].1 && w[p..][1..] == w[p + 1..];
        if Below(chooser, values[p].1, sum) {
          last := Some(values[p].0);
          return last;
        }
        chooser := Minus(chooser, values[p].1, sum);
        p := p + 1;
      }
      r := None;
    }
  }

  // ---------------------------------------------------------------- uniform

  /** `UniformGenerator`: both bounds inclusive. */
  class UniformGenerator {
    const min: uint64
    const max: uint64
    var last: uint64

    constructor (min: uint64, max: uint64, u: real)
      requires min <= max && 0.0 <= u < 1.0
      ensures this.min == min && this.max == max && min <= last <= max
    {
      this.min, this.max := min, max;
      last := min;
      new;
      var _ := Next(u);
    }

    /** A draw in [0, 1) scaled onto the range. */
    method Next(u: real) returns (r: uint64)
      requires min <= max && 0.0 <= u < 1.0
      modifies this`last
      ensures min <= r <= max && last == r
      ensures (r - min) as real <= Times(u, (max - min + 1) as real) < (r - min + 1) as real
    {
      var width := (max - min + 1) as real;
      MulMonotone(0.0, u, width);
      MulStrict(u, 1.0, width);
      r := min + Times(u, width).Floor;
      last := r;
    }
  }

  // ---------------------------------------------------------------- scrambled zipfian

  /** Spreads the popular items over the key space. */
  function Scramble(base: nat, numItems: nat, value: uint64): (r: nat)
    requires numItems > 0
    ensures base <= r < base + numItems
  {
    base + Hash(value) % numItems
  }

  /** Scrambling is FNV-1a of the item's eight octets, reduced to the key space. */
  lemma ScrambleIsFnv1a(base: nat, numItems: nat, value: uint64)
    requires numItems > 0
    ensures Scramble(base, numItems, value) == base + Fnv1a(OFFSET_BASIS, WordOctets(value)) % numItems
  {
    HashIsFnv1a(value);
  }

  /** The state of a generator that has only ever been asked for its own items. */
  function Settled(c: Config): (s: State)
    requires c.Valid()
    ensures Consistent(c, s)
  {
    State(c.Zeta(c.numItems), c.numItems, c.Eta(c.Zeta(c.numItems)))
  }

  lemma SettledSample(c: Config, u: real)
    requires c.Valid() && 0.0 <= u < 1.0
    ensures Step(c, Settled(c), c.numItems, u).0 == Settled(c)
    ensures Sample(c, Settled(c), c.numItems, u).Some?
    ensures Sample(c, Settled(c), c.numItems, u).value < c.base + c.numItems
  {
    SampleCases(c, Settled(c), c.numItems, u);
  }

  class ScrambledZipfianGenerator {
    const base: nat
    const numItems: nat
    const generator: ZipfianGenerator

    ghost predicate Valid()
      reads this, generator
    {
      && generator.Valid() && generator.Snapshot() == Settled(generator.c)
      && base == generator.c.base && numItems == generator.c.numItems && base + numItems <= TWO64
    }

    constructor (c: Config, u: real)
      requires c.Valid() && c.base + c.numItems <= TWO64 && 0.0 <= u < 1.0
      ensures Valid() && fresh(generator) && generator.c == c
    {
      base, numItems := c.base, c.numItems;
      generator := new ZipfianGenerator(c, u);
    }

    /** Unlike the inner generator's, every result is within [base, base + numItems). */
    method Next(u: real) returns (r: uint64)
      requires Valid() && 0.0 <= u < 1.0
      modifies generator
      ensures Valid()
      ensures base <= r < base + numItems
      ensures var v := Sample(generator.c, Settled(generator.c), numItems, u);
              && v.Some? && v.value < TWO64 && r == Scramble(base, numItems, v.value)
              && r == base + Fnv1a(OFFSET_BASIS, WordOctets(v.value)) % numItems
    {
      SettledSample(generator.c, u);
      var v := generator.Next(numItems, u);
      r := Scramble(base, numItems, v);
      ScrambleIsFnv1a(base, numItems, v);
    }
  }

  // ---------------------------------------------------------------- latest

  /** `max - zipfian_.Next(max)` on 64-bit words. */
  function FromLatest(max: uint64, v: uint64): (r: uint64)
  {
    (max + TWO64 - v) % TWO64
  }

  lemma LatestOffset(c: Config, s: State, max: uint64, u: real)
    requires Consistent(c, s) && c.base == 0 && 2 <= max && 0.0 <= u < 1.0
    ensures Sample(c, s, max, u).Some? && Sample(c, s, max, u).value <= max
    ensures FromLatest(max, Sample(c, s, max, u).value) == max - Sample(c, s, max, u).value
    ensures c.numItems >= 3 || s.nForZeta == 2 ==> Sample(c, s, max, u).value < max
  {
    SampleCases(c, s, max, u);
    if c.numItems >= 3 || s.nForZeta == 2 { SampleBelow(c, s, max, u); }
  }

  class SkewedLatestGenerator {
    const basis: CounterGenerator
    const zipfian: ZipfianGenerator
    var last: uint64

    ghost predicate Valid()
      reads this, basis, zipfian
    {
      zipfian.Valid() && zipfian.c.base == 0
    }

    /** The counter must allow a Zipfian generator over Last() items. */
    constructor (counter: CounterGenerator, pow: PowFn, theta: real, u: real, v: real)
      requires Config(pow, theta, counter.Last(), 0).Valid() && 0.0 <= u < 1.0 && 0.0 <= v < 1.0
      ensures Valid() && fresh(zipfian) && basis == counter
      ensures zipfian.c == Config(pow, theta, counter.Last(), 0)
      ensures zipfian.Snapshot() == Settled(zipfian.c)
      ensures 1 <= last <= counter.Last()
    {
      var z := new ZipfianGenerator(Config(pow, theta, counter.Last(), 0), u);
      basis, zipfian, last := counter, z, 0;
      new;
      var _ := Next(v);
    }

    /**
     Never wraps: the result is in [0, max], and in [1, max] unless a two-item
     generator has been asked for more items.
     */
    method Next(u: real) returns (r: uint64)
      requires Valid() && 2 <= basis.Last() < MAX_ITEMS && 0.0 <= u < 1.0
      modifies this`last, zipfian
      ensures Valid() && last == r
      ensures (zipfian.Snapshot(), Some(basis.Last() - r)) == Step(zipfian.c, old(zipfian.Snapshot()), basis.Last(), u)
      ensures r <= basis.Last()
      ensures zipfian.c.numItems >= 3 || zipfian.nForZeta == 2 ==> r >= 1
    {
      var max := basis.Last();
      var v := zipfian.Next(max, u);
      LatestOffset(zipfian.c, zipfian.Snapshot(), max, u);
      r := FromLatest(max, v);
      last := r;
    }
  }

  // ---------------------------------------------------------------- the key chooser of a workload

  /** The three request distributions, with the state each draw depends on. */
  datatype KeyChooser =
    | Uniform(items: nat)
    | Zipf(c: Config)
    | Latest(c: Config)

  /** The chooser `Init` wires up for a workload of `recordCount` records. */
  ghost predicate WiredFor(k: KeyChooser, recordCount: nat, newKeys: nat)
  {
    match k
    case Uniform(n) => recordCount >= 1 && n == recordCount
    case Zipf(c) => c.Valid() && c.base == 0 && c.numItems == recordCount + newKeys
    case Latest(c) => c.Valid() && c.base == 0 && c.numItems == recordCount - 1
  }

  /**
   Key number `key` can come out of the chooser: of the uniform one if it is in range, of the
   others if some random draw produces it. `insert_key_sequence_` is set once to the record
   count and never advanced, so its `Last()` is recordCount - 1 throughout.
   */
  ghost predicate CanDraw(k: KeyChooser, key: nat)
    requires k.Uniform? || k.c.Valid()
  {
    match k
    case Uniform(n) => key < n
    case Zipf(c) => exists u: real :: 0.0 <= u < 1.0 && ScrambledKey(c, u) == Some(key)
    case Latest(c) => exists u: real :: 0.0 <= u < 1.0 && LatestKey(c, u) == Some(key)
  }

  function ScrambledKey(c: Config, u: real): (r: Option<nat>)
    requires c.Valid()
  {
    match Sample(c, Settled(c), c.numItems, u)
    case None => None
    case Some(v) => Some(Scramble(c.base, c.numItems, v % TWO64))
  }

  function LatestKey(c: Config, u: real): (r: Option<nat>)
    requires c.Valid()
  {
    match Sample(c, Settled(c), c.numItems, u)
    case None => None
    case Some(v) => Some(FromLatest(c.numItems, v % TWO64))
  }

  lemma ScrambledKeyRange(c: Config, u: real)
    requires c.Valid() && 0.0 <= u < 1.0
    ensures ScrambledKey(c, u).Some? && c.base <= ScrambledKey(c, u).value < c.base + c.numItems
  {
    SampleCases(c, Settled(c), c.numItems, u);
  }

  lemma LatestKeyRange(c: Config, u: real)
    requires c.Valid() && c.base == 0 && 0.0 <= u < 1.0
    ensures LatestKey(c, u).Some? && 1 <= LatestKey(c, u).value <= c.numItems
  {
    SampleBelow(c, Settled(c), c.numItems, u);
    var v := Sample(c, Settled(c), c.numItems, u).value;
    assert v % TWO64 == v;
    LatestOffset(c, Settled(c), c.numItems, u);
  }

  /** Which draws the rejection loop can ever see rejected. */
  lemma DrawRange(k: KeyChooser, recordCount: nat, newKeys: nat, key: nat)
    requires WiredFor(k, recordCount, newKeys) && CanDraw(k, key)
    ensures k.Latest? ==> 1 <= key <= recordCount - 1
    ensures k.Uniform? || newKeys == 0 ==> key <= recordCount - 1
    ensures key < recordCount + newKeys
  {
    match k
    case Uniform(_) =>
    case Zipf(c) =>
      var u: real :| 0.0 <= u < 1.0 && ScrambledKey(c, u) == Some(key);
      ScrambledKeyRange(c, u);
    case Latest(c) =>
      var u: real :| 0.0 <= u < 1.0 && LatestKey(c, u) == Some(key);
      LatestKeyRange(c, u);
  }

  /** The key is what some item number is scrambled to. */
  ghost predicate IsScrambled(numItems: nat, key: nat)
    requires numItems > 0
  {
    exists v: uint64 :: v < numItems && key == Scramble(0, numItems, v)
  }

  /** Exactly which keys a chooser draws: latest all of its range, zipfian the scrambled items. */
  lemma DrawnExactly(k: KeyChooser, recordCount: nat, newKeys: nat, key: nat)
    requires WiredFor(k, recordCount, newKeys)
    ensures k.Uniform? ==> (CanDraw(k, key) <==> key < recordCount)
    ensures k.Latest? ==> (CanDraw(k, key) <==> 1 <= key < recordCount)
    ensures k.Zipf? ==> (CanDraw(k, key) <==> IsScrambled(recordCount + newKeys, key))
  {
    match k
    case Uniform(_) =>
    case Zipf(c) => ScrambledExactly(c, key);
    case Latest(c) => LatestExactly(c, key);
  }

  lemma ScrambledExactly(c: Config, key: nat)
    requires c.Valid() && c.base == 0
    ensures CanDraw(Zipf(c), key) <==> IsScrambled(c.numItems, key)
  {
    if CanDraw(Zipf(c), key) {
      var u: real :| 0.0 <= u < 1.0 && ScrambledKey(c, u) == Some(key);
      ScrambledItem(c, u);
    }
    if v: uint64 :| v < c.numItems && key == Scramble(0, c.numItems, v) {
      var u := SampleOnto(c, Settled(c), v);
      ScrambledCanDraw(c, u, v);
    }
  }

  lemma ScrambledItem(c: Config, u: real)
    requires c.Valid() && c.base == 0 && 0.0 <= u < 1.0
    ensures ScrambledKey(c, u).Some? && IsScrambled(c.numItems, ScrambledKey(c, u).value)
  {
    SettledSample(c, u);
    var v: uint64 := Sample(c, Settled(c), c.numItems, u).value;
    assert v % TWO64 == v;
    assert ScrambledKey(c, u) == Some(Scramble(0, c.numItems, v));
  }

  lemma LatestExactly(c: Config, key: nat)
    requires c.Valid() && c.base == 0
    ensures CanDraw(Latest(c), key) <==> 1 <= key <= c.numItems
  {
    if CanDraw(Latest(c), key) {
      var u: real :| 0.0 <= u < 1.0 && LatestKey(c, u) == Some(key);
      LatestKeyRange(c, u);
    }
    if 1 <= key <= c.numItems {
      var u := SampleOnto(c, Settled(c), c.numItems - key);
      LatestCanDraw(c, u, key);
    }
  }

  /** The rejection loop: the position of the first draw not beyond `last`. */
  function FirstAccepted(draws: seq<uint64>, last: uint64): (r: Option<nat>)
    ensures r.Some? ==> r.value < |draws| && draws[r.value] <= last
    ensures r.Some? ==> forall i :: 0 <= i < r.value ==> draws[i] > last
    ensures r.None? ==> forall i :: 0 <= i < |draws| ==> draws[i] > last
  {
    if draws == [] then None
    else if draws[0] <= last then Some(0)
    else match FirstAccepted(draws[1..], last)
      case None => None
      case Some(i) => Some(i + 1)
  }

  /** Uniform, latest, and zipfian without inserts: the first draw is always taken. */
  lemma OneDrawSuffices(k: KeyChooser, recordCount: nat, newKeys: nat, draws: seq<uint64>)
    requires WiredFor(k, recordCount, newKeys) && 1 <= recordCount < TWO64 && draws != []
    requires forall i :: 0 <= i < |draws| ==> CanDraw(k, draws[i])
    requires k.Zipf? ==> newKeys == 0
    ensures FirstAccepted(draws, recordCount - 1) == Some(0)
  {
    DrawRange(k, recordCount, if k.Zipf? then newKeys else 0, draws[0]);
  }

  /** What the scrambled generator object returns is what its distribution can draw. */
  lemma ScrambledCanDraw(c: Config, u: real, v: nat)
    requires c.Valid() && 0.0 <= u < 1.0 && v < TWO64 && Sample(c, Settled(c), c.numItems, u) == Some(v)
    ensures DrawnAt(Zipf(c), u, Scramble(c.base, c.numItems, v)) && CanDraw(Zipf(c), Scramble(c.base, c.numItems, v))
  {
    assert v % TWO64 == v;
    assert ScrambledKey(c, u) == Some(Scramble(c.base, c.numItems, v));
  }

  /** What the latest generator object returns, while its basis does not move, likewise. */
  lemma LatestCanDraw(c: Config, u: real, key: nat)
    requires c.Valid() && c.base == 0 && 0.0 <= u < 1.0 && key <= c.numItems
    requires Sample(c, Settled(c), c.numItems, u) == Some(c.numItems - key)
    ensures DrawnAt(Latest(c), u, key) && CanDraw(Latest(c), key)
  {
    LatestOffset(c, Settled(c), c.numItems, u);
    var v := c.numItems - key;
    assert v % TWO64 == v;
    assert LatestKey(c, u) == Some(key);
  }

  /** The key a chooser draws from the random number `u`. */
  ghost predicate DrawnAt(k: KeyChooser, u: real, key: nat)
    requires k.Uniform? || k.c.Valid()
  {
    match k
    case Uniform(n) => key as real <= Times(u, n as real) < (key + 1) as real
    case Zipf(c) => ScrambledKey(c, u) == Some(key)
    case Latest(c) => LatestKey(c, u) == Some(key)
  }

  /** The `key_chooser_` of a workload: one of the three generator objects. */
  class RequestChooser {
    const kind: KeyChooser
    const uniform: UniformGenerator?
    const zipf: ScrambledZipfianGenerator?
    const latest: SkewedLatestGenerator?

    /** The objects a draw changes. */
    ghost function Parts(): (p: set<object>)
    {
      (if uniform != null then {uniform as object} else {}) +
      (if zipf != null then {zipf.generator as object} else {}) +
      (if latest != null then {latest, latest.zipfian} else {})
    }

    /** The object matches its distribution; a latest chooser's basis stands where it was built. */
    ghost predicate Valid()
      reads this, Parts(), zipf, latest, if latest != null then {latest.basis} else {}
    {
      match kind
      case Uniform(n) => n >= 1 && uniform != null && uniform.min == 0 && uniform.max == n - 1
      case Zipf(c) => zipf != null && zipf.Valid() && zipf.generator.c == c && c.base == 0
      case Latest(c) =>
        && latest != null && latest.Valid() && latest.zipfian.c == c
        && latest.zipfian.Snapshot() == Settled(c) && latest.basis.Last() == c.numItems
    }

    constructor ForUniform(items: nat, u: real)
      requires 1 <= items < TWO64 && 0.0 <= u < 1.0
      ensures Valid() && kind == Uniform(items) && fresh(Parts())
    {
      kind, zipf, latest := Uniform(items), null, null;
      uniform := new UniformGenerator(0, items - 1, u);
    }

    constructor ForZipfian(c: Config, u: real)
      requires c.Valid() && c.base == 0 && 0.0 <= u < 1.0
      ensures Valid() && kind == Zipf(c) && fresh(Parts())
    {
      kind, uniform, latest := Zipf(c), null, null;
      zipf := new ScrambledZipfianGenerator(c, u);
    }

    constructor ForLatest(counter: CounterGenerator, pow: PowFn, theta: real, u: real, v: real)
      requires Config(pow, theta, counter.Last(), 0).Valid() && 0.0 <= u < 1.0 && 0.0 <= v < 1.0
      ensures Valid() && kind == Latest(Config(pow, theta, counter.Last(), 0)) && fresh(Parts())
      ensures latest != null && latest.basis == counter
    {
      kind, uniform, zipf := Latest(Config(pow, theta, counter.Last(), 0)), null, null;
      latest := new SkewedLatestGenerator(counter, pow, theta, u, v);
    }

    /** The key returned is the one the distribution makes of the random number. */
    method Next(u: real) returns (key: uint64)
      requires Valid() && 0.0 <= u < 1.0
      modifies Parts()
      ensures Valid() && (kind.Uniform? || kind.c.Valid()) && DrawnAt(kind, u, key) && CanDraw(kind, key)
    {
      match kind
      case Uniform(n) =>
        key := uniform.Next(u);
      case Zipf(c) =>
        key := zipf.Next(u);
        ScrambledCanDraw(c, u, Sample(c, Settled(c), c.numItems, u).value);
      case Latest(c) =>
        SettledSample(c, u);
        key := latest.Next(u);
        LatestCanDraw(c, u, key);
    }
  }
}
