/**
 The Zipfian generator of `core/zipfian_generator.h`. `std::pow` is a parameter
 constrained by a few laws, doubles are exact reals, and the random draw of each
 call is an argument in [0, 1).
 */
module Zipfian {
  import opened Options
  import opened Reals

  // ---------------------------------------------------------------- std::pow

  type PowFn = (real, real) -> real

  ghost predicate Positive(pow: PowFn, x: real, a: real)
  {
    x > 0.0 ==> pow(x, a) > 0.0
  }

  ghost predicate Increasing(pow: PowFn, x: real, y: real, a: real)
  {
    0.0 < x < y && a > 0.0 ==> pow(x, a) < pow(y, a)
  }

  ghost predicate PowerOfPower(pow: PowFn, x: real, a: real, b: real)
  {
    x > 0.0 ==> pow(pow(x, a), b) == pow(x, Times(a, b))
  }

  ghost predicate Reciprocal(pow: PowFn, x: real, a: real)
  {
    x > 0.0 ==> pow(1.0 / x, a) * pow(x, a) == 1.0
  }

  ghost predicate Units(pow: PowFn, x: real)
  {
    pow(1.0, x) == 1.0 && (x > 0.0 ==> pow(x, 1.0) == x)
  }

  /** What the generator relies on about `std::pow` at positive bases. */
  ghost predicate PowLaws(pow: PowFn)
  {
    && (forall x: real, a: real :: Positive(pow, x, a))
    && (forall x: real, y: real, a: real :: Increasing(pow, x, y, a))
    && (forall x: real, a: real, b: real :: PowerOfPower(pow, x, a, b))
    && (forall x: real, a: real :: Reciprocal(pow, x, a))
    && (forall x: real :: Units(pow, x))
  }

  /** The laws are consistent: here is a function that obeys them. */
  lemma PowLawsHaveAModel()
    ensures exists pow: PowFn :: PowLaws(pow)
  {
    var pow: PowFn := SignPower;
    forall x: real, a: real, b: real
      ensures PowerOfPower(pow, x, a, b)
    {
      SignPowerOfPower(x, a, b);
    }
    assert PowLaws(pow);
  }

  /** The power with the exponent rounded to its sign. */
  function SignPower(x: real, a: real): (r: real)
  {
    if a > 0.0 || x == 0.0 then x else if a == 0.0 then 1.0 else 1.0 / x
  }

  lemma SignPowerOfPower(x: real, a: real, b: real)
    ensures PowerOfPower(SignPower, x, a, b)
  {
    SignOfProduct(a, b);
  }

  lemma SignOfProduct(a: real, b: real)
    ensures Times(a, b) > 0.0 <==> (a > 0.0 && b > 0.0) || (a < 0.0 && b < 0.0)
    ensures Times(a, b) == 0.0 <==> a == 0.0 || b == 0.0
  {
    if a > 0.0 && b > 0.0 { MulStrict(0.0, a, b); assert Times(a, b) > 0.0; }
    if a < 0.0 && b > 0.0 { MulStrict(a, 0.0, b); assert Times(a, b) < 0.0; }
    if a > 0.0 && b < 0.0 { MulStrict(b, 0.0, a); assert Times(a, b) < 0.0; }
    if a < 0.0 && b < 0.0 { MulStrict(0.0, -a, -b); assert Times(-a, -b) > 0.0; }
  }

  // ---------------------------------------------------------------- zeta

  const MAX_ITEMS: nat := 0xFF_FFFF_FFFF  // UINT64_MAX >> 24

  /** The parameters fixed when a generator is built. */
  datatype Config = Config(pow: PowFn, theta: real, numItems: nat, base: nat) {
    ghost predicate Valid()
    {
      PowLaws(pow) && 0.0 < theta < 1.0 && 2 <= numItems < MAX_ITEMS
    }

    /** 1 / i^theta. */
    function Term(i: nat): (t: real)
      requires Valid() && i >= 1
      ensures t > 0.0
    {
      assert Positive(pow, i as real, theta);
      1.0 / pow(i as real, theta)
    }

    /** The zeta constant from scratch: the sum of 1 / i^theta for i = 1..n. */
    function Zeta(n: nat): (z: real)
      requires Valid()
    {
      if n == 0 then 0.0 else Zeta(n - 1) + Term(n)
    }

    function Alpha(): (a: real)
      requires Valid()
      ensures a > 0.0
    {
      1.0 / (1.0 - theta)
    }

    /** `Eta()`: undefined when its denominator is zero. */
    function Eta(zetaN: real): (e: Option<real>)
      requires Valid()
    {
      if zetaN == 0.0 || zetaN == Zeta(2) then None
      else Some((1.0 - pow(2.0 / numItems as real, 1.0 - theta)) / (1.0 - Zeta(2) / zetaN))
    }
  }

  lemma {:induction false} ZetaIncreases(c: Config, m: nat, n: nat)
    requires c.Valid() && m <= n
    ensures c.Zeta(m) <= c.Zeta(n)
    ensures m < n ==> c.Zeta(m) < c.Zeta(n)
  {
    if m == n {
    } else {
      ZetaIncreases(c, m, n - 1);
    }
  }

  lemma ZetaOfTwo(c: Config)
    requires c.Valid()
    ensures c.Zeta(1) == 1.0
    ensures c.Zeta(2) == 1.0 + c.pow(0.5, c.theta) > 1.0
  {
    assert c.Zeta(0) == 0.0;
    assert Units(c.pow, c.theta) && Positive(c.pow, 2.0, c.theta) && Positive(c.pow, 0.5, c.theta);
    var p := c.pow(2.0, c.theta);
    assert Reciprocal(c.pow, 2.0, c.theta);
    assert c.pow(1.0 / 2.0, c.theta) * p == 1.0;
    assert c.Term(2) == 1.0 / p == c.pow(0.5, c.theta);
    assert c.Zeta(2) == c.Zeta(1) + c.Term(2);
  }

  /** Each further term of zeta is the power of one over its number. */
  lemma ZetaGrowsBy(c: Config, n: nat)
    requires c.Valid() && n >= 1
    ensures c.Zeta(n) - c.Zeta(n - 1) == c.pow(1.0 / n as real, c.theta)
  {
    var x := n as real;
    assert Positive(c.pow, x, c.theta) && Reciprocal(c.pow, x, c.theta);
    assert c.pow(1.0 / x, c.theta) * c.pow(x, c.theta) == 1.0;
  }

  // ---------------------------------------------------------------- state and sampling

  /** The mutable fields. */
  datatype State = State(zetaN: real, nForZeta: nat, eta: Option<real>) {
    /** The number raised to alpha in the third branch. */
    function Argument(u: real): (a: real)
      requires eta.Some?
    {
      Times(eta.value, u) - eta.value + 1.0
    }
  }

  /** What every reachable state satisfies. */
  ghost predicate Consistent(c: Config, s: State)
  {
    && c.Valid()
    && s.nForZeta >= c.numItems
    && s.zetaN == c.Zeta(s.nForZeta)
    && s.eta == c.Eta(s.zetaN)
  }

  function Raised(c: Config, s: State, num: nat): (r: State)
    requires c.Valid()
  {
    if num > s.nForZeta then State(c.Zeta(num), num, c.Eta(c.Zeta(num))) else s
  }

  /** The three-branch inversion for the draw `u`. */
  function Sample(c: Config, s: State, num: nat, u: real): (r: Option<nat>)
    requires c.Valid()
  {
    Invert(c, s, num, u, Times(u, s.zetaN))
  }

  /** The branches on `uz`; None where C++ would convert a NaN. */
  function Invert(c: Config, s: State, num: nat, u: real, uz: real): (r: Option<nat>)
    requires c.Valid()
  {
    if uz < 1.0 then Some(0)
    else if uz < 1.0 + c.pow(0.5, c.theta) then Some(1)
    else if s.eta == None then None
    else if s.Argument(u) < 0.0 then None
    else if s.Argument(u) == 0.0 then Some(c.base)
    else Some(c.base + Scale(c, num, s.Argument(u)))
  }

  /** num * arg^alpha, truncated; adding the whole number `base_` before or after truncating is the same. */
  function Scale(c: Config, num: nat, arg: real): (r: nat)
    requires c.Valid() && arg > 0.0
  {
    assert Positive(c.pow, arg, c.Alpha());
    var x := Times(num as real, c.pow(arg, c.Alpha()));
    assert x >= 0.0;
    x.Floor
  }

  /** One call of `Next(num)`. */
  function Step(c: Config, s: State, num: nat, u: real): (r: (State, Option<nat>))
    requires c.Valid()
  {
    var s' := Raised(c, s, num);
    (s', Sample(c, s', num, u))
  }

  // ---------------------------------------------------------------- the third branch

  lemma PowBelowOne(c: Config, x: real, a: real)
    requires c.Valid() && 0.0 < x <= 1.0 && a > 0.0
    ensures 0.0 < c.pow(x, a) <= 1.0
    ensures x < 1.0 ==> c.pow(x, a) < 1.0
  {
    assert Units(c.pow, a) && Positive(c.pow, x, a) && Increasing(c.pow, x, 1.0, a);
  }

  lemma PowMonotone(c: Config, x: real, y: real, a: real)
    requires c.Valid() && 0.0 < x <= y && a > 0.0
    ensures c.pow(x, a) <= c.pow(y, a)
  {
    assert Increasing(c.pow, x, y, a);
  }

  /** The smallest value the powered argument can take. */
  function LeastArgument(c: Config): (a: real)
    requires c.Valid()
  {
    c.pow(2.0 / c.numItems as real, 1.0 - c.theta)
  }

  lemma LeastArgumentBounds(c: Config)
    requires c.Valid()
    ensures 0.0 < LeastArgument(c) <= 1.0
    ensures c.numItems >= 3 ==> LeastArgument(c) < 1.0
    ensures c.numItems == 2 ==> LeastArgument(c) == 1.0
    ensures c.pow(LeastArgument(c), c.Alpha()) == 2.0 / c.numItems as real
  {
    var x, b := 2.0 / c.numItems as real, 1.0 - c.theta;
    assert 0.0 < x <= 1.0;
    PowBelowOne(c, x, b);
    assert Times(b, c.Alpha()) == 1.0;
    assert PowerOfPower(c.pow, x, b, c.Alpha()) && Units(c.pow, x) && Units(c.pow, b);
  }

  /** eta times (1 - zeta2/zetaN) is 1 - floor, so the argument runs from the floor up to 1. */
  lemma ArgumentRange(s: State, a: real, d: real, u: real)
    requires 0.0 < a <= 1.0 && 0.0 < d && 0.0 <= 1.0 - u <= d && s.eta == Some((1.0 - a) / d)
    ensures a <= s.Argument(u) <= 1.0
    ensures a < 1.0 ==> s.eta.value > 0.0
    ensures a < 1.0 && u < 1.0 ==> s.Argument(u) < 1.0
  {
    var x := EtaShare(1.0 - a, d, 1.0 - u, s.eta.value);
    ArgumentForm(s, u, x);
  }

  lemma EtaShare(b: real, d: real, w: real, e: real) returns (x: real)
    requires 0.0 <= b && 0.0 < d && 0.0 <= w <= d && e == b / d
    ensures x == Times(w, e) && 0.0 <= x <= b
    ensures b > 0.0 ==> e > 0.0
    ensures b > 0.0 && w > 0.0 ==> x > 0.0
  {
    x := Times(w, e);
    assert Times(d, e) == b;
    QuotientCompare(b, d, 0.0);
    MulMonotone(w, d, e);
    MulMonotone(0.0, w, e);
    if b > 0.0 && w > 0.0 { MulStrict(0.0, w, e); }
  }

  lemma ArgumentForm(s: State, u: real, x: real)
    requires s.eta.Some? && x == Times(1.0 - u, s.eta.value)
    ensures s.Argument(u) == 1.0 - x
  {
  }

  lemma ShareOfZeta(u: real, z: real, z2: real)
    requires 0.0 <= u < 1.0 && 1.0 <= z2 <= Times(u, z) && z2 <= z
    ensures z2 < z && z2 / z < 1.0 && z2 / z <= u
  {
    MulStrict(u, 1.0, z);
    QuotientCompare(z2, z, u);
  }

  /** The third branch is entered only when the raised sum is beyond zeta(2). */
  predicate ThirdBranch(c: Config, s: State, u: real)
    requires c.Valid()
  {
    Times(u, s.zetaN) >= 1.0 + c.pow(0.5, c.theta)
  }

  /** In the third branch eta is defined and the powered argument lies in [floor, 1]. */
  lemma ThirdBranchArgument(c: Config, s: State, u: real)
    requires Consistent(c, s) && 0.0 <= u < 1.0 && ThirdBranch(c, s, u)
    ensures s.nForZeta >= 3 && s.eta.Some?
    ensures LeastArgument(c) <= s.Argument(u) <= 1.0
    ensures c.numItems >= 3 ==> s.eta.value > 0.0 && s.Argument(u) < 1.0
  {
    ZetaOfTwo(c);
    var z, z2 := s.zetaN, c.Zeta(2);
    ZetaIncreases(c, 2, s.nForZeta);
    ShareOfZeta(u, z, z2);
    LeastArgumentBounds(c);
    EtaAbove(c, s);
    ArgumentRange(s, LeastArgument(c), 1.0 - z2 / z, u);
  }

  /**
   The powered argument is linear in the draw: 1 for a draw of 1, and (2/n)^(1-theta) at the draw
   zeta(2)/zeta where the third branch begins.
   */
  lemma ArgumentLine(c: Config, s: State, u: real)
    requires Consistent(c, s) && s.nForZeta >= 3
    ensures s.zetaN > 0.0 && s.eta.Some?
    ensures Times(1.0 - s.Argument(u), 1.0 - c.Zeta(2) / s.zetaN) ==
            Times(1.0 - c.pow(2.0 / c.numItems as real, 1.0 - c.theta), 1.0 - u)
  {
    ZetaOfTwo(c);
    ZetaIncreases(c, 2, s.nForZeta);
    EtaAbove(c, s);
    var e, d := s.eta.value, 1.0 - c.Zeta(2) / s.zetaN;
    ArgumentForm(s, u, Times(1.0 - u, e));
    assert Times(e, d) == 1.0 - LeastArgument(c);
    Rearranged(1.0 - u, e, d);
  }

  lemma Rearranged(w: real, e: real, d: real)
    ensures Times(Times(w, e), d) == Times(Times(e, d), w)
  {
  }

  lemma EtaAbove(c: Config, s: State)
    requires Consistent(c, s) && 0.0 < c.Zeta(2) < s.zetaN
    ensures c.Zeta(2) / s.zetaN < 1.0
    ensures s.eta == Some((1.0 - LeastArgument(c)) / (1.0 - c.Zeta(2) / s.zetaN))
  {
    QuotientCompare(c.Zeta(2), s.zetaN, 1.0);
  }

  lemma ThirdBranchPower(c: Config, s: State, u: real)
    requires Consistent(c, s) && 0.0 <= u < 1.0 && ThirdBranch(c, s, u)
    ensures s.eta.Some? && s.Argument(u) > 0.0
    ensures var p := c.pow(s.Argument(u), c.Alpha());
            2.0 / c.numItems as real <= p <= 1.0 && (c.numItems >= 3 ==> p < 1.0)
  {
    ThirdBranchArgument(c, s, u);
    LeastArgumentBounds(c);
    PowMonotone(c, LeastArgument(c), s.Argument(u), c.Alpha());
    PowBelowOne(c, s.Argument(u), c.Alpha());
  }

  lemma ThirdBranchSample(c: Config, s: State, num: nat, u: real)
    requires c.Valid() && ThirdBranch(c, s, u)
    requires s.eta.Some? && s.Argument(u) > 0.0
    ensures Sample(c, s, num, u) == Some(c.base + Scale(c, num, s.Argument(u)))
  {
    assert Positive(c.pow, 0.5, c.theta);
  }

  /** The part of `num` that two items out of `numItems` make up. */
  function LeastShare(c: Config, num: nat): (r: int)
    requires c.Valid()
  {
    Times(num as real, 2.0 / c.numItems as real).Floor
  }

  /**
   The third branch, bounded: with at least three items the result is in
   base + [2 num / numItems, num); with two items it is base + num.
   */
  lemma ThirdBranchValue(c: Config, s: State, num: nat, u: real)
    requires Consistent(c, s) && num >= 1 && 0.0 <= u < 1.0 && ThirdBranch(c, s, u)
    ensures Sample(c, s, num, u).Some?
    ensures c.numItems >= 3 ==>
              c.base + LeastShare(c, num) <= Sample(c, s, num, u).value < c.base + num
    ensures c.numItems == 2 ==> Sample(c, s, num, u).value == c.base + num
  {
    ThirdBranchPower(c, s, u);
    ThirdBranchSample(c, s, num, u);
    ScaledFloor(num, 2.0 / c.numItems as real, c.pow(s.Argument(u), c.Alpha()));
  }

  lemma ScaledFloor(num: nat, low: real, p: real)
    requires num >= 1 && low <= p <= 1.0
    ensures Times(num as real, low).Floor <= Times(num as real, p).Floor <= num
    ensures p < 1.0 ==> Times(num as real, p).Floor < num
    ensures low == 1.0 ==> Times(num as real, p).Floor == num
  {
    ScaleIntoRange(num as real, low, p);
  }

  lemma ScaleIntoRange(n: real, low: real, p: real)
    requires n > 0.0 && low <= p <= 1.0
    ensures Times(n, low) <= Times(n, p) <= n
    ensures p < 1.0 ==> Times(n, p) < n
  {
    MulMonotone(low, p, n);
    MulMonotone(p, 1.0, n);
    if p < 1.0 { MulStrict(p, 1.0, n); }
  }

  // ---------------------------------------------------------------- the sampler over its own item count

  /** The branch taken, in terms of u * zetaN, with what it returns. */
  lemma SampleCases(c: Config, s: State, num: nat, u: real)
    requires Consistent(c, s) && num >= 2 && 0.0 <= u < 1.0
    ensures Sample(c, s, num, u).Some? && c.Zeta(2) > 1.0
    ensures Times(u, s.zetaN) < 1.0 ==> Sample(c, s, num, u).value == 0
    ensures 1.0 <= Times(u, s.zetaN) < c.Zeta(2) ==> Sample(c, s, num, u).value == 1
    ensures c.Zeta(2) <= Times(u, s.zetaN) ==>
              && s.nForZeta >= 3
              && (c.numItems >= 3 ==> c.base + LeastShare(c, num) <= Sample(c, s, num, u).value < c.base + num)
              && (c.numItems == 2 ==> Sample(c, s, num, u).value == c.base + num)
  {
    ZetaOfTwo(c);
    if c.Zeta(2) <= Times(u, s.zetaN) {
      ThirdBranchArgument(c, s, u);
      ThirdBranchValue(c, s, num, u);
    } else {
      FirstBranches(c, s, num, u);
    }
  }

  lemma FirstBranches(c: Config, s: State, num: nat, u: real)
    requires c.Valid() && Times(u, s.zetaN) < 1.0 + c.pow(0.5, c.theta)
    ensures Sample(c, s, num, u) == Some(if Times(u, s.zetaN) < 1.0 then 0 else 1)
  {
  }

  /** With zeta summed over exactly the items drawn from, the draw splits [0, 1) into the three branches. */
  lemma ExactSampler(c: Config, s: State, u: real)
    requires Consistent(c, s) && s.nForZeta == c.numItems && c.base == 0 && 0.0 <= u < 1.0
    ensures s.zetaN > 0.0 && Sample(c, s, c.numItems, u).Some?
    ensures var r := Sample(c, s, c.numItems, u).value;
            && r < c.numItems
            && (r == 0 <==> u < 1.0 / s.zetaN)
            && (r == 1 <==> 1.0 / s.zetaN <= u < c.Zeta(2) / s.zetaN)
            && (r >= 2 <==> c.Zeta(2) / s.zetaN <= u)
  {
    ZetaOfTwo(c);
    ZetaIncreases(c, 2, c.numItems);
    SampleCases(c, s, c.numItems, u);
    TwoOfAll(c);
    QuotientCompare(1.0, s.zetaN, u);
    QuotientCompare(c.Zeta(2), s.zetaN, u);
    assert 1.0 / s.zetaN <= u <==> 1.0 <= Times(u, s.zetaN);
    assert c.Zeta(2) / s.zetaN <= u <==> c.Zeta(2) <= Times(u, s.zetaN);
  }

  lemma TwoOfAll(c: Config)
    requires c.Valid()
    ensures LeastShare(c, c.numItems) == 2
  {
    var n := c.numItems as real;
    assert Times(n, 2.0 / n) == 2.0;
  }

  /** A larger draw never gives a smaller item. */
  lemma SampleMonotone(c: Config, s: State, u: real, v: real)
    requires Consistent(c, s) && s.nForZeta == c.numItems && c.base == 0 && 0.0 <= u <= v < 1.0
    ensures Sample(c, s, c.numItems, u).Some? && Sample(c, s, c.numItems, v).Some?
    ensures Sample(c, s, c.numItems, u).value <= Sample(c, s, c.numItems, v).value
  {
    ExactSampler(c, s, u);
    ExactSampler(c, s, v);
    if c.Zeta(2) / s.zetaN <= u {
      QuotientCompare(c.Zeta(2), s.zetaN, u);
      QuotientCompare(c.Zeta(2), s.zetaN, v);
      ThirdMonotone(c, s, u, v);
    }
  }

  lemma ThirdMonotone(c: Config, s: State, u: real, v: real)
    requires Consistent(c, s) && c.base == 0 && 0.0 <= u <= v < 1.0
    requires c.Zeta(2) <= Times(u, s.zetaN) && c.Zeta(2) <= Times(v, s.zetaN)
    ensures Sample(c, s, c.numItems, u).Some? && Sample(c, s, c.numItems, v).Some?
    ensures Sample(c, s, c.numItems, u).value <= Sample(c, s, c.numItems, v).value
  {
    ThirdBranchForm(c, s, u);
    ThirdBranchForm(c, s, v);
    EtaNonNegative(c, s);
    ArgumentMonotone(s, u, v);
    ScaleMonotone(c, c.numItems, s.Argument(u), s.Argument(v));
  }

  lemma ThirdBranchForm(c: Config, s: State, u: real)
    requires Consistent(c, s) && 0.0 <= u < 1.0
    requires c.Zeta(2) <= Times(u, s.zetaN)
    ensures s.eta.Some? && s.nForZeta >= 3 && c.Zeta(2) > 1.0 && s.Argument(u) > 0.0
    ensures Sample(c, s, c.numItems, u) == Some(c.base + Scale(c, c.numItems, s.Argument(u)))
  {
    ZetaOfTwo(c);
    ThirdBranchArgument(c, s, u);
    ThirdBranchPower(c, s, u);
    ThirdBranchSample(c, s, c.numItems, u);
  }

  lemma EtaNonNegative(c: Config, s: State)
    requires Consistent(c, s) && 1.0 <= c.Zeta(2) && s.eta.Some? && s.nForZeta >= 3
    ensures s.eta.value >= 0.0
  {
    ZetaIncreases(c, 2, s.nForZeta);
    EtaAbove(c, s);
    LeastArgumentBounds(c);
    QuotientCompare(1.0 - LeastArgument(c), 1.0 - c.Zeta(2) / s.zetaN, 0.0);
  }

  lemma ArgumentMonotone(s: State, u: real, v: real)
    requires s.eta.Some? && s.eta.value >= 0.0 && u <= v
    ensures s.Argument(u) <= s.Argument(v)
  {
    MulMonotone(u, v, s.eta.value);
  }

  lemma ScaleMonotone(c: Config, num: nat, x: real, y: real)
    requires c.Valid() && 0.0 < x <= y
    ensures Scale(c, num, x) <= Scale(c, num, y)
  {
    PowMonotone(c, x, y, c.Alpha());
    MulMonotone(c.pow(x, c.Alpha()), c.pow(y, c.Alpha()), num as real);
  }

  // ---------------------------------------------------------------- growing and shrinking item counts

  ghost predicate BelowForEveryDraw(c: Config, s: State, num: nat)
    requires c.Valid()
  {
    forall u: real :: 0.0 <= u < 1.0 ==> Sample(c, s, num, u).Some? && Sample(c, s, num, u).value < num
  }

  lemma SampleBelow(c: Config, s: State, num: nat, u: real)
    requires Consistent(c, s) && c.base == 0 && 2 <= num && 0.0 <= u < 1.0
    requires c.numItems >= 3 || s.nForZeta == 2
    ensures Sample(c, s, num, u).Some? && Sample(c, s, num, u).value < num
  {
    SampleCases(c, s, num, u);
  }

  /** A two-item generator asked for more items answers `num` itself for some draw. */
  lemma TwoItemsOvershoot(c: Config, s: State, num: nat) returns (u: real)
    requires Consistent(c, s) && c.base == 0 && 2 <= num && c.numItems == 2 && s.nForZeta >= 3
    ensures 0.0 <= u < 1.0 && Sample(c, s, num, u) == Some(num)
  {
    ZetaOfTwo(c);
    ZetaIncreases(c, 2, s.nForZeta);
    var q := c.Zeta(2) / s.zetaN;
    QuotientCompare(c.Zeta(2), s.zetaN, 1.0);
    QuotientCompare(c.Zeta(2), s.zetaN, 0.0);
    QuotientCompare(c.Zeta(2), s.zetaN, q);
    u := q;
    ThirdBranchValue(c, s, num, u);
  }

  /** Results stay below `num` for every draw exactly when eta is positive or the third branch is dead. */
  lemma BelowIff(c: Config, s: State, num: nat)
    requires Consistent(c, s) && c.base == 0 && 2 <= num
    ensures BelowForEveryDraw(c, s, num) <==> c.numItems >= 3 || s.nForZeta == 2
  {
    if c.numItems >= 3 || s.nForZeta == 2 {
      forall u: real | 0.0 <= u < 1.0
        ensures Sample(c, s, num, u).Some? && Sample(c, s, num, u).value < num
      {
        SampleBelow(c, s, num, u);
      }
    } else {
      var u := TwoItemsOvershoot(c, s, num);
    }
  }

  datatype Call = Call(num: nat, u: real)

  predicate Legal(call: Call)
  {
    2 <= call.num < MAX_ITEMS && 0.0 <= call.u < 1.0
  }

  function Run(c: Config, s: State, calls: seq<Call>): (r: (State, seq<Option<nat>>))
    requires c.Valid()
    decreases |calls|
  {
    if calls == [] then (s, [])
    else
      var (s', x) := Step(c, s, calls[0].num, calls[0].u);
      var (t, xs) := Run(c, s', calls[1..]);
      (t, [x] + xs)
  }

  /** The largest item count asked for so far. */
  function Most(n: nat, calls: seq<Call>): (m: nat)
    ensures m >= n && forall i :: 0 <= i < |calls| ==> calls[i].num <= m
    ensures m == n || exists i :: 0 <= i < |calls| && calls[i].num == m
  {
    if calls == [] then n
    else
      var m := Most(n, calls[1..]);
      assert forall i :: 0 < i < |calls| ==> calls[i] == calls[1..][i - 1];
      if calls[0].num > m then calls[0].num else m
  }

  /** Whatever the run, zeta is the from-scratch sum over the largest count seen, and eta belongs to it. */
  lemma {:induction false} RunConsistent(c: Config, s: State, calls: seq<Call>)
    requires Consistent(c, s)
    ensures Consistent(c, Run(c, s, calls).0)
    ensures Run(c, s, calls).0.nForZeta == Most(s.nForZeta, calls)
    decreases |calls|
  {
    if calls == [] {
    } else {
      var s' := Raised(c, s, calls[0].num);
      RunConsistent(c, s', calls[1..]);
      MostStep(s.nForZeta, calls);
    }
  }

  lemma {:induction false} MostStep(n: nat, calls: seq<Call>)
    requires calls != []
    ensures Most(n, calls) == Most(if calls[0].num > n then calls[0].num else n, calls[1..])
    decreases |calls|
  {
    var rest := calls[1..];
    if rest == [] {
    } else {
      MostStep(n, rest);
      MostStep(if calls[0].num > n then calls[0].num else n, rest);
      MostMax(n, calls[0].num, rest);
    }
  }

  lemma {:induction false} MostMax(n: nat, k: nat, calls: seq<Call>)
    ensures Most(if k > n then k else n, calls) == if k > Most(n, calls) then k else Most(n, calls)
    decreases |calls|
  {
    if calls == [] {
    } else {
      MostMax(n, k, calls[1..]);
    }
  }

  /** Every result of every run is below the item count of its own call. */
  lemma {:induction false} RunBelow(c: Config, s: State, calls: seq<Call>)
    requires Consistent(c, s) && c.base == 0 && c.numItems >= 3
    requires forall i :: 0 <= i < |calls| ==> Legal(calls[i])
    ensures |Run(c, s, calls).1| == |calls|
    ensures forall i :: 0 <= i < |calls| ==>
              Run(c, s, calls).1[i].Some? && Run(c, s, calls).1[i].value < calls[i].num
    decreases |calls|
  {
    if calls == [] {
    } else {
      var s' := Raised(c, s, calls[0].num);
      SampleBelow(c, s', calls[0].num, calls[0].u);
      RunBelow(c, s', calls[1..]);
    }
  }

  // ---------------------------------------------------------------- non-zero base

  /**
   The first two branches ignore the base, so a draw lands in [base, base + numItems)
   exactly when it avoids the branches whose constant is below the base.
   */
  lemma InRangeIff(c: Config, s: State, u: real)
    requires Consistent(c, s) && s.nForZeta == c.numItems && 0.0 <= u < 1.0
    ensures Sample(c, s, c.numItems, u).Some?
    ensures c.base <= Sample(c, s, c.numItems, u).value < c.base + c.numItems <==>
            c.base == 0 || (c.base == 1 && Times(u, s.zetaN) >= 1.0) || Times(u, s.zetaN) >= c.Zeta(2)
  {
    SampleCases(c, s, c.numItems, u);
    TwoOfAll(c);
  }

  ghost predicate InRangeForEveryDraw(c: Config, s: State)
    requires c.Valid()
  {
    forall u: real :: 0.0 <= u < 1.0 ==>
      && Sample(c, s, c.numItems, u).Some?
      && c.base <= Sample(c, s, c.numItems, u).value < c.base + c.numItems
  }

  /** The smallest draw always gives 0, which is below any other base. */
  lemma ZeroDraw(c: Config, s: State)
    requires c.Valid()
    ensures Sample(c, s, c.numItems, 0.0) == Some(0)
  {
    assert Times(0.0, s.zetaN) == 0.0;
  }

  /** A generator keeps all its results between its min and its max exactly when the min is 0. */
  lemma InRangeForEveryDrawIff(c: Config, s: State)
    requires Consistent(c, s) && s.nForZeta == c.numItems
    ensures InRangeForEveryDraw(c, s) <==> c.base == 0
  {
    if c.base == 0 {
      forall u: real | 0.0 <= u < 1.0
        ensures Sample(c, s, c.numItems, u).Some?
        ensures c.base <= Sample(c, s, c.numItems, u).value < c.base + c.numItems
      {
        InRangeIff(c, s, u);
      }
    } else {
      ZeroDraw(c, s);
    }
  }

  // ---------------------------------------------------------------- the draws of each item

  /** (x^alpha >= y) is (x >= y^(1 - theta)): the two powers undo each other. */
  lemma PowerInverse(c: Config, x: real, y: real)
    requires c.Valid() && x > 0.0 && y > 0.0
    ensures c.pow(x, c.Alpha()) >= y <==> x >= c.pow(y, 1.0 - c.theta)
  {
    var b, a := 1.0 - c.theta, c.Alpha();
    var z := c.pow(y, b);
    assert Positive(c.pow, y, b);
    assert Times(b, a) == 1.0;
    assert PowerOfPower(c.pow, y, b, a) && Units(c.pow, y);
    assert c.pow(z, a) == y;
    assert Increasing(c.pow, x, z, a) && Increasing(c.pow, z, x, a);
  }

  /** floor(n * p) is k exactly when p lies in [k/n, (k+1)/n). */
  lemma FloorIs(n: nat, p: real, k: nat)
    requires n >= 1
    ensures Times(n as real, p).Floor == k <==>
            Over(k as real, n as real) <= p < Over((k + 1) as real, n as real)
  {
    QuotientCompare(k as real, n as real, p);
    QuotientCompare((k + 1) as real, n as real, p);
    assert Times(n as real, p) == Times(p, n as real);
  }

  /**
   Every item has its own interval of draws: beyond the first two, item k is drawn exactly in the
   third branch when the powered argument lies between the (1 - theta) powers of k/n and (k+1)/n.
   */
  lemma ItemInterval(c: Config, s: State, u: real, k: nat)
    requires Consistent(c, s) && s.nForZeta == c.numItems && c.base == 0 && 0.0 <= u < 1.0
    requires 2 <= k < c.numItems
    ensures Sample(c, s, c.numItems, u) == Some(k) <==>
            && ThirdBranch(c, s, u) && s.eta.Some?
            && c.pow(Over(k as real, c.numItems as real), 1.0 - c.theta) <= s.Argument(u)
            && s.Argument(u) < c.pow(Over((k + 1) as real, c.numItems as real), 1.0 - c.theta)
  {
    ZetaOfTwo(c);
    if ThirdBranch(c, s, u) {
      ThirdBranchForm(c, s, u);
      ThirdInterval(c, s, c.numItems, u, k);
    } else {
      FirstBranches(c, s, c.numItems, u);
    }
  }

  lemma ThirdInterval(c: Config, s: State, num: nat, u: real, k: nat)
    requires c.Valid() && s.eta.Some? && s.Argument(u) > 0.0 && k >= 1 && num >= 1
    ensures Scale(c, num, s.Argument(u)) == k <==>
            && c.pow(Over(k as real, num as real), 1.0 - c.theta) <= s.Argument(u)
            && s.Argument(u) < c.pow(Over((k + 1) as real, num as real), 1.0 - c.theta)
  {
    var low, high := Over(k as real, num as real), Over((k + 1) as real, num as real);
    QuotientCompare(k as real, num as real, 0.0);
    QuotientCompare((k + 1) as real, num as real, 0.0);
    PowerInverse(c, s.Argument(u), low);
    PowerInverse(c, s.Argument(u), high);
    FloorIs(num, c.pow(s.Argument(u), c.Alpha()), k);
  }

  /** The third branch exactly, for any base and any number of items asked for. */
  lemma ThirdBranchExact(c: Config, s: State, num: nat, u: real, k: nat)
    requires Consistent(c, s) && 0.0 <= u < 1.0 && ThirdBranch(c, s, u) && k >= 1 && num >= 1
    ensures s.eta.Some?
    ensures Sample(c, s, num, u) == Some(c.base + k) <==>
            && c.pow(Over(k as real, num as real), 1.0 - c.theta) <= s.Argument(u)
            && s.Argument(u) < c.pow(Over((k + 1) as real, num as real), 1.0 - c.theta)
  {
    ThirdBranchPower(c, s, u);
    ThirdBranchSample(c, s, num, u);
    ThirdInterval(c, s, num, u, k);
  }

  /** No interval is empty: every item is drawn for some draw. */
  lemma SampleOnto(c: Config, s: State, k: nat) returns (u: real)
    requires Consistent(c, s) && s.nForZeta == c.numItems && c.base == 0 && k < c.numItems
    ensures 0.0 <= u < 1.0 && Sample(c, s, c.numItems, u) == Some(k)
  {
    if k == 0 {
      u := 0.0;
      ZeroDraw(c, s);
    } else if k == 1 {
      u := SecondDraw(c, s);
    } else {
      u := ThirdDraw(c, s, k);
    }
  }

  lemma SecondDraw(c: Config, s: State) returns (u: real)
    requires Consistent(c, s) && s.nForZeta == c.numItems
    ensures 0.0 <= u < 1.0 && Sample(c, s, c.numItems, u) == Some(1)
  {
    ZetaOfTwo(c);
    ZetaIncreases(c, 2, c.numItems);
    u := 1.0 / s.zetaN;
    assert Times(u, s.zetaN) == 1.0;
    QuotientCompare(1.0, s.zetaN, 0.0);
    QuotientCompare(1.0, s.zetaN, 1.0);
    FirstBranches(c, s, c.numItems, u);
  }

  /** The argument at the lower end of item k's interval. */
  lemma ArgumentOf(c: Config, k: nat) returns (p: real)
    requires c.Valid() && 2 <= k < c.numItems
    ensures p == c.pow(Over(k as real, c.numItems as real), 1.0 - c.theta)
    ensures LeastArgument(c) <= p < 1.0 && p < c.pow(Over((k + 1) as real, c.numItems as real), 1.0 - c.theta)
  {
    var n, b := c.numItems as real, 1.0 - c.theta;
    var x, y := Over(k as real, n), Over((k + 1) as real, n);
    QuotientCompare(2.0, n, x);
    QuotientCompare(k as real, n, y);
    QuotientCompare(k as real, n, 1.0);
    assert Times(x, n) == k as real && Times(y, n) == (k + 1) as real;
    assert 0.0 < 2.0 / n <= x < y && x < 1.0;
    p := c.pow(x, b);
    PowMonotone(c, 2.0 / n, x, b);
    PowBelowOne(c, x, b);
    assert Increasing(c.pow, x, y, b);
  }

  lemma ThirdDraw(c: Config, s: State, k: nat) returns (u: real)
    requires Consistent(c, s) && s.nForZeta == c.numItems && c.base == 0 && 2 <= k < c.numItems
    ensures 0.0 <= u < 1.0 && Sample(c, s, c.numItems, u) == Some(k)
  {
    ZetaOfTwo(c);
    ZetaIncreases(c, 2, c.numItems);
    EtaAbove(c, s);
    LeastArgumentBounds(c);
    var p := ArgumentOf(c, k);
    var share := c.Zeta(2) / s.zetaN;
    QuotientCompare(c.Zeta(2), s.zetaN, 0.0);
    u := SolveArgument(s, LeastArgument(c), 1.0 - share, p);
    QuotientCompare(c.Zeta(2), s.zetaN, u);
    assert ThirdBranch(c, s, u);
    ItemInterval(c, s, u, k);
  }

  /** The draw at which the argument is p. */
  lemma SolveArgument(s: State, a: real, d: real, p: real) returns (u: real)
    requires 0.0 < a <= p < 1.0 && 0.0 < d <= 1.0 && s.eta == Some((1.0 - a) / d)
    ensures 1.0 - d <= u < 1.0 && s.Argument(u) == p
  {
    var e := s.eta.value;
    assert Times(e, d) == 1.0 - a;
    QuotientCompare(1.0 - a, d, 0.0);
    assert e > 0.0;
    var w := (1.0 - p) / e;
    assert Times(w, e) == 1.0 - p;
    QuotientCompare(1.0 - p, e, d);
    QuotientCompare(1.0 - p, e, 0.0);
    assert Times(d, e) == Times(e, d);
    u := 1.0 - w;
    ArgumentForm(s, u, Times(w, e));
  }

  // ---------------------------------------------------------------- the generator object

  class ZipfianGenerator {
    const c: Config
    const zeta2: real
    const alpha: real
    var zetaN: real
    var nForZeta: nat
    var eta: Option<real>
    var lastValue: nat

    ghost predicate Valid()
      reads this
    {
      Consistent(c, Snapshot()) && zeta2 == c.Zeta(2) && alpha == c.Alpha()
    }

    ghost function Snapshot(): (s: State)
      reads this
    {
      State(zetaN, nForZeta, eta)
    }

    /** The incremental sum: starting from the sum up to `lastNum` it reaches the sum up to `curNum`. */
    static method Zeta(c: Config, lastNum: nat, curNum: nat, lastZeta: real) returns (zeta: real)
      requires c.Valid() && lastNum <= curNum
      ensures zeta - lastZeta == c.Zeta(curNum) - c.Zeta(lastNum)
    {
      zeta := lastZeta;
      var i := lastNum + 1;
      while i <= curNum
        invariant lastNum + 1 <= i <= curNum + 1
        invariant zeta - lastZeta == c.Zeta(i - 1) - c.Zeta(lastNum)
      {
        zeta := zeta + c.Term(i);
        i := i + 1;
      }
    }

    /** Builds the generator and, like the original, discards a first draw. */
    constructor (config: Config, u: real)
      requires config.Valid() && 0.0 <= u < 1.0
      ensures Valid() && c == config
      ensures var zeta := config.Zeta(config.numItems);
              Snapshot() == State(zeta, config.numItems, config.Eta(zeta))
      ensures Sample(config, Snapshot(), config.numItems, u) == Some(lastValue)
    {
      c := config;
      var z2 := Zeta(config, 0, 2, 0.0);
      zeta2 := z2;
      alpha := 1.0 / (1.0 - config.theta);
      zetaN, nForZeta, eta, lastValue := 0.0, 0, None, 0;
      new;
      RaiseZeta(c.numItems);
      ComputeEta();
      var _ := Next(c.numItems, u);
    }

    /** Requires what the original asserts. */
    method RaiseZeta(num: nat)
      requires c.Valid() && zetaN == c.Zeta(nForZeta) && num >= nForZeta
      modifies this`zetaN, this`nForZeta
      ensures nForZeta == num && zetaN == c.Zeta(num)
    {
      zetaN := Zeta(c, nForZeta, num, zetaN);
      nForZeta := num;
    }

    method ComputeEta()
      requires c.Valid() && zeta2 == c.Zeta(2)
      modifies this`eta
      ensures eta == c.Eta(zetaN)
    {
      if zetaN == 0.0 || zetaN == zeta2 {
        eta := None;
      } else {
        eta := Some((1.0 - c.pow(2.0 / c.numItems as real, 1.0 - c.theta)) / (1.0 - zeta2 / zetaN));
      }
    }

    /** `Next(num)`: every branch yields a proper value, which is the sample of the raised state. */
    method Next(num: nat, u: real) returns (r: nat)
      requires Valid() && 2 <= num < MAX_ITEMS && 0.0 <= u < 1.0
      modifies this`zetaN, this`nForZeta, this`eta, this`lastValue
      ensures Valid() && lastValue == r
      ensures (Snapshot(), Some(r)) == Step(c, old(Snapshot()), num, u)
    {
      if num > nForZeta {
        RaiseZeta(num);
        ComputeEta();
      }
      SampleCases(c, Snapshot(), num, u);
      var uz := Times(u, zetaN);
      if uz < 1.0 {
        lastValue := 0;
        return 0;
      }
      if uz < 1.0 + c.pow(0.5, c.theta) {
        lastValue := 1;
        return 1;
      }
      ThirdBranchPower(c, Snapshot(), u);
      ThirdBranchSample(c, Snapshot(), num, u);
      var arg := Times(eta.value, u) - eta.value + 1.0;
      lastValue := c.base + Times(num as real, c.pow(arg, alpha)).Floor;
      return lastValue;
    }
  }
}
