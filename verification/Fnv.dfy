/**
 The 64-bit FNV-1a hash of `core/utils.h`, over unbounded naturals with every
 reduction modulo 2^64 written out, and the proof that it never collides on two
 record numbers that agree above their low 32 bits (in particular on any two
 record numbers below 2^32).
 */
module Fnv {

  const TWO64: nat := 0x1_0000_0000_0000_0000
  const TWO32: nat := 0x1_0000_0000
  const OFFSET_BASIS: nat := 0xCBF2_9CE4_8422_2325
  const PRIME: nat := 1099511628211
  /** The multiplicative inverse of PRIME modulo 2^64. */
  const PRIME_INVERSE: nat := 0xCE96_5057_AFF6_957B

  type uint64 = n: nat | n < TWO64

  // ---------------------------------------------------------------- exclusive or

  /** Bitwise exclusive or, one bit at a time from the low end. */
  function Xor(a: nat, b: nat): (r: nat)
    decreases a + b
  {
    if a == 0 && b == 0 then 0 else (a + b) % 2 + 2 * Xor(a / 2, b / 2)
  }

  lemma {:induction false} XorBits(a: nat, b: nat)
    ensures Xor(a, b) / 2 == Xor(a / 2, b / 2)
    ensures Xor(a, b) % 2 == (a + b) % 2
  {
    if a != 0 || b != 0 {
      LowBit((a + b) % 2, Xor(a / 2, b / 2));
    }
  }

  lemma LowBit(bit: nat, x: nat)
    requires bit < 2
    ensures (bit + 2 * x) / 2 == x && (bit + 2 * x) % 2 == bit
  {
  }

  lemma {:induction false} XorSelfInverse(a: nat, b: nat)
    ensures Xor(Xor(a, b), b) == a
    decreases a + b
  {
    if a == 0 && b == 0 {
    } else {
      XorSelfInverse(a / 2, b / 2);
      var x := Xor(a, b);
      XorBits(a, b);
      XorBits(x, b);
      var y := Xor(x, b);
      assert y / 2 == a / 2;
      SumParity(a, b, x, y);
    }
  }

  lemma SumParity(a: nat, b: nat, x: nat, y: nat)
    requires x % 2 == (a + b) % 2 && y % 2 == (x + b) % 2
    ensures y % 2 == a % 2
  {
  }

  lemma XorCancels(a: nat, b: nat, c: nat)
    requires Xor(a, b) == Xor(a, c)
    ensures b == c
  {
    XorCommutes(a, b);
    XorCommutes(a, c);
    XorSelfInverse(b, a);
    XorSelfInverse(c, a);
  }

  lemma {:induction false} XorCommutes(a: nat, b: nat)
    ensures Xor(a, b) == Xor(b, a)
    decreases a + b
  {
    if a == 0 && b == 0 {
    } else {
      XorCommutes(a / 2, b / 2);
    }
  }

  function Pow2(k: nat): (r: nat)
    ensures r >= 1
  {
    if k == 0 then 1 else 2 * Pow2(k - 1)
  }

  /** An operand below 2^k leaves everything above the low k bits alone. */
  lemma {:induction false} XorKeepsHighBits(a: nat, b: nat, k: nat)
    requires b < Pow2(k)
    ensures Xor(a, b) / Pow2(k) == a / Pow2(k)
    decreases k
  {
    if k == 0 {
      XorZero(a);
    } else {
      XorKeepsHighBits(a / 2, b / 2, k - 1);
      XorBits(a, b);
      HalveThenDivide(Xor(a, b), k);
      HalveThenDivide(a, k);
    }
  }

  lemma HalveThenDivide(a: nat, k: nat)
    requires k > 0
    ensures a / Pow2(k) == (a / 2) / Pow2(k - 1)
  {
    var p, h := Pow2(k - 1), a / 2;
    var q, r := h / p, h % p;
    assert h == p * q + r;
    var low := 2 * r + a % 2;
    assert a == (2 * p) * q + low && 0 <= low < 2 * p;
    DivUnique(a, 2 * p, q, low);
  }

  lemma DivUnique(a: int, m: int, q: int, r: int)
    requires m > 0 && 0 <= r < m && a == m * q + r
    ensures a / m == q && a % m == r
  {
    var d := a / m - q;
    assert m * d == r - a % m by {
      assert a == m * (a / m) + a % m;
      assert m * d == m * (a / m) - m * q;
    }
    assert -m < m * d < m;
    assert d == 0;
  }

  lemma {:induction false} XorZero(a: nat)
    ensures Xor(a, 0) == a
  {
    if a == 0 {
    } else {
      XorZero(a / 2);
    }
  }

  /** XOR with an octet rewrites the low octet only. */
  lemma XorOctet(h: nat, octet: nat)
    requires octet < 256
    ensures Xor(h, octet) / 256 == h / 256
    ensures -255 <= Xor(h, octet) - h <= 255
    ensures h < TWO64 ==> Xor(h, octet) < TWO64
  {
    assert Pow2(8) == 256 by {
      assert Pow2(4) == 16;
    }
    XorKeepsHighBits(h, octet, 8);
  }

  // ---------------------------------------------------------------- the hash

  /** `hash = (hash ^ octet) * kFNVPrime64`. */
  function Absorb(h: nat, octet: nat): (r: uint64)
  {
    Xor(h, octet) * PRIME % TWO64
  }

  /** Absorbs the low `n` octets of `val`, low octet first. */
  function AbsorbOctets(h: nat, val: nat, n: nat): (r: nat)
    ensures n > 0 ==> r < TWO64
    decreases n, val
  {
    if n == 0 then h else AbsorbOctets(Absorb(h, val % 256), val / 256, n - 1)
  }

  function Hash(val: uint64): (h: uint64)
  {
    AbsorbOctets(OFFSET_BASIS, val, 8)
  }

  /** The loop of `FNVHash64`; on unsigned words `& 0xff` and `>> 8` are `% 256` and `/ 256`. */
  method FNVHash64(val: uint64) returns (hash: uint64)
    ensures hash == Hash(val)
  {
    hash := OFFSET_BASIS;
    var rest: nat := val;
    for i := 0 to 8
      invariant AbsorbOctets(hash, rest, 8 - i) == Hash(val)
    {
      var octet := rest % 256;
      rest := rest / 256;
      XorOctet(hash, octet);
      hash := Xor(hash, octet);
      hash := hash * PRIME % TWO64;
    }
  }

  // ---------------------------------------------------------------- against the definition over octet strings

  /** FNV-1a over an octet string (section 2 of Internet-Draft draft-eastlake-fnv), from a given state. */
  function Fnv1a(h: nat, octets: seq<nat>): (r: nat)
  {
    if octets == [] then h
    else Xor(Fnv1a(h, octets[..|octets| - 1]), octets[|octets| - 1]) * PRIME % TWO64
  }

  function LittleEndian(octets: seq<nat>): (r: nat)
  {
    if octets == [] then 0 else octets[0] + 256 * LittleEndian(octets[1..])
  }

  lemma {:induction false} Fnv1aFromFront(h: nat, octets: seq<nat>)
    requires octets != []
    ensures Fnv1a(h, octets) == Fnv1a(Absorb(h, octets[0]), octets[1..])
  {
    var n := |octets| - 1;
    if n == 0 {
    } else {
      Fnv1aFromFront(h, octets[..n]);
      assert octets[..n][1..] == octets[1..][..n - 1];
    }
  }

  lemma {:induction false} AbsorbIsFnv1a(h: nat, octets: seq<nat>)
    requires forall i :: 0 <= i < |octets| ==> octets[i] < 256
    ensures AbsorbOctets(h, LittleEndian(octets), |octets|) == Fnv1a(h, octets)
    decreases |octets|
  {
    if octets == [] {
    } else {
      var a, rest := octets[0], octets[1..];
      AbsorbNext(h, a, LittleEndian(rest), |octets|);
      AbsorbIsFnv1a(Absorb(h, a), rest);
      Fnv1aFromFront(h, octets);
    }
  }

  lemma {:induction false} AbsorbNext(h: nat, octet: nat, rest: nat, n: nat)
    requires octet < 256 && n > 0
    ensures AbsorbOctets(h, octet + 256 * rest, n) == AbsorbOctets(Absorb(h, octet), rest, n - 1)
  {
    var val := octet + 256 * rest;
    assert val % 256 == octet && val / 256 == rest;
  }

  /** The low `n` octets of a word, low octet first. */
  function Octets(val: nat, n: nat): (s: seq<nat>)
    ensures |s| == n && forall i :: 0 <= i < n ==> s[i] < 256
    decreases n, val
  {
    if n == 0 then [] else [val % 256] + Octets(val / 256, n - 1)
  }

  /** The eight octets of a 64-bit word. */
  function WordOctets(val: uint64): (s: seq<nat>)
    ensures |s| == 8 && forall i :: 0 <= i < 8 ==> s[i] < 256
  {
    Octets(val, 8)
  }

  function Pow256(n: nat): (r: nat)
    ensures r >= 1
  {
    if n == 0 then 1 else 256 * Pow256(n - 1)
  }

  /** Enough octets write down any word. */
  lemma {:induction false} OctetsRoundTrip(val: nat, n: nat)
    requires val < Pow256(n)
    ensures LittleEndian(Octets(val, n)) == val
    decreases n
  {
    if n == 0 {
    } else {
      OctetsRoundTrip(val / 256, n - 1);
      var octets := Octets(val, n);
      assert octets[0] == val % 256 && octets[1..] == Octets(val / 256, n - 1);
    }
  }

  /** Every word is the little-endian value of eight octets, and its hash is their FNV-1a hash. */
  lemma HashIsFnv1a(val: uint64)
    ensures LittleEndian(WordOctets(val)) == val
    ensures Hash(val) == Fnv1a(OFFSET_BASIS, WordOctets(val))
  {
    EightOctets();
    OctetsRoundTrip(val, 8);
    AbsorbIsFnv1a(OFFSET_BASIS, Octets(val, 8));
  }

  lemma EightOctets()
    ensures Pow256(8) == TWO64
  {
    assert Pow256(4) == TWO32;
  }

  // ---------------------------------------------------------------- injectivity

  lemma CongruentDifference(a: int, b: int, m: int)
    requires m > 0 && a % m == b % m
    ensures exists k :: a - b == m * k
  {
    assert a - b == m * (a / m - b / m);
  }

  /** Multiplying by the (odd) prime loses nothing modulo 2^64. */
  lemma MultiplyByPrimeInjective(a: uint64, b: uint64)
    requires a * PRIME % TWO64 == b * PRIME % TWO64
    ensures a == b
  {
    CongruentDifference(a * PRIME, b * PRIME, TWO64);
    var k :| a * PRIME - b * PRIME == TWO64 * k;
    var d := a - b;
    var c := 887285111055;
    assert PRIME * PRIME_INVERSE == TWO64 * c + 1;
    assert d * (TWO64 * c + 1) == TWO64 * (k * PRIME_INVERSE) by {
      assert d * PRIME == TWO64 * k;
      assert d * PRIME * PRIME_INVERSE == TWO64 * k * PRIME_INVERSE;
    }
    var z := k * PRIME_INVERSE - c * d;
    assert d == TWO64 * z;
  }

  lemma AbsorbInjectiveInState(g: uint64, h: uint64, octet: nat)
    requires octet < 256 && Absorb(g, octet) == Absorb(h, octet)
    ensures g == h
  {
    XorOctet(g, octet);
    XorOctet(h, octet);
    MultiplyByPrimeInjective(Xor(g, octet), Xor(h, octet));
    XorSelfInverse(g, octet);
    XorSelfInverse(h, octet);
  }

  /** Octets the two inputs share can be peeled off the end of a collision. */
  lemma {:induction false} SharedOctetsInjective(g: uint64, h: uint64, val: nat, n: nat)
    requires AbsorbOctets(g, val, n) == AbsorbOctets(h, val, n)
    ensures g == h
    decreases n
  {
    if n == 0 {
    } else {
      SharedOctetsInjective(Absorb(g, val % 256), Absorb(h, val % 256), val / 256, n - 1);
      AbsorbInjectiveInState(g, h, val % 256);
    }
  }

  /**
   The arithmetic heart. PRIME = 2^40 + 435, so the combination splits as
   2^40 * high + low with |low| < 2^40; being within 255 of a multiple of 2^64
   forces both halves, and then every coefficient, to vanish.
   */
  lemma SmallCombinationVanishes(d: int, e: int, f: int, t: int, k: int)
    requires -255 <= d <= 255 && -510 <= e <= 510 && -510 <= f <= 510 && -255 <= t <= 255
    requires PRIME * (PRIME * (PRIME * d + e) + f) == t + TWO64 * k
    ensures d == 0 && e == 0 && f == 0 && t == 0
  {
    var B := 0x100_0000_0000;  // 2^40
    var C := 0x100_0000;       // 2^24
    var low := 435 * (189225 * d + 435 * e + f);
    var high := 567675 * d + 870 * e + f;
    // the part of the combination above 2^80 is a multiple of 2^64
    var rest := 65536 * (B * d + 1305 * d + e);
    assert PRIME * (PRIME * (PRIME * d + e) + f) == B * high + low + TWO64 * rest;
    assert low - t == B * (C * (k - rest) - high);
    var z := C * (k - rest) - high;
    assert -B < B * z < B;
    assert z == 0;
    assert low == t;
    assert 189225 * d + 435 * e + f == 0;
    var w := 870 * d + e;
    assert high == 435 * w;
    var m := k - rest;
    assert 435 * w == C * m;
    // 435 * 16160123 == 1 + 419 * 2^24
    assert 435 * 16160123 == 1 + 419 * C;
    assert w == C * (16160123 * m - 419 * w);
    var y := 16160123 * m - 419 * w;
    assert y == 0;
    assert w == 0;
  }

  /**
   One absorption of different octets into different states: the states move apart by a multiple of the
   prime, up to a small error `e`, modulo 2^64; and equal states with no error absorbed equal octets.
   */
  lemma AbsorbDifference(g: uint64, h: uint64, a: nat, b: nat) returns (e: int, k: int)
    requires a < 256 && b < 256
    ensures -510 <= e <= 510 && (g == h ==> -255 <= e <= 255)
    ensures Absorb(g, a) - Absorb(h, b) == PRIME * (g - h + e) - TWO64 * k
    ensures g == h && e == 0 ==> a == b
  {
    XorOctet(g, a);
    XorOctet(h, b);
    var x, y := Xor(g, a), Xor(h, b);
    e := (x - g) - (y - h);
    if g == h {
      assert x / 256 == y / 256;
      if e == 0 { XorCancels(g, a, b); }
    }
    k := x * PRIME / TWO64 - y * PRIME / TWO64;
    DivMod(x * PRIME, TWO64);
    DivMod(y * PRIME, TWO64);
  }

  lemma DivMod(a: int, m: int)
    requires m > 0
    ensures a == m * (a / m) + a % m
  {
  }

  /** Equal results of the last absorption leave the states within one octet of each other. */
  lemma LastAbsorption(g: uint64, h: uint64, a: nat, b: nat)
    requires a < 256 && b < 256 && Absorb(g, a) == Absorb(h, b)
    ensures -255 <= g - h <= 255
    ensures g == h ==> a == b
  {
    XorOctet(g, a);
    XorOctet(h, b);
    MultiplyByPrimeInjective(Xor(g, a), Xor(h, b));
    assert g / 256 == h / 256;
    if g == h { XorCancels(g, a, b); }
  }

  lemma ChainDifferences(d: int, e: int, f: int, t1: int, t2: int, t3: int, k0: int, k1: int, k2: int)
    requires -255 <= d <= 255 && -510 <= e <= 510 && -510 <= f <= 510 && -255 <= t3 <= 255
    requires t1 == PRIME * d - TWO64 * k0
    requires t2 == PRIME * (t1 + e) - TWO64 * k1
    requires t3 == PRIME * (t2 + f) - TWO64 * k2
    ensures d == 0 && e == 0 && f == 0 && t3 == 0
  {
    SmallCombinationVanishes(d, e, f, t3, k2 + PRIME * (k1 + PRIME * k0));
  }

  /** g and h are the states on the way of octets a and b, absorbed from one state to one state. */
  predicate Collide(h: uint64, a0: nat, a1: nat, a2: nat, a3: nat, b0: nat, b1: nat, b2: nat, b3: nat,
                    g1: uint64, g2: uint64, g3: uint64, h1: uint64, h2: uint64, h3: uint64)
  {
    && g1 == Absorb(h, a0) && g2 == Absorb(g1, a1) && g3 == Absorb(g2, a2)
    && h1 == Absorb(h, b0) && h2 == Absorb(h1, b1) && h3 == Absorb(h2, b2)
    && Absorb(g3, a3) == Absorb(h3, b3)
  }

  /** Four absorbed octets determine themselves. */
  lemma FourOctetsInjective(h: uint64, a0: nat, a1: nat, a2: nat, a3: nat, b0: nat, b1: nat, b2: nat, b3: nat,
                            g1: uint64, g2: uint64, g3: uint64, h1: uint64, h2: uint64, h3: uint64)
    requires a0 < 256 && a1 < 256 && a2 < 256 && a3 < 256
    requires b0 < 256 && b1 < 256 && b2 < 256 && b3 < 256
    ensures Collide(h, a0, a1, a2, a3, b0, b1, b2, b3, g1, g2, g3, h1, h2, h3) ==>
              a0 == b0 && a1 == b1 && a2 == b2 && a3 == b3
  {
    if Collide(h, a0, a1, a2, a3, b0, b1, b2, b3, g1, g2, g3, h1, h2, h3) {
      LastAbsorption(g3, h3, a3, b3);
      var d, k0 := AbsorbDifference(h, h, a0, b0);
      var e, k1 := AbsorbDifference(g1, h1, a1, b1);
      var f, k2 := AbsorbDifference(g2, h2, a2, b2);
      ChainDifferences(d, e, f, g1 - h1, g2 - h2, g3 - h3, k0, k1, k2);
    }
  }

  /** The state after absorbing the low four octets of `x`. */
  function AbsorbFour(h: nat, x: nat): (r: uint64)
  {
    Absorb(Absorb(Absorb(Absorb(h, x % 256), x / 256 % 256), x / 256 / 256 % 256), x / 256 / 256 / 256 % 256)
  }

  /** What is left of `x` once its low four octets are shifted out. */
  function Upper(x: nat): (r: nat)
    ensures r == x / TWO32
  {
    x / 256 / 256 / 256 / 256
  }

  lemma AbsorbFourThenRest(h: nat, x: nat, n: nat)
    requires n >= 4
    ensures AbsorbOctets(h, x, n) == AbsorbOctets(AbsorbFour(h, x), Upper(x), n - 4)
  {
    var h1 := Absorb(h, x % 256);
    var h2 := Absorb(h1, x / 256 % 256);
    var h3 := Absorb(h2, x / 256 / 256 % 256);
    calc {
      AbsorbOctets(h, x, n);
      AbsorbOctets(h1, x / 256, n - 1);
      AbsorbOctets(h2, x / 256 / 256, n - 2);
      AbsorbOctets(h3, x / 256 / 256 / 256, n - 3);
    }
  }

  /** From any state: inputs that agree above their low 32 bits never collide. */
  lemma AbsorbInjectiveOnLow32(h: uint64, x: nat, y: nat, n: nat)
    requires n >= 4 && x / TWO32 == y / TWO32
    ensures AbsorbOctets(h, x, n) == AbsorbOctets(h, y, n) ==> x == y
  {
    if AbsorbOctets(h, x, n) == AbsorbOctets(h, y, n) {
      AbsorbFourThenRest(h, x, n);
      AbsorbFourThenRest(h, y, n);
      SharedOctetsInjective(AbsorbFour(h, x), AbsorbFour(h, y), Upper(x), n - 4);
      AbsorbFourInjective(h, x, y);
      OctetsDetermine(x, y);
    }
  }

  predicate SameLowOctets(x: nat, y: nat)
  {
    && x % 256 == y % 256 && x / 256 % 256 == y / 256 % 256
    && x / 256 / 256 % 256 == y / 256 / 256 % 256 && x / 256 / 256 / 256 % 256 == y / 256 / 256 / 256 % 256
  }

  lemma AbsorbFourInjective(h: uint64, x: nat, y: nat)
    ensures AbsorbFour(h, x) == AbsorbFour(h, y) ==> SameLowOctets(x, y)
  {
    var g1, h1 := Absorb(h, x % 256), Absorb(h, y % 256);
    var g2, h2 := Absorb(g1, x / 256 % 256), Absorb(h1, y / 256 % 256);
    FourOctetsInjective(h, x % 256, x / 256 % 256, x / 256 / 256 % 256, x / 256 / 256 / 256 % 256,
                        y % 256, y / 256 % 256, y / 256 / 256 % 256, y / 256 / 256 / 256 % 256,
                        g1, g2, Absorb(g2, x / 256 / 256 % 256), h1, h2, Absorb(h2, y / 256 / 256 % 256));
  }

  lemma OctetsDetermine(x: nat, y: nat)
    requires SameLowOctets(x, y) && x / TWO32 == y / TWO32
    ensures x == y
  {
    assert Upper(x) == Upper(y);
    OctetAndRest(x / 256 / 256 / 256, y / 256 / 256 / 256);
    OctetAndRest(x / 256 / 256, y / 256 / 256);
    OctetAndRest(x / 256, y / 256);
    OctetAndRest(x, y);
  }

  lemma OctetAndRest(x: nat, y: nat)
    requires x % 256 == y % 256 && x / 256 == y / 256
    ensures x == y
  {
  }

  /** Two inputs that agree above their low 32 bits never share a hash. */
  lemma HashInjectiveOnLow32(x: uint64, y: uint64)
    requires x / TWO32 == y / TWO32
    ensures Hash(x) == Hash(y) <==> x == y
  {
    AbsorbInjectiveOnLow32(OFFSET_BASIS, x, y, 8);
  }

  /** Distinct record numbers below 2^32 have distinct hashes. */
  lemma HashInjective(x: nat, y: nat)
    requires x < TWO32 && y < TWO32
    ensures Hash(x) == Hash(y) <==> x == y
  {
    HashInjectiveOnLow32(x, y);
  }

  // ---------------------------------------------------------------- a published value

  /** An octet only meets the low octet. */
  lemma {:induction false} XorSplits(a: nat, b: nat, k: nat)
    requires b < Pow2(k)
    ensures Xor(a, b) == a - a % Pow2(k) + Xor(a % Pow2(k), b)
    decreases k
  {
    if k == 0 {
      XorZero(a);
    } else {
      XorSplits(a / 2, b / 2, k - 1);
      HalvedRemainder(a, k);
      XorBits(a, b);
      XorBits(a % Pow2(k), b);
      SameParity(a, a % Pow2(k), b);
    }
  }

  lemma HalvedRemainder(a: nat, k: nat)
    requires k > 0
    ensures a % Pow2(k) / 2 == a / 2 % Pow2(k - 1) && a % Pow2(k) % 2 == a % 2
  {
    var p, h := Pow2(k - 1), a / 2;
    var q, r := h / p, h % p;
    assert h == p * q + r;
    var low := 2 * r + a % 2;
    assert a == (2 * p) * q + low && 0 <= low < 2 * p;
    DivUnique(a, 2 * p, q, low);
  }

  lemma SameParity(a: nat, c: nat, b: nat)
    requires a % 2 == c % 2
    ensures (a + b) % 2 == (c + b) % 2
  {
  }

  lemma Nibbles(a: nat, b: nat)
    requires a == 37 && b == 97
    ensures Xor(a, b) == 68
  {
    assert Xor(1, 3) == 2;
    assert Xor(4, 12) == 8;
    assert Xor(9, 24) == 17;
    assert Xor(18, 48) == 34;
  }

  lemma OneOctet(h: nat, octet: nat, low: nat, mixed: nat, x: nat, q: nat, r: nat)
    requires octet < 256 && h % 256 == low && Xor(low, octet) == mixed && x == h - low + mixed
    requires x * PRIME == TWO64 * q + r && r < TWO64
    ensures Absorb(h, octet) == r
  {
    assert Pow2(8) == 256 by {
      assert Pow2(4) == 16;
    }
    XorSplits(h, octet, 8);
    DivUnique(x * PRIME, TWO64, q, r);
  }

  /** FNV-1a of the one-letter text "a", as tabulated in draft-eastlake-fnv. */
  lemma HashOfLetterA(basis: nat, text: seq<nat>)
    requires basis == OFFSET_BASIS && text == [97]
    ensures Fnv1a(basis, text) == 0xAF63_DC4C_8601_EC8C
  {
    Nibbles(basis % 256, text[0]);
    OneOctet(basis, text[0], basis % 256, 68, 0xCBF2_9CE4_8422_2344, 875948729822, 0xAF63_DC4C_8601_EC8C);
    assert text[..0] == [];
  }
}
