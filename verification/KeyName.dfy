/**
 Key names: `CoreWorkload::BuildKeyName` of `core/core_workload.h`. A name is
 "user", zero padding and the decimal digits of the record number or of its
 hash. Names are decoded back to their numbers, so they are injective for every
 padding; padded names sort like their numbers exactly when the padding covers
 the longest number.
 */
module KeyName {
  import opened Fnv

  // ---------------------------------------------------------------- decimal strings

  function Digit(d: nat): (c: char)
    requires d < 10
  {
    '0' + d as char
  }

  function DigitValue(c: char): (d: int)
  {
    c as int - '0' as int
  }

  /** `std::to_string` on an unsigned number. */
  function ToString(n: nat): (s: string)
    ensures |s| >= 1
  {
    if n < 10 then [Digit(n)] else ToString(n / 10) + [Digit(n % 10)]
  }

  /** The number a string of decimal digits denotes. */
  function Decimal(s: string): (n: int)
  {
    if s == "" then 0 else 10 * Decimal(s[..|s| - 1]) + DigitValue(s[|s| - 1])
  }

  predicate IsDigits(s: string)
  {
    forall i :: 0 <= i < |s| ==> '0' <= s[i] <= '9'
  }

  lemma {:induction false} DecimalOfToString(n: nat)
    ensures Decimal(ToString(n)) == n && IsDigits(ToString(n))
  {
    if n >= 10 {
      DecimalOfToString(n / 10);
      assert ToString(n)[..|ToString(n)| - 1] == ToString(n / 10);
    } else {
      assert ToString(n)[..0] == "";
    }
  }

  function Zeros(k: nat): (s: string)
    ensures |s| == k && IsDigits(s)
  {
    seq(k, _ => '0')
  }

  lemma {:induction false} LeadingZeros(k: nat, s: string)
    ensures Decimal(Zeros(k) + s) == Decimal(s)
  {
    var t := Zeros(k) + s;
    if s != "" {
      LeadingZeros(k, s[..|s| - 1]);
      assert t[..|t| - 1] == Zeros(k) + s[..|s| - 1];
    } else if k > 0 {
      LeadingZeros(k - 1, s);
      assert t[..|t| - 1] == Zeros(k - 1) + s;
    }
  }

  // ---------------------------------------------------------------- names

  const PREFIX: string := "user"

  /** Digits of `n`, left-padded with zeros to at least `padding` characters (which may be negative). */
  function Padded(n: nat, padding: int): (s: string)
  {
    var digits := ToString(n);
    var zeros := padding - |digits|;
    Zeros(if zeros < 0 then 0 else zeros) + digits
  }

  function BuildKeyName(ordered: bool, padding: int, keyNum: uint64): (name: string)
  {
    PREFIX + Padded(if ordered then keyNum else Hash(keyNum), padding)
  }

  /** The number written in a key name: the record number when ordered, its hash otherwise. */
  function ReadKeyName(name: string): (n: int)
    requires |name| >= |PREFIX|
  {
    Decimal(name[|PREFIX|..])
  }

  lemma PaddedRoundTrip(n: nat, padding: int)
    ensures Decimal(Padded(n, padding)) == n
    ensures IsDigits(Padded(n, padding))
  {
    var digits := ToString(n);
    var zeros := padding - |digits|;
    DecimalOfToString(n);
    LeadingZeros(if zeros < 0 then 0 else zeros, digits);
  }

  /** Decoding a name yields the number it was built from. */
  lemma KeyNameRoundTrip(ordered: bool, padding: int, keyNum: uint64)
    ensures PREFIX <= BuildKeyName(ordered, padding, keyNum)
    ensures ReadKeyName(BuildKeyName(ordered, padding, keyNum)) == if ordered then keyNum else Hash(keyNum)
  {
    var n := if ordered then keyNum else Hash(keyNum);
    PaddedRoundTrip(n, padding);
    assert BuildKeyName(ordered, padding, keyNum)[|PREFIX|..] == Padded(n, padding);
  }

  /** "user", then zeros, then the digits, in as many characters as the longer of padding and digits. */
  predicate Shaped(name: string, digits: string, padding: int)
  {
    && |name| == 4 + (if padding > |digits| then padding else |digits|)
    && name[..4] == "user" && name[|name| - |digits|..] == digits
    && (forall i :: 4 <= i < |name| - |digits| ==> name[i] == '0')
  }

  /** The shape of a name, around the digits of the number or its hash. */
  lemma KeyNameShape(ordered: bool, padding: int, keyNum: uint64)
    ensures Shaped(BuildKeyName(ordered, padding, keyNum), ToString(if ordered then keyNum else Hash(keyNum)), padding)
  {
    var n := if ordered then keyNum else Hash(keyNum);
    var name, digits := BuildKeyName(ordered, padding, keyNum), ToString(n);
    assert name == "user" + Padded(n, padding);
    assert name[4..] == Padded(n, padding);
  }

  /** Distinct numbers get distinct names: all of them when ordered, those sharing their upper 32 bits when hashed. */
  lemma KeyNameInjective(ordered: bool, padding: int, x: uint64, y: uint64)
    requires ordered || x / TWO32 == y / TWO32
    ensures BuildKeyName(ordered, padding, x) == BuildKeyName(ordered, padding, y) <==> x == y
  {
    if BuildKeyName(ordered, padding, x) == BuildKeyName(ordered, padding, y) {
      KeyNameRoundTrip(ordered, padding, x);
      KeyNameRoundTrip(ordered, padding, y);
      if !ordered { HashInjectiveOnLow32(x, y); }
    }
  }

  // ---------------------------------------------------------------- sort order

  /** Lexicographic order on strings, as databases sort keys. */
  predicate LexLess(s: string, t: string)
  {
    if t == "" then false
    else if s == "" then true
    else s[0] < t[0] || (s[0] == t[0] && LexLess(s[1..], t[1..]))
  }

  /** It is a total order in which a string comes before its extensions. */
  lemma {:induction false} LexTotal(s: string, t: string)
    ensures LexLess(s, t) || LexLess(t, s) <==> s != t
    ensures !(LexLess(s, t) && LexLess(t, s))
    ensures s <= t && s != t ==> LexLess(s, t)
    decreases |s|
  {
    if s == "" || t == "" {
    } else {
      LexTotal(s[1..], t[1..]);
      assert s == [s[0]] + s[1..] && t == [t[0]] + t[1..];
    }
  }

  function Pow10(k: nat): (r: nat)
    ensures r >= 1
  {
    if k == 0 then 1 else 10 * Pow10(k - 1)
  }

  lemma {:induction false} DecimalBound(s: string)
    requires IsDigits(s)
    ensures 0 <= Decimal(s) < Pow10(|s|)
  {
    if s == "" {
    } else {
      DecimalBound(s[..|s| - 1]);
    }
  }

  /** The most significant digit weighs a power of ten. */
  lemma {:induction false} DecimalFromFront(s: string)
    requires s != ""
    ensures Decimal(s) == DigitValue(s[0]) * Pow10(|s| - 1) + Decimal(s[1..])
  {
    var n := |s| - 1;
    if n == 0 {
    } else {
      var front, back := s[..n], s[1..];
      DecimalFromFront(front);
      assert front[1..] == back[..n - 1] && back[n - 1] == s[n] && front[0] == s[0];
      ShiftDigits(DigitValue(s[0]), Pow10(n - 1), Decimal(front[1..]), DigitValue(s[n]));
    }
  }

  lemma ShiftDigits(d: int, p: int, x: int, last: int)
    ensures 10 * (d * p + x) + last == d * (10 * p) + (10 * x + last)
  {
    assert 10 * (d * p) == d * (10 * p);
  }

  /** On digit strings of one length, lexicographic order is numeric order. */
  lemma {:induction false} LexIsNumeric(s: string, t: string)
    requires |s| == |t| && IsDigits(s) && IsDigits(t)
    ensures LexLess(s, t) <==> Decimal(s) < Decimal(t)
  {
    if s == "" {
    } else {
      DecimalFromFront(s);
      DecimalFromFront(t);
      DecimalBound(s[1..]);
      DecimalBound(t[1..]);
      LexIsNumeric(s[1..], t[1..]);
      LeadingDigitDecides(DigitValue(s[0]), DigitValue(t[0]), Pow10(|s| - 1), Decimal(s[1..]), Decimal(t[1..]));
    }
  }

  lemma LeadingDigitDecides(d: int, e: int, p: int, x: int, y: int)
    requires 0 <= x < p && 0 <= y < p
    ensures d < e ==> d * p + x < e * p + y
    ensures e < d ==> e * p + y < d * p + x
  {
    if d < e { assert (d + 1) * p <= e * p; }
    if e < d { assert (e + 1) * p <= d * p; }
  }

  /** A common prefix does not matter. */
  lemma {:induction false} LexPrefix(prefix: string, s: string, t: string)
    ensures LexLess(prefix + s, prefix + t) == LexLess(s, t)
    decreases |prefix|
  {
    if prefix == "" {
      assert prefix + s == s && prefix + t == t;
    } else {
      LexPrefix(prefix[1..], s, t);
      assert (prefix + s)[1..] == prefix[1..] + s && (prefix + t)[1..] == prefix[1..] + t;
    }
  }

  /** The number of decimal digits. */
  lemma {:induction false} DigitCount(n: nat)
    ensures n < Pow10(|ToString(n)|)
    ensures n >= 10 ==> |ToString(n)| >= 2
    ensures n >= 1 ==> Pow10(|ToString(n)| - 1) <= n
  {
    if n < 10 {
    } else {
      DigitCount(n / 10);
    }
  }

  lemma {:induction false} LengthMonotone(m: nat, n: nat)
    requires m <= n
    ensures |ToString(m)| <= |ToString(n)|
    decreases n
  {
    if m < 10 {
    } else {
      LengthMonotone(m / 10, n / 10);
    }
  }

  lemma PaddedOrder(a: nat, b: nat, padding: int)
    requires |Padded(a, padding)| == |Padded(b, padding)|
    ensures LexLess(Padded(a, padding), Padded(b, padding)) <==> a < b
  {
    PaddedRoundTrip(a, padding);
    PaddedRoundTrip(b, padding);
    LexIsNumeric(Padded(a, padding), Padded(b, padding));
  }

  /** Names of the numbers up to `max` sort like the numbers. */
  ghost predicate SortsNumerically(padding: int, max: uint64)
  {
    forall a: uint64, b: uint64 :: a <= max && b <= max ==>
      (LexLess(BuildKeyName(true, padding, a), BuildKeyName(true, padding, b)) <==> a < b)
  }

  /** k nines and the number after them: the boundary where names grow by a character. */
  lemma {:induction false} NinesAndTen(k: nat)
    requires k >= 1
    ensures |ToString(Pow10(k) - 1)| == k && ToString(Pow10(k) - 1)[0] == '9'
    ensures |ToString(Pow10(k))| == k + 1 && ToString(Pow10(k))[0] == '1'
  {
    if k > 1 {
      NinesAndTen(k - 1);
      var p := Pow10(k - 1);
      assert (10 * p - 1) / 10 == p - 1 && 10 * p / 10 == p;
    } else {
      assert ToString(1) == "1" && ToString(10) == ToString(1) + "0";
    }
  }

  /**
   Ordered names sort numerically exactly when the padding covers the digits of
   the largest number, or all numbers are single digits.
   */
  lemma SortOrderIffPadded(padding: int, max: uint64)
    ensures SortsNumerically(padding, max) <==> max < 10 || padding >= |ToString(max)|
  {
    if max < 10 || padding >= |ToString(max)| {
      forall a: uint64, b: uint64 | a <= max && b <= max
        ensures LexLess(BuildKeyName(true, padding, a), BuildKeyName(true, padding, b)) <==> a < b
      {
        LengthMonotone(a, max);
        LengthMonotone(b, max);
        PaddedOrder(a, b, padding);
        LexPrefix(PREFIX, Padded(a, padding), Padded(b, padding));
      }
    } else {
      UnpaddedMisorders(padding, max);
    }
  }

  lemma UnpaddedMisorders(padding: int, max: uint64)
    requires max >= 10 && padding < |ToString(max)|
    ensures !SortsNumerically(padding, max)
  {
    DigitCount(max);
    var k := |ToString(max)| - 1;
    var a: uint64, b: uint64 := Pow10(k) - 1, Pow10(k);
    NinesSortLast(padding, k, a, b);
  }

  /** Nines come after the number that follows them, once the padding does not make up for its extra digit. */
  lemma NinesSortLast(padding: int, k: nat, a: uint64, b: uint64)
    requires k >= 1 && padding <= k && a == Pow10(k) - 1 && b == Pow10(k)
    ensures !LexLess(BuildKeyName(true, padding, a), BuildKeyName(true, padding, b))
  {
    NinesAndTen(k);
    assert Padded(a, padding) == ToString(a) && Padded(b, padding) == ToString(b);
    LexPrefix(PREFIX, ToString(a), ToString(b));
  }
}
