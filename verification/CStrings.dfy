/**
 C strings and the hashed string of `lib/string.h`. A `char *` read from a
 std::string stops at the first NUL. Strings are sequences of octets.
 */
module CStrings {
  import opened Fnv

  const NUL: char := '\0'

  /** What `c_str()` denotes: everything before the first NUL. */
  function CStr(s: string): (c: string)
    ensures c <= s && NUL !in c
    ensures c == s <==> NUL !in s
  {
    if s == "" || s[0] == NUL then "" else [s[0]] + CStr(s[1..])
  }

  /** A signed char widened to 64 bits: the octet is kept, and the word is within 128 of zero, wrapping around. */
  function Widen(c: char): (w: uint64)
    ensures w % 256 == c as int % 256 && (w < 128 || TWO64 - 128 <= w)
  {
    var octet := c as int % 256;
    if octet < 128 then octet else TWO64 + octet - 256
  }

  /** The SDBM polynomial: the characters as digits in base 65599, first character most significant. */
  function Polynomial(s: string): (p: nat)
  {
    if s == "" then 0 else Polynomial(s[..|s| - 1]) * 65599 + Widen(s[|s| - 1])
  }

  /** One round: `c + (hash << 6) + (hash << 16) - hash` on 64-bit words. */
  function SdbmRound(hash: uint64, c: uint64): (r: uint64)
  {
    (c + hash * 64 % TWO64 + hash * 65536 % TWO64 + TWO64 - hash) % TWO64
  }

  lemma SdbmRoundIsHorner(hash: uint64, c: uint64)
    ensures SdbmRound(hash, c) == (hash * 65599 + c) % TWO64
  {
    var i, j := hash * 64 / TWO64, hash * 65536 / TWO64;
    var x, y := hash * 64 % TWO64, hash * 65536 % TWO64;
    assert hash * 64 == TWO64 * i + x && hash * 65536 == TWO64 * j + y;
    var z := c + x + y + TWO64 - hash;
    assert hash * 65599 + c == z + TWO64 * (i + j - 1);
    ModShift(z, i + j - 1);
  }

  lemma ModShift(z: int, k: int)
    ensures (z + TWO64 * k) % TWO64 == z % TWO64
  {
    DivUnique(z + TWO64 * k, TWO64, z / TWO64 + k, z % TWO64);
  }

  /** `SDBMHash`: walks the characters up to the NUL and returns the polynomial modulo 2^64. */
  method SDBMHash(str: string) returns (hash: uint64)
    ensures hash == Polynomial(CStr(str)) % TWO64
  {
    hash := 0;
    ghost var s := CStr(str);
    var i := 0;
    while i < |str| && str[i] != NUL
      invariant 0 <= i <= |s| && s == CStr(str)
      invariant hash == Polynomial(s[..i]) % TWO64
      decreases |str| - i
    {
      CStrBefore(str, i);
      SdbmRoundIsHorner(hash, Widen(str[i]));
      HornerMod(Polynomial(s[..i]), Widen(str[i]));
      assert s[..i + 1][..i] == s[..i];
      hash := SdbmRound(hash, Widen(str[i]));
      i := i + 1;
    }
    CStrEnds(str, i);
    assert s[..i] == s;
  }

  lemma HornerMod(p: nat, c: nat)
    ensures (p % TWO64 * 65599 + c) % TWO64 == (p * 65599 + c) % TWO64
  {
    var q := p / TWO64;
    assert p * 65599 + c == p % TWO64 * 65599 + c + TWO64 * (q * 65599);
    ModShift(p % TWO64 * 65599 + c, q * 65599);
  }

  lemma {:induction false} CStrBefore(s: string, i: nat)
    requires i < |s| && i <= |CStr(s)| && s[i] != NUL
    ensures i < |CStr(s)| && CStr(s)[i] == s[i]
  {
    if i == 0 {
    } else {
      CStrBefore(s[1..], i - 1);
    }
  }

  lemma {:induction false} CStrEnds(s: string, i: nat)
    requires i <= |CStr(s)| && (i == |s| || s[i] == NUL)
    ensures i == |CStr(s)|
  {
    if i == 0 {
    } else {
      CStrEnds(s[1..], i - 1);
    }
  }

  /** `String`: a C string with its hash. `set_value` is the only way to fill one in. */
  datatype HString = HString(hash: uint64, value: string, len: nat)

  method SetValue(v: string) returns (h: HString)
    ensures h == Hashed(v)
    ensures h.len <= |v| && (h.len < |v| ==> v[h.len] == NUL) && NUL !in v[..h.len]
  {
    var hash := SDBMHash(v);
    var len := StrLen(v);
    h := HString(hash, v[..len], len);
  }

  /** `strlen`: the position of the first NUL. */
  method StrLen(str: string) returns (len: nat)
    ensures len == |CStr(str)| && str[..len] == CStr(str)
    ensures len < |str| ==> str[len] == NUL
  {
    len := 0;
    while len < |str| && str[len] != NUL
      invariant 0 <= len <= |CStr(str)|
      decreases |str| - len
    {
      CStrBefore(str, len);
      len := len + 1;
    }
    CStrEnds(str, len);
  }

  function Hashed(v: string): (h: HString)
  {
    HString(Polynomial(CStr(v)) % TWO64, CStr(v), |CStr(v)|)
  }

  /** `operator==`: compare hashes first, then characters (`strcmp`). */
  predicate Equal(a: HString, b: HString)
  {
    if a.hash != b.hash then false else a.value == b.value
  }

  /** The shortcut never separates equal strings: equality is equality of contents. */
  lemma EqualIsContents(s: string, t: string)
    ensures Equal(Hashed(s), Hashed(t)) <==> CStr(s) == CStr(t)
  {
  }
}
