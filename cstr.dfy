/**
 * The few C library routines the modelled code leans on (ctype tests,
 * strcasecmp, atoi, prefix tests), stated over Dafny strings.
 */
module CStr {
  import opened Wrappers

  /** 2^64: the range of u64 and size_t. */
  const U64_MOD: nat := 0x1_0000_0000_0000_0000
  /** 2^32: the range of u32. */
  const U32_MOD: nat := 0x1_0000_0000

  /** The (u64) cast of a C integer. */
  function U64(v: int): (r: nat)
    ensures r < U64_MOD && (0 <= v < U64_MOD ==> r == v)
  {
    v % U64_MOD
  }

  /** The (u32) cast of a C integer. */
  function U32(v: int): (r: nat)
    ensures r < U32_MOD && (0 <= v < U32_MOD ==> r == v)
  {
    v % U32_MOD
  }

  predicate IsDigit(c: char)
  {
    '0' <= c <= '9'
  }

  predicate IsHexDigit(c: char)
  {
    '0' <= c <= '9' || 'a' <= c <= 'f' || 'A' <= c <= 'F'
  }

  function DigitValue(c: char): nat
    requires IsDigit(c)
  {
    c as int - '0' as int
  }

  function HexDigitValue(c: char): (v: nat)
    requires IsHexDigit(c)
    ensures v < 16
  {
    if '0' <= c <= '9' then c as int - '0' as int
    else if 'a' <= c <= 'f' then c as int - 'a' as int + 10
    else c as int - 'A' as int + 10
  }

  predicate AllHex(s: string)
  {
    forall i :: 0 <= i < |s| ==> IsHexDigit(s[i])
  }

  /** The value of a string of hex digits, most significant first. */
  function HexFold(s: string): nat
    requires AllHex(s)
  {
    if |s| == 0 then 0 else HexFold(s[..|s| - 1]) * 16 + HexDigitValue(s[|s| - 1])
  }

  /** The lower-case hex digit of d. */
  function HexDigitOf(d: nat): (c: char)
    requires d < 16
    ensures IsHexDigit(c) && HexDigitValue(c) == d
  {
    if d < 10 then ('0' as int + d) as char else ('a' as int + d - 10) as char
  }

  /** Decimal digits of n, most significant first. */
  function DecimalOf(n: nat): (s: string)
    ensures |s| > 0 && forall i :: 0 <= i < |s| ==> IsDigit(s[i])
  {
    if n < 10 then [('0' as int + n) as char] else DecimalOf(n / 10) + [('0' as int + n % 10) as char]
  }

  lemma {:induction false} DecimalOfValue(n: nat)
    ensures DecimalValue(DecimalOf(n)) == n
  {
    if n >= 10 {
      DecimalOfValue(n / 10);
      var s := DecimalOf(n);
      assert s[..|s| - 1] == DecimalOf(n / 10);
    }
  }

  /** ASCII tolower. */
  function ToLower(c: char): char
  {
    if 'A' <= c <= 'Z' then (c as int + 32) as char else c
  }

  /** strcasecmp(a, b) == 0, compared character by character. */
  predicate EqualsIgnoreCase(a: string, b: string)
  {
    |a| == |b| && (|a| == 0 || (ToLower(a[0]) == ToLower(b[0]) && EqualsIgnoreCase(a[1..], b[1..])))
  }

  /** Case-insensitive equality is equality of the lower-cased characters. */
  lemma {:induction false} EqualsIgnoreCaseChars(a: string, b: string)
    ensures EqualsIgnoreCase(a, b) <==> |a| == |b| && forall i :: 0 <= i < |a| ==> ToLower(a[i]) == ToLower(b[i])
  {
    if |a| == |b| && |a| > 0 {
      EqualsIgnoreCaseChars(a[1..], b[1..]);
      if forall i :: 0 <= i < |a| ==> ToLower(a[i]) == ToLower(b[i]) {
        forall i | 0 <= i < |a| - 1
          ensures ToLower(a[1..][i]) == ToLower(b[1..][i])
        {
          assert a[1..][i] == a[i + 1] && b[1..][i] == b[i + 1];
        }
      }
    }
  }

  lemma EqualsIgnoreCaseRefl(a: string)
    ensures EqualsIgnoreCase(a, a)
  {
    EqualsIgnoreCaseChars(a, a);
  }

  /** Two strings that differ, ignoring case, at one position are not equal ignoring case. */
  lemma NotEqualsIgnoreCaseAt(a: string, b: string, i: nat)
    requires i < |a| && i < |b| && ToLower(a[i]) != ToLower(b[i])
    ensures !EqualsIgnoreCase(a, b)
  {
    EqualsIgnoreCaseChars(a, b);
  }

  predicate IsPrefix(p: string, s: string)
  {
    |p| <= |s| && s[..|p|] == p
  }

  /** Number of leading decimal digits of s. */
  function DigitRun(s: string): (n: nat)
    ensures n <= |s|
  {
    if |s| > 0 && IsDigit(s[0]) then 1 + DigitRun(s[1..]) else 0
  }

  /** Value of the decimal digits s[..n], most significant first. */
  function DecimalValue(s: string): nat
    requires forall i :: 0 <= i < |s| ==> IsDigit(s[i])
  {
    if |s| == 0 then 0 else DecimalValue(s[..|s| - 1]) * 10 + DigitValue(s[|s| - 1])
  }

  lemma DigitRunAllDigits(s: string)
    ensures forall i :: 0 <= i < DigitRun(s) ==> IsDigit(s[i])
  {
  }

  predicate IsSpace(c: char)
  {
    c == ' ' || c == '\t' || c == '\n' || c == '\r' || c == '\U{000B}' || c == '\U{000C}'
  }

  function SkipSpaces(s: string): (r: string)
    ensures |r| <= |s|
  {
    if |s| > 0 && IsSpace(s[0]) then SkipSpaces(s[1..]) else s
  }

  /** atoi/atoll: leading white space, an optional sign, then decimal digits; 0 when there are none. */
  function Atoi(s: string): int
  {
    var t := SkipSpaces(s);
    var neg := |t| > 0 && t[0] == '-';
    var u := if |t| > 0 && (t[0] == '-' || t[0] == '+') then t[1..] else t;
    DigitRunAllDigits(u);
    var v := DecimalValue(u[..DigitRun(u)]);
    if neg then -(v as int) else v
  }

  /** 2^63: one past the largest long. */
  const LONG_LIMIT: int := 0x8000_0000_0000_0000
  /** 2^31: one past the largest int. */
  const INT_LIMIT: int := 0x8000_0000

  /** strtol(s, NULL, 10) and atoll: the decimal value, saturated to the range of a 64-bit long. */
  function Strtol(s: string): (r: int)
    ensures -LONG_LIMIT <= r < LONG_LIMIT
    ensures -LONG_LIMIT <= Atoi(s) < LONG_LIMIT ==> r == Atoi(s)
  {
    var v := Atoi(s);
    if v >= LONG_LIMIT then LONG_LIMIT - 1 else if v < -LONG_LIMIT then -LONG_LIMIT else v
  }

  /** The (int) conversion of a C integer: its low 32 bits read as two's complement. */
  function I32(v: int): (r: int)
    ensures -INT_LIMIT <= r < INT_LIMIT && (r - v) % U32_MOD == 0
  {
    var u := v % U32_MOD;
    if u >= INT_LIMIT then u - U32_MOD else u
  }

  /** atoi, as the C library computes it: (int) strtol(s, NULL, 10). */
  function CAtoi(s: string): (r: int)
    ensures -INT_LIMIT <= r < INT_LIMIT
    ensures -INT_LIMIT <= Atoi(s) < INT_LIMIT ==> r == Atoi(s)
  {
    I32(Strtol(s))
  }

  /** A digit string is worth at least its leading digit. */
  lemma {:induction false} DecimalValueLead(s: string)
    requires |s| > 0 && forall i :: 0 <= i < |s| ==> IsDigit(s[i])
    ensures DecimalValue(s) >= DigitValue(s[0])
  {
    if |s| > 1 {
      var t := s[..|s| - 1];
      assert t[0] == s[0];
      DecimalValueLead(t);
    }
  }

  /** The decimal text of a positive number does not start with '0'. */
  lemma {:induction false} DecimalOfLead(n: nat)
    requires n > 0
    ensures '1' <= DecimalOf(n)[0] <= '9'
  {
    if n >= 10 {
      DecimalOfLead(n / 10);
    }
  }

  /** atoi of a string that starts with a digit 1-9 is positive. */
  lemma AtoiPositive(s: string)
    requires |s| > 0 && '1' <= s[0] <= '9'
    ensures Atoi(s) >= 1
  {
    assert SkipSpaces(s) == s;
    DigitRunAllDigits(s);
    var run := s[..DigitRun(s)];
    assert |run| > 0 && run[0] == s[0];
    DecimalValueLead(run);
  }

  lemma {:induction false} DigitRunOfDigits(s: string)
    requires forall i :: 0 <= i < |s| ==> IsDigit(s[i])
    ensures DigitRun(s) == |s|
  {
    if |s| > 0 {
      DigitRunOfDigits(s[1..]);
    }
  }

  /** atoi reads back the decimal digits of n. */
  lemma AtoiDecimal(n: nat)
    ensures Atoi(DecimalOf(n)) == n
  {
    var s := DecimalOf(n);
    assert !IsSpace(s[0]);
    assert SkipSpaces(s) == s;
    DigitRunOfDigits(s);
    assert s[..DigitRun(s)] == s;
    DecimalOfValue(n);
  }

  /** 10^k. */
  function Pow10(k: nat): (r: nat)
    ensures r >= 1
  {
    if k == 0 then 1 else 10 * Pow10(k - 1)
  }

  lemma {:induction false} Pow10Mono(j: nat, k: nat)
    requires j <= k
    ensures Pow10(j) <= Pow10(k)
  {
    if j < k {
      Pow10Mono(j, k - 1);
    }
  }

  /** k decimal digits are worth less than 10^k. */
  lemma {:induction false} DecimalValueBelow(s: string)
    requires forall i :: 0 <= i < |s| ==> IsDigit(s[i])
    ensures DecimalValue(s) < Pow10(|s|)
  {
    if |s| > 0 {
      DecimalValueBelow(s[..|s| - 1]);
    }
  }

  /**
   * A name of at most nine characters that starts with a digit 1-9 reads
   * as a positive int: atoi neither saturates nor wraps it.
   */
  lemma ShortNumberInRange(s: string)
    requires 0 < |s| <= 9 && '1' <= s[0] <= '9'
    ensures 1 <= Atoi(s) < INT_LIMIT && CAtoi(s) == Atoi(s)
  {
    AtoiPositive(s);
    assert SkipSpaces(s) == s;
    DigitRunAllDigits(s);
    var run := s[..DigitRun(s)];
    DecimalValueBelow(run);
    Pow10Mono(|run|, 9);
    assert Pow10(9) == 1000000000;
  }

  /** p occurs in s starting at index i. */
  predicate OccursAt(s: string, p: string, i: int)
  {
    0 <= i && i + |p| <= |s| && s[i..i + |p|] == p
  }

  /** First occurrence of p in s at or after from (memmem, find_str). */
  function FindFrom(s: string, p: string, from: nat): (r: Option<nat>)
    ensures r.Some? ==> from <= r.value && OccursAt(s, p, r.value)
    ensures r.Some? ==> forall j :: from <= j < r.value ==> !OccursAt(s, p, j)
    ensures r.None? ==> forall j :: from <= j ==> !OccursAt(s, p, j)
    decreases |s| - from
  {
    if from + |p| > |s| then None
    else if s[from..from + |p|] == p then Some(from)
    else FindFrom(s, p, from + 1)
  }

  /** Last occurrence of p in s starting at an index at most k (rfind_str when k is |s|). */
  function FindLastUpTo(s: string, p: string, k: nat): (r: Option<nat>)
    ensures r.Some? ==> r.value <= k && OccursAt(s, p, r.value)
    ensures r.Some? ==> forall j :: r.value < j <= k ==> !OccursAt(s, p, j)
    ensures r.None? ==> forall j :: 0 <= j <= k ==> !OccursAt(s, p, j)
    decreases k
  {
    if k + |p| <= |s| && s[k..k + |p|] == p then Some(k)
    else if k == 0 then None
    else FindLastUpTo(s, p, k - 1)
  }

  function FindLast(s: string, p: string): (r: Option<nat>)
    ensures r.Some? ==> OccursAt(s, p, r.value)
    ensures r.Some? ==> forall j :: r.value < j ==> !OccursAt(s, p, j)
    ensures r.None? ==> forall j :: !OccursAt(s, p, j)
  {
    FindLastUpTo(s, p, |s|)
  }

  /** Index of the first c in s (strchr). */
  function CharIndex(s: string, c: char): (r: Option<nat>)
    ensures r.Some? ==> r.value < |s| && s[r.value] == c && c !in s[..r.value]
    ensures r.None? ==> c !in s
  {
    if |s| == 0 then None
    else if s[0] == c then Some(0)
    else match CharIndex(s[1..], c)
      case None => None
      case Some(i) =>
        assert s[..i + 1] == [s[0]] + s[1..][..i];
        Some(i + 1)
  }
}
