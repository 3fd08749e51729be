/**
 * The java.lang behaviour that entry validation depends on, written out:
 * the range of an `int`, `String.trim` and `Integer.toString`.
 */
module JavaLang {

  /** A Java `int`, the value held by an `Integer`: 32-bit two's complement. */
  newtype int32 = x: int | -0x8000_0000 <= x < 0x8000_0000

  /** `String.trim` strips every character whose code is at most U+0020. */
  predicate IsTrimmable(c: char)
  {
    c <= ' '
  }

  /** Every character of `s` is one that `trim` strips. */
  predicate IsBlank(s: string)
  {
    forall i :: 0 <= i < |s| ==> IsTrimmable(s[i])
  }

  /** Drops the leading trimmable characters: the rest is a suffix of `s` that does not start with one. */
  function TrimStart(s: string): (r: string)
    ensures |r| <= |s| && r == s[|s| - |r|..]
    ensures IsBlank(s[..|s| - |r|])
    ensures r == [] || !IsTrimmable(r[0])
  {
    if |s| > 0 && IsTrimmable(s[0]) then TrimStart(s[1..]) else s
  }

  /** Drops the trailing trimmable characters: the rest is a prefix of `s` that does not end with one. */
  function TrimEnd(s: string): (r: string)
    ensures |r| <= |s| && r == s[..|r|]
    ensures IsBlank(s[|r|..])
    ensures r == [] || !IsTrimmable(r[|r| - 1])
  {
    if |s| > 0 && IsTrimmable(s[|s| - 1]) then
      var r := TrimEnd(s[..|s| - 1]);
      assert s[|r|..] == s[..|s| - 1][|r|..] + [s[|s| - 1]];
      r
    else
      s
  }

  /** `String.trim`: a string trims to "" exactly when it is blank. */
  function Trim(s: string): (r: string)
    ensures r == [] <==> IsBlank(s)
    ensures r == [] || (!IsTrimmable(r[0]) && !IsTrimmable(r[|r| - 1]))
  {
    var t := TrimStart(s);
    var r := TrimEnd(t);
    assert r != [] ==> r[0] == t[0];
    if r == [] then
      assert s == s[..|s| - |t|] + t;
      r
    else
      assert !IsTrimmable(s[|s| - |t|]);
      r
  }

  /** The decimal digit for `d`. */
  function DigitChar(d: int): (c: char)
    requires 0 <= d < 10
    ensures '0' <= c <= '9'
  {
    "0123456789"[d]
  }

  /** The decimal digits of `n`, most significant first, without leading zeros. */
  function NaturalToString(n: nat): (r: string)
    ensures |r| >= 1 && forall i :: 0 <= i < |r| ==> '0' <= r[i] <= '9'
    decreases n
  {
    if n < 10 then [DigitChar(n)] else NaturalToString(n / 10) + [DigitChar(n % 10)]
  }

  /** Every character of `s` is a decimal digit. */
  predicate IsDigits(s: string)
  {
    forall i :: 0 <= i < |s| ==> '0' <= s[i] <= '9'
  }

  /** The number a string of decimal digits denotes, most significant first. */
  function DigitsValue(s: string): (v: nat)
    requires IsDigits(s)
  {
    if s == [] then 0 else 10 * DigitsValue(s[..|s| - 1]) + ((s[|s| - 1] as int) - ('0' as int))
  }

  /** Reading back the digits of `n` gives `n`. */
  lemma {:induction false} NaturalToStringValue(n: nat)
    ensures DigitsValue(NaturalToString(n)) == n
    decreases n
  {
    if n >= 10 {
      NaturalToStringValue(n / 10);
      var s := NaturalToString(n);
      assert s[..|s| - 1] == NaturalToString(n / 10);
      assert s[|s| - 1] == DigitChar(n % 10);
    }
  }

  /** `Integer.toString`: a '-' exactly for a negative number, then the decimal digits of its magnitude. */
  function IntegerToString(n: int32): (r: string)
    ensures |r| >= 1 && (r[0] == '-' <==> n < 0)
  {
    if n < 0 then "-" + NaturalToString(-(n as int)) else NaturalToString(n as int)
  }

  /**
   * What follows the optional '-' of `Integer.toString` is a non-empty run of
   * decimal digits that, with the sign, reads back as the number itself.
   */
  lemma IntegerToStringReadsBack(n: int32)
    ensures var r := IntegerToString(n);
            var digits := if n < 0 then r[1..] else r;
            IsDigits(digits) && |digits| >= 1 &&
            (if n < 0 then -(DigitsValue(digits) as int) else DigitsValue(digits)) == n as int
  {
    var m: nat := if n < 0 then -(n as int) else n as int;
    NaturalToStringValue(m);
    if n < 0 {
      assert IntegerToString(n)[1..] == NaturalToString(m);
    }
  }

  /** 10^k. */
  function Pow10(k: nat): (p: nat)
    ensures p >= 1
  {
    if k == 0 then 1 else 10 * Pow10(k - 1)
  }

  /** `n` has at most `k` decimal digits exactly when it is below 10^k. */
  lemma {:induction false} NaturalToStringLength(n: nat, k: nat)
    requires k >= 1
    ensures |NaturalToString(n)| <= k <==> n < Pow10(k)
  {
    if n < 10 {
      assert Pow10(k) == 10 * Pow10(k - 1);
    } else if k == 1 {
      assert Pow10(1) == 10;
      assert |NaturalToString(n)| == |NaturalToString(n / 10)| + 1;
    } else {
      NaturalToStringLength(n / 10, k - 1);
      assert |NaturalToString(n)| == |NaturalToString(n / 10)| + 1;
      assert n / 10 < Pow10(k - 1) <==> n < 10 * Pow10(k - 1);
    }
  }

  /**
   * The string of an `int` has four characters exactly for 1000..9999 and,
   * because the minus sign counts, for -999..-100.
   */
  lemma IntegerToStringHasFourChars(n: int32)
    ensures |IntegerToString(n)| == 4 <==> (1000 <= n <= 9999 || -999 <= n <= -100)
  {
    var m: nat := if n < 0 then -(n as int) else n as int;
    assert Pow10(2) == 100 && Pow10(3) == 1000 && Pow10(4) == 10000;
    NaturalToStringLength(m, 2);
    NaturalToStringLength(m, 3);
    NaturalToStringLength(m, 4);
  }
}
