/**
 * The integer conversions the core relies on: strconv.ParseInt(s, 10, 64),
 * strconv.FormatInt(x, 10) (also what fmt's %d prints), and the wrap-around
 * of Go's int64 arithmetic.
 */
module Strconv {
  import opened Wrappers

  const MinInt64: int := -0x8000_0000_0000_0000
  const MaxInt64: int := 0x7FFF_FFFF_FFFF_FFFF
  const TwoTo64: int := 0x1_0000_0000_0000_0000

  predicate IsInt64(x: int) {
    MinInt64 <= x <= MaxInt64
  }

  /** The int64 value Go computes for the mathematical result `x`. */
  function Wrap64(x: int): (r: int)
    ensures IsInt64(r)
    ensures IsInt64(x) ==> r == x
    ensures (x - r) % TwoTo64 == 0
  {
    (x - MinInt64) % TwoTo64 + MinInt64
  }

  function Min(a: int, b: int): int {
    if a <= b then a else b
  }

  predicate IsDigit(c: char) {
    '0' <= c <= '9'
  }

  function DigitValue(c: char): (d: nat)
    requires IsDigit(c)
    ensures d < 10
  {
    (c as int) - ('0' as int)
  }

  function DigitChar(d: nat): (c: char)
    requires d < 10
    ensures IsDigit(c) && DigitValue(c) == d
  {
    (('0' as int) + d) as char
  }

  predicate AllDigits(s: string) {
    forall i :: 0 <= i < |s| ==> IsDigit(s[i])
  }

  /**
   * The value of a decimal numeral, most significant digit first; None when
   * it is empty or holds anything but '0'..'9' (base 10 admits no prefix and
   * no underscores).
   */
  function DecimalValue(s: string): (r: Option<nat>)
    ensures r.Some? <==> s != [] && AllDigits(s)
  {
    if s == [] || !IsDigit(s[|s| - 1]) then None
    else if |s| == 1 then Some(DigitValue(s[0]))
    else
      match DecimalValue(s[..|s| - 1])
      case None => None
      case Some(v) => Some(10 * v + DigitValue(s[|s| - 1]))
  }

  /**
   * strconv.ParseInt(s, 10, 64): one optional '+' or '-', then at least one
   * decimal digit, and the value must lie in int64. Every failure (syntax or
   * range) is None: the callers only test the error for nil.
   */
  function ParseInt(s: string): (r: Option<int>)
    ensures r.Some? ==> IsInt64(r.value)
    ensures r.Some? && r.value < 0 ==> s != [] && s[0] == '-'
  {
    if s == [] then None
    else
      var negative := s[0] == '-';
      var digits := if s[0] == '+' || s[0] == '-' then s[1..] else s;
      match DecimalValue(digits)
      case None => None
      case Some(u) =>
        if !negative && u <= MaxInt64 then Some(u)
        else if negative && u <= -MinInt64 then Some(0 - u as int)
        else None
  }

  /**
   * What ParseInt accepts: a non-empty text, one optional sign, then only
   * decimal digits (at least one) whose value fits in int64 with that sign.
   */
  lemma ParseIntAccepts(s: string)
    ensures ParseInt(s).Some? <==>
              s != [] &&
              var digits := if s[0] == '+' || s[0] == '-' then s[1..] else s;
              digits != [] && AllDigits(digits) &&
              (if s[0] == '-' then DecimalValue(digits).value <= -MinInt64
               else DecimalValue(digits).value <= MaxInt64)
  {
  }

  /** Decimal digits of `n` with no leading zero. */
  function FormatNat(n: nat): (s: string)
    ensures s != [] && AllDigits(s)
    ensures |s| > 1 ==> s[0] != '0'
  {
    if n < 10 then [DigitChar(n)] else FormatNat(n / 10) + [DigitChar(n % 10)]
  }

  /** strconv.FormatInt(x, 10), and fmt's %d: a '-' only for negative values. */
  function FormatInt(x: int): (s: string)
    ensures s != []
    ensures s[0] == '-' <==> x < 0
    ensures x >= 0 ==> AllDigits(s)
    ensures forall i :: 0 < i < |s| ==> IsDigit(s[i])
    ensures IsDigit(s[|s| - 1])
  {
    if x < 0 then "-" + FormatNat(-x) else FormatNat(x)
  }

  lemma {:induction false} DecimalValueOfFormat(n: nat)
    ensures DecimalValue(FormatNat(n)) == Some(n)
  {
    if n >= 10 {
      var s := FormatNat(n);
      DecimalValueOfFormat(n / 10);
      assert s[..|s| - 1] == FormatNat(n / 10);
    }
  }

  /** Parsing what FormatInt printed gives back the number, for every int64. */
  lemma ParseFormat(x: int)
    requires IsInt64(x)
    ensures ParseInt(FormatInt(x)) == Some(x)
  {
    var s := FormatInt(x);
    if x < 0 {
      DecimalValueOfFormat(-x);
      assert s == "-" + FormatNat(-x);
      assert s[0] == '-' && s[1..] == FormatNat(-x);
    } else {
      DecimalValueOfFormat(x);
      assert s == FormatNat(x);
      assert s[0] != '-' && s[0] != '+';
    }
  }
}
