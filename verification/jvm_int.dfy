/**
 * The JVM integer facts the handler relies on: the range of `Int`, the decimal
 * text `toString()` gives a boxed `Integer`/`Long`, and Kotlin's
 * `String.toInt()`, which throws `NumberFormatException` (here: `None`) on
 * anything that is not an optionally signed decimal numeral in `Int` range.
 */
module JvmInt {
  import opened Wrappers

  const MinInt: int := -0x8000_0000
  const MaxInt: int := 0x7FFF_FFFF

  /** `n` fits in a 32-bit two's-complement `Int`. */
  predicate IsInt(n: int) {
    MinInt <= n <= MaxInt
  }

  predicate IsDigit(c: char) {
    '0' <= c <= '9'
  }

  predicate AllDigits(s: string) {
    forall i :: 0 <= i < |s| ==> IsDigit(s[i])
  }

  function DigitChar(d: nat): char
    requires d < 10
  {
    (d + '0' as int) as char
  }

  function DigitValue(c: char): nat
    requires IsDigit(c)
  {
    c as int - '0' as int
  }

  /** Decimal digits of a natural number, most significant first, no leading zero. */
  function NatText(n: nat): (s: string)
    ensures |s| > 0 && AllDigits(s)
    ensures |s| > 1 ==> s[0] != '0'
    decreases n
  {
    if n < 10 then [DigitChar(n)] else NatText(n / 10) + [DigitChar(n % 10)]
  }

  /** `Integer.toString` / `Long.toString`: a minus sign for negatives, then the digits. */
  function DecimalText(n: int): (r: string)
    ensures |r| > 0
    ensures r[0] == '-' <==> n < 0
    ensures n >= 0 ==> AllDigits(r)
    ensures n < 0 ==> |r| > 1 && AllDigits(r[1..])
  {
    if n < 0 then "-" + NatText(-n) else NatText(n)
  }

  /** Value of a run of decimal digits, most significant first. */
  function DigitsValue(s: string): nat
    requires AllDigits(s)
    decreases |s|
  {
    if s == [] then 0 else DigitsValue(s[..|s| - 1]) * 10 + DigitValue(s[|s| - 1])
  }

  /** The range check of `toInt()`: the value itself when it fits an `Int`, a `NumberFormatException` otherwise. */
  function InRange(v: int): Option<int> {
    if IsInt(v) then Some(v) else None
  }

  /**
   * Kotlin's `String.toInt()` (radix 10): an optional leading `-` or `+`
   * followed by at least one digit, with a value in `Int` range.
   */
  function ParseInt(s: string): (r: Option<int>)
    ensures r.Some? ==> IsInt(r.value)
    ensures s == [] ==> r.None?
  {
    if s == [] then None
    else if s[0] == '-' || s[0] == '+' then
      if |s| == 1 || !AllDigits(s[1..]) then None
      else if s[0] == '-' then InRange(-(DigitsValue(s[1..]) as int))
      else InRange(DigitsValue(s[1..]))
    else if !AllDigits(s) then None
    else InRange(DigitsValue(s))
  }

  lemma {:induction false} DigitsValueOfNatText(n: nat)
    ensures DigitsValue(NatText(n)) == n
    decreases n
  {
    var s := NatText(n);
    if n >= 10 {
      DigitsValueOfNatText(n / 10);
      assert s[..|s| - 1] == NatText(n / 10);
    }
  }

  /**
   * `x.toString().toInt()` gives back every `Int` value and throws for every
   * number outside `Int` range (a `Long` flags value that does not fit).
   */
  lemma ParseDecimalText(n: int)
    ensures IsInt(n) ==> ParseInt(DecimalText(n)) == Some(n)
    ensures !IsInt(n) ==> ParseInt(DecimalText(n)) == None
  {
    if n < 0 {
      ParseNegativeText(-n);
    } else {
      ParseNatText(n);
    }
  }

  /** The digits of `n` parse as `n` whenever that fits an `Int`. */
  lemma ParseNatText(n: nat)
    ensures ParseInt(NatText(n)) == InRange(n)
  {
    var t := NatText(n);
    assert IsDigit(t[0]);
    DigitsValueOfNatText(n);
  }

  /** A minus sign followed by the digits of `m` parses as `-m` whenever that fits an `Int`. */
  lemma ParseNegativeText(m: nat)
    requires m > 0
    ensures ParseInt("-" + NatText(m)) == InRange(-(m as int))
  {
    var t := NatText(m);
    var s := "-" + t;
    assert s[0] == '-' && |s| > 1;
    assert s[1..] == t;
    DigitsValueOfNatText(m);
  }
}
