/**
 * Kotlin's 32-bit `Int`: its range, its wrap-around multiplication, and
 * `String.toIntOrNull()`, which the service uses to read the token lifetime
 * from configuration and entry ids from request paths.
 */
module KotlinInt {
  import opened Wrappers

  const MIN_INT: int := -0x8000_0000
  const MAX_INT: int := 0x7fff_ffff
  const MODULUS: int := 0x1_0000_0000

  type Int32 = x: int | MIN_INT <= x <= MAX_INT

  /** The Int that an exact integer result is truncated to (two's complement). */
  function Wrap(x: int): (r: Int32)
    ensures (x - r) % MODULUS == 0
    ensures MIN_INT <= x <= MAX_INT ==> r == x
  {
    (x + 0x8000_0000) % 0x1_0000_0000 - 0x8000_0000
  }

  /** Two integers congruent modulo 2^32 wrap to the same Int. */
  lemma WrapCongruent(x: int, y: int)
    requires (x - y) % MODULUS == 0
    ensures Wrap(x) == Wrap(y)
  {
    var k := (x - y) / MODULUS;
    assert x + 0x8000_0000 == (y + 0x8000_0000) + 0x1_0000_0000 * k;
  }

  /** Kotlin's `a * b` on two Ints. */
  function Mul(a: Int32, b: Int32): (r: Int32)
    ensures (a * b - r) % MODULUS == 0
  {
    Wrap(a * b)
  }

  /**
   * JVM integer division by a positive divisor, as in `Date.getTime() / 1000`:
   * the quotient is truncated toward zero, so the remainder takes the
   * dividend's sign.
   */
  function DivTrunc(a: int, b: int): (q: int)
    requires b > 0
    ensures 0 <= a ==> 0 <= a - q * b < b
    ensures a < 0 ==> -b < a - q * b <= 0
  {
    if a >= 0 then a / b else -((-a) / b)
  }

  predicate IsDigit(c: char) {
    '0' <= c <= '9'
  }

  predicate AllDigits(s: string) {
    forall i :: 0 <= i < |s| ==> IsDigit(s[i])
  }

  function DigitValue(c: char): nat
    requires IsDigit(c)
  {
    c as int - '0' as int
  }

  function DigitChar(d: nat): char
    requires d < 10
  {
    ('0' as int + d) as char
  }

  /** The value of a run of decimal digits, most significant first. */
  function DigitsValue(s: string): nat
    requires AllDigits(s)
  {
    if s == [] then 0 else DigitsValue(s[..|s| - 1]) * 10 + DigitValue(s[|s| - 1])
  }

  /**
   * Kotlin's `String.toIntOrNull()`: an optional '+' or '-' followed by at
   * least one decimal digit, whose value fits an Int; anything else is null.
   */
  function ParseInt(s: string): (r: Option<Int32>)
    ensures r.Some? ==>
      || (|s| > 0 && AllDigits(s))
      || (|s| > 1 && (s[0] == '+' || s[0] == '-') && AllDigits(s[1..]))
  {
    if |s| == 0 then None
    else
      var signed := s[0] == '-' || s[0] == '+';
      var digits := if signed then s[1..] else s;
      if |digits| == 0 || !AllDigits(digits) then None
      else
        var v: int := if s[0] == '-' then -(DigitsValue(digits) as int) else DigitsValue(digits);
        if MIN_INT <= v <= MAX_INT then Some(v) else None
  }

  /** Decimal notation of a natural number, without leading zeros. */
  function ShowNat(n: nat): (s: string)
    ensures |s| > 0 && AllDigits(s)
  {
    if n < 10 then [DigitChar(n)] else ShowNat(n / 10) + [DigitChar(n % 10)]
  }

  /** Decimal notation of an integer, as Kotlin's `Int.toString()` writes it. */
  function ShowInt(n: int): (s: string)
    ensures |s| > 0
  {
    if n < 0 then "-" + ShowNat(-n) else ShowNat(n)
  }

  lemma {:induction false} DigitsValueOfShowNat(n: nat)
    ensures DigitsValue(ShowNat(n)) == n
  {
    if n >= 10 {
      var s := ShowNat(n);
      assert s[..|s| - 1] == ShowNat(n / 10);
      DigitsValueOfShowNat(n / 10);
    }
  }

  /**
   * A sign ("", "+" or "-") followed by at least one digit, leading zeros
   * allowed, reads as its signed value when that value fits an Int, and as
   * null when it does not.
   */
  lemma ParseSignedDigits(sign: string, digits: string)
    requires sign == "" || sign == "+" || sign == "-"
    requires |digits| > 0 && AllDigits(digits)
    ensures var v: int := if sign == "-" then -(DigitsValue(digits) as int) else DigitsValue(digits);
      ParseInt(sign + digits) == if MIN_INT <= v <= MAX_INT then Some(v) else None
  {
    var s := sign + digits;
    if sign == "" {
      assert s == digits;
    } else {
      assert s[0] == sign[0] && s[1..] == digits;
    }
  }

  /** Every Int written in decimal reads back as itself. */
  lemma ParseShowInt(n: Int32)
    ensures ParseInt(ShowInt(n)) == Some(n)
  {
    var s := ShowInt(n);
    DigitsValueOfShowNat(if n < 0 then -(n as int) else n);
    if n < 0 {
      assert s[0] == '-' && s[1..] == ShowNat(-(n as int));
    } else {
      assert s == ShowNat(n) && IsDigit(s[0]);
    }
  }
}
