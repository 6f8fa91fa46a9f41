/**
  Java `int` values as the programs read them: the 32-bit range and
  `Integer.parseInt` on a decimal token, with the decimal rendering it
  inverts.
*/
module JavaInt {
  import opened Wrappers

  /** `Integer.MIN_VALUE`. */
  const IntMin: int := -0x8000_0000

  /** `Integer.MAX_VALUE`. */
  const IntMax: int := 0x7fff_ffff

  predicate IsDigit(c: char) {
    '0' <= c <= '9'
  }

  predicate AllDigits(s: string) {
    forall i :: 0 <= i < |s| ==> IsDigit(s[i])
  }

  /** The value of a run of decimal digits, most significant first. */
  function Decimal(s: string): nat
    requires AllDigits(s)
    decreases |s|
  {
    if s == [] then 0
    else Decimal(s[..|s| - 1]) * 10 + ((s[|s| - 1] as int) - ('0' as int))
  }

  /**
    `Integer.parseInt(s)`: an optional `+` or `-`, then at least one digit,
    and a value inside the `int` range; anything else is a
    `NumberFormatException`, modelled as `None`.
  */
  function ParseInt(s: string): (r: Option<int>)
    ensures r.Some? ==> IntMin <= r.value <= IntMax
    ensures r.Some? ==> s != [] && (IsDigit(s[0]) || s[0] == '+' || s[0] == '-')
    ensures r.Some? && s[0] != '-' ==> 0 <= r.value
    ensures r.Some? && s[0] == '-' ==> r.value <= 0
  {
    if s == [] then None
    else
      var negative := s[0] == '-';
      var digits := if s[0] == '-' || s[0] == '+' then s[1..] else s;
      if digits == [] || !AllDigits(digits) then None
      else
        var magnitude: int := Decimal(digits);
        var v := if negative then -magnitude else magnitude;
        if IntMin <= v <= IntMax then Some(v) else None
  }

  function DigitChar(d: nat): (c: char)
    requires d < 10
    ensures IsDigit(c) && (c as int) - ('0' as int) == d
  {
    (('0' as int) + d) as char
  }

  /** The decimal digits of `n` without leading zeros, as `Integer.toString` writes them. */
  function DigitsOf(n: nat): (s: string)
    ensures s != [] && AllDigits(s)
    decreases n
  {
    if n < 10 then [DigitChar(n)] else DigitsOf(n / 10) + [DigitChar(n % 10)]
  }

  /** `Integer.toString(n)`: a minus sign for negative values, then the digits of the magnitude. */
  function Show(n: int): (s: string)
    ensures s != [] && (n < 0 <==> s[0] == '-')
  {
    if n < 0 then ['-'] + DigitsOf(-n) else DigitsOf(n)
  }

  lemma {:induction false} DecimalOfDigits(n: nat)
    ensures Decimal(DigitsOf(n)) == n
    decreases n
  {
    if n >= 10 {
      DecimalOfDigits(n / 10);
      var s := DigitsOf(n);
      assert s[..|s| - 1] == DigitsOf(n / 10);
    }
  }

  /** Parsing inverts printing on the whole `int` range. */
  lemma ParseShow(n: int)
    requires IntMin <= n <= IntMax
    ensures ParseInt(Show(n)) == Some(n)
  {
    var s := Show(n);
    if n < 0 {
      var d := DigitsOf(-n);
      DecimalOfDigits(-n);
      assert s[0] == '-' && s[1..] == d;
      assert Decimal(d) == -n;
    } else {
      var d := DigitsOf(n);
      DecimalOfDigits(n);
      assert s == d && IsDigit(s[0]);
    }
  }
}
