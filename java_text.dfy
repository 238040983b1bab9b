/**
  The pieces of java.lang.String and java.lang.Integer that the heartbeat
  code relies on: prefix tests, `Integer.toString(int)`,
  `Integer.parseInt(String)` (radix 10) and the wrap-around of 32-bit `int`
  addition.
 */
module JavaText {
  import opened Wrappers

  const IntMin: int := -0x8000_0000
  const IntMax: int := 0x7fff_ffff

  predicate InInt(n: int) { IntMin <= n <= IntMax }

  /** Java `int` addition: the mathematical result reduced into 32 bits. */
  function Wrap32(n: int): (r: int)
    ensures InInt(r)
    ensures InInt(n) ==> r == n
  {
    (n - IntMin) % 0x1_0000_0000 + IntMin
  }

  /** Java `int` addition keeps the exact sum modulo 2^32, so with InInt it
      determines the result. */
  lemma Wrap32Congruent(n: int)
    ensures (Wrap32(n) - n) % 0x1_0000_0000 == 0
  {
  }

  /** Adding one to a Java `int` goes down exactly at the largest `int`,
      where it yields the smallest. */
  lemma Wrap32Overflow(n: int)
    requires InInt(n)
    ensures Wrap32(n + 1) <= n <==> n == IntMax
    ensures Wrap32(IntMax + 1) == IntMin
  {
  }

  /** `s.startsWith(p)` */
  predicate StartsWith(s: string, p: string) {
    |p| <= |s| && s[..|p|] == p
  }

  predicate IsDigit(c: char) { '0' <= c <= '9' }

  predicate AllDigits(s: string) {
    forall i :: 0 <= i < |s| ==> IsDigit(s[i])
  }

  function DigitChar(d: nat): (c: char)
    requires d < 10
    ensures IsDigit(c) && c as int - '0' as int == d
  {
    ('0' as int + d) as char
  }

  /** The value of a string of decimal digits, read left to right. */
  function DigitsValue(s: string): nat
    requires AllDigits(s)
  {
    if s == [] then 0
    else DigitsValue(s[..|s| - 1]) * 10 + (s[|s| - 1] as int - '0' as int)
  }

  /** The shortest decimal spelling of `n` (no sign, no leading zeros). */
  function NatToString(n: nat): (s: string)
    ensures |s| > 0 && AllDigits(s)
    ensures n > 0 ==> s[0] != '0'
  {
    if n < 10 then [DigitChar(n)] else NatToString(n / 10) + [DigitChar(n % 10)]
  }

  /** `Integer.toString(n)`: a leading '-' for negative numbers, then the digits. */
  function IntToString(n: int): (s: string)
    ensures |s| > 0
    ensures forall i :: 0 <= i < |s| ==> IsDigit(s[i]) || (i == 0 && s[i] == '-')
    ensures n < 0 <==> s[0] == '-'
  {
    if n < 0 then "-" + NatToString(-n) else NatToString(n)
  }

  /**
    `Integer.parseInt(s)`: an optional '+' or '-' sign followed by at least
    one decimal digit, whose value must fit in a Java `int`; every other
    string raises NumberFormatException, modelled as None.
   */
  function ParseInt(s: string): (r: Option<int>)
    ensures r.Some? ==> InInt(r.value)
    ensures r.Some? ==> |s| > 0 && (s[0] == '-' || s[0] == '+' || IsDigit(s[0]))
  {
    if |s| == 0 then None
    else
      var negative := s[0] == '-';
      var digits := if s[0] == '-' || s[0] == '+' then s[1..] else s;
      if |digits| == 0 || !AllDigits(digits) then None
      else
        var v: int := if negative then 0 - DigitsValue(digits) as int else DigitsValue(digits);
        if InInt(v) then Some(v) else None
  }

  /** What parses is an optional sign followed by at least one digit, and
      the result is their signed decimal value. */
  lemma ParseIntValue(s: string)
    ensures ParseInt(s).Some? ==>
      var d := if s[0] == '-' || s[0] == '+' then s[1..] else s;
      |d| > 0 && AllDigits(d) &&
      ParseInt(s).value == (if s[0] == '-' then -(DigitsValue(d) as int) else DigitsValue(d) as int)
  {
  }

  /** Conversely, every optional sign ('+' or '-') followed by digits whose
      value is an `int` parses, to that value. */
  lemma ParseIntAccepts(s: string)
    requires |s| > 0
    requires var d := if s[0] == '-' || s[0] == '+' then s[1..] else s;
      |d| > 0 && AllDigits(d) && InInt(if s[0] == '-' then -(DigitsValue(d) as int) else DigitsValue(d) as int)
    ensures var d := if s[0] == '-' || s[0] == '+' then s[1..] else s;
      ParseInt(s) == Some(if s[0] == '-' then -(DigitsValue(d) as int) else DigitsValue(d) as int)
  {
  }

  lemma {:induction false} DigitsValueOfNatToString(n: nat)
    ensures DigitsValue(NatToString(n)) == n
  {
    var s := NatToString(n);
    if n >= 10 {
      DigitsValueOfNatToString(n / 10);
      assert s[..|s| - 1] == NatToString(n / 10);
    }
  }

  /** Parsing what `Integer.toString` printed gives back the number. */
  lemma ParseIntOfIntToString(n: int)
    requires InInt(n)
    ensures ParseInt(IntToString(n)) == Some(n)
  {
    DigitsValueOfNatToString(if n < 0 then -n else n);
    if n < 0 {
      assert IntToString(n)[1..] == NatToString(-n);
    }
  }

  /** Two numbers print differently exactly when they differ. */
  lemma IntToStringInjective(m: int, n: int)
    requires InInt(m) && InInt(n)
    ensures IntToString(m) == IntToString(n) <==> m == n
  {
    if IntToString(m) == IntToString(n) {
      ParseIntOfIntToString(m);
      ParseIntOfIntToString(n);
    }
  }
}
