/**
  The text `big.Float.Text('f', -1)` gives a whole number: an optional minus
  sign and the decimal digits, with no leading zeros, no point and no
  exponent. `ReadInteger` is how Bash reads such a number back.
 */
module Decimal {
  import opened Wrappers

  predicate IsDigit(c: char)
  {
    '0' <= c <= '9'
  }

  function DigitChar(d: nat): (c: char)
    requires d < 10
    ensures IsDigit(c)
  {
    ('0' as int + d) as char
  }

  function DigitValue(c: char): nat
    requires IsDigit(c)
  {
    (c as int - '0' as int) as nat
  }

  /** The digits of `n`, most significant first. */
  function NatText(n: nat): (r: string)
    ensures |r| > 0 && IsDigit(r[0])
    decreases n
  {
    if n < 10 then [DigitChar(n)] else NatText(n / 10) + [DigitChar(n % 10)]
  }

  /** `Text('f', -1)` of a whole number: a minus sign exactly for negatives, then digits. */
  function IntegerText(n: int): (r: string)
    ensures |r| > 0 && (r[0] == '-' <==> n < 0)
  {
    if n < 0 then "-" + NatText(-n) else NatText(n)
  }

  predicate AllDigits(s: string)
  {
    forall i :: 0 <= i < |s| ==> IsDigit(s[i])
  }

  /** The canonical form: digits only, and a leading zero only in "0" itself. */
  predicate CanonicalDigits(s: string)
  {
    |s| > 0 && AllDigits(s) && (s[0] == '0' ==> s == "0")
  }

  lemma {:induction false} NatTextCanonical(n: nat)
    ensures CanonicalDigits(NatText(n))
    ensures n > 0 ==> NatText(n)[0] != '0'
    decreases n
  {
    if n >= 10 {
      NatTextCanonical(n / 10);
    }
  }

  /** Value of a digit string, read from the left as Bash does. */
  function DigitsValue(s: string): nat
    requires AllDigits(s)
    decreases |s|
  {
    if s == [] then 0 else DigitsValue(s[..|s| - 1]) * 10 + DigitValue(s[|s| - 1])
  }

  lemma {:induction false} NatTextValue(n: nat)
    ensures AllDigits(NatText(n)) && DigitsValue(NatText(n)) == n
    decreases n
  {
    NatTextCanonical(n);
    if n >= 10 {
      var t := NatText(n);
      assert t[..|t| - 1] == NatText(n / 10);
      NatTextValue(n / 10);
    } else {
      assert NatText(n)[..0] == [];
    }
  }

  /** The text of a whole number is canonical and, read back, is that number. */
  lemma IntegerTextCanonical(n: int)
    ensures var t := IntegerText(n);
      if n < 0 then t[0] == '-' && CanonicalDigits(t[1..]) && t[1..] != "0" && DigitsValue(t[1..]) == -n
      else CanonicalDigits(t) && DigitsValue(t) == n
  {
    if n < 0 {
      NatTextCanonical(-n);
      NatTextValue(-n);
      NegativeText(n);
    } else {
      NatTextCanonical(n);
      NatTextValue(n);
    }
  }

  lemma NegativeText(n: int)
    requires n < 0
    ensures IntegerText(n)[0] == '-' && IntegerText(n)[1..] == NatText(-n)
  {
    var d := NatText(-n);
    assert ("-" + d)[1..] == d;
  }

  /** The longest run of digits at the front of `t`, and what follows it. */
  function SplitDigits(t: string): (r: (string, string))
    ensures r.0 + r.1 == t && AllDigits(r.0)
    ensures r.1 == [] || !IsDigit(r.1[0])
    decreases |t|
  {
    if t != [] && IsDigit(t[0]) then
      var (ds, rest) := SplitDigits(t[1..]);
      assert [t[0]] + ds + rest == t;
      ([t[0]] + ds, rest)
    else ("", t)
  }

  lemma {:induction false} SplitDigitsOf(ds: string, rest: string)
    requires AllDigits(ds)
    requires rest == [] || !IsDigit(rest[0])
    ensures SplitDigits(ds + rest) == (ds, rest)
    decreases |ds|
  {
    if ds == [] {
      assert ds + rest == rest;
    } else {
      assert (ds + rest)[0] == ds[0];
      assert (ds + rest)[1..] == ds[1..] + rest;
      SplitDigitsOf(ds[1..], rest);
      assert ds == [ds[0]] + ds[1..];
    }
  }

  /** Reads an integer (an optional `-` and at least one digit) from the front of `t`. */
  function ReadInteger(t: string): (r: Option<(int, string)>)
    ensures r.Some? ==> |r.value.1| < |t|
  {
    if t != [] && t[0] == '-' then
      var (ds, rest) := SplitDigits(t[1..]);
      if ds == [] then None else Some((-(DigitsValue(ds) as int), rest))
    else
      var (ds, rest) := SplitDigits(t);
      if ds == [] then None else Some((DigitsValue(ds) as int, rest))
  }

  lemma ReadIntegerText(n: int, rest: string)
    requires rest == [] || !IsDigit(rest[0])
    ensures ReadInteger(IntegerText(n) + rest) == Some((n, rest))
  {
    IntegerTextCanonical(n);
    if n < 0 {
      var t := IntegerText(n) + rest;
      assert t[1..] == NatText(-n) + rest;
      SplitDigitsOf(NatText(-n), rest);
    } else {
      SplitDigitsOf(NatText(n), rest);
    }
  }

}
