/**
 Decimal rendering of integers, as Rust's `{}` formatting writes an `i32`:
 an optional '-' followed by the digits of the magnitude without leading
 zeros. A parser is given alongside so that rendering can be shown to lose
 nothing.
 */
module Decimal {
  import opened Wrappers

  predicate IsDigit(c: char) {
    '0' <= c <= '9'
  }

  predicate AllDigits(s: string) {
    forall i :: 0 <= i < |s| ==> IsDigit(s[i])
  }

  /** A canonical decimal numeral: at least one digit and no leading zero. */
  predicate Canonical(s: string) {
    && |s| >= 1
    && AllDigits(s)
    && (|s| > 1 ==> s[0] != '0')
  }

  function DigitChar(d: nat): (c: char)
    requires d < 10
    ensures IsDigit(c)
    ensures c as int - '0' as int == d
  {
    ('0' as int + d) as char
  }

  function DigitValue(c: char): (d: nat)
    requires IsDigit(c)
    ensures d < 10
    ensures DigitChar(d) == c
  {
    c as int - '0' as int
  }

  /** The decimal numeral of a natural number. */
  function ShowNat(n: nat): (s: string)
    ensures Canonical(s)
    ensures n < 10 <==> |s| == 1
  {
    if n < 10 then [DigitChar(n)] else ShowNat(n / 10) + [DigitChar(n % 10)]
  }

  /** The value of a string of digits, most significant first. */
  function ValueOf(s: string): nat
    requires AllDigits(s)
  {
    if |s| == 0 then 0 else ValueOf(s[..|s| - 1]) * 10 + DigitValue(s[|s| - 1])
  }

  function ParseNat(s: string): (r: Option<nat>)
    ensures r.Some? <==> |s| >= 1 && AllDigits(s)
  {
    if |s| >= 1 && AllDigits(s) then Some(ValueOf(s)) else None
  }

  /** Rust's `{}` on a signed integer: a minus sign before the magnitude when negative. */
  function ShowInt(n: int): (s: string)
    ensures |s| >= 1
    ensures s[0] == '-' <==> n < 0
    ensures n >= 0 ==> Canonical(s)
    ensures n < 0 ==> Canonical(s[1..])
  {
    if n < 0 then "-" + ShowNat(-n) else ShowNat(n)
  }

  function ParseInt(s: string): (r: Option<int>)
  {
    if |s| >= 1 && s[0] == '-' then
      match ParseNat(s[1..])
      case Some(m) => Some(-(m as int))
      case None => None
    else
      match ParseNat(s)
      case Some(m) => Some(m as int)
      case None => None
  }

  lemma {:induction false} ValueOfShowNat(n: nat)
    ensures ValueOf(ShowNat(n)) == n
    decreases n
  {
    if n >= 10 {
      var p := ShowNat(n / 10);
      var s := ShowNat(n);
      assert s[..|s| - 1] == p;
      ValueOfShowNat(n / 10);
    }
  }

  /** Parsing a rendered natural number gives it back. */
  lemma ParseShowNat(n: nat)
    ensures ParseNat(ShowNat(n)) == Some(n)
  {
    ValueOfShowNat(n);
  }

  /** Parsing a rendered integer gives it back, sign included. */
  lemma ParseShowInt(n: int)
    ensures ParseInt(ShowInt(n)) == Some(n)
  {
    var s := ShowInt(n);
    if n < 0 {
      assert s[1..] == ShowNat(-n);
      ParseShowNat(-n);
    } else {
      ParseShowNat(n);
      assert s[0] != '-';
    }
  }

  lemma {:induction false} LeadingDigitPositive(s: string)
    requires |s| >= 1 && AllDigits(s) && s[0] != '0'
    ensures ValueOf(s) >= 1
    decreases |s|
  {
    if |s| > 1 {
      LeadingDigitPositive(s[..|s| - 1]);
    }
  }

  /** Every canonical numeral is the rendering of its own value. */
  lemma {:induction false} ShowNatValueOf(s: string)
    requires Canonical(s)
    ensures ShowNat(ValueOf(s)) == s
    decreases |s|
  {
    if |s| > 1 {
      var p := s[..|s| - 1];
      assert Canonical(p);
      LeadingDigitPositive(p);
      ShowNatValueOf(p);
      var v := ValueOf(s);
      assert v / 10 == ValueOf(p) && v % 10 == DigitValue(s[|s| - 1]);
      assert s == p + [s[|s| - 1]];
    }
  }

  /** Two numbers render alike exactly when they are equal. */
  lemma ShowIntInjective(a: int, b: int)
    ensures ShowInt(a) == ShowInt(b) <==> a == b
  {
    if ShowInt(a) == ShowInt(b) {
      ParseShowInt(a);
      ParseShowInt(b);
    }
  }

  /** A four-digit year renders as four characters. */
  lemma ShowNatFourDigits(n: nat)
    requires 1000 <= n <= 9999
    ensures |ShowNat(n)| == 4
  {
    var a, b, c := n / 10, n / 10 / 10, n / 10 / 10 / 10;
    assert 1 <= c <= 9 && |ShowNat(c)| == 1;
    assert |ShowNat(b)| == |ShowNat(c)| + 1;
    assert |ShowNat(a)| == |ShowNat(b)| + 1;
    assert |ShowNat(n)| == |ShowNat(a)| + 1;
  }
}
