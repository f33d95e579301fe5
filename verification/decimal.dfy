/** Decimal rendering of integers, as JavaScript template literals print
    them (`${index}`, `${remainingSeconds}`), together with the parser that
    reads such a rendering back. */
module Decimal {
  import opened Options

  predicate IsDigit(c: char) {
    '0' <= c <= '9'
  }

  predicate AllDigits(s: string) {
    forall k :: 0 <= k < |s| ==> IsDigit(s[k])
  }

  /** The digits `${n}` prints: at least one, and no leading zero unless
      the number is 0. */
  predicate Canonical(s: string) {
    |s| > 0 && AllDigits(s) && (|s| > 1 ==> s[0] != '0')
  }

  function DigitChar(d: nat): (c: char)
    requires d < 10
    ensures IsDigit(c)
    ensures c as int - '0' as int == d
  {
    ('0' as int + d) as char
  }

  /** The shortest decimal rendering of `n`: digits only, no leading zero. */
  function NatToString(n: nat): (s: string)
    ensures 1 <= |s|
    ensures AllDigits(s)
    ensures |s| > 1 ==> s[0] != '0'
    ensures Canonical(s)
    ensures s[0] == '0' <==> n == 0
    ensures n < 10 <==> |s| == 1
  {
    if n < 10 then [DigitChar(n)] else NatToString(n / 10) + [DigitChar(n % 10)]
  }

  /** Reads a string of decimal digits as a number. */
  function ParseNat(s: string): (n: nat)
    requires AllDigits(s)
  {
    if |s| == 0 then 0
    else ParseNat(s[..|s| - 1]) * 10 + (s[|s| - 1] as int - '0' as int)
  }

  /** Rendering a number and reading it back gives the number. */
  lemma {:induction false} ParseNatToString(n: nat)
    ensures ParseNat(NatToString(n)) == n
  {
    var s := NatToString(n);
    if n >= 10 {
      ParseNatToString(n / 10);
      assert s[..|s| - 1] == NatToString(n / 10);
    }
  }

  /** Numbers render differently, so the rendering identifies the number. */
  lemma NatToStringInjective(m: nat, n: nat)
    requires NatToString(m) == NatToString(n)
    ensures m == n
  {
    ParseNatToString(m);
    ParseNatToString(n);
  }

  /** Canonical digits are the rendering of the number they read as. */
  lemma {:induction false} NatToStringOfParse(s: string)
    requires Canonical(s)
    ensures NatToString(ParseNat(s)) == s
    decreases |s|
  {
    if |s| > 1 {
      var t := s[..|s| - 1];
      assert t[0] == s[0];
      NatToStringOfParse(t);
      var m := ParseNat(t);
      assert m != 0;
      var d := s[|s| - 1] as int - '0' as int;
      var n := ParseNat(s);
      assert n == m * 10 + d && 0 <= d < 10;
      assert n / 10 == m && n % 10 == d;
      assert DigitChar(d) == s[|s| - 1];
      assert s == t + [s[|s| - 1]];
    } else {
      assert ParseNat(s) == ParseNat(s[..0]) * 10 + (s[0] as int - '0' as int);
      assert [DigitChar(ParseNat(s))] == s;
    }
  }

  /** A signed rendering: a minus sign, then the digits of the magnitude,
      without leading zeros and never "-0". */
  function IntToString(i: int): (s: string)
    ensures 1 <= |s|
    ensures s[0] == '-' <==> i < 0
    ensures i >= 0 ==> Canonical(s)
    ensures i < 0 ==> Canonical(s[1..]) && s[1] != '0'
    ensures i < 0 ==> AllDigits(s[1..]) && ParseNat(s[1..]) == -i
    ensures i >= 0 ==> AllDigits(s) && ParseNat(s) == i
  {
    if i < 0 then
      ParseNatToString(-i);
      assert ("-" + NatToString(-i))[1..] == NatToString(-i);
      "-" + NatToString(-i)
    else
      ParseNatToString(i);
      NatToString(i)
  }

  /** Reads an optionally signed decimal integer as `${i}` prints it: an
      optional '-' and canonical digits, and no "-0". Any accepted text is
      the rendering of the integer it reads as. */
  function ParseInt(s: string): (r: Option<int>)
    ensures r.Some? ==> IntToString(r.value) == s
  {
    if |s| > 0 && s[0] == '-' then
      if Canonical(s[1..]) && s[1] != '0' then
        NatToStringOfParse(s[1..]);
        var magnitude: int := ParseNat(s[1..]);
        assert magnitude != 0;
        assert s == "-" + s[1..];
        Some(-magnitude)
      else None
    else if Canonical(s) then
      NatToStringOfParse(s);
      Some(ParseNat(s) as int)
    else None
  }

  /** The signed rendering reads back as the integer. */
  lemma ParseIntToString(i: int)
    ensures ParseInt(IntToString(i)) == Some(i)
  {
    var s := IntToString(i);
    if i < 0 {
      assert |s| > 1;
    }
  }
}
