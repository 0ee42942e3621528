/**
 * Decimal text of integers: String.format("%03d", n) on one side,
 * Integer.parseInt and Integer.decode on the other, over ASCII digits.
 */
module Decimal {
  import opened Wrappers
  import opened Text

  const INT_MIN: int := -0x8000_0000
  const INT_MAX: int := 0x7fff_ffff

  predicate IsInt32(n: int) {
    INT_MIN <= n <= INT_MAX
  }

  predicate IsDigit(c: char) {
    '0' <= c <= '9'
  }

  predicate AllDigits(s: String) {
    forall i :: 0 <= i < |s| ==> IsDigit(s[i])
  }

  function DigitChar(d: int): (c: char)
    requires 0 <= d < 10
    ensures IsDigit(c)
  {
    ('0' as int + d) as char
  }

  function DigitValue(c: char): (d: nat)
    requires IsDigit(c)
    ensures d < 10 && DigitChar(d) == c
  {
    c as int - '0' as int
  }

  /** The shortest decimal text of `n`, most significant digit first. */
  function Digits(n: nat): (s: String)
    ensures |s| >= 1 && AllDigits(s)
    ensures n < 10 <==> |s| == 1
  {
    if n < 10 then [DigitChar(n)] else Digits(n / 10) + [DigitChar(n % 10)]
  }

  /** The value of a run of decimal digits; the empty run is 0. */
  function DigitsValue(s: String): nat
    requires AllDigits(s)
  {
    if s == [] then 0 else DigitsValue(s[..|s| - 1]) * 10 + DigitValue(s[|s| - 1])
  }

  function Zeros(k: nat): (s: String)
    ensures |s| == k && AllDigits(s)
  {
    if k == 0 then [] else ['0'] + Zeros(k - 1)
  }

  /** Left-pads with '0' up to `width`; a longer text is kept whole. */
  function ZeroPad(s: String, width: nat): (t: String)
    ensures |t| == if |s| >= width then |s| else width
    ensures t == Zeros(|t| - |s|) + s
  {
    if |s| >= width then s else Zeros(width - |s|) + s
  }

  /**
   * String.format("%03d", n): the digits of |n|, zero-padded so that sign and
   * digits together take at least three characters.
   */
  function Format03(n: int): (s: String)
    ensures n >= 0 ==> s == ZeroPad(Digits(n), 3)
    ensures n < 0 ==> s == "-" + ZeroPad(Digits(-n), 2)
  {
    if n >= 0 then ZeroPad(Digits(n), 3) else "-" + ZeroPad(Digits(-n), 2)
  }

  /** Integer.toString, as string concatenation prints an int: a minus sign for a negative value, then the shortest digits. */
  function IntText(n: int): (s: String)
    ensures 0 < |s|
    ensures s[0] == '-' <==> n < 0
  {
    if n >= 0 then Digits(n) else "-" + Digits(-n)
  }

  /** Integer.parseInt: an optional sign, then one or more digits, within the int range. */
  function ParseInt(s: String): (r: Option<int>)
    ensures r.Some? ==> IsInt32(r.value)
  {
    if s == [] then None
    else if s[0] == '-' || s[0] == '+' then
      if |s| == 1 || !AllDigits(s[1..]) then None
      else
        var v: int := if s[0] == '-' then -(DigitsValue(s[1..]) as int) else DigitsValue(s[1..]);
        if IsInt32(v) then Some(v) else None
    else if AllDigits(s) && IsInt32(DigitsValue(s)) then Some(DigitsValue(s))
    else None
  }

  /** Integer.decode of a one-character string: a digit decodes to its value, anything else fails. */
  function DecodeChar(c: char): (r: Option<nat>)
    ensures r.Some? <==> IsDigit(c)
    ensures r.Some? ==> r.value < 10 && DigitChar(r.value) == c
  {
    if IsDigit(c) then Some(DigitValue(c)) else None
  }

  lemma {:induction false} DigitsValueOfDigits(n: nat)
    ensures DigitsValue(Digits(n)) == n
  {
    if n >= 10 {
      var s := Digits(n);
      assert s[..|s| - 1] == Digits(n / 10);
      DigitsValueOfDigits(n / 10);
    }
  }

  lemma {:induction false} DigitsValueOfZeros(k: nat)
    ensures DigitsValue(Zeros(k)) == 0
  {
    if k > 0 {
      var z := Zeros(k);
      assert z[..k - 1] == Zeros(k - 1) by {
        if k > 1 { assert z[1..] == Zeros(k - 1); DigitsLastZero(k - 1); }
      }
      DigitsValueOfZeros(k - 1);
    }
  }

  lemma {:induction false} DigitsLastZero(k: nat)
    requires k > 0
    ensures Zeros(k)[..k - 1] == Zeros(k - 1) && Zeros(k)[k - 1] == '0'
  {
    if k > 1 {
      DigitsLastZero(k - 1);
      assert Zeros(k) == ['0'] + Zeros(k - 1);
    }
  }

  /** Leading zeros do not change the value of a digit run. */
  lemma {:induction false} LeadingZerosIgnored(k: nat, s: String)
    requires AllDigits(s)
    ensures AllDigits(Zeros(k) + s) && DigitsValue(Zeros(k) + s) == DigitsValue(s)
  {
    var t := Zeros(k) + s;
    assert AllDigits(t) by {
      forall i | 0 <= i < |t| ensures IsDigit(t[i]) {
        if i < k { assert t[i] == Zeros(k)[i]; } else { assert t[i] == s[i - k]; }
      }
    }
    if s == [] {
      assert t == Zeros(k);
      DigitsValueOfZeros(k);
    } else {
      assert t[..|t| - 1] == Zeros(k) + s[..|s| - 1];
      LeadingZerosIgnored(k, s[..|s| - 1]);
    }
  }

  lemma PaddedValue(m: nat, width: nat)
    ensures AllDigits(ZeroPad(Digits(m), width)) && DigitsValue(ZeroPad(Digits(m), width)) == m
  {
    var d := Digits(m);
    DigitsValueOfDigits(m);
    LeadingZerosIgnored(|ZeroPad(d, width)| - |d|, d);
  }

  lemma ParseDigitRun(s: String)
    requires s != [] && AllDigits(s) && DigitsValue(s) <= INT_MAX
    ensures ParseInt(s) == Some(DigitsValue(s))
  {
    assert IsDigit(s[0]);
  }

  lemma ParseNegativeRun(s: String)
    requires s != [] && AllDigits(s) && DigitsValue(s) <= -INT_MIN
    ensures ParseInt("-" + s) == Some(-(DigitsValue(s) as int))
  {
    var t := "-" + s;
    assert t[0] == '-' && t[1..] == s;
  }

  /** The page number in an export file name parses back to the page number (width never truncates). */
  lemma {:induction false} Format03RoundTrip(n: int)
    requires IsInt32(n)
    ensures ParseInt(Format03(n)) == Some(n)
  {
    if n < 0 {
      var m: nat := -n;
      var p := ZeroPad(Digits(m), 2);
      PaddedValue(m, 2);
      assert Format03(n) == "-" + p;
      ParseNegativeRun(p);
    } else {
      var p := ZeroPad(Digits(n), 3);
      PaddedValue(n, 3);
      ParseDigitRun(p);
      assert Format03(n) == p;
    }
  }

  /** A non-negative page number keeps all its digits and is padded to at least three characters. */
  lemma {:induction false} Format03Shape(n: nat)
    ensures |Format03(n)| == if n < 100 then 3 else |Digits(n)|
    ensures EndsWith(Format03(n), Digits(n))
  {
    if n < 100 {
      assert |Digits(n)| <= 2 by {
        if n >= 10 { assert Digits(n) == Digits(n / 10) + [DigitChar(n % 10)]; }
      }
    } else {
      assert |Digits(n)| >= 3 by {
        assert Digits(n) == Digits(n / 10) + [DigitChar(n % 10)];
        assert n / 10 >= 10;
        assert Digits(n / 10) == Digits(n / 100) + [DigitChar((n / 10) % 10)];
      }
    }
    var s := Format03(n);
    assert s[|s| - |Digits(n)|..] == Digits(n);
  }

  /** Integer.toString and Integer.parseInt are inverse on the int range. */
  lemma IntTextRoundTrip(n: int)
    requires IsInt32(n)
    ensures ParseInt(IntText(n)) == Some(n)
  {
    if n >= 0 {
      DigitsValueOfDigits(n);
      ParseDigitRun(Digits(n));
    } else {
      DigitsValueOfDigits(-n);
      ParseNegativeRun(Digits(-n));
    }
  }
}
