/** Decimal integers as text: Python's `int(s)` on a string, restricted to ASCII digits,
and the decimal rendering it inverts. */
module Numbers {
  import opened Wrappers
  import Strings

  predicate IsDigit(c: char) { '0' <= c <= '9' }

  predicate AllDigits(s: string) {
    forall k :: 0 <= k < |s| ==> IsDigit(s[k])
  }

  function DigitValue(c: char): (d: nat)
    requires IsDigit(c)
    ensures d < 10
  {
    (c - '0') as nat
  }

  function DigitChar(d: nat): (c: char)
    requires d < 10
    ensures IsDigit(c) && DigitValue(c) == d
  {
    ('0' as int + d) as char
  }

  /** The value of a string of decimal digits, most significant first. */
  function DigitsValue(s: string): nat
    requires AllDigits(s)
  {
    if |s| == 0 then 0 else 10 * DigitsValue(s[..|s| - 1]) + DigitValue(s[|s| - 1])
  }

  /** `str(n)` for a natural number: its decimal digits without leading zeros. */
  function Decimal(n: nat): (r: string)
    ensures |r| > 0 && AllDigits(r)
    ensures |r| > 1 ==> r[0] != '0'
  {
    if n < 10 then [DigitChar(n)]
    else
      var p := Decimal(n / 10);
      p + [DigitChar(n % 10)]
  }

  /** The text after an optional leading sign. */
  function Unsigned(t: string): (r: string)
    ensures |r| <= |t|
  {
    if |t| > 0 && (t[0] == '-' || t[0] == '+') then t[1..] else t
  }

  /** `int(s)`: surrounding whitespace is ignored, then an optional sign and at least one
      digit; anything else raises `ValueError`. */
  function ParseInt(s: string): (r: Result<int>)
    ensures var body := Unsigned(Strings.Strip(s));
            r.Success? <==> |body| > 0 && AllDigits(body)
    ensures r.Failure? ==> r.error.ValueError?
  {
    var t := Strings.Strip(s);
    var body := Unsigned(t);
    if |body| > 0 && AllDigits(body) then
      var v: int := DigitsValue(body);
      Success(if |t| > 0 && t[0] == '-' then -v else v)
    else Failure(ValueError("invalid literal for int() with base 10"))
  }

  /** The digits of `n` are read back as `n`. */
  lemma {:induction false} DecimalValue(n: nat)
    ensures DigitsValue(Decimal(n)) == n
  {
    if n >= 10 {
      DecimalValue(n / 10);
      var r := Decimal(n);
      assert r[..|r| - 1] == Decimal(n / 10);
    }
  }

  /** `str(n)` for any integer. */
  function Show(n: int): (r: string)
    ensures |r| > 0
  {
    if n < 0 then "-" + Decimal(-n) else Decimal(n)
  }

  /** `int(str(n)) == n`. */
  lemma ParseShow(n: int)
    ensures ParseInt(Show(n)) == Success(n)
  {
    if n < 0 {
      var d := Decimal(-n);
      assert Show(n) == "-" + d;
      DecimalValue(-n);
      ParseNegativeDigits(d);
    } else {
      var d := Decimal(n);
      assert Show(n) == d;
      DecimalValue(n);
      ParseDigits(d);
    }
  }

  /** Digits with no whitespace are read as their value. */
  lemma ParseDigits(d: string)
    requires |d| > 0 && AllDigits(d)
    ensures ParseInt(d) == Success(DigitsValue(d))
  {
    DigitsStrip(d);
    assert Unsigned(d) == d;
  }

  /** Digits after a minus are read as the negated value. */
  lemma ParseNegativeDigits(d: string)
    requires |d| > 0 && AllDigits(d)
    ensures ParseInt("-" + d) == Success(-(DigitsValue(d) as int))
  {
    var s := "-" + d;
    SignedStrip(d);
    SignedBody(d);
    assert Unsigned(Strings.Strip(s)) == d;
  }

  lemma SignedBody(d: string)
    ensures Unsigned("-" + d) == d
  {
    assert ("-" + d)[1..] == d;
  }

  /** Stripping leaves digits alone. */
  lemma DigitsStrip(d: string)
    requires AllDigits(d)
    ensures Strings.Strip(d) == d
  {
    assert forall k :: 0 <= k < |d| ==> !Strings.IsSpace(d[k]);
  }

  /** Stripping leaves a minus followed by digits alone. */
  lemma SignedStrip(d: string)
    requires AllDigits(d)
    ensures Strings.Strip("-" + d) == "-" + d
  {
    var s := "-" + d;
    forall k | 0 <= k < |s| ensures !Strings.IsSpace(s[k]) {
      if k > 0 {
        assert s[k] == d[k - 1];
      }
    }
  }
}
