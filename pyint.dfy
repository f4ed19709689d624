/**
 * The subset of Python's `int(text)` the pipeline relies on: an optional
 * sign followed by one or more decimal digits. Anything else is a
 * `ValueError`, modelled as `None`.
 */
module PyInt {
  import opened Wrappers

  predicate IsDigit(c: char) {
    '0' <= c <= '9'
  }

  predicate AllDigits(s: string) {
    forall k :: 0 <= k < |s| ==> IsDigit(s[k])
  }

  function DigitValue(c: char): (d: nat)
    requires IsDigit(c)
    ensures d < 10
  {
    (c as int - '0' as int) as nat
  }

  function DigitChar(d: nat): (c: char)
    requires d < 10
    ensures IsDigit(c) && DigitValue(c) == d
  {
    ('0' as int + d) as char
  }

  /** The value of a string of decimal digits, most significant first. */
  function DigitsValue(s: string): nat
    requires AllDigits(s)
  {
    if |s| == 0 then 0 else 10 * DigitsValue(s[..|s| - 1]) + DigitValue(s[|s| - 1])
  }

  /** All characters are '0'. */
  predicate IsZeros(z: string) {
    forall k :: 0 <= k < |z| ==> z[k] == '0'
  }

  /** `s` without its leading sign character, if it has one. */
  function Unsigned(s: string): (d: string)
    ensures |d| <= |s|
  {
    if |s| > 0 && (s[0] == '+' || s[0] == '-') then s[1..] else s
  }

  /** `int(s)` for an optionally signed run of decimal digits. */
  function ParseInt(s: string): (r: Option<int>)
    ensures r.Some? ==> |s| > 0
    ensures AllDigits(s) && |s| > 0 ==> r == Some(DigitsValue(s) as int)
  {
    if |s| > 0 && (s[0] == '+' || s[0] == '-') then
      var digits := s[1..];
      if |digits| > 0 && AllDigits(digits) then
        Some(if s[0] == '-' then -(DigitsValue(digits) as int) else DigitsValue(digits) as int)
      else None
    else if |s| > 0 && AllDigits(s) then Some(DigitsValue(s) as int)
    else None
  }

  /** Decimal digits of a natural number, without leading zeros. */
  function ShowNat(n: nat): (s: string)
    ensures |s| > 0 && AllDigits(s)
  {
    if n < 10 then [DigitChar(n)] else ShowNat(n / 10) + [DigitChar(n % 10)]
  }

  /** `str(n)` for a Python int. */
  function ShowInt(n: int): string {
    if n < 0 then "-" + ShowNat(-n) else ShowNat(n)
  }

  lemma {:induction false} DigitsValueShowNat(n: nat)
    ensures DigitsValue(ShowNat(n)) == n
  {
    var s := ShowNat(n);
    if n >= 10 {
      DigitsValueShowNat(n / 10);
      assert s[..|s| - 1] == ShowNat(n / 10);
    }
  }

  /** Parsing what `str` prints gives the number back. */
  lemma ParseShowInt(n: int)
    ensures ParseInt(ShowInt(n)) == Some(n)
  {
    if n < 0 {
      DigitsValueShowNat(-n);
      assert ShowInt(n)[1..] == ShowNat(-n);
    } else {
      DigitsValueShowNat(n);
    }
  }

  /** `int(s)` raises `ValueError` exactly when, after an optional sign, no digits or a non-digit follow. */
  lemma ParseIntNoneIff(s: string)
    ensures ParseInt(s).None? <==> |Unsigned(s)| == 0 || !AllDigits(Unsigned(s))
  {
  }

  /**
   * The converse of `ParseShowInt`: a text that parses to n is an optional
   * sign, then zeros, then the digits of |n| that `str` prints; without a
   * '-' sign n is not negative, and with one n is not positive.
   */
  lemma ParseCanonical(s: string)
    ensures ParseInt(s).Some? ==>
      var n := ParseInt(s).value;
      var d, t := Unsigned(s), ShowNat(if n < 0 then -n else n);
      && |t| <= |d|
      && IsZeros(d[..|d| - |t|])
      && d[|d| - |t|..] == t
      && (s[0] != '-' ==> n >= 0)
      && (s[0] == '-' ==> n <= 0)
  {
    if ParseInt(s).Some? {
      DigitsCanonical(Unsigned(s));
    }
  }

  /** A digit string is leading zeros followed by the canonical digits of its value. */
  lemma {:induction false} DigitsCanonical(d: string)
    requires |d| > 0 && AllDigits(d)
    ensures var t := ShowNat(DigitsValue(d));
      |t| <= |d| && IsZeros(d[..|d| - |t|]) && d[|d| - |t|..] == t
  {
    var p, c := d[..|d| - 1], d[|d| - 1];
    var v := DigitsValue(d);
    assert AllDigits(p);
    assert v == 10 * DigitsValue(p) + DigitValue(c);
    assert DigitChar(DigitValue(c)) == c;
    if |p| == 0 {
      assert ShowNat(v) == [c];
    } else {
      DigitsCanonical(p);
      var vp, tp := DigitsValue(p), ShowNat(DigitsValue(p));
      if vp == 0 {
        assert tp == "0";
        assert IsZeros(p);
        assert ShowNat(v) == [c];
        assert d[..|d| - 1] == p;
      } else {
        assert v / 10 == vp && v % 10 == DigitValue(c);
        var t := ShowNat(v);
        assert t == tp + [c];
        var k := |p| - |tp|;
        assert d == p + [c] && |d| - |t| == k;
        assert d[..k] == p[..k];
        assert d[k..] == p[k..] + [c];
      }
    }
  }

  /** A string of zeros has value 0. */
  lemma {:induction false} ZerosValue(z: string)
    requires IsZeros(z)
    ensures AllDigits(z) && DigitsValue(z) == 0
  {
    if |z| > 0 {
      ZerosValue(z[..|z| - 1]);
    }
  }

  /** The texts of the integer 1: an optional '+', any number of '0's, then '1'. */
  predicate SpellsOne(s: string) {
    var d := Unsigned(s);
    && (|s| == 0 || s[0] != '-')
    && |d| > 0 && d[|d| - 1] == '1' && IsZeros(d[..|d| - 1])
  }

  /** `int(s) == 1` holds exactly for the texts `SpellsOne` describes. */
  lemma ParseOneIff(s: string)
    ensures ParseInt(s) == Some(1) <==> SpellsOne(s)
  {
    var d := Unsigned(s);
    if ParseInt(s) == Some(1) {
      ParseCanonical(s);
      assert ShowNat(1) == "1";
    }
    if SpellsOne(s) {
      var z := d[..|d| - 1];
      ZerosValue(z);
      assert d == z + ['1'];
      assert AllDigits(d);
      assert DigitsValue(d) == 10 * DigitsValue(z) + 1;
    }
  }

  /** The texts an answer-key field is written with, and ones it is not. */
  lemma ParseIntExamples()
    ensures ParseInt("1") == Some(1) && ParseInt("0") == Some(0) && ParseInt("2") == Some(2)
    ensures ParseInt("01") == Some(1) && ParseInt("+1") == Some(1) && ParseInt("-1") == Some(-1)
    ensures ParseInt("") == None && ParseInt("-") == None && ParseInt("1.0") == None && ParseInt("x") == None
  {
    assert "01"[..1] == "0";
    assert !IsDigit("1.0"[1]);
    assert !IsDigit("x"[0]);
  }
}
