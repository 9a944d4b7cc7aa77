/** Decimal numerals: reading the numeric text a cleaned cell is left with, as an exact number, and
    writing a natural number back out as digits. */
module Numbers {
  import opened Wrappers

  predicate IsDigit(c: char) {
    '0' <= c <= '9'
  }

  predicate AllDigits(s: string) {
    forall i :: 0 <= i < |s| ==> IsDigit(s[i])
  }

  function DigitValue(c: char): nat
    requires IsDigit(c)
  {
    c as int - '0' as int
  }

  /** The value of a run of decimal digits, most significant first; the empty run is 0. */
  function DigitsValue(s: string): nat
    requires AllDigits(s)
  {
    if s == [] then 0 else DigitsValue(s[..|s| - 1]) * 10 + DigitValue(s[|s| - 1])
  }

  function Pow10(n: nat): (r: nat)
    ensures r >= 1
  {
    if n == 0 then 1 else 10 * Pow10(n - 1)
  }

  /** The shortest decimal spelling of `n`. */
  function Digits(n: nat): (s: string)
    ensures |s| > 0 && AllDigits(s)
    ensures DigitsValue(s) == n
  {
    var last := ['0' + (n % 10) as char];
    var s := if n < 10 then last else Digits(n / 10) + last;
    assert s[..|s| - 1] == if n < 10 then [] else Digits(n / 10);
    s
  }

  /** Index of the first `.` in `s`, or `|s|` when there is none. */
  function DotIndex(s: string): (k: nat)
    ensures k <= |s|
    ensures forall i :: 0 <= i < k ==> s[i] != '.'
    ensures k < |s| ==> s[k] == '.'
  {
    if s == [] then 0 else if s[0] == '.' then 0 else 1 + DotIndex(s[1..])
  }

  /** The value of whole digits `w` followed by fraction digits `f`: `w` plus `f` scaled down by
      ten to the power of its length. */
  function DecimalValue(w: string, f: string): (v: real)
    requires AllDigits(w) && AllDigits(f)
    ensures v >= DigitsValue(w) as real
  {
    DigitsValue(w) as real + DigitsValue(f) as real / Pow10(|f|) as real
  }

  /** An unsigned numeral, described by its shape alone: a non-empty run of digits, or digits, a
      point and digits with at least one digit in all. */
  ghost predicate IsUnsignedNumeral(s: string) {
    (|s| > 0 && AllDigits(s))
    || exists w, f :: AllDigits(w) && AllDigits(f) && |w| + |f| > 0 && s == w + "." + f
  }

  /** A numeral with an optional leading `+` or `-`. */
  ghost predicate IsNumeral(s: string) {
    IsUnsignedNumeral(s) || (|s| > 0 && (s[0] == '+' || s[0] == '-') && IsUnsignedNumeral(s[1..]))
  }

  /** An unsigned decimal numeral: digits, optionally a point and more digits, at least one digit
      in all (`"12"`, `"12."`, `".5"`, `"12.50"`). */
  function ParseUnsigned(s: string): (r: Option<real>)
    ensures r.Some? ==> |s| > 0 && forall i :: 0 <= i < |s| ==> IsDigit(s[i]) || s[i] == '.'
    ensures r.Some? ==> r.value >= 0.0
    ensures r.Some? ==> IsUnsignedNumeral(s)
  {
    var k := DotIndex(s);
    var whole := s[..k];
    var fraction := if k < |s| then s[k + 1..] else [];
    if AllDigits(whole) && AllDigits(fraction) && |whole| + |fraction| > 0 then
      assert forall i :: k < i < |s| ==> s[i] == fraction[i - k - 1];
      assert k < |s| ==> s == whole + "." + fraction;
      assert k == |s| ==> s == whole;
      Some(DecimalValue(whole, fraction))
    else
      None
  }

  /** A numeral with an optional sign, read as an exact number; anything else is `None`. This is the
      decimal part of what a numeric conversion accepts. */
  function ParseDecimal(s: string): (r: Option<real>)
    ensures r.Some? ==> |s| > 0 && forall i :: 0 <= i < |s| ==> IsDigit(s[i]) || s[i] in ".+-"
    ensures |s| > 0 && AllDigits(s) ==> r == Some(DigitsValue(s) as real)
    ensures r.Some? ==> IsNumeral(s)
  {
    if |s| > 0 && (s[0] == '-' || s[0] == '+') then
      match ParseUnsigned(s[1..])
      case Some(v) => Some(if s[0] == '-' then -v else v)
      case None => None
    else
      var r := ParseUnsigned(s);
      assert AllDigits(s) ==> DotIndex(s) == |s| && s[..|s|] == s;
      r
  }

  /** Writing a natural number out and reading it back gives the number. */
  lemma DigitsRoundTrip(n: nat)
    ensures ParseDecimal(Digits(n)) == Some(n as real)
  {
  }

  /** A minus sign in front of the digits negates the value. */
  lemma NegativeRoundTrip(n: nat)
    ensures ParseDecimal("-" + Digits(n)) == Some(-(n as real))
  {
    var s := "-" + Digits(n);
    assert s[1..] == Digits(n);
    DigitsRoundTrip(n);
  }

  /** The first point after a run of digits is the one that ends the run. */
  lemma {:induction false} DotAfterDigits(w: string, rest: string)
    requires AllDigits(w) && |rest| > 0 && rest[0] == '.'
    ensures DotIndex(w + rest) == |w|
  {
    if w != [] {
      assert (w + rest)[1..] == w[1..] + rest;
      DotAfterDigits(w[1..], rest);
    }
  }

  /** An unsigned numeral with a point reads as its whole part plus its fraction digits scaled
      down by their count. */
  lemma UnsignedReading(w: string, f: string)
    requires AllDigits(w) && AllDigits(f) && |w| + |f| > 0
    ensures ParseUnsigned(w + "." + f) == Some(DecimalValue(w, f))
  {
    var s := w + "." + f;
    DotAfterDigits(w, "." + f);
    assert s == w + ("." + f);
    var k := DotIndex(s);
    assert k == |w| && k < |s|;
    assert s[..k] == w;
    assert s[k + 1..] == f;
  }

  /** With no sign in front, the same holds of the full reading: `"12.5"` is 12 + 5/10,
      `"0.25"` is 0 + 25/100, and `".5"` and `"3."` read too. */
  lemma DecimalReading(w: string, f: string)
    requires AllDigits(w) && AllDigits(f) && |w| + |f| > 0
    ensures ParseDecimal(w + "." + f) == Some(DecimalValue(w, f))
  {
    var s := w + "." + f;
    assert s[0] != '-' && s[0] != '+' by {
      if w == [] { assert s[0] == '.'; } else { assert s[0] == w[0] && IsDigit(w[0]); }
    }
    UnsignedReading(w, f);
  }

  /** A sign in front of an unsigned numeral keeps its value (`+`) or negates it (`-`). */
  lemma SignReading(sign: char, u: string)
    requires sign == '-' || sign == '+'
    requires ParseUnsigned(u).Some?
    ensures var v := ParseUnsigned(u).value;
      ParseDecimal([sign] + u) == Some(if sign == '-' then -v else v)
  {
    assert ([sign] + u)[1..] == u;
  }

  /** So a signed numeral with a point reads as the signed value of its digits. */
  lemma SignedDecimalReading(sign: char, w: string, f: string)
    requires sign == '-' || sign == '+'
    requires AllDigits(w) && AllDigits(f) && |w| + |f| > 0
    ensures var v := DecimalValue(w, f);
      ParseDecimal([sign] + (w + "." + f)) == Some(if sign == '-' then -v else v)
  {
    UnsignedReading(w, f);
    SignReading(sign, w + "." + f);
  }

  /** Every unsigned numeral is read. */
  lemma UnsignedNumeralRead(s: string)
    requires IsUnsignedNumeral(s)
    ensures ParseUnsigned(s).Some?
  {
    if |s| > 0 && AllDigits(s) {
      assert DotIndex(s) == |s| && s[..|s|] == s;
    } else {
      var w, f :| AllDigits(w) && AllDigits(f) && |w| + |f| > 0 && s == w + "." + f;
      UnsignedReading(w, f);
    }
  }

  /** A text that starts with a sign is not an unsigned numeral. */
  lemma SignedIsNotUnsigned(s: string)
    requires |s| > 0 && (s[0] == '+' || s[0] == '-')
    ensures !IsUnsignedNumeral(s)
  {
    assert !AllDigits(s) by { assert !IsDigit(s[0]); }
    forall w, f | AllDigits(w) && AllDigits(f) && |w| + |f| > 0
      ensures s != w + "." + f
    {
      assert (w + "." + f)[0] == if w == [] then '.' else w[0];
    }
  }

  /** The reader accepts exactly the numerals: a sign alone, a point alone, two points or a sign
      after the first character all read as missing. */
  lemma ReadsExactlyNumerals(s: string)
    ensures ParseDecimal(s).Some? <==> IsNumeral(s)
  {
    if IsNumeral(s) {
      if |s| > 0 && (s[0] == '+' || s[0] == '-') {
        SignedIsNotUnsigned(s);
        UnsignedNumeralRead(s[1..]);
      } else {
        UnsignedNumeralRead(s);
      }
    }
  }
}
