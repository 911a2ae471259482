/** The string handling behind year discovery and column naming: splitting a
    header at its first '_', reading a decimal year, and writing a year back
    the way a Python f-string does. */
module Text {
  import opened Results

  predicate IsDigit(c: char) {
    '0' <= c <= '9'
  }

  predicate AllDigits(s: string) {
    forall i :: 0 <= i < |s| ==> IsDigit(s[i])
  }

  /** A decimal numeral as Python's `str(n)` writes it: no sign, no leading zero. */
  predicate Canonical(s: string) {
    |s| > 0 && AllDigits(s) && (|s| > 1 ==> s[0] != '0')
  }

  function DigitValue(c: char): (d: nat)
    requires IsDigit(c)
    ensures d < 10
  {
    c as int - '0' as int
  }

  function DigitChar(d: nat): (c: char)
    requires d < 10
    ensures IsDigit(c) && DigitValue(c) == d
  {
    ('0' as int + d) as char
  }

  /** Element 0 of `s.split('_')`: the text before the first '_', or all of `s`
      when it has none. The three clauses pin the result down uniquely. */
  function Prefix(s: string): (r: string)
    ensures r <= s
    ensures '_' !in r
    ensures |r| < |s| ==> s[|r|] == '_'
  {
    if |s| == 0 || s[0] == '_' then "" else [s[0]] + Prefix(s[1..])
  }

  /** The prefix of a header written as `<p>_<tag>` is `p`, whenever `p` has no '_'. */
  lemma PrefixOfTagged(p: string, tag: string)
    requires '_' !in p
    ensures Prefix(p + "_" + tag) == p
  {
    var s := p + "_" + tag;
    var r := Prefix(s);
    assert forall k :: 0 <= k < |p| ==> s[k] == p[k] && p[k] != '_';
    assert s[|p|] == '_';
    assert r == s[..|r|] == s[..|p|] == p;
  }

  /** Value of a digit string, most significant digit first. */
  function DigitsValue(s: string): nat
    requires AllDigits(s)
  {
    if |s| == 0 then 0 else 10 * DigitsValue(s[..|s| - 1]) + DigitValue(s[|s| - 1])
  }

  /** Appending a digit shifts the value one decimal place. */
  lemma DigitsAppend(s: string, c: char)
    requires AllDigits(s) && IsDigit(c)
    ensures AllDigits(s + [c])
    ensures DigitsValue(s + [c]) == 10 * DigitsValue(s) + DigitValue(c)
  {
    assert (s + [c])[..|s|] == s;
  }

  /** The value of a four-digit numeral, digit by digit. */
  lemma FourDigits(s: string)
    requires |s| == 4 && AllDigits(s)
    ensures DigitsValue(s) == 1000 * DigitValue(s[0]) + 100 * DigitValue(s[1]) + 10 * DigitValue(s[2]) + DigitValue(s[3])
  {
    var s1, s2, s3 := s[..1], s[..2], s[..3];
    assert s1[..0] == [] && s2[..1] == s1 && s3[..2] == s2 && s[..3] == s3;
    assert DigitsValue(s1) == DigitValue(s[0]);
    assert DigitsValue(s2) == 10 * DigitsValue(s1) + DigitValue(s[1]);
    assert DigitsValue(s3) == 10 * DigitsValue(s2) + DigitValue(s[2]);
  }

  /** Conversion of a year prefix to an integer. Only plain decimal digit
      strings are accepted; the empty string and anything with another
      character fail. */
  function ParseDecimal(s: string): (r: Option<int>)
    ensures r.Some? <==> |s| > 0 && AllDigits(s)
    ensures r.Some? ==> r.value >= 0
  {
    if |s| > 0 && AllDigits(s) then Some(DigitsValue(s)) else None
  }

  /** A leading '0' does not change a digit string's value. */
  lemma {:induction false} LeadingZeroValue(s: string)
    requires AllDigits(s)
    ensures AllDigits("0" + s) && DigitsValue("0" + s) == DigitsValue(s)
    decreases |s|
  {
    var z := "0" + s;
    if |s| > 0 {
      var p := s[..|s| - 1];
      LeadingZeroValue(p);
      assert z[..|z| - 1] == "0" + p;
    }
  }

  /** A zero-padded numeral converts to the same year as the unpadded one,
      as Python's `int("02000") == 2000`. */
  lemma LeadingZero(s: string)
    requires |s| > 0 && AllDigits(s)
    ensures ParseDecimal("0" + s) == ParseDecimal(s)
  {
    LeadingZeroValue(s);
  }

  /** `str(n)` for a non-negative integer. */
  function ShowNat(n: nat): (r: string)
    ensures Canonical(r)
    decreases n
  {
    if n < 10 then [DigitChar(n)] else ShowNat(n / 10) + [DigitChar(n % 10)]
  }

  /** `str(i)` for any integer: a leading '-' for negative values. */
  function ShowInt(i: int): (r: string)
    ensures '_' !in r
    ensures i >= 0 <==> Canonical(r)
  {
    if i < 0 then "-" + ShowNat(-i) else ShowNat(i)
  }

  /** Reading back what `ShowNat` wrote gives the number again. */
  lemma {:induction false} ParseShowNat(n: nat)
    ensures ParseDecimal(ShowNat(n)) == Some(n)
    decreases n
  {
    if n >= 10 {
      ParseShowNat(n / 10);
      var s := ShowNat(n);
      assert s[..|s| - 1] == ShowNat(n / 10);
      assert DigitsValue(s) == 10 * (n / 10) + n % 10;
    }
  }

  /** A numeral whose first digit is not '0' has a positive value. */
  lemma {:induction false} LeadingDigitPositive(s: string)
    requires |s| > 0 && AllDigits(s) && s[0] != '0'
    ensures DigitsValue(s) > 0
    decreases |s|
  {
    if |s| > 1 {
      LeadingDigitPositive(s[..|s| - 1]);
    }
  }

  /** Writing back what `ParseDecimal` read reproduces a canonical numeral
      exactly; with `ParseShowNat`, `ShowNat` and `ParseDecimal` are inverse
      bijections between naturals and canonical numerals. */
  lemma {:induction false} ShowParse(s: string)
    requires Canonical(s)
    ensures ParseDecimal(s).Some? && ShowNat(ParseDecimal(s).value) == s
    decreases |s|
  {
    if |s| > 1 {
      var p := s[..|s| - 1];
      var d := DigitValue(s[|s| - 1]);
      ShowParse(p);
      LeadingDigitPositive(p);
      var n := DigitsValue(s);
      assert n == 10 * DigitsValue(p) + d;
      assert n / 10 == DigitsValue(p) && n % 10 == d;
      assert s == p + [s[|s| - 1]];
    }
  }

  /** The numeral of a year converts back to that year exactly when the year
      is not negative; a negative year's '-' is not a digit. */
  lemma ParseShowInt(y: int)
    ensures ParseDecimal(ShowInt(y)) == if y >= 0 then Some(y) else None
  {
    if y >= 0 {
      ParseShowNat(y);
    } else {
      assert ShowInt(y)[0] == '-';
    }
  }

  /** Only the canonical numeral of a year names that year: a non-canonical
      spelling of it (a leading zero, a sign) is a different header. */
  lemma ShowIntInjective(a: int, b: int)
    ensures ShowInt(a) == ShowInt(b) <==> a == b
  {
    if ShowInt(a) == ShowInt(b) {
      if a >= 0 && b >= 0 {
        ParseShowNat(a);
        ParseShowNat(b);
      } else if a < 0 && b < 0 {
        var sa := ShowNat(-a);
        var sb := ShowNat(-b);
        assert sa == ShowInt(a)[1..] == ShowInt(b)[1..] == sb;
        ParseShowNat(-a);
        ParseShowNat(-b);
      }
    }
  }
}
