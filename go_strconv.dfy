/**
 * The part of Go's `strconv` package the handlers rely on, for Go's 64-bit `int`:
 * `Atoi` (parsing a path segment as a product id) and `FormatInt(i, 10)`
 * (the Content-Length header and the JSON rendering of a new product id).
 */
module GoStrconv {
  import opened Wrappers

  const MinInt64: int := -0x8000_0000_0000_0000
  const MaxInt64: int := 0x7FFF_FFFF_FFFF_FFFF

  predicate IsInt64(n: int)
  {
    MinInt64 <= n <= MaxInt64
  }

  predicate IsDigit(c: char)
  {
    '0' <= c <= '9'
  }

  predicate AllDigits(s: string)
  {
    forall i :: 0 <= i < |s| ==> IsDigit(s[i])
  }

  function DigitValue(c: char): (d: nat)
    requires IsDigit(c)
    ensures d < 10
  {
    c as int - '0' as int
  }

  function DigitChar(d: nat): (c: char)
    requires d < 10
    ensures IsDigit(c) && DigitValue(c) == d
  {
    ('0' as int + d) as char
  }

  /** The value of a string of decimal digits, most significant first. */
  function DigitsValue(s: string): nat
    requires AllDigits(s)
    decreases |s|
  {
    if s == [] then 0 else DigitsValue(s[..|s| - 1]) * 10 + DigitValue(s[|s| - 1])
  }

  /** The shortest decimal rendering of `n`: no leading zero except for "0" itself. */
  function FormatNat(n: nat): (r: string)
    ensures |r| >= 1 && AllDigits(r)
    ensures r[0] == '0' ==> n == 0 && r == "0"
    decreases n
  {
    if n < 10 then [DigitChar(n)] else FormatNat(n / 10) + [DigitChar(n % 10)]
  }

  /** Go's `strconv.FormatInt(n, 10)`: a minus sign for negative values, then the digits of |n|. */
  function FormatInt(n: int): (r: string)
    ensures |r| >= 1
    ensures n < 0 <==> r[0] == '-'
    ensures n >= 0 ==> AllDigits(r)
    ensures n < 0 ==> AllDigits(r[1..])
    // the shortest rendering: no leading zero, except "0" itself
    ensures n >= 0 ==> r[0] != '0' || r == "0"
    ensures n < 0 ==> |r| >= 2 && r[1] != '0'
  {
    if n < 0 then "-" + FormatNat(-n) else FormatNat(n)
  }

  /**
   * Go's `strconv.Atoi` on a 64-bit platform: an optional `+` or `-`, then one or more
   * decimal digits (leading zeros allowed, no underscores or base prefixes); a value
   * outside the int64 range is an error, as is any other text.
   */
  function Atoi(s: string): (r: Option<int>)
    ensures r.Some? ==> IsInt64(r.value)
    ensures r.Some? ==> |s| >= 1 && (s[0] == '+' || s[0] == '-' || IsDigit(s[0]))
    // after the optional sign there are only digits, at least one of them
    ensures r.Some? ==> |s| >= 2 || IsDigit(s[0])
    ensures r.Some? ==> forall i :: 1 <= i < |s| ==> IsDigit(s[i])
    // only a leading minus makes the value negative
    ensures r.Some? && r.value < 0 ==> s[0] == '-'
  {
    var signed := |s| > 0 && (s[0] == '+' || s[0] == '-');
    var digits := if signed then s[1..] else s;
    if |digits| == 0 || !AllDigits(digits) then None
    else
      var magnitude: int := DigitsValue(digits);
      var value: int := if signed && s[0] == '-' then -magnitude else magnitude;
      if IsInt64(value) then Some(value) else None
  }

  // ---------------------------------------------------------------- lemmas

  /** Reading back the digits of a rendering gives the number rendered. */
  lemma {:induction false} FormatNatRoundTrip(n: nat)
    ensures DigitsValue(FormatNat(n)) == n
    decreases n
  {
    if n >= 10 {
      FormatNatRoundTrip(n / 10);
      var r := FormatNat(n);
      assert r[..|r| - 1] == FormatNat(n / 10);
    }
  }

  /** A rendering uses only decimal digits and the minus sign. */
  lemma FormatIntAlphabet(n: int)
    ensures forall i :: 0 <= i < |FormatInt(n)| ==> FormatInt(n)[i] == '-' || IsDigit(FormatInt(n)[i])
  {
    var r := FormatInt(n);
    if n < 0 {
      forall i | 0 < i < |r|
        ensures IsDigit(r[i])
      {
        assert r[i] == r[1..][i - 1];
      }
    }
  }

  /** An unsigned string of digits parses to its value, when that is an int64. */
  lemma AtoiOfDigits(d: string)
    requires |d| >= 1 && AllDigits(d)
    ensures Atoi(d) == if IsInt64(DigitsValue(d)) then Some(DigitsValue(d)) else None
  {
    assert IsDigit(d[0]);
  }

  /** A minus sign and a string of digits parse to the negated value, when that is an int64. */
  lemma AtoiOfNegative(d: string)
    requires |d| >= 1 && AllDigits(d)
    ensures Atoi("-" + d) == if IsInt64(-(DigitsValue(d) as int)) then Some(-(DigitsValue(d) as int)) else None
  {
    var s := "-" + d;
    assert s[0] == '-' && s[1..] == d;
  }

  /** `Atoi` inverts `FormatInt` on every int64 value and rejects the rendering of every other integer. */
  lemma AtoiFormatInt(n: int)
    ensures Atoi(FormatInt(n)) == if IsInt64(n) then Some(n) else None
  {
    if n < 0 {
      FormatNatRoundTrip(-n);
      AtoiOfNegative(FormatNat(-n));
    } else {
      FormatNatRoundTrip(n);
      AtoiOfDigits(FormatNat(n));
    }
  }

  /** A character that is neither a sign nor a digit anywhere makes `Atoi` fail. */
  lemma AtoiRejectsNonDigit(s: string, i: nat)
    requires i < |s| && !IsDigit(s[i]) && (i > 0 || (s[0] != '+' && s[0] != '-'))
    ensures Atoi(s) == None
  {
    if |s| > 0 && (s[0] == '+' || s[0] == '-') {
      assert s[1..][i - 1] == s[i];
    }
  }

  /** Texts the item handler meets that are not ids: empty text, trailing garbage, a bare sign, a word. */
  lemma AtoiRejects()
    ensures Atoi("") == None && Atoi("5a") == None && Atoi("-") == None && Atoi("report") == None
  {
    AtoiRejectsNonDigit("5a", 1);
    AtoiRejectsNonDigit("report", 0);
  }

  /** Leading zeros and an explicit sign are accepted. */
  lemma AtoiAccepts()
    ensures Atoi("007") == Some(7) && Atoi("+12") == Some(12) && Atoi("-3") == Some(-3)
  {
    assert "007"[..2] == "00" && "00"[..1] == "0";
    AtoiOfDigits("007");
    assert "+12"[1..] == "12" && "12"[..1] == "1";
    assert DigitsValue("12") == 12;
    AtoiOfNegative("3");
    assert "-" + "3" == "-3";
  }
}
