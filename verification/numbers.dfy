/**
 * Decimal text and 32-bit integers: `int.ToString()` for the dice values and
 * `int.Parse` for the five-character key field and the five-digit dice code.
 */
module Numbers {
  import opened Text
  import opened Wrappers

  /** The bounds of C#'s `int` (System.Int32). */
  const Int32Min: int := -0x8000_0000
  const Int32Max: int := 0x7fff_ffff

  predicate InInt32(v: int) {
    Int32Min <= v <= Int32Max
  }

  function Pow10(k: nat): (p: nat)
    ensures p >= 1
  {
    if k == 0 then 1 else 10 * Pow10(k - 1)
  }

  function DigitValue(c: char): (d: nat)
    requires IsDigit(c)
    ensures d < 10
  {
    c as int - '0' as int
  }

  function DigitChar(d: nat): (c: char)
    requires d < 10
    ensures IsDigit(c) && DigitValue(c) == d
  {
    ('0' as int + d) as char
  }

  /** The value of a string of decimal digits, most significant digit first. */
  function DecimalValue(s: string): (n: nat)
    requires AllDigits(s)
    ensures n < Pow10(|s|)
  {
    if s == [] then 0 else DecimalValue(s[..|s| - 1]) * 10 + DigitValue(s[|s| - 1])
  }

  /**
   * The shortest decimal text of a natural number: it reads back as the same
   * number and has no leading zero.
   */
  function ToDecimal(n: nat): (s: string)
    ensures s != [] && AllDigits(s)
    ensures DecimalValue(s) == n
    ensures |s| > 1 ==> s[0] != '0'
  {
    var last := [DigitChar(n % 10)];
    if n < 10 then last
    else
      var front := ToDecimal(n / 10);
      assert (front + last)[..|front|] == front;
      front + last
  }

  /** `int.ToString()` under the invariant culture. */
  function IntToString(v: int): (s: string)
    ensures s != [] && IsTrimmed(s)
  {
    var digits := ToDecimal(if v < 0 then -v else v);
    if v < 0 then "-" + digits else digits
  }

  /**
   * `int.Parse` with the default number style: optional white space, an
   * optional sign, one or more decimal digits, optional white space, and a
   * value that fits an `int`. `None` is the exception it throws otherwise.
   */
  function ParseInt(s: string): (r: Option<int>)
    ensures r.Some? ==> InInt32(r.value)
  {
    var t := Trim(s);
    var signed := t != [] && (t[0] == '-' || t[0] == '+');
    var digits := if signed then t[1..] else t;
    if digits == [] || !AllDigits(digits) then None
    else
      var magnitude: int := DecimalValue(digits);
      var v := if signed && t[0] == '-' then -magnitude else magnitude;
      if InInt32(v) then Some(v) else None
  }

  /** `int.Parse` reads back every value that `int.ToString` writes. */
  lemma ParseIntToString(v: int)
    requires InInt32(v)
    ensures ParseInt(IntToString(v)) == Some(v)
  {
    var s := IntToString(v);
    TrimPadded([], s, []);
    assert [] + s + [] == s;
    if v < 0 {
      var d := ToDecimal(-v);
      ParseNegative(s, d);
      assert ParseInt(s) == Some(0 - DecimalValue(d));
      assert 0 - DecimalValue(d) == v;
    } else {
      ParseUnsigned(s, s);
      assert ParseInt(s) == Some(v);
    }
  }

  lemma ParseNegative(s: string, d: string)
    requires Trim(s) == s && d != [] && AllDigits(d) && InInt32(0 - DecimalValue(d))
    requires s == "-" + d
    ensures ParseInt(s) == Some(0 - DecimalValue(d))
  {
    assert s[0] == '-' && s[1..] == d;
  }

  lemma ParseUnsigned(s: string, t: string)
    requires Trim(s) == t && t != [] && AllDigits(t) && InInt32(DecimalValue(t))
    ensures ParseInt(s) == Some(DecimalValue(t))
  {
  }

  lemma ParseNotDigits(s: string, t: string)
    requires Trim(s) == t && t != [] && IsDigit(t[0]) && !AllDigits(t)
    ensures ParseInt(s) == None
  {
  }

  /** The number of decimal digits `s` starts with. */
  function LeadingDigits(s: string): (n: nat)
    ensures n <= |s| && AllDigits(s[..n])
    ensures n < |s| ==> !IsDigit(s[n])
  {
    if s != [] && IsDigit(s[0]) then
      var n := 1 + LeadingDigits(s[1..]);
      assert s[..n] == [s[0]] + s[1..][..n - 1];
      n
    else 0
  }

  /**
   * A short field that starts with a digit parses exactly when its digits are
   * followed by nothing but white space, and then to the value of those digits.
   */
  lemma DigitFieldParse(p: string)
    requires p != [] && IsDigit(p[0]) && |p| <= 5
    ensures var n := LeadingDigits(p);
      ParseInt(p) == if AllWhite(p[n..]) then Some(DecimalValue(p[..n])) else None
  {
    var n := LeadingDigits(p);
    if AllWhite(p[n..]) {
      DigitFieldAccepted(p, n);
    } else {
      DigitFieldRejected(p, n);
    }
  }

  lemma DigitFieldAccepted(p: string, n: nat)
    requires p != [] && IsDigit(p[0]) && |p| <= 5
    requires n == LeadingDigits(p) && AllWhite(p[n..])
    ensures ParseInt(p) == Some(DecimalValue(p[..n]))
  {
    var digits := p[..n];
    TrimDigitField(p, n);
    ShortDecimalInInt32(digits);
    ParseUnsigned(p, digits);
  }

  /** A field of digits followed by white space trims to its digits. */
  lemma TrimDigitField(p: string, n: nat)
    requires p != [] && IsDigit(p[0])
    requires n == LeadingDigits(p) && AllWhite(p[n..])
    ensures Trim(p) == p[..n]
  {
    assert p == [] + p[..n] + p[n..];
    TrimPadded([], p[..n], p[n..]);
  }

  /** At most five decimal digits fit an `int`. */
  lemma ShortDecimalInInt32(digits: string)
    requires |digits| <= 5 && AllDigits(digits)
    ensures InInt32(DecimalValue(digits))
  {
    Pow10Monotone(|digits|, 5);
    assert Pow10(5) == 100000 by {
      assert Pow10(1) == 10 && Pow10(2) == 100 && Pow10(3) == 1000 && Pow10(4) == 10000;
    }
  }

  lemma DigitFieldRejected(p: string, n: nat)
    requires p != [] && IsDigit(p[0])
    requires n == LeadingDigits(p) && !AllWhite(p[n..])
    ensures ParseInt(p) == None
  {
    var t := Trim(p);
    assert LeadingWhite(p) == 0;
    var k :| n <= k < |p| && !IsWhite(p[k]);
    assert k < |t|;
    assert !IsDigit(t[n]);
    ParseNotDigits(p, t);
  }

  lemma {:induction false} Pow10Monotone(i: nat, j: nat)
    requires i <= j
    ensures Pow10(i) <= Pow10(j)
  {
    if i < j {
      Pow10Monotone(i, j - 1);
    }
  }

  /** The leading digit of a decimal string bounds its value from both sides. */
  lemma {:induction false} DecimalLeadingDigit(s: string)
    requires s != [] && AllDigits(s)
    ensures DigitValue(s[0]) * Pow10(|s| - 1) <= DecimalValue(s)
    ensures DecimalValue(s) < (DigitValue(s[0]) + 1) * Pow10(|s| - 1)
  {
    var d := DigitValue(s[0]);
    var front := s[..|s| - 1];
    var m := DecimalValue(front);
    var c := DigitValue(s[|s| - 1]);
    assert DecimalValue(s) == m * 10 + c;
    if |s| == 1 {
      assert front == [];
    } else {
      assert front[0] == s[0];
      DecimalLeadingDigit(front);
      ShiftDigitBounds(d, Pow10(|s| - 2), m, c);
    }
  }

  /** Appending a digit to a number keeps the bounds its leading digit gives it. */
  lemma ShiftDigitBounds(d: nat, q: nat, m: nat, c: nat)
    requires d * q <= m < (d + 1) * q && c < 10
    ensures d * (10 * q) <= m * 10 + c < (d + 1) * (10 * q)
  {
    assert d * (10 * q) == 10 * (d * q);
    assert (d + 1) * (10 * q) == 10 * ((d + 1) * q);
  }
}
