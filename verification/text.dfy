/**
 * Character classes and the `string.Trim` used on every line of the word list.
 */
module Text {

  /** White space: the space and the control characters U+0009 to U+000D. */
  predicate IsWhite(c: char) {
    c == ' ' || '\t' <= c <= '\r'
  }

  /** An ASCII decimal digit. */
  predicate IsDigit(c: char) {
    '0' <= c <= '9'
  }

  predicate AllWhite(s: string) {
    forall i :: 0 <= i < |s| ==> IsWhite(s[i])
  }

  predicate AllDigits(s: string) {
    forall i :: 0 <= i < |s| ==> IsDigit(s[i])
  }

  /** A string with no white space at either end. */
  predicate IsTrimmed(s: string) {
    s == [] || (!IsWhite(s[0]) && !IsWhite(s[|s| - 1]))
  }

  /** The number of white space characters `s` starts with. */
  function LeadingWhite(s: string): (n: nat)
    ensures n <= |s|
    ensures forall i :: 0 <= i < n ==> IsWhite(s[i])
    ensures n < |s| ==> !IsWhite(s[n])
  {
    if s != [] && IsWhite(s[0]) then 1 + LeadingWhite(s[1..]) else 0
  }

  /** The number of white space characters `s` ends with. */
  function TrailingWhite(s: string): (n: nat)
    ensures n <= |s|
    ensures forall i :: |s| - n <= i < |s| ==> IsWhite(s[i])
    ensures n < |s| ==> !IsWhite(s[|s| - 1 - n])
  {
    if s != [] && IsWhite(s[|s| - 1]) then 1 + TrailingWhite(s[..|s| - 1]) else 0
  }

  /**
   * `string.Trim()`: what is left of `s` once the white space is cut off both
   * of its ends.
   */
  function Trim(s: string): (r: string)
    ensures IsTrimmed(r)
    ensures r == [] <==> AllWhite(s)
    ensures LeadingWhite(s) + |r| <= |s|
    ensures forall i :: 0 <= i < |r| ==> r[i] == s[LeadingWhite(s) + i]
    ensures forall i :: LeadingWhite(s) + |r| <= i < |s| ==> IsWhite(s[i])
  {
    var lead := LeadingWhite(s);
    if lead == |s| then []
    else
      var trail := TrailingWhite(s);
      s[lead..|s| - trail]
  }

  /** Trimming removes exactly the white space padding of a trimmed string. */
  lemma TrimPadded(a: string, t: string, b: string)
    requires AllWhite(a) && AllWhite(b) && IsTrimmed(t)
    ensures Trim(a + t + b) == t
  {
    var s := a + t + b;
    assert forall i :: 0 <= i < |s| ==> s[i] == if i < |a| then a[i] else if i < |a| + |t| then t[i - |a|] else b[i - |a| - |t|];
    if t == [] {
      assert AllWhite(s);
    } else {
      LeadingWhiteOf(s, |a|);
      var r := Trim(s);
      assert s[|a| + |t| - 1] == t[|t| - 1];
      assert |r| == |t|;
      forall i | 0 <= i < |t| ensures r[i] == t[i] {
        assert s[|a| + i] == t[i];
      }
    }
  }

  lemma {:induction false} LeadingWhiteOf(s: string, k: nat)
    requires k < |s| && !IsWhite(s[k])
    requires forall i :: 0 <= i < k ==> IsWhite(s[i])
    ensures LeadingWhite(s) == k
  {
  }

  /** A string without white space at its ends is its own trim. */
  lemma TrimOfTrimmed(s: string)
    requires IsTrimmed(s)
    ensures Trim(s) == s
  {
    assert [] + s + [] == s;
    TrimPadded([], s, []);
  }

  /** Trimming twice is the same as trimming once. */
  lemma TrimIdempotent(s: string)
    ensures Trim(Trim(s)) == Trim(s)
  {
    assert [] + Trim(s) + [] == Trim(s);
    TrimPadded([], Trim(s), []);
  }
}
