/**
 * The passphrase generator of `GeneratePassphrase`: dice rolls become
 * five-digit codes, repeated codes are dropped, and the words of the
 * remaining codes are laid out one after another.
 */
module Passphrase {
  import opened Text
  import opened Numbers
  import opened Wrappers

  /** Below this length the generator returns the empty string. */
  const MinLength: int := 6
  /** The length the program asks for. */
  const DefaultLength: int := 8
  /** `Environment.NewLine` on Windows, where the program runs. */
  const NewLine: string := "\r\n"
  /** The position whose word is followed by a line break instead of a space. */
  const BreakIndex: nat := 5

  /** The five values one draw takes from `Random.Next(1, 7)`. */
  predicate IsRoll(roll: seq<int>) {
    |roll| == 5 && forall j :: 0 <= j < |roll| ==> 1 <= roll[j] <= 6
  }

  /** One roll per draw, for `length` draws. */
  predicate AreRolls(rolls: seq<seq<int>>, length: int) {
    |rolls| == length && forall i :: 0 <= i < |rolls| ==> IsRoll(rolls[i])
  }

  // ----- From a roll to a code -----

  /** The text that `sb.Append(value)` builds from the values of a roll. */
  function RollText(values: seq<int>): string {
    if values == [] then ""
    else RollText(values[..|values| - 1]) + IntToString(values[|values| - 1])
  }

  /** The values of a roll read as the decimal digits of a number. */
  function DrawCode(values: seq<int>): int {
    if values == [] then 0
    else DrawCode(values[..|values| - 1]) * 10 + values[|values| - 1]
  }

  /** The `k`-th decimal digit of `n`, counting from the least significant. */
  function Digit(n: nat, k: nat): nat {
    if k == 0 then n % 10 else Digit(n / 10, k - 1)
  }

  /** The text of single-digit values is their digits, worth the code of the values. */
  lemma {:induction false} RollTextDigits(values: seq<int>)
    requires forall j :: 0 <= j < |values| ==> 0 <= values[j] <= 9
    ensures var text := RollText(values);
      |text| == |values| && AllDigits(text) && DecimalValue(text) == DrawCode(values)
  {
    if values != [] {
      var front, v := values[..|values| - 1], values[|values| - 1];
      RollTextDigits(front);
      assert IntToString(v) == [DigitChar(v)];
      var text := RollText(values);
      assert text[..|text| - 1] == RollText(front);
    }
  }

  /** `int.Parse` of the appended dice values yields the code of the roll. */
  lemma RollTextParses(roll: seq<int>)
    requires IsRoll(roll)
    ensures ParseInt(RollText(roll)) == Some(DrawCode(roll))
  {
    var text := RollText(roll);
    RollTextDigits(roll);
    TrimOfTrimmed(text);
    Pow10Five();
    ParseUnsigned(text, text);
  }

  lemma Pow10Five()
    ensures Pow10(5) == 100000
  {
    assert Pow10(1) == 10 && Pow10(2) == 100 && Pow10(3) == 1000 && Pow10(4) == 10000;
  }

  /** The code of a roll, spelled out digit by digit. */
  lemma DrawCodeOfRoll(roll: seq<int>)
    requires |roll| == 5
    ensures DrawCode(roll) == roll[0] * 10000 + roll[1] * 1000 + roll[2] * 100 + roll[3] * 10 + roll[4]
  {
    assert roll[..1][..0] == [];
    assert DrawCode(roll[..1]) == roll[0];
    assert roll[..2][..1] == roll[..1];
    assert DrawCode(roll[..2]) == roll[0] * 10 + roll[1];
    assert roll[..3][..2] == roll[..2];
    assert DrawCode(roll[..3]) == roll[0] * 100 + roll[1] * 10 + roll[2];
    assert roll[..4][..3] == roll[..3];
    assert DrawCode(roll[..4]) == roll[0] * 1000 + roll[1] * 100 + roll[2] * 10 + roll[3];
    assert roll[..|roll| - 1] == roll[..4];
  }

  /** Every code lies in 11111..66666. */
  lemma DrawCodeRange(roll: seq<int>)
    requires IsRoll(roll)
    ensures 11111 <= DrawCode(roll) <= 66666
  {
    DrawCodeOfRoll(roll);
  }

  /** Every decimal digit of a code is the die value drawn for it, hence in 1..6. */
  lemma {:induction false} DrawCodeDigits(values: seq<int>, k: nat)
    requires forall j :: 0 <= j < |values| ==> 0 <= values[j] <= 9
    requires k < |values|
    ensures DrawCode(values) >= 0 && Digit(DrawCode(values), k) == values[|values| - 1 - k]
  {
    var front, v := values[..|values| - 1], values[|values| - 1];
    DrawCodeNonNegative(front);
    var f := DrawCode(front);
    assert (f * 10 + v) / 10 == f && (f * 10 + v) % 10 == v;
    if k > 0 {
      DrawCodeDigits(front, k - 1);
      assert front[|front| - 1 - (k - 1)] == values[|values| - 1 - k];
    }
  }

  lemma {:induction false} DrawCodeNonNegative(values: seq<int>)
    requires forall j :: 0 <= j < |values| ==> 0 <= values[j] <= 9
    ensures DrawCode(values) >= 0
  {
    if values != [] {
      DrawCodeNonNegative(values[..|values| - 1]);
    }
  }

  /** Different rolls give different codes. */
  lemma DrawCodeInjective(r1: seq<int>, r2: seq<int>)
    requires IsRoll(r1) && IsRoll(r2) && DrawCode(r1) == DrawCode(r2)
    ensures r1 == r2
  {
    forall j | 0 <= j < 5 ensures r1[j] == r2[j] {
      DrawCodeDigits(r1, 4 - j);
      DrawCodeDigits(r2, 4 - j);
    }
  }

  /**
   * The code of every draw, in draw order: for a roll of five dice it is the
   * value `int.Parse` reads from the appended dice values, a five-digit code
   * in 11111..66666.
   */
  function Codes(rolls: seq<seq<int>>): (codes: seq<int>)
    ensures |codes| == |rolls|
    ensures forall i :: 0 <= i < |rolls| ==> codes[i] == DrawCode(rolls[i])
    ensures forall i {:trigger RollText(rolls[i])} :: 0 <= i < |rolls| && IsRoll(rolls[i]) ==>
      ParseInt(RollText(rolls[i])) == Some(codes[i]) && 11111 <= codes[i] <= 66666
  {
    var codes := seq(|rolls|, i requires 0 <= i < |rolls| => DrawCode(rolls[i]));
    RollsParse(rolls);
    assert forall i :: 0 <= i < |rolls| ==> codes[i] == DrawCode(rolls[i]);
    codes
  }

  lemma RollsParse(rolls: seq<seq<int>>)
    ensures forall i {:trigger RollText(rolls[i])} :: 0 <= i < |rolls| && IsRoll(rolls[i]) ==>
      ParseInt(RollText(rolls[i])) == Some(DrawCode(rolls[i])) && 11111 <= DrawCode(rolls[i]) <= 66666
  {
    forall i | 0 <= i < |rolls| && IsRoll(rolls[i])
      ensures ParseInt(RollText(rolls[i])) == Some(DrawCode(rolls[i])) && 11111 <= DrawCode(rolls[i]) <= 66666
    {
      RollTextParses(rolls[i]);
      DrawCodeRange(rolls[i]);
    }
  }

  // ----- Keeping the first occurrence of each code -----

  predicate NoDuplicates(s: seq<int>) {
    forall i, j :: 0 <= i < j < |s| ==> s[i] != s[j]
  }

  /** `List.IndexOf`: the position of the first occurrence of `x`, or -1. */
  function IndexOf(s: seq<int>, x: int): (r: int)
    ensures -1 <= r < |s|
    ensures r == -1 <==> x !in s
    ensures r >= 0 ==> s[r] == x && forall j :: 0 <= j < r ==> s[j] != x
  {
    if s == [] then -1
    else if s[0] == x then 0
    else
      var k := IndexOf(s[1..], x);
      if k == -1 then -1 else k + 1
  }

  /** In a list without duplicates, `IndexOf` of an element is its position. */
  lemma IndexOfDistinct(s: seq<int>, k: nat)
    requires NoDuplicates(s) && k < |s|
    ensures IndexOf(s, s[k]) == k
  {
  }

  /**
   * The codes that `generatedNumbers` accepts: each code appended when the
   * list does not contain it yet, a repeat dropped without a new draw.
   */
  function Dedup(s: seq<int>): seq<int> {
    if s == [] then []
    else
      var kept := Dedup(s[..|s| - 1]);
      if s[|s| - 1] in kept then kept else kept + [s[|s| - 1]]
  }

  /** One more draw: its code is appended unless already kept. */
  lemma DedupStep(s: seq<int>, i: nat)
    requires i < |s|
    ensures Dedup(s[..i + 1]) == if s[i] in Dedup(s[..i]) then Dedup(s[..i]) else Dedup(s[..i]) + [s[i]]
  {
    assert s[..i + 1][..i] == s[..i];
  }

  /** Dedup keeps every value of its input, and nothing else. */
  lemma {:induction false} DedupSameElements(s: seq<int>)
    ensures forall x :: x in Dedup(s) <==> x in s
  {
    if s != [] {
      var front := s[..|s| - 1];
      DedupSameElements(front);
      assert s == front + [s[|s| - 1]];
    }
  }

  /** Dedup never keeps a value twice. */
  lemma {:induction false} DedupNoDuplicates(s: seq<int>)
    ensures NoDuplicates(Dedup(s))
  {
    if s != [] {
      DedupNoDuplicates(s[..|s| - 1]);
    }
  }

  /** Dedup is at most as long as its input, and not empty when its input is not. */
  lemma {:induction false} DedupSize(s: seq<int>)
    ensures |Dedup(s)| <= |s|
    ensures s != [] ==> |Dedup(s)| >= 1
  {
    if s != [] {
      DedupSize(s[..|s| - 1]);
    }
  }

  /** Dedup lists its values in the order of their first occurrence. */
  lemma {:induction false} DedupFirstOccurrenceOrder(s: seq<int>)
    ensures FirstOccurrenceOrder(s, Dedup(s))
  {
    if s != [] {
      var front, x := s[..|s| - 1], s[|s| - 1];
      DedupFirstOccurrenceOrder(front);
      DedupSameElements(front);
      var kept := Dedup(front);
      assert s == front + [x];
      OrderAfterDraw(front, x, kept);
      if x in kept {
        assert Dedup(s) == kept;
      } else {
        assert Dedup(s) == kept + [x];
      }
    }
  }

  /** The values of `d` are values of `s`, listed in the order of their first occurrence in `s`. */
  predicate FirstOccurrenceOrder(s: seq<int>, d: seq<int>) {
    (forall y :: y in d ==> y in s) &&
    forall i, j :: 0 <= i < j < |d| ==> IndexOf(s, d[i]) < IndexOf(s, d[j])
  }

  lemma OrderAfterDraw(front: seq<int>, x: int, kept: seq<int>)
    requires FirstOccurrenceOrder(front, kept)
    requires x in front <==> x in kept
    ensures FirstOccurrenceOrder(front + [x], kept)
    ensures x !in kept ==> FirstOccurrenceOrder(front + [x], kept + [x])
  {
    var s := front + [x];
    forall i | 0 <= i < |kept| ensures IndexOf(s, kept[i]) == IndexOf(front, kept[i]) < |front| {
      IndexOfAppend(front, x, kept[i]);
    }
    if x !in kept {
      assert IndexOf(s, x) == |front|;
      var d := kept + [x];
      forall i, j | 0 <= i < j < |d| ensures IndexOf(s, d[i]) < IndexOf(s, d[j]) {
        assert d[i] == kept[i];
        if j < |kept| {
          assert d[j] == kept[j];
        }
      }
    }
  }

  lemma {:induction false} IndexOfAppend(s: seq<int>, x: int, y: int)
    requires y in s
    ensures IndexOf(s + [x], y) == IndexOf(s, y)
  {
    if s[0] != y {
      assert (s + [x])[1..] == s[1..] + [x];
      IndexOfAppend(s[1..], x, y);
    }
  }

  /** When no code repeats, every code is kept. */
  lemma {:induction false} DedupOfDistinct(s: seq<int>)
    requires NoDuplicates(s)
    ensures Dedup(s) == s
  {
    if s != [] {
      var front := s[..|s| - 1];
      DedupOfDistinct(front);
      assert s[|s| - 1] !in front;
      assert s == front + [s[|s| - 1]];
    }
  }

  /** The codes kept from a sequence of draws. */
  function Accepted(rolls: seq<seq<int>>): seq<int> {
    Dedup(Codes(rolls))
  }

  // ----- From codes to text -----

  /** The words of the codes in order, or the first code the dictionary lacks. */
  function Lookup(codes: seq<int>, dict: map<int, string>): Result<seq<string>, int> {
    if codes == [] then Success([])
    else
      var c := codes[|codes| - 1];
      match Lookup(codes[..|codes| - 1], dict)
      case Failure(missing) => Failure(missing)
      case Success(words) => if c in dict then Success(words + [dict[c]]) else Failure(c)
  }

  /** One more code to look up. */
  lemma LookupStep(codes: seq<int>, n: nat, dict: map<int, string>)
    requires n < |codes|
    ensures Lookup(codes[..n + 1], dict) ==
      match Lookup(codes[..n], dict)
      case Failure(missing) => Failure(missing)
      case Success(words) => if codes[n] in dict then Success(words + [dict[codes[n]]]) else Failure(codes[n])
  {
    assert codes[..n + 1][..n] == codes[..n];
  }

  /** Lookup succeeds exactly when the dictionary has every code, giving their words in order. */
  lemma {:induction false} LookupSucceeds(codes: seq<int>, dict: map<int, string>)
    ensures Lookup(codes, dict).Success? <==> forall i :: 0 <= i < |codes| ==> codes[i] in dict
    ensures Lookup(codes, dict).Success? ==>
      var words := Lookup(codes, dict).value;
      |words| == |codes| && forall i :: 0 <= i < |codes| ==> words[i] == dict[codes[i]]
  {
    if codes != [] {
      var front := codes[..|codes| - 1];
      LookupSucceeds(front, dict);
      assert forall i :: 0 <= i < |front| ==> front[i] == codes[i];
    }
  }

  /** Lookup fails on the first code the dictionary lacks. */
  lemma {:induction false} LookupFailsAtFirstMissing(codes: seq<int>, dict: map<int, string>)
    requires Lookup(codes, dict).Failure?
    ensures var c := Lookup(codes, dict).error;
      exists i :: 0 <= i < |codes| && codes[i] == c && c !in dict &&
                  (forall j :: 0 <= j < i ==> codes[j] in dict)
  {
    var front := codes[..|codes| - 1];
    assert forall i :: 0 <= i < |front| ==> front[i] == codes[i];
    if Lookup(front, dict).Failure? {
      LookupFailsAtFirstMissing(front, dict);
    } else {
      LookupSucceeds(front, dict);
      assert codes[|codes| - 1] !in dict;
    }
  }

  /** A lookup that fails on a prefix of the codes fails the same way on all of them. */
  lemma {:induction false} LookupPrefixFailure(codes: seq<int>, n: nat, dict: map<int, string>)
    requires n <= |codes| && Lookup(codes[..n], dict).Failure?
    ensures Lookup(codes, dict) == Lookup(codes[..n], dict)
    decreases |codes| - n
  {
    if n < |codes| {
      assert codes[..n + 1][..n] == codes[..n];
      LookupPrefixFailure(codes, n + 1, dict);
    } else {
      assert codes[..n] == codes;
    }
  }

  /** What follows the word at `index`: a line break after the sixth word, else a space. */
  function Separator(index: nat): (sep: string)
    ensures sep != [] && AllWhite(sep)
  {
    if index == BreakIndex then NewLine else " "
  }

  /** The words laid out in order, each followed by its separator. */
  function Layout(words: seq<string>): string {
    if words == [] then ""
    else Layout(words[..|words| - 1]) + words[|words| - 1] + Separator(|words| - 1)
  }

  /** Layout of one more word. */
  lemma LayoutAppend(words: seq<string>, w: string)
    ensures Layout(words + [w]) == Layout(words) + w + Separator(|words|)
  {
    assert (words + [w])[..|words|] == words;
  }

  /** Layout of a prefix one word longer. */
  lemma LayoutStep(words: seq<string>, k: nat)
    requires k < |words|
    ensures Layout(words[..k + 1]) == Layout(words[..k]) + words[k] + Separator(k)
  {
    assert words[..k + 1][..k] == words[..k];
  }

  /**
   * With the default length and no repeated code: six words separated by
   * spaces, a line break, then two words each followed by a space.
   */
  lemma LayoutOfEight(w: seq<string>)
    requires |w| == DefaultLength
    ensures Layout(w) == w[0] + " " + w[1] + " " + w[2] + " " + w[3] + " " + w[4] + " " +
                         w[5] + NewLine + w[6] + " " + w[7] + " "
  {
    LayoutOfSix(w);
    var six := Layout(w[..6]);
    assert Separator(6) == " " && Separator(7) == " ";
    LayoutStep(w, 6);
    LayoutStep(w, 7);
    assert w[..8] == w;
    assert Layout(w) == six + w[6] + " " + w[7] + " ";
  }

  /** The first six words: spaces between them, a line break after the sixth. */
  lemma LayoutOfSix(w: seq<string>)
    requires |w| >= 6
    ensures Layout(w[..6]) == w[0] + " " + w[1] + " " + w[2] + " " + w[3] + " " + w[4] + " " + w[5] + NewLine
  {
    LayoutOfThree(w);
    LayoutStep(w, 3);
    LayoutStep(w, 4);
    LayoutStep(w, 5);
  }

  lemma LayoutOfThree(w: seq<string>)
    requires |w| >= 3
    ensures Layout(w[..3]) == w[0] + " " + w[1] + " " + w[2] + " "
  {
    assert w[..0] == [];
    LayoutStep(w, 0);
    LayoutStep(w, 1);
    LayoutStep(w, 2);
  }

  /**
   * A passphrase of exactly six words ends with the line break that follows
   * the sixth word; any other nonempty passphrase ends with a space.
   */
  lemma LayoutEnding(words: seq<string>)
    requires words != []
    ensures |words| == 6 ==> |Layout(words)| >= 2 && Layout(words)[|Layout(words)| - 2..] == NewLine
    ensures |words| != 6 ==> Layout(words)[|Layout(words)| - 1] == ' '
  {
    var text, sep := Layout(words), Separator(|words| - 1);
    var body := Layout(words[..|words| - 1]) + words[|words| - 1];
    assert text == body + sep;
    assert text[|body|..] == sep;
  }

  // ----- Reading the words back -----

  /** A word: not empty and free of white space. */
  predicate IsWord(w: string) {
    w != [] && forall i :: 0 <= i < |w| ==> !IsWhite(w[i])
  }

  /** The number of characters before the first white space. */
  function WordLength(s: string): (n: nat)
    ensures n <= |s|
    ensures forall i :: 0 <= i < n ==> !IsWhite(s[i])
    ensures n < |s| ==> IsWhite(s[n])
  {
    if s != [] && !IsWhite(s[0]) then 1 + WordLength(s[1..]) else 0
  }

  /** The white-space separated words of `s`. */
  function Tokens(s: string): seq<string>
    decreases |s|
  {
    if s == [] then []
    else if IsWhite(s[0]) then Tokens(s[1..])
    else
      var n := WordLength(s);
      [s[..n]] + Tokens(s[n..])
  }

  lemma {:induction false} TokensOfWhite(s: string)
    requires AllWhite(s)
    ensures Tokens(s) == []
    decreases |s|
  {
    if s != [] {
      TokensOfWhite(s[1..]);
    }
  }

  /** Text that ends in white space splits apart from whatever follows it. */
  lemma {:induction false} TokensAppend(a: string, b: string)
    requires a == [] || IsWhite(a[|a| - 1])
    ensures Tokens(a + b) == Tokens(a) + Tokens(b)
    decreases |a|
  {
    if a == [] {
      assert a + b == b;
    } else if IsWhite(a[0]) {
      assert (a + b)[1..] == a[1..] + b;
      TokensAppend(a[1..], b);
    } else {
      var n := WordLength(a);
      assert n < |a|;
      WordLengthOf(a + b, n);
      assert (a + b)[..n] == a[..n];
      assert (a + b)[n..] == a[n..] + b;
      TokensAppend(a[n..], b);
    }
  }

  lemma {:induction false} WordLengthOf(s: string, n: nat)
    requires n < |s| && IsWhite(s[n])
    requires forall i :: 0 <= i < n ==> !IsWhite(s[i])
    ensures WordLength(s) == n
  {
  }

  /** A word followed by white space reads back as that one word. */
  lemma TokensOfWord(w: string, sep: string)
    requires IsWord(w) && sep != [] && AllWhite(sep)
    ensures Tokens(w + sep) == [w]
  {
    var s := w + sep;
    WordLengthOf(s, |w|);
    assert s[..|w|] == w && s[|w|..] == sep;
    TokensOfWhite(sep);
  }

  /** Splitting a layout at white space gives back its words, in order. */
  lemma {:induction false} LayoutTokens(words: seq<string>)
    requires forall i :: 0 <= i < |words| ==> IsWord(words[i])
    ensures Tokens(Layout(words)) == words
  {
    if words != [] {
      var front, w := words[..|words| - 1], words[|words| - 1];
      var sep := Separator(|words| - 1);
      assert forall i :: 0 <= i < |front| ==> front[i] == words[i];
      calc {
        Tokens(Layout(words));
        { assert Layout(words) == Layout(front) + (w + sep); }
        Tokens(Layout(front) + (w + sep));
        { LayoutTokens(front); LayoutEndsWithWhite(front); TokensOfNextWord(Layout(front), front, w, sep); }
        front + [w];
        { assert words == front + [w]; }
        words;
      }
    }
  }

  /** A word and its separator after text that ends in white space add that word to its words. */
  lemma TokensOfNextWord(text: string, ws: seq<string>, w: string, sep: string)
    requires Tokens(text) == ws && (text == [] || IsWhite(text[|text| - 1]))
    requires IsWord(w) && sep != [] && AllWhite(sep)
    ensures Tokens(text + (w + sep)) == ws + [w]
  {
    TokensAppend(text, w + sep);
    TokensOfWord(w, sep);
  }

  lemma LayoutEndsWithWhite(words: seq<string>)
    ensures Layout(words) == [] || IsWhite(Layout(words)[|Layout(words)| - 1])
  {
    if words != [] {
      var sep := Separator(|words| - 1);
      assert Layout(words)[|Layout(words)| - 1] == sep[|sep| - 1];
    }
  }

  // ----- The whole generator -----

  /**
   * The result of `GeneratePassphrase(length)` given the dice values it draws
   * and the dictionary it reads: the empty string for a length below six,
   * otherwise the layout of the words of the accepted codes, or a failure
   * carrying the first accepted code that is not a key of the dictionary.
   */
  function Generate(length: int, rolls: seq<seq<int>>, dict: map<int, string>): Result<string, int> {
    if length < MinLength then Success("")
    else
      match Lookup(Accepted(rolls), dict)
      case Failure(missing) => Failure(missing)
      case Success(words) => Success(Layout(words))
  }

  /**
   * The accepted codes are distinct five-digit dice codes, in order of first
   * draw, between one and `length` of them.
   */
  lemma AcceptedCodes(length: int, rolls: seq<seq<int>>)
    requires length >= MinLength && AreRolls(rolls, length)
    ensures var codes := Accepted(rolls);
      && 1 <= |codes| <= length
      && NoDuplicates(codes)
      && (forall c :: c in codes <==> exists i :: 0 <= i < length && DrawCode(rolls[i]) == c)
      && (forall c :: c in codes ==> 11111 <= c <= 66666)
      && (forall i, j :: 0 <= i < j < |codes| ==> IndexOf(Codes(rolls), codes[i]) < IndexOf(Codes(rolls), codes[j]))
  {
    var all := Codes(rolls);
    DedupSize(all);
    DedupNoDuplicates(all);
    DedupSameElements(all);
    DedupFirstOccurrenceOrder(all);
    forall c | c in Accepted(rolls) ensures 11111 <= c <= 66666 {
      var i :| 0 <= i < |all| && all[i] == c;
      DrawCodeRange(rolls[i]);
    }
  }

  /**
   * A generated passphrase: it fails exactly when some accepted code is not
   * in the dictionary, naming such a code, and otherwise lays out the words
   * of the accepted codes in order.
   */
  lemma GenerateOutcome(length: int, rolls: seq<seq<int>>, dict: map<int, string>)
    requires length >= MinLength
    ensures var codes, r := Accepted(rolls), Generate(length, rolls, dict);
      && (r.Success? <==> forall i :: 0 <= i < |codes| ==> codes[i] in dict)
      && (r.Failure? ==> r.error in codes && r.error !in dict)
      && (r.Success? ==> r.value == Layout(seq(|codes|, i requires 0 <= i < |codes| => dict[codes[i]])))
  {
    var codes := Accepted(rolls);
    LookupSucceeds(codes, dict);
    if Lookup(codes, dict).Failure? {
      LookupFailsAtFirstMissing(codes, dict);
    } else {
      var words := Lookup(codes, dict).value;
      assert words == seq(|codes|, i requires 0 <= i < |codes| => dict[codes[i]]);
    }
  }

  /** When no two draws repeat a code, every drawn code is kept, in draw order. */
  lemma DistinctDrawsKeepEveryCode(rolls: seq<seq<int>>)
    requires NoDuplicates(Codes(rolls))
    ensures Accepted(rolls) == Codes(rolls)
  {
    DedupOfDistinct(Codes(rolls));
  }
}
