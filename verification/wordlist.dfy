/**
 * The word-list parser of `ParseWordList`: what it does with one line of the
 * file, and the dictionary and verdict the whole line loop leaves behind.
 */
module WordList {
  import opened Text
  import opened Numbers
  import opened Wrappers

  /** What the line loop does with one line. */
  datatype LineAction =
    | Skip                          // blank, or not starting with a die face
    | Abort                         // `Substring` or `int.Parse` throws
    | Entry(key: int, word: string) // a key and the word that goes with it

  /** The only validity test the loop makes: the first character is '1'..'6'. */
  predicate StartsWithDieFace(t: string) {
    t != [] && '1' <= t[0] <= '6'
  }

  /** The digits that open the five-character key field of a line. */
  function KeyDigits(t: string): (n: nat)
    requires |t| >= 5
    ensures n <= 5 && AllDigits(t[..n])
    ensures n < 5 ==> !IsDigit(t[n])
  {
    var n := LeadingDigits(t[..5]);
    assert t[..5][..n] == t[..n];
    n
  }

  /**
   * The action for a trimmed line. A line that starts with a die face must
   * have at least six characters, and its first five characters must be
   * digits followed by nothing but white space; the key is the value of those
   * digits and the word is everything after the sixth character, which is
   * dropped whatever it is.
   */
  function ClassifyLine(t: string): (a: LineAction)
    ensures a.Skip? <==> !StartsWithDieFace(t)
    ensures a.Abort? <==> StartsWithDieFace(t) && (|t| < 6 || !AllWhite(t[KeyDigits(t)..5]))
    ensures a.Entry? ==> |t| >= 6 && a.word == t[6..]
    ensures a.Entry? ==> a.key == DecimalValue(t[..KeyDigits(t)]) && 1 <= a.key <= 69999
  {
    if !StartsWithDieFace(t) then Skip
    else if |t| < 5 then Abort
    else
      var field := t[..5];
      DigitFieldParse(field);
      assert field[..KeyDigits(t)] == t[..KeyDigits(t)];
      assert field[KeyDigits(t)..] == t[KeyDigits(t)..5];
      match ParseInt(field)
      case None => Abort
      case Some(key) =>
        if |t| < 6 then Abort
        else
          KeyBounds(t[..KeyDigits(t)]);
          Entry(key, t[6..])
  }

  /** A key field of one to five digits that starts with a die face holds 1..69999. */
  lemma KeyBounds(digits: string)
    requires 1 <= |digits| <= 5 && AllDigits(digits) && '1' <= digits[0] <= '6'
    ensures 1 <= DecimalValue(digits) <= 69999
  {
    DecimalLeadingDigit(digits);
    Pow10Monotone(|digits| - 1, 4);
    assert Pow10(4) == 10000 by {
      assert Pow10(1) == 10 && Pow10(2) == 100 && Pow10(3) == 1000;
    }
    LeadingDigitProducts(DigitValue(digits[0]), Pow10(|digits| - 1));
  }

  lemma LeadingDigitProducts(d: nat, p: nat)
    requires 1 <= d <= 6 && 1 <= p <= 10000
    ensures 1 <= d * p && (d + 1) * p <= 70000
  {
  }

  /** A line whose key field is five digits gets exactly that five-digit key. */
  lemma FiveDigitKey(t: string)
    requires |t| >= 6 && StartsWithDieFace(t) && AllDigits(t[..5])
    ensures ClassifyLine(t) == Entry(DecimalValue(t[..5]), t[6..])
  {
    assert KeyDigits(t) == 5;
  }

  /** The action for a line as read from the file, before trimming. */
  function ActionOf(line: string): LineAction {
    ClassifyLine(Trim(line))
  }

  /** `Dictionary.Add` guarded by `ContainsKey`: the first entry for a key wins. */
  function AddIfAbsent(m: map<int, string>, key: int, word: string): (r: map<int, string>)
    ensures r.Keys == m.Keys + {key}
    ensures forall k :: k in m ==> r[k] == m[k]
    ensures key !in m ==> r[key] == word
  {
    if key in m then m else m[key := word]
  }

  /** Whether the loop read every line, and the dictionary it left behind. */
  datatype ParseOutcome = ParseOutcome(completed: bool, entries: map<int, string>)

  /**
   * The line loop of `ParseWordList` started on dictionary `m`: lines are
   * processed in order, and the first line that aborts ends the parse with
   * the entries added so far left in place.
   */
  function ParseLines(m: map<int, string>, lines: seq<string>): ParseOutcome
    decreases |lines|
  {
    if lines == [] then ParseOutcome(true, m)
    else
      match ActionOf(lines[0])
      case Skip => ParseLines(m, lines[1..])
      case Abort => ParseOutcome(false, m)
      case Entry(key, word) => ParseLines(AddIfAbsent(m, key, word), lines[1..])
  }

  /** One turn of the line loop, at line `i`. */
  lemma ParseStep(m: map<int, string>, lines: seq<string>, i: nat)
    requires i < |lines|
    ensures ParseLines(m, lines[i..]) ==
      match ActionOf(lines[i])
      case Skip => ParseLines(m, lines[i + 1..])
      case Abort => ParseOutcome(false, m)
      case Entry(key, word) => ParseLines(AddIfAbsent(m, key, word), lines[i + 1..])
  {
    assert lines[i..][0] == lines[i] && lines[i..][1..] == lines[i + 1..];
  }

  /** The index of the first line that aborts the parse, or the number of lines. */
  function AbortIndex(lines: seq<string>): (n: nat)
    ensures n <= |lines|
    ensures forall i :: 0 <= i < n ==> !ActionOf(lines[i]).Abort?
    ensures n < |lines| ==> ActionOf(lines[n]).Abort?
    decreases |lines|
  {
    if lines == [] || ActionOf(lines[0]).Abort? then 0
    else
      var rest := lines[1..];
      var n := AbortIndex(rest);
      assert forall i :: 1 <= i <= n && i < |lines| ==> lines[i] == rest[i - 1];
      1 + n
  }

  /** Whether `line` is an entry for `key`. */
  predicate IsEntryFor(line: string, key: int) {
    ActionOf(line).Entry? && ActionOf(line).key == key
  }

  /** The parse reads every line exactly when no line aborts it. */
  lemma ParseCompletesIffNoAbort(m: map<int, string>, lines: seq<string>)
    ensures ParseLines(m, lines).completed <==> forall i :: 0 <= i < |lines| ==> !ActionOf(lines[i]).Abort?
  {
    ParseCompletesAtEnd(m, lines);
  }

  lemma {:induction false} ParseCompletesAtEnd(m: map<int, string>, lines: seq<string>)
    ensures ParseLines(m, lines).completed <==> AbortIndex(lines) == |lines|
    decreases |lines|
  {
    if lines != [] {
      match ActionOf(lines[0])
      case Skip => ParseCompletesAtEnd(m, lines[1..]);
      case Abort =>
      case Entry(key, word) => ParseCompletesAtEnd(AddIfAbsent(m, key, word), lines[1..]);
    }
  }

  /** An entry already in the dictionary is never removed or overwritten. */
  lemma {:induction false} ParseKeepsEntries(m: map<int, string>, lines: seq<string>)
    ensures forall k :: k in m ==> k in ParseLines(m, lines).entries && ParseLines(m, lines).entries[k] == m[k]
    decreases |lines|
  {
    if lines != [] {
      match ActionOf(lines[0])
      case Skip => ParseKeepsEntries(m, lines[1..]);
      case Abort =>
      case Entry(key, word) => ParseKeepsEntries(AddIfAbsent(m, key, word), lines[1..]);
    }
  }

  /**
   * Line `i` comes before the first abort, is an entry for `key` with `word`,
   * and no earlier line is an entry for `key`.
   */
  predicate FirstEntryAt(lines: seq<string>, i: int, key: int, word: string) {
    && 0 <= i < AbortIndex(lines)
    && ActionOf(lines[i]) == Entry(key, word)
    && forall j :: 0 <= j < i ==> !IsEntryFor(lines[j], key)
  }

  /**
   * Every entry the parse adds comes from a line before the first abort, and
   * from the first such line with that key.
   */
  lemma {:induction false} ParseAddsFirstEntries(m: map<int, string>, lines: seq<string>)
    ensures var r := ParseLines(m, lines).entries;
      forall k :: k in r && k !in m ==> exists i :: FirstEntryAt(lines, i, k, r[k])
    decreases |lines|
  {
    if lines != [] && !ActionOf(lines[0]).Abort? {
      var m' := Apply(m, ActionOf(lines[0]));
      var rest := lines[1..];
      assert ParseLines(m, lines) == ParseLines(m', rest);
      var r := ParseLines(m', rest).entries;
      ParseAddsFirstEntries(m', rest);
      ParseKeepsEntries(m', rest);
      forall k | k in r && k !in m
        ensures exists i :: FirstEntryAt(lines, i, k, r[k])
      {
        NewEntryFirst(m, lines, k, r[k]);
      }
    }
  }

  /** The dictionary after a line that does not abort. */
  function Apply(m: map<int, string>, a: LineAction): map<int, string> {
    match a
    case Entry(key, word) => AddIfAbsent(m, key, word)
    case _ => m
  }

  /** A new entry comes from the first line, or from the first entry for its key after it. */
  lemma NewEntryFirst(m: map<int, string>, lines: seq<string>, k: int, word: string)
    requires lines != [] && !ActionOf(lines[0]).Abort? && k !in m
    requires k in Apply(m, ActionOf(lines[0])) ==> word == Apply(m, ActionOf(lines[0]))[k]
    requires k !in Apply(m, ActionOf(lines[0])) ==> exists i :: FirstEntryAt(lines[1..], i, k, word)
    ensures exists i :: FirstEntryAt(lines, i, k, word)
  {
    if k in Apply(m, ActionOf(lines[0])) {
      assert FirstEntryAt(lines, 0, k, word);
    } else {
      var i :| FirstEntryAt(lines[1..], i, k, word);
      FirstEntryShift(lines, i, k, word);
    }
  }

  lemma FirstEntryShift(lines: seq<string>, i: int, key: int, word: string)
    requires lines != [] && !ActionOf(lines[0]).Abort? && !IsEntryFor(lines[0], key)
    requires FirstEntryAt(lines[1..], i, key, word)
    ensures FirstEntryAt(lines, i + 1, key, word)
  {
    assert lines[i + 1] == lines[1..][i];
    forall j | 0 <= j < i + 1 ensures !IsEntryFor(lines[j], key) {
      if j > 0 { assert lines[j] == lines[1..][j - 1]; }
    }
  }

  /** Every entry on a line before the first abort has its key in the result. */
  lemma {:induction false} ParseAddsEveryKey(m: map<int, string>, lines: seq<string>)
    ensures var r := ParseLines(m, lines).entries;
      forall i :: 0 <= i < AbortIndex(lines) && ActionOf(lines[i]).Entry? ==> ActionOf(lines[i]).key in r
    decreases |lines|
  {
    if lines != [] && !ActionOf(lines[0]).Abort? {
      var m' := Apply(m, ActionOf(lines[0]));
      var rest := lines[1..];
      assert ParseLines(m, lines) == ParseLines(m', rest);
      ParseAddsEveryKey(m', rest);
      ParseKeepsEntries(m', rest);
      forall i | 1 <= i < AbortIndex(lines) ensures lines[i] == rest[i - 1] { }
    }
  }

  /**
   * Parsing `a + b` is parsing `a`, then, if that read every line, parsing
   * `b` from the dictionary it left behind.
   */
  lemma {:induction false} ParseAppend(m: map<int, string>, a: seq<string>, b: seq<string>)
    ensures ParseLines(m, a + b) ==
      if ParseLines(m, a).completed then ParseLines(ParseLines(m, a).entries, b)
      else ParseLines(m, a)
    decreases |a|
  {
    if a == [] {
      assert a + b == b;
    } else {
      assert (a + b)[0] == a[0] && (a + b)[1..] == a[1..] + b;
      match ActionOf(a[0])
      case Skip => ParseAppend(m, a[1..], b);
      case Abort =>
      case Entry(key, word) => ParseAppend(AddIfAbsent(m, key, word), a[1..], b);
    }
  }

  /** Two lines with the same key: the dictionary keeps the first word. */
  lemma DuplicateKeyKeepsFirst()
    ensures ParseLines(map[], ["11111\tabacus", "11111\tother"]) ==
      ParseOutcome(true, map[11111 := "abacus"])
  {
    var lines := ["11111\tabacus", "11111\tother"];
    CodeLine("11111\tabacus", 11111, "abacus");
    CodeLine("11111\tother", 11111, "other");
    assert lines[1..] == ["11111\tother"];
    assert ParseLines(map[], lines) == ParseLines(map[11111 := "abacus"], ["11111\tother"]);
  }

  /** The action for a line of the canonical form: the code 11111, a tab and a word. */
  lemma CodeLine(l: string, key: int, word: string)
    requires key == 11111 && |l| >= 6 && l[..6] == "11111\t" && l[6..] == word
    requires word != [] && !IsWhite(word[|word| - 1])
    ensures ActionOf(l) == Entry(key, word)
  {
    assert l[0] == '1' && l[1] == '1' && l[2] == '1' && l[3] == '1' && l[4] == '1' by {
      assert l[..6][0] == '1' && l[..6][1] == '1' && l[..6][2] == '1' && l[..6][3] == '1' && l[..6][4] == '1';
    }
    Eleven111(l[..5]);
    assert l[|l| - 1] == word[|word| - 1];
    TrimOfTrimmed(l);
    FiveDigitKey(l);
  }

  lemma Eleven111(s: string)
    requires |s| == 5 && forall i :: 0 <= i < 5 ==> s[i] == '1'
    ensures AllDigits(s) && DecimalValue(s) == 11111
  {
    assert DecimalValue(s[..1]) == 1;
    assert s[..2][..1] == s[..1];
    assert DecimalValue(s[..2]) == 11;
    assert s[..3][..2] == s[..2];
    assert DecimalValue(s[..3]) == 111;
    assert s[..4][..3] == s[..3];
    assert DecimalValue(s[..4]) == 1111;
    assert s[..4] == s[..|s| - 1];
  }

  /** A banner line of the signed word list is skipped without error. */
  lemma BannerLineSkipped(m: map<int, string>)
    ensures ParseLines(m, ["-----BEGIN PGP SIGNATURE-----"]) == ParseOutcome(true, m)
  {
    var l := "-----BEGIN PGP SIGNATURE-----";
    assert l[0] == '-' && l[|l| - 1] == '-';
    TrimOfTrimmed(l);
    assert ActionOf(l) == Skip;
    assert [l][1..] == [];
  }

  /**
   * A line of just a five-digit code, maybe followed by white space, aborts
   * the parse: `Substring(6)` throws on the trimmed line, and the dictionary
   * is left as it was before that line.
   */
  lemma BareCodeAborts(m: map<int, string>, l: string, rest: seq<string>)
    requires |l| >= 5 && AllDigits(l[..5]) && '1' <= l[0] <= '6' && AllWhite(l[5..])
    ensures ActionOf(l) == Abort
    ensures ParseLines(m, [l] + rest) == ParseOutcome(false, m)
  {
    assert l == [] + l[..5] + l[5..];
    assert IsDigit(l[..5][4]) && IsDigit(l[..5][0]);
    TrimPadded([], l[..5], l[5..]);
    assert ([l] + rest)[0] == l;
  }
}
