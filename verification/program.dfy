/**
 * The program's state and its two core operations: `ParseWordList` fills the
 * static word dictionary line by line, and `GeneratePassphrase` turns dice
 * draws into a passphrase through that dictionary.
 */
module Diceware {
  import opened Wrappers
  import opened Text
  import opened Numbers
  import opened WordList
  import opened Passphrase

  class Program {
    /** The static `wordList` dictionary: dice code to word. */
    var wordList: map<int, string>

    /** The static initialiser leaves the dictionary empty. */
    constructor ()
      ensures wordList == map[]
    {
      wordList := map[];
    }

    /**
     * `ParseWordList` over the lines of the word-list file; `fileExists` is
     * the `File.Exists` test. The result is false when the file is missing or
     * when some line throws; the entries added before that line stay.
     */
    method ParseWordList(fileExists: bool, lines: seq<string>) returns (ok: bool)
      modifies this
      ensures !fileExists ==> !ok && wordList == old(wordList)
      ensures fileExists ==> ParseOutcome(ok, wordList) == ParseLines(old(wordList), lines)
    {
      if !fileExists {
        return false;
      }
      var i := 0;
      while i < |lines|
        invariant 0 <= i <= |lines|
        invariant ParseLines(old(wordList), lines) == ParseLines(wordList, lines[i..])
      {
        ParseStep(wordList, lines, i);
        var trimmedLine := Trim(lines[i]);
        if trimmedLine == [] {
          i := i + 1;
          continue;
        }
        if !('1' <= trimmedLine[0] <= '6') {
          i := i + 1;
          continue;
        }
        if |trimmedLine| < 5 {
          // Substring(0, 5) throws
          return false;
        }
        var parsedKey := ParseInt(trimmedLine[..5]);
        if parsedKey.None? {
          // int.Parse throws
          return false;
        }
        if |trimmedLine| < 6 {
          // Substring(6) throws
          return false;
        }
        var currentKey, currentValue := parsedKey.value, trimmedLine[6..];
        if currentKey !in wordList {
          wordList := wordList[currentKey := currentValue];
        }
        i := i + 1;
      }
      return true;
    }

    /**
     * `GeneratePassphrase(length)`, with the dice values it draws given as
     * `rolls`: one roll of five values per draw. A failure carries the
     * accepted code whose dictionary lookup throws.
     */
    method GeneratePassphrase(length: int, rolls: seq<seq<int>>) returns (passphrase: Result<string, int>)
      requires length >= MinLength ==> AreRolls(rolls, length)
      ensures passphrase == Generate(length, rolls, wordList)
      ensures length < MinLength ==> passphrase == Success("")
      ensures passphrase.Failure? ==> passphrase.error !in wordList && passphrase.error in Accepted(rolls)
    {
      if length < MinLength {
        return Success("");
      }
      ghost var codes := Codes(rolls);
      var generatedNumbers: seq<int> := [];
      for i := 0 to length
        invariant generatedNumbers == Dedup(codes[..i])
      {
        var results := new int[5];
        for j := 0 to results.Length
          invariant results[..j] == rolls[i][..j]
        {
          results[j] := rolls[i][j];
        }
        var outStr := "";
        for k := 0 to results.Length
          invariant outStr == RollText(results[..k])
        {
          assert results[..k + 1][..k] == results[..k];
          outStr := outStr + IntToString(results[k]);
        }
        assert ParseInt(outStr) == Some(codes[i]) by {
          assert results[..5] == rolls[i];
          RollTextParses(rolls[i]);
        }
        var generatedVal := ParseInt(outStr).value;
        DedupStep(codes, i);
        if generatedVal !in generatedNumbers {
          generatedNumbers := generatedNumbers + [generatedVal];
        }
      }
      assert codes[..length] == codes;
      DedupNoDuplicates(codes);

      var sb := "";
      ghost var words: seq<string> := [];
      for n := 0 to |generatedNumbers|
        invariant Lookup(generatedNumbers[..n], wordList) == Success(words)
        invariant |words| == n && sb == Layout(words)
      {
        var generatedNum := generatedNumbers[n];
        LookupStep(generatedNumbers, n, wordList);
        if generatedNum !in wordList {
          // wordList[generatedNum] throws KeyNotFoundException
          LookupPrefixFailure(generatedNumbers, n + 1, wordList);
          DedupSameElements(codes);
          return Failure(generatedNum);
        }
        IndexOfDistinct(generatedNumbers, n);
        var word := wordList[generatedNum];
        if IndexOf(generatedNumbers, generatedNum) != BreakIndex {
          sb := sb + word + " ";
        } else {
          sb := sb + word + NewLine;
        }
        LayoutAppend(words, word);
        words := words + [word];
      }
      assert generatedNumbers[..|generatedNumbers|] == generatedNumbers;
      // The `Replace` of line breaks by spaces discards its result: `sb` is returned as built.
      return Success(sb);
    }
  }
}
