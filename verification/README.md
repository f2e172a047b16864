# Diceware passphrase generator, modelled in Dafny

`DicewarePasswordGen` is a console program that turns the Diceware word list
into a passphrase. It has two core steps:

1. `ParseWordList` reads the list file line by line into a static dictionary
   from integer keys to words. A line whose trimmed text starts with `1`..`6`
   gives the key that `int.Parse` reads from its first five characters. That
   key lies in `1`..`69999`: a dice code such as `11111` on the canonical word
   list, but also a shorter one such as `1` for a line `1    word`.
2. `GeneratePassphrase(length)` rolls five dice `length` times, reads each
   roll as a code, and drops repeated codes. It then writes out the
   dictionary word of each remaining code.

The model keeps that structure:

- `Diceware.Program` is a class. Its field `wordList` is the static
  dictionary (a `map<int, string>`).
- `ParseWordList` and `GeneratePassphrase` are methods with the loops of the
  original. Each is proved equal to a specification function:
  - `WordList.ParseLines` for the line loop;
  - `Passphrase.Generate` for the draw and render loops.
- Lemmas state what those functions promise.

### The models

- **Reading the list.** The line model is `WordList.ClassifyLine` applied to
  the trimmed line:
  - a blank line is skipped;
  - so is a line whose first character is not a die face `1`..`6`;
  - any other line either gives an entry or throws.
- **Throwing.** A line throws when `Substring(0, 5)` or `Substring(6)` is out
  of range, or when `int.Parse` rejects the five-character key field. A throw
  ends the parse with `false`, and the entries added before it stay in the
  dictionary. The first entry for a key wins.
- **Dice rolls.** The dice values are an input to the model, one roll of five
  values in `1..6` per draw.
- **Codes.** `int.Parse(sb.ToString())` of a roll is proved to give the roll
  read as a decimal number.
- **Repeated codes.** A repeated code is dropped, keeping the order of first
  draw. The passphrase then has fewer words than `length`.
- **Missing words.** `wordList[code]` throws when a code has no word. The
  model returns `Failure(code)`, naming the first such code.

### Behaviour of the code

The model follows what the code does:

- A `length` below six returns the empty string, not an error.
- `Main` asks for eight words (`passphraseLength`). The method's own default
  argument, six, is never used.
- The key and the word may be separated by any character. The sixth character
  is dropped whatever it is.
- Every word is followed by a space, except the sixth, which is followed by
  `Environment.NewLine` (`"\r\n"`). The result ends with the line break when
  exactly six codes are accepted, and with a space otherwise
  (`Passphrase.LayoutEnding`).
- `outPassphrase.Replace(Environment.NewLine, " ")` discards its result, so
  the line break stays in the passphrase.
- When every word is nonempty and free of white space, as on the canonical
  list, the words can be read back from a passphrase by splitting at white
  space (`Passphrase.LayoutTokens`). Splitting at single spaces would not
  work, because of the line break and the final separator. The parser does
  not enforce that condition: the trimmed line `11111x` stores the empty word,
  and `11111\ta b` stores `a b`.

Strings are `seq<char>`. Integers are unbounded, and the 32-bit range of C#'s
`int` is written out where `int.Parse` checks it.

## Model

| member | source | states |
|---|---|---|
| Diceware.Program.constructor | Program.cs:19 | the word dictionary starts empty |
| Diceware.Program.ParseWordList | Program.cs:41-95 | a missing file gives false and leaves the dictionary alone; otherwise the verdict and the new dictionary are exactly what `ParseLines` gives for the lines, starting from the old dictionary |
| Diceware.Program.GeneratePassphrase | Program.cs:97-148 | the result is `Generate(length, rolls, wordList)`; a length below six gives the empty string; a failure names an accepted code with no word in the dictionary |
| Text.Trim | Program.cs:63 | the result has no white space at either end; it is empty exactly when the line is all white space; it is the line with its leading and trailing white space removed, character by character |
| Text.TrimPadded | Program.cs:63 | trimming a trimmed text padded with white space on both sides gives back that text |
| Text.TrimOfTrimmed | Program.cs:63 | trimming a text with no white space at either end changes nothing |
| Text.TrimIdempotent | Program.cs:63 | trimming twice is trimming once |
| Numbers.ToDecimal | Program.cs:124-125 | the decimal text of a natural number is nonempty, all digits, reads back as that number, and has no leading zero |
| Numbers.IntToString | Program.cs:124-125 | `int.ToString()` gives nonempty text with no surrounding white space; `ParseIntToString` states that `int.Parse` reads it back as the same value |
| Numbers.ParseInt | Program.cs:76 | `int.Parse` gives only values in the 32-bit range; its value is pinned down by `ParseIntToString` (the text of any `int`) and `DigitFieldParse` (the five-character key field) |
| Numbers.ParseIntToString | Program.cs:124-129 | `int.Parse` reads back every 32-bit value that `int.ToString()` writes |
| Numbers.DigitFieldParse | Program.cs:76 | a key field of at most five characters starting with a digit parses exactly when its leading digits are followed only by white space, and then to the value of those digits |
| Numbers.LeadingDigits | Program.cs:76 | counts the digits a text starts with: all of them are digits and the next character is not |
| WordList.KeyDigits | Program.cs:76 | the key field opens with at most five digits, and when there are fewer than five, the character after them is not a digit |
| WordList.ClassifyLine | Program.cs:64-77 | a line is skipped exactly when it does not start with `1`..`6`; it throws exactly when it starts with `1`..`6` and is shorter than six characters or its key field is not digits followed by white space; an entry's word is everything after the sixth character and its key is the value of the key digits, between 1 and 69999 |
| WordList.KeyBounds | Program.cs:70-76 | a key field of one to five digits that starts with `1`..`6` holds a value between 1 and 69999 |
| WordList.StartsWithDieFace | Program.cs:70-71 | the only validity test of a line: its trimmed text starts with one of the characters `1`..`6`; `ClassifyLine` states that exactly the lines failing it are skipped |
| WordList.FiveDigitKey | Program.cs:76-77 | a line that starts with five digits, the first in `1`..`6`, gives the key of those five digits and the word after the sixth character |
| WordList.AddIfAbsent | Program.cs:80-83 | adding to the dictionary adds the key, keeps every existing word, and stores the new word only when the key was absent |
| WordList.ActionOf | Program.cs:63-77 | what the loop does with one line as read from the file: `ClassifyLine` of the trimmed line; `ClassifyLine` and `DigitFieldParse` state its cases |
| WordList.ParseLines | Program.cs:55-92 | the line loop from a given dictionary: lines in order, a skipped line changes nothing, an entry is added if its key is absent, and the first throwing line ends the parse with false; `ParseCompletesIffNoAbort`, `ParseKeepsEntries`, `ParseAddsFirstEntries`, `ParseAddsEveryKey` and `ParseAppend` state its result |
| WordList.AbortIndex | Program.cs:88-92 | the first line that throws: no earlier line throws, and that line does |
| WordList.ParseCompletesIffNoAbort | Program.cs:55-94 | the parse returns true exactly when no line throws |
| WordList.ParseCompletesAtEnd | Program.cs:55-94 | the parse returns true exactly when the first throwing line is past the end |
| WordList.ParseKeepsEntries | Program.cs:80-83 | an entry already in the dictionary is never removed or replaced |
| WordList.ParseAddsFirstEntries | Program.cs:76-83 | every new entry comes from a line before the first throwing line, and it is the first such line with that key |
| WordList.ParseAddsEveryKey | Program.cs:76-83 | every entry line before the first throwing line has its key in the dictionary afterwards |
| WordList.ParseAppend | Program.cs:55-84 | parsing two blocks of lines is parsing the first block, then, if it completed, the second block from the dictionary it left |
| WordList.DuplicateKeyKeepsFirst | Program.cs:80-83 | two lines with the key 11111 leave the word of the first line |
| WordList.BannerLineSkipped | Program.cs:70-74 | a PGP banner line is skipped without error |
| WordList.BareCodeAborts | Program.cs:76-92 | a line that holds only a five-digit code, maybe followed by white space, throws in `Substring(6)`, and a parse reaching it returns false with the dictionary as it was before that line |
| Passphrase.RollTextDigits | Program.cs:124-127 | the text built from single-digit values is their digits, one per value, and worth the code of the values |
| Passphrase.RollText | Program.cs:124-125 | the text `sb.Append(value)` builds from the values of a roll; `RollTextDigits` and `RollTextParses` state what it holds and what `int.Parse` reads from it |
| Passphrase.DrawCode | Program.cs:118-129 | the values of a roll read as decimal digits, most significant first; `DrawCodeOfRoll`, `DrawCodeRange`, `DrawCodeDigits` and `DrawCodeInjective` state its value |
| Passphrase.RollTextParses | Program.cs:124-129 | parsing the text of a roll gives the roll's code |
| Passphrase.DrawCodeOfRoll | Program.cs:118-129 | the code of a roll is its five values as decimal digits, most significant first |
| Passphrase.DrawCodeRange | Program.cs:119-122 | every code lies between 11111 and 66666 |
| Passphrase.DrawCodeDigits | Program.cs:118-129 | the k-th decimal digit of a code is the value k places from the end of the roll |
| Passphrase.DrawCodeInjective | Program.cs:118-129 | two rolls with the same code are the same roll |
| Passphrase.Codes | Program.cs:118-129 | for every roll of five dice, the code is the value `int.Parse` reads from the appended dice values, and it lies in 11111..66666 |
| Passphrase.IndexOf | Program.cs:139 | `List.IndexOf`: -1 exactly when the value is absent, otherwise the position of its first occurrence |
| Passphrase.IndexOfDistinct | Program.cs:137-139 | in a list without repeats the position of each element is its own index |
| Passphrase.Dedup | Program.cs:131-132 | the `Contains`/`Add` filter over the drawn codes: a code is appended only when not yet present; `DedupSameElements`, `DedupNoDuplicates`, `DedupSize`, `DedupFirstOccurrenceOrder` and `DedupOfDistinct` state its result |
| Passphrase.Accepted | Program.cs:108-134 | the codes left in `generatedNumbers` after the draw loop; `AcceptedCodes` states their number, distinctness, range and order |
| Passphrase.Lookup | Program.cs:140-142 | `wordList[generatedNum]` for each accepted code in order, stopping at the first missing key; `LookupSucceeds`, `LookupFailsAtFirstMissing` and `LookupPrefixFailure` state its result |
| Passphrase.DedupSameElements | Program.cs:108-132 | the kept codes are exactly the drawn codes |
| Passphrase.DedupNoDuplicates | Program.cs:131-132 | the kept codes have no repeats |
| Passphrase.DedupSize | Program.cs:103-132 | there are at most as many kept codes as draws, and at least one when something was drawn |
| Passphrase.DedupFirstOccurrenceOrder | Program.cs:108-132 | the kept codes are in the order of their first draw |
| Passphrase.DedupOfDistinct | Program.cs:131-132 | draws without repeats are all kept, in order |
| Passphrase.LookupSucceeds | Program.cs:137-143 | the lookup succeeds exactly when every code has a word, giving the words of the codes in order |
| Passphrase.LookupFailsAtFirstMissing | Program.cs:140-142 | a failing lookup names the first code with no word |
| Passphrase.LookupPrefixFailure | Program.cs:137-143 | once a code is missing, later codes do not change the failure |
| Passphrase.Separator | Program.cs:139-142 | every word is followed by nonempty white space |
| Passphrase.Layout | Program.cs:136-143 | the `StringBuilder` text: each word followed by its separator; `LayoutOfEight`, `LayoutEnding` and `LayoutTokens` state its shape and that the words read back |
| Passphrase.LayoutOfEight | Program.cs:136-147 | eight words, the length the program asks for, are laid out with a space after each, except a line break after the sixth |
| Passphrase.LayoutEnding | Program.cs:139-142 | a passphrase of exactly six words ends with the line break, any other nonempty passphrase with a space |
| Passphrase.LayoutTokens | Program.cs:136-147 | when every word is nonempty and free of white space, splitting a passphrase at white space gives back its words, in order |
| Passphrase.LayoutEndsWithWhite | Program.cs:139-142 | a passphrase is empty or ends with white space |
| Passphrase.AcceptedCodes | Program.cs:103-134 | the accepted codes number between one and `length`, have no repeats, are exactly the drawn codes, lie in 11111..66666, and are in order of first draw |
| Passphrase.Generate | Program.cs:97-148 | the whole of `GeneratePassphrase` given its draws and dictionary: the empty string below six, otherwise the layout of the words of the accepted codes, or a failure at a missing code; `GenerateOutcome` and `AcceptedCodes` state its result |
| Passphrase.GenerateOutcome | Program.cs:97-147 | generation fails exactly when some accepted code has no word, naming such a code; otherwise it lays out the words of the accepted codes in order |
| Passphrase.DistinctDrawsKeepEveryCode | Program.cs:131-132 | when no code repeats, every drawn code is kept, in draw order |

## Left out

- `DownloadWordList` is not modelled: it is network access.
- `Main`, `AskToExitIfInteractive`, the console and the clipboard are not modelled: they are user interface.
- Reading the file is not modelled. The file is given as its lines, already split by `StreamReader.ReadLine`, and `File.Exists` is a boolean input. An exception from opening the stream is not modelled.
- The `currentLine == null` break is not modelled: `ReadLine` does not return null while `EndOfStream` is false.
- The error text stored in `throwError` is not modelled. Only the `false` verdict is.
- The `startingIndexes` array is not modelled: it is never read.
- The random number generators (`RNGCryptoServiceProvider` seeding `Random`) are not modelled. The values of `Random.Next(1, 7)` are the `rolls` input, and `GeneratePassphrase` requires one roll of five values in `1..6` per draw.
- The uncaught `KeyNotFoundException` of the dictionary lookup is not modelled as an exception. It is the `Failure` result, carrying the missing code.
- Text.Trim: treats only space and U+0009..U+000D as white space, while `String.Trim` also strips the other Unicode white-space characters (such as U+00A0 and U+2028).
- WordList.StartsWithDieFace: compares the first character ordinally, while `StartsWith(string)` is culture-sensitive and can ignore characters that have no weight under culture-sensitive comparison.
- WordList.ClassifyLine: indexes a line by Unicode scalar values, while `Substring(0, 5)` and `Substring(6)` count UTF-16 code units. A character outside the Basic Multilingual Plane at index 5, where the separator sits, therefore cuts the word at a different place. At other positions the two agree. For example, for the trimmed line `12345` followed by U+1F600 and `w`, the code stores the word `\uDE00w` (the second half of the surrogate pair, then `w`) and the model stores `w`. `Diceware.Program.ParseWordList` inherits this, being proved equal to the line model.
- Numbers.ParseInt: accepts the default integer style under the invariant culture. Trailing NUL characters, which `int.Parse` also allows, and culture-specific signs are not modelled.
