# Voice-controlled robot car: spelled numbers and command classification

This project models the language core of a small voice-controlled robot car
written in C. An external speech decoder produces a recognized hypothesis,
which is a plain string. The core does two things with it:

- **Spelled numbers** (`numbers.c`; `voice_recognition.c:29-101` holds an
  identical copy, modelled once). Four static tables map words to values:
  units `zero`..`nine`, teens `ten`..`nineteen`, tens `twenty`..`ninety`,
  and the magnitudes `hundred`, `thousand` and `million`.
  - `word_to_number` scans units, then teens, then tens, and returns -1 when
    none of them holds the word.
  - `magnitude_value` scans the magnitudes.
  - `convert_number_words_to_int` copies its input and splits it on runs of
    spaces and hyphens, as `strtok_r` does. It lowercases each token in
    place.
    - A number word is added to the current group.
    - `hundred` multiplies the group.
    - Any other magnitude multiplies the group, adds it to the result and
      resets the group.
    - An unknown word makes the whole conversion -1.
- **Commands** (`voice_recognition.c`). There are five synonym lists
  (forward, backward, left, right, stop). `matches_command` is an exact,
  case-sensitive membership test on the whole hypothesis. `execute_command`
  picks the first list that matches. On the Raspberry Pi build it drives
  four GPIO pins (17, 27, 22, 23) to the pattern of that command.

Module layout:

- `wrappers.dfy`: `Option`.
- `numbers.dfy` (`NumberWords`):
  - the tables and the lookups;
  - ASCII lowercasing;
  - the `strtok_r` tokenizer as the function `Tokens`;
  - the conversion as a specification function, `Run` over `Tokens`;
  - the imperative converter `ConvertNumberWordsToInt`. It works over a
    fresh `array<char>` copy of the input, scans for token ends, lowercases
    in place and is proved equal to the specification.
- `voice_commands.dfy` (`VoiceCommands`): the synonym lists, `MatchesCommand`,
  classification and the pin patterns.
- `number_examples.dfy` (`NumberExamples`): concrete and any-case phrases and
  what they convert to.

Behaviour the code does not have, and the model therefore does not have
either:

- There is no duration parser: no phrase is read as a number of seconds.
- "and" is not skipped between number words. It is an unknown word, so the
  whole conversion is -1.
- There is no magnitude-ordering check. "twenty thirty" converts to 50, and
  "one two" converts to 3.
- There is no wake-phrase matcher, no scheduled-command queue and no
  deactivate command.
- The forward list holds "move", "go", "ahead" and "forward".

## Model

| member | source | states |
|---|---|---|
| NumberWords.Lookup | numbers.c:24-32 | Defines one table scan, as each loop of word_to_number and magnitude_value does: the value of the first row whose word is equal, else -1. Its meaning is stated by LookupSpec and LookupFirstMatch. |
| NumberWords.LookupSpec | numbers.c:23-41 | A table scan that finds a word returns the value of an entry carrying that word. A word in no entry gives -1. |
| NumberWords.LookupFirstMatch | numbers.c:24-26 | A scan returns the value of the first entry whose word matches. |
| NumberWords.TableValues | numbers.c:3-17 | Units hold 0..9 and teens hold 10..19. Tens hold multiples of ten from 20 to 90. |
| NumberWords.WordToNumber | numbers.c:23-34 | A found value is 0..19, or a multiple of ten in 20..90. |
| NumberWords.WordToNumberSpec | numbers.c:23-34 | A found value is the value of a row of the units, teens or tens table carrying the word. A word in none of them gives -1. Since the tables are disjoint (TablesDisjoint), the order of the scans does not matter. |
| NumberWords.TablesDistinct | numbers.c:3-17 | No word appears twice in a table. |
| NumberWords.TablesDisjoint | numbers.c:3-17 | No word appears in two of the number tables, so the order of the scans never matters. |
| NumberWords.WordToNumberOnTables | numbers.c:3-34 | Every table word maps to its own value. |
| NumberWords.MagnitudeValue | numbers.c:36-41 | The result is -1, 100, 1000 or 1000000. |
| NumberWords.MagnitudeValueSpec | numbers.c:18-41 | "hundred" gives 100, "thousand" 1000 and "million" 1000000. Every other word gives -1. |
| NumberWords.LookupsDisjoint | numbers.c:18-41 | No word is both a number word and a magnitude. |
| NumberWords.MagnitudeWordIsNotNumber | numbers.c:18-34 | word_to_number gives -1 for each magnitude word. |
| NumberWords.ToLower | numbers.c:50 | Upper-case ASCII letters map to the matching lower-case letter. Every other character is unchanged. |
| NumberWords.LowerString | numbers.c:50 | The lowered string has the same length and holds no upper-case ASCII letter. |
| NumberWords.Split | numbers.c:49 | Defines the strtok_r loop on " -": maximal runs of non-delimiters, left to right, skipping empty runs. SplitWellFormed and SplitCovers state what it yields. |
| NumberWords.Tokens | numbers.c:49 | Defines the tokens of a whole input as Split with no pending token. TokensWellFormed and TokensCoverInput state what they are. |
| NumberWords.SplitWellFormed | numbers.c:49 | From a delimiter-free pending token, every token produced is non-empty and holds no space or hyphen. |
| NumberWords.TokensWellFormed | numbers.c:49 | Every token of an input is non-empty and holds no space or hyphen. |
| NumberWords.SplitCovers | numbers.c:49 | The tokens, concatenated, are the pending token followed by the input with its delimiters removed. |
| NumberWords.TokensCoverInput | numbers.c:49 | The tokens, concatenated, are the input with its delimiters removed, so no non-delimiter character is lost or reordered. |
| NumberWords.TokensSkipDelimiter | numbers.c:49 | A leading delimiter is skipped. |
| NumberWords.TokensFirstWord | numbers.c:49 | A maximal leading run of non-delimiters is the first token. |
| NumberWords.TokensSkipAt | numbers.c:49 | A delimiter at the scan position is skipped. |
| NumberWords.TokensWordAt | numbers.c:49 | A maximal run starting at the scan position is the next token. |
| NumberWords.TokensSkipRun | numbers.c:49 | Any run of spaces and hyphens separates tokens the same way a single one does. |
| NumberWords.TokensOneWord | numbers.c:49 | A single word is one token. |
| NumberWords.TokensTwoWords | numbers.c:49 | Two words separated by any run of delimiters are exactly two tokens. |
| NumberWords.TokensJoinWords | numbers.c:49 | Tokenizing words joined by single spaces gives the same words back. |
| NumberWords.TokensNone | numbers.c:49 | An input made only of delimiters has no tokens. |
| NumberWords.Run | numbers.c:49-73 | The accumulator over the tokens. From a non-negative state, a result other than -1 is at least the running result plus the open group. |
| NumberWords.Convert | numbers.c:43-76 | What convert_number_words_to_int returns: -1 or a non-negative value. |
| NumberWords.RunUnknownIff | numbers.c:49-73 | Over tokens, from a non-negative state, the conversion is -1 exactly when some lowercased token is neither a number word nor a magnitude. |
| NumberWords.ConvertUnknownIff | numbers.c:43-76 | convert_number_words_to_int returns -1 exactly when some token is unknown. |
| NumberWords.ConvertNoTokens | numbers.c:46-75 | An input with no tokens converts to 0. |
| NumberWords.LowerKeepsDelimiters | numbers.c:50 | Lowercasing keeps the length and never creates or removes a delimiter. |
| NumberWords.ConvertTwoNumberWords | numbers.c:52-55 | Two number words, in any order, convert to the sum of their values. |
| NumberWords.KnownWordIsWord | numbers.c:3-21 | A word whose lowercase form is in a table is a single token. |
| NumberWords.NumberWordIsWord | numbers.c:3-17 | Every number word is a single token. |
| NumberWords.MagnitudeWordIsWord | numbers.c:18-21 | Every magnitude word is a single token. |
| NumberWords.ConvertMagnitudeAlone | numbers.c:46-65 | A magnitude word alone converts to 0, because the group it multiplies is 0. |
| NumberWords.LowerIdempotent | numbers.c:50 | Lowercasing twice is the same as lowercasing once. |
| NumberWords.SplitLower | numbers.c:49-50 | Lowercasing before splitting gives the same tokens as lowercasing each token. |
| NumberWords.TokensLower | numbers.c:49-50 | The tokens of the lowercased input are the lowercased tokens. |
| NumberWords.RunLowerAll | numbers.c:50-70 | Lowercasing the tokens first does not change the conversion. |
| NumberWords.ConvertIgnoresCase | numbers.c:49-52 | The conversion is case-insensitive on ASCII letters. |
| NumberWords.RunSumsNumberWords | numbers.c:52-55 | A sequence made only of number words adds all their values, with no ordering check. |
| NumberWords.RunNumberWord | numbers.c:52-55 | A number word adds its value to the open group. |
| NumberWords.RunUnknownWord | numbers.c:66-70 | An unknown word ends the conversion with -1, whatever follows it. |
| NumberWords.RunHundred | numbers.c:59-60 | "hundred" multiplies the open group by 100 and keeps it open. |
| NumberWords.RunFlush | numbers.c:61-65 | "thousand" or "million" multiplies the open group and adds it to the result. It then resets the group to 0. |
| NumberWords.TokenEnd | numbers.c:49 | Scanning from a non-delimiter stops at the first delimiter or at the end of the buffer. |
| NumberWords.LowerInPlace | numbers.c:50 | The token's characters in the buffer are replaced by their lowercase forms. Nothing else in the buffer changes. |
| NumberWords.ConvertNumberWordsToInt | numbers.c:43-76 | The array-based converter returns the specification's value. It returns -1 exactly when some token is unknown, and otherwise a non-negative value. |
| VoiceCommands.Synonyms | voice_recognition.c:18-22 | Maps each command to its synonym list. Each list is non-empty and lists no phrase twice. |
| VoiceCommands.MatchesCommand | voice_recognition.c:103-110 | Returns true exactly when one of the first `size` list entries equals the hypothesis. |
| VoiceCommands.SynonymListsDisjoint | voice_recognition.c:18-22 | No phrase is in two synonym lists. |
| VoiceCommands.Classify | voice_recognition.c:148-160 | A hypothesis gives command c exactly when it is in c's synonym list. It gives none exactly when it is in no list. |
| VoiceCommands.PinPattern | voice_recognition.c:11-14 | Each command writes four pins, in the order front-left 17, front-right 27, back-left 22, back-right 23. |
| VoiceCommands.ExecuteCommand | voice_recognition.c:112-146 | An unrecognized hypothesis writes no pin. A recognized one writes exactly its command's pin pattern. |
| VoiceCommands.StopAllLow | voice_recognition.c:138-143 | Stop drives every pin low. |
| VoiceCommands.OppositePatterns | voice_recognition.c:114-137 | Backward is forward with every level flipped. Right is left with every level flipped. |
| VoiceCommands.PatternsDistinct | voice_recognition.c:114-143 | Different commands drive different pin patterns. |
| VoiceCommands.WholeHypothesisRecognised | voice_recognition.c:18-20 | The whole hypotheses "turn left" and "go" are recognized as left and forward. |
| VoiceCommands.PhrasesNotRecognised | voice_recognition.c:103-110 | Matching is exact and case-sensitive on the whole hypothesis: "move forward" and "Stop" are not recognized. |
| NumberExamples.Values | numbers.c:4-15 | Sample words map to their table values. |
| NumberExamples.HundredThenThousand | numbers.c:52-73 | For "a hundred b c thousand d", the result is ((a*100+b+c)*1000)+d. |
| NumberExamples.GroupsExample | numbers.c:52-73 | "one hundred twenty three thousand four", in any case, is 123004 over tokens. |
| NumberExamples.GroupsAreWords | numbers.c:3-21 | Each of those six words, in any case, is a single token. |
| NumberExamples.GroupsPhrase | numbers.c:43-76 | The six words, in any case and joined by spaces, convert to 123004. |
| NumberExamples.TwentyOne | numbers.c:43-76 | "twenty" and "one", in any case and with any run of spaces or hyphens between them, convert to 21. |
| NumberExamples.TwentyOneSpellings | numbers.c:43-76 | "Twenty-One", "twenty one" and "twenty  one" all convert to 21. |
| NumberExamples.OneTwo | numbers.c:52-55 | "one two" converts to 3: there is no ordering check. |
| NumberExamples.TwentyThirty | numbers.c:52-55 | "twenty thirty" converts to 50: there is no ordering check. |
| NumberExamples.NoOrderingCheck | numbers.c:52-55 | "one two" is 3 and "twenty thirty" is 50. |
| NumberExamples.ZeroResults | numbers.c:46-75 | "thousand", the empty input and " - " all convert to 0. |
| NumberExamples.AndIsUnknown | numbers.c:23-41 | "and" is neither a number word nor a magnitude. |
| NumberExamples.HundredThenFlush | numbers.c:52-73 | For "a hundred m", with m thousand or million, the result is a * 100 * m. |
| NumberExamples.ThirtyHundredMillion | numbers.c:52-73 | The tokens "thirty hundred million", in any case, give (30 * 100) * 1000000 = 3000000000. |
| NumberExamples.ThirtyHundredMillionWords | numbers.c:3-21 | Each of those three words, in any case, is a single token. |
| NumberExamples.BeyondIntRange | numbers.c:52-73 | "thirty hundred million", in any case and joined by spaces, converts to 3000000000, past the range of a 32-bit int. |
| NumberExamples.AndRejected | numbers.c:43-76 | Any phrase with "and" among its tokens, in any case, converts to -1. |

## Left out

- C `int` overflow: values are unbounded integers. "thirty hundred million" is 3000000000 in the model (`NumberExamples.BeyondIntRange`), which exceeds a 32-bit `int`. In the C code that multiplication is signed overflow, which is undefined behaviour, so the model does not state any value for it.
- `strdup` failure (a NULL copy) and `free` are not modelled. The copy is a fresh array.
- `strtok_r` writes NUL bytes into the copy. The model tracks token boundaries by index instead.
- `tolower` is modelled for ASCII only. Locale-dependent and non-ASCII behaviour is not modelled.
- `fprintf` of the unknown word and every `printf` message of `execute_command` are not modelled.
- `ExecuteCommand` returns the pin writes as a sequence of values instead of performing `digitalWrite`. On the non-ARM build the command only prints, which `Classify` covers.
- `MatchesCommand` returns a boolean instead of the C `int` 1 or 0.
- `recognize_and_execute_loop` and `main` are not part of this model. They do audio capture with PortAudio, decoding with PocketSphinx, and endpointing, all external I/O.
- The `activation` list (`voice_recognition.c:23`) is declared but never used by the code, so it is not modelled.
- `numbers.h` only declares the above, so it is not part of this model.
