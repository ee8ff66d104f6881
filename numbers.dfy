/**
  The spelled-number lexicon and the converter from a phrase of number words
  to an integer (numbers.c; voice_recognition.c carries an identical copy).

  C `int` arithmetic is modelled over unbounded `int`; -1 is the sentinel the
  C code uses for "not a word of this table" and for "unknown word".
*/
module NumberWords {

  /** One row of a word table: the spelled word and the value it stands for. */
  datatype NumberWord = NumberWord(word: string, value: int)

  /** The sentinel the lookups and the converter return on a miss. */
  const NotFound: int := -1

  const Units: seq<NumberWord> := [
    NumberWord("zero", 0), NumberWord("one", 1), NumberWord("two", 2),
    NumberWord("three", 3), NumberWord("four", 4), NumberWord("five", 5),
    NumberWord("six", 6), NumberWord("seven", 7), NumberWord("eight", 8),
    NumberWord("nine", 9)
  ]

  const Teens: seq<NumberWord> := [
    NumberWord("ten", 10), NumberWord("eleven", 11), NumberWord("twelve", 12),
    NumberWord("thirteen", 13), NumberWord("fourteen", 14), NumberWord("fifteen", 15),
    NumberWord("sixteen", 16), NumberWord("seventeen", 17), NumberWord("eighteen", 18),
    NumberWord("nineteen", 19)
  ]

  const Tens: seq<NumberWord> := [
    NumberWord("twenty", 20), NumberWord("thirty", 30), NumberWord("forty", 40),
    NumberWord("fifty", 50), NumberWord("sixty", 60), NumberWord("seventy", 70),
    NumberWord("eighty", 80), NumberWord("ninety", 90)
  ]

  const Magnitudes: seq<NumberWord> := [
    NumberWord("hundred", 100), NumberWord("thousand", 1000), NumberWord("million", 1000000)
  ]

  /**
    Scans `table` front to back and returns the value of the first row whose
    word equals `word` exactly, or `NotFound` when no row does. Its meaning
    is stated by `LookupSpec` and `LookupFirstMatch`.
  */
  function Lookup(table: seq<NumberWord>, word: string): int {
    if table == [] then NotFound
    else if table[0].word == word then table[0].value
    else Lookup(table[1..], word)
  }

  /** A hit is a row of the table; a word on no row gives `NotFound`. */
  lemma {:induction false} LookupSpec(table: seq<NumberWord>, word: string)
    ensures Lookup(table, word) != NotFound ==>
              exists i | 0 <= i < |table| :: table[i] == NumberWord(word, Lookup(table, word))
    ensures (forall i | 0 <= i < |table| :: table[i].word != word) ==> Lookup(table, word) == NotFound
  {
    if table != [] && table[0].word != word {
      LookupSpec(table[1..], word);
      assert forall i | 1 <= i < |table| :: table[1..][i - 1] == table[i];
    }
  }

  /** The first row whose word matches decides the result. */
  lemma {:induction false} LookupFirstMatch(table: seq<NumberWord>, word: string, i: nat)
    requires i < |table| && table[i].word == word
    requires forall j | 0 <= j < i :: table[j].word != word
    ensures Lookup(table, word) == table[i].value
  {
    if i > 0 {
      LookupFirstMatch(table[1..], word, i - 1);
    }
  }

  lemma TableValues()
    ensures forall i | 0 <= i < |Units| :: 0 <= Units[i].value <= 9
    ensures forall i | 0 <= i < |Teens| :: 10 <= Teens[i].value <= 19
    ensures forall i | 0 <= i < |Tens| :: 20 <= Tens[i].value <= 90 && Tens[i].value % 10 == 0
  {
  }

  /** A word of the units, teens or tens tables, tried in that order. */
  function WordToNumber(word: string): (r: int)
    ensures r != NotFound ==> 0 <= r <= 19 || (20 <= r <= 90 && r % 10 == 0)
  {
    TableValues();
    LookupSpec(Units, word);
    LookupSpec(Teens, word);
    LookupSpec(Tens, word);
    var u := Lookup(Units, word);
    if u != NotFound then u
    else
      var t := Lookup(Teens, word);
      if t != NotFound then t
      else Lookup(Tens, word)
  }

  /**
    `WordToNumber` answers with the table's value for a word of the units,
    teens or tens tables and with `NotFound` for every other word.
  */
  lemma WordToNumberSpec(word: string)
    ensures WordToNumber(word) != NotFound ==>
              (exists i | 0 <= i < |Units| :: Units[i] == NumberWord(word, WordToNumber(word))) ||
              (exists i | 0 <= i < |Teens| :: Teens[i] == NumberWord(word, WordToNumber(word))) ||
              (exists i | 0 <= i < |Tens| :: Tens[i] == NumberWord(word, WordToNumber(word)))
    ensures ((forall i | 0 <= i < |Units| :: Units[i].word != word) &&
             (forall i | 0 <= i < |Teens| :: Teens[i].word != word) &&
             (forall i | 0 <= i < |Tens| :: Tens[i].word != word)) ==> WordToNumber(word) == NotFound
  {
    LookupSpec(Units, word);
    LookupSpec(Teens, word);
    LookupSpec(Tens, word);
  }

  /** No word appears twice within each of the units, teens and tens tables. */
  lemma TablesDistinct()
    ensures forall j, k | 0 <= j < k < |Units| :: Units[j].word != Units[k].word
    ensures forall j, k | 0 <= j < k < |Teens| :: Teens[j].word != Teens[k].word
    ensures forall j, k | 0 <= j < k < |Tens| :: Tens[j].word != Tens[k].word
  {
  }

  lemma TablesDisjoint()
    ensures forall j, k | 0 <= j < |Units| && 0 <= k < |Teens| :: Units[j].word != Teens[k].word
    ensures forall j, k | 0 <= j < |Units| && 0 <= k < |Tens| :: Units[j].word != Tens[k].word
    ensures forall j, k | 0 <= j < |Teens| && 0 <= k < |Tens| :: Teens[j].word != Tens[k].word
  {
  }

  /** Every word of the units, teens and tens tables converts to its own row's value. */
  lemma WordToNumberOnTables()
    ensures forall i | 0 <= i < |Units| :: WordToNumber(Units[i].word) == Units[i].value
    ensures forall i | 0 <= i < |Teens| :: WordToNumber(Teens[i].word) == Teens[i].value
    ensures forall i | 0 <= i < |Tens| :: WordToNumber(Tens[i].word) == Tens[i].value
  {
    TablesDistinct();
    TablesDisjoint();
    TableValues();
    forall i | 0 <= i < |Units|
      ensures WordToNumber(Units[i].word) == Units[i].value
    {
      LookupFirstMatch(Units, Units[i].word, i);
    }
    forall i | 0 <= i < |Teens|
      ensures WordToNumber(Teens[i].word) == Teens[i].value
    {
      LookupSpec(Units, Teens[i].word);
      LookupFirstMatch(Teens, Teens[i].word, i);
    }
    forall i | 0 <= i < |Tens|
      ensures WordToNumber(Tens[i].word) == Tens[i].value
    {
      LookupSpec(Units, Tens[i].word);
      LookupSpec(Teens, Tens[i].word);
      LookupFirstMatch(Tens, Tens[i].word, i);
    }
  }

  /** A word of the magnitudes table. */
  function MagnitudeValue(word: string): (r: int)
    ensures r == NotFound || r == 100 || r == 1000 || r == 1000000
  {
    LookupSpec(Magnitudes, word);
    Lookup(Magnitudes, word)
  }

  /** "hundred", "thousand" and "million" are the magnitude words, and no other word is. */
  lemma MagnitudeValueSpec(word: string)
    ensures word == "hundred" ==> MagnitudeValue(word) == 100
    ensures word == "thousand" ==> MagnitudeValue(word) == 1000
    ensures word == "million" ==> MagnitudeValue(word) == 1000000
    ensures word != "hundred" && word != "thousand" && word != "million" ==> MagnitudeValue(word) == NotFound
  {
    LookupSpec(Magnitudes, word);
  }

  /** No word is both a number word and a magnitude word. */
  lemma LookupsDisjoint(word: string)
    ensures WordToNumber(word) == NotFound || MagnitudeValue(word) == NotFound
  {
    MagnitudeValueSpec(word);
    if MagnitudeValue(word) != NotFound {
      MagnitudeWordIsNotNumber(word);
    }
  }

  lemma MagnitudeWordIsNotNumber(word: string)
    requires word == "hundred" || word == "thousand" || word == "million"
    ensures WordToNumber(word) == NotFound
  {
    assert forall i | 0 <= i < |Units| :: Units[i].word != word;
    assert forall i | 0 <= i < |Teens| :: Teens[i].word != word;
    assert forall i | 0 <= i < |Tens| :: Tens[i].word != word;
    WordToNumberSpec(word);
  }

  /** A word the converter accepts. */
  predicate IsKnown(word: string) {
    WordToNumber(word) != NotFound || MagnitudeValue(word) != NotFound
  }

  // ---------------------------------------------------------------------------
  // Case and tokens

  /** The C `tolower` on the ASCII range: 'A'..'Z' map to 'a'..'z', nothing else changes. */
  function ToLower(c: char): (l: char)
    ensures 'A' <= c <= 'Z' ==> 'a' <= l <= 'z' && l as int - 'a' as int == c as int - 'A' as int
    ensures !('A' <= c <= 'Z') ==> l == c
  {
    if 'A' <= c <= 'Z' then (c as int - 'A' as int + 'a' as int) as char else c
  }

  /** The string with every character lowered. */
  function LowerString(s: string): (l: string)
    ensures |l| == |s|
    ensures forall i | 0 <= i < |l| :: !('A' <= l[i] <= 'Z')
  {
    seq(|s|, i requires 0 <= i < |s| => ToLower(s[i]))
  }

  /** The delimiters the tokenizer splits on: space and hyphen. */
  predicate IsDelimiter(c: char) {
    c == ' ' || c == '-'
  }

  /** A non-empty string with no delimiter in it: what one token can be. */
  predicate IsWord(w: string) {
    w != [] && forall k | 0 <= k < |w| :: !IsDelimiter(w[k])
  }

  /** The input with every delimiter removed. */
  function Squeeze(s: string): string {
    if s == [] then []
    else if IsDelimiter(s[0]) then Squeeze(s[1..])
    else [s[0]] + Squeeze(s[1..])
  }

  function Concat(ts: seq<string>): string {
    if ts == [] then [] else ts[0] + Concat(ts[1..])
  }

  lemma {:induction false} ConcatAppend(a: seq<string>, b: seq<string>)
    ensures Concat(a + b) == Concat(a) + Concat(b)
  {
    if a == [] {
      assert a + b == b;
    } else {
      assert (a + b)[0] == a[0];
      assert (a + b)[1..] == a[1..] + b;
      ConcatAppend(a[1..], b);
    }
  }

  /**
    The tokens `strtok_r(…, " -", …)` yields: maximal runs of non-delimiter
    characters, left to right; empty runs between adjacent delimiters are
    skipped. `cur` is the token being read.
  */
  function Split(s: string, cur: string): seq<string>
    decreases |s|
  {
    if s == [] then (if cur == [] then [] else [cur])
    else if IsDelimiter(s[0]) then (if cur == [] then [] else [cur]) + Split(s[1..], [])
    else Split(s[1..], cur + [s[0]])
  }

  /** The tokens of the input; `TokensWellFormed` and `TokensCoverInput` say what they are. */
  function Tokens(s: string): seq<string> {
    Split(s, [])
  }

  /** Tokens read from a delimiter-free pending token on are non-empty and hold no delimiter. */
  lemma {:induction false} SplitWellFormed(s: string, cur: string)
    requires forall k | 0 <= k < |cur| :: !IsDelimiter(cur[k])
    ensures forall t | t in Split(s, cur) :: IsWord(t)
    decreases |s|
  {
    if s == [] {
    } else if IsDelimiter(s[0]) {
      SplitWellFormed(s[1..], []);
    } else {
      SplitWellFormed(s[1..], cur + [s[0]]);
    }
  }

  /** Every token is non-empty and holds no delimiter. */
  lemma TokensWellFormed(s: string)
    ensures forall t | t in Tokens(s) :: IsWord(t)
  {
    SplitWellFormed(s, []);
  }

  /** The tokens put back together are the pending token and then the non-delimiters of `s`. */
  lemma {:induction false} SplitCovers(s: string, cur: string)
    ensures Concat(Split(s, cur)) == cur + Squeeze(s)
    decreases |s|
  {
    if s == [] {
    } else if IsDelimiter(s[0]) {
      SplitCovers(s[1..], []);
      ConcatAppend(if cur == [] then [] else [cur], Split(s[1..], []));
    } else {
      SplitCovers(s[1..], cur + [s[0]]);
      assert cur + [s[0]] + Squeeze(s[1..]) == cur + ([s[0]] + Squeeze(s[1..]));
    }
  }

  /** The tokens, put back together, are exactly the non-delimiter characters of the input, in order. */
  lemma TokensCoverInput(s: string)
    ensures Concat(Tokens(s)) == Squeeze(s)
  {
    SplitCovers(s, []);
  }

  /** A leading delimiter yields no token. */
  lemma TokensSkipDelimiter(s: string)
    requires s != [] && IsDelimiter(s[0])
    ensures Tokens(s) == Tokens(s[1..])
  {
  }

  lemma {:induction false} SplitWord(s: string, cur: string, j: nat)
    requires j <= |s|
    requires forall k | 0 <= k < j :: !IsDelimiter(s[k])
    ensures Split(s, cur) == Split(s[j..], cur + s[..j])
    decreases j
  {
    if j == 0 {
      assert s[j..] == s && cur + s[..j] == cur;
    } else {
      assert s[1..][j - 1..] == s[j..];
      assert cur + [s[0]] + s[1..][..j - 1] == cur + s[..j];
      SplitWord(s[1..], cur + [s[0]], j - 1);
    }
  }

  /**
    A run of non-delimiters at the front of the input, ended by the end of
    the input or by a delimiter, is the first token.
  */
  lemma TokensFirstWord(s: string, j: nat)
    requires 0 < j <= |s|
    requires forall k | 0 <= k < j :: !IsDelimiter(s[k])
    requires j == |s| || IsDelimiter(s[j])
    ensures Tokens(s) == [s[..j]] + Tokens(s[j..])
  {
    SplitWord(s, [], j);
    assert [] + s[..j] == s[..j];
  }

  /** `TokensSkipDelimiter` and `TokensFirstWord` at position `i` of `s`. */
  lemma TokensSkipAt(s: string, i: nat)
    requires i < |s| && IsDelimiter(s[i])
    ensures Tokens(s[i..]) == Tokens(s[i + 1..])
  {
    TokensSkipDelimiter(s[i..]);
    assert s[i..][1..] == s[i + 1..];
  }

  lemma TokensWordAt(s: string, start: nat, end: nat)
    requires start < end <= |s|
    requires forall k | start <= k < end :: !IsDelimiter(s[k])
    requires end == |s| || IsDelimiter(s[end])
    ensures Tokens(s[start..]) == [s[start..end]] + Tokens(s[end..])
  {
    var t := s[start..];
    assert forall k | 0 <= k < end - start :: t[k] == s[start + k];
    TokensFirstWord(t, end - start);
    assert t[end - start..] == s[end..];
    assert t[..end - start] == s[start..end];
  }

  lemma {:induction false} TokensSkipRun(s: string, i: nat, j: nat)
    requires i <= j < |s| + 1
    requires forall k | i <= k < j :: IsDelimiter(s[k])
    ensures Tokens(s[i..]) == Tokens(s[j..])
    decreases j - i
  {
    if i < j {
      TokensSkipAt(s, i);
      TokensSkipRun(s, i + 1, j);
    }
  }

  /** A single word, with no delimiter in it, is one token. */
  lemma TokensOneWord(w: string)
    requires IsWord(w)
    ensures Tokens(w) == [w]
  {
    TokensWordAt(w, 0, |w|);
    assert w[0..] == w && w[..|w|] == w && w[|w|..] == [];
  }

  /**
    Two words separated by any non-empty run of spaces and hyphens are two
    tokens, whatever the run is.
  */
  lemma TokensTwoWords(a: string, sep: string, b: string)
    requires IsWord(a) && IsWord(b)
    requires sep != [] && forall k | 0 <= k < |sep| :: IsDelimiter(sep[k])
    ensures Tokens(a + sep + b) == [a, b]
  {
    var s := a + sep + b;
    var m := |a| + |sep|;
    assert forall k | 0 <= k < |a| :: s[k] == a[k];
    assert forall k | |a| <= k < m :: s[k] == sep[k - |a|];
    assert forall k | m <= k < |s| :: s[k] == b[k - m];
    TokensWordAt(s, 0, |a|);
    TokensSkipRun(s, |a|, m);
    TokensWordAt(s, m, |s|);
    assert s[0..] == s && s[..|a|] == a && s[m..|s|] == b && s[|s|..] == [];
  }

  /** Words joined by single spaces. */
  function JoinWords(ws: seq<string>): string {
    if ws == [] then []
    else if |ws| == 1 then ws[0]
    else ws[0] + " " + JoinWords(ws[1..])
  }

  /** Tokenizing words joined by spaces gives the words back. */
  lemma {:induction false} TokensJoinWords(ws: seq<string>)
    requires forall i | 0 <= i < |ws| :: IsWord(ws[i])
    ensures Tokens(JoinWords(ws)) == ws
  {
    if |ws| == 1 {
      TokensOneWord(ws[0]);
    } else if |ws| > 1 {
      var s := JoinWords(ws);
      var n := |ws[0]|;
      assert s == ws[0] + " " + JoinWords(ws[1..]);
      assert forall k | 0 <= k < n :: s[k] == ws[0][k];
      assert s[n] == ' ';
      TokensWordAt(s, 0, n);
      TokensSkipAt(s, n);
      assert s[0..] == s && s[..n] == ws[0] && s[n + 1..] == JoinWords(ws[1..]);
      TokensJoinWords(ws[1..]);
      assert ws == [ws[0]] + ws[1..];
    }
  }

  /** An input with no non-delimiter character has no tokens. */
  lemma TokensNone(s: string)
    requires forall k | 0 <= k < |s| :: IsDelimiter(s[k])
    ensures Tokens(s) == []
  {
    TokensSkipRun(s, 0, |s|);
    assert s[0..] == s && s[|s|..] == [];
  }

  // ---------------------------------------------------------------------------
  // The converter

  /**
    The accumulator of `convert_number_words_to_int` run over `tokens`:
    number words add into `current`; "hundred" multiplies `current`; the
    other magnitudes multiply `current`, add it into `result` and reset it;
    the first unknown word makes the whole conversion `NotFound`.
  */
  function Run(tokens: seq<string>, result: int, current: int): (r: int)
    ensures result >= 0 && current >= 0 && r != NotFound ==> r >= result + current
  {
    if tokens == [] then result + current
    else
      var w := LowerString(tokens[0]);
      var num := WordToNumber(w);
      if num != NotFound then Run(tokens[1..], result, current + num)
      else
        var mag := MagnitudeValue(w);
        if mag == NotFound then NotFound
        else if mag == 100 then Run(tokens[1..], result, current * mag)
        else Run(tokens[1..], result + current * mag, 0)
  }

  /** What `convert_number_words_to_int(input)` returns: `NotFound` or a count. */
  function Convert(input: string): (r: int)
    ensures r == NotFound || r >= 0
  {
    Run(Tokens(input), 0, 0)
  }

  /**
    From a non-negative state the run fails exactly when some token, once
    lowered, is unknown.
  */
  lemma {:induction false} RunUnknownIff(tokens: seq<string>, result: int, current: int)
    requires result >= 0 && current >= 0
    ensures Run(tokens, result, current) == NotFound <==>
              exists i | 0 <= i < |tokens| :: !IsKnown(LowerString(tokens[i]))
  {
    if tokens != [] {
      var w := LowerString(tokens[0]);
      assert forall i | 1 <= i < |tokens| :: tokens[i] == tokens[1..][i - 1];
      if WordToNumber(w) != NotFound {
        RunUnknownIff(tokens[1..], result, current + WordToNumber(w));
      } else if MagnitudeValue(w) == 100 {
        RunUnknownIff(tokens[1..], result, current * 100);
      } else if MagnitudeValue(w) != NotFound {
        RunUnknownIff(tokens[1..], result + current * MagnitudeValue(w), 0);
      }
    }
  }

  /**
    `Convert` returns `NotFound` exactly when some token of the input, once
    lowered, is neither a number word nor a magnitude word.
  */
  lemma ConvertUnknownIff(input: string)
    ensures Convert(input) == NotFound <==>
              exists t | t in Tokens(input) :: !IsKnown(LowerString(t))
  {
    RunUnknownIff(Tokens(input), 0, 0);
  }

  /** Input with no tokens (empty, or only spaces and hyphens) converts to 0. */
  lemma ConvertNoTokens(s: string)
    requires forall k | 0 <= k < |s| :: IsDelimiter(s[k])
    ensures Convert(s) == 0
  {
    TokensNone(s);
  }

  /** Lowering keeps every delimiter a delimiter and every other character not one. */
  lemma LowerKeepsDelimiters(w: string)
    ensures |LowerString(w)| == |w|
    ensures forall k | 0 <= k < |w| :: IsDelimiter(LowerString(w)[k]) == IsDelimiter(w[k])
  {
  }

  /**
    Two number words joined by any run of spaces and hyphens, in any case,
    convert to the sum of their values.
  */
  lemma ConvertTwoNumberWords(a: string, sep: string, b: string)
    requires WordToNumber(LowerString(a)) != NotFound && WordToNumber(LowerString(b)) != NotFound
    requires sep != [] && forall k | 0 <= k < |sep| :: IsDelimiter(sep[k])
    ensures Convert(a + sep + b) == WordToNumber(LowerString(a)) + WordToNumber(LowerString(b))
  {
    KnownWordIsWord(a);
    KnownWordIsWord(b);
    TokensTwoWords(a, sep, b);
    RunNumberWord(a, [b], 0, 0);
    RunNumberWord(b, [], 0, WordToNumber(LowerString(a)));
    assert [a, b] == [a] + [b] && [b] == [b] + [];
  }

  lemma TableWords()
    ensures forall i | 0 <= i < |Units| :: IsWord(Units[i].word)
    ensures forall i | 0 <= i < |Teens| :: IsWord(Teens[i].word)
    ensures forall i | 0 <= i < |Tens| :: IsWord(Tens[i].word)
  {
    UnitsAreWords();
    TeensAreWords();
    TensAreWords();
  }

  lemma UnitsAreWords() ensures forall i | 0 <= i < |Units| :: IsWord(Units[i].word) {}
  lemma TeensAreWords() ensures forall i | 0 <= i < |Teens| :: IsWord(Teens[i].word) {}
  lemma TensAreWords() ensures forall i | 0 <= i < |Tens| :: IsWord(Tens[i].word) {}

  /** A known word, in any case, is a single token: non-empty and free of delimiters. */
  lemma KnownWordIsWord(w: string)
    requires IsKnown(LowerString(w))
    ensures IsWord(w)
  {
    var l := LowerString(w);
    LowerKeepsDelimiters(w);
    if WordToNumber(l) != NotFound {
      NumberWordIsWord(l);
    } else {
      MagnitudeWordIsWord(l);
    }
  }

  lemma NumberWordIsWord(l: string)
    requires WordToNumber(l) != NotFound
    ensures IsWord(l)
  {
    WordToNumberSpec(l);
    TableWords();
  }

  lemma MagnitudeWordIsWord(l: string)
    requires MagnitudeValue(l) != NotFound
    ensures IsWord(l)
  {
    MagnitudeValueSpec(l);
  }

  /** A magnitude word on its own converts to 0: there is nothing before it to scale. */
  lemma ConvertMagnitudeAlone(w: string)
    requires MagnitudeValue(LowerString(w)) != NotFound
    ensures Convert(w) == 0
  {
    KnownWordIsWord(w);
    TokensOneWord(w);
    assert [w] == [w] + [];
    if MagnitudeValue(LowerString(w)) == 100 {
      RunHundred(w, [], 0, 0);
    } else {
      RunFlush(w, [], 0, 0);
    }
  }

  /** Every token lowered. */
  function LowerAll(ts: seq<string>): seq<string> {
    seq(|ts|, i requires 0 <= i < |ts| => LowerString(ts[i]))
  }

  lemma LowerAllAppend(a: seq<string>, b: seq<string>)
    ensures LowerAll(a + b) == LowerAll(a) + LowerAll(b)
  {
  }

  lemma LowerIdempotent(s: string)
    ensures LowerString(LowerString(s)) == LowerString(s)
  {
  }

  lemma {:induction false} SplitLower(s: string, cur: string)
    ensures Split(LowerString(s), LowerString(cur)) == LowerAll(Split(s, cur))
    decreases |s|
  {
    var ls, lc := LowerString(s), LowerString(cur);
    assert |lc| == |cur|;
    if s == [] {
      assert ls == [];
      if cur != [] {
        assert LowerAll([cur]) == [lc];
      }
    } else {
      assert ls[0] == ToLower(s[0]) && ls[1..] == LowerString(s[1..]);
      if IsDelimiter(s[0]) {
        SplitLower(s[1..], []);
        assert LowerString([]) == [];
        var head := if cur == [] then [] else [cur];
        assert LowerAll(head) == (if lc == [] then [] else [lc]);
        LowerAllAppend(head, Split(s[1..], []));
      } else {
        SplitLower(s[1..], cur + [s[0]]);
        assert LowerString(cur + [s[0]]) == lc + [ls[0]];
      }
    }
  }

  /** Tokenizing after lowering gives the lowered tokens. */
  lemma TokensLower(s: string)
    ensures Tokens(LowerString(s)) == LowerAll(Tokens(s))
  {
    SplitLower(s, []);
    assert LowerString([]) == [];
  }

  lemma {:induction false} RunLowerAll(tokens: seq<string>, result: int, current: int)
    ensures Run(LowerAll(tokens), result, current) == Run(tokens, result, current)
  {
    if tokens != [] {
      var w := LowerString(tokens[0]);
      LowerIdempotent(tokens[0]);
      assert LowerString(LowerAll(tokens)[0]) == w;
      assert LowerAll(tokens)[1..] == LowerAll(tokens[1..]);
      if WordToNumber(w) != NotFound {
        RunLowerAll(tokens[1..], result, current + WordToNumber(w));
      } else if MagnitudeValue(w) == 100 {
        RunLowerAll(tokens[1..], result, current * 100);
      } else if MagnitudeValue(w) != NotFound {
        RunLowerAll(tokens[1..], result + current * MagnitudeValue(w), 0);
      }
    }
  }

  /** Each token is lowered before lookup, so the case of the input does not matter. */
  lemma ConvertIgnoresCase(s: string)
    ensures Convert(LowerString(s)) == Convert(s)
  {
    TokensLower(s);
    RunLowerAll(Tokens(s), 0, 0);
  }

  /** The sum of the values of a sequence of number words. */
  function SumValues(tokens: seq<string>): int {
    if tokens == [] then 0 else WordToNumber(LowerString(tokens[0])) + SumValues(tokens[1..])
  }

  /** Consecutive number words are summed, whatever their order. */
  lemma {:induction false} RunSumsNumberWords(tokens: seq<string>, result: int, current: int)
    requires forall i | 0 <= i < |tokens| :: WordToNumber(LowerString(tokens[i])) != NotFound
    ensures Run(tokens, result, current) == result + current + SumValues(tokens)
  {
    if tokens != [] {
      assert forall i | 1 <= i < |tokens[1..]| :: tokens[1..][i] == tokens[i + 1];
      RunSumsNumberWords(tokens[1..], result, current + WordToNumber(LowerString(tokens[0])));
    }
  }

  /** A number token adds its value into the group being built. */
  lemma RunNumberWord(tok: string, rest: seq<string>, result: int, current: int)
    requires WordToNumber(LowerString(tok)) != NotFound
    ensures Run([tok] + rest, result, current) ==
              Run(rest, result, current + WordToNumber(LowerString(tok)))
  {
    assert ([tok] + rest)[1..] == rest;
  }

  /** An unknown token ends the conversion with `NotFound`, whatever follows it. */
  lemma RunUnknownWord(tok: string, rest: seq<string>, result: int, current: int)
    requires !IsKnown(LowerString(tok))
    ensures Run([tok] + rest, result, current) == NotFound
  {
  }

  /**
    A "hundred" token (the magnitude of value 100, in any case, by
    `MagnitudeValueSpec`) scales the group being built and keeps it open.
  */
  lemma RunHundred(tok: string, rest: seq<string>, result: int, current: int)
    requires MagnitudeValue(LowerString(tok)) == 100
    ensures Run([tok] + rest, result, current) == Run(rest, result, current * 100)
  {
    assert ([tok] + rest)[1..] == rest;
    LookupsDisjoint(LowerString(tok));
  }

  /**
    A magnitude token other than "hundred" (that is, "thousand" or "million"
    in any case, by `MagnitudeValueSpec`) scales the group by its value,
    flushes it into the result and starts a new one.
  */
  lemma RunFlush(tok: string, rest: seq<string>, result: int, current: int)
    requires MagnitudeValue(LowerString(tok)) != NotFound && MagnitudeValue(LowerString(tok)) != 100
    ensures Run([tok] + rest, result, current) ==
              Run(rest, result + current * MagnitudeValue(LowerString(tok)), 0)
  {
    assert ([tok] + rest)[1..] == rest;
    LookupsDisjoint(LowerString(tok));
  }

  // ---------------------------------------------------------------------------
  // The imperative converter

  /**
    The scan `strtok_r` makes for the end of the token starting at `start`:
    the first delimiter at or after `start`, or the end of the buffer.
  */
  method TokenEnd(buf: array<char>, start: nat) returns (end: nat)
    requires start < buf.Length && !IsDelimiter(buf[start])
    ensures start < end <= buf.Length
    ensures forall k | start <= k < end :: !IsDelimiter(buf[k])
    ensures end == buf.Length || IsDelimiter(buf[end])
  {
    end := start;
    while end < buf.Length && !IsDelimiter(buf[end])
      invariant start <= end <= buf.Length
      invariant forall k | start <= k < end :: !IsDelimiter(buf[k])
    {
      end := end + 1;
    }
  }

  /** The `tolower` loop over one token, in place in the buffer. */
  method LowerInPlace(buf: array<char>, start: nat, end: nat)
    requires start <= end <= buf.Length
    modifies buf
    ensures buf[start..end] == LowerString(old(buf[start..end]))
    ensures forall k | 0 <= k < buf.Length && !(start <= k < end) :: buf[k] == old(buf[k])
  {
    for p := start to end
      invariant forall k | start <= k < p :: buf[k] == ToLower(old(buf[k]))
      invariant forall k | 0 <= k < buf.Length && !(start <= k < p) :: buf[k] == old(buf[k])
    {
      buf[p] := ToLower(buf[p]);
    }
  }

  /**
    `convert_number_words_to_int`: copies the input, cuts it into tokens on
    spaces and hyphens (skipping empty ones), lowers each token in place and
    runs the accumulator, stopping at the first unknown word.
  */
  method ConvertNumberWordsToInt(input: string) returns (r: int)
    ensures r == Convert(input)
    ensures r == NotFound <==> exists t | t in Tokens(input) :: !IsKnown(LowerString(t))
    ensures r != NotFound ==> r >= 0
  {
    ConvertUnknownIff(input);
    var buf := new char[|input|](k requires 0 <= k < |input| => input[k]);
    var n := buf.Length;
    var result, current := 0, 0;
    var i := 0;
    while i < n
      invariant 0 <= i <= n == |input|
      invariant forall k | i <= k < n :: buf[k] == input[k]
      invariant Run(Tokens(input[i..]), result, current) == Convert(input)
    {
      if IsDelimiter(buf[i]) {
        TokensSkipAt(input, i);
        i := i + 1;
      } else {
        var start := i;
        i := TokenEnd(buf, start);
        assert forall k | start <= k < n :: buf[k] == input[k];
        TokensWordAt(input, start, i);
        ghost var raw := input[start..i];
        assert buf[start..i] == raw;
        LowerInPlace(buf, start, i);
        var token := buf[start..i];
        assert ([raw] + Tokens(input[i..]))[1..] == Tokens(input[i..]);
        var num := WordToNumber(token);
        if num != NotFound {
          current := current + num;
        } else {
          var mag := MagnitudeValue(token);
          if mag != NotFound {
            if mag == 100 {
              current := current * mag;
            } else {
              current := current * mag;
              result := result + current;
              current := 0;
            }
          } else {
            return NotFound;
          }
        }
      }
    }
    assert input[n..] == [];
    r := result + current;
  }
}
