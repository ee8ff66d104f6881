/**
  Worked values of the converter on concrete phrases.
*/
module NumberExamples {
  import opened NumberWords

  /** The values of the number words used below. */
  lemma Values()
    ensures WordToNumber("one") == 1 && WordToNumber("three") == 3 && WordToNumber("four") == 4
    ensures WordToNumber("two") == 2 && WordToNumber("twenty") == 20 && WordToNumber("thirty") == 30
  {
    WordToNumberOnTables();
    assert Units[1].word == "one" && Units[2].word == "two";
    assert Units[3].word == "three" && Units[4].word == "four";
    assert Tens[0].word == "twenty" && Tens[1].word == "thirty";
  }

  /**
    Generic form of a two-group phrase: a number word, "hundred", two number
    words, "thousand", a number word.
  */
  lemma HundredThenThousand(a: string, h: string, b: string, c: string, k: string, d: string)
    requires WordToNumber(LowerString(a)) != NotFound && WordToNumber(LowerString(b)) != NotFound
    requires WordToNumber(LowerString(c)) != NotFound && WordToNumber(LowerString(d)) != NotFound
    requires MagnitudeValue(LowerString(h)) == 100 && MagnitudeValue(LowerString(k)) == 1000
    ensures Run([a, h, b, c, k, d], 0, 0) ==
              (WordToNumber(LowerString(a)) * 100 + WordToNumber(LowerString(b)) + WordToNumber(LowerString(c))) * 1000
              + WordToNumber(LowerString(d))
  {
    var t := [a, h, b, c, k, d];
    assert t == [a] + t[1..] && t[1..] == [h] + t[2..] && t[2..] == [b] + t[3..];
    assert t[3..] == [c] + t[4..] && t[4..] == [k] + t[5..] && t[5..] == [d] + [];
    var va, vb, vc := WordToNumber(LowerString(a)), WordToNumber(LowerString(b)), WordToNumber(LowerString(c));
    RunNumberWord(a, t[1..], 0, 0);
    RunHundred(h, t[2..], 0, va);
    RunNumberWord(b, t[3..], 0, va * 100);
    RunNumberWord(c, t[4..], 0, va * 100 + vb);
    RunFlush(k, t[5..], 0, va * 100 + vb + vc);
    RunNumberWord(d, [], (va * 100 + vb + vc) * 1000, 0);
  }

  /**
    "one hundred twenty three thousand four", in any case: hundred keeps the
    group open, thousand flushes it.
  */
  lemma GroupsExample(a: string, h: string, b: string, c: string, k: string, d: string)
    requires LowerString(a) == "one" && LowerString(h) == "hundred" && LowerString(b) == "twenty"
    requires LowerString(c) == "three" && LowerString(k) == "thousand" && LowerString(d) == "four"
    ensures Run([a, h, b, c, k, d], 0, 0) == 123004
  {
    Values();
    MagnitudeValueSpec(LowerString(h));
    MagnitudeValueSpec(LowerString(k));
    HundredThenThousand(a, h, b, c, k, d);
  }

  /** Each of the six words is a single token. */
  lemma GroupsAreWords(a: string, h: string, b: string, c: string, k: string, d: string)
    requires LowerString(a) == "one" && LowerString(h) == "hundred" && LowerString(b) == "twenty"
    requires LowerString(c) == "three" && LowerString(k) == "thousand" && LowerString(d) == "four"
    ensures IsWord(a) && IsWord(h) && IsWord(b) && IsWord(c) && IsWord(k) && IsWord(d)
  {
    Values();
    MagnitudeValueSpec(LowerString(h));
    MagnitudeValueSpec(LowerString(k));
    KnownWordIsWord(a);
    KnownWordIsWord(h);
    KnownWordIsWord(b);
    KnownWordIsWord(c);
    KnownWordIsWord(k);
    KnownWordIsWord(d);
  }

  /**
    The same six words in any case, joined by single spaces: the whole
    phrase converts to 123004.
  */
  lemma GroupsPhrase(a: string, h: string, b: string, c: string, k: string, d: string)
    requires LowerString(a) == "one" && LowerString(h) == "hundred" && LowerString(b) == "twenty"
    requires LowerString(c) == "three" && LowerString(k) == "thousand" && LowerString(d) == "four"
    ensures Convert(JoinWords([a, h, b, c, k, d])) == 123004
  {
    GroupsAreWords(a, h, b, c, k, d);
    TokensJoinWords([a, h, b, c, k, d]);
    GroupsExample(a, h, b, c, k, d);
  }

  /** Generic form of a one-group phrase: a number word, "hundred", then a flushing magnitude. */
  lemma HundredThenFlush(a: string, h: string, m: string)
    requires WordToNumber(LowerString(a)) != NotFound
    requires MagnitudeValue(LowerString(h)) == 100
    requires MagnitudeValue(LowerString(m)) != NotFound && MagnitudeValue(LowerString(m)) != 100
    ensures Run([a, h, m], 0, 0) == WordToNumber(LowerString(a)) * 100 * MagnitudeValue(LowerString(m))
  {
    var t := [a, h, m];
    assert t == [a] + t[1..] && t[1..] == [h] + t[2..] && t[2..] == [m] + [];
    var va := WordToNumber(LowerString(a));
    RunNumberWord(a, t[1..], 0, 0);
    RunHundred(h, t[2..], 0, va);
    RunFlush(m, [], 0, va * 100);
  }

  /** "thirty hundred million", in any case, over tokens: (30 * 100) * 1000000. */
  lemma ThirtyHundredMillion(a: string, h: string, m: string)
    requires LowerString(a) == "thirty" && LowerString(h) == "hundred" && LowerString(m) == "million"
    ensures Run([a, h, m], 0, 0) == 3000000000
  {
    Values();
    MagnitudeValueSpec(LowerString(h));
    MagnitudeValueSpec(LowerString(m));
    HundredThenFlush(a, h, m);
  }

  /** Each of those three words, in any case, is a single token. */
  lemma ThirtyHundredMillionWords(a: string, h: string, m: string)
    requires LowerString(a) == "thirty" && LowerString(h) == "hundred" && LowerString(m) == "million"
    ensures IsWord(a) && IsWord(h) && IsWord(m)
  {
    Values();
    MagnitudeValueSpec(LowerString(h));
    MagnitudeValueSpec(LowerString(m));
    KnownWordIsWord(a);
    KnownWordIsWord(h);
    KnownWordIsWord(m);
  }

  /**
    "thirty hundred million", in any case and joined by spaces: the group
    30 * 100 is multiplied by a million, a value past the range of a 32-bit int.
  */
  lemma BeyondIntRange(a: string, h: string, m: string)
    requires LowerString(a) == "thirty" && LowerString(h) == "hundred" && LowerString(m) == "million"
    ensures Convert(JoinWords([a, h, m])) == 3000000000
    ensures Convert(JoinWords([a, h, m])) > 0x7fff_ffff
  {
    ThirtyHundredMillionWords(a, h, m);
    TokensJoinWords([a, h, m]);
    ThirtyHundredMillion(a, h, m);
  }

  /**
    "twenty" and "one" in any case, joined by any run of spaces and hyphens,
    convert to 21.
  */
  lemma TwentyOne(a: string, sep: string, b: string)
    requires LowerString(a) == "twenty" && LowerString(b) == "one"
    requires sep != [] && forall k | 0 <= k < |sep| :: IsDelimiter(sep[k])
    ensures Convert(a + sep + b) == 21
  {
    Values();
    ConvertTwoNumberWords(a, sep, b);
  }

  /** "Twenty-One", "twenty one" and "twenty  one" all give 21. */
  lemma TwentyOneSpellings()
    ensures Convert("Twenty-One") == 21
    ensures Convert("twenty one") == 21
    ensures Convert("twenty  one") == 21
  {
    assert LowerString("Twenty") == "twenty" && LowerString("One") == "one";
    assert LowerString("twenty") == "twenty" && LowerString("one") == "one";
    TwentyOne("Twenty", "-", "One");
    assert "Twenty-One" == "Twenty" + "-" + "One";
    TwentyOne("twenty", " ", "one");
    assert "twenty one" == "twenty" + " " + "one";
    TwentyOne("twenty", "  ", "one");
    assert "twenty  one" == "twenty" + "  " + "one";
  }

  /**
    Number words in a row are summed with no ordering check: "one two" gives
    3 and "twenty thirty" gives 50, in any case and with any separator.
  */
  lemma OneTwo(a: string, sep: string, b: string)
    requires LowerString(a) == "one" && LowerString(b) == "two"
    requires sep != [] && forall k | 0 <= k < |sep| :: IsDelimiter(sep[k])
    ensures Convert(a + sep + b) == 3
  {
    Values();
    ConvertTwoNumberWords(a, sep, b);
  }

  lemma TwentyThirty(a: string, sep: string, b: string)
    requires LowerString(a) == "twenty" && LowerString(b) == "thirty"
    requires sep != [] && forall k | 0 <= k < |sep| :: IsDelimiter(sep[k])
    ensures Convert(a + sep + b) == 50
  {
    Values();
    ConvertTwoNumberWords(a, sep, b);
  }

  lemma NoOrderingCheck()
    ensures Convert("one two") == 3
    ensures Convert("twenty thirty") == 50
  {
    assert LowerString("one") == "one" && LowerString("two") == "two";
    assert LowerString("twenty") == "twenty" && LowerString("thirty") == "thirty";
    OneTwo("one", " ", "two");
    assert "one two" == "one" + " " + "two";
    TwentyThirty("twenty", " ", "thirty");
    assert "twenty thirty" == "twenty" + " " + "thirty";
  }

  /** A magnitude with nothing before it contributes 0; an input with no tokens gives 0. */
  lemma ZeroResults()
    ensures Convert("thousand") == 0
    ensures Convert("") == 0
    ensures Convert(" - ") == 0
  {
    assert LowerString("thousand") == "thousand";
    MagnitudeValueSpec("thousand");
    ConvertMagnitudeAlone("thousand");
    ConvertNoTokens("");
    ConvertNoTokens(" - ");
  }

  /** "and" is not a word of any table. */
  lemma AndIsUnknown(w: string)
    requires w == "and"
    ensures !IsKnown(w)
  {
    WordToNumberSpec(w);
    MagnitudeValueSpec(w);
  }

  /**
    Any phrase with "and" among its tokens, in any case, is rejected: "and" is
    an unknown word, so "one hundred and twenty" converts to -1.
  */
  lemma AndRejected(p: string)
    requires exists t | t in Tokens(p) :: LowerString(t) == "and"
    ensures Convert(p) == NotFound
  {
    var t :| t in Tokens(p) && LowerString(t) == "and";
    AndIsUnknown(LowerString(t));
    ConvertUnknownIff(p);
  }
}
