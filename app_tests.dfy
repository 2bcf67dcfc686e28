/**
 * The concrete cases of test_app.py, stated about the model. Money is in
 * cents, so 0.3 credits is 30 and one credit is 100.
 *
 * A function applied to a string literal is evaluated by unfolding it one
 * character at a time, which is affordable only for short literals. Each
 * text is therefore cut into chunks of a few characters; every chunk is
 * evaluated on its own, and the append lemmas of the model put the chunks
 * back together. The lemmas that combine chunks take the chunks as
 * parameters, so that only the facts about the chunks are used there.
 */
module TextExamples {
  import opened TextMetrics

  // ---------------------------------------------------------------------
  // Splitting the texts
  // ---------------------------------------------------------------------

  lemma SplitGreatText()
    ensures "Hello," + (" World!" + (" Isn't" + (" it" + " great?"))) == "Hello, World! Isn't it great?"
  {
  }

  lemma SplitPalindromeText()
    ensures "A man a" + " plan a" + " canal" + " Panama" == "A man a plan a canal Panama"
  {
  }

  lemma SplitHelloWorld()
    ensures "Hello," + " World" + "!" == "Hello, World!"
    ensures "Hello," + " world" + "!" == "Hello, world!"
    ensures "Hello," + " world!" == "Hello, world!"
    ensures "Hello," + " World!" == "Hello, World!"
  {
  }

  lemma SplitAmazingText()
    ensures ("Hello," + " amazi") + ("ng wor" + "ld!") == "Hello, amazing world!"
    ensures "Hello," + (" amazing" + " world!") == "Hello, amazing world!"
  {
  }

  // ---------------------------------------------------------------------
  // Words (test_app.py:28-30)
  // ---------------------------------------------------------------------

  lemma WordsOfHello()
    ensures ExtractWords("Hello,") == ["Hello"]
  {
    TokenizationIsUnique("Hello,", ["Hello"], ["", ","]);
  }

  lemma WordsOfWorld()
    ensures ExtractWords(" World!") == ["World"]
  {
    TokenizationIsUnique(" World!", ["World"], [" ", "!"]);
  }

  lemma WordsOfLowerWorld()
    ensures ExtractWords(" world!") == ["world"]
  {
    TokenizationIsUnique(" world!", ["world"], [" ", "!"]);
  }

  lemma WordsOfIsnt()
    ensures ExtractWords(" Isn't") == ["Isn't"]
  {
    TokenizationIsUnique(" Isn't", ["Isn't"], [" ", ""]);
  }

  lemma WordsOfIt()
    ensures ExtractWords(" it") == ["it"]
  {
    TokenizationIsUnique(" it", ["it"], [" ", ""]);
  }

  lemma WordsOfGreat()
    ensures ExtractWords(" great?") == ["great"]
  {
    TokenizationIsUnique(" great?", ["great"], [" ", "?"]);
  }

  lemma WordsOfAmazingChunk()
    ensures ExtractWords(" amazing") == ["amazing"]
  {
    TokenizationIsUnique(" amazing", ["amazing"], [" ", ""]);
  }

  lemma WordsOfGreatText(a: string, b: string, c: string, d: string, e: string)
    requires a == "Hello," && b == " World!" && c == " Isn't" && d == " it" && e == " great?"
    ensures ExtractWords(a + (b + (c + (d + e)))) == ["Hello"] + (["World"] + (["Isn't"] + (["it"] + ["great"])))
  {
    ExtractWordsAppend(d, e);
    ExtractWordsAppend(c, d + e);
    ExtractWordsAppend(b, c + (d + e));
    ExtractWordsAppend(a, b + (c + (d + e)));
    WordsOfHello();
    WordsOfWorld();
    WordsOfIsnt();
    WordsOfIt();
    WordsOfGreat();
  }

  lemma JoinGreatWords()
    ensures ["Hello"] + (["World"] + (["Isn't"] + (["it"] + ["great"]))) == ["Hello", "World", "Isn't", "it", "great"]
  {
  }

  /** test_app.py:28-30. */
  lemma ExtractWordsExample()
    ensures ExtractWords("Hello, World! Isn't it great?") == ["Hello", "World", "Isn't", "it", "great"]
  {
    SplitGreatText();
    JoinGreatWords();
    WordsOfGreatText("Hello,", " World!", " Isn't", " it", " great?");
  }

  lemma WordsOfAmazingText(a: string, b: string, c: string)
    requires a == "Hello," && b == " amazing" && c == " world!"
    ensures ExtractWords(a + (b + c)) == ["Hello"] + (["amazing"] + ["world"])
  {
    ExtractWordsAppend(b, c);
    ExtractWordsAppend(a, b + c);
    WordsOfHello();
    WordsOfAmazingChunk();
    WordsOfLowerWorld();
  }

  lemma JoinAmazingWords()
    ensures ["Hello"] + (["amazing"] + ["world"]) == ["Hello", "amazing", "world"]
  {
  }

  lemma HelloAmazingWorldWords()
    ensures ExtractWords("Hello, amazing world!") == ["Hello", "amazing", "world"]
  {
    SplitAmazingText();
    JoinAmazingWords();
    WordsOfAmazingText("Hello,", " amazing", " world!");
  }

  lemma WordsOfHelloWorld(a: string, b: string)
    requires a == "Hello," && b == " world!"
    ensures ExtractWords(a + b) == ["Hello"] + ["world"]
  {
    ExtractWordsAppend(a, b);
    WordsOfHello();
    WordsOfLowerWorld();
  }

  lemma HelloWorldWords()
    ensures ExtractWords("Hello, world!") == ["Hello", "world"]
  {
    SplitHelloWorld();
    WordsOfHelloWorld("Hello,", " world!");
  }

  // ---------------------------------------------------------------------
  // Palindromes (test_app.py:24-26)
  // ---------------------------------------------------------------------

  lemma LowerAppend4(a: string, b: string, c: string, d: string)
    ensures Lower(a + b + c + d) == Lower(a) + Lower(b) + Lower(c) + Lower(d)
  {
    LowerAppend(a + b + c, d);
    LowerAppend(a + b, c);
    LowerAppend(a, b);
  }

  lemma KeepAlnumAppend4(a: string, b: string, c: string, d: string)
    ensures KeepAlnum(a + b + c + d) == KeepAlnum(a) + KeepAlnum(b) + KeepAlnum(c) + KeepAlnum(d)
  {
    KeepAlnumAppend(a + b + c, d);
    KeepAlnumAppend(a + b, c);
    KeepAlnumAppend(a, b);
  }

  lemma LowerOfPalindromeChunks()
    ensures Lower("A man a") == "a man a"
    ensures Lower(" plan a") == " plan a"
    ensures Lower(" canal") == " canal"
    ensures Lower(" Panama") == " panama"
  {
  }

  lemma KeepAlnumManA() ensures KeepAlnum("a man a") == "amana" {}
  lemma KeepAlnumPlanA() ensures KeepAlnum(" plan a") == "plana" {}
  lemma KeepAlnumCanal() ensures KeepAlnum(" canal") == "canal" {}
  lemma KeepAlnumPanama() ensures KeepAlnum(" panama") == "panama" {}

  lemma CleanedPalindromeChunks(a: string, b: string, c: string, d: string)
    requires a == "A man a" && b == " plan a" && c == " canal" && d == " Panama"
    ensures Cleaned(a + b + c + d) == "amana" + "plana" + "canal" + "panama"
  {
    LowerAppend4(a, b, c, d);
    LowerOfPalindromeChunks();
    KeepAlnumAppend4(Lower(a), Lower(b), Lower(c), Lower(d));
    KeepAlnumManA();
    KeepAlnumPlanA();
    KeepAlnumCanal();
    KeepAlnumPanama();
  }

  lemma PalindromeCleanedIsMirrored()
    ensures var c := "amana" + "plana" + "canal" + "panama";
      forall i :: 0 <= i < |c| ==> c[i] == c[|c| - 1 - i]
  {
    var c := "amana" + "plana" + "canal" + "panama";
    assert c == "amanaplanacanalpanama";
  }

  /** test_app.py:25. */
  lemma PalindromeExample()
    ensures IsPalindrome("A man a plan a canal Panama")
  {
    SplitPalindromeText();
    CleanedPalindromeChunks("A man a", " plan a", " canal", " Panama");
    PalindromeCleanedIsMirrored();
    PalindromeIffMirrored("A man a plan a canal Panama");
  }

  lemma LowerOfGreetingChunks()
    ensures Lower("Hello,") == "hello,"
    ensures Lower(" World!") == " world!"
    ensures Lower(" world!") == " world!"
    ensures Lower(" amazing") == " amazing"
  {
  }

  lemma KeepAlnumHello() ensures KeepAlnum("hello,") == "hello" {}
  lemma KeepAlnumWorld() ensures KeepAlnum(" world!") == "world" {}
  lemma KeepAlnumAmaz() ensures KeepAlnum(" amaz") == "amaz" {}
  lemma KeepAlnumIng() ensures KeepAlnum("ing") == "ing" {}

  lemma KeepAlnumAmazing(a: string, b: string)
    requires a == " amaz" && b == "ing"
    ensures KeepAlnum(a + b) == "amaz" + "ing"
  {
    KeepAlnumAppend(a, b);
    KeepAlnumAmaz();
    KeepAlnumIng();
  }

  lemma KeepAlnumAmazingWord()
    ensures KeepAlnum(" amazing") == "amazing"
  {
    assert " amaz" + "ing" == " amazing";
    assert "amaz" + "ing" == "amazing";
    KeepAlnumAmazing(" amaz", "ing");
  }

  lemma CleanedHelloComma(a: string, b: string)
    requires a == "Hello," && (b == " World!" || b == " world!")
    ensures Cleaned(a + b) == "hello" + "world"
  {
    LowerAppend(a, b);
    LowerOfGreetingChunks();
    KeepAlnumAppend(Lower(a), Lower(b));
    KeepAlnumHello();
    KeepAlnumWorld();
  }

  /** test_app.py:26. */
  lemma NotPalindromeExample()
    ensures !IsPalindrome("Hello, World!")
  {
    SplitHelloWorld();
    CleanedHelloComma("Hello,", " World!");
    ReverseAt("hello" + "world", 0);
  }

  lemma HelloWorldNotPalindrome()
    ensures !IsPalindrome("Hello, world!")
  {
    SplitHelloWorld();
    CleanedHelloComma("Hello,", " world!");
    ReverseAt("hello" + "world", 0);
  }

  lemma CleanedAmazingText(a: string, b: string, c: string)
    requires a == "Hello," && b == " amazing" && c == " world!"
    ensures Cleaned(a + (b + c)) == "hello" + ("amazing" + "world")
  {
    LowerAppend(b, c);
    LowerAppend(a, b + c);
    LowerOfGreetingChunks();
    KeepAlnumAppend(Lower(b), Lower(c));
    KeepAlnumAppend(Lower(a), Lower(b) + Lower(c));
    KeepAlnumHello();
    KeepAlnumAmazingWord();
    KeepAlnumWorld();
  }

  lemma HelloAmazingWorldNotPalindrome()
    ensures !IsPalindrome("Hello, amazing world!")
  {
    SplitAmazingText();
    CleanedAmazingText("Hello,", " amazing", " world!");
    ReverseAt("hello" + ("amazing" + "world"), 0);
  }

  // ---------------------------------------------------------------------
  // Vowels at every third position (test_app.py:32-35)
  // ---------------------------------------------------------------------

  lemma HitsOfHello() ensures ThirdVowelHits("Hello,") == 0 { ThirdVowelHitsOfSix("Hello,"); }
  lemma HitsOfWorld() ensures ThirdVowelHits(" World") == 1 { ThirdVowelHitsOfSix(" World"); }
  lemma HitsOfLowerWorld() ensures ThirdVowelHits(" world") == 1 { ThirdVowelHitsOfSix(" world"); }
  lemma HitsOfBang() ensures ThirdVowelHits("!") == 0 { ThirdVowelHitsShortText("!"); }
  lemma HitsOfAmazi() ensures ThirdVowelHits(" amazi") == 1 { ThirdVowelHitsOfSix(" amazi"); }
  lemma HitsOfNgWor() ensures ThirdVowelHits("ng wor") == 0 { ThirdVowelHitsOfSix("ng wor"); }
  lemma HitsOfLd() ensures ThirdVowelHits("ld!") == 0 { ThirdVowelHitsOfThree("ld!"); }

  lemma HitsOfHelloWorld(a: string, b: string, c: string)
    requires a == "Hello," && (b == " World" || b == " world") && c == "!"
    ensures ThirdVowelHits(a + b + c) == 1
  {
    ThirdVowelHitsAppend(a, b);
    ThirdVowelHitsAppend(a + b, c);
    HitsOfHello();
    HitsOfWorld();
    HitsOfLowerWorld();
    HitsOfBang();
  }

  /** test_app.py:32-35: only the 'o' at position 9 of "Hello, World!" counts. */
  lemma ThirdVowelHitsExample()
    ensures ThirdVowelHits("Hello, World!") == 1
  {
    SplitHelloWorld();
    HitsOfHelloWorld("Hello,", " World", "!");
  }

  lemma HelloWorldVowels()
    ensures ThirdVowelHits("Hello, world!") == 1
  {
    SplitHelloWorld();
    HitsOfHelloWorld("Hello,", " world", "!");
  }

  lemma HitsOfAmazingHead(a: string, b: string)
    requires a == "Hello," && b == " amazi"
    ensures ThirdVowelHits(a + b) == 1
  {
    ThirdVowelHitsAppend(a, b);
    HitsOfHello();
    HitsOfAmazi();
  }

  lemma HitsOfAmazingTail(c: string, d: string)
    requires c == "ng wor" && d == "ld!"
    ensures ThirdVowelHits(c + d) == 0
  {
    ThirdVowelHitsAppend(c, d);
    HitsOfNgWor();
    HitsOfLd();
  }

  lemma HitsOfAmazingText(a: string, b: string, c: string, d: string)
    requires a == "Hello," && b == " amazi" && c == "ng wor" && d == "ld!"
    ensures ThirdVowelHits((a + b) + (c + d)) == 1
  {
    HitsOfAmazingHead(a, b);
    HitsOfAmazingTail(c, d);
    ThirdVowelHitsAppend(a + b, c + d);
  }

  /** Only the 'i' at position 12 of "Hello, amazing world!" counts. */
  lemma HelloAmazingWorldVowels()
    ensures ThirdVowelHits("Hello, amazing world!") == 1
  {
    SplitAmazingText();
    HitsOfAmazingText("Hello,", " amazi", "ng wor", "ld!");
  }
}

/** The cost rules and the credit calculation on the texts of test_app.py. */
module CreditExamples {
  import opened TextMetrics
  import opened CostRules
  import opened CreditCalculator
  import opened TextExamples

  /** test_app.py:32-35: one vowel at a position divisible by 3 costs 0.3 credits. */
  lemma ThirdVowelCostExample()
    ensures ThirdVowelCost("Hello, World!") == 30
  {
    ThirdVowelHitsExample();
  }

  /** test_app.py:37-39: 25 characters cost 1.25 credits. */
  lemma CharCostExample()
    ensures CharCost(25) == 125
  {
  }

  /**
   * test_app.py:41-44: "Hi" is short, "there", "amazing" and "world" are
   * medium (seven characters or fewer), 0.1 + 3 * 0.2 = 0.7 credits.
   */
  lemma WordCostsExample()
    ensures WordCosts(["Hi", "there", "amazing", "world"]) == 70
  {
    WordCostsIsPerWordSum(["Hi", "there", "amazing", "world"]);
  }

  lemma AmazingWordsCosts()
    ensures WordCosts(["Hello", "amazing", "world"]) == 60
    ensures UniqueWordBonusCost(["Hello", "amazing", "world"]) == -200
  {
    WordCostsIsPerWordSum(["Hello", "amazing", "world"]);
    UniqueWordBonusIffNoDuplicates(["Hello", "amazing", "world"]);
  }

  lemma HelloWorldWordsCosts()
    ensures WordCosts(["Hello", "world"]) == 40
    ensures UniqueWordBonusCost(["Hello", "world"]) == -200
  {
    WordCostsIsPerWordSum(["Hello", "world"]);
    UniqueWordBonusIffNoDuplicates(["Hello", "world"]);
  }

  lemma HelloAmazingWorldTotal(s: string)
    requires s == "Hello, amazing world!"
    ensures PreDoublingTotal(s) == 95
    ensures Credits(s) == 100
  {
    HelloAmazingWorldWords();
    HelloAmazingWorldVowels();
    HelloAmazingWorldNotPalindrome();
    AmazingWordsCosts();
  }

  /**
   * test_app.py:46-49: 1 + 21 * 0.05 + 3 * 0.2 + 0.3 - 2 = 0.95 credits,
   * raised to the floor of one credit.
   */
  lemma CreditsExample()
    ensures PreDoublingTotal("Hello, amazing world!") == 95
    ensures Credits("Hello, amazing world!") == 100
  {
    HelloAmazingWorldTotal("Hello, amazing world!");
  }

  lemma HelloWorldTotal(s: string)
    requires s == "Hello, world!"
    ensures PreDoublingTotal(s) == 35
    ensures Credits(s) == 100
  {
    HelloWorldWords();
    HelloWorldVowels();
    HelloWorldNotPalindrome();
    HelloWorldWordsCosts();
  }

  /**
   * "Hello, world!" costs 1 + 0.65 + 0.4 + 0.3 - 2 = 0.35 credits before
   * doubling, so one credit whether or not it is a palindrome.
   */
  lemma HelloWorldCredits()
    ensures PreDoublingTotal("Hello, world!") == 35
    ensures Credits("Hello, world!") == 100
  {
    HelloWorldTotal("Hello, world!");
  }
}

/** Report lookups and usage records for the messages of test_app.py. */
module UsageExamples {
  import opened Common
  import opened ReportLookup
  import opened UsageResolver
  import opened CreditExamples

  const SampleReport: ReportData := ReportData(Some("Sample Report"), Some(1000), false)

  /** test_app.py:51-57: a 200 response yields its body. */
  lemma FetchReportExample()
    ensures ClassifyStatus(200, SampleReport) == Found(SampleReport)
  {
  }

  /** test_app.py:59-64: a found report gives its name and its cost of 10 credits. */
  lemma ProcessReportExample()
    ensures ProcessReport("report_1", "Hello, world!", r => Found(SampleReport)) == Ok((Some("Sample Report"), 1000))
  {
  }

  /** test_app.py:66-70: with no report the local calculation gives one credit. */
  lemma ProcessReportNotFoundExample()
    ensures ProcessReport("report_1", "Hello, world!", r => NotFound) == Ok((None, 100))
  {
    HelloWorldCredits();
  }

  const HelloMessage: RawMessage :=
    Message(Some(123), Some("2024-01-01T00:00:00Z"), Some("Hello, world!"), None)

  const HelloRecord: UsageRecord := UsageRecord(123, "2024-01-01T00:00:00Z", 100, None)

  lemma ResolveHelloMessage(lookup: string -> LookupOutcome)
    ensures Resolve(HelloMessage, lookup) == Ok(HelloRecord)
  {
    ResolveFallsBackToCredits(HelloMessage, lookup);
    HelloWorldCredits();
  }

  /** A batch of one message that succeeds holds that message's record. */
  lemma ProcessAllSingle(m: RawMessage, lookup: string -> LookupOutcome)
    requires Resolve(m, lookup).Ok?
    ensures ProcessAll([m], lookup) == Ok([Resolve(m, lookup).value])
  {
    var ms := [m];
    assert ms[..|ms| - 1] == [];
    assert ProcessAll(ms[..|ms| - 1], lookup) == Ok([]);
    assert ms[|ms| - 1] == m;
    assert [] + [Resolve(m, lookup).value] == [Resolve(m, lookup).value];
  }

  /**
   * test_app.py:72-84 and 86-96: a batch of one message without a report id
   * gives one record with its id and timestamp and one credit.
   */
  lemma ProcessMessagesExample(lookup: string -> LookupOutcome)
    ensures ProcessAll([HelloMessage], lookup) == Ok([HelloRecord])
  {
    ResolveHelloMessage(lookup);
    ProcessAllSingle(HelloMessage, lookup);
  }
}
