/**
 * Measurements of a message's text: its word tokens, whether it reads the
 * same backwards, and how many vowels sit at every third position.
 * Characters are Dafny `char`s; a Python `str` is a sequence of them.
 */
module TextMetrics {

  // ---------------------------------------------------------------------
  // Word tokens: the runs matched by the pattern [a-zA-Z'-]+
  // ---------------------------------------------------------------------

  /** A character of the word pattern's class `[a-zA-Z'-]`. */
  predicate IsWordChar(c: char) {
    ('a' <= c <= 'z') || ('A' <= c <= 'Z') || c == '\'' || c == '-'
  }

  /** A possible token: non-empty and made of word characters only. */
  predicate IsWord(w: string) {
    |w| > 0 && forall i :: 0 <= i < |w| ==> IsWordChar(w[i])
  }

  /** The text between two tokens: no word character in it. */
  predicate IsGap(g: string) {
    forall i :: 0 <= i < |g| ==> !IsWordChar(g[i])
  }

  /** Length of the longest prefix of `s` made of word characters. */
  function RunLength(s: string): (n: nat)
    ensures n <= |s|
    ensures forall i :: 0 <= i < n ==> IsWordChar(s[i])
    ensures n < |s| ==> !IsWordChar(s[n])
  {
    if s == [] || !IsWordChar(s[0]) then 0 else 1 + RunLength(s[1..])
  }

  /**
   * `re.findall` with the word pattern: scanning left to right, skip a
   * non-word character, or take the longest run of word characters as the
   * next token and continue after it.
   */
  function ExtractWords(s: string): (ws: seq<string>)
    ensures forall k :: 0 <= k < |ws| ==> IsWord(ws[k])
    decreases |s|
  {
    if s == [] then []
    else if !IsWordChar(s[0]) then ExtractWords(s[1..])
    else
      var n := RunLength(s);
      [s[..n]] + ExtractWords(s[n..])
  }

  /** The gaps the scan of `ExtractWords` steps over: one before, between and after the tokens. */
  function Gaps(s: string): (gs: seq<string>)
    ensures |gs| == |ExtractWords(s)| + 1
    ensures s != [] && !IsWordChar(s[0]) ==> gs[0] != []
    decreases |s|
  {
    if s == [] then [[]]
    else if !IsWordChar(s[0]) then
      var t := Gaps(s[1..]);
      [[s[0]] + t[0]] + t[1..]
    else
      [[]] + Gaps(s[RunLength(s)..])
  }

  lemma {:induction false} RunLengthAppend(a: string, b: string)
    ensures RunLength(a) < |a| ==> RunLength(a + b) == RunLength(a)
    ensures RunLength(a) == |a| ==> RunLength(a + b) == |a| + RunLength(b)
    decreases |a|
  {
    if a == [] {
      assert a + b == b;
    } else if IsWordChar(a[0]) {
      assert (a + b)[1..] == a[1..] + b;
      RunLengthAppend(a[1..], b);
    }
  }

  /** The text ends at a word boundary: it is empty or its last character is not a word character. */
  predicate EndsOutsideWord(a: string) {
    a == [] || !IsWordChar(a[|a| - 1])
  }

  /** When `a` starts with a word that cannot run on into `b`, the first run of `a + b` is the first run of `a`. */
  lemma AppendFirstRun(a: string, b: string)
    requires a != [] && IsWordChar(a[0])
    requires EndsOutsideWord(a) || b == [] || !IsWordChar(b[0])
    ensures RunLength(a + b) == RunLength(a)
  {
    var n := RunLength(a);
    RunLengthAppend(a, b);
    if n == |a| && b != [] {
      assert IsWordChar(a[n - 1]);
      assert !IsWordChar(b[0]);
    }
  }

  /** Slicing `a + b` inside `a`. */
  lemma AppendSlices(a: string, b: string, n: nat)
    requires n <= |a|
    ensures (a + b)[..n] == a[..n]
    ensures (a + b)[n..] == a[n..] + b
    ensures EndsOutsideWord(a) ==> EndsOutsideWord(a[n..])
  {
    assert a[n..] != [] ==> a[n..][|a[n..]| - 1] == a[|a| - 1];
  }

  /**
   * Cutting a text where a word cannot continue (after a non-word
   * character, or before one) cuts its list of words in two.
   */
  lemma {:induction false} ExtractWordsAppend(a: string, b: string)
    requires EndsOutsideWord(a) || b == [] || !IsWordChar(b[0])
    ensures ExtractWords(a + b) == ExtractWords(a) + ExtractWords(b)
    decreases |a|
  {
    if a == [] {
      assert a + b == b;
    } else if !IsWordChar(a[0]) {
      AppendSlices(a, b, 1);
      ExtractWordsAppend(a[1..], b);
    } else {
      var n := RunLength(a);
      AppendFirstRun(a, b);
      AppendSlices(a, b, n);
      ExtractWordsAppend(a[n..], b);
    }
  }

  /** gs[0] + ws[0] + gs[1] + ws[1] + ... + ws[n-1] + gs[n]. */
  function Interleave(gs: seq<string>, ws: seq<string>): string
    requires |gs| == |ws| + 1
    decreases |ws|
  {
    if ws == [] then gs[0] else gs[0] + ws[0] + Interleave(gs[1..], ws[1..])
  }

  /**
   * `ws` are the maximal runs of word characters of `s`, in order, and `gs`
   * the text around them: `s` is the gaps and the words interleaved, every
   * word is a non-empty run of word characters, every gap is free of them,
   * and the gaps between two words are not empty (so no word could be longer).
   */
  ghost predicate Tokenizes(s: string, ws: seq<string>, gs: seq<string>) {
    && |gs| == |ws| + 1
    && (forall k :: 0 <= k < |ws| ==> IsWord(ws[k]))
    && (forall k :: 0 <= k < |gs| ==> IsGap(gs[k]))
    && (forall k :: 0 < k < |ws| ==> gs[k] != [])
    && s == Interleave(gs, ws)
  }

  lemma {:induction false} InterleavePrependGap(g: string, gs: seq<string>, ws: seq<string>)
    requires |gs| == |ws| + 1
    ensures Interleave([g + gs[0]] + gs[1..], ws) == g + Interleave(gs, ws)
  {
    var gs' := [g + gs[0]] + gs[1..];
    assert gs'[1..] == gs[1..];
  }

  /** A run of word characters followed by the end or by a non-word character is exactly one run. */
  lemma RunLengthOfWord(w: string, rest: string)
    requires IsWord(w)
    requires rest == [] || !IsWordChar(rest[0])
    ensures RunLength(w + rest) == |w|
  {
    var s := w + rest;
    assert forall i :: 0 <= i < |w| ==> s[i] == w[i];
    assert rest != [] ==> s[|w|] == rest[0];
  }

  /** The scan's tokens and gaps tokenize the text. */
  lemma {:induction false} ExtractWordsTokenizes(s: string)
    ensures Tokenizes(s, ExtractWords(s), Gaps(s))
    decreases |s|
  {
    if s == [] {
    } else if !IsWordChar(s[0]) {
      ExtractWordsTokenizes(s[1..]);
      TokenizesAfterGapChar(s);
    } else {
      ExtractWordsTokenizes(s[RunLength(s)..]);
      TokenizesAfterWord(s);
    }
  }

  /** A non-word character in front of a tokenized text joins its first gap. */
  lemma TokenizesPrependGapChar(c: char, r: string, ws: seq<string>, gs: seq<string>)
    requires !IsWordChar(c)
    requires Tokenizes(r, ws, gs)
    ensures Tokenizes([c] + r, ws, [[c] + gs[0]] + gs[1..])
  {
    var gs' := [[c] + gs[0]] + gs[1..];
    InterleavePrependGap([c], gs, ws);
    assert IsGap(gs'[0]) by {
      forall i | 0 <= i < |gs'[0]| ensures !IsWordChar(gs'[0][i]) {
        if i > 0 { assert gs'[0][i] == gs[0][i - 1]; }
      }
    }
    forall k | 0 < k < |gs'| ensures gs'[k] == gs[k] { }
  }

  /** A word in front of a tokenized text that starts with a gap (or is empty) becomes its first token. */
  lemma TokenizesPrependWord(w: string, r: string, ws: seq<string>, gs: seq<string>)
    requires IsWord(w)
    requires r == [] || !IsWordChar(r[0])
    requires Tokenizes(r, ws, gs)
    ensures Tokenizes(w + r, [w] + ws, [[]] + gs)
  {
    var ws', gs' := [w] + ws, [[]] + gs;
    assert ws'[1..] == ws && gs'[1..] == gs;
    assert Interleave(gs', ws') == w + Interleave(gs, ws);
    if ws != [] {
      assert r == gs[0] + ws[0] + Interleave(gs[1..], ws[1..]);
      assert r[|gs[0]|] == ws[0][0];
    }
    forall k | 0 < k < |ws'| ensures gs'[k] != [] {
      assert gs'[k] == gs[k - 1];
    }
    forall k | 0 <= k < |ws'| ensures IsWord(ws'[k]) {
      if k > 0 { assert ws'[k] == ws[k - 1]; }
    }
    forall k | 0 < k < |gs'| ensures IsGap(gs'[k]) {
      assert gs'[k] == gs[k - 1];
    }
  }

  /** Step of `ExtractWordsTokenizes` over a leading non-word character. */
  lemma TokenizesAfterGapChar(s: string)
    requires s != [] && !IsWordChar(s[0])
    requires Tokenizes(s[1..], ExtractWords(s[1..]), Gaps(s[1..]))
    ensures Tokenizes(s, ExtractWords(s), Gaps(s))
  {
    var r := s[1..];
    var ws, gs := ExtractWords(r), Gaps(r);
    assert ExtractWords(s) == ws;
    assert Gaps(s) == [[s[0]] + gs[0]] + gs[1..];
    TokenizesPrependGapChar(s[0], r, ws, gs);
    assert [s[0]] + r == s;
  }

  /** Step of `ExtractWordsTokenizes` over a leading run of word characters. */
  lemma TokenizesAfterWord(s: string)
    requires s != [] && IsWordChar(s[0])
    requires Tokenizes(s[RunLength(s)..], ExtractWords(s[RunLength(s)..]), Gaps(s[RunLength(s)..]))
    ensures Tokenizes(s, ExtractWords(s), Gaps(s))
  {
    var n := RunLength(s);
    var r := s[n..];
    TokenizesPrependWord(s[..n], r, ExtractWords(r), Gaps(r));
    assert s[..n] + r == s;
  }

  /** A tokenization whose first gap is not empty starts with a non-word character, and the rest is tokenized too. */
  lemma TokenizesDropGapChar(s: string, ws: seq<string>, gs: seq<string>)
    requires Tokenizes(s, ws, gs) && gs[0] != []
    ensures s != [] && s[0] == gs[0][0] && !IsWordChar(s[0])
    ensures Tokenizes(s[1..], ws, [gs[0][1..]] + gs[1..])
  {
    var c := gs[0][0];
    var gs' := [gs[0][1..]] + gs[1..];
    assert gs[0] == [c] + gs[0][1..];
    assert gs == [[c] + gs'[0]] + gs'[1..];
    InterleavePrependGap([c], gs', ws);
    assert s == [c] + Interleave(gs', ws);
    assert s[1..] == Interleave(gs', ws);
    forall k | 0 <= k < |gs'| ensures IsGap(gs'[k]) {
      if k == 0 {
        forall i | 0 <= i < |gs'[0]| ensures !IsWordChar(gs'[0][i]) {
          assert gs'[0][i] == gs[0][i + 1];
        }
      } else {
        assert gs'[k] == gs[k];
      }
    }
  }

  /** A tokenization whose first gap is empty starts with its first word as a whole run, and the rest is tokenized too. */
  lemma TokenizesDropWord(s: string, ws: seq<string>, gs: seq<string>)
    requires Tokenizes(s, ws, gs) && gs[0] == [] && ws != []
    ensures s != [] && IsWordChar(s[0])
    ensures RunLength(s) == |ws[0]| && s[..|ws[0]|] == ws[0]
    ensures Tokenizes(s[|ws[0]|..], ws[1..], gs[1..])
  {
    var w := ws[0];
    var rest := Interleave(gs[1..], ws[1..]);
    assert s == w + rest;
    if ws[1..] == [] {
      assert rest == gs[1];
      assert IsGap(gs[1]);
    } else {
      assert rest == gs[1] + ws[1] + Interleave(gs[2..], ws[2..]);
      assert gs[1] != [] && IsGap(gs[1]);
      assert rest[0] == gs[1][0];
    }
    RunLengthOfWord(w, rest);
    assert s[..|w|] == w && s[|w|..] == rest;
    assert s[0] == w[0];
    forall k | 0 < k < |ws[1..]| ensures gs[1..][k] != [] {
      assert gs[1..][k] == gs[k + 1];
    }
  }

  /** Step of `TokenizationIsUnique` over a leading non-word character. */
  lemma UniqueAfterGapChar(s: string, ws: seq<string>, gs: seq<string>)
    requires Tokenizes(s, ws, gs) && gs[0] != []
    requires s != [] && !IsWordChar(s[0])
    requires ws == ExtractWords(s[1..]) && [gs[0][1..]] + gs[1..] == Gaps(s[1..])
    ensures ws == ExtractWords(s) && gs == Gaps(s)
  {
    var gs' := [gs[0][1..]] + gs[1..];
    assert gs[0] == [s[0]] + gs'[0];
    assert gs'[1..] == gs[1..];
    assert gs == [[s[0]] + gs'[0]] + gs'[1..];
  }

  /** Step of `TokenizationIsUnique` over a leading word. */
  lemma UniqueAfterWord(s: string, ws: seq<string>, gs: seq<string>)
    requires Tokenizes(s, ws, gs) && gs[0] == [] && ws != []
    requires s != [] && IsWordChar(s[0])
    requires RunLength(s) == |ws[0]| && s[..|ws[0]|] == ws[0]
    requires ws[1..] == ExtractWords(s[|ws[0]|..]) && gs[1..] == Gaps(s[|ws[0]|..])
    ensures ws == ExtractWords(s) && gs == Gaps(s)
  {
    assert ws == [ws[0]] + ws[1..];
    assert gs == [[]] + gs[1..];
  }

  /**
   * The tokens of a text are determined by the text: any tokenization has
   * exactly the words (and gaps) the scan produces.
   */
  lemma {:induction false} TokenizationIsUnique(s: string, ws: seq<string>, gs: seq<string>)
    requires Tokenizes(s, ws, gs)
    ensures ws == ExtractWords(s) && gs == Gaps(s)
    decreases |s|
  {
    if gs[0] != [] {
      TokenizesDropGapChar(s, ws, gs);
      TokenizationIsUnique(s[1..], ws, [gs[0][1..]] + gs[1..]);
      UniqueAfterGapChar(s, ws, gs);
    } else if ws == [] {
      assert s == [];
    } else {
      TokenizesDropWord(s, ws, gs);
      TokenizationIsUnique(s[|ws[0]|..], ws[1..], gs[1..]);
      UniqueAfterWord(s, ws, gs);
    }
  }

  // ---------------------------------------------------------------------
  // Palindromes: the lower-cased text with every non-alphanumeric removed
  // ---------------------------------------------------------------------

  /** ASCII lower-casing of one character: A-Z become a-z, all else is kept. */
  function ToLower(c: char): char {
    if 'A' <= c <= 'Z' then (c as int + 32) as char else c
  }

  /** `str.lower()`, restricted to ASCII letters. */
  function Lower(s: string): (t: string)
    ensures |t| == |s|
    ensures forall i :: 0 <= i < |s| ==> t[i] == ToLower(s[i])
  {
    seq(|s|, i requires 0 <= i < |s| => ToLower(s[i]))
  }

  /** A character the pattern `[a-zA-Z0-9]` keeps. */
  predicate IsAlnum(c: char) {
    ('a' <= c <= 'z') || ('A' <= c <= 'Z') || ('0' <= c <= '9')
  }

  /** `re.sub(r'[^a-zA-Z0-9]', '', s)`: the alphanumeric characters of `s`, in order. */
  function KeepAlnum(s: string): string {
    if s == [] then []
    else if IsAlnum(s[0]) then [s[0]] + KeepAlnum(s[1..])
    else KeepAlnum(s[1..])
  }

  /** The text a palindrome check compares with its reversal. */
  function Cleaned(s: string): string {
    KeepAlnum(Lower(s))
  }

  /** `KeepAlnum` keeps exactly the alphanumeric characters, so what is left is alphanumeric and no longer. */
  lemma {:induction false} KeepAlnumKeepsAlnum(s: string)
    ensures |KeepAlnum(s)| <= |s|
    ensures forall i :: 0 <= i < |KeepAlnum(s)| ==> IsAlnum(KeepAlnum(s)[i]) && KeepAlnum(s)[i] in s
    ensures (forall i :: 0 <= i < |s| ==> IsAlnum(s[i])) ==> KeepAlnum(s) == s
    ensures (forall i :: 0 <= i < |s| ==> !IsAlnum(s[i])) ==> KeepAlnum(s) == []
  {
    if s != [] {
      KeepAlnumKeepsAlnum(s[1..]);
    }
  }

  /** The compared text holds only lower-case ASCII letters and digits. */
  lemma CleanedIsLowerAlnum(s: string)
    ensures |Cleaned(s)| <= |s|
    ensures forall i :: 0 <= i < |Cleaned(s)| ==>
      ('a' <= Cleaned(s)[i] <= 'z') || ('0' <= Cleaned(s)[i] <= '9')
  {
    var l := Lower(s);
    var k := KeepAlnum(l);
    KeepAlnumKeepsAlnum(l);
    forall i | 0 <= i < |k| ensures ('a' <= k[i] <= 'z') || ('0' <= k[i] <= '9') {
      assert IsAlnum(k[i]) && k[i] in l;
      var j :| 0 <= j < |l| && l[j] == k[i];
      assert k[i] == ToLower(s[j]);
    }
  }

  function Reverse(s: string): (r: string)
    ensures |r| == |s|
  {
    if s == [] then [] else Reverse(s[1..]) + [s[0]]
  }

  /** The whole message reads the same backwards, ignoring case and punctuation. */
  predicate IsPalindrome(s: string) {
    Cleaned(s) == Reverse(Cleaned(s))
  }

  lemma {:induction false} ReverseAt(s: string, k: nat)
    requires k < |s|
    ensures Reverse(s)[k] == s[|s| - 1 - k]
  {
    if k < |s| - 1 {
      ReverseAt(s[1..], k);
    }
  }

  /** A palindrome is a text whose cleaned form is mirror-symmetric, character by character. */
  lemma PalindromeIffMirrored(s: string)
    ensures IsPalindrome(s) <==>
      forall i :: 0 <= i < |Cleaned(s)| ==> Cleaned(s)[i] == Cleaned(s)[|Cleaned(s)| - 1 - i]
  {
    var c := Cleaned(s);
    forall i | 0 <= i < |c| ensures Reverse(c)[i] == c[|c| - 1 - i] {
      ReverseAt(c, i);
    }
  }

  lemma {:induction false} ReverseAppend(a: string, b: string)
    ensures Reverse(a + b) == Reverse(b) + Reverse(a)
    decreases |a|
  {
    if a == [] {
      assert a + b == b;
    } else {
      assert (a + b)[1..] == a[1..] + b;
      ReverseAppend(a[1..], b);
    }
  }

  lemma {:induction false} ReverseReverse(s: string)
    ensures Reverse(Reverse(s)) == s
    decreases |s|
  {
    if s != [] {
      ReverseAppend(Reverse(s[1..]), [s[0]]);
      ReverseReverse(s[1..]);
      assert Reverse([s[0]]) == [s[0]];
    }
  }

  lemma {:induction false} KeepAlnumAppend(a: string, b: string)
    ensures KeepAlnum(a + b) == KeepAlnum(a) + KeepAlnum(b)
    decreases |a|
  {
    if a == [] {
      assert a + b == b;
    } else {
      assert (a + b)[1..] == a[1..] + b;
      KeepAlnumAppend(a[1..], b);
    }
  }

  /** Removing the punctuation of a reversed text is reversing the text without punctuation. */
  lemma {:induction false} KeepAlnumReverse(s: string)
    ensures KeepAlnum(Reverse(s)) == Reverse(KeepAlnum(s))
    decreases |s|
  {
    if s != [] {
      KeepAlnumReverse(s[1..]);
      KeepAlnumAppend(Reverse(s[1..]), [s[0]]);
      if IsAlnum(s[0]) {
        ReverseAppend([s[0]], KeepAlnum(s[1..]));
      } else {
        assert KeepAlnum([s[0]]) == [];
      }
    }
  }

  lemma LowerAppend(a: string, b: string)
    ensures Lower(a + b) == Lower(a) + Lower(b)
  {
  }

  lemma LowerReverse(s: string)
    ensures Lower(Reverse(s)) == Reverse(Lower(s))
  {
    forall i | 0 <= i < |s| ensures Lower(Reverse(s))[i] == Reverse(Lower(s))[i] {
      ReverseAt(s, i);
      ReverseAt(Lower(s), i);
    }
  }

  /** A text is a palindrome exactly when its reversal is. */
  lemma PalindromeOfReverse(s: string)
    ensures IsPalindrome(Reverse(s)) <==> IsPalindrome(s)
  {
    LowerReverse(s);
    KeepAlnumReverse(Lower(s));
    assert Cleaned(Reverse(s)) == Reverse(Cleaned(s));
    ReverseReverse(Cleaned(s));
  }

  /** Case does not matter to the palindrome check. */
  lemma PalindromeIgnoresCase(s: string)
    ensures IsPalindrome(Lower(s)) <==> IsPalindrome(s)
  {
    assert Lower(Lower(s)) == Lower(s);
  }

  // ---------------------------------------------------------------------
  // Vowels at every third position
  // ---------------------------------------------------------------------

  /** `c in "aeiouAEIOU"`. */
  predicate IsVowel(c: char) {
    c in "aeiouAEIOU"
  }

  /**
   * The number of 1-based positions i of `s` with i % 3 == 0 that hold a
   * vowel, counted as `enumerate(text, start=1)` visits them.
   */
  function ThirdVowelHits(s: string): nat {
    if s == [] then 0
    else
      var i := |s|;
      ThirdVowelHits(s[..i - 1]) + (if i % 3 == 0 && IsVowel(s[i - 1]) then 1 else 0)
  }

  /** At most one hit per three characters. */
  lemma {:induction false} ThirdVowelHitsBound(s: string)
    ensures ThirdVowelHits(s) <= |s| / 3
    decreases |s|
  {
    if s != [] {
      ThirdVowelHitsBound(s[..|s| - 1]);
    }
  }

  /** The 1-based positions that `ThirdVowelHits` counts. */
  ghost function ThirdVowelPositions(s: string): set<int> {
    set i | 1 <= i <= |s| && i % 3 == 0 && IsVowel(s[i - 1])
  }

  /** The hit count is the number of vowel-bearing positions that are multiples of 3. */
  lemma {:induction false} ThirdVowelHitsCountsPositions(s: string)
    ensures ThirdVowelHits(s) == |ThirdVowelPositions(s)|
    decreases |s|
  {
    if s == [] {
      assert ThirdVowelPositions(s) == {};
    } else {
      var n := |s|;
      ThirdVowelHitsCountsPositions(s[..n - 1]);
      ThirdVowelPositionsStep(s);
    }
  }

  /** The positions of a text are those of the text without its last character, and possibly the last one. */
  lemma ThirdVowelPositionsStep(s: string)
    requires s != []
    ensures var n := |s|;
      ThirdVowelPositions(s) ==
        ThirdVowelPositions(s[..n - 1]) + if n % 3 == 0 && IsVowel(s[n - 1]) then {n} else {}
  {
    var n := |s|;
    var p := s[..n - 1];
    forall j | 0 <= j < n - 1 ensures s[j] == p[j] { }
  }

  /**
   * The count restarts in step after every three characters: a prefix whose
   * length is a multiple of 3 contributes its own hits and leaves the
   * positions of the rest aligned.
   */
  lemma {:induction false} ThirdVowelHitsAppend(a: string, b: string)
    requires |a| % 3 == 0
    ensures ThirdVowelHits(a + b) == ThirdVowelHits(a) + ThirdVowelHits(b)
    decreases |b|
  {
    if b == [] {
      assert a + b == a;
    } else {
      var s, n, m := a + b, |a + b|, |b|;
      assert s[..n - 1] == a + b[..m - 1];
      assert s[n - 1] == b[m - 1];
      ModThreeShift(|a|, m);
      ThirdVowelHitsAppend(a, b[..m - 1]);
    }
  }

  lemma ModThreeShift(x: int, y: int)
    requires x % 3 == 0
    ensures (x + y) % 3 == y % 3
  {
  }

  /** In three characters only the third position can count. */
  lemma ThirdVowelHitsOfThree(c: string)
    requires |c| == 3
    ensures ThirdVowelHits(c) == if IsVowel(c[2]) then 1 else 0
  {
    ThirdVowelHitsShortText(c[..2]);
  }

  /** In six characters only the third and the sixth positions can count. */
  lemma ThirdVowelHitsOfSix(c: string)
    requires |c| == 6
    ensures ThirdVowelHits(c) == (if IsVowel(c[2]) then 1 else 0) + (if IsVowel(c[5]) then 1 else 0)
  {
    assert c == c[..3] + c[3..];
    ThirdVowelHitsAppend(c[..3], c[3..]);
    ThirdVowelHitsOfThree(c[..3]);
    ThirdVowelHitsOfThree(c[3..]);
  }

  /** Texts shorter than three characters have no third position at all. */
  lemma ThirdVowelHitsShortText(s: string)
    requires |s| < 3
    ensures ThirdVowelHits(s) == 0
  {
  }
}
