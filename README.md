# Copilot usage credits, modelled in Dafny

This project models the credit-metering core of the usage API in `app.py`.
For every message of a billing period, the service produces a usage record:
the message id, its timestamp, the credits it consumed, and the name of the
report it produced when there was one. The credits come from the report
service when the message names a report the service knows. Otherwise they
are calculated from the text:

- a base cost of 1 credit;
- 0.05 per character;
- 0.1, 0.2 or 0.3 per word, by the word's length;
- 0.3 per vowel at a 1-based position divisible by 3;
- 5 credits for texts longer than 100 characters;
- a 2-credit bonus (a deduction) when no word repeats.

The total is doubled for a palindrome and never goes below 1 credit.

Money is counted in cents, so that every rule is exact integer arithmetic.
A rate of 0.05 is 5, one credit is 100, and the floor is `Max(100, total)`.
Every rule yields a whole number of cents, so `round(total, 2)` changes
nothing and is not modelled.

Modules, one concept each:

- `Common`: `Option` and `Result`.
- `TextMetrics` (`text_metrics.dfy`): the word scan of `extract_words`, the
  cleaning and palindrome check of `is_palindrome`, and the positional
  vowel count of `calculate_third_vowel_cost`.
  - The scan is characterised independently by `Tokenizes`: the text is the
    words interleaved with gaps, every word is a maximal run of word
    characters, and no gap holds a word character. `ExtractWordsTokenizes`
    and `TokenizationIsUnique` together say that the scan returns exactly
    the one tokenization a text has.
- `CostRules` (`cost_rules.dfy`): the character, word-bucket, vowel,
  length-penalty and unique-word rules. The word-bucket rule is proved equal
  to a per-word sum, and the unique-word rule to "no word occurs twice".
- `CreditCalculator` (`credit_calculator.dfy`): `calculate_credits`.
- `ReportLookup` (`report_lookup.dfy`):
  - what a report lookup returns: a report, no report, or a fatal error;
  - how `fetch_report` classifies the HTTP status code.
- `UsageResolver` (`usage_resolver.dfy`):
  - `process_report` and `process_message`: the method `ProcessMessage` is
    proved equal to the specification function `Resolve`;
  - `process_messages`: the loop of the method `ProcessMessages` is proved
    equal to the specification function `ProcessAll`.
  - The report service is a parameter, `lookup: string -> LookupOutcome`.
- `TextExamples`, `CreditExamples`, `UsageExamples` (`app_tests.dfy`): the
  concrete cases of `test_app.py`, stated as lemmas about the model.

An exception that ends the request becomes an `Err` value. There are three
kinds:

- the `ValueError` for a message that is not an object, or that lacks a key;
- the exceptions of `fetch_report`;
- the `RequestException` of the HTTP client.

The keys are read in the order the code reads them: `id`, `timestamp`,
then `text`. In the report branch, `message["text"]` is evaluated as an
argument before `fetch_report` runs. So a missing text is reported before
any lookup error.

## Model

| member | source | states |
|---|---|---|
| TextMetrics.RunLength | app.py:35 | the run is a prefix of word characters (`[a-zA-Z'-]`), no longer than the text, and the next character, if any, is not a word character (the run is maximal) |
| TextMetrics.ExtractWords | app.py:44-45 | every token found is a non-empty run of word characters |
| TextMetrics.Gaps | app.py:44-45 | there is one gap more than there are tokens, and a text that starts outside a word starts with a non-empty gap |
| TextMetrics.ExtractWordsTokenizes | app.py:44-45 | the tokens and gaps of the scan tokenize the text: interleaved they give back the text, the gaps hold no word character, and the inner gaps are non-empty |
| TextMetrics.TokenizationIsUnique | app.py:44-45 | any tokenization of a text has exactly the tokens and gaps the scan produces, so the scan finds all maximal runs, in order |
| TextMetrics.TokenizesPrependGapChar | app.py:44-45 | a non-word character before a tokenized text joins its first gap |
| TextMetrics.TokenizesPrependWord | app.py:44-45 | a word before a tokenized text that starts outside a word becomes its first token |
| TextMetrics.TokenizesAfterGapChar | app.py:44-45 | the scan's tokenization survives skipping one non-word character |
| TextMetrics.TokenizesAfterWord | app.py:44-45 | the scan's tokenization survives taking one maximal run |
| TextMetrics.TokenizesDropGapChar | app.py:44-45 | a tokenization whose first gap is non-empty starts with a non-word character, and the rest of the text is tokenized by the shortened gap |
| TextMetrics.TokenizesDropWord | app.py:44-45 | a tokenization whose first gap is empty starts with its first word as a maximal run, and the rest of the text is tokenized by the remaining words |
| TextMetrics.UniqueAfterGapChar | app.py:44-45 | a tokenization that agrees with the scan after a leading non-word character agrees with it on the whole text |
| TextMetrics.UniqueAfterWord | app.py:44-45 | a tokenization that agrees with the scan after the leading word agrees with it on the whole text |
| TextMetrics.RunLengthAppend | app.py:35 | the first run of `a + b` is the first run of `a`, unless the run fills all of `a`, in which case it goes on into `b` |
| TextMetrics.AppendFirstRun | app.py:35 | when `a` starts with a word that cannot run on into `b`, the first run of `a + b` is that of `a` |
| TextMetrics.AppendSlices | app.py:44-45 | cutting `a + b` inside `a` cuts `a`, and a text ending outside a word still does after its first `n` characters are removed |
| TextMetrics.ExtractWordsAppend | app.py:44-45 | cutting a text where no word can continue splits its list of words into the two lists, in order |
| TextMetrics.InterleavePrependGap | app.py:44-45 | text before an interleaving joins its first gap |
| TextMetrics.RunLengthOfWord | app.py:35 | a word followed by the end or by a non-word character is exactly one run |
| TextMetrics.KeepAlnum | app.py:41 | `re.sub(r'[^a-zA-Z0-9]', '', …)`: the alphanumeric characters in order; characterised by `KeepAlnumKeepsAlnum` and `KeepAlnumAppend` |
| TextMetrics.Cleaned | app.py:41 | the lower-cased text with every non-alphanumeric character removed; `CleanedIsLowerAlnum` bounds it |
| TextMetrics.IsPalindrome | app.py:37-42 | the cleaned text equals its reversal; `PalindromeIffMirrored` restates it character by character, `PalindromeOfReverse` and `PalindromeIgnoresCase` give its symmetries |
| TextMetrics.Lower | app.py:41 | `text.lower()` keeps the length and lower-cases each character on its own |
| TextMetrics.LowerAppend | app.py:41 | lower-casing a concatenation lower-cases each part |
| TextMetrics.KeepAlnumKeepsAlnum | app.py:41 | removing `[^a-zA-Z0-9]` leaves only alphanumeric characters taken from the text; it is the identity on an alphanumeric text and gives the empty text when there is no alphanumeric character |
| TextMetrics.KeepAlnumAppend | app.py:41 | the removal works on each part of a concatenation separately |
| TextMetrics.CleanedIsLowerAlnum | app.py:41 | the compared text has only lower-case letters and digits, and is no longer than the message |
| TextMetrics.Reverse | app.py:42 | `[::-1]` keeps the length |
| TextMetrics.ReverseAt | app.py:42 | position `k` of the reversal holds position `n-1-k` of the text |
| TextMetrics.ReverseAppend | app.py:42 | reversing a concatenation reverses and swaps the parts |
| TextMetrics.ReverseReverse | app.py:42 | reversing twice gives the text back |
| TextMetrics.KeepAlnumReverse | app.py:41-42 | removing punctuation commutes with reversal |
| TextMetrics.LowerReverse | app.py:41-42 | lower-casing commutes with reversal |
| TextMetrics.PalindromeIffMirrored | app.py:37-42 | a text is a palindrome exactly when its cleaned form reads the same from both ends, character by character |
| TextMetrics.PalindromeOfReverse | app.py:37-42 | a text is a palindrome exactly when its reversal is |
| TextMetrics.PalindromeIgnoresCase | app.py:37-42 | a text is a palindrome exactly when its lower-cased form is |
| TextMetrics.ThirdVowelHits | app.py:51-53 | the number of vowels at 1-based positions divisible by 3, counted one position at a time from the end; `ThirdVowelHitsCountsPositions` equates it with the size of the set of such positions |
| TextMetrics.ThirdVowelHitsCountsPositions | app.py:47-53 | the hit count equals the number of 1-based positions `i` with `i % 3 == 0` whose character is in `VOWELS` |
| TextMetrics.ThirdVowelPositionsStep | app.py:51-53 | the counted positions of a text are those of the text without its last character, plus the last position when it counts |
| TextMetrics.ThirdVowelHitsBound | app.py:51-53 | at most one hit per three characters |
| TextMetrics.ThirdVowelHitsAppend | app.py:51-53 | after a prefix whose length is a multiple of 3, the rest is counted as if on its own |
| TextMetrics.ThirdVowelHitsOfThree | app.py:51-53 | in three characters only the third position counts |
| TextMetrics.ThirdVowelHitsOfSix | app.py:51-53 | in six characters only the third and the sixth positions count |
| TextMetrics.ThirdVowelHitsShortText | app.py:51-53 | a text of fewer than three characters has no hit |
| CostRules.CharCost | app.py:55-56 | 5 cents per character; used in `PreDoublingTotalFromRules` as `5 * |text|` |
| CostRules.WordCosts | app.py:58-76 | the sum over the three length categories of their word count times their cost; `WordCostsByCategory` unfolds it into 10/20/30 cents per category and `WordCostsIsPerWordSum` equates it with the per-word sum |
| CostRules.CountInBucket | app.py:74 | a category counts at most as many words as there are |
| CostRules.BucketsPartitionLengths | app.py:67-71 | every word of at least one character is in exactly one length category, and the empty word is in none |
| CostRules.WordCostsByCategory | app.py:58-76 | the word cost is 0.1 per short, 0.2 per medium and 0.3 per long word |
| CostRules.WordCostsIsPerWordSum | app.py:58-76 | counting per category gives the same total as charging each word by its own length |
| CostRules.PerWordCostsAppend | app.py:58-76 | the per-word sum of two lists is the sum of their sums |
| CostRules.WordCostsAppend | app.py:58-76 | the word cost of two lists joined is the sum of their costs |
| CostRules.PerWordCostsRemove | app.py:58-76 | taking a word out of the list takes its cost out of the per-word sum |
| CostRules.MultisetRemove | app.py:58-76 | taking a word out of the list takes one copy of it out of the multiset of words |
| CostRules.PerWordCostsPermutation | app.py:58-76 | the per-word sum does not depend on the order of the words |
| CostRules.WordCostsPermutation | app.py:58-76 | the word cost does not depend on the order of the words |
| CostRules.WordCostsBounds | app.py:58-76 | for non-empty words the cost is between 0.1 and 0.3 per word |
| CostRules.ThirdVowelCost | app.py:47-53 | the vowel cost is never negative and at most 0.1 per character |
| CostRules.LengthPenaltyCost | app.py:85 | 500 cents when the text has more than 100 characters, else 0; used in `PreDoublingTotalFromRules` and `LongTextIsNeverFloored` |
| CostRules.UniqueWordBonusCost | app.py:86 | -200 cents when `len(set(words)) == len(words)`, else 0; `UniqueWordBonusIffNoDuplicates` equates the condition with "no word occurs twice" |
| CostRules.DistinctWordsCons | app.py:86 | the set of a list's words is its first word together with the set of the rest |
| CostRules.DistinctCountIffNoDuplicates | app.py:86 | `set(words)` is never larger than the list, and is the same size exactly when no word occurs twice |
| CostRules.UniqueWordBonusIffNoDuplicates | app.py:86 | the -2 bonus is granted exactly when the words are pairwise different, for the empty list too |
| CreditCalculator.PreDoublingTotal | app.py:78-95 | base plus the character, word, vowel, length-penalty and unique-word costs; `PreDoublingTotalFromRules` restates it with the independent definitions of each rule, `PreDoublingTotalBounds` bounds it |
| CreditCalculator.DoubledTotal | app.py:97-98 | twice the pre-doubling total for a palindrome, else the total itself; `CreditsDoubleForPalindromes` states both branches through `Credits` |
| CreditCalculator.Credits | app.py:97-100 | the credits are at least 1, are either exactly 1 or the doubled-if-palindrome total, and are that total whenever it is at least 1 |
| CreditCalculator.PreDoublingTotalFromRules | app.py:78-95 | the pre-doubling total is 1 + 0.05 per character + each word's own cost + 0.3 per counted vowel position + 5 past 100 characters - 2 when no word repeats |
| CreditCalculator.CreditsDoubleForPalindromes | app.py:97-100 | a palindrome is charged `max(1, 2 * total)` and any other text `max(1, total)` |
| CreditCalculator.LongTextIsNeverFloored | app.py:85-100 | past 100 characters the total is at least 9.05 before doubling, so the floor never applies |
| CreditCalculator.PreDoublingTotalBounds | app.py:78-95 | the total lies between `1 + 0.05n + 0.1w - 2` and `1 + 0.05n + 0.3w + 0.1n + 5`, for `n` characters and `w` words |
| ReportLookup.ClassifyStatus | app.py:122-137 | 200 gives the body, 404 no report, 403 access forbidden, 500 and above service unavailable, any other status an unexpected-status error; each of these holds in both directions |
| UsageResolver.ProcessReport | app.py:142-149 | a fatal lookup is the result's error and nothing else fails; a found non-empty report gives its `name` and its `credit_cost` (0 when absent); no report or an empty one gives no name and the local credits; conversely, other credits or a name come only from a found non-empty report |
| UsageResolver.Resolve | app.py:157-179 | the record or error of one message: the key checks in order, then the report's values or the local credits, with the name kept only when truthy; characterised by `ResolveErrors`, `ResolveUsesFoundReport`, `ResolveFallsBackToCredits` and `ResolvedRecordProvenance` |
| UsageResolver.ProcessMessage | app.py:157-179 | the method builds exactly the record or error that `Resolve` specifies |
| UsageResolver.ResolveErrors | app.py:157-179 | a non-object, a missing `id`, a missing `timestamp` and a missing `text` each give their own error, in that order of precedence; a report error happens exactly when the keys are present, the report id is truthy and its lookup is fatal, and it carries the lookup's error |
| UsageResolver.ResolveUsesFoundReport | app.py:142-177 | a found non-empty report sets the credits to its `credit_cost` (0 when absent), and sets the name only when the report's name is truthy |
| UsageResolver.ResolveFallsBackToCredits | app.py:142-168 | without a truthy report id, or when the report is missing or empty, the record holds the local credits and no name |
| UsageResolver.ResolvedRecordProvenance | app.py:157-177 | a record keeps the message's id and timestamp; a report name is the found report's non-empty name; credits below 1 can only come from a found report |
| UsageResolver.ResolveDependsOnlyOnOwnReport | app.py:118-165 | only the message's own report id is looked up, so a cached and an uncached lookup that agree there give the same record, and a message without a report id is looked up not at all |
| UsageResolver.ProcessAll | app.py:151-155 | the records of the batch in order, or the first error; characterised by `ProcessAllRecords`, `ProcessAllFirstError`, `ProcessAllSucceedsIffEach` and `ProcessAllAppend` |
| UsageResolver.ProcessMessages | app.py:151-155 | the loop returns exactly `ProcessAll`: the records in order, or the first error |
| UsageResolver.ProcessAllErrorPersists | app.py:151-155 | an error in a prefix of the batch is the error of the whole batch |
| UsageResolver.ProcessAllOkEach | app.py:151-155 | in a successful batch every message resolves |
| UsageResolver.ProcessAllEachOk | app.py:151-155 | a batch whose every message resolves succeeds |
| UsageResolver.ProcessAllSucceedsIffEach | app.py:151-155 | the batch succeeds exactly when every message does |
| UsageResolver.ProcessAllRecords | app.py:151-155 | a successful batch has one record per message, in order, each the message's own |
| UsageResolver.ProcessAllFirstError | app.py:151-155 | a failed batch fails with the error of its first failing message, and every earlier message succeeds |
| UsageResolver.ProcessAllAppend | app.py:151-155 | processing two batches joined is processing each: the first error, else the records concatenated |
| UsageResolver.RecordInBatchIsRecordAlone | app.py:151-155 | a message gets the same record in a batch as when processed alone |
| TextExamples.PalindromeExample | test_app.py:25 | "A man a plan a canal Panama" is a palindrome |
| TextExamples.NotPalindromeExample | test_app.py:26 | "Hello, World!" is not a palindrome |
| TextExamples.ExtractWordsExample | test_app.py:28-30 | the words of "Hello, World! Isn't it great?" are Hello, World, Isn't, it, great |
| TextExamples.ThirdVowelHitsExample | test_app.py:32-35 | "Hello, World!" has exactly one counted vowel |
| TextExamples.HelloAmazingWorldWords | test_app.py:47 | the words of "Hello, amazing world!" are Hello, amazing, world |
| TextExamples.HelloAmazingWorldVowels | test_app.py:47 | "Hello, amazing world!" has exactly one counted vowel |
| TextExamples.HelloAmazingWorldNotPalindrome | test_app.py:47 | "Hello, amazing world!" is not a palindrome |
| TextExamples.HelloWorldWords | test_app.py:62 | the words of "Hello, world!" are Hello and world |
| TextExamples.HelloWorldVowels | test_app.py:62 | "Hello, world!" has one counted vowel |
| TextExamples.HelloWorldNotPalindrome | test_app.py:62 | "Hello, world!" is not a palindrome |
| CreditExamples.ThirdVowelCostExample | test_app.py:32-35 | the vowel cost of "Hello, World!" is 0.3 |
| CreditExamples.CharCostExample | test_app.py:37-39 | 25 characters cost 1.25 |
| CreditExamples.WordCostsExample | test_app.py:41-44 | Hi, there, amazing and world cost 0.7 |
| CreditExamples.CreditsExample | test_app.py:46-49 | "Hello, amazing world!" totals 0.95 before the floor and costs 1 credit |
| CreditExamples.HelloWorldCredits | test_app.py:66-70 | "Hello, world!" totals 0.35 before the floor and costs 1 credit |
| UsageExamples.FetchReportExample | test_app.py:51-57 | a 200 response gives its body |
| UsageExamples.ProcessReportExample | test_app.py:59-64 | a found report gives its name and its cost of 10 credits |
| UsageExamples.ProcessReportNotFoundExample | test_app.py:66-70 | with no report, the local credits of 1 are used and there is no name |
| UsageExamples.ResolveHelloMessage | test_app.py:86-96 | the test message without a report id gives a record with id 123, its timestamp, 1 credit and no name |
| UsageExamples.ProcessAllSingle | app.py:151-155 | a batch of one message that resolves holds that message's record |
| UsageExamples.ProcessMessagesExample | test_app.py:72-84 | a batch of the one test message gives one record |

## Left out

- The Flask application, the `/usage` route and its HTTP status mapping (app.py:181-194). These are web framework glue.
- `fetch_messages` (app.py:104-116). This is network I/O: the batch is a parameter.
- The HTTP request of `fetch_report`. Modelled are its status branch (`ClassifyStatus`) and its outcome (`LookupOutcome`). A `RequestException` is the outcome `Fatal(RequestFailed)`, and the lookup function of the model may return it for any report id.
- The `lru_cache` on `fetch_report`. The cache does not change results; `ResolveDependsOnlyOnOwnReport` states the part of this the model can express.
- Logging. It has no effect on results.
- Floating point. Amounts are exact integer cents. A `credit_cost` from the report service that is not a whole number of cents cannot be represented. `round(total, 2)` is the identity on whole cents.
- Values of the wrong JSON type are not modelled: a non-string text or timestamp, a non-integer id, or a `name` that is not a string.
- An explicit JSON `null` in a message is modelled as an absent key (`None`). For `report_id` the code treats the two alike. For `id` and `timestamp` the code accepts a `null` and records it; the model reports a missing key instead.
- A `null` text is also modelled as a missing text. The code fails with a `TypeError` inside `calculate_credits` when the local credits are calculated, and succeeds when a truthy report id finds a non-empty report, since `calculate_credits` is then never called; the model reports `MissingKey("text")` in both cases.
- In a report body, a `null` `name` is modelled as an absent name together with `otherKeys` true, so `{"name": null}` is a non-empty report, exactly as the code treats it (no name, 0 credits). A `null` `credit_cost` is not modelled: the code records `None` as the credits, which has no counterpart in whole cents.
- A 200 body that is not a JSON object is not modelled: a non-empty list or a string makes `report_data.get` raise `AttributeError`, and an empty list or `null` falls back to the local credits, which the model can only represent as an empty `ReportData`.
- `TextMetrics.Lower`: lower-cases only ASCII letters. Python's `str.lower()` also maps other Unicode letters. The cleaning step then drops every character outside `[a-zA-Z0-9]`, so the palindrome check differs only for a non-ASCII letter whose lower-case form is an ASCII letter or digit (such as the Kelvin sign).
- The regular-expression engine is not modelled generally. `ExtractWords` is the left-to-right longest-run scan that `re.findall` performs for this single-character-class pattern.
- The example lemmas name the concrete expected values; the timestamp at test_app.py:95 is checked only for presence there, and the model states it exactly.

The code was followed where the tests' comments differ from it:

- The breakdown in the comment at test_app.py:44 (0.1 + 0.2 + 0.3 + 0.3)
  does not add up to the asserted 0.7. By the code, "Hi" is short and
  "there", "amazing" and "world" are medium (7 characters or fewer), which
  gives 0.1 + 3 * 0.2 = 0.7.
- A found report with an absent or empty name still sets the credits
  verbatim, but the record gets no report name. So a record can hold fewer
  than 1 credit without naming a report (`ResolvedRecordProvenance`).
