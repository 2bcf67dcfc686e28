/**
 * `calculate_credits`: the cost rules added up, doubled for a palindrome,
 * and floored at one credit. Amounts are in cents (hundredths of a credit);
 * every rule yields a whole number of cents, so rounding to two decimals
 * changes nothing and the floor is 100 cents.
 */
module CreditCalculator {
  import opened TextMetrics
  import opened CostRules

  const MinimumCredits: int := 100

  function Max(a: int, b: int): int {
    if a >= b then a else b
  }

  /**
   * The total before palindrome doubling: base, characters, word buckets,
   * vowels at every third position, length penalty and unique word bonus.
   */
  function PreDoublingTotal(text: string): int {
    var length := |text|;
    var words := ExtractWords(text);
    Base
      + CharCost(length)
      + WordCosts(words)
      + ThirdVowelCost(text)
      + LengthPenaltyCost(length)
      + UniqueWordBonusCost(words)
  }

  /** The total after palindrome doubling, before the floor. */
  function DoubledTotal(text: string): int {
    if IsPalindrome(text) then 2 * PreDoublingTotal(text) else PreDoublingTotal(text)
  }

  /** The credits a message costs when no report says otherwise. */
  function Credits(text: string): (c: int)
    ensures c >= MinimumCredits
    ensures c == MinimumCredits || c == DoubledTotal(text)
    ensures DoubledTotal(text) >= MinimumCredits ==> c == DoubledTotal(text)
  {
    Max(MinimumCredits, DoubledTotal(text))
  }

  /**
   * The pre-doubling total in terms of the independent description of every
   * rule: 0.05 per character, each word charged by its own length, 0.3 per
   * vowel position divisible by 3, 5 for more than 100 characters, -2 when
   * no word repeats (the empty list included).
   */
  lemma PreDoublingTotalFromRules(text: string)
    ensures PreDoublingTotal(text) ==
      100 + 5 * |text| + PerWordCosts(ExtractWords(text)) + 30 * |ThirdVowelPositions(text)|
        + (if |text| > 100 then 500 else 0) + (if NoDuplicates(ExtractWords(text)) then -200 else 0)
  {
    var words := ExtractWords(text);
    WordCostsIsPerWordSum(words);
    ThirdVowelHitsCountsPositions(text);
    UniqueWordBonusIffNoDuplicates(words);
  }

  /** A palindrome is charged twice its pre-doubling total, any other text once; then floored at one credit. */
  lemma CreditsDoubleForPalindromes(text: string)
    ensures IsPalindrome(text) ==> Credits(text) == Max(100, 2 * PreDoublingTotal(text))
    ensures !IsPalindrome(text) ==> Credits(text) == Max(100, PreDoublingTotal(text))
  {
  }

  /**
   * Past 100 characters the floor never applies: the total is at least
   * 1 + 5.05 + 5 - 2 = 9.05 credits before doubling.
   */
  lemma LongTextIsNeverFloored(text: string)
    requires |text| > 100
    ensures PreDoublingTotal(text) >= 905
    ensures Credits(text) == DoubledTotal(text)
  {
    WordCostsBounds(ExtractWords(text));
  }

  /** Bounds of the pre-doubling total in terms of the text and its words. */
  lemma PreDoublingTotalBounds(text: string)
    ensures var n, w := |text|, |ExtractWords(text)|;
      100 + 5 * n + 10 * w - 200 <= PreDoublingTotal(text) <= 100 + 5 * n + 30 * w + 10 * n + 500
  {
    WordCostsBounds(ExtractWords(text));
  }
}
