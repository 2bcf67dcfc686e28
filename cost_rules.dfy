/**
 * The partial costs of one message. Money is counted in hundredths of a
 * credit (cents), so every rate is a whole number and every sum is exact.
 */
module CostRules {
  import opened Common
  import opened TextMetrics

  const Base: int := 100
  const CharRate: int := 5
  const ThirdVowelRate: int := 30
  const LengthPenaltyThreshold: nat := 100
  const LengthPenalty: int := 500
  const UniqueWordBonus: int := -200

  /** The character cost: 0.05 credits per character of the raw text. */
  function CharCost(length: nat): int {
    CharRate * length
  }

  // ---------------------------------------------------------------------
  // Word-length buckets
  // ---------------------------------------------------------------------

  /** A word-length category: lengths `lo` to `hi` (no upper end when `hi` is None), and its cost per word. */
  datatype Bucket = Bucket(lo: nat, hi: Option<nat>, cost: int)

  /** short (1-3) 0.1, medium (4-7) 0.2, long (8 and more) 0.3. */
  const Buckets: seq<Bucket> := [Bucket(1, Some(3), 10), Bucket(4, Some(7), 20), Bucket(8, None, 30)]

  predicate InBucket(w: string, b: Bucket) {
    b.lo <= |w| && (b.hi.None? || |w| <= b.hi.value)
  }

  /** `sum(1 for word in words if r[0] <= len(word) <= r[1])`. */
  function CountInBucket(ws: seq<string>, b: Bucket): (n: nat)
    ensures n <= |ws|
  {
    if ws == [] then 0 else (if InBucket(ws[0], b) then 1 else 0) + CountInBucket(ws[1..], b)
  }

  /** The sum over the categories of their word count times their cost. */
  function SumOverBuckets(ws: seq<string>, bs: seq<Bucket>): int {
    if bs == [] then 0 else CountInBucket(ws, bs[0]) * bs[0].cost + SumOverBuckets(ws, bs[1..])
  }

  /** `calculate_word_costs`. */
  function WordCosts(ws: seq<string>): int {
    SumOverBuckets(ws, Buckets)
  }

  /** The cost of one word, read off its length directly. */
  function WordCost(w: string): int {
    if 1 <= |w| <= 3 then 10
    else if 4 <= |w| <= 7 then 20
    else if |w| >= 8 then 30
    else 0
  }

  /** The word costs added up one word at a time. */
  function PerWordCosts(ws: seq<string>): int {
    if ws == [] then 0 else WordCost(ws[0]) + PerWordCosts(ws[1..])
  }

  /** Every word of at least one character is in exactly one category, and the empty word in none. */
  lemma BucketsPartitionLengths(w: string)
    ensures (if InBucket(w, Buckets[0]) then 1 else 0)
          + (if InBucket(w, Buckets[1]) then 1 else 0)
          + (if InBucket(w, Buckets[2]) then 1 else 0) == (if |w| >= 1 then 1 else 0)
  {
  }

  lemma WordCostsByCategory(ws: seq<string>)
    ensures WordCosts(ws) ==
      10 * CountInBucket(ws, Buckets[0]) + 20 * CountInBucket(ws, Buckets[1]) + 30 * CountInBucket(ws, Buckets[2])
  {
    var bs := Buckets;
    assert bs[1..][1..][1..] == [];
    calc {
      WordCosts(ws);
      CountInBucket(ws, bs[0]) * 10 + SumOverBuckets(ws, bs[1..]);
      CountInBucket(ws, bs[0]) * 10 + CountInBucket(ws, bs[1]) * 20 + SumOverBuckets(ws, bs[1..][1..]);
      CountInBucket(ws, bs[0]) * 10 + CountInBucket(ws, bs[1]) * 20 + CountInBucket(ws, bs[2]) * 30;
    }
  }

  /** Counting per category gives the same total as charging each word on its own. */
  lemma {:induction false} WordCostsIsPerWordSum(ws: seq<string>)
    ensures WordCosts(ws) == PerWordCosts(ws)
    decreases |ws|
  {
    WordCostsByCategory(ws);
    if ws != [] {
      WordCostsIsPerWordSum(ws[1..]);
      WordCostsByCategory(ws[1..]);
    }
  }

  lemma {:induction false} PerWordCostsAppend(a: seq<string>, b: seq<string>)
    ensures PerWordCosts(a + b) == PerWordCosts(a) + PerWordCosts(b)
    decreases |a|
  {
    if a == [] {
      assert a + b == b;
    } else {
      assert (a + b)[1..] == a[1..] + b;
      PerWordCostsAppend(a[1..], b);
    }
  }

  /** The cost of two word lists together is the sum of their costs. */
  lemma WordCostsAppend(a: seq<string>, b: seq<string>)
    ensures WordCosts(a + b) == WordCosts(a) + WordCosts(b)
  {
    WordCostsIsPerWordSum(a + b);
    WordCostsIsPerWordSum(a);
    WordCostsIsPerWordSum(b);
    PerWordCostsAppend(a, b);
  }

  /** Taking the word at position `k` out of the list takes its cost out of the sum. */
  lemma PerWordCostsRemove(b: seq<string>, k: nat)
    requires k < |b|
    ensures PerWordCosts(b) == WordCost(b[k]) + PerWordCosts(b[..k] + b[k + 1..])
  {
    var x, l, r := b[k], b[..k], b[k + 1..];
    assert b == (l + [x]) + r;
    PerWordCostsAppend(l + [x], r);
    PerWordCostsAppend(l, [x]);
    PerWordCostsAppend(l, r);
    assert PerWordCosts([x]) == WordCost(x);
  }

  /** Taking the word at position `k` out of the list takes it out of the multiset. */
  lemma MultisetRemove(b: seq<string>, k: nat)
    requires k < |b|
    ensures multiset(b[..k] + b[k + 1..]) == multiset(b) - multiset{b[k]}
  {
    var x, l, r := b[k], b[..k], b[k + 1..];
    assert b == l + [x] + r;
    assert multiset(b) == multiset(l) + multiset{x} + multiset(r);
  }

  lemma {:induction false} PerWordCostsPermutation(a: seq<string>, b: seq<string>)
    requires multiset(a) == multiset(b)
    ensures PerWordCosts(a) == PerWordCosts(b)
    decreases |a|
  {
    if a == [] {
      assert |b| == |multiset(b)| == 0;
    } else {
      var x, rest := a[0], a[1..];
      assert a == [x] + rest;
      assert multiset(a) == multiset{x} + multiset(rest);
      assert x in multiset(b);
      var k :| 0 <= k < |b| && b[k] == x;
      var b' := b[..k] + b[k + 1..];
      PerWordCostsRemove(b, k);
      MultisetRemove(b, k);
      assert multiset(rest) == multiset(b');
      PerWordCostsPermutation(rest, b');
    }
  }

  /** The word cost does not depend on the order of the words. */
  lemma WordCostsPermutation(a: seq<string>, b: seq<string>)
    requires multiset(a) == multiset(b)
    ensures WordCosts(a) == WordCosts(b)
  {
    WordCostsIsPerWordSum(a);
    WordCostsIsPerWordSum(b);
    PerWordCostsPermutation(a, b);
  }

  /** For words of at least one character the cost lies between 0.1 and 0.3 credits per word. */
  lemma {:induction false} WordCostsBounds(ws: seq<string>)
    requires forall k :: 0 <= k < |ws| ==> |ws[k]| >= 1
    ensures 10 * |ws| <= WordCosts(ws) <= 30 * |ws|
    decreases |ws|
  {
    WordCostsIsPerWordSum(ws);
    if ws != [] {
      WordCostsBounds(ws[1..]);
      WordCostsIsPerWordSum(ws[1..]);
    }
  }

  // ---------------------------------------------------------------------
  // Positional vowels, length penalty, unique words
  // ---------------------------------------------------------------------

  /** `calculate_third_vowel_cost`: 0.3 credits per vowel at a position divisible by 3. */
  function ThirdVowelCost(text: string): (c: int)
    ensures 0 <= c <= 10 * |text|
  {
    ThirdVowelHitsBound(text);
    ThirdVowelRate * ThirdVowelHits(text)
  }

  /** 5 credits for a text of more than 100 characters. */
  function LengthPenaltyCost(length: nat): int {
    if length > LengthPenaltyThreshold then LengthPenalty else 0
  }

  /** `set(words)`. */
  function DistinctWords(ws: seq<string>): set<string> {
    set w | w in ws
  }

  /** -2 credits when no word occurs twice: `len(set(words)) == len(words)`. */
  function UniqueWordBonusCost(ws: seq<string>): int {
    if |DistinctWords(ws)| == |ws| then UniqueWordBonus else 0
  }

  /** No word occurs at two positions. */
  predicate NoDuplicates(ws: seq<string>) {
    forall i, j :: 0 <= i < j < |ws| ==> ws[i] != ws[j]
  }

  lemma DistinctWordsCons(ws: seq<string>)
    requires ws != []
    ensures DistinctWords(ws) == {ws[0]} + DistinctWords(ws[1..])
  {
    assert forall w :: w in ws <==> w == ws[0] || w in ws[1..];
  }

  /** The set of words has as many elements as the list exactly when no word repeats. */
  lemma {:induction false} DistinctCountIffNoDuplicates(ws: seq<string>)
    ensures |DistinctWords(ws)| <= |ws|
    ensures |DistinctWords(ws)| == |ws| <==> NoDuplicates(ws)
    decreases |ws|
  {
    if ws == [] {
      assert DistinctWords(ws) == {};
    } else {
      var rest := ws[1..];
      DistinctWordsCons(ws);
      DistinctCountIffNoDuplicates(rest);
      if ws[0] in rest {
        assert ws[0] in DistinctWords(rest);
        var j :| 0 <= j < |rest| && rest[j] == ws[0];
        assert ws[0] == ws[j + 1];
        assert !NoDuplicates(ws);
      } else {
        assert ws[0] !in DistinctWords(rest);
        if NoDuplicates(ws) {
          assert NoDuplicates(rest) by {
            forall i, j | 0 <= i < j < |rest| ensures rest[i] != rest[j] {
              assert rest[i] == ws[i + 1] && rest[j] == ws[j + 1];
            }
          }
        }
        if NoDuplicates(rest) {
          forall i, j | 0 <= i < j < |ws| ensures ws[i] != ws[j] {
            if i == 0 {
              assert ws[j] == rest[j - 1];
            } else {
              assert ws[i] == rest[i - 1] && ws[j] == rest[j - 1];
            }
          }
        }
      }
    }
  }

  /** The bonus is granted exactly when the words are pairwise different, the empty list included. */
  lemma UniqueWordBonusIffNoDuplicates(ws: seq<string>)
    ensures UniqueWordBonusCost(ws) == (if NoDuplicates(ws) then UniqueWordBonus else 0)
  {
    DistinctCountIffNoDuplicates(ws);
  }
}
