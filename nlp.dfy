/** The in-process scorer the guess engine calls (src/lib/nlp.ts): a Jaccard
    index over character sets plus a random term. `Math.random()` is the
    parameter `random`, which the runtime draws from [0, 1). */
module Nlp {
  import opened CharStats

  function Min(x: real, y: real): real
  {
    if x <= y then x else y
  }

  /** `NLPService.calculateSimilarity(word1, word2)`. */
  function CalculateSimilarity(word1: string, word2: string, random: real): (r: real)
    requires 0.0 <= random < 1.0
    ensures word1 == word2 ==> r == 1.0
    ensures word1 != word2 ==> 0.0 <= r <= 0.99
    ensures word1 != word2 && CharSet(word1) == CharSet(word2) ==> r == 0.99
  {
    if word1 == word2 then 1.0
    else
      UnionNonEmpty(word1, word2);
      var jaccard := Jaccard(CharSet(word1), CharSet(word2));
      var randomFactor := random * 0.3;
      Min(jaccard + randomFactor, 0.99)
  }

  /** Only an exact repeat of the answer scores 1.0: every other guess,
      whatever the random draw, stays strictly below it. */
  lemma {:induction false} OnlyExactMatchScoresOne(word1: string, word2: string, random: real)
    requires 0.0 <= random < 1.0
    ensures CalculateSimilarity(word1, word2, random) == 1.0 <==> word1 == word2
  {
  }

  /** The score depends on the words only through their character sets, so
      it ignores order and repetition, and it is symmetric. */
  lemma {:induction false} ScoreDependsOnCharSets(word1: string, word2: string, other1: string, other2: string, random: real)
    requires 0.0 <= random < 1.0
    requires word1 != word2 && other1 != other2
    requires CharSet(word1) == CharSet(other1) && CharSet(word2) == CharSet(other2)
    ensures CalculateSimilarity(word1, word2, random) == CalculateSimilarity(other1, other2, random)
    ensures CalculateSimilarity(word1, word2, random) == CalculateSimilarity(word2, word1, random)
  {
    JaccardSymmetric(word1, word2);
  }
}
