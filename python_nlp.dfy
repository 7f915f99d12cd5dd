/** The Python similarity service (services/python-nlp/main.py). The word
    vectors are random, so only which words have a vector matters here: the
    loaded vocabulary is `Some(words)`, and `None` stands for vectors not
    loaded yet. The cosine of two vectors and the normal noise term are
    parameters that may be any real. Python's `set` and `len` work on code
    points, as Dafny's strings do. */
module PythonNlp {
  import opened Wrappers
  import opened CharStats

  function Min(x: real, y: real): real { if x <= y then x else y }
  function Max(x: real, y: real): real { if x >= y then x else y }
  function Abs(n: int): nat { if n < 0 then -n else n }

  /** `max(0.0, min(1.0, x))`. */
  function Clamp01(x: real): (r: real)
    ensures 0.0 <= r <= 1.0
    ensures 0.0 <= x <= 1.0 ==> r == x
  {
    Max(0.0, Min(1.0, x))
  }

  /** `1 - abs(len(word1) - len(word2)) / max(len(word1), len(word2))`. */
  function LengthSimilarity(word1: string, word2: string): (r: real)
    requires |word1| > 0 || |word2| > 0
    ensures 0.0 <= r <= 1.0
    ensures |word1| == |word2| <==> r == 1.0
  {
    var m := if |word1| >= |word2| then |word1| else |word2|;
    var d := Abs(|word1| - |word2|);
    RatioBound(d as real, m as real);
    1.0 - (d as real) / (m as real)
  }

  lemma {:induction false} RatioBound(d: real, m: real)
    requires 0.0 <= d <= m && m > 0.0
    ensures 0.0 <= d / m <= 1.0
    ensures d / m == 0.0 <==> d == 0.0
  {
  }

  lemma {:induction false} LengthSimilaritySymmetric(word1: string, word2: string)
    requires |word1| > 0 || |word2| > 0
    ensures LengthSimilarity(word1, word2) == LengthSimilarity(word2, word1)
  {
  }

  /** `character_similarity(word1, word2)`, the score for words without a
      vector. */
  function CharacterSimilarity(word1: string, word2: string): (r: real)
    ensures word1 == word2 ==> r == 1.0
    ensures 0.0 <= r <= 1.0
    ensures word1 != word2 ==> r <= 0.4
  {
    if word1 == word2 then 1.0
    else
      var set1, set2 := CharSet(word1), CharSet(word2);
      if |set1 + set2| == 0 then 0.0
      else
        CharSetEmpty(word1);
        CharSetEmpty(word2);
        var jaccard := Jaccard(set1, set2);
        var lenSim := LengthSimilarity(word1, word2);
        var similarity := (jaccard * 0.7 + lenSim * 0.3) * 0.5;
        Max(0.05, Min(0.4, similarity))
  }

  /** The `union == 0` branch is dead: after the equality guard the union of
      the character sets is never empty, so distinct words always score in
      [0.05, 0.4]. */
  lemma {:induction false} CharacterSimilarityDistinctBounds(word1: string, word2: string)
    requires word1 != word2
    ensures |CharSet(word1) + CharSet(word2)| > 0
    ensures 0.05 <= CharacterSimilarity(word1, word2) <= 0.4
  {
    UnionNonEmpty(word1, word2);
  }

  lemma {:induction false} CharacterSimilaritySymmetric(word1: string, word2: string)
    ensures CharacterSimilarity(word1, word2) == CharacterSimilarity(word2, word1)
  {
    if word1 != word2 {
      JaccardSymmetric(word1, word2);
    }
  }

  /** The `(similarity, found_word1, found_word2)` triple. */
  datatype Scored = Scored(similarity: real, foundWord1: bool, foundWord2: bool)

  /** `calculate_similarity(word1, word2)`; `cosine` is what
      `cosine_similarity` returns for the two vectors and `noise` the draw of
      `np.random.normal(0, 0.02)`. */
  function CalculateSimilarity(vocabulary: Option<set<string>>, word1: string, word2: string,
                               cosine: real, noise: real): (r: Scored)
    ensures vocabulary.None? ==> r == Scored(0.1, false, false)
    ensures vocabulary.Some? ==>
      r.foundWord1 == (word1 in vocabulary.value) && r.foundWord2 == (word2 in vocabulary.value)
    ensures vocabulary.Some? && word1 == word2 ==> r.similarity == 1.0
    ensures vocabulary.Some? && word1 != word2 && !(r.foundWord1 && r.foundWord2) ==>
      r.similarity == CharacterSimilarity(word1, word2) && 0.05 <= r.similarity <= 0.4
    ensures 0.0 <= r.similarity <= 1.0
  {
    match vocabulary
    case None => Scored(0.1, false, false)
    case Some(words) =>
      var found1, found2 := word1 in words, word2 in words;
      if word1 == word2 then Scored(1.0, found1, found2)
      else if !found1 || !found2 then
        CharacterSimilarityDistinctBounds(word1, word2);
        Scored(CharacterSimilarity(word1, word2), found1, found2)
      else
        var similarity := Clamp01((cosine + 1.0) / 2.0);
        Scored(Clamp01(similarity + noise), found1, found2)
  }

  /** For two known, distinct words the score is the cosine mapped from
      [-1, 1] onto [0, 1], moved by the noise and clamped again. */
  lemma {:induction false} KnownPairScore(words: set<string>, word1: string, word2: string, cosine: real, noise: real)
    requires word1 != word2 && word1 in words && word2 in words
    requires -1.0 <= cosine <= 1.0
    ensures var base := (cosine + 1.0) / 2.0;
      CalculateSimilarity(Some(words), word1, word2, cosine, noise).similarity == Clamp01(base + noise)
    ensures noise == 0.0 ==>
      CalculateSimilarity(Some(words), word1, word2, cosine, noise).similarity == (cosine + 1.0) / 2.0
  {
  }

  /** The `/health` reply: `status` is "healthy" and `model_loaded` true
      exactly when the vectors are loaded. */
  datatype HealthReport = HealthReport(status: string, modelLoaded: bool, vocabSize: nat)

  function HealthCheck(vocabulary: Option<set<string>>): (h: HealthReport)
    ensures h.modelLoaded <==> vocabulary.Some?
    ensures h.status == (if vocabulary.Some? then "healthy" else "loading")
    ensures vocabulary.Some? ==> h.vocabSize == |vocabulary.value|
  {
    match vocabulary
    case None => HealthReport("loading", false, 0)
    case Some(words) => HealthReport("healthy", true, |words|)
  }
}
