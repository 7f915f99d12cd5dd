/** The HTTP client for the Python service (src/lib/faiss-client.ts). What the
    network returns is a parameter: a parsed reply, or a failure of any kind
    (timeout, exhausted retries, bad status, unparsable body). */
module FaissClient {
  import opened Wrappers
  import PythonNlp

  const DefaultBaseUrl: string := "http://localhost:8000"

  /** The settings the constructor hands to `ky.extend`. */
  datatype ClientConfig = ClientConfig(
    baseUrl: string,
    timeoutMs: nat,
    retryLimit: nat,
    retryMethods: seq<string>,
    retryStatusCodes: seq<nat>)

  /** `new FAISSClient(baseUrl)`: an omitted argument defaults to
      `NLP_SERVICE_URL`, or to the local URL when that is unset or empty
      (`||` treats the empty string as missing). */
  function NewClient(baseUrl: Option<string>, envUrl: Option<string>): (c: ClientConfig)
    ensures baseUrl.Some? ==> c.baseUrl == baseUrl.value
    ensures baseUrl.None? && envUrl.Some? && envUrl.value != "" ==> c.baseUrl == envUrl.value
    ensures baseUrl.None? && (envUrl.None? || envUrl.value == "") ==> c.baseUrl == DefaultBaseUrl
    ensures c.timeoutMs == 10000 && c.retryLimit == 2
    ensures forall code :: code in c.retryStatusCodes <==> code in {408, 413, 429, 500, 502, 503, 504}
  {
    var url := match baseUrl
      case Some(u) => u
      case None => if envUrl.Some? && envUrl.value != "" then envUrl.value else DefaultBaseUrl;
    ClientConfig(url, 10000, 2, ["get", "post"], [408, 413, 429, 500, 502, 503, 504])
  }

  function Min(x: real, y: real): real { if x <= y then x else y }

  /** The number of positions below `n` at which both words have the same
      character. */
  function MatchCount(word1: string, word2: string, n: nat): (c: nat)
    requires n <= |word1| && n <= |word2|
    ensures c <= n
  {
    if n == 0 then 0
    else MatchCount(word1, word2, n - 1) + (if word1[n - 1] == word2[n - 1] then 1 else 0)
  }

  /** `0.3 + Math.random() * 0.4`, with `random` in [0, 1). */
  function RandomFactor(random: real): (f: real)
    requires 0.0 <= random < 1.0
    ensures 0.3 <= f < 0.7
  {
    0.3 + random * 0.4
  }

  /** The fallback score: 1.0 for identical words; otherwise positional
      matches over the longer length, weighted 0.3, plus the random factor,
      capped at 0.95. */
  function MockScore(word1: string, word2: string, random: real): (s: real)
    requires 0.0 <= random < 1.0
    ensures word1 == word2 ==> s == 1.0
    ensures word1 != word2 ==> 0.3 <= s <= 0.95
  {
    if word1 == word2 then 1.0
    else
      var minLength := if |word1| <= |word2| then |word1| else |word2|;
      var maxLength := if |word1| >= |word2| then |word1| else |word2|;
      var common := MatchCount(word1, word2, minLength);
      var baseSimilarity := (common as real) / (maxLength as real);
      assert 0.0 <= baseSimilarity <= 1.0 by { PythonNlp.RatioBound(common as real, maxLength as real); }
      Min(0.95, baseSimilarity * 0.3 + RandomFactor(random))
  }

  /** `mockSimilarity(word1, word2)`, counting the matching positions in a
      loop as the source does. */
  method MockSimilarity(word1: string, word2: string, random: real) returns (s: real)
    requires 0.0 <= random < 1.0
    ensures s == MockScore(word1, word2, random)
  {
    if word1 == word2 {
      return 1.0;
    }
    var minLength := if |word1| <= |word2| then |word1| else |word2|;
    var maxLength := if |word1| >= |word2| then |word1| else |word2|;
    var commonChars := 0;
    var i := 0;
    while i < minLength
      invariant 0 <= i <= minLength
      invariant commonChars == MatchCount(word1, word2, i)
    {
      if word1[i] == word2[i] {
        commonChars := commonChars + 1;
      }
      i := i + 1;
    }
    var baseSimilarity := (commonChars as real) / (maxLength as real);
    var randomFactor := 0.3 + random * 0.4;
    s := Min(0.95, baseSimilarity * 0.3 + randomFactor);
  }

  /** What came back from `POST similarity`. */
  datatype SimilarityReply = Replied(similarity: real) | Failed

  /** `calculateSimilarity(word1, word2)`: never fails; the remote value on
      success, the fallback score on any failure. */
  method CalculateSimilarity(word1: string, word2: string, reply: SimilarityReply, random: real)
    returns (s: real)
    requires 0.0 <= random < 1.0
    ensures reply.Replied? ==> s == reply.similarity
    ensures reply.Failed? ==> s == MockScore(word1, word2, random)
    ensures reply.Failed? && word1 != word2 ==> 0.3 <= s <= 0.95
  {
    match reply
    case Replied(similarity) =>
      s := similarity;
    case Failed =>
      s := MockSimilarity(word1, word2, random);
  }

  /** What came back from `GET health`. */
  datatype HealthReply = HealthReplied(status: string, modelLoaded: bool) | HealthFailed

  /** `testConnection()`. */
  function TestConnection(reply: HealthReply): (ok: bool)
    ensures ok <==> reply.HealthReplied? && reply.status == "healthy" && reply.modelLoaded
    ensures reply.HealthFailed? ==> !ok
  {
    match reply
    case HealthReplied(status, modelLoaded) => status == "healthy" && modelLoaded
    case HealthFailed => false
  }

  /** Against the Python service, the probe succeeds exactly when that
      service has loaded its vectors. */
  lemma {:induction false} ConnectionMeansLoaded(vocabulary: Option<set<string>>)
    ensures var h := PythonNlp.HealthCheck(vocabulary);
      TestConnection(HealthReplied(h.status, h.modelLoaded)) <==> vocabulary.Some?
  {
  }
}
