/** The guess engine of src/lib/wordService.ts. The date `today` and the
    creation time `now` are parameters; the scorer is the in-process one of
    src/lib/nlp.ts, whose random draw is the parameter `random`. */
module WordService {
  import opened Wrappers
  import opened Storage
  import Nlp

  /** What `checkWordSimilarity` resolves to. */
  datatype WordCheckResult = WordCheckResult(word: string, similarity: real, isCorrect: bool, rank: int)

  /** An entry of `getTodayWordList`; the timestamp text stays unparsed. */
  datatype WordListItem = WordListItem(word: string, similarity: real, timestamp: string)

  /** The message `checkWordSimilarity` throws when today has no word. */
  const NoDailyWordMessage: string := "오늘의 단어가 설정되지 않았습니다"

  /** `findIndex(item => item.word === word)`: the first position holding the
      word, or -1. */
  function IndexOfWord(list: seq<AttemptView>, word: string): (i: int)
    ensures -1 <= i < |list|
    ensures i >= 0 ==> list[i].word == word && forall j :: 0 <= j < i ==> list[j].word != word
    ensures i == -1 <==> forall j :: 0 <= j < |list| ==> list[j].word != word
  {
    if |list| == 0 then -1
    else if list[0].word == word then 0
    else
      var k := IndexOfWord(list[1..], word);
      if k == -1 then -1 else k + 1
  }

  /** Every entry for a word other than `answer` scored below 1.0. This holds
      of a day's attempts as long as the day's word has not changed, because
      the scorer gives 1.0 to an exact match only. */
  ghost predicate OthersBelowOne(rows: seq<AttemptView>, answer: string)
  {
    forall i :: 0 <= i < |rows| && rows[i].word != answer ==> rows[i].similarity < 1.0
  }

  /** The rank a word gets when it occurs in the ranking lies between 1 and
      the ranking's length. */
  lemma {:induction false} RankBounds(ranked: seq<AttemptView>, word: string, k: nat)
    requires k < |ranked| && ranked[k].word == word
    ensures 1 <= IndexOfWord(ranked, word) + 1 <= k + 1 <= |ranked|
  {
  }

  /** The rank reported for a word is the position of its best-scoring
      occurrence: no occurrence of the word scores higher, everything ranked
      above it is another word scoring at least as much, and every entry
      scoring strictly more is ranked above it. */
  lemma {:induction false} RankIsBestOccurrence(ranked: seq<AttemptView>, word: string)
    requires SortedBySimilarity(ranked)
    requires IndexOfWord(ranked, word) >= 0
    ensures var k := IndexOfWord(ranked, word);
      && (forall j :: 0 <= j < |ranked| && ranked[j].word == word ==> ranked[j].similarity <= ranked[k].similarity)
      && (forall j :: 0 <= j < k ==> ranked[j].word != word && ranked[j].similarity >= ranked[k].similarity)
      && (forall j :: 0 <= j < |ranked| && ranked[j].similarity > ranked[k].similarity ==> j < k)
  {
  }

  /** A word that scored 1.0 while every other word scored below 1.0 is
      ranked first, whatever the order among ties. */
  lemma {:induction false} CorrectGuessRanksFirst(ranked: seq<AttemptView>, answer: string, k: nat)
    requires SortedBySimilarity(ranked) && OthersBelowOne(ranked, answer)
    requires k < |ranked| && ranked[k].word == answer && ranked[k].similarity == 1.0
    ensures IndexOfWord(ranked, answer) == 0
  {
  }

  /** `OthersBelowOne` survives a permutation. */
  lemma {:induction false} OthersBelowOnePermuted(a: seq<AttemptView>, b: seq<AttemptView>, answer: string)
    requires multiset(a) == multiset(b) && OthersBelowOne(b, answer)
    ensures OthersBelowOne(a, answer)
  {
    forall i | 0 <= i < |a| && a[i].word != answer ensures a[i].similarity < 1.0 {
      assert a[i] in multiset(b);
    }
  }

  /** What ranking today's attempts right after appending `latest` yields:
      the new entry's word is found, and a correct guess scored 1.0 among
      other words scored below 1.0 is ranked first. */
  lemma {:induction false} RankAfterAppend(before: seq<AttemptView>, latest: AttemptView, ranked: seq<AttemptView>, answer: string)
    requires IsRanking(ranked, before + [latest])
    ensures 1 <= IndexOfWord(ranked, latest.word) + 1 <= |ranked| == |before| + 1
    ensures OthersBelowOne(before, answer) && (latest.word != answer ==> latest.similarity < 1.0) ==>
      OthersBelowOne(before + [latest], answer) && OthersBelowOne(ranked, answer)
    ensures OthersBelowOne(before, answer) && latest.word == answer && latest.similarity == 1.0 ==>
      IndexOfWord(ranked, answer) == 0
  {
    assert |ranked| == |multiset(ranked)| == |multiset(before + [latest])| == |before| + 1;
    assert latest in multiset(ranked);
    var k :| 0 <= k < |ranked| && ranked[k] == latest;
    RankBounds(ranked, latest.word, k);
    if OthersBelowOne(before, answer) && (latest.word != answer ==> latest.similarity < 1.0) {
      assert OthersBelowOne(before + [latest], answer);
      OthersBelowOnePermuted(ranked, before + [latest], answer);
      if latest.word == answer && latest.similarity == 1.0 {
        CorrectGuessRanksFirst(ranked, answer, k);
      }
    }
  }

  /** `checkWordSimilarity(word)`. Without a word for today it fails before
      scoring and writes nothing. Otherwise it scores the guess against the
      answer, records exactly one attempt, and ranks the word in a ranking
      of today's attempts that the query may return (`ranked`). */
  method CheckWordSimilarity(db: Database, word: string, today: string, now: string, random: real)
    returns (r: Result<WordCheckResult, string>, ghost ranked: seq<AttemptView>)
    requires db.Valid() && 0.0 <= random < 1.0
    modifies db
    ensures db.Valid()
    ensures old(db.GetDailyWord(today)).None? ==>
      r == Err(NoDailyWordMessage) && db.attempts == old(db.attempts)
    ensures db.dailyWords == old(db.dailyWords) && db.admins == old(db.admins)
    ensures old(db.GetDailyWord(today)).Some? ==>
      var answer := old(db.GetDailyWord(today)).value;
      var similarity := Nlp.CalculateSimilarity(word, answer, random);
      && db.attempts == old(db.attempts) + [AttemptRow(word, similarity, today, now)]
      && IsRanking(ranked, TodayRows(db.attempts, today))
      && r == Ok(WordCheckResult(word, similarity, word == answer, IndexOfWord(ranked, word) + 1))
      && 1 <= r.value.rank <= |ranked| == |TodayRows(old(db.attempts), today)| + 1
      && (OthersBelowOne(TodayRows(old(db.attempts), today), answer) ==>
            OthersBelowOne(TodayRows(db.attempts, today), answer))
      && (OthersBelowOne(TodayRows(old(db.attempts), today), answer) && word == answer ==>
            r.value.rank == 1 && r.value.similarity == 1.0)
  {
    var dailyWord := db.GetDailyWord(today);
    if dailyWord.None? {
      return Err(NoDailyWordMessage), [];
    }
    var answer := dailyWord.value;
    var similarity := Nlp.CalculateSimilarity(word, answer, random);
    var result;
    result, ranked := RecordAndRank(db, word, answer, similarity, today, now);
    r := Ok(result);
  }

  /** The part of `checkWordSimilarity` after scoring: record the attempt,
      read today's ranking back, and find the word's rank in it. */
  method RecordAndRank(db: Database, word: string, answer: string, similarity: real, today: string, now: string)
    returns (result: WordCheckResult, ghost ranked: seq<AttemptView>)
    requires db.Valid()
    requires word == answer ==> similarity == 1.0
    requires word != answer ==> similarity < 1.0
    modifies db
    ensures db.Valid()
    ensures db.dailyWords == old(db.dailyWords) && db.admins == old(db.admins)
    ensures db.attempts == old(db.attempts) + [AttemptRow(word, similarity, today, now)]
    ensures IsRanking(ranked, TodayRows(db.attempts, today))
    ensures result == WordCheckResult(word, similarity, word == answer, IndexOfWord(ranked, word) + 1)
    ensures 1 <= result.rank <= |ranked| == |TodayRows(old(db.attempts), today)| + 1
    ensures OthersBelowOne(TodayRows(old(db.attempts), today), answer) ==>
      OthersBelowOne(TodayRows(db.attempts, today), answer)
    ensures OthersBelowOne(TodayRows(old(db.attempts), today), answer) && word == answer ==>
      result.rank == 1 && result.similarity == 1.0
  {
    ghost var before := TodayRows(db.attempts, today);
    db.AddWordAttempt(word, similarity, today, now);
    TodayRowsAppend(old(db.attempts), AttemptRow(word, similarity, today, now), today);
    var attempts := db.GetTodayAttempts(today);
    ranked := attempts;
    var latest := AttemptView(word, similarity, now);
    assert TodayRows(db.attempts, today) == before + [latest];
    RankAfterAppend(before, latest, attempts, answer);
    var rank := IndexOfWord(attempts, word) + 1;
    result := WordCheckResult(word, similarity, word == answer, rank);
  }

  function ToItem(v: AttemptView): WordListItem
  {
    WordListItem(v.word, v.similarity, v.timestamp)
  }

  /** `getTodayWordList()`: today's attempts, in the order of a ranking the
      query may return, with word, similarity and time carried over. It
      takes no session and changes nothing. */
  method GetTodayWordList(db: Database, today: string)
    returns (items: seq<WordListItem>, ghost ranked: seq<AttemptView>)
    ensures IsRanking(ranked, TodayRows(db.attempts, today))
    ensures |items| == |ranked| == |TodayRows(db.attempts, today)|
    ensures forall i :: 0 <= i < |items| ==> items[i] == ToItem(ranked[i])
  {
    var attempts := db.GetTodayAttempts(today);
    ranked := attempts;
    items := seq(|attempts|, i requires 0 <= i < |attempts| => ToItem(attempts[i]));
  }

  /** `getAnswer()`: today's word, or the empty string when none is set. */
  function GetAnswer(db: Database, today: string): (answer: string)
    reads db
    ensures db.GetDailyWord(today).Some? ==> answer == db.GetDailyWord(today).value
    ensures db.GetDailyWord(today).None? ==> answer == ""
  {
    WordOrEmpty(db.dailyWords, today)
  }
}
