/** `POST /api/words/check` (src/app/api/words/check/route.ts): read the
    guess from the body, apply the gate, and hand the guess to the word
    service; every exception becomes a 500 with a fixed text. */
module CheckRoute {
  import opened Wrappers
  import opened Text
  import opened Http
  import Storage
  import Nlp
  import WordService
  import WordInputForm

  const CheckFailedMessage: string := "단어 확인에 실패했습니다."

  /** The handler. `today`, `now` and `random` are the clock and the
      scorer's random draw the service would read. */
  method Post(db: Storage.Database, body: RequestBody, today: string, now: string, random: real)
    returns (reply: Reply<WordService.WordCheckResult>, ghost ranked: seq<Storage.AttemptView>)
    requires db.Valid() && 0.0 <= random < 1.0
    modifies db
    ensures db.Valid()
    ensures db.dailyWords == old(db.dailyWords) && db.admins == old(db.admins)
    ensures reply.status == 200 || reply.status == 400 || reply.status == 500
    ensures body.Unreadable? || body == Parsed(JNull) ==>
      reply == Reply(500, Failure(CheckFailedMessage)) && db.attempts == old(db.attempts)
    ensures body.Parsed? && body.json != JNull && !PassesWordGate(WordField(body.json).value) ==>
      reply == Reply(400, Failure(WordRequiredMessage)) && db.attempts == old(db.attempts)
    ensures body.Parsed? && body.json != JNull && PassesWordGate(WordField(body.json).value) ==>
      var word := WordField(body.json).value.value.s;
      && (old(db.GetDailyWord(today)).None? ==>
            reply == Reply(500, Failure(CheckFailedMessage)) && db.attempts == old(db.attempts))
      && (old(db.GetDailyWord(today)).Some? ==>
            var answer := old(db.GetDailyWord(today)).value;
            var similarity := Nlp.CalculateSimilarity(word, answer, random);
            && reply.status == 200 && reply.body.Success?
            && reply.body.data.word == word
            && reply.body.data.similarity == similarity
            && reply.body.data.isCorrect == (word == answer)
            && Storage.IsRanking(ranked, Storage.TodayRows(db.attempts, today))
            && reply.body.data.rank == WordService.IndexOfWord(ranked, word) + 1
            && 1 <= reply.body.data.rank <= |Storage.TodayRows(db.attempts, today)|
            && db.attempts == old(db.attempts) + [Storage.AttemptRow(word, similarity, today, now)])
  {
    if body.Unreadable? {
      return Reply(500, Failure(CheckFailedMessage)), [];
    }
    var field := WordField(body.json);
    if field.Err? {
      return Reply(500, Failure(CheckFailedMessage)), [];
    }
    var word := field.value;
    if !PassesWordGate(word) {
      return Reply(400, Failure(WordRequiredMessage)), [];
    }
    var result;
    result, ranked := WordService.CheckWordSimilarity(db, word.value.s, today, now, random);
    match result
    case Err(_) =>
      reply := Reply(500, Failure(CheckFailedMessage));
    case Ok(data) =>
      reply := Reply(200, Success(data));
  }

  /** The server accepts every guess the form accepts, and more: `ab` is
      turned away by the form but not by the route. */
  lemma {:induction false} ServerGateIsLaxer(word: string)
    ensures WordInputForm.Validate(word).None? ==> PassesWordGate(Some(JString(word)))
    ensures PassesWordGate(Some(JString("ab"))) && WordInputForm.Validate("ab").Some?
  {
    WordInputForm.AcceptedWords(word);
    WordInputForm.AcceptedWords("ab");
    assert !WordInputForm.IsHangulSyllable("ab"[0]);
    TwoCharactersPass("ab");
  }
}
