/** `GET` and `PUT /api/admin/daily-word`
    (src/app/api/admin/daily-word/route.ts): both check the bearer token
    first, and every exception, whatever its cause, becomes a 401 carrying
    the exception's message. `jwt.verify` is the parameter `verify`. */
module DailyWordRoute {
  import opened Wrappers
  import opened Text
  import opened Http
  import Storage
  import AdminService

  const TokenRequiredMessage: string := "인증 토큰이 필요합니다."

  /** What `jwt.verify` does with a token and a secret: returns the payload,
      or throws an error with a message. */
  datatype Verdict = Verified | Rejected(message: string)

  /** `authHeader.split(' ')[1]`, after the missing-header check: the text
      between the first and second space. The scheme word before it is not
      looked at. */
  function BearerToken(authorization: Option<string>): (token: Result<string, string>)
    ensures authorization.None? || authorization == Some("") ==> token == Err(TokenRequiredMessage)
    ensures token.Err? ==> token.error == TokenRequiredMessage
    ensures token.Ok? ==> token.value != "" && ' ' !in token.value
  {
    if authorization.None? || authorization.value == "" then Err(TokenRequiredMessage)
    else
      var parts := Split(authorization.value, " ");
      if |parts| < 2 || parts[1] == "" then Err(TokenRequiredMessage)
      else
        SplitPartsFree(authorization.value, " ");
        FreeChar(parts[1], ' ');
        Ok(parts[1])
  }

  /** `<scheme> <token>` gives the token, whatever the scheme, and so does
      `<scheme> <token> <more>`. */
  lemma {:induction false} BearerTokenFound(scheme: string, token: string, more: Option<string>)
    requires ' ' !in scheme && ' ' !in token && token != ""
    ensures more.None? ==> BearerToken(Some(scheme + " " + token)) == Ok(token)
    ensures more.Some? ==> BearerToken(Some(scheme + " " + token + " " + more.value)) == Ok(token)
  {
    if more.None? {
      FreeChar(token, ' ');
      SplitFree(token, " ");
      TokenSecond(scheme, token);
    } else {
      SplitCharCons(token, ' ', more.value);
      assert scheme + " " + token + " " + more.value == scheme + " " + (token + [' '] + more.value);
      TokenSecond(scheme, token + [' '] + more.value);
    }
  }

  /** The split of `<scheme> <tail>` is the scheme followed by the split of
      the tail. */
  lemma {:induction false} TokenSecond(scheme: string, tail: string)
    requires ' ' !in scheme
    ensures Split(scheme + " " + tail, " ") == [scheme] + Split(tail, " ")
  {
    assert scheme + " " + tail == scheme + [' '] + tail;
    SplitCharCons(scheme, ' ', tail);
  }

  /** A header without a space has no token. */
  lemma {:induction false} NoSpaceNoToken(authorization: string)
    requires ' ' !in authorization
    ensures BearerToken(Some(authorization)).Err?
  {
    FreeChar(authorization, ' ');
    SplitFree(authorization, " ");
  }

  /** `verifyToken(request)`: the token checks first, then `jwt.verify`
      with `JWT_SECRET` or `'secret'`. */
  function VerifyToken(authorization: Option<string>, verify: (string, string) -> Verdict, env: Option<string>)
    : (v: Verdict)
    ensures BearerToken(authorization).Err? ==> v == Rejected(TokenRequiredMessage)
    ensures BearerToken(authorization).Ok? ==>
      v == verify(BearerToken(authorization).value, AdminService.JwtSecret(env))
  {
    match BearerToken(authorization)
    case Err(message) => Rejected(message)
    case Ok(token) => verify(token, AdminService.JwtSecret(env))
  }

  /** `GET`: today's word and date behind a verified token, a 401 with the
      verifier's message otherwise. */
  function Get(db: Storage.Database, today: string, authorization: Option<string>,
               verify: (string, string) -> Verdict, env: Option<string>)
    : (reply: Reply<AdminService.DailyWordInfo>)
    reads db
    ensures VerifyToken(authorization, verify, env).Rejected? ==>
      reply == Reply(401, Failure(VerifyToken(authorization, verify, env).message))
    ensures VerifyToken(authorization, verify, env).Verified? ==>
      reply.status == 200 && reply.body.Success?
      && reply.body.data.date == today
      && reply.body.data.word == (if db.GetDailyWord(today).Some? then db.GetDailyWord(today).value else "")
  {
    match VerifyToken(authorization, verify, env)
    case Rejected(message) => Reply(401, Failure(message))
    case Verified => Reply(200, Success(AdminService.GetDailyWord(db, today)))
  }

  /** `PUT`: the token, then the body, then the gate, then the write of
      today's word. Only the 400 of the gate escapes the 401 of the catch. */
  method Put(db: Storage.Database, today: string, now: string, authorization: Option<string>,
             body: RequestBody, verify: (string, string) -> Verdict, env: Option<string>)
    returns (reply: Reply<AdminService.SetResult>)
    requires db.Valid()
    modifies db
    ensures db.Valid()
    ensures db.attempts == old(db.attempts) && db.admins == old(db.admins)
    ensures reply.status == 200 || reply.status == 400 || reply.status == 401
    ensures reply.status != 200 ==> db.dailyWords == old(db.dailyWords)
    ensures VerifyToken(authorization, verify, env).Rejected? ==>
      reply == Reply(401, Failure(VerifyToken(authorization, verify, env).message))
    ensures VerifyToken(authorization, verify, env).Verified? && body.Unreadable? ==>
      reply == Reply(401, Failure(body.message))
    ensures VerifyToken(authorization, verify, env).Verified? && body == Parsed(JNull) ==>
      reply == Reply(401, Failure(DestructureNullMessage))
    ensures VerifyToken(authorization, verify, env).Verified? && body.Parsed? && body.json != JNull ==>
      var word := WordField(body.json).value;
      && (!PassesWordGate(word) ==> reply == Reply(400, Failure(WordRequiredMessage)))
      && (PassesWordGate(word) ==>
            && reply == Reply(200, Success(AdminService.SetResult(true, word.value.s)))
            && db.GetDailyWord(today) == Some(word.value.s)
            && (forall d :: d != today ==> db.GetDailyWord(d) == old(db.GetDailyWord(d))))
  {
    var verdict := VerifyToken(authorization, verify, env);
    if verdict.Rejected? {
      return Reply(401, Failure(verdict.message));
    }
    if body.Unreadable? {
      return Reply(401, Failure(body.message));
    }
    var field := WordField(body.json);
    if field.Err? {
      return Reply(401, Failure(field.error));
    }
    var word := field.value;
    if !PassesWordGate(word) {
      return Reply(400, Failure(WordRequiredMessage));
    }
    var result := AdminService.SetDailyWord(db, word.value.s, today, now);
    assert AdminService.GetDailyWord(db, today) == AdminService.DailyWordInfo(word.value.s, today);
    reply := Reply(200, Success(result));
  }
}
