/** What the two API routes share: the parsed request body, JavaScript's
    reading of its `word` field, the guess gate both routes apply to it,
    and the JSON reply. */
module Http {
  import opened Wrappers
  import opened Text

  /** A JSON value as `request.json()` produces it. */
  datatype Json =
    | JNull
    | JBool(b: bool)
    | JNumber(n: real)
    | JString(s: string)
    | JArray(items: seq<Json>)
    | JObject(fields: map<string, Json>)

  /** The outcome of `await request.json()`: the promise rejects with a
      message when the body is not JSON. */
  datatype RequestBody = Unreadable(message: string) | Parsed(json: Json)

  /** The message of the `TypeError` that V8 raises for `const { word } =
      null`. */
  const DestructureNullMessage: string := "Cannot destructure property 'word' of '(intermediate value)' as it is null."

  /** The text both routes send with a 400. */
  const WordRequiredMessage: string := "2글자 이상의 한글 단어를 입력해주세요."

  /** `const { word } = value`: a `TypeError` for `null`; the member `word`
      of an object, `undefined` (`None`) when it has none, and `undefined`
      for every other value, which has no such property. */
  function WordField(value: Json): (word: Result<Option<Json>, string>)
    ensures value.JNull? <==> word == Err(DestructureNullMessage)
    ensures value.JObject? && "word" in value.fields ==> word == Ok(Some(value.fields["word"]))
    ensures !value.JNull? && !(value.JObject? && "word" in value.fields) ==> word == Ok(None)
  {
    match value
    case JNull => Err(DestructureNullMessage)
    case JObject(fields) => if "word" in fields then Ok(Some(fields["word"])) else Ok(None)
    case _ => Ok(None)
  }

  /** JavaScript truthiness of a value that may be `undefined`. JSON has no
      `NaN`, so a number is falsy exactly when it is zero. */
  predicate Truthy(v: Option<Json>)
  {
    match v
    case None => false
    case Some(JNull) => false
    case Some(JBool(b)) => b
    case Some(JNumber(n)) => n != 0.0
    case Some(JString(s)) => s != ""
    case Some(JArray(_)) => true
    case Some(JObject(_)) => true
  }

  /** The gate `!word || typeof word !== 'string' || word.length < 2`,
      negated: the word passes when it is a string of two UTF-16 units or
      more. Nothing checks its script. */
  function PassesWordGate(word: Option<Json>): (pass: bool)
    ensures pass <==> word.Some? && word.value.JString? && Utf16Length(word.value.s) >= 2
  {
    !(!Truthy(word) || !(word.Some? && word.value.JString?) || Utf16Length(word.value.s) < 2)
  }

  /** Any string of two characters or more passes, of any script. */
  lemma {:induction false} TwoCharactersPass(s: string)
    requires |s| >= 2
    ensures PassesWordGate(Some(JString(s)))
  {
  }

  /** What `NextResponse.json` sends: a status and either `{ success: true,
      data }` or `{ success: false, error }`. */
  datatype Reply<T> = Reply(status: nat, body: ReplyBody<T>)
  datatype ReplyBody<T> = Success(data: T) | Failure(error: string)
}
