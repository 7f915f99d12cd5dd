# yementuel in Dafny

yementuel is a Korean word-guessing game in the style of Semantle. Each day has one secret word. A player's guess is scored for similarity against it, recorded, and ranked among every guess made that day. Admins set the word through a token-protected API. Anonymous players are tracked by a session id kept in a cookie and in localStorage.

This project models the game's engine and proves properties of the model:

- **Guess service** (`WordService`).
- **Tables** (`Storage`):
  - One `Storage.Database` class stands for both `src/lib/database.ts` and `server/src/services/database.ts`.
  - `Deployment` selects the one difference between them: the admin login is an e-mail address in the Next.js app and a user name in the Express server, and each file seeds its own default admin.
  - The server file has no `getAllDailyWords`.
- **Three similarity scorers**:
  - the in-process one (`Nlp`, over the `CharStats` set helpers);
  - the HTTP client with its fallback (`FaissClient`);
  - the Python service (`PythonNlp`).
- **Admin service** (`AdminService`).
- **Session strings** on the server (`Session`) and in the browser hook (`UseSession`).
- **Guess form** (`WordInputForm`) and **word list** (`WordListView`).
- **Two API routes** (`CheckRoute` and `DailyWordRoute`, sharing `Http`).

Modelling choices:

- Strings are sequences of code points.
- `Text` supplies what the JavaScript code takes from the language:
  - `split` with a string separator, and `trim` with ECMAScript's whitespace set;
  - `length`, counted in UTF-16 units (`Text.Utf16Length`);
  - the byte-wise text order SQLite uses for `ORDER BY date`.
- Similarities are reals.
- Outside influences are parameters of the operations:
  - `today`, the creation time `now`, every `Math.random()` draw, the Python noise draw and the cosine of two vectors;
  - `NODE_ENV`, `JWT_SECRET` and `NLP_SERVICE_URL`;
  - bcrypt's `compare`, `jwt.sign`, `jwt.verify` and uuid's `v4`.
- Where state changes in place, the model is a class with `modifies` clauses:
  - the tables;
  - the hook's state, `document.cookie` and localStorage;
  - the form's state.

Two things the code does are kept as written:

- Attempts carry no session. Ranking and the word list cover every player of the day, and the list route's session id reaches no query.
- `ORDER BY similarity DESC` has no tie-break. `GetTodayAttempts` therefore promises only *some* ranking of the day's rows (`Storage.IsRanking`: a permutation sorted by similarity). The rank proofs hold for every such order.

## Model

| member | source | states |
|---|---|---|
| Storage.DefaultAdmin | src/lib/database.ts:52-59 | the admin seeded into an empty table is `admin@yementuel.com` in the Next.js app and `admin` in the server |
| Storage.FindDate | src/lib/database.ts:72-74 | the position found holds the date and no earlier row does; none exactly when no row has the date |
| Storage.LookupWord | src/lib/database.ts:72-74 | `getDailyWord` is undefined exactly when no row has the date; a word found belongs to a row with that date |
| Storage.LookupUnique | src/lib/database.ts:22-27 | with dates unique, looking up any row's date gives that row's word |
| Storage.WordOrEmpty | src/lib/adminService.ts:41 | `dailyWord?.word \|\| ''` is the stored word, or `''` when the date has no row |
| Storage.UpsertThenLookup | src/lib/database.ts:76-82 | after the upsert, the date reads back the new word |
| Storage.UpsertKeepsOtherDates | src/lib/database.ts:76-82 | the upsert changes the word of no other date |
| Storage.UpsertKeepsUnique | src/lib/database.ts:76-82 | the upsert keeps dates unique |
| Storage.UpsertIdsBelow | src/lib/database.ts:23 | the upsert keeps every id below the next AUTOINCREMENT value, and updating a date that is present adds no row |
| Storage.UpsertIdempotent | src/lib/database.ts:76-82 | repeating the same upsert leaves the table it produced unchanged |
| Storage.InsertByDate | src/lib/database.ts:84-90 | inserting a row with a new date into a strictly date-descending list keeps it so and adds exactly that row |
| Storage.SortByDateDesc | src/lib/database.ts:88 | the rows in strictly descending date order, as a permutation of the table |
| Storage.TodayRows | src/lib/database.ts:100-106 | the selection holds a view exactly when some attempt of that date has it, as `(word, similarity, created_at as timestamp)`, and is never longer than the table |
| Storage.TodayRowsCount | src/lib/database.ts:100-106 | the selection holds each view exactly as many times as the table has rows of that date with that view: nothing is merged or dropped |
| Storage.InsertBySimilarity | src/lib/database.ts:105 | inserting into a similarity-descending list keeps it sorted and adds exactly the new row |
| Storage.SortBySimilarity | src/lib/database.ts:105 | a ranking of the rows: a permutation with similarity non-increasing |
| Storage.FindAdmin | src/lib/database.ts:110-116 | the admin row with the login, or none exactly when no row has it |
| Storage.Database.constructor | src/lib/database.ts:21-49 | three empty tables |
| Storage.Database.InitDatabase | src/lib/database.ts:51-66 | seeds the admin only into an empty admin table; appends `사과` for today only when today has no row, and leaves an existing row alone; the server copy (`server/src/services/database.ts:51-66`) does the same seeding, with the admin keyed by user name |
| Storage.Database.SeedAdmin | src/lib/database.ts:51-59 | inserts the given admin exactly when the admin table is empty, and touches no other table |
| Storage.Database.SeedToday | src/lib/database.ts:61-66 | appends one `사과` row for today exactly when today has no row, and otherwise leaves the table alone; today then reads its old word or `사과`; the other tables are unchanged |
| Storage.Database.SetDailyWord | src/lib/database.ts:76-82 | the table becomes the upsert; `getDailyWord(date)` is then the word, other dates read as before, and dates stay unique; the server copy (`server/src/services/database.ts:76-82`) does the same upsert |
| Storage.Database.GetAllDailyWords | src/lib/database.ts:84-90 | every row exactly once, newest date first |
| Storage.Database.AddWordAttempt | src/lib/database.ts:93-98 | appends exactly one attempt, even for a repeated guess; the other tables are unchanged; the server copy (`server/src/services/database.ts:85-90`) does the same append |
| Storage.Database.GetTodayAttempts | src/lib/database.ts:100-107 | a ranking of the date's attempts, tie order unspecified; the server copy (`server/src/services/database.ts:92-99`) does the same query |
| Storage.Database.GetAdminUser | src/lib/database.ts:110-116 | the admin with the login, or none exactly when there is none; the server copy (`server/src/services/database.ts:102-108`) does the same, by user name |
| WordService.IndexOfWord | src/lib/wordService.ts:38 | `findIndex`: the first position holding the word, or -1 exactly when none does |
| WordService.RankBounds | src/lib/wordService.ts:37-38 | a word present in the ranking gets a rank between 1 and the ranking's length |
| WordService.RankIsBestOccurrence | src/lib/wordService.ts:38 | the rank is that of the word's best-scoring occurrence; everything above it is another word scoring at least as much, and everything scoring more is above it |
| WordService.CorrectGuessRanksFirst | src/lib/wordService.ts:29-38 | a guess scoring 1.0 ranks first when every other word scored below 1.0 |
| WordService.RankAfterAppend | src/lib/wordService.ts:34-38 | after the append the ranking is one longer and holds the new word; if no other word had scored 1.0 that stays so, and a correct guess scoring 1.0 is ranked first |
| WordService.CheckWordSimilarity | src/lib/wordService.ts:18-46 | without today's word it fails before writing; otherwise it appends exactly one attempt scored by the scorer and reports `isCorrect` iff the guess equals the answer; the rank is the guess's first position in some ranking of today's attempts, between 1 and today's count; when no other word had scored 1.0 that stays true, and a correct guess gets 1.0 and rank 1 |
| WordService.RecordAndRank | src/lib/wordService.ts:31-45 | given a score that is 1.0 for the answer and below 1.0 otherwise: exactly one attempt is appended, `isCorrect` holds iff the guess is the answer, and the rank is the guess's first position in some ranking of today's attempts, one longer than before; a correct guess while every other word scored below 1.0 gets rank 1 |
| WordService.GetTodayWordList | src/lib/wordService.ts:48-57 | reads only; today's attempts as some ranking, with word, similarity and time carried over |
| WordService.GetAnswer | src/lib/wordService.ts:59-63 | today's word, or `''` |
| CharStats.CharSet | src/lib/nlp.ts:12-13 | `new Set(word.split(''))`: exactly the characters of the word |
| CharStats.CharSetEmpty | src/lib/nlp.ts:12-13 | a character set is empty exactly for the empty word |
| CharStats.UnionNonEmpty | src/lib/nlp.ts:15 | distinct words have a non-empty union, so the division is defined |
| CharStats.SameSizeMeansEqual | src/lib/nlp.ts:14-17 | intersection and union have equal size only for equal sets |
| CharStats.Jaccard | src/lib/nlp.ts:17 | the Jaccard index lies in [0, 1] and is 1 exactly for equal sets |
| CharStats.JaccardSymmetric | src/lib/nlp.ts:12-17 | the index does not depend on the order of the words |
| Nlp.CalculateSimilarity | src/lib/nlp.ts:3-23 | identical words score 1.0; distinct words score in [0, 0.99]; distinct words with the same characters score exactly 0.99 |
| Nlp.OnlyExactMatchScoresOne | src/lib/nlp.ts:7-22 | the score is 1.0 exactly when the words are equal |
| Nlp.ScoreDependsOnCharSets | src/lib/nlp.ts:12-22 | for distinct words the score depends only on the two character sets, ignoring order and repetition, and is symmetric |
| PythonNlp.Clamp01 | services/python-nlp/main.py:173 | the clamp lies in [0, 1] and leaves values already there alone |
| PythonNlp.LengthSimilarity | services/python-nlp/main.py:198 | lies in [0, 1], and is 1 exactly when the lengths agree |
| PythonNlp.LengthSimilaritySymmetric | services/python-nlp/main.py:198 | length similarity is symmetric |
| PythonNlp.CharacterSimilarity | services/python-nlp/main.py:181-203 | identical words score 1.0; every result lies in [0, 1]; distinct words stay at or below 0.4 |
| PythonNlp.CharacterSimilarityDistinctBounds | services/python-nlp/main.py:183-203 | distinct words have a non-empty union, so the `union == 0` branch is never taken, and score in [0.05, 0.4] |
| PythonNlp.CharacterSimilaritySymmetric | services/python-nlp/main.py:186-203 | character similarity is symmetric |
| PythonNlp.CalculateSimilarity | services/python-nlp/main.py:151-179 | `(0.1, False, False)` without vectors; the found flags report membership; equal words give 1.0; an unknown word gives the character similarity in [0.05, 0.4]; every score lies in [0, 1] |
| PythonNlp.KnownPairScore | services/python-nlp/main.py:166-177 | for two known distinct words the score is `(cosine + 1) / 2` plus the noise, clamped to [0, 1]; without noise it is exactly `(cosine + 1) / 2` |
| PythonNlp.HealthCheck | services/python-nlp/main.py:230-237 | `model_loaded` and status `healthy` exactly when the vectors are loaded, with the vocabulary's size |
| FaissClient.NewClient | src/lib/faiss-client.ts:26-37 | an explicit URL wins; otherwise a non-empty `NLP_SERVICE_URL`, else the local URL; 10 s timeout, 2 retries on the listed status codes |
| FaissClient.MatchCount | src/lib/faiss-client.ts:81-86 | the matching positions below a bound number at most that bound |
| FaissClient.RandomFactor | src/lib/faiss-client.ts:92 | lies in [0.3, 0.7) |
| FaissClient.MockScore | src/lib/faiss-client.ts:74-95 | identical words score 1.0; distinct words score in [0.3, 0.95] |
| FaissClient.MockSimilarity | src/lib/faiss-client.ts:74-95 | the counting loop computes the fallback score |
| FaissClient.CalculateSimilarity | src/lib/faiss-client.ts:55-69 | never fails: the remote value on a reply, the fallback score on any failure |
| FaissClient.TestConnection | src/lib/faiss-client.ts:100-107 | true exactly for a `healthy` reply with the model loaded; false on any failure |
| FaissClient.ConnectionMeansLoaded | src/lib/faiss-client.ts:103 | against the Python service, the probe succeeds exactly when its vectors are loaded |
| AdminService.GetDailyWord | src/lib/adminService.ts:36-44 | today's stored word or `''`, with today's date; the server copy (`server/src/services/adminService.ts:36-44`) does the same |
| AdminService.SetDailyWord | src/lib/adminService.ts:46-54 | upserts today's date only, and returns success with the word; today then reads back the word; the server copy (`server/src/services/adminService.ts:46-54`) does the same |
| AdminService.AddDailyWord | src/lib/adminService.ts:66-74 | upserts the given date; it then reads back the word |
| AdminService.ListingOf | src/lib/adminService.ts:60-63 | the spread keeps each row's columns and adds `isActive` iff the date is today |
| AdminService.ListingKeepsRows | src/lib/adminService.ts:60-63 | dropping the flag gives back the query's rows, in order |
| AdminService.GetAllDailyWords | src/lib/adminService.ts:56-64 | every stored row exactly once, newest first, with exactly today's row active |
| AdminService.AtMostOneActive | src/lib/adminService.ts:62 | at most one listed entry is active |
| AdminService.JwtSecret | src/lib/adminService.ts:26 | `JWT_SECRET`, or `'secret'` when it is unset or empty |
| AdminService.Login | src/lib/adminService.ts:11-34 | null for an unknown login; null when the password check fails; otherwise a token signed over the admin's id and login; the server copy (`server/src/services/adminService.ts:11-34`) does the same, keyed by user name |
| Session.ParseSegment | src/lib/session.ts:20 | the key before the first `=` and the value up to the next `=`, neither containing `=` |
| Session.KeyRestParse | src/lib/session.ts:20 | `key=rest`, with or without a leading space, parses into the key and the part of `rest` before its next `=` |
| Session.ParsePair | src/lib/session.ts:20 | `key=value`, with or without a leading space, parses into that key and value |
| Session.ParseWithSecondEquals | src/lib/session.ts:20 | a value holding `=` is cut at it |
| Session.ParseAll | src/lib/session.ts:19-20 | every segment parsed, in order |
| Session.LastValue | src/lib/session.ts:19-23 | what the `reduce` keeps for a key: nothing exactly when no segment has the key |
| Session.SessionIdOf | src/lib/session.ts:16-26 | null for an absent or empty header; an id found is non-empty and has no `=` or `;` |
| Session.GetSessionIdFromCookies | src/lib/session.ts:16-26 | the single pass with the accumulator returns `SessionIdOf` |
| Session.GetSessionCookieOptions | src/lib/session.ts:31-41 | a day in seconds, not HttpOnly, Secure exactly in production, `lax`, `/` |
| Session.FormatSetCookieHeader | src/lib/session.ts:46-57 | the step-by-step appends produce `yementuel_session=<id>; Max-Age=86400`, then `; Secure` in production, then `; SameSite=lax; Path=/` |
| Session.SetCookieIsJoin | src/lib/session.ts:48-54 | the header is the pair and its attributes joined by `;` |
| Session.SetCookieSegments | src/lib/session.ts:48-54 | the header's segments are the pair, `Max-Age`, `Secure` exactly in production, `SameSite` and `Path`, and never `HttpOnly` |
| Session.FirstPairStands | src/lib/session.ts:19-23 | later pairs with other keys keep the first pair's value |
| Session.LeadingPairDecides | src/lib/session.ts:19-25 | a header whose first segment is the session pair and whose later segments all have other keys gives that id |
| Session.SetCookieRoundTrip | src/lib/session.ts:16-56 | parsing the formatted header gives the id back, for any non-empty id without `;` or `=` that does not end in whitespace |
| Session.AppendedSegment | src/lib/session.ts:19-23 | appending a segment decides the lookup if it has the key and leaves it alone otherwise |
| Session.LastSegmentDecides | src/lib/session.ts:19-25 | a last session segment decides the id: its value, or null when that is empty |
| Session.LaterDuplicateWins | src/lib/session.ts:19-25 | a later duplicate session cookie wins |
| Session.ValueCutAtEquals | src/lib/session.ts:20-25 | a session value with `=` is returned up to the `=` |
| Session.EmptyValueIsNoSession | src/lib/session.ts:25 | an empty last session value gives null, even after a non-empty one |
| UseSession.GetCookie | src/hooks/useSession.ts:90-102 | a value found is non-empty and has no `;` |
| UseSession.CookieAbsent | src/hooks/useSession.ts:93-101 | a cookie string not naming the cookie gives null |
| UseSession.CookieDuplicate | src/hooks/useSession.ts:96-101 | a cookie string naming the cookie twice gives null |
| UseSession.CookieFirst | src/hooks/useSession.ts:93-99 | a cookie string that starts with the cookie and does not name it again gives its value up to the next `;`, or null when it is empty |
| UseSession.CookieOnce | src/hooks/useSession.ts:93-99 | when `; name=` occurs exactly once in `; ` + the cookie string, at any position, the result is the text after it up to the next `;`, or null when that text is empty |
| UseSession.CookieAmongOthers | src/hooks/useSession.ts:93-99 | a cookie listed after other cookies, none of them named `name`, gives its value, or null when it is empty |
| UseSession.SessionCookieAfterOther | src/hooks/useSession.ts:93-99 | on a page whose cookie string is `other=1; yementuel_session=abc`, the session cookie reads `abc` |
| UseSession.ClientCookieText | src/hooks/useSession.ts:76-77 | the assignment is `yementuel_session=<id>; Max-Age=86400; Path=/; SameSite=Lax` |
| UseSession.ClientCookieSegments | src/hooks/useSession.ts:77 | its segments are the pair, `Max-Age`, `Path` and `SameSite` |
| UseSession.ClientCookieReadBack | src/hooks/useSession.ts:77-99 | the cookie the assignment stores is its first segment `yementuel_session=<id>`; on a later page the hook's `getCookie` reads the id back from it, alone or after other cookies, and so does the server's parser from a `Cookie` header holding it |
| UseSession.SessionHook.constructor | src/hooks/useSession.ts:13-14 | no id yet, loading |
| UseSession.SessionHook.StoredId | src/hooks/useSession.ts:58-63 | a non-empty stored value, or null when there is none or the storage throws |
| UseSession.SessionHook.GetSessionId | src/hooks/useSession.ts:51-67 | the cookie first, then localStorage, and null without a document |
| UseSession.SessionHook.StoreSessionId | src/hooks/useSession.ts:72-85 | one cookie assignment, and the id under the storage key when storage works; nothing without a document |
| UseSession.SessionHook.SessionIdChanged | src/hooks/useSession.ts:30-35 | stores the id exactly when it is set and non-empty |
| UseSession.SessionHook.Mount | src/hooks/useSession.ts:16-35 | an id found is kept, otherwise the fresh one is taken; the id is then set and loading is over; a non-empty id is stored |
| UseSession.SessionHook.GenerateNewSession | src/hooks/useSession.ts:40-44 | the fresh id replaces the old one and is returned; it is stored when the state changed |
| UseSession.CookieBeatsStorage | src/hooks/useSession.ts:54-55 | pages with the same session cookie agree on the id, whatever their storage holds |
| UseSession.StorageFallback | src/hooks/useSession.ts:58-60 | without a session cookie, a non-empty stored id is used |
| WordInputForm.Validate | backup/client/src/components/WordInput.tsx:15-24 | a word under 2 UTF-16 units gets the length message, before any script check; a word with a non-syllable gets the Hangul message; otherwise the word is accepted |
| WordInputForm.AcceptedWords | backup/client/src/components/WordInput.tsx:15-24 | exactly the words of two or more Hangul syllables are accepted |
| WordInputForm.LengthCheckedFirst | backup/client/src/components/WordInput.tsx:15-18 | a word of fewer than two basic-plane characters gets the length message, whatever its script |
| WordInputForm.WordInput.constructor | backup/client/src/components/WordInput.tsx:9-10 | an empty word and no error |
| WordInputForm.WordInput.Change | backup/client/src/components/WordInput.tsx:37 | the input's value becomes the word |
| WordInputForm.WordInput.HandleSubmit | backup/client/src/components/WordInput.tsx:12-29 | a rejection sets only the error and keeps the word; an acceptance clears the error, calls `onSubmit` once with the exact word, and empties the input |
| WordInputForm.SubmittedAreValid | backup/client/src/components/WordInput.tsx:26-27 | everything ever handed to `onSubmit` is a Hangul word of two or more syllables |
| WordListView.SimilarityBucket | backup/client/src/components/WordList.tsx:22-27 | green from 0.8, yellow in [0.6, 0.8), orange in [0.4, 0.6), red below, lower bounds inclusive |
| WordListView.BucketMonotone | backup/client/src/components/WordList.tsx:22-27 | a higher similarity never gets a farther bucket |
| WordListView.BucketClassesDistinct | backup/client/src/components/WordList.tsx:23-26 | the four buckets have four different classes |
| WordListView.Render | backup/client/src/components/WordList.tsx:13-39 | an empty list renders only the placeholder; otherwise one row per word, in order, numbered `index + 1`, with the word and its colour |
| WordListView.RenderedColoursDescend | backup/client/src/components/WordList.tsx:35-41 | a list ordered by similarity shows colours that never get closer further down |
| Http.WordField | src/app/api/words/check/route.ts:6 | destructuring `null` throws; an object gives its `word` member or undefined; anything else gives undefined |
| Http.PassesWordGate | src/app/api/words/check/route.ts:8 | a word passes exactly when it is a string of two UTF-16 units or more |
| Http.TwoCharactersPass | src/app/api/words/check/route.ts:8 | any string of two characters passes, whatever its script |
| CheckRoute.Post | src/app/api/words/check/route.ts:4-28 | an unreadable or null body gives 500; a failed gate gives 400 and records nothing; a missing daily word gives 500 and records nothing; a valid word gives 200 with the service's result unchanged: the guess, its score, `isCorrect` iff it is the answer, and the rank of the guess's first position in a ranking of today's attempts, with exactly one recorded attempt |
| CheckRoute.ServerGateIsLaxer | src/app/api/words/check/route.ts:8 | every word the form accepts passes the route, and `ab` passes the route but not the form |
| DailyWordRoute.BearerToken | src/app/api/admin/daily-word/route.ts:6-14 | a missing or empty header, or no second space-separated part, throws the token message; a token found is non-empty and has no space |
| DailyWordRoute.BearerTokenFound | src/app/api/admin/daily-word/route.ts:11 | the token is the second part whatever the scheme word, and later parts are ignored |
| DailyWordRoute.NoSpaceNoToken | src/app/api/admin/daily-word/route.ts:11-14 | a header without a space has no token |
| DailyWordRoute.VerifyToken | src/app/api/admin/daily-word/route.ts:5-17 | token problems reject with the token message; otherwise the verdict of `jwt.verify` with the secret |
| DailyWordRoute.Get | src/app/api/admin/daily-word/route.ts:19-36 | a verified token gives 200 with today's word or `''` and today's date; anything else gives 401 with the error's message |
| DailyWordRoute.Put | src/app/api/admin/daily-word/route.ts:38-64 | the token is checked, then the body, then the gate; a failed gate gives 400 without a write; a valid word sets today's word and gives 200; every other failure gives 401 with its message and no write |

## Left out

- The HTTP plumbing outside the two modelled routes is not part of this model: the list, reveal-answer and login routes, the Express app, its middlewares, routes and controllers. The reveal-answer route returns the answer with no server-side check.
- The UI beyond the form's state and the list's rows is not part of this model: the admin dashboard, the captcha, the give-up buttons, the app shell, the header, the button's disabled state, the percentage text and the bar width. The percentages use floating-point `toFixed`.
- bcrypt, `jwt.sign`, `jwt.verify` and uuid `v4` are function parameters. Their own behaviour is not modelled, including token expiry.
- ky's timeout and retry machinery is reduced to its configuration and to the parameter saying whether a reply came back.
- The similarity scores use real arithmetic, not IEEE doubles.
- The Python word vectors, their random construction and `cosine_similarity` are not modelled. The cosine and the noise draw are parameters.
- The Python service's FastAPI endpoints other than the health decision are not modelled, nor its start-up.
- The clock, the filesystem and the process environment are parameters: `today`, `now`, `NODE_ENV`, `JWT_SECRET` and `NLP_SERVICE_URL`.
- The better-sqlite3 engine is reduced to the tables' meaning. Ids come from counters.
- Storage.Upserted: the daily-word id counter advances only when a row is appended; SQLite may also consume an AUTOINCREMENT value when an upsert ends in an update, so the model does not capture gaps in later ids.
- The text order of `ORDER BY date` is the byte-wise one SQLite uses by default.
- The browser's cookie jar is not modelled. The hook's reads of `document.cookie` see a fixed string, and its writes are recorded, not merged into what later reads return.
- React's scheduling is reduced to the two effects running in order after mount. A state update triggers the store effect only when the value changes.
- The `Date` built from each attempt's timestamp in `getTodayWordList` is left as the stored text.
- Nlp.CalculateSimilarity: `split('')` and `length` in `nlp.ts` and `faiss-client.ts` work on UTF-16 units. The model works on code points, so it agrees with the code on text without characters above U+FFFF, which includes all Hangul.
- FaissClient.MockScore: under the same reading, positions compare code points rather than UTF-16 units.
- Http.DestructureNullMessage is V8's wording of the `TypeError` for a `null` body. The PUT route returns that message with its 401.
- Storage.Database.GetDailyWord carries no contract of its own. It is `Storage.LookupWord` over the table, and that function's contract states the lookup.
