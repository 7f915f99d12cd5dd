/** The admin registry of src/lib/adminService.ts and
    server/src/services/adminService.ts. The two differ only in the admin
    key (e-mail or user name, which is the database's `Deployment`) and in
    the server file lacking `getAllDailyWords` and `addDailyWord`. bcrypt's
    `compare` and `jwt.sign` are function parameters. */
module AdminService {
  import opened Wrappers
  import opened Text
  import opened Storage

  /** `{ word, date }` from `getDailyWord`. */
  datatype DailyWordInfo = DailyWordInfo(word: string, date: string)

  /** `getDailyWord()`: today's word, or `''` when none is set, with today's
      date. */
  function GetDailyWord(db: Database, today: string): (r: DailyWordInfo)
    reads db
    ensures r.date == today
    ensures db.GetDailyWord(today).Some? ==> r.word == db.GetDailyWord(today).value
    ensures db.GetDailyWord(today).None? ==> r.word == ""
  {
    DailyWordInfo(WordOrEmpty(db.dailyWords, today), today)
  }

  /** `{ success, word }` from `setDailyWord`. */
  datatype SetResult = SetResult(success: bool, word: string)

  /** `setDailyWord(word)`: upserts the word for today only. */
  method SetDailyWord(db: Database, word: string, today: string, now: string) returns (r: SetResult)
    requires db.Valid()
    modifies db
    ensures db.Valid()
    ensures r == SetResult(true, word)
    ensures db.dailyWords == Upserted(old(db.dailyWords), word, today, old(db.nextDailyWordId), now)
    ensures GetDailyWord(db, today) == DailyWordInfo(word, today)
    ensures forall d :: d != today ==> db.GetDailyWord(d) == old(db.GetDailyWord(d))
    ensures db.attempts == old(db.attempts) && db.admins == old(db.admins)
  {
    db.SetDailyWord(word, today, now);
    r := SetResult(true, word);
  }

  /** `{ success, word, date }` from `addDailyWord`. */
  datatype AddResult = AddResult(success: bool, word: string, date: string)

  /** `addDailyWord(word, date)`: upserts the word for the given date. */
  method AddDailyWord(db: Database, word: string, date: string, now: string) returns (r: AddResult)
    requires db.Valid()
    modifies db
    ensures db.Valid()
    ensures r == AddResult(true, word, date)
    ensures db.dailyWords == Upserted(old(db.dailyWords), word, date, old(db.nextDailyWordId), now)
    ensures db.GetDailyWord(date) == Some(word)
    ensures forall d :: d != date ==> db.GetDailyWord(d) == old(db.GetDailyWord(d))
    ensures db.attempts == old(db.attempts) && db.admins == old(db.admins)
  {
    db.SetDailyWord(word, date, now);
    r := AddResult(true, word, date);
  }

  /** A row of `getAllDailyWords`: the stored columns plus `isActive`.
      (`created_at` is carried by the spread as well.) */
  datatype DailyWordListing = DailyWordListing(id: nat, word: string, date: string, createdAt: string, isActive: bool)

  /** `words.map(word => ({ ...word, isActive: word.date === today }))`. */
  function ListingOf(rows: seq<DailyWordRow>, today: string): (r: seq<DailyWordListing>)
    ensures |r| == |rows|
    ensures forall i :: 0 <= i < |r| ==>
      && r[i].id == rows[i].id && r[i].word == rows[i].word
      && r[i].date == rows[i].date && r[i].createdAt == rows[i].createdAt
      && (r[i].isActive <==> rows[i].date == today)
  {
    seq(|rows|, i requires 0 <= i < |rows| =>
      DailyWordListing(rows[i].id, rows[i].word, rows[i].date, rows[i].createdAt, rows[i].date == today))
  }

  /** The stored columns of a listing. */
  function RowsOf(listing: seq<DailyWordListing>): (rows: seq<DailyWordRow>)
    ensures |rows| == |listing|
  {
    seq(|listing|, i requires 0 <= i < |listing| =>
      DailyWordRow(listing[i].id, listing[i].word, listing[i].date, listing[i].createdAt))
  }

  /** Marking rows active adds a flag and changes nothing else. */
  lemma {:induction false} ListingKeepsRows(rows: seq<DailyWordRow>, today: string)
    ensures RowsOf(ListingOf(rows, today)) == rows
  {
  }

  /** `getAllDailyWords()`: every stored row exactly once, newest date first,
      with exactly today's row marked active. */
  function GetAllDailyWords(db: Database, today: string): (r: seq<DailyWordListing>)
    reads db
    requires db.Valid()
    ensures multiset(RowsOf(r)) == multiset(db.dailyWords)
    ensures forall i, j :: 0 <= i < j < |r| ==> StrLess(r[j].date, r[i].date)
    ensures forall i :: 0 <= i < |r| ==> (r[i].isActive <==> r[i].date == today)
  {
    var r := ListingOf(db.GetAllDailyWords(), today);
    ListingKeepsRows(db.GetAllDailyWords(), today);
    r
  }

  /** In a listing with strictly descending dates at most one entry is
      active. */
  lemma {:induction false} AtMostOneActive(listing: seq<DailyWordListing>, today: string, i: nat, j: nat)
    requires forall a, b :: 0 <= a < b < |listing| ==> StrLess(listing[b].date, listing[a].date)
    requires forall a :: 0 <= a < |listing| ==> (listing[a].isActive <==> listing[a].date == today)
    requires i < |listing| && j < |listing| && listing[i].isActive && listing[j].isActive
    ensures i == j
  {
    if i < j {
      assert StrLess(listing[j].date, listing[i].date);
      StrLessIrreflexive(today);
      assert false;
    } else if j < i {
      assert StrLess(listing[i].date, listing[j].date);
      StrLessIrreflexive(today);
      assert false;
    }
  }

  /** `{ token, email }` or `{ token, username }` from `login`. */
  datatype LoginResult = LoginResult(token: string, login: string)

  /** `process.env.JWT_SECRET || 'secret'`. */
  function JwtSecret(env: Option<string>): (secret: string)
    ensures env.Some? && env.value != "" ==> secret == env.value
    ensures env.None? || env.value == "" ==> secret == "secret"
  {
    if env.Some? && env.value != "" then env.value else "secret"
  }

  /** `login(key, password)`: null for an unknown admin, null when the
      password does not match the stored hash, and otherwise a token signed
      over the admin's id and key. */
  function Login(db: Database, key: string, password: string,
                 compare: (string, string) -> bool, sign: (nat, string, string) -> string,
                 env: Option<string>): (r: Option<LoginResult>)
    reads db
    ensures db.GetAdminUser(key).None? ==> r.None?
    ensures db.GetAdminUser(key).Some? && !compare(password, db.GetAdminUser(key).value.passwordHash) ==> r.None?
    ensures r.Some? <==> db.GetAdminUser(key).Some? && compare(password, db.GetAdminUser(key).value.passwordHash)
    ensures r.Some? ==>
      r.value.login == key && r.value.token == sign(db.GetAdminUser(key).value.id, key, JwtSecret(env))
  {
    match db.GetAdminUser(key)
    case None => None
    case Some(admin) =>
      if !compare(password, admin.passwordHash) then None
      else Some(LoginResult(sign(admin.id, admin.login, JwtSecret(env)), admin.login))
  }
}
