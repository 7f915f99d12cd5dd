/** The SQLite tables of src/lib/database.ts and server/src/services/database.ts,
    held as sequences of rows in table order. Both files create the same three
    tables and issue the same queries; they differ only in how the admin table
    is keyed (by `email` in the Next.js app, by `username` in the Express
    server) and in the seeded admin row, which is what `Deployment` selects.
    The values the database fills in itself (`created_at`, AUTOINCREMENT ids)
    come from the parameter `now` and from id counters. */
module Storage {
  import opened Wrappers
  import opened Text

  /** A row of `daily_words`. */
  datatype DailyWordRow = DailyWordRow(id: nat, word: string, date: string, createdAt: string)

  /** A row of `word_attempts`. There is no session column. */
  datatype AttemptRow = AttemptRow(word: string, similarity: real, date: string, createdAt: string)

  /** A row of `admin_users`; `login` is the e-mail address or the user name. */
  datatype AdminUserRow = AdminUserRow(id: nat, login: string, passwordHash: string, createdAt: string)

  /** A row as `getTodayAttempts` selects it: `created_at` comes back as
      `timestamp`. */
  datatype AttemptView = AttemptView(word: string, similarity: real, timestamp: string)

  datatype Deployment = NextApp | ExpressServer

  /** The word seeded for today when the table has none. */
  const DefaultWord: string := "사과"

  /** Login and password hash of the admin seeded into an empty admin table. */
  function DefaultAdmin(deployment: Deployment): (admin: (string, string))
    ensures deployment == NextApp ==> admin.0 == "admin@yementuel.com"
    ensures deployment == ExpressServer ==> admin.0 == "admin"
  {
    match deployment
    case NextApp => ("admin@yementuel.com", "$2b$10$6jeoxsyHV.xSoOa8hImBN.mnAHyygZ8k0r98J1ICL4e3/1aFVcKoS")
    case ExpressServer => ("admin", "$2b$10$xGxN1rSVqCzFJ7fDgE0b8OQ8M9NXm2JEYtQGJxZK2xqK.xvF0oJZe")
  }

  // ---------------------------------------------------------------------
  // daily_words

  /** The UNIQUE constraint on `date`. */
  ghost predicate DatesUnique(rows: seq<DailyWordRow>)
  {
    forall i, j :: 0 <= i < j < |rows| ==> rows[i].date != rows[j].date
  }

  /** The position of the row for `date`, if there is one. */
  function FindDate(rows: seq<DailyWordRow>, date: string): (r: Option<nat>)
    ensures r.Some? ==> r.value < |rows| && rows[r.value].date == date
    ensures r.Some? ==> forall j :: 0 <= j < r.value ==> rows[j].date != date
    ensures r.None? <==> forall j :: 0 <= j < |rows| ==> rows[j].date != date
  {
    if |rows| == 0 then None
    else if rows[0].date == date then Some(0)
    else match FindDate(rows[1..], date)
      case None => None
      case Some(i) => Some(i + 1)
  }

  /** The first row with the date is the one found. */
  lemma {:induction false} FindDateIs(rows: seq<DailyWordRow>, date: string, i: nat)
    requires i < |rows| && rows[i].date == date
    requires forall j :: 0 <= j < i ==> rows[j].date != date
    ensures FindDate(rows, date) == Some(i)
  {
  }

  /** `getDailyWord(date)`: `SELECT word FROM daily_words WHERE date = ?`,
      undefined when no row has that date. */
  function LookupWord(rows: seq<DailyWordRow>, date: string): (r: Option<string>)
    ensures r.None? <==> forall j :: 0 <= j < |rows| ==> rows[j].date != date
    ensures r.Some? ==> exists j :: 0 <= j < |rows| && rows[j].date == date && rows[j].word == r.value
  {
    match FindDate(rows, date)
    case None => None
    case Some(i) => Some(rows[i].word)
  }

  /** With unique dates the row found is the only row for the date. */
  lemma {:induction false} LookupUnique(rows: seq<DailyWordRow>, k: nat)
    requires DatesUnique(rows) && k < |rows|
    ensures LookupWord(rows, rows[k].date) == Some(rows[k].word)
  {
  }

  /** `dailyWord?.word || ''`: the stored word, or the empty string when
      there is none. */
  function WordOrEmpty(rows: seq<DailyWordRow>, date: string): (w: string)
    ensures LookupWord(rows, date).Some? ==> w == LookupWord(rows, date).value
    ensures (forall j :: 0 <= j < |rows| ==> rows[j].date != date) ==> w == ""
  {
    LookupWord(rows, date).GetOr("")
  }

  /** The table after `INSERT ... ON CONFLICT(date) DO UPDATE SET word =
      excluded.word`: the row for `date` keeps its id and creation time and
      gets the new word; without such a row a new one is appended. */
  function Upserted(rows: seq<DailyWordRow>, word: string, date: string, freshId: nat, now: string)
    : seq<DailyWordRow>
  {
    match FindDate(rows, date)
    case Some(i) => rows[i := rows[i].(word := word)]
    case None => rows + [DailyWordRow(freshId, word, date, now)]
  }

  /** After an upsert the date reads back the new word. */
  lemma {:induction false} UpsertThenLookup(rows: seq<DailyWordRow>, word: string, date: string, freshId: nat, now: string)
    ensures LookupWord(Upserted(rows, word, date, freshId, now), date) == Some(word)
  {
    var r := Upserted(rows, word, date, freshId, now);
    match FindDate(rows, date)
    case Some(i) =>
      FindDateIs(r, date, i);
    case None =>
      FindDateIs(r, date, |rows|);
  }

  /** An upsert changes no other date's word. */
  lemma {:induction false} UpsertKeepsOtherDates(rows: seq<DailyWordRow>, word: string, date: string, freshId: nat,
                              now: string, other: string)
    requires other != date
    ensures LookupWord(Upserted(rows, word, date, freshId, now), other) == LookupWord(rows, other)
  {
    var r := Upserted(rows, word, date, freshId, now);
    assert forall j :: 0 <= j < |rows| ==> r[j].date == rows[j].date;
    assert forall j :: 0 <= j < |rows| && rows[j].date == other ==> r[j] == rows[j];
    match FindDate(rows, other)
    case Some(k) =>
      assert FindDate(r, other) == Some(k);
    case None =>
      assert FindDate(r, other).None?;
  }

  /** An upsert keeps dates unique. */
  lemma {:induction false} UpsertKeepsUnique(rows: seq<DailyWordRow>, word: string, date: string, freshId: nat, now: string)
    requires DatesUnique(rows)
    ensures DatesUnique(Upserted(rows, word, date, freshId, now))
  {
    var r := Upserted(rows, word, date, freshId, now);
    assert forall j :: 0 <= j < |rows| ==> r[j].date == rows[j].date;
  }

  /** Every id after an upsert is an old id or the fresh one. */
  lemma {:induction false} UpsertIdsBelow(rows: seq<DailyWordRow>, word: string, date: string, freshId: nat, now: string)
    requires forall i :: 0 <= i < |rows| ==> rows[i].id < freshId
    ensures var r := Upserted(rows, word, date, freshId, now);
      forall i :: 0 <= i < |r| ==> r[i].id < freshId + 1
    ensures FindDate(rows, date).Some? ==> |Upserted(rows, word, date, freshId, now)| == |rows|
  {
  }

  /** Upserting the same word for the same date twice leaves the table as one
      upsert does, whatever id and time the second call would have used. */
  lemma {:induction false} UpsertIdempotent(rows: seq<DailyWordRow>, word: string, date: string, freshId: nat, now: string,
                         freshId2: nat, now2: string)
    ensures var once := Upserted(rows, word, date, freshId, now);
      Upserted(once, word, date, freshId2, now2) == once
  {
    var once := Upserted(rows, word, date, freshId, now);
    match FindDate(rows, date)
    case Some(i) =>
      FindDateIs(once, date, i);
      assert once[i := once[i].(word := word)] == once;
    case None =>
      FindDateIs(once, date, |rows|);
      assert once[|rows| := once[|rows|].(word := word)] == once;
  }

  // ---------------------------------------------------------------------
  // ORDER BY date DESC

  /** Strictly descending by date text. */
  ghost predicate DateSortedDesc(rows: seq<DailyWordRow>)
  {
    forall i, j :: 0 <= i < j < |rows| ==> StrLess(rows[j].date, rows[i].date)
  }

  /** No row of `rows` has the date `date`. */
  ghost predicate DateAbsent(rows: seq<DailyWordRow>, date: string)
  {
    forall i :: 0 <= i < |rows| ==> rows[i].date != date
  }

  function InsertByDate(x: DailyWordRow, rows: seq<DailyWordRow>): (r: seq<DailyWordRow>)
    requires DateSortedDesc(rows) && DateAbsent(rows, x.date)
    ensures DateSortedDesc(r)
    ensures multiset(r) == multiset(rows) + multiset{x}
    ensures |r| == |rows| + 1 && (r[0] == x || (rows != [] && r[0] == rows[0]))
  {
    if rows == [] then [x]
    else if StrLess(rows[0].date, x.date) then
      InsertFirst(x, rows);
      [x] + rows
    else
      StrLessTotal(x.date, rows[0].date);
      var rest := InsertByDate(x, rows[1..]);
      assert rows == [rows[0]] + rows[1..];
      assert StrLess(rest[0].date, rows[0].date);
      InsertFirst(rows[0], rest);
      [rows[0]] + rest
  }

  lemma {:induction false} InsertFirst(x: DailyWordRow, rows: seq<DailyWordRow>)
    requires DateSortedDesc(rows) && rows != [] && StrLess(rows[0].date, x.date)
    ensures DateSortedDesc([x] + rows)
  {
    forall j | 0 < j < |rows| ensures StrLess(rows[j].date, x.date) {
      StrLessTransitive(rows[j].date, rows[0].date, x.date);
    }
  }

  /** `ORDER BY date DESC` over rows with unique dates. */
  function SortByDateDesc(rows: seq<DailyWordRow>): (r: seq<DailyWordRow>)
    requires DatesUnique(rows)
    ensures DateSortedDesc(r)
    ensures multiset(r) == multiset(rows) && |r| == |rows|
  {
    if rows == [] then []
    else
      TailDatesUnique(rows);
      var rest := SortByDateDesc(rows[1..]);
      AbsentFromRest(rows, rest);
      assert rows == [rows[0]] + rows[1..];
      InsertByDate(rows[0], rest)
  }

  lemma {:induction false} TailDatesUnique(rows: seq<DailyWordRow>)
    requires DatesUnique(rows) && rows != []
    ensures DatesUnique(rows[1..])
  {
  }

  /** A rearrangement of the later rows has none with the first row's date. */
  lemma {:induction false} AbsentFromRest(rows: seq<DailyWordRow>, rest: seq<DailyWordRow>)
    requires DatesUnique(rows) && rows != [] && multiset(rest) == multiset(rows[1..])
    ensures DateAbsent(rest, rows[0].date)
  {
    forall i | 0 <= i < |rest| ensures rest[i].date != rows[0].date {
      assert rest[i] in multiset(rows[1..]);
      var j :| 0 <= j < |rows[1..]| && rows[1..][j] == rest[i];
      assert rows[j + 1] == rest[i];
    }
  }

  // ---------------------------------------------------------------------
  // word_attempts

  function View(a: AttemptRow): AttemptView
  {
    AttemptView(a.word, a.similarity, a.createdAt)
  }

  /** `SELECT word, similarity, created_at FROM word_attempts WHERE date = ?`
      before ordering: the date's rows in table order. */
  function TodayRows(attempts: seq<AttemptRow>, date: string): (r: seq<AttemptView>)
    ensures |r| <= |attempts|
    ensures forall v :: v in r <==> exists i :: 0 <= i < |attempts| && attempts[i].date == date && View(attempts[i]) == v
  {
    if attempts == [] then []
    else
      var prefix := attempts[..|attempts| - 1];
      var last := attempts[|attempts| - 1];
      assert forall i :: 0 <= i < |prefix| ==> prefix[i] == attempts[i];
      TodayRows(prefix, date) + (if last.date == date then [View(last)] else [])
  }

  lemma {:induction false} TodayRowsAppend(attempts: seq<AttemptRow>, a: AttemptRow, date: string)
    ensures TodayRows(attempts + [a], date)
      == TodayRows(attempts, date) + (if a.date == date then [View(a)] else [])
  {
    assert (attempts + [a])[..|attempts|] == attempts;
  }

  /** The positions of the table's rows of date `date` whose view is `v`. */
  ghost function RowsWith(attempts: seq<AttemptRow>, date: string, v: AttemptView): set<nat>
  {
    set i: nat | i < |attempts| && attempts[i].date == date && View(attempts[i]) == v
  }

  lemma {:induction false} RowsWithAppend(prefix: seq<AttemptRow>, last: AttemptRow, date: string, v: AttemptView)
    ensures |prefix| !in RowsWith(prefix, date, v)
    ensures RowsWith(prefix + [last], date, v)
      == RowsWith(prefix, date, v) + (if last.date == date && View(last) == v then {|prefix|} else {})
  {
    var all := prefix + [last];
    forall i: nat | i < |prefix| ensures all[i] == prefix[i] {
    }
  }

  /** The date's selection holds each view exactly as often as the table has
      rows of that date with that view: nothing is merged or dropped. */
  lemma {:induction false} TodayRowsCount(attempts: seq<AttemptRow>, date: string, v: AttemptView)
    ensures multiset(TodayRows(attempts, date))[v] == |RowsWith(attempts, date, v)|
    decreases |attempts|
  {
    if attempts == [] {
      assert RowsWith(attempts, date, v) == {};
    } else {
      var n := |attempts| - 1;
      var prefix, last := attempts[..n], attempts[n];
      assert attempts == prefix + [last];
      TodayRowsAppend(prefix, last, date);
      TodayRowsCount(prefix, date, v);
      RowsWithAppend(prefix, last, date, v);
    }
  }

  /** Non-increasing similarity: `ORDER BY similarity DESC`. */
  ghost predicate SortedBySimilarity(rows: seq<AttemptView>)
  {
    forall i, j :: 0 <= i < j < |rows| ==> rows[i].similarity >= rows[j].similarity
  }

  /** `ranked` is a possible result of the query over `rows`: the same rows,
      ordered by similarity, in some order among equal similarities. */
  ghost predicate IsRanking(ranked: seq<AttemptView>, rows: seq<AttemptView>)
  {
    multiset(ranked) == multiset(rows) && SortedBySimilarity(ranked)
  }

  function InsertBySimilarity(x: AttemptView, rows: seq<AttemptView>): (r: seq<AttemptView>)
    requires SortedBySimilarity(rows)
    ensures SortedBySimilarity(r)
    ensures multiset(r) == multiset(rows) + multiset{x}
    ensures |r| == |rows| + 1 && (r[0] == x || (rows != [] && r[0] == rows[0]))
  {
    if rows == [] || x.similarity >= rows[0].similarity then
      PrependSorted(x, rows);
      [x] + rows
    else
      var rest := InsertBySimilarity(x, rows[1..]);
      assert rows == [rows[0]] + rows[1..];
      PrependSorted(rows[0], rest);
      [rows[0]] + rest
  }

  lemma {:induction false} PrependSorted(y: AttemptView, rows: seq<AttemptView>)
    requires SortedBySimilarity(rows) && (rows != [] ==> y.similarity >= rows[0].similarity)
    ensures SortedBySimilarity([y] + rows)
  {
    var r := [y] + rows;
    forall i, j | 0 <= i < j < |r| ensures r[i].similarity >= r[j].similarity {
      if i == 0 {
        assert r[j] == rows[j - 1];
        if j > 1 {
          assert rows[0].similarity >= rows[j - 1].similarity;
        }
      } else {
        assert r[i] == rows[i - 1] && r[j] == rows[j - 1];
      }
    }
  }

  function SortBySimilarity(rows: seq<AttemptView>): (r: seq<AttemptView>)
    ensures IsRanking(r, rows) && |r| == |rows|
  {
    if rows == [] then []
    else
      assert rows == [rows[0]] + rows[1..];
      InsertBySimilarity(rows[0], SortBySimilarity(rows[1..]))
  }

  // ---------------------------------------------------------------------
  // admin_users

  /** The UNIQUE constraint on the admin login. */
  ghost predicate LoginsUnique(admins: seq<AdminUserRow>)
  {
    forall i, j :: 0 <= i < j < |admins| ==> admins[i].login != admins[j].login
  }

  /** A table of one admin has unique logins. */
  lemma {:induction false} SingleAdmin(row: AdminUserRow)
    ensures LoginsUnique([row])
  {
  }

  /** `getAdminUser(login)`: the row with that login, or undefined. */
  function FindAdmin(admins: seq<AdminUserRow>, login: string): (r: Option<AdminUserRow>)
    ensures r.Some? ==> r.value in admins && r.value.login == login
    ensures r.None? <==> forall j :: 0 <= j < |admins| ==> admins[j].login != login
  {
    if admins == [] then None
    else if admins[0].login == login then Some(admins[0])
    else FindAdmin(admins[1..], login)
  }

  // ---------------------------------------------------------------------
  // the database

  class Database {
    const deployment: Deployment
    var dailyWords: seq<DailyWordRow>
    var attempts: seq<AttemptRow>
    var admins: seq<AdminUserRow>
    /** The next AUTOINCREMENT ids. */
    var nextDailyWordId: nat
    var nextAdminId: nat

    ghost predicate Valid()
      reads this
    {
      && DatesUnique(dailyWords)
      && LoginsUnique(admins)
      && (forall i :: 0 <= i < |dailyWords| ==> dailyWords[i].id < nextDailyWordId)
      && (forall i :: 0 <= i < |admins| ==> admins[i].id < nextAdminId)
    }

    /** Opening a new database file: `CREATE TABLE IF NOT EXISTS` leaves three
        empty tables. */
    constructor (deployment: Deployment)
      ensures Valid() && this.deployment == deployment
      ensures dailyWords == [] && attempts == [] && admins == []
    {
      this.deployment := deployment;
      dailyWords, attempts, admins := [], [], [];
      nextDailyWordId, nextAdminId := 1, 1;
    }

    /** `initDatabase()`: seeds the default admin into an empty admin table
        and `'사과'` for `today` when today has no word; existing rows are
        left alone. */
    method InitDatabase(today: string, now: string)
      requires Valid()
      modifies this
      ensures Valid()
      ensures old(admins) == [] ==>
        admins == [AdminUserRow(old(nextAdminId), DefaultAdmin(deployment).0, DefaultAdmin(deployment).1, now)]
      ensures old(admins) != [] ==> admins == old(admins)
      ensures old(GetDailyWord(today)).None? ==>
        dailyWords == old(dailyWords) + [DailyWordRow(old(nextDailyWordId), DefaultWord, today, now)]
      ensures old(GetDailyWord(today)).Some? ==> dailyWords == old(dailyWords)
      ensures GetDailyWord(today) == if old(GetDailyWord(today)).Some? then old(GetDailyWord(today)) else Some(DefaultWord)
      ensures attempts == old(attempts)
    {
      SeedAdmin(DefaultAdmin(deployment).0, DefaultAdmin(deployment).1, now);
      SeedToday(today, now);
    }

    /** The admin half of `initDatabase()`, with the login and hash it
        inserts into an empty admin table. */
    method SeedAdmin(login: string, hash: string, now: string)
      requires Valid()
      modifies this
      ensures Valid()
      ensures old(admins) == [] ==> admins == [AdminUserRow(old(nextAdminId), login, hash, now)]
      ensures old(admins) != [] ==> admins == old(admins)
      ensures dailyWords == old(dailyWords) && attempts == old(attempts)
      ensures nextDailyWordId == old(nextDailyWordId)
    {
      if |admins| == 0 {
        var row := AdminUserRow(nextAdminId, login, hash, now);
        SingleAdmin(row);
        admins := [row];
        nextAdminId := nextAdminId + 1;
      }
    }

    /** The daily-word half of `initDatabase()`: the insert happens only
        when today has no row, so it is the upsert of today's default word. */
    method SeedToday(today: string, now: string)
      requires Valid()
      modifies this
      ensures Valid()
      ensures old(GetDailyWord(today)).None? ==>
        dailyWords == old(dailyWords) + [DailyWordRow(old(nextDailyWordId), DefaultWord, today, now)]
      ensures old(GetDailyWord(today)).Some? ==> dailyWords == old(dailyWords)
      ensures GetDailyWord(today) == if old(GetDailyWord(today)).Some? then old(GetDailyWord(today)) else Some(DefaultWord)
      ensures attempts == old(attempts) && admins == old(admins)
    {
      var todayWord := LookupWord(dailyWords, today);
      if todayWord.None? {
        var row := DailyWordRow(nextDailyWordId, DefaultWord, today, now);
        assert Upserted(dailyWords, DefaultWord, today, nextDailyWordId, now) == dailyWords + [row];
        UpsertThenLookup(dailyWords, DefaultWord, today, nextDailyWordId, now);
        UpsertKeepsUnique(dailyWords, DefaultWord, today, nextDailyWordId, now);
        UpsertIdsBelow(dailyWords, DefaultWord, today, nextDailyWordId, now);
        dailyWords := dailyWords + [row];
        nextDailyWordId := nextDailyWordId + 1;
      }
    }

    /** `getDailyWord(date)`. */
    function GetDailyWord(date: string): Option<string>
      reads this
    {
      LookupWord(dailyWords, date)
    }

    /** `setDailyWord(word, date)`: upsert keyed by date, last write wins. */
    method SetDailyWord(word: string, date: string, now: string)
      requires Valid()
      modifies this
      ensures Valid()
      ensures dailyWords == Upserted(old(dailyWords), word, date, old(nextDailyWordId), now)
      ensures GetDailyWord(date) == Some(word)
      ensures forall d :: d != date ==> GetDailyWord(d) == old(GetDailyWord(d))
      ensures attempts == old(attempts) && admins == old(admins)
    {
      var found := FindDate(dailyWords, date);
      UpsertThenLookup(dailyWords, word, date, nextDailyWordId, now);
      UpsertKeepsUnique(dailyWords, word, date, nextDailyWordId, now);
      UpsertIdsBelow(dailyWords, word, date, nextDailyWordId, now);
      forall d | d != date
        ensures LookupWord(Upserted(dailyWords, word, date, nextDailyWordId, now), d) == LookupWord(dailyWords, d)
      {
        UpsertKeepsOtherDates(dailyWords, word, date, nextDailyWordId, now, d);
      }
      dailyWords := Upserted(dailyWords, word, date, nextDailyWordId, now);
      if found.None? {
        nextDailyWordId := nextDailyWordId + 1;
      }
    }

    /** `getAllDailyWords()`: every row, newest date first. */
    function GetAllDailyWords(): (r: seq<DailyWordRow>)
      reads this
      requires Valid()
      ensures multiset(r) == multiset(dailyWords) && DateSortedDesc(r)
    {
      SortByDateDesc(dailyWords)
    }

    /** `addWordAttempt(word, similarity, date)`: a plain INSERT; repeated
        guesses are separate rows. */
    method AddWordAttempt(word: string, similarity: real, date: string, now: string)
      requires Valid()
      modifies this
      ensures Valid()
      ensures attempts == old(attempts) + [AttemptRow(word, similarity, date, now)]
      ensures dailyWords == old(dailyWords) && admins == old(admins)
      ensures nextDailyWordId == old(nextDailyWordId) && nextAdminId == old(nextAdminId)
    {
      attempts := attempts + [AttemptRow(word, similarity, date, now)];
    }

    /** `getTodayAttempts(date)`: the date's rows ordered by similarity,
        highest first. The query has no tie-break, so callers are promised
        no particular order among equal similarities. */
    method GetTodayAttempts(date: string) returns (ranked: seq<AttemptView>)
      ensures IsRanking(ranked, TodayRows(attempts, date))
      ensures |ranked| == |TodayRows(attempts, date)|
    {
      ranked := SortBySimilarity(TodayRows(attempts, date));
    }

    /** `getAdminUser(login)`. */
    function GetAdminUser(login: string): (r: Option<AdminUserRow>)
      reads this
      ensures r.Some? ==> r.value in admins && r.value.login == login
      ensures r.None? <==> forall j :: 0 <= j < |admins| ==> admins[j].login != login
    {
      FindAdmin(admins, login)
    }
  }
}
