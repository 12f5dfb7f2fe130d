/**
 * Row shapes of the four tables the core touches (src/schema.ts) and the
 * in-memory database that stands in for the libsql client. Each table is a
 * sequence in rowid order. The sessions, prayers and fasts tables are only
 * ever appended to without an explicit id, and SQLite then gives an `integer
 * primary key` the largest rowid plus one, so their row `i` has id `i + 1`.
 * User rows are created with whatever `id` the client sends, so their ids
 * follow no pattern.
 * Creation and update timestamps of sessions are not modelled; those of users
 * are kept because they travel inside the login token's payload.
 */
module Schema {
  import opened Wrappers
  import Tables

  datatype User = User(id: int, name: string, email: string, password: string,
                       createdAt: Option<int>, updateAt: Option<int>)

  /** `valid` is a nullable integer column; `None` is SQL NULL. */
  datatype Session = Session(id: int, userId: int, valid: Option<int>, userAgent: Option<string>)

  /**
   * `name` and `method` (here `mode`, since `method` is a Dafny keyword) are free
   * text columns; the routes only ever write the enum spellings.
   */
  datatype Prayer = Prayer(id: int, userId: int, name: string, mode: string, date: int)

  datatype Fast = Fast(id: int, userId: int, date: int)

  /** The column default of `sessions.valid`. */
  const SessionValidDefault: int := 1

  /** JavaScript truthiness of a `valid` value read back from the table: NULL and 0 are falsy. */
  predicate IsTruthy(v: Option<int>) {
    v.Some? && v.value != 0
  }

  ghost predicate DenseSessionIds(rows: seq<Session>) {
    forall i :: 0 <= i < |rows| ==> rows[i].id == i + 1
  }

  ghost predicate DensePrayerIds(rows: seq<Prayer>) {
    forall i :: 0 <= i < |rows| ==> rows[i].id == i + 1
  }

  ghost predicate DenseFastIds(rows: seq<Fast>) {
    forall i :: 0 <= i < |rows| ==> rows[i].id == i + 1
  }

  /** `sessions` rows whose id is `id` (the primary-key lookup of the refresh path). */
  function SessionById(rows: seq<Session>, id: int): (r: Option<Session>)
    ensures r.Some? ==> r.value in rows && r.value.id == id
    ensures r.None? ==> forall i :: 0 <= i < |rows| ==> rows[i].id != id
  {
    Tables.First(rows, (s: Session) => s.id == id)
  }

  /** `users` rows whose id is `id` (the lookup of the refresh path). */
  function UserById(rows: seq<User>, id: int): (r: Option<User>)
    ensures r.Some? ==> r.value in rows && r.value.id == id
    ensures r.None? ==> forall i :: 0 <= i < |rows| ==> rows[i].id != id
  {
    Tables.First(rows, (u: User) => u.id == id)
  }

  /** The first user row with this email, if any (the login lookup). */
  function UserByEmail(rows: seq<User>, email: string): (r: Option<User>)
    ensures r.Some? ==> r.value in rows && r.value.email == email
    ensures r.None? ==> forall i :: 0 <= i < |rows| ==> rows[i].email != email
  {
    Tables.First(rows, (u: User) => u.email == email)
  }

  /** Under dense ids the primary-key lookup is positional. */
  lemma SessionByIdDense(rows: seq<Session>, id: int)
    requires DenseSessionIds(rows)
    ensures SessionById(rows, id) == if 1 <= id <= |rows| then Some(rows[id - 1]) else None
  {
    var p := (s: Session) => s.id == id;
    if 1 <= id <= |rows| {
      assert p(rows[id - 1]);
      Tables.FirstIsEarliest(rows, p);
    }
  }

  /** The database: one sequence per table, updated in place by the route handlers. */
  class Db {
    var users: seq<User>
    var sessions: seq<Session>
    var prayers: seq<Prayer>
    var fasts: seq<Fast>

    ghost predicate Valid()
      reads this
    {
      && DenseSessionIds(sessions)
      && DensePrayerIds(prayers)
      && DenseFastIds(fasts)
    }

    constructor (users: seq<User>)
      ensures Valid()
      ensures this.users == users && sessions == [] && prayers == [] && fasts == []
    {
      this.users := users;
      sessions, prayers, fasts := [], [], [];
    }

    /** Inserts a session for the user; the row gets the next id and the column default for `valid`. */
    method InsertSession(userId: int, userAgent: Option<string>) returns (row: Session)
      requires Valid()
      modifies this`sessions
      ensures Valid()
      ensures row == Session(|old(sessions)| + 1, userId, Some(SessionValidDefault), userAgent)
      ensures sessions == old(sessions) + [row]
    {
      row := Session(|sessions| + 1, userId, Some(SessionValidDefault), userAgent);
      sessions := sessions + [row];
    }

    /** Sets the `valid` column of the session with this id (no row when the id is unknown). */
    method SetSessionValid(id: int, valid: int)
      requires Valid()
      modifies this`sessions
      ensures Valid()
      ensures sessions == Tables.Update(old(sessions), (s: Session) => s.id == id,
                                        (s: Session) => s.(valid := Some(valid)))
    {
      sessions := Tables.Update(sessions, (s: Session) => s.id == id,
                                (s: Session) => s.(valid := Some(valid)));
    }

    /** Inserts a prayer row with the next id and returns it. */
    method InsertPrayer(userId: int, name: string, mode: string, date: int) returns (row: Prayer)
      requires Valid()
      modifies this`prayers
      ensures Valid()
      ensures row == Prayer(|old(prayers)| + 1, userId, name, mode, date)
      ensures prayers == old(prayers) + [row]
    {
      row := Prayer(|prayers| + 1, userId, name, mode, date);
      prayers := prayers + [row];
    }

    /**
     * Rewrites the method and date of the prayer row with this id and returns it,
     * for an id the caller has just read from the table.
     */
    method UpdatePrayer(id: int, mode: string, date: int) returns (row: Prayer)
      requires Valid()
      requires 1 <= id <= |prayers|
      modifies this`prayers
      ensures Valid()
      ensures row == old(prayers)[id - 1].(mode := mode, date := date)
      ensures prayers == old(prayers)[id - 1 := row]
    {
      row := prayers[id - 1].(mode := mode, date := date);
      prayers := prayers[id - 1 := row];
    }

    /** Inserts a fast row with the next id and returns it. */
    method InsertFast(userId: int, date: int) returns (row: Fast)
      requires Valid()
      modifies this`fasts
      ensures Valid()
      ensures row == Fast(|old(fasts)| + 1, userId, date)
      ensures fasts == old(fasts) + [row]
    {
      row := Fast(|fasts| + 1, userId, date);
      fasts := fasts + [row];
    }
  }
}
