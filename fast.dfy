/**
 * The fast routes: POST /fast records each posted date for the current user
 * unless it is already recorded; GET /fast lists the user's fasts, all of them
 * or those on the dates of a comma-separated `dates` query. Dates are integer
 * timestamps; `coerceDate` is zod's `z.coerce.date()` on one piece of text.
 */
module FastRoutes {
  import opened Wrappers
  import opened Schema
  import Tables

  /** A query-string parameter as Express hands it over: absent, text, or repeated. */
  datatype QueryValue = NoValue | Text(s: string) | Repeated(values: seq<string>)

  /** A query that fails validation (the route contract answers 400). */
  datatype QueryError = InvalidQuery

  /** The fasts table after a POST, and the rows answered, one per posted date. */
  datatype Recorded = Recorded(rows: seq<Fast>, response: seq<Fast>)

  /** Splitting on ",": the pieces between commas, in order; there is always at least one. */
  function SplitOnComma(s: string): (r: seq<string>)
    ensures |r| >= 1
    ensures forall i :: 0 <= i < |r| ==> ',' !in r[i]
    decreases |s|
  {
    if s == [] then [""]
    else
      var rest := SplitOnComma(s[1..]);
      if s[0] == ',' then [""] + rest
      else [[s[0]] + rest[0]] + rest[1..]
  }

  /** Joining with "," between the parts. */
  function JoinWithComma(parts: seq<string>): string
    requires |parts| >= 1
    decreases |parts|
  {
    if |parts| == 1 then parts[0] else parts[0] + "," + JoinWithComma(parts[1..])
  }

  /** Splitting loses nothing: joining the pieces with commas gives the text back. */
  lemma {:induction false} JoinSplit(s: string)
    ensures JoinWithComma(SplitOnComma(s)) == s
    decreases |s|
  {
    if s != [] {
      var rest := SplitOnComma(s[1..]);
      JoinSplit(s[1..]);
      if s[0] != ',' {
        var r := SplitOnComma(s);
        assert r[0] == [s[0]] + rest[0] && r[1..] == rest[1..];
        if |rest| > 1 {
          assert JoinWithComma(rest) == rest[0] + "," + JoinWithComma(rest[1..]);
        }
      } else {
        assert SplitOnComma(s)[1..] == rest;
      }
    }
  }

  /** Splitting a comma-free prefix followed by more text extends the first piece. */
  lemma {:induction false} SplitPrefix(p: string, x: string)
    requires ',' !in p
    ensures SplitOnComma(p + x) == [p + SplitOnComma(x)[0]] + SplitOnComma(x)[1..]
    decreases |p|
  {
    if p != [] {
      assert (p + x)[1..] == p[1..] + x;
      SplitPrefix(p[1..], x);
      assert [p[0]] + (p[1..] + SplitOnComma(x)[0]) == p + SplitOnComma(x)[0];
    } else {
      var sx := SplitOnComma(x);
      assert p + x == x && p + sx[0] == sx[0];
      assert [sx[0]] + sx[1..] == sx;
    }
  }

  /** Joining comma-free pieces and splitting again gives the same pieces. */
  lemma {:induction false} SplitJoin(parts: seq<string>)
    requires |parts| >= 1
    requires forall i :: 0 <= i < |parts| ==> ',' !in parts[i]
    ensures SplitOnComma(JoinWithComma(parts)) == parts
    decreases |parts|
  {
    if |parts| == 1 {
      SplitPrefix(parts[0], "");
      assert parts[0] + "" == parts[0];
    } else {
      var tail := JoinWithComma(parts[1..]);
      SplitJoin(parts[1..]);
      assert parts[0] + "," + tail == parts[0] + ("," + tail);
      SplitPrefix(parts[0], "," + tail);
      assert ("," + tail)[1..] == tail;
      assert SplitOnComma("," + tail) == [""] + parts[1..];
      assert parts[0] + "" == parts[0];
      assert [parts[0]] + parts[1..] == parts;
    }
  }

  /** Date coercion of every piece: the whole query fails when one piece is not a date. */
  function CoerceAll(pieces: seq<string>, coerceDate: string -> Option<int>): (r: Option<seq<int>>)
    ensures r.Some? <==> forall i :: 0 <= i < |pieces| ==> coerceDate(pieces[i]).Some?
    ensures r.Some? ==> |r.value| == |pieces|
                        && forall i :: 0 <= i < |pieces| ==> r.value[i] == coerceDate(pieces[i]).value
    decreases |pieces|
  {
    if pieces == [] then Some([])
    else
      match (coerceDate(pieces[0]), CoerceAll(pieces[1..], coerceDate))
      case (Some(d), Some(ds)) => Some([d] + ds)
      case _ => None
  }

  /**
   * The `dates` query: absent stays absent; text is split on "," and each piece
   * coerced to a date; anything else, or a piece that is not a date, is
   * rejected.
   */
  function ParseDates(q: QueryValue, coerceDate: string -> Option<int>): (r: Result<Option<seq<int>>, QueryError>)
    ensures q.NoValue? ==> r == Ok(None)
    ensures q.Repeated? ==> r == Err(InvalidQuery)
    ensures q.Text? && r.Ok? ==> forall i :: 0 <= i < |SplitOnComma(q.s)| ==> coerceDate(SplitOnComma(q.s)[i]).Some?
    ensures q.Text? && r.Err? ==> exists i :: 0 <= i < |SplitOnComma(q.s)| && coerceDate(SplitOnComma(q.s)[i]).None?
    ensures q.Text? && r.Ok? ==>
              && r.value.Some? && |r.value.value| == |SplitOnComma(q.s)| >= 1
              && forall i :: 0 <= i < |SplitOnComma(q.s)| ==> r.value.value[i] == coerceDate(SplitOnComma(q.s)[i]).value
  {
    match q
    case NoValue => Ok(None)
    case Repeated(_) => Err(InvalidQuery)
    case Text(s) =>
      var pieces := SplitOnComma(s);
      match CoerceAll(pieces, coerceDate)
      case Some(ds) => Ok(Some(ds))
      case None =>
        assert exists i :: 0 <= i < |pieces| && coerceDate(pieces[i]).None?;
        Err(InvalidQuery)
  }

  /** GET /fast's filter: the user's fasts, on one of `dates` when given. */
  function ListedFast(userId: int, dates: Option<seq<int>>): Fast -> bool {
    (f: Fast) => f.userId == userId && (dates.None? || f.date in dates.value)
  }

  /**
   * GET /fast: all the user's fasts, or, with `dates`, exactly those on one of
   * the dates; each once, in table order.
   */
  function GetFasts(fasts: seq<Fast>, userId: int, dates: Option<seq<int>>): (r: seq<Fast>)
    ensures Tables.IsSelection(r, fasts, ListedFast(userId, dates))
    ensures forall i :: 0 <= i < |r| ==>
              r[i] in fasts && r[i].userId == userId && (dates.Some? ==> r[i].date in dates.value)
    ensures forall i :: 0 <= i < |fasts| && fasts[i].userId == userId && (dates.Some? ==> fasts[i].date in dates.value)
                        ==> fasts[i] in r
  {
    Tables.Select(fasts, ListedFast(userId, dates))
  }

  /** The lookup of the POST handler: the user's fast on exactly this date. */
  function ExistingFast(rows: seq<Fast>, userId: int, date: int): (r: Option<Fast>)
    ensures r.Some? ==> r.value in rows && r.value.userId == userId && r.value.date == date
    ensures r.None? ==> forall i :: 0 <= i < |rows| ==> !(rows[i].userId == userId && rows[i].date == date)
  {
    Tables.First(rows, (f: Fast) => f.userId == userId && f.date == date)
  }

  ghost predicate HasFast(rows: seq<Fast>, userId: int, date: int) {
    exists i :: 0 <= i < |rows| && rows[i].userId == userId && rows[i].date == date
  }

  /**
   * One posted date: an already recorded date answers the existing row and
   * inserts nothing; a new date appends exactly one row for the user.
   */
  function RecordOne(rows: seq<Fast>, userId: int, date: int): (r: Recorded)
    ensures HasFast(rows, userId, date) ==> r.rows == rows && |r.response| == 1 && r.response[0] in rows
    ensures !HasFast(rows, userId, date) ==>
              r.rows == rows + [Fast(|rows| + 1, userId, date)] && r.response == [Fast(|rows| + 1, userId, date)]
  {
    match ExistingFast(rows, userId, date)
    case Some(f) => Recorded(rows, [f])
    case None =>
      var row := Fast(|rows| + 1, userId, date);
      Recorded(rows + [row], [row])
  }

  /** The posted dates processed one after another, in order. */
  function RecordAll(rows: seq<Fast>, userId: int, dates: seq<int>): (r: Recorded)
    ensures |r.response| == |dates|
    decreases |dates|
  {
    if dates == [] then Recorded(rows, [])
    else
      var before := RecordAll(rows, userId, dates[..|dates| - 1]);
      var step := RecordOne(before.rows, userId, dates[|dates| - 1]);
      Recorded(step.rows, before.response + step.response)
  }

  /** The answer has one row per posted date, in order: the user's fast on that date. */
  lemma {:induction false} RecordAllResponse(rows: seq<Fast>, userId: int, dates: seq<int>)
    ensures var r := RecordAll(rows, userId, dates);
            forall i :: 0 <= i < |dates| ==> r.response[i].userId == userId && r.response[i].date == dates[i]
    decreases |dates|
  {
    if dates != [] {
      var init := dates[..|dates| - 1];
      RecordAllResponse(rows, userId, init);
      var r := RecordAll(rows, userId, dates);
      forall i | 0 <= i < |init| ensures r.response[i] == RecordAll(rows, userId, init).response[i] {
      }
    }
  }

  /**
   * The POST only appends, and only rows of the user on posted dates: the rows
   * already there, other users' rows among them, are untouched.
   */
  lemma {:induction false} RecordAllAppendsOwnRows(rows: seq<Fast>, userId: int, dates: seq<int>)
    ensures var r := RecordAll(rows, userId, dates).rows;
            && |rows| <= |r| && r[..|rows|] == rows
            && forall i :: |rows| <= i < |r| ==> r[i].userId == userId && r[i].date in dates
    decreases |dates|
  {
    if dates != [] {
      var init := dates[..|dates| - 1];
      RecordAllAppendsOwnRows(rows, userId, init);
      var before := RecordAll(rows, userId, init).rows;
      var r := RecordAll(rows, userId, dates).rows;
      assert r[..|before|] == before;
      forall i | |rows| <= i < |r| ensures r[i].userId == userId && r[i].date in dates {
        if i < |before| {
          assert r[i] == before[i];
          assert before[i].date in init;
        }
      }
    }
  }

  /** After the POST every posted date is recorded for the user. */
  lemma {:induction false} RecordAllCovers(rows: seq<Fast>, userId: int, dates: seq<int>)
    ensures forall i :: 0 <= i < |dates| ==> HasFast(RecordAll(rows, userId, dates).rows, userId, dates[i])
    decreases |dates|
  {
    if dates != [] {
      var init := dates[..|dates| - 1];
      RecordAllCovers(rows, userId, init);
      var before := RecordAll(rows, userId, init).rows;
      var r := RecordAll(rows, userId, dates).rows;
      assert |before| <= |r| && r[..|before|] == before;
      forall i | 0 <= i < |dates| ensures HasFast(r, userId, dates[i]) {
        if i < |init| {
          assert dates[i] == init[i];
          var j :| 0 <= j < |before| && before[j].userId == userId && before[j].date == init[i];
          assert r[j] == before[j];
        } else if HasFast(before, userId, dates[i]) {
          var j :| 0 <= j < |before| && before[j].userId == userId && before[j].date == dates[i];
          assert r[j] == before[j];
        } else {
          assert r[|before|].userId == userId && r[|before|].date == dates[i];
        }
      }
    }
  }

  /** Posting dates that are all recorded already inserts nothing. */
  lemma {:induction false} RecordAllOfRecorded(rows: seq<Fast>, userId: int, dates: seq<int>)
    requires forall i :: 0 <= i < |dates| ==> HasFast(rows, userId, dates[i])
    ensures RecordAll(rows, userId, dates).rows == rows
    decreases |dates|
  {
    if dates != [] {
      var init := dates[..|dates| - 1];
      assert forall i :: 0 <= i < |init| ==> init[i] == dates[i];
      RecordAllOfRecorded(rows, userId, init);
      assert HasFast(rows, userId, dates[|dates| - 1]);
    }
  }

  /** Idempotence: posting the same dates a second time adds no rows. */
  lemma RecordAllIdempotent(rows: seq<Fast>, userId: int, dates: seq<int>)
    ensures var once := RecordAll(rows, userId, dates).rows;
            RecordAll(once, userId, dates).rows == once
  {
    RecordAllCovers(rows, userId, dates);
    RecordAllOfRecorded(RecordAll(rows, userId, dates).rows, userId, dates);
  }

  /** At most one fast per (user, date). */
  ghost predicate OnePerDate(rows: seq<Fast>) {
    forall i, j :: 0 <= i < j < |rows| ==> !(rows[i].userId == rows[j].userId && rows[i].date == rows[j].date)
  }

  /** Processed in order, the POST never records a date twice for a user. */
  lemma {:induction false} RecordAllKeepsOnePerDate(rows: seq<Fast>, userId: int, dates: seq<int>)
    requires OnePerDate(rows)
    ensures OnePerDate(RecordAll(rows, userId, dates).rows)
    decreases |dates|
  {
    if dates != [] {
      var init := dates[..|dates| - 1];
      RecordAllKeepsOnePerDate(rows, userId, init);
      var before := RecordAll(rows, userId, init).rows;
      var d := dates[|dates| - 1];
      if !HasFast(before, userId, d) {
        var r := RecordAll(rows, userId, dates).rows;
        assert r == before + [Fast(|before| + 1, userId, d)];
        forall i, j | 0 <= i < j < |r| ensures !(r[i].userId == r[j].userId && r[i].date == r[j].date) {
          if j == |before| {
            assert r[i] == before[i];
          }
        }
      }
    }
  }

  /**
   * POST /fast: the dates are recorded one after another (the source starts
   * them together with `Promise.all`); the answer and the new table are those
   * of `RecordAll`, and no other table changes.
   */
  method PostFasts(db: Db, userId: int, dates: seq<int>) returns (response: seq<Fast>)
    requires db.Valid()
    modifies db`fasts
    ensures db.Valid()
    ensures Recorded(db.fasts, response) == RecordAll(old(db.fasts), userId, dates)
  {
    response := [];
    var i := 0;
    while i < |dates|
      invariant 0 <= i <= |dates|
      invariant db.Valid()
      invariant Recorded(db.fasts, response) == RecordAll(old(db.fasts), userId, dates[..i])
    {
      ghost var before := db.fasts;
      var date := dates[i];
      var existing := ExistingFast(db.fasts, userId, date);
      var row: Fast;
      if existing.Some? {
        row := existing.value;
      } else {
        row := db.InsertFast(userId, date);
      }
      assert Recorded(db.fasts, [row]) == RecordOne(before, userId, date);
      RecordAllStep(old(db.fasts), userId, dates, i, before, response, db.fasts, row);
      response := response + [row];
      i := i + 1;
    }
    assert dates[..|dates|] == dates;
  }

  /** Taking one more date into `RecordAll`. */
  lemma RecordAllStep(rows: seq<Fast>, userId: int, dates: seq<int>, i: nat,
                      before: seq<Fast>, response: seq<Fast>, after: seq<Fast>, row: Fast)
    requires i < |dates|
    requires Recorded(before, response) == RecordAll(rows, userId, dates[..i])
    requires Recorded(after, [row]) == RecordOne(before, userId, dates[i])
    ensures Recorded(after, response + [row]) == RecordAll(rows, userId, dates[..i + 1])
  {
    assert dates[..i + 1][..i] == dates[..i];
  }
}
