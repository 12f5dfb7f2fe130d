/**
 * The prayer routes: POST /prayer upserts one row per request item, keyed on
 * (current user, prayer name, start of day of the date); GET /prayer lists the
 * current user's rows dated at the start of a given day. Dates are integer
 * timestamps and `sod` is dayjs's `startOf("day")`.
 */
module PrayerRoutes {
  import opened Wrappers
  import opened Schema
  import Tables

  /** The five daily prayers the request schema accepts. */
  datatype PrayerName = Fajr | Dhuhr | Asr | Maghrib | Isha

  /** The three ways a prayer can be offered. */
  datatype PrayerMethod = Infradi | Jamat | Qaza

  /** One element of the POST body, after validation. */
  datatype PrayerRequest = PrayerRequest(name: PrayerName, mode: PrayerMethod, date: int)

  /** The prayers table after a POST, and the rows answered, one per request item. */
  datatype Posted = Posted(rows: seq<Prayer>, response: seq<Prayer>)

  function NameText(n: PrayerName): string {
    match n
    case Fajr => "Fajr"
    case Dhuhr => "Dhuhr"
    case Asr => "Asr"
    case Maghrib => "Maghrib"
    case Isha => "Isha"
  }

  function MethodText(m: PrayerMethod): string {
    match m
    case Infradi => "Infradi"
    case Jamat => "Jamat"
    case Qaza => "Qaza"
  }

  /** The name enum accepts exactly the five spellings, and gives back the one it read. */
  function ParseName(s: string): (r: Option<PrayerName>)
    ensures r.Some? <==> s in ["Fajr", "Dhuhr", "Asr", "Maghrib", "Isha"]
    ensures r.Some? ==> NameText(r.value) == s
  {
    if s == "Fajr" then Some(Fajr)
    else if s == "Dhuhr" then Some(Dhuhr)
    else if s == "Asr" then Some(Asr)
    else if s == "Maghrib" then Some(Maghrib)
    else if s == "Isha" then Some(Isha)
    else None
  }

  /** The method enum accepts exactly the three spellings, and gives back the one it read. */
  function ParseMethod(s: string): (r: Option<PrayerMethod>)
    ensures r.Some? <==> s in ["Infradi", "Jamat", "Qaza"]
    ensures r.Some? ==> MethodText(r.value) == s
  {
    if s == "Infradi" then Some(Infradi)
    else if s == "Jamat" then Some(Jamat)
    else if s == "Qaza" then Some(Qaza)
    else None
  }

  /** Writing an enum value and reading it back gives the same value. */
  lemma EnumsRoundTrip(n: PrayerName, m: PrayerMethod)
    ensures ParseName(NameText(n)) == Some(n)
    ensures ParseMethod(MethodText(m)) == Some(m)
  {
  }

  /** GET /prayer's filter: the user's rows dated `day`. */
  function ListedPrayer(userId: int, day: int): Prayer -> bool {
    (p: Prayer) => p.userId == userId && p.date == day
  }

  /**
   * GET /prayer: the user's rows whose date is the start of the query day, each
   * once, in table order; the day defaults to now.
   */
  function GetPrayers(prayers: seq<Prayer>, userId: int, date: Option<int>, now: int, sod: int -> int): (r: seq<Prayer>)
    ensures Tables.IsSelection(r, prayers, ListedPrayer(userId, sod(date.GetOr(now))))
    ensures forall i :: 0 <= i < |r| ==>
              r[i] in prayers && r[i].userId == userId && r[i].date == sod(date.GetOr(now))
    ensures forall i :: 0 <= i < |prayers| && prayers[i].userId == userId && prayers[i].date == sod(date.GetOr(now))
                        ==> prayers[i] in r
  {
    Tables.Select(prayers, ListedPrayer(userId, sod(date.GetOr(now))))
  }

  /** The POST handler's lookup condition: the user's row with this name dated at the start of the item's day. */
  predicate Matches(p: Prayer, userId: int, item: PrayerRequest, sod: int -> int) {
    p.userId == userId && p.name == NameText(item.name) && p.date == sod(item.date)
  }

  /** The lookup of the POST handler: the first row that `Matches` the item. */
  function Existing(rows: seq<Prayer>, userId: int, item: PrayerRequest, sod: int -> int): (r: Option<Prayer>)
    ensures r.Some? ==> r.value in rows && r.value.userId == userId
                        && r.value.name == NameText(item.name) && r.value.date == sod(item.date)
    ensures r.None? ==> forall i :: 0 <= i < |rows| ==>
              !(rows[i].userId == userId && rows[i].name == NameText(item.name) && rows[i].date == sod(item.date))
  {
    Tables.First(rows, (p: Prayer) => Matches(p, userId, item, sod))
  }

  /** A row of a dense table sits at the index its id names. */
  lemma DenseRowAt(rows: seq<Prayer>, p: Prayer)
    requires DensePrayerIds(rows) && p in rows
    ensures 1 <= p.id <= |rows| && rows[p.id - 1] == p
  {
    var i :| 0 <= i < |rows| && rows[i] == p;
  }

  /**
   * One request item: a found row gets the item's method and (untruncated)
   * date, keeping its id, user and name; otherwise one row is appended for
   * the user.
   */
  function UpsertOne(rows: seq<Prayer>, userId: int, item: PrayerRequest, sod: int -> int): (r: Posted)
    requires DensePrayerIds(rows)
    ensures |r.response| == 1 && |rows| <= |r.rows| <= |rows| + 1
  {
    match Existing(rows, userId, item, sod)
    case Some(p) =>
      DenseRowAt(rows, p);
      var row := p.(mode := MethodText(item.mode), date := item.date);
      Posted(rows[p.id - 1 := row], [row])
    case None =>
      var row := Prayer(|rows| + 1, userId, NameText(item.name), MethodText(item.mode), item.date);
      Posted(rows + [row], [row])
  }

  /** The request items processed one after another, in request order. */
  function UpsertAll(rows: seq<Prayer>, userId: int, items: seq<PrayerRequest>, sod: int -> int): (r: Posted)
    requires DensePrayerIds(rows)
    ensures DensePrayerIds(r.rows)
    ensures |r.response| == |items| && |rows| <= |r.rows|
    decreases |items|
  {
    if items == [] then Posted(rows, [])
    else
      var before := UpsertAll(rows, userId, items[..|items| - 1], sod);
      var step := UpsertOne(before.rows, userId, items[|items| - 1], sod);
      Posted(step.rows, before.response + step.response)
  }

  /**
   * One item: the answered row is the user's row with the item's name, method
   * and date. When a row matches, it is that row, updated where it stands, and
   * no other row changes; otherwise exactly one row is appended with the next
   * id and nothing else changes. Other users' rows are untouched, existing
   * rows keep their id, user and name, and an added row belongs to the user.
   */
  lemma UpsertOneEffect(rows: seq<Prayer>, userId: int, item: PrayerRequest, sod: int -> int)
    requires DensePrayerIds(rows)
    ensures var r := UpsertOne(rows, userId, item, sod);
            && r.response[0].userId == userId
            && r.response[0].name == NameText(item.name)
            && r.response[0].mode == MethodText(item.mode)
            && r.response[0].date == item.date
            && (Existing(rows, userId, item, sod).Some? ==>
                  |r.rows| == |rows| && r.response[0].id == Existing(rows, userId, item, sod).value.id)
            && (Existing(rows, userId, item, sod).None? ==>
                  r.rows == rows + [r.response[0]] && r.response[0].id == |rows| + 1)
            && (forall i :: 0 <= i < |rows| && r.rows[i] != rows[i] ==> Existing(rows, userId, item, sod) == Some(rows[i]))
            && (forall i :: 0 <= i < |rows| && rows[i].userId != userId ==> r.rows[i] == rows[i])
            && (forall i :: 0 <= i < |rows| ==>
                  r.rows[i].id == rows[i].id && r.rows[i].userId == rows[i].userId && r.rows[i].name == rows[i].name)
            && (forall i :: |rows| <= i < |r.rows| ==> r.rows[i].userId == userId)
  {
    match Existing(rows, userId, item, sod)
    case Some(p) =>
      DenseRowAt(rows, p);
    case None =>
  }

  /**
   * The answer has one row per request item, in request order, each the
   * current user's row with that item's name, method and date.
   */
  lemma {:induction false} UpsertAllResponse(rows: seq<Prayer>, userId: int, items: seq<PrayerRequest>, sod: int -> int)
    requires DensePrayerIds(rows)
    ensures var r := UpsertAll(rows, userId, items, sod);
            && |r.response| == |items|
            && forall i :: 0 <= i < |items| ==>
                 && r.response[i].userId == userId
                 && r.response[i].name == NameText(items[i].name)
                 && r.response[i].mode == MethodText(items[i].mode)
                 && r.response[i].date == items[i].date
  {
    if items != [] {
      var init := items[..|items| - 1];
      UpsertAllResponse(rows, userId, init, sod);
      var before := UpsertAll(rows, userId, init, sod);
      var last := items[|items| - 1];
      var step := UpsertOne(before.rows, userId, last, sod);
      assert && step.response[0].userId == userId && step.response[0].name == NameText(last.name)
             && step.response[0].mode == MethodText(last.mode) && step.response[0].date == last.date by {
        UpsertOneEffect(before.rows, userId, last, sod);
      }
      var r := UpsertAll(rows, userId, items, sod);
      assert r.response == before.response + step.response;
      forall i | 0 <= i < |items|
        ensures && r.response[i].userId == userId
                && r.response[i].name == NameText(items[i].name)
                && r.response[i].mode == MethodText(items[i].mode)
                && r.response[i].date == items[i].date
      {
        if i < |init| {
          assert r.response[i] == before.response[i] && items[i] == init[i];
        } else {
          assert r.response[i] == step.response[0];
        }
      }
    }
  }

  /**
   * Rows of other users are neither changed nor added; the user's existing rows
   * keep their id, user and name (only method and date change), and a row no
   * item matches does not change at all; at most one row is added per item,
   * and every added row belongs to the user.
   */
  lemma {:induction false} UpsertAllFrame(rows: seq<Prayer>, userId: int, items: seq<PrayerRequest>, sod: int -> int)
    requires DensePrayerIds(rows)
    ensures var r := UpsertAll(rows, userId, items, sod).rows;
            && |rows| <= |r| <= |rows| + |items|
            && (forall i :: 0 <= i < |rows| && (forall k :: 0 <= k < |items| ==> !Matches(rows[i], userId, items[k], sod))
                  ==> r[i] == rows[i])
            && (forall i :: 0 <= i < |rows| && rows[i].userId != userId ==> r[i] == rows[i])
            && (forall i :: 0 <= i < |rows| ==>
                  r[i].id == rows[i].id && r[i].userId == rows[i].userId && r[i].name == rows[i].name)
            && (forall i :: |rows| <= i < |r| ==> r[i].userId == userId)
  {
    if items != [] {
      var init := items[..|items| - 1];
      UpsertAllFrame(rows, userId, init, sod);
      var before := UpsertAll(rows, userId, init, sod).rows;
      var last := items[|items| - 1];
      UpsertOneEffect(before, userId, last, sod);
      var r := UpsertAll(rows, userId, items, sod).rows;
      assert r == UpsertOne(before, userId, last, sod).rows;
      forall i | 0 <= i < |rows| && (forall k :: 0 <= k < |items| ==> !Matches(rows[i], userId, items[k], sod))
        ensures r[i] == rows[i]
      {
        assert forall k :: 0 <= k < |init| ==> init[k] == items[k];
        assert before[i] == rows[i];
        assert !Matches(rows[i], userId, last, sod);
      }
    }
  }

  /** Every row is dated at the start of its day. */
  ghost predicate AtDayStart(rows: seq<Prayer>, sod: int -> int) {
    forall i :: 0 <= i < |rows| ==> sod(rows[i].date) == rows[i].date
  }

  /** At most one row per (user, name, day). */
  ghost predicate OnePerDay(rows: seq<Prayer>, sod: int -> int) {
    forall i, j :: 0 <= i < j < |rows| ==>
      !(rows[i].userId == rows[j].userId && rows[i].name == rows[j].name && sod(rows[i].date) == sod(rows[j].date))
  }

  ghost predicate ItemsAtDayStart(items: seq<PrayerRequest>, sod: int -> int) {
    forall i :: 0 <= i < |items| ==> sod(items[i].date) == items[i].date
  }

  lemma UpsertOneKeepsOnePerDay(rows: seq<Prayer>, userId: int, item: PrayerRequest, sod: int -> int)
    requires DensePrayerIds(rows) && AtDayStart(rows, sod) && OnePerDay(rows, sod)
    requires sod(item.date) == item.date
    ensures AtDayStart(UpsertOne(rows, userId, item, sod).rows, sod)
    ensures OnePerDay(UpsertOne(rows, userId, item, sod).rows, sod)
  {
    var r := UpsertOne(rows, userId, item, sod).rows;
    match Existing(rows, userId, item, sod)
    case Some(p) =>
      DenseRowAt(rows, p);
      assert r[p.id - 1].date == p.date;
      forall i, j | 0 <= i < j < |r|
        ensures !(r[i].userId == r[j].userId && r[i].name == r[j].name && sod(r[i].date) == sod(r[j].date))
      {
        assert r[i].userId == rows[i].userId && r[i].name == rows[i].name && r[i].date == rows[i].date;
        assert r[j].userId == rows[j].userId && r[j].name == rows[j].name && r[j].date == rows[j].date;
      }
    case None =>
      forall i, j | 0 <= i < j < |r|
        ensures !(r[i].userId == r[j].userId && r[i].name == r[j].name && sod(r[i].date) == sod(r[j].date))
      {
        if j == |rows| {
          assert sod(rows[i].date) == rows[i].date;
        }
      }
  }

  /**
   * With request dates already at the start of their day, the items processed
   * one after another keep the table at one row per (user, name, day) and every row at the start of its day.
   */
  lemma {:induction false} UpsertAllKeepsOnePerDay(rows: seq<Prayer>, userId: int, items: seq<PrayerRequest>, sod: int -> int)
    requires DensePrayerIds(rows) && AtDayStart(rows, sod) && OnePerDay(rows, sod)
    requires ItemsAtDayStart(items, sod)
    ensures AtDayStart(UpsertAll(rows, userId, items, sod).rows, sod)
    ensures OnePerDay(UpsertAll(rows, userId, items, sod).rows, sod)
  {
    if items != [] {
      var init := items[..|items| - 1];
      assert ItemsAtDayStart(init, sod) by {
        forall i | 0 <= i < |init| ensures sod(init[i].date) == init[i].date {
          assert init[i] == items[i];
        }
      }
      UpsertAllKeepsOnePerDay(rows, userId, init, sod);
      UpsertOneKeepsOnePerDay(UpsertAll(rows, userId, init, sod).rows, userId, items[|items| - 1], sod);
    }
  }

  /**
   * As written, a request date that is not at the start of its day is stored
   * untruncated: posting the same prayer twice that day adds two rows for one
   * (user, name, day), and reading that day back (by a query date on that day,
   * or by default on that day) lists neither of them.
   */
  lemma UntruncatedDateAsWritten(rows: seq<Prayer>, userId: int, item: PrayerRequest,
                                 date: Option<int>, now: int, sod: int -> int)
    requires DensePrayerIds(rows)
    requires sod(item.date) != item.date
    requires sod(date.GetOr(now)) == sod(item.date)
    requires Existing(rows, userId, item, sod).None?
    ensures var r := UpsertAll(rows, userId, [item, item], sod);
            && |r.rows| == |rows| + 2
            && r.rows[|rows|].userId == r.rows[|rows| + 1].userId == userId
            && r.rows[|rows|].name == r.rows[|rows| + 1].name
            && sod(r.rows[|rows|].date) == sod(r.rows[|rows| + 1].date)
            && r.response[0] !in GetPrayers(r.rows, userId, date, now, sod)
            && r.response[1] !in GetPrayers(r.rows, userId, date, now, sod)
  {
    var row1 := Prayer(|rows| + 1, userId, NameText(item.name), MethodText(item.mode), item.date);
    var first := Posted(rows + [row1], [row1]);
    assert UpsertOne(rows, userId, item, sod) == first;
    assert Existing(first.rows, userId, item, sod).None? by {
      forall i | 0 <= i < |first.rows|
        ensures !(first.rows[i].userId == userId && first.rows[i].name == NameText(item.name)
                  && first.rows[i].date == sod(item.date))
      {
        if i < |rows| { assert first.rows[i] == rows[i]; }
      }
    }
    var row2 := Prayer(|rows| + 2, userId, NameText(item.name), MethodText(item.mode), item.date);
    assert UpsertOne(first.rows, userId, item, sod) == Posted(first.rows + [row2], [row2]);
    assert [item, item][..1] == [item] && [item][..0] == [];
    assert UpsertAll(rows, userId, [item], sod) == first;
    var r := UpsertAll(rows, userId, [item, item], sod);
    assert r == Posted(first.rows + [row2], [row1, row2]);
  }

  /** The request items with their dates moved to the start of their day. */
  function Truncated(items: seq<PrayerRequest>, sod: int -> int): (r: seq<PrayerRequest>)
    ensures |r| == |items|
    ensures forall i :: 0 <= i < |items| ==>
              r[i].name == items[i].name && r[i].mode == items[i].mode && r[i].date == sod(items[i].date)
  {
    seq(|items|, i requires 0 <= i < |items| => items[i].(date := sod(items[i].date)))
  }

  /** `startOf("day")` is idempotent: the start of a day starts that day. */
  ghost predicate DayStartIdempotent(sod: int -> int) {
    forall d :: sod(sod(d)) == sod(d)
  }

  /** The evidently intended POST: the same upsert, storing the start of the day. */
  function UpsertAllAtDayStart(rows: seq<Prayer>, userId: int, items: seq<PrayerRequest>, sod: int -> int): (r: Posted)
    requires DensePrayerIds(rows)
  {
    UpsertAll(rows, userId, Truncated(items, sod), sod)
  }

  /**
   * The intended POST keeps one row per (user, name, day) whatever time of day
   * the request dates carry, and each answered row is listed when that day is
   * read back.
   */
  lemma UpsertAtDayStartKeepsOnePerDay(rows: seq<Prayer>, userId: int, items: seq<PrayerRequest>, now: int, sod: int -> int)
    requires DayStartIdempotent(sod)
    requires DensePrayerIds(rows) && AtDayStart(rows, sod) && OnePerDay(rows, sod)
    ensures AtDayStart(UpsertAllAtDayStart(rows, userId, items, sod).rows, sod)
    ensures OnePerDay(UpsertAllAtDayStart(rows, userId, items, sod).rows, sod)
    ensures var r := UpsertAllAtDayStart(rows, userId, items, sod);
            forall i :: 0 <= i < |items| ==> r.response[i].userId == userId && r.response[i].date == sod(items[i].date)
  {
    var t := Truncated(items, sod);
    assert ItemsAtDayStart(t, sod) by {
      forall i | 0 <= i < |t| ensures sod(t[i].date) == t[i].date {
        assert sod(sod(items[i].date)) == sod(items[i].date);
      }
    }
    UpsertAllKeepsOnePerDay(rows, userId, t, sod);
    UpsertAllResponse(rows, userId, t, sod);
  }

  /**
   * With the intended POST, a single posted prayer is listed when its day is
   * read back, by a query date on that day or by default on that day.
   */
  lemma PostedPrayerListedAtDayStart(rows: seq<Prayer>, userId: int, item: PrayerRequest,
                                     date: Option<int>, now: int, sod: int -> int)
    requires DayStartIdempotent(sod)
    requires DensePrayerIds(rows)
    requires sod(date.GetOr(now)) == sod(item.date)
    ensures var r := UpsertAllAtDayStart(rows, userId, [item], sod);
            r.response[0] in GetPrayers(r.rows, userId, date, now, sod)
  {
    var t := Truncated([item], sod);
    assert |t| == 1 && t[..|t| - 1] == [];
    var r := UpsertAllAtDayStart(rows, userId, [item], sod);
    assert r == UpsertAll(rows, userId, t, sod);
    assert UpsertAll(rows, userId, t[..|t| - 1], sod) == Posted(rows, []);
    assert r == UpsertOne(rows, userId, t[0], sod);
    var row := r.response[0];
    match Existing(rows, userId, t[0], sod)
    case Some(p) =>
      DenseRowAt(rows, p);
      assert r.rows[p.id - 1] == row;
    case None =>
      assert r.rows[|rows|] == row;
  }

  /**
   * POST /prayer: the items are upserted one after another (the source starts
   * them together with `Promise.all`); the answer and the new table are those
   * of `UpsertAll`, and no other table changes.
   */
  method PostPrayers(db: Db, userId: int, items: seq<PrayerRequest>, sod: int -> int) returns (response: seq<Prayer>)
    requires db.Valid()
    modifies db`prayers
    ensures db.Valid()
    ensures Posted(db.prayers, response) == UpsertAll(old(db.prayers), userId, items, sod)
  {
    ghost var rows0 := db.prayers;
    response := [];
    var i := 0;
    while i < |items|
      invariant 0 <= i <= |items|
      invariant db.Valid()
      invariant Posted(db.prayers, response) == UpsertAll(rows0, userId, items[..i], sod)
    {
      ghost var before := db.prayers;
      var item := items[i];
      var existing := Existing(db.prayers, userId, item, sod);
      var row: Prayer;
      if existing.Some? {
        UpsertOneFound(before, userId, item, sod);
        row := db.UpdatePrayer(existing.value.id, MethodText(item.mode), item.date);
      } else {
        row := db.InsertPrayer(userId, NameText(item.name), MethodText(item.mode), item.date);
      }
      UpsertAllStep(rows0, userId, items, i, sod, before, response, db.prayers, row);
      response := response + [row];
      i := i + 1;
    }
    assert items[..|items|] == items;
  }

  /** The upsert of a found row, written positionally as the loop performs it. */
  lemma UpsertOneFound(rows: seq<Prayer>, userId: int, item: PrayerRequest, sod: int -> int)
    requires DensePrayerIds(rows) && Existing(rows, userId, item, sod).Some?
    ensures var p := Existing(rows, userId, item, sod).value;
            && 1 <= p.id <= |rows|
            && var row := rows[p.id - 1].(mode := MethodText(item.mode), date := item.date);
               UpsertOne(rows, userId, item, sod) == Posted(rows[p.id - 1 := row], [row])
  {
    DenseRowAt(rows, Existing(rows, userId, item, sod).value);
  }

  /** Taking one more request item into `UpsertAll`. */
  lemma UpsertAllStep(rows: seq<Prayer>, userId: int, items: seq<PrayerRequest>, i: nat, sod: int -> int,
                      before: seq<Prayer>, response: seq<Prayer>, after: seq<Prayer>, row: Prayer)
    requires DensePrayerIds(rows) && i < |items|
    requires Posted(before, response) == UpsertAll(rows, userId, items[..i], sod)
    requires Posted(after, [row]) == UpsertOne(before, userId, items[i], sod)
    ensures Posted(after, response + [row]) == UpsertAll(rows, userId, items[..i + 1], sod)
  {
    assert items[..i + 1][..i] == items[..i];
  }
}
