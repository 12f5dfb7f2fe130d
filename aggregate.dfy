/**
 * `aggregateOneToMany`: groups joined rows by their `one` value and collects
 * the non-null `many` values of each group, in input order.
 *
 * The source indexes a plain object by `row[one]`, so rows are grouped by the
 * property key (a string) that value is converted to; that conversion is the
 * `key` parameter here. The groups come out in the order `Object.values`
 * enumerates a plain object: keys that are array indices first, in ascending
 * numeric order, then the other keys in the order they were added.
 */
module DrizzleHelpers {
  import opened Wrappers

  /** A row of a one-to-many join: the `one` side and the nullable `many` side. */
  datatype JoinedRow<O, M> = JoinedRow(one: O, many: Option<M>)

  /** One output element: the `one` value with a `many` list. */
  datatype Group<O, M> = Group(one: O, many: seq<M>)

  /** The distinct keys of the rows, in the order they are first seen. */
  function Keys<O, M, K(==)>(rows: seq<JoinedRow<O, M>>, key: O -> K): (ks: seq<K>)
    ensures |ks| <= |rows|
    ensures forall i, j :: 0 <= i < j < |ks| ==> ks[i] != ks[j]
    ensures forall i :: 0 <= i < |rows| ==> key(rows[i].one) in ks
    decreases |rows|
  {
    if rows == [] then []
    else
      var init := rows[..|rows| - 1];
      var ks := Keys(init, key);
      var k := key(rows[|rows| - 1].one);
      assert forall i :: 0 <= i < |rows| - 1 ==> rows[i] == init[i];
      if k in ks then ks else ks + [k]
  }

  /** Every key is the key of some row. */
  lemma {:induction false} KeysOfRows<O, M, K>(rows: seq<JoinedRow<O, M>>, key: O -> K, k: K)
    requires k in Keys(rows, key)
    ensures exists i :: 0 <= i < |rows| && key(rows[i].one) == k
    decreases |rows|
  {
    var init := rows[..|rows| - 1];
    if k in Keys(init, key) {
      KeysOfRows(init, key, k);
      var i :| 0 <= i < |init| && key(init[i].one) == k;
      assert rows[i] == init[i];
    }
  }

  /** Rows that all share one key have that key alone. */
  lemma {:induction false} KeysOfOneKey<O, M, K>(rows: seq<JoinedRow<O, M>>, key: O -> K, k: K)
    requires rows != [] && forall i :: 0 <= i < |rows| ==> key(rows[i].one) == k
    ensures Keys(rows, key) == [k]
    decreases |rows|
  {
    var init := rows[..|rows| - 1];
    if init != [] {
      assert forall i :: 0 <= i < |init| ==> init[i] == rows[i];
      KeysOfOneKey(init, key, k);
    }
  }

  /** The `one` value of the first row with key `k`. */
  function FirstOne<O, M, K(==)>(rows: seq<JoinedRow<O, M>>, key: O -> K, k: K): (o: O)
    requires k in Keys(rows, key)
    ensures key(o) == k
    decreases |rows|
  {
    var init := rows[..|rows| - 1];
    if k in Keys(init, key) then FirstOne(init, key, k) else rows[|rows| - 1].one
  }

  /**
   * The non-null `many` values of the rows with key `k`, in input order: at
   * most one per row (exactly how many is `CollectedLength`).
   */
  function Collected<O, M, K(==)>(rows: seq<JoinedRow<O, M>>, key: O -> K, k: K): (r: seq<M>)
    ensures |r| <= |rows|
    decreases |rows|
  {
    if rows == [] then []
    else
      var last := rows[|rows| - 1];
      Collected(rows[..|rows| - 1], key, k) + (if key(last.one) == k && last.many.Some? then [last.many.value] else [])
  }

  /** No key occurs twice. */
  ghost predicate Distinct<K>(ks: seq<K>) {
    forall i, j :: 0 <= i < j < |ks| ==> ks[i] != ks[j]
  }

  /** Dropping the first key keeps the rest distinct, and the first key is not among them. */
  lemma DistinctTail<K>(ks: seq<K>)
    requires ks != []
    ensures Distinct(ks) ==> Distinct(ks[1..]) && ks[0] !in ks[1..]
  {
    var tail := ks[1..];
    if Distinct(ks) {
      forall i, j | 0 <= i < j < |tail| ensures tail[i] != tail[j] {
        assert tail[i] == ks[i + 1] && tail[j] == ks[j + 1];
      }
    }
  }

  /** The group of each key of `ks`, in the order of `ks`. */
  function GroupsOf<O, M, K(==)>(rows: seq<JoinedRow<O, M>>, key: O -> K, ks: seq<K>): (g: seq<Group<O, M>>)
    requires forall j :: 0 <= j < |ks| ==> ks[j] in Keys(rows, key)
    ensures |g| == |ks|
    ensures forall j :: 0 <= j < |ks| ==> key(g[j].one) == ks[j]
  {
    seq(|ks|, j requires 0 <= j < |ks| => Group(FirstOne(rows, key, ks[j]), Collected(rows, key, ks[j])))
  }

  /** One group per key, in the order the keys were first seen. */
  function InsertionGroups<O, M, K(==)>(rows: seq<JoinedRow<O, M>>, key: O -> K): seq<Group<O, M>> {
    GroupsOf(rows, key, Keys(rows, key))
  }

  /** A key that no row carries collects nothing. */
  lemma CollectedOfAbsentKey<O, M, K>(rows: seq<JoinedRow<O, M>>, key: O -> K, k: K)
    requires k !in Keys(rows, key)
    ensures Collected(rows, key, k) == []
  {
    CollectedEmpty(rows, key, k);
  }

  /** How the keys and the first `one` values change when one more row is taken in. */
  lemma TakeRow<O, M, K>(rows: seq<JoinedRow<O, M>>, key: O -> K, i: nat)
    requires i < |rows|
    ensures var pre, post, k0 := rows[..i], rows[..i + 1], key(rows[i].one);
            && Keys(post, key) == (if k0 in Keys(pre, key) then Keys(pre, key) else Keys(pre, key) + [k0])
            && (forall k :: k in Keys(pre, key) ==> FirstOne(post, key, k) == FirstOne(pre, key, k))
            && (k0 !in Keys(pre, key) ==> FirstOne(post, key, k0) == rows[i].one && Collected(pre, key, k0) == [])
  {
    var pre, post, k0 := rows[..i], rows[..i + 1], key(rows[i].one);
    assert post[..i] == pre && post[i] == rows[i];
    if k0 !in Keys(pre, key) {
      CollectedOfAbsentKey(pre, key, k0);
    }
  }

  /** How the values collected for one key change when one more row is taken in. */
  lemma TakeRowValue<O, M, K>(rows: seq<JoinedRow<O, M>>, key: O -> K, i: nat, k: K)
    requires i < |rows|
    ensures Collected(rows[..i + 1], key, k) == Collected(rows[..i], key, k)
              + (if k == key(rows[i].one) && rows[i].many.Some? then [rows[i].many.value] else [])
  {
    assert rows[..i + 1][..i] == rows[..i];
  }

  /** What the loop has built after taking in the first `i` rows. */
  ghost predicate Built<O, M, K(!new)>(rows: seq<JoinedRow<O, M>>, key: O -> K, i: nat,
                                     table: map<K, Group<O, M>>, order: seq<K>)
    requires i <= |rows|
  {
    && order == Keys(rows[..i], key)
    && (forall k :: k in table <==> k in order)
    && (forall k :: k in order ==> table[k] == Group(FirstOne(rows[..i], key, k), Collected(rows[..i], key, k)))
  }

  /** Adding the row's key (when new) to the table and the key order. */
  lemma TakeKey<O, M, K(!new)>(rows: seq<JoinedRow<O, M>>, key: O -> K, i: nat,
                             table: map<K, Group<O, M>>, order: seq<K>,
                             mid: map<K, Group<O, M>>, order': seq<K>)
    requires i < |rows| && Built(rows, key, i, table, order)
    requires var id := key(rows[i].one);
             && mid == (if id in table then table else table[id := Group(rows[i].one, [])])
             && order' == (if id in table then order else order + [id])
    ensures order' == Keys(rows[..i + 1], key)
    ensures forall k :: k in mid <==> k in order'
    ensures forall k :: k in order' ==> mid[k] == Group(FirstOne(rows[..i + 1], key, k), Collected(rows[..i], key, k))
  {
    TakeRow(rows, key, i);
    var id := key(rows[i].one);
    forall k | k in order'
      ensures mid[k] == Group(FirstOne(rows[..i + 1], key, k), Collected(rows[..i], key, k))
    {
      if k != id || id in table {
        assert k in order && mid[k] == table[k];
      }
    }
  }

  /** Appending the row's non-null value to its key's group. */
  lemma TakeValue<O, M, K(!new)>(rows: seq<JoinedRow<O, M>>, key: O -> K, i: nat,
                               mid: map<K, Group<O, M>>, order': seq<K>, table': map<K, Group<O, M>>)
    requires i < |rows|
    requires order' == Keys(rows[..i + 1], key)
    requires forall k :: k in mid <==> k in order'
    requires forall k :: k in order' ==> mid[k] == Group(FirstOne(rows[..i + 1], key, k), Collected(rows[..i], key, k))
    requires var row, id := rows[i], key(rows[i].one);
             table' == if row.many.Some? then mid[id := mid[id].(many := mid[id].many + [row.many.value])] else mid
    ensures Built(rows, key, i + 1, table', order')
  {
    var pre, post := rows[..i], rows[..i + 1];
    var row, id := rows[i], key(rows[i].one);
    assert id in order';
    forall k | k in order'
      ensures table'[k] == Group(FirstOne(post, key, k), Collected(post, key, k))
    {
      var extra := if k == id && row.many.Some? then [row.many.value] else [];
      TakeRowValue(rows, key, i, k);
      if k == id && row.many.Some? {
        assert table'[k] == mid[k].(many := mid[k].many + extra);
      } else {
        assert table'[k] == mid[k];
        assert Collected(pre, key, k) + extra == Collected(pre, key, k);
      }
    }
  }

  // Property-key order of a plain object.

  predicate IsDigit(c: char) {
    '0' <= c <= '9'
  }

  /** The number a string of decimal digits denotes (a non-digit counts as 0). */
  function DecimalValue(s: string): nat
    decreases |s|
  {
    if s == [] then 0
    else
      var c := s[|s| - 1];
      DecimalValue(s[..|s| - 1]) * 10 + (if IsDigit(c) then c as int - '0' as int else 0)
  }

  /**
   * An array index: the canonical decimal form (no leading zero) of an integer
   * below 2^32 - 1. `Object.values` lists these keys first, in ascending order.
   */
  predicate IsArrayIndex(s: string) {
    && |s| >= 1
    && (forall i :: 0 <= i < |s| ==> IsDigit(s[i]))
    && (s[0] == '0' ==> |s| == 1)
    && DecimalValue(s) < 0xFFFF_FFFF
  }

  /** Each key's numeric value is at most the next one's. */
  ghost predicate Ascending(ks: seq<string>) {
    forall i, j :: 0 <= i < j < |ks| ==> DecimalValue(ks[i]) <= DecimalValue(ks[j])
  }

  /** The array-index keys of `ks`, in the order of `ks`. */
  function IndexKeys(ks: seq<string>): (r: seq<string>)
    ensures forall x :: x in r <==> x in ks && IsArrayIndex(x)
    ensures Distinct(ks) ==> Distinct(r)
    decreases |ks|
  {
    if ks == [] then []
    else (if IsArrayIndex(ks[0]) then [ks[0]] else []) + IndexKeys(ks[1..])
  }

  /** The other keys of `ks`, in the order of `ks`. */
  function OtherKeys(ks: seq<string>): (r: seq<string>)
    ensures forall x :: x in r <==> x in ks && !IsArrayIndex(x)
    ensures Distinct(ks) ==> Distinct(r)
    decreases |ks|
  {
    if ks == [] then []
    else (if IsArrayIndex(ks[0]) then [] else [ks[0]]) + OtherKeys(ks[1..])
  }

  /** The two filters split `ks`: together they are as long as `ks`. */
  lemma {:induction false} SplitKeysLength(ks: seq<string>)
    ensures |IndexKeys(ks)| + |OtherKeys(ks)| == |ks|
    decreases |ks|
  {
    if ks != [] {
      SplitKeysLength(ks[1..]);
    }
  }

  /** With no array-index key, the other keys are all the keys, in order. */
  lemma {:induction false} OtherKeysOfPlain(ks: seq<string>)
    requires forall i :: 0 <= i < |ks| ==> !IsArrayIndex(ks[i])
    ensures OtherKeys(ks) == ks
    decreases |ks|
  {
    if ks != [] {
      var tail := ks[1..];
      assert forall i :: 0 <= i < |tail| ==> tail[i] == ks[i + 1];
      OtherKeysOfPlain(tail);
      assert !IsArrayIndex(ks[0]);
      assert OtherKeys(ks) == [ks[0]] + tail;
      assert [ks[0]] + tail == ks;
    }
  }

  /** `k` placed into an ascending sequence before the first key whose value is not smaller. */
  function InsertByValue(k: string, s: seq<string>): (r: seq<string>)
    ensures |r| == |s| + 1
    ensures forall x :: x in r <==> x in s || x == k
    ensures Distinct(s) && k !in s ==> Distinct(r)
    decreases |s|
  {
    if s == [] || DecimalValue(k) <= DecimalValue(s[0]) then [k] + s
    else
      var rest := InsertByValue(k, s[1..]);
      assert forall x :: x in s[1..] ==> x in s;
      DistinctTail(s);
      [s[0]] + rest
  }

  /** Inserting into an ascending sequence keeps it ascending. */
  lemma {:induction false} InsertKeepsAscending(k: string, s: seq<string>)
    requires Ascending(s)
    ensures Ascending(InsertByValue(k, s))
    decreases |s|
  {
    if s != [] && DecimalValue(k) > DecimalValue(s[0]) {
      var tail := s[1..];
      AscendingTail(s);
      InsertKeepsAscending(k, tail);
      var rest := InsertByValue(k, tail);
      forall j | 0 <= j < |rest| ensures DecimalValue(s[0]) <= DecimalValue(rest[j]) {
        assert rest[j] in rest;
        if rest[j] != k {
          var m :| 0 <= m < |tail| && tail[m] == rest[j];
          assert s[m + 1] == rest[j];
        }
      }
      AscendingCons(s[0], rest);
    }
  }

  lemma AscendingTail(s: seq<string>)
    requires Ascending(s) && s != []
    ensures Ascending(s[1..])
  {
    var tail := s[1..];
    forall i, j | 0 <= i < j < |tail| ensures DecimalValue(tail[i]) <= DecimalValue(tail[j]) {
      assert tail[i] == s[i + 1] && tail[j] == s[j + 1];
    }
  }

  lemma AscendingCons(x: string, rest: seq<string>)
    requires Ascending(rest)
    requires forall j :: 0 <= j < |rest| ==> DecimalValue(x) <= DecimalValue(rest[j])
    ensures Ascending([x] + rest)
  {
    var r := [x] + rest;
    forall i, j | 0 <= i < j < |r| ensures DecimalValue(r[i]) <= DecimalValue(r[j]) {
      assert r[j] == rest[j - 1];
      if i > 0 {
        assert r[i] == rest[i - 1];
      }
    }
  }

  /** The keys sorted by numeric value. */
  function SortByValue(ks: seq<string>): (r: seq<string>)
    ensures |r| == |ks|
    ensures forall x :: x in r <==> x in ks
    ensures Ascending(r)
    ensures Distinct(ks) ==> Distinct(r)
    decreases |ks|
  {
    if ks == [] then []
    else
      var rest := SortByValue(ks[1..]);
      DistinctTail(ks);
      InsertKeepsAscending(ks[0], rest);
      InsertByValue(ks[0], rest)
  }

  /**
   * The order `Object.values` lists the own keys of a plain object added in the
   * order `ks`: the array indices ascending, then the other keys in `ks` order.
   */
  function OwnKeysOrder(ks: seq<string>): (r: seq<string>)
    ensures |r| == |ks|
    ensures forall x :: x in r <==> x in ks
    ensures Distinct(ks) ==> Distinct(r)
    ensures forall i, j :: 0 <= i < j < |r| && IsArrayIndex(r[j]) ==> IsArrayIndex(r[i])
    ensures forall i, j :: 0 <= i < j < |r| && IsArrayIndex(r[j]) ==> DecimalValue(r[i]) <= DecimalValue(r[j])
    ensures |OtherKeys(ks)| <= |r| && r[|r| - |OtherKeys(ks)|..] == OtherKeys(ks)
  {
    SplitKeysLength(ks);
    IndexKeysFirst(SortByValue(IndexKeys(ks)), OtherKeys(ks));
    SortByValue(IndexKeys(ks)) + OtherKeys(ks)
  }

  /** Ascending array indices followed by other keys: the shape `Object.values` lists keys in. */
  lemma IndexKeysFirst(index: seq<string>, other: seq<string>)
    requires forall x :: x in index ==> IsArrayIndex(x)
    requires forall x :: x in other ==> !IsArrayIndex(x)
    requires Ascending(index)
    ensures var r := index + other;
            && (forall i, j :: 0 <= i < j < |r| && IsArrayIndex(r[j]) ==> IsArrayIndex(r[i]))
            && (forall i, j :: 0 <= i < j < |r| && IsArrayIndex(r[j]) ==> DecimalValue(r[i]) <= DecimalValue(r[j]))
            && (Distinct(index) && Distinct(other) ==> Distinct(r))
  {
    var r := index + other;
    assert forall i :: 0 <= i < |index| ==> r[i] == index[i] && IsArrayIndex(r[i]);
    assert forall i :: |index| <= i < |r| ==> r[i] == other[i - |index|] && !IsArrayIndex(r[i]);
    if Distinct(index) && Distinct(other) {
      forall i, j | 0 <= i < j < |r| ensures r[i] != r[j] {
        if j < |index| {
          assert r[i] == index[i] && r[j] == index[j];
        } else if |index| <= i {
          assert r[i] == other[i - |index|] && r[j] == other[j - |index|];
        }
      }
    }
  }

  /** Without array-index keys, `Object.values` keeps the order the keys were added. */
  lemma PlainKeysKeepOrder(ks: seq<string>)
    requires forall i :: 0 <= i < |ks| ==> !IsArrayIndex(ks[i])
    ensures OwnKeysOrder(ks) == ks
  {
    OtherKeysOfPlain(ks);
    SplitKeysLength(ks);
  }

  /** The result of `aggregateOneToMany`: one group per property key, in `Object.values` order. */
  function Aggregate<O, M>(rows: seq<JoinedRow<O, M>>, key: O -> string): (g: seq<Group<O, M>>)
    ensures |g| == |Keys(rows, key)|
    ensures forall j :: 0 <= j < |g| ==> key(g[j].one) == OwnKeysOrder(Keys(rows, key))[j]
  {
    GroupsOf(rows, key, OwnKeysOrder(Keys(rows, key)))
  }

  /**
   * The loop of the source: a plain object from property key to group, built
   * in place (`order` records the order keys are added), then listed by
   * `Object.values`.
   */
  method AggregateOneToMany<O, M>(rows: seq<JoinedRow<O, M>>, key: O -> string) returns (groups: seq<Group<O, M>>)
    ensures groups == Aggregate(rows, key)
  {
    var table: map<string, Group<O, M>> := map[];
    var order: seq<string> := [];
    assert rows[..0] == [];
    for i := 0 to |rows|
      invariant Built(rows, key, i, table, order)
    {
      ghost var table0, order0 := table, order;
      var row := rows[i];
      var id := key(row.one);
      if id !in table {
        table := table[id := Group(row.one, [])];
        order := order + [id];
      }
      TakeKey(rows, key, i, table0, order0, table, order);
      ghost var mid := table;
      if row.many.Some? {
        table := table[id := table[id].(many := table[id].many + [row.many.value])];
      }
      TakeValue(rows, key, i, mid, order, table);
    }
    var listed := OwnKeysOrder(order);
    ListedInTable(rows, key, table, order);
    groups := seq(|listed|, j requires 0 <= j < |listed| => table[listed[j]]);
    BuiltAll(rows, key, table, order, groups);
  }

  /** Every key listed in `Object.values` order has an entry in the finished table. */
  lemma ListedInTable<O, M>(rows: seq<JoinedRow<O, M>>, key: O -> string,
                            table: map<string, Group<O, M>>, order: seq<string>)
    requires Built(rows, key, |rows|, table, order)
    ensures forall j :: 0 <= j < |OwnKeysOrder(order)| ==> OwnKeysOrder(order)[j] in table
  {
    var listed := OwnKeysOrder(order);
    forall j | 0 <= j < |listed| ensures listed[j] in table {
      assert listed[j] in order;
    }
  }

  /** Once every row is taken in, the table's groups in `Object.values` order are the aggregate. */
  lemma BuiltAll<O, M>(rows: seq<JoinedRow<O, M>>, key: O -> string,
                       table: map<string, Group<O, M>>, order: seq<string>, groups: seq<Group<O, M>>)
    requires Built(rows, key, |rows|, table, order)
    requires var listed := OwnKeysOrder(order);
             |groups| == |listed| && forall j :: 0 <= j < |listed| ==> listed[j] in table && groups[j] == table[listed[j]]
    ensures groups == Aggregate(rows, key)
  {
    assert rows[..|rows|] == rows;
    var listed := OwnKeysOrder(order);
    var agg := Aggregate(rows, key);
    assert order == Keys(rows, key);
    assert |agg| == |listed|;
    forall j | 0 <= j < |groups| ensures groups[j] == agg[j] {
      assert listed[j] in order;
    }
  }

  /**
   * Exactly one group per distinct key, whatever order the keys are listed in:
   * no two groups share a key, every row's key has a group, and there are at
   * most as many groups as rows.
   */
  lemma OneGroupPerKeyIn<O, M, K>(rows: seq<JoinedRow<O, M>>, key: O -> K, ks: seq<K>, g: seq<Group<O, M>>)
    requires Distinct(ks) && |ks| == |Keys(rows, key)|
    requires forall j :: 0 <= j < |ks| ==> ks[j] in Keys(rows, key)
    requires forall i :: 0 <= i < |rows| ==> key(rows[i].one) in ks
    requires g == GroupsOf(rows, key, ks)
    ensures |g| <= |rows|
    ensures forall i, j :: 0 <= i < j < |g| ==> key(g[i].one) != key(g[j].one)
    ensures forall i :: 0 <= i < |rows| ==> exists j :: 0 <= j < |g| && key(g[j].one) == key(rows[i].one)
  {
    forall i | 0 <= i < |rows| ensures exists j :: 0 <= j < |g| && key(g[j].one) == key(rows[i].one) {
      var j :| 0 <= j < |ks| && ks[j] == key(rows[i].one);
      assert key(g[j].one) == ks[j];
    }
  }

  /** The keys in `Object.values` order are the distinct keys of the rows, each once. */
  lemma ListedKeys<O, M>(rows: seq<JoinedRow<O, M>>, key: O -> string)
    ensures var ks := Keys(rows, key);
            var listed := OwnKeysOrder(ks);
            && Distinct(listed) && |listed| == |ks|
            && (forall j :: 0 <= j < |listed| ==> listed[j] in ks)
            && (forall i :: 0 <= i < |rows| ==> key(rows[i].one) in listed)
  {
    var ks := Keys(rows, key);
    var listed := OwnKeysOrder(ks);
    assert Distinct(ks);
    forall j | 0 <= j < |listed| ensures listed[j] in ks {
      assert listed[j] in listed;
    }
  }

  /** `aggregateOneToMany` has exactly one group per distinct property key. */
  lemma OneGroupPerKey<O, M>(rows: seq<JoinedRow<O, M>>, key: O -> string)
    ensures var g := Aggregate(rows, key);
            && |g| <= |rows|
            && (forall i, j :: 0 <= i < j < |g| ==> key(g[i].one) != key(g[j].one))
            && (forall i :: 0 <= i < |rows| ==> exists j :: 0 <= j < |g| && key(g[j].one) == key(rows[i].one))
  {
    ListedKeys(rows, key);
    OneGroupPerKeyIn(rows, key, OwnKeysOrder(Keys(rows, key)), Aggregate(rows, key));
  }

  /**
   * Each group holds the first-seen `one` value of its key and exactly the
   * non-null values of that key's rows, in input order; a key whose rows are
   * all null still has a group, with an empty list.
   */
  lemma GroupContents<O, M>(rows: seq<JoinedRow<O, M>>, key: O -> string, j: nat)
    requires j < |Aggregate(rows, key)|
    ensures var g := Aggregate(rows, key)[j];
            && (exists i :: 0 <= i < |rows| && rows[i].one == g.one
                  && forall i' :: 0 <= i' < i ==> key(rows[i'].one) != key(g.one))
            && g.many == Collected(rows, key, key(g.one))
            && ((forall i :: 0 <= i < |rows| && key(rows[i].one) == key(g.one) ==> rows[i].many.None?) ==> g.many == [])
  {
    var g := Aggregate(rows, key)[j];
    var k := key(g.one);
    FirstOneIsFirst(rows, key, k);
    if forall i :: 0 <= i < |rows| && key(rows[i].one) == k ==> rows[i].many.None? {
      CollectedEmpty(rows, key, k);
    }
  }

  /** `FirstOne` is the `one` value of the earliest row with that key. */
  lemma {:induction false} FirstOneIsFirst<O, M, K>(rows: seq<JoinedRow<O, M>>, key: O -> K, k: K)
    requires k in Keys(rows, key)
    ensures exists i :: 0 <= i < |rows| && rows[i].one == FirstOne(rows, key, k)
                        && forall i' :: 0 <= i' < i ==> key(rows[i'].one) != k
    decreases |rows|
  {
    var init := rows[..|rows| - 1];
    if k in Keys(init, key) {
      FirstOneIsFirst(init, key, k);
      var i :| 0 <= i < |init| && init[i].one == FirstOne(init, key, k)
               && forall i' :: 0 <= i' < i ==> key(init[i'].one) != k;
      assert rows[i] == init[i];
      assert forall i' :: 0 <= i' < i ==> rows[i'] == init[i'];
    } else {
      assert forall i' :: 0 <= i' < |init| ==> key(init[i'].one) != k;
      assert forall i' :: 0 <= i' < |init| ==> rows[i'] == init[i'];
    }
  }

  /** When no row's key is an array index, neither is any key. */
  lemma PlainRowKeys<O, M>(rows: seq<JoinedRow<O, M>>, key: O -> string)
    requires forall i :: 0 <= i < |rows| ==> !IsArrayIndex(key(rows[i].one))
    ensures forall i :: 0 <= i < |Keys(rows, key)| ==> !IsArrayIndex(Keys(rows, key)[i])
  {
    var ks := Keys(rows, key);
    forall i | 0 <= i < |ks| ensures !IsArrayIndex(ks[i]) {
      KeysOfRows(rows, key, ks[i]);
      var r :| 0 <= r < |rows| && key(rows[r].one) == ks[i];
    }
  }

  /**
   * Groups keyed by array indices (numeric ids, say) come first, in ascending
   * numeric order; when no key is an array index the groups are in the order
   * their keys were first seen.
   */
  lemma AggregateOrder<O, M>(rows: seq<JoinedRow<O, M>>, key: O -> string)
    ensures var g := Aggregate(rows, key);
            && (forall i, j :: 0 <= i < j < |g| && IsArrayIndex(key(g[j].one)) ==> IsArrayIndex(key(g[i].one)))
            && (forall i, j :: 0 <= i < j < |g| && IsArrayIndex(key(g[j].one))
                  ==> DecimalValue(key(g[i].one)) <= DecimalValue(key(g[j].one)))
    ensures (forall i :: 0 <= i < |rows| ==> !IsArrayIndex(key(rows[i].one))) ==>
              Aggregate(rows, key) == InsertionGroups(rows, key)
  {
    var ks := Keys(rows, key);
    var g := Aggregate(rows, key);
    assert forall j :: 0 <= j < |g| ==> key(g[j].one) == OwnKeysOrder(ks)[j];
    if forall i :: 0 <= i < |rows| ==> !IsArrayIndex(key(rows[i].one)) {
      PlainRowKeys(rows, key);
      PlainKeysKeepOrder(ks);
    }
  }

  /** A key none of whose rows carries a value collects nothing (its group's list is empty). */
  lemma {:induction false} CollectedEmpty<O, M, K>(rows: seq<JoinedRow<O, M>>, key: O -> K, k: K)
    requires forall i :: 0 <= i < |rows| && key(rows[i].one) == k ==> rows[i].many.None?
    ensures Collected(rows, key, k) == []
    decreases |rows|
  {
    if rows != [] {
      var init := rows[..|rows| - 1];
      assert forall i :: 0 <= i < |init| ==> init[i] == rows[i];
      CollectedEmpty(init, key, k);
    }
  }

  /** The number of rows whose `many` value is not null. */
  function NonNullCount<O, M>(rows: seq<JoinedRow<O, M>>): nat
    decreases |rows|
  {
    if rows == [] then 0
    else NonNullCount(rows[..|rows| - 1]) + (if rows[|rows| - 1].many.Some? then 1 else 0)
  }

  /** The number of rows with a non-null `many` value and a key among `ks`. */
  function NonNullIn<O, M, K(==)>(rows: seq<JoinedRow<O, M>>, key: O -> K, ks: seq<K>): nat
    decreases |rows|
  {
    if rows == [] then 0
    else
      var last := rows[|rows| - 1];
      NonNullIn(rows[..|rows| - 1], key, ks) + (if last.many.Some? && key(last.one) in ks then 1 else 0)
  }

  /** One key collects as many values as it has non-null rows. */
  lemma {:induction false} CollectedLength<O, M, K>(rows: seq<JoinedRow<O, M>>, key: O -> K, k: K)
    ensures |Collected(rows, key, k)| == NonNullIn(rows, key, [k])
    decreases |rows|
  {
    if rows != [] {
      CollectedLength(rows[..|rows| - 1], key, k);
    }
  }

  /** Counting over no keys counts nothing. */
  lemma {:induction false} NonNullInNone<O, M, K>(rows: seq<JoinedRow<O, M>>, key: O -> K)
    ensures NonNullIn(rows, key, []) == 0
    decreases |rows|
  {
    if rows != [] {
      NonNullInNone(rows[..|rows| - 1], key);
    }
  }

  /** Counting over a key and disjoint further keys adds up. */
  lemma {:induction false} NonNullInCons<O, M, K>(rows: seq<JoinedRow<O, M>>, key: O -> K, k: K, ks: seq<K>)
    requires k !in ks
    ensures NonNullIn(rows, key, [k] + ks) == NonNullIn(rows, key, [k]) + NonNullIn(rows, key, ks)
    decreases |rows|
  {
    if rows != [] {
      NonNullInCons(rows[..|rows| - 1], key, k, ks);
    }
  }

  /** Counting over keys that include every row's key counts every non-null row. */
  lemma {:induction false} NonNullInAll<O, M, K>(rows: seq<JoinedRow<O, M>>, key: O -> K, ks: seq<K>)
    requires forall i :: 0 <= i < |rows| ==> key(rows[i].one) in ks
    ensures NonNullIn(rows, key, ks) == NonNullCount(rows)
    decreases |rows|
  {
    if rows != [] {
      var init := rows[..|rows| - 1];
      assert forall i :: 0 <= i < |init| ==> init[i] == rows[i];
      NonNullInAll(init, key, ks);
    }
  }

  /** The sum of the group list lengths. */
  function GroupItems<O, M>(groups: seq<Group<O, M>>): nat
    decreases |groups|
  {
    if groups == [] then 0 else |groups[0].many| + GroupItems(groups[1..])
  }

  /** The first group's items plus the rest's. */
  lemma GroupsOfCons<O, M, K>(rows: seq<JoinedRow<O, M>>, key: O -> K, ks: seq<K>)
    requires ks != [] && forall j :: 0 <= j < |ks| ==> ks[j] in Keys(rows, key)
    ensures GroupItems(GroupsOf(rows, key, ks))
            == |Collected(rows, key, ks[0])| + GroupItems(GroupsOf(rows, key, ks[1..]))
  {
    var g := GroupsOf(rows, key, ks);
    assert g[1..] == GroupsOf(rows, key, ks[1..]);
  }

  /** For distinct keys, the groups hold as many items as there are non-null rows with those keys. */
  lemma {:induction false} GroupItemsCount<O, M, K>(rows: seq<JoinedRow<O, M>>, key: O -> K, ks: seq<K>)
    requires Distinct(ks) && forall j :: 0 <= j < |ks| ==> ks[j] in Keys(rows, key)
    ensures GroupItems(GroupsOf(rows, key, ks)) == NonNullIn(rows, key, ks)
    decreases |ks|
  {
    if ks == [] {
      NonNullInNone(rows, key);
    } else {
      var tail := ks[1..];
      DistinctTail(ks);
      GroupItemsCount(rows, key, tail);
      GroupsOfCons(rows, key, ks);
      CollectedLength(rows, key, ks[0]);
      NonNullInCons(rows, key, ks[0], tail);
      assert [ks[0]] + tail == ks;
    }
  }

  /**
   * Every non-null `many` value is collected exactly once: the groups hold as
   * many items as there are rows with a non-null `many`.
   */
  lemma AggregateItemCount<O, M>(rows: seq<JoinedRow<O, M>>, key: O -> string)
    ensures GroupItems(Aggregate(rows, key)) == NonNullCount(rows)
  {
    var ks := OwnKeysOrder(Keys(rows, key));
    GroupItemsCount(rows, key, ks);
    NonNullInAll(rows, key, ks);
  }

  /** A value of the JavaScript rows: the `one` side of a join is usually an object. */
  datatype JsValue = Num(n: int) | Str(s: string) | Null | Obj(fields: map<string, JsValue>)

  function DigitChar(d: int): char
    requires 0 <= d < 10
  {
    "0123456789"[d]
  }

  /** The decimal text of `n`: all digits, and it reads back as `n`. */
  function DecimalNat(n: nat): (r: string)
    ensures |r| >= 1 && forall i :: 0 <= i < |r| ==> IsDigit(r[i])
    ensures DecimalValue(r) == n
    decreases n
  {
    if n < 10 then [DigitChar(n)]
    else
      var r := DecimalNat(n / 10) + [DigitChar(n % 10)];
      assert r[..|r| - 1] == DecimalNat(n / 10);
      r
  }

  /**
   * `String(v)`, the property key a plain object is indexed by. A non-negative
   * number keys by decimal text that reads back as the number, so distinct
   * numeric ids keep distinct keys; a negative one starts with a minus sign;
   * every object gets the one key "[object Object]".
   */
  function PropertyKey(v: JsValue): (r: string)
    ensures v.Num? && v.n >= 0 ==> (forall i :: 0 <= i < |r| ==> IsDigit(r[i])) && DecimalValue(r) == v.n
    ensures v.Num? && v.n < 0 ==> |r| >= 2 && r[0] == '-' && DecimalValue(r[1..]) == -v.n
    ensures v.Obj? ==> r == "[object Object]"
  {
    match v
    case Num(n) => if n < 0 then "-" + DecimalNat(-n) else DecimalNat(n)
    case Str(s) => s
    case Null => "null"
    case Obj(_) => "[object Object]"
  }

  /** Rows sharing one key that is not an array index make a single group. */
  lemma OneKeyOneGroup<O, M>(rows: seq<JoinedRow<O, M>>, key: O -> string, k: string)
    requires rows != [] && forall i :: 0 <= i < |rows| ==> key(rows[i].one) == k
    requires k != [] && !IsDigit(k[0])
    ensures |Aggregate(rows, key)| == 1
  {
    KeysOfOneKey(rows, key, k);
    assert !IsArrayIndex([k][0]);
    PlainKeysKeepOrder([k]);
  }

  /**
   * As written, grouping by property key merges every object-valued `one`:
   * two rows with different objects end up in a single group.
   */
  lemma ObjectKeysCollapse<M>(a: map<string, JsValue>, b: map<string, JsValue>, m1: Option<M>, m2: Option<M>)
    requires a != b
    ensures var rows := [JoinedRow(Obj(a), m1), JoinedRow(Obj(b), m2)];
            && rows[0].one != rows[1].one
            && |Aggregate(rows, PropertyKey)| == 1
  {
    var rows := [JoinedRow(Obj(a), m1), JoinedRow(Obj(b), m2)];
    OneKeyOneGroup(rows, PropertyKey, "[object Object]");
  }

  /**
   * The evidently intended aggregation: one group per distinct `one` value,
   * in the order values are first seen (a `Map` keyed by the value itself).
   */
  function GroupByValue<O(==), M>(rows: seq<JoinedRow<O, M>>): seq<Group<O, M>> {
    InsertionGroups(rows, (o: O) => o)
  }

  /**
   * Grouped by value, no two groups hold the same `one` value and every row's
   * value heads a group, whatever kind of value it is; the groups hold every
   * non-null value exactly once.
   */
  lemma OneGroupPerValue<O, M>(rows: seq<JoinedRow<O, M>>)
    ensures var g := GroupByValue(rows);
            && (forall i, j :: 0 <= i < j < |g| ==> g[i].one != g[j].one)
            && (forall i :: 0 <= i < |rows| ==> exists j :: 0 <= j < |g| && g[j].one == rows[i].one)
            && GroupItems(g) == NonNullCount(rows)
  {
    var id := (o: O) => o;
    var ks := Keys(rows, id);
    var g := GroupByValue(rows);
    OneGroupPerKeyIn(rows, id, ks, g);
    forall i | 0 <= i < |rows| ensures exists j :: 0 <= j < |g| && g[j].one == rows[i].one {
      var j :| 0 <= j < |g| && id(g[j].one) == id(rows[i].one);
    }
    GroupItemsCount(rows, id, ks);
    NonNullInAll(rows, id, ks);
  }
}
