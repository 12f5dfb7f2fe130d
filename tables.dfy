/**
 * The queries every handler issues against a table held as a sequence of
 * rows in rowid order: a `SELECT ... WHERE` (all matching rows, in scan order),
 * a `SELECT ... WHERE ... LIMIT 1` (drizzle's `.get()`, the first match) and
 * an `UPDATE ... WHERE`.
 */
module Tables {
  import opened Wrappers

  /**
   * The positions of the rows satisfying `p`, in increasing order: every
   * position is a match, no position repeats, and no match is missed.
   */
  function MatchIndices<T>(rows: seq<T>, p: T -> bool): (ix: seq<int>)
    ensures forall k :: 0 <= k < |ix| ==> 0 <= ix[k] < |rows| && p(rows[ix[k]])
    ensures forall k, l :: 0 <= k < l < |ix| ==> ix[k] < ix[l]
    ensures forall i :: 0 <= i < |rows| && p(rows[i]) ==> i in ix
    decreases |rows|
  {
    if rows == [] then []
    else
      var n := |rows| - 1;
      var init := rows[..n];
      assert forall i :: 0 <= i < n ==> init[i] == rows[i];
      MatchIndices(init, p) + (if p(rows[n]) then [n] else [])
  }

  /** `r` holds the rows of `rows` at the positions `MatchIndices` picks, in that order. */
  ghost predicate IsSelection<T>(r: seq<T>, rows: seq<T>, p: T -> bool) {
    var ix := MatchIndices(rows, p);
    |r| == |ix| && forall k :: 0 <= k < |r| ==> r[k] == rows[ix[k]]
  }

  /**
   * A select of all rows satisfying `p`: each matching row exactly once, in
   * table order, and nothing else.
   */
  function Select<T>(rows: seq<T>, p: T -> bool): (r: seq<T>)
    ensures IsSelection(r, rows, p)
    ensures |r| <= |rows|
    ensures forall i :: 0 <= i < |r| ==> r[i] in rows && p(r[i])
    ensures forall i :: 0 <= i < |rows| && p(rows[i]) ==> rows[i] in r
    decreases |rows|
  {
    if rows == [] then []
    else
      var n := |rows| - 1;
      var init := rows[..n];
      var r := Select(init, p) + (if p(rows[n]) then [rows[n]] else []);
      SelectionStep(rows, p, Select(init, p));
      r
  }

  /** Extending a selection of all but the last row by that row, when it matches. */
  lemma SelectionStep<T>(rows: seq<T>, p: T -> bool, s: seq<T>)
    requires rows != [] && IsSelection(s, rows[..|rows| - 1], p)
    ensures var n := |rows| - 1;
            IsSelection(s + (if p(rows[n]) then [rows[n]] else []), rows, p)
  {
    var n := |rows| - 1;
    var init := rows[..n];
    assert MatchIndices(rows, p) == MatchIndices(init, p) + (if p(rows[n]) then [n] else []);
    var ix := MatchIndices(init, p);
    forall k | 0 <= k < |ix| ensures s[k] == rows[ix[k]] {
      assert rows[ix[k]] == init[ix[k]];
    }
  }

  /** A select of one row satisfying `p`: the first matching row, if any. */
  function First<T>(rows: seq<T>, p: T -> bool): (r: Option<T>)
    ensures r.Some? <==> exists i :: 0 <= i < |rows| && p(rows[i])
    ensures r.Some? ==> p(r.value) && r.value in rows
  {
    if rows == [] then None
    else if p(rows[0]) then Some(rows[0])
    else First(rows[1..], p)
  }

  /** The first match is the one at the lowest index: earlier rows do not match. */
  lemma {:induction false} FirstIsEarliest<T>(rows: seq<T>, p: T -> bool)
    requires First(rows, p).Some?
    ensures exists i :: 0 <= i < |rows| && rows[i] == First(rows, p).value
                        && forall j :: 0 <= j < i ==> !p(rows[j])
  {
    if !p(rows[0]) {
      FirstIsEarliest(rows[1..], p);
      var i :| 0 <= i < |rows[1..]| && rows[1..][i] == First(rows[1..], p).value
               && forall j :: 0 <= j < i ==> !p(rows[1..][j]);
      assert rows[i + 1] == First(rows, p).value;
      assert forall j :: 0 <= j < i + 1 ==> !p(rows[j]) by {
        forall j | 0 <= j < i + 1 ensures !p(rows[j]) {
          if j > 0 { assert rows[j] == rows[1..][j - 1]; }
        }
      }
    } else {
      assert rows[0] == First(rows, p).value;
    }
  }

  /**
   * An update where `p` holds: every matching row is rewritten by `f`,
   * every other row is kept where it was.
   */
  function Update<T>(rows: seq<T>, p: T -> bool, f: T -> T): (r: seq<T>)
    ensures |r| == |rows|
  {
    seq(|rows|, i requires 0 <= i < |rows| => if p(rows[i]) then f(rows[i]) else rows[i])
  }
}
