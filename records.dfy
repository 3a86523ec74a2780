/** The `records` table (app.py:51-60) and the statements the handlers run
    on it: the point lookup (`fetchone`), the date-range read into a
    dictionary, `DELETE` and `INSERT`. The table has no uniqueness
    constraint on (user_id, record_date); rows are kept in table order. */
module Records {
  import opened Base
  import opened Aggregation
  import opened DateStrings

  /** `USER_ID`: the single user every statement is scoped to. */
  const UserId := 1

  /** One row: `id`, `user_id`, `record_date`, `total_iron`, `percentage`
      and the decoded `items_json`. */
  datatype Row = Row(id: int, userId: int, date: string, total: int, percentage: int, items: seq<Item>)

  predicate HasKey(r: Row, user: int, date: string) {
    r.userId == user && r.date == date
  }

  /** `WHERE user_id = ? AND record_date = ?`: the matching rows in table order. */
  function KeyRows(rows: seq<Row>, user: int, date: string): (r: seq<Row>)
    ensures |r| <= |rows|
    ensures forall x :: x in r ==> x in rows && HasKey(x, user, date)
    ensures forall i :: 0 <= i < |rows| && HasKey(rows[i], user, date) ==> rows[i] in r
  {
    if rows == [] then []
    else (if HasKey(rows[0], user, date) then [rows[0]] else []) + KeyRows(rows[1..], user, date)
  }

  /** What `DELETE FROM records WHERE user_id = ? AND record_date = ?` leaves. */
  function Without(rows: seq<Row>, user: int, date: string): (r: seq<Row>)
    ensures forall x :: x in r <==> x in rows && !HasKey(x, user, date)
  {
    if rows == [] then []
    else
      assert forall x :: x in rows <==> x == rows[0] || x in rows[1..];
      (if HasKey(rows[0], user, date) then [] else [rows[0]]) + Without(rows[1..], user, date)
  }

  /** The invariant the save keeps: no key has two rows. */
  ghost predicate AtMostOnePerKey(rows: seq<Row>) {
    forall user, date :: |KeyRows(rows, user, date)| <= 1
  }

  /** `SELECT ... WHERE user_id = ? AND record_date = ?` then `fetchone()`:
      the first matching row in table order, or nothing. */
  function FirstMatch(rows: seq<Row>, user: int, date: string): (r: Option<Row>)
    ensures r.None? <==> forall i :: 0 <= i < |rows| ==> !HasKey(rows[i], user, date)
    ensures r.Some? ==> exists i :: 0 <= i < |rows| && rows[i] == r.value && HasKey(rows[i], user, date)
                                    && forall j :: 0 <= j < i ==> !HasKey(rows[j], user, date)
  {
    if rows == [] then None
    else if HasKey(rows[0], user, date) then Some(rows[0])
    else
      var r := FirstMatch(rows[1..], user, date);
      assert forall i :: 0 < i < |rows| ==> rows[i] == rows[1..][i - 1];
      r
  }

  /** `record_date BETWEEN lo AND hi` for `user_id = user`, compared as text. */
  predicate InRange(r: Row, user: int, lo: string, hi: string) {
    r.userId == user && LexLe(lo, r.date) && LexLe(r.date, hi)
  }

  /** `{row["record_date"]: row["percentage"] for row in cur.fetchall()}`
      over the range query: the keys are the dates of the rows in range,
      and each value is the percentage of one of them. */
  function RangeMap(rows: seq<Row>, user: int, lo: string, hi: string): (m: map<string, int>)
    ensures forall d :: d in m <==>
              exists i :: 0 <= i < |rows| && InRange(rows[i], user, lo, hi) && rows[i].date == d
    ensures forall d :: d in m ==>
              exists i :: 0 <= i < |rows| && InRange(rows[i], user, lo, hi) && rows[i].date == d
                          && rows[i].percentage == m[d]
    decreases |rows|
  {
    if rows == [] then map[]
    else
      var front := rows[..|rows| - 1];
      var last := rows[|rows| - 1];
      var m := RangeMap(front, user, lo, hi);
      assert forall i :: 0 <= i < |front| ==> front[i] == rows[i];
      if InRange(last, user, lo, hi) then m[last.date := last.percentage] else m
  }

  /** In the dictionary a later row overwrites an earlier one: the value
      kept for a date is the percentage of its last row in range. */
  lemma {:induction false} RangeMapLastWins(rows: seq<Row>, user: int, lo: string, hi: string, i: int)
    requires 0 <= i < |rows| && InRange(rows[i], user, lo, hi)
    requires forall j :: i < j < |rows| ==> !(InRange(rows[j], user, lo, hi) && rows[j].date == rows[i].date)
    ensures rows[i].date in RangeMap(rows, user, lo, hi)
    ensures RangeMap(rows, user, lo, hi)[rows[i].date] == rows[i].percentage
    decreases |rows|
  {
    if i < |rows| - 1 {
      var front := rows[..|rows| - 1];
      assert front[i] == rows[i];
      RangeMapLastWins(front, user, lo, hi, i);
    }
  }

  lemma {:induction false} KeyRowsAppend(a: seq<Row>, b: seq<Row>, user: int, date: string)
    ensures KeyRows(a + b, user, date) == KeyRows(a, user, date) + KeyRows(b, user, date)
    decreases |a|
  {
    if a == [] {
      assert a + b == b;
    } else {
      assert (a + b)[1..] == a[1..] + b;
      KeyRowsAppend(a[1..], b, user, date);
    }
  }

  /** After the delete, the deleted key has no rows and every other key
      keeps exactly its rows, in order. */
  lemma {:induction false} KeyRowsWithout(rows: seq<Row>, user: int, date: string, u: int, d: string)
    ensures KeyRows(Without(rows, user, date), u, d) ==
              if u == user && d == date then [] else KeyRows(rows, u, d)
    decreases |rows|
  {
    if rows != [] {
      KeyRowsWithout(rows[1..], user, date, u, d);
      var head := if HasKey(rows[0], user, date) then [] else [rows[0]];
      KeyRowsAppend(head, Without(rows[1..], user, date), u, d);
    }
  }

  /** Two matching rows at different positions make the key's rows at least two. */
  lemma {:induction false} TwoMatches(rows: seq<Row>, user: int, date: string, i: int, j: int)
    requires 0 <= i < j < |rows|
    requires HasKey(rows[i], user, date) && HasKey(rows[j], user, date)
    ensures |KeyRows(rows, user, date)| >= 2
    decreases |rows|
  {
    if i == 0 {
      assert rows[j] == rows[1..][j - 1];
      assert |KeyRows(rows[1..], user, date)| >= 1;
    } else {
      assert rows[i] == rows[1..][i - 1] && rows[j] == rows[1..][j - 1];
      TwoMatches(rows[1..], user, date, i - 1, j - 1);
    }
  }

  /** The first match is the head of the key's rows. */
  lemma {:induction false} FirstMatchIsFirstKeyRow(rows: seq<Row>, user: int, date: string)
    ensures FirstMatch(rows, user, date) ==
              if KeyRows(rows, user, date) == [] then None else Some(KeyRows(rows, user, date)[0])
    decreases |rows|
  {
    if rows != [] && !HasKey(rows[0], user, date) {
      FirstMatchIsFirstKeyRow(rows[1..], user, date);
    }
  }

  /** The save of `handle_day`: delete every row with the key, then insert one. */
  function Upserted(rows: seq<Row>, row: Row): (r: seq<Row>)
    ensures |r| > 0 && r[|r| - 1] == row
    ensures forall x :: x in r <==> x == row || (x in rows && !HasKey(x, row.userId, row.date))
  {
    Without(rows, row.userId, row.date) + [row]
  }

  /** After a save the saved key has exactly the inserted row, and every
      other key has the same rows as before, in the same order. */
  lemma UpsertedKeyRows(rows: seq<Row>, row: Row, u: int, d: string)
    ensures KeyRows(Upserted(rows, row), u, d) ==
              if u == row.userId && d == row.date then [row] else KeyRows(rows, u, d)
  {
    KeyRowsAppend(Without(rows, row.userId, row.date), [row], u, d);
    KeyRowsWithout(rows, row.userId, row.date, u, d);
  }

  /** The save keeps "at most one row per key", whatever the table held
      for the saved key before. */
  lemma UpsertKeepsKeysUnique(rows: seq<Row>, row: Row)
    requires AtMostOnePerKey(rows)
    ensures AtMostOnePerKey(Upserted(rows, row))
  {
    forall u, d ensures |KeyRows(Upserted(rows, row), u, d)| <= 1 {
      UpsertedKeyRows(rows, row, u, d);
    }
  }

  /** Reading a key back after a save gives the saved row; reading any
      other key gives what it gave before. */
  lemma FirstMatchAfterUpsert(rows: seq<Row>, row: Row, u: int, d: string)
    ensures FirstMatch(Upserted(rows, row), u, d) ==
              if u == row.userId && d == row.date then Some(row) else FirstMatch(rows, u, d)
  {
    UpsertedKeyRows(rows, row, u, d);
    FirstMatchIsFirstKeyRow(rows, u, d);
    FirstMatchIsFirstKeyRow(Upserted(rows, row), u, d);
  }

  /** Saving the same key twice leaves only the second save's row for it:
      no items are merged across saves. */
  lemma LastSaveWins(rows: seq<Row>, first: Row, second: Row)
    requires first.userId == second.userId && first.date == second.date
    ensures KeyRows(Upserted(Upserted(rows, first), second), second.userId, second.date) == [second]
  {
    UpsertedKeyRows(Upserted(rows, first), second, second.userId, second.date);
  }

  /** With one row per key, the range dictionary and the point lookup agree
      on every date inside the range. */
  lemma RangeAgreesWithFirstMatch(rows: seq<Row>, user: int, lo: string, hi: string, d: string)
    requires AtMostOnePerKey(rows)
    requires LexLe(lo, d) && LexLe(d, hi)
    ensures d in RangeMap(rows, user, lo, hi) <==> FirstMatch(rows, user, d).Some?
    ensures d in RangeMap(rows, user, lo, hi) ==>
              RangeMap(rows, user, lo, hi)[d] == FirstMatch(rows, user, d).value.percentage
  {
    var m := RangeMap(rows, user, lo, hi);
    var f := FirstMatch(rows, user, d);
    if d in m {
      var i :| 0 <= i < |rows| && InRange(rows[i], user, lo, hi) && rows[i].date == d
               && rows[i].percentage == m[d];
      var k :| 0 <= k < |rows| && rows[k] == f.value && HasKey(rows[k], user, d)
               && forall j :: 0 <= j < k ==> !HasKey(rows[j], user, d);
      assert HasKey(rows[i], user, d);
      if k < i {
        TwoMatches(rows, user, d, k, i);
      }
    }
  }

  /** The table as a mutable object: `id` is `INTEGER PRIMARY KEY
      AUTOINCREMENT`, so ids grow in table order and `nextId` is the next
      one SQLite hands out. */
  class RecordTable {
    var rows: seq<Row>
    var nextId: int

    ghost predicate Valid()
      reads this
    {
      nextId >= 1 && IdsWithin(rows, 0, nextId)
    }

    /** `init_db` on a fresh database: an empty table. */
    constructor ()
      ensures Valid() && rows == [] && nextId == 1
    {
      rows, nextId := [], 1;
    }

    /** `DELETE FROM records WHERE user_id = ? AND record_date = ?`. */
    method Delete(user: int, date: string)
      requires Valid()
      modifies this
      ensures Valid()
      ensures rows == Without(old(rows), user, date) && nextId == old(nextId)
    {
      IdsWithinWithout(rows, user, date, 0, nextId);
      rows := Without(rows, user, date);
    }

    /** `INSERT INTO records (...) VALUES (...)`: appends a row with the
        next id. */
    method Insert(user: int, date: string, total: int, percentage: int, items: seq<Item>) returns (id: int)
      requires Valid()
      modifies this
      ensures Valid()
      ensures id == old(nextId) && nextId == old(nextId) + 1
      ensures rows == old(rows) + [Row(id, user, date, total, percentage, items)]
    {
      id := nextId;
      rows := rows + [Row(id, user, date, total, percentage, items)];
      nextId := nextId + 1;
    }
  }

  /** Ids strictly increase in table order and lie strictly between `lo` and `hi`. */
  ghost predicate IdsWithin(rows: seq<Row>, lo: int, hi: int) {
    && (forall i :: 0 <= i < |rows| ==> lo < rows[i].id < hi)
    && (forall i, j :: 0 <= i < j < |rows| ==> rows[i].id < rows[j].id)
  }

  lemma {:induction false} IdsWithinWithout(rows: seq<Row>, user: int, date: string, lo: int, hi: int)
    requires IdsWithin(rows, lo, hi)
    ensures IdsWithin(Without(rows, user, date), lo, hi)
    decreases |rows|
  {
    if rows != [] {
      var rest := Without(rows[1..], user, date);
      IdsWithinWithout(rows[1..], user, date, lo, hi);
      if !HasKey(rows[0], user, date) {
        IdsWithinWithout(rows[1..], user, date, rows[0].id, hi);
        var w := [rows[0]] + rest;
        assert forall i :: 0 < i < |w| ==> w[i] == rest[i - 1];
      }
    }
  }
}
