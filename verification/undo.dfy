/** The `/undo` command of `bot.py`: `latest_entry_today` picks the caller's
    latest row in the window, ordered by `(ts, id)` descending, and
    `delete_row_by_id` removes it. */
module Undo {
  import opened Wrappers
  import opened Ledger
  import opened Aggregation

  /** `(a.ts, a.id) <= (b.ts, b.id)` in lexicographic order: `a` comes no later
      than `b` under `ORDER BY ts DESC, id DESC`. */
  predicate NotAfter(a: Record, b: Record) {
    a.ts < b.ts || (a.ts == b.ts && a.id <= b.id)
  }

  /** The row belongs to the user and lies in the window. */
  predicate Eligible(x: Record, user: nat, w: Window) {
    x.user == user && InWindow(x, w)
  }

  /** `latest_entry_today`: among the user's rows in the window, the one with
      the greatest `(ts, id)`, or none when there is no such row. */
  function LatestEntry(rows: seq<Record>, user: nat, w: Window): (r: Option<Record>)
    ensures r.Some? ==> r.value in rows && Eligible(r.value, user, w)
    ensures r.Some? ==> forall k :: 0 <= k < |rows| && Eligible(rows[k], user, w) ==> NotAfter(rows[k], r.value)
    ensures r.None? <==> forall k :: 0 <= k < |rows| ==> !Eligible(rows[k], user, w)
    decreases |rows|
  {
    if |rows| == 0 then None
    else
      var p := rows[..|rows| - 1];
      var x := rows[|rows| - 1];
      var best := LatestEntry(p, user, w);
      assert forall k :: 0 <= k < |p| ==> rows[k] == p[k];
      if Eligible(x, user, w) && (best.None? || NotAfter(best.value, x)) then Some(x) else best
  }

  /** What `/undo` did: the table afterwards and the removed row, if any. */
  datatype UndoOutcome = UndoOutcome(store: Store, removed: Option<Record>)

  /** `/undo` for `user` over the window of the current day: no row means no
      change; otherwise the latest row is deleted by its id. */
  function UndoLatest(st: Store, user: nat, today: Window): (r: UndoOutcome)
    ensures r.removed.None? ==> r.store == st
  {
    match LatestEntry(st.rows, user, today)
    case None => UndoOutcome(st, None)
    case Some(x) => UndoOutcome(DeleteById(st, x.id), Some(x))
  }

  /** Row ids are unique in a valid table. */
  lemma IdsUnique(st: Store, x: Record, y: Record)
    requires Valid(st) && x in st.rows && y in st.rows && x.id == y.id
    ensures x == y
  {
    var a :| 0 <= a < |st.rows| && st.rows[a] == x;
    var b :| 0 <= b < |st.rows| && st.rows[b] == y;
    assert !(a < b) && !(b < a);
  }

  /** `/undo` removes exactly the caller's latest row of the day and nothing
      else: other users' rows and rows outside the day always survive, and
      when the caller has no row that day the table is unchanged. */
  lemma UndoScope(st: Store, user: nat, today: Window)
    requires Valid(st)
    ensures var r := UndoLatest(st, user, today);
      && Valid(r.store)
      && (r.removed.None? <==> forall k :: 0 <= k < |st.rows| ==> !Eligible(st.rows[k], user, today))
      && (r.removed.Some? ==>
            && r.removed.value in st.rows
            && Eligible(r.removed.value, user, today)
            && (forall x :: x in st.rows && Eligible(x, user, today) ==> NotAfter(x, r.removed.value))
            && (forall x :: x in r.store.rows <==> x in st.rows && x != r.removed.value))
      && (forall x :: x in st.rows && !Eligible(x, user, today) ==> x in r.store.rows)
  {
    var r := UndoLatest(st, user, today);
    match LatestEntry(st.rows, user, today)
    case None =>
    case Some(y) =>
      DeleteByIdValid(st, y.id);
      forall x | x in st.rows && x.id == y.id ensures x == y {
        IdsUnique(st, x, y);
      }
      forall x | x in st.rows && Eligible(x, user, today) ensures NotAfter(x, y) {
        var k :| 0 <= k < |st.rows| && st.rows[k] == x;
      }
  }
}
