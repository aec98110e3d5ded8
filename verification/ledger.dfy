/** The `sales` table of `bot.py` and its mutations: insert-or-ignore keyed
    on the message, update and delete by message, delete by row id.

    The table is a sequence of rows in insertion order together with the next
    AUTOINCREMENT id. Timestamps are integer instants. */
module Ledger {
  import opened Wrappers

  /** One row of the `sales` table. */
  datatype Record = Record(
    id: nat,
    guild: nat,
    channel: nat,
    message: nat,
    user: nat,
    amountCents: nat,
    ts: int)

  /** The table: its rows in insertion order and the id the next inserted row
      receives. */
  datatype Store = Store(rows: seq<Record>, nextId: nat)

  /** The freshly created table; SQLite's AUTOINCREMENT starts at 1. */
  function EmptyStore(): (st: Store)
    ensures Valid(st) && |st.rows| == 0
  {
    Store([], 1)
  }

  /** The unique index on `message_id`. */
  ghost predicate UniqueMessages(rows: seq<Record>) {
    forall a, b :: 0 <= a < b < |rows| ==> rows[a].message != rows[b].message
  }

  /** AUTOINCREMENT ids grow in insertion order. */
  ghost predicate IdsIncreasing(rows: seq<Record>) {
    forall a, b :: 0 <= a < b < |rows| ==> rows[a].id < rows[b].id
  }

  ghost predicate AllPositive(rows: seq<Record>) {
    forall k :: 0 <= k < |rows| ==> rows[k].amountCents > 0
  }

  /** The invariant of the table: one row per message, ids unique and below
      the next id, and every stored amount positive. */
  ghost predicate Valid(st: Store) {
    && UniqueMessages(st.rows)
    && IdsIncreasing(st.rows)
    && (forall k :: 0 <= k < |st.rows| ==> st.rows[k].id < st.nextId)
    && AllPositive(st.rows)
  }

  /** The row for a message, if any. */
  function Find(rows: seq<Record>, msg: nat): (r: Option<Record>)
    ensures r.Some? ==> r.value in rows && r.value.message == msg
    ensures r.None? <==> forall k :: 0 <= k < |rows| ==> rows[k].message != msg
  {
    if |rows| == 0 then None
    else if rows[0].message == msg then Some(rows[0])
    else Find(rows[1..], msg)
  }

  /** The rows satisfying `keep`, in their order. */
  function Keep(rows: seq<Record>, keep: Record -> bool): (r: seq<Record>)
    ensures forall x :: x in r <==> x in rows && keep(x)
    ensures |r| <= |rows|
    ensures UniqueMessages(rows) ==> UniqueMessages(r)
    ensures IdsIncreasing(rows) ==> IdsIncreasing(r)
  {
    if |rows| == 0 then []
    else
      var rest := Keep(rows[1..], keep);
      TailFacts(rows);
      if keep(rows[0]) then
        ConsFacts(rows[0], rest);
        [rows[0]] + rest
      else rest
  }

  /** What a table's rows after the first inherit from it. */
  lemma TailFacts(rows: seq<Record>)
    requires |rows| > 0
    ensures forall x :: x in rows <==> x == rows[0] || x in rows[1..]
    ensures UniqueMessages(rows) ==> UniqueMessages(rows[1..])
    ensures UniqueMessages(rows) ==> forall x :: x in rows[1..] ==> x.message != rows[0].message
    ensures IdsIncreasing(rows) ==> IdsIncreasing(rows[1..])
    ensures IdsIncreasing(rows) ==> forall x :: x in rows[1..] ==> rows[0].id < x.id
  {
    assert rows == [rows[0]] + rows[1..];
    forall x | x in rows[1..] ensures exists k :: 1 <= k < |rows| && rows[k] == x {
      var i :| 0 <= i < |rows[1..]| && rows[1..][i] == x;
      assert rows[i + 1] == x;
    }
  }

  /** Putting a row in front of rows it precedes keeps both orders. */
  lemma ConsFacts(x: Record, rest: seq<Record>)
    ensures UniqueMessages(rest) && (forall y :: y in rest ==> y.message != x.message)
      ==> UniqueMessages([x] + rest)
    ensures IdsIncreasing(rest) && (forall y :: y in rest ==> x.id < y.id)
      ==> IdsIncreasing([x] + rest)
  {
    var r := [x] + rest;
    forall a, b | 0 < a < b < |r| ensures r[a] == rest[a - 1] && r[b] == rest[b - 1] {
    }
    forall b | 0 < b < |r| ensures r[b] in rest {
      assert r[b] == rest[b - 1];
    }
  }


  /** `insert_sale_row`: INSERT OR IGNORE on the unique message index. A new
      row gets the next id and the instant `now`; an existing row for the
      message is left as it is. */
  function InsertSale(st: Store, guild: nat, channel: nat, msg: nat, user: nat, amountCents: nat, now: int): (r: Store)
    ensures Find(r.rows, msg) ==
      if Find(st.rows, msg).Some? then Find(st.rows, msg)
      else Some(Record(st.nextId, guild, channel, msg, user, amountCents, now))
    ensures forall m :: m != msg ==> Find(r.rows, m) == Find(st.rows, m)
    ensures st.rows <= r.rows
    ensures |r.rows| == |st.rows| + (if Find(st.rows, msg).Some? then 0 else 1)
  {
    if Find(st.rows, msg).Some? then st
    else
      var x := Record(st.nextId, guild, channel, msg, user, amountCents, now);
      forall m ensures Find(st.rows + [x], m) == if Find(st.rows, m).Some? || x.message != m then Find(st.rows, m) else Some(x) {
        FindAppend(st.rows, x, m);
      }
      Store(st.rows + [x], st.nextId + 1)
  }

  lemma {:induction false} FindAppend(rows: seq<Record>, x: Record, m: nat)
    ensures Find(rows + [x], m) ==
      if Find(rows, m).Some? || x.message != m then Find(rows, m) else Some(x)
  {
    if |rows| > 0 {
      assert (rows + [x])[1..] == rows[1..] + [x];
      FindAppend(rows[1..], x, m);
    } else {
      assert (rows + [x])[1..] == [];
    }
  }

  /** The row with only its amount replaced. */
  function WithAmount(x: Record, amountCents: nat): Record {
    x.(amountCents := amountCents)
  }

  /** `update_sale_amount`: UPDATE the amount of the row for `msg`. Every row
      keeps its position, id, owner, message and timestamp. */
  function UpdateAmount(st: Store, msg: nat, amountCents: nat): (r: Store)
    ensures |r.rows| == |st.rows| && r.nextId == st.nextId
    ensures forall k :: 0 <= k < |r.rows| ==>
      && r.rows[k].id == st.rows[k].id
      && r.rows[k].message == st.rows[k].message
      && r.rows[k].user == st.rows[k].user
      && r.rows[k].ts == st.rows[k].ts
      && r.rows[k].amountCents == (if st.rows[k].message == msg then amountCents else st.rows[k].amountCents)
    ensures forall k :: 0 <= k < |r.rows| ==>
      r.rows[k] == st.rows[k].(amountCents := r.rows[k].amountCents)
  {
    Store(seq(|st.rows|, k requires 0 <= k < |st.rows| =>
      if st.rows[k].message == msg then WithAmount(st.rows[k], amountCents) else st.rows[k]), st.nextId)
  }

  /** `delete_sale_by_msg`: DELETE the rows for `msg`. */
  function DeleteByMessage(st: Store, msg: nat): (r: Store)
    ensures forall x :: x in r.rows <==> x in st.rows && x.message != msg
    ensures r.nextId == st.nextId
  {
    Store(Keep(st.rows, (x: Record) => x.message != msg), st.nextId)
  }

  /** `delete_row_by_id`: DELETE the row with id `id`. */
  function DeleteById(st: Store, id: nat): (r: Store)
    ensures forall x :: x in r.rows <==> x in st.rows && x.id != id
    ensures r.nextId == st.nextId
  {
    Store(Keep(st.rows, (x: Record) => x.id != id), st.nextId)
  }

  // ---------------------------------------------------------------------
  // The table as a map from messages to rows

  /** With unique messages, `Find` returns the row of the message. */
  lemma FindUnique(rows: seq<Record>, msg: nat, k: nat)
    requires UniqueMessages(rows)
    requires k < |rows| && rows[k].message == msg
    ensures Find(rows, msg) == Some(rows[k])
  {
    var r := Find(rows, msg).value;
    var j :| 0 <= j < |rows| && rows[j] == r;
  }

  /** Update replaces the amount of the message's row and touches no other
      message. */
  lemma UpdateAmountFind(st: Store, msg: nat, amountCents: nat)
    requires UniqueMessages(st.rows)
    ensures Find(UpdateAmount(st, msg, amountCents).rows, msg) ==
      match Find(st.rows, msg)
      case None => None
      case Some(x) => Some(WithAmount(x, amountCents))
    ensures forall m :: m != msg ==>
      Find(UpdateAmount(st, msg, amountCents).rows, m) == Find(st.rows, m)
  {
    var r := UpdateAmount(st, msg, amountCents);
    assert UniqueMessages(r.rows);
    forall m ensures Find(r.rows, m) ==
      match Find(st.rows, m)
      case None => None
      case Some(x) => Some(if m == msg then WithAmount(x, amountCents) else x)
    {
      match Find(st.rows, m)
      case None =>
      case Some(x) =>
        var k :| 0 <= k < |st.rows| && st.rows[k] == x;
        FindUnique(r.rows, m, k);
    }
  }

  /** Deleting a message removes its row and touches no other message. */
  lemma DeleteByMessageFind(st: Store, msg: nat)
    requires UniqueMessages(st.rows)
    ensures Find(DeleteByMessage(st, msg).rows, msg).None?
    ensures forall m :: m != msg ==> Find(DeleteByMessage(st, msg).rows, m) == Find(st.rows, m)
  {
    var r := DeleteByMessage(st, msg);
    forall m | m != msg ensures Find(r.rows, m) == Find(st.rows, m) {
      match Find(st.rows, m)
      case None =>
      case Some(x) =>
        var k :| 0 <= k < |r.rows| && r.rows[k] == x;
        FindUnique(r.rows, m, k);
    }
  }

  // ---------------------------------------------------------------------
  // The invariant

  /** Inserting a positive amount keeps the table valid. */
  lemma InsertSaleValid(st: Store, guild: nat, channel: nat, msg: nat, user: nat, amountCents: nat, now: int)
    requires Valid(st) && amountCents > 0
    ensures Valid(InsertSale(st, guild, channel, msg, user, amountCents, now))
  {
    var r := InsertSale(st, guild, channel, msg, user, amountCents, now);
    if Find(st.rows, msg).None? {
      assert r.rows == st.rows + [r.rows[|st.rows|]];
    }
  }

  /** Updating to a positive amount keeps the table valid. */
  lemma UpdateAmountValid(st: Store, msg: nat, amountCents: nat)
    requires Valid(st) && amountCents > 0
    ensures Valid(UpdateAmount(st, msg, amountCents))
  {
  }

  lemma DeleteByMessageValid(st: Store, msg: nat)
    requires Valid(st)
    ensures Valid(DeleteByMessage(st, msg))
  {
    var r := DeleteByMessage(st, msg);
    forall k | 0 <= k < |r.rows| ensures r.rows[k].id < r.nextId && r.rows[k].amountCents > 0 {
      assert r.rows[k] in st.rows;
    }
  }

  lemma DeleteByIdValid(st: Store, id: nat)
    requires Valid(st)
    ensures Valid(DeleteById(st, id))
  {
    var r := DeleteById(st, id);
    forall k | 0 <= k < |r.rows| ensures r.rows[k].id < r.nextId && r.rows[k].amountCents > 0 {
      assert r.rows[k] in st.rows;
    }
  }

  /** A second insert for a message already in the table changes nothing: the
      first amount, owner, timestamp and id stay. */
  lemma InsertIgnoresDuplicate(st: Store, guild: nat, channel: nat, msg: nat, user: nat, amountCents: nat, now: int)
    requires Find(st.rows, msg).Some?
    ensures InsertSale(st, guild, channel, msg, user, amountCents, now) == st
  {
  }
}
