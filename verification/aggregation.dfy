/** The aggregation queries of `bot.py` over a half-open window of instants:
    `sales_by_user_between` (per-user sums, largest first), `total_between`
    (the grand total) and the 1-based ranking of `lb_lines`. */
module Aggregation {
  import opened Ledger

  /** A half-open window `[start, end)` of instants. */
  datatype Window = Window(start: int, end: int)

  predicate InWindow(x: Record, w: Window) {
    w.start <= x.ts < w.end
  }

  /** `total_between`: the sum of the amounts of the rows in the window. */
  function TotalBetween(rows: seq<Record>, w: Window): nat
    decreases |rows|
  {
    if |rows| == 0 then 0
    else
      var x := rows[|rows| - 1];
      TotalBetween(rows[..|rows| - 1], w) + (if InWindow(x, w) then x.amountCents else 0)
  }

  /** The sum of one user's amounts in the window. */
  function UserTotal(rows: seq<Record>, user: nat, w: Window): nat
    decreases |rows|
  {
    if |rows| == 0 then 0
    else
      var x := rows[|rows| - 1];
      UserTotal(rows[..|rows| - 1], user, w) + (if x.user == user && InWindow(x, w) then x.amountCents else 0)
  }

  /** The user appears in the per-user sums. */
  ghost predicate Listed(es: seq<UserSum>, user: nat) {
    exists k :: 0 <= k < |es| && es[k].user == user
  }

  /** The user has a line on the leaderboard. */
  ghost predicate OnBoard(lb: seq<Standing>, user: nat) {
    exists k :: 0 <= k < |lb| && lb[k].user == user
  }

  /** The user has at least one row in the window. */
  ghost predicate Active(rows: seq<Record>, user: nat, w: Window) {
    exists k :: 0 <= k < |rows| && rows[k].user == user && InWindow(rows[k], w)
  }

  ghost predicate Distinct(us: seq<nat>) {
    forall a, b :: 0 <= a < b < |us| ==> us[a] != us[b]
  }

  /** The users with rows in the window, each once, in order of their first
      row: the groups of `GROUP BY user_id`. */
  function WindowUsers(rows: seq<Record>, w: Window): (us: seq<nat>)
    ensures Distinct(us)
    ensures forall u :: u in us <==> Active(rows, u, w)
    decreases |rows|
  {
    if |rows| == 0 then []
    else
      var p := rows[..|rows| - 1];
      var x := rows[|rows| - 1];
      var us := WindowUsers(p, w);
      assert forall u :: Active(rows, u, w) <==> Active(p, u, w) || (x.user == u && InWindow(x, w)) by {
        forall u ensures Active(rows, u, w) <==> Active(p, u, w) || (x.user == u && InWindow(x, w)) {
          if Active(p, u, w) {
            var k :| 0 <= k < |p| && p[k].user == u && InWindow(p[k], w);
            assert rows[k] == p[k];
          }
          if Active(rows, u, w) && !(x.user == u && InWindow(x, w)) {
            var k :| 0 <= k < |rows| && rows[k].user == u && InWindow(rows[k], w);
            assert k < |p| && p[k] == rows[k];
          }
        }
      }
      if InWindow(x, w) && x.user !in us then us + [x.user] else us
  }

  /** One result row of `sales_by_user_between`. */
  datatype UserSum = UserSum(user: nat, total: nat)

  function Sums(us: seq<nat>, rows: seq<Record>, w: Window): (es: seq<UserSum>)
    ensures |es| == |us|
    ensures forall k :: 0 <= k < |es| ==> es[k] == UserSum(us[k], UserTotal(rows, us[k], w))
  {
    if |us| == 0 then [] else [UserSum(us[0], UserTotal(rows, us[0], w))] + Sums(us[1..], rows, w)
  }

  function SumTotals(es: seq<UserSum>): nat {
    if |es| == 0 then 0 else es[0].total + SumTotals(es[1..])
  }

  ghost predicate SortedDesc(es: seq<UserSum>) {
    forall a, b :: 0 <= a < b < |es| ==> es[a].total >= es[b].total
  }

  ghost predicate DistinctUsers(es: seq<UserSum>) {
    forall a, b :: 0 <= a < b < |es| ==> es[a].user != es[b].user
  }

  /** Inserts `x` into a list sorted by descending total, ahead of the entries
      with an equal total. */
  function InsertDesc(x: UserSum, es: seq<UserSum>): (r: seq<UserSum>)
    ensures multiset(r) == multiset(es) + multiset{x}
  {
    if |es| == 0 || x.total >= es[0].total then
      [x] + es
    else
      assert es == [es[0]] + es[1..];
      [es[0]] + InsertDesc(x, es[1..])
  }

  lemma {:induction false} InsertDescMembers(x: UserSum, es: seq<UserSum>)
    ensures forall e :: e in InsertDesc(x, es) <==> e == x || e in es
    decreases |es|
  {
    if |es| > 0 && x.total < es[0].total {
      InsertDescMembers(x, es[1..]);
      assert es == [es[0]] + es[1..];
    }
  }

  /** Insertion keeps a list sorted by descending total. */
  lemma {:induction false} InsertDescSorted(x: UserSum, es: seq<UserSum>)
    requires SortedDesc(es)
    ensures SortedDesc(InsertDesc(x, es))
    decreases |es|
  {
    var r := InsertDesc(x, es);
    if |es| == 0 || x.total >= es[0].total {
      assert r == [x] + es;
      forall a, b | 0 <= a < b < |r| ensures r[a].total >= r[b].total {
        if a > 0 {
          assert r[a] == es[a - 1];
        }
        assert r[b] == es[b - 1];
      }
    } else {
      var rest := InsertDesc(x, es[1..]);
      assert r == [es[0]] + rest;
      InsertDescSorted(x, es[1..]);
      InsertDescMembers(x, es[1..]);
      forall a, b | 0 <= a < b < |r| ensures r[a].total >= r[b].total {
        assert r[b] == rest[b - 1];
        if a > 0 {
          assert r[a] == rest[a - 1];
        } else {
          assert rest[b - 1] in rest;
          if rest[b - 1] != x {
            var j :| 0 <= j < |es[1..]| && es[1..][j] == rest[b - 1];
            assert es[j + 1] == rest[b - 1];
          }
        }
      }
    }
  }

  lemma {:induction false} InsertDescSum(x: UserSum, es: seq<UserSum>)
    ensures SumTotals(InsertDesc(x, es)) == x.total + SumTotals(es)
    decreases |es|
  {
    var r := InsertDesc(x, es);
    if |es| == 0 || x.total >= es[0].total {
      assert r[1..] == es;
    } else {
      InsertDescSum(x, es[1..]);
      assert r[1..] == InsertDesc(x, es[1..]);
    }
  }

  lemma {:induction false} InsertDescDistinct(x: UserSum, es: seq<UserSum>)
    requires DistinctUsers(es)
    requires forall e :: e in es ==> e.user != x.user
    ensures DistinctUsers(InsertDesc(x, es))
    decreases |es|
  {
    var r := InsertDesc(x, es);
    if |es| == 0 || x.total >= es[0].total {
      assert r == [x] + es;
      forall a, b | 0 <= a < b < |r| ensures r[a].user != r[b].user {
        assert r[b] == es[b - 1];
        if a > 0 {
          assert r[a] == es[a - 1];
        }
      }
    } else {
      var rest := InsertDesc(x, es[1..]);
      assert r == [es[0]] + rest;
      assert forall e :: e in es[1..] ==> e in es;
      InsertDescDistinct(x, es[1..]);
      InsertDescMembers(x, es[1..]);
      forall a, b | 0 <= a < b < |r| ensures r[a].user != r[b].user {
        assert r[b] == rest[b - 1];
        if a > 0 {
          assert r[a] == rest[a - 1];
        } else {
          assert rest[b - 1] in rest;
          if rest[b - 1] != x {
            var j :| 0 <= j < |es[1..]| && es[1..][j] == rest[b - 1];
            assert es[j + 1] == rest[b - 1];
          }
        }
      }
    }
  }

  /** Insertion sort by descending total; equal totals keep their order. */
  function SortDesc(es: seq<UserSum>): (r: seq<UserSum>)
    ensures SortedDesc(r)
    ensures multiset(r) == multiset(es)
  {
    if |es| == 0 then []
    else
      assert es == [es[0]] + es[1..];
      var rest := SortDesc(es[1..]);
      InsertDescSorted(es[0], rest);
      InsertDesc(es[0], rest)
  }

  /** Sorting keeps the sum and the distinctness of the users. */
  lemma SortDescKeeps(es: seq<UserSum>)
    ensures SumTotals(SortDesc(es)) == SumTotals(es)
    ensures DistinctUsers(es) ==> DistinctUsers(SortDesc(es))
  {
    SortDescSum(es);
    if DistinctUsers(es) {
      SortDescDistinct(es);
    }
  }

  lemma {:induction false} SortDescSum(es: seq<UserSum>)
    ensures SumTotals(SortDesc(es)) == SumTotals(es)
    decreases |es|
  {
    if |es| > 0 {
      SortDescSum(es[1..]);
      InsertDescSum(es[0], SortDesc(es[1..]));
    }
  }

  lemma {:induction false} SortDescDistinct(es: seq<UserSum>)
    requires DistinctUsers(es)
    ensures DistinctUsers(SortDesc(es))
    decreases |es|
  {
    if |es| > 0 {
      var rest := SortDesc(es[1..]);
      assert DistinctUsers(es[1..]);
      SortDescDistinct(es[1..]);
      forall e | e in rest ensures e.user != es[0].user {
        assert e in multiset(es[1..]);
        var j :| 0 <= j < |es[1..]| && es[1..][j] == e;
        assert es[j + 1] == e;
      }
      InsertDescDistinct(es[0], rest);
    }
  }

  /** `sales_by_user_between`: `SELECT user_id, SUM(amount) ... WHERE ts >= start
      AND ts < end GROUP BY user_id ORDER BY SUM(amount) DESC`. */
  function SalesByUser(rows: seq<Record>, w: Window): seq<UserSum> {
    SortDesc(Sums(WindowUsers(rows, w), rows, w))
  }

  /** One line of the leaderboard: a 1-based rank, the user and the total. */
  datatype Standing = Standing(rank: nat, user: nat, total: nat)

  /** The ranking of `lb_lines`: `enumerate(rows, 1)`. */
  function Ranked(es: seq<UserSum>): (r: seq<Standing>)
    ensures |r| == |es|
    ensures forall k :: 0 <= k < |r| ==> r[k] == Standing(k + 1, es[k].user, es[k].total)
  {
    seq(|es|, k requires 0 <= k < |es| => Standing(k + 1, es[k].user, es[k].total))
  }

  function Leaderboard(st: Store, w: Window): seq<Standing> {
    Ranked(SalesByUser(st.rows, w))
  }

  // ---------------------------------------------------------------------
  // Properties

  lemma {:induction false} UserTotalPositive(rows: seq<Record>, user: nat, w: Window)
    requires AllPositive(rows)
    requires Active(rows, user, w)
    ensures UserTotal(rows, user, w) > 0
    decreases |rows|
  {
    var p := rows[..|rows| - 1];
    var x := rows[|rows| - 1];
    if !(x.user == user && InWindow(x, w)) {
      var k :| 0 <= k < |rows| && rows[k].user == user && InWindow(rows[k], w);
      assert k < |p| && p[k] == rows[k];
      UserTotalPositive(p, user, w);
    }
  }

  /** `sales_by_user_between` lists every user with a row in the window exactly
      once, with that user's sum, largest sum first, and is a reordering of the
      per-user groups. */
  lemma SalesByUserSpec(rows: seq<Record>, w: Window)
    ensures var es := SalesByUser(rows, w);
      && SortedDesc(es)
      && DistinctUsers(es)
      && multiset(es) == multiset(Sums(WindowUsers(rows, w), rows, w))
      && (forall k :: 0 <= k < |es| ==> es[k].total == UserTotal(rows, es[k].user, w))
      && (forall u :: Listed(es, u) <==> Active(rows, u, w))
      && (AllPositive(rows) ==> forall k :: 0 <= k < |es| ==> es[k].total > 0)
  {
    var us := WindowUsers(rows, w);
    var ss := Sums(us, rows, w);
    var es := SalesByUser(rows, w);
    assert DistinctUsers(ss);
    SortDescKeeps(ss);
    ReorderedSums(es, us, rows, w);
  }

  /** A reordering of the per-user sums of `us` holds each user's sum and
      lists exactly the users of `us`. */
  lemma ReorderedSums(es: seq<UserSum>, us: seq<nat>, rows: seq<Record>, w: Window)
    requires multiset(es) == multiset(Sums(us, rows, w))
    ensures forall k :: 0 <= k < |es| ==> es[k].total == UserTotal(rows, es[k].user, w)
    ensures forall u :: Listed(es, u) <==> u in us
    ensures AllPositive(rows) && (forall u :: u in us ==> Active(rows, u, w)) ==>
      forall k :: 0 <= k < |es| ==> es[k].total > 0
  {
    var ss := Sums(us, rows, w);
    SameMembers(es, ss);
    forall k | 0 <= k < |es| ensures es[k].total == UserTotal(rows, es[k].user, w) && es[k].user in us {
      assert es[k] in ss;
    }
    forall u ensures Listed(es, u) <==> u in us {
      if u in us {
        var j :| 0 <= j < |us| && us[j] == u;
        assert ss[j] in es;
      }
    }
    if AllPositive(rows) && (forall u :: u in us ==> Active(rows, u, w)) {
      forall k | 0 <= k < |es| ensures es[k].total > 0 {
        UserTotalPositive(rows, es[k].user, w);
      }
    }
  }

  /** Two lists with the same multiset have the same members. */
  lemma SameMembers(a: seq<UserSum>, b: seq<UserSum>)
    requires multiset(a) == multiset(b)
    ensures forall e :: e in a <==> e in b
  {
    assert forall e :: e in a <==> e in multiset(a);
    assert forall e :: e in b <==> e in multiset(b);
  }

  lemma {:induction false} SumsSnoc(us: seq<nat>, rows: seq<Record>, x: Record, w: Window)
    requires Distinct(us)
    ensures SumTotals(Sums(us, rows + [x], w)) ==
      SumTotals(Sums(us, rows, w)) + (if InWindow(x, w) && x.user in us then x.amountCents else 0)
    decreases |us|
  {
    assert (rows + [x])[..|rows|] == rows;
    if |us| > 0 {
      SumsSnoc(us[1..], rows, x, w);
      assert x.user in us <==> x.user == us[0] || x.user in us[1..];
    }
  }

  /** Summing the per-user sums of a list of distinct users that covers every
      user in the window gives the grand total. */
  lemma {:induction false} SumsCoverTotal(us: seq<nat>, rows: seq<Record>, w: Window)
    requires Distinct(us)
    requires forall u :: Active(rows, u, w) ==> u in us
    ensures SumTotals(Sums(us, rows, w)) == TotalBetween(rows, w)
    decreases |rows|
  {
    if |rows| == 0 {
      SumsZero(us, rows, w);
    } else {
      var p := rows[..|rows| - 1];
      var x := rows[|rows| - 1];
      assert rows == p + [x];
      forall u | Active(p, u, w) ensures u in us {
        ActiveSnoc(p, x, u, w);
      }
      SumsCoverTotal(us, p, w);
      SumsSnoc(us, p, x, w);
      if InWindow(x, w) {
        ActiveSnoc(p, x, x.user, w);
      }
    }
  }

  /** A user is active in `p + [x]` when active in `p` or the owner of `x`
      in the window. */
  lemma ActiveSnoc(p: seq<Record>, x: Record, u: nat, w: Window)
    ensures Active(p + [x], u, w) <==> Active(p, u, w) || (x.user == u && InWindow(x, w))
  {
    var rows := p + [x];
    if Active(p, u, w) {
      var k :| 0 <= k < |p| && p[k].user == u && InWindow(p[k], w);
      assert rows[k] == p[k];
    }
    if x.user == u && InWindow(x, w) {
      assert rows[|p|] == x;
    }
    if Active(rows, u, w) {
      var k :| 0 <= k < |rows| && rows[k].user == u && InWindow(rows[k], w);
      if k < |p| {
        assert rows[k] == p[k];
      }
    }
  }

  lemma {:induction false} SumsZero(us: seq<nat>, rows: seq<Record>, w: Window)
    requires |rows| == 0
    ensures SumTotals(Sums(us, rows, w)) == 0
    decreases |us|
  {
    if |us| > 0 {
      SumsZero(us[1..], rows, w);
    }
  }

  /** The per-user sums add up to `total_between`. */
  lemma TotalsAgree(rows: seq<Record>, w: Window)
    ensures SumTotals(SalesByUser(rows, w)) == TotalBetween(rows, w)
  {
    SortDescKeeps(Sums(WindowUsers(rows, w), rows, w));
    SumsCoverTotal(WindowUsers(rows, w), rows, w);
  }

  /** `total_between` is 0 exactly when the window holds no row. */
  lemma {:induction false} TotalZeroIffEmpty(rows: seq<Record>, w: Window)
    requires AllPositive(rows)
    ensures TotalBetween(rows, w) == 0 <==> forall k :: 0 <= k < |rows| ==> !InWindow(rows[k], w)
    decreases |rows|
  {
    if |rows| > 0 {
      var p := rows[..|rows| - 1];
      TotalZeroIffEmpty(p, w);
      assert forall k :: 0 <= k < |p| ==> p[k] == rows[k];
    }
  }

  /** The leaderboard ranks the users 1..n, largest total first, each with the
      sum of their rows in the window. */
  lemma LeaderboardSpec(st: Store, w: Window)
    ensures var lb := Leaderboard(st, w);
      && (forall k :: 0 <= k < |lb| ==> lb[k].rank == k + 1)
      && (forall a, b :: 0 <= a < b < |lb| ==> lb[a].total >= lb[b].total && lb[a].user != lb[b].user)
      && (forall k :: 0 <= k < |lb| ==> lb[k].total == UserTotal(st.rows, lb[k].user, w))
      && (forall u :: OnBoard(lb, u) <==> Active(st.rows, u, w))
  {
    SalesByUserSpec(st.rows, w);
    RankedKeeps(SalesByUser(st.rows, w));
  }

  /** `enumerate(rows, 1)`: the lines are numbered 1..n in the list's order,
      each with its entry's user and total, so ranking keeps the order, the
      users and the totals of the list. */
  lemma RankedKeeps(es: seq<UserSum>)
    ensures var lb := Ranked(es);
      && |lb| == |es|
      && (forall k :: 0 <= k < |lb| ==> lb[k].rank == k + 1)
      && (forall k :: 0 <= k < |lb| ==> lb[k].user == es[k].user && lb[k].total == es[k].total)
      && (SortedDesc(es) ==> forall a, b :: 0 <= a < b < |lb| ==> lb[a].rank < lb[b].rank && lb[a].total >= lb[b].total)
      && (SortedDesc(es) && DistinctUsers(es) ==>
            forall a, b :: 0 <= a < b < |lb| ==> lb[a].total >= lb[b].total && lb[a].user != lb[b].user)
      && (forall u :: OnBoard(lb, u) <==> Listed(es, u))
  {
    var lb := Ranked(es);
    forall u ensures OnBoard(lb, u) <==> Listed(es, u) {
      if Listed(es, u) {
        var k :| 0 <= k < |es| && es[k].user == u;
        assert lb[k].user == u;
      }
    }
  }
}
