/** How `bot.py` compares row timestamps with window bounds, and why the
    model compares integer instants instead.

    Rows are stamped with `datetime.utcnow().isoformat()`, a naive text with
    no UTC offset that omits the fraction when the microseconds are 0. Window
    bounds are `.isoformat()` of aware UTC datetimes, which end in `+00:00`.
    SQLite compares the two as text. */
module Timestamps {
  import opened Chars
  import opened Ledger
  import opened Aggregation

  /** Python's (and SQLite's default) text ordering: lexicographic on code
      points, a proper prefix first. */
  predicate TextLess(a: string, b: string)
    decreases |a|
  {
    if |a| == 0 then |b| > 0
    else if |b| == 0 then false
    else if a[0] != b[0] then a[0] < b[0]
    else TextLess(a[1..], b[1..])
  }

  /** A UTC wall-clock reading at microsecond precision; `date` is the
      `YYYY-MM-DD` text. */
  datatype DateTime = DateTime(date: string, hour: nat, minute: nat, second: nat, micro: nat)

  function TwoDigits(n: nat): (r: string)
    requires n < 100
    ensures |r| == 2
  {
    [DigitChar(n / 10), DigitChar(n % 10)]
  }

  function SixDigits(n: nat): (r: string)
    requires n < 1000000
    ensures |r| == 6
  {
    [DigitChar(n / 100000), DigitChar(n / 10000 % 10), DigitChar(n / 1000 % 10),
     DigitChar(n / 100 % 10), DigitChar(n / 10 % 10), DigitChar(n % 10)]
  }

  predicate ValidTime(d: DateTime) {
    d.hour < 24 && d.minute < 60 && d.second < 60 && d.micro < 1000000
  }

  /** `isoformat()` of a naive datetime: what `insert_sale_row` stores. */
  function NaiveIso(d: DateTime): string
    requires ValidTime(d)
  {
    d.date + "T" + TwoDigits(d.hour) + ":" + TwoDigits(d.minute) + ":" + TwoDigits(d.second)
      + (if d.micro == 0 then "" else "." + SixDigits(d.micro))
  }

  /** `isoformat()` of the same reading as an aware UTC datetime: what the
      queries pass as bounds. */
  function AwareIso(d: DateTime): string
    requires ValidTime(d)
  {
    NaiveIso(d) + "+00:00"
  }

  /** The query's `ts>=? AND ts<?` on texts, as written. */
  predicate InWindowAsWritten(ts: string, start: string, end: string) {
    !TextLess(ts, start) && TextLess(ts, end)
  }

  lemma {:induction false} ProperPrefixLess(a: string, b: string)
    requires |a| < |b| && a == b[..|a|]
    ensures TextLess(a, b)
    decreases |a|
  {
    if |a| > 0 {
      assert a[1..] == b[1..][..|a| - 1];
      ProperPrefixLess(a[1..], b[1..]);
    }
  }

  /** As written: a row stamped exactly at a window boundary, with zero
      microseconds, sorts before the boundary's text. It is left out of the
      window that starts there and counted in the window that ends there. */
  lemma BoundaryRowMisfiled(d: DateTime, prevStart: string, end: string)
    requires ValidTime(d) && d.micro == 0
    requires !TextLess(NaiveIso(d), prevStart)
    ensures !InWindowAsWritten(NaiveIso(d), AwareIso(d), end)
    ensures InWindowAsWritten(NaiveIso(d), prevStart, AwareIso(d))
  {
    var a := NaiveIso(d);
    assert AwareIso(d)[..|a|] == a;
    ProperPrefixLess(a, AwareIso(d));
    TextLessAsym(a, AwareIso(d));
  }

  lemma {:induction false} TextLessAsym(a: string, b: string)
    requires TextLess(a, b)
    ensures !TextLess(b, a)
    decreases |a|
  {
    if |a| > 0 && a[0] == b[0] {
      TextLessAsym(a[1..], b[1..]);
    }
  }

  /** The instance: local midnight of 2024-03-10 in America/Chicago is
      06:00:00 UTC. A sale recorded at that instant lands in 2024-03-09's
      window, not 2024-03-10's. */
  lemma ChicagoMidnightSale()
    ensures var stamp := DateTime("2024-03-10", 6, 0, 0, 0);
      && NaiveIso(stamp) == "2024-03-10T06:00:00"
      && !InWindowAsWritten(NaiveIso(stamp), "2024-03-10T06:00:00+00:00", "2024-03-11T05:00:00+00:00")
      && InWindowAsWritten(NaiveIso(stamp), "2024-03-09T06:00:00+00:00", "2024-03-10T06:00:00+00:00")
  {
    var stamp := DateTime("2024-03-10", 6, 0, 0, 0);
    ChicagoStampText();
    assert AwareIso(stamp) == "2024-03-10T06:00:00+00:00";
    ChicagoEarlierDay();
    BoundaryRowMisfiled(stamp, "2024-03-09T06:00:00+00:00", "2024-03-11T05:00:00+00:00");
  }

  lemma ChicagoStampText()
    ensures NaiveIso(DateTime("2024-03-10", 6, 0, 0, 0)) == "2024-03-10T06:00:00"
  {
    assert TwoDigits(6) == "06" && TwoDigits(0) == "00";
  }

  lemma ChicagoEarlierDay()
    ensures !TextLess("2024-03-10T06:00:00", "2024-03-09T06:00:00+00:00")
  {
    assert "2024-03-10T06:00:00" == "2024-03-" + "10T06:00:00";
    assert "2024-03-09T06:00:00+00:00" == "2024-03-" + "09T06:00:00+00:00";
    LaterAfterCommonPrefix("2024-03-", "10T06:00:00", "09T06:00:00+00:00");
  }

  /** After a common prefix, the first character decides the order. */
  lemma {:induction false} LaterAfterCommonPrefix(p: string, x: string, y: string)
    requires |x| > 0 && |y| > 0 && y[0] < x[0]
    ensures !TextLess(p + x, p + y)
    decreases |p|
  {
    if |p| > 0 {
      assert (p + x)[1..] == p[1..] + x && (p + y)[1..] == p[1..] + y;
      LaterAfterCommonPrefix(p[1..], x, y);
    }
  }

  /** Corrected: on instants, consecutive windows split time at their common
      bound, and a row at the bound belongs to the window that starts there. */
  lemma BoundaryRowFiled(x: Record, prev: Window, today: Window)
    requires prev.start <= prev.end == today.start <= today.end
    ensures x.ts == today.start && today.start < today.end ==> InWindow(x, today) && !InWindow(x, prev)
    ensures !(InWindow(x, prev) && InWindow(x, today))
    ensures InWindow(x, prev) || InWindow(x, today) <==> prev.start <= x.ts < today.end
  {
  }
}
