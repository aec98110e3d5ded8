/** The money formatter `fmt_money` of `bot.py` (`f"${n:,.2f}"`) on a
    non-negative number of cents, and its round trip through the extractor. */
module Formatter {
  import opened Wrappers
  import opened Chars
  import opened MoneyPattern
  import opened Extractor

  /** The decimal digits of `n` without leading zeros (`str(n)`). */
  function Decimal(n: nat): (r: seq<char>)
    ensures |r| > 0 && AllDigits(r)
    ensures DecimalValue(r) == n
    ensures n < 10 ==> |r| == 1
    ensures n < 100 ==> |r| <= 2
    ensures n < 1000 ==> |r| <= 3
    ensures n > 0 ==> r[0] != '0'
  {
    if n < 10 then [DigitChar(n)]
    else
      var head := Decimal(n / 10);
      var r := head + [DigitChar(n % 10)];
      assert r[..|r| - 1] == head && r[0] == head[0];
      r
  }

  /** Three digits of `n < 1000`, zero-padded on the left. */
  function Pad3(n: nat): (r: seq<char>)
    requires n < 1000
    ensures |r| == 3 && AllDigits(r)
    ensures DecimalValue(r) == n
  {
    var a, b, c := n / 100, n / 10 % 10, n % 10;
    var r := [DigitChar(a), DigitChar(b), DigitChar(c)];
    assert r[..2][..1] == [r[0]];
    assert [r[0]][..0] == [];
    assert DecimalValue([r[0]]) == a;
    assert DecimalValue(r[..2]) == 10 * a + b;
    assert DecimalValue(r) == 100 * a + 10 * b + c;
    ThreeDigits(n);
    r
  }

  /** The `,` format option: digits grouped by threes from the right. */
  function Thousands(n: nat): (r: seq<char>)
    ensures n < 1000 ==> AllDigits(r) && 1 <= |r| <= 3
    ensures n < 10 ==> |r| == 1
    ensures n >= 1000 ==> Grouped(r)
    ensures n > 0 ==> r[0] != '0'
  {
    if n < 1000 then Decimal(n)
    else
      var head := Thousands(n / 1000);
      var tail := Pad3(n % 1000);
      GroupedAppend(head, tail);
      head + [','] + tail
  }

  /** The grouped digits are an integer part of the money pattern that
      denotes `n` once the commas are removed. */
  lemma {:induction false} ThousandsValue(n: nat)
    ensures IntPart(Thousands(n)) && IntValue(Thousands(n)) == n
  {
    var r := Thousands(n);
    if n < 1000 {
      StripCommasDigits(r);
    } else {
      var head, tail := Thousands(n / 1000), Pad3(n % 1000);
      assert r == head + [','] + tail;
      ThousandsValue(n / 1000);
      IntPartChars(head);
      var digits := StripCommas(head);
      StripGroup(head, tail);
      DecimalValueAppend(digits, tail);
      ThousandStep(DecimalValue(digits), DecimalValue(tail), n);
    }
  }

  lemma ThousandStep(q: nat, m: nat, n: nat)
    requires q == n / 1000 && m == n % 1000
    ensures q * Pow10(3) + m == n
  {
    assert Pow10(3) == 1000;
  }

  /** Removing the commas from `head,tail` keeps `tail`'s digits whole. */
  lemma StripGroup(head: seq<char>, tail: seq<char>)
    requires AllDigits(tail)
    ensures StripCommas(head + [','] + tail) == StripCommas(head) + tail
  {
    var withComma := head + [','];
    StripCommasAppend(withComma, tail);
    StripCommasAppend(head, [',']);
    assert StripCommas([',']) == [] by {
      assert [','][..0] == [];
    }
    assert StripCommas(withComma) == StripCommas(head);
    StripCommasDigits(tail);
  }

  /** `fmt_money`: `$`, the grouped whole part, `.`, two fraction digits. */
  function FormatMoney(c: nat): (t: seq<char>)
    ensures |t| > 1 && t[0] == '$'
    ensures c >= 100 ==> t[1] != '0'
  {
    ['$'] + Thousands(c / 100) + ['.', DigitChar(c % 100 / 10), DigitChar(c % 10)]
  }

  /** The layout of `f"${n:,.2f}"`: `$`, the whole part grouped by threes
      (plain digits below 1000), `.`, and exactly two digits for the cents. */
  lemma FormatMoneyShape(c: nat)
    ensures var t := FormatMoney(c);
      && |t| >= 5 && t[0] == '$' && t[|t| - 3] == '.'
      && AllDigits(t[|t| - 2..]) && DecimalValue(t[|t| - 2..]) == c % 100
      && IntPart(t[1..|t| - 3]) && IntValue(t[1..|t| - 3]) == c / 100
      && (c / 100 >= 1000 ==> Grouped(t[1..|t| - 3]))
      && (c / 100 < 1000 ==> AllDigits(t[1..|t| - 3]) && |t| - 4 <= 3)
      && (c / 100 < 10 ==> |t| == 5)
  {
    var x := Thousands(c / 100);
    var d1, d2 := DigitChar(c % 100 / 10), DigitChar(c % 10);
    assert IntPart(x) && IntValue(x) == c / 100 by {
      ThousandsValue(c / 100);
    }
    assert 10 * DigitValue(d1) + DigitValue(d2) == c % 100 by {
      CentsTail(c);
    }
    assert (c / 100 >= 1000 ==> Grouped(x)) && (c / 100 < 1000 ==> AllDigits(x) && |x| <= 3)
      && (c / 100 < 10 ==> |x| == 1);
    var t := FormatMoney(c);
    assert t == ['$'] + x + ['.', d1, d2];
    PartsLayout(x, d1, d2);
    assert t[1..|t| - 3] == x;
  }

  /** Where the parts of `$x.dd` sit in the text. */
  lemma PartsLayout(x: seq<char>, d1: char, d2: char)
    requires IsDigit(d1) && IsDigit(d2)
    ensures var t := ['$'] + x + ['.', d1, d2];
      && |t| == |x| + 4 && t[0] == '$' && t[|t| - 3] == '.'
      && t[1..|t| - 3] == x
      && AllDigits(t[|t| - 2..]) && DecimalValue(t[|t| - 2..]) == 10 * DigitValue(d1) + DigitValue(d2)
  {
    var t := ['$'] + x + ['.', d1, d2];
    assert t[1..|t| - 3] == x;
    assert t[|t| - 2..] == [d1, d2];
    TwoDigitValue(d1, d2);
  }

  /** The number a two-digit string denotes. */
  lemma TwoDigitValue(d1: char, d2: char)
    requires IsDigit(d1) && IsDigit(d2)
    ensures DecimalValue([d1, d2]) == 10 * DigitValue(d1) + DigitValue(d2)
  {
    assert [d1][..0] == [];
    assert DecimalValue([d1]) == DigitValue(d1);
    assert [d1, d2][..1] == [d1];
    assert DecimalValue([d1, d2]) == 10 * DecimalValue([d1]) + DigitValue(d2);
  }

  lemma CentsTail(c: nat)
    ensures 10 * (c % 100 / 10) + c % 10 == c % 100
  {
    var r := c % 100;
    assert c == 100 * (c / 100) + r;
    LastDigit(c, 10 * (c / 100) + r / 10, r % 10);
  }

  /** After `$` and a digit, the capture group is all that follows the `$`. */
  lemma AmountAfterDollar(n: seq<char>)
    requires |n| > 0 && IsDigit(n[0])
    ensures Amount(['$'] + n) == n
  {
    assert (['$'] + n)[1..] == n;
  }

  lemma CentsDigits(c: nat)
    ensures 100 * (c / 100) + 10 * (c % 100 / 10) + c % 10 == c
  {
    CentsTail(c);
  }

  /** The last decimal digit of `10 * k + u` is `u`. */
  lemma LastDigit(c: int, k: int, u: int)
    requires c == 10 * k + u && 0 <= u < 10
    ensures c % 10 == u
  {
  }

  lemma ThreeDigits(n: nat)
    requires n < 1000
    ensures 100 * (n / 100) + 10 * (n / 10 % 10) + n % 10 == n
  {
    var a, b, c := n / 100, n / 10 % 10, n % 10;
    assert n / 10 == 10 * a + b;
  }

  /** A formatted amount is one token of the money pattern, worth exactly the
      cents it was made from. */
  lemma FormatMoneyIsToken(c: nat)
    ensures IsToken(FormatMoney(c)) && TokenCents(FormatMoney(c)) == c
  {
    var x := Thousands(c / 100);
    var d1, d2 := DigitChar(c % 100 / 10), DigitChar(c % 10);
    assert IntPart(x) && IntValue(x) == c / 100 by {
      ThousandsValue(c / 100);
    }
    assert 100 * IntValue(x) + 10 * DigitValue(d1) + DigitValue(d2) == c by {
      CentsDigits(c);
    }
    PartsIsToken(x, d1, d2);
  }

  /** `$`, an integer part, `.` and two digits form one token worth the
      integer part in whole units plus the two digits in cents. */
  lemma PartsIsToken(x: seq<char>, d1: char, d2: char)
    requires IntPart(x) && IsDigit(d1) && IsDigit(d2)
    ensures var t := ['$'] + x + ['.', d1, d2];
      IsToken(t) && TokenCents(t) == 100 * IntValue(x) + 10 * DigitValue(d1) + DigitValue(d2)
  {
    var n := x + ['.', d1, d2];
    IntPartStartsWithDigit(x);
    assert n[0] == x[0];
    AmountAfterDollar(n);
    assert ['$'] + x + ['.', d1, d2] == ['$'] + n;
    TwoDecimals(x, d1, d2);
  }

  lemma {:induction false} StripCommasDigits(x: seq<char>)
    requires AllDigits(x)
    ensures StripCommas(x) == x
    decreases |x|
  {
    if |x| > 0 {
      StripCommasDigits(x[..|x| - 1]);
    }
  }

  lemma {:induction false} StripCommasAppend(a: seq<char>, b: seq<char>)
    ensures StripCommas(a + b) == StripCommas(a) + StripCommas(b)
    decreases |b|
  {
    if |b| > 0 {
      assert (a + b)[..|a + b| - 1] == a + b[..|b| - 1];
      assert (a + b)[|a + b| - 1] == b[|b| - 1];
      StripCommasAppend(a, b[..|b| - 1]);
    } else {
      assert a + b == a;
    }
  }

  lemma {:induction false} GroupsAppend(y: seq<char>, g: seq<char>)
    requires Groups(y)
    requires |g| == 4 && g[0] == ',' && AllDigits(g[1..])
    ensures Groups(y + g)
    decreases |y|
  {
    assert IsDigit(g[1..][0]) && IsDigit(g[1..][1]) && IsDigit(g[1..][2]);
    if |y| == 0 {
      assert (y + g)[4..] == [];
    } else {
      GroupsAppend(y[4..], g);
      assert (y + g)[4..] == y[4..] + g;
    }
  }

  /** Appending a `,ddd` group to 1 to 3 digits or to a grouped integer part
      gives a grouped integer part. */
  lemma GroupedAppend(x: seq<char>, d3: seq<char>)
    requires (AllDigits(x) && 1 <= |x| <= 3) || Grouped(x)
    requires AllDigits(d3) && |d3| == 3
    ensures Grouped(x + [','] + d3)
  {
    var g := [','] + d3;
    assert g[1..] == d3;
    assert x + [','] + d3 == x + g;
    if AllDigits(x) && 1 <= |x| <= 3 {
      GroupedFromDigits(x, g);
    } else {
      var h: nat := if GroupedAt(x, 1) then 1 else if GroupedAt(x, 2) then 2 else 3;
      GroupedExtend(x, h, g);
    }
  }

  lemma GroupedFromDigits(x: seq<char>, g: seq<char>)
    requires AllDigits(x) && 1 <= |x| <= 3
    requires |g| == 4 && g[0] == ',' && AllDigits(g[1..])
    ensures GroupedAt(x + g, |x|)
  {
    var z := x + g;
    GroupsAppend([], g);
    assert z[..|x|] == x;
    assert z[|x|..] == [] + g;
  }

  lemma GroupedExtend(x: seq<char>, h: nat, g: seq<char>)
    requires GroupedAt(x, h)
    requires |g| == 4 && g[0] == ',' && AllDigits(g[1..])
    ensures GroupedAt(x + g, h)
  {
    var z := x + g;
    GroupsAppend(x[h..], g);
    assert z[..h] == x[..h];
    assert z[h..] == x[h..] + g;
  }

  /** Round trip: extracting the amount from a formatted amount gives the
      amount back. */
  lemma RoundTrip(c: nat)
    ensures ParseAmounts(Some(FormatMoney(c))) == c
  {
    var t := FormatMoney(c);
    var m := Match(0, |t|, c);
    FormatMoneyIsToken(c);
    assert t[0..|t|] == t;
    assert Found(t, m);
    assert Finditer(t, 0, [m]) by {
      forall p | 0 <= p < |t| && StartsToken(t, p) ensures Inside([m], p) {
        assert [m][0] == m;
      }
    }
    ParseAmountsSpec(t, [m]);
  }
}
