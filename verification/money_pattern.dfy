/** The language of the money pattern of `bot.py` (`MONEY_RE`), stated
    declaratively, and the number of cents a matched token denotes.

    A token is `$`, any run of whitespace, then a number. A number is an
    integer part followed by nothing, by `.d` or by `.dd`. An integer part is
    either 1 to 3 digits followed by one or more `,ddd` groups, or a plain run of
    digits. The value of a token is its number with the commas removed, read as
    a decimal with at most two fractional digits, in cents. */
module MoneyPattern {
  import opened Chars

  /** Zero or more `,ddd` groups. */
  predicate Groups(y: seq<char>)
    decreases |y|
  {
    || |y| == 0
    || (&& |y| >= 4
        && y[0] == ','
        && IsDigit(y[1]) && IsDigit(y[2]) && IsDigit(y[3])
        && Groups(y[4..]))
  }

  /** `h` leading digits, then at least one `,ddd` group. */
  predicate GroupedAt(x: seq<char>, h: nat) {
    && h < |x|
    && AllDigits(x[..h])
    && x[h] == ','
    && Groups(x[h..])
  }

  /** The thousands-grouped alternative `\d{1,3}(?:,\d{3})+`. */
  predicate Grouped(x: seq<char>) {
    GroupedAt(x, 1) || GroupedAt(x, 2) || GroupedAt(x, 3)
  }

  /** Either alternative of the integer part. */
  predicate IntPart(x: seq<char>) {
    (|x| > 0 && AllDigits(x)) || Grouped(x)
  }

  /** An integer part with an optional `.d` or `.dd` suffix. */
  predicate Number(n: seq<char>) {
    || IntPart(n)
    || (|n| >= 2 && n[|n| - 2] == '.' && IsDigit(n[|n| - 1]) && IntPart(n[..|n| - 2]))
    || (&& |n| >= 3 && n[|n| - 3] == '.' && IsDigit(n[|n| - 2]) && IsDigit(n[|n| - 1])
        && IntPart(n[..|n| - 3]))
  }

  /** Leading whitespace removed. */
  function DropSpaces(u: seq<char>): (v: seq<char>)
    ensures |v| <= |u|
    ensures |v| > 0 ==> !IsSpace(v[0])
    decreases |u|
  {
    if |u| > 0 && IsSpace(u[0]) then DropSpaces(u[1..]) else u
  }

  /** The capture group of the pattern: what follows `$` and the whitespace. */
  function Amount(t: seq<char>): seq<char>
    requires |t| > 0
  {
    DropSpaces(t[1..])
  }

  /** A whole match of the money pattern. */
  predicate IsToken(t: seq<char>) {
    |t| > 0 && t[0] == '$' && Number(Amount(t))
  }

  /** `s[p..e]` is a match at `p`, and no longer match starts at `p`. */
  ghost predicate LongestAt(s: seq<char>, p: nat, e: nat) {
    && p < e <= |s|
    && IsToken(s[p..e])
    && forall e' :: e < e' <= |s| ==> !IsToken(s[p..e'])
  }

  /** Some match of the money pattern starts at `p`. */
  ghost predicate StartsToken(s: seq<char>, p: nat) {
    exists e :: p < e <= |s| && IsToken(s[p..e])
  }

  /** The string with every comma removed (`str.replace(",", "")`). */
  function StripCommas(x: seq<char>): (y: seq<char>)
    ensures |y| <= |x|
    ensures (forall k :: 0 <= k < |x| ==> IsDigit(x[k]) || x[k] == ',') ==> AllDigits(y)
    decreases |x|
  {
    if |x| == 0 then []
    else
      var last := x[|x| - 1];
      StripCommas(x[..|x| - 1]) + (if last == ',' then [] else [last])
  }

  lemma IntPartChars(x: seq<char>)
    requires IntPart(x)
    ensures forall k :: 0 <= k < |x| ==> IsDigit(x[k]) || x[k] == ','
  {
    if !(|x| > 0 && AllDigits(x)) {
      var h: nat := if GroupedAt(x, 1) then 1 else if GroupedAt(x, 2) then 2 else 3;
      assert GroupedAt(x, h);
      GroupsChars(x[h..]);
      forall k | 0 <= k < |x| ensures IsDigit(x[k]) || x[k] == ',' {
        if k >= h { assert x[k] == x[h..][k - h]; }
      }
    }
  }

  lemma {:induction false} GroupsChars(y: seq<char>)
    requires Groups(y)
    ensures forall k :: 0 <= k < |y| ==> IsDigit(y[k]) || y[k] == ','
    decreases |y|
  {
    if |y| > 0 {
      GroupsChars(y[4..]);
      forall k | 4 <= k < |y| ensures IsDigit(y[k]) || y[k] == ',' {
        assert y[k] == y[4..][k - 4];
      }
    }
  }

  /** The whole-unit value of an integer part. */
  function IntValue(x: seq<char>): nat
    requires IntPart(x)
  {
    IntPartChars(x);
    DecimalValue(StripCommas(x))
  }

  /** The value of a number, in cents. */
  function NumberCents(n: seq<char>): nat
    requires Number(n)
  {
    if IntPart(n) then 100 * IntValue(n)
    else if |n| >= 2 && n[|n| - 2] == '.' && IsDigit(n[|n| - 1]) && IntPart(n[..|n| - 2]) then
      100 * IntValue(n[..|n| - 2]) + 10 * DigitValue(n[|n| - 1])
    else
      100 * IntValue(n[..|n| - 3]) + 10 * DigitValue(n[|n| - 2]) + DigitValue(n[|n| - 1])
  }

  /** The value of a match, in cents. */
  function TokenCents(t: seq<char>): nat
    requires IsToken(t)
  {
    NumberCents(Amount(t))
  }

  lemma IntPartNoDot(x: seq<char>, k: nat)
    requires k < |x| && x[k] == '.'
    ensures !IntPart(x)
  {
    if IntPart(x) {
      IntPartChars(x);
    }
  }

  /** An integer part followed by `.d` is a number worth the integer part in
      whole units plus ten cents per tenth. */
  lemma OneDecimal(x: seq<char>, d: char)
    requires IntPart(x) && IsDigit(d)
    ensures Number(x + ['.', d])
    ensures NumberCents(x + ['.', d]) == 100 * IntValue(x) + 10 * DigitValue(d)
  {
    var n := x + ['.', d];
    assert n[..|n| - 2] == x;
    IntPartNoDot(n, |n| - 2);
  }

  /** An integer part followed by `.dd` is a number worth the integer part in
      whole units plus the two fraction digits in cents. */
  lemma TwoDecimals(x: seq<char>, d1: char, d2: char)
    requires IntPart(x) && IsDigit(d1) && IsDigit(d2)
    ensures Number(x + ['.', d1, d2])
    ensures NumberCents(x + ['.', d1, d2]) == 100 * IntValue(x) + 10 * DigitValue(d1) + DigitValue(d2)
  {
    var n := x + ['.', d1, d2];
    assert n[..|n| - 3] == x;
    IntPartNoDot(n, |n| - 3);
    assert n[|n| - 2] == d1;
  }
}
