/** The amount extractor `parse_amounts` of `bot.py`: a left-to-right scanner
    over the message text that finds the non-overlapping matches of the money
    pattern and sums their values in cents. */
module Extractor {
  import opened Wrappers
  import opened Chars
  import opened MoneyPattern

  /** One match: the text `s[start..end]` and the cents it denotes. */
  datatype Match = Match(start: nat, end: nat, cents: nat)

  /** End of the whitespace run starting at `k` (the pattern's `\s*`). */
  function SkipSpaces(s: seq<char>, k: nat): (e: nat)
    requires k <= |s|
    ensures k <= e <= |s|
    ensures forall m :: k <= m < e ==> IsSpace(s[m])
    ensures e < |s| ==> !IsSpace(s[e])
    decreases |s| - k
  {
    if k < |s| && IsSpace(s[k]) then SkipSpaces(s, k + 1) else k
  }

  /** End of the digit run starting at `k`. */
  function DigitsEnd(s: seq<char>, k: nat): (e: nat)
    requires k <= |s|
    ensures k <= e <= |s|
    ensures forall m :: k <= m < e ==> IsDigit(s[m])
    ensures e < |s| ==> !IsDigit(s[e])
    decreases |s| - k
  {
    if k < |s| && IsDigit(s[k]) then DigitsEnd(s, k + 1) else k
  }

  /** End of the longest run of `,ddd` groups starting at `k`. */
  function GroupsEnd(s: seq<char>, k: nat): (e: nat)
    requires k <= |s|
    ensures k <= e <= |s|
    ensures forall m :: k <= m < e ==> IsDigit(s[m]) || s[m] == ','
    decreases |s| - k
  {
    if k + 4 <= |s| && s[k] == ',' && IsDigit(s[k + 1]) && IsDigit(s[k + 2]) && IsDigit(s[k + 3])
    then GroupsEnd(s, k + 4)
    else k
  }

  /** End of the integer part starting at the digit `s[j]`: the grouped
      alternative when it applies, the plain digit run otherwise. */
  function IntEnd(s: seq<char>, j: nat): (g: nat)
    requires j < |s| && IsDigit(s[j])
    ensures j < g <= |s|
    ensures forall m :: j <= m < g ==> IsDigit(s[m]) || s[m] == ','
  {
    var d := DigitsEnd(s, j);
    if d - j <= 3 then GroupsEnd(s, d) else d
  }

  /** End of the optional fraction `.d` or `.dd` starting at `g`, taking two
      digits when they are there. */
  function FracEnd(s: seq<char>, g: nat): (e: nat)
    requires g <= |s|
    ensures || e == g
            || (e == g + 2 && e <= |s| && s[g] == '.' && IsDigit(s[g + 1]))
            || (e == g + 3 && e <= |s| && s[g] == '.' && IsDigit(s[g + 1]) && IsDigit(s[g + 2]))
  {
    if g + 1 < |s| && s[g] == '.' && IsDigit(s[g + 1]) then
      if g + 2 < |s| && IsDigit(s[g + 2]) then g + 3 else g + 2
    else g
  }

  /** The cents of the fraction `s[g..e]`. */
  function FracCents(s: seq<char>, g: nat): nat
    requires g <= |s|
  {
    var e := FracEnd(s, g);
    if e == g + 2 then 10 * DigitValue(s[g + 1])
    else if e == g + 3 then 10 * DigitValue(s[g + 1]) + DigitValue(s[g + 2])
    else 0
  }

  /** One attempt of the pattern at position `i`. */
  function MatchAt(s: seq<char>, i: nat): Option<Match>
    requires i <= |s|
  {
    if i < |s| && s[i] == '$' then NumberAt(s, i, SkipSpaces(s, i + 1)) else None
  }

  /** The rest of an attempt at `i` once the `$` and the whitespace after it
      are read: the number must start at `j`. */
  function NumberAt(s: seq<char>, i: nat, j: nat): Option<Match>
    requires i < j <= |s|
  {
    if j < |s| && IsDigit(s[j]) then
      var g := IntEnd(s, j);
      var e := FracEnd(s, g);
      assert forall k :: 0 <= k < |s[j..g]| ==> IsDigit(s[j..g][k]) || s[j..g][k] == ',';
      Some(Match(i, e, 100 * DecimalValue(StripCommas(s[j..g])) + FracCents(s, g)))
    else None
  }

  /** `re.finditer` from position `i`: after a match, scanning resumes at its
      end; where no match starts, it resumes one character later. */
  function FindAll(s: seq<char>, i: nat): seq<Match>
    requires i <= |s|
    decreases |s| - i
  {
    if i == |s| then []
    else if s[i] != '$' then FindAll(s, i + 1)
    else
      match MatchAt(s, i)
      case Some(m) => assert m.end > i by { MatchAtSound(s, i); } [m] + FindAll(s, m.end)
      case None => FindAll(s, i + 1)
  }

  function Total(ms: seq<Match>): nat {
    if |ms| == 0 then 0 else ms[0].cents + Total(ms[1..])
  }

  /** `parse_amounts`: absent text counts as the empty string, and the result
      is the sum of the values of all matches, 0 when there is none. */
  function ParseAmounts(text: Option<seq<char>>): (cents: nat)
    ensures text.None? ==> cents == 0
    ensures text.Some? && '$' !in text.value ==> cents == 0
  {
    match text
    case None => 0
    case Some(s) => NoDollarNoMatch(s, 0); Total(FindAll(s, 0))
  }

  // ---------------------------------------------------------------------
  // The scanner against the declarative pattern

  lemma {:induction false} DropSpacesSlice(s: seq<char>, a: nat, j: nat, e: nat)
    requires a <= j <= |s| && j <= e <= |s|
    requires forall m :: a <= m < j ==> IsSpace(s[m])
    requires j < |s| ==> !IsSpace(s[j])
    ensures DropSpaces(s[a..e]) == s[j..e]
    decreases j - a
  {
    if a < j {
      assert s[a..e][1..] == s[a + 1..e];
      DropSpacesSlice(s, a + 1, j, e);
    }
  }

  lemma {:induction false} DropSpacesAll(s: seq<char>, a: nat, e: nat)
    requires a <= e <= |s|
    requires forall m :: a <= m < e ==> IsSpace(s[m])
    ensures DropSpaces(s[a..e]) == []
    decreases e - a
  {
    if a < e {
      assert s[a..e][1..] == s[a + 1..e];
      DropSpacesAll(s, a + 1, e);
    }
  }

  lemma IntPartStartsWithDigit(x: seq<char>)
    requires IntPart(x)
    ensures |x| > 0 && IsDigit(x[0])
  {
    if !(|x| > 0 && AllDigits(x)) {
      assert x[..1][0] == x[0];
    }
  }

  lemma NumberStartsWithDigit(n: seq<char>)
    requires Number(n)
    ensures |n| > 0 && IsDigit(n[0])
  {
    if IntPart(n) {
      IntPartStartsWithDigit(n);
    } else if |n| >= 2 && n[|n| - 2] == '.' && IsDigit(n[|n| - 1]) && IntPart(n[..|n| - 2]) {
      IntPartStartsWithDigit(n[..|n| - 2]);
    } else {
      IntPartStartsWithDigit(n[..|n| - 3]);
    }
  }

  lemma {:induction false} GroupsEndGroups(s: seq<char>, k: nat)
    requires k <= |s|
    ensures Groups(s[k..GroupsEnd(s, k)])
    decreases |s| - k
  {
    if k + 4 <= |s| && s[k] == ',' && IsDigit(s[k + 1]) && IsDigit(s[k + 2]) && IsDigit(s[k + 3]) {
      GroupsEndGroups(s, k + 4);
      assert s[k..GroupsEnd(s, k)][4..] == s[k + 4..GroupsEnd(s, k + 4)];
    }
  }

  /** Every run of groups at `k` ends within the greedy one. */
  lemma {:induction false} GroupsBound(s: seq<char>, k: nat, b: nat)
    requires k <= b <= |s|
    requires Groups(s[k..b])
    ensures b <= GroupsEnd(s, k)
    decreases b - k
  {
    if b > k {
      var y := s[k..b];
      assert y[0] == s[k] && y[1] == s[k + 1] && y[2] == s[k + 2] && y[3] == s[k + 3];
      assert y[4..] == s[k + 4..b];
      GroupsBound(s, k + 4, b);
    }
  }

  lemma IntEndAccepted(s: seq<char>, j: nat)
    requires j < |s| && IsDigit(s[j])
    ensures IntPart(s[j..IntEnd(s, j)])
  {
    var d := DigitsEnd(s, j);
    var g := IntEnd(s, j);
    if d - j <= 3 && GroupsEnd(s, d) > d {
      GroupsEndGroups(s, d);
      var x := s[j..g];
      assert x[..d - j] == s[j..d];
      assert x[d - j..] == s[d..g];
      assert GroupedAt(x, d - j);
    } else {
      assert AllDigits(s[j..g]);
    }
  }

  lemma IntEndMax(s: seq<char>, j: nat, b: nat)
    requires j < |s| && IsDigit(s[j])
    requires j <= b <= |s| && IntPart(s[j..b])
    ensures b <= IntEnd(s, j)
  {
    var x := s[j..b];
    var d := DigitsEnd(s, j);
    if |x| > 0 && AllDigits(x) {
      DigitsBound(s, j, b);
    } else {
      var h: nat := if GroupedAt(x, 1) then 1 else if GroupedAt(x, 2) then 2 else 3;
      assert GroupedAt(x, h);
      assert s[j + h] == x[h];
      assert forall m :: j <= m < j + h ==> s[m] == x[..h][m - j];
      assert d == j + h;
      assert x[h..] == s[d..b];
      GroupsBound(s, d, b);
    }
  }

  /** A digit run from `j` ends no later than the scanner's. */
  lemma DigitsBound(s: seq<char>, j: nat, b: nat)
    requires j <= b <= |s| && AllDigits(s[j..b])
    ensures b <= DigitsEnd(s, j)
  {
    forall m | j <= m < b ensures IsDigit(s[m]) {
      assert s[m] == s[j..b][m - j];
    }
  }


  /** The fraction the scanner takes is the longest the pattern allows. */
  lemma FracEndLongest(s: seq<char>, g: nat, e': nat)
    requires g <= e' <= |s|
    requires || e' == g
             || (e' == g + 2 && s[g] == '.' && IsDigit(s[g + 1]))
             || (e' == g + 3 && s[g] == '.' && IsDigit(s[g + 1]) && IsDigit(s[g + 2]))
    ensures e' <= FracEnd(s, g)
  {
  }

  /** What the scanner takes from the digit `s[j]` on is a number of the
      pattern, with the scanner's value. */
  lemma ScannedNumber(s: seq<char>, j: nat)
    requires j < |s| && IsDigit(s[j])
    ensures IntPart(s[j..IntEnd(s, j)])
    ensures Number(s[j..FracEnd(s, IntEnd(s, j))])
    ensures NumberCents(s[j..FracEnd(s, IntEnd(s, j))])
      == 100 * IntValue(s[j..IntEnd(s, j)]) + FracCents(s, IntEnd(s, j))
  {
    IntEndAccepted(s, j);
    ScannedFraction(s, j, IntEnd(s, j));
  }

  /** An integer part `s[j..g]` and the fraction the scanner takes after it
      form a number with the scanner's value. */
  lemma ScannedFraction(s: seq<char>, j: nat, g: nat)
    requires j < g <= |s| && IntPart(s[j..g])
    ensures Number(s[j..FracEnd(s, g)])
    ensures NumberCents(s[j..FracEnd(s, g)]) == 100 * IntValue(s[j..g]) + FracCents(s, g)
  {
    var e := FracEnd(s, g);
    if e == g + 2 {
      ScannedOne(s, j, g);
    } else if e == g + 3 {
      ScannedTwo(s, j, g);
    } else {
      ScannedNone(s, j, g);
    }
  }

  lemma ScannedNone(s: seq<char>, j: nat, g: nat)
    requires j < g <= |s| && IntPart(s[j..g]) && FracEnd(s, g) == g
    ensures Number(s[j..g])
    ensures NumberCents(s[j..g]) == 100 * IntValue(s[j..g]) + FracCents(s, g)
  {
  }

  lemma ScannedOne(s: seq<char>, j: nat, g: nat)
    requires j < g <= |s| && IntPart(s[j..g]) && FracEnd(s, g) == g + 2
    ensures Number(s[j..g + 2])
    ensures NumberCents(s[j..g + 2]) == 100 * IntValue(s[j..g]) + FracCents(s, g)
  {
    assert s[j..g + 2] == s[j..g] + ['.', s[g + 1]];
    OneDecimal(s[j..g], s[g + 1]);
  }

  lemma ScannedTwo(s: seq<char>, j: nat, g: nat)
    requires j < g <= |s| && IntPart(s[j..g]) && FracEnd(s, g) == g + 3
    ensures Number(s[j..g + 3])
    ensures NumberCents(s[j..g + 3]) == 100 * IntValue(s[j..g]) + FracCents(s, g)
  {
    assert s[j..g + 3] == s[j..g] + ['.', s[g + 1], s[g + 2]];
    TwoDecimals(s[j..g], s[g + 1], s[g + 2]);
  }

  /** The text the scanner takes at `i` is a token, with the scanner's value. */
  lemma MatchAtIsToken(s: seq<char>, i: nat)
    requires i <= |s|
    requires MatchAt(s, i).Some?
    ensures var m := MatchAt(s, i).value;
      && m.start == i && i < m.end <= |s|
      && IsToken(s[i..m.end])
      && m.cents == TokenCents(s[i..m.end])
  {
    var j := SkipSpaces(s, i + 1);
    var e := FracEnd(s, IntEnd(s, j));
    ScannedNumber(s, j);
    IntPartChars(s[j..IntEnd(s, j)]);
    DropSpacesSlice(s, i + 1, j, e);
    assert s[i..e][1..] == s[i + 1..e];
    assert Amount(s[i..e]) == s[j..e];
  }

  /** A number of the pattern starting at the digit `s[j]` ends no later than
      the integer part and fraction the scanner takes there. */
  lemma NumberBound(s: seq<char>, j: nat, e': nat)
    requires j < |s| && IsDigit(s[j])
    requires j <= e' <= |s|
    requires Number(s[j..e'])
    ensures e' <= FracEnd(s, IntEnd(s, j))
  {
    NumberIn(s, j, e');
    if IntPart(s[j..e']) {
      IntEndMax(s, j, e');
    } else if e' >= j + 2 && s[e' - 2] == '.' && IsDigit(s[e' - 1]) && IntPart(s[j..e' - 2]) {
      FractionBound(s, j, e' - 2, e');
    } else {
      FractionBound(s, j, e' - 3, e');
    }
  }

  /** `Number` of a slice, stated on the positions of `s`. */
  lemma NumberIn(s: seq<char>, j: nat, e': nat)
    requires j <= e' <= |s| && Number(s[j..e'])
    ensures || IntPart(s[j..e'])
            || (e' >= j + 2 && s[e' - 2] == '.' && IsDigit(s[e' - 1]) && IntPart(s[j..e' - 2]))
            || (&& e' >= j + 3 && s[e' - 3] == '.' && IsDigit(s[e' - 2]) && IsDigit(s[e' - 1])
                && IntPart(s[j..e' - 3]))
  {
    var n := s[j..e'];
    if !IntPart(n) {
      if |n| >= 2 && n[|n| - 2] == '.' && IsDigit(n[|n| - 1]) && IntPart(n[..|n| - 2]) {
        assert n[..|n| - 2] == s[j..e' - 2];
      } else {
        assert n[..|n| - 3] == s[j..e' - 3];
      }
    }
  }

  /** An integer part ending at `b` followed by a fraction ends no later than
      the scanner's match: `b` is where the scanner's integer part ends. */
  lemma FractionBound(s: seq<char>, j: nat, b: nat, e': nat)
    requires j < |s| && IsDigit(s[j])
    requires j <= b < e' <= |s| && IntPart(s[j..b]) && s[b] == '.'
    requires || (e' == b + 2 && IsDigit(s[b + 1]))
             || (e' == b + 3 && IsDigit(s[b + 1]) && IsDigit(s[b + 2]))
    ensures e' <= FracEnd(s, IntEnd(s, j))
  {
    IntEndMax(s, j, b);
    FracEndLongest(s, IntEnd(s, j), e');
  }

  /** No token at `i` extends beyond the scanner's match. */
  lemma MatchAtLongest(s: seq<char>, i: nat, e': nat)
    requires i <= |s|
    requires MatchAt(s, i).Some?
    requires MatchAt(s, i).value.end < e' <= |s|
    ensures !IsToken(s[i..e'])
  {
    var j := SkipSpaces(s, i + 1);
    if IsToken(s[i..e']) {
      DropSpacesSlice(s, i + 1, j, e');
      assert s[i..e'][1..] == s[i + 1..e'];
      assert Amount(s[i..e']) == s[j..e'];
      NumberBound(s, j, e');
    }
  }

  /** A match found by the scanner is a longest token at its start, and its
      value is the token's value. */
  lemma MatchAtSound(s: seq<char>, i: nat)
    requires i <= |s|
    requires MatchAt(s, i).Some?
    ensures var m := MatchAt(s, i).value;
      && m.start == i
      && LongestAt(s, i, m.end)
      && m.cents == TokenCents(s[i..m.end])
  {
    MatchAtIsToken(s, i);
    forall e' | MatchAt(s, i).value.end < e' <= |s| ensures !IsToken(s[i..e']) {
      MatchAtLongest(s, i, e');
    }
  }

  /** Where the scanner finds nothing, no token starts. */
  lemma MatchAtComplete(s: seq<char>, i: nat)
    requires i <= |s|
    requires MatchAt(s, i).None?
    ensures !StartsToken(s, i)
  {
    if StartsToken(s, i) {
      var e :| i < e <= |s| && IsToken(s[i..e]);
      assert s[i] == s[i..e][0];
      var j := SkipSpaces(s, i + 1);
      assert s[i..e][1..] == s[i + 1..e];
      NumberStartsWithDigit(Amount(s[i..e]));
      if e <= j {
        DropSpacesAll(s, i + 1, e);
      } else {
        DropSpacesSlice(s, i + 1, j, e);
      }
    }
  }

  lemma NoDollarNoMatch(s: seq<char>, i: nat)
    requires i <= |s|
    ensures '$' !in s ==> FindAll(s, i) == []
    decreases |s| - i
  {
    if i < |s| && '$' !in s {
      assert s[i] in s;
      NoDollarNoMatch(s, i + 1);
    }
  }

  // ---------------------------------------------------------------------
  // `re.finditer` semantics

  /** A match as `re.finditer` reports it: a longest token at its start, with
      the token's value. */
  ghost predicate Found(s: seq<char>, m: Match) {
    LongestAt(s, m.start, m.end) && m.cents == TokenCents(s[m.start..m.end])
  }

  /** Every match is a found one at or after `i`. */
  ghost predicate AllFound(s: seq<char>, i: nat, ms: seq<Match>) {
    forall k :: 0 <= k < |ms| ==> i <= ms[k].start && Found(s, ms[k])
  }

  /** Each match ends before the next one starts. */
  ghost predicate Ordered(ms: seq<Match>) {
    forall k :: 0 <= k < |ms| - 1 ==> ms[k].end <= ms[k + 1].start
  }

  /** Position `p` lies inside one of the matches. */
  ghost predicate Inside(ms: seq<Match>, p: nat) {
    exists k :: 0 <= k < |ms| && ms[k].start <= p < ms[k].end
  }

  /** Every position from `i` on where a token starts lies inside a match. */
  ghost predicate Covers(s: seq<char>, i: nat, ms: seq<Match>) {
    forall p :: i <= p < |s| && StartsToken(s, p) ==> Inside(ms, p)
  }

  lemma InsideCons(m: Match, rest: seq<Match>, p: nat)
    requires m.start <= p < m.end || Inside(rest, p)
    ensures Inside([m] + rest, p)
  {
    var ms := [m] + rest;
    if m.start <= p < m.end {
      assert ms[0] == m;
    } else {
      var k :| 0 <= k < |rest| && rest[k].start <= p < rest[k].end;
      assert ms[k + 1] == rest[k];
    }
  }

  /** A position inside a list but past its first match is inside the rest. */
  lemma InsideTail(ms: seq<Match>, p: nat)
    requires Inside(ms, p) && |ms| > 0 && ms[0].end <= p
    ensures Inside(ms[1..], p)
  {
    var k :| 0 <= k < |ms| && ms[k].start <= p < ms[k].end;
    assert k != 0;
    assert ms[1..][k - 1] == ms[k];
  }

  /** `ms` is what `re.finditer` yields on `s` from position `i`: matches
      found at or after `i`, in order, non-overlapping, and such that every
      position where a token starts lies inside one of them. */
  ghost predicate Finditer(s: seq<char>, i: nat, ms: seq<Match>) {
    AllFound(s, i, ms) && Ordered(ms) && Covers(s, i, ms)
  }

  /** The scanner's list of matches is the `re.finditer` one. */
  lemma {:induction false} FindAllSpec(s: seq<char>, i: nat)
    requires i <= |s|
    ensures Finditer(s, i, FindAll(s, i))
    decreases |s| - i
  {
    if i == |s| {
      FindAllAtEnd(s);
    } else {
      var r := MatchAt(s, i);
      if r.Some? {
        assert i < r.value.end <= |s| by {
          FindAllHit(s, i, r.value);
        }
        FindAllSpec(s, r.value.end);
        FindAllSpecHit(s, i, r.value);
      } else {
        FindAllSpec(s, i + 1);
        FindAllSpecMiss(s, i);
      }
    }
  }

  lemma FindAllAtEnd(s: seq<char>)
    ensures Finditer(s, |s|, FindAll(s, |s|))
  {
    assert FindAll(s, |s|) == [];
  }

  lemma FindAllSpecHit(s: seq<char>, i: nat, m: Match)
    requires i < |s| && MatchAt(s, i) == Some(m) && m.end <= |s|
    requires Finditer(s, m.end, FindAll(s, m.end))
    ensures Finditer(s, i, FindAll(s, i))
  {
    FindAllHit(s, i, m);
    FinditerCons(s, i, m, FindAll(s, m.end));
  }

  lemma FindAllSpecMiss(s: seq<char>, i: nat)
    requires i < |s| && MatchAt(s, i).None?
    requires Finditer(s, i + 1, FindAll(s, i + 1))
    ensures Finditer(s, i, FindAll(s, i))
  {
    FindAllMiss(s, i);
    FinditerSkip(s, i, FindAll(s, i + 1));
  }

  /** Where the scanner matches, the match is found and scanning resumes at
      its end. */
  lemma FindAllHit(s: seq<char>, i: nat, m: Match)
    requires i < |s| && MatchAt(s, i) == Some(m)
    ensures m.start == i < m.end <= |s| && Found(s, m)
    ensures FindAll(s, i) == [m] + FindAll(s, m.end)
  {
    MatchAtSound(s, i);
  }

  /** Where the scanner does not match, no token starts and scanning moves on
      by one. */
  lemma FindAllMiss(s: seq<char>, i: nat)
    requires i < |s| && MatchAt(s, i).None?
    ensures !StartsToken(s, i)
    ensures FindAll(s, i) == FindAll(s, i + 1)
  {
    MatchAtComplete(s, i);
  }

  /** A position where no token starts adds nothing to the answer. */
  lemma FinditerSkip(s: seq<char>, i: nat, ms: seq<Match>)
    requires !StartsToken(s, i)
    requires Finditer(s, i + 1, ms)
    ensures Finditer(s, i, ms)
  {
    CoversSkip(s, i, ms);
  }

  lemma CoversSkip(s: seq<char>, i: nat, ms: seq<Match>)
    requires !StartsToken(s, i)
    requires Covers(s, i + 1, ms)
    ensures Covers(s, i, ms)
  {
    forall p | i <= p < |s| && StartsToken(s, p) ensures Inside(ms, p) {
      assert p != i;
    }
  }

  /** A longest match at `i` followed by the answer from its end is the answer
      from `i`. */
  lemma FinditerCons(s: seq<char>, i: nat, m: Match, rest: seq<Match>)
    requires m.start == i && Found(s, m)
    requires Finditer(s, m.end, rest)
    ensures Finditer(s, i, [m] + rest)
  {
    AllFoundCons(s, i, m, rest);
    OrderedCons(m, rest);
    CoversCons(s, i, m, rest);
  }

  lemma AllFoundCons(s: seq<char>, i: nat, m: Match, rest: seq<Match>)
    requires i == m.start < m.end && Found(s, m)
    requires AllFound(s, m.end, rest)
    ensures AllFound(s, i, [m] + rest)
    ensures |rest| > 0 ==> m.end <= rest[0].start
  {
    var ms := [m] + rest;
    forall k | 0 <= k < |ms| ensures i <= ms[k].start && Found(s, ms[k]) {
      if k > 0 { assert ms[k] == rest[k - 1]; }
    }
  }

  lemma OrderedCons(m: Match, rest: seq<Match>)
    requires Ordered(rest)
    requires |rest| > 0 ==> m.end <= rest[0].start
    ensures Ordered([m] + rest)
  {
    var ms := [m] + rest;
    forall k | 0 <= k < |ms| - 1 ensures ms[k].end <= ms[k + 1].start {
      if k > 0 { assert ms[k] == rest[k - 1]; }
      assert ms[k + 1] == rest[k];
    }
  }

  lemma CoversCons(s: seq<char>, i: nat, m: Match, rest: seq<Match>)
    requires i == m.start < m.end
    requires Covers(s, m.end, rest)
    ensures Covers(s, i, [m] + rest)
  {
    forall p | i <= p < |s| && StartsToken(s, p) ensures Inside([m] + rest, p) {
      InsideCons(m, rest, p);
    }
  }

  lemma {:induction false} OrderedChain(ms: seq<Match>, a: nat, b: nat)
    requires Ordered(ms)
    requires forall k :: 0 <= k < |ms| ==> ms[k].start < ms[k].end
    requires a < b < |ms|
    ensures ms[a].end <= ms[b].start
    decreases b - a
  {
    if a + 1 < b {
      OrderedChain(ms, a + 1, b);
    }
  }

  /** Matches are non-empty, so an ordered list is ordered pairwise. */
  lemma FoundOrdered(s: seq<char>, i: nat, ms: seq<Match>, a: nat, b: nat)
    requires AllFound(s, i, ms) && Ordered(ms)
    requires a < b < |ms|
    ensures ms[a].end <= ms[b].start
  {
    forall k | 0 <= k < |ms| ensures ms[k].start < ms[k].end {
      assert Found(s, ms[k]);
    }
    OrderedChain(ms, a, b);
  }

  /** A match that starts first ends after every earlier token start. */
  lemma FirstMatch(s: seq<char>, i: nat, ms: seq<Match>, p: nat)
    requires Finditer(s, i, ms) && |ms| > 0
    requires i <= p < |s| && StartsToken(s, p)
    ensures ms[0].start <= p
  {
    var k :| 0 <= k < |ms| && ms[k].start <= p < ms[k].end;
    if k > 0 {
      FoundOrdered(s, i, ms, 0, k);
      assert Found(s, ms[0]);
    }
  }

  /** `re.finditer` has exactly one answer. */
  lemma {:induction false} FinditerUnique(s: seq<char>, i: nat, ms: seq<Match>, ms': seq<Match>)
    requires i <= |s|
    requires Finditer(s, i, ms) && Finditer(s, i, ms')
    ensures ms == ms'
    decreases |s| - i
  {
    if |ms| == 0 || |ms'| == 0 {
      if |ms| == 0 {
        FinditerEmpty(s, i, ms, ms');
      } else {
        FinditerEmpty(s, i, ms', ms);
      }
    } else {
      FinditerHead(s, i, ms, ms');
      FinditerTail(s, i, ms);
      FinditerTail(s, i, ms');
      FinditerUnique(s, ms[0].end, ms[1..], ms'[1..]);
      SameHeadSameTail(ms, ms');
    }
  }

  /** Two answers agree on their first match. */
  lemma FinditerHead(s: seq<char>, i: nat, ms: seq<Match>, ms': seq<Match>)
    requires Finditer(s, i, ms) && Finditer(s, i, ms')
    requires |ms| > 0 && |ms'| > 0
    ensures ms[0] == ms'[0]
  {
    FoundStarts(s, i, ms');
    FoundStarts(s, i, ms);
    FirstMatch(s, i, ms, ms'[0].start);
    FirstMatch(s, i, ms', ms[0].start);
    FoundUnique(s, ms[0], ms'[0]);
  }

  /** Two found matches with the same start are the same match. */
  lemma FoundUnique(s: seq<char>, a: Match, b: Match)
    requires Found(s, a) && Found(s, b) && a.start == b.start
    ensures a == b
  {
    LongestUnique(s, a.start, a.end, b.end);
  }

  lemma FoundStarts(s: seq<char>, i: nat, ms: seq<Match>)
    requires AllFound(s, i, ms) && |ms| > 0
    ensures Found(s, ms[0])
    ensures i <= ms[0].start < |s| && StartsToken(s, ms[0].start)
  {
    var m := ms[0];
    assert Found(s, m);
    assert m.start < m.end <= |s| && IsToken(s[m.start..m.end]);
  }

  lemma SameHeadSameTail<T>(xs: seq<T>, ys: seq<T>)
    requires |xs| > 0 && |ys| > 0 && xs[0] == ys[0] && xs[1..] == ys[1..]
    ensures xs == ys
  {
    assert xs == [xs[0]] + xs[1..];
    assert ys == [ys[0]] + ys[1..];
  }

  /** When one answer is empty, no token starts and so the other is empty. */
  lemma FinditerEmpty(s: seq<char>, i: nat, ms: seq<Match>, ms': seq<Match>)
    requires Covers(s, i, ms) && AllFound(s, i, ms')
    requires |ms| == 0
    ensures |ms'| == 0
  {
    if |ms'| > 0 {
      FoundStarts(s, i, ms');
    }
  }

  lemma LongestUnique(s: seq<char>, p: nat, e1: nat, e2: nat)
    requires LongestAt(s, p, e1) && LongestAt(s, p, e2)
    ensures e1 == e2
  {
  }

  /** Dropping the first match leaves the answer from its end. */
  lemma FinditerTail(s: seq<char>, i: nat, ms: seq<Match>)
    requires Finditer(s, i, ms) && |ms| > 0
    ensures ms[0].end <= |s|
    ensures Finditer(s, ms[0].end, ms[1..])
  {
    AllFoundTail(s, i, ms);
    assert Found(s, ms[0]);
    CoversTail(s, i, ms);
  }

  lemma AllFoundTail(s: seq<char>, i: nat, ms: seq<Match>)
    requires AllFound(s, i, ms) && Ordered(ms) && |ms| > 0
    ensures ms[0].end <= |s|
    ensures AllFound(s, ms[0].end, ms[1..])
  {
    assert Found(s, ms[0]);
    var rest := ms[1..];
    forall k | 0 <= k < |rest| ensures ms[0].end <= rest[k].start && Found(s, rest[k]) {
      assert rest[k] == ms[k + 1];
      FoundOrdered(s, i, ms, 0, k + 1);
    }
  }

  lemma CoversTail(s: seq<char>, i: nat, ms: seq<Match>)
    requires Covers(s, i, ms) && |ms| > 0 && i <= ms[0].start <= ms[0].end
    ensures Covers(s, ms[0].end, ms[1..])
  {
    forall p | ms[0].end <= p < |s| && StartsToken(s, p) ensures Inside(ms[1..], p) {
      InsideTail(ms, p);
    }
  }

  /** `parse_amounts` is the sum of the values of the matches `re.finditer`
      yields on the text, whichever way that list is described. */
  lemma ParseAmountsSpec(s: seq<char>, ms: seq<Match>)
    requires Finditer(s, 0, ms)
    ensures ParseAmounts(Some(s)) == Total(ms)
  {
    FindAllSpec(s, 0);
    FinditerUnique(s, 0, FindAll(s, 0), ms);
  }

  /** Text in which no token starts yields 0. */
  lemma NoTokenIsZero(s: seq<char>)
    requires forall p :: 0 <= p < |s| ==> !StartsToken(s, p)
    ensures ParseAmounts(Some(s)) == 0
  {
    FindAllSpec(s, 0);
    FinditerEmpty(s, 0, [], FindAll(s, 0));
  }
}
