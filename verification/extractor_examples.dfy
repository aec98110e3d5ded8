/** Worked inputs for the extractor: `$1,234.56 and $5`, a sub-cent amount,
    and a digit run longer than a thousands group. */
module ExtractorExamples {
  import opened Wrappers
  import opened Chars
  import opened MoneyPattern
  import opened Extractor

  lemma FindAllStep(s: seq<char>, i: nat)
    requires i < |s| && s[i] != '$'
    ensures FindAll(s, i) == FindAll(s, i + 1)
  {
  }

  /** The scanner's match at a `$` directly followed by the integer part
      `s[i + 1..g]`, from its parts. */
  lemma MatchFromParts(s: seq<char>, i: nat, g: nat, v: nat)
    requires i + 1 < |s| && s[i] == '$' && IsDigit(s[i + 1])
    requires IntEnd(s, i + 1) == g
    requires AllDigits(StripCommas(s[i + 1..g])) && DecimalValue(StripCommas(s[i + 1..g])) == v
    ensures MatchAt(s, i) == Some(Match(i, FracEnd(s, g), 100 * v + FracCents(s, g)))
  {
    assert SkipSpaces(s, i + 1) == i + 1;
  }

  lemma TotalPair(a: Match, b: Match)
    ensures Total([a, b]) == a.cents + b.cents
  {
    assert [a, b][1..] == [b];
    TotalOne(b);
  }

  lemma TotalOne(a: Match)
    ensures Total([a]) == a.cents
  {
    assert [a][1..] == [];
  }

  lemma StripThousand()
    ensures StripCommas("1,234") == "1234"
  {
    assert "1,234"[..4] == "1,23";
    assert "1,23"[..3] == "1,2";
    assert "1,2"[..2] == "1,";
    assert "1,"[..1] == "1";
    assert "1"[..0] == "";
  }

  lemma ValueThousand()
    ensures AllDigits("1234") && DecimalValue("1234") == 1234
  {
    assert "1234"[..3] == "123";
    assert "123"[..2] == "12";
    assert "12"[..1] == "1";
    assert "1"[..0] == "";
  }

  /** `1,234` read as an integer part is 1234. */
  lemma OneThousandText()
    ensures AllDigits(StripCommas("1,234"))
    ensures DecimalValue(StripCommas("1,234")) == 1234
  {
    StripThousand();
    ValueThousand();
  }

  /** A one-digit integer part `d` is worth `d`. */
  lemma OneDigitText(d: char)
    requires IsDigit(d)
    ensures AllDigits(StripCommas([d]))
    ensures DecimalValue(StripCommas([d])) == DigitValue(d)
  {
    assert [d][..0] == [];
    assert StripCommas([d]) == [d];
  }

  /** `s` starts with `$1,234`. */
  predicate ThousandAhead(s: string) {
    |s| >= 6 && s[0] == '$' && s[1] == '1' && s[2] == ',' && s[3] == '2' && s[4] == '3' && s[5] == '4'
  }

  /** The integer part `1,234` after the `$` at 0 is worth 1234. */
  lemma ThousandValue(s: string)
    requires ThousandAhead(s)
    ensures AllDigits(StripCommas(s[1..6])) && DecimalValue(StripCommas(s[1..6])) == 1234
  {
    assert s[1..6] == "1,234";
    OneThousandText();
  }

  /** The scanner's integer part after the `$` at 0 is `1,234` when no
      further group follows. */
  lemma ThousandGroupEnd(s: string)
    requires ThousandAhead(s)
    requires |s| > 6 ==> s[6] != ','
    ensures IntEnd(s, 1) == 6
  {
    assert DigitsEnd(s, 2) == 2;
    assert DigitsEnd(s, 1) == 2;
    assert GroupsEnd(s, 6) == 6;
    assert GroupsEnd(s, 2) == 6;
  }

  /** A lone digit followed by neither a digit nor a comma is the whole
      integer part. */
  lemma OneDigitEnd(s: string, j: nat)
    requires j < |s| && IsDigit(s[j])
    requires j + 1 < |s| ==> !IsDigit(s[j + 1]) && s[j + 1] != ','
    ensures IntEnd(s, j) == j + 1 && s[j..j + 1] == [s[j]]
  {
    assert DigitsEnd(s, j + 1) == j + 1;
    assert GroupsEnd(s, j + 1) == j + 1;
  }

  function Sample(): string {
    "$1,234.56 and $5"
  }

  lemma SampleFirst(s: string)
    requires ThousandAhead(s) && |s| >= 9 && s[6] == '.' && s[7] == '5' && s[8] == '6'
    ensures MatchAt(s, 0) == Some(Match(0, 9, 123456))
  {
    assert FracEnd(s, 6) == 9 && FracCents(s, 6) == 56 by {
      assert IsDigit(s[7]) && IsDigit(s[8]);
      assert DigitValue('5') == 5 && DigitValue('6') == 6;
    }
    ThousandGroupEnd(s);
    ThousandValue(s);
    MatchFromParts(s, 0, 6, 1234);
  }

  lemma SampleSecond(s: string)
    requires |s| == 16 && s[14] == '$' && s[15] == '5'
    ensures MatchAt(s, 14) == Some(Match(14, 16, 500))
  {
    assert IntEnd(s, 15) == 16 && AllDigits(StripCommas(s[15..16]))
        && DecimalValue(StripCommas(s[15..16])) == 5 by {
      OneDigitEnd(s, 15);
      assert s[15..16] == ['5'];
      OneDigitText('5');
    }
    assert FracEnd(s, 16) == 16 && FracCents(s, 16) == 0;
    MatchFromParts(s, 14, 16, 5);
  }

  /** Scanning passes over a stretch without `$` unchanged. */
  lemma {:induction false} FindAllSkip(s: seq<char>, i: nat, j: nat)
    requires i <= j <= |s|
    requires '$' !in s[i..j]
    ensures FindAll(s, i) == FindAll(s, j)
    decreases j - i
  {
    if i < j {
      assert s[i] == s[i..j][0];
      assert s[i + 1..j] == s[i..j][1..];
      FindAllSkip(s, i + 1, j);
    }
  }

  lemma SampleText(s: string)
    requires s == Sample()
    ensures |s| == 16 && ThousandAhead(s) && s[6] == '.' && s[7] == '5' && s[8] == '6'
    ensures '$' !in s[9..14] && s[14] == '$' && s[15] == '5'
  {
    assert s[9..14] == " and ";
  }

  lemma SampleScan(s: string, a: Match, b: Match)
    requires |s| == 16 && '$' !in s[9..14]
    requires a == Match(0, 9, 123456) && MatchAt(s, 0) == Some(a)
    requires b == Match(14, 16, 500) && MatchAt(s, 14) == Some(b)
    ensures FindAll(s, 0) == [a, b]
  {
    FindAllHit(s, 14, b);
    assert FindAll(s, 16) == [];
    FindAllSkip(s, 9, 14);
    FindAllHit(s, 0, a);
  }

  /** `$1,234.56 and $5` is worth $1,239.56. */
  lemma SampleAmount()
    ensures ParseAmounts(Some(Sample())) == 123956
  {
    var s := Sample();
    SampleText(s);
    SampleFirst(s);
    SampleSecond(s);
    SampleScan(s, Match(0, 9, 123456), Match(14, 16, 500));
    TotalPair(Match(0, 9, 123456), Match(14, 16, 500));
  }

  function SubCent(): string {
    "$0.001"
  }

  /** `.00` is a fraction worth no cents. */
  lemma ZeroCents(s: string, g: nat)
    requires g + 3 <= |s| && s[g] == '.' && s[g + 1] == '0' && s[g + 2] == '0'
    ensures FracEnd(s, g) == g + 3 && FracCents(s, g) == 0
  {
    assert IsDigit(s[g + 1]) && IsDigit(s[g + 2]);
    assert DigitValue('0') == 0;
  }

  lemma SubCentMatch(s: string)
    requires |s| >= 5 && s[0] == '$' && s[1] == '0' && s[2] == '.' && s[3] == '0' && s[4] == '0'
    ensures MatchAt(s, 0) == Some(Match(0, 5, 0))
  {
    assert IntEnd(s, 1) == 2 && AllDigits(StripCommas(s[1..2])) && DecimalValue(StripCommas(s[1..2])) == 0 by {
      OneDigitEnd(s, 1);
      assert s[1..2] == ['0'];
      OneDigitText('0');
    }
    assert FracEnd(s, 2) == 5 && FracCents(s, 2) == 0 by {
      ZeroCents(s, 2);
    }
    MatchFromParts(s, 0, 2, 0);
  }

  /** In `$0.001` the pattern takes `$0.00` and leaves the `1`: the amount is 0. */
  lemma SubCentAmount()
    ensures ParseAmounts(Some(SubCent())) == 0
  {
    var s := SubCent();
    assert |s| == 6 && s[0] == '$' && s[1] == '0' && s[2] == '.' && s[3] == '0' && s[4] == '0' && s[5] == '1';
    SubCentMatch(s);
    FindAllStep(s, 5);
    FindAllHit(s, 0, Match(0, 5, 0));
    TotalOne(Match(0, 5, 0));
  }

  function LongGroup(): string {
    "$1,2345"
  }

  lemma LongGroupMatch(s: string)
    requires |s| == 7 && ThousandAhead(s) && s[6] == '5'
    ensures MatchAt(s, 0) == Some(Match(0, 6, 123400))
  {
    assert FracEnd(s, 6) == 6 && FracCents(s, 6) == 0;
    ThousandGroupEnd(s);
    ThousandValue(s);
    MatchFromParts(s, 0, 6, 1234);
  }

  /** In `$1,2345` the grouped alternative wins with one group: the match is
      `$1,234`, worth $1,234.00, and the trailing `5` is not part of it. */
  lemma LongGroupAmount()
    ensures ParseAmounts(Some(LongGroup())) == 123400
  {
    var s := LongGroup();
    assert |s| == 7 && ThousandAhead(s) && s[6] == '5';
    LongGroupMatch(s);
    FindAllStep(s, 6);
    FindAllHit(s, 0, Match(0, 6, 123400));
    TotalOne(Match(0, 6, 123400));
  }
}
