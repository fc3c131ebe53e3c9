/**
The season a title names (parseSeason in internal/torznab/title.go) and the distributor suffix it may carry:
the expressions as hand-written matchers, the two loops over their matches, and the Roman numeral at the end.
*/
module Seasons {
  import opened Common
  import opened Runes
  import opened Decimal
  import opened QueryTokens
  import opened Whitespace

  // ---------- the expressions ----------

  /** explicitSeason: Season or Series, white space and a number; or S and a number. */
  function ExplicitAt(s: string, i: nat): (end: Option<nat>)
    ensures end.Some? ==> i < end.value <= |s| && LetterAt(s, i, 's') && IsAsciiDigit(s[end.value - 1])
  {
    if !LetterAt(s, i, 's') then None
    else
      Or(WordNumber(s, i, "season"),
      Or(WordNumber(s, i, "series"),
         Number(s, SpacesEnd(s, i + 1))))
  }

  predicate SuffixAt(s: string, i: nat) {
    WordAt(s, i, "st") || WordAt(s, i, "nd") || WordAt(s, i, "rd") || WordAt(s, i, "th")
  }

  /** ordinalSeason: a number with an ordinal suffix, white space and Season. */
  function OrdinalAt(s: string, i: nat): (end: Option<nat>)
    ensures end.Some? ==> i < |s| && i < DigitsEnd(s, i) && DigitsEnd(s, i) + 2 < end.value <= |s|
  {
    match Number(s, i)
    case None => None
    case Some(j) =>
      if !SuffixAt(s, j) then None
      else match Spaces(s, j + 2)
           case None => None
           case Some(k) => if WordAt(s, k, "season") then Some(k + |"season"|) else None
  }

  datatype Expression = Explicit | Ordinal {
    function At(s: string, i: nat): (end: Option<nat>)
      ensures end.Some? ==> i < end.value <= |s|
    {
      match this case Explicit => ExplicitAt(s, i) case Ordinal => OrdinalAt(s, i)
    }

    /** FindAllStringIndex from i on. */
    function Every(s: string, i: nat): (spans: seq<Span>)
      ensures forall k :: 0 <= k < |spans| ==>
                i <= spans[k].0 < spans[k].1 <= |s| && At(s, spans[k].0) == Some(spans[k].1)
      decreases |s| - i
    {
      if i >= |s| then []
      else match At(s, i)
           case Some(end) => [(i, end)] + Every(s, end)
           case None => Every(s, i + 1)
    }
  }

  /** The first run of digits. */
  function FirstNumber(s: string, i: nat): string
    requires i <= |s|
    decreases |s| - i
  {
    if i == |s| then ""
    else if IsAsciiDigit(s[i]) then s[i..DigitsEnd(s, i)]
    else FirstNumber(s, i + 1)
  }

  // ---------- ordinals ----------

  /** englishOrdinalSuffix. */
  function EnglishSuffix(value: nat): (suffix: string)
    ensures suffix in {"st", "nd", "rd", "th"}
  {
    if 11 <= value % 100 <= 13 then "th"
    else match value % 10
         case 1 => "st"
         case 2 => "nd"
         case 3 => "rd"
         case _ => "th"
  }

  // ---------- Roman numerals ----------

  const ROMAN: seq<string> := [
    "", "I", "II", "III", "IV", "V", "VI", "VII", "VIII", "IX", "X",
    "XI", "XII", "XIII", "XIV", "XV", "XVI", "XVII", "XVIII", "XIX", "XX"]

  /** The first number from n on with this canonical form. */
  function RomanFrom(value: string, n: nat): (r: Option<nat>)
    requires n <= |ROMAN|
    ensures r.Some? ==> n <= r.value < |ROMAN| && ROMAN[r.value] == value
    ensures r.None? ==> forall k :: n <= k < |ROMAN| ==> ROMAN[k] != value
    decreases |ROMAN| - n
  {
    if n == |ROMAN| then None else if ROMAN[n] == value then Some(n) else RomanFrom(value, n + 1)
  }

  /** romanSeason. */
  method RomanSeason(value: string) returns (r: Option<nat>)
    ensures r == RomanFrom(value, 1)
  {
    var number := 1;
    while number < |ROMAN|
      invariant 1 <= number <= |ROMAN| && RomanFrom(value, 1) == RomanFrom(value, number)
    {
      if value == ROMAN[number] {
        return Some(number);
      }
      number := number + 1;
    }
    r := None;
  }

  predicate IsRomanLetter(r: char) {
    r in "IVXLCDMivxlcdm"
  }

  function RomanStart(s: string, i: nat): (start: nat)
    requires i <= |s|
    ensures start <= i && forall k :: start <= k < i ==> IsRomanLetter(s[k])
    ensures start > 0 ==> !IsRomanLetter(s[start - 1])
  {
    if i > 0 && IsRomanLetter(s[i - 1]) then RomanStart(s, i - 1) else i
  }

  /** trailingRoman: Roman letters at the end, at the start of the text or after white space. */
  function TrailingRoman(s: string): Option<string> {
    var start := RomanStart(s, |s|);
    if start < |s| && (start == 0 || IsSpace(s[start - 1])) then Some(s[start..]) else None
  }

  function UpperRune(r: char): char {
    if 'a' <= r <= 'z' then (r as int - 32) as char else r
  }

  function Upper(s: string): string {
    seq(|s|, i requires 0 <= i < |s| => UpperRune(s[i]))
  }

  predicate FourDigits(s: string, i: int) {
    0 <= i && i + 4 <= |s| && forall k :: i <= k < i + 4 ==> IsAsciiDigit(s[k])
  }

  /** trailingYear: four digits at the end, in parentheses or not, with the white space around them. */
  function WithoutYear(s: string): string {
    var end := SpacesStart(s, |s|);
    if FourDigits(s, end - 4) then s[..SpacesStart(s, end - 4)]
    else if end >= 6 && s[end - 6] == '(' && s[end - 1] == ')' && FourDigits(s, end - 5) then
      s[..SpacesStart(s, end - 6)]
    else s
  }

  function RomanOf(semantic: string): (r: Option<nat>)
    ensures r.Some? ==> 1 <= r.value < |ROMAN|
  {
    match TrailingRoman(TrimSpace(WithoutYear(semantic)))
    case None => None
    case Some(letters) => RomanFrom(Upper(letters), 1)
  }

  // ---------- the distributor suffix ----------

  predicate WordBefore(s: string, end: int, word: string)
    requires forall k :: 0 <= k < |word| ==> 'a' <= word[k] <= 'z'
  {
    |word| <= end <= |s| && WordAt(s, end - |word|, word)
  }

  /** Where the distributor's name starts whose last rune stands before end. */
  function NameStart(s: string, end: int): (start: Option<nat>)
    ensures start.Some? ==> start.value <= |s|
  {
    if WordBefore(s, end, "aniliberty") || WordBefore(s, end, "anilibria") then
      Some(if WordBefore(s, end, "aniliberty") then end - |"aniliberty"| else end - |"anilibria"|)
    else None
  }

  function NameWithDomainStart(s: string, end: int): (start: Option<nat>)
    ensures start.Some? ==> start.value <= |s|
  {
    Or(NameStart(s, end),
    Or(if WordBefore(s, end, "top") && end >= 4 && s[end - 4] == '.' then NameStart(s, end - 4) else None,
       if WordBefore(s, end, "tv") && end >= 3 && s[end - 3] == '.' then NameStart(s, end - 3) else None))
  }

  /** distributorSuffix: the text without a final dash and distributor, and the white space around them. */
  function WithoutDistributor(s: string): string {
    match NameWithDomainStart(s, SpacesStart(s, |s|))
    case None => s
    case Some(name) =>
      var dash := SpacesStart(s, name);
      if dash > 0 && s[dash - 1] == '-' then s[..SpacesStart(s, dash - 1)] else s
  }

  // ---------- which season is named ----------

  predicate IsComplete(x: Expression, semantic: string, u: Tables, k: nat) {
    var spans := x.Every(semantic, 0);
    k < |spans| && CompleteToken(semantic, spans[k].0, spans[k].1, u)
  }

  /** The first complete match. */
  ghost predicate FirstExplicit(semantic: string, u: Tables, k: nat) {
    IsComplete(Explicit, semantic, u, k) && forall j :: 0 <= j < k ==> !IsComplete(Explicit, semantic, u, j)
  }

  /** A match of the explicit expression settles the season, or that there is none worth guessing. */
  function ExplicitSays(semantic: string, span: Span): (r: Option<nat>)
    requires span.0 <= span.1 <= |semantic|
    ensures r.Some? ==> 1 <= r.value <= MAX_SEASON
  {
    if ContinuesAfter(semantic, span.1, false) then None
    else BoundedPositive(FirstNumber(semantic[span.0..span.1], 0), MAX_SEASON)
  }

  function OrdinalNumber(semantic: string, span: Span): (r: Option<nat>)
    requires span.0 <= span.1 <= |semantic|
    ensures r.Some? ==> 1 <= r.value <= MAX_SEASON
  {
    BoundedPositive(semantic[span.0..DigitsEnd(semantic, span.0)], MAX_SEASON)
  }

  /** An ordinal out of range, or one with the right English suffix, settles the season. */
  predicate Settled(semantic: string, span: Span)
    requires span.0 <= span.1 <= |semantic|
  {
    var n := OrdinalNumber(semantic, span);
    n.None? || WordAt(semantic, DigitsEnd(semantic, span.0), EnglishSuffix(n.value))
  }

  predicate IsSettled(semantic: string, u: Tables, k: nat) {
    IsComplete(Ordinal, semantic, u, k) && Settled(semantic, Ordinal.Every(semantic, 0)[k])
  }

  ghost predicate FirstSettled(semantic: string, u: Tables, k: nat) {
    IsSettled(semantic, u, k) && forall j :: 0 <= j < k ==> !IsSettled(semantic, u, j)
  }

  /**
  The season a title names: the first complete explicit match says it, or that there is none; without one, the
  first ordinal that settles it; without either, the Roman numeral at the end.
  */
  ghost predicate Names(semantic: string, u: Tables, season: Option<nat>) {
    && (forall k: nat :: FirstExplicit(semantic, u, k) ==>
          season == ExplicitSays(semantic, Explicit.Every(semantic, 0)[k]))
    && ((forall k: nat :: !FirstExplicit(semantic, u, k)) ==>
          && (forall k: nat :: FirstSettled(semantic, u, k) ==>
                season == OrdinalNumber(semantic, Ordinal.Every(semantic, 0)[k]))
          && ((forall k: nat :: !FirstSettled(semantic, u, k)) ==> season == RomanOf(semantic)))
  }

  lemma NamesOneSeason(semantic: string, u: Tables, a: Option<nat>, b: Option<nat>)
    requires Names(semantic, u, a) && Names(semantic, u, b)
    ensures a == b
  {
    hide FirstExplicit, FirstSettled, RomanOf, ExplicitSays, OrdinalNumber;
    if k: nat :| FirstExplicit(semantic, u, k) {
      assert a == b;
    } else if k: nat :| FirstSettled(semantic, u, k) {
      assert a == b;
    }
  }

  lemma ExplicitDecides(semantic: string, u: Tables, k: nat)
    requires FirstExplicit(semantic, u, k)
    ensures Names(semantic, u, ExplicitSays(semantic, Explicit.Every(semantic, 0)[k]))
  {
    hide Expression.Every, ExplicitSays, OrdinalNumber, RomanOf, IsComplete, FirstSettled;
    forall j: nat | FirstExplicit(semantic, u, j) ensures j == k {
      assert !(j < k) && !(k < j);
    }
  }

  lemma OrdinalDecides(semantic: string, u: Tables, k: nat)
    requires FirstSettled(semantic, u, k) && forall j: nat :: !FirstExplicit(semantic, u, j)
    ensures Names(semantic, u, OrdinalNumber(semantic, Ordinal.Every(semantic, 0)[k]))
  {
    hide Expression.Every, ExplicitSays, OrdinalNumber, RomanOf, FirstExplicit, IsSettled;
    forall j: nat | FirstSettled(semantic, u, j) ensures j == k {
      assert !(j < k) && !(k < j);
    }
  }

  lemma RomanDecides(semantic: string, u: Tables)
    requires forall j: nat :: !FirstExplicit(semantic, u, j) && !FirstSettled(semantic, u, j)
    ensures Names(semantic, u, RomanOf(semantic))
  {
  }

  /** parseSeason. */
  method ParseSeason(semantic: string, u: Tables) returns (r: Option<nat>)
    ensures Names(semantic, u, r)
    ensures r.Some? ==> 1 <= r.value <= MAX_SEASON
  {
    hide ContinuesAfter, BoundedPositive, ExplicitAt, OrdinalAt, RomanFrom, RomanOf, TrimSpace, WithoutYear;
    hide Expression.Every, CompleteToken, EnglishSuffix;
    var explicit := Explicit.Every(semantic, 0);
    for k := 0 to |explicit|
      invariant forall j :: 0 <= j < k ==> !IsComplete(Explicit, semantic, u, j)
    {
      var span := explicit[k];
      if !CompleteToken(semantic, span.0, span.1, u) {
        continue;
      }
      assert FirstExplicit(semantic, u, k);
      var continued := HasNumericContinuationAfter(semantic, span.1, false);
      ExplicitDecides(semantic, u, k);
      if continued {
        return None;
      }
      return BoundedPositive(FirstNumber(semantic[span.0..span.1], 0), MAX_SEASON);
    }
    assert forall k: nat :: !FirstExplicit(semantic, u, k);
    var ordinal := Ordinal.Every(semantic, 0);
    for k := 0 to |ordinal|
      invariant forall j :: 0 <= j < k ==> !IsSettled(semantic, u, j)
    {
      var span := ordinal[k];
      if !CompleteToken(semantic, span.0, span.1, u) {
        continue;
      }
      var digits := DigitsEnd(semantic, span.0);
      var value := BoundedPositive(semantic[span.0..digits], MAX_SEASON);
      if value.None? {
        OrdinalDecides(semantic, u, k);
        return None;
      }
      if WordAt(semantic, digits, EnglishSuffix(value.value)) {
        OrdinalDecides(semantic, u, k);
        return value;
      }
    }
    assert forall k: nat :: !FirstSettled(semantic, u, k);
    r := ParseRoman(semantic);
    RomanDecides(semantic, u);
  }

  method ParseRoman(semantic: string) returns (r: Option<nat>)
    ensures r == RomanOf(semantic)
  {
    hide RomanFrom, TrimSpace, WithoutYear;
    var withoutYear := TrimSpace(WithoutYear(semantic));
    var letters := TrailingRoman(withoutYear);
    if letters.Some? {
      r := RomanSeason(Upper(letters.value));
    } else {
      r := None;
    }
  }

  // ---------- what is written is read ----------

  lemma {:induction false} NoMatch(x: Expression, s: string, i: nat)
    requires forall p :: i <= p < |s| ==> x.At(s, p) == None
    ensures x.Every(s, i) == []
    decreases |s| - i
  {
    if i < |s| {
      NoMatch(x, s, i + 1);
    }
  }

  lemma WholeMatch(x: Expression, s: string)
    requires s != "" && x.At(s, 0) == Some(|s|)
    ensures x.Every(s, 0) == [(0, |s|)]
  {
    NoMatch(x, s, |s|);
  }

  lemma BoundedDecimal(n: nat)
    requires 1 <= n <= MAX_SEASON
    ensures BoundedPositive(Decimal.Decimal(n), MAX_SEASON) == Some(n)
  {
    DecimalReadsBack(n);
  }

  /** A season that is spelled out is read as its number. */
  lemma SeasonNameReadsBack(n: nat, u: Tables)
    requires 1 <= n <= MAX_SEASON
    ensures Names("Season " + Decimal.Decimal(n), u, Some(n))
  {
    hide BoundedPositive, Decimal.Decimal, ExplicitAt, FirstNumber, Names, Value, Expression.Every, ContinuesAfter;
    DecimalReadsBack(n);
    BoundedDecimal(n);
    var s := "Season " + Decimal.Decimal(n);
    SeasonText(Decimal.Decimal(n), s);
    WholeMatch(Explicit, s);
    assert s[0..|s|] == s;
    ExplicitDecides(s, u, 0);
  }

  lemma SeasonText(digits: string, s: string)
    requires digits != "" && AllDigits(digits) && s == "Season " + digits
    ensures ExplicitAt(s, 0) == Some(|s|) && FirstNumber(s, 0) == digits && !ContinuesAfter(s, |s|, false)
  {
    hide FirstNumber, WordAt, ExplicitAt;
    assert forall k :: 0 <= k < 7 ==> s[k] == "Season "[k];
    assert forall k :: 7 <= k < |s| ==> s[k] == digits[k - 7];
    DigitsRun(s, 7, |s|);
    SkipLetters(s, 0, 7);
    assert s[7..|s|] == digits;
    SeasonMatches(s);
  }

  lemma SeasonMatches(s: string)
    requires |s| > 7 && s[..7] == "Season " && DigitsEnd(s, 7) == |s| && IsAsciiDigit(s[7])
    ensures ExplicitAt(s, 0) == Some(|s|)
  {
    assert forall k :: 0 <= k < 7 ==> s[k] == s[..7][k];
    assert WordAt(s, 0, "season") && SpacesEnd(s, 6) == 7;
  }

  lemma {:induction false} SkipLetters(s: string, i: nat, n: nat)
    requires i <= n < |s| && (forall k :: i <= k < n ==> !IsAsciiDigit(s[k])) && IsAsciiDigit(s[n])
    ensures FirstNumber(s, i) == s[n..DigitsEnd(s, n)]
    decreases n - i
  {
    if i < n {
      SkipLetters(s, i + 1, n);
    }
  }

  /** An ordinal is read as its number when it carries its English suffix, and as no season with any other. */
  lemma OrdinalReadsBack(n: nat, suffix: string, u: Tables)
    requires 1 <= n <= MAX_SEASON && suffix in {"st", "nd", "rd", "th"}
    ensures Names(Decimal.Decimal(n) + suffix + " Season", u, if suffix == EnglishSuffix(n) then Some(n) else None)
  {
    hide BoundedPositive, Decimal.Decimal, RomanOf, FirstExplicit, Value, EnglishSuffix, Names;
    hide Expression.Every, OrdinalAt;
    DecimalReadsBack(n);
    BoundedDecimal(n);
    var digits := Decimal.Decimal(n);
    var s := digits + suffix + " Season";
    OrdinalText(digits, suffix, s);
    WholeMatch(Ordinal, s);
    assert s[0..DigitsEnd(s, 0)] == digits && s[|digits|..|digits| + 2] == suffix;
    SuffixIs(s, |digits|, suffix, EnglishSuffix(n));
    NothingExplicit(digits, suffix, s, u);
    if suffix == EnglishSuffix(n) {
      assert FirstSettled(s, u, 0);
      OrdinalDecides(s, u, 0);
    } else {
      NoRoman(s);
      RomanDecides(s, u);
    }
  }

  lemma OrdinalText(digits: string, suffix: string, s: string)
    requires digits != "" && AllDigits(digits) && suffix in {"st", "nd", "rd", "th"} && s == digits + suffix + " Season"
    ensures DigitsEnd(s, 0) == |digits| && OrdinalAt(s, 0) == Some(|s|)
  {
    hide WordAt, SuffixAt;
    var m := |digits|;
    assert forall k :: 0 <= k < m ==> s[k] == digits[k];
    assert s[m] == suffix[0] && s[m..m + 2] == suffix && s[m + 2..] == " Season";
    DigitsRun(s, 0, m);
    SuffixStands(s, m, suffix);
    SeasonStands(s, m + 2);
  }

  lemma SuffixStands(s: string, m: nat, suffix: string)
    requires m + 2 <= |s| && s[m..m + 2] == suffix && suffix in {"st", "nd", "rd", "th"}
    ensures SuffixAt(s, m)
  {
    assert s[m] == suffix[0] && s[m + 1] == suffix[1];
  }

  lemma SeasonStands(s: string, m: nat)
    requires m <= |s| && s[m..] == " Season"
    ensures SpacesEnd(s, m) == m + 1 && WordAt(s, m + 1, "season")
  {
    assert forall k :: 0 <= k < 7 ==> s[m + k] == s[m..][k];
  }

  lemma SuffixIs(s: string, i: nat, suffix: string, other: string)
    requires suffix in {"st", "nd", "rd", "th"} && other in {"st", "nd", "rd", "th"}
    requires i + 2 <= |s| && s[i..i + 2] == suffix
    ensures WordAt(s, i, other) <==> other == suffix
  {
    assert s[i] == suffix[0] && s[i + 1] == suffix[1];
  }

  lemma NothingExplicit(digits: string, suffix: string, s: string, u: Tables)
    requires AllDigits(digits) && suffix in {"st", "nd", "rd", "th"} && s == digits + suffix + " Season"
    ensures forall k: nat :: !FirstExplicit(s, u, k)
  {
    var m := |digits|;
    assert forall k :: 0 <= k < m ==> s[k] == digits[k];
    assert forall k :: m <= k < |s| ==> s[k] == (suffix + " Season")[k - m];
    assert forall k :: 0 <= k < |suffix + " Season"| ==> !IsAsciiDigit((suffix + " Season")[k]);
    forall p | 0 <= p < |s| ensures Explicit.At(s, p) == None {
      if p < m {
        assert IsAsciiDigit(s[p]);
      }
    }
    NoMatch(Explicit, s, 0);
  }

  lemma NoRoman(s: string)
    requires s != "" && s[|s| - 1] == 'n'
    ensures RomanOf(s) == None
  {
    hide WithoutYear, TrimSpace, RomanFrom;
    assert WithoutYear(s) == s by {
      NoYear(s);
    }
    assert TrimSpace(s) != "" && TrimSpace(s)[|TrimSpace(s)| - 1] == 'n' by {
      TrimKeepsLast(s);
    }
    var trimmed := TrimSpace(s);
    assert RomanStart(trimmed, |trimmed|) == |trimmed|;
  }

  lemma NoYear(s: string)
    requires s != "" && s[|s| - 1] == 'n'
    ensures WithoutYear(s) == s
  {
    assert SpacesStart(s, |s|) == |s|;
  }

  lemma TrimKeepsLast(s: string)
    requires s != "" && !IsSpace(s[|s| - 1])
    ensures TrimSpace(s) != "" && TrimSpace(s)[|TrimSpace(s)| - 1] == s[|s| - 1]
  {
    assert SpacesStart(s, |s|) == |s| && SpacesEnd(s, 0) < |s|;
  }
}
