/**
The forms in which a title names its season, its year and its distributor, by position and by spelling
(internal/torznab/title.go).
*/
module SeasonForms {
  import opened Common
  import opened Runes
  import opened Decimal
  import opened QueryTokens
  import opened Seasons
  import opened TokenForms
  import opened Whitespace

  // ---------- explicit seasons ----------

  /** Season or Series, white space and a number; or an S, white space or none, and a number. */
  ghost predicate IsSeasonForm(s: string, i: nat, e: int) {
    || IsWordToken(s, i, e, "season") || IsWordToken(s, i, e, "series")
    || exists j :: LetterIs(s, i, 's') && SpacesBetween(s, i + 1, j) && SomeDigits(s, j, e)
  }

  /** A match has this form and is as long as any that starts there. */
  lemma ExplicitExactly(s: string, i: nat)
    ensures ExplicitAt(s, i).Some? ==> IsSeasonForm(s, i, ExplicitAt(s, i).value)
    ensures forall e :: IsSeasonForm(s, i, e) ==> ExplicitAt(s, i).Some? && e <= ExplicitAt(s, i).value
  {
    hide ExplicitAt, IsWordToken;
    if ExplicitAt(s, i).Some? {
      ExplicitHasForm(s, i);
    }
    forall e | IsSeasonForm(s, i, e) ensures ExplicitAt(s, i).Some? && e <= ExplicitAt(s, i).value {
      if IsWordToken(s, i, e, "season") {
        WordFormMatches(s, i, e, "season");
      } else if IsWordToken(s, i, e, "series") {
        WordFormMatches(s, i, e, "series");
      } else {
        LetterFormMatches(s, i, e);
      }
    }
  }

  lemma WordFormMatches(s: string, i: nat, e: int, word: string)
    requires word in {"season", "series"} && IsWordToken(s, i, e, word)
    ensures ExplicitAt(s, i).Some? && e <= ExplicitAt(s, i).value
  {
    WordMatches(s, i, e, word);
    StartsWithS(s, i, e, word);
    hide *;
    if word == "series" {
      OneWord(s, i);
    }
    MatchedWord(s, i, word);
  }

  lemma MatchedWord(s: string, i: nat, word: string)
    requires word in {"season", "series"} && WordNumber(s, i, word).Some? && LetterAt(s, i, 's')
    requires word == "series" ==> !WordAt(s, i, "season")
    ensures ExplicitAt(s, i) == WordNumber(s, i, word)
  {
    hide Number, Spaces, WordAt, SpacesEnd;
  }

  lemma StartsWithS(s: string, i: nat, e: int, word: string)
    requires word in {"season", "series"} && IsWordToken(s, i, e, word)
    ensures LetterAt(s, i, 's')
  {
    assert word[0] == 's' && Folds(s[i + 0], word[0]);
  }

  lemma LetterFormMatches(s: string, i: nat, e: int)
    requires exists j :: LetterIs(s, i, 's') && SpacesBetween(s, i + 1, j) && SomeDigits(s, j, e)
    ensures ExplicitAt(s, i).Some? && e <= ExplicitAt(s, i).value
  {
    hide Number, WordAt, Spaces;
    var j :| LetterIs(s, i, 's') && SpacesBetween(s, i + 1, j) && SomeDigits(s, j, e);
    RunsReach(s, j, e);
    assert SpacesEnd(s, i + 1) == j;
    LetterIsNoWord(s, i);
  }

  lemma ExplicitHasForm(s: string, i: nat)
    requires ExplicitAt(s, i).Some?
    ensures IsSeasonForm(s, i, ExplicitAt(s, i).value)
  {
    hide WordNumber, Number, WordAt;
    var e := ExplicitAt(s, i).value;
    if WordNumber(s, i, "season").Some? {
      WordTokenIs(s, i, "season");
    } else if WordNumber(s, i, "series").Some? {
      WordTokenIs(s, i, "series");
    } else {
      var j := SpacesEnd(s, i + 1);
      NumberIs(s, j);
      assert LetterIs(s, i, 's') && SpacesBetween(s, i + 1, j) && SomeDigits(s, j, e);
    }
  }

  /** A season by word or letter, as a title of its own, is the season the title names. */
  lemma SeasonIsNamed(w: string, gap: string, x: string, u: Tables)
    requires IsNumber(x) && Blank(gap)
    requires ((IsWord(w, "season") || IsWord(w, "series")) && gap != "") || w == "S" || w == "s"
    ensures Names(w + gap + x, u, SeasonOf(x))
  {
    hide Names, Expression.Every, ContinuesAfter, ExplicitAt, FirstNumber, BoundedPositive, AllDigits, Value;
    var s := w + gap + x;
    assert Holds(s, 0, w) && Holds(s, |w|, gap) && Holds(s, |w| + |gap|, x);
    WholeSeason(s, w, gap, x);
    WholeMatch(Explicit, s);
    assert s[0..|s|] == s;
    Bounds(x);
    ExplicitDecides(s, u, 0);
  }

  /** With another number right behind it, as in a range of seasons, none is named. */
  lemma ContinuedSeasonIsNone(w: string, gap: string, x: string, separator: char, y: string, u: Tables)
    requires u.Sane() && IsNumber(x) && IsNumber(y) && Blank(gap) && Continues(separator)
    requires ((IsWord(w, "season") || IsWord(w, "series")) && gap != "") || w == "S" || w == "s"
    ensures Names(w + gap + x + [separator] + y, u, None)
  {
    hide Names, Expression.Every, ContinuesAfter, ExplicitAt, FirstNumber, BoundedPositive, AllDigits, Value;
    var s, n := w + gap + x + [separator] + y, |w| + |gap| + |x|;
    assert Holds(s, 0, w) && Holds(s, |w|, gap) && Holds(s, |w| + |gap|, x) && s[n] == separator;
    assert Holds(s, n + 1, y);
    ContinuationsStandApart(separator, u);
    SeasonInFront(s, w, gap, x);
    FirstMatch(Explicit, s, n);
    NumberContinues(s, n, y);
    ContinuesAfterExactly(s, n, false);
    ExplicitDecides(s, u, 0);
  }

  lemma ContinuationsStandApart(r: char, u: Tables)
    requires u.Sane() && Continues(r)
    ensures !u.IsTitleRune(r) && !IsSpace(r) && !IsAsciiDigit(r)
  {
    SeparatorsByCode(r);
  }

  lemma FirstMatch(x: Expression, s: string, n: nat)
    requires s != "" && x.At(s, 0) == Some(n)
    ensures x.Every(s, 0) != [] && x.Every(s, 0)[0] == (0, n)
  {
  }

  lemma NumberContinues(s: string, n: nat, y: string)
    requires n < |s| && Continues(s[n]) && Holds(s, n + 1, y) && IsNumber(y) && |s| == n + 1 + |y|
    ensures NumberFollows(s, n, n, n + 1, |s|) && !BelongsToTitle(n, n, n + 1, |s|, false)
  {
    forall k | n + 1 <= k < |s| ensures IsAsciiDigit(s[k]) {
      HoldsAt(s, n + 1, y, k);
    }
  }

  lemma SeasonInFront(s: string, w: string, gap: string, x: string)
    requires IsNumber(x) && Blank(gap) && |s| >= |w| + |gap| + |x|
    requires |s| > |w| + |gap| + |x| ==> !IsAsciiDigit(s[|w| + |gap| + |x|])
    requires ((IsWord(w, "season") || IsWord(w, "series")) && gap != "") || w == "S" || w == "s"
    requires Holds(s, 0, w) && Holds(s, |w|, gap) && Holds(s, |w| + |gap|, x)
    ensures ExplicitAt(s, 0) == Some(|w| + |gap| + |x|)
  {
    hide WordAt, Value, AllDigits, ExplicitAt;
    var i, j := |w|, |w| + |gap|;
    RunAt(s, j, x);
    GapAt(s, i, gap);
    ExplicitMatches(s, w, gap, x);
  }

  lemma WholeSeason(s: string, w: string, gap: string, x: string)
    requires IsNumber(x) && Blank(gap) && |s| == |w| + |gap| + |x|
    requires ((IsWord(w, "season") || IsWord(w, "series")) && gap != "") || w == "S" || w == "s"
    requires Holds(s, 0, w) && Holds(s, |w|, gap) && Holds(s, |w| + |gap|, x)
    ensures s != "" && ExplicitAt(s, 0) == Some(|s|) && FirstNumber(s, 0) == x && !ContinuesAfter(s, |s|, false)
  {
    hide *;
    SeasonInFront(s, w, gap, x);
    NumberOfSeason(s, w, gap, x);
    EndsTheText(s);
  }

  lemma NumberOfSeason(s: string, w: string, gap: string, x: string)
    requires IsNumber(x) && Blank(gap) && |s| == |w| + |gap| + |x|
    requires IsWord(w, "season") || IsWord(w, "series") || w == "S" || w == "s"
    requires Holds(s, 0, w) && Holds(s, |w|, gap) && Holds(s, |w| + |gap|, x)
    ensures s != "" && FirstNumber(s, 0) == x
  {
    hide Value, FirstNumber, IsWord;
    var i, j := |w|, |w| + |gap|;
    RunAt(s, j, x);
    forall k | 0 <= k < j ensures !IsAsciiDigit(s[k]) {
      if k < i {
        HoldsAt(s, 0, w, k);
        WordRunes(w, k);
      } else {
        HoldsAt(s, i, gap, k);
        assert IsSpace(s[k]);
      }
    }
    SkipLetters(s, 0, j);
    assert s[j..|s|] == x && DigitsEnd(s, j) == |s|;
  }

  lemma EndsTheText(s: string)
    ensures !ContinuesAfter(s, |s|, false)
  {
  }

  lemma WordRunes(w: string, k: nat)
    requires k < |w| && (IsWord(w, "season") || IsWord(w, "series") || w == "S" || w == "s")
    ensures !IsAsciiDigit(w[k])
  {
    if IsWord(w, "season") {
      assert Folds(w[0 + k], "season"[k]);
    } else if IsWord(w, "series") {
      assert Folds(w[0 + k], "series"[k]);
    }
  }

  lemma ExplicitMatches(s: string, w: string, gap: string, x: string)
    requires IsNumber(x) && |s| >= |w| + |gap| + |x| && Holds(s, 0, w)
    requires ((IsWord(w, "season") || IsWord(w, "series")) && gap != "") || w == "S" || w == "s"
    requires SpacesEnd(s, |w|) == |w| + |gap| && Number(s, |w| + |gap|) == Some(|w| + |gap| + |x|)
    ensures ExplicitAt(s, 0) == Some(|w| + |gap| + |x|)
  {
    hide WordAt, SpacesEnd, Number, Spaces, ExplicitAt;
    HoldsAt(s, 0, w, 0);
    if IsWord(w, "season") {
      WordIsAt(s, w, "season");
      FirstLetter(s, "season");
      WordOfForm(s, w, gap, x, "season");
    } else if IsWord(w, "series") {
      WordIsAt(s, w, "series");
      FirstLetter(s, "series");
      OneWord(s, 0);
      WordOfForm(s, w, gap, x, "series");
    } else {
      LetterOfForm(s, gap, x);
    }
  }

  lemma WordOfForm(s: string, w: string, gap: string, x: string, word: string)
    requires word in {"season", "series"} && |w| == |word| && gap != "" && LetterAt(s, 0, 's') && |w| <= |s|
    requires WordAt(s, 0, word) && (word == "series" ==> !WordAt(s, 0, "season"))
    requires SpacesEnd(s, |w|) == |w| + |gap| && Number(s, |w| + |gap|) == Some(|w| + |gap| + |x|)
    ensures ExplicitAt(s, 0) == Some(|w| + |gap| + |x|)
  {
    hide WordAt, SpacesEnd, Number, ExplicitAt;
    assert WordNumber(s, 0, word) == Some(|w| + |gap| + |x|);
    MatchedWord(s, 0, word);
  }

  lemma LetterOfForm(s: string, gap: string, x: string)
    requires s != "" && LetterAt(s, 0, 's')
    requires SpacesEnd(s, 1) == 1 + |gap| && Number(s, 1 + |gap|) == Some(1 + |gap| + |x|)
    ensures ExplicitAt(s, 0) == Some(1 + |gap| + |x|)
  {
    assert IsSpace(s[1]) || IsAsciiDigit(s[1]);
    LetterIsNoWord(s, 0);
    hide WordAt, SpacesEnd, Number, Spaces;
  }

  lemma FirstLetter(s: string, word: string)
    requires word in {"season", "series"} && WordAt(s, 0, word)
    ensures LetterAt(s, 0, 's')
  {
    assert word[0] == 's' && Folds(s[0 + 0], word[0]);
  }

  lemma OneWord(s: string, i: nat)
    requires WordAt(s, i, "series")
    ensures !WordAt(s, i, "season")
  {
    hide WordAt;
    WordRune(s, i, "series", 2);
    WordRune(s, i, "season", 2);
  }

  lemma LetterIsNoWord(s: string, i: nat)
    requires i + 1 < |s| && (IsSpace(s[i + 1]) || IsAsciiDigit(s[i + 1]))
    ensures !WordAt(s, i, "season") && !WordAt(s, i, "series")
  {
    hide WordAt;
    WordRune(s, i, "season", 1);
    WordRune(s, i, "series", 1);
  }

  // ---------- ordinals ----------

  /** English ordinals: st, nd and rd after 1, 2 and 3, but not after 11, 12 and 13, and th after all others. */
  lemma SuffixFollowsEnglish(n: nat)
    ensures EnglishSuffix(n) == "st" <==> n % 10 == 1 && n % 100 != 11
    ensures EnglishSuffix(n) == "nd" <==> n % 10 == 2 && n % 100 != 12
    ensures EnglishSuffix(n) == "rd" <==> n % 10 == 3 && n % 100 != 13
    ensures EnglishSuffix(n) == "th" <==> n % 10 !in {1, 2, 3} || n % 100 in {11, 12, 13}
  {
    assert "st"[0] == 's' && "nd"[0] == 'n' && "rd"[0] == 'r' && "th"[0] == 't';
  }

  ghost predicate IsOrdinalForm(s: string, i: nat, e: int) {
    exists j, k :: SomeDigits(s, i, j) && 0 <= j && SuffixAt(s, j) && SomeSpaces(s, j + 2, k) && WordAt(s, k, "season")
                   && e == k + 6
  }

  lemma OrdinalExactly(s: string, i: nat, e: nat)
    ensures OrdinalAt(s, i) == Some(e) <==> IsOrdinalForm(s, i, e)
  {
    hide WordAt;
    if OrdinalAt(s, i) == Some(e) {
      var j := Number(s, i).value;
      var k := Spaces(s, j + 2).value;
      NumberIs(s, i);
      SpacesAre(s, j + 2);
      assert SomeDigits(s, i, j) && SuffixAt(s, j) && SomeSpaces(s, j + 2, k) && WordAt(s, k, "season");
    }
    if j, k :| SomeDigits(s, i, j) && 0 <= j && SuffixAt(s, j) && SomeSpaces(s, j + 2, k) && WordAt(s, k, "season")
               && e == k + 6 {
      SuffixStarts(s, j);
      WordStarts(s, k);
      RunsReach(s, i, j);
      assert SpacesEnd(s, j + 2) == k;
    }
  }

  lemma SuffixStarts(s: string, j: nat)
    requires SuffixAt(s, j)
    ensures j < |s| && !IsAsciiDigit(s[j])
  {
    assert "st"[0] == 's' && "nd"[0] == 'n' && "rd"[0] == 'r' && "th"[0] == 't';
    assert WordAt(s, j, "st") ==> Folds(s[j + 0], "st"[0]);
    assert WordAt(s, j, "nd") ==> Folds(s[j + 0], "nd"[0]);
    assert WordAt(s, j, "rd") ==> Folds(s[j + 0], "rd"[0]);
    assert WordAt(s, j, "th") ==> Folds(s[j + 0], "th"[0]);
  }

  lemma WordStarts(s: string, k: nat)
    requires WordAt(s, k, "season")
    ensures k + 6 <= |s| && !IsSpace(s[k])
  {
    assert "season"[0] == 's' && Folds(s[k + 0], "season"[0]);
  }

  // ---------- Roman numerals ----------

  function LetterValue(r: char): nat {
    match r
    case 'I' => 1
    case 'V' => 5
    case 'X' => 10
    case _ => 0
  }

  /** The value of a Roman numeral: a smaller letter in front of a larger one is subtracted. */
  function RomanSum(s: string): int {
    if s == "" then 0
    else if |s| > 1 && LetterValue(s[0]) < LetterValue(s[1]) then RomanSum(s[1..]) - LetterValue(s[0])
    else LetterValue(s[0]) + RomanSum(s[1..])
  }

  /** Each entry of the table has the value of its place. */
  lemma TableIsRoman(n: nat)
    requires n <= 20
    ensures RomanSum(ROMAN[n]) == n
  {
    assert RomanSum("") == 0 && RomanSum("I") == 1 && RomanSum("II") == 2 && RomanSum("III") == 3;
    assert RomanSum("IV") == 4 && RomanSum("V") == 5 && RomanSum("VI") == 6 && RomanSum("VII") == 7;
    assert RomanSum("VIII") == 8 && RomanSum("IX") == 9 && RomanSum("X") == 10 && RomanSum("XI") == 11;
    assert RomanSum("XII") == 12 && RomanSum("XIII") == 13 && RomanSum("XIV") == 14 && RomanSum("XV") == 15;
    assert RomanSum("XVI") == 16 && RomanSum("XVII") == 17 && RomanSum("XVIII") == 18 && RomanSum("XIX") == 19;
    assert RomanSum("XX") == 20;
  }

  /** The canonical numeral: the largest of X, IX, V, IV and I that fits comes first. */
  function Numeral(n: nat): string {
    if n >= 10 then "X" + Numeral(n - 10)
    else if n == 9 then "IX"
    else if n >= 5 then "V" + Numeral(n - 5)
    else if n == 4 then "IV"
    else if n > 0 then "I" + Numeral(n - 1)
    else ""
  }

  /** And its canonical form. */
  lemma {:induction false} TableIsCanonical(n: nat)
    requires n <= 20
    ensures ROMAN[n] == Numeral(n)
  {
    if n >= 10 {
      TableIsCanonical(n - 10);
      TensBegin(n);
    } else {
      UnitsAreCanonical(n);
    }
  }

  lemma TensBegin(n: nat)
    requires 10 <= n <= 20
    ensures ROMAN[n] == "X" + ROMAN[n - 10]
  {
  }

  lemma UnitsAreCanonical(n: nat)
    requires n < 10
    ensures ROMAN[n] == Numeral(n)
  {
    assert Numeral(1) == "I" + "" && Numeral(2) == "I" + "I" && Numeral(3) == "I" + "II";
    assert Numeral(5) == "V" + "" && Numeral(6) == "V" + "I" && Numeral(7) == "V" + "II" && Numeral(8) == "V" + "III";
  }

  lemma TableHasNoTwins(m: nat, n: nat)
    requires m <= 20 && n <= 20 && ROMAN[m] == ROMAN[n]
    ensures m == n
  {
    hide RomanSum;
    TableIsRoman(m);
    TableIsRoman(n);
  }

  ghost predicate EndsInRoman(s: string, t: string) {
    && t != "" && |t| <= |s| && s[|s| - |t|..] == t && (forall k :: 0 <= k < |t| ==> IsRomanLetter(t[k]))
    && (|t| == |s| || IsSpace(s[|s| - |t| - 1]))
  }

  /** The numeral is the whole last word. */
  lemma TrailingRomanExactly(s: string, t: string)
    ensures TrailingRoman(s) == Some(t) <==> EndsInRoman(s, t)
  {
    var start := RomanStart(s, |s|);
    if TrailingRoman(s) == Some(t) {
      assert forall k :: 0 <= k < |t| ==> t[k] == s[start + k];
    }
    if EndsInRoman(s, t) {
      var i := |s| - |t|;
      forall k | i <= k < |s| ensures IsRomanLetter(s[k]) {
        assert s[k] == s[i..][k - i];
      }
      assert i > 0 ==> !IsRomanLetter(s[i - 1]) by {
        if i > 0 { SpaceIsNoNumeral(s[i - 1]); }
      }
      assert start == i;
    }
  }

  lemma SpaceIsNoNumeral(r: char)
    requires IsSpace(r)
    ensures !IsRomanLetter(r)
  {
  }

  /** The same letters in either case. */
  predicate SameLetters(text: string, numeral: string) {
    && |text| == |numeral|
    && forall k :: 0 <= k < |text| ==> text[k] == numeral[k] || text[k] as int == numeral[k] as int + 32
  }

  lemma NumeralLetters(n: nat, k: nat)
    requires 1 <= n <= 20 && k < |ROMAN[n]|
    ensures ROMAN[n] != "" && ROMAN[n][k] in "IVX"
  {
  }

  lemma UpperNumeral(text: string, n: nat)
    requires 1 <= n <= 20 && SameLetters(text, ROMAN[n])
    ensures Upper(text) == ROMAN[n] && text != "" && forall k :: 0 <= k < |text| ==> IsRomanLetter(text[k])
    ensures RomanFrom(Upper(text), 1) == Some(n)
  {
    hide ROMAN;
    TwentyOne();
    forall k | 0 <= k < |text| ensures Upper(text)[k] == ROMAN[n][k] && IsRomanLetter(text[k]) {
      NumeralLetters(n, k);
    }
    if text == "" {
      NumeralIsNotEmpty(n);
    }
    assert Upper(text) == ROMAN[n];
    TableHasNoTwins(RomanFrom(Upper(text), 1).value, n);
  }

  lemma TwentyOne()
    ensures |ROMAN| == 21
  {
  }

  lemma NumeralIsNotEmpty(n: nat)
    requires 1 <= n <= 20
    ensures ROMAN[n] != ""
  {
  }

  ghost predicate NoDigits(s: string) {
    forall k :: 0 <= k < |s| ==> !IsAsciiDigit(s[k])
  }

  lemma NoSeasonWithoutDigits(s: string, u: Tables)
    requires NoDigits(s)
    ensures forall k: nat :: !FirstExplicit(s, u, k) && !FirstSettled(s, u, k)
    ensures WithoutYear(s) == s
  {
    forall p | 0 <= p < |s| ensures Explicit.At(s, p) == None && Ordinal.At(s, p) == None {
    }
    NoMatch(Explicit, s, 0);
    NoMatch(Ordinal, s, 0);
    hide Expression.Every, Expression.At;
    assert !FourDigits(s, SpacesStart(s, |s|) - 4) && !FourDigits(s, SpacesStart(s, |s|) - 5) by {
      NotFour(s, SpacesStart(s, |s|) - 4);
      NotFour(s, SpacesStart(s, |s|) - 5);
    }
  }

  lemma NotFour(s: string, i: int)
    requires NoDigits(s)
    ensures !FourDigits(s, i)
  {
    assert 0 <= i && i + 4 <= |s| ==> !IsAsciiDigit(s[i]);
  }

  /** A Roman numeral up to twenty as the last word, in either case, is the season of a title without digits. */
  lemma RomanIsNamed(front: string, text: string, n: nat, u: Tables)
    requires 1 <= n <= 20 && SameLetters(text, ROMAN[n]) && NoDigits(front)
    ensures Names(front + " " + text, u, Some(n))
  {
    hide ROMAN, RomanFrom, Names, TrimSpace, WithoutYear, TrailingRoman, Upper, FirstExplicit, FirstSettled;
    var s := front + " " + text;
    UpperNumeral(text, n);
    forall k | 0 <= k < |s| ensures !IsAsciiDigit(s[k]) {
      if k > |front| {
        assert s[k] == text[k - |front| - 1];
        NumeralIsNoDigit(s[k]);
      }
    }
    NoSeasonWithoutDigits(s, u);
    TrimsToNumeral(front, text);
    TrailingRomanExactly(TrimSpace(s), text);
    RomanDecides(s, u);
  }

  lemma NumeralIsNoDigit(r: char)
    requires IsRomanLetter(r)
    ensures !IsAsciiDigit(r) && !IsSpace(r)
  {
  }

  lemma TrimsToNumeral(front: string, text: string)
    requires text != "" && forall k :: 0 <= k < |text| ==> IsRomanLetter(text[k])
    ensures EndsInRoman(TrimSpace(front + " " + text), text)
  {
    hide IsSpace, IsRomanLetter;
    var s, i := front + " " + text, |front| + 1;
    assert s[i..] == text && s[|front|] == ' ' && s[i] == text[0] && s[|s| - 1] == text[|text| - 1];
    NumeralIsNoDigit(text[0]);
    NumeralIsNoDigit(text[|text| - 1]);
    SpaceIsSpace();
    var start := SpacesEnd(s, 0);
    assert start <= i && start != |front| && SpacesStart(s, |s|) == |s|;
    OnlyFrontTrimmed(s);
    NumeralEnds(s, start, i, text);
  }

  lemma SpaceIsSpace()
    ensures IsSpace(' ')
  {
  }

  lemma OnlyFrontTrimmed(s: string)
    requires SpacesEnd(s, 0) < |s| == SpacesStart(s, |s|)
    ensures TrimSpace(s) == s[SpacesEnd(s, 0)..]
  {
    hide SpacesEnd, SpacesStart;
  }

  lemma NumeralEnds(s: string, start: nat, i: nat, text: string)
    requires start <= i < |s| && s[i..] == text
    requires (forall k :: 0 <= k < |text| ==> IsRomanLetter(text[k])) && (start < i ==> IsSpace(s[i - 1]))
    ensures EndsInRoman(s[start..], text)
  {
    hide IsSpace, IsRomanLetter;
    var trimmed, n := s[start..], i - start;
    assert trimmed[n..] == text && |trimmed| - |text| == n;
    assert n > 0 ==> trimmed[n - 1] == s[i - 1];
  }

  // ---------- the year ----------

  function YearText(year: string, round: bool): string {
    if round then "(" + year + ")" else year
  }

  ghost predicate EndsInYear(s: string, front: string) {
    exists gap, year, round, back :: YearForm(s, front, gap, year, round, back)
  }

  ghost predicate YearForm(s: string, front: string, gap: string, year: string, round: bool, back: string) {
    && |year| == 4 && AllDigits(year) && Blank(gap) && Blank(back) && (front == "" || EndsInWord(front))
    && s == front + gap + YearText(year, round) + back
  }

  lemma SpacesStartAt(s: string, i: nat, gap: string)
    requires Blank(gap) && Holds(s, i, gap) && (i > 0 ==> !IsSpace(s[i - 1]))
    ensures SpacesStart(s, i + |gap|) == i
  {
    forall k | i <= k < i + |gap| ensures IsSpace(s[k]) {
      HoldsAt(s, i, gap, k);
    }
  }

  /** Four digits at the end, in parentheses or not, go together with the white space around them. */
  lemma YearGoes(s: string, front: string, gap: string, year: string, round: bool, back: string)
    requires YearForm(s, front, gap, year, round, back)
    ensures WithoutYear(s) == front
  {
    hide WithoutYear, SpacesStart, AllDigits, Blank;
    var i, y := |front| + |gap|, YearText(year, round);
    assert Holds(s, |front|, gap) && Holds(s, i, y) && Holds(s, i + |y|, back) && s[..|front|] == front;
    YearEnds(s, i, year, round, back);
    assert front != "" ==> s[|front| - 1] == front[|front| - 1];
    SpacesStartAt(s, |front|, gap);
    YearIsFound(s, i, year, round);
  }

  lemma YearEnds(s: string, i: nat, year: string, round: bool, back: string)
    requires |year| == 4 && AllDigits(year) && Blank(back)
    requires var y := YearText(year, round); Holds(s, i, y) && |s| == i + |y| + |back| && Holds(s, i + |y|, back)
    ensures SpacesStart(s, |s|) == i + |YearText(year, round)|
  {
    hide SpacesStart, AllDigits, Holds, Blank;
    var y := YearText(year, round);
    var end := i + |y|;
    HoldsAt(s, i, y, end - 1);
    LastOfYear(year, round);
    SpacesStartAt(s, end, back);
  }

  lemma LastOfYear(year: string, round: bool)
    requires |year| == 4 && AllDigits(year)
    ensures var y := YearText(year, round); !IsSpace(y[|y| - 1])
  {
    assert IsAsciiDigit(year[3]);
  }

  lemma YearIsFound(s: string, i: nat, year: string, round: bool)
    requires |year| == 4 && AllDigits(year) && Holds(s, i, YearText(year, round))
    requires SpacesStart(s, |s|) == i + |YearText(year, round)|
    ensures WithoutYear(s) == s[..SpacesStart(s, i)]
  {
    hide SpacesStart, AllDigits;
    var y := YearText(year, round);
    if round {
      HoldsAt(s, i, y, i);
      HoldsAt(s, i, y, i + 5);
      assert Holds(s, i + 1, year) by {
        assert s[i + 1..i + 5] == s[i..i + 6][1..5];
      }
      YearDigits(s, i + 1, year);
      assert !FourDigits(s, i + 2);
    } else {
      YearDigits(s, i, year);
    }
  }

  lemma YearDigits(s: string, i: nat, year: string)
    requires |year| == 4 && AllDigits(year) && Holds(s, i, year)
    ensures FourDigits(s, i)
  {
    forall k | i <= k < i + 4 ensures IsAsciiDigit(s[k]) {
      HoldsAt(s, i, year, k);
    }
  }

  /** And nothing else goes. */
  lemma OnlyYearsGo(s: string)
    requires WithoutYear(s) != s
    ensures EndsInYear(s, WithoutYear(s))
  {
    hide SpacesStart, FourDigits;
    var end := SpacesStart(s, |s|);
    if FourDigits(s, end - 4) {
      FourAre(s, end - 4);
      YearAt(s, end - 4, s[end - 4..end], false, end);
    } else {
      FourAre(s, end - 5);
      assert s[end - 6..end] == "(" + s[end - 5..end - 1] + ")";
      YearAt(s, end - 6, s[end - 5..end - 1], true, end);
    }
  }

  lemma FourAre(s: string, i: nat)
    requires FourDigits(s, i)
    ensures i + 4 <= |s| && AllDigits(s[i..i + 4])
  {
  }

  lemma YearAt(s: string, i: nat, year: string, round: bool, end: nat)
    requires |year| == 4 && AllDigits(year) && i <= end == SpacesStart(s, |s|) && s[i..end] == YearText(year, round)
    ensures EndsInYear(s, s[..SpacesStart(s, i)])
  {
    hide AllDigits, SpacesStart, YearText, Blank;
    var start := SpacesStart(s, i);
    Pieces(s, start, i, end);
    BlankBack(s, i);
    BlankBack(s, |s|);
    assert s[end..|s|] == s[end..];
    assert YearForm(s, s[..start], s[start..i], year, round, s[end..]);
  }

  lemma Pieces(s: string, a: nat, b: nat, c: nat)
    requires a <= b <= c <= |s|
    ensures s == s[..a] + s[a..b] + s[b..c] + s[c..]
  {
  }

  lemma BlankBack(s: string, i: nat)
    requires i <= |s|
    ensures Blank(s[SpacesStart(s, i)..i])
    ensures s[..SpacesStart(s, i)] == "" || EndsInWord(s[..SpacesStart(s, i)])
  {
  }

  // ---------- the distributor ----------

  /** A distributor's name in any case, with its domain or without. */
  ghost predicate IsDistributor(name: string, domain: string) {
    && (IsWord(name, "aniliberty") || IsWord(name, "anilibria"))
    && (domain == ""
        || (domain[0] == '.' && (IsWord(domain[1..], "top") || IsWord(domain[1..], "tv"))))
  }

  ghost predicate DistributorForm(
      s: string, front: string, before: string, after: string, name: string, domain: string, back: string)
  {
    && IsDistributor(name, domain) && Blank(before) && Blank(after) && Blank(back)
    && (front == "" || EndsInWord(front))
    && s == front + before + "-" + after + name + domain + back
  }

  lemma WordHeld(s: string, i: nat, w: string, word: string)
    requires forall k :: 0 <= k < |word| ==> 'a' <= word[k] <= 'z'
    requires Holds(s, i, w)
    ensures IsWord(w, word) <==> |w| == |word| && WordBefore(s, i + |w|, word)
  {
    if IsWord(w, word) {
      forall k | 0 <= k < |word| ensures Folds(s[i + k], word[k]) {
        HoldsAt(s, i, w, i + k);
        assert Folds(w[0 + k], word[k]);
      }
    }
    if |w| == |word| && WordBefore(s, i + |w|, word) {
      forall k | 0 <= k < |word| ensures Folds(w[0 + k], word[k]) {
        HoldsAt(s, i, w, i + k);
        assert Folds(s[i + k], word[k]);
      }
    }
  }

  lemma LastRune(s: string, end: int, word: string)
    requires forall k :: 0 <= k < |word| ==> 'a' <= word[k] <= 'z'
    requires word != "" && WordBefore(s, end, word)
    ensures Folds(s[end - 1], word[|word| - 1])
  {
    assert Folds(s[end - |word| + (|word| - 1)], word[|word| - 1]);
  }

  /** Where the name starts that ends, with its domain, in front of end. */
  lemma NameIsFound(s: string, i: nat, name: string, domain: string)
    requires IsDistributor(name, domain) && Holds(s, i, name) && Holds(s, i + |name|, domain)
    ensures NameWithDomainStart(s, i + |name| + |domain|) == Some(i)
    ensures 0 < i + |name| + |domain| <= |s| && !IsSpace(s[i + |name| + |domain| - 1]) && !IsSpace(s[i])
  {
    hide WordBefore;
    var e := i + |name|;
    NameStartsAt(s, i, name);
    if domain != "" {
      var end := e + |domain|;
      HoldsAt(s, e, domain, e);
      assert Holds(s, e + 1, domain[1..]) by {
        assert s[e + 1..end] == s[e..end][1..];
      }
      WordHeld(s, e + 1, domain[1..], "top");
      WordHeld(s, e + 1, domain[1..], "tv");
      assert NameStart(s, end) == None && (IsWord(domain[1..], "tv") ==> !WordBefore(s, end, "top")) by {
        EndsOtherwise(s, end);
      }
      if IsWord(domain[1..], "top") {
        LastRune(s, end, "top");
      } else {
        LastRune(s, end, "tv");
      }
    }
  }

  lemma EndsOtherwise(s: string, end: int)
    requires WordBefore(s, end, "top") || WordBefore(s, end, "tv")
    ensures NameStart(s, end) == None && (WordBefore(s, end, "tv") ==> !WordBefore(s, end, "top"))
  {
    assert "top"[2] == 'p' && "tv"[1] == 'v' && "aniliberty"[9] == 'y' && "anilibria"[8] == 'a';
    if WordBefore(s, end, "top") { LastRune(s, end, "top"); }
    if WordBefore(s, end, "tv") { LastRune(s, end, "tv"); }
    if WordBefore(s, end, "aniliberty") { LastRune(s, end, "aniliberty"); }
    if WordBefore(s, end, "anilibria") { LastRune(s, end, "anilibria"); }
  }

  lemma NameStartsAt(s: string, i: nat, name: string)
    requires (IsWord(name, "aniliberty") || IsWord(name, "anilibria")) && Holds(s, i, name)
    ensures NameStart(s, i + |name|) == Some(i) && i + |name| <= |s| && |name| > 0
    ensures !IsSpace(s[i + |name| - 1]) && !IsSpace(s[i])
  {
    var e := i + |name|;
    WordHeld(s, i, name, "aniliberty");
    WordHeld(s, i, name, "anilibria");
    assert "aniliberty"[9] == 'y' && "anilibria"[8] == 'a' && "aniliberty"[0] == 'a' && "anilibria"[0] == 'a';
    HoldsAt(s, i, name, i);
    if WordBefore(s, e, "aniliberty") { LastRune(s, e, "aniliberty"); }
    if WordBefore(s, e, "anilibria") { LastRune(s, e, "anilibria"); }
    assert IsWord(name, "aniliberty") ==> Folds(name[0 + 0], "aniliberty"[0]);
    assert IsWord(name, "anilibria") ==> Folds(name[0 + 0], "anilibria"[0]);
  }

  /** A dash and a distributor at the end go together with the white space around them. */
  lemma DistributorGoes(
      s: string, front: string, before: string, after: string, name: string, domain: string, back: string)
    requires DistributorForm(s, front, before, after, name, domain, back)
    ensures WithoutDistributor(s) == front
  {
    hide WithoutDistributor, IsDistributor, Blank;
    var i := |front| + |before| + 1 + |after|;
    DistributorHolds(s, front, before, after, name, domain, back);
    DistributorAt(s, |front|, before, after, i, name, domain, back);
  }

  lemma DistributorAt(
      s: string, n: nat, before: string, after: string, i: nat, name: string, domain: string, back: string)
    requires IsDistributor(name, domain) && Blank(before) && Blank(after) && Blank(back)
    requires i == n + |before| + 1 + |after| && |s| == i + |name| + |domain| + |back|
    requires (n > 0 ==> !IsSpace(s[n - 1])) && Holds(s, n, before) && s[n + |before|] == '-'
    requires Holds(s, n + |before| + 1, after) && Holds(s, i, name) && Holds(s, i + |name|, domain)
    requires Holds(s, i + |name| + |domain|, back)
    ensures WithoutDistributor(s) == s[..n]
  {
    hide SpacesStart, NameWithDomainStart, IsDistributor, Blank, Holds;
    NameIsFound(s, i, name, domain);
    SpacesStartAt(s, i + |name| + |domain|, back);
    SpacesStartAt(s, n + |before| + 1, after);
    SpacesStartAt(s, n, before);
  }

  lemma DistributorHolds(
      s: string, front: string, before: string, after: string, name: string, domain: string, back: string)
    requires DistributorForm(s, front, before, after, name, domain, back)
    ensures var dash, i := |front| + |before|, |front| + |before| + 1 + |after|;
            var end := i + |name| + |domain|;
            && s[..|front|] == front && (front != "" ==> !IsSpace(s[|front| - 1])) && Holds(s, |front|, before)
            && dash < |s| == end + |back| && s[dash] == '-' && Holds(s, dash + 1, after)
            && Holds(s, i, name) && Holds(s, i + |name|, domain) && Holds(s, end, back)
  {
    hide IsDistributor, Blank;
  }

  lemma NameIs(s: string, end: int)
    requires NameStart(s, end).Some?
    ensures var i := NameStart(s, end).value;
            0 <= i < end <= |s| && (IsWord(s[i..end], "aniliberty") || IsWord(s[i..end], "anilibria"))
  {
    var i := NameStart(s, end).value;
    WordHeld(s, i, s[i..end], "aniliberty");
    WordHeld(s, i, s[i..end], "anilibria");
  }

  lemma DomainIs(s: string, i: nat, word: string)
    requires word in {"top", "tv"} && i < |s| && s[i] == '.' && WordBefore(s, i + 1 + |word|, word)
    ensures i + 1 + |word| <= |s| && s[i..i + 1 + |word|][0] == '.' && IsWord(s[i..i + 1 + |word|][1..], word)
  {
    var e := i + 1 + |word|;
    assert s[i..e][1..] == s[i + 1..e];
    WordHeld(s, i + 1, s[i + 1..e], word);
  }

  /** The name and the domain that the expression finds. */
  lemma NameAndDomain(s: string, end: nat) returns (i: nat, e: nat)
    requires end <= |s| && NameWithDomainStart(s, end).Some?
    ensures NameWithDomainStart(s, end) == Some(i) && i < e <= end && IsDistributor(s[i..e], s[e..end])
  {
    hide WordBefore;
    i := NameWithDomainStart(s, end).value;
    if NameStart(s, end).Some? {
      e := end;
      NameIs(s, end);
      assert s[e..end] == "";
    } else if WordBefore(s, end, "top") && end >= 4 && s[end - 4] == '.' && NameStart(s, end - 4).Some? {
      e := end - 4;
      NameIs(s, e);
      DomainIs(s, e, "top");
    } else {
      e := end - 3;
      NameIs(s, e);
      DomainIs(s, e, "tv");
    }
  }

  ghost predicate EndsInDistributor(s: string, front: string) {
    exists before, after, name, domain, back :: DistributorForm(s, front, before, after, name, domain, back)
  }

  /** And nothing else goes. */
  lemma OnlyDistributorsGo(s: string)
    requires WithoutDistributor(s) != s
    ensures EndsInDistributor(s, WithoutDistributor(s))
  {
    hide NameWithDomainStart, IsDistributor, SpacesStart, Blank;
    var end := SpacesStart(s, |s|);
    var i, e := NameAndDomain(s, end);
    var dash := SpacesStart(s, i);
    var n := SpacesStart(s, dash - 1);
    BlankBack(s, |s|);
    BlankBack(s, i);
    BlankBack(s, dash - 1);
    assert s[end..|s|] == s[end..] && s[dash - 1..dash] == "-";
    AllPieces(s, n, dash, i, e, end);
    FormOf(s, s[..n], s[n..dash - 1], s[dash..i], s[i..e], s[e..end], s[end..]);
  }

  lemma FormOf(
      s: string, front: string, before: string, after: string, name: string, domain: string, back: string)
    requires DistributorForm(s, front, before, after, name, domain, back)
    ensures EndsInDistributor(s, front)
  {
  }

  lemma AllPieces(s: string, n: nat, dash: nat, i: nat, e: nat, end: nat)
    requires n < dash <= i <= e <= end <= |s| && s[dash - 1..dash] == "-"
    ensures s == s[..n] + s[n..dash - 1] + "-" + s[dash..i] + s[i..e] + s[e..end] + s[end..]
  {
    Pieces(s, n, dash - 1, dash);
    var front, tail := s[..n] + s[n..dash - 1] + "-", s[dash..];
    assert s == front + tail;
    Pieces(s, dash, i, e);
    assert tail == s[dash..i] + s[i..e] + s[e..end] + s[end..];
  }
}
