/**
The forms of season and episode tokens and filters, each with the numbers it spells (internal/torznab/query.go),
and the numeric continuations by position.
*/
module TokenForms {
  import opened Common
  import opened Runes
  import opened Decimal
  import opened QueryTokens
  import opened Whitespace
  import Query

  /** A number as text. */
  predicate IsNumber(x: string) {
    x != "" && AllDigits(x)
  }

  function SeasonOf(x: string): Option<nat>
    requires IsNumber(x)
  {
    if 1 <= Value(x) <= MAX_SEASON then Some(Value(x)) else None
  }

  function EpisodeOf(x: string): Option<nat>
    requires IsNumber(x)
  {
    if 1 <= Value(x) <= MAX_EPISODE then Some(Value(x)) else None
  }

  /** Both numbers or none. */
  function Both(x: string, y: string): Option<TokenValue>
    requires IsNumber(x) && IsNumber(y)
  {
    if SeasonOf(x).Some? && EpisodeOf(y).Some? then Some(TokenValue(SeasonOf(x), EpisodeOf(y))) else None
  }

  function OnlySeason(x: string): Option<TokenValue>
    requires IsNumber(x)
  {
    if SeasonOf(x).Some? then Some(TokenValue(SeasonOf(x), None)) else None
  }

  function OnlyEpisode(x: string): Option<TokenValue>
    requires IsNumber(x)
  {
    if EpisodeOf(x).Some? then Some(TokenValue(None, EpisodeOf(x))) else None
  }

  /** A text with a part at a place. */
  predicate Holds(s: string, i: nat, part: string) {
    i + |part| <= |s| && s[i..i + |part|] == part
  }

  lemma HoldsAt(s: string, i: nat, part: string, k: nat)
    requires Holds(s, i, part) && i <= k < i + |part|
    ensures s[k] == part[k - i]
  {
    assert s[i..i + |part|][k - i] == part[k - i];
  }

  lemma RunAt(s: string, i: nat, x: string)
    requires IsNumber(x) && Holds(s, i, x) && (i + |x| < |s| ==> !IsAsciiDigit(s[i + |x|]))
    ensures Number(s, i) == Some(i + |x|) && IsAsciiDigit(s[i])
  {
    forall k | i <= k < i + |x| ensures IsAsciiDigit(s[k]) {
      HoldsAt(s, i, x, k);
    }
    DigitsRun(s, i, i + |x|);
  }

  lemma GapAt(s: string, i: nat, gap: string)
    requires Blank(gap) && Holds(s, i, gap) && (i + |gap| < |s| ==> !IsSpace(s[i + |gap|]))
    ensures SpacesEnd(s, i) == i + |gap|
    ensures Spaces(s, i) == if gap == "" then None else Some(i + |gap|)
  {
    forall k | i <= k < i + |gap| ensures IsSpace(s[k]) {
      HoldsAt(s, i, gap, k);
    }
  }

  lemma Bounds(x: string)
    requires IsNumber(x)
    ensures BoundedPositive(x, MAX_SEASON) == SeasonOf(x) && BoundedPositive(x, MAX_EPISODE) == EpisodeOf(x)
  {
  }

  /** S and a season, any white space, E and an episode, in either case. */
  lemma PairForm(s: char, x: string, gap: string, e: char, y: string)
    requires s in "sS" && e in "eE" && IsNumber(x) && IsNumber(y) && Blank(gap)
    ensures ParseToken([s] + x + gap + [e] + y) == Both(x, y)
  {
    var token := [s] + x + gap + [e] + y;
    var i, j := 1 + |x|, 1 + |x| + |gap|;
    assert Holds(token, 1, x) && Holds(token, i, gap) && token[j] == e && Holds(token, j + 1, y);
    assert i < j ==> token[i] == gap[0];
    PairAt(token, i, j, x, gap, y);
  }

  lemma PairAt(token: string, i: nat, j: nat, x: string, gap: string, y: string)
    requires IsNumber(x) && IsNumber(y) && Blank(gap) && i == 1 + |x| && j == i + |gap| && |token| == j + 1 + |y|
    requires Holds(token, 1, x) && Holds(token, i, gap) && Holds(token, j + 1, y)
    requires token[0] in "sS" && token[j] in "eE" && (i < j ==> IsSpace(token[i]))
    ensures ParseToken(token) == Both(x, y)
  {
    hide Value, Number, SpacesEnd, BoundedPositive, SeasonOf, EpisodeOf, AllDigits;
    RunAt(token, 1, x);
    GapAt(token, i, gap);
    RunAt(token, j + 1, y);
    Bounds(x);
    Bounds(y);
    assert token[1..i] == x && token[j + 1..] == y;
    assert LetterNumber(token, 0, 's') == Some(i);
  }

  /** A season, an x in either case, and an episode. */
  lemma CrossForm(x: string, c: char, y: string)
    requires c in "xX" && IsNumber(x) && IsNumber(y)
    ensures ParseToken(x + [c] + y) == Both(x, y)
  {
    var token, i := x + [c] + y, |x|;
    assert Holds(token, 0, x) && token[i] == c && Holds(token, i + 1, y) && token[..i] == x && token[i + 1..] == y;
    CrossAt(token, i, x, y);
  }

  lemma CrossAt(token: string, i: nat, x: string, y: string)
    requires IsNumber(x) && IsNumber(y) && i == |x| && |token| == i + 1 + |y| && token[i] in "xX"
    requires Holds(token, 0, x) && Holds(token, i + 1, y) && token[..i] == x && token[i + 1..] == y
    ensures ParseToken(token) == Both(x, y)
  {
    hide Value, Number, SpacesEnd, BoundedPositive, SeasonOf, EpisodeOf, AllDigits;
    RunAt(token, 0, x);
    RunAt(token, i + 1, y);
    Bounds(x);
    Bounds(y);
    assert LetterNumber(token, 0, 's') == None;
  }

  /** S or Season with a season, E, EP or Episode with an episode; words are followed by white space. */
  lemma LetterForm(c: char, x: string)
    requires c in "sSeE" && IsNumber(x)
    ensures ParseToken([c] + x) == if c in "sS" then OnlySeason(x) else OnlyEpisode(x)
  {
    var token := [c] + x;
    assert token[0] == c && Holds(token, 1, x) && token[1..] == x;
    LetterFormAt(token, x);
  }

  lemma LetterFormAt(token: string, x: string)
    requires IsNumber(x) && |token| == 1 + |x| && Holds(token, 1, x) && token[1..] == x && token[0] in "sSeE"
    ensures ParseToken(token) == if token[0] in "sS" then OnlySeason(x) else OnlyEpisode(x)
  {
    hide Value, BoundedPositive, SeasonOf, EpisodeOf, AllDigits, DigitsEnd;
    RunAt(token, 1, x);
    Bounds(x);
    assert SpacesEnd(token, |token|) == |token|;
    assert Number(token, 0) == None by { NoNumber(token); }
    assert WordDigits(token, "season") == None by {
      assert !WordAt(token, 0, "season") by { assert |token| > 1 && "season"[1] == 'e' && IsAsciiDigit(token[1]); }
    }
  }

  lemma NoNumber(s: string)
    requires s != "" && !IsAsciiDigit(s[0])
    ensures Number(s, 0) == None
  {
  }

  /** A word in any mix of cases. */
  ghost predicate IsWord(w: string, word: string)
    requires forall k :: 0 <= k < |word| ==> 'a' <= word[k] <= 'z'
  {
    |w| == |word| && WordAt(w, 0, word)
  }

  lemma WordIsAt(s: string, w: string, word: string)
    requires forall k :: 0 <= k < |word| ==> 'a' <= word[k] <= 'z'
    requires IsWord(w, word) && Holds(s, 0, w)
    ensures WordAt(s, 0, word)
  {
    forall k | 0 <= k < |word| ensures Folds(s[0 + k], word[k]) {
      HoldsAt(s, 0, w, k);
      assert w[k] == w[0 + k];
    }
  }

  /** Season, Ep or Episode in any case, white space, and a number. */
  lemma WordForm(w: string, gap: string, x: string)
    requires IsNumber(x) && Blank(gap) && gap != ""
    ensures IsWord(w, "season") ==> ParseToken(w + gap + x) == OnlySeason(x)
    ensures IsWord(w, "ep") || IsWord(w, "episode") ==> ParseToken(w + gap + x) == OnlyEpisode(x)
  {
    hide WordAt;
    var token, i, j := w + gap + x, |w|, |w| + |gap|;
    assert Holds(token, 0, w) && Holds(token, i, gap) && Holds(token, j, x) && token[j..] == x;
    if IsWord(w, "season") {
      WordIsAt(token, w, "season");
      SeasonWordAt(token, gap, x);
    } else if IsWord(w, "ep") {
      WordIsAt(token, w, "ep");
      EpisodeWordAt(token, "ep", gap, x);
    } else if IsWord(w, "episode") {
      WordIsAt(token, w, "episode");
      EpisodeWordAt(token, "episode", gap, x);
    }
  }

  lemma NumberAfterWord(token: string, n: nat, gap: string, x: string)
    requires IsNumber(x) && Blank(gap) && gap != "" && |token| == n + |gap| + |x|
    requires Holds(token, n, gap) && Holds(token, n + |gap|, x)
    ensures Spaces(token, n) == Some(n + |gap|) && NumberToEnd(token, n + |gap|)
  {
    RunAt(token, n + |gap|, x);
    assert !IsSpace(token[n + |gap|]);
    GapAt(token, n, gap);
  }

  lemma SeasonWordAt(token: string, gap: string, x: string)
    requires IsNumber(x) && Blank(gap) && gap != "" && |token| == 6 + |gap| + |x| && WordAt(token, 0, "season")
    requires Holds(token, 6, gap) && Holds(token, 6 + |gap|, x) && token[6 + |gap|..] == x
    ensures ParseToken(token) == OnlySeason(x)
  {
    hide Value, BoundedPositive, SeasonOf, EpisodeOf, AllDigits, DigitsEnd, SpacesEnd, Spaces, NumberToEnd;
    NumberAfterWord(token, 6, gap, x);
    Bounds(x);
    assert Folds(token[0], 's') && Folds(token[0 + 1], 'e') by { assert "season"[0] == 's' && "season"[1] == 'e'; }
    NoNumber(token);
    NoNumberAt(token, 1);
  }

  lemma NoNumberAt(s: string, i: nat)
    requires i < |s| && !IsAsciiDigit(s[i])
    ensures Number(s, i) == None && !NumberToEnd(s, i)
  {
  }

  lemma EpisodeWordAt(token: string, word: string, gap: string, x: string)
    requires word in {"ep", "episode"} && IsNumber(x) && Blank(gap) && gap != ""
    requires |token| == |word| + |gap| + |x| && WordAt(token, 0, word)
    requires Holds(token, |word|, gap) && Holds(token, |word| + |gap|, x) && token[|word| + |gap|..] == x
    ensures ParseToken(token) == OnlyEpisode(x)
  {
    hide Value, BoundedPositive, SeasonOf, EpisodeOf, AllDigits, DigitsEnd, SpacesEnd, Spaces, NumberToEnd;
    NumberAfterWord(token, |word|, gap, x);
    Bounds(x);
    assert Folds(token[0], 'e') && Folds(token[0 + 1], 'p') by { assert word[0] == 'e' && word[1] == 'p'; }
    NoNumber(token);
    NoNumberAt(token, 1);
    assert WordDigits(token, "season") == None by { assert "season"[0] == 's' && !Folds(token[0 + 0], 's'); }
    if word == "episode" {
      assert Folds(token[0 + 2], 'i') by { assert word[2] == 'i'; }
      NoSpaces(token, 2);
    }
  }

  lemma NoSpaces(s: string, i: nat)
    requires i < |s| && !IsSpace(s[i])
    ensures Spaces(s, i) == None
  {
  }

  /** An explicit filter: a number, with or without its letter in either case, and white space around it. */
  lemma FilterForm(front: string, letter: string, x: string, back: string, prefix: char, maximum: nat)
    requires Blank(front) && Blank(back) && IsNumber(x) && prefix in "se" && maximum <= MAX_UINT64
    requires letter == "" || letter == [prefix] || letter == [(prefix as int - 32) as char]
    ensures Query.ParseExplicit(front + letter + x + back, prefix, maximum) ==
              if 1 <= Value(x) <= maximum then Some(Value(x)) else None
  {
    hide TrimSpace, Value, AllDigits;
    var text := letter + x;
    EndsOfNumber(letter, x);
    TrimGives(front, text, back);
    assert front + letter + x + back == front + text + back;
    if letter == "" {
      assert text == x;
      FirstDigit(x);
    } else {
      assert text[0] == letter[0] && text[1..] == x;
    }
  }

  lemma FirstDigit(x: string)
    requires IsNumber(x)
    ensures IsAsciiDigit(x[0]) && IsAsciiDigit(x[|x| - 1])
  {
  }

  lemma EndsOfNumber(letter: string, x: string)
    requires IsNumber(x) && |letter| <= 1 && (letter != "" ==> !IsSpace(letter[0]))
    ensures letter + x != "" && !IsSpace((letter + x)[0]) && EndsInWord(letter + x)
  {
    FirstDigit(x);
    assert (letter + x)[|letter + x| - 1] == x[|x| - 1];
    assert letter == "" ==> letter + x == x;
  }

  // ---------- numeric continuations by position ----------

  predicate SpacesBetween(s: string, i: int, j: int) {
    0 <= i <= j <= |s| && forall k :: i <= k < j ==> IsSpace(s[k])
  }

  predicate DigitsBetween(s: string, i: int, j: int) {
    0 <= i <= j <= |s| && forall k :: i <= k < j ==> IsAsciiDigit(s[k])
  }

  /** One of the five runes that continue a number. */
  predicate Continues(r: char) {
    r as int in {0x2e, 0x2d, 0x2013, 0x2014, 0x2f}
  }

  lemma ContinuationsByCode(r: char)
    ensures IsContinuation(r) <==> Continues(r)
  {
    var all := ".-\U{2013}\U{2014}/";
    assert all[0] == '.' && all[1] == '-' && all[2] == '\U{2013}' && all[3] == '\U{2014}' && all[4] == '/';
    assert '.' as int == 0x2e && '-' as int == 0x2d && '/' as int == 0x2f;
  }

  /** White space up to a, a separator there, white space up to b, and digits up to c, where they end. */
  predicate NumberFollows(s: string, end: nat, a: int, b: int, c: int) {
    && SpacesBetween(s, end, a) && a < |s| && Continues(s[a]) && SpacesBetween(s, a + 1, b)
    && DigitsBetween(s, b, c) && b < c && (c < |s| ==> !IsAsciiDigit(s[c]))
  }

  /** White space on both sides of the separator makes the number part of the title, where it must, if it is a year. */
  predicate BelongsToTitle(end: int, a: int, b: int, c: int, allow: bool) {
    end < a && a + 1 < b && (allow || c - b == 4)
  }

  lemma ContinuesAfterExactly(s: string, end: nat, allow: bool)
    requires end <= |s|
    ensures ContinuesAfter(s, end, allow) <==>
              exists a, b, c :: NumberFollows(s, end, a, b, c) && !BelongsToTitle(end, a, b, c, allow)
  {
    hide SpacesEnd, DigitsEnd;
    var gap := SpacesEnd(s, end);
    if ContinuesAfter(s, end, allow) {
      ContinuationsByCode(s[gap]);
      var digits := SpacesEnd(s, gap + 1);
      assert NumberFollows(s, end, gap, digits, DigitsEnd(s, digits));
    }
    if a, b, c :| NumberFollows(s, end, a, b, c) && !BelongsToTitle(end, a, b, c, allow) {
      FollowsUniquely(s, end, a, b, c);
      ContinuationsByCode(s[a]);
    }
  }

  lemma FollowsUniquely(s: string, end: nat, a: int, b: int, c: int)
    requires end <= |s| && NumberFollows(s, end, a, b, c)
    ensures a == SpacesEnd(s, end) && b == SpacesEnd(s, a + 1) && c == DigitsEnd(s, b)
  {
    assert !IsSpace(s[a]) && !IsSpace(s[b]) && IsAsciiDigit(s[b]);
    DigitsRun(s, b, c);
  }

  /** The same to the left: a digit, white space, a separator, white space. */
  predicate NumberPrecedes(s: string, start: nat, a: int, b: int) {
    && SpacesBetween(s, a, start) && 0 < a && Continues(s[a - 1]) && SpacesBetween(s, b, a - 1)
    && 0 < b && IsAsciiDigit(s[b - 1])
  }

  lemma ContinuesBeforeExactly(s: string, start: nat)
    requires start <= |s|
    ensures ContinuesBefore(s, start) <==>
              exists a, b :: NumberPrecedes(s, start, a, b) && !(a < start && b < a - 1)
  {
    hide SpacesStart;
    var gap := SpacesStart(s, start);
    if ContinuesBefore(s, start) {
      ContinuationsByCode(s[gap - 1]);
      assert NumberPrecedes(s, start, gap, SpacesStart(s, gap - 1));
    }
    if a, b :| NumberPrecedes(s, start, a, b) && !(a < start && b < a - 1) {
      assert !IsSpace(s[a - 1]) && !IsSpace(s[b - 1]);
      ContinuationsByCode(s[a - 1]);
      assert a == gap && b == SpacesStart(s, a - 1);
    }
  }

  // ---------- what is a token ----------

  /** A letter in either case; the long s counts as an s. */
  predicate LetterIs(s: string, i: int, lower: char)
    requires lower in "sex"
  {
    0 <= i < |s| && (s[i] == lower || s[i] as int == lower as int - 0x20 || (lower == 's' && s[i] as int == 0x17f))
  }

  predicate SomeDigits(s: string, i: int, j: int) {
    i < j && DigitsBetween(s, i, j)
  }

  predicate SomeSpaces(s: string, i: int, j: int) {
    i < j && SpacesBetween(s, i, j)
  }

  ghost predicate IsPair(s: string, i: int, e: int) {
    exists j, k :: LetterIs(s, i, 's') && SomeDigits(s, i + 1, j) && SpacesBetween(s, j, k) && LetterIs(s, k, 'e')
                   && SomeDigits(s, k + 1, e)
  }

  ghost predicate IsCross(s: string, i: int, e: int) {
    exists j :: SomeDigits(s, i, j) && LetterIs(s, j, 'x') && SomeDigits(s, j + 1, e)
  }

  ghost predicate IsWordToken(s: string, i: nat, e: int, word: string)
    requires forall k :: 0 <= k < |word| ==> 'a' <= word[k] <= 'z'
  {
    exists j :: WordAt(s, i, word) && SomeSpaces(s, i + |word|, j) && SomeDigits(s, j, e)
  }

  ghost predicate IsLetterToken(s: string, i: int, e: int) {
    (LetterIs(s, i, 's') || LetterIs(s, i, 'e')) && SomeDigits(s, i + 1, e)
  }

  /** The forms of a token: S1E2 with white space or none between, 1x2, a word and a number, a letter and a number. */
  ghost predicate IsTokenForm(s: string, i: nat, e: int) {
    || IsPair(s, i, e) || IsCross(s, i, e) || IsLetterToken(s, i, e)
    || IsWordToken(s, i, e, "season") || IsWordToken(s, i, e, "episode") || IsWordToken(s, i, e, "ep")
  }

  lemma NumberIs(s: string, i: nat)
    ensures Number(s, i).Some? <==> exists j :: SomeDigits(s, i, j)
    ensures Number(s, i).Some? ==> SomeDigits(s, i, Number(s, i).value)
  {
    if Number(s, i).Some? {
      assert SomeDigits(s, i, Number(s, i).value);
    }
    if j :| SomeDigits(s, i, j) {
      assert IsAsciiDigit(s[i]);
    }
  }

  /** Every token found has one of these forms. */
  lemma TokensHaveTheseForms(s: string, i: nat)
    requires MatchAt(s, i).Some?
    ensures IsTokenForm(s, i, MatchAt(s, i).value)
  {
    hide Number, Spaces, WordAt;
    var e := MatchAt(s, i).value;
    if SpacedPair(s, i).Some? {
      var j := LetterNumber(s, i, 's').value;
      var k := Spaces(s, j).value;
      SpacesAre(s, j);
      NumberIs(s, i + 1);
      NumberIs(s, k + 1);
      assert LetterIs(s, i, 's') && LetterIs(s, k, 'e') && SpacesBetween(s, j, k);
    } else if JoinedPair(s, i).Some? {
      var j := LetterNumber(s, i, 's').value;
      NumberIs(s, i + 1);
      NumberIs(s, j + 1);
      assert LetterIs(s, i, 's') && LetterIs(s, j, 'e') && SpacesBetween(s, j, j);
    } else if CrossPair(s, i).Some? {
      var j := Number(s, i).value;
      NumberIs(s, i);
      NumberIs(s, j + 1);
      assert LetterIs(s, j, 'x');
    } else if WordNumber(s, i, "season").Some? {
      WordTokenIs(s, i, "season");
    } else if WordNumber(s, i, "episode").Some? {
      WordTokenIs(s, i, "episode");
    } else if WordNumber(s, i, "ep").Some? {
      WordTokenIs(s, i, "ep");
    } else {
      NumberIs(s, i + 1);
    }
  }

  lemma SpacesAre(s: string, i: nat)
    ensures Spaces(s, i).Some? <==> exists j :: SomeSpaces(s, i, j)
    ensures Spaces(s, i).Some? ==> SomeSpaces(s, i, Spaces(s, i).value)
  {
    if Spaces(s, i).Some? {
      assert SomeSpaces(s, i, Spaces(s, i).value);
    }
    if j :| SomeSpaces(s, i, j) {
      assert IsSpace(s[i]);
    }
  }

  lemma WordTokenIs(s: string, i: nat, word: string)
    requires forall k :: 0 <= k < |word| ==> 'a' <= word[k] <= 'z'
    requires WordNumber(s, i, word).Some?
    ensures IsWordToken(s, i, WordNumber(s, i, word).value, word)
  {
    hide Number, Spaces, WordAt;
    var j := Spaces(s, i + |word|).value;
    SpacesAre(s, i + |word|);
    NumberIs(s, j);
  }

  lemma RunsReach(s: string, i: nat, j: int)
    requires SomeDigits(s, i, j)
    ensures Number(s, i).Some? && j <= Number(s, i).value && i < |s| && IsAsciiDigit(s[i])
    ensures j < |s| && !IsAsciiDigit(s[j]) ==> Number(s, i) == Some(j)
  {
    assert IsAsciiDigit(s[i]);
  }

  lemma WordRune(s: string, i: nat, word: string, k: nat)
    requires forall n :: 0 <= n < |word| ==> 'a' <= word[n] <= 'z'
    requires k < |word|
    ensures WordAt(s, i, word) ==> i + |word| <= |s| && Folds(s[i + k], word[k])
  {
  }

  lemma DigitIsNoLetter(s: string, i: nat)
    requires i < |s| && IsAsciiDigit(s[i])
    ensures !LetterAt(s, i, 's') && !LetterAt(s, i, 'e') && !LetterAt(s, i, 'p')
    ensures !WordAt(s, i, "season") && !WordAt(s, i, "episode") && !WordAt(s, i, "ep")
  {
    WordRune(s, i, "season", 0);
    WordRune(s, i, "episode", 0);
    WordRune(s, i, "ep", 0);
  }

  lemma LetterReaches(s: string, i: nat, e: int, lower: char)
    requires lower in "sex" && LetterIs(s, i, lower) && SomeDigits(s, i + 1, e)
    ensures LetterNumber(s, i, lower).Some? && e <= LetterNumber(s, i, lower).value
  {
    RunsReach(s, i + 1, e);
  }

  lemma PairReaches(s: string, i: nat, e: int)
    requires IsPair(s, i, e)
    ensures MatchAt(s, i).Some? && e <= MatchAt(s, i).value
  {
    hide Number, CrossPair, WordNumber;
    var j, k :| LetterIs(s, i, 's') && SomeDigits(s, i + 1, j) && SpacesBetween(s, j, k) && LetterIs(s, k, 'e')
                && SomeDigits(s, k + 1, e);
    assert !IsAsciiDigit(s[j]);
    RunsReach(s, i + 1, j);
    LetterReaches(s, k, e, 'e');
    assert SpacesEnd(s, j) == k;
  }

  lemma CrossReaches(s: string, i: nat, e: int)
    requires IsCross(s, i, e)
    ensures MatchAt(s, i).Some? && e <= MatchAt(s, i).value
  {
    hide Number, WordNumber;
    var j :| SomeDigits(s, i, j) && LetterIs(s, j, 'x') && SomeDigits(s, j + 1, e);
    RunsReach(s, i, j);
    LetterReaches(s, j, e, 'x');
    DigitIsNoLetter(s, i);
  }

  lemma LetterTokenReaches(s: string, i: nat, e: int)
    requires IsLetterToken(s, i, e)
    ensures MatchAt(s, i).Some? && e <= MatchAt(s, i).value
  {
    hide Number, Spaces, WordAt;
    RunsReach(s, i + 1, e);
    DigitIsNoLetter(s, i + 1);
    NoWordBeforeDigit(s, i);
    assert !IsAsciiDigit(s[i]);
    NoNumberAt(s, i);
  }

  lemma NoWordBeforeDigit(s: string, i: nat)
    requires i + 1 < |s| && IsAsciiDigit(s[i + 1])
    ensures !WordAt(s, i, "season") && !WordAt(s, i, "episode") && !WordAt(s, i, "ep")
  {
    WordRune(s, i, "season", 1);
    WordRune(s, i, "episode", 1);
    WordRune(s, i, "ep", 1);
  }

  lemma WordReaches(s: string, i: nat, e: int, word: string)
    requires word in {"season", "episode", "ep"} && IsWordToken(s, i, e, word)
    ensures MatchAt(s, i).Some? && e <= MatchAt(s, i).value
  {
    hide WordNumber, WordAt, IsWordToken, MatchAt;
    WordMatches(s, i, e, word);
    OnlyThatWord(s, i, word);
  }

  lemma WordMatches(s: string, i: nat, e: int, word: string)
    requires forall k :: 0 <= k < |word| ==> 'a' <= word[k] <= 'z'
    requires IsWordToken(s, i, e, word)
    ensures WordNumber(s, i, word).Some? && e <= WordNumber(s, i, word).value
    ensures WordAt(s, i, word) && i + |word| < |s| && IsSpace(s[i + |word|])
  {
    hide WordAt, Number;
    var j :| WordAt(s, i, word) && SomeSpaces(s, i + |word|, j) && SomeDigits(s, j, e);
    RunsReach(s, j, e);
    assert SpacesEnd(s, i + |word|) == j;
  }

  /** A word that is followed by white space is read as nothing else. */
  lemma OnlyThatWord(s: string, i: nat, word: string)
    requires word in {"season", "episode", "ep"} && WordAt(s, i, word) && WordNumber(s, i, word).Some?
    requires i + |word| < |s| && IsSpace(s[i + |word|])
    ensures MatchAt(s, i) == WordNumber(s, i, word)
  {
    hide WordAt, WordNumber;
    WordLetters(s, i, word);
    NoNumberAt(s, i);
    NoNumberAt(s, i + 1);
    OtherWords(s, i, word);
  }

  lemma WordLetters(s: string, i: nat, word: string)
    requires word in {"season", "episode", "ep"} && WordAt(s, i, word)
    ensures i + 1 < |s| && !IsAsciiDigit(s[i]) && !IsAsciiDigit(s[i + 1])
  {
    assert Folds(s[i + 0], word[0]) && Folds(s[i + 1], word[1]);
  }

  lemma OtherWords(s: string, i: nat, word: string)
    requires word in {"season", "episode", "ep"} && WordAt(s, i, word)
    requires i + |word| < |s| && IsSpace(s[i + |word|])
    ensures word != "season" ==> WordNumber(s, i, "season") == None
    ensures word == "ep" ==> WordNumber(s, i, "episode") == None
  {
    hide Number, Spaces, WordAt;
    WordRune(s, i, word, 0);
    WordRune(s, i, "season", 0);
    WordRune(s, i, "episode", 2);
  }

  /** A token is as long as any of these forms that starts where it does, so the longest one is found. */
  lemma TokensAreLongest(s: string, i: nat, e: int)
    requires IsTokenForm(s, i, e)
    ensures MatchAt(s, i).Some? && e <= MatchAt(s, i).value
  {
    hide IsPair, IsCross, IsLetterToken, IsWordToken, MatchAt;
    if IsPair(s, i, e) { PairReaches(s, i, e); }
    if IsCross(s, i, e) { CrossReaches(s, i, e); }
    if IsLetterToken(s, i, e) { LetterTokenReaches(s, i, e); }
    if IsWordToken(s, i, e, "season") { WordReaches(s, i, e, "season"); }
    if IsWordToken(s, i, e, "episode") { WordReaches(s, i, e, "episode"); }
    if IsWordToken(s, i, e, "ep") { WordReaches(s, i, e, "ep"); }
  }
}
