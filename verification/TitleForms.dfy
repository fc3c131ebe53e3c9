/**
The forms in which a title states episodes and seasons, each with the numbers it is read as
(internal/torznab/title.go).
*/
module TitleForms {
  import opened Common
  import opened Runes
  import opened Decimal
  import opened QueryTokens
  import opened SeasonForms
  import opened Seasons
  import opened Title
  import opened TokenForms
  import opened Whitespace

  // ---------- episode groups ----------

  predicate IsDashCode(r: char) {
    r as int in {0x2d, 0x2013, 0x2014}
  }

  lemma DashesByCode(r: char)
    ensures IsDash(r) <==> IsDashCode(r)
  {
    var all := "-\U{2013}\U{2014}";
    assert all[0] == '-' && all[1] == '\U{2013}' && all[2] == '\U{2014}' && '-' as int == 0x2d;
  }

  function OneEpisode(x: string): Option<EpisodeRange>
    requires IsNumber(x)
  {
    if EpisodeOf(x).Some? then Some(EpisodeRange(Value(x), Value(x))) else None
  }

  function FromTo(x: string, y: string): Option<EpisodeRange>
    requires IsNumber(x) && IsNumber(y)
  {
    if EpisodeOf(x).Some? && EpisodeOf(y).Some? && Value(x) <= Value(y)
    then Some(EpisodeRange(Value(x), Value(y))) else None
  }

  /** The end of a text from i on: a number, or two with a dash and any white space between them. */
  ghost predicate NumberFrom(s: string, i: nat, x: string) {
    IsNumber(x) && |s| == i + |x| && Holds(s, i, x)
  }

  ghost predicate RangeFrom(s: string, i: nat, x: string, before: string, dash: char, after: string, y: string) {
    && IsNumber(x) && IsNumber(y) && Blank(before) && Blank(after) && IsDashCode(dash)
    && |s| == i + |x| + |before| + 1 + |after| + |y| && Holds(s, i, x) && Holds(s, i + |x|, before)
    && s[i + |x| + |before|] == dash && Holds(s, i + |x| + |before| + 1, after)
    && Holds(s, i + |x| + |before| + 1 + |after|, y)
  }

  lemma ReadsNumber(s: string, i: nat, x: string)
    requires NumberFrom(s, i, x)
    ensures NumberOrRange(s, i) == Some(Captures(x, None)) && Number(s, i) == Some(|s|) && IsAsciiDigit(s[i])
  {
    RunAt(s, i, x);
  }

  lemma ReadsTail(s: string, i: nat, x: string, before: string, dash: char, after: string, y: string)
    requires RangeFrom(s, i, x, before, dash, after, y)
    ensures Number(s, i) == Some(i + |x|) && IsAsciiDigit(s[i]) && RangeTail(s, i + |x|) == Some(y)
  {
    hide DigitsEnd, AllDigits;
    var j, k, l := i + |x|, i + |x| + |before|, i + |x| + |before| + 1 + |after|;
    DashesByCode(dash);
    if before != "" {
      HoldsAt(s, j, before, j);
    }
    RunAt(s, l, y);
    GapAt(s, k + 1, after);
    GapAt(s, j, before);
    assert !IsAsciiDigit(s[j]);
    RunAt(s, i, x);
    assert s[l..] == y;
  }

  lemma ReadsRange(s: string, i: nat, x: string, before: string, dash: char, after: string, y: string)
    requires RangeFrom(s, i, x, before, dash, after, y)
    ensures NumberOrRange(s, i) == Some(Captures(x, Some(y)))
  {
    hide RangeTail, Number;
    ReadsTail(s, i, x, before, dash, after, y);
  }

  /** What may stand in front of the numbers of a group: nothing, or E or EP in any case with white space or none. */
  ghost predicate IsPrefix(prefix: string, gap: string) {
    Blank(gap) && ((prefix == "" && gap == "") || IsWord(prefix, "e") || IsWord(prefix, "ep"))
  }

  lemma CapturesOf(s: string, prefix: string, gap: string, captures: Captures)
    requires IsPrefix(prefix, gap) && Holds(s, 0, prefix) && Holds(s, |prefix|, gap)
    requires |prefix| + |gap| < |s| && IsAsciiDigit(s[|prefix| + |gap|])
    requires NumberOrRange(s, |prefix| + |gap|) == Some(captures)
    ensures EpisodeExpression(s) == Some(captures)
  {
    hide NumberOrRange, WordNumber, SpacesEnd, WordAt, RangeTail;
    if prefix != "" {
      GapAt(s, |prefix|, gap);
      HoldsAt(s, 0, prefix, 0);
      PrefixRunes(prefix);
      NoNumbersAt(s, 0);
      if IsWord(prefix, "e") {
        assert LetterAt(s, 0, 'e');
      } else {
        WordIsAt(s, prefix, "ep");
        HoldsAt(s, 0, prefix, 1);
        assert SpacesEnd(s, 1) == 1 by { NoGap(s, 1); }
        NoNumbersAt(s, 1);
      }
    }
  }

  lemma PrefixRunes(prefix: string)
    requires IsWord(prefix, "e") || IsWord(prefix, "ep")
    ensures Folds(prefix[0], 'e') && (IsWord(prefix, "ep") ==> Folds(prefix[1], 'p'))
  {
    assert "e"[0] == 'e' && "ep"[0] == 'e' && "ep"[1] == 'p';
    assert IsWord(prefix, "e") ==> Folds(prefix[0 + 0], "e"[0]);
    assert IsWord(prefix, "ep") ==> Folds(prefix[0 + 0], "ep"[0]) && Folds(prefix[0 + 1], "ep"[1]);
  }

  lemma NoGap(s: string, i: nat)
    requires i < |s| && !IsSpace(s[i])
    ensures SpacesEnd(s, i) == i
  {
  }

  lemma NoNumbersAt(s: string, i: nat)
    requires i < |s| && !IsAsciiDigit(s[i])
    ensures NumberOrRange(s, i) == None
  {
  }

  lemma Untrimmed(s: string)
    requires s != "" && !IsSpace(s[0]) && EndsInWord(s)
    ensures TrimSpace(s) == s
  {
    TrimGives("", s, "");
    assert "" + s + "" == s;
  }

  lemma GroupStarts(s: string, prefix: string, gap: string)
    requires IsPrefix(prefix, gap) && Holds(s, 0, prefix) && |prefix| + |gap| < |s|
    requires IsAsciiDigit(s[|prefix| + |gap|])
    ensures !IsSpace(s[0])
  {
    if prefix != "" {
      HoldsAt(s, 0, prefix, 0);
      PrefixRunes(prefix);
    }
  }

  lemma LastDigit(s: string, i: nat, x: string)
    requires IsNumber(x) && Holds(s, i, x) && |s| == i + |x|
    ensures EndsInWord(s)
  {
    HoldsAt(s, i, x, |s| - 1);
  }

  /** A group with one number, bare or behind E or EP, is that episode. */
  lemma SingleGroup(prefix: string, gap: string, x: string)
    requires IsPrefix(prefix, gap) && IsNumber(x)
    ensures GroupRange(prefix + gap + x) == OneEpisode(x)
  {
    hide EpisodeExpression, NumberOrRange, IsPrefix, TrimSpace, BoundedPositive, AllDigits, Value;
    var s, i := prefix + gap + x, |prefix| + |gap|;
    assert Holds(s, 0, prefix) && Holds(s, |prefix|, gap) && Holds(s, i, x);
    ReadsNumber(s, i, x);
    CapturesOf(s, prefix, gap, Captures(x, None));
    GroupStarts(s, prefix, gap);
    LastDigit(s, i, x);
    Untrimmed(s);
    Bounds(x);
  }

  /** A group with two numbers and a dash is that range, unless it runs backwards. */
  lemma RangeGroup(prefix: string, gap: string, x: string, before: string, dash: char, after: string, y: string)
    requires IsPrefix(prefix, gap) && IsNumber(x) && IsNumber(y) && Blank(before) && Blank(after) && IsDashCode(dash)
    ensures GroupRange(prefix + gap + x + before + [dash] + after + y) == FromTo(x, y)
  {
    hide EpisodeExpression, NumberOrRange, IsPrefix, TrimSpace, BoundedPositive, AllDigits, Value, Blank;
    var s, i := prefix + gap + x + before + [dash] + after + y, |prefix| + |gap|;
    RangeHolds(prefix + gap, x, before, dash, after, y);
    assert Holds(s, 0, prefix) && Holds(s, |prefix|, gap) by {
      assert s[..i] == prefix + gap;
    }
    ReadsRange(s, i, x, before, dash, after, y);
    ReadsTail(s, i, x, before, dash, after, y);
    CapturesOf(s, prefix, gap, Captures(x, Some(y)));
    GroupStarts(s, prefix, gap);
    LastDigit(s, |s| - |y|, y);
    Untrimmed(s);
    Bounds(x);
    Bounds(y);
  }

  lemma RangeHolds(front: string, x: string, before: string, dash: char, after: string, y: string)
    requires IsNumber(x) && IsNumber(y) && Blank(before) && Blank(after) && IsDashCode(dash)
    ensures RangeFrom(front + x + before + [dash] + after + y, |front|, x, before, dash, after, y)
  {
  }

  /** Episode and a number, and Episodes and a range, each with white space behind the word. */
  lemma WordGroups(w: string, gap: string, x: string, before: string, dash: char, after: string, y: string)
    requires Blank(gap) && gap != "" && IsNumber(x) && IsNumber(y)
    requires Blank(before) && Blank(after) && IsDashCode(dash)
    ensures IsWord(w, "episode") ==> GroupRange(w + gap + x) == OneEpisode(x)
    ensures IsWord(w, "episodes") ==> GroupRange(w + gap + x + before + [dash] + after + y) == FromTo(x, y)
  {
    hide EpisodeExpression, TrimSpace, BoundedPositive, AllDigits, Value, Blank;
    if IsWord(w, "episode") {
      var s := w + gap + x;
      assert Holds(s, 0, w) && Holds(s, |w|, gap) && Holds(s, |w| + |gap|, x);
      EpisodeWord(s, w, gap, x);
      LastDigit(s, |w| + |gap|, x);
      Untrimmed(s);
      Bounds(x);
    }
    if IsWord(w, "episodes") {
      var s := w + gap + x + before + [dash] + after + y;
      RangeHolds(w + gap, x, before, dash, after, y);
      assert Holds(s, 0, w) && Holds(s, |w|, gap) by {
        assert s[..|w| + |gap|] == w + gap;
      }
      EpisodesWord(s, w, gap, x, before, dash, after, y);
      LastDigit(s, |s| - |y|, y);
      Untrimmed(s);
      Bounds(x);
      Bounds(y);
    }
  }

  /** The first expressions do not match a text that starts with the word episode. */
  lemma NoPrefixMatches(s: string)
    requires WordAt(s, 0, "episode")
    ensures NumberOrRange(s, 0) == None && NumberOrRange(s, SpacesEnd(s, 1)) == None
    ensures NumberOrRange(s, SpacesEnd(s, 2)) == None && !IsSpace(s[0])
  {
    var word := "episode";
    assert word[0] == 'e' && word[1] == 'p' && word[2] == 'i';
    assert Folds(s[0 + 0], word[0]) && Folds(s[0 + 1], word[1]) && Folds(s[0 + 2], word[2]);
    NoGap(s, 1);
    NoGap(s, 2);
    NoNumbersAt(s, 0);
    NoNumbersAt(s, 1);
    NoNumbersAt(s, 2);
  }

  lemma EpisodeWord(s: string, w: string, gap: string, x: string)
    requires IsWord(w, "episode") && Blank(gap) && gap != "" && IsNumber(x) && |s| == |w| + |gap| + |x|
    requires Holds(s, 0, w) && Holds(s, |w|, gap) && Holds(s, |w| + |gap|, x)
    ensures EpisodeExpression(s) == Some(Captures(x, None)) && !IsSpace(s[0])
  {
    hide NumberOrRange, RangeTail, AllDigits, DigitsEnd, WordAt;
    WordIsAt(s, w, "episode");
    NoPrefixMatches(s);
    RunAt(s, |w| + |gap|, x);
    assert !IsSpace(s[|w| + |gap|]);
    GapAt(s, |w|, gap);
    assert WordNumber(s, 0, "episode") == Some(|s|);
    assert s[|w| + |gap|..] == x;
  }

  lemma EpisodesWord(
      s: string, w: string, gap: string, x: string, before: string, dash: char, after: string, y: string)
    requires IsWord(w, "episodes") && Blank(gap) && gap != ""
    requires RangeFrom(s, |w| + |gap|, x, before, dash, after, y)
    requires Holds(s, 0, w) && Holds(s, |w|, gap)
    ensures EpisodeExpression(s) == Some(Captures(x, Some(y))) && !IsSpace(s[0])
  {
    hide NumberOrRange, RangeTail, AllDigits, DigitsEnd, WordAt;
    WordIsAt(s, w, "episodes");
    ShorterWord(s);
    NoPrefixMatches(s);
    ReadsTail(s, |w| + |gap|, x, before, dash, after, y);
    assert !IsSpace(s[|w| + |gap|]);
    GapAt(s, |w|, gap);
    assert WordNumber(s, 0, "episodes") == Some(|w| + |gap| + |x|);
    assert Spaces(s, 7) == None by { LastLetter(s); }
    assert s[|w| + |gap|..|w| + |gap| + |x|] == x;
  }

  lemma ShorterWord(s: string)
    requires WordAt(s, 0, "episodes")
    ensures WordAt(s, 0, "episode")
  {
    forall k | 0 <= k < 7 ensures Folds(s[0 + k], "episode"[k]) {
      assert "episode"[k] == "episodes"[k];
    }
  }

  lemma LastLetter(s: string)
    requires WordAt(s, 0, "episodes")
    ensures Spaces(s, 7) == None
  {
    assert "episodes"[7] == 's' && Folds(s[0 + 7], "episodes"[7]);
    NoSpaces(s, 7);
  }

  // ---------- nothing else is an episode group ----------

  ghost predicate Numbers(s: string, i: nat, captures: Captures) {
    match captures.end
    case None => NumberFrom(s, i, captures.start)
    case Some(y) => exists before, dash, after :: RangeFrom(s, i, captures.start, before, dash, after, y)
  }

  /** The numbers start at i, behind a part of the text up to p and white space. */
  ghost predicate Introduced(s: string, p: nat, i: nat, captures: Captures) {
    && p <= i <= |s|
    && (IsPrefix(s[..p], s[p..i])
        || (IsWord(s[..p], "episode") && p < i && Blank(s[p..i]) && captures.end == None)
        || (IsWord(s[..p], "episodes") && p < i && Blank(s[p..i]) && captures.end.Some?))
  }

  lemma BlankBetween(s: string, i: nat, j: nat)
    requires i <= |s| && j == SpacesEnd(s, i)
    ensures Blank(s[i..j])
  {
  }

  lemma DigitsAre(s: string, i: nat, j: nat)
    requires i < |s| && j == DigitsEnd(s, i) && i < j
    ensures IsNumber(s[i..j]) && Holds(s, i, s[i..j])
  {
  }

  lemma NumbersRead(s: string, i: nat, captures: Captures)
    requires i <= |s| && NumberOrRange(s, i) == Some(captures)
    ensures Numbers(s, i, captures)
  {
    var j := Number(s, i).value;
    DigitsAre(s, i, j);
    if j < |s| {
      TailReads(s, i, j, captures.end.value);
    }
  }

  lemma PiecesOfRange(s: string, i: nat, j: nat, k: nat, l: nat)
    requires i < j <= k < l < |s| && IsNumber(s[i..j]) && IsNumber(s[l..])
    requires Blank(s[j..k]) && IsDashCode(s[k]) && Blank(s[k + 1..l])
    ensures RangeFrom(s, i, s[i..j], s[j..k], s[k], s[k + 1..l], s[l..])
  {
    hide IsNumber, Blank, IsDashCode;
  }

  lemma TailReads(s: string, i: nat, j: nat, y: string)
    requires i < j < |s| && IsNumber(s[i..j]) && RangeTail(s, j) == Some(y)
    ensures exists before, dash, after :: RangeFrom(s, i, s[i..j], before, dash, after, y)
  {
    hide AllDigits, DigitsEnd;
    var k := SpacesEnd(s, j);
    var l := SpacesEnd(s, k + 1);
    BlankBetween(s, j, k);
    BlankBetween(s, k + 1, l);
    DashesByCode(s[k]);
    DigitsAre(s, l, |s|);
    assert s[l..|s|] == s[l..];
    PiecesOfRange(s, i, j, k, l);
  }

  ghost predicate HasForm(s: string, captures: Captures) {
    exists p, i :: Introduced(s, p, i, captures) && Numbers(s, i, captures)
  }

  lemma BehindPrefix(s: string, p: nat, i: nat, captures: Captures)
    requires p <= i <= |s| && IsPrefix(s[..p], s[p..i]) && NumberOrRange(s, i) == Some(captures)
    ensures HasForm(s, captures)
  {
    hide IsPrefix, NumberOrRange, Numbers;
    NumbersRead(s, i, captures);
    assert Introduced(s, p, i, captures);
  }

  lemma BehindEpisode(s: string)
    requires WordNumber(s, 0, "episode") == Some(|s|)
    ensures HasForm(s, Captures(s[SpacesEnd(s, 7)..], None))
  {
    hide WordNumber, SpacesEnd, IsPrefix;
    WordReads(s, "episode");
    var i := SpacesEnd(s, 7);
    var captures := Captures(s[i..], None);
    assert s[i..|s|] == s[i..];
    assert Introduced(s, 7, i, captures);
    assert Numbers(s, i, captures);
  }

  lemma BehindEpisodes(s: string, y: string)
    requires WordNumber(s, 0, "episodes").Some? && RangeTail(s, WordNumber(s, 0, "episodes").value) == Some(y)
    ensures HasForm(s, Captures(s[SpacesEnd(s, 8)..WordNumber(s, 0, "episodes").value], Some(y)))
  {
    hide WordNumber, SpacesEnd, IsPrefix, RangeTail, RangeFrom;
    WordReads(s, "episodes");
    var i, j := SpacesEnd(s, 8), WordNumber(s, 0, "episodes").value;
    var captures := Captures(s[i..j], Some(y));
    assert j < |s| by { TailInside(s, j); }
    TailReads(s, i, j, y);
    assert Introduced(s, 8, i, captures);
    assert Numbers(s, i, captures);
  }

  /** Whatever is read as episodes has one of these forms. */
  lemma GroupsHaveTheseForms(s: string, captures: Captures)
    requires EpisodeExpression(s) == Some(captures)
    ensures exists p, i :: Introduced(s, p, i, captures) && Numbers(s, i, captures)
  {
    hide NumberOrRange, RangeTail, Numbers, WordNumber, Introduced, SpacesEnd, WordAt;
    var one, two := SpacesEnd(s, if s == "" then 0 else 1), SpacesEnd(s, if |s| < 2 then 0 else 2);
    if NumberOrRange(s, 0).Some? {
      assert s[..0] == "" && s[0..0] == "";
      BehindPrefix(s, 0, 0, captures);
    } else if LetterAt(s, 0, 'e') && NumberOrRange(s, one).Some? {
      LetterIsWord(s);
      BlankBetween(s, 1, one);
      BehindPrefix(s, 1, one, captures);
    } else if WordAt(s, 0, "ep") && NumberOrRange(s, two).Some? {
      WordIsWord(s, "ep");
      BlankBetween(s, 2, two);
      BehindPrefix(s, 2, two, captures);
    } else if WordNumber(s, 0, "episode") == Some(|s|) {
      BehindEpisode(s);
    } else {
      BehindEpisodes(s, captures.end.value);
    }
  }

  lemma TailInside(s: string, j: nat)
    requires j <= |s| && RangeTail(s, j).Some?
    ensures j < |s|
  {
  }

  lemma LetterIsWord(s: string)
    requires LetterAt(s, 0, 'e')
    ensures IsWord(s[..1], "e")
  {
    assert "e"[0] == 'e';
  }

  lemma WordIsWord(s: string, word: string)
    requires forall k :: 0 <= k < |word| ==> 'a' <= word[k] <= 'z'
    requires WordAt(s, 0, word)
    ensures IsWord(s[..|word|], word)
  {
    forall k | 0 <= k < |word| ensures Folds(s[..|word|][0 + k], word[k]) {
      assert Folds(s[0 + k], word[k]);
    }
  }

  lemma WordReads(s: string, word: string)
    requires forall k :: 0 <= k < |word| ==> 'a' <= word[k] <= 'z'
    requires WordNumber(s, 0, word).Some?
    ensures |word| <= |s| && IsWord(s[..|word|], word)
    ensures var i, j := SpacesEnd(s, |word|), WordNumber(s, 0, word).value;
            |word| < i < j && Blank(s[|word|..i]) && IsNumber(s[i..j]) && Holds(s, i, s[i..j])
  {
    WordIsWord(s, word);
    var i, j := SpacesEnd(s, |word|), WordNumber(s, 0, word).value;
    BlankBetween(s, |word|, i);
    DigitsAre(s, i, j);
  }

  // ---------- the range of a label ----------

  /** Of the groups that give a range the last one decides. */
  lemma {:induction false} LastOfRanges(groups: seq<string>, k: nat)
    requires k < |groups| && forall j :: k < j < |groups| ==> GroupRange(groups[j]).None?
    ensures GroupRange(groups[k]).Some? ==> LastRange(groups) == GroupRange(groups[k])
    ensures (forall j :: 0 <= j < |groups| ==> GroupRange(groups[j]).None?) ==> LastRange(groups) == None
    decreases |groups|
  {
    hide GroupRange;
    var n := |groups| - 1;
    if k < n {
      LastOfRanges(groups[..n], k);
    } else {
      NoRanges(groups);
    }
  }

  lemma {:induction false} NoRanges(groups: seq<string>)
    ensures (forall j :: 0 <= j < |groups| ==> GroupRange(groups[j]).None?) ==> LastRange(groups) == None
  {
    hide GroupRange;
    if groups != [] {
      NoRanges(groups[..|groups| - 1]);
    }
  }

  // ---------- the title of a label ----------

  ghost predicate Unbracketed(s: string) {
    forall k :: 0 <= k < |s| ==> s[k] != '['
  }

  /** Nothing, or text that starts with a bracket. */
  predicate IsRest(rest: string) {
    rest == "" || rest[0] == '['
  }

  lemma CutAtBracket(front: string, rest: string)
    requires Unbracketed(front) && IsRest(rest)
    ensures Semantic(front + rest) == TrimSpace(WithoutDistributor(front))
  {
    hide TrimSpace, WithoutDistributor;
    var s := front + rest;
    var start := BracketStart(s, 0);
    assert forall k :: 0 <= k < |front| ==> s[k] == front[k];
    assert rest != "" ==> s[|front|] == rest[0];
    assert start == |front| && s[..start] == front;
  }

  /** A distributor at the end of the title goes, and what stands from the first bracket on. */
  lemma DistributedTitleIsLeft(
      s: string, title: string, before: string, after: string, name: string, domain: string, back: string, rest: string)
    requires DistributorForm(s, title, before, after, name, domain, back) && Unbracketed(s) && IsRest(rest)
    requires title != "" && !IsSpace(title[0])
    ensures Semantic(s + rest) == title
  {
    hide TrimSpace, WithoutDistributor, Semantic, IsDistributor;
    CutAtBracket(s, rest);
    DistributorGoes(s, title, before, after, name, domain, back);
    Untrimmed(title);
  }

  /** Any other title is left as it stands. */
  lemma PlainTitleIsLeft(title: string, gap: string, rest: string)
    requires title != "" && !IsSpace(title[0]) && EndsInWord(title) && Blank(gap)
    requires Unbracketed(title + gap) && IsRest(rest)
    requires forall front :: !EndsInDistributor(title + gap, front)
    ensures Semantic(title + gap + rest) == title
  {
    hide TrimSpace, WithoutDistributor, Semantic, EndsInDistributor;
    var s := title + gap;
    CutAtBracket(s, rest);
    if WithoutDistributor(s) != s {
      OnlyDistributorsGo(s);
    }
    TrimGives("", title, gap);
    assert "" + title + gap == s;
  }
}
