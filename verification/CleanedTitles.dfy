/**
Query cleanup from end to end (internal/torznab/query.go): what is left of a title with an episode tag in front of
it or behind it, in brackets or not, whatever white space and separators stand between the two.
*/
module CleanedTitles {
  import opened Common
  import opened Runes
  import opened Decimal
  import opened QueryTokens
  import opened TokenForms
  import opened TechnicalPairs
  import opened EdgeSeparators
  import W = Whitespace
  import opened Query

  // ---------- a collapsed text is told by its words ----------

  function Rendered(strokes: seq<W.Stroke>): string {
    if strokes == [] then ""
    else
      var last := strokes[|strokes| - 1];
      Rendered(strokes[..|strokes| - 1]) + (if last.apart then " " else "") + [last.rune]
  }

  lemma RenderPush(strokes: seq<W.Stroke>, r: char, apart: bool)
    ensures Rendered(strokes + [W.Stroke(r, apart)]) == Rendered(strokes) + (if apart then " " else "") + [r]
  {
    assert (strokes + [W.Stroke(r, apart)])[..|strokes|] == strokes;
  }

  lemma {:induction false} CollapsedIsRendered(s: string)
    requires W.Normal(s)
    ensures Rendered(W.Ink(s)) == s
    decreases |s|
  {
    hide W.Ink, Rendered;
    if s == "" {
      NoStrokes();
    } else {
      var front, r := s[..|s| - 1], s[|s| - 1];
      assert s == front + [r];
      assert !IsSpace(r);
      W.InkPush(front, r);
      if front != "" && IsSpace(front[|front| - 1]) {
        var words := front[..|front| - 1];
        assert front == words + [' '];
        assert W.Normal(words) && W.EndsInWord(words) by { NormalWords(s); }
        CollapsedIsRendered(words);
        W.InkPush(words, ' ');
        InkOfWord(words);
        RenderPush(W.Ink(words), r, true);
        assert words + " " + [r] == s;
      } else {
        assert W.Normal(front) by { NormalMost(s); }
        CollapsedIsRendered(front);
        RenderPush(W.Ink(front), r, W.Ink(front) != [] && !W.EndsInWord(front));
        if front == "" {
          NoStrokes();
        }
        assert front + "" + [r] == s;
      }
    }
  }

  lemma NoStrokes()
    ensures W.Ink("") == [] && Rendered([]) == ""
  {
  }

  lemma NormalWords(s: string)
    requires W.Normal(s) && |s| > 1 && IsSpace(s[|s| - 2])
    ensures W.Normal(s[..|s| - 1][..|s| - 2]) && W.EndsInWord(s[..|s| - 1][..|s| - 2])
  {
    var words := s[..|s| - 1][..|s| - 2];
    assert forall k :: 0 <= k < |words| ==> words[k] == s[k];
  }

  lemma NormalMost(s: string)
    requires W.Normal(s) && s != "" && (|s| > 1 ==> !IsSpace(s[|s| - 2]))
    ensures W.Normal(s[..|s| - 1])
  {
    var front := s[..|s| - 1];
    assert forall k :: 0 <= k < |front| ==> front[k] == s[k];
  }

  lemma InkOfWord(s: string)
    requires W.EndsInWord(s)
    ensures W.Ink(s) != []
  {
  }

  /** White space around a text leaves no ink. */
  lemma {:induction false} InkBetweenBlanks(front: string, s: string, back: string)
    requires W.Blank(front) && W.Blank(back) && (s != "" ==> !IsSpace(s[0]))
    ensures W.Ink(front + s + back) == W.Ink(s)
    decreases |back|
  {
    hide W.Ink;
    if back != "" {
      var most := back[..|back| - 1];
      InkBetweenBlanks(front, s, most);
      W.InkPush(front + s + most, back[|back| - 1]);
      assert front + s + back == front + s + most + [back[|back| - 1]];
    } else {
      InkBehindBlanks(front, s);
      assert front + s + back == front + s;
    }
  }

  lemma {:induction false} InkBehindBlanks(front: string, s: string)
    requires W.Blank(front) && (s != "" ==> !IsSpace(s[0]))
    ensures W.Ink(front + s) == W.Ink(s)
    decreases |s|
  {
    hide W.Ink;
    if s == "" {
      BlankInk(front);
      assert front + s == front && W.Blank(s);
      BlankInk(s);
    } else {
      var most, r := s[..|s| - 1], s[|s| - 1];
      InkBehindBlanks(front, most);
      W.InkPush(front + most, r);
      W.InkPush(most, r);
      assert front + s == front + most + [r] && s == most + [r];
      if most == "" {
        BlankInk(most);
      } else {
        assert (front + most)[|front + most| - 1] == most[|most| - 1];
      }
    }
  }

  lemma {:induction false} BlankInk(s: string)
    requires W.Blank(s)
    ensures W.Ink(s) == []
  {
    if s != "" {
      BlankInk(s[..|s| - 1]);
    }
  }

  // ---------- the one token ----------

  predicate DigitsWithin(s: string, lo: int, hi: int) {
    forall k :: 0 <= k < |s| && IsAsciiDigit(s[k]) ==> lo <= k < hi
  }

  function EpisodeTag(season: nat, episode: nat): string {
    "S" + Padded(season) + "E" + Padded(episode)
  }

  /** The tag stands at p, and there are no other digits. */
  ghost predicate OneTag(s: string, p: nat, season: nat, episode: nat) {
    && 1 <= season <= MAX_SEASON && 1 <= episode <= MAX_EPISODE
    && Holds(s, p, EpisodeTag(season, episode)) && DigitsWithin(s, p + 1, p + |EpisodeTag(season, episode)|)
  }

  lemma TagRunes(season: nat, episode: nat, k: nat)
    requires 1 <= season <= MAX_SEASON && 1 <= episode <= MAX_EPISODE
    ensures var tag := EpisodeTag(season, episode);
            |tag| > 3 && tag[0] == 'S' && IsAsciiDigit(tag[1]) && IsAsciiDigit(tag[|tag| - 1])
            && (k < |tag| ==> tag[k] == 'S' || tag[k] == 'E' || IsAsciiDigit(tag[k]))
  {
    hide Padded, Value;
    PaddedReadsBack(season, MAX_SEASON);
    PaddedReadsBack(episode, MAX_EPISODE);
    var x, y := Padded(season), Padded(episode);
    var tag := EpisodeTag(season, episode);
    assert tag[1] == x[0] && tag[|tag| - 1] == y[|y| - 1];
    if 1 <= k < 1 + |x| {
      assert tag[k] == x[k - 1];
    } else if 2 + |x| <= k < |tag| {
      assert tag[k] == y[k - 2 - |x|];
    }
  }

  lemma HoldsInside(s: string, p: nat, whole: string, i: nat, part: string)
    requires Holds(s, p, whole) && Holds(whole, i, part)
    ensures Holds(s, p + i, part)
  {
    forall k | 0 <= k < |part| ensures s[p + i + k] == part[k] {
      HoldsAt(s, p, whole, p + i + k);
      HoldsAt(whole, i, part, i + k);
    }
  }

  lemma JoinedMatches(s: string, p: nat, mid: nat, end: nat)
    requires LetterNumber(s, p, 's') == Some(mid) && LetterNumber(s, mid, 'e') == Some(end)
    requires mid < |s| && !IsSpace(s[mid])
    ensures MatchAt(s, p) == Some(end)
  {
    hide LetterNumber, CrossPair, WordNumber, Spaces;
    NoSpaces(s, mid);
  }

  lemma TagMatchesAt(s: string, p: nat, season: nat, episode: nat)
    requires OneTag(s, p, season, episode)
    ensures MatchAt(s, p) == Some(p + |EpisodeTag(season, episode)|)
  {
    hide Padded, Value, AllDigits, DigitsEnd, MatchAt, Number, DigitsWithin, Holds;
    PaddedReadsBack(season, MAX_SEASON);
    PaddedReadsBack(episode, MAX_EPISODE);
    var x, y := Padded(season), Padded(episode);
    var tag := EpisodeTag(season, episode);
    var mid, end := p + 1 + |x|, p + |tag|;
    TagParts(season, episode);
    HoldsInside(s, p, tag, 1, x);
    HoldsInside(s, p, tag, 2 + |x|, y);
    HoldsAt(s, p, tag, p);
    HoldsAt(s, p, tag, mid);
    EndsAt(s, p, tag);
    RunAt(s, p + 1, x);
    RunAt(s, mid + 1, y);
    JoinedMatches(s, p, mid, end);
  }

  lemma TagParts(season: nat, episode: nat)
    ensures var x, y, tag := Padded(season), Padded(episode), EpisodeTag(season, episode);
            && |tag| == 2 + |x| + |y| && tag[0] == 'S' && tag[1 + |x|] == 'E'
            && Holds(tag, 1, x) && Holds(tag, 2 + |x|, y)
  {
    hide Padded;
  }

  lemma EndsAt(s: string, p: nat, tag: string)
    requires Holds(s, p, tag) && DigitsWithin(s, p + 1, p + |tag|)
    ensures p + |tag| <= |s| && (p + |tag| < |s| ==> !IsAsciiDigit(s[p + |tag|]))
  {
  }

  lemma FormNeedsDigits(s: string, i: nat, e: int)
    requires IsTokenForm(s, i, e)
    ensures i < e <= |s| && IsAsciiDigit(s[e - 1])
  {
    hide WordAt;
  }

  /** No token starts in front of the tag, or behind it. */
  lemma NoOtherMatch(s: string, p: nat, season: nat, episode: nat, i: nat)
    requires OneTag(s, p, season, episode) && (i < p || p + |EpisodeTag(season, episode)| <= i)
    ensures MatchAt(s, i) == None
  {
    hide MatchAt, EpisodeTag;
    if MatchAt(s, i).Some? {
      var e := MatchAt(s, i).value;
      TokensHaveTheseForms(s, i);
      FormNeedsDigits(s, i, e);
      if i < p {
        StartsInFront(s, p, season, episode, i, e);
      }
      assert false;
    }
  }

  lemma StartsInFront(s: string, p: nat, season: nat, episode: nat, i: nat, e: int)
    requires OneTag(s, p, season, episode) && i < p
    ensures !IsTokenForm(s, i, e)
  {
    hide EpisodeTag, WordAt, IsWordToken;
    assert p < |s| by { TagRunes(season, episode, 0); }
    assert !IsAsciiDigit(s[i]) && !IsAsciiDigit(s[i + 1]);
    assert !IsWordToken(s, i, e, "season") by { NoWordInFront(s, p, season, episode, i, e, "season"); }
    assert !IsWordToken(s, i, e, "episode") by { NoWordInFront(s, p, season, episode, i, e, "episode"); }
    assert !IsWordToken(s, i, e, "ep") by { NoWordInFront(s, p, season, episode, i, e, "ep"); }
  }

  lemma NoWordInFront(s: string, p: nat, season: nat, episode: nat, i: nat, e: int, word: string)
    requires forall k :: 0 <= k < |word| ==> 'a' <= word[k] <= 'z'
    requires OneTag(s, p, season, episode) && i < p
    ensures !IsWordToken(s, i, e, word)
  {
    hide EpisodeTag, WordAt;
    if j :| WordAt(s, i, word) && SomeSpaces(s, i + |word|, j) && SomeDigits(s, j, e) {
      assert IsAsciiDigit(s[j]) && IsSpace(s[j - 1]) && p < j;
      var tag := EpisodeTag(season, episode);
      HoldsAt(s, p, tag, j - 1);
      TagRunes(season, episode, j - 1 - p);
    }
  }

  lemma {:induction false} FindOnlyTheTag(s: string, p: nat, season: nat, episode: nat, i: nat)
    requires OneTag(s, p, season, episode)
    requires i <= p || p + |EpisodeTag(season, episode)| <= i
    ensures FindAll(s, i) == if i <= p then [(p, p + |EpisodeTag(season, episode)|)] else []
    decreases |s| - i
  {
    hide MatchAt, EpisodeTag;
    if i == p {
      TagMatchesAt(s, p, season, episode);
      TagRunes(season, episode, 0);
      FindOnlyTheTag(s, p, season, episode, p + |EpisodeTag(season, episode)|);
    } else if i < |s| {
      NoOtherMatch(s, p, season, episode, i);
      FindOnlyTheTag(s, p, season, episode, i + 1);
    }
  }

  // ---------- the marks ----------

  function Range(n: nat, lo: nat, hi: nat): (m: Marks)
    ensures |m| == n
  {
    seq(n, k requires 0 <= k < n => lo <= k < hi)
  }

  predicate IsBracket(r: char) {
    IsOpener(r) || IsCloser(r)
  }

  /** The tag of the text, alone or in a pair of brackets; lo and hi bound it, and there are no other brackets. */
  ghost predicate Core(q: string, p: nat, season: nat, episode: nat, lo: nat, hi: nat) {
    && OneTag(q, p, season, episode)
    && var e := p + |EpisodeTag(season, episode)|;
    && ((lo == p && hi == e) || (lo + 1 == p && hi == e + 1 <= |q| && TechnicalPairClose(q[lo]) == Some(q[e])))
    && forall k :: 0 <= k < |q| && IsBracket(q[k]) ==> lo < p && (k == lo || k == e)
  }

  lemma TokenMarksAre(q: string, p: nat, season: nat, episode: nat, u: Tables)
    requires OneTag(q, p, season, episode)
    requires CompleteToken(q, p, p + |EpisodeTag(season, episode)|, u)
    ensures var e := p + |EpisodeTag(season, episode)|;
            TokenMarks(|q|, Tokens(q, u, FindAll(q, 0))) == Range(|q|, p, e)
  {
    hide EpisodeTag, FindAll, Tokens, TokenMarks;
    FindOnlyTheTag(q, p, season, episode, 0);
    OneSpan(q, p, p + |EpisodeTag(season, episode)|, u);
  }

  lemma OneSpan(q: string, p: nat, e: nat, u: Tables)
    requires p <= e <= |q| && CompleteToken(q, p, e, u)
    ensures Tokens(q, u, [(p, e)]) == [(p, e)] && TokenMarks(|q|, [(p, e)]) == Range(|q|, p, e)
  {
    hide CompleteToken;
    var spans := [(p, e)];
    assert spans[..0] == [];
    assert TokenMarks(|q|, []) == seq(|q|, _ => false);
  }

  lemma SlowMarksAre(q: string, p: nat, season: nat, episode: nat, lo: nat, hi: nat)
    requires Core(q, p, season, episode, lo, hi)
    ensures SlowMarks(q, Range(|q|, p, p + |EpisodeTag(season, episode)|)) == Range(|q|, lo, hi)
  {
    hide EpisodeTag, SlowMarks;
    var e := p + |EpisodeTag(season, episode)|;
    TagRunes(season, episode, 0);
    var m := Range(|q|, p, e);
    if lo == p {
      assert Settled(q, m) by { NoBracketSettles(q, m); }
      SweepIsSlow(q, m, []);
    } else {
      var pairs := [(lo, e)];
      assert m[p];
      assert Emptied(q, m, lo, e);
      assert pairs[1..] == [] && IsSweep(q, MarkRange(m, lo, e + 1), []);
      assert MarkAll(m, pairs) == MarkRange(m, lo, e + 1) == Range(|q|, lo, hi);
      assert Settled(q, Range(|q|, lo, hi));
      SweepIsSlow(q, m, pairs);
    }
  }

  lemma NoBracketSettles(q: string, m: Marks)
    requires |m| == |q| && forall k :: 0 <= k < |q| ==> !IsBracket(q[k])
    ensures Settled(q, m)
  {
    forall i, j ensures !Emptied(q, m, i, j) {
      assert 0 <= i < |q| ==> !IsOpener(q[i]);
    }
  }

  // ---------- the edges ----------

  /** White space and separators. */
  predicate IsGap(s: string) {
    forall k :: 0 <= k < |s| ==> IsSpace(s[k]) || IsTokenSeparator(s[k])
  }

  /** A separator with white space on its far side and none on the side of the title belongs to the title. */
  predicate ClingsToNext(gap: string) {
    |gap| > 1 && IsTokenSeparator(gap[|gap| - 1]) && IsSpace(gap[|gap| - 2])
  }

  predicate ClingsToPrevious(gap: string) {
    |gap| > 1 && IsTokenSeparator(gap[0]) && IsSpace(gap[1])
  }

  lemma SeparatorIsNoSpace(r: char)
    requires IsTokenSeparator(r)
    ensures !IsSpace(r)
  {
  }

  /** A title to be found behind a tag or in front of it: collapsed, without digits and brackets. */
  ghost predicate IsTitle(title: string, u: Tables) {
    && title != "" && W.Normal(title) && u.IsTitleRune(title[0]) && u.IsTitleRune(title[|title| - 1])
    && forall k :: 0 <= k < |title| ==> !IsAsciiDigit(title[k]) && !IsBracket(title[k])
  }

  lemma TitleRuneStays(r: char, u: Tables)
    requires u.Sane() && u.IsTitleRune(r)
    ensures !IsSpace(r) && !IsTokenSeparator(r)
  {
  }

  /** The tag stands in front: up to the title only white space is kept, and a separator that clings to the title. */
  lemma FrontMarks(
      q: string, n: nat, gap: string, end: nat, middle: Marks, start: nat, marks: Marks)
    requires 0 < n && n + |gap| < |q| && Holds(q, n, gap) && IsGap(gap) && !IsSpace(q[n - 1])
    requires !IsSpace(q[n + |gap|]) && !IsTokenSeparator(q[n + |gap|])
    requires !IsSpace(q[|q| - 1]) && !IsTokenSeparator(q[|q| - 1])
    requires EdgesTrimmed(q, Range(|q|, 0, n), end, middle, start, marks)
    ensures forall k :: 0 <= k < |q| ==>
              (marks[k] <==>
                 k < n || (k < n + |gap| && IsTokenSeparator(q[k]) && !(k == n + |gap| - 1 && ClingsToNext(gap))))
  {
    var m, title := Range(|q|, 0, n), n + |gap|;
    forall k | n <= k < title ensures q[k] == gap[k - n] {
      HoldsAt(q, n, gap, k);
    }
    assert forall k :: 0 <= k < title ==> Passes(q, m, k);
    assert !Passes(q, m, title);
    assert end == title;
    assert m[0] && HoldsToken(m, m, 0, end);
    assert forall k :: 0 <= k < |q| && IsTokenSeparator(q[k]) ==> !IsSpace(q[k]) by {
      forall k | 0 <= k < |q| && IsTokenSeparator(q[k]) ensures !IsSpace(q[k]) { SeparatorIsNoSpace(q[k]); }
    }
    forall k | 0 <= k < |q|
      ensures middle[k] <==>
                k < n || (k < title && IsTokenSeparator(q[k]) && !(k == title - 1 && ClingsToNext(gap)))
    {
      FrontMark(q, n, gap, end, k);
    }
    assert !Passes(q, middle, |q| - 1);
    assert start == |q|;
  }

  lemma FrontMark(q: string, n: nat, gap: string, end: nat, k: nat)
    requires 0 < n && n + |gap| == end < |q| && (forall j :: n <= j < end ==> q[j] == gap[j - n]) && IsGap(gap)
    requires !IsSpace(q[n - 1]) && !IsSpace(q[end]) && k < |q|
    requires HoldsToken(Range(|q|, 0, n), Range(|q|, 0, n), 0, end)
    requires forall j :: 0 <= j < |q| && IsTokenSeparator(q[j]) ==> !IsSpace(q[j])
    ensures var m := Range(|q|, 0, n);
            (m[k] || TrimmedInFront(q, m, m, end, k)) <==>
              k < n || (k < end && IsTokenSeparator(q[k]) && !(k == end - 1 && ClingsToNext(gap)))
  {
    var m := Range(|q|, 0, n);
    if n <= k < end && IsTokenSeparator(q[k]) && k < end - 1 && !IsSpace(q[k + 1]) {
      assert Loose(q, m, k + 1);
    }
  }

  /** The tag stands behind, and the mirror image happens. */
  lemma BackMarks(
      q: string, n: nat, gap: string, end: nat, middle: Marks, start: nat, marks: Marks)
    requires 0 < n && n + |gap| < |q| && Holds(q, n, gap) && IsGap(gap) && !IsSpace(q[n + |gap|])
    requires !IsSpace(q[n - 1]) && !IsTokenSeparator(q[n - 1]) && !IsSpace(q[0]) && !IsTokenSeparator(q[0])
    requires EdgesTrimmed(q, Range(|q|, n + |gap|, |q|), end, middle, start, marks)
    ensures forall k :: 0 <= k < |q| ==>
              (marks[k] <==>
                 k >= n + |gap| || (k >= n && IsTokenSeparator(q[k]) && !(k == n && ClingsToPrevious(gap))))
  {
    var m, tag := Range(|q|, n + |gap|, |q|), n + |gap|;
    forall k | n <= k < tag ensures q[k] == gap[k - n] {
      HoldsAt(q, n, gap, k);
    }
    assert !Passes(q, m, 0);
    assert end == 0;
    assert middle == m;
    assert forall k :: n <= k < |q| ==> Passes(q, m, k);
    assert !Passes(q, m, n - 1);
    assert start == n;
    assert m[tag] && HoldsToken(m, m, start, |q|);
    forall k | 0 <= k < |q| && IsTokenSeparator(q[k]) ensures !IsSpace(q[k]) {
      SeparatorIsNoSpace(q[k]);
    }
    forall k | 0 <= k < |q|
      ensures marks[k] <==>
                k >= tag || (k >= n && IsTokenSeparator(q[k]) && !(k == n && ClingsToPrevious(gap)))
    {
      BackMark(q, n, gap, k);
    }
  }

  lemma BackMark(q: string, n: nat, gap: string, k: nat)
    requires 0 < n && n + |gap| < |q| && (forall j :: n <= j < n + |gap| ==> q[j] == gap[j - n]) && IsGap(gap)
    requires !IsSpace(q[n - 1]) && !IsSpace(q[n + |gap|]) && k < |q|
    requires HoldsToken(Range(|q|, n + |gap|, |q|), Range(|q|, n + |gap|, |q|), n, |q|)
    requires forall j :: 0 <= j < |q| && IsTokenSeparator(q[j]) ==> !IsSpace(q[j])
    ensures var m := Range(|q|, n + |gap|, |q|);
            (m[k] || TrimmedBehind(q, m, m, n, k)) <==>
              k >= n + |gap| || (k >= n && IsTokenSeparator(q[k]) && !(k == n && ClingsToPrevious(gap)))
  {
    var m := Range(|q|, n + |gap|, |q|);
    if n < k < n + |gap| && IsTokenSeparator(q[k]) && !IsSpace(q[k - 1]) {
      assert Loose(q, m, k - 1);
    }
  }

  // ---------- what is left ----------

  lemma {:induction false} KeptConcat(a: string, b: string, m: Marks, n: Marks)
    requires |m| == |a| && |n| == |b|
    ensures Query.Kept(a + b, m + n) == Query.Kept(a, m) + Query.Kept(b, n)
  {
    if b == "" {
      assert a + b == a && m + n == m;
    } else {
      var c, d := b[..|b| - 1], n[..|n| - 1];
      KeptConcat(a, c, m, d);
      assert (a + b)[..|a + b| - 1] == a + c && (m + n)[..|m + n| - 1] == m + d;
    }
  }

  lemma {:induction false} KeptAll(s: string, m: Marks)
    requires |m| == |s| && forall k :: 0 <= k < |m| ==> !m[k]
    ensures Query.Kept(s, m) == s
  {
    if s != "" {
      KeptAll(s[..|s| - 1], m[..|m| - 1]);
    }
  }

  lemma {:induction false} KeptBlanks(s: string, m: Marks)
    requires |m| == |s| && forall k :: 0 <= k < |m| ==> m[k] || IsSpace(s[k])
    ensures W.Blank(Query.Kept(s, m))
  {
    if s != "" {
      KeptBlanks(s[..|s| - 1], m[..|m| - 1]);
    }
  }

  /** What is kept of a text around a part that is kept whole, if only white space is kept on either side. */
  lemma KeptAround(s: string, m: Marks, i: nat, j: nat)
    requires |m| == |s| && i <= j <= |s|
    requires forall k :: 0 <= k < |s| ==> if i <= k < j then !m[k] else m[k] || IsSpace(s[k])
    ensures exists front, back :: W.Blank(front) && W.Blank(back) && Query.Kept(s, m) == front + s[i..j] + back
  {
    hide Query.Kept, W.Blank;
    var a, b, c := s[..i], s[i..j], s[j..];
    var l, n, o := m[..i], m[i..j], m[j..];
    KeptParts(s, m, i, j);
    KeptAll(b, n);
    KeptBlanks(a, l);
    KeptBlanks(c, o);
    Between(Query.Kept(a, l), b, Query.Kept(c, o));
  }

  lemma KeptParts(s: string, m: Marks, i: nat, j: nat)
    requires |m| == |s| && i <= j <= |s|
    ensures Query.Kept(s, m) ==
              Query.Kept(s[..i], m[..i]) + Query.Kept(s[i..j], m[i..j]) + Query.Kept(s[j..], m[j..])
  {
    hide Query.Kept;
    KeptConcat(s[..j], s[j..], m[..j], m[j..]);
    KeptConcat(s[..i], s[i..j], m[..i], m[i..j]);
    assert s == s[..j] + s[j..] && m == m[..j] + m[j..];
    assert s[..j] == s[..i] + s[i..j] && m[..j] == m[..i] + m[i..j];
  }

  lemma Between(front: string, s: string, back: string)
    requires W.Blank(front) && W.Blank(back)
    ensures exists a, b :: W.Blank(a) && W.Blank(b) && front + s + back == a + s + b
  {
  }

  /** So that part is the collapsed text, if it is collapsed itself. */
  lemma CleanIs(q: string, u: Tables, marks: Marks, clean: string, i: nat, j: nat)
    requires CleanedBy(q, u, marks, clean) && i < j <= |q| && W.Normal(q[i..j])
    requires forall k :: 0 <= k < |q| ==> if i <= k < j then !marks[k] else marks[k] || IsSpace(q[k])
    ensures clean == q[i..j]
  {
    hide Query.Kept, W.Ink, W.Normal, Removed;
    var title := q[i..j];
    KeptAround(q, marks, i, j);
    var front, back :| W.Blank(front) && W.Blank(back) && Query.Kept(q, marks) == front + title + back;
    CleanTextKeepsWords(q, u, marks, clean);
    assert !IsSpace(title[0]) by { NormalStarts(title); }
    InkBetweenBlanks(front, title, back);
    CollapsedIsRendered(clean);
    CollapsedIsRendered(title);
  }

  lemma NormalStarts(s: string)
    requires W.Normal(s) && s != ""
    ensures !IsSpace(s[0]) && !IsSpace(s[|s| - 1])
  {
  }

  // ---------- the two theorems ----------

  function Wrapped(open: string, season: nat, episode: nat, close: string): string {
    open + EpisodeTag(season, episode) + close
  }

  /** No brackets, or a pair of one kind. */
  predicate IsWrap(open: string, close: string) {
    (open == "" && close == "")
    || (|open| == 1 == |close| && TechnicalPairClose(open[0]) == Some(close[0]))
  }

  lemma CoreAt(
      q: string, lo: nat, open: string, season: nat, episode: nat, close: string)
    requires 1 <= season <= MAX_SEASON && 1 <= episode <= MAX_EPISODE && IsWrap(open, close)
    requires Holds(q, lo, Wrapped(open, season, episode, close))
    requires var hi := lo + |Wrapped(open, season, episode, close)|;
             forall k :: 0 <= k < |q| && !(lo <= k < hi) ==> !IsAsciiDigit(q[k]) && !IsBracket(q[k])
    ensures Core(q, lo + |open|, season, episode, lo, lo + |Wrapped(open, season, episode, close)|)
  {
    hide EpisodeTag, Wrapped, Holds, IsWrap, IsAsciiDigit, IsBracket, TechnicalPairClose;
    var e := lo + |open| + |EpisodeTag(season, episode)|;
    forall k: nat | k < |q|
      ensures IsAsciiDigit(q[k]) ==> lo + |open| + 1 <= k < e
      ensures IsBracket(q[k]) ==> open != "" && (k == lo || k == e)
    {
      if lo <= k < lo + |Wrapped(open, season, episode, close)| {
        RuneOfCore(q, lo, open, season, episode, close, k);
      }
    }
    CoreBounds(q, lo, open, season, episode, close);
  }

  lemma RuneOfCore(q: string, lo: nat, open: string, season: nat, episode: nat, close: string, k: nat)
    requires 1 <= season <= MAX_SEASON && 1 <= episode <= MAX_EPISODE && IsWrap(open, close) && k < |q|
    requires Holds(q, lo, Wrapped(open, season, episode, close))
    requires lo <= k < lo + |Wrapped(open, season, episode, close)|
    ensures var e := lo + |open| + |EpisodeTag(season, episode)|;
            && (IsAsciiDigit(q[k]) ==> lo + |open| + 1 <= k < e)
            && (IsBracket(q[k]) ==> open != "" && (k == lo || k == e))
  {
    hide EpisodeTag, Holds, IsAsciiDigit, IsBracket, TechnicalPairClose;
    HoldsAt(q, lo, Wrapped(open, season, episode, close), k);
    CoreRune(open, season, episode, close, k - lo);
  }

  lemma CoreBounds(q: string, lo: nat, open: string, season: nat, episode: nat, close: string)
    requires IsWrap(open, close) && Holds(q, lo, Wrapped(open, season, episode, close))
    ensures var tag, hi := EpisodeTag(season, episode), lo + |Wrapped(open, season, episode, close)|;
            && Holds(q, lo + |open|, tag)
            && if open == "" then hi == lo + |tag|
               else |open| == 1 && hi == lo + |tag| + 2 <= |q| && TechnicalPairClose(q[lo]) == Some(q[hi - 1])
  {
    hide EpisodeTag, TechnicalPairClose;
    var tag, core := EpisodeTag(season, episode), Wrapped(open, season, episode, close);
    assert Holds(core, |open|, tag);
    HoldsInside(q, lo, core, |open|, tag);
    if open != "" {
      HoldsAt(q, lo, core, lo);
      HoldsAt(q, lo, core, lo + |core| - 1);
    }
  }

  lemma CoreRune(open: string, season: nat, episode: nat, close: string, k: nat)
    requires 1 <= season <= MAX_SEASON && 1 <= episode <= MAX_EPISODE && IsWrap(open, close)
    requires k < |Wrapped(open, season, episode, close)|
    ensures var core, tag := Wrapped(open, season, episode, close), EpisodeTag(season, episode);
            && (IsAsciiDigit(core[k]) ==> |open| + 1 <= k < |open| + |tag|)
            && (IsBracket(core[k]) ==> open != "" && (k == 0 || k == |core| - 1))
            && (open != "" && k == 0 ==> core[k] == open[0])
            && (open != "" && k == |core| - 1 ==> core[k] == close[0])
            && !IsSpace(core[k])
  {
    hide EpisodeTag;
    var core, tag := Wrapped(open, season, episode, close), EpisodeTag(season, episode);
    if |open| <= k < |open| + |tag| {
      assert core[k] == tag[k - |open|];
      TagRunes(season, episode, k - |open|);
    } else if k < |open| {
      assert core[k] == open[k];
    } else {
      assert core[k] == close[k - |open| - |tag|];
    }
  }

  lemma SaneRunes(r: char, u: Tables)
    requires u.Sane()
    ensures IsSpace(r) || IsTokenSeparator(r) || IsBracket(r) ==> !u.IsTitleRune(r) && !IsAsciiDigit(r)
    ensures IsSpace(r) || IsTokenSeparator(r) ==> !IsBracket(r)
  {
  }

  lemma GapRunes(gap: string, u: Tables, k: nat)
    requires u.Sane() && IsGap(gap) && k < |gap|
    ensures !u.IsTitleRune(gap[k]) && !IsAsciiDigit(gap[k]) && !IsBracket(gap[k])
    ensures IsSpace(gap[k]) || IsTokenSeparator(gap[k])
  {
    SaneRunes(gap[k], u);
  }

  /** The marks of a query with one tag, before the edges are trimmed. */
  lemma CoreMarks(
      q: string, u: Tables, lo: nat, open: string, season: nat, episode: nat, close: string)
    requires u.Sane() && 1 <= season <= MAX_SEASON && 1 <= episode <= MAX_EPISODE && IsWrap(open, close)
    requires Holds(q, lo, Wrapped(open, season, episode, close))
    requires var hi := lo + |Wrapped(open, season, episode, close)|;
             && (forall k :: 0 <= k < |q| && !(lo <= k < hi) ==> !IsAsciiDigit(q[k]) && !IsBracket(q[k]))
             && (lo > 0 ==> !u.IsTitleRune(q[lo - 1])) && (hi < |q| ==> !u.IsTitleRune(q[hi]))
    ensures var hi := lo + |Wrapped(open, season, episode, close)|;
            SlowMarks(q, TokenMarks(|q|, Tokens(q, u, FindAll(q, 0)))) == Range(|q|, lo, hi)
  {
    hide *;
    var core := Wrapped(open, season, episode, close);
    var p := lo + |open|;
    CoreAt(q, lo, open, season, episode, close);
    CoreStandsAlone(q, u, lo, open, season, episode, close);
    TagOfCore(q, p, season, episode, lo, lo + |core|);
    TokenMarksAre(q, p, season, episode, u);
    SlowMarksAre(q, p, season, episode, lo, lo + |core|);
  }

  lemma TagOfCore(q: string, p: nat, season: nat, episode: nat, lo: nat, hi: nat)
    requires Core(q, p, season, episode, lo, hi)
    ensures OneTag(q, p, season, episode)
  {
  }

  /** No letter or digit touches the tag. */
  lemma CoreStandsAlone(
      q: string, u: Tables, lo: nat, open: string, season: nat, episode: nat, close: string)
    requires u.Sane() && IsWrap(open, close)
    requires Holds(q, lo, Wrapped(open, season, episode, close))
    requires var hi := lo + |Wrapped(open, season, episode, close)|;
             (lo > 0 ==> !u.IsTitleRune(q[lo - 1])) && (hi < |q| ==> !u.IsTitleRune(q[hi]))
    ensures var e := lo + |open| + |EpisodeTag(season, episode)|;
            e <= |q| && CompleteToken(q, lo + |open|, e, u)
  {
    hide EpisodeTag;
    var core := Wrapped(open, season, episode, close);
    if open != "" {
      HoldsAt(q, lo, core, lo);
      HoldsAt(q, lo, core, lo + |core| - 1);
      SaneRunes(open[0], u);
      SaneRunes(close[0], u);
      assert core[|core| - 1] == close[0];
    }
  }

  /**
  A title behind an episode tag, in brackets or not, is what is left of the query, with a separator that clings to it
  if there is one, whatever else stands between the two.
  */
  lemma TagInFront(
      open: string, season: nat, episode: nat, close: string, gap: string, title: string, u: Tables,
      marks: Marks, clean: string)
    requires u.Sane() && 1 <= season <= MAX_SEASON && 1 <= episode <= MAX_EPISODE && IsWrap(open, close)
    requires gap != "" && IsGap(gap) && IsTitle(title, u)
    requires CleanedBy(Wrapped(open, season, episode, close) + gap + title, u, marks, clean)
    ensures clean == (if ClingsToNext(gap) then [gap[|gap| - 1]] else "") + title
  {
    hide EpisodeTag, FindAll, Tokens, TokenMarks, SlowMarks, CleanedBy, EdgesTrimmed, W.Normal, IsWrap;
    var core := Wrapped(open, season, episode, close);
    var q, n := core + gap + title, |core|;
    var t := n + |gap|;
    assert Holds(q, 0, core) && Holds(q, n, gap) && q[t..] == title;
    forall k | n <= k < |q| ensures !IsAsciiDigit(q[k]) && !IsBracket(q[k]) {
      if k < t {
        HoldsAt(q, n, gap, k);
        GapRunes(gap, u, k - n);
      } else {
        assert q[k] == title[k - t];
      }
    }
    assert n > 0 && !IsSpace(q[n - 1]) by { CoreEnds(q, 0, open, season, episode, close); }
    HoldsAt(q, n, gap, n);
    GapRunes(gap, u, 0);
    CoreMarks(q, u, 0, open, season, episode, close);
    var end, middle, start := TheEdges(q, u, marks, clean);
    assert q[t] == title[0] && q[|q| - 1] == title[|title| - 1];
    TitleRuneStays(title[0], u);
    TitleRuneStays(title[|title| - 1], u);
    FrontMarks(q, n, gap, end, middle, start, marks);
    LeftBehind(q, u, marks, clean, n, gap, title);
  }

  /** What is left once the marks in front of the title are known. */
  lemma LeftBehind(q: string, u: Tables, marks: Marks, clean: string, n: nat, gap: string, title: string)
    requires u.Sane() && IsGap(gap) && gap != "" && IsTitle(title, u) && CleanedBy(q, u, marks, clean)
    requires |marks| == |q| == n + |gap| + |title| && Holds(q, n, gap) && q[n + |gap|..] == title
    requires forall k :: 0 <= k < |q| ==>
               (marks[k] <==>
                  k < n || (k < n + |gap| && IsTokenSeparator(q[k]) && !(k == n + |gap| - 1 && ClingsToNext(gap))))
    ensures clean == (if ClingsToNext(gap) then [gap[|gap| - 1]] else "") + title
  {
    hide CleanedBy, W.Normal;
    var t := n + |gap|;
    forall k | n <= k < t ensures marks[k] || IsSpace(q[k]) || (k == t - 1 && ClingsToNext(gap)) {
      HoldsAt(q, n, gap, k);
      GapRunes(gap, u, k - n);
    }
    TitleRuneStays(title[0], u);
    if ClingsToNext(gap) {
      HoldsAt(q, n, gap, t - 1);
      assert q[t - 1..|q|] == [gap[|gap| - 1]] + title;
      SeparatorIsNoSpace(gap[|gap| - 1]);
      NormalPush(gap[|gap| - 1], title);
      CleanIs(q, u, marks, clean, t - 1, |q|);
    } else {
      assert q[t..|q|] == title;
      CleanIs(q, u, marks, clean, t, |q|);
      assert "" + title == title;
    }
  }

  lemma CoreEnds(q: string, lo: nat, open: string, season: nat, episode: nat, close: string)
    requires 1 <= season <= MAX_SEASON && 1 <= episode <= MAX_EPISODE && IsWrap(open, close)
    requires Holds(q, lo, Wrapped(open, season, episode, close))
    ensures var n := |Wrapped(open, season, episode, close)|;
            n > 0 && !IsSpace(q[lo]) && !IsSpace(q[lo + n - 1])
  {
    hide EpisodeTag;
    var core := Wrapped(open, season, episode, close);
    TagRunes(season, episode, 0);
    HoldsAt(q, lo, core, lo);
    HoldsAt(q, lo, core, lo + |core| - 1);
    CoreRune(open, season, episode, close, 0);
    CoreRune(open, season, episode, close, |core| - 1);
  }

  lemma TheEdges(q: string, u: Tables, marks: Marks, clean: string) returns (end: nat, middle: Marks, start: nat)
    requires CleanedBy(q, u, marks, clean)
    ensures EdgesTrimmed(q, SlowMarks(q, TokenMarks(|q|, Tokens(q, u, FindAll(q, 0)))), end, middle, start, marks)
    ensures |marks| == |q|
  {
    hide EdgesTrimmed, SlowMarks, Tokens, FindAll, TokenMarks;
    var m := SlowMarks(q, TokenMarks(|q|, Tokens(q, u, FindAll(q, 0))));
    end, middle, start :| EdgesTrimmed(q, m, end, middle, start, marks);
  }

  lemma NormalPush(r: char, title: string)
    requires !IsSpace(r) && W.Normal(title) && title != "" && !IsSpace(title[0])
    ensures W.Normal([r] + title)
  {
    var s := [r] + title;
    assert forall k :: 1 <= k < |s| ==> s[k] == title[k - 1];
  }

  lemma NormalAppend(title: string, r: char)
    requires !IsSpace(r) && W.Normal(title)
    ensures W.Normal(title + [r])
  {
    var s := title + [r];
    assert forall k :: 0 <= k < |title| ==> s[k] == title[k];
  }

  /** The mirror image: a title in front of an episode tag. */
  lemma TagBehind(
      open: string, season: nat, episode: nat, close: string, gap: string, title: string, u: Tables,
      marks: Marks, clean: string)
    requires u.Sane() && 1 <= season <= MAX_SEASON && 1 <= episode <= MAX_EPISODE && IsWrap(open, close)
    requires gap != "" && IsGap(gap) && IsTitle(title, u)
    requires CleanedBy(title + gap + Wrapped(open, season, episode, close), u, marks, clean)
    ensures clean == title + if ClingsToPrevious(gap) then [gap[0]] else ""
  {
    hide EpisodeTag, FindAll, Tokens, TokenMarks, SlowMarks, CleanedBy, EdgesTrimmed, W.Normal, IsWrap;
    var core := Wrapped(open, season, episode, close);
    var q, n := title + gap + core, |title|;
    var t := n + |gap|;
    assert Holds(q, n, gap) && Holds(q, t, core) && q[..n] == title;
    forall k | 0 <= k < t ensures !IsAsciiDigit(q[k]) && !IsBracket(q[k]) {
      if k < n {
        assert q[k] == title[k];
      } else {
        HoldsAt(q, n, gap, k);
        GapRunes(gap, u, k - n);
      }
    }
    CoreEnds(q, t, open, season, episode, close);
    HoldsAt(q, n, gap, t - 1);
    GapRunes(gap, u, |gap| - 1);
    CoreMarks(q, u, t, open, season, episode, close);
    var end, middle, start := TheEdges(q, u, marks, clean);
    assert q[0] == title[0] && q[n - 1] == title[n - 1];
    TitleRuneStays(title[0], u);
    TitleRuneStays(title[n - 1], u);
    BackMarks(q, n, gap, end, middle, start, marks);
    LeftInFront(q, u, marks, clean, n, gap, title);
  }

  lemma LeftInFront(q: string, u: Tables, marks: Marks, clean: string, n: nat, gap: string, title: string)
    requires u.Sane() && IsGap(gap) && gap != "" && IsTitle(title, u) && CleanedBy(q, u, marks, clean)
    requires |marks| == |q| && |title| == n && Holds(q, n, gap) && q[..n] == title
    requires forall k :: 0 <= k < |q| ==>
               (marks[k] <==>
                  k >= n + |gap| || (k >= n && IsTokenSeparator(q[k]) && !(k == n && ClingsToPrevious(gap))))
    ensures clean == title + if ClingsToPrevious(gap) then [gap[0]] else ""
  {
    hide CleanedBy, W.Normal;
    var t := n + |gap|;
    forall k | n <= k < t ensures marks[k] || IsSpace(q[k]) || (k == n && ClingsToPrevious(gap)) {
      HoldsAt(q, n, gap, k);
      GapRunes(gap, u, k - n);
    }
    if ClingsToPrevious(gap) {
      HoldsAt(q, n, gap, n);
      assert q[0..n + 1] == title + [gap[0]];
      SeparatorIsNoSpace(gap[0]);
      NormalAppend(title, gap[0]);
      CleanIs(q, u, marks, clean, 0, n + 1);
    } else {
      assert q[0..n] == title;
      CleanIs(q, u, marks, clean, 0, n);
      assert title + "" == title;
    }
  }

  /** And the season and the episode of such a query are those of its tag. */
  lemma TagSettles(q: string, p: nat, season: nat, episode: nat, u: Tables)
    requires OneTag(q, p, season, episode)
    requires CompleteToken(q, p, p + |EpisodeTag(season, episode)|, u)
    ensures Settles(q, u, Filters(None, None), Some(season), Some(episode))
    ensures forall span :: IsToken(q, u, span) ==> !Unsupported(q, span)
  {
    hide EpisodeTag, FindAll, CompleteToken, ParseToken, ContinuesAfter, ContinuesBefore;
    var e := p + |EpisodeTag(season, episode)|;
    FindOnlyTheTag(q, p, season, episode, 0);
    EpisodeTagReadsBack(season, episode);
    assert EpisodeTag(season, episode) == "S" + Padded(season) + "E" + Padded(episode) by { TagIs(season, episode); }
    assert q[p..e] == EpisodeTag(season, episode) && TokenText(q, (p, e)) == EpisodeTag(season, episode);
    assert !ContinuesAfter(q, e, true) && !ContinuesBefore(q, p) by { NoOtherNumbers(q, p, e); }
    assert IsToken(q, u, (p, e));
    assert forall span :: IsToken(q, u, span) ==> span == (p, e);
  }

  lemma TagIs(season: nat, episode: nat)
    ensures EpisodeTag(season, episode) == "S" + Padded(season) + "E" + Padded(episode)
  {
  }

  lemma NoOtherNumbers(q: string, p: nat, e: nat)
    requires p <= e <= |q| && DigitsWithin(q, p + 1, e)
    ensures !ContinuesAfter(q, e, true) && !ContinuesBefore(q, p)
  {
    hide SpacesEnd, SpacesStart;
  }

  // ---------- queries without a token ----------

  /** Without a token nothing is removed. */
  lemma UntouchedWithoutTokens(q: string, u: Tables, marks: Marks, clean: string)
    requires CleanedBy(q, u, marks, clean) && Tokens(q, u, FindAll(q, 0)) == []
    ensures (forall k :: 0 <= k < |q| ==> !marks[k]) && clean == W.Join(W.Fields(q))
  {
    hide CleanedBy, FindAll, SlowMarks, EdgesTrimmed, W.Fields, W.Join;
    var end, middle, start := TheEdges(q, u, marks, clean);
    var m := Range(|q|, 0, 0);
    assert TokenMarks(|q|, []) == m;
    NothingIsSlow(q, m);
    NothingIsTrimmed(q, m, end, middle, start, marks);
    AllKept(q, marks);
    CleanIsJoined(q, u, marks, clean);
  }

  lemma CleanIsJoined(q: string, u: Tables, marks: Marks, clean: string)
    requires CleanedBy(q, u, marks, clean)
    ensures |marks| == |q| && clean == W.Join(W.Fields(Query.Kept(q, marks)))
  {
  }

  lemma NothingIsSlow(q: string, m: Marks)
    requires |m| == |q| && forall k :: 0 <= k < |m| ==> !m[k]
    ensures SlowMarks(q, m) == m
  {
    hide SlowMarks;
    assert Settled(q, m);
    assert MarkAll(m, []) == m;
    SweepIsSlow(q, m, []);
  }

  lemma NothingIsTrimmed(q: string, m: Marks, end: nat, middle: Marks, start: nat, marks: Marks)
    requires EdgesTrimmed(q, m, end, middle, start, marks) && forall k :: 0 <= k < |m| ==> !m[k]
    ensures forall k :: 0 <= k < |q| ==> !marks[k]
  {
    hide LeadingRun, TrailingRun, Loose, LeadingBelongsToTitle, TrailingBelongsToTitle;
    assert !HoldsToken(m, m, 0, end) && !HoldsToken(middle, m, start, |q|);
  }

  lemma {:induction false} AllKept(q: string, marks: Marks)
    requires |marks| == |q| && forall k :: 0 <= k < |q| ==> !marks[k]
    ensures Query.Kept(q, marks) == q
  {
    if q != "" {
      AllKept(q[..|q| - 1], marks[..|q| - 1]);
      assert q[..|q| - 1] + [q[|q| - 1]] == q;
    }
  }

  /** A tag that touches a letter or a digit belongs to the title: it stays, and neither number is taken from it. */
  lemma GluedTagStays(q: string, p: nat, season: nat, episode: nat, u: Tables, marks: Marks, clean: string)
    requires OneTag(q, p, season, episode) && CleanedBy(q, u, marks, clean)
    requires var e := p + |EpisodeTag(season, episode)|;
             (p > 0 && u.IsTitleRune(q[p - 1])) || (e < |q| && u.IsTitleRune(q[e]))
    ensures clean == W.Join(W.Fields(q)) && Settles(q, u, Filters(None, None), None, None)
  {
    hide EpisodeTag, CleanedBy, FindAll, W.Fields, W.Join, ParseToken;
    var e := p + |EpisodeTag(season, episode)|;
    FindOnlyTheTag(q, p, season, episode, 0);
    var spans := [(p, e)];
    assert !CompleteToken(q, p, e, u) && spans[..0] == [];
    assert Tokens(q, u, spans[..0]) == [];
    UntouchedWithoutTokens(q, u, marks, clean);
    assert forall span :: !IsToken(q, u, span);
  }
}
