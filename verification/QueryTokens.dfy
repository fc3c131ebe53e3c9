/**
Season and episode tokens in a query (internal/torznab/query.go): the token expression as a
hand-written matcher with the leftmost-first meaning of Go's regexp, the parser of one token, and
the checks around it.
*/
module QueryTokens {
  import opened Common
  import opened Runes
  import opened Decimal

  const MAX_SEASON: nat := 999
  const MAX_EPISODE: nat := 9999

  // ---------- scanners ----------

  function DigitsEnd(s: string, i: nat): (end: nat)
    requires i <= |s|
    ensures i <= end <= |s| && forall k :: i <= k < end ==> IsAsciiDigit(s[k])
    ensures end < |s| ==> !IsAsciiDigit(s[end])
    decreases |s| - i
  {
    if i < |s| && IsAsciiDigit(s[i]) then DigitsEnd(s, i + 1) else i
  }

  /** The white space class of the expressions covers exactly what unicode.IsSpace covers. */
  function SpacesEnd(s: string, i: nat): (end: nat)
    requires i <= |s|
    ensures i <= end <= |s| && forall k :: i <= k < end ==> IsSpace(s[k])
    ensures end < |s| ==> !IsSpace(s[end])
    decreases |s| - i
  {
    if i < |s| && IsSpace(s[i]) then SpacesEnd(s, i + 1) else i
  }

  /** One letter of a case-insensitive expression; Go also folds the long s to s. */
  predicate Folds(r: char, lower: char)
    requires 'a' <= lower <= 'z'
  {
    || r == lower
    || r as int == lower as int - 32
    || (lower == 's' && r == '\U{17f}')
  }

  predicate WordAt(s: string, i: nat, word: string)
    requires forall k :: 0 <= k < |word| ==> 'a' <= word[k] <= 'z'
  {
    i + |word| <= |s| && forall k :: 0 <= k < |word| ==> Folds(s[i + k], word[k])
  }

  predicate LetterAt(s: string, i: nat, lower: char)
    requires 'a' <= lower <= 'z'
  {
    i < |s| && Folds(s[i], lower)
  }

  /** One or more digits from i. */
  function Number(s: string, i: nat): (end: Option<nat>)
    ensures end.Some? ==> i < end.value <= |s| && IsAsciiDigit(s[end.value - 1])
  {
    if i <= |s| && i < DigitsEnd(s, i) then Some(DigitsEnd(s, i)) else None
  }

  /** One or more white space runes from i. */
  function Spaces(s: string, i: nat): (end: Option<nat>)
    ensures end.Some? ==> i < end.value <= |s|
  {
    if i <= |s| && i < SpacesEnd(s, i) then Some(SpacesEnd(s, i)) else None
  }

  /** A word, white space and a number. */
  function WordNumber(s: string, i: nat, word: string): (end: Option<nat>)
    requires forall k :: 0 <= k < |word| ==> 'a' <= word[k] <= 'z'
    ensures end.Some? ==> i < end.value <= |s| && IsAsciiDigit(s[end.value - 1])
  {
    if !WordAt(s, i, word) then None
    else match Spaces(s, i + |word|)
         case None => None
         case Some(j) => Number(s, j)
  }

  /** A letter and a number. */
  function LetterNumber(s: string, i: nat, lower: char): (end: Option<nat>)
    requires 'a' <= lower <= 'z'
    ensures end.Some? ==> i < end.value <= |s|
  {
    if LetterAt(s, i, lower) then Number(s, i + 1) else None
  }

  function Or<T>(first: Option<T>, second: Option<T>): Option<T> {
    if first.Some? then first else second
  }

  // ---------- the token expression ----------

  function SpacedPair(s: string, i: nat): (end: Option<nat>)
    ensures end.Some? ==> i < end.value <= |s|
  {
    match LetterNumber(s, i, 's')
    case None => None
    case Some(j) =>
      match Spaces(s, j)
      case None => None
      case Some(k) => LetterNumber(s, k, 'e')
  }

  function JoinedPair(s: string, i: nat): (end: Option<nat>)
    ensures end.Some? ==> i < end.value <= |s|
  {
    match LetterNumber(s, i, 's')
    case None => None
    case Some(j) => LetterNumber(s, j, 'e')
  }

  function CrossPair(s: string, i: nat): (end: Option<nat>)
    ensures end.Some? ==> i < end.value <= |s|
  {
    match Number(s, i)
    case None => None
    case Some(j) => LetterNumber(s, j, 'x')
  }

  /** The end of the token that starts at i: the alternatives are tried in the order of the expression. */
  function MatchAt(s: string, i: nat): (end: Option<nat>)
    ensures end.Some? ==> i < end.value <= |s|
  {
    Or(SpacedPair(s, i),
    Or(JoinedPair(s, i),
    Or(CrossPair(s, i),
    Or(WordNumber(s, i, "season"),
    Or(WordNumber(s, i, "episode"),
    Or(WordNumber(s, i, "ep"),
    Or(LetterNumber(s, i, 's'), LetterNumber(s, i, 'e'))))))))
  }

  type Span = (nat, nat)

  /** FindAllStringIndex from i on: leftmost matches that do not overlap. */
  function FindAll(s: string, i: nat): (spans: seq<Span>)
    ensures forall k :: 0 <= k < |spans| ==> i <= spans[k].0 < spans[k].1 <= |s|
    ensures forall k, l :: 0 <= k < l < |spans| ==> spans[k].1 <= spans[l].0
    decreases |s| - i
  {
    if i >= |s| then []
    else match MatchAt(s, i)
         case Some(end) => [(i, end)] + FindAll(s, end)
         case None => FindAll(s, i + 1)
  }

  ghost predicate Covered(spans: seq<Span>, p: nat) {
    exists k :: 0 <= k < |spans| && spans[k].0 <= p < spans[k].1
  }

  lemma CoveredPrepend(span: Span, spans: seq<Span>, p: nat)
    ensures Covered([span] + spans, p) <==> span.0 <= p < span.1 || Covered(spans, p)
  {
    var all := [span] + spans;
    if Covered(spans, p) {
      var k :| 0 <= k < |spans| && spans[k].0 <= p < spans[k].1;
      assert all[k + 1] == spans[k];
    }
    if span.0 <= p < span.1 {
      assert all[0] == span;
    }
  }

  /** FindAll finds matches only, and it takes one wherever one starts outside an earlier match. */
  lemma {:induction false} FindAllIsLeftmost(s: string, i: nat, p: nat)
    requires i <= p < |s| && MatchAt(s, p).Some?
    ensures Covered(FindAll(s, i), p)
    decreases |s| - i
  {
    hide MatchAt, Covered;
    match MatchAt(s, i)
    case Some(end) =>
      CoveredPrepend((i, end), FindAll(s, end), p);
      if p >= end {
        FindAllIsLeftmost(s, end, p);
      }
    case None => FindAllIsLeftmost(s, i + 1, p);
  }

  lemma {:induction false} FindAllMatches(s: string, i: nat, span: Span)
    requires span in FindAll(s, i)
    ensures MatchAt(s, span.0) == Some(span.1)
    decreases |s| - i
  {
    hide MatchAt;
    match MatchAt(s, i)
    case Some(end) =>
      if span != (i, end) {
        FindAllMatches(s, end, span);
      }
    case None => FindAllMatches(s, i + 1, span);
  }

  // ---------- one token ----------

  datatype TokenValue = TokenValue(season: Option<nat>, episode: Option<nat>)

  /** Both numbers of a token, or nothing when either is out of range. */
  function PairValue(season: string, episode: string): Option<TokenValue> {
    match (BoundedPositive(season, MAX_SEASON), BoundedPositive(episode, MAX_EPISODE))
    case (Some(s), Some(e)) => Some(TokenValue(Some(s), Some(e)))
    case _ => None
  }

  /** The digits that end the token, when they start at i and there is at least one. */
  predicate NumberToEnd(token: string, i: nat) {
    Number(token, i) == Some(|token|)
  }

  /** parseQueryToken; None is its invalid outcome. */
  function ParseToken(token: string): (r: Option<TokenValue>)
    ensures r.Some? ==> r.value.season.Some? || r.value.episode.Some?
    ensures r.Some? && r.value.season.Some? ==> 1 <= r.value.season.value <= MAX_SEASON
    ensures r.Some? && r.value.episode.Some? ==> 1 <= r.value.episode.value <= MAX_EPISODE
  {
    var first := LetterNumber(token, 0, 's');
    var gap := if first.Some? then SpacesEnd(token, first.value) else 0;
    if first.Some? && LetterAt(token, gap, 'e') && NumberToEnd(token, gap + 1) then
      PairValue(token[1..first.value], token[gap + 1..])
    else
      var cross := Number(token, 0);
      if cross.Some? && LetterAt(token, cross.value, 'x') && NumberToEnd(token, cross.value + 1) then
        PairValue(token[..cross.value], token[cross.value + 1..])
      else match SeasonDigits(token)
           case Some(i) =>
             (match BoundedPositive(token[i..], MAX_SEASON)
              case Some(s) => Some(TokenValue(Some(s), None))
              case None => None)
           case None =>
             match EpisodeDigits(token)
             case Some(i) =>
               (match BoundedPositive(token[i..], MAX_EPISODE)
                case Some(e) => Some(TokenValue(None, Some(e)))
                case None => None)
             case None => None
  }

  /** Where the digits of a season token start. */
  function SeasonDigits(token: string): (i: Option<nat>)
    ensures i.Some? ==> i.value <= |token|
  {
    if LetterAt(token, 0, 's') && NumberToEnd(token, 1) then Some(1)
    else WordDigits(token, "season")
  }

  function EpisodeDigits(token: string): (i: Option<nat>)
    ensures i.Some? ==> i.value <= |token|
  {
    if LetterAt(token, 0, 'e') && NumberToEnd(token, 1) then Some(1)
    else Or(WordDigits(token, "ep"), WordDigits(token, "episode"))
  }

  function WordDigits(token: string, word: string): (i: Option<nat>)
    requires forall k :: 0 <= k < |word| ==> 'a' <= word[k] <= 'z'
    ensures i.Some? ==> i.value <= |token|
  {
    if !WordAt(token, 0, word) then None
    else match Spaces(token, |word|)
         case Some(j) => if NumberToEnd(token, j) then Some(j) else None
         case None => None
  }

  // ---------- the surroundings of a token ----------

  /** completeToken: no letter or digit touches the token on either side. */
  predicate CompleteToken(value: string, start: nat, end: nat, u: Tables)
    requires start <= end <= |value|
  {
    && (start > 0 ==> !u.IsTitleRune(value[start - 1]))
    && (end < |value| ==> !u.IsTitleRune(value[end]))
  }

  predicate IsContinuation(r: char) {
    r in ".-\U{2013}\U{2014}/"
  }

  function SpacesStart(s: string, i: nat): (start: nat)
    requires i <= |s|
    ensures start <= i && (forall k :: start <= k < i ==> IsSpace(s[k])) && (start > 0 ==> !IsSpace(s[start - 1]))
  {
    if i > 0 && IsSpace(s[i - 1]) then SpacesStart(s, i - 1) else i
  }

  /**
  What counts as a numeric continuation on the right: white space, a separator, white space and at
  least one digit, unless white space stands on both sides of the separator (and, where separated
  numbers are not title text, unless moreover the number does not look like a year).
  */
  predicate ContinuesAfter(value: string, end: nat, allowSeparatedTitleNumber: bool)
    requires end <= |value|
  {
    var gap := SpacesEnd(value, end);
    && gap < |value| && IsContinuation(value[gap])
    && (var digits := SpacesEnd(value, gap + 1);
        && digits < DigitsEnd(value, digits)
        && !(gap > end && digits > gap + 1
             && (allowSeparatedTitleNumber || DigitsEnd(value, digits) - digits == 4)))
  }

  predicate ContinuesBefore(value: string, start: nat)
    requires start <= |value|
  {
    var gap := SpacesStart(value, start);
    && 0 < gap && IsContinuation(value[gap - 1])
    && (var digits := SpacesStart(value, gap - 1);
        && 0 < digits && IsAsciiDigit(value[digits - 1])
        && !(gap < start && digits < gap - 1))
  }

  // ---------- the repository's loops ----------

  /** skipSpaceForward. */
  method SkipSpaceForward(value: string, from: nat) returns (index: nat)
    requires from <= |value|
    ensures index == SpacesEnd(value, from)
  {
    index := from;
    while index < |value|
      invariant from <= index <= |value| && SpacesEnd(value, from) == SpacesEnd(value, index)
    {
      if !IsSpace(value[index]) {
        break;
      }
      index := index + 1;
    }
  }

  /** skipSpaceBackward. */
  method SkipSpaceBackward(value: string, from: nat) returns (index: nat)
    requires from <= |value|
    ensures index == SpacesStart(value, from)
  {
    index := from;
    while index > 0
      invariant index <= from && SpacesStart(value, from) == SpacesStart(value, index)
    {
      if !IsSpace(value[index - 1]) {
        break;
      }
      index := index - 1;
    }
  }

  /** hasNumericContinuationAfter, on the text from position end. */
  method HasNumericContinuationAfter(value: string, end: nat, allowSeparatedTitleNumber: bool) returns (r: bool)
    requires end <= |value|
    ensures r == ContinuesAfter(value, end, allowSeparatedTitleNumber)
  {
    var gap := SkipSpaceForward(value, end);
    var spacedBeforeSeparator := gap > end;
    if gap == |value| || !IsContinuation(value[gap]) {
      return false;
    }
    var digitStart := SkipSpaceForward(value, gap + 1);
    var spacedAfterSeparator := digitStart > gap + 1;
    var index := digitStart;
    while index < |value| && IsAsciiDigit(value[index])
      invariant digitStart <= index <= |value| && DigitsEnd(value, digitStart) == DigitsEnd(value, index)
    {
      index := index + 1;
    }
    if index == digitStart {
      return false;
    }
    if spacedBeforeSeparator && spacedAfterSeparator && (allowSeparatedTitleNumber || index - digitStart == 4) {
      return false;
    }
    return true;
  }

  /** numericContinuationBefore, on the text up to position start. */
  method NumericContinuationBefore(value: string, start: nat) returns (r: bool)
    requires start <= |value|
    ensures r == ContinuesBefore(value, start)
  {
    var gap := SkipSpaceBackward(value, start);
    var spacedAfterSeparator := gap < start;
    if gap == 0 || !IsContinuation(value[gap - 1]) {
      return false;
    }
    var digitEnd := SkipSpaceBackward(value, gap - 1);
    var spacedBeforeSeparator := digitEnd < gap - 1;
    var index := digitEnd;
    while index > 0 && IsAsciiDigit(value[index - 1])
      invariant 0 <= index <= digitEnd <= |value| && (index < digitEnd ==> IsAsciiDigit(value[digitEnd - 1]))
    {
      index := index - 1;
    }
    if index == digitEnd {
      return false;
    }
    return !(spacedBeforeSeparator && spacedAfterSeparator);
  }

  // ---------- what is printed is read back ----------

  lemma {:induction false} DigitsRun(s: string, i: nat, end: nat)
    requires i <= end <= |s| && (forall k :: i <= k < end ==> IsAsciiDigit(s[k]))
    requires end == |s| || !IsAsciiDigit(s[end])
    ensures DigitsEnd(s, i) == end
  {
  }

  /** The tag of one episode, as titles carry it, is one whole token with the same two numbers. */
  lemma EpisodeTagReadsBack(season: nat, episode: nat)
    requires 1 <= season <= MAX_SEASON && 1 <= episode <= MAX_EPISODE
    ensures var tag := "S" + Padded(season) + "E" + Padded(episode);
            && ParseToken(tag) == Some(TokenValue(Some(season), Some(episode)))
            && FindAll(tag, 0) == [(0, |tag|)]
  {
    PaddedReadsBack(season, MAX_SEASON);
    PaddedReadsBack(episode, MAX_EPISODE);
    var s, e := Padded(season), Padded(episode);
    var tag := "S" + s + "E" + e;
    DigitsRun(tag, 1, 1 + |s|);
    DigitsRun(tag, 2 + |s|, |tag|);
    assert tag[1..1 + |s|] == s && tag[2 + |s|..] == e;
    assert LetterNumber(tag, 0, 's') == Some(1 + |s|) && SpacesEnd(tag, 1 + |s|) == 1 + |s|;
    assert JoinedPair(tag, 0) == Some(|tag|) && SpacedPair(tag, 0) == None;
    assert MatchAt(tag, 0) == Some(|tag|);
    assert FindAll(tag, |tag|) == [];
  }

  /** So is the tag of a whole season. */
  lemma SeasonTagReadsBack(season: nat)
    requires 1 <= season <= MAX_SEASON
    ensures var tag := "S" + Padded(season);
            && ParseToken(tag) == Some(TokenValue(Some(season), None))
            && FindAll(tag, 0) == [(0, |tag|)]
  {
    PaddedReadsBack(season, MAX_SEASON);
    var s := Padded(season);
    var tag := "S" + s;
    DigitsRun(tag, 1, |tag|);
    assert tag[1..] == s;
    assert LetterNumber(tag, 0, 's') == Some(|tag|) && SpacesEnd(tag, |tag|) == |tag|;
    assert SpacedPair(tag, 0) == None && JoinedPair(tag, 0) == None && CrossPair(tag, 0) == None;
    assert !WordAt(tag, 0, "season") && !WordAt(tag, 0, "episode") && !WordAt(tag, 0, "ep") by {
      assert IsAsciiDigit(tag[1]);
      assert "season"[1] == 'e' && "episode"[1] == 'p' && "ep"[1] == 'p';
    }
    assert MatchAt(tag, 0) == Some(|tag|);
    assert FindAll(tag, |tag|) == [];
    assert Number(tag, 0) == None;
  }
}
