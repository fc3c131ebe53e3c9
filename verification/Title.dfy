/**
Title metadata (internal/torznab/title.go): episode groups in a text, the season rules per release
type, the rendered tag, and the filter.
*/
module Title {
  import opened Common
  import opened Runes
  import opened Decimal
  import opened QueryTokens
  import opened Seasons
  import opened Whitespace

  datatype ReleaseType = TV | ONA | WEB | OVA | OAD | Movie | Dorama | Special | Unsupported(name: string)

  predicate Known(t: ReleaseType) {
    !t.Unsupported?
  }

  /** An inclusive range; equal bounds are one episode. */
  datatype EpisodeRange = EpisodeRange(start: nat, end: nat)

  datatype TitleMetadata = TitleMetadata(season: Option<nat>, episodes: Option<EpisodeRange>, title: string) {
    /** Matches. */
    predicate Matches(wantedSeason: Option<nat>, wantedEpisode: Option<nat>) {
      && (wantedSeason.Some? ==> season == wantedSeason)
      && (wantedEpisode.Some? ==> episodes.Some? && episodes.value.start <= wantedEpisode.value <= episodes.value.end)
    }
  }

  datatype TitleError = NoMainName | NoLabel | UnsupportedType | NoSemanticTitle

  // ---------- bracket groups ----------

  function NextBracket(s: string, i: nat): (j: nat)
    requires i <= |s|
    ensures i <= j <= |s| && (forall k :: i <= k < j ==> s[k] != '[' && s[k] != ']')
    ensures j < |s| ==> s[j] == '[' || s[j] == ']'
    decreases |s| - i
  {
    if i == |s| || s[i] == '[' || s[i] == ']' then i else NextBracket(s, i + 1)
  }

  /** The contents of every innermost bracket group, in order. */
  function Groups(s: string, i: nat): seq<string>
    requires i <= |s|
    decreases |s| - i
  {
    if i == |s| then []
    else if s[i] != '[' then Groups(s, i + 1)
    else
      var close := NextBracket(s, i + 1);
      if close < |s| && s[close] == ']' then [s[i + 1..close]] + Groups(s, close + 1)
      else Groups(s, i + 1)
  }

  /** Between two brackets there is no other. */
  ghost predicate IsGroup(s: string, i: int, j: int) {
    0 <= i < j < |s| && s[i] == '[' && s[j] == ']' && forall k :: i < k < j ==> s[k] != '[' && s[k] != ']'
  }

  ghost predicate GroupFrom(s: string, from: nat, g: string) {
    exists i, j :: from <= i && IsGroup(s, i, j) && g == s[i + 1..j]
  }

  /** The groups are the texts between such brackets. */
  lemma {:induction false} GroupsExactly(s: string, from: nat, g: string)
    requires from <= |s|
    ensures g in Groups(s, from) <==> GroupFrom(s, from, g)
    decreases |s| - from
  {
    hide GroupFrom;
    if from == |s| {
      NoGroupFrom(s, g);
    } else {
      GroupsExactly(s, from + 1, g);
      var close := if s[from] == '[' then NextBracket(s, from + 1) else |s|;
      GroupStep(s, from, close, g);
      if close < |s| && s[close] == ']' {
        GroupsExactly(s, close + 1, g);
      }
    }
  }

  lemma NoGroupFrom(s: string, g: string)
    ensures !GroupFrom(s, |s|, g)
  {
  }

  /** A group from here on is the one that starts here or one from behind it on. */
  lemma GroupStep(s: string, from: nat, close: nat, g: string)
    requires from < |s| && close == if s[from] == '[' then NextBracket(s, from + 1) else |s|
    ensures close < |s| && s[close] == ']' ==>
              (GroupFrom(s, from, g) <==> g == s[from + 1..close] || GroupFrom(s, close + 1, g))
    ensures !(close < |s| && s[close] == ']') ==> (GroupFrom(s, from, g) <==> GroupFrom(s, from + 1, g))
  {
    if close < |s| && s[close] == ']' {
      assert IsGroup(s, from, close);
    }
  }

  /** They stand in the order of the text: one that comes last in the text is the last group. */
  lemma {:induction false} LastGroup(s: string, n: nat, close: nat, i: nat)
    requires i <= n && IsGroup(s, n, close) && forall k :: close < k < |s| ==> s[k] != '['
    ensures Groups(s, i) == Groups(s[..n], i) + [s[n + 1..close]]
    decreases n - i
  {
    hide Groups, NextBracket;
    var front, last := s[..n], [s[n + 1..close]];
    if i == n {
      GroupBracket(s, n, close);
      NoGroups(s, close + 1);
      NoGroups(front, n);
      GroupAt(s, n, close);
    } else if s[i] != '[' {
      LastGroup(s, n, close, i + 1);
      NoGroupAt(s, i);
      NoGroupAt(front, i);
    } else {
      SameBracket(s, n, i + 1);
      var near := NextBracket(front, i + 1);
      GroupAt(s, i, near);
      GroupAt(front, i, near);
      if near < n && s[near] == ']' {
        LastGroup(s, n, close, near + 1);
        assert front[i + 1..near] == s[i + 1..near];
        Regrouped([s[i + 1..near]], Groups(front, near + 1), last);
      } else {
        LastGroup(s, n, close, i + 1);
      }
    }
  }

  lemma Regrouped(a: seq<string>, b: seq<string>, c: seq<string>)
    ensures a + (b + c) == a + b + c
  {
  }

  lemma NoGroupAt(s: string, i: nat)
    requires i < |s| && s[i] != '['
    ensures Groups(s, i) == Groups(s, i + 1)
  {
  }

  lemma GroupAt(s: string, i: nat, close: nat)
    requires i < |s| && s[i] == '[' && close == NextBracket(s, i + 1)
    ensures Groups(s, i) == if close < |s| && s[close] == ']' then [s[i + 1..close]] + Groups(s, close + 1)
                            else Groups(s, i + 1)
  {
  }

  lemma GroupBracket(s: string, i: nat, close: nat)
    requires IsGroup(s, i, close)
    ensures NextBracket(s, i + 1) == close
  {
  }

  lemma {:induction false} SameBracket(s: string, n: nat, i: nat)
    requires i <= n < |s| && s[n] == '['
    ensures NextBracket(s, i) == NextBracket(s[..n], i)
    decreases n - i
  {
    if i < n {
      SameBracket(s, n, i + 1);
    }
  }

  lemma {:induction false} NoGroups(s: string, i: nat)
    requires i <= |s| && forall k :: i <= k < |s| ==> s[k] != '['
    ensures Groups(s, i) == []
    decreases |s| - i
  {
    if i < |s| {
      NoGroups(s, i + 1);
    }
  }

  predicate IsDash(r: char) {
    r in "-\U{2013}\U{2014}"
  }

  /** The numbers an episode expression spells. */
  datatype Captures = Captures(start: string, end: Option<string>)

  /** A dash with optional white space around it, and the number that ends the text. */
  function RangeTail(s: string, i: nat): Option<string>
    requires i <= |s|
  {
    var dash := SpacesEnd(s, i);
    if dash < |s| && IsDash(s[dash]) && NumberToEnd(s, SpacesEnd(s, dash + 1))
    then Some(s[SpacesEnd(s, dash + 1)..]) else None
  }

  /** A number at i, alone or as the start of a range, up to the end of the text. */
  function NumberOrRange(s: string, i: nat): Option<Captures>
  {
    match Number(s, i)
    case None => None
    case Some(j) =>
      if j == |s| then Some(Captures(s[i..j], None))
      else match RangeTail(s, j)
           case Some(end) => Some(Captures(s[i..j], Some(end)))
           case None => None
  }

  /** The four episode expressions, in the order parseEpisodes tries them. */
  function EpisodeExpression(content: string): Option<Captures> {
    var bare := NumberOrRange(content, 0);
    if bare.Some? then bare
    else
      var e := if LetterAt(content, 0, 'e') then NumberOrRange(content, SpacesEnd(content, 1)) else None;
      if e.Some? then e
      else
        var ep := if WordAt(content, 0, "ep") then NumberOrRange(content, SpacesEnd(content, 2)) else None;
        if ep.Some? then ep
        else
          var single := WordNumber(content, 0, "episode");
          if single == Some(|content|) then
            Some(Captures(content[SpacesEnd(content, |"episode"|)..], None))
          else
            var first := WordNumber(content, 0, "episodes");
            if first.None? then None
            else match RangeTail(content, first.value)
                 case Some(end) =>
                   Some(Captures(content[SpacesEnd(content, |"episodes"|)..first.value], Some(end)))
                 case None => None
  }

  /** What one group says about episodes, if it says anything valid. */
  function GroupRange(group: string): (r: Option<EpisodeRange>)
    ensures r.Some? ==> 1 <= r.value.start <= r.value.end <= MAX_EPISODE
  {
    match EpisodeExpression(TrimSpace(group))
    case None => None
    case Some(parts) =>
      match BoundedPositive(parts.start, MAX_EPISODE)
      case None => None
      case Some(start) =>
        if parts.end.None? then Some(EpisodeRange(start, start))
        else match BoundedPositive(parts.end.value, MAX_EPISODE)
             case Some(end) => if end < start then None else Some(EpisodeRange(start, end))
             case None => None
  }

  /** parseEpisodes: the rightmost group that says something valid decides. */
  method ParseEpisodes(text: string) returns (r: Option<EpisodeRange>)
    ensures r.Some? ==> 1 <= r.value.start <= r.value.end <= MAX_EPISODE
    ensures r == LastRange(Groups(text, 0))
    ensures r.None? <==> forall g :: g in Groups(text, 0) ==> GroupRange(g).None?
  {
    hide EpisodeExpression, TrimSpace, BoundedPositive, Groups;
    var groups := Groups(text, 0);
    var i := |groups|;
    assert groups[..i] == groups;
    while i > 0
      invariant 0 <= i <= |groups|
      invariant forall k :: i <= k < |groups| ==> GroupRange(groups[k]).None?
      invariant LastRange(groups) == LastRange(groups[..i])
    {
      i := i - 1;
      assert groups[..i + 1][..i] == groups[..i];
      var parts := EpisodeExpression(TrimSpace(groups[i]));
      if parts.None? {
        continue;
      }
      var start := BoundedPositive(parts.value.start, MAX_EPISODE);
      if start.None? {
        continue;
      }
      var end := start;
      if parts.value.end.Some? {
        end := BoundedPositive(parts.value.end.value, MAX_EPISODE);
        if end.None? || end.value < start.value {
          continue;
        }
      }
      assert groups[i] in groups;
      return Some(EpisodeRange(start.value, end.value));
    }
    return None;
  }

  /** The range of the last group that has one. */
  function LastRange(groups: seq<string>): Option<EpisodeRange> {
    if groups == [] then None
    else
      var last := GroupRange(groups[|groups| - 1]);
      if last.Some? then last else LastRange(groups[..|groups| - 1])
  }

  // ---------- season rules and rendering ----------

  /** A movie without episodes has no season; every other release has the one its title names, or the first. */
  predicate SeasonFollows(t: ReleaseType, named: Option<nat>, m: TitleMetadata) {
    && (m.season == None <==> t == Movie && m.episodes == None)
    && (m.season.Some? ==> (named.Some? ==> m.season == named) && (named == None ==> m.season == Some(1)))
  }

  function EpisodesTag(episodes: Option<EpisodeRange>): string {
    match episodes
    case None => ""
    case Some(r) => "E" + Padded(r.start) + if r.end != r.start then "-E" + Padded(r.end) else ""
  }

  function SeasonTag(season: Option<nat>): string {
    match season
    case None => ""
    case Some(s) => " S" + Padded(s)
  }

  /** The season and episode tag as rendered in a title. */
  function Tag(season: Option<nat>, episodes: Option<EpisodeRange>): string {
    SeasonTag(season) + EpisodesTag(episodes)
  }

  function BracketStart(s: string, i: nat): (j: nat)
    requires i <= |s|
    ensures i <= j <= |s| && (forall k :: i <= k < j ==> s[k] != '[') && (j < |s| ==> s[j] == '[')
    decreases |s| - i
  {
    if i == |s| || s[i] == '[' then i else BracketStart(s, i + 1)
  }

  /** The label's title text: what precedes the first bracket group, without the distributor suffix. */
  function Semantic(text: string): string {
    TrimSpace(WithoutDistributor(text[..BracketStart(text, 0)]))
  }

  /** The rendering steps of ParseTitle up to the language marker. */
  method Render(semantic: string, season: Option<nat>, episodes: Option<EpisodeRange>) returns (title: string)
    ensures title == semantic + Tag(season, episodes)
  {
    hide Padded, SeasonTag, EpisodesTag;
    title := semantic;
    if season.Some? {
      title := title + " S" + Padded(season.value);
    }
    ghost var front := title;
    if episodes.Some? {
      title := title + "E" + Padded(episodes.value.start);
      if episodes.value.end != episodes.value.start {
        title := title + "-E" + Padded(episodes.value.end);
      }
    }
    SeasonAppended(semantic, front, season);
    EpisodesAppended(front, title, episodes);
    var first, second := SeasonTag(season), EpisodesTag(episodes);
    assert semantic + first + second == semantic + (first + second);
  }

  lemma SeasonAppended(semantic: string, front: string, season: Option<nat>)
    requires front == match season
                      case None => semantic
                      case Some(s) => semantic + " S" + Padded(s)
    ensures front == semantic + SeasonTag(season)
  {
    hide Padded;
    if season.Some? {
      var x := Padded(season.value);
      assert semantic + " S" + x == semantic + (" S" + x);
    } else {
      assert semantic + "" == semantic;
    }
  }

  lemma EpisodesAppended(front: string, title: string, episodes: Option<EpisodeRange>)
    requires title == match episodes
                      case None => front
                      case Some(r) =>
                        var first := front + "E" + Padded(r.start);
                        if r.end != r.start then first + "-E" + Padded(r.end) else first
    ensures title == front + EpisodesTag(episodes)
  {
    hide Padded;
    match episodes
    case None => assert front + "" == front;
    case Some(r) =>
      var x, y := Padded(r.start), Padded(r.end);
      ThreeParts(front, "E", x);
      ThreeParts(front + ("E" + x), "-E", y);
      ThreeParts(front, "E" + x, "-E" + y);
      assert "E" + x + "" == "E" + x;
  }

  lemma ThreeParts(a: string, b: string, c: string)
    ensures a + b + c == a + (b + c)
  {
  }

  /** ParseTitle. */
  method ParseTitle(t: ReleaseType, mainName: string, text: string, u: Tables)
    returns (r: Result<TitleMetadata, TitleError>)
    ensures var semantic := Semantic(TrimSpace(text));
            r.Err? <==> TrimSpace(mainName) == "" || TrimSpace(text) == "" || !Known(t) || semantic == ""
    ensures r.Err? ==>
              r.error == if TrimSpace(mainName) == "" then NoMainName
                         else if TrimSpace(text) == "" then NoLabel
                         else if !Known(t) then UnsupportedType
                         else NoSemanticTitle
    ensures r.Ok? ==>
              var m, semantic := r.value, Semantic(TrimSpace(text));
              && m.episodes == LastRange(Groups(TrimSpace(text), 0))
              && (exists named :: Names(semantic, u, named) && SeasonFollows(t, named, m))
              && m.title ==
                   semantic + Tag(m.season, m.episodes) + " RUS / " + TrimSpace(mainName) + " / " + TrimSpace(text)
    ensures r.Ok? ==> WellFormed(t, r.value)
  {
    hide TrimSpace, Semantic, Groups, LastRange, Tag, Names;
    var mainTrimmed, trimmed := TrimSpace(mainName), TrimSpace(text);
    if mainTrimmed == "" {
      return Err(NoMainName);
    }
    if trimmed == "" {
      return Err(NoLabel);
    }
    if !Known(t) {
      return Err(UnsupportedType);
    }
    var semantic := Semantic(trimmed);
    if semantic == "" {
      return Err(NoSemanticTitle);
    }
    var season := ParseSeason(semantic, u);
    ghost var named := season;
    var episodes := ParseEpisodes(trimmed);
    if t.Movie? {
      if episodes.None? {
        season := None;
      } else if season.None? {
        season := Some(1);
      }
    } else if season.None? {
      season := Some(1);
    }
    var title := Render(semantic, season, episodes);
    title := title + " RUS / " + mainTrimmed + " / " + trimmed;
    r := Ok(TitleMetadata(season, episodes, title));
    assert SeasonFollows(t, named, r.value);
  }

  /** What every parsed title satisfies. */
  ghost predicate WellFormed(t: ReleaseType, m: TitleMetadata) {
    && (m.season.Some? ==> 1 <= m.season.value <= MAX_SEASON)
    && (m.episodes.Some? ==> 1 <= m.episodes.value.start <= m.episodes.value.end <= MAX_EPISODE)
    && (!t.Movie? ==> m.season.Some?)
    && (t.Movie? ==> (m.season.Some? <==> m.episodes.Some?))
  }

  // ---------- the printer and the query parser undo each other ----------

  lemma SeasonFirst(season: nat, episodes: Option<EpisodeRange>)
    ensures var tag, x := Tag(Some(season), episodes), Padded(season);
            && tag != "" && tag[0] == ' ' && tag[1..] == "S" + x + EpisodesTag(episodes)
            && tag[2..] == x + EpisodesTag(episodes)
  {
    hide Padded, EpisodesTag;
    var x, rest := Padded(season), EpisodesTag(episodes);
    assert " S" + x + rest == [' '] + ("S" + x + rest) == " S" + (x + rest);
  }

  lemma NoSeason(episodes: Option<EpisodeRange>)
    ensures Tag(None, episodes) == EpisodesTag(episodes)
  {
    hide EpisodesTag;
  }

  lemma EpisodesFirst(episodes: Option<EpisodeRange>)
    ensures episodes.None? ==> EpisodesTag(episodes) == ""
    ensures episodes.Some? ==> EpisodesTag(episodes) != "" && EpisodesTag(episodes)[0] == 'E'
    ensures episodes.Some? && episodes.value.start == episodes.value.end ==>
              EpisodesTag(episodes) == "E" + Padded(episodes.value.start)
  {
    hide Padded;
  }

  /** The tag of one episode is read back as the very filter that this metadata satisfies, and only its own. */
  lemma OwnEpisodeTagMatches(t: ReleaseType, m: TitleMetadata, other: TitleMetadata)
    requires WellFormed(t, m) && m.episodes.Some? && m.episodes.value.start == m.episodes.value.end
    ensures m.season.Some? && Tag(m.season, m.episodes)[0] == ' '
    ensures var tag := Tag(m.season, m.episodes)[1..];
            var filter := ParseToken(tag);
            && FindAll(tag, 0) == [(0, |tag|)]
            && filter == Some(TokenValue(m.season, Some(m.episodes.value.start)))
            && m.Matches(filter.value.season, filter.value.episode)
            && (other.Matches(filter.value.season, filter.value.episode) <==>
                  && other.season == m.season && other.episodes.Some?
                  && other.episodes.value.start <= m.episodes.value.start <= other.episodes.value.end)
  {
    hide ParseToken, FindAll, Padded, Tag, EpisodesTag;
    var s, e := m.season.value, m.episodes.value.start;
    EpisodeTagReadsBack(s, e);
    SeasonFirst(s, m.episodes);
    EpisodesFirst(m.episodes);
    ThreeParts("S" + Padded(s), "E", Padded(e));
  }

  /** What a filter asks for: the season to be that one, the range to hold that episode, and nothing else. */
  lemma MatchesExactly(m: TitleMetadata, season: nat, episode: nat)
    ensures m.Matches(None, None)
    ensures m.Matches(Some(season), None) <==> m.season == Some(season)
    ensures m.Matches(None, Some(episode)) <==>
              m.episodes.Some? && m.episodes.value.start <= episode <= m.episodes.value.end
    ensures m.Matches(Some(season), Some(episode)) <==>
              m.Matches(Some(season), None) && m.Matches(None, Some(episode))
  {
  }

  /** The tag of a season is read back as the filter that exactly the releases of that season satisfy. */
  lemma OwnSeasonTagMatches(t: ReleaseType, m: TitleMetadata, other: TitleMetadata)
    requires WellFormed(t, m) && m.season.Some? && m.episodes.None?
    ensures Tag(m.season, m.episodes)[0] == ' '
    ensures var tag := Tag(m.season, m.episodes)[1..];
            var filter := ParseToken(tag);
            && FindAll(tag, 0) == [(0, |tag|)]
            && filter == Some(TokenValue(m.season, None))
            && m.Matches(filter.value.season, filter.value.episode)
            && (other.Matches(filter.value.season, filter.value.episode) <==> other.season == m.season)
  {
    hide ParseToken, FindAll, Padded, Tag, EpisodesTag;
    SeasonTagReadsBack(m.season.value);
    SeasonFirst(m.season.value, m.episodes);
    EpisodesFirst(m.episodes);
    assert "S" + Padded(m.season.value) + "" == "S" + Padded(m.season.value);
  }

  /** Digits in front of something else end where that starts. */
  lemma DigitsInFront(x: string, rest: string)
    requires AllDigits(x) && (rest != "" ==> !IsAsciiDigit(rest[0]))
    ensures DigitsEnd(x + rest, 0) == |x| && (x + rest)[..|x|] == x && (x + rest)[|x|..] == rest
  {
    assert forall k :: 0 <= k < |x| ==> (x + rest)[k] == x[k];
    assert rest != "" ==> (x + rest)[|x|] == rest[0];
    DigitsRun(x + rest, 0, |x|);
  }

  /** A number and what follows it can be told apart again. */
  lemma NumberInFront(m: nat, n: nat, a: string, b: string)
    requires 1 <= m <= MAX_EPISODE && 1 <= n <= MAX_EPISODE && Padded(m) + a == Padded(n) + b
    requires (a != "" ==> !IsAsciiDigit(a[0])) && (b != "" ==> !IsAsciiDigit(b[0]))
    ensures m == n && a == b
  {
    hide Padded;
    PaddedReadsBack(m, MAX_EPISODE);
    PaddedReadsBack(n, MAX_EPISODE);
    DigitsInFront(Padded(m), a);
    DigitsInFront(Padded(n), b);
    PaddedIsInjective(m, n);
  }

  ghost predicate RangeOk(episodes: Option<EpisodeRange>) {
    episodes.Some? ==> 1 <= episodes.value.start <= episodes.value.end <= MAX_EPISODE
  }

  lemma EpisodesTagIsInjective(a: Option<EpisodeRange>, b: Option<EpisodeRange>)
    requires RangeOk(a) && RangeOk(b) && EpisodesTag(a) == EpisodesTag(b)
    ensures a == b
  {
    hide Padded;
    if a.Some? && b.Some? {
      var x := if a.value.end != a.value.start then "-E" + Padded(a.value.end) else "";
      var y := if b.value.end != b.value.start then "-E" + Padded(b.value.end) else "";
      assert EpisodesTag(a)[1..] == Padded(a.value.start) + x && EpisodesTag(b)[1..] == Padded(b.value.start) + y;
      NumberInFront(a.value.start, b.value.start, x, y);
      if x != "" {
        assert x[2..] == Padded(a.value.end) && y[2..] == Padded(b.value.end);
        PaddedIsInjective(a.value.end, b.value.end);
      }
    }
  }

  /** No two well-formed season and episode readings are rendered alike, ranges included. */
  lemma TagsAreInjective(t: ReleaseType, m: TitleMetadata, u: ReleaseType, n: TitleMetadata)
    requires WellFormed(t, m) && WellFormed(u, n) && Tag(m.season, m.episodes) == Tag(n.season, n.episodes)
    ensures m.season == n.season && m.episodes == n.episodes
  {
    hide Padded, Tag, EpisodesTag;
    var x, y := EpisodesTag(m.episodes), EpisodesTag(n.episodes);
    EpisodesFirst(m.episodes);
    EpisodesFirst(n.episodes);
    NoSeason(m.episodes);
    NoSeason(n.episodes);
    if m.season.Some? {
      SeasonFirst(m.season.value, m.episodes);
    }
    if n.season.Some? {
      SeasonFirst(n.season.value, n.episodes);
    }
    if m.season.Some? && n.season.Some? {
      NumberInFront(m.season.value, n.season.value, x, y);
    }
    EpisodesTagIsInjective(m.episodes, n.episodes);
  }

  /** What a tag says, by its text: an S and the season, an E and the first episode, and for a range -E and the last. */
  lemma TagSpells(season: nat, start: nat, end: nat)
    requires 1 <= season <= MAX_SEASON && 1 <= start < end <= MAX_EPISODE
    ensures exists x, y, z ::
              && Spells(x, season) && Spells(y, start) && Spells(z, end)
              && Tag(Some(season), None) == " S" + x
              && Tag(Some(season), Some(EpisodeRange(start, start))) == " S" + x + "E" + y
              && Tag(Some(season), Some(EpisodeRange(start, end))) == " S" + x + "E" + y + "-E" + z
  {
    hide Padded;
    var x, y, z := Padded(season), Padded(start), Padded(end);
    PaddedSpells(season);
    PaddedSpells(start);
    PaddedSpells(end);
    assert Tag(Some(season), None) == " S" + x;
    assert Tag(Some(season), Some(EpisodeRange(start, start))) == " S" + x + "E" + y;
    assert Tag(Some(season), Some(EpisodeRange(start, end))) == " S" + x + "E" + y + "-E" + z;
  }

  /** The decimal form of a number, with a leading zero if it has one digit only. */
  ghost predicate Spells(text: string, n: nat) {
    AllDigits(text) && Value(text) == n && |text| == if n < 100 then 2 else if n < 1000 then 3 else 4
  }

  lemma PaddedSpells(n: nat)
    requires 1 <= n <= MAX_EPISODE
    ensures Spells(Padded(n), n)
  {
    PaddedReadsBack(n, MAX_EPISODE);
    PaddedWidth(n);
  }

  // ---------- the tag inside its title ----------

  /** White space stands before position p, and p starts a season tag. */
  predicate TagStart(s: string, p: nat) {
    0 < p < |s| && IsSpace(s[p - 1]) && s[p] == 'S'
  }

  lemma LetterNumberStops(s: string, i: nat, p: nat, lower: char)
    requires TagStart(s, p) && i < p && 'a' <= lower <= 'z'
    ensures LetterNumber(s, i, lower).Some? ==> LetterNumber(s, i, lower).value < p
  {
  }

  lemma SpacesStop(s: string, i: nat, p: nat)
    requires TagStart(s, p) && i < p
    ensures SpacesEnd(s, i) <= p
  {
  }

  lemma WordNumberStops(s: string, i: nat, p: nat, word: string)
    requires TagStart(s, p) && i < p && word != ""
    requires forall k :: 0 <= k < |word| ==> 'a' <= word[k] <= 'z'
    ensures WordNumber(s, i, word).Some? ==> WordNumber(s, i, word).value <= p
  {
    if i + |word| < p {
      SpacesStop(s, i + |word|, p);
    } else {
      assert !Folds(s[p - 1], word[p - 1 - i]) && s[p - 1] == s[i + (p - 1 - i)];
    }
  }

  lemma SpacedPairStops(s: string, i: nat, p: nat)
    requires TagStart(s, p) && i < p
    ensures SpacedPair(s, i).Some? ==> SpacedPair(s, i).value <= p
  {
    LetterNumberStops(s, i, p, 's');
    var j := LetterNumber(s, i, 's');
    if j.Some? {
      SpacesStop(s, j.value, p);
      var k := SpacesEnd(s, j.value);
      if k < p { LetterNumberStops(s, k, p, 'e'); }
    }
  }

  /** No token that starts earlier reaches into the tag. */
  lemma NoMatchAcross(s: string, i: nat, p: nat)
    requires TagStart(s, p) && i < p
    ensures MatchAt(s, i).Some? ==> MatchAt(s, i).value <= p
  {
    SpacedPairStops(s, i, p);
    LetterNumberStops(s, i, p, 's');
    LetterNumberStops(s, i, p, 'e');
    var j := LetterNumber(s, i, 's');
    if j.Some? { LetterNumberStops(s, j.value, p, 'e'); }
    var n := Number(s, i);
    if n.Some? { LetterNumberStops(s, n.value, p, 'x'); }
    WordNumberStops(s, i, p, "season");
    WordNumberStops(s, i, p, "episode");
    WordNumberStops(s, i, p, "ep");
  }

  /**
  In a rendered title the tag of an episode is found again as one complete token, whatever title
  text precedes it, and it spells the same season and episode.
  */
  lemma TagIsFoundInItsTitle(front: string, season: nat, episode: nat, back: string, u: Tables)
    requires 1 <= season <= MAX_SEASON && 1 <= episode <= MAX_EPISODE && u.Sane()
    ensures var tag := "S" + Padded(season) + "E" + Padded(episode);
            var title := front + " " + tag + " " + back;
            var start, end := |front| + 1, |front| + 1 + |tag|;
            && (start, end) in FindAll(title, 0)
            && CompleteToken(title, start, end, u)
            && ParseToken(title[start..end]) == Some(TokenValue(Some(season), Some(episode)))
  {
    hide MatchAt, FindAll, ParseToken, Padded;
    var tag := "S" + Padded(season) + "E" + Padded(episode);
    var title := front + " " + tag + " " + back;
    var start, end := |front| + 1, |front| + 1 + |tag|;
    assert title[start..end] == tag && title[start - 1] == ' ' && title[end] == ' ';
    EpisodeTagReadsBack(season, episode);
    TagMatches(title, start, season, episode);
    FindAllIsLeftmost(title, 0, start);
    var spans := FindAll(title, 0);
    var k :| 0 <= k < |spans| && spans[k].0 <= start < spans[k].1;
    FindAllMatches(title, 0, spans[k]);
    if spans[k].0 < start {
      NoMatchAcross(title, spans[k].0, start);
    }
  }

  lemma TagMatches(title: string, start: nat, season: nat, episode: nat)
    requires 1 <= season <= MAX_SEASON && 1 <= episode <= MAX_EPISODE
    requires var tag := "S" + Padded(season) + "E" + Padded(episode);
             && start + |tag| < |title| && title[start..start + |tag|] == tag
             && title[start + |tag|] == ' '
    ensures MatchAt(title, start) == Some(start + |"S" + Padded(season) + "E" + Padded(episode)|)
  {
    var s, e := Padded(season), Padded(episode);
    var tag := "S" + s + "E" + e;
    PaddedReadsBack(season, MAX_SEASON);
    PaddedReadsBack(episode, MAX_EPISODE);
    var mid, end := start + 1 + |s|, start + |tag|;
    assert forall k :: start <= k < end ==> title[k] == tag[k - start];
    DigitsRun(title, start + 1, mid);
    DigitsRun(title, mid + 1, end);
    assert LetterNumber(title, start, 's') == Some(mid) && SpacesEnd(title, mid) == mid;
    assert JoinedPair(title, start) == Some(end) && SpacedPair(title, start) == None;
  }
}
