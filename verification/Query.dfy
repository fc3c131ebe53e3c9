/**
NormalizeQuery (internal/torznab/query.go): explicit filters, embedded tokens, cleanup. Its contract
says when it fails and with which parameter, which season and episode it settles on, and exactly
which text is left; the lemmas say that no title text is lost on the way.
*/
module Query {
  import opened Common
  import opened Runes
  import opened Decimal
  import opened QueryTokens
  import opened TechnicalPairs
  import opened EdgeSeparators
  import opened Whitespace
  import J = JsonText

  const MAX_QUERY_BYTES: nat := 4096

  /** The canonical parameter an error is reported under: q, season or ep. */
  datatype Parameter = QueryParameter | SeasonParameter | EpisodeParameter

  datatype NormalizedQuery = NormalizedQuery(
    cleanQuery: string, effectiveSeason: Option<nat>, effectiveEpisode: Option<nat>, hadTechnicalTokens: bool)

  function Utf8Width(r: char): nat {
    var c := r as int;
    if c < 0x80 then 1 else if c < 0x800 then 2 else if c < 0x10000 then 3 else 4
  }

  /** The length of the query in UTF-8 bytes. */
  function ByteLength(s: string): nat {
    if s == "" then 0 else ByteLength(s[..|s| - 1]) + Utf8Width(s[|s| - 1])
  }

  /** The UTF-8 form of a text. */
  function Utf8(s: string): seq<J.Byte> {
    if s == "" then []
    else
      var c := s[|s| - 1] as int;
      Utf8(s[..|s| - 1]) + if c < 0x80 then [c] else J.Encode(c)
  }

  /** The length counts the bytes of that form. */
  lemma {:induction false} ByteLengthCounts(s: string)
    ensures ByteLength(s) == |Utf8(s)|
  {
    if s != "" {
      ByteLengthCounts(s[..|s| - 1]);
    }
  }

  /** parseExplicitFilter on a supplied value. */
  function ParseExplicit(raw: string, prefix: char, maximum: nat): (r: Option<nat>)
    requires 'a' <= prefix <= 'z'
    ensures r.Some? ==> 1 <= r.value <= maximum
  {
    var value := TrimSpace(raw);
    if value != "" && (value[0] == prefix || value[0] as int == prefix as int - 32)
    then BoundedPositive(value[1..], maximum)
    else BoundedPositive(value, maximum)
  }

  // ---------- where a season or an episode can come from ----------

  /** A token of the query that is complete, and so has to be understood. */
  ghost predicate IsToken(query: string, u: Tables, span: Span) {
    && span in FindAll(query, 0)
    && span.0 <= span.1 <= |query|
    && CompleteToken(query, span.0, span.1, u)
  }

  function TokenText(query: string, span: Span): string
    requires span.0 <= span.1 <= |query|
  {
    query[span.0..span.1]
  }

  predicate Unsupported(query: string, span: Span)
    requires span.0 <= span.1 <= |query|
  {
    || ContinuesAfter(query, span.1, true)
    || ContinuesBefore(query, span.0)
    || ParseToken(TokenText(query, span)).None?
  }

  datatype Filters = Filters(season: Option<string>, episode: Option<string>)

  /** The query, or the explicit filter, supplies this season. */
  ghost predicate SuppliesSeason(query: string, u: Tables, explicit: Filters, v: nat) {
    || (explicit.season.Some? && ParseExplicit(explicit.season.value, 's', MAX_SEASON) == Some(v))
    || exists span ::
         && IsToken(query, u, span) && ParseToken(TokenText(query, span)).Some?
         && ParseToken(TokenText(query, span)).value.season == Some(v)
  }

  ghost predicate SuppliesEpisode(query: string, u: Tables, explicit: Filters, v: nat) {
    || (explicit.episode.Some? && ParseExplicit(explicit.episode.value, 'e', MAX_EPISODE) == Some(v))
    || exists span ::
         && IsToken(query, u, span) && ParseToken(TokenText(query, span)).Some?
         && ParseToken(TokenText(query, span)).value.episode == Some(v)
  }

  ghost predicate BadSeason(query: string, u: Tables, explicit: Filters) {
    || (explicit.season.Some? && ParseExplicit(explicit.season.value, 's', MAX_SEASON).None?)
    || exists v, w :: v != w && SuppliesSeason(query, u, explicit, v) && SuppliesSeason(query, u, explicit, w)
  }

  ghost predicate BadEpisode(query: string, u: Tables, explicit: Filters) {
    || (explicit.episode.Some? && ParseExplicit(explicit.episode.value, 'e', MAX_EPISODE).None?)
    || exists v, w :: v != w && SuppliesEpisode(query, u, explicit, v) && SuppliesEpisode(query, u, explicit, w)
  }

  ghost predicate BadQuery(query: string, u: Tables) {
    || ByteLength(query) > MAX_QUERY_BYTES
    || exists span :: IsToken(query, u, span) && Unsupported(query, span)
  }

  // ---------- which fault is reported ----------

  /** The explicit filter, or one of the first k matches, supplies this season. */
  ghost predicate SeasonBefore(query: string, u: Tables, explicit: Filters, k: nat, v: nat) {
    || ExplicitSeason(explicit) == Some(v)
    || exists j :: 0 <= j < k && SeasonAt(query, u, j, v)
  }

  ghost predicate EpisodeBefore(query: string, u: Tables, explicit: Filters, k: nat, v: nat) {
    || ExplicitEpisode(explicit) == Some(v)
    || exists j :: 0 <= j < k && EpisodeAt(query, u, j, v)
  }

  /** The match is a token that the parser understands. */
  ghost predicate UnderstoodAt(query: string, u: Tables, j: nat) {
    var indexes := FindAll(query, 0);
    j < |indexes| && IsToken(query, u, indexes[j]) && ParseToken(TokenText(query, indexes[j])).Some?
  }

  ghost predicate SeasonAt(query: string, u: Tables, j: nat, v: nat) {
    UnderstoodAt(query, u, j) && ParseToken(TokenText(query, FindAll(query, 0)[j])).value.season == Some(v)
  }

  ghost predicate EpisodeAt(query: string, u: Tables, j: nat, v: nat) {
    UnderstoodAt(query, u, j) && ParseToken(TokenText(query, FindAll(query, 0)[j])).value.episode == Some(v)
  }

  /** What is wrong with a match, given the sources in front of it: its text, then its season, then its episode. */
  ghost function FaultOf(query: string, u: Tables, explicit: Filters, k: nat): Option<Parameter>
    requires k < |FindAll(query, 0)|
  {
    var span := FindAll(query, 0)[k];
    if !IsToken(query, u, span) then None
    else if Unsupported(query, span) then Some(QueryParameter)
    else if exists v, w :: v != w && SeasonAt(query, u, k, v) && SeasonBefore(query, u, explicit, k, w) then
      Some(SeasonParameter)
    else if exists v, w :: v != w && EpisodeAt(query, u, k, v) && EpisodeBefore(query, u, explicit, k, w) then
      Some(EpisodeParameter)
    else None
  }

  ghost predicate NoFaultBefore(query: string, u: Tables, explicit: Filters, k: nat) {
    k <= |FindAll(query, 0)| && forall j :: 0 <= j < k ==> FaultOf(query, u, explicit, j) == None
  }

  ghost predicate FirstFault(query: string, u: Tables, explicit: Filters, k: nat, p: Parameter) {
    k < |FindAll(query, 0)| && NoFaultBefore(query, u, explicit, k) && FaultOf(query, u, explicit, k) == Some(p)
  }

  /** The parameter at fault: the length first, then the explicit filters, then the first match with a fault. */
  ghost predicate Reported(query: string, u: Tables, explicit: Filters, p: Parameter) {
    if ByteLength(query) > MAX_QUERY_BYTES then p == QueryParameter
    else if explicit.season.Some? && ExplicitSeason(explicit).None? then p == SeasonParameter
    else if explicit.episode.Some? && ExplicitEpisode(explicit).None? then p == EpisodeParameter
    else exists k :: FirstFault(query, u, explicit, k, p)
  }

  lemma ReportedIsUnique(query: string, u: Tables, explicit: Filters, p: Parameter, q: Parameter)
    requires Reported(query, u, explicit, p) && Reported(query, u, explicit, q)
    ensures p == q
  {
    hide FaultOf, ByteLength, ExplicitSeason, ExplicitEpisode, FindAll;
    if k: nat, l: nat :| FirstFault(query, u, explicit, k, p) && FirstFault(query, u, explicit, l, q) {
      assert !(k < l) && !(l < k);
    }
  }

  /** The values merged so far are those that the sources so far supply, and none of these is at fault. */
  ghost predicate MergedTo(
      query: string, u: Tables, explicit: Filters, k: nat, season: Option<nat>, episode: Option<nat>)
  {
    && NoFaultBefore(query, u, explicit, k)
    && (forall v: nat :: SeasonBefore(query, u, explicit, k, v) <==> season == Some(v))
    && (forall v: nat :: EpisodeBefore(query, u, explicit, k, v) <==> episode == Some(v))
  }

  lemma MergeStart(query: string, u: Tables, explicit: Filters)
    ensures MergedTo(query, u, explicit, 0, ExplicitSeason(explicit), ExplicitEpisode(explicit))
  {
  }

  /** The fault of a match, told from the merged values. */
  lemma FaultFromMerged(query: string, u: Tables, explicit: Filters, k: nat, season: Option<nat>, episode: Option<nat>)
    requires MergedTo(query, u, explicit, k, season, episode) && k < |FindAll(query, 0)|
    ensures var span := FindAll(query, 0)[k];
            FaultOf(query, u, explicit, k) ==
              if !IsToken(query, u, span) then None
              else if Unsupported(query, span) then Some(QueryParameter)
              else
                var token := ParseToken(TokenText(query, span)).value;
                if token.season.Some? && season.Some? && token.season != season then Some(SeasonParameter)
                else if token.episode.Some? && episode.Some? && token.episode != episode then Some(EpisodeParameter)
                else None
  {
    hide SeasonBefore, EpisodeBefore, FindAll, ParseToken, ContinuesAfter, ContinuesBefore, CompleteToken;
    hide NoFaultBefore;
    if !Unsupported(query, FindAll(query, 0)[k]) {
      var token := SuppliedAt(query, u, k);
    }
  }

  lemma MergeStep(query: string, u: Tables, explicit: Filters, k: nat, season: Option<nat>, episode: Option<nat>)
    requires MergedTo(query, u, explicit, k, season, episode) && k < |FindAll(query, 0)|
    requires FaultOf(query, u, explicit, k) == None
    ensures var span := FindAll(query, 0)[k];
            if !IsToken(query, u, span) then MergedTo(query, u, explicit, k + 1, season, episode)
            else
              var token := ParseToken(TokenText(query, span)).value;
              MergedTo(query, u, explicit, k + 1, Merged(season, token.season), Merged(episode, token.episode))
  {
    hide FindAll, ParseToken, ContinuesAfter, ContinuesBefore, CompleteToken, FaultOf, ExplicitSeason, ExplicitEpisode;
    hide SeasonBefore, EpisodeBefore, SeasonAt, EpisodeAt, IsToken, Unsupported, TokenText, NoFaultBefore;
    FaultFromMerged(query, u, explicit, k, season, episode);
    NoFaultStep(query, u, explicit, k);
    var token := SuppliedAt(query, u, k);
    SeasonMerges(query, u, explicit, k, season, token.season);
    EpisodeMerges(query, u, explicit, k, episode, token.episode);
  }

  lemma NoFaultStep(query: string, u: Tables, explicit: Filters, k: nat)
    requires NoFaultBefore(query, u, explicit, k) && k < |FindAll(query, 0)| && FaultOf(query, u, explicit, k) == None
    ensures NoFaultBefore(query, u, explicit, k + 1)
  {
    hide FaultOf, FindAll;
  }

  /** What a match supplies, nothing if it is not a token. */
  lemma SuppliedAt(query: string, u: Tables, k: nat) returns (token: TokenValue)
    requires k < |FindAll(query, 0)|
    requires IsToken(query, u, FindAll(query, 0)[k]) ==> !Unsupported(query, FindAll(query, 0)[k])
    ensures var span := FindAll(query, 0)[k];
            token == if IsToken(query, u, span) then ParseToken(TokenText(query, span)).value
                     else TokenValue(None, None)
    ensures forall v: nat :: SeasonAt(query, u, k, v) <==> token.season == Some(v)
    ensures forall v: nat :: EpisodeAt(query, u, k, v) <==> token.episode == Some(v)
  {
    hide FindAll, ParseToken, ContinuesAfter, ContinuesBefore, CompleteToken;
    var span := FindAll(query, 0)[k];
    token := if IsToken(query, u, span) then ParseToken(TokenText(query, span)).value else TokenValue(None, None);
  }

  lemma SeasonMerges(
      query: string, u: Tables, explicit: Filters, k: nat, season: Option<nat>, supplied: Option<nat>)
    requires forall v: nat :: SeasonBefore(query, u, explicit, k, v) <==> season == Some(v)
    requires forall v: nat :: SeasonAt(query, u, k, v) <==> supplied == Some(v)
    requires season.Some? && supplied.Some? ==> season == supplied
    ensures forall v: nat :: SeasonBefore(query, u, explicit, k + 1, v) <==> Merged(season, supplied) == Some(v)
  {
    hide SeasonAt, ExplicitSeason;
    forall v: nat ensures SeasonBefore(query, u, explicit, k + 1, v) <==> Merged(season, supplied) == Some(v) {
      assert SeasonBefore(query, u, explicit, k + 1, v) <==>
             SeasonBefore(query, u, explicit, k, v) || SeasonAt(query, u, k, v);
    }
  }

  lemma EpisodeMerges(
      query: string, u: Tables, explicit: Filters, k: nat, episode: Option<nat>, supplied: Option<nat>)
    requires forall v: nat :: EpisodeBefore(query, u, explicit, k, v) <==> episode == Some(v)
    requires forall v: nat :: EpisodeAt(query, u, k, v) <==> supplied == Some(v)
    requires episode.Some? && supplied.Some? ==> episode == supplied
    ensures forall v: nat :: EpisodeBefore(query, u, explicit, k + 1, v) <==> Merged(episode, supplied) == Some(v)
  {
    hide EpisodeAt, ExplicitEpisode;
    forall v: nat ensures EpisodeBefore(query, u, explicit, k + 1, v) <==> Merged(episode, supplied) == Some(v) {
      assert EpisodeBefore(query, u, explicit, k + 1, v) <==>
             EpisodeBefore(query, u, explicit, k, v) || EpisodeAt(query, u, k, v);
    }
  }

  // ---------- which text is left ----------

  /** The complete tokens, in order. */
  function Tokens(query: string, u: Tables, spans: seq<Span>): seq<Span>
    requires forall k :: 0 <= k < |spans| ==> spans[k].0 <= spans[k].1 <= |query|
  {
    if spans == [] then []
    else
      var last := spans[|spans| - 1];
      Tokens(query, u, spans[..|spans| - 1])
      + if CompleteToken(query, last.0, last.1, u) then [last] else []
  }

  function TokenMarks(n: nat, spans: seq<Span>): (m: Marks)
    ensures |m| == n
  {
    if spans == [] then seq(n, _ => false)
    else MarkRange(TokenMarks(n, spans[..|spans| - 1]), spans[|spans| - 1].0, spans[|spans| - 1].1)
  }

  /** The runes that are not removed. */
  function Kept(query: string, m: Marks): string
    requires |m| == |query|
  {
    if query == "" then ""
    else
      var n := |query| - 1;
      Kept(query[..n], m[..n]) + if m[n] then "" else [query[n]]
  }

  /** What markTechnicalEdgeSeparators makes of the marks, technical text being what was removed so far. */
  ghost predicate EdgesTrimmed(query: string, m: Marks, end: nat, middle: Marks, start: nat, marks: Marks) {
    && |m| == |middle| == |marks| == |query|
    && LeadingRun(query, m, end) && TrailingRun(query, middle, start)
    && (forall p :: 0 <= p < |query| ==> (middle[p] <==> m[p] || TrimmedInFront(query, m, m, end, p)))
    && (forall p :: 0 <= p < |query| ==> (marks[p] <==> middle[p] || TrimmedBehind(query, middle, m, start, p)))
  }

  ghost predicate FinalMarks(query: string, tokens: Marks, marks: Marks)
    requires |tokens| == |query|
  {
    var m := SlowMarks(query, tokens);
    exists end, middle, start :: EdgesTrimmed(query, m, end, middle, start, marks)
  }

  /** Everything removed, from the query alone. */
  ghost predicate Removed(query: string, u: Tables, marks: Marks) {
    FinalMarks(query, TokenMarks(|query|, Tokens(query, u, FindAll(query, 0))), marks)
  }

  // ---------- no title text is lost ----------

  lemma {:induction false} SweepRemovesNoText(value: string, m: Marks, pairs: seq<(int, int)>)
    requires |m| == |value| && IsSweep(value, m, pairs)
    ensures forall p :: 0 <= p < |m| && m[p] ==> MarkAll(m, pairs)[p]
    ensures forall p :: 0 <= p < |m| && MarkAll(m, pairs)[p] && !m[p] ==>
              IsSpace(value[p]) || IsOpener(value[p]) || IsCloser(value[p])
    decreases |pairs|
  {
    if pairs != [] {
      SweepRemovesNoText(value, MarkRange(m, pairs[0].0, pairs[0].1 + 1), pairs[1..]);
    }
  }

  /** Position p lies in the run of blanks, separators and removed text at an edge, and the run holds a token. */
  ghost predicate InTokenRun(query: string, m: Marks, p: int)
    requires |m| == |query|
  {
    || (exists end: nat :: LeadingRun(query, m, end) && 0 <= p < end && HoldsToken(m, m, 0, end))
    || (exists middle: Marks, start: nat :: |middle| == |query| && TrailingRun(query, middle, start)
          && start <= p && HoldsToken(middle, m, start, |query|)
          && forall q :: 0 <= q < |query| && middle[q] && !m[q] ==> IsTokenSeparator(query[q]))
  }

  /**
  What cleanup removes besides the tokens: white space and brackets of an emptied pair, and separators
  of a run at an edge that holds a token. Marks are only ever added.
  */
  lemma CleanupRemovesNoText(query: string, tokens: Marks, marks: Marks)
    requires |tokens| == |query| && FinalMarks(query, tokens, marks)
    ensures |marks| == |query|
    ensures forall p :: 0 <= p < |query| && tokens[p] ==> marks[p]
    ensures forall p :: 0 <= p < |query| && marks[p] && !tokens[p] ==>
              || (SlowMarks(query, tokens)[p] && (IsSpace(query[p]) || IsOpener(query[p]) || IsCloser(query[p])))
              || (IsTokenSeparator(query[p]) && InTokenRun(query, SlowMarks(query, tokens), p))
  {
    SweepRemovesNoText(query, tokens, Sweep(query, tokens));
  }

  lemma {:induction false} KeptTitle(query: string, m: Marks, more: Marks, u: Tables)
    requires |m| == |more| == |query|
    requires forall p :: 0 <= p < |query| && m[p] ==> more[p]
    requires forall p :: 0 <= p < |query| && more[p] && !m[p] ==> !u.IsTitleRune(query[p])
    ensures TitleOf(Kept(query, more), u) == TitleOf(Kept(query, m), u)
  {
    if query != "" {
      var n := |query| - 1;
      KeptTitle(query[..n], m[..n], more[..n], u);
      TitlePush(Kept(query[..n], m[..n]), query[n], u);
      TitlePush(Kept(query[..n], more[..n]), query[n], u);
    }
  }

  lemma TitlePush(s: string, r: char, u: Tables)
    ensures TitleOf(s + [r], u) == TitleOf(s, u) + if u.IsTitleRune(r) then [r] else ""
    ensures s + "" == s
  {
    assert (s + [r])[..|s|] == s;
  }

  /** How many of the first p runes are kept. */
  function KeptBefore(m: Marks, p: nat): nat
    requires p <= |m|
  {
    if p == 0 then 0 else KeptBefore(m, p - 1) + if m[p - 1] then 0 else 1
  }

  /** The runes that are not marked are kept, each behind those in front of it. */
  lemma {:induction false} KeptInPlace(query: string, m: Marks, p: nat)
    requires |m| == |query| && p < |query| && !m[p]
    ensures |Kept(query, m)| == KeptBefore(m, |query|)
    ensures KeptBefore(m, p) < |Kept(query, m)| && Kept(query, m)[KeptBefore(m, p)] == query[p]
  {
    var n := |query| - 1;
    KeptLength(query, m);
    KeptLength(query[..n], m[..n]);
    CountedAlike(m, n, n);
    if p < n {
      KeptInPlace(query[..n], m[..n], p);
      CountedAlike(m, n, p);
    }
  }

  lemma {:induction false} KeptLength(query: string, m: Marks)
    requires |m| == |query|
    ensures |Kept(query, m)| == KeptBefore(m, |query|)
  {
    if query != "" {
      var n := |query| - 1;
      KeptLength(query[..n], m[..n]);
      CountedAlike(m, n, n);
    }
  }

  lemma {:induction false} CountedAlike(m: Marks, n: nat, p: nat)
    requires p <= n <= |m|
    ensures KeptBefore(m[..n], p) == KeptBefore(m, p)
    decreases p
  {
    if p > 0 {
      CountedAlike(m, n, p - 1);
    }
  }

  /** The clean text has the words of what is kept: the same runes, set apart where white space sets them apart. */
  lemma CleanTextKeepsWords(query: string, u: Tables, marks: Marks, clean: string)
    requires CleanedBy(query, u, marks, clean)
    ensures Ink(clean) == Ink(Kept(query, marks)) && Normal(clean)
  {
    CollapseKeepsWords(Kept(query, marks));
    CollapseKeepsText(Kept(query, marks));
  }

  /**
  The letters and digits of the cleaned query are, in order, those of the query outside its tokens,
  and the cleaned query is trimmed, with single ASCII spaces between words.
  */
  lemma NoTitleTextIsLost(query: string, u: Tables, marks: Marks)
    requires u.Sane() && Removed(query, u, marks)
    ensures var tokens := TokenMarks(|query|, Tokens(query, u, FindAll(query, 0)));
            var clean := Join(Fields(Kept(query, marks)));
            && |marks| == |query|
            && TitleOf(clean, u) == TitleOf(Kept(query, tokens), u)
            && Ink(clean) == Ink(Kept(query, marks))
            && Normal(clean)
  {
    var tokens := TokenMarks(|query|, Tokens(query, u, FindAll(query, 0)));
    CleanupRemovesNoText(query, tokens, marks);
    KeptTitle(query, tokens, marks, u);
    var kept := Kept(query, marks);
    CollapseKeepsText(kept);
    CollapseKeepsWords(kept);
    TitleIsNonSpace(kept, u);
    TitleIsNonSpace(Join(Fields(kept)), u);
  }

  lemma RemovedIsUnique(query: string, u: Tables, marks: Marks, other: Marks)
    requires Removed(query, u, marks) && Removed(query, u, other)
    ensures marks == other
  {
    var tokens := TokenMarks(|query|, Tokens(query, u, FindAll(query, 0)));
    var m := SlowMarks(query, tokens);
    var e1, m1, s1 :| EdgesTrimmed(query, m, e1, m1, s1, marks);
    var e2, m2, s2 :| EdgesTrimmed(query, m, e2, m2, s2, other);
    RunsAreUnique(query, m);
    assert m1 == m2;
    RunsAreUnique(query, m1);
  }

  // ---------- the repository's loops ----------

  method MarkToken(remove: array<bool>, technical: array<bool>, start: nat, end: nat)
    requires remove != technical && remove.Length == technical.Length && start <= end <= remove.Length
    modifies remove, technical
    ensures remove[..] == MarkRange(old(remove[..]), start, end)
    ensures technical[..] == MarkRange(old(technical[..]), start, end)
  {
    ghost var m, t := remove[..], technical[..];
    for i := start to end
      invariant forall p :: 0 <= p < remove.Length ==> remove[p] == (m[p] || start <= p < i)
      invariant forall p :: 0 <= p < remove.Length ==> technical[p] == (t[p] || start <= p < i)
    {
      remove[i] := true;
      technical[i] := true;
    }
  }

  /** The final loop of NormalizeQuery, up to the whitespace collapse. */
  method BuildClean(query: string, remove: array<bool>) returns (clean: string)
    requires remove.Length == |query|
    ensures clean == Join(Fields(Kept(query, remove[..])))
  {
    var cleaned := "";
    ghost var m := remove[..];
    ghost var kept := "";
    for index := 0 to |query|
      invariant kept == Kept(query[..index], m[..index])
      invariant Fields(cleaned) == Fields(kept) && EndsInWord(cleaned) == EndsInWord(kept)
    {
      assert query[..index + 1][..index] == query[..index] && m[..index + 1][..index] == m[..index];
      if remove[index] {
        continue;
      }
      var r := query[index];
      FieldsPush(cleaned, r);
      FieldsPush(cleaned, ' ');
      FieldsPush(kept, r);
      kept := kept + [r];
      if IsSpace(r) {
        if |cleaned| > 0 {
          cleaned := cleaned + " ";
        }
      } else {
        cleaned := cleaned + [r];
      }
    }
    assert query[..|query|] == query && m[..|query|] == m;
    TrimKeepsFields(cleaned);
    clean := Join(Fields(TrimSpace(cleaned)));
  }

  lemma TokensPush(query: string, u: Tables, spans: seq<Span>, k: nat)
    requires k < |spans| && forall j :: 0 <= j < |spans| ==> spans[j].0 <= spans[j].1 <= |query|
    ensures var done, span := Tokens(query, u, spans[..k]), spans[k];
            Tokens(query, u, spans[..k + 1]) == if CompleteToken(query, span.0, span.1, u) then done + [span] else done
  {
    assert spans[..k + 1][..k] == spans[..k];
  }

  lemma TokenMarksPush(n: nat, spans: seq<Span>, span: Span)
    ensures TokenMarks(n, spans + [span]) == MarkRange(TokenMarks(n, spans), span.0, span.1)
  {
    assert (spans + [span])[..|spans|] == spans;
  }

  predicate Agrees(token: TokenValue, season: Option<nat>, episode: Option<nat>) {
    && (token.season.Some? ==> token.season == season)
    && (token.episode.Some? ==> token.episode == episode)
  }

  /** Every source agrees with the effective values, and a value is absent only if no source supplies one. */
  ghost predicate Settles(query: string, u: Tables, explicit: Filters, season: Option<nat>, episode: Option<nat>) {
    && (forall v: nat :: SuppliesSeason(query, u, explicit, v) <==> season == Some(v))
    && (forall v: nat :: SuppliesEpisode(query, u, explicit, v) <==> episode == Some(v))
  }

  function ExplicitSeason(explicit: Filters): Option<nat> {
    if explicit.season.None? then None else ParseExplicit(explicit.season.value, 's', MAX_SEASON)
  }

  function ExplicitEpisode(explicit: Filters): Option<nat> {
    if explicit.episode.None? then None else ParseExplicit(explicit.episode.value, 'e', MAX_EPISODE)
  }

  ghost predicate TokensAgree(query: string, u: Tables, k: nat, season: Option<nat>, episode: Option<nat>) {
    var indexes := FindAll(query, 0);
    && k <= |indexes|
    && forall j :: 0 <= j < k && CompleteToken(query, indexes[j].0, indexes[j].1, u) ==>
         !Unsupported(query, indexes[j]) && Agrees(ParseToken(TokenText(query, indexes[j])).value, season, episode)
  }

  /** The first k matches of the expression have been merged into these values. */
  ghost predicate Gathered(
      query: string, u: Tables, explicit: Filters, k: nat, season: Option<nat>, episode: Option<nat>)
  {
    && TokensAgree(query, u, k, season, episode)
    && (ExplicitSeason(explicit).Some? ==> season == ExplicitSeason(explicit))
    && (ExplicitEpisode(explicit).Some? ==> episode == ExplicitEpisode(explicit))
    && (season.Some? ==> SuppliesSeason(query, u, explicit, season.value))
    && (episode.Some? ==> SuppliesEpisode(query, u, explicit, episode.value))
  }

  lemma GatherStart(query: string, u: Tables, explicit: Filters)
    ensures Gathered(query, u, explicit, 0, ExplicitSeason(explicit), ExplicitEpisode(explicit))
  {
  }

  lemma GatherSkip(query: string, u: Tables, explicit: Filters, k: nat, season: Option<nat>, episode: Option<nat>)
    requires Gathered(query, u, explicit, k, season, episode) && k < |FindAll(query, 0)|
    requires !CompleteToken(query, FindAll(query, 0)[k].0, FindAll(query, 0)[k].1, u)
    ensures Gathered(query, u, explicit, k + 1, season, episode)
  {
    hide ContinuesAfter, ContinuesBefore, ParseToken, SuppliesSeason, SuppliesEpisode;
  }

  /** A complete token supplies what it spells; a value that differs from another source is a conflict. */
  lemma TokenSupplies(query: string, u: Tables, explicit: Filters, k: nat, season: Option<nat>, episode: Option<nat>)
    requires Gathered(query, u, explicit, k, season, episode) && k < |FindAll(query, 0)|
    requires var span := FindAll(query, 0)[k];
             CompleteToken(query, span.0, span.1, u) && ParseToken(TokenText(query, span)).Some?
    ensures IsToken(query, u, FindAll(query, 0)[k])
    ensures var token := ParseToken(TokenText(query, FindAll(query, 0)[k])).value;
            && (token.season.Some? ==> SuppliesSeason(query, u, explicit, token.season.value))
            && (token.episode.Some? ==> SuppliesEpisode(query, u, explicit, token.episode.value))
            && (token.season.Some? && season.Some? && token.season != season ==> BadSeason(query, u, explicit))
            && (token.episode.Some? && episode.Some? && token.episode != episode ==> BadEpisode(query, u, explicit))
  {
    hide ContinuesAfter, ContinuesBefore, ParseToken;
    var span := FindAll(query, 0)[k];
    assert IsToken(query, u, span);
  }

  function Merged(current: Option<nat>, supplied: Option<nat>): Option<nat> {
    if supplied.Some? then supplied else current
  }

  lemma TokensAgreeStep(query: string, u: Tables, k: nat, season: Option<nat>, episode: Option<nat>)
    requires TokensAgree(query, u, k, season, episode) && k < |FindAll(query, 0)|
    requires var span := FindAll(query, 0)[k];
             CompleteToken(query, span.0, span.1, u) && !Unsupported(query, span)
    requires var token := ParseToken(TokenText(query, FindAll(query, 0)[k])).value;
             && (token.season.Some? && season.Some? ==> token.season == season)
             && (token.episode.Some? && episode.Some? ==> token.episode == episode)
    ensures var token := ParseToken(TokenText(query, FindAll(query, 0)[k])).value;
            TokensAgree(query, u, k + 1, Merged(season, token.season), Merged(episode, token.episode))
  {
    hide ContinuesAfter, ContinuesBefore, ParseToken, FindAll, CompleteToken, TokenText;
    var indexes := FindAll(query, 0);
    var token := ParseToken(TokenText(query, indexes[k])).value;
    forall j | 0 <= j < k + 1 && CompleteToken(query, indexes[j].0, indexes[j].1, u)
      ensures !Unsupported(query, indexes[j])
      ensures Agrees(ParseToken(TokenText(query, indexes[j])).value,
                     Merged(season, token.season), Merged(episode, token.episode))
    {
    }
  }

  lemma GatherToken(query: string, u: Tables, explicit: Filters, k: nat, season: Option<nat>, episode: Option<nat>)
    requires Gathered(query, u, explicit, k, season, episode) && k < |FindAll(query, 0)|
    requires var span := FindAll(query, 0)[k];
             CompleteToken(query, span.0, span.1, u) && !Unsupported(query, span)
    requires var token := ParseToken(TokenText(query, FindAll(query, 0)[k])).value;
             && (token.season.Some? && season.Some? ==> token.season == season)
             && (token.episode.Some? && episode.Some? ==> token.episode == episode)
    ensures var token := ParseToken(TokenText(query, FindAll(query, 0)[k])).value;
            Gathered(query, u, explicit, k + 1, Merged(season, token.season), Merged(episode, token.episode))
  {
    hide ContinuesAfter, ContinuesBefore, ParseToken, ParseExplicit, SuppliesSeason, SuppliesEpisode;
    hide FindAll, CompleteToken, TokensAgree, TokenText;
    TokenSupplies(query, u, explicit, k, season, episode);
    TokensAgreeStep(query, u, k, season, episode);
  }

  lemma GatheredTokensAgree(query: string, u: Tables, explicit: Filters, season: Option<nat>, episode: Option<nat>)
    requires Gathered(query, u, explicit, |FindAll(query, 0)|, season, episode)
    ensures forall span :: IsToken(query, u, span) ==>
              !Unsupported(query, span) && Agrees(ParseToken(TokenText(query, span)).value, season, episode)
  {
    hide ContinuesAfter, ContinuesBefore, ParseToken, ParseExplicit, SuppliesSeason, SuppliesEpisode;
    hide CompleteToken, FindAll;
    var indexes := FindAll(query, 0);
    forall span | IsToken(query, u, span)
      ensures !Unsupported(query, span) && Agrees(ParseToken(TokenText(query, span)).value, season, episode)
    {
      var j :| 0 <= j < |indexes| && indexes[j] == span;
    }
  }

  lemma GatherEnd(query: string, u: Tables, explicit: Filters, season: Option<nat>, episode: Option<nat>)
    requires Gathered(query, u, explicit, |FindAll(query, 0)|, season, episode)
    requires explicit.season.Some? ==> ExplicitSeason(explicit).Some?
    requires explicit.episode.Some? ==> ExplicitEpisode(explicit).Some?
    ensures forall span :: IsToken(query, u, span) ==> !Unsupported(query, span)
    ensures Settles(query, u, explicit, season, episode)
    ensures !BadSeason(query, u, explicit) && !BadEpisode(query, u, explicit)
  {
    hide ParseToken, ParseExplicit, CompleteToken, FindAll, IsToken, ContinuesAfter, ContinuesBefore;
    GatheredTokensAgree(query, u, explicit, season, episode);
    forall v: nat ensures SuppliesSeason(query, u, explicit, v) <==> season == Some(v) {}
    forall v: nat ensures SuppliesEpisode(query, u, explicit, v) <==> episode == Some(v) {}
  }

  lemma NoFaultYet(query: string, u: Tables, explicit: Filters, k: nat, season: Option<nat>, episode: Option<nat>)
    requires MergedTo(query, u, explicit, k, season, episode)
    ensures NoFaultBefore(query, u, explicit, k)
  {
  }

  /** The tokens of NormalizeQuery, one after the other. */
  method ScanTokens(query: string, explicit: Filters, u: Tables, remove: array<bool>, technical: array<bool>)
    returns (r: Result<(Option<nat>, Option<nat>, bool), Parameter>)
    requires remove != technical && remove.Length == technical.Length == |query|
    requires remove[..] == technical[..] == TokenMarks(|query|, [])
    modifies remove, technical
    ensures r.Err? ==> exists k :: FirstFault(query, u, explicit, k, r.error)
    ensures r.Err? ==> match r.error
                       case QueryParameter => exists span :: IsToken(query, u, span) && Unsupported(query, span)
                       case SeasonParameter => BadSeason(query, u, explicit)
                       case EpisodeParameter => BadEpisode(query, u, explicit)
    ensures r.Ok? ==>
              var tokens := Tokens(query, u, FindAll(query, 0));
              && Gathered(query, u, explicit, |FindAll(query, 0)|, r.value.0, r.value.1)
              && r.value.2 == (tokens != [])
              && remove[..] == technical[..] == TokenMarks(|query|, tokens)
  {
    hide ContinuesAfter, ContinuesBefore, ParseToken, ParseExplicit, SuppliesSeason, SuppliesEpisode;
    hide Tokens, TokenMarks, BadSeason, BadEpisode, Gathered, FindAll, MarkRange, MergedTo, FaultOf, NoFaultBefore;
    var indexes := FindAll(query, 0);
    var season, episode, hadTokens := ExplicitSeason(explicit), ExplicitEpisode(explicit), false;
    GatherStart(query, u, explicit);
    MergeStart(query, u, explicit);
    NoTokens(query, u, indexes);
    for k := 0 to |indexes|
      invariant Gathered(query, u, explicit, k, season, episode)
      invariant MergedTo(query, u, explicit, k, season, episode)
      invariant hadTokens == (Tokens(query, u, indexes[..k]) != [])
      invariant remove[..] == technical[..] == TokenMarks(|query|, Tokens(query, u, indexes[..k]))
    {
      var span := indexes[k];
      TokensPush(query, u, indexes, k);
      FaultFromMerged(query, u, explicit, k, season, episode);
      assert FaultOf(query, u, explicit, k).Some? ==>
               FirstFault(query, u, explicit, k, FaultOf(query, u, explicit, k).value) by {
        NoFaultYet(query, u, explicit, k, season, episode);
      }
      if !CompleteToken(query, span.0, span.1, u) {
        GatherSkip(query, u, explicit, k, season, episode);
        MergeStep(query, u, explicit, k, season, episode);
        continue;
      }
      assert IsToken(query, u, span);
      var continued := HasNumericContinuationAfter(query, span.1, true);
      if !continued {
        continued := NumericContinuationBefore(query, span.0);
      }
      if continued {
        return Err(QueryParameter);
      }
      var token := ParseToken(query[span.0..span.1]);
      if token.None? {
        return Err(QueryParameter);
      }
      TokenSupplies(query, u, explicit, k, season, episode);
      if token.value.season.Some? && season.Some? && season != token.value.season {
        return Err(SeasonParameter);
      }
      if token.value.episode.Some? && episode.Some? && episode != token.value.episode {
        return Err(EpisodeParameter);
      }
      GatherToken(query, u, explicit, k, season, episode);
      MergeStep(query, u, explicit, k, season, episode);
      if token.value.season.Some? {
        season := token.value.season;
      }
      if token.value.episode.Some? {
        episode := token.value.episode;
      }
      TokenMarksPush(|query|, Tokens(query, u, indexes[..k]), span);
      MarkToken(remove, technical, span.0, span.1);
      hadTokens := true;
    }
    assert indexes[..|indexes|] == indexes;
    r := Ok((season, episode, hadTokens));
  }

  lemma NoTokens(query: string, u: Tables, spans: seq<Span>)
    ensures Tokens(query, u, spans[..0]) == []
  {
  }

  lemma {:induction false} TokensExist(query: string, u: Tables, spans: seq<Span>)
    requires forall k :: 0 <= k < |spans| ==> spans[k].0 <= spans[k].1 <= |query|
    ensures Tokens(query, u, spans) != []
       <==> exists span :: span in spans && span.0 <= span.1 <= |query| && CompleteToken(query, span.0, span.1, u)
  {
    if spans != [] {
      var rest, last := spans[..|spans| - 1], spans[|spans| - 1];
      TokensExist(query, u, rest);
      assert forall span :: span in spans <==> span in rest || span == last;
    }
  }

  lemma TokensAreTokens(query: string, u: Tables)
    ensures Tokens(query, u, FindAll(query, 0)) != [] <==> exists span :: IsToken(query, u, span)
  {
    hide Tokens, FindAll, CompleteToken;
    TokensExist(query, u, FindAll(query, 0));
    if span :| span in FindAll(query, 0) && span.0 <= span.1 <= |query| && CompleteToken(query, span.0, span.1, u) {
      assert IsToken(query, u, span);
    }
  }

  /** NormalizeQuery. */
  method NormalizeQuery(query: string, explicitSeason: Option<string>, explicitEpisode: Option<string>, u: Tables)
    returns (r: Result<NormalizedQuery, Parameter>)
    ensures var explicit := Filters(explicitSeason, explicitEpisode);
            r.Err? <==> BadQuery(query, u) || BadSeason(query, u, explicit) || BadEpisode(query, u, explicit)
    ensures r.Err? ==> Reported(query, u, Filters(explicitSeason, explicitEpisode), r.error)
    ensures r.Err? ==> match r.error
                       case QueryParameter => BadQuery(query, u)
                       case SeasonParameter => BadSeason(query, u, Filters(explicitSeason, explicitEpisode))
                       case EpisodeParameter => BadEpisode(query, u, Filters(explicitSeason, explicitEpisode))
    ensures r.Ok? ==>
              && Settles(query, u, Filters(explicitSeason, explicitEpisode),
                         r.value.effectiveSeason, r.value.effectiveEpisode)
              && (r.value.hadTechnicalTokens <==> exists span :: IsToken(query, u, span))
              && exists marks :: CleanedBy(query, u, marks, r.value.cleanQuery)
  {
    hide ContinuesAfter, ContinuesBefore, ParseToken, ParseExplicit, SuppliesSeason, SuppliesEpisode;
    hide Tokens, TokenMarks, Gathered, FindAll, MarkRange, Fields, Join, Kept, SlowMarks, LeadingRun, TrailingRun;
    hide TrimmedInFront, TrimmedBehind, Unsupported, ByteLength, Settles, FirstFault;
    var explicit := Filters(explicitSeason, explicitEpisode);
    if ByteLength(query) > MAX_QUERY_BYTES {
      return Err(QueryParameter);
    }
    if explicitSeason.Some? && ExplicitSeason(explicit).None? {
      return Err(SeasonParameter);
    }
    if explicitEpisode.Some? && ExplicitEpisode(explicit).None? {
      return Err(EpisodeParameter);
    }
    var remove := new bool[|query|](_ => false);
    var technical := new bool[|query|](_ => false);
    NoMarks(remove[..]);
    NoMarks(technical[..]);
    var scanned := ScanTokens(query, explicit, u, remove, technical);
    if scanned.Err? {
      return Err(scanned.error);
    }
    GatherEnd(query, u, explicit, scanned.value.0, scanned.value.1);
    TokensAreTokens(query, u);
    ghost var pairs := MarkEmptyTechnicalPairs(query, remove, technical);
    ghost var m := remove[..];
    ghost var end, middle, start := MarkTechnicalEdgeSeparators(query, remove, technical);
    assert EdgesTrimmed(query, m, end, middle, start, remove[..]);
    var clean := BuildClean(query, remove);
    assert CleanedBy(query, u, remove[..], clean);
    r := Ok(NormalizedQuery(clean, scanned.value.0, scanned.value.1, scanned.value.2));
  }

  lemma NoMarks(m: Marks)
    requires forall p :: 0 <= p < |m| ==> !m[p]
    ensures m == TokenMarks(|m|, [])
  {
  }

  /** The clean text is what the removals leave, its white space collapsed. */
  ghost predicate CleanedBy(query: string, u: Tables, marks: Marks, clean: string) {
    |marks| == |query| && Removed(query, u, marks) && clean == Join(Fields(Kept(query, marks)))
  }
}
