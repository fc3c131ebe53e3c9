/**
The result pipeline (internal/service/service.go): release IDs, fan-out into indexed slots, flattening,
deduplication, filtering, ordering and paging. The methods keep the loops of the source; the lemmas
say that the answer does not depend on which branch finishes first, nor on the order of the input
beyond which of several duplicates comes first.
*/
module Pipeline {
  import opened Common
  import opened Title

  // ---------- distinct release IDs ----------

  /** The first occurrence of each value, in order. */
  function Distinct<T(==)>(input: seq<T>): seq<T> {
    if input == [] then []
    else
      var rest, last := input[..|input| - 1], input[|input| - 1];
      Distinct(rest) + if last in rest then [] else [last]
  }

  function AtMost<T>(s: seq<T>, limit: nat): seq<T> {
    if limit == 0 || |s| <= limit then s else s[..limit]
  }

  lemma {:induction false} DistinctFacts<T>(input: seq<T>)
    ensures forall x :: x in Distinct(input) <==> x in input
    ensures forall i, j :: 0 <= i < j < |Distinct(input)| ==> Distinct(input)[i] != Distinct(input)[j]
  {
    if input != [] {
      var rest, last := input[..|input| - 1], input[|input| - 1];
      DistinctFacts(rest);
      assert input == rest + [last];
    }
  }

  ghost predicate FirstAt<T>(input: seq<T>, x: T, p: nat) {
    p < |input| && input[p] == x && x !in input[..p]
  }

  /** Distinct keeps the order of first occurrences. */
  lemma {:induction false} DistinctKeepsOrder<T>(input: seq<T>, i: nat, j: nat)
    requires i < j < |Distinct(input)|
    ensures exists p: nat, q: nat ::
              p < q && FirstAt(input, Distinct(input)[i], p) && FirstAt(input, Distinct(input)[j], q)
  {
    var n := |input| - 1;
    var rest, last := input[..n], input[n];
    var x, y := Distinct(input)[i], Distinct(input)[j];
    assert i < |Distinct(rest)|;
    if j < |Distinct(rest)| {
      DistinctKeepsOrder(rest, i, j);
      var p: nat, q: nat :| p < q && FirstAt(rest, x, p) && FirstAt(rest, y, q);
      assert rest[..p] == input[..p] && rest[..q] == input[..q];
      assert FirstAt(input, x, p) && FirstAt(input, y, q);
    } else {
      DistinctMember(rest, i);
      var p := FirstIndex(rest, x);
      assert rest[..p] == input[..p];
      assert FirstAt(input, x, p) && FirstAt(input, y, n);
    }
  }

  lemma {:induction false} DistinctMember<T>(input: seq<T>, i: nat)
    requires i < |Distinct(input)|
    ensures Distinct(input)[i] in input
  {
    var rest := input[..|input| - 1];
    if i < |Distinct(rest)| {
      DistinctMember(rest, i);
    }
  }

  lemma {:induction false} FirstIndex<T>(input: seq<T>, x: T) returns (p: nat)
    requires x in input
    ensures FirstAt(input, x, p)
  {
    var n := |input| - 1;
    if x in input[..n] {
      p := FirstIndex(input[..n], x);
      assert input[..n][..p] == input[..p];
    } else {
      p := n;
    }
  }

  lemma {:induction false} DistinctPrefix<T>(input: seq<T>, k: nat)
    requires k <= |input|
    ensures |Distinct(input[..k])| <= |Distinct(input)|
    ensures Distinct(input)[..|Distinct(input[..k])|] == Distinct(input[..k])
    decreases |input| - k
  {
    if k == |input| {
      assert input[..k] == input;
    } else {
      DistinctPrefix(input, k + 1);
      assert input[..k + 1][..k] == input[..k];
      var longer, shorter := Distinct(input[..k + 1]), Distinct(input[..k]);
      assert longer[..|shorter|] == shorter;
      assert Distinct(input)[..|longer|][..|shorter|] == Distinct(input)[..|shorter|];
    }
  }

  /** distinctReleaseIDs. Configuration keeps the limit positive. */
  method DistinctReleaseIDs(input: seq<int>, limit: nat) returns (result: seq<int>)
    ensures result == AtMost(Distinct(input), limit)
    ensures result <= Distinct(input)
    ensures |result| == if 0 < limit < |Distinct(input)| then limit else |Distinct(input)|
  {
    var seen: set<int> := {};
    result := [];
    for k := 0 to |input|
      invariant seen == set x | x in input[..k]
      invariant result == Distinct(input[..k]) && (limit > 0 ==> |result| < limit)
    {
      var id := input[k];
      assert input[..k + 1][..k] == input[..k];
      assert input[..k + 1] == input[..k] + [id];
      if id in seen {
        continue;
      }
      seen := seen + {id};
      result := result + [id];
      if |result| == limit {
        DistinctPrefix(input, k + 1);
        return;
      }
    }
    assert input[..|input|] == input;
  }

  // ---------- fan-out ----------

  datatype ReleaseSummary = ReleaseSummary(id: int, kind: ReleaseType, year: int, mainName: string, alias: string)

  datatype Torrent = Torrent(
    hash: string, size: int, name: string, magnet: string, seeders: int, leechers: int,
    completedTimes: int, updatedAt: int, release: ReleaseSummary)

  /** How loading one release ends. */
  datatype Branch = Pending | Loaded(torrents: seq<Torrent>) | Failed

  function Succeeded(branches: seq<Branch>): nat {
    if branches == [] then 0
    else Succeeded(branches[..|branches| - 1]) + if branches[|branches| - 1].Loaded? then 1 else 0
  }

  /** The torrents of the successful branches, in slot order. */
  function Flatten(branches: seq<Branch>): seq<Torrent> {
    if branches == [] then []
    else
      var last := branches[|branches| - 1];
      Flatten(branches[..|branches| - 1]) + if last.Loaded? then last.torrents else []
  }

  datatype Upstream = Upstream

  datatype Counters = Counters(releaseCount: nat, failedBranches: nat)

  /** What loadSearch answers, as a function of the IDs and of what each release load ends with. */
  function SearchAnswer(ids: Result<seq<int>, Upstream>, limit: nat, load: int -> Result<seq<Torrent>, Upstream>,
                        cancelled: bool): Result<seq<Torrent>, Upstream>
  {
    if ids.Err? then Err(Upstream)
    else
      var wanted := AtMost(Distinct(ids.value), limit);
      var branches := Branches(wanted, load);
      if wanted == [] then Ok([])
      else if cancelled || Succeeded(branches) == 0 then Err(Upstream)
      else Ok(Flatten(branches))
  }

  function BranchOf(loaded: Result<seq<Torrent>, Upstream>): Branch {
    if loaded.Ok? then Loaded(loaded.value) else Failed
  }

  function Branches(ids: seq<int>, load: int -> Result<seq<Torrent>, Upstream>): seq<Branch> {
    seq(|ids|, i requires 0 <= i < |ids| => BranchOf(load(ids[i])))
  }

  /**
  The goroutines of loadSearch: the slots are filled in whatever order the loads finish. Any choice of
  the next one to finish leaves the same slots behind.
  */
  method FanOut(ids: seq<int>, load: int -> Result<seq<Torrent>, Upstream>) returns (branches: seq<Branch>)
    ensures branches == Branches(ids, load)
  {
    branches := seq(|ids|, _ => Pending);
    var running: set<int> := {};
    for index := 0 to |ids|
      invariant forall i :: i in running <==> 0 <= i < index
    {
      running := running + {index};
    }
    while running != {}
      invariant forall i :: i in running ==> 0 <= i < |ids|
      invariant |branches| == |ids|
      invariant forall i :: 0 <= i < |ids| && i !in running ==> branches[i] == BranchOf(load(ids[i]))
      decreases running
    {
      var index :| index in running;
      branches := branches[index := BranchOf(load(ids[index]))];
      running := running - {index};
    }
  }

  /** loadSearch. */
  method LoadSearch(ids: Result<seq<int>, Upstream>, limit: nat, load: int -> Result<seq<Torrent>, Upstream>,
                    cancelled: bool)
    returns (r: Result<seq<Torrent>, Upstream>, counters: Counters)
    ensures r == SearchAnswer(ids, limit, load, cancelled)
    ensures ids.Ok? ==> counters.releaseCount == |AtMost(Distinct(ids.value), limit)|
    ensures ids.Ok? && !cancelled ==>
              var branches := Branches(AtMost(Distinct(ids.value), limit), load);
              counters.failedBranches + Succeeded(branches) == counters.releaseCount
  {
    counters := Counters(0, 0);
    if ids.Err? {
      return Err(Upstream), counters;
    }
    var wanted := DistinctReleaseIDs(ids.value, limit);
    counters := counters.(releaseCount := |wanted|);
    if |wanted| == 0 {
      return Ok([]), counters;
    }
    var branches := FanOut(wanted, load);
    if cancelled {
      return Err(Upstream), counters;
    }
    var flattened, succeeded := [], 0;
    for index := 0 to |branches|
      invariant flattened == Flatten(branches[..index]) && succeeded == Succeeded(branches[..index])
      invariant counters.releaseCount == |wanted| && counters.failedBranches + succeeded == index
    {
      assert branches[..index + 1][..index] == branches[..index];
      if !branches[index].Loaded? {
        counters := counters.(failedBranches := counters.failedBranches + 1);
        continue;
      }
      succeeded := succeeded + 1;
      flattened := flattened + branches[index].torrents;
    }
    assert branches[..|branches|] == branches;
    if succeeded == 0 {
      return Err(Upstream), counters;
    }
    r := Ok(flattened);
  }

  lemma {:induction false} SucceededCounts(branches: seq<Branch>)
    ensures Succeeded(branches) == 0 <==> forall i :: 0 <= i < |branches| ==> !branches[i].Loaded?
  {
    if branches != [] {
      SucceededCounts(branches[..|branches| - 1]);
    }
  }

  /** Succeeded counts the slots that hold torrents. */
  lemma {:induction false} SucceededIsTheNumber(branches: seq<Branch>)
    ensures Succeeded(branches) == |set i | 0 <= i < |branches| && branches[i].Loaded?|
  {
    if branches != [] {
      var n := |branches| - 1;
      SucceededIsTheNumber(branches[..n]);
      var fewer := set i | 0 <= i < n && branches[i].Loaded?;
      assert fewer == set i | 0 <= i < |branches[..n]| && branches[..n][i].Loaded?;
      assert (set i | 0 <= i < |branches| && branches[i].Loaded?) == fewer + if branches[n].Loaded? then {n} else {};
    }
  }

  /** How many torrents the first i loads give. */
  function TorrentsOf(wanted: seq<int>, load: int -> Result<seq<Torrent>, Upstream>, i: nat): nat
    requires i <= |wanted|
  {
    if i == 0 then 0
    else TorrentsOf(wanted, load, i - 1) + if load(wanted[i - 1]).Ok? then |load(wanted[i - 1]).value| else 0
  }

  /** The torrents of each release stand behind those of the releases in front of it, in their own order. */
  lemma {:induction false} FlattenedInOrder(
      wanted: seq<int>, load: int -> Result<seq<Torrent>, Upstream>, n: nat, i: nat, x: nat)
    requires i < n <= |wanted| && load(wanted[i]).Ok? && x < |load(wanted[i]).value|
    ensures var flat := Flatten(Branches(wanted, load)[..n]);
            && |flat| == TorrentsOf(wanted, load, n) && TorrentsOf(wanted, load, i) + x < |flat|
            && flat[TorrentsOf(wanted, load, i) + x] == load(wanted[i]).value[x]
    decreases n
  {
    var branches := Branches(wanted, load);
    assert branches[..n][..n - 1] == branches[..n - 1];
    FlattenedLength(wanted, load, n - 1);
    if i < n - 1 {
      FlattenedInOrder(wanted, load, n - 1, i, x);
    }
  }

  lemma {:induction false} FlattenedLength(wanted: seq<int>, load: int -> Result<seq<Torrent>, Upstream>, n: nat)
    requires n <= |wanted|
    ensures |Flatten(Branches(wanted, load)[..n])| == TorrentsOf(wanted, load, n)
    decreases n
  {
    if n > 0 {
      assert Branches(wanted, load)[..n][..n - 1] == Branches(wanted, load)[..n - 1];
      FlattenedLength(wanted, load, n - 1);
    }
  }

  /** What a successful search answers: for every release that could be loaded its torrents, in release order. */
  lemma SearchAnswersInOrder(
      ids: seq<int>, limit: nat, load: int -> Result<seq<Torrent>, Upstream>, i: nat, x: nat)
    requires var wanted := AtMost(Distinct(ids), limit);
             i < |wanted| && load(wanted[i]).Ok? && x < |load(wanted[i]).value|
    ensures var wanted, answer := AtMost(Distinct(ids), limit), SearchAnswer(Ok(ids), limit, load, false);
            && answer.Ok? && |answer.value| == TorrentsOf(wanted, load, |wanted|)
            && TorrentsOf(wanted, load, i) + x < |answer.value|
            && answer.value[TorrentsOf(wanted, load, i) + x] == load(wanted[i]).value[x]
  {
    hide Distinct, AtMost, Flatten, Succeeded, TorrentsOf;
    var wanted := AtMost(Distinct(ids), limit);
    var branches := Branches(wanted, load);
    SucceededCounts(branches);
    assert branches[i].Loaded?;
    FlattenedInOrder(wanted, load, |wanted|, i, x);
    assert branches[..|wanted|] == branches;
  }

  ghost predicate AllFail(wanted: seq<int>, load: int -> Result<seq<Torrent>, Upstream>) {
    forall i :: 0 <= i < |wanted| ==> load(wanted[i]).Err?
  }

  /** Absent cancellation the search fails exactly when there are releases to load and every load failed. */
  lemma SearchFailsOnlyCompletely(ids: seq<int>, limit: nat, load: int -> Result<seq<Torrent>, Upstream>)
    ensures SearchAnswer(Ok(ids), limit, load, false).Err? <==>
              var wanted := AtMost(Distinct(ids), limit);
              wanted != [] && AllFail(wanted, load)
  {
    hide Distinct, AtMost, Flatten, Succeeded;
    var wanted := AtMost(Distinct(ids), limit);
    var branches := Branches(wanted, load);
    SucceededCounts(branches);
    assert forall i :: 0 <= i < |wanted| ==> (branches[i].Loaded? <==> load(wanted[i]).Ok?);
  }

  // ---------- processing ----------

  datatype Category = CategoryTV | CategoryAnime

  /** CategoryFor. */
  function CategoryFor(kind: ReleaseType): Option<Category> {
    if kind.Dorama? then Some(CategoryTV)
    else if Known(kind) then Some(CategoryAnime)
    else None
  }

  datatype CategoryFilter = CategoryFilter(all: bool, tv: bool, anime: bool) {
    predicate Matches(category: Category) {
      all || match category case CategoryTV => tv case CategoryAnime => tv || anime
    }
  }

  datatype Item = Item(
    title: string, infoHash: string, magnet: string, alias: string, updatedAt: int, category: Category,
    size: int, seeders: int, leechers: int, completedTimes: int, year: Option<int>)

  /** What a request asks for, with the title parser as a parameter. */
  datatype Wanted = Wanted(
    categories: CategoryFilter, season: Option<nat>, episode: Option<nat>,
    parse: (ReleaseType, string, string) -> Option<TitleMetadata>)

  const MAX_INT64: int := 0x7fff_ffff_ffff_ffff

  function LowerRune(r: char): char {
    if 'A' <= r <= 'Z' then (r as int + 32) as char else r
  }

  /** strings.ToLower on the hexadecimal hashes the client lets through. */
  function Lower(s: string): string {
    seq(|s|, i requires 0 <= i < |s| => LowerRune(s[i]))
  }

  /** The same letter in either case, or the same rune. */
  predicate SameLetter(a: char, b: char) {
    || a == b
    || ('A' <= a <= 'Z' && b as int == a as int + 32)
    || ('A' <= b <= 'Z' && a as int == b as int + 32)
  }

  /** Hashes are compared regardless of the case of their letters, and shown without capitals. */
  lemma LowerIsCaseBlind(a: string, b: string)
    ensures Lower(a) == Lower(b) <==> |a| == |b| && forall k :: 0 <= k < |a| ==> SameLetter(a[k], b[k])
    ensures |Lower(a)| == |a|
    ensures forall k :: 0 <= k < |a| ==> SameLetter(a[k], Lower(a)[k]) && !('A' <= Lower(a)[k] <= 'Z')
  {
    if Lower(a) == Lower(b) {
      forall k | 0 <= k < |a| ensures SameLetter(a[k], b[k]) {
        assert Lower(a)[k] == Lower(b)[k];
      }
    }
  }

  /** The item of a torrent, if every check after deduplication lets it pass. */
  function ItemOf(t: Torrent, w: Wanted): (item: Option<Item>)
    ensures item.Some? ==> item.value.infoHash == Lower(t.hash)
  {
    match CategoryFor(t.release.kind)
    case None => None
    case Some(category) =>
      if !w.categories.Matches(category) then None
      else match w.parse(t.release.kind, t.release.mainName, t.name)
           case None => None
           case Some(metadata) =>
             if !metadata.Matches(w.season, w.episode) || t.seeders > MAX_INT64 - t.leechers then None
             else Some(Item(
                    metadata.title, Lower(t.hash), t.magnet, t.release.alias, t.updatedAt, category, t.size,
                    t.seeders, t.leechers, t.completedTimes, if t.release.year > 0 then Some(t.release.year) else None))
  }

  /**
  When a torrent that is the first of its hash becomes an item, and what the item says: its release type is
  supported and its category asked for, its title can be parsed and fits the filters, and its peers can be added up.
  */
  lemma ItemExistsExactly(t: Torrent, w: Wanted)
    ensures var kind, metadata := t.release.kind, w.parse(t.release.kind, t.release.mainName, t.name);
            ItemOf(t, w).Some? <==>
              && Known(kind) && (w.categories.all || w.categories.tv || (w.categories.anime && kind != Dorama))
              && metadata.Some? && (w.season.Some? ==> metadata.value.season == w.season)
              && (w.episode.Some? ==>
                    var range := metadata.value.episodes;
                    range.Some? && range.value.start <= w.episode.value <= range.value.end)
              && t.seeders + t.leechers <= MAX_INT64
    ensures ItemOf(t, w).Some? ==>
              var item := ItemOf(t, w).value;
              && item.infoHash == Lower(t.hash)
              && item.title == w.parse(t.release.kind, t.release.mainName, t.name).value.title
              && (item.category == CategoryTV <==> t.release.kind == Dorama)
              && (item.year.Some? <==> t.release.year > 0) && (item.year.Some? ==> item.year.value == t.release.year)
              && (item.magnet, item.alias, item.updatedAt) == (t.magnet, t.release.alias, t.updatedAt)
              && (item.size, item.seeders, item.leechers) == (t.size, t.seeders, t.leechers)
              && item.completedTimes == t.completedTimes
  {
    hide Lower;
  }

  function Hashes(ts: seq<Torrent>): set<string> {
    set i | 0 <= i < |ts| :: Lower(ts[i].hash)
  }

  /** The first torrent with each lower-case hash, in order. */
  function Dedupe(ts: seq<Torrent>): seq<Torrent> {
    if ts == [] then []
    else
      var rest, last := ts[..|ts| - 1], ts[|ts| - 1];
      Dedupe(rest) + if Lower(last.hash) in Hashes(rest) then [] else [last]
  }

  function Items(ts: seq<Torrent>, w: Wanted): seq<Item> {
    if ts == [] then []
    else
      var item := ItemOf(ts[|ts| - 1], w);
      Items(ts[..|ts| - 1], w) + if item.Some? then [item.value] else []
  }

  // ---------- the order of results ----------

  /** Go's string order on text. */
  predicate LexLess(a: string, b: string) {
    b != "" && (a == "" || a[0] < b[0] || (a[0] == b[0] && LexLess(a[1..], b[1..])))
  }

  /** Newer first; among equals, the smaller hash first. */
  predicate Before(a: Item, b: Item) {
    if a.updatedAt != b.updatedAt then a.updatedAt > b.updatedAt else LexLess(a.infoHash, b.infoHash)
  }

  ghost predicate StrictlyOrdered(items: seq<Item>) {
    forall i, j :: 0 <= i < j < |items| ==> Before(items[i], items[j])
  }

  lemma {:induction false} LexTotal(a: string, b: string)
    ensures LexLess(a, b) || a == b || LexLess(b, a)
    ensures !(LexLess(a, b) && (LexLess(b, a) || a == b))
  {
    if a != "" && b != "" {
      LexTotal(a[1..], b[1..]);
      assert a == [a[0]] + a[1..] && b == [b[0]] + b[1..];
    }
  }

  lemma {:induction false} LexTransitive(a: string, b: string, c: string)
    requires LexLess(a, b) && LexLess(b, c)
    ensures LexLess(a, c)
  {
    if a != "" && a[0] == b[0] == c[0] {
      LexTransitive(a[1..], b[1..], c[1..]);
    }
  }

  lemma BeforeIsStrictOrder(a: Item, b: Item, c: Item)
    ensures Before(a, b) && Before(b, c) ==> Before(a, c)
    ensures !(Before(a, b) && Before(b, a)) && !Before(a, a)
    ensures a.infoHash != b.infoHash ==> Before(a, b) || Before(b, a)
  {
    LexTotal(a.infoHash, b.infoHash);
    LexTotal(a.infoHash, a.infoHash);
    if a.updatedAt == b.updatedAt == c.updatedAt && Before(a, b) && Before(b, c) {
      LexTransitive(a.infoHash, b.infoHash, c.infoHash);
    }
  }

  /** The texts agree up to k, and there the first one ends or has the smaller rune. */
  ghost predicate SmallerAt(a: string, b: string, k: nat) {
    k <= |a| && k < |b| && a[..k] == b[..k] && (k == |a| || a[k] < b[k])
  }

  lemma {:induction false} LexLessExactly(a: string, b: string)
    ensures LexLess(a, b) <==> exists k: nat :: SmallerAt(a, b, k)
  {
    if a == "" && b != "" {
      assert SmallerAt(a, b, 0);
    } else if a != "" && b != "" {
      LexLessExactly(a[1..], b[1..]);
      if k: nat :| SmallerAt(a, b, k) {
        if k > 0 {
          assert a[..k][0] == a[0] && b[..k][0] == b[0];
          assert a[1..][..k - 1] == a[..k][1..] && b[1..][..k - 1] == b[..k][1..];
          assert SmallerAt(a[1..], b[1..], k - 1);
        }
      }
      if a[0] < b[0] {
        assert SmallerAt(a, b, 0);
      }
      if k: nat :| a[0] == b[0] && SmallerAt(a[1..], b[1..], k) {
        var more := k + 1;
        assert a[..more] == [a[0]] + a[1..][..k] && b[..more] == [b[0]] + b[1..][..k];
        assert SmallerAt(a, b, more);
      }
    }
  }

  /** Put an item behind everything that is not after it; this is what keeps the sort stable. */
  function Insert(sorted: seq<Item>, item: Item): seq<Item> {
    if sorted == [] then [item]
    else if Before(item, sorted[|sorted| - 1]) then Insert(sorted[..|sorted| - 1], item) + [sorted[|sorted| - 1]]
    else sorted + [item]
  }

  /** sort.SliceStable with the repository's comparison. */
  function StableSort(items: seq<Item>): seq<Item> {
    if items == [] then [] else Insert(StableSort(items[..|items| - 1]), items[|items| - 1])
  }

  ghost predicate DistinctHashes(items: seq<Item>) {
    forall i, j :: 0 <= i < j < |items| ==> items[i].infoHash != items[j].infoHash
  }

  lemma {:induction false} InsertKeepsOrder(sorted: seq<Item>, item: Item)
    requires StrictlyOrdered(sorted) && forall i :: 0 <= i < |sorted| ==> sorted[i].infoHash != item.infoHash
    ensures StrictlyOrdered(Insert(sorted, item)) && multiset(Insert(sorted, item)) == multiset(sorted) + multiset{item}
  {
    if sorted != [] {
      var front, last := sorted[..|sorted| - 1], sorted[|sorted| - 1];
      assert sorted == front + [last];
      if Before(item, last) {
        InsertKeepsOrder(front, item);
        var inner := Insert(front, item);
        forall i | 0 <= i < |inner| ensures Before(inner[i], last) {
          assert inner[i] in multiset(inner);
          assert inner[i] in front || inner[i] == item;
        }
      } else {
        forall i | 0 <= i < |sorted| ensures Before(sorted[i], item) {
          BeforeIsStrictOrder(sorted[i], last, item);
          BeforeIsStrictOrder(last, item, item);
        }
      }
    }
  }

  lemma {:induction false} StableSortSorts(items: seq<Item>)
    requires DistinctHashes(items)
    ensures StrictlyOrdered(StableSort(items)) && multiset(StableSort(items)) == multiset(items)
  {
    if items != [] {
      var front, last := items[..|items| - 1], items[|items| - 1];
      assert items == front + [last];
      StableSortSorts(front);
      var sorted := StableSort(front);
      forall i | 0 <= i < |sorted| ensures sorted[i].infoHash != last.infoHash {
        assert sorted[i] in multiset(sorted);
        assert sorted[i] in front;
      }
      InsertKeepsOrder(sorted, last);
    }
  }

  /** There is only one strictly ordered list of the same items. */
  lemma {:induction false} OrderedListIsUnique(a: seq<Item>, b: seq<Item>)
    requires StrictlyOrdered(a) && StrictlyOrdered(b) && multiset(a) == multiset(b)
    ensures a == b
    decreases |a|
  {
    if a == [] || b == [] {
      assert |multiset(a)| == |a| && |multiset(b)| == |b|;
    } else {
      FirstIsSame(a, b);
      assert a == [a[0]] + a[1..] && b == [b[0]] + b[1..];
      assert multiset(a[1..]) == multiset(a) - multiset{a[0]} && multiset(b[1..]) == multiset(b) - multiset{b[0]};
      OrderedListIsUnique(a[1..], b[1..]);
    }
  }

  lemma FirstIsSame(a: seq<Item>, b: seq<Item>)
    requires StrictlyOrdered(a) && StrictlyOrdered(b) && multiset(a) == multiset(b) && a != [] && b != []
    ensures a[0] == b[0]
  {
    hide Before;
    assert a[0] in multiset(b) && b[0] in multiset(a);
    var i :| 0 <= i < |b| && b[i] == a[0];
    var j :| 0 <= j < |a| && a[j] == b[0];
    BeforeIsStrictOrder(a[0], b[0], a[0]);
  }

  // ---------- process ----------

  /** What process answers, as a function of its input. */
  function Processed(ts: seq<Torrent>, w: Wanted): seq<Item> {
    StableSort(Items(Dedupe(ts), w))
  }

  lemma {:induction false} DedupeFacts(ts: seq<Torrent>)
    ensures Hashes(Dedupe(ts)) == Hashes(ts)
    ensures forall i, j :: 0 <= i < j < |Dedupe(ts)| ==> Lower(Dedupe(ts)[i].hash) != Lower(Dedupe(ts)[j].hash)
  {
    hide Lower;
    if ts != [] {
      var rest, last := ts[..|ts| - 1], ts[|ts| - 1];
      DedupeFacts(rest);
      HashesPush(rest, last);
      HashesPush(Dedupe(rest), last);
      assert ts == rest + [last] && Dedupe(rest) + [] == Dedupe(rest);
      if Lower(last.hash) !in Hashes(rest) {
        forall i | 0 <= i < |Dedupe(rest)| ensures Lower(Dedupe(rest)[i].hash) != Lower(last.hash) {
          assert Lower(Dedupe(rest)[i].hash) in Hashes(Dedupe(rest));
        }
      }
    }
  }

  lemma HashesPush(ts: seq<Torrent>, t: Torrent)
    ensures Hashes(ts + [t]) == Hashes(ts) + {Lower(t.hash)}
  {
    hide Lower;
    var more := ts + [t];
    forall h | h in Hashes(ts) + {Lower(t.hash)} ensures h in Hashes(more) {
      if h in Hashes(ts) {
        var i :| 0 <= i < |ts| && Lower(ts[i].hash) == h;
        assert more[i] == ts[i];
      } else {
        assert more[|ts|] == t;
      }
    }
  }

  /** Items carry the hashes of the torrents they come from, so they are as distinct as those. */
  lemma {:induction false} ItemsFacts(ts: seq<Torrent>, w: Wanted)
    requires forall i, j :: 0 <= i < j < |ts| ==> Lower(ts[i].hash) != Lower(ts[j].hash)
    ensures DistinctHashes(Items(ts, w))
    ensures forall item :: item in Items(ts, w) <==> exists i :: 0 <= i < |ts| && ItemOf(ts[i], w) == Some(item)
  {
    hide Lower, ItemOf;
    if ts != [] {
      var rest, last := ts[..|ts| - 1], ts[|ts| - 1];
      ItemsFacts(rest, w);
      var item, front := ItemOf(last, w), Items(rest, w);
      if item.Some? {
        forall k | 0 <= k < |front| ensures front[k].infoHash != item.value.infoHash {
          assert front[k] in front;
          var i :| 0 <= i < |rest| && ItemOf(rest[i], w) == Some(front[k]);
          assert rest[i] == ts[i];
        }
      }
      forall x ensures x in Items(ts, w) <==> exists i :: 0 <= i < |ts| && ItemOf(ts[i], w) == Some(x) {
        if x in front {
          var i :| 0 <= i < |rest| && ItemOf(rest[i], w) == Some(x);
          assert ts[i] == rest[i];
        }
        if i :| 0 <= i < |ts| && ItemOf(ts[i], w) == Some(x) {
          if i < |rest| {
            assert rest[i] == ts[i];
          }
        }
      }
    }
  }

  /** The answer is strictly ordered and holds exactly the items of the first torrent of each hash. */
  lemma ProcessedFacts(ts: seq<Torrent>, w: Wanted)
    ensures StrictlyOrdered(Processed(ts, w))
    ensures multiset(Processed(ts, w)) == multiset(Items(Dedupe(ts), w))
  {
    DedupeFacts(ts);
    ItemsFacts(Dedupe(ts), w);
    StableSortSorts(Items(Dedupe(ts), w));
  }

  /** Newer items come first, and among equally new ones the smaller hash. */
  lemma AnswerIsNewestFirst(ts: seq<Torrent>, w: Wanted, i: nat, j: nat)
    requires i < j < |Processed(ts, w)|
    ensures var a, b := Processed(ts, w)[i], Processed(ts, w)[j];
            a.updatedAt > b.updatedAt
            || (a.updatedAt == b.updatedAt && exists k: nat :: SmallerAt(a.infoHash, b.infoHash, k))
  {
    hide Processed, LexLess, SmallerAt;
    ProcessedFacts(ts, w);
    LexLessExactly(Processed(ts, w)[i].infoHash, Processed(ts, w)[j].infoHash);
  }

  /** Any strictly ordered arrangement of those items is the answer. */
  lemma ProcessedIsTheOnlyOne(ts: seq<Torrent>, w: Wanted, other: seq<Item>)
    requires StrictlyOrdered(other) && multiset(other) == multiset(Items(Dedupe(ts), w))
    ensures other == Processed(ts, w)
  {
    ProcessedFacts(ts, w);
    OrderedListIsUnique(other, Processed(ts, w));
  }

  /** The first torrent with a given hash. */
  ghost predicate IsFirst(ts: seq<Torrent>, i: nat) {
    i < |ts| && forall j :: 0 <= j < i ==> Lower(ts[j].hash) != Lower(ts[i].hash)
  }

  lemma FirstIsNotSeen(ts: seq<Torrent>, i: nat)
    requires i < |ts|
    ensures IsFirst(ts, i) <==> Lower(ts[i].hash) !in Hashes(ts[..i])
  {
    hide Lower;
    forall j | 0 <= j < i ensures Lower(ts[j].hash) in Hashes(ts[..i]) {
      assert ts[..i][j] == ts[j];
    }
  }

  ghost predicate FirstTorrent(ts: seq<Torrent>, i: nat, t: Torrent) {
    i < |ts| && IsFirst(ts, i) && ts[i] == t
  }

  lemma {:induction false} DedupeKeepsFirsts(ts: seq<Torrent>, t: Torrent)
    ensures t in Dedupe(ts) <==> exists i: nat :: FirstTorrent(ts, i, t)
  {
    hide Lower, Hashes, IsFirst;
    if ts != [] {
      var n := |ts| - 1;
      DedupeKeepsFirsts(ts[..n], t);
      FirstsOfFront(ts, n, t);
      FirstIsNotSeen(ts, n);
    }
  }

  lemma FirstsOfFront(ts: seq<Torrent>, n: nat, t: Torrent)
    requires |ts| == n + 1
    ensures (exists i: nat :: FirstTorrent(ts, i, t)) <==>
            (exists i: nat :: FirstTorrent(ts[..n], i, t)) || FirstTorrent(ts, n, t)
  {
    hide Lower;
    assert forall j :: 0 <= j < n ==> ts[..n][j] == ts[j];
    forall i: nat ensures FirstTorrent(ts[..n], i, t) <==> i < n && FirstTorrent(ts, i, t) {
    }
    if i: nat :| FirstTorrent(ts, i, t) {
      assert i < n ==> FirstTorrent(ts[..n], i, t);
    }
  }

  /**
  Deduplication comes before filtering: a hash is in the answer exactly when its first torrent passes
  the filters, and then with that torrent's item; a later duplicate never revives it.
  */
  lemma FirstOccurrenceDecides(ts: seq<Torrent>, w: Wanted, i: nat)
    requires IsFirst(ts, i)
    ensures forall item :: item in Processed(ts, w) && item.infoHash == Lower(ts[i].hash) <==>
              ItemOf(ts[i], w) == Some(item)
  {
    hide Lower, ItemOf, Processed, Items;
    DedupeFacts(ts);
    ItemsFacts(Dedupe(ts), w);
    ProcessedFacts(ts, w);
    DedupeKeepsFirsts(ts, ts[i]);
    assert FirstTorrent(ts, i, ts[i]);
    var firsts := Dedupe(ts);
    var k :| 0 <= k < |firsts| && firsts[k] == ts[i];
    forall item
      ensures item in Processed(ts, w) && item.infoHash == Lower(ts[i].hash) <==> ItemOf(ts[i], w) == Some(item)
    {
      assert item in Processed(ts, w) <==> item in multiset(Processed(ts, w));
      assert item in Items(firsts, w) <==> item in multiset(Items(firsts, w));
      if item in Processed(ts, w) && item.infoHash == Lower(ts[i].hash) {
        var j :| 0 <= j < |firsts| && ItemOf(firsts[j], w) == Some(item);
        assert j == k;
      }
    }
  }

  /** The order of the input matters only through which of several duplicates comes first. */
  lemma OnlyTheFirstsMatter(a: seq<Torrent>, b: seq<Torrent>, w: Wanted)
    requires multiset(Dedupe(a)) == multiset(Dedupe(b))
    ensures Processed(a, w) == Processed(b, w)
  {
    ProcessedFacts(a, w);
    ProcessedFacts(b, w);
    ItemsPermute(Dedupe(a), Dedupe(b), w);
    OrderedListIsUnique(Processed(a, w), Processed(b, w));
  }

  lemma {:induction false} ItemsPermute(a: seq<Torrent>, b: seq<Torrent>, w: Wanted)
    requires multiset(a) == multiset(b)
    ensures multiset(Items(a, w)) == multiset(Items(b, w))
    decreases |a|
  {
    hide ItemOf;
    if a == [] {
      assert |multiset(b)| == |b| && |multiset(a)| == 0;
    } else {
      var front, last := a[..|a| - 1], a[|a| - 1];
      assert a == front + [last];
      assert last in multiset(b);
      var i :| 0 <= i < |b| && b[i] == last;
      var before, after := b[..i], b[i + 1..];
      assert b == before + [last] + after;
      TakeOut(a, front, before, last, after);
      ItemsPermute(front, before + after, w);
      ItemsMoveToEnd(before, last, after, w);
      ItemsConcat(front, [last], w);
    }
  }

  lemma TakeOut(a: seq<Torrent>, front: seq<Torrent>, before: seq<Torrent>, t: Torrent, after: seq<Torrent>)
    requires a == front + [t] && multiset(a) == multiset(before + [t] + after)
    ensures multiset(front) == multiset(before + after)
  {
    assert multiset(before + [t] + after) == multiset(before) + multiset{t} + multiset(after);
    assert multiset(front) == multiset(a) - multiset{t};
  }

  lemma ItemsMoveToEnd(before: seq<Torrent>, t: Torrent, after: seq<Torrent>, w: Wanted)
    ensures multiset(Items(before + [t] + after, w)) == multiset(Items(before + after, w)) + multiset(Items([t], w))
    ensures Items(before + after + [t], w) == Items(before + after, w) + Items([t], w)
  {
    hide Items;
    ItemsConcat(before + [t], after, w);
    ItemsConcat(before, [t], w);
    ItemsConcat(before, after, w);
    ItemsConcat(before + after, [t], w);
  }

  lemma {:induction false} ItemsConcat(a: seq<Torrent>, b: seq<Torrent>, w: Wanted)
    ensures Items(a + b, w) == Items(a, w) + Items(b, w)
  {
    hide ItemOf;
    if b == [] {
      assert a + b == a;
    } else {
      assert (a + b)[..|a + b| - 1] == a + b[..|b| - 1];
      ItemsConcat(a, b[..|b| - 1], w);
    }
  }

  /** One turn of the loop. */
  lemma ProcessStep(ts: seq<Torrent>, k: nat, w: Wanted)
    requires k < |ts|
    ensures var t, front, more := ts[k], ts[..k], ts[..k + 1];
            && Hashes(more) == Hashes(front) + {Lower(t.hash)}
            && Items(Dedupe(more), w) ==
               if Lower(t.hash) in Hashes(front) || ItemOf(t, w).None? then Items(Dedupe(front), w)
               else Items(Dedupe(front), w) + [ItemOf(t, w).value]
  {
    hide Lower, ItemOf, Hashes, Dedupe, Items;
    assert ts[..k + 1] == ts[..k] + [ts[k]];
    HashesPush(ts[..k], ts[k]);
    DedupePush(ts[..k], ts[k], w);
  }

  lemma NothingProcessed(ts: seq<Torrent>, w: Wanted)
    ensures Hashes(ts[..0]) == {} && Items(Dedupe(ts[..0]), w) == []
  {
  }

  lemma DedupePush(ts: seq<Torrent>, t: Torrent, w: Wanted)
    ensures Lower(t.hash) in Hashes(ts) ==> Dedupe(ts + [t]) == Dedupe(ts)
    ensures Lower(t.hash) !in Hashes(ts) ==>
              Items(Dedupe(ts + [t]), w) ==
                Items(Dedupe(ts), w) + if ItemOf(t, w).Some? then [ItemOf(t, w).value] else []
  {
    hide Lower, ItemOf;
    assert (ts + [t])[..|ts|] == ts;
    assert (Dedupe(ts) + [t])[..|Dedupe(ts)|] == Dedupe(ts) && Dedupe(ts) + [] == Dedupe(ts);
  }

  datatype Cancelled = Cancelled

  /**
  process. The context is polled before each torrent, before the sort and after it; polls counts how
  many of those find it still alive.
  */
  method Process(ts: seq<Torrent>, w: Wanted, polls: nat) returns (r: Result<seq<Item>, Cancelled>)
    ensures r == if polls < |ts| + 2 then Err(Cancelled) else Ok(Processed(ts, w))
  {
    hide ItemOf, Lower, StableSort, Hashes, Dedupe, Items;
    NothingProcessed(ts, w);
    var seen: set<string> := {};
    var items: seq<Item> := [];
    for k := 0 to |ts|
      invariant k <= polls
      invariant seen == Hashes(ts[..k]) && items == Items(Dedupe(ts[..k]), w)
    {
      if polls <= k {
        return Err(Cancelled);
      }
      var t := ts[k];
      ProcessStep(ts, k, w);
      var hash := Lower(t.hash);
      if hash in seen {
        continue;
      }
      seen := seen + {hash};
      var item := Screen(t, w);
      if item.Some? {
        items := items + [item.value];
      }
    }
    assert ts[..|ts|] == ts;
    if polls <= |ts| {
      return Err(Cancelled);
    }
    items := StableSort(items);
    if polls <= |ts| + 1 {
      return Err(Cancelled);
    }
    r := Ok(items);
  }

  /** The checks process makes on one torrent, in its order. */
  method Screen(t: Torrent, w: Wanted) returns (item: Option<Item>)
    ensures item == ItemOf(t, w)
  {
    var category := CategoryFor(t.release.kind);
    if category.None? {
      return None;
    }
    if !w.categories.Matches(category.value) {
      return None;
    }
    var metadata := w.parse(t.release.kind, t.release.mainName, t.name);
    if metadata.None? {
      return None;
    }
    if !metadata.value.Matches(w.season, w.episode) {
      return None;
    }
    if t.seeders > MAX_INT64 - t.leechers {
      return None;
    }
    var year := None;
    if t.release.year > 0 {
      year := Some(t.release.year);
    }
    item := Some(Item(
      metadata.value.title, Lower(t.hash), t.magnet, t.release.alias, t.updatedAt, category.value, t.size,
      t.seeders, t.leechers, t.completedTimes, year));
  }

  // ---------- paging ----------

  const UINT64: nat := 0x1_0000_0000_0000_0000
  const INT64: nat := 0x8000_0000_0000_0000

  /** Go's conversion from uint64 to int. */
  function ToInt(u: nat): int
    requires u < UINT64
  {
    if u < INT64 then u else u - UINT64
  }

  function Min(a: int, b: int): int {
    if a < b then a else b
  }

  /** pageItems; lengths of slices are below 2^63. */
  function PageItems<T>(items: seq<T>, offset: nat, limit: nat): (page: seq<T>)
    requires offset < UINT64 && |items| < INT64
    ensures offset >= |items| ==> page == []
    ensures offset < |items| ==> ToInt(offset) == offset && page == items[offset..offset + Min(limit, |items| - offset)]
    ensures |page| == Min(limit, if offset < |items| then |items| - offset else 0)
  {
    if offset >= |items| || limit == 0 then []
    else
      var start := ToInt(offset);
      var end := start + Min(limit, |items| - start);
      items[start..end]
  }

  /** The pages at offset, offset + limit, offset + 2 * limit, ... put together. */
  function Pages<T>(items: seq<T>, offset: nat, limit: nat): seq<T>
    requires limit > 0 && |items| < INT64
    decreases |items| - offset
  {
    if offset >= |items| then [] else PageItems(items, offset, limit) + Pages(items, offset + limit, limit)
  }

  /** Paging through the feed shows every item once, in order. */
  lemma {:induction false} PagesRebuildTheFeed<T>(items: seq<T>, offset: nat, limit: nat)
    requires limit > 0 && |items| < INT64 && offset <= |items|
    ensures Pages(items, offset, limit) == items[offset..]
    decreases |items| - offset
  {
    hide PageItems, ToInt;
    if offset < |items| {
      var page := PageItems(items, offset, limit);
      if offset + limit <= |items| {
        PagesRebuildTheFeed(items, offset + limit, limit);
        SplitAt(items, offset, offset + limit);
      } else {
        assert page == items[offset..] && Pages(items, offset + limit, limit) == [];
      }
    }
  }

  lemma SplitAt<T>(items: seq<T>, from: nat, mid: nat)
    requires from <= mid <= |items|
    ensures items[from..] == items[from..mid] + items[mid..]
  {
  }
}
