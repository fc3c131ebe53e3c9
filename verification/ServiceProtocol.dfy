/**
Cached loading in the service (internal/service/service.go): a request first asks the cache, then goes
through the coalescer, and the load it may start asks the cache again before it calls the client and
stores what it gets. Any number of requests and keys, any interleaving of these steps, any clock.
Two theorems: whatever reaches a caller or the cache for a key was returned by the client for that key,
and however many requests race, the client succeeds for a key at most once more often than its loads were
abandoned and its stored values lost.
*/
module ServiceProtocol {
  import opened Common
  import opened CacheSpec
  import opened Deadlines
  import Lru
  import C = CallTable
  import P = CoalescerProtocol

  datatype Failure = Failure

  type Loaded<V> = Result<V, Failure>

  /** Where the load of a call stands. */
  datatype Phase<V> =
    | Rechecking                          // about to ask the cache a second time
    | Calling                             // in the client
    | Storing(value: V)                   // the client has answered
    | Finishing(result: Loaded<V>)        // about to return to the coalescer
    | Ended

  /** A request before it reaches the coalescer. */
  datatype Front<K, V> = Missed(key: K) | Hit(key: K, value: V) | Joined(key: K)

  datatype Config<!V> = Config(max: nat, empty: V -> bool, positiveTTL: int, negativeTTL: int)
  {
    function TTL(value: V): int {
      Lru.TTLForResult(empty(value), positiveTTL, negativeTTL)
    }
  }

  /** successes lists what the client returned; losses counts, key by key, the values that did not stay in the cache. */
  datatype State<K, V> = State(
    protocol: P.State<K, Loaded<V>>, phases: seq<Phase<V>>, cells: Cells<K, V>, fronts: seq<Front<K, V>>,
    successes: seq<(K, V)>, losses: multiset<K>)

  datatype Event<K, V> =
    | Ask(key: K, now: int)
    | Refuse(front: nat)
    | Enter(front: nat, budget: Budget)
    | Recheck(call: nat, now: int)
    | Answered(call: nat, value: V)
    | CallFails(call: nat)
    | Store(call: nat, now: int)
    | Return(call: nat)
    | TakeResult(caller: nat)
    | ContextDone(caller: nat)
    | Leave(caller: nat)
    | CancelBase

  function Initial<K, V>(): State<K, V> {
    State(P.Initial(), [], [], [], [], multiset{})
  }

  ghost predicate Shaped<K, V>(s: State<K, V>) {
    && P.Shaped(s.protocol) && |s.phases| == |s.protocol.loads|
    && forall c :: 0 <= c < |s.phases| ==> (s.phases[c].Ended? <==> !s.protocol.loads[c].running)
  }

  /** The step of the coalescer that an event is, if any. */
  ghost function Projected<K, V>(s: State<K, V>, e: Event<K, V>): Option<P.Event<K, Loaded<V>>>
    requires Shaped(s)
  {
    match e
    case Refuse(i) => Some(P.Refuse)
    case Enter(i, budget) => if i < |s.fronts| then Some(P.Arrive(s.fronts[i].key, budget)) else None
    case Return(c) =>
      if c < |s.phases| && s.phases[c].Finishing? then Some(P.LoadReturns(c, s.phases[c].result)) else None
    case TakeResult(i) => Some(P.TakeResult(i))
    case ContextDone(i) => Some(P.ContextDone(i))
    case Leave(i) => Some(P.Leave(i))
    case CancelBase => Some(P.CancelBase)
    case _ => None
  }

  ghost predicate Enabled<K, V>(s: State<K, V>, e: Event<K, V>)
    requires Shaped(s)
  {
    && (match Projected(s, e) case Some(pe) => P.Enabled(s.protocol, pe) case None => true)
    && match e
       case Ask(_, _) => true
       case Refuse(i) => i < |s.fronts| && s.fronts[i].Missed?
       case Enter(i, _) => i < |s.fronts| && s.fronts[i].Missed?
       case Recheck(c, _) => c < |s.phases| && s.phases[c].Rechecking?
       case Answered(c, _) => c < |s.phases| && s.phases[c].Calling?
       case CallFails(c) => c < |s.phases| && s.phases[c].Calling?
       case Store(c, _) => c < |s.phases| && s.phases[c].Storing?
       case Return(c) => c < |s.phases| && s.phases[c].Finishing?
       case _ => true
  }

  ghost function KeyOf<K, V>(s: State<K, V>, c: nat): K
    requires Shaped(s) && c < |s.phases|
  {
    s.protocol.loads[c].key
  }

  /** Keys that were in the cache and no longer are. */
  ghost function Dropped<K(!new), V(!new)>(before: Cells<K, V>, after: Cells<K, V>): set<K> {
    set i | 0 <= i < |before| && Find(after, before[i].key).None? :: before[i].key
  }

  /** The keys whose value an operation drops or does not store: by expiry, by eviction or for want of a lifetime. */
  ghost function Lost<K(!new), V(!new)>(before: Cells<K, V>, after: Cells<K, V>, op: Op<K, V>): set<K> {
    Dropped(before, after) + if op.Set? && Find(after, op.key).None? then {op.key} else {}
  }

  /** An operation on the cache, with what it loses. */
  ghost function OnCache<K(!new), V(!new)>(s: State<K, V>, config: Config<V>, op: Op<K, V>, now: int): State<K, V> {
    var after := LazyStep(s.cells, config.max, op, now).0;
    s.(cells := after, losses := s.losses + multiset(Lost(s.cells, after, op)))
  }

  ghost function Next<K(!new), V(!new)>(s: State<K, V>, config: Config<V>, e: Event<K, V>): (t: State<K, V>)
    requires Shaped(s) && Enabled(s, e)
    ensures Shaped(t)
  {
    match e
    case Ask(key, now) =>
      var answer := LazyStep(s.cells, config.max, Get(key), now).1;
      OnCache(s, config, Get(key), now).(
        fronts := s.fronts + [if answer.Found? then Hit(key, answer.value) else Missed(key)])
    case Enter(i, budget) =>
      var protocol := P.Next(s.protocol, Projected(s, e).value);
      s.(protocol := protocol,
         phases := if |protocol.loads| == |s.phases| then s.phases else s.phases + [Rechecking],
         fronts := s.fronts[i := Joined(s.fronts[i].key)])
    case Recheck(c, now) =>
      var answer := LazyStep(s.cells, config.max, Get(KeyOf(s, c)), now).1;
      OnCache(s, config, Get(KeyOf(s, c)), now).(
        phases := s.phases[c := if answer.Found? then Finishing(Ok(answer.value)) else Calling])
    case Answered(c, value) =>
      s.(phases := s.phases[c := Storing(value)], successes := s.successes + [(KeyOf(s, c), value)])
    case CallFails(c) => s.(phases := s.phases[c := Finishing(Err(Failure))])
    case Store(c, now) =>
      var value := s.phases[c].value;
      OnCache(s, config, Set(KeyOf(s, c), value, config.TTL(value)), now).(
        phases := s.phases[c := Finishing(Ok(value))])
    case Return(c) =>
      s.(protocol := P.Next(s.protocol, Projected(s, e).value), phases := s.phases[c := Ended])
    case Refuse(i) =>
      s.(protocol := P.Next(s.protocol, P.Refuse), fronts := s.fronts[i := Joined(s.fronts[i].key)])
    case _ => s.(protocol := P.Next(s.protocol, Projected(s, e).value))
  }

  ghost predicate Possible<K(!new), V(!new)>(s: State<K, V>, config: Config<V>, events: seq<Event<K, V>>)
    requires Shaped(s)
    decreases |events|
  {
    events == [] || (Enabled(s, events[0]) && Possible(Next(s, config, events[0]), config, events[1..]))
  }

  ghost function After<K(!new), V(!new)>(s: State<K, V>, config: Config<V>, events: seq<Event<K, V>>): (t: State<K, V>)
    requires Shaped(s) && Possible(s, config, events)
    ensures Shaped(t)
    decreases |events|
  {
    if events == [] then s else After(Next(s, config, events[0]), config, events[1..])
  }

  // ---------- what cache operations do to single keys ----------

  lemma GetLooksUp<K, V>(cells: Cells<K, V>, max: nat, key: K, now: int, k: K)
    requires DistinctKeys(cells)
    ensures var (after, answer) := LazyStep(cells, max, Get(key), now);
            && (answer.Found? ==> Find(cells, key).Some? && Find(cells, key).value.value == answer.value)
            && (k != key || answer.Found? ==> Find(after, k) == Find(cells, k))
            && (answer.Found? || Find(after, key) == None)
  {
    WithoutFacts(cells, key);
    FindWithout(cells, key, k);
    FindWithout(cells, key, key);
    if Find(cells, key).Some? {
      var cell := Find(cells, key).value;
      assert ([cell] + Without(cells, key))[1..] == Without(cells, key);
    }
  }

  lemma SetStores<K, V>(cells: Cells<K, V>, max: nat, key: K, value: V, ttl: int, now: int, k: K)
    requires Bounded(cells, max)
    ensures var after := LazyStep(cells, max, Set(key, value, ttl), now).0;
            && (k != key ==> Find(after, k) == None || Find(after, k) == Find(cells, k))
            && (k == key ==> Find(after, k) == None || Find(after, k) == Some(Cell(key, value, now + ttl)))
  {
    FindWithout(cells, key, k);
    var cell := Cell(key, value, now + ttl);
    assert ([cell] + Without(cells, key))[1..] == Without(cells, key) && ([cell] + cells)[1..] == cells;
    if ttl > 0 && Find(cells, key) == None {
      OverflowLooksUp([cell] + cells, max, now, k);
    }
  }

  lemma OverflowLooksUp<K, V>(cells: Cells<K, V>, max: nat, now: int, k: K)
    requires DistinctKeys(cells)
    ensures Find(Overflow(cells, max, now), k) == None || Find(Overflow(cells, max, now), k) == Find(cells, k)
  {
    FindLive(cells, k, now);
    LiveDistinct(cells, now);
    var live := Live(cells, now);
    if |live| > max {
      FindTake(live, |live| - 1, k);
    }
  }

  lemma DroppedIsLost<K(!new), V(!new)>(before: Cells<K, V>, after: Cells<K, V>, k: K)
    requires Find(before, k).Some? && Find(after, k).None?
    ensures k in Dropped(before, after)
  {
    FindMember(before, k);
  }

  // ---------- invariants ----------

  function Count<K(==), V>(successes: seq<(K, V)>, key: K): nat {
    if successes == [] then 0
    else Count(successes[..|successes| - 1], key) + if successes[|successes| - 1].0 == key then 1 else 0
  }

  /** At some point before the load returned nobody waited for it any more; the count stays at zero from then on. */
  ghost predicate Abandoned<K, V>(s: State<K, V>, c: nat)
    requires Shaped(s) && c < |s.phases|
  {
    s.protocol.table.pool[c].waiters == 0
  }

  ghost function AbandonedLoads<K(!new), V(!new)>(s: State<K, V>, key: K): set<nat>
    requires Shaped(s)
  {
    set c | 0 <= c < |s.phases| && KeyOf(s, c) == key && Abandoned(s, c)
  }

  ghost predicate IsSpent<K, V>(s: State<K, V>, key: K, c: nat)
    requires Shaped(s)
  {
    c < |s.phases| && KeyOf(s, c) == key && Abandoned(s, c) && !s.phases[c].Rechecking? && !s.phases[c].Calling?
  }

  /** The abandoned loads that have been through the client, or will not go there. */
  ghost function Spent<K(!new), V(!new)>(s: State<K, V>, key: K): set<nat>
    requires Shaped(s)
  {
    set c | 0 <= c < |s.phases| && IsSpent(s, key, c)
  }

  /** A load that somebody waits for is in the client, or has an answer in hand. */
  ghost predicate CallsFor<K, V>(s: State<K, V>, key: K, c: nat)
    requires Shaped(s)
  {
    c < |s.phases| && KeyOf(s, c) == key && !Abandoned(s, c) && s.phases[c].Calling?
  }

  ghost predicate StoresFor<K, V>(s: State<K, V>, key: K, c: nat)
    requires Shaped(s)
  {
    c < |s.phases| && KeyOf(s, c) == key && !Abandoned(s, c) && s.phases[c].Storing?
  }

  /**
  The one success that neither an abandoned load nor a loss accounts for: it is in the hands of the load that
  is at work, or else in the cache.
  */
  ghost function Held<K(!new), V(!new)>(s: State<K, V>, key: K): nat
    requires Shaped(s)
  {
    if exists c :: StoresFor(s, key, c) then 1
    else if exists c :: CallsFor(s, key, c) then 0
    else if Find(s.cells, key).Some? then 1 else 0
  }

  ghost predicate Accounted<K(!new), V(!new)>(s: State<K, V>, key: K)
    requires Shaped(s)
  {
    Count(s.successes, key) <= s.losses[key] + |Spent(s, key)| + Held(s, key)
  }

  ghost predicate Genuine<K, V>(s: State<K, V>, key: K, value: V) {
    (key, value) in s.successes
  }

  ghost predicate CacheGenuine<K(!new), V>(s: State<K, V>) {
    forall k :: Find(s.cells, k).Some? ==> Genuine(s, k, Find(s.cells, k).value.value)
  }

  ghost predicate CallGenuine<K, V>(s: State<K, V>, c: nat)
    requires Shaped(s) && c < |s.phases|
  {
    var outcome := s.protocol.table.pool[c].outcome;
    && (s.phases[c].Storing? ==> Genuine(s, KeyOf(s, c), s.phases[c].value))
    && (s.phases[c].Finishing? && s.phases[c].result.Ok? ==> Genuine(s, KeyOf(s, c), s.phases[c].result.value))
    && (outcome.Some? && outcome.value.Ok? ==> Genuine(s, KeyOf(s, c), outcome.value.value))
  }

  ghost predicate FrontsGenuine<K, V>(s: State<K, V>) {
    forall i :: 0 <= i < |s.fronts| && s.fronts[i].Hit? ==> Genuine(s, s.fronts[i].key, s.fronts[i].value)
  }

  ghost predicate AllGenuine<K(!new), V>(s: State<K, V>)
    requires Shaped(s)
  {
    CacheGenuine(s) && FrontsGenuine(s) && forall c :: 0 <= c < |s.phases| ==> CallGenuine(s, c)
  }

  ghost predicate Inv<K(!new), V(!new)>(s: State<K, V>, config: Config<V>) {
    && Shaped(s) && P.Inv(s.protocol) && Bounded(s.cells, config.max)
    && AllGenuine(s) && forall key :: Accounted(s, key)
  }

  // ---------- steps of the coalescer stay steps of the coalescer ----------

  /** Every run of the service is a run of the coalescer on the projected events. */
  lemma ProtocolStep<K(!new), V(!new)>(s: State<K, V>, config: Config<V>, e: Event<K, V>)
    requires Shaped(s) && P.Inv(s.protocol) && Enabled(s, e)
    ensures P.Inv(Next(s, config, e).protocol)
    ensures Next(s, config, e).protocol ==
              match Projected(s, e) case Some(pe) => P.Next(s.protocol, pe) case None => s.protocol
  {
    hide P.CallsOk, P.CallersOk, P.KeysOk, P.Next, LazyStep, Dropped;
    if Projected(s, e).Some? {
      P.StepKeeps(s.protocol, Projected(s, e).value);
    }
  }

  lemma CacheStep<K(!new), V(!new)>(s: State<K, V>, config: Config<V>, e: Event<K, V>)
    requires Shaped(s) && Bounded(s.cells, config.max) && Enabled(s, e)
    ensures Bounded(Next(s, config, e).cells, config.max)
  {
    hide Bounded, LazyStep, Dropped, P.Next, P.Enabled;
    match e
    case Ask(key, now) => LazyStepKeepsBounds(s.cells, config.max, Get(key), now);
    case Recheck(c, now) => LazyStepKeepsBounds(s.cells, config.max, Get(KeyOf(s, c)), now);
    case Store(c, now) =>
      LazyStepKeepsBounds(s.cells, config.max, Set(KeyOf(s, c), s.phases[c].value, config.TTL(s.phases[c].value)), now);
    case _ =>
  }

  // ---------- values are genuine ----------

  lemma CacheStaysGenuine<K(!new), V(!new)>(s: State<K, V>, config: Config<V>, e: Event<K, V>)
    requires Inv(s, config) && Enabled(s, e)
    ensures CacheGenuine(Next(s, config, e))
  {
    hide LazyStep, Dropped, P.Next, P.Inv, P.Enabled, Accounted;
    var t := Next(s, config, e);
    forall k | Find(t.cells, k).Some? ensures Genuine(t, k, Find(t.cells, k).value.value) {
      match e
      case Ask(key, now) => GetLooksUp(s.cells, config.max, key, now, k);
      case Recheck(c, now) => GetLooksUp(s.cells, config.max, KeyOf(s, c), now, k);
      case Store(c, now) =>
        assert CallGenuine(s, c);
        SetStores(s.cells, config.max, KeyOf(s, c), s.phases[c].value, config.TTL(s.phases[c].value), now, k);
      case _ =>
    }
  }

  lemma FrontsStayGenuine<K(!new), V(!new)>(s: State<K, V>, config: Config<V>, e: Event<K, V>)
    requires Inv(s, config) && Enabled(s, e)
    ensures FrontsGenuine(Next(s, config, e))
  {
    hide LazyStep, Dropped, P.Next, P.Inv, P.Enabled, Accounted;
    if e.Ask? {
      GetLooksUp(s.cells, config.max, e.key, e.now, e.key);
    }
  }

  lemma CallsStayGenuine<K(!new), V(!new)>(s: State<K, V>, config: Config<V>, e: Event<K, V>, c: nat)
    requires Inv(s, config) && Enabled(s, e) && c < |Next(s, config, e).phases|
    ensures CallGenuine(Next(s, config, e), c)
  {
    hide LazyStep, Lost, Accounted, Find, P.Inv, FrontsGenuine, P.Enabled;
    if c < |s.phases| {
      assert CallGenuine(s, c);
      if e.Recheck? {
        GetLooksUp(s.cells, config.max, KeyOf(s, e.call), e.now, KeyOf(s, e.call));
      }
    }
  }

  // ---------- every success is accounted for ----------

  lemma AbandonedStays<K(!new), V(!new)>(s: State<K, V>, config: Config<V>, e: Event<K, V>, c: nat)
    requires Shaped(s) && P.Inv(s.protocol) && Enabled(s, e) && c < |s.phases| && Abandoned(s, c)
    ensures var t := Next(s, config, e); c < |t.phases| && KeyOf(t, c) == KeyOf(s, c) && Abandoned(t, c)
  {
    hide LazyStep, Dropped, P.Attached;
    var p := s.protocol;
    assert P.Lifecycle(p, c) && P.Counted(p, c);
    if e.Enter? && s.fronts[e.front].key in p.table.calls {
      assert P.KeyOk(p, s.fronts[e.front].key);
    } else if e.Leave? && p.callers[e.caller].call == c {
      NobodyIsAttached(p, e.caller);
    }
  }

  lemma NobodyIsAttached<K, R>(p: P.State<K, R>, i: nat)
    requires i < |p.callers| && (p.callers[i].Waiting? || p.callers[i].Leaving?)
    ensures |P.Attached(p.callers, p.callers[i].call)| > 0
  {
    assert i in P.Attached(p.callers, p.callers[i].call);
  }

  /** Two loads of one key at work at the same time: one of them is abandoned. */
  lemma OnlyOneAtWork<K, V>(s: State<K, V>, c: nat, d: nat)
    requires Shaped(s) && P.Inv(s.protocol) && c < |s.phases| && d < |s.phases|
    requires KeyOf(s, c) == KeyOf(s, d) && !s.phases[c].Ended? && !s.phases[d].Ended?
    requires !Abandoned(s, c) && !Abandoned(s, d)
    ensures c == d
  {
    hide P.Attached;
    assert P.Lifecycle(s.protocol, c) && P.Counted(s.protocol, c);
    assert P.Lifecycle(s.protocol, d) && P.Counted(s.protocol, d);
  }

  lemma SpentGrows<K(!new), V(!new)>(s: State<K, V>, config: Config<V>, e: Event<K, V>, k: K)
    requires Shaped(s) && P.Inv(s.protocol) && Enabled(s, e)
    ensures Spent(s, k) <= Spent(Next(s, config, e), k)
    ensures |Spent(s, k)| <= |Spent(Next(s, config, e), k)|
  {
    hide P.Inv, LazyStep, Dropped, P.Next;
    var t := Next(s, config, e);
    forall c | c in Spent(s, k) ensures c in Spent(t, k) {
      AbandonedStays(s, config, e, c);
    }
    Smaller(Spent(s, k), Spent(t, k));
  }

  lemma {:induction false} Smaller(a: set<nat>, b: set<nat>)
    requires a <= b
    ensures |a| <= |b|
    ensures forall c :: c in b && c !in a ==> |a| + 1 <= |b|
  {
    if a != {} {
      var c :| c in a;
      Smaller(a - {c}, b - {c});
    } else if b != {} {
      var c :| c in b;
      assert |b| == |b - {c}| + 1;
    }
  }

  lemma NewlySpent<K(!new), V(!new)>(s: State<K, V>, config: Config<V>, e: Event<K, V>, k: K, c: nat)
    requires Shaped(s) && P.Inv(s.protocol) && Enabled(s, e)
    requires !IsSpent(s, k, c) && IsSpent(Next(s, config, e), k, c)
    ensures |Spent(s, k)| + 1 <= |Spent(Next(s, config, e), k)|
  {
    hide Next, Abandoned;
    SpentGrows(s, config, e, k);
    Smaller(Spent(s, k), Spent(Next(s, config, e), k));
    assert c in Spent(Next(s, config, e), k) && c !in Spent(s, k);
  }

  /** The same loads are at work for the key. */
  ghost predicate SameWork<K(!new), V(!new)>(s: State<K, V>, t: State<K, V>, key: K)
    requires Shaped(s) && Shaped(t)
  {
    forall c :: (CallsFor(s, key, c) <==> CallsFor(t, key, c)) && (StoresFor(s, key, c) <==> StoresFor(t, key, c))
  }

  /** A value the cache had for the key is still there, or counted as lost. */
  ghost predicate KeptOrLost<K(!new), V(!new)>(s: State<K, V>, t: State<K, V>, key: K) {
    && s.losses[key] <= t.losses[key]
    && (Find(s.cells, key).Some? && Find(t.cells, key).None? ==> s.losses[key] + 1 <= t.losses[key])
  }

  lemma SameWorkKeeps<K(!new), V(!new)>(s: State<K, V>, t: State<K, V>, key: K)
    requires Shaped(s) && Shaped(t) && SameWork(s, t, key) && KeptOrLost(s, t, key)
    ensures s.losses[key] + Held(s, key) <= t.losses[key] + Held(t, key)
  {
    hide CallsFor, StoresFor;
    if c :| StoresFor(s, key, c) {
      assert StoresFor(t, key, c);
    } else if c :| CallsFor(s, key, c) {
      assert CallsFor(t, key, c);
    }
  }

  lemma OnCacheKeepsOrLoses<K(!new), V(!new)>(s: State<K, V>, config: Config<V>, op: Op<K, V>, now: int, key: K)
    ensures KeptOrLost(s, OnCache(s, config, op, now), key)
    ensures op.Set? && op.key == key && Find(OnCache(s, config, op, now).cells, key).None? ==>
              s.losses[key] + 1 <= OnCache(s, config, op, now).losses[key]
  {
    hide LazyStep, Dropped;
    var after := OnCache(s, config, op, now).cells;
    if Find(s.cells, key).Some? && Find(after, key).None? {
      DroppedIsLost(s.cells, after, key);
    }
  }

  /** A load at work is the only one of its key. */
  lemma AtWorkAlone<K(!new), V(!new)>(s: State<K, V>, key: K, c: nat)
    requires Shaped(s) && P.Inv(s.protocol) && c < |s.phases| && KeyOf(s, c) == key
    requires !Abandoned(s, c) && !s.phases[c].Ended?
    ensures forall d :: CallsFor(s, key, d) || StoresFor(s, key, d) ==> d == c
  {
    hide P.Inv;
    forall d | CallsFor(s, key, d) || StoresFor(s, key, d) ensures d == c {
      OnlyOneAtWork(s, c, d);
    }
  }

  lemma AskKeeps<K(!new), V(!new)>(s: State<K, V>, config: Config<V>, key: K, now: int, k: K)
    requires Shaped(s) && P.Inv(s.protocol) && Accounted(s, k)
    ensures Accounted(Next(s, config, Ask(key, now)), k)
  {
    hide LazyStep, Lost, P.Inv, Find, Spent, Held;
    var t := Next(s, config, Ask(key, now));
    OnCacheKeepsOrLoses(s, config, Get(key), now, k);
    SpentGrows(s, config, Ask(key, now), k);
    SameWorkKeeps(s, t, k);
  }

  lemma RecheckKeeps<K(!new), V(!new)>(s: State<K, V>, config: Config<V>, call: nat, now: int, k: K)
    requires Shaped(s) && P.Inv(s.protocol) && DistinctKeys(s.cells) && Accounted(s, k)
    requires Enabled(s, Recheck(call, now))
    ensures Accounted(Next(s, config, Recheck(call, now)), k)
  {
    hide LazyStep, Lost, P.Inv, Find, Spent, Held, DistinctKeys;
    var t, key := Next(s, config, Recheck(call, now)), KeyOf(s, call);
    OnCacheKeepsOrLoses(s, config, Get(key), now, k);
    SpentGrows(s, config, Recheck(call, now), k);
    if key == k && !Abandoned(s, call) && t.phases[call].Calling? {
      AtWorkAlone(s, k, call);
      GetLooksUp(s.cells, config.max, key, now, key);
      NobodyAtWork(s, k);
      assert CallsFor(t, k, call);
    } else {
      SameWorkKeeps(s, t, k);
    }
  }

  lemma NobodyAtWork<K(!new), V(!new)>(s: State<K, V>, key: K)
    requires Shaped(s) && forall d :: !CallsFor(s, key, d) && !StoresFor(s, key, d)
    ensures Held(s, key) == if Find(s.cells, key).Some? then 1 else 0
  {
  }

  lemma OneCalls<K(!new), V(!new)>(s: State<K, V>, key: K, c: nat)
    requires Shaped(s) && CallsFor(s, key, c) && forall d :: CallsFor(s, key, d) || StoresFor(s, key, d) ==> d == c
    ensures Held(s, key) == 0
  {
  }

  lemma OneStores<K(!new), V(!new)>(s: State<K, V>, key: K, c: nat)
    requires Shaped(s) && StoresFor(s, key, c)
    ensures Held(s, key) == 1
  {
  }

  lemma AnsweredKeeps<K(!new), V(!new)>(s: State<K, V>, config: Config<V>, call: nat, value: V, k: K)
    requires Shaped(s) && P.Inv(s.protocol) && Accounted(s, k) && Enabled(s, Answered(call, value))
    ensures Accounted(Next(s, config, Answered(call, value)), k)
  {
    hide P.Inv, Find, Spent, Held;
    var e := Answered(call, value);
    var t := Next(s, config, e);
    assert t.successes[..|s.successes|] == s.successes;
    SpentGrows(s, config, e, k);
    if KeyOf(s, call) == k && !Abandoned(s, call) {
      AtWorkAlone(s, k, call);
      OneCalls(s, k, call);
      OneStores(t, k, call);
    } else {
      SameWorkKeeps(s, t, k);
      if KeyOf(s, call) == k {
        NewlySpent(s, config, e, k, call);
      }
    }
  }

  lemma CallFailsKeeps<K(!new), V(!new)>(s: State<K, V>, config: Config<V>, call: nat, k: K)
    requires Shaped(s) && P.Inv(s.protocol) && Accounted(s, k) && Enabled(s, CallFails(call))
    ensures Accounted(Next(s, config, CallFails(call)), k)
  {
    hide P.Inv, Find, Spent, Held;
    SpentGrows(s, config, CallFails(call), k);
    if KeyOf(s, call) == k && !Abandoned(s, call) {
      AtWorkAlone(s, k, call);
      OneCalls(s, k, call);
    } else {
      SameWorkKeeps(s, Next(s, config, CallFails(call)), k);
    }
  }

  lemma StoreKeeps<K(!new), V(!new)>(s: State<K, V>, config: Config<V>, call: nat, now: int, k: K)
    requires Shaped(s) && P.Inv(s.protocol) && Accounted(s, k) && Enabled(s, Store(call, now))
    ensures Accounted(Next(s, config, Store(call, now)), k)
  {
    hide LazyStep, Lost, P.Inv, Find, Spent, Held;
    var t, key, value := Next(s, config, Store(call, now)), KeyOf(s, call), s.phases[call].value;
    OnCacheKeepsOrLoses(s, config, Set(key, value, config.TTL(value)), now, k);
    SpentGrows(s, config, Store(call, now), k);
    if key == k && !Abandoned(s, call) {
      AtWorkAlone(s, k, call);
      OneStores(s, k, call);
      forall d ensures !CallsFor(t, k, d) && !StoresFor(t, k, d) {
        assert d == call || (CallsFor(t, k, d) == CallsFor(s, k, d) && StoresFor(t, k, d) == StoresFor(s, k, d));
      }
      NobodyAtWork(t, k);
    } else {
      SameWorkKeeps(s, t, k);
    }
  }

  /** The events that touch neither the cache nor the client; one of them may abandon a load. */
  lemma OtherKeeps<K(!new), V(!new)>(s: State<K, V>, config: Config<V>, e: Event<K, V>, k: K)
    requires Shaped(s) && P.Inv(s.protocol) && Accounted(s, k) && Enabled(s, e)
    requires !e.Ask? && !e.Recheck? && !e.Answered? && !e.CallFails? && !e.Store?
    ensures Accounted(Next(s, config, e), k)
  {
    hide P.Inv, Find, Spent, Held;
    var t := Next(s, config, e);
    SpentGrows(s, config, e, k);
    WorkOnlyEnds(s, config, e, k);
    if c :| StoresFor(s, k, c) {
      OneStores(s, k, c);
      if StoresFor(t, k, c) {
        OneStores(t, k, c);
      } else {
        NewlySpent(s, config, e, k, c);
      }
    } else if c :| CallsFor(s, k, c) {
      AtWorkAlone(s, k, c);
      OneCalls(s, k, c);
    } else {
      SameWorkKeeps(s, t, k);
    }
  }

  lemma WorkOnlyEnds<K(!new), V(!new)>(s: State<K, V>, config: Config<V>, e: Event<K, V>, k: K)
    requires Shaped(s) && P.Inv(s.protocol) && Enabled(s, e)
    requires !e.Ask? && !e.Recheck? && !e.Answered? && !e.CallFails? && !e.Store?
    ensures var t := Next(s, config, e);
            && (forall c :: CallsFor(t, k, c) ==> CallsFor(s, k, c))
            && (forall c :: StoresFor(t, k, c) ==> StoresFor(s, k, c))
            && (forall c :: StoresFor(s, k, c) ==> StoresFor(t, k, c) || IsSpent(t, k, c))
  {
    hide P.Inv, P.Enabled;
    var t := Next(s, config, e);
    forall c | 0 <= c < |s.phases| ensures Abandoned(s, c) ==> Abandoned(t, c) {
      if Abandoned(s, c) {
        AbandonedStays(s, config, e, c);
      }
    }
  }

  lemma StepKeeps<K(!new), V(!new)>(s: State<K, V>, config: Config<V>, e: Event<K, V>)
    requires Inv(s, config) && Enabled(s, e)
    ensures Inv(Next(s, config, e), config)
  {
    hide P.Inv, Bounded, Accounted, CacheGenuine, FrontsGenuine, CallGenuine, Next, Enabled;
    ProtocolStep(s, config, e);
    CacheStep(s, config, e);
    CacheStaysGenuine(s, config, e);
    FrontsStayGenuine(s, config, e);
    var t := Next(s, config, e);
    forall c | 0 <= c < |t.phases| ensures CallGenuine(t, c) {
      CallsStayGenuine(s, config, e, c);
    }
    DistinctOf(s.cells, config.max);
    forall k ensures Accounted(t, k) {
      match e
      case Ask(key, now) => AskKeeps(s, config, key, now, k);
      case Recheck(c, now) => RecheckKeeps(s, config, c, now, k);
      case Answered(c, value) => AnsweredKeeps(s, config, c, value, k);
      case CallFails(c) => CallFailsKeeps(s, config, c, k);
      case Store(c, now) => StoreKeeps(s, config, c, now, k);
      case _ => OtherKeeps(s, config, e, k);
    }
  }

  lemma DistinctOf<K, V>(cells: Cells<K, V>, max: nat)
    requires Bounded(cells, max)
    ensures DistinctKeys(cells)
  {
  }

  lemma {:induction false} RunKeeps<K(!new), V(!new)>(s: State<K, V>, config: Config<V>, events: seq<Event<K, V>>)
    requires Inv(s, config) && Possible(s, config, events)
    ensures Inv(After(s, config, events), config)
    decreases |events|
  {
    hide P.Inv, Bounded, AllGenuine, Accounted, Next;
    if events != [] {
      StepKeeps(s, config, events[0]);
      RunKeeps(Next(s, config, events[0]), config, events[1..]);
    }
  }

  lemma InitiallySound<K(!new), V(!new)>(config: Config<V>)
    ensures Inv(Initial<K, V>(), config)
  {
  }

  // ---------- the two theorems ----------

  /**
  However many requests race over a whole run, the client succeeds for a key at most once, plus once for every
  load of it that all callers had left and every value of it that the cache lost.
  */
  lemma SuccessesAreBounded<K(!new), V(!new)>(config: Config<V>, events: seq<Event<K, V>>, key: K)
    requires Possible(Initial(), config, events)
    ensures var t := After(Initial(), config, events);
            Count(t.successes, key) <= 1 + |AbandonedLoads(t, key)| + t.losses[key]
  {
    hide Possible, After, P.Inv, AllGenuine;
    InitiallySound<K, V>(config);
    RunKeeps(Initial<K, V>(), config, events);
    var t := After(Initial(), config, events);
    assert Accounted(t, key);
    Smaller(Spent(t, key), AbandonedLoads(t, key));
  }

  /** So a key that is never abandoned and loses nothing is loaded successfully at most once. */
  lemma AtMostOneSuccessfulCall<K(!new), V(!new)>(config: Config<V>, events: seq<Event<K, V>>, key: K)
    requires Possible(Initial(), config, events)
    requires var t := After(Initial(), config, events);
             key !in t.losses && forall c :: 0 <= c < |t.phases| && KeyOf(t, c) == key ==> !Abandoned(t, c)
    ensures Count(After(Initial(), config, events).successes, key) <= 1
  {
    hide Possible, After;
    SuccessesAreBounded(config, events, key);
    assert AbandonedLoads(After(Initial(), config, events), key) == {};
  }

  /** At any moment at most one load of a key that somebody waits for is in the client. */
  lemma OneCallInFlight<K(!new), V(!new)>(config: Config<V>, events: seq<Event<K, V>>, c: nat, d: nat)
    requires Possible(Initial(), config, events)
    requires var t := After(Initial(), config, events);
             && c < |t.phases| && d < |t.phases| && c != d && KeyOf(t, c) == KeyOf(t, d)
             && t.phases[c].Calling? && t.phases[d].Calling?
    ensures Abandoned(After(Initial(), config, events), c) || Abandoned(After(Initial(), config, events), d)
  {
    hide Possible, After, AllGenuine, P.Inv, Accounted, Abandoned;
    InitiallySound<K, V>(config);
    RunKeeps(Initial<K, V>(), config, events);
    var t := After(Initial(), config, events);
    if !Abandoned(t, c) && !Abandoned(t, d) {
      OnlyOneAtWork(t, c, d);
    }
  }

  predicate ReturnedValue<K, V>(s: State<K, V>, i: nat)
    requires i < |s.protocol.callers|
  {
    s.protocol.callers[i].Returned? && s.protocol.callers[i].outcome.Ok?
  }

  /**
  Whatever a request gets for a key, from the cache or through the coalescer, and whatever the cache holds
  for it, the client has returned for that same key; so no error is ever cached.
  */
  lemma ValuesComeFromTheClient<K(!new), V(!new)>(config: Config<V>, events: seq<Event<K, V>>)
    requires Possible(Initial(), config, events)
    ensures var t := After(Initial(), config, events);
            && (forall k :: Find(t.cells, k).Some? ==> (k, Find(t.cells, k).value.value) in t.successes)
            && (forall i :: 0 <= i < |t.fronts| && t.fronts[i].Hit? ==>
                  (t.fronts[i].key, t.fronts[i].value) in t.successes)
            && (forall i :: 0 <= i < |t.protocol.callers| && ReturnedValue(t, i) ==>
                  (t.protocol.callers[i].key, t.protocol.callers[i].outcome.value) in t.successes)
  {
    hide Possible, After, Accounted, P.CallsOk, P.KeysOk;
    InitiallySound<K, V>(config);
    RunKeeps(Initial<K, V>(), config, events);
    var t := After(Initial(), config, events);
    forall i | 0 <= i < |t.protocol.callers| && ReturnedValue(t, i)
      ensures (t.protocol.callers[i].key, t.protocol.callers[i].outcome.value) in t.successes
    {
      assert P.CallerOk(t.protocol, i);
      assert CallGenuine(t, t.protocol.callers[i].call);
    }
  }
}
