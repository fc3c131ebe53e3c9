/**
What decides how a load of the service ends: the value its second look into the cache found, the value the client
returned for that very call, or the failure of that very call. Nothing else, and each of them always.
*/
module ServiceOutcomes {
  import opened Common
  import opened CacheSpec
  import opened Deadlines
  import opened ServiceProtocol
  import P = CoalescerProtocol

  /** What the cache shows for a key at an instant. */
  function FoundNow<K(==), V>(cells: Cells<K, V>, key: K, now: int): Option<V> {
    match Find(cells, key)
    case Some(cell) => if now < cell.expiresAt then Some(cell.value) else None
    case None => None
  }

  /** The end of a load that an event decides. */
  ghost function Decided<K, V>(s: State<K, V>, e: Event<K, V>, c: nat): Option<Loaded<V>>
    requires Shaped(s)
  {
    match e
    case Recheck(d, now) =>
      if d == c < |s.phases| && FoundNow(s.cells, KeyOf(s, c), now).Some?
      then Some(Ok(FoundNow(s.cells, KeyOf(s, c), now).value)) else None
    case Answered(d, value) => if d == c then Some(Ok(value)) else None
    case CallFails(d) => if d == c then Some(Err(Failure)) else None
    case _ => None
  }

  /** How a load will end or has ended, as far as that is settled. */
  ghost function Settled<K, V>(s: State<K, V>, c: nat): Option<Loaded<V>>
    requires Shaped(s)
  {
    if c >= |s.phases| then None
    else match s.phases[c]
         case Rechecking => None
         case Calling => None
         case Storing(value) => Some(Ok(value))
         case Finishing(result) => Some(result)
         case Ended => s.protocol.table.pool[c].outcome
  }

  /** An event settles the end of a load exactly when it decides it, and no event decides it again. */
  lemma StepSettles<K(!new), V(!new)>(s: State<K, V>, config: Config<V>, e: Event<K, V>, c: nat)
    requires Inv(s, config) && Enabled(s, e)
    ensures Settled(Next(s, config, e), c) == if Settled(s, c).Some? then Settled(s, c) else Decided(s, e, c)
    ensures Settled(s, c).Some? ==> Decided(s, e, c) == None
  {
    hide LazyStep, Lost, Accounted, AllGenuine, Find, P.Inv, P.Next, P.Enabled, P.Continues;
    if c < |s.phases| {
      OutcomesStay(s, config, e, c);
    }
    if e.Recheck? {
      RecheckFinds(s.cells, config.max, KeyOf(s, e.call), e.now);
    }
  }

  lemma OutcomesStay<K(!new), V(!new)>(s: State<K, V>, config: Config<V>, e: Event<K, V>, c: nat)
    requires Shaped(s) && P.Inv(s.protocol) && Enabled(s, e) && c < |s.phases|
    ensures s.phases[c].Ended? ==> s.protocol.table.pool[c].outcome.Some?
    ensures s.phases[c].Ended? ==>
              Next(s, config, e).protocol.table.pool[c].outcome == s.protocol.table.pool[c].outcome
    ensures e == Return(c) ==> Next(s, config, e).protocol.table.pool[c].outcome == Some(s.phases[c].result)
  {
    hide LazyStep, Lost, P.CallersOk, P.KeysOk;
    assert P.Lifecycle(s.protocol, c);
    if Projected(s, e).Some? {
      P.StepContinues(s.protocol, Projected(s, e).value);
    }
  }

  lemma RecheckFinds<K, V>(cells: Cells<K, V>, max: nat, key: K, now: int)
    ensures LazyStep(cells, max, Get(key), now).1 ==
              match FoundNow(cells, key, now) case Some(value) => Found(value) case None => Missing
  {
  }

  ghost function StateAt<K(!new), V(!new)>(
      s: State<K, V>, config: Config<V>, events: seq<Event<K, V>>, n: nat): (t: State<K, V>)
    requires Shaped(s) && Possible(s, config, events) && n <= |events|
    ensures Shaped(t)
    decreases n
  {
    if n == 0 then s else StateAt(Next(s, config, events[0]), config, events[1..], n - 1)
  }

  /** Some event of the run decides that the load ends so. */
  ghost predicate Happens<K(!new), V(!new)>(
      s: State<K, V>, config: Config<V>, events: seq<Event<K, V>>, c: nat, end: Loaded<V>)
    requires Shaped(s) && Possible(s, config, events)
  {
    exists n: nat :: n < |events| && Decided(StateAt(s, config, events, n), events[n], c) == Some(end)
  }

  lemma {:induction false} RunSettles<K(!new), V(!new)>(
      s: State<K, V>, config: Config<V>, events: seq<Event<K, V>>, c: nat, end: Loaded<V>)
    requires Inv(s, config) && Possible(s, config, events)
    ensures Settled(After(s, config, events), c) == Some(end) <==>
              Settled(s, c) == Some(end) || (Settled(s, c).None? && Happens(s, config, events, c, end))
    ensures Settled(s, c).Some? ==> !Happens(s, config, events, c, end)
    decreases |events|
  {
    hide P.Inv, Bounded, AllGenuine, Accounted, Next, Decided, Settled;
    if events != [] {
      var next, rest := Next(s, config, events[0]), events[1..];
      StepSettles(s, config, events[0], c);
      StepKeeps(s, config, events[0]);
      RunSettles(next, config, rest, c, end);
      HappensNowOrLater(s, config, events, c, end);
    }
  }

  lemma HappensNowOrLater<K(!new), V(!new)>(
      s: State<K, V>, config: Config<V>, events: seq<Event<K, V>>, c: nat, end: Loaded<V>)
    requires Shaped(s) && Possible(s, config, events) && events != []
    ensures Happens(s, config, events, c, end) <==>
              || Decided(s, events[0], c) == Some(end)
              || Happens(Next(s, config, events[0]), config, events[1..], c, end)
  {
    hide Next, Enabled, Decided;
    var next, rest := Next(s, config, events[0]), events[1..];
    assert StateAt(s, config, events, 0) == s;
    forall n: nat | n < |rest|
      ensures StateAt(s, config, events, n + 1) == StateAt(next, config, rest, n) && events[n + 1] == rest[n]
    {
    }
    if n: nat :| n < |rest| && Decided(StateAt(next, config, rest, n), rest[n], c) == Some(end) {
      var m := n + 1;
      assert Decided(StateAt(s, config, events, m), events[m], c) == Some(end);
    }
    if m: nat :| m < |events| && Decided(StateAt(s, config, events, m), events[m], c) == Some(end) {
      if m > 0 {
        var n := m - 1;
        assert Decided(StateAt(next, config, rest, n), rest[n], c) == Some(end);
      }
    }
  }

  // ---------- what it means for loads and callers ----------

  /**
  A load that has returned ended as it did exactly because of what happened to it: its second look found the
  value, or the client returned the value for that call, or that call to the client failed.
  */
  lemma LoadsEndAsDecided<K(!new), V(!new)>(config: Config<V>, events: seq<Event<K, V>>, c: nat, end: Loaded<V>)
    requires Possible(Initial(), config, events) && c < |After(Initial(), config, events).phases|
    requires After(Initial(), config, events).phases[c].Ended?
    ensures After(Initial(), config, events).protocol.table.pool[c].outcome == Some(end) <==>
              Happens(Initial(), config, events, c, end)
  {
    hide Inv, Next, Enabled, Decided, Happens;
    InitiallySound<K, V>(config);
    RunSettles(Initial<K, V>(), config, events, c, end);
  }

  ghost predicate ReturnedWith<K, V>(t: State<K, V>, i: nat, end: Loaded<V>) {
    && i < |t.protocol.callers| && t.protocol.callers[i].Returned? && t.protocol.callers[i].outcome == end
  }

  lemma ReturnedMeansEnded<K(!new), V(!new)>(t: State<K, V>, config: Config<V>, i: nat, end: Loaded<V>)
    requires Inv(t, config) && ReturnedWith(t, i, end)
    ensures var c := t.protocol.callers[i].call; c < |t.phases| && Settled(t, c) == Some(end)
  {
    assert P.CallerOk(t.protocol, i);
    assert P.Lifecycle(t.protocol, t.protocol.callers[i].call);
  }

  /** A caller that returns from a load has what was decided for the very call it joined. */
  lemma CallersReturnWhatWasDecided<K(!new), V(!new)>(
      config: Config<V>, events: seq<Event<K, V>>, i: nat, end: Loaded<V>)
    requires Possible(Initial(), config, events) && ReturnedWith(After(Initial(), config, events), i, end)
    ensures Happens(Initial(), config, events, After(Initial(), config, events).protocol.callers[i].call, end)
  {
    hide Inv, Next, Enabled, Decided, Happens, Settled;
    InitiallySound<K, V>(config);
    RunKeeps(Initial<K, V>(), config, events);
    var t := After(Initial<K, V>(), config, events);
    ReturnedMeansEnded(t, config, i, end);
    RunSettles(Initial<K, V>(), config, events, t.protocol.callers[i].call, end);
    NothingSettledYet<K, V>(t.protocol.callers[i].call);
  }

  lemma NothingSettledYet<K(!new), V(!new)>(c: nat)
    ensures Settled(Initial<K, V>(), c) == None
  {
  }

  /** So an error returned means that the client failed for the very call the caller had joined. */
  lemma ErrorsComeFromFailedCalls<K(!new), V(!new)>(config: Config<V>, events: seq<Event<K, V>>, i: nat)
    requires Possible(Initial(), config, events) && ReturnedWith(After(Initial(), config, events), i, Err(Failure))
    ensures CallFails(After(Initial(), config, events).protocol.callers[i].call) in events
  {
    hide Inv, Next, Enabled;
    CallersReturnWhatWasDecided(config, events, i, Err(Failure));
    var c := After(Initial(), config, events).protocol.callers[i].call;
    var n: nat :| n < |events| &&
      Decided(StateAt(Initial<K, V>(), config, events, n), events[n], c) == Some(Err(Failure));
    assert events[n] == CallFails(c);
  }

  // ---------- what requests and loads do to the cache ----------

  /** A request is answered from the cache exactly when it shows the key, and otherwise goes on to the coalescer. */
  lemma RequestsAskTheCacheFirst<K(!new), V(!new)>(s: State<K, V>, config: Config<V>, key: K, now: int)
    requires Shaped(s)
    ensures Next(s, config, Ask(key, now)).fronts ==
              s.fronts + [match FoundNow(s.cells, key, now)
                          case Some(value) => Hit(key, value)
                          case None => Missed(key)]
  {
    hide LazyStep, Lost;
    RecheckFinds(s.cells, config.max, key, now);
  }

  /** An answer is stored for the lifetime of its kind: empty ones for the negative, others for the positive. */
  lemma AnswersAreStored<K(!new), V(!new)>(s: State<K, V>, config: Config<V>, c: nat, now: int)
    requires Inv(s, config) && Enabled(s, Store(c, now)) && config.max > 0
    ensures var value := s.phases[c].value;
            var lifetime := if config.empty(value) then config.negativeTTL else config.positiveTTL;
            Find(Next(s, config, Store(c, now)).cells, KeyOf(s, c)) ==
              if lifetime > 0 then Some(Cell(KeyOf(s, c), value, now + lifetime)) else None
  {
    hide AllGenuine, Accounted, P.Inv, P.Enabled;
    var value := s.phases[c].value;
    if config.TTL(value) > 0 {
      SetKeyIsStored(s.cells, config.max, KeyOf(s, c), value, config.TTL(value), now);
    } else {
      FindWithout(s.cells, KeyOf(s, c), KeyOf(s, c));
    }
  }
}
