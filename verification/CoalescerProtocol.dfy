/**
The coalescer as a protocol: any number of callers and keys, and any interleaving of the steps that the
mutex and the channels make atomic. A caller joins or starts a call, then leaves it through the closed
done channel or through its own context; in the second case the detach is a step of its own, so the load
may return in between. A load returns once, at any time, also after every caller has left.
*/
module CoalescerProtocol {
  import opened Common
  import opened Deadlines
  import opened CallTable

  datatype Caller<K, R> =
    | Refused                                                         // came with a context already done
    | Waiting(key: K, call: nat, waiter: nat, budget: Budget)         // in the select
    | Leaving(key: K, call: nat, waiter: nat, budget: Budget)         // chose its context, detach pending
    | Returned(key: K, call: nat, outcome: R)
    | GaveUp(key: K, call: nat)
  {
    predicate On(c: nat) {
      (Waiting? || Leaving?) && call == c
    }
  }

  /** The goroutine of a call. */
  datatype Load<K> = Load(key: K, running: bool)

  datatype State<K, R> = State(table: Table<K, R>, loads: seq<Load<K>>, callers: seq<Caller<K, R>>, baseCancelled: bool)

  datatype Event<K, R> =
    | Refuse
    | Arrive(key: K, budget: Budget)
    | LoadReturns(call: nat, outcome: R)
    | TakeResult(caller: nat)
    | ContextDone(caller: nat)
    | Leave(caller: nat)
    | CancelBase

  function Initial<K, R>(): State<K, R> {
    State(Table(map[], []), [], [], false)
  }

  ghost predicate Shaped<K, R>(s: State<K, R>) {
    && WellFormed(s.table) && |s.loads| == |s.table.pool|
    && forall i :: 0 <= i < |s.callers| && (s.callers[i].Waiting? || s.callers[i].Leaving?) ==>
         s.callers[i].call < |s.loads|
  }

  ghost predicate Enabled<K, R>(s: State<K, R>, e: Event<K, R>)
    requires Shaped(s)
  {
    match e
    case LoadReturns(c, _) => c < |s.loads| && s.loads[c].running
    case TakeResult(i) =>
      i < |s.callers| && s.callers[i].Waiting? && s.table.pool[s.callers[i].call].outcome.Some?
    case ContextDone(i) => i < |s.callers| && s.callers[i].Waiting?
    case Leave(i) => i < |s.callers| && s.callers[i].Leaving?
    case _ => true
  }

  ghost function Next<K, R>(s: State<K, R>, e: Event<K, R>): (t: State<K, R>)
    requires Shaped(s) && Enabled(s, e)
    ensures Shaped(t)
  {
    match e
    case Refuse => s.(callers := s.callers + [Refused])
    case Arrive(key, budget) =>
      var c, table := JoinedCall(s.table, key), Join(s.table, key, budget);
      s.(table := table,
         loads := if key in s.table.calls then s.loads else s.loads + [Load(key, true)],
         callers := s.callers + [Waiting(key, c, table.pool[c].nextWaiterID, budget)])
    case LoadReturns(c, outcome) =>
      s.(table := Finish(s.table, s.loads[c].key, c, outcome), loads := s.loads[c := s.loads[c].(running := false)])
    case TakeResult(i) =>
      var x := s.callers[i];
      s.(callers := s.callers[i := Returned(x.key, x.call, s.table.pool[x.call].outcome.value)])
    case ContextDone(i) =>
      var x := s.callers[i];
      s.(callers := s.callers[i := Leaving(x.key, x.call, x.waiter, x.budget)])
    case Leave(i) =>
      var x := s.callers[i];
      s.(table := Detach(s.table, x.key, x.call, x.waiter), callers := s.callers[i := GaveUp(x.key, x.call)])
    case CancelBase => s.(baseCancelled := true)
  }

  // ---------- runs ----------

  ghost predicate Possible<K, R>(s: State<K, R>, events: seq<Event<K, R>>)
    requires Shaped(s)
    decreases |events|
  {
    events == [] || (Enabled(s, events[0]) && Possible(Next(s, events[0]), events[1..]))
  }

  ghost function After<K, R>(s: State<K, R>, events: seq<Event<K, R>>): (t: State<K, R>)
    requires Shaped(s) && Possible(s, events)
    decreases |events|
  {
    if events == [] then s else After(Next(s, events[0]), events[1..])
  }

  ghost predicate Reachable<K(!new), R(!new)>(s: State<K, R>) {
    Shaped(s) && exists events: seq<Event<K, R>> :: Possible(Initial(), events) && After(Initial(), events) == s
  }

  // ---------- the invariant ----------

  /** The callers that have joined the call and not yet left it. */
  function Attached<K, R>(callers: seq<Caller<K, R>>, c: nat): set<nat> {
    set i | 0 <= i < |callers| && callers[i].On(c)
  }

  /** done is closed exactly when the load has returned; a live call is the one under its key. */
  ghost predicate Lifecycle<K, R>(s: State<K, R>, c: nat)
    requires Shaped(s) && c < |s.loads|
  {
    var call, load := s.table.pool[c], s.loads[c];
    && (load.running <==> call.outcome.None?)
    && call.closes == (if load.running then 0 else 1) && (!load.running ==> call.cancelled)
    && (load.running && !call.cancelled ==> load.key in s.table.calls && s.table.calls[load.key] == c)
  }

  /** Until the load has returned the counts are right, and the call is cancelled when the last caller leaves. */
  ghost predicate Counted<K, R>(s: State<K, R>, c: nat)
    requires Shaped(s) && c < |s.loads|
  {
    var call := s.table.pool[c];
    s.loads[c].running ==>
      && call.waiters == |call.budgets| == |Attached(s.callers, c)|
      && (call.cancelled <==> call.waiters == 0)
  }

  ghost predicate Numbered<K, R>(s: State<K, R>, c: nat)
    requires Shaped(s) && c < |s.loads|
  {
    forall w :: w in s.table.pool[c].budgets ==> w <= s.table.pool[c].nextWaiterID
  }

  ghost predicate CallerOk<K, R>(s: State<K, R>, i: nat)
    requires Shaped(s) && i < |s.callers|
  {
    var x := s.callers[i];
    if x.Refused? then true
    else
      && x.call < |s.loads| && s.loads[x.call].key == x.key
      && var call := s.table.pool[x.call];
      && (x.Returned? ==> call.outcome == Some(x.outcome))
      && (x.On(x.call) ==> x.waiter <= call.nextWaiterID)
      && (x.On(x.call) && s.loads[x.call].running ==> x.waiter in call.budgets && call.budgets[x.waiter] == x.budget)
  }

  predicate Apart<K, R>(callers: seq<Caller<K, R>>, i: nat, j: nat)
    requires i < |callers| && j < |callers|
  {
    var x, y := callers[i], callers[j];
    i != j && (x.Waiting? || x.Leaving?) && y.On(x.call) ==> x.waiter != y.waiter
  }

  ghost predicate KeyOk<K, R>(s: State<K, R>, key: K)
    requires Shaped(s) && key in s.table.calls
  {
    var c := s.table.calls[key];
    s.loads[c] == Load(key, true) && !s.table.pool[c].cancelled
  }

  ghost predicate CallsOk<K, R>(s: State<K, R>)
    requires Shaped(s)
  {
    forall c :: 0 <= c < |s.loads| ==> Lifecycle(s, c) && Counted(s, c) && Numbered(s, c)
  }

  ghost predicate CallersOk<K, R>(s: State<K, R>)
    requires Shaped(s)
  {
    && (forall i :: 0 <= i < |s.callers| ==> CallerOk(s, i))
    && (forall i, j :: 0 <= i < |s.callers| && 0 <= j < |s.callers| ==> Apart(s.callers, i, j))
  }

  ghost predicate KeysOk<K, R>(s: State<K, R>)
    requires Shaped(s)
  {
    forall key :: key in s.table.calls ==> KeyOk(s, key)
  }

  ghost predicate Inv<K, R>(s: State<K, R>) {
    Shaped(s) && CallsOk(s) && CallersOk(s) && KeysOk(s)
  }

  // ---------- counting ----------

  lemma AttachedPush<K, R>(callers: seq<Caller<K, R>>, x: Caller<K, R>, c: nat)
    ensures Attached(callers + [x], c) == Attached(callers, c) + if x.On(c) then {|callers|} else {}
    ensures |Attached(callers + [x], c)| == |Attached(callers, c)| + if x.On(c) then 1 else 0
  {
    assert |callers| !in Attached(callers, c);
    assert Attached(callers + [x], c) == Attached(callers, c) + if x.On(c) then {|callers|} else {};
  }

  lemma AttachedSwap<K, R>(callers: seq<Caller<K, R>>, i: nat, x: Caller<K, R>, c: nat)
    requires i < |callers| && callers[i].On(c) == x.On(c)
    ensures Attached(callers[i := x], c) == Attached(callers, c)
  {
  }

  lemma AttachedDrop<K, R>(callers: seq<Caller<K, R>>, i: nat, x: Caller<K, R>, c: nat)
    requires i < |callers| && callers[i].On(c) && !x.On(c)
    ensures |Attached(callers[i := x], c)| == |Attached(callers, c)| - 1
  {
    assert Attached(callers[i := x], c) == Attached(callers, c) - {i};
  }

  lemma BudgetsPush(budgets: Budgets, w: nat, budget: Budget)
    requires w !in budgets
    ensures |budgets[w := budget]| == |budgets| + 1
  {
    assert budgets[w := budget].Keys == budgets.Keys + {w};
  }

  lemma BudgetsDrop(budgets: Budgets, w: nat)
    requires w in budgets
    ensures |budgets - {w}| == |budgets| - 1
  {
    assert (budgets - {w}).Keys == budgets.Keys - {w};
  }

  // ---------- every step keeps the invariant ----------

  /** A call that the newcomer does not join. */
  lemma ArriveKeepsOther<K, R>(s: State<K, R>, key: K, budget: Budget, c: nat)
    requires Inv(s) && c < |s.loads| && c != JoinedCall(s.table, key)
    ensures var t := Next(s, Arrive(key, budget)); Lifecycle(t, c) && Counted(t, c) && Numbered(t, c)
  {
    hide Attached, CallersOk;
    var t := Next(s, Arrive(key, budget));
    AttachedPush(s.callers, t.callers[|s.callers|], c);
    assert Lifecycle(s, c) && Counted(s, c) && Numbered(s, c);
  }

  lemma ArriveKeepsJoined<K, R>(s: State<K, R>, key: K, budget: Budget)
    requires Inv(s)
    ensures var t, c := Next(s, Arrive(key, budget)), JoinedCall(s.table, key);
            Lifecycle(t, c) && Counted(t, c) && Numbered(t, c)
  {
    hide Attached, CallersOk, CallsOk, KeysOk;
    var t, c := Next(s, Arrive(key, budget)), JoinedCall(s.table, key);
    var x := t.callers[|s.callers|];
    AttachedPush(s.callers, x, c);
    if key in s.table.calls {
      KeysOkAt(s, key);
      CallsOkAt(s, c);
      BudgetsPush(s.table.pool[c].budgets, x.waiter, budget);
    } else {
      NobodyYet(s, c);
    }
  }

  lemma KeysOkAt<K, R>(s: State<K, R>, key: K)
    requires Shaped(s) && KeysOk(s) && key in s.table.calls
    ensures KeyOk(s, key)
  {
  }

  lemma NobodyYet<K, R>(s: State<K, R>, c: nat)
    requires Shaped(s) && c >= |s.loads|
    ensures Attached(s.callers, c) == {}
  {
  }

  lemma ArriveKeepsCalls<K, R>(s: State<K, R>, key: K, budget: Budget)
    requires Inv(s)
    ensures CallsOk(Next(s, Arrive(key, budget))) && KeysOk(Next(s, Arrive(key, budget)))
  {
    hide Attached, CallersOk, Lifecycle, Counted, Numbered, CallsOk;
    var t := Next(s, Arrive(key, budget));
    assert CallsOk(t) by {
      hide Next;
      forall c | 0 <= c < |t.loads| ensures Lifecycle(t, c) && Counted(t, c) && Numbered(t, c) {
        if c == JoinedCall(s.table, key) {
          ArriveKeepsJoined(s, key, budget);
        } else {
          ArriveKeepsOther(s, key, budget, c);
        }
      }
      AllCallsOk(t);
    }
    forall k | k in t.table.calls ensures KeyOk(t, k) {
      assert k in s.table.calls ==> KeyOk(s, k);
    }
  }

  lemma AllCallsOk<K, R>(s: State<K, R>)
    requires Shaped(s) && forall c :: 0 <= c < |s.loads| ==> Lifecycle(s, c) && Counted(s, c) && Numbered(s, c)
    ensures CallsOk(s)
  {
  }

  lemma ArriveKeepsCallers<K, R>(s: State<K, R>, key: K, budget: Budget)
    requires Inv(s)
    ensures CallersOk(Next(s, Arrive(key, budget)))
  {
    hide Attached, CallsOk;
    var t, n := Next(s, Arrive(key, budget)), |s.callers|;
    assert key in s.table.calls ==> KeyOk(s, key) && Numbered(s, s.table.calls[key]) by {
      assert KeysOk(s) && CallsOk(s);
      CallsOkAt(s, if key in s.table.calls then s.table.calls[key] else 0);
    }
    forall i | 0 <= i < |t.callers| ensures CallerOk(t, i) {
      assert i < n ==> CallerOk(s, i);
    }
    forall i, j | 0 <= i < |t.callers| && 0 <= j < |t.callers| ensures Apart(t.callers, i, j) {
      assert i < n ==> CallerOk(s, i);
      assert j < n ==> CallerOk(s, j);
      assert i < n && j < n ==> Apart(s.callers, i, j);
    }
  }

  lemma CallersOkAt<K, R>(s: State<K, R>, i: nat)
    requires Shaped(s) && CallersOk(s) && i < |s.callers|
    ensures CallerOk(s, i)
  {
  }

  lemma CallsOkAt<K, R>(s: State<K, R>, c: nat)
    requires Shaped(s) && CallsOk(s)
    ensures c < |s.loads| ==> Lifecycle(s, c) && Counted(s, c) && Numbered(s, c)
  {
  }

  lemma LoadReturnsKeepsCalls<K, R>(s: State<K, R>, call: nat, outcome: R)
    requires Inv(s) && Enabled(s, LoadReturns(call, outcome))
    ensures var t := Next(s, LoadReturns(call, outcome)); CallsOk(t) && KeysOk(t)
  {
    hide Attached, CallersOk;
    var t := Next(s, LoadReturns(call, outcome));
    forall c | 0 <= c < |t.loads| ensures Lifecycle(t, c) && Counted(t, c) && Numbered(t, c) {
      assert Lifecycle(s, c) && Counted(s, c) && Numbered(s, c);
    }
    forall k | k in t.table.calls ensures KeyOk(t, k) {
      assert KeyOk(s, k);
    }
  }

  lemma LoadReturnsKeeps<K, R>(s: State<K, R>, call: nat, outcome: R)
    requires Inv(s) && Enabled(s, LoadReturns(call, outcome))
    ensures Inv(Next(s, LoadReturns(call, outcome)))
  {
    hide Attached, CallsOk, KeysOk;
    var t := Next(s, LoadReturns(call, outcome));
    LoadReturnsKeepsCalls(s, call, outcome);
    CallsOkAt(s, call);
    forall i | 0 <= i < |t.callers| ensures CallerOk(t, i) {
      assert CallerOk(s, i);
    }
  }

  /** TakeResult, ContextDone and Refuse leave the table alone. */
  lemma TakeResultKeeps<K, R>(s: State<K, R>, caller: nat)
    requires Inv(s) && Enabled(s, TakeResult(caller))
    ensures Inv(Next(s, TakeResult(caller)))
  {
    hide Attached;
    var t := Next(s, TakeResult(caller));
    var x := s.callers[caller];
    forall c | 0 <= c < |t.loads| ensures Lifecycle(t, c) && Counted(t, c) && Numbered(t, c) {
      assert Lifecycle(s, c) && Counted(s, c) && Numbered(s, c);
      if c != x.call {
        AttachedSwap(s.callers, caller, t.callers[caller], c);
      }
    }
    assert CallerOk(s, caller);
    CallersStay(s, t, caller);
    forall k | k in t.table.calls ensures KeyOk(t, k) {
      assert KeyOk(s, k);
    }
  }

  lemma ContextDoneKeeps<K, R>(s: State<K, R>, caller: nat)
    requires Inv(s) && Enabled(s, ContextDone(caller))
    ensures Inv(Next(s, ContextDone(caller)))
  {
    hide Attached;
    var t := Next(s, ContextDone(caller));
    forall c | 0 <= c < |t.loads| ensures Lifecycle(t, c) && Counted(t, c) && Numbered(t, c) {
      assert Lifecycle(s, c) && Counted(s, c) && Numbered(s, c);
      AttachedSwap(s.callers, caller, t.callers[caller], c);
    }
    assert CallerOk(s, caller);
    CallersStay(s, t, caller);
    forall k | k in t.table.calls ensures KeyOk(t, k) {
      assert KeyOk(s, k);
    }
  }

  lemma CallersStay<K, R>(s: State<K, R>, t: State<K, R>, caller: nat)
    requires Shaped(s) && CallersOk(s) && Shaped(t) && t.table == s.table && t.loads == s.loads
    requires caller < |s.callers| == |t.callers| && t.callers == s.callers[caller := t.callers[caller]]
    requires CallerOk(t, caller)
    requires s.callers[caller].Waiting?
    requires var x, y := s.callers[caller], t.callers[caller];
             y.Returned? || (y.Leaving? && y.call == x.call && y.waiter == x.waiter)
    ensures CallersOk(t)
  {
    forall i | 0 <= i < |t.callers| ensures CallerOk(t, i) {
      assert CallerOk(s, i);
    }
    forall i, j | 0 <= i < |t.callers| && 0 <= j < |t.callers| ensures Apart(t.callers, i, j) {
      assert Apart(s.callers, i, j);
    }
  }

  lemma LeaveKeepsCall<K, R>(s: State<K, R>, caller: nat, c: nat)
    requires Inv(s) && Enabled(s, Leave(caller)) && c < |s.loads|
    ensures var t := Next(s, Leave(caller)); Lifecycle(t, c) && Counted(t, c) && Numbered(t, c)
  {
    hide Attached, KeysOk, CallsOk, CallersOk;
    var t := Next(s, Leave(caller));
    var x := s.callers[caller];
    CallersOkAt(s, caller);
    CallsOkAt(s, c);
    if c != x.call {
      AttachedSwap(s.callers, caller, t.callers[caller], c);
    } else if s.loads[c].running {
      AttachedDrop(s.callers, caller, t.callers[caller], c);
      BudgetsDrop(s.table.pool[c].budgets, x.waiter);
    }
  }

  lemma LeaveKeepsCallers<K, R>(s: State<K, R>, caller: nat)
    requires Inv(s) && Enabled(s, Leave(caller))
    ensures CallersOk(Next(s, Leave(caller)))
  {
    hide Attached, Counted, Numbered, KeysOk;
    var t := Next(s, Leave(caller));
    var x := s.callers[caller];
    assert CallerOk(s, caller) && Lifecycle(s, x.call);
    forall i | 0 <= i < |t.callers| ensures CallerOk(t, i) {
      assert CallerOk(s, i) && Apart(s.callers, caller, i);
    }
    forall i, j | 0 <= i < |t.callers| && 0 <= j < |t.callers| ensures Apart(t.callers, i, j) {
      assert Apart(s.callers, i, j);
    }
  }

  lemma LeaveKeeps<K, R>(s: State<K, R>, caller: nat)
    requires Inv(s) && Enabled(s, Leave(caller))
    ensures Inv(Next(s, Leave(caller)))
  {
    hide Attached, CallersOk, Lifecycle, Counted, Numbered;
    var t := Next(s, Leave(caller));
    forall c | 0 <= c < |t.loads| ensures Lifecycle(t, c) && Counted(t, c) && Numbered(t, c) {
      LeaveKeepsCall(s, caller, c);
    }
    LeaveKeepsCallers(s, caller);
    assert CallerOk(s, caller) by {
      CallersOkAt(s, caller);
    }
    forall k | k in t.table.calls ensures KeyOk(t, k) {
      assert KeyOk(s, k);
    }
  }

  lemma RefuseKeeps<K, R>(s: State<K, R>)
    requires Inv(s)
    ensures Inv(Next(s, Refuse))
  {
    hide Attached;
    var t := Next(s, Refuse);
    forall c | 0 <= c < |t.loads| ensures Lifecycle(t, c) && Counted(t, c) && Numbered(t, c) {
      assert Lifecycle(s, c) && Counted(s, c) && Numbered(s, c);
      AttachedPush(s.callers, Refused, c);
    }
    forall i | 0 <= i < |t.callers| ensures CallerOk(t, i) {
      assert i < |s.callers| ==> CallerOk(s, i);
    }
    forall i, j | 0 <= i < |t.callers| && 0 <= j < |t.callers| ensures Apart(t.callers, i, j) {
      assert i < |s.callers| && j < |s.callers| ==> Apart(s.callers, i, j);
    }
    forall k | k in t.table.calls ensures KeyOk(t, k) {
      assert KeyOk(s, k);
    }
  }

  lemma StepKeeps<K, R>(s: State<K, R>, e: Event<K, R>)
    requires Inv(s) && Enabled(s, e)
    ensures Inv(Next(s, e))
  {
    hide CallsOk, CallersOk, KeysOk;
    match e
    case Refuse => RefuseKeeps(s);
    case Arrive(key, budget) =>
      ArriveKeepsCalls(s, key, budget);
      ArriveKeepsCallers(s, key, budget);
    case LoadReturns(c, outcome) => LoadReturnsKeeps(s, c, outcome);
    case TakeResult(i) => TakeResultKeeps(s, i);
    case ContextDone(i) => ContextDoneKeeps(s, i);
    case Leave(i) => LeaveKeeps(s, i);
    case CancelBase => CancelBaseKeeps(s);
  }

  lemma CancelBaseKeeps<K, R>(s: State<K, R>)
    requires Inv(s)
    ensures Inv(Next(s, CancelBase))
  {
    var t := Next(s, CancelBase);
    forall c | 0 <= c < |t.loads| ensures Lifecycle(t, c) && Counted(t, c) && Numbered(t, c) {
      assert Lifecycle(s, c) && Counted(s, c) && Numbered(s, c);
    }
    forall i | 0 <= i < |t.callers| ensures CallerOk(t, i) {
      assert CallerOk(s, i);
    }
    forall k | k in t.table.calls ensures KeyOk(t, k) {
      assert KeyOk(s, k);
    }
  }

  lemma {:induction false} RunKeeps<K, R>(s: State<K, R>, events: seq<Event<K, R>>)
    requires Inv(s) && Possible(s, events)
    ensures Inv(After(s, events))
    decreases |events|
  {
    hide CallsOk, CallersOk, KeysOk;
    if events != [] {
      StepKeeps(s, events[0]);
      RunKeeps(Next(s, events[0]), events[1..]);
    }
  }

  /** The invariant holds in every state of every run. */
  lemma ReachableIsSound<K(!new), R(!new)>(s: State<K, R>)
    requires Reachable(s)
    ensures Inv(s)
  {
    var events: seq<Event<K, R>> :| Possible(Initial(), events) && After(Initial(), events) == s;
    RunKeeps(Initial<K, R>(), events);
  }

  // ---------- what it means ----------

  /** Neither completed nor cancelled by the coalescer. */
  predicate Live<K, R>(s: State<K, R>, c: nat)
    requires c < |s.table.pool|
  {
    s.table.pool[c].outcome.None? && !s.table.pool[c].cancelled
  }

  /** Each key has at most one live call, and that is exactly the one the map holds. */
  lemma OneLiveCallPerKey<K(!new), R(!new)>(s: State<K, R>, c: nat, d: nat)
    requires Reachable(s) && c < |s.loads| && d < |s.loads|
    ensures |s.loads| == |s.table.pool|
    ensures Live(s, c) <==> s.loads[c].key in s.table.calls && s.table.calls[s.loads[c].key] == c
    ensures Live(s, c) && Live(s, d) && s.loads[c].key == s.loads[d].key ==> c == d
    ensures forall k :: k in s.table.calls ==> s.table.calls[k] < |s.loads| && s.loads[s.table.calls[k]].key == k
  {
    ReachableIsSound(s);
    assert Lifecycle(s, c) && Lifecycle(s, d);
    assert forall k :: k in s.table.calls ==> KeyOk(s, k);
    assert s.loads[c].key in s.table.calls ==> KeyOk(s, s.loads[c].key);
  }

  /** done is closed once, when the load returns, so a second close never happens; the load's context ends with it. */
  lemma DoneClosesOnce<K(!new), R(!new)>(s: State<K, R>, c: nat)
    requires Reachable(s) && c < |s.table.pool|
    ensures s.table.pool[c].closes == if s.table.pool[c].outcome.Some? then 1 else 0
    ensures s.table.pool[c].outcome.Some? ==> s.table.pool[c].cancelled
    ensures forall outcome :: Enabled(s, LoadReturns(c, outcome)) ==> s.table.pool[c].closes == 0
  {
    ReachableIsSound(s);
    assert Lifecycle(s, c);
  }

  ghost predicate HeldBy<K, R>(s: State<K, R>, c: nat, w: nat, budget: Budget) {
    exists i :: i in Attached(s.callers, c) && s.callers[i].waiter == w && s.callers[i].budget == budget
  }

  /** Until its load returns, the waiters and the budgets of a call are exactly those of the attached callers. */
  lemma CountsAreExact<K(!new), R(!new)>(s: State<K, R>, c: nat)
    requires Reachable(s) && c < |s.table.pool| && s.table.pool[c].outcome.None?
    ensures var call := s.table.pool[c];
            && call.waiters == |call.budgets| == |Attached(s.callers, c)|
            && (call.cancelled <==> Attached(s.callers, c) == {})
            && forall w, budget :: HeldBy(s, c, w, budget) <==> w in call.budgets && call.budgets[w] == budget
  {
    ReachableIsSound(s);
    var call, attached := s.table.pool[c], Attached(s.callers, c);
    assert Lifecycle(s, c) && Counted(s, c);
    assert forall i :: i in attached ==> CallerOk(s, i);
    assert forall i, j :: i in attached && j in attached ==> Apart(s.callers, i, j);
    WaitersFill(s.callers, attached, c, call.budgets.Keys);
    forall w, budget ensures HeldBy(s, c, w, budget) <==> w in call.budgets && call.budgets[w] == budget {
      if w in call.budgets && call.budgets[w] == budget {
        var i :| i in attached && Uses(s.callers, i, c, w);
        assert CallerOk(s, i);
      }
    }
  }

  predicate Uses<K, R>(callers: seq<Caller<K, R>>, i: nat, c: nat, w: nat) {
    i < |callers| && callers[i].On(c) && callers[i].waiter == w
  }

  /** As many distinct waiter numbers as there are keys use up the keys. */
  lemma {:induction false} WaitersFill<K, R>(callers: seq<Caller<K, R>>, attached: set<nat>, c: nat, keys: set<nat>)
    requires forall i :: i in attached ==> i < |callers| && callers[i].On(c) && callers[i].waiter in keys
    requires forall i, j :: i in attached && j in attached ==> Apart(callers, i, j)
    requires |attached| == |keys|
    ensures forall w :: w in keys ==> exists i :: i in attached && Uses(callers, i, c, w)
    decreases attached
  {
    if attached != {} {
      var i :| i in attached;
      var w := callers[i].waiter;
      forall j | j in attached - {i} ensures callers[j].waiter in keys - {w} {
        assert Apart(callers, i, j);
      }
      WaitersFill(callers, attached - {i}, c, keys - {w});
      forall v | v in keys ensures exists j :: j in attached && Uses(callers, j, c, v) {
        if v != w {
          assert v in keys - {w};
          var j: nat :| j in attached - {i} && Uses(callers, j, c, v);
        } else {
          assert Uses(callers, i, c, v);
        }
      }
    }
  }

  /** Nobody joins a call that has completed or been cancelled. */
  lemma NewcomersJoinALiveCall<K(!new), R(!new)>(s: State<K, R>, key: K, budget: Budget)
    requires Reachable(s)
    ensures Enabled(s, Arrive(key, budget))
    ensures var t, c := Next(s, Arrive(key, budget)), JoinedCall(s.table, key);
            && c < |t.loads| == |t.table.pool| && Live(t, c) && t.loads[c].key == key
            && |s.callers| in Attached(t.callers, c)
            && (c < |s.table.pool| ==> Live(s, c))
  {
    ReachableIsSound(s);
    assert key in s.table.calls ==> KeyOk(s, key) && Lifecycle(s, s.table.calls[key]);
  }

  /**
  A load that returns removes at most the entry of its own call. In particular an abandoned one, which
  nobody is attached to any more, leaves the map and every other call, a newer one for its key included, alone.
  */
  lemma LateReturnIsHarmless<K(!new), R(!new)>(s: State<K, R>, c: nat, outcome: R)
    requires Reachable(s) && Enabled(s, LoadReturns(c, outcome))
    ensures var t := Next(s, LoadReturns(c, outcome));
            && t.callers == s.callers
            && t.table.calls == (if s.table.pool[c].cancelled then s.table.calls else s.table.calls - {s.loads[c].key})
            && (forall d :: 0 <= d < |s.loads| && d != c ==> t.table.pool[d] == s.table.pool[d])
            && (s.table.pool[c].cancelled ==> Attached(s.callers, c) == {})
  {
    ReachableIsSound(s);
    assert Lifecycle(s, c) && Counted(s, c);
    assert s.loads[c].key in s.table.calls ==> KeyOk(s, s.loads[c].key);
  }

  /** Leaving takes away one caller and nothing else, unless it is the last, which stops the load for good. */
  lemma LeavingDetachesOnlyTheCaller<K(!new), R(!new)>(s: State<K, R>, i: nat)
    requires Reachable(s) && Enabled(s, Leave(i)) && s.table.pool[s.callers[i].call].outcome.None?
    ensures var t, c := Next(s, Leave(i)), s.callers[i].call;
            && Attached(t.callers, c) == Attached(s.callers, c) - {i}
            && (t.table.pool[c].cancelled <==> Attached(s.callers, c) == {i})
            && (Attached(s.callers, c) != {i} ==> t.table.calls == s.table.calls)
            && (Attached(s.callers, c) == {i} ==> s.loads[c].key !in t.table.calls)
            && forall d :: 0 <= d < |s.loads| && d != c ==> t.table.pool[d] == s.table.pool[d]
  {
    ReachableIsSound(s);
    var t, c := Next(s, Leave(i)), s.callers[i].call;
    LeaveKeeps(s, i);
    assert CallerOk(s, i) && Lifecycle(s, c) && Counted(s, c) && Counted(t, c) && Lifecycle(t, c);
    assert i in Attached(s.callers, c);
    assert Attached(t.callers, c) == Attached(s.callers, c) - {i};
  }

  ghost predicate Continues<K, R>(s: State<K, R>, t: State<K, R>) {
    && |s.callers| <= |t.callers| && |s.table.pool| <= |t.table.pool|
    && (forall i :: 0 <= i < |s.callers| && !s.callers[i].Refused? ==>
          !t.callers[i].Refused? && t.callers[i].call == s.callers[i].call && t.callers[i].key == s.callers[i].key)
    && (forall i :: 0 <= i < |s.callers| && s.callers[i].Returned? ==> t.callers[i] == s.callers[i])
    && (forall c :: 0 <= c < |s.table.pool| && s.table.pool[c].outcome.Some? ==>
          t.table.pool[c].outcome == s.table.pool[c].outcome)
  }

  lemma StepContinues<K, R>(s: State<K, R>, e: Event<K, R>)
    requires Inv(s) && Enabled(s, e)
    ensures Continues(s, Next(s, e))
  {
    if e.LoadReturns? {
      assert Lifecycle(s, e.call);
    }
  }

  /**
  Over a whole run: a caller that comes back through done has the outcome of the very call it joined,
  for its own key, and that outcome stays the outcome of the call for good.
  */
  lemma {:induction false} CallersGetTheirOwnCallsOutcome<K, R>(s: State<K, R>, events: seq<Event<K, R>>, i: nat)
    requires Inv(s) && Possible(s, events) && i < |s.callers| && !s.callers[i].Refused?
    ensures var t := After(s, events);
            && Inv(t) && Continues(s, t)
            && (t.callers[i].Returned? ==>
                  var c := s.callers[i].call;
                  && c < |t.loads| && t.loads[c].key == s.callers[i].key
                  && t.table.pool[c].outcome == Some(t.callers[i].outcome))
    decreases |events|
  {
    hide CallsOk, KeysOk, Enabled, Next;
    RunKeeps(s, events);
    if events != [] {
      StepKeeps(s, events[0]);
      StepContinues(s, events[0]);
      CallersGetTheirOwnCallsOutcome(Next(s, events[0]), events[1..], i);
    }
    assert CallerOk(After(s, events), i);
  }

  /** Two bounded callers, at the zero instant and before it: a state in which the order of the budgets matters. */
  lemma ZeroCanBeLost<K(!new), R(!new)>(key: K) returns (s: State<K, R>)
    ensures Reachable(s) && |s.table.pool| == 1 && s.table.pool[0].outcome.None?
    ensures ZeroIsLost(None, s.table.pool[0].budgets)
  {
    var first, second := Arrive(key, Budget(0, true)), Arrive(key, Budget(-1, true));
    var events: seq<Event<K, R>> := [first, second];
    assert events[1..] == [second] && [second][1..] == [];
    var one := Next(Initial(), first);
    s := Next(one, second);
    assert Possible(s, []) && After(s, []) == s;
    assert Possible(one, [second]) && After(one, [second]) == s;
    assert Possible(Initial(), events) && After(Initial(), events) == s;
    var budgets := s.table.pool[0].budgets;
    assert budgets == map[1 := Budget(0, true), 2 := Budget(-1, true)];
    assert budgets[1].deadline == ZERO_INSTANT && LostTo(None, budgets[2].deadline);
  }
}
