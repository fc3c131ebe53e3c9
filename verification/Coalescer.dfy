/**
The mutex-held regions of the coalescer (internal/cache/coalescer.go) as functions on a table of
calls, and the classes that carry them out in place. Calls are numbered in the order in which they
are created, and the table keeps every call ever created: a call outlives its entry in the map.
*/
module CallTable {
  import opened Common
  import opened Deadlines

  /** One call; outcome stands for value, err and completed, closes counts the closings of done. */
  datatype CallState<R> = CallState(
    waiters: int, nextWaiterID: nat, budgets: Budgets, outcome: Option<R>, closes: nat, cancelled: bool)
  {
    function AddWaiter(budget: Budget): CallState<R> {
      this.(waiters := waiters + 1, nextWaiterID := nextWaiterID + 1, budgets := budgets[nextWaiterID + 1 := budget])
    }

    function Complete(result: R): CallState<R> {
      this.(outcome := Some(result), closes := closes + 1, cancelled := true)
    }

    function RemoveWaiter(waiterID: nat): CallState<R> {
      this.(waiters := waiters - 1, budgets := budgets - {waiterID}, cancelled := cancelled || waiters == 1)
    }
  }

  datatype Table<K, R> = Table(calls: map<K, nat>, pool: seq<CallState<R>>)

  function NewCall<R>(): CallState<R> {
    CallState(0, 0, map[], None, 0, false)
  }

  /** The number of the call that a caller for the key would join. */
  function JoinedCall<K, R>(t: Table<K, R>, key: K): nat {
    if key in t.calls then t.calls[key] else |t.pool|
  }

  ghost predicate WellFormed<K, R>(t: Table<K, R>) {
    forall k :: k in t.calls ==> t.calls[k] < |t.pool|
  }

  /** The first region of DoShared. */
  function Join<K, R>(t: Table<K, R>, key: K, budget: Budget): Table<K, R>
    requires WellFormed(t)
  {
    if key in t.calls then
      var c := t.calls[key];
      t.(pool := t.pool[c := t.pool[c].AddWaiter(budget)])
    else
      Table(t.calls[key := |t.pool|], t.pool + [NewCall().AddWaiter(budget)])
  }

  /** Remove the entry of the key, if it is still that of this call. */
  function Forget<K(==)>(calls: map<K, nat>, key: K, c: nat): map<K, nat> {
    if key in calls && calls[key] == c then calls - {key} else calls
  }

  /** The region of run, after the load has returned. */
  function Finish<K, R>(t: Table<K, R>, key: K, c: nat, result: R): Table<K, R>
    requires c < |t.pool|
  {
    Table(Forget(t.calls, key, c), t.pool[c := t.pool[c].Complete(result)])
  }

  /** detach. */
  function Detach<K, R>(t: Table<K, R>, key: K, c: nat, waiterID: nat): Table<K, R>
    requires c < |t.pool|
  {
    if t.pool[c].outcome.Some? then t
    else
      var next := t.pool[c].RemoveWaiter(waiterID);
      Table(if next.waiters == 0 then Forget(t.calls, key, c) else t.calls, t.pool[c := next])
  }
}

module Coalescer {
  import opened Common
  import opened Deadlines
  import opened CallTable

  class Call<R> {
    ghost const number: nat
    var waiters: int
    var nextWaiterID: nat
    var budgets: Budgets
    var outcome: Option<R>
    var closes: nat
    var cancelled: bool

    ghost function State(): CallState<R>
      reads this
    {
      CallState(waiters, nextWaiterID, budgets, outcome, closes, cancelled)
    }

    constructor (ghost number: nat)
      ensures State() == NewCall() && this.number == number
    {
      this.number := number;
      waiters, nextWaiterID, budgets, outcome, closes, cancelled := 0, 0, map[], None, 0, false;
    }

    method AddWaiter(budget: Budget) returns (waiterID: nat)
      modifies this
      ensures State() == old(State()).AddWaiter(budget)
      ensures waiterID == nextWaiterID
    {
      nextWaiterID := nextWaiterID + 1;
      waiterID := nextWaiterID;
      budgets := budgets[waiterID := budget];
      waiters := waiters + 1;
    }

    /** EffectiveDeadline: the range over the budgets visits them in any order. */
    method EffectiveDeadline(base: Option<int>) returns (deadline: Option<int>, ghost order: seq<nat>)
      ensures IsOrder(order, budgets) && Covers(order, budgets) && deadline == LoopAnswer(base, order, budgets)
      ensures !ZeroIsLost(base, budgets) ==> IsEffective(base, budgets, deadline)
    {
      var latest := ZERO_INSTANT;
      var waitersBounded := |budgets| > 0;
      var rest := budgets.Keys;
      order := [];
      while rest != {}
        invariant rest <= budgets.Keys && multiset(order) + multiset(rest) == multiset(budgets.Keys)
        invariant forall w :: w in order ==> w in budgets && budgets[w].bounded
        invariant latest == Scanned(order, budgets) && waitersBounded == (|budgets| > 0)
      {
        var w :| w in rest;
        if !budgets[w].bounded {
          waitersBounded := false;
          order := order + SomeOrder(rest);
          break;
        }
        if latest == ZERO_INSTANT || budgets[w].deadline > latest {
          latest := budgets[w].deadline;
        }
        ghost var longer := order + [w];
        assert longer[..|order|] == order;
        assert multiset(rest) == multiset(rest - {w}) + multiset{w};
        order := longer;
        rest := rest - {w};
      }
      OrderCovers(order, budgets);
      if base.Some? && (!waitersBounded || base.value < latest) {
        deadline := base;
      } else if waitersBounded {
        deadline := Some(latest);
      } else {
        deadline := None;
      }
      if !ZeroIsLost(base, budgets) {
        OrderAgrees(base, order, budgets);
      }
    }
  }

  class Coalescer<K(==), R> {
    var calls: map<K, Call<R>>
    ghost var created: seq<Call<R>>

    ghost predicate Valid()
      reads this
    {
      && (forall i :: 0 <= i < |created| ==> created[i].number == i)
      && (forall k :: k in calls ==> calls[k] in created)
    }

    ghost function View(): (t: Table<K, R>)
      requires Valid()
      reads this, created
      ensures WellFormed(t)
    {
      Table(map k | k in calls :: calls[k].number, States(created))
    }

    constructor ()
      ensures Valid() && View() == Table(map[], []) && created == []
    {
      calls, created := map[], [];
    }

    /** The locked region of DoShared: join the call in flight for the key, or start one. */
    method Join(key: K, budget: Budget) returns (current: Call<R>, waiterID: nat, shared: bool)
      requires Valid()
      modifies this, created
      ensures Valid() && View() == CallTable.Join(old(View()), key, budget)
      ensures current in created && current.number == JoinedCall(old(View()), key)
      ensures waiterID == current.nextWaiterID && shared == (key in old(calls))
      ensures created == old(created) + (if shared then [] else [current]) && (shared || fresh(current))
    {
      shared := key in calls;
      if shared {
        current := calls[key];
      } else {
        current := new Call(|created|);
        created := created + [current];
        calls := calls[key := current];
      }
      waiterID := current.AddWaiter(budget);
      assert View().pool == CallTable.Join(old(View()), key, budget).pool;
      assert View().calls == CallTable.Join(old(View()), key, budget).calls;
    }

    /** The locked region of run. */
    method Finish(key: K, current: Call<R>, result: R)
      requires Valid() && current in created
      modifies this`calls, current
      ensures Valid() && View() == CallTable.Finish(old(View()), key, current.number, result)
    {
      current.outcome := Some(result);
      if key in calls && calls[key] == current {
        calls := calls - {key};
      }
      current.closes := current.closes + 1;
      current.cancelled := true;
    }

    /** detach. */
    method Detach(key: K, current: Call<R>, waiterID: nat)
      requires Valid() && current in created
      modifies this`calls, current
      ensures Valid() && View() == CallTable.Detach(old(View()), key, current.number, waiterID)
    {
      if current.outcome.Some? {
        return;
      }
      current.budgets := current.budgets - {waiterID};
      current.waiters := current.waiters - 1;
      if current.waiters == 0 {
        if key in calls && calls[key] == current {
          calls := calls - {key};
        }
        current.cancelled := true;
      }
    }
  }

  ghost function States<R>(created: seq<Call<R>>): seq<CallState<R>>
    reads created
  {
    seq(|created|, i requires 0 <= i < |created| reads created => created[i].State())
  }
}
