/**
Load budgets (internal/cache/coalescer.go): the deadline of a shared load as implied by the callers
waiting for it. Instants count from the zero instant, which the source uses to mean "not set yet".
*/
module Deadlines {
  import opened Common

  const ZERO_INSTANT: int := 0

  /** waiterBudget. */
  datatype Budget = Budget(deadline: int, bounded: bool)

  type Budgets = map<nat, Budget>

  // ---------- the meaning ----------

  ghost predicate AllBounded(budgets: Budgets) {
    forall w :: w in budgets ==> budgets[w].bounded
  }

  ghost predicate IsLatest(budgets: Budgets, latest: int) {
    && (exists w :: w in budgets && budgets[w].deadline == latest)
    && (forall w :: w in budgets ==> budgets[w].deadline <= latest)
  }

  /** An earlier base deadline wins. */
  function Capped(base: Option<int>, latest: int): int {
    if base.Some? && base.value < latest then base.value else latest
  }

  /**
  What the effective deadline should be: that of the base context when nobody waits or someone waits
  without bound, otherwise the latest deadline of the waiting callers, capped by the base.
  */
  ghost predicate IsEffective(base: Option<int>, budgets: Budgets, deadline: Option<int>) {
    if budgets == map[] || !AllBounded(budgets) then deadline == base
    else exists latest :: IsLatest(budgets, latest) && deadline == Some(Capped(base, latest))
  }

  lemma EffectiveIsUnique(base: Option<int>, budgets: Budgets, a: Option<int>, b: Option<int>)
    requires IsEffective(base, budgets, a) && IsEffective(base, budgets, b)
    ensures a == b
  {
  }

  /** No deadline is the latest of all. */
  predicate NoLater(a: Option<int>, b: Option<int>) {
    b.None? || (a.Some? && a.value <= b.value)
  }

  /** A further caller never shortens the budget of a load somebody waits for. */
  lemma JoinNeverShortens(
      base: Option<int>, budgets: Budgets, w: nat, budget: Budget, before: Option<int>, after: Option<int>)
    requires budgets != map[] && w !in budgets
    requires IsEffective(base, budgets, before) && IsEffective(base, budgets[w := budget], after)
    ensures NoLater(before, after)
  {
    var more := budgets[w := budget];
    assert forall v :: v in budgets ==> v in more && more[v] == budgets[v];
    if AllBounded(more) {
      var earlier :| IsLatest(budgets, earlier) && before == Some(Capped(base, earlier));
      var later :| IsLatest(more, later) && after == Some(Capped(base, later));
      var v :| v in budgets && budgets[v].deadline == earlier;
      assert more[v].deadline <= later;
    }
  }

  /** A caller that leaves others behind never extends the budget. */
  lemma LeavingNeverExtends(base: Option<int>, budgets: Budgets, w: nat, before: Option<int>, after: Option<int>)
    requires w in budgets && budgets - {w} != map[]
    requires IsEffective(base, budgets, before) && IsEffective(base, budgets - {w}, after)
    ensures NoLater(after, before)
  {
    var rest := budgets - {w};
    assert rest[w := budgets[w]] == budgets;
    JoinNeverShortens(base, rest, w, budgets[w], after, before);
  }

  // ---------- the loop ----------

  /** The order in which a range over the budgets may visit them. */
  ghost predicate IsOrder(order: seq<nat>, budgets: Budgets) {
    multiset(order) == multiset(budgets.Keys)
  }

  /** The variable latest after the loop has visited the given waiters, all of them bounded. */
  function Scanned(order: seq<nat>, budgets: Budgets): int
    requires forall w :: w in order ==> w in budgets
  {
    if order == [] then ZERO_INSTANT
    else
      var latest, next := Scanned(order[..|order| - 1], budgets), budgets[order[|order| - 1]].deadline;
      if latest == ZERO_INSTANT || next > latest then next else latest
  }

  ghost predicate Covers(order: seq<nat>, budgets: Budgets) {
    forall w :: w in order <==> w in budgets
  }

  lemma OrderCovers(order: seq<nat>, budgets: Budgets)
    requires IsOrder(order, budgets)
    ensures Covers(order, budgets)
  {
    forall w ensures w in order <==> w in budgets {
      assert w in order <==> w in multiset(order);
      assert w in multiset(budgets.Keys) <==> w in budgets;
    }
  }

  /** What EffectiveDeadline answers when it visits the budgets in the given order. */
  ghost function LoopAnswer(base: Option<int>, order: seq<nat>, budgets: Budgets): Option<int>
    requires Covers(order, budgets)
  {
    if budgets == map[] || !AllBounded(budgets) then base else Some(Capped(base, Scanned(order, budgets)))
  }

  /**
  The loop forgets what it saw when the latest deadline so far is the zero instant itself: a waiter
  before that instant then replaces it. That shows exactly when such a waiter is not hidden by the base.
  */
  ghost predicate ZeroIsLost(base: Option<int>, budgets: Budgets) {
    && AllBounded(budgets)
    && IsLatest(budgets, ZERO_INSTANT)
    && exists w :: w in budgets && LostTo(base, budgets[w].deadline)
  }

  predicate LostTo(base: Option<int>, deadline: int) {
    deadline < ZERO_INSTANT && (base.None? || deadline < base.value)
  }

  ghost predicate AgreesFor(base: Option<int>, order: seq<nat>, budgets: Budgets) {
    Covers(order, budgets) ==> IsEffective(base, budgets, LoopAnswer(base, order, budgets))
  }

  /** Every iteration order gives the right answer, except in the one case above; there some order does not. */
  lemma EveryOrderAgrees(base: Option<int>, budgets: Budgets)
    ensures (forall order :: IsOrder(order, budgets) ==> AgreesFor(base, order, budgets))
       <==> !ZeroIsLost(base, budgets)
  {
    if ZeroIsLost(base, budgets) {
      var order := WrongOrder(base, budgets);
      assert !AgreesFor(base, order, budgets);
    } else {
      forall order | IsOrder(order, budgets) ensures AgreesFor(base, order, budgets) {
        OrderAgrees(base, order, budgets);
      }
    }
  }

  /** Deadlines after the zero instant are enough, as those of running processes are. */
  lemma OrdinaryDeadlinesAgree(base: Option<int>, order: seq<nat>, budgets: Budgets)
    requires IsOrder(order, budgets) && forall w :: w in budgets ==> budgets[w].deadline > ZERO_INSTANT
    ensures AgreesFor(base, order, budgets)
  {
    EveryOrderAgrees(base, budgets);
  }

  /** What is known of the variable latest, whatever the order. */
  lemma {:induction false} ScannedFacts(order: seq<nat>, budgets: Budgets)
    requires order != [] && forall w :: w in order ==> w in budgets
    ensures exists w :: w in order && budgets[w].deadline == Scanned(order, budgets)
    ensures var latest := Scanned(order, budgets);
            || (forall w :: w in order ==> budgets[w].deadline <= latest)
            || (latest < ZERO_INSTANT && (forall w :: w in order ==> budgets[w].deadline <= ZERO_INSTANT)
                && exists w :: w in order && budgets[w].deadline == ZERO_INSTANT)
  {
    var front, last := order[..|order| - 1], order[|order| - 1];
    assert order == front + [last];
    assert last in order;
    assert forall w :: w in front ==> w in order;
    if front != [] {
      ScannedFacts(front, budgets);
    }
  }

  lemma OrderAgrees(base: Option<int>, order: seq<nat>, budgets: Budgets)
    requires IsOrder(order, budgets) && !ZeroIsLost(base, budgets)
    ensures AgreesFor(base, order, budgets)
  {
    OrderCovers(order, budgets);
    if budgets != map[] && AllBounded(budgets) {
      var some :| some in budgets;
      assert some in order;
      ScannedFacts(order, budgets);
      var latest := Scanned(order, budgets);
      if forall w :: w in order ==> budgets[w].deadline <= latest {
        assert IsLatest(budgets, latest);
      } else {
        assert IsLatest(budgets, ZERO_INSTANT);
        assert !LostTo(base, latest);
        assert Capped(base, latest) == Capped(base, ZERO_INSTANT);
      }
    }
  }

  /** Some order in which to visit the keys. */
  ghost function SomeOrder(keys: set<nat>): (order: seq<nat>)
    ensures multiset(order) == multiset(keys)
  {
    if keys == {} then []
    else
      var w :| w in keys;
      assert multiset(keys) == multiset(keys - {w}) + multiset{w};
      SomeOrder(keys - {w}) + [w]
  }

  /** Visit a waiter at the zero instant last but one, and one before that instant last. */
  lemma WrongOrder(base: Option<int>, budgets: Budgets) returns (order: seq<nat>)
    requires ZeroIsLost(base, budgets)
    ensures IsOrder(order, budgets) && !AgreesFor(base, order, budgets)
  {
    hide Scanned;
    var w :| w in budgets && LostTo(base, budgets[w].deadline);
    var z :| z in budgets && budgets[z].deadline == ZERO_INSTANT;
    var others := SomeOrder(budgets.Keys - {w, z});
    order := others + [z] + [w];
    assert multiset(budgets.Keys) == multiset(budgets.Keys - {w, z}) + multiset{z} + multiset{w};
    OrderCovers(order, budgets);
    ZeroThenEarlier(others, z, w, budgets);
    var right, wrong := Some(Capped(base, ZERO_INSTANT)), LoopAnswer(base, order, budgets);
    assert right != wrong;
    assert IsEffective(base, budgets, right);
  }

  lemma ZeroThenEarlier(others: seq<nat>, z: nat, w: nat, budgets: Budgets)
    requires forall v :: v in others + [z] + [w] ==> v in budgets && budgets[v].deadline <= ZERO_INSTANT
    requires budgets[z].deadline == ZERO_INSTANT
    ensures Scanned(others + [z] + [w], budgets) == budgets[w].deadline
  {
    var most, order := others + [z], others + [z] + [w];
    assert order[..|most|] == most && most[..|others|] == others;
    assert forall v :: v in most ==> v in order;
    assert forall v :: v in others ==> v in most;
    if others != [] {
      ScannedFacts(others, budgets);
    }
    assert Scanned(most, budgets) == ZERO_INSTANT;
  }
}
