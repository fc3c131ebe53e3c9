/**
What the bounded cache does, told without its own list functions: what Get answers after an operation, whom an
insertion into a full cache evicts, and that the cells stand in the order in which their keys were last touched.
*/
module Recency {
  import opened Common
  import opened CacheSpec

  function After<K(==), V>(cells: Cells<K, V>, max: nat, op: Op<K, V>, now: int): Cells<K, V> {
    LazyStep(cells, max, op, now).0
  }

  function Shown<K(==), V>(cells: Cells<K, V>, max: nat, op: Op<K, V>, now: int): Answer<V> {
    LazyStep(cells, max, op, now).1
  }

  // ---------- the cache as a map ----------

  /** A value is found until the instant at which its lifetime is over, that instant excluded. */
  lemma GetAfterSet<K, V>(cells: Cells<K, V>, max: nat, key: K, value: V, ttl: int, now: int, later: int)
    requires Bounded(cells, max) && max > 0
    ensures Shown(After(cells, max, Set(key, value, ttl), now), max, Get(key), later) ==
              if ttl > 0 && later < now + ttl then Found(value) else Missing
  {
    if ttl > 0 {
      SetKeyIsStored(cells, max, key, value, ttl, now);
    } else {
      FindWithout(cells, key, key);
    }
  }

  lemma GetAfterDelete<K, V>(cells: Cells<K, V>, max: nat, key: K, other: K, now: int, later: int)
    ensures Shown(After(cells, max, Delete(key), now), max, Get(other), later) ==
              if other == key then Missing else Shown(cells, max, Get(other), later)
  {
    FindWithout(cells, key, other);
  }

  /** Get gives a cell that is there and has not expired, and takes none away but the expired one it asks for. */
  lemma GetAfterGet<K, V>(cells: Cells<K, V>, max: nat, key: K, other: K, now: int, later: int)
    requires DistinctKeys(cells)
    ensures Shown(cells, max, Get(key), now) ==
              var found := Find(cells, key);
              if found.Some? && now < found.value.expiresAt then Found(found.value.value) else Missing
    ensures other != key || Shown(cells, max, Get(key), now).Found? ==>
              Shown(After(cells, max, Get(key), now), max, Get(other), later) == Shown(cells, max, Get(other), later)
  {
    WithoutFacts(cells, key);
    FindWithout(cells, key, other);
    if Find(cells, key).Some? {
      var cell := Find(cells, key).value;
      assert ([cell] + Without(cells, key))[1..] == Without(cells, key);
    }
  }

  /** Len counts the cells that have not expired. */
  lemma {:induction false} LenCounts<K, V>(cells: Cells<K, V>, max: nat, now: int)
    ensures Shown(cells, max, Len, now) == Size(|set i | 0 <= i < |cells| && now < cells[i].expiresAt|)
  {
    LiveCounts(cells, now);
  }

  lemma {:induction false} LiveCounts<K, V>(cells: Cells<K, V>, now: int)
    ensures |Live(cells, now)| == |set i | 0 <= i < |cells| && now < cells[i].expiresAt|
  {
    if cells != [] {
      var n := |cells| - 1;
      LiveConcat(cells[..n], [cells[n]], now);
      SingleCell(cells[n], cells[n].key, now);
      assert cells == cells[..n] + [cells[n]];
      LiveCounts(cells[..n], now);
      var fewer := set i | 0 <= i < n && now < cells[i].expiresAt;
      assert fewer == set i | 0 <= i < |cells[..n]| && now < cells[..n][i].expiresAt;
      assert (set i | 0 <= i < |cells| && now < cells[i].expiresAt) ==
             fewer + if now < cells[n].expiresAt then {n} else {};
    }
  }

  // ---------- whom an insertion evicts ----------

  predicate Expired<K, V>(cells: Cells<K, V>, i: int, now: int) {
    0 <= i < |cells| && cells[i].expiresAt <= now
  }

  ghost predicate SomeExpired<K, V>(cells: Cells<K, V>, now: int) {
    exists i :: Expired(cells, i, now)
  }

  /**
  What becomes of the other cells when an absent key is stored: all stay while there is room; a full cache drops
  exactly the expired ones, and if there are none, exactly the last.
  */
  lemma EvictsExactly<K, V>(cells: Cells<K, V>, max: nat, key: K, value: V, ttl: int, now: int, i: nat)
    requires Bounded(cells, max) && max > 0 && Find(cells, key) == None && ttl > 0 && i < |cells|
    ensures Find(After(cells, max, Set(key, value, ttl), now), cells[i].key) ==
              if |cells| < max then Some(cells[i])
              else if SomeExpired(cells, now) then (if Expired(cells, i, now) then None else Some(cells[i]))
              else if i == max - 1 then None else Some(cells[i])
  {
    hide Overflow, Live, Without, SomeExpired, Find, DistinctKeys;
    var cell := Cell(key, value, now + ttl);
    assert After(cells, max, Set(key, value, ttl), now) == Overflow([cell] + cells, max, now);
    assert cells[i].key != key && Find(cells, cells[i].key) == Some(cells[i]) by {
      WithoutAt(cells, i);
    }
    if |cells| < max {
      Roomy([cell] + cells, max, now);
      PushFinds(cell, cells, cells[i].key);
    } else if SomeExpired(cells, now) {
      Purged(cell, cells, max, now);
      FindLive(cells, cells[i].key, now);
      PushFinds(cell, Live(cells, now), cells[i].key);
    } else {
      Shed(cell, cells, max, now);
      TakenOrNot(cells, max - 1, i);
      PushFinds(cell, cells[..max - 1], cells[i].key);
    }
  }

  lemma PushFinds<K, V>(cell: Cell<K, V>, cells: Cells<K, V>, key: K)
    ensures Find([cell] + cells, key) == if cell.key == key then Some(cell) else Find(cells, key)
  {
    assert ([cell] + cells)[1..] == cells;
  }

  lemma Roomy<K, V>(cells: Cells<K, V>, max: nat, now: int)
    requires |cells| <= max
    ensures Overflow(cells, max, now) == cells
  {
  }

  lemma Purged<K, V>(cell: Cell<K, V>, cells: Cells<K, V>, max: nat, now: int)
    requires cell.LiveAt(now) && |cells| == max && SomeExpired(cells, now)
    ensures Overflow([cell] + cells, max, now) == [cell] + Live(cells, now)
  {
    var i :| Expired(cells, i, now);
    ExpiredShrinks(cells, i, now);
    LiveConcat([cell], cells, now);
    SingleCell(cell, cell.key, now);
  }

  lemma Shed<K, V>(cell: Cell<K, V>, cells: Cells<K, V>, max: nat, now: int)
    requires cell.LiveAt(now) && |cells| == max > 0 && !SomeExpired(cells, now)
    ensures Overflow([cell] + cells, max, now) == [cell] + cells[..max - 1]
  {
    forall i | 0 <= i < |cells| ensures cells[i].LiveAt(now) {
      assert !Expired(cells, i, now);
    }
    LiveShrinks(cells, now);
    LiveConcat([cell], cells, now);
    SingleCell(cell, cell.key, now);
    assert ([cell] + cells)[..max] == [cell] + cells[..max - 1];
  }

  lemma {:induction false} ExpiredShrinks<K, V>(cells: Cells<K, V>, i: nat, now: int)
    requires Expired(cells, i, now)
    ensures |Live(cells, now)| < |cells|
  {
    LiveShrinks(cells[1..], now);
    if i > 0 {
      ExpiredShrinks(cells[1..], i - 1, now);
    }
  }

  lemma TakenOrNot<K, V>(cells: Cells<K, V>, n: nat, i: nat)
    requires DistinctKeys(cells) && n <= |cells| && i < |cells|
    ensures Find(cells[..n], cells[i].key) == if i < n then Some(cells[i]) else None
  {
    TakeDistinct(cells, n);
    if i < n {
      WithoutAt(cells[..n], i);
    } else if Find(cells[..n], cells[i].key).Some? {
      FindMember(cells[..n], cells[i].key);
      var j: nat :| j < n && cells[..n][j] == Find(cells[..n], cells[i].key).value;
      KeysDiffer(cells, j, i);
    }
  }

  lemma {:induction false} KeysDiffer<K, V>(cells: Cells<K, V>, i: nat, j: nat)
    requires DistinctKeys(cells) && i < j < |cells|
    ensures cells[i].key != cells[j].key
  {
    if i > 0 {
      KeysDiffer(cells[1..], i - 1, j - 1);
    } else {
      IsThere(cells[1..], j - 1);
    }
  }

  lemma {:induction false} IsThere<K, V>(cells: Cells<K, V>, i: nat)
    requires i < |cells|
    ensures Find(cells, cells[i].key).Some?
  {
    if i > 0 {
      IsThere(cells[1..], i - 1);
    }
  }

  // ---------- the order of the cells ----------

  predicate Has<K(==), V>(cells: Cells<K, V>, key: K) {
    Find(cells, key).Some?
  }

  /** A cell of the first key stands in front of one of the second. */
  predicate Ranked<K(==), V>(cells: Cells<K, V>, a: K, b: K) {
    cells != [] && ((cells[0].key == a && Has(cells[1..], b)) || Ranked(cells[1..], a, b))
  }

  lemma {:induction false} RankedAt<K, V>(cells: Cells<K, V>, i: nat, j: nat)
    requires i < j < |cells|
    ensures Ranked(cells, cells[i].key, cells[j].key)
  {
    if i > 0 {
      RankedAt(cells[1..], i - 1, j - 1);
    } else {
      IsThere(cells[1..], j - 1);
    }
  }

  lemma {:induction false} RankedHas<K, V>(cells: Cells<K, V>, a: K, b: K)
    requires Ranked(cells, a, b)
    ensures Has(cells, b)
  {
    if !(cells[0].key == a && Has(cells[1..], b)) {
      RankedHas(cells[1..], a, b);
    }
  }

  lemma RankedPush<K, V>(cell: Cell<K, V>, cells: Cells<K, V>, a: K, b: K)
    ensures Ranked([cell] + cells, a, b) <==> (cell.key == a && Has(cells, b)) || Ranked(cells, a, b)
    ensures Has([cell] + cells, a) <==> cell.key == a || Has(cells, a)
  {
    assert ([cell] + cells)[1..] == cells;
  }

  lemma {:induction false} RankedWithout<K, V>(cells: Cells<K, V>, key: K, a: K, b: K)
    ensures Has(Without(cells, key), a) <==> Has(cells, a) && a != key
    ensures Ranked(Without(cells, key), a, b) ==> Ranked(cells, a, b) && a != key && b != key
  {
    FindWithout(cells, key, a);
    if cells != [] {
      RankedWithout(cells[1..], key, a, b);
      FindWithout(cells[1..], key, b);
      RankedPush(cells[0], Without(cells[1..], key), a, b);
      assert [] + Without(cells[1..], key) == Without(cells[1..], key);
    }
  }

  lemma {:induction false} RankedLive<K, V>(cells: Cells<K, V>, now: int, a: K, b: K)
    ensures Has(Live(cells, now), a) ==> Has(cells, a)
    ensures Ranked(Live(cells, now), a, b) ==> Ranked(cells, a, b)
  {
    if cells != [] {
      RankedLive(cells[1..], now, a, b);
      RankedLive(cells[1..], now, b, a);
      RankedPush(cells[0], Live(cells[1..], now), a, b);
      assert [] + Live(cells[1..], now) == Live(cells[1..], now);
    }
  }

  lemma {:induction false} RankedTake<K, V>(cells: Cells<K, V>, n: nat, a: K, b: K)
    requires n <= |cells|
    ensures Has(cells[..n], a) ==> Has(cells, a)
    ensures Ranked(cells[..n], a, b) ==> Ranked(cells, a, b)
  {
    if n > 0 {
      assert cells[..n][1..] == cells[1..][..n - 1];
      RankedTake(cells[1..], n - 1, a, b);
      RankedTake(cells[1..], n - 1, b, a);
    }
  }

  lemma RankedOverflow<K, V>(cells: Cells<K, V>, max: nat, now: int, a: K, b: K)
    ensures Has(Overflow(cells, max, now), a) ==> Has(cells, a)
    ensures Ranked(Overflow(cells, max, now), a, b) ==> Ranked(cells, a, b)
  {
    hide Live, Has, Ranked;
    RankedLive(cells, now, a, b);
    var live := Live(cells, now);
    if |live| > max {
      RankedTake(live, |live| - 1, a, b);
    }
  }

  /** The operation stores the key or finds it. */
  predicate Touches<K(==), V>(op: Op<K, V>, answer: Answer<V>, key: K) {
    (op.Set? && op.key == key && op.ttl > 0) || (op.Get? && op.key == key && answer.Found?)
  }

  /** An operation moves the key it touches to the front and leaves the others in their order. */
  lemma StepOrder<K, V>(cells: Cells<K, V>, max: nat, op: Op<K, V>, now: int, a: K, b: K)
    requires Bounded(cells, max)
    ensures var after, answer := After(cells, max, op, now), Shown(cells, max, op, now);
            && (Has(after, a) ==> Touches(op, answer, a) || Has(cells, a))
            && (Ranked(after, a, b) ==> !Touches(op, answer, b) && (Touches(op, answer, a) || Ranked(cells, a, b)))
  {
    hide Live, Without, Overflow, Ranked, DistinctKeys, Find;
    match op
    case Len => RankedLive(cells, now, a, b);
    case Delete(key) => RankedWithout(cells, key, a, b);
    case Get(key) =>
      RankedWithout(cells, key, a, b);
      RankedWithout(cells, key, b, a);
      WithoutFacts(cells, key);
      if Find(cells, key).Some? {
        RankedPush(Find(cells, key).value, Without(cells, key), a, b);
      } else if Ranked(cells, a, b) {
        RankedHas(cells, a, b);
      }
    case Set(key, value, ttl) =>
      RankedWithout(cells, key, a, b);
      RankedWithout(cells, key, b, a);
      if ttl > 0 {
        var cell := Cell(key, value, now + ttl);
        RankedPush(cell, Without(cells, key), a, b);
        RankedPush(cell, cells, a, b);
        RankedOverflow([cell] + cells, max, now, a, b);
        if Ranked(cells, a, b) {
          RankedHas(cells, a, b);
        }
      }
  }

  // ---------- runs ----------

  function RunAfter<K(==), V>(cells: Cells<K, V>, max: nat, ops: seq<Timed<K, V>>): Cells<K, V> {
    if ops == [] then cells
    else
      var last := ops[|ops| - 1];
      After(RunAfter(cells, max, ops[..|ops| - 1]), max, last.op, last.now)
  }

  lemma {:induction false} RunKeepsBounds<K, V>(cells: Cells<K, V>, max: nat, ops: seq<Timed<K, V>>)
    requires Bounded(cells, max)
    ensures Bounded(RunAfter(cells, max, ops), max)
  {
    hide LazyStep, Bounded;
    if ops != [] {
      var front, last := ops[..|ops| - 1], ops[|ops| - 1];
      RunKeepsBounds(cells, max, front);
      LazyStepKeepsBounds(RunAfter(cells, max, front), max, last.op, last.now);
    }
  }

  /** The answers of a run, one operation further. */
  lemma {:induction false} RunAppend<K, V>(cells: Cells<K, V>, max: nat, ops: seq<Timed<K, V>>, last: Timed<K, V>)
    ensures |LazyRun(cells, max, ops)| == |ops|
    ensures LazyRun(cells, max, ops + [last]) ==
              LazyRun(cells, max, ops) + [Shown(RunAfter(cells, max, ops), max, last.op, last.now)]
    decreases |ops|
  {
    hide LazyStep;
    if ops == [] {
      assert [last][1..] == [] && ops + [last] == [last];
    } else {
      assert (ops + [last])[1..] == ops[1..] + [last];
      var next := After(cells, max, ops[0].op, ops[0].now);
      RunAppend(next, max, ops[1..], last);
      RunFromNext(cells, max, ops);
    }
  }

  lemma {:induction false} RunFromNext<K, V>(cells: Cells<K, V>, max: nat, ops: seq<Timed<K, V>>)
    requires ops != []
    ensures RunAfter(After(cells, max, ops[0].op, ops[0].now), max, ops[1..]) == RunAfter(cells, max, ops)
    decreases |ops|
  {
    hide LazyStep;
    var front := ops[..|ops| - 1];
    if front == [] {
      assert ops[1..] == [];
    } else {
      RunFromNext(cells, max, front);
      assert ops[1..][..|ops| - 2] == front[1..];
    }
  }

  predicate TouchedAt<K(==), V>(ops: seq<Timed<K, V>>, answers: seq<Answer<V>>, n: nat, key: K) {
    n < |ops| && n < |answers| && Touches(ops[n].op, answers[n], key)
  }

  /** The last touch of the first key came after the last touch of the second, if that was touched at all. */
  ghost predicate TouchedLater<K, V>(ops: seq<Timed<K, V>>, answers: seq<Answer<V>>, a: K, b: K) {
    exists n: nat :: TouchedAt(ops, answers, n, a) && forall m: nat :: n <= m ==> !TouchedAt(ops, answers, m, b)
  }

  ghost predicate Touched<K, V>(ops: seq<Timed<K, V>>, answers: seq<Answer<V>>, key: K) {
    exists n: nat :: TouchedAt(ops, answers, n, key)
  }

  /** In every run from an empty cache the cells stand in descending order of the last touch of their keys. */
  lemma {:induction false} CellsStandByLastTouch<K, V>(max: nat, ops: seq<Timed<K, V>>, a: K, b: K)
    ensures var cells, answers := RunAfter([], max, ops), LazyRun([], max, ops);
            && (Has(cells, a) ==> Touched(ops, answers, a))
            && (Ranked(cells, a, b) ==> TouchedLater(ops, answers, a, b))
    decreases |ops|
  {
    hide LazyStep, LazyRun, Has, Ranked, Touches;
    if ops == [] {
      NothingRanked<K, V>(a, b);
    } else {
      var front, last := ops[..|ops| - 1], ops[|ops| - 1];
      assert ops == front + [last];
      CellsStandByLastTouch(max, front, a, b);
      RunKeepsBounds<K, V>([], max, front);
      StepOrder(RunAfter([], max, front), max, last.op, last.now, a, b);
      RunAppend([], max, front, last);
      var answer := Shown(RunAfter([], max, front), max, last.op, last.now);
      TouchesExtend(front, LazyRun([], max, front), last, answer, a, b);
    }
  }

  lemma NothingRanked<K, V>(a: K, b: K)
    ensures !Has<K, V>([], a) && !Ranked<K, V>([], a, b) && Bounded<K, V>([], 0)
  {
  }

  lemma TouchesExtend<K, V>(
      ops: seq<Timed<K, V>>, answers: seq<Answer<V>>, last: Timed<K, V>, answer: Answer<V>, a: K, b: K)
    requires |ops| == |answers|
    ensures Touched(ops, answers, a) || Touches(last.op, answer, a) ==> Touched(ops + [last], answers + [answer], a)
    ensures !Touches(last.op, answer, b) && (Touches(last.op, answer, a) || TouchedLater(ops, answers, a, b)) ==>
              TouchedLater(ops + [last], answers + [answer], a, b)
  {
    hide Touches;
    var longer, told := ops + [last], answers + [answer];
    assert forall n: nat, key :: n < |ops| ==> TouchedAt(longer, told, n, key) == TouchedAt(ops, answers, n, key);
    assert forall key :: TouchedAt(longer, told, |ops|, key) == Touches(last.op, answer, key);
    if Touches(last.op, answer, a) {
      assert TouchedAt(longer, told, |ops|, a);
    }
    if n: nat :| TouchedAt(ops, answers, n, a) && forall m: nat :: n <= m ==> !TouchedAt(ops, answers, m, b) {
      assert TouchedAt(longer, told, n, a);
    }
  }

  /**
  The victim of an insertion into a full cache without expired cells is the key touched longest ago: all others
  stay, and each of them was touched after it.
  */
  lemma VictimWasTouchedLongestAgo<K, V>(
      max: nat, ops: seq<Timed<K, V>>, key: K, value: V, ttl: int, now: int, i: nat)
    requires max > 0 && ttl > 0
    requires var cells := RunAfter([], max, ops);
             |cells| == max && i < max - 1 && Find(cells, key) == None && !SomeExpired(cells, now)
    ensures var cells := RunAfter([], max, ops);
            var after, victim := After(cells, max, Set(key, value, ttl), now), cells[max - 1].key;
            && Find(after, victim) == None && Find(after, cells[i].key) == Some(cells[i])
            && TouchedLater(ops, LazyRun([], max, ops), cells[i].key, victim)
  {
    hide LazyStep, LazyRun, Ranked, Find, SomeExpired, TouchedLater;
    var cells := RunAfter([], max, ops);
    EmptyIsLive<K, V>(now, max);
    RunKeepsBounds<K, V>([], max, ops);
    EvictsExactly(cells, max, key, value, ttl, now, i);
    EvictsExactly(cells, max, key, value, ttl, now, max - 1);
    RankedAt(cells, i, max - 1);
    CellsStandByLastTouch(max, ops, cells[i].key, cells[max - 1].key);
  }
}
