/**
The bounded TTL + LRU cache as a value: its cells in recency order, the most recently used first.
Two machines run over such values. The lazy one does what internal/cache/lru.go does: an expired
cell stays until something trips over it. The eager one is the cache a reader has in mind: it purges
every expired cell before each operation and only ever evicts the least recently used live cell.
The main theorem says that no client can tell them apart while the clock does not run backwards.
*/
module CacheSpec {
  import opened Common

  datatype Cell<K, V> = Cell(key: K, value: V, expiresAt: int) {
    /** A cell is dead from its expiry instant on, that instant included. */
    predicate LiveAt(now: int) {
      now < expiresAt
    }
  }

  type Cells<K, V> = seq<Cell<K, V>>

  function Live<K, V>(cells: Cells<K, V>, now: int): Cells<K, V> {
    if cells == [] then []
    else (if cells[0].LiveAt(now) then [cells[0]] else []) + Live(cells[1..], now)
  }

  function Without<K(==), V>(cells: Cells<K, V>, key: K): Cells<K, V> {
    if cells == [] then []
    else (if cells[0].key != key then [cells[0]] else []) + Without(cells[1..], key)
  }

  function Find<K(==), V>(cells: Cells<K, V>, key: K): Option<Cell<K, V>> {
    if cells == [] then None
    else if cells[0].key == key then Some(cells[0])
    else Find(cells[1..], key)
  }

  ghost predicate DistinctKeys<K, V>(cells: Cells<K, V>) {
    cells == [] || (Find(cells[1..], cells[0].key) == None && DistinctKeys(cells[1..]))
  }

  // ---------- operations and answers ----------

  datatype Op<K, V> =
    | Get(key: K)
    | Set(key: K, value: V, ttl: int)
    | Delete(key: K)
    | Len

  datatype Answer<V> = Found(value: V) | Missing | Done | Size(n: nat)

  /** An operation with the instant its clock shows. */
  datatype Timed<K, V> = Timed(op: Op<K, V>, now: int)

  // ---------- the lazy machine: what the implementation does ----------

  function LazyStep<K(==), V>(cells: Cells<K, V>, max: nat, op: Op<K, V>, now: int): (Cells<K, V>, Answer<V>) {
    match op
    case Get(key) =>
      (match Find(cells, key)
       case None => (cells, Missing)
       case Some(cell) =>
         if cell.LiveAt(now) then ([cell] + Without(cells, key), Found(cell.value))
         else (Without(cells, key), Missing))
    case Set(key, value, ttl) =>
      if ttl <= 0 then (Without(cells, key), Done)
      else
        var cell := Cell(key, value, now + ttl);
        if Find(cells, key).Some? then ([cell] + Without(cells, key), Done)
        else (Overflow([cell] + cells, max, now), Done)
    case Delete(key) => (Without(cells, key), Done)
    case Len => (Live(cells, now), Size(|Live(cells, now)|))
  }

  /** Only an overfull cache sheds cells: the expired ones first, then the least recently used. */
  function Overflow<K, V>(cells: Cells<K, V>, max: nat, now: int): Cells<K, V> {
    if |cells| <= max then cells
    else DropLast(Live(cells, now), max)
  }

  function DropLast<K, V>(cells: Cells<K, V>, max: nat): Cells<K, V> {
    if |cells| > max then cells[..|cells| - 1] else cells
  }

  // ---------- the eager machine: the reference cache ----------

  function EagerStep<K(==), V>(cells: Cells<K, V>, max: nat, op: Op<K, V>, now: int): (Cells<K, V>, Answer<V>) {
    var live := Live(cells, now);
    match op
    case Get(key) =>
      (match Find(live, key)
       case None => (live, Missing)
       case Some(cell) => ([cell] + Without(live, key), Found(cell.value)))
    case Set(key, value, ttl) =>
      if ttl <= 0 then (Without(live, key), Done)
      else (DropLast([Cell(key, value, now + ttl)] + Without(live, key), max), Done)
    case Delete(key) => (Without(live, key), Done)
    case Len => (live, Size(|live|))
  }

  // ---------- runs ----------

  function LazyRun<K(==), V>(cells: Cells<K, V>, max: nat, ops: seq<Timed<K, V>>): seq<Answer<V>>
    decreases |ops|
  {
    if ops == [] then []
    else
      var (next, answer) := LazyStep(cells, max, ops[0].op, ops[0].now);
      [answer] + LazyRun(next, max, ops[1..])
  }

  function EagerRun<K(==), V>(cells: Cells<K, V>, max: nat, ops: seq<Timed<K, V>>): seq<Answer<V>>
    decreases |ops|
  {
    if ops == [] then []
    else
      var (next, answer) := EagerStep(cells, max, ops[0].op, ops[0].now);
      [answer] + EagerRun(next, max, ops[1..])
  }

  ghost predicate ClockNeverRunsBack<K(!new), V(!new)>(ops: seq<Timed<K, V>>) {
    forall i, j :: 0 <= i < j < |ops| ==> ops[i].now <= ops[j].now
  }

  // ---------- facts about the list functions ----------

  lemma {:induction false} LiveConcat<K, V>(a: Cells<K, V>, b: Cells<K, V>, now: int)
    ensures Live(a + b, now) == Live(a, now) + Live(b, now)
  {
    if a == [] {
      assert a + b == b;
    } else {
      LiveConcat(a[1..], b, now);
      assert (a + b)[0] == a[0] && (a + b)[1..] == a[1..] + b;
      var head := if a[0].LiveAt(now) then [a[0]] else [];
      assert head + (Live(a[1..], now) + Live(b, now)) == (head + Live(a[1..], now)) + Live(b, now);
    }
  }

  lemma {:induction false} LiveShrinks<K, V>(cells: Cells<K, V>, now: int)
    ensures |Live(cells, now)| <= |cells|
    ensures (forall i :: 0 <= i < |cells| ==> cells[i].LiveAt(now)) <==> Live(cells, now) == cells
  {
    if cells != [] {
      LiveShrinks(cells[1..], now);
      if cells[0].LiveAt(now) {
        assert Live(cells, now)[1..] == Live(cells[1..], now);
        assert forall i :: 0 <= i < |cells[1..]| ==> cells[1..][i] == cells[i + 1];
        assert (forall i :: 0 <= i < |cells[1..]| ==> cells[1..][i].LiveAt(now))
           <==> (forall i :: 0 <= i < |cells| ==> cells[i].LiveAt(now)) by {
          if forall i :: 0 <= i < |cells[1..]| ==> cells[1..][i].LiveAt(now) {
            forall i | 0 <= i < |cells| ensures cells[i].LiveAt(now) {
              assert i == 0 || cells[i] == cells[1..][i - 1];
            }
          }
        }
      }
    }
  }

  /** With distinct keys, looking up a live cell is looking up a cell and then checking its expiry. */
  lemma {:induction false} FindLive<K, V>(cells: Cells<K, V>, key: K, now: int)
    requires DistinctKeys(cells)
    ensures var found := Find(cells, key);
            Find(Live(cells, now), key) == if found.Some? && found.value.LiveAt(now) then found else None
  {
    if cells != [] {
      FindLive(cells[1..], key, now);
      FindLive(cells[1..], cells[0].key, now);
      if cells[0].LiveAt(now) {
        assert Live(cells, now)[1..] == Live(cells[1..], now);
      } else {
        assert Live(cells, now) == Live(cells[1..], now);
      }
    }
  }

  lemma {:induction false} LiveDistinct<K, V>(cells: Cells<K, V>, now: int)
    requires DistinctKeys(cells)
    ensures DistinctKeys(Live(cells, now))
  {
    if cells != [] {
      LiveDistinct(cells[1..], now);
      FindLive(cells[1..], cells[0].key, now);
      if cells[0].LiveAt(now) {
        assert Live(cells, now)[1..] == Live(cells[1..], now);
      } else {
        assert Live(cells, now) == Live(cells[1..], now);
      }
    }
  }

  lemma {:induction false} LiveTwice<K, V>(cells: Cells<K, V>, earlier: int, now: int)
    requires earlier <= now
    ensures Live(Live(cells, earlier), now) == Live(cells, now)
  {
    if cells != [] {
      LiveTwice(cells[1..], earlier, now);
      var head := if cells[0].LiveAt(earlier) then [cells[0]] else [];
      LiveConcat(head, Live(cells[1..], earlier), now);
      assert cells[0].LiveAt(now) ==> cells[0].LiveAt(earlier);
    }
  }

  lemma {:induction false} WithoutConcat<K, V>(a: Cells<K, V>, b: Cells<K, V>, key: K)
    ensures Without(a + b, key) == Without(a, key) + Without(b, key)
  {
    if a == [] {
      assert a + b == b;
    } else {
      assert (a + b)[1..] == a[1..] + b;
      WithoutConcat(a[1..], b, key);
    }
  }

  lemma {:induction false} WithoutFacts<K, V>(cells: Cells<K, V>, key: K)
    ensures Find(cells, key) == None ==> Without(cells, key) == cells
    ensures Find(cells, key) != None ==> |Without(cells, key)| < |cells|
    ensures Find(cells, key).Some? ==> Find(cells, key).value.key == key
  {
    if cells != [] {
      WithoutFacts(cells[1..], key);
    }
  }

  lemma {:induction false} FindWithout<K, V>(cells: Cells<K, V>, key: K, other: K)
    ensures Find(Without(cells, key), other) == if other == key then None else Find(cells, other)
  {
    if cells != [] {
      FindWithout(cells[1..], key, other);
      if cells[0].key != key {
        assert Without(cells, key)[1..] == Without(cells[1..], key);
      } else {
        assert Without(cells, key) == Without(cells[1..], key);
      }
    }
  }

  lemma {:induction false} WithoutDistinct<K, V>(cells: Cells<K, V>, key: K)
    requires DistinctKeys(cells)
    ensures DistinctKeys(Without(cells, key))
  {
    if cells != [] {
      WithoutDistinct(cells[1..], key);
      FindWithout(cells[1..], key, cells[0].key);
      if cells[0].key != key {
        assert Without(cells, key)[1..] == Without(cells[1..], key);
      } else {
        assert Without(cells, key) == Without(cells[1..], key);
      }
    }
  }

  /** Taking the one cell with a key out of its place leaves exactly the others. */
  lemma {:induction false} WithoutAt<K, V>(cells: Cells<K, V>, i: nat)
    requires i < |cells| && DistinctKeys(cells)
    ensures Find(cells, cells[i].key) == Some(cells[i])
    ensures Without(cells, cells[i].key) == cells[..i] + cells[i + 1..]
  {
    if i == 0 {
      WithoutFacts(cells[1..], cells[0].key);
    } else {
      WithoutAt(cells[1..], i - 1);
      assert cells[1..][i - 1] == cells[i];
      assert cells[..i] + cells[i + 1..] == [cells[0]] + (cells[1..][..i - 1] + cells[1..][i..]);
    }
  }

  lemma {:induction false} FindMember<K, V>(cells: Cells<K, V>, key: K)
    ensures var found := Find(cells, key);
            found.Some? ==> found.value.key == key && exists i :: 0 <= i < |cells| && cells[i] == found.value
  {
    if cells != [] && cells[0].key != key {
      FindMember(cells[1..], key);
      if Find(cells[1..], key).Some? {
        var i :| 0 <= i < |cells[1..]| && cells[1..][i] == Find(cells[1..], key).value;
        assert cells[i + 1] == Find(cells, key).value;
      }
    }
  }

  lemma {:induction false} DistinctByIndex<K, V>(cells: Cells<K, V>)
    requires forall i, j :: 0 <= i < j < |cells| ==> cells[i].key != cells[j].key
    ensures DistinctKeys(cells)
  {
    if cells != [] {
      DistinctByIndex(cells[1..]);
      FindMember(cells[1..], cells[0].key);
    }
  }

  lemma {:induction false} TakeDistinct<K, V>(cells: Cells<K, V>, n: nat)
    requires n <= |cells| && DistinctKeys(cells)
    ensures DistinctKeys(cells[..n])
  {
    if n > 0 {
      assert cells[..n][1..] == cells[1..][..n - 1];
      TakeDistinct(cells[1..], n - 1);
      FindTake(cells[1..], n - 1, cells[0].key);
    }
  }

  lemma {:induction false} FindTake<K, V>(cells: Cells<K, V>, n: nat, key: K)
    requires n <= |cells|
    ensures Find(cells[..n], key) == None || Find(cells[..n], key) == Find(cells, key)
  {
    if n > 0 {
      assert cells[..n][1..] == cells[1..][..n - 1];
      FindTake(cells[1..], n - 1, key);
    }
  }

  lemma {:induction false} LiveWithoutCommute<K, V>(cells: Cells<K, V>, key: K, now: int)
    ensures Live(Without(cells, key), now) == Without(Live(cells, now), key)
  {
    if cells != [] {
      LiveWithoutCommute(cells[1..], key, now);
      var kept := if cells[0].key != key then [cells[0]] else [];
      LiveConcat(kept, Without(cells[1..], key), now);
      var live := if cells[0].LiveAt(now) then [cells[0]] else [];
      WithoutConcat(live, Live(cells[1..], now), key);
    }
  }

  // ---------- invariants of the lazy machine ----------

  ghost predicate Bounded<K, V>(cells: Cells<K, V>, max: nat) {
    DistinctKeys(cells) && |cells| <= max
  }

  lemma OverflowBounds<K, V>(cells: Cells<K, V>, max: nat, now: int)
    requires DistinctKeys(cells) && |cells| <= max + 1
    ensures Bounded(Overflow(cells, max, now), max)
  {
    LiveShrinks(cells, now);
    LiveDistinct(cells, now);
    var live := Live(cells, now);
    if |live| > max {
      TakeDistinct(live, |live| - 1);
    }
  }

  /** One operation keeps keys distinct and the size within the capacity. */
  lemma LazyStepKeepsBounds<K, V>(cells: Cells<K, V>, max: nat, op: Op<K, V>, now: int)
    requires Bounded(cells, max)
    ensures Bounded(LazyStep(cells, max, op, now).0, max)
  {
    if op.Len? {
      LiveShrinks(cells, now);
      LiveDistinct(cells, now);
    } else {
      var key := op.key;
      WithoutFacts(cells, key);
      WithoutDistinct(cells, key);
      FindWithout(cells, key, key);
      if op.Set? && op.ttl > 0 && Find(cells, key) == None {
        var cell := Cell(key, op.value, now + op.ttl);
        assert ([cell] + cells)[1..] == cells;
        OverflowBounds([cell] + cells, max, now);
      } else if op.Get? && Find(cells, key).Some? {
        assert ([Find(cells, key).value] + Without(cells, key))[1..] == Without(cells, key);
      } else if op.Set? {
        assert ([Cell(key, op.value, now + op.ttl)] + Without(cells, key))[1..] == Without(cells, key);
      }
    }
  }

  /** A key set with a positive TTL is never the victim of its own insertion. */
  lemma SetKeyIsStored<K, V>(cells: Cells<K, V>, max: nat, key: K, value: V, ttl: int, now: int)
    requires Bounded(cells, max) && max > 0 && ttl > 0
    ensures Find(LazyStep(cells, max, Set(key, value, ttl), now).0, key) == Some(Cell(key, value, now + ttl))
  {
    var cell := Cell(key, value, now + ttl);
    LiveConcat([cell], cells, now);
  }

  // ---------- the simulation ----------

  /** One operation: the same answer, and the states still agree on every live cell in recency order. */
  lemma LazyRefinesEager<K, V>(
      lazy: Cells<K, V>, eager: Cells<K, V>, max: nat, before: int, op: Op<K, V>, now: int)
    requires Bounded(lazy, max) && eager == Live(lazy, before) && before <= now
    ensures LazyStep(lazy, max, op, now).1 == EagerStep(eager, max, op, now).1
    ensures EagerStep(eager, max, op, now).0 == Live(LazyStep(lazy, max, op, now).0, now)
  {
    hide LazyStep, EagerStep, Live;
    LiveTwice(lazy, before, now);
    match op {
      case Get(key) => GetRefines(lazy, eager, max, key, now);
      case Set(key, value, ttl) => SetRefines(lazy, eager, max, key, value, ttl, now);
      case Delete(key) => DeleteRefines(lazy, eager, max, key, now);
      case Len => LenRefines(lazy, eager, max, now);
    }
  }

  lemma GetRefines<K, V>(lazy: Cells<K, V>, eager: Cells<K, V>, max: nat, key: K, now: int)
    requires DistinctKeys(lazy) && Live(eager, now) == Live(lazy, now)
    ensures LazyStep(lazy, max, Get(key), now).1 == EagerStep(eager, max, Get(key), now).1
    ensures EagerStep(eager, max, Get(key), now).0 == Live(LazyStep(lazy, max, Get(key), now).0, now)
  {
    FindLive(lazy, key, now);
    LiveWithoutCommute(lazy, key, now);
    WithoutFacts(Live(lazy, now), key);
    var found := Find(lazy, key);
    if found.Some? {
      LiveConcat([found.value], Without(lazy, key), now);
    }
  }

  lemma DeleteRefines<K, V>(lazy: Cells<K, V>, eager: Cells<K, V>, max: nat, key: K, now: int)
    requires Live(eager, now) == Live(lazy, now)
    ensures LazyStep(lazy, max, Delete(key), now).1 == EagerStep(eager, max, Delete(key), now).1
    ensures EagerStep(eager, max, Delete(key), now).0 == Live(LazyStep(lazy, max, Delete(key), now).0, now)
  {
    LiveWithoutCommute(lazy, key, now);
  }

  lemma LenRefines<K, V>(lazy: Cells<K, V>, eager: Cells<K, V>, max: nat, now: int)
    requires Live(eager, now) == Live(lazy, now)
    ensures LazyStep(lazy, max, Len, now).1 == EagerStep(eager, max, Len, now).1
    ensures EagerStep(eager, max, Len, now).0 == Live(LazyStep(lazy, max, Len, now).0, now)
  {
    LiveTwice(lazy, now, now);
  }

  lemma SetRefines<K, V>(
      lazy: Cells<K, V>, eager: Cells<K, V>, max: nat, key: K, value: V, ttl: int, now: int)
    requires Bounded(lazy, max) && Live(eager, now) == Live(lazy, now)
    ensures LazyStep(lazy, max, Set(key, value, ttl), now).1 == EagerStep(eager, max, Set(key, value, ttl), now).1
    ensures EagerStep(eager, max, Set(key, value, ttl), now).0
         == Live(LazyStep(lazy, max, Set(key, value, ttl), now).0, now)
  {
    hide Live, Without, Find, DropLast, Overflow;
    if ttl > 0 {
      SetShows(lazy, max, key, value, ttl, now);
    } else {
      LiveWithoutCommute(lazy, key, now);
    }
  }

  lemma SetShows<K, V>(lazy: Cells<K, V>, max: nat, key: K, value: V, ttl: int, now: int)
    requires Bounded(lazy, max) && ttl > 0
    ensures Live(LazyStep(lazy, max, Set(key, value, ttl), now).0, now)
         == DropLast([Cell(key, value, now + ttl)] + Without(Live(lazy, now), key), max)
  {
    var cell := Cell(key, value, now + ttl);
    var rest := Without(lazy, key);
    FindLive(lazy, key, now);
    LiveWithoutCommute(lazy, key, now);
    WithoutFacts(lazy, key);
    WithoutFacts(Live(lazy, now), key);
    LiveConcat([cell], rest, now);
    LiveShrinks(rest, now);
    assert Live([cell], now) == [cell];
    if Find(lazy, key) == None {
      OverflowIsEager([cell] + lazy, max, now);
    }
  }

  /**
  Shedding expired cells only when full shows no more and no fewer live cells than shedding them at once; of too many
  live cells the last one goes.
  */
  lemma OverflowIsEager<K, V>(cells: Cells<K, V>, max: nat, now: int)
    ensures Live(Overflow(cells, max, now), now) == DropLast(Live(cells, now), max)
    ensures var live := Live(cells, now);
            DropLast(live, max) == if |live| > max then live[..|live| - 1] else live
  {
    var live := Live(cells, now);
    LiveTwice(cells, now, now);
    LiveShrinks(cells, now);
    if |live| > max {
      LiveShrinks(live, now);
      LiveShrinks(live[..|live| - 1], now);
    }
  }

  /**
  No run tells the lazy cache from the eager one: the same operations at non-decreasing instants
  get the same answers, whatever the keys, values, lifetimes and capacity.
  */
  lemma {:induction false} LazyRunRefinesEagerRun<K(!new), V(!new)>(
      lazy: Cells<K, V>, eager: Cells<K, V>, max: nat, before: int, ops: seq<Timed<K, V>>)
    requires Bounded(lazy, max) && eager == Live(lazy, before)
    requires ClockNeverRunsBack(ops) && (ops != [] ==> before <= ops[0].now)
    ensures LazyRun(lazy, max, ops) == EagerRun(eager, max, ops)
    decreases |ops|
  {
    if ops != [] {
      var Timed(op, now) := ops[0];
      LazyRefinesEager(lazy, eager, max, before, op, now);
      LazyStepKeepsBounds(lazy, max, op, now);
      assert ClockNeverRunsBack(ops[1..]);
      LazyRunRefinesEagerRun(LazyStep(lazy, max, op, now).0, EagerStep(eager, max, op, now).0, max, now, ops[1..]);
    }
  }

  lemma LazyRunTail<K, V>(cells: Cells<K, V>, max: nat, ops: seq<Timed<K, V>>, i: nat)
    requires i < |ops|
    ensures var (next, answer) := LazyStep(cells, max, ops[i].op, ops[i].now);
            LazyRun(cells, max, ops[i..]) == [answer] + LazyRun(next, max, ops[i + 1..])
  {
    hide LazyStep;
    assert ops[i..][0] == ops[i] && ops[i..][1..] == ops[i + 1..];
  }

  lemma NoOperations<K, V>(cells: Cells<K, V>, max: nat)
    ensures LazyRun(cells, max, []) == EagerRun(cells, max, []) == []
  {
  }

  lemma EmptyIsLive<K, V>(now: int, max: nat)
    ensures Bounded<K, V>([], max) && Live<K, V>([], now) == []
  {
  }

  /** One run with a peak: the lazy cache still finds what the eager one has purged. */
  lemma BackwardClockIsObservable()
    ensures exists ops: seq<Timed<int, int>> ::
              !ClockNeverRunsBack(ops) && LazyRun([], 1, ops) != EagerRun([], 1, ops)
  {
    var store := Timed(Op<int, int>.Set(0, 7, 1), 0);
    var miss := Timed(Op<int, int>.Get(1), 5);
    var hit := Timed(Op<int, int>.Get(0), 0);
    var cell := Cell(0, 7, 1);
    SingleCell(cell, 1, 5);
    SingleCell(cell, 0, 0);
    assert LazyStep([], 1, store.op, 0).0 == [cell] && EagerStep([], 1, store.op, 0).0 == [cell];
    assert LazyStep([cell], 1, miss.op, 5).0 == [cell] && EagerStep([cell], 1, miss.op, 5).0 == [];
    RunTwoThenOne([], [cell], [cell], 1, store, miss, hit);
    RunTwoThenOne([], [cell], [], 1, store, miss, hit);
    var ops := [store, miss, hit];
    assert LazyStep([cell], 1, hit.op, 0).1 == Found(7) && EagerStep([], 1, hit.op, 0).1 == Missing;
    assert LazyRun([], 1, ops)[2] == Found(7) && EagerRun([], 1, ops)[2] == Missing;
    assert ops[1].now > ops[2].now;
  }

  lemma SingleCell<K, V>(cell: Cell<K, V>, key: K, now: int)
    ensures Live([cell], now) == if cell.LiveAt(now) then [cell] else []
    ensures Find([cell], key) == if cell.key == key then Some(cell) else None
  {
    assert [cell][1..] == [];
  }

  lemma RunTwoThenOne<K, V>(
      start: Cells<K, V>, second: Cells<K, V>, third: Cells<K, V>, max: nat,
      a: Timed<K, V>, b: Timed<K, V>, c: Timed<K, V>)
    ensures LazyStep(start, max, a.op, a.now).0 == second && LazyStep(second, max, b.op, b.now).0 == third ==>
              && |LazyRun(start, max, [a, b, c])| == 3
              && LazyRun(start, max, [a, b, c])[2] == LazyStep(third, max, c.op, c.now).1
    ensures EagerStep(start, max, a.op, a.now).0 == second && EagerStep(second, max, b.op, b.now).0 == third ==>
              && |EagerRun(start, max, [a, b, c])| == 3
              && EagerRun(start, max, [a, b, c])[2] == EagerStep(third, max, c.op, c.now).1
  {
    hide LazyStep, EagerStep;
    assert [a, b, c][1..] == [b, c] && [b, c][1..] == [c] && [c][1..] == [];
    var s2, t2 := LazyStep(start, max, a.op, a.now).0, EagerStep(start, max, a.op, a.now).0;
    assert LazyRun(start, max, [a, b, c])[1..] == LazyRun(s2, max, [b, c]);
    assert EagerRun(start, max, [a, b, c])[1..] == EagerRun(t2, max, [b, c]);
    assert LazyRun(second, max, [b, c])[1..] == LazyRun(LazyStep(second, max, b.op, b.now).0, max, [c]);
    assert EagerRun(second, max, [b, c])[1..] == EagerRun(EagerStep(second, max, b.op, b.now).0, max, [c]);
    assert LazyRun(third, max, [c]) == [LazyStep(third, max, c.op, c.now).1];
    assert EagerRun(third, max, [c]) == [EagerStep(third, max, c.op, c.now).1];
  }
}
