/**
How the clock of the bounded cache may run. The lazy and the eager cache answer every list of operations
alike exactly when the instants have no peak: none that lies above an earlier and a later one. So the clock
may run backwards until it first advances, and must not run back from then on.
*/
module ClockShape {
  import opened Common
  import opened CacheSpec

  function Instants<K, V>(ops: seq<Timed<K, V>>): seq<int> {
    seq(|ops|, i requires 0 <= i < |ops| => ops[i].now)
  }

  predicate IsPeak(t: seq<int>, s: nat, i: nat, j: nat) {
    s < i < j < |t| && t[s] < t[i] && t[j] < t[i]
  }

  ghost predicate NoPeak(t: seq<int>) {
    forall s, i, j :: !IsPeak(t, s, i, j)
  }

  // ---------- no peak: no difference ----------

  lemma PushLive<K, V>(cell: Cell<K, V>, cells: Cells<K, V>, now: int)
    requires cell.LiveAt(now) && Live(cells, now) == cells
    ensures Live([cell] + cells, now) == [cell] + cells
  {
    SingleCell(cell, cell.key, now);
    LiveConcat([cell], cells, now);
  }

  /** While nothing has expired the caches do the same, and an operation leaves only live cells behind. */
  lemma StepKeepsLive<K, V>(cells: Cells<K, V>, max: nat, op: Op<K, V>, now: int)
    requires Bounded(cells, max) && Live(cells, now) == cells
    ensures var after := LazyStep(cells, max, op, now).0; Live(after, now) == after
    ensures LazyStep(cells, max, op, now) == EagerStep(cells, max, op, now)
  {
    LazyRefinesEager(cells, cells, max, now, op, now);
    hide EagerStep, Find, Without, Live, Overflow;
    match op
    case Get(key) =>
      LiveWithoutCommute(cells, key, now);
      FindLive(cells, key, now);
      if Find(cells, key).Some? {
        PushLive(Find(cells, key).value, Without(cells, key), now);
      }
    case Set(key, value, ttl) =>
      LiveWithoutCommute(cells, key, now);
      if ttl > 0 {
        var cell := Cell(key, value, now + ttl);
        PushLive(cell, Without(cells, key), now);
        PushLive(cell, cells, now);
        NothingToPurge([cell] + cells, max, now);
      }
    case Delete(key) => LiveWithoutCommute(cells, key, now);
    case Len =>
  }

  lemma NothingToPurge<K, V>(cells: Cells<K, V>, max: nat, now: int)
    requires Live(cells, now) == cells
    ensures Live(Overflow(cells, max, now), now) == Overflow(cells, max, now)
  {
    OverflowIsEager(cells, max, now);
  }

  /** What is live now was live at any earlier instant. */
  lemma LiveEarlier<K, V>(cells: Cells<K, V>, now: int, earlier: int)
    requires Live(cells, now) == cells && earlier <= now
    ensures Live(cells, earlier) == cells
  {
    LiveShrinks(cells, now);
    LiveShrinks(cells, earlier);
  }

  /** After the first advance a clock without a peak never runs back. */
  lemma NoPeakAfterAdvance<K(!new), V(!new)>(ops: seq<Timed<K, V>>)
    requires NoPeak(Instants(ops)) && |ops| >= 2 && ops[0].now < ops[1].now
    ensures ClockNeverRunsBack(ops)
  {
    var t := Instants(ops);
    forall i: nat | 1 <= i < |ops| ensures ops[1].now <= ops[i].now {
      assert !IsPeak(t, 0, 1, i);
    }
    forall i: nat, j: nat | 0 <= i < j < |ops| ensures ops[i].now <= ops[j].now {
      assert !IsPeak(t, 0, i, j);
    }
  }

  lemma {:induction false} NoPeakNoDifference<K(!new), V(!new)>(cells: Cells<K, V>, max: nat, ops: seq<Timed<K, V>>)
    requires Bounded(cells, max) && NoPeak(Instants(ops)) && (ops != [] ==> Live(cells, ops[0].now) == cells)
    ensures LazyRun(cells, max, ops) == EagerRun(cells, max, ops)
    decreases |ops|
  {
    hide LazyStep, EagerStep, Live, Bounded;
    if ops != [] {
      var Timed(op, now) := ops[0];
      if |ops| >= 2 && now < ops[1].now {
        NoPeakAfterAdvance(ops);
        LazyRunRefinesEagerRun(cells, cells, max, now, ops);
      } else {
        StepKeepsLive(cells, max, op, now);
        LazyStepKeepsBounds(cells, max, op, now);
        var after := LazyStep(cells, max, op, now).0;
        if |ops| >= 2 {
          LiveEarlier(after, now, ops[1].now);
        }
        TailHasNoPeak(ops);
        NoPeakNoDifference(after, max, ops[1..]);
      }
    }
  }

  lemma TailHasNoPeak<K, V>(ops: seq<Timed<K, V>>)
    requires ops != [] && NoPeak(Instants(ops))
    ensures NoPeak(Instants(ops[1..]))
  {
    var t, rest := Instants(ops), Instants(ops[1..]);
    forall s: nat, i: nat, j: nat ensures !IsPeak(rest, s, i, j) {
      assert !IsPeak(t, s + 1, i + 1, j + 1);
    }
  }

  // ---------- a peak: a difference ----------

  /** Store a key before the peak so that it expires there, ask for it after, and for another key at all other times. */
  function Probe<K, V>(t: seq<int>, s: nat, i: nat, j: nat, a: K, v: V, b: K): (ops: seq<Timed<K, V>>)
    requires IsPeak(t, s, i, j)
    ensures Instants(ops) == t
  {
    seq(|t|, k requires 0 <= k < |t| =>
      Timed(if k == s then Set(a, v, t[i] - t[s]) else if k == j then Get(a) else Get(b), t[k]))
  }

  lemma {:induction false} LazyStillFinds<K, V>(cell: Cell<K, V>, max: nat, ops: seq<Timed<K, V>>, j: nat, b: K)
    requires j < |ops| && b != cell.key && (forall k :: 0 <= k < j ==> ops[k].op == Get(b))
    requires ops[j].op == Get(cell.key) && cell.LiveAt(ops[j].now)
    ensures |LazyRun([cell], max, ops)| > j && LazyRun([cell], max, ops)[j] == Found(cell.value)
    decreases j
  {
    SingleCell(cell, ops[0].op.key, ops[0].now);
    if j > 0 {
      LazyStillFinds(cell, max, ops[1..], j - 1, b);
      assert LazyRun([cell], max, ops)[1..] == LazyRun([cell], max, ops[1..]);
    }
  }

  lemma {:induction false} EagerHasPurged<K, V>(
      cells: Cells<K, V>, cell: Cell<K, V>, max: nat, ops: seq<Timed<K, V>>, i: nat, j: nat, b: K)
    requires j < |ops| && ops[j].op == Get(cell.key)
    requires b != cell.key && forall k :: 0 <= k < j ==> ops[k].op == Get(b)
    requires cells == [] || (cells == [cell] && i < j && !cell.LiveAt(ops[i].now))
    ensures |EagerRun(cells, max, ops)| > j && EagerRun(cells, max, ops)[j] == Missing
    decreases j
  {
    SingleCell(cell, ops[0].op.key, ops[0].now);
    if j > 0 {
      var after := EagerStep(cells, max, ops[0].op, ops[0].now).0;
      EagerHasPurged(after, cell, max, ops[1..], if i > 0 then i - 1 else 0, j - 1, b);
      assert EagerRun(cells, max, ops)[1..] == EagerRun(after, max, ops[1..]);
    }
  }

  lemma {:induction false} ProbeTellsThemApart<K, V>(
      max: nat, ops: seq<Timed<K, V>>, s: nat, i: nat, j: nat, a: K, v: V, b: K)
    requires IsPeak(Instants(ops), s, i, j) && a != b && max > 0
    requires ops[s].op == Set(a, v, ops[i].now - ops[s].now) && ops[j].op == Get(a)
    requires forall k :: 0 <= k < j && k != s ==> ops[k].op == Get(b)
    ensures |LazyRun([], max, ops)| > j && LazyRun([], max, ops)[j] == Found(v)
    ensures |EagerRun([], max, ops)| > j && EagerRun([], max, ops)[j] == Missing
    decreases s
  {
    var rest := ops[1..];
    if s > 0 {
      assert Instants(rest) == Instants(ops)[1..];
      ProbeTellsThemApart(max, rest, s - 1, i - 1, j - 1, a, v, b);
      assert LazyRun([], max, ops)[1..] == LazyRun([], max, rest);
      assert EagerRun([], max, ops)[1..] == EagerRun([], max, rest);
    } else {
      var cell := Cell(a, v, ops[i].now);
      LazyStillFinds(cell, max, rest, j - 1, b);
      EagerHasPurged([cell], cell, max, rest, i - 1, j - 1, b);
      assert LazyStep([], max, ops[0].op, ops[0].now).0 == [cell];
      assert EagerStep([], max, ops[0].op, ops[0].now).0 == [cell];
      assert LazyRun([], max, ops)[1..] == LazyRun([cell], max, rest);
      assert EagerRun([], max, ops)[1..] == EagerRun([cell], max, rest);
    }
  }

  // ---------- exactly ----------

  ghost predicate Indistinguishable<K(!new), V(!new)>(max: nat, ops: seq<Timed<K, V>>) {
    LazyRun([], max, ops) == EagerRun([], max, ops)
  }

  /**
  No list of operations at the given instants tells a lazy from an eager cache, whatever its capacity, if and
  only if the instants have no peak. Two keys and one value are enough to see a peak.
  */
  lemma ExactlyWithoutPeak<K(!new), V(!new)>(t: seq<int>, max: nat, a: K, b: K, v: V)
    requires max > 0 && a != b
    ensures (forall ops: seq<Timed<K, V>> :: Instants(ops) == t ==> Indistinguishable(max, ops)) <==> NoPeak(t)
  {
    if NoPeak(t) {
      forall ops: seq<Timed<K, V>> | Instants(ops) == t ensures Indistinguishable(max, ops) {
        RunsWithoutPeakAgree(max, ops);
      }
    } else {
      var s: nat, i: nat, j: nat :| IsPeak(t, s, i, j);
      var ops := Probe(t, s, i, j, a, v, b);
      ProbeTellsThemApart(max, ops, s, i, j, a, v, b);
      assert !Indistinguishable(max, ops);
    }
  }

  lemma RunsWithoutPeakAgree<K(!new), V(!new)>(max: nat, ops: seq<Timed<K, V>>)
    requires NoPeak(Instants(ops))
    ensures LazyRun([], max, ops) == EagerRun([], max, ops)
  {
    if ops != [] {
      EmptyIsLive<K, V>(ops[0].now, max);
    }
    NoPeakNoDifference([], max, ops);
  }
}
