/**
The upstream client for one request (internal/anilibria/client.go): the gate, the attempt-start limiter
and the loop of at most three attempts. Each method is proved against a function; what the functions
promise is proved here for one request and in ClientProtocol for all requests together.
*/
module Client {
  import opened Common
  import opened Retry

  // ---------- the limiter ----------

  /** Each start lies at least the interval after the one before. */
  ghost predicate Spaced(starts: seq<int>, interval: nat) {
    forall i :: 0 < i < |starts| ==> starts[i] >= starts[i - 1] + interval
  }

  /** The limiter as a value, with the starts it has reserved. */
  datatype Pace = Pace(interval: nat, next: int, starts: seq<int>) {
    ghost predicate Valid() {
      Spaced(starts, interval) && (starts != [] ==> next == starts[|starts| - 1] + interval)
    }

    predicate Admits(now: int) {
      now >= next
    }

    /** One look at the clock. */
    function Read(now: int): Pace {
      if Admits(now) then Pace(interval, now + interval, starts + [now]) else this
    }
  }

  class IntervalLimiter {
    const interval: nat
    var next: int
    ghost var starts: seq<int>

    ghost function State(): Pace
      reads this
    {
      Pace(interval, next, starts)
    }

    constructor (interval: nat)
      ensures State() == Pace(interval, 0, []) && State().Valid()
    {
      this.interval, next, starts := interval, 0, [];
    }

    /** The locked region of wait, with the instant the clock shows. The clock may run backwards. */
    method TryReserve(now: int) returns (reserved: bool)
      requires State().Valid()
      modifies this
      ensures State() == old(State()).Read(now) && reserved == old(State()).Admits(now)
      ensures State().Valid()
    {
      PaceIsKept(State(), now);
      reserved := now >= next;
      if reserved {
        next := now + interval;
        starts := starts + [now];
      }
    }
  }

  lemma PaceIsKept(p: Pace, now: int)
    requires p.Valid()
    ensures p.Read(now).Valid()
  {
    assert p.Admits(now) ==> p.Read(now).starts[..|p.starts|] == p.starts;
  }

  /** The limiter holds nobody back longer than the interval asks for. */
  lemma ReservesAsSoonAsAllowed(p: Pace, now: int)
    requires p.Valid() && p.starts != []
    ensures p.Admits(now) <==> now >= p.starts[|p.starts| - 1] + p.interval
    ensures p.Read(now).starts == if p.Admits(now) then p.starts + [now] else p.starts
  {
  }

  /** Any k + 1 consecutive starts span at least k intervals. */
  lemma {:induction false} StartsSpan(starts: seq<int>, interval: nat, i: nat, k: nat)
    requires Spaced(starts, interval) && i + k < |starts|
    ensures starts[i + k] - starts[i] >= k * interval
  {
    if k > 0 {
      StartsSpan(starts, interval, i, k - 1);
      assert starts[i + k] >= starts[i + (k - 1)] + interval;
      assert k * interval == (k - 1) * interval + interval;
    }
  }

  /** The starts in a window of the given length, wherever it begins. */
  function StartsWithin(starts: seq<int>, from: int, window: nat): set<nat> {
    set i | 0 <= i < |starts| && from <= starts[i] <= from + window
  }

  /** A window holds at most length / interval + 1 starts. */
  lemma WindowBound(starts: seq<int>, interval: nat, from: int, window: nat)
    requires Spaced(starts, interval) && interval > 0
    ensures |StartsWithin(starts, from, window)| <= window / interval + 1
  {
    var inside := StartsWithin(starts, from, window);
    if inside != {} {
      var first := Least(inside);
      forall i | i in inside ensures first <= i <= first + window / interval {
        StartsSpan(starts, interval, first, i - first);
        Quotient(i - first, window, interval);
      }
      FewIn(inside, first, window / interval + 1);
    }
  }

  lemma {:induction false} Least(s: set<nat>) returns (least: nat)
    requires s != {}
    ensures least in s && forall i :: i in s ==> least <= i
    decreases s
  {
    least :| least in s;
    if s != {least} {
      var other := Least(s - {least});
      assert forall i :: i in s ==> i == least || i in s - {least};
      least := if other < least then other else least;
    }
  }

  /** A set of numbers in a range is no larger than the range. */
  lemma {:induction false} FewIn(s: set<nat>, from: nat, n: nat)
    requires forall i :: i in s ==> from <= i < from + n
    ensures |s| <= n
    decreases n
  {
    if n > 0 {
      FewIn(s - {from + n - 1}, from, n - 1);
    } else {
      assert s == {};
    }
  }

  lemma Quotient(k: nat, window: nat, interval: nat)
    requires interval > 0 && k * interval <= window
    ensures k <= window / interval
  {
    var q := window / interval;
    assert window == q * interval + window % interval;
    assert (q + 1) * interval == q * interval + interval;
    Smaller(k, q + 1, interval);
  }

  lemma Smaller(a: nat, b: nat, c: nat)
    requires a * c < b * c
    ensures a < b
  {
  }

  // ---------- one attempt ----------

  /** How an exchange ends: an error, possibly an oversized body, or a status with a Retry-After header. */
  datatype Reply = Broken(tooLarge: bool, status: int) | Answered(status: int, retryAfter: string)

  datatype Decoded = Fine | Malformed | Interrupted

  datatype Outcome = Succeeded(attempts: nat) | Failed(kind: ErrorClass, status: int, attempts: nat)

  datatype Verdict = Finished(outcome: Outcome) | Wait(delay: int)

  /** Everything a turn of the loop learns from outside after the exchange. */
  datatype Surroundings = Surroundings(
    doneAfter: bool, decoded: Decoded, doneAfterDecode: bool, now: int, random: real, date: string -> Option<int>)

  /** The part of the loop between the release of the slot and the wait for a retry. */
  function Judge(attempt: nat, reply: Reply, around: Surroundings): (verdict: Verdict)
    requires 1 <= attempt <= MAXIMUM_ATTEMPTS && 0.0 <= around.random < 1.0
    ensures verdict.Wait? ==> attempt < MAXIMUM_ATTEMPTS
  {
    match reply
    case Broken(tooLarge, status) =>
      var kind := if tooLarge then BadResponse else if around.doneAfter then Canceled else Transport;
      Finished(Failed(kind, status, attempt))
    case Answered(status, retryAfter) =>
      if around.doneAfter then Finished(Failed(Canceled, status, attempt))
      else if 200 <= status <= 299 then
        if around.doneAfterDecode then Finished(Failed(Canceled, status, attempt))
        else (match around.decoded
              case Fine => Finished(Succeeded(attempt))
              case Malformed => Finished(Failed(BadResponse, status, attempt))
              case Interrupted => Finished(Failed(Canceled, status, attempt)))
      else
        var (kind, retry) := ClassifyStatus(status);
        if !retry || attempt == MAXIMUM_ATTEMPTS then Finished(Failed(kind, status, attempt))
        else
          match ParseRetryAfter(retryAfter, around.now, around.date)
          case Some(delay) => Wait(delay)
          case None => Wait(Backoff(attempt, around.random))
  }

  /** Another attempt is made only after one of five statuses, and never after the third attempt. */
  lemma RetriesAreEarned(attempt: nat, reply: Reply, around: Surroundings)
    requires 1 <= attempt <= MAXIMUM_ATTEMPTS && 0.0 <= around.random < 1.0
    ensures Judge(attempt, reply, around).Wait? <==>
              reply.Answered? && !around.doneAfter && Retriable(reply.status) && attempt < MAXIMUM_ATTEMPTS
    ensures var verdict := Judge(attempt, reply, around);
            match verdict
            case Wait(delay) => 0 <= delay <= MAX_DURATION
            case Finished(outcome) =>
              && outcome.attempts == attempt
              && (outcome.Succeeded? <==>
                    && reply.Answered? && 200 <= reply.status <= 299
                    && !around.doneAfter && !around.doneAfterDecode && around.decoded.Fine?)
  {
    hide ParseRetryAfter;
  }

  /**
  What the wait before another attempt is: the turn waits after one of the five statuses only, as long as the
  answer told it to, or the local backoff if it told nothing.
  */
  lemma WaitsAreAsTold(attempt: nat, reply: Reply, around: Surroundings, delay: int)
    requires 1 <= attempt <= MAXIMUM_ATTEMPTS && 0.0 <= around.random < 1.0
    ensures Judge(attempt, reply, around) == Wait(delay) <==>
              && reply.Answered? && !around.doneAfter && Retriable(reply.status) && attempt < MAXIMUM_ATTEMPTS
              && AsTold(attempt, reply.retryAfter, around.now, around.date, around.random, delay)
  {
    hide ParseRetryAfter, AsTold, Backoff;
    if reply.Answered? {
      DelayIsAsTold(attempt, reply.retryAfter, around.now, around.date, around.random, delay);
    }
  }

  /** The error class tells what ended the request. */
  lemma KindTellsTheCause(attempt: nat, reply: Reply, around: Surroundings)
    requires 1 <= attempt <= MAXIMUM_ATTEMPTS && 0.0 <= around.random < 1.0
    requires Judge(attempt, reply, around).Finished? && Judge(attempt, reply, around).outcome.Failed?
    ensures var failed := Judge(attempt, reply, around).outcome;
            var answered := reply.Answered? && !around.doneAfter;
            && failed.status == reply.status
            && (failed.kind == RateLimited <==> answered && reply.status == 429)
            && (failed.kind == Temporary <==> answered && reply.status in {500, 502, 503, 504})
            && (failed.kind == Permanent <==> answered && 400 <= reply.status <= 499 && reply.status != 429)
            && (failed.kind == Unexpected <==>
                  && answered && !Retriable(reply.status)
                  && !(200 <= reply.status <= 299) && !(400 <= reply.status <= 499))
            && (failed.kind == BadResponse <==>
                  || (reply.Broken? && reply.tooLarge)
                  || (answered && 200 <= reply.status <= 299 && !around.doneAfterDecode && around.decoded.Malformed?))
            && (failed.kind == Transport <==> reply.Broken? && !reply.tooLarge && !around.doneAfter)
            && (failed.kind == Canceled <==>
                  || (around.doneAfter && (reply.Answered? || !reply.tooLarge))
                  || (answered && 200 <= reply.status <= 299
                      && (around.doneAfterDecode || around.decoded.Interrupted?)))
  {
    hide ParseRetryAfter, Backoff;
  }

  // ---------- the whole request ----------

  /** One turn of the loop: what the context, the gate, the limiter, the exchange and the wait do. */
  datatype Turn = Turn(
    doneBefore: bool,        // the context is done at the top
    others: nat,             // the slots other requests hold then
    gateOpens: bool,         // the select takes a free slot rather than the context
    doneHolding: bool,       // the context is done right after the slot is taken
    limiterAdmits: bool,     // the limiter reserves a start before the context is done
    reply: Reply, othersLater: nat, around: Surroundings,
    deadline: Option<int>, later: int,  // what waitForRetry sees
    doneWaiting: bool)       // the context is done before the wait is over

  predicate Sane(turn: Turn) {
    0.0 <= turn.around.random < 1.0
  }

  /** The turn gets as far as the exchange. */
  predicate Attempted(turn: Turn, capacity: nat) {
    !turn.doneBefore && turn.gateOpens && turn.others < capacity && !turn.doneHolding && turn.limiterAdmits
  }

  predicate WaitedOut(turn: Turn, delay: int) {
    !Refuses(turn.deadline, turn.later, delay) && !turn.doneWaiting
  }

  /** What getJSON returns from the given attempt on. */
  function Conclude(turns: nat -> Turn, attempt: nat, capacity: nat): Outcome
    requires 1 <= attempt <= MAXIMUM_ATTEMPTS && forall k :: Sane(turns(k))
    decreases MAXIMUM_ATTEMPTS - attempt
  {
    var turn := turns(attempt);
    assert Sane(turn) by { assert Sane(turns(attempt)); }
    if !Attempted(turn, capacity) then Failed(Canceled, 0, attempt - 1)
    else
      match Judge(attempt, turn.reply, turn.around)
      case Finished(outcome) => outcome
      case Wait(delay) =>
        if !WaitedOut(turn, delay) then Failed(Canceled, turn.reply.status, attempt)
        else Conclude(turns, attempt + 1, capacity)
  }

  /** The gate as a value: a channel with room for capacity requests. */
  datatype Slots = Slots(capacity: nat, used: nat) {
    predicate Free() {
      used < capacity
    }

    function Take(): Slots {
      Slots(capacity, used + 1)
    }

    function Give(): Slots
      requires used > 0
    {
      Slots(capacity, used - 1)
    }
  }

  /** The gate as one request sees it: of the slots in use some are its own, the rest come and go. */
  class Gate {
    const capacity: nat
    var used: nat
    var mine: nat
    ghost var acquired: nat
    ghost var released: nat

    ghost predicate Valid()
      reads this
    {
      mine <= used <= capacity && acquired == released + mine
    }

    ghost function State(): Slots
      reads this
    {
      Slots(capacity, used)
    }

    constructor (capacity: nat)
      ensures Valid() && State() == Slots(capacity, 0) && mine == 0
    {
      this.capacity, used, mine, acquired, released := capacity, 0, 0, 0, 0;
    }

    /** Other requests have taken and given back slots until they hold this many, as far as there is room. */
    method Interfere(others: nat)
      requires Valid()
      modifies this
      ensures Valid() && mine == old(mine) && acquired == old(acquired) && released == old(released)
      ensures used == if mine + others <= capacity then mine + others else capacity
    {
      used := if mine + others <= capacity then mine + others else capacity;
    }

    /** acquire. */
    method Acquire(turn: Turn) returns (ok: bool)
      requires Valid()
      modifies this
      ensures Valid() && ok == (!turn.doneBefore && turn.gateOpens && old(State()).Free() && !turn.doneHolding)
      ensures State() == if ok then old(State()).Take() else old(State())
      ensures mine == old(mine) + if ok then 1 else 0
    {
      if turn.doneBefore {
        return false;
      }
      if turn.gateOpens && used < capacity {
        used, mine, acquired := used + 1, mine + 1, acquired + 1;
        if turn.doneHolding {
          used, mine, released := used - 1, mine - 1, released + 1;
          return false;
        }
        return true;
      }
      ok := false;
    }

    /** release. */
    method Release()
      requires Valid() && mine > 0
      modifies this
      ensures Valid() && State() == old(State()).Give() && mine == old(mine) - 1
    {
      used, mine, released := used - 1, mine - 1, released + 1;
    }
  }

  /**
  getJSON, while other requests use the gate. performed counts the exchanges. Every slot taken is given back on
  every way out, and the reported number of attempts is the number of exchanges.
  */
  method GetJSON(gate: Gate, turns: nat -> Turn) returns (outcome: Outcome, performed: nat)
    requires gate.Valid() && gate.mine == 0 && forall k :: Sane(turns(k))
    modifies gate
    ensures gate.Valid() && gate.mine == 0 && gate.acquired == gate.released
    ensures outcome == Conclude(turns, 1, gate.capacity) && outcome.attempts == performed
  {
    performed := 0;
    var attempt := 1;
    while attempt <= MAXIMUM_ATTEMPTS
      invariant 1 <= attempt <= MAXIMUM_ATTEMPTS && performed == attempt - 1
      invariant gate.Valid() && gate.mine == 0
      invariant Conclude(turns, 1, gate.capacity) == Conclude(turns, attempt, gate.capacity)
      decreases MAXIMUM_ATTEMPTS - attempt
    {
      var turn := turns(attempt);
      assert Sane(turns(attempt));
      gate.Interfere(turn.others);
      var acquired := gate.Acquire(turn);
      if !acquired {
        return Failed(Canceled, 0, attempt - 1), performed;
      }
      gate.Interfere(turn.othersLater);
      if !turn.limiterAdmits {
        gate.Release();
        return Failed(Canceled, 0, attempt - 1), performed;
      }
      performed := performed + 1;
      gate.Release();
      RetriesAreEarned(attempt, turn.reply, turn.around);
      var verdict := Judge(attempt, turn.reply, turn.around);
      if verdict.Finished? {
        return verdict.outcome, performed;
      }
      if Refuses(turn.deadline, turn.later, verdict.delay) || turn.doneWaiting {
        return Failed(Canceled, turn.reply.status, attempt), performed;
      }
      attempt := attempt + 1;
    }
    assert false;
  }

  /** The turn leads to another attempt: a status worth it, and a wait as told that is admitted and runs out. */
  ghost predicate EarnedRetry(turn: Turn, attempt: nat, capacity: nat)
    requires 1 <= attempt <= MAXIMUM_ATTEMPTS
  {
    && Attempted(turn, capacity) && turn.reply.Answered? && !turn.around.doneAfter
    && Retriable(turn.reply.status) && attempt < MAXIMUM_ATTEMPTS
    && exists delay ::
         && AsTold(attempt, turn.reply.retryAfter, turn.around.now, turn.around.date, turn.around.random, delay)
         && WaitedOut(turn, delay)
  }

  /**
  At most three attempts: exactly as many as follow each other by a status worth retrying and a wait that was as
  told, admitted and not interrupted. Success means that the last was answered with a 2xx status and decoded.
  */
  lemma {:induction false} AttemptsAreEarned(turns: nat -> Turn, attempt: nat, capacity: nat)
    requires 1 <= attempt <= MAXIMUM_ATTEMPTS && forall k :: Sane(turns(k))
    ensures var n := Conclude(turns, attempt, capacity).attempts;
            && attempt - 1 <= n <= MAXIMUM_ATTEMPTS
            && (forall k :: attempt <= k < n ==> EarnedRetry(turns(k), k, capacity))
            && (forall k :: attempt <= k <= n ==> Attempted(turns(k), capacity))
            && (n < attempt ==> !Attempted(turns(attempt), capacity))
            && (attempt <= n && EarnedRetry(turns(n), n, capacity) ==> !Attempted(turns(n + 1), capacity))
            && (Conclude(turns, attempt, capacity).Succeeded? ==>
                  && attempt <= n && turns(n).reply.Answered?
                  && 200 <= turns(n).reply.status <= 299 && turns(n).around.decoded.Fine?)
    decreases MAXIMUM_ATTEMPTS - attempt
  {
    hide Judge, AsTold, Retriable, WaitedOut;
    var turn := turns(attempt);
    if Attempted(turn, capacity) {
      assert Sane(turns(attempt));
      RetriesAreEarned(attempt, turn.reply, turn.around);
      RetryIsEarned(turn, attempt, capacity);
      var verdict := Judge(attempt, turn.reply, turn.around);
      if verdict.Wait? && WaitedOut(turn, verdict.delay) {
        AttemptsAreEarned(turns, attempt + 1, capacity);
      }
    }
  }

  lemma RetryIsEarned(turn: Turn, attempt: nat, capacity: nat)
    requires 1 <= attempt <= MAXIMUM_ATTEMPTS && Sane(turn) && Attempted(turn, capacity)
    ensures var verdict := Judge(attempt, turn.reply, turn.around);
            EarnedRetry(turn, attempt, capacity) <==> verdict.Wait? && WaitedOut(turn, verdict.delay)
  {
    hide Judge, AsTold, Retriable, WaitedOut;
    var verdict := Judge(attempt, turn.reply, turn.around);
    if verdict.Wait? {
      WaitsAreAsTold(attempt, turn.reply, turn.around, verdict.delay);
    }
    if EarnedRetry(turn, attempt, capacity) {
      var delay :|
        && AsTold(attempt, turn.reply.retryAfter, turn.around.now, turn.around.date, turn.around.random, delay)
        && WaitedOut(turn, delay);
      WaitsAreAsTold(attempt, turn.reply, turn.around, delay);
    }
  }

  /** A request that makes its last exchange in this turn: what the exchange says, or canceled in or after the wait. */
  predicate EndsAs(turn: Turn, attempt: nat, outcome: Outcome)
    requires 1 <= attempt <= MAXIMUM_ATTEMPTS && Sane(turn)
  {
    match Judge(attempt, turn.reply, turn.around)
    case Finished(last) => outcome == last
    case Wait(delay) =>
      outcome == Failed(Canceled, if WaitedOut(turn, delay) then 0 else turn.reply.status, attempt)
  }

  /**
  How a request ends: canceled without a status if its first attempt does not come to the exchange, or else by its
  last turn, canceled with the status if the wait was refused or interrupted, and without one if the wait ran out.
  */
  lemma {:induction false} EndsWithItsLastTurn(turns: nat -> Turn, attempt: nat, capacity: nat)
    requires 1 <= attempt <= MAXIMUM_ATTEMPTS && forall k :: Sane(turns(k))
    ensures var outcome := Conclude(turns, attempt, capacity);
            var n := outcome.attempts;
            && attempt - 1 <= n <= MAXIMUM_ATTEMPTS
            && (n < attempt ==> outcome == Failed(Canceled, 0, n))
            && (n >= attempt ==> Sane(turns(n)) && EndsAs(turns(n), n, outcome))
    decreases MAXIMUM_ATTEMPTS - attempt
  {
    hide Judge, WaitedOut, Attempted, EndsAs, AsTold, EarnedRetry;
    AttemptsAreEarned(turns, attempt, capacity);
    var turn, outcome := turns(attempt), Conclude(turns, attempt, capacity);
    assert Sane(turns(attempt));
    if Attempted(turn, capacity) {
      LastTurn(turn, attempt, outcome);
      var verdict := Judge(attempt, turn.reply, turn.around);
      if verdict.Wait? && WaitedOut(turn, verdict.delay) {
        EndsWithItsLastTurn(turns, attempt + 1, capacity);
      }
    }
  }

  lemma LastTurn(turn: Turn, attempt: nat, outcome: Outcome)
    requires 1 <= attempt <= MAXIMUM_ATTEMPTS && Sane(turn)
    ensures var verdict := Judge(attempt, turn.reply, turn.around);
            match verdict
            case Finished(last) => last.attempts == attempt && (outcome == last ==> EndsAs(turn, attempt, outcome))
            case Wait(delay) =>
              outcome == Failed(Canceled, if WaitedOut(turn, delay) then 0 else turn.reply.status, attempt) ==>
                EndsAs(turn, attempt, outcome)
  {
    hide Judge, WaitedOut;
    RetriesAreEarned(attempt, turn.reply, turn.around);
  }
}
