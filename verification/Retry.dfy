/**
The decisions of the upstream client between two attempts (internal/anilibria/client.go): which
statuses are worth another attempt, how long to wait for it, and whether the wait is admitted by the
deadlines of the callers that share the load. Durations are nanoseconds in an int64, as in Go.
*/
module Retry {
  import opened Common
  import opened Deadlines
  import opened Decimal
  import opened Runes
  import opened Whitespace

  const SECOND: int := 1_000_000_000
  const MAX_DURATION: int := 0x7fff_ffff_ffff_ffff
  const MIN_DURATION: int := -0x8000_0000_0000_0000
  const MAX_INT64: int := 0x7fff_ffff_ffff_ffff
  const MAXIMUM_ATTEMPTS: nat := 3
  const BACKOFF_BASE: int := 250_000_000
  const BACKOFF_MAXIMUM: int := 5_000_000_000

  datatype ErrorClass = RateLimited | Temporary | Permanent | Unexpected | BadResponse | Transport | Canceled

  /** classifyStatus. */
  function ClassifyStatus(status: int): (ErrorClass, bool) {
    if status == 429 then (RateLimited, true)
    else if status == 500 || status == 502 || status == 503 || status == 504 then (Temporary, true)
    else if 400 <= status <= 499 then (Permanent, false)
    else (Unexpected, false)
  }

  predicate Retriable(status: int) {
    status in {429, 500, 502, 503, 504}
  }

  // ---------- Retry-After ----------

  /** strconv.ParseInt(s, 10, 64). */
  function ParseInt(s: string): Option<int> {
    if s == "" then None
    else
      var digits := if s[0] == '+' || s[0] == '-' then s[1..] else s;
      if digits == "" || !AllDigits(digits) then None
      else
        var n: int := if s[0] == '-' then 0 - Value(digits) else Value(digits);
        if -MAX_INT64 - 1 <= n <= MAX_INT64 then Some(n) else None
  }

  predicate IsNegativeDecimal(s: string) {
    |s| >= 2 && s[0] == '-' && AllDigits(s[1..])
  }

  /** negativeDecimal. */
  method NegativeDecimal(value: string) returns (r: bool)
    ensures r == IsNegativeDecimal(value)
  {
    if |value| < 2 || value[0] != '-' {
      return false;
    }
    for index := 1 to |value|
      invariant forall k :: 1 <= k < index ==> IsAsciiDigit(value[k])
    {
      if value[index] < '0' || value[index] > '9' {
        assert !IsAsciiDigit(value[1..][index - 1]);
        return false;
      }
    }
    r := true;
  }

  function Clamp(d: int): (r: int)
    ensures MIN_DURATION <= r <= MAX_DURATION
  {
    if d > MAX_DURATION then MAX_DURATION else if d < MIN_DURATION then MIN_DURATION else d
  }

  /** time.Time.Sub saturates. */
  function Sub(a: int, b: int): int {
    Clamp(a - b)
  }

  /** parseRetryAfter; date stands for http.ParseTime. */
  function ParseRetryAfter(header: string, now: int, date: string -> Option<int>): (delay: Option<int>)
    ensures delay.Some? ==> 0 <= delay.value <= MAX_DURATION
  {
    var value := TrimSpace(header);
    match ParseInt(value)
    case Some(seconds) =>
      if seconds <= 0 then Some(0)
      else if seconds > MAX_DURATION / SECOND then Some(MAX_DURATION)
      else Some(seconds * SECOND)
    case None =>
      if IsNegativeDecimal(value) then Some(0)
      else match date(value)
           case None => None
           case Some(instant) => Some(if Sub(instant, now) < 0 then 0 else Sub(instant, now))
  }

  /** An optional sign and at least one digit, of any length. */
  predicate IsNumeral(s: string) {
    s != "" && var digits := if s[0] == '+' || s[0] == '-' then s[1..] else s;
    digits != "" && AllDigits(digits)
  }

  function NumeralValue(s: string): int
    requires IsNumeral(s)
  {
    if s[0] == '-' then 0 - Value(s[1..]) else if s[0] == '+' then Value(s[1..]) else Value(s)
  }

  /** That many seconds, never negative and never beyond the longest duration. */
  function SaturatedSeconds(n: int): int {
    if n <= 0 then 0 else if n * SECOND > MAX_DURATION then MAX_DURATION else n * SECOND
  }

  /**
  A delay in seconds is understood, and saturates, exactly when it fits an int64; a longer numeral is not
  recognised and leaves the client to its own backoff. No HTTP date is a numeral.
  */
  lemma SecondsAreUnderstood(header: string, now: int, date: string -> Option<int>)
    requires IsNumeral(TrimSpace(header)) && date(TrimSpace(header)) == None
    ensures var n := NumeralValue(TrimSpace(header));
            && (ParseRetryAfter(header, now, date) == Some(SaturatedSeconds(n)) <==> n <= MAX_INT64)
            && (n > MAX_INT64 ==> ParseRetryAfter(header, now, date) == None)
  {
    hide TrimSpace, Value;
    var value := TrimSpace(header);
    var n := NumeralValue(value);
    assert value[0] != '-' ==> !IsNegativeDecimal(value);
  }

  /** The smallest such numeral. */
  lemma HugeDelayIsNotUnderstood(now: int, date: string -> Option<int>)
    requires date(Decimal.Decimal(MAX_INT64 + 1)) == None
    ensures ParseRetryAfter(Decimal.Decimal(MAX_INT64 + 1), now, date) == None
  {
    hide Decimal.Decimal, Value;
    var header := Decimal.Decimal(MAX_INT64 + 1);
    DecimalReadsBack(MAX_INT64 + 1);
    assert IsAsciiDigit(header[0]) && IsAsciiDigit(header[|header| - 1]);
    assert TrimSpace(header) == header;
    SecondsAreUnderstood(header, now, date);
  }

  /** Any other value is a date or nothing: the wait ends at that date, at once if it has passed. */
  lemma DatesAreUnderstood(header: string, now: int, date: string -> Option<int>)
    requires !IsNumeral(TrimSpace(header))
    ensures var delay, instant := ParseRetryAfter(header, now, date), date(TrimSpace(header));
            && (delay.None? <==> instant.None?)
            && (instant.Some? ==>
                  && (instant.value <= now ==> delay == Some(0))
                  && (now < instant.value <= now + MAX_DURATION ==> now + delay.value == instant.value)
                  && (instant.value > now + MAX_DURATION ==> delay == Some(MAX_DURATION)))
  {
    hide TrimSpace;
    assert ParseInt(TrimSpace(header)) == None && !IsNegativeDecimal(TrimSpace(header));
  }

  // ---------- backoff ----------

  function Ceiling(attempt: nat): int
    requires 1 <= attempt <= MAXIMUM_ATTEMPTS
  {
    var doubled := if attempt == 1 then BACKOFF_BASE else if attempt == 2 then BACKOFF_BASE * 2 else BACKOFF_BASE * 4;
    if doubled > BACKOFF_MAXIMUM then BACKOFF_MAXIMUM else doubled
  }

  /** backoff, with the random number as a parameter. */
  function Backoff(attempt: nat, random: real): (delay: int)
    requires 1 <= attempt <= MAXIMUM_ATTEMPTS && 0.0 <= random < 1.0
    ensures Ceiling(attempt) / 2 <= delay <= Ceiling(attempt)
    ensures random == 0.0 ==> delay == Ceiling(attempt) / 2
  {
    var ceiling := Ceiling(attempt);
    var floor := ceiling / 2;
    var share := random * (ceiling - floor) as real;
    ShareIsPart(random, ceiling - floor);
    floor + share.Floor
  }

  lemma ShareIsPart(random: real, whole: int)
    requires 0.0 <= random < 1.0 && whole > 0
    ensures 0 <= (random * whole as real).Floor < whole
  {
    assert 0.0 <= random * whole as real < whole as real;
  }

  /** The backoff ceilings: a quarter of a second, doubled from attempt to attempt up to five seconds. */
  lemma CeilingsDouble(attempt: nat)
    requires 1 <= attempt <= MAXIMUM_ATTEMPTS
    ensures attempt == 1 ==> Ceiling(attempt) * 4 == SECOND
    ensures attempt > 1 ==>
              var doubled := 2 * Ceiling(attempt - 1);
              Ceiling(attempt) == if doubled <= 5 * SECOND then doubled else 5 * SECOND
  {
  }

  /** The random number picks its share of the upper half of the ceiling, in whole nanoseconds. */
  predicate IsBackoff(attempt: nat, random: real, delay: int)
    requires 1 <= attempt <= MAXIMUM_ATTEMPTS
  {
    var ceiling := Ceiling(attempt);
    var over := delay - ceiling / 2;
    over as real <= random * (ceiling - ceiling / 2) as real < (over + 1) as real
  }

  lemma BackoffIsItsShare(attempt: nat, random: real, delay: int)
    requires 1 <= attempt <= MAXIMUM_ATTEMPTS && 0.0 <= random < 1.0
    ensures IsBackoff(attempt, random, delay) <==> delay == Backoff(attempt, random)
  {
    var ceiling := Ceiling(attempt);
    var share := random * (ceiling - ceiling / 2) as real;
    var over := delay - ceiling / 2;
    assert share.Floor as real <= share < (share.Floor + 1) as real;
  }

  // ---------- the delay before a retry ----------

  /** The wait ends at the date, at once if it has passed, and saturates. */
  predicate IsDateDelay(instant: int, now: int, delay: int) {
    && (instant <= now ==> delay == 0)
    && (now < instant <= now + MAX_DURATION ==> now + delay == instant)
    && (instant > now + MAX_DURATION ==> delay == MAX_DURATION)
  }

  /**
  The delay a Retry-After value asks for: its seconds, if it is a numeral that fits an int64; the time to its date,
  if it is one; and otherwise the local backoff.
  */
  predicate AsTold(
      attempt: nat, header: string, now: int, date: string -> Option<int>, random: real, delay: int)
    requires 1 <= attempt <= MAXIMUM_ATTEMPTS
  {
    var value := TrimSpace(header);
    if IsNumeral(value) && NumeralValue(value) <= MAX_INT64 then delay == SaturatedSeconds(NumeralValue(value))
    else match date(value)
         case Some(instant) => IsDateDelay(instant, now, delay)
         case None => IsBackoff(attempt, random, delay)
  }

  lemma ParseRetryAfterMeans(header: string, now: int, date: string -> Option<int>)
    ensures var value, delay := TrimSpace(header), ParseRetryAfter(header, now, date);
            if IsNumeral(value) && NumeralValue(value) <= MAX_INT64 then
              delay == Some(SaturatedSeconds(NumeralValue(value)))
            else match date(value)
                 case Some(instant) => delay.Some? && IsDateDelay(instant, now, delay.value)
                 case None => delay == None
  {
    hide TrimSpace, Value;
    var value := TrimSpace(header);
    if IsNumeral(value) {
      assert value[0] != '-' ==> !IsNegativeDecimal(value);
    } else {
      assert ParseInt(value) == None && !IsNegativeDecimal(value);
    }
  }

  lemma DelayIsAsTold(
      attempt: nat, header: string, now: int, date: string -> Option<int>, random: real, delay: int)
    requires 1 <= attempt <= MAXIMUM_ATTEMPTS && 0.0 <= random < 1.0
    ensures AsTold(attempt, header, now, date, random, delay) <==>
              delay == match ParseRetryAfter(header, now, date)
                       case Some(told) => told
                       case None => Backoff(attempt, random)
  {
    hide TrimSpace, IsNumeral, NumeralValue, ParseRetryAfter, IsBackoff, SaturatedSeconds;
    ParseRetryAfterMeans(header, now, date);
    BackoffIsItsShare(attempt, random, delay);
  }

  /** A later attempt never waits less than the least an earlier one could. */
  lemma BackoffGrows(attempt: nat, early: real, late: real)
    requires 1 <= attempt < MAXIMUM_ATTEMPTS && 0.0 <= early < 1.0 && 0.0 <= late < 1.0
    ensures Backoff(attempt, early) <= Backoff(attempt + 1, late) <= BACKOFF_MAXIMUM
  {
    assert Ceiling(attempt + 1) == 2 * Ceiling(attempt);
  }

  // ---------- admission of the wait ----------

  /** The guard of waitForRetry. */
  predicate Refuses(deadline: Option<int>, now: int, delay: int) {
    deadline.Some? && Sub(deadline.value, now) < delay
  }

  /** Saturation does not matter: the wait is refused exactly when the deadline comes before its end. */
  lemma RefusalIsExact(deadline: Option<int>, now: int, delay: int)
    requires 0 <= delay <= MAX_DURATION
    ensures Refuses(deadline, now, delay) <==> deadline.Some? && deadline.value < now + delay
  {
  }

  ghost predicate TooEarly(budgets: Budgets, w: nat, end: int)
    requires w in budgets
  {
    budgets[w].bounded && budgets[w].deadline < end
  }

  /**
  A retry of a shared load is refused exactly when the base deadline, or the deadline of every caller still
  waiting, comes before the end of the wait.
  */
  lemma SharedRefusal(base: Option<int>, budgets: Budgets, deadline: Option<int>, now: int, delay: int)
    requires 0 <= delay <= MAX_DURATION && IsEffective(base, budgets, deadline)
    ensures Refuses(deadline, now, delay) <==>
              || (base.Some? && base.value < now + delay)
              || (budgets != map[] && forall w :: w in budgets ==> TooEarly(budgets, w, now + delay))
  {
    RefusalIsExact(deadline, now, delay);
    if budgets != map[] && AllBounded(budgets) {
      var latest :| IsLatest(budgets, latest) && deadline == Some(Capped(base, latest));
      var w :| w in budgets && budgets[w].deadline == latest;
      assert TooEarly(budgets, w, now + delay) <==> latest < now + delay;
    } else if budgets != map[] {
      var w :| w in budgets && !budgets[w].bounded;
      assert !TooEarly(budgets, w, now + delay);
    }
  }
}

/** The retry decision in every reachable state of the coalescer. */
module SharedRetry {
  import opened Common
  import opened Deadlines
  import opened Retry
  import opened CoalescerProtocol

  ghost predicate CannotWait<K, R>(s: State<K, R>, i: nat, c: nat, end: int) {
    i in Attached(s.callers, c) && s.callers[i].budget.bounded && s.callers[i].budget.deadline < end
  }

  /**
  While callers are attached to a load, its retry is refused exactly when all of them, or the base, run out
  before the end of the wait: one caller with time enough keeps the retry alive for its siblings. The
  deadline is what EffectiveDeadline answers, whatever order it visits the budgets in.
  */
  lemma OnePatientCallerIsEnough<K(!new), R(!new)>(
      s: State<K, R>, c: nat, base: Option<int>, order: seq<nat>, now: int, delay: int)
    requires Reachable(s) && c < |s.table.pool| && s.table.pool[c].outcome.None? && Attached(s.callers, c) != {}
    requires IsOrder(order, s.table.pool[c].budgets) && !ZeroIsLost(base, s.table.pool[c].budgets)
    requires 0 <= delay <= MAX_DURATION
    ensures Covers(order, s.table.pool[c].budgets)
    ensures Refuses(LoopAnswer(base, order, s.table.pool[c].budgets), now, delay) <==>
              || (base.Some? && base.value < now + delay)
              || forall i :: i in Attached(s.callers, c) ==> CannotWait(s, i, c, now + delay)
  {
    hide Attached, Refuses, IsEffective, Reachable, LoopAnswer, ZeroIsLost;
    CountsAreExact(s, c);
    var budgets := s.table.pool[c].budgets;
    OrderCovers(order, budgets);
    OrderAgrees(base, order, budgets);
    var deadline := LoopAnswer(base, order, budgets);
    SharedRefusal(base, budgets, deadline, now, delay);
    var end := now + delay;
    assert budgets != map[];
    AttachedAreOn(s, c);
    if forall w :: w in budgets ==> TooEarly(budgets, w, end) {
      forall i | i in Attached(s.callers, c) ensures CannotWait(s, i, c, end) {
        assert HeldBy(s, c, s.callers[i].waiter, s.callers[i].budget);
        assert TooEarly(budgets, s.callers[i].waiter, end);
      }
    }
    if forall i :: i in Attached(s.callers, c) ==> CannotWait(s, i, c, end) {
      forall w | w in budgets ensures TooEarly(budgets, w, end) {
        assert HeldBy(s, c, w, budgets[w]);
        var i :| i in Attached(s.callers, c) && s.callers[i].waiter == w && s.callers[i].budget == budgets[w];
        assert CannotWait(s, i, c, end);
      }
    }
  }

  lemma AttachedAreOn<K, R>(s: State<K, R>, c: nat)
    ensures forall i :: i in Attached(s.callers, c) ==> i < |s.callers| && s.callers[i].On(c)
  {
  }
}
