/**
All requests of one client together (internal/anilibria/client.go): they share the gate and the limiter,
and their steps interleave in any way. A context may become done at any step that looks at it.
*/
module ClientProtocol {
  import opened Common
  import opened Retry
  import opened Client

  datatype Phase =
    | Acquiring(attempt: nat)                // at the top of the loop or in the select
    | Holding(attempt: nat)                  // has the slot, about to look at its context again
    | Limiting(attempt: nat)                 // in the limiter, slot in hand
    | Exchanging(attempt: nat)               // the exchange is under way, slot in hand
    | Judging(attempt: nat, reply: Reply)    // slot given back
    | Backing(attempt: nat, wait: Admission) // waiting for the retry
    | Over(outcome: Outcome)
  {
    predicate HasSlot() {
      Holding? || Limiting? || Exchanging?
    }
  }

  /** A wait for a retry: its delay, what it was computed from, and what waitForRetry saw when it let it begin. */
  datatype Admission = Admission(delay: int, around: Surroundings, deadline: Option<int>, now: int) {
    predicate Granted() {
      0 <= delay <= MAX_DURATION && !Refuses(deadline, now, delay)
    }

    /** The delay is the one that the answer to the attempt told, or the backoff if it told none. */
    predicate Follows(attempt: nat, reply: Reply)
      requires 1 <= attempt <= MAXIMUM_ATTEMPTS
    {
      reply.Answered? && AsTold(attempt, reply.retryAfter, around.now, around.date, around.random, delay)
    }
  }

  /** A request with its history: the replies it got, the waits that ran out, the slots it took and gave back. */
  datatype Request = Request(phase: Phase, replies: seq<Reply>, waits: seq<Admission>, acquired: nat, released: nat)

  datatype System = System(gate: Slots, pace: Pace, requests: seq<Request>)

  datatype Event =
    | Begin
    | GiveUp(i: nat)                                   // the context is done where the request looks at it
    | TakeSlot(i: nat)
    | Proceed(i: nat)                                  // the context is still alive after taking the slot
    | ReadClock(i: nat, now: int)                      // one round of the limiter
    | Receive(i: nat, reply: Reply)
    | Decide(i: nat, around: Surroundings, deadline: Option<int>, later: int)
    | WakeUp(i: nat)

  function Initial(capacity: nat, interval: nat): System {
    System(Slots(capacity, 0), Pace(interval, 0, []), [])
  }

  function PhaseOf(s: System, i: nat): Option<Phase> {
    if i < |s.requests| then Some(s.requests[i].phase) else None
  }

  predicate Enabled(s: System, e: Event) {
    match e
    case Begin => true
    case GiveUp(i) => (match PhaseOf(s, i)
      case None => false
      case Some(phase) => phase.Acquiring? || phase.Holding? || phase.Limiting? || phase.Backing?)
    case TakeSlot(i) => i < |s.requests| && s.requests[i].phase.Acquiring? && s.gate.Free()
    case Proceed(i) => i < |s.requests| && s.requests[i].phase.Holding?
    case ReadClock(i, _) => i < |s.requests| && s.requests[i].phase.Limiting?
    case Receive(i, _) => i < |s.requests| && s.requests[i].phase.Exchanging?
    case Decide(i, around, _, _) =>
      i < |s.requests| && s.requests[i].phase.Judging? && 0.0 <= around.random < 1.0
      && 1 <= s.requests[i].phase.attempt <= MAXIMUM_ATTEMPTS
    case WakeUp(i) => i < |s.requests| && s.requests[i].phase.Backing?
  }

  function LastStatus(replies: seq<Reply>): int {
    if replies == [] then 0 else replies[|replies| - 1].status
  }

  /** The request after a step of its own. */
  function Moved(s: System, e: Event): Request
    requires Enabled(s, e) && !e.Begin?
  {
    var r := s.requests[e.i];
    match e
    case GiveUp(_) =>
      var over := match r.phase
        case Backing(attempt, _) => Failed(Canceled, LastStatus(r.replies), attempt)
        case _ => Failed(Canceled, 0, if r.phase.attempt > 0 then r.phase.attempt - 1 else 0);
      r.(phase := Over(over), released := r.released + if r.phase.HasSlot() then 1 else 0)
    case TakeSlot(_) => r.(phase := Holding(r.phase.attempt), acquired := r.acquired + 1)
    case Proceed(_) => r.(phase := Limiting(r.phase.attempt))
    case ReadClock(_, now) => if s.pace.Admits(now) then r.(phase := Exchanging(r.phase.attempt)) else r
    case Receive(_, reply) =>
      r.(phase := Judging(r.phase.attempt, reply), replies := r.replies + [reply], released := r.released + 1)
    case Decide(_, around, deadline, later) =>
      (match Judge(r.phase.attempt, r.phase.reply, around)
       case Finished(outcome) => r.(phase := Over(outcome))
       case Wait(delay) =>
         if Refuses(deadline, later, delay) then
           r.(phase := Over(Failed(Canceled, r.phase.reply.status, r.phase.attempt)))
         else r.(phase := Backing(r.phase.attempt, Admission(delay, around, deadline, later))))
    case WakeUp(_) => r.(phase := Acquiring(r.phase.attempt + 1), waits := r.waits + [r.phase.wait])
  }

  function Next(s: System, e: Event): System
    requires Enabled(s, e)
  {
    if e.Begin? then s.(requests := s.requests + [Request(Acquiring(1), [], [], 0, 0)])
    else
      var before, after := s.requests[e.i], Moved(s, e);
      s.(requests := s.requests[e.i := after],
         gate := if e.TakeSlot? then s.gate.Take()
                 else if before.phase.HasSlot() && !after.phase.HasSlot() && s.gate.used > 0 then s.gate.Give()
                 else s.gate,
         pace := if e.ReadClock? then s.pace.Read(e.now) else s.pace)
  }

  predicate Possible(s: System, events: seq<Event>)
    decreases |events|
  {
    events == [] || (Enabled(s, events[0]) && Possible(Next(s, events[0]), events[1..]))
  }

  function After(s: System, events: seq<Event>): System
    requires Possible(s, events)
    decreases |events|
  {
    if events == [] then s else After(Next(s, events[0]), events[1..])
  }

  // ---------- the invariant ----------

  predicate Earned(reply: Reply) {
    reply.Answered? && Retriable(reply.status)
  }

  /** All replies up to the given number called for another attempt. */
  ghost predicate EarnedUpTo(replies: seq<Reply>, n: int) {
    forall k :: 0 <= k < |replies| && k < n ==> Earned(replies[k])
  }

  /** The exchanges a request has started. */
  function Performed(r: Request): nat {
    |r.replies| + if r.phase.Exchanging? then 1 else 0
  }

  /** The attempt counter, the history and the outcome of a request agree. */
  ghost predicate RequestOk(r: Request) {
    && r.acquired == r.released + (if r.phase.HasSlot() then 1 else 0)
    && WaitsFollow(r.waits, r.replies)
    && match r.phase
       case Judging(attempt, reply) =>
         1 <= attempt <= MAXIMUM_ATTEMPTS && |r.replies| == attempt && r.replies[attempt - 1] == reply
         && EarnedUpTo(r.replies, attempt - 1) && |r.waits| == attempt - 1
       case Backing(attempt, wait) =>
         1 <= attempt < MAXIMUM_ATTEMPTS && |r.replies| == attempt && EarnedUpTo(r.replies, attempt)
         && |r.waits| == attempt - 1
         && wait.Granted() && wait.Follows(attempt, r.replies[attempt - 1])
       case Over(outcome) =>
         outcome.attempts == |r.replies| <= MAXIMUM_ATTEMPTS && EarnedUpTo(r.replies, |r.replies| - 1)
         && |r.replies| - 1 <= |r.waits| <= |r.replies|
         && (outcome.Succeeded? ==> r.replies != [] && 200 <= LastStatus(r.replies) <= 299)
       case _ =>
         1 <= r.phase.attempt <= MAXIMUM_ATTEMPTS && |r.replies| == r.phase.attempt - 1
         && EarnedUpTo(r.replies, r.phase.attempt - 1) && |r.waits| == r.phase.attempt - 1
  }

  /** Every wait was granted and as the reply before it told. */
  ghost predicate WaitsFollow(waits: seq<Admission>, replies: seq<Reply>) {
    && |waits| < MAXIMUM_ATTEMPTS && |waits| <= |replies|
    && forall k: nat :: k < |waits| ==> waits[k].Granted() && waits[k].Follows(k + 1, replies[k])
  }

  function SlotHolders(requests: seq<Request>): set<nat> {
    set i | 0 <= i < |requests| && requests[i].phase.HasSlot()
  }

  function Exchanges(requests: seq<Request>): nat {
    if requests == [] then 0 else Exchanges(requests[..|requests| - 1]) + Performed(requests[|requests| - 1])
  }

  ghost predicate LimiterOk(s: System) {
    s.pace.Valid() && |s.pace.starts| == Exchanges(s.requests)
  }

  ghost predicate Inv(s: System) {
    && s.gate.used == |SlotHolders(s.requests)| && s.gate.used <= s.gate.capacity
    && LimiterOk(s)
    && forall i :: 0 <= i < |s.requests| ==> RequestOk(s.requests[i])
  }

  // ---------- every step keeps it ----------

  lemma HoldersSwap(requests: seq<Request>, i: nat, r: Request)
    requires i < |requests|
    ensures |SlotHolders(requests[i := r])| ==
              |SlotHolders(requests)| + (if r.phase.HasSlot() then 1 else 0)
              - if requests[i].phase.HasSlot() then 1 else 0
  {
    var after, rest := SlotHolders(requests[i := r]), SlotHolders(requests) - {i};
    assert after == rest + if r.phase.HasSlot() then {i} else {};
    assert SlotHolders(requests) == rest + if requests[i].phase.HasSlot() then {i} else {};
  }

  lemma {:induction false} ExchangesSwap(requests: seq<Request>, i: nat, r: Request)
    requires i < |requests|
    ensures Exchanges(requests[i := r]) == Exchanges(requests) - Performed(requests[i]) + Performed(r)
  {
    hide Performed;
    var n := |requests| - 1;
    if i < n {
      assert requests[i := r][..n] == requests[..n][i := r];
      ExchangesSwap(requests[..n], i, r);
    } else {
      assert requests[i := r][..n] == requests[..n];
    }
  }

  lemma MovedIsOk(s: System, e: Event)
    requires Enabled(s, e) && !e.Begin? && RequestOk(s.requests[e.i])
    ensures RequestOk(Moved(s, e))
  {
    hide ParseRetryAfter, Refuses, Judge, AsTold;
    var r, after := s.requests[e.i], Moved(s, e);
    if e.Decide? {
      RetriesAreEarned(r.phase.attempt, r.phase.reply, e.around);
      var verdict := Judge(r.phase.attempt, r.phase.reply, e.around);
      if verdict.Wait? {
        WaitsAreAsTold(r.phase.attempt, r.phase.reply, e.around, verdict.delay);
      }
    } else if e.Receive? {
      assert after.replies[..|r.replies|] == r.replies;
    }
  }

  lemma MovedCounts(s: System, e: Event)
    requires Enabled(s, e) && !e.Begin? && RequestOk(s.requests[e.i])
    ensures var r, after := s.requests[e.i], Moved(s, e);
            && Performed(after) == Performed(r) + (if e.ReadClock? && s.pace.Admits(e.now) then 1 else 0)
            && (e.TakeSlot? ==> !r.phase.HasSlot() && after.phase.HasSlot())
            && (!e.TakeSlot? ==> (after.phase.HasSlot() ==> r.phase.HasSlot()))
  {
    hide Judge, Refuses, EarnedUpTo;
  }

  lemma StepKeeps(s: System, e: Event)
    requires Inv(s) && Enabled(s, e)
    ensures Inv(Next(s, e))
  {
    hide RequestOk, Moved, Performed, SlotHolders;
    var t := Next(s, e);
    if e.Begin? {
      BeginKeeps(s);
    } else {
      var after := Moved(s, e);
      MovedIsOk(s, e);
      MovedCounts(s, e);
      PaceIsKept(s.pace, if e.ReadClock? then e.now else 0);
      HoldersSwap(s.requests, e.i, after);
      ExchangesSwap(s.requests, e.i, after);
    }
  }

  lemma BeginKeeps(s: System)
    requires Inv(s)
    ensures Inv(Next(s, Begin))
  {
    var t := Next(s, Begin);
    assert t.requests[..|s.requests|] == s.requests;
    assert SlotHolders(t.requests) == SlotHolders(s.requests);
  }

  lemma {:induction false} RunKeeps(s: System, events: seq<Event>)
    requires Inv(s) && Possible(s, events)
    ensures Inv(After(s, events))
    ensures After(s, events).gate.capacity == s.gate.capacity && After(s, events).pace.interval == s.pace.interval
    decreases |events|
  {
    hide Inv, Moved;
    if events != [] {
      StepKeeps(s, events[0]);
      RunKeeps(Next(s, events[0]), events[1..]);
    }
  }

  // ---------- what it means for every run ----------

  /**
  Never more slots in use than the capacity, and as many as there are requests between acquire and release; a slot
  can be had whenever these are fewer than the capacity.
  */
  lemma GateIsNeverExceeded(capacity: nat, interval: nat, events: seq<Event>)
    requires Possible(Initial(capacity, interval), events)
    ensures var t := After(Initial(capacity, interval), events);
            && t.gate.used == |SlotHolders(t.requests)| <= capacity
            && forall i: nat :: i < |t.requests| && t.requests[i].phase.Acquiring? ==>
                 (Enabled(t, TakeSlot(i)) <==> |SlotHolders(t.requests)| < capacity)
  {
    hide Possible, After;
    RunKeeps(Initial(capacity, interval), events);
  }

  /**
  Every acquired slot is released once on every way out, and no request holds one while it backs off or
  after it has returned. The attempt counter stays within three, so the loop never falls through. Every further
  attempt followed a reply that called for it and an admitted wait that ran out and was as long as the reply told.
  */
  lemma EveryRequestIsInOrder(capacity: nat, interval: nat, events: seq<Event>, i: nat)
    requires Possible(Initial(capacity, interval), events) && i < |After(Initial(capacity, interval), events).requests|
    ensures var r := After(Initial(capacity, interval), events).requests[i];
            && (r.phase.Backing? || r.phase.Over? || r.phase.Judging? || r.phase.Acquiring? ==>
                  r.acquired == r.released)
            && (r.phase.Holding? || r.phase.Limiting? || r.phase.Exchanging? ==> r.acquired == r.released + 1)
            && (!r.phase.Over? ==> 1 <= r.phase.attempt <= MAXIMUM_ATTEMPTS)
            && Performed(r) <= MAXIMUM_ATTEMPTS
            && (r.phase.Over? ==> r.phase.outcome.attempts == |r.replies|)
            && (forall k: nat :: k < Performed(r) - 1 ==>
                  Earned(r.replies[k]) && k < |r.waits|
                  && r.waits[k].Granted() && r.waits[k].Follows(k + 1, r.replies[k]))
  {
    hide Possible, After;
    RunKeeps(Initial(capacity, interval), events);
    assert RequestOk(After(Initial(capacity, interval), events).requests[i]);
  }

  /**
  Over all requests and retries together, whatever the clock shows: one reserved start for each exchange,
  any k + 1 consecutive starts span k intervals, and no window holds more than length / interval + 1 of them.
  */
  lemma StartsAreSpaced(capacity: nat, interval: nat, events: seq<Event>, i: nat, k: nat, from: int, window: nat)
    requires Possible(Initial(capacity, interval), events) && interval > 0
    ensures var t := After(Initial(capacity, interval), events);
            && |t.pace.starts| == Exchanges(t.requests)
            && (i + k < |t.pace.starts| ==> t.pace.starts[i + k] - t.pace.starts[i] >= k * interval)
            && |StartsWithin(t.pace.starts, from, window)| <= window / interval + 1
  {
    hide Possible, After;
    RunKeeps(Initial(capacity, interval), events);
    var starts := After(Initial(capacity, interval), events).pace.starts;
    if i + k < |starts| {
      StartsSpan(starts, interval, i, k);
    }
    WindowBound(starts, interval, from, window);
  }
}
