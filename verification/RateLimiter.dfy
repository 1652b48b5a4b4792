/** The process-wide rate limiter (src/chainSources/woc_rate_limiter.c) as a protocol over its steps. */
module RateLimiter {
  const MIN_INTERVAL_MS: int := 400
  const MAX_RETRIES: int := 6
  const BASE_BACKOFF_MS: int := 1000

  type Caller = nat

  /** Where a caller is inside woc_rate_limited. */
  datatype Phase =
    | Outside                                  // not in a call, or waiting for the mutex
    | Locked                                   // holds the mutex, has not read the clock yet
    | Spacing(until: int)                      // sleeping out the interval since the last start
    | Ready(attempt: int)                      // about to start an attempt
    | InFlight(attempt: int, started: int)     // the gated call is running
    | Backoff(attempt: int, until: int)        // sleeping before the next attempt
    | Leaving                                  // done, about to release the mutex

  /** One attempt as the outside world sees it. */
  datatype Start = Start(caller: Caller, call: nat, attempt: int, at: int)

  /** How an attempt came out: rc == BNS_OK, a failure with status 429, or another failure. */
  datatype Outcome = Success | TooMany | OtherError

  /** Global state: clock, mutex, last start, each caller's phase, and what happened so far. */
  datatype State = State(
    now: int,
    holder: int,                               // the caller in the critical section, or -1
    lastStart: int,
    phase: map<Caller, Phase>,
    calls: nat,                                // calls that have entered so far
    starts: seq<Start>,
    outcomes: seq<Outcome>)                    // outcomes[i] belongs to starts[i], once it is there

  function PhaseOf(s: State, c: Caller): Phase {
    if c in s.phase then s.phase[c] else Outside
  }

  function Move(s: State, c: Caller, p: Phase): State {
    s.(phase := s.phase[c := p])
  }

  /** BASE_BACKOFF_MS << attempt. */
  function BackoffMs(attempt: int): int {
    if attempt <= 0 then BASE_BACKOFF_MS else 2 * BackoffMs(attempt - 1)
  }

  ghost predicate Init(s: State) {
    && s.now >= 0 && s.holder == -1 && s.lastStart == 0
    && s.phase == map[] && s.calls == 0 && s.starts == [] && s.outcomes == []
  }

  // ---- the steps ----------------------------------------------------------

  datatype Event =
    | Tick(ms: nat)
    | Lock(c: Caller)
    | Measure(c: Caller)
    | Wake(c: Caller)
    | Begin(c: Caller)
    | Finish(c: Caller, outcome: Outcome)
    | Unlock(c: Caller)

  /** Whether an event can happen; a sleep ends no earlier than asked. */
  ghost predicate Enabled(s: State, e: Event) {
    match e
    case Tick(_) => true
    case Lock(c) => s.holder == -1 && PhaseOf(s, c).Outside?
    case Measure(c) => PhaseOf(s, c).Locked?
    case Wake(c) =>
      || (PhaseOf(s, c).Spacing? && s.now >= PhaseOf(s, c).until)
      || (PhaseOf(s, c).Backoff? && s.now >= PhaseOf(s, c).until)
    case Begin(c) => PhaseOf(s, c).Ready?
    case Finish(c, _) => PhaseOf(s, c).InFlight?
    case Unlock(c) => PhaseOf(s, c).Leaving?
  }

  function Next(s: State, e: Event): State {
    match e
    case Tick(ms) => s.(now := s.now + ms)
    case Lock(c) => Move(s.(holder := c, calls := s.calls + 1), c, Locked)
    case Measure(c) =>
      var wait := s.lastStart + MIN_INTERVAL_MS - s.now;
      Move(s, c, if wait > 0 then Spacing(s.now + wait) else Ready(0))
    case Wake(c) =>
      Move(s, c, Ready(if PhaseOf(s, c).Backoff? then PhaseOf(s, c).attempt + 1 else 0))
    case Begin(c) =>
      var attempt := if PhaseOf(s, c).Ready? then PhaseOf(s, c).attempt else 0;
      Move(s.(lastStart := s.now, starts := s.starts + [Start(c, s.calls, attempt, s.now)]), c,
           InFlight(attempt, s.now))
    case Finish(c, outcome) =>
      var attempt := if PhaseOf(s, c).InFlight? then PhaseOf(s, c).attempt else 0;
      var s' := s.(outcomes := s.outcomes + [outcome]);
      if outcome.TooMany? && attempt < MAX_RETRIES then Move(s', c, Backoff(attempt, s.now + BackoffMs(attempt)))
      else Move(s', c, Leaving)
    case Unlock(c) => Move(s.(holder := -1), c, Outside)
  }

  // ---- what every reachable state satisfies -------------------------------

  /** Only the holder is inside the critical section. */
  ghost predicate MutexInv(s: State) {
    && (forall c :: c in s.phase && !s.phase[c].Outside? ==> s.holder == c)
    && (s.holder >= 0 ==> !PhaseOf(s, s.holder).Outside?)
    && s.holder >= -1
  }

  /** Consecutive starts are spaced, and lastStart is the latest of them. */
  ghost predicate SpacingInv(s: State) {
    && (forall i :: 0 <= i < |s.starts| - 1 ==> s.starts[i + 1].at - s.starts[i].at >= MIN_INTERVAL_MS)
    && (s.starts != [] ==> s.lastStart == s.starts[|s.starts| - 1].at)
    && s.lastStart <= s.now
  }

  /** The holder may start again only once the interval has passed. */
  ghost predicate ReadyInv(s: State) {
    s.holder >= 0 ==>
      match PhaseOf(s, s.holder)
      case Spacing(until) => until >= s.lastStart + MIN_INTERVAL_MS
      case Ready(attempt) =>
        && (s.starts == [] || s.now >= s.lastStart + MIN_INTERVAL_MS)
        && (attempt > 0 ==> s.now >= s.lastStart + BackoffMs(attempt - 1))
      case InFlight(_, started) => started == s.lastStart && s.starts != []
      case Backoff(attempt, until) =>
        until >= s.lastStart + MIN_INTERVAL_MS && until >= s.lastStart + BackoffMs(attempt)
      case _ => true
  }

  /** Attempts are numbered within their call; a retry follows a 429 of the same call and its backoff. */
  ghost predicate LogInv(starts: seq<Start>, outcomes: seq<Outcome>, calls: nat) {
    && |outcomes| <= |starts| <= |outcomes| + 1
    && (forall i :: 0 <= i < |starts| ==> 0 <= starts[i].attempt <= MAX_RETRIES && starts[i].call <= calls)
    && (forall i :: 0 <= i < |starts| && starts[i].attempt > 0 ==> RetryAt(starts, outcomes, i))
    && (forall i :: 0 <= i < |starts| - 1 ==> Follows(starts[i], starts[i + 1]))
  }

  /** Calls come in order, and attempts within one call count up. */
  ghost predicate Follows(a: Start, b: Start) {
    a.call <= b.call && (a.call == b.call ==> b.attempt == a.attempt + 1)
  }

  ghost predicate RetryAt(starts: seq<Start>, outcomes: seq<Outcome>, i: int) {
    && 0 < i < |starts| && i - 1 < |outcomes|
    && starts[i - 1].caller == starts[i].caller
    && starts[i - 1].call == starts[i].call
    && starts[i - 1].attempt == starts[i].attempt - 1
    && starts[i].at - starts[i - 1].at >= BackoffMs(starts[i - 1].attempt)
    && outcomes[i - 1].TooMany?
  }

  lemma LogStart(starts: seq<Start>, outcomes: seq<Outcome>, calls: nat, x: Start)
    requires LogInv(starts, outcomes, calls) && |outcomes| == |starts|
    requires 0 <= x.attempt <= MAX_RETRIES && x.call == calls
    requires starts != [] ==> Follows(starts[|starts| - 1], x)
    requires x.attempt > 0 ==> RetryAt(starts + [x], outcomes, |starts|)
    ensures LogInv(starts + [x], outcomes, calls)
  {
    var more := starts + [x];
    forall i | 0 <= i < |more| && more[i].attempt > 0 ensures RetryAt(more, outcomes, i) {
      if i < |starts| { assert RetryAt(starts, outcomes, i); }
    }
    forall i | 0 <= i < |more| - 1 ensures Follows(more[i], more[i + 1]) {
      if i < |starts| - 1 { assert Follows(starts[i], starts[i + 1]); }
    }
  }

  lemma LogOutcome(starts: seq<Start>, outcomes: seq<Outcome>, calls: nat, o: Outcome)
    requires LogInv(starts, outcomes, calls) && |starts| == |outcomes| + 1
    ensures LogInv(starts, outcomes + [o], calls)
  {
    forall i | 0 <= i < |starts| && starts[i].attempt > 0 ensures RetryAt(starts, outcomes + [o], i) {
      assert RetryAt(starts, outcomes, i);
    }
  }

  /** What the holder's phase says about the latest start. */
  ghost predicate HolderInv(s: State) {
    && (s.holder < 0 ==> |s.outcomes| == |s.starts|)
    && (s.holder >= 0 ==>
      var n := |s.starts|;
      match PhaseOf(s, s.holder)
      case InFlight(attempt, _) => n == |s.outcomes| + 1 && LastIs(s, attempt)
      case Backoff(attempt, _) =>
        n == |s.outcomes| && LastIs(s, attempt) && s.outcomes[n - 1].TooMany? && attempt < MAX_RETRIES
      case Ready(attempt) =>
        && n == |s.outcomes| && 0 <= attempt <= MAX_RETRIES
        && (attempt > 0 ==> LastIs(s, attempt - 1) && s.outcomes[n - 1].TooMany?)
        && (attempt == 0 ==> n == 0 || s.starts[n - 1].call < s.calls)
      case Leaving => n == |s.outcomes|
      case _ => n == |s.outcomes| && (n == 0 || s.starts[n - 1].call < s.calls))
  }

  ghost predicate LastIs(s: State, attempt: int) {
    && s.starts != [] && 0 <= attempt <= MAX_RETRIES
    && var last := s.starts[|s.starts| - 1];
    && last.caller == s.holder && last.call == s.calls && last.attempt == attempt
  }

  ghost predicate Inv(s: State) {
    MutexInv(s) && SpacingInv(s) && ReadyInv(s) && LogInv(s.starts, s.outcomes, s.calls) && HolderInv(s)
  }

  lemma InitInv(s: State)
    requires Init(s)
    ensures Inv(s)
  {
  }

  function PowerOfTwo(n: nat): nat {
    if n == 0 then 1 else 2 * PowerOfTwo(n - 1)
  }

  /** 1000 ms, doubled with every attempt; up to 32 seconds before the last one. */
  lemma {:induction false} BackoffIs(attempt: nat)
    ensures BackoffMs(attempt) == 1000 * PowerOfTwo(attempt)
    ensures attempt == 5 ==> BackoffMs(attempt) == 32000
  {
    if attempt > 0 { BackoffIs(attempt - 1); }
    assert PowerOfTwo(3) == 8;
  }

  /** A retry waits out the backoff of the attempt before it, in milliseconds. */
  lemma RetryWaits(starts: seq<Start>, outcomes: seq<Outcome>, i: int)
    requires RetryAt(starts, outcomes, i) && starts[i].attempt >= 1
    ensures starts[i].at - starts[i - 1].at >= 1000 * PowerOfTwo(starts[i].attempt - 1)
    ensures starts[i - 1].attempt == starts[i].attempt - 1 && outcomes[i - 1].TooMany?
  {
    BackoffIs(starts[i].attempt - 1);
  }

  lemma {:induction false} BackoffLong(attempt: int)
    ensures BackoffMs(attempt) >= MIN_INTERVAL_MS
  {
    if attempt > 0 { BackoffLong(attempt - 1); }
  }

  lemma MutexStep(s: State, e: Event)
    requires Inv(s) && Enabled(s, e)
    ensures MutexInv(Next(s, e))
  {
    hide LogInv, HolderInv, SpacingInv, ReadyInv;
  }

  lemma SpacingStep(s: State, e: Event)
    requires Inv(s) && Enabled(s, e)
    ensures SpacingInv(Next(s, e)) && ReadyInv(Next(s, e))
  {
    hide LogInv, HolderInv;
    if e.Finish? && PhaseOf(s, e.c).InFlight? { BackoffLong(PhaseOf(s, e.c).attempt); }
  }

  lemma LogStep(s: State, e: Event)
    requires Inv(s) && Enabled(s, e)
    ensures var s' := Next(s, e); LogInv(s'.starts, s'.outcomes, s'.calls)
  {
    hide BackoffMs;
    if e.Begin? {
      var attempt := PhaseOf(s, e.c).attempt;
      LogStart(s.starts, s.outcomes, s.calls, Start(e.c, s.calls, attempt, s.now));
    } else if e.Finish? {
      LogOutcome(s.starts, s.outcomes, s.calls, e.outcome);
    }
  }

  lemma HolderStep(s: State, e: Event)
    requires Inv(s) && Enabled(s, e)
    ensures HolderInv(Next(s, e))
  {
    hide SpacingInv, ReadyInv, BackoffMs, RetryAt, Follows;
  }

  lemma StepKeepsInv(s: State, e: Event)
    requires Inv(s) && Enabled(s, e)
    ensures Inv(Next(s, e))
  {
    MutexStep(s, e);
    SpacingStep(s, e);
    LogStep(s, e);
    HolderStep(s, e);
    hide Next, Enabled, MutexInv, SpacingInv, ReadyInv, LogInv, HolderInv;
  }

  // ---- runs ---------------------------------------------------------------

  ghost predicate Reachable(s0: State, events: seq<Event>, s: State)
    decreases events
  {
    if events == [] then s == s0
    else Enabled(s0, events[0]) && Reachable(Next(s0, events[0]), events[1..], s)
  }

  lemma {:induction false} RunKeepsInv(s0: State, events: seq<Event>, s: State)
    requires Inv(s0) && Reachable(s0, events, s)
    ensures Inv(s)
    decreases events
  {
    hide Inv, Next, Enabled;
    if events != [] {
      StepKeepsInv(s0, events[0]);
      RunKeepsInv(Next(s0, events[0]), events[1..], s);
    }
  }

  /**
   * In every interleaving of callers: at most one gated call is in flight, consecutive attempt starts
   * are at least 400 ms apart, every call makes at most seven attempts, and a retry comes only after
   * a 429 of the attempt before it in the same call, and no sooner than that attempt's backoff.
   */
  lemma Safety(s0: State, events: seq<Event>, s: State)
    requires Init(s0) && Reachable(s0, events, s)
    ensures forall c, d :: PhaseOf(s, c).InFlight? && PhaseOf(s, d).InFlight? ==> c == d
    ensures forall i, j :: 0 <= i < j < |s.starts| ==> s.starts[j].at - s.starts[i].at >= 400
    ensures forall i :: 0 <= i < |s.starts| ==> 0 <= s.starts[i].attempt < 7
    ensures forall i :: 0 <= i < |s.starts| && s.starts[i].attempt > 0 ==> RetryAt(s.starts, s.outcomes, i)
    ensures forall i, j :: 0 <= i < j < |s.starts| && s.starts[i].call == s.starts[j].call ==>
            s.starts[j].attempt - s.starts[i].attempt == j - i
  {
    InitInv(s0);
    RunKeepsInv(s0, events, s);
    forall i, j | 0 <= i < j < |s.starts|
      ensures s.starts[j].at - s.starts[i].at >= MIN_INTERVAL_MS { Spread(s, i, j); }
    forall i, j | 0 <= i < j < |s.starts| && s.starts[i].call == s.starts[j].call
      ensures s.starts[j].attempt - s.starts[i].attempt == j - i { SameCallCounts(s, i, j); }
  }

  lemma {:induction false} Spread(s: State, i: nat, j: nat)
    requires SpacingInv(s) && i < j < |s.starts|
    ensures s.starts[j].at - s.starts[i].at >= MIN_INTERVAL_MS
    decreases j
  {
    if i + 1 < j { Spread(s, i, j - 1); }
    assert s.starts[j - 1 + 1].at - s.starts[j - 1].at >= MIN_INTERVAL_MS;
  }

  lemma {:induction false} CallsOrdered(s: State, i: nat, j: nat)
    requires LogInv(s.starts, s.outcomes, s.calls) && i <= j < |s.starts|
    ensures s.starts[i].call <= s.starts[j].call
    decreases j
  {
    if i < j {
      CallsOrdered(s, i, j - 1);
      assert Follows(s.starts[j - 1], s.starts[j - 1 + 1]);
    }
  }

  lemma {:induction false} SameCallCounts(s: State, i: nat, j: nat)
    requires LogInv(s.starts, s.outcomes, s.calls) && i < j < |s.starts| && s.starts[i].call == s.starts[j].call
    ensures s.starts[j].attempt - s.starts[i].attempt == j - i
    decreases j
  {
    CallsOrdered(s, i, j - 1);
    CallsOrdered(s, j - 1, j);
    assert Follows(s.starts[j - 1], s.starts[j - 1 + 1]);
    if i + 1 < j { SameCallCounts(s, i, j - 1); }
  }

  // ---- the code of one call -----------------------------------------------

  lemma {:induction false} RunAppend(s0: State, events: seq<Event>, s: State, e: Event)
    requires Reachable(s0, events, s) && Enabled(s, e)
    ensures Reachable(s0, events + [e], Next(s, e))
    decreases events
  {
    hide Enabled, Next;
    if events == [] {
      assert events + [e] == [e] && [e][1..] == [];
    } else {
      assert (events + [e])[1..] == events[1..] + [e];
      RunAppend(Next(s0, events[0]), events[1..], s, e);
    }
  }

  /** A run in the making: how the protocol got from s0 to s. */
  datatype Trace = Trace(events: seq<Event>, s: State)

  ghost function Do(t: Trace, e: Event): Trace {
    Trace(t.events + [e], Next(t.s, e))
  }

  /**
   * woc_rate_limited for caller c: how long each attempt took and how it came out are inputs, and a
   * sleep lasts as long as asked plus whatever is given on top. Every path through the loop is a run of
   * the protocol above, ending with the mutex free.
   */
  method Limited(c: Caller, lastStart0: int, now0: int, extra: nat -> nat, took: nat -> nat, outcome: nat -> Outcome,
                 ghost s0: State)
    returns (last: Outcome, attempts: nat, lastStart: int, now: int, ghost t: Trace)
    requires s0.holder == -1 && PhaseOf(s0, c).Outside? && s0.now == now0 && s0.lastStart == lastStart0
    ensures Reachable(s0, t.events, t.s)
    ensures t.s.holder == -1 && t.s.now == now && t.s.lastStart == lastStart
    ensures 1 <= attempts <= 7 && |t.s.starts| == |s0.starts| + attempts
    ensures last == outcome(attempts - 1)
    ensures forall k :: 0 <= k < attempts - 1 ==> outcome(k).TooMany?
    ensures last.TooMany? ==> attempts == 7
  {
    hide Enabled, Next, Reachable, PhaseOf, BackoffMs;
    lastStart, now := lastStart0, now0;
    t := Enter(s0, c);
    var wait := lastStart + MIN_INTERVAL_MS - now;
    if wait > 0 {
      t := Sleep(s0, t, c, wait + extra(0));
      now := now + (wait + extra(0));
    }
    var attempt: nat := 0;
    while true
      invariant attempt <= 6 && Reachable(s0, t.events, t.s)
      invariant t.s.now == now && PhaseOf(t.s, c) == Ready(attempt) && |t.s.starts| == |s0.starts| + attempt
      invariant forall k :: 0 <= k < attempt ==> outcome(k).TooMany?
      decreases 6 - attempt
    {
      lastStart := now;
      last := outcome(attempt);
      t := Try(s0, t, c, last, attempt, took(attempt));
      now := now + took(attempt);
      if last.TooMany? && attempt < MAX_RETRIES {
        var backoff := BackoffMs(attempt);
        BackoffLong(attempt);
        t := Sleep(s0, t, c, backoff + extra(attempt + 1));
        now := now + (backoff + extra(attempt + 1));
        attempt := attempt + 1;
      } else {
        break;
      }
    }
    attempts := attempt + 1;
    t := Leave(s0, t, c);
  }

  ghost method Enter(s0: State, c: Caller) returns (t: Trace)
    requires s0.holder == -1 && PhaseOf(s0, c).Outside?
    ensures Reachable(s0, t.events, t.s) && t.s.now == s0.now && t.s.starts == s0.starts
            && t.s.lastStart == s0.lastStart
    ensures var wait := s0.lastStart + MIN_INTERVAL_MS - s0.now;
            PhaseOf(t.s, c) == if wait > 0 then Spacing(s0.now + wait) else Ready(0)
  {
    RunAppend(s0, [], s0, Lock(c));
    t := Do(Trace([], s0), Lock(c));
    RunAppend(s0, t.events, t.s, Measure(c));
    t := Do(t, Measure(c));
  }

  ghost method Sleep(s0: State, t: Trace, c: Caller, ms: nat) returns (t': Trace)
    requires Reachable(s0, t.events, t.s)
    requires PhaseOf(t.s, c).Spacing? || PhaseOf(t.s, c).Backoff?
    requires PhaseOf(t.s, c).until <= t.s.now + ms
    ensures Reachable(s0, t'.events, t'.s) && t'.s.now == t.s.now + ms
    ensures t'.s.starts == t.s.starts && t'.s.lastStart == t.s.lastStart && t'.s.holder == t.s.holder
    ensures PhaseOf(t'.s, c) == Ready(if PhaseOf(t.s, c).Backoff? then PhaseOf(t.s, c).attempt + 1 else 0)
  {
    RunAppend(s0, t.events, t.s, Tick(ms));
    t' := Do(t, Tick(ms));
    RunAppend(s0, t'.events, t'.s, Wake(c));
    t' := Do(t', Wake(c));
  }

  ghost method Try(s0: State, t: Trace, c: Caller, o: Outcome, attempt: nat, ms: nat) returns (t': Trace)
    requires Reachable(s0, t.events, t.s) && PhaseOf(t.s, c) == Ready(attempt)
    ensures Reachable(s0, t'.events, t'.s) && t'.s.now == t.s.now + ms && t'.s.lastStart == t.s.now
    ensures |t'.s.starts| == |t.s.starts| + 1
    ensures PhaseOf(t'.s, c) ==
      if o.TooMany? && attempt < MAX_RETRIES then Backoff(attempt, t'.s.now + BackoffMs(attempt)) else Leaving
  {
    hide BackoffMs;
    RunAppend(s0, t.events, t.s, Begin(c));
    t' := Do(t, Begin(c));
    RunAppend(s0, t'.events, t'.s, Tick(ms));
    t' := Do(t', Tick(ms));
    RunAppend(s0, t'.events, t'.s, Finish(c, o));
    t' := Do(t', Finish(c, o));
  }

  ghost method Leave(s0: State, t: Trace, c: Caller) returns (t': Trace)
    requires Reachable(s0, t.events, t.s) && PhaseOf(t.s, c).Leaving?
    ensures Reachable(s0, t'.events, t'.s) && t'.s.holder == -1
    ensures t'.s.now == t.s.now && t'.s.lastStart == t.s.lastStart && t'.s.starts == t.s.starts
  {
    RunAppend(s0, t.events, t.s, Unlock(c));
    t' := Do(t, Unlock(c));
  }
}
