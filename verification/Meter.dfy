/** The rolling-window meter (src/broker/authorization_envelope.c). */
module Meter {
  import opened Common

  datatype Envelope = Envelope(perCall: int64, perWindow: int64, windowDuration: int64, scopes: seq<string>)

  /** What has been spent: never negative, and within 64 bits because it never passes perWindow. */
  type Spent = x: int | 0 <= x < 0x8000_0000_0000_0000

  datatype State = State(spent: Spent, start: int64, started: bool)

  const NEW := State(0, 0, false)

  datatype Reason = NotPositive | OverPerCall | OverWindow

  /** The outcome of a charge, with the counters it reports. */
  datatype Charge = Allowed(spent: Spent, start: int64) | Denied(reason: Reason, spent: Spent, start: int64)

  predicate Rolls(env: Envelope, st: State, now: int64) {
    !st.started || now - st.start >= env.windowDuration
  }

  function Decide(env: Envelope, st: State, amount: int64, now: int64): Charge {
    if amount <= 0 then Denied(NotPositive, st.spent, if st.started then st.start else now)
    else if amount > env.perCall then Denied(OverPerCall, st.spent, if st.started then st.start else now)
    else
      var start := if Rolls(env, st, now) then now else st.start;
      var spent := if Rolls(env, st, now) then 0 else st.spent;
      if spent + amount > env.perWindow then Denied(OverWindow, spent, start)
      else Allowed(spent + amount, start)
  }

  /** Only an allowed charge changes the meter. */
  function After(env: Envelope, st: State, amount: int64, now: int64): State {
    match Decide(env, st, amount, now)
    case Allowed(spent, start) => State(spent, start, true)
    case Denied(_, _, _) => st
  }

  class WindowAccountant {
    const envelope: Envelope
    var spentInWindow: Spent
    var windowStart: int64
    var started: bool

    function Current(): State
      reads this
    {
      State(spentInWindow, windowStart, started)
    }

    constructor (env: Envelope)
      ensures envelope == env && Current() == NEW
    {
      envelope := env;
      spentInWindow := 0;
      windowStart := 0;
      started := false;
    }

    method Deny(reason: Reason, now: int64) returns (out: Charge)
      ensures out == Denied(reason, spentInWindow, if started then windowStart else now)
    {
      out := Denied(reason, spentInWindow, if started then windowStart else now);
    }

    method ChargeAt(amount: int64, now: int64) returns (out: Charge)
      modifies this
      ensures out == Decide(envelope, old(Current()), amount, now)
      ensures Current() == After(envelope, old(Current()), amount, now)
      ensures out.Denied? ==> Current() == old(Current())
    {
      if amount <= 0 {
        out := Deny(NotPositive, now);
        return;
      }
      if amount > envelope.perCall {
        out := Deny(OverPerCall, now);
        return;
      }
      var start, spent := windowStart, spentInWindow;
      if !started || now - start >= envelope.windowDuration {
        start, spent := now, 0;
      }
      var next := spent + amount;
      if next > envelope.perWindow {
        return Denied(OverWindow, spent, start);
      }
      spentInWindow, windowStart, started := next, start, true;
      return Allowed(next, start);
    }
  }

  // ---- whole runs ---------------------------------------------------------

  datatype Request = Request(amount: int64, now: int64)

  /** An allowed charge: how much, when, and in the window started when. */
  datatype Spend = Spend(amount: int64, at: int64, start: int64)

  function Run(env: Envelope, st: State, reqs: seq<Request>): State
    decreases reqs
  {
    if reqs == [] then st else Run(env, After(env, st, reqs[0].amount, reqs[0].now), reqs[1..])
  }

  /** The allowed charges of a run, in order; denied ones leave no trace. */
  function Log(env: Envelope, st: State, reqs: seq<Request>): seq<Spend>
    decreases reqs
  {
    if reqs == [] then []
    else
      var rest := Log(env, After(env, st, reqs[0].amount, reqs[0].now), reqs[1..]);
      match Decide(env, st, reqs[0].amount, reqs[0].now)
      case Denied(_, _, _) => rest
      case Allowed(_, start) => [Spend(reqs[0].amount, reqs[0].now, start)] + rest
  }

  lemma {:induction false} RunAppend(env: Envelope, st: State, reqs: seq<Request>, r: Request)
    ensures var m := Run(env, st, reqs);
            && Run(env, st, reqs + [r]) == After(env, m, r.amount, r.now)
            && Log(env, st, reqs + [r]) == Log(env, st, reqs) +
               (match Decide(env, m, r.amount, r.now)
                case Denied(_, _, _) => []
                case Allowed(_, start) => [Spend(r.amount, r.now, start)])
    decreases reqs
  {
    hide Decide;
    if reqs == [] {
      assert ([r])[1..] == [] && reqs + [r] == [r];
    } else {
      assert (reqs + [r])[1..] == reqs[1..] + [r];
      RunAppend(env, After(env, st, reqs[0].amount, reqs[0].now), reqs[1..], r);
    }
  }

  ghost predicate Ordered(reqs: seq<Request>) {
    forall i, j :: 0 <= i < j < |reqs| ==> reqs[i].now <= reqs[j].now
  }

  /** The total charged at times in [from, to). */
  function SumBetween(log: seq<Spend>, from: int, to: int): int {
    if log == [] then 0
    else (if from <= log[0].at < to then log[0].amount else 0) + SumBetween(log[1..], from, to)
  }

  /** The total charged in the window that started at w. */
  function SumInWindow(log: seq<Spend>, w: int): int {
    if log == [] then 0
    else (if log[0].start == w then log[0].amount else 0) + SumInWindow(log[1..], w)
  }

  // ---- a tracked window never holds more than perWindow -------------------

  ghost predicate WindowInv(env: Envelope, st: State, w: int, sum: int) {
    && (!st.started ==> sum == 0)
    && (st.started && w == st.start ==> sum == st.spent)
    && (st.started && w > st.start ==> sum == 0)
    && (sum == 0 || sum <= env.perWindow)
  }

  lemma {:induction false} WindowFrom(env: Envelope, st: State, reqs: seq<Request>, w: int, sum: int)
    requires env.windowDuration > 0 && WindowInv(env, st, w, sum)
    ensures var total := sum + SumInWindow(Log(env, st, reqs), w); total == 0 || total <= env.perWindow
    decreases reqs
  {
    if reqs != [] {
      var r := reqs[0];
      var st' := After(env, st, r.amount, r.now);
      var rest := Log(env, st', reqs[1..]);
      match Decide(env, st, r.amount, r.now) {
        case Denied(_, _, _) =>
          WindowFrom(env, st', reqs[1..], w, sum);
        case Allowed(_, start) =>
          WindowFrom(env, st', reqs[1..], w, sum + if start == w then r.amount else 0);
          assert ([Spend(r.amount, r.now, start)] + rest)[1..] == rest;
      }
    }
  }

  /** Whatever the clock does, the charges of one tracked window total at most perWindow. */
  lemma TrackedWindowBound(env: Envelope, reqs: seq<Request>, w: int)
    requires env.windowDuration > 0
    ensures var total := SumInWindow(Log(env, NEW, reqs), w); total == 0 || total <= env.perWindow
  {
    WindowFrom(env, NEW, reqs, w, 0);
  }

  /** n charges of one unit at time t. */
  function Units(t: int64, n: nat): (r: seq<Request>)
    ensures |r| == n && forall i :: 0 <= i < n ==> r[i] == Request(1, t)
  {
    seq(n, i => Request(1, t))
  }

  /** Without a positive duration every charge opens the window anew, and nothing adds up. */
  lemma {:induction false} NothingAddsUp(env: Envelope, st: State, n: nat)
    requires env.windowDuration <= 0 && env.perCall >= 1 && env.perWindow >= 1 && (st.started ==> st.start == 0)
    ensures SumInWindow(Log(env, st, Units(0, n)), 0) == n
    decreases n
  {
    if n > 0 {
      var st' := After(env, st, 1, 0);
      assert Units(0, n)[1..] == Units(0, n - 1);
      NothingAddsUp(env, st', n - 1);
      var rest := Log(env, st', Units(0, n - 1));
      assert Log(env, st, Units(0, n)) == [Spend(1, 0, 0)] + rest;
      assert ([Spend(1, 0, 0)] + rest)[1..] == rest;
    }
  }

  /** Without a unit of room nothing is ever allowed. */
  lemma {:induction false} NothingAllowed(env: Envelope, st: State, reqs: seq<Request>)
    requires (env.perCall < 1 || env.perWindow < 1) && !st.started
    ensures Log(env, st, reqs) == []
    decreases reqs
  {
    if reqs != [] { NothingAllowed(env, st, reqs[1..]); }
  }

  ghost predicate WindowBounded(env: Envelope, reqs: seq<Request>, w: int) {
    var total := SumInWindow(Log(env, NEW, reqs), w);
    total == 0 || total <= env.perWindow
  }

  /** Exactly which envelopes bound what a tracked window holds; the code takes any duration. */
  lemma WindowBoundedIff(env: Envelope)
    ensures (forall reqs, w :: WindowBounded(env, reqs, w)) <==>
            env.windowDuration > 0 || env.perCall < 1 || env.perWindow < 1
  {
    if env.windowDuration > 0 {
      forall reqs, w ensures WindowBounded(env, reqs, w) { TrackedWindowBound(env, reqs, w); }
    } else if env.perCall < 1 || env.perWindow < 1 {
      forall reqs, w ensures WindowBounded(env, reqs, w) { NothingAllowed(env, NEW, reqs); }
    } else {
      NothingAddsUp(env, NEW, env.perWindow + 1);
      assert !WindowBounded(env, Units(0, env.perWindow + 1), 0);
    }
  }

  // ---- the counter is the history -----------------------------------------

  lemma {:induction false} SumInWindowAppend(log: seq<Spend>, x: Spend, w: int)
    ensures SumInWindow(log + [x], w) == SumInWindow(log, w) + if x.start == w then x.amount else 0
  {
    if log == [] {
      assert log + [x] == [x] && [x][1..] == [];
    } else {
      SumInWindowAppend(log[1..], x, w);
      assert (log + [x])[1..] == log[1..] + [x];
    }
  }

  lemma {:induction false} NothingYet(log: seq<Spend>, w: int)
    requires forall k :: 0 <= k < |log| ==> log[k].start < w
    ensures SumInWindow(log, w) == 0
  {
    if log != [] { NothingYet(log[1..], w); }
  }

  /** No window is opened after the current one, and its counter is what was charged in it. */
  ghost predicate Accounts(st: State, log: seq<Spend>) {
    && (st.started <==> log != [])
    && (st.started ==> log[|log| - 1].start == st.start)
    && (st.started ==> forall k :: 0 <= k < |log| ==> log[k].start <= st.start)
    && (st.started ==> st.spent == SumInWindow(log, st.start))
  }

  lemma AccountsStep(env: Envelope, st: State, log: seq<Spend>, r: Request, start: int64)
    requires env.windowDuration > 0 && Accounts(st, log)
    requires Decide(env, st, r.amount, r.now).Allowed? && start == Decide(env, st, r.amount, r.now).start
    ensures Accounts(After(env, st, r.amount, r.now), log + [Spend(r.amount, r.now, start)])
  {
    SumInWindowAppend(log, Spend(r.amount, r.now, start), start);
    if Rolls(env, st, r.now) { NothingYet(log, start); }
  }

  lemma {:induction false} CounterIsHistory(env: Envelope, reqs: seq<Request>)
    requires env.windowDuration > 0
    ensures Accounts(Run(env, NEW, reqs), Log(env, NEW, reqs))
  {
    if reqs != [] {
      var front, r := reqs[..|reqs| - 1], reqs[|reqs| - 1];
      assert reqs == front + [r];
      CounterIsHistory(env, front);
      RunAppend(env, NEW, front, r);
      var st, log := Run(env, NEW, front), Log(env, NEW, front);
      var d := Decide(env, st, r.amount, r.now);
      if d.Allowed? {
        AccountsStep(env, st, log, r, d.start);
      } else {
        assert log + [] == log;
      }
    }
  }

  /** What the history shows spent of the current window at time now: nothing once the window is over. */
  function Used(env: Envelope, log: seq<Spend>, now: int64): int {
    if log == [] || now - log[|log| - 1].start >= env.windowDuration then 0
    else SumInWindow(log, log[|log| - 1].start)
  }

  predicate FitsHistory(env: Envelope, log: seq<Spend>, r: Request) {
    0 < r.amount <= env.perCall && Used(env, log, r.now) + r.amount <= env.perWindow
  }

  /**
   * After any run, a request is allowed exactly when it is positive, within the per-call limit, and
   * fits beside what the history shows for the current window, or alone once that window is over.
   */
  lemma AllowedByHistory(env: Envelope, reqs: seq<Request>, r: Request)
    requires env.windowDuration > 0
    ensures Decide(env, Run(env, NEW, reqs), r.amount, r.now).Allowed? <==> FitsHistory(env, Log(env, NEW, reqs), r)
  {
    CounterIsHistory(env, reqs);
    hide Run, Log, SumInWindow;
  }

  /** When the current window started, as a charge at time now would find it. */
  function CurrentStart(env: Envelope, log: seq<Spend>, now: int64): int {
    if log == [] || now - log[|log| - 1].start >= env.windowDuration then now else log[|log| - 1].start
  }

  /** When the last window was opened, however long ago; now if none was. */
  function TrackedStart(log: seq<Spend>, now: int64): int {
    if log == [] then now else log[|log| - 1].start
  }

  /** What was spent in the last window, however long ago. */
  function TrackedSpent(log: seq<Spend>): int {
    if log == [] then 0 else SumInWindow(log, log[|log| - 1].start)
  }

  /** What every charge reports, in terms of the history: the reason first, then the two counters. */
  lemma ReportByHistory(env: Envelope, reqs: seq<Request>, r: Request)
    requires env.windowDuration > 0
    ensures var log, out := Log(env, NEW, reqs), Decide(env, Run(env, NEW, reqs), r.amount, r.now);
            var used := Used(env, log, r.now);
            && (r.amount <= 0 ==> out.Denied? && out.reason == NotPositive)
            && (0 < r.amount && r.amount > env.perCall ==> out.Denied? && out.reason == OverPerCall)
            && (r.amount <= 0 || r.amount > env.perCall ==>
                  out.spent == TrackedSpent(log) && out.start == TrackedStart(log, r.now))
            && (0 < r.amount <= env.perCall ==>
                  && out.start == CurrentStart(env, log, r.now)
                  && (used + r.amount > env.perWindow ==> out.Denied? && out.reason == OverWindow && out.spent == used)
                  && (used + r.amount <= env.perWindow ==> out.Allowed? && out.spent == used + r.amount))
  {
    CounterIsHistory(env, reqs);
    StartsUnspent(env, reqs);
    hide Run, Log, SumInWindow;
  }

  lemma {:induction false} StartsUnspent(env: Envelope, reqs: seq<Request>)
    ensures var st := Run(env, NEW, reqs); !st.started ==> st.spent == 0
  {
    if reqs != [] {
      var front, r := reqs[..|reqs| - 1], reqs[|reqs| - 1];
      assert reqs == front + [r];
      StartsUnspent(env, front);
      RunAppend(env, NEW, front, r);
      hide Run;
    }
  }

  // ---- any interval of one window length holds less than twice that -------

  ghost predicate IntervalInv(env: Envelope, st: State, t: int, last: int, sum: int) {
    var d := env.windowDuration;
    && (!st.started ==> sum == 0)
    && (st.started ==> 1 <= st.spent <= env.perWindow && st.start <= last)
    && (last < t ==> sum == 0)
    && (st.started && st.start < t ==> sum <= st.spent - 1)
    && (st.started && t <= st.start < t + d ==> sum <= env.perWindow - 1 + st.spent)
    && (st.started && t + d <= st.start ==> sum <= 2 * env.perWindow - 1)
  }

  lemma IntervalStep(env: Envelope, st: State, t: int, last: int, sum: int, amount: int64, now: int64)
    requires env.windowDuration > 0 && last <= now && IntervalInv(env, st, t, last, sum)
    requires Decide(env, st, amount, now).Allowed?
    ensures IntervalInv(env, After(env, st, amount, now), t, now,
                        sum + if t <= now < t + env.windowDuration then amount else 0)
  {
  }

  lemma {:induction false} IntervalFrom(env: Envelope, st: State, reqs: seq<Request>, t: int, last: int, sum: int)
    requires env.windowDuration > 0 && Ordered(reqs) && (reqs != [] ==> last <= reqs[0].now)
    requires IntervalInv(env, st, t, last, sum)
    ensures var total := sum + SumBetween(Log(env, st, reqs), t, t + env.windowDuration);
            total == 0 || total <= 2 * env.perWindow - 1
    decreases reqs
  {
    if reqs != [] {
      var r := reqs[0];
      var st' := After(env, st, r.amount, r.now);
      var rest := Log(env, st', reqs[1..]);
      match Decide(env, st, r.amount, r.now) {
        case Denied(_, _, _) =>
          IntervalFrom(env, st', reqs[1..], t, last, sum);
        case Allowed(_, start) =>
          IntervalStep(env, st, t, last, sum, r.amount, r.now);
          IntervalFrom(env, st', reqs[1..], t, r.now,
                       sum + if t <= r.now < t + env.windowDuration then r.amount else 0);
          assert ([Spend(r.amount, r.now, start)] + rest)[1..] == rest;
      }
    }
  }

  /**
   * With a clock that never runs back, the charges allowed in any half-open interval of one window
   * length total at most 2 * perWindow - 1, wherever denied charges are interleaved.
   */
  lemma IntervalBound(env: Envelope, reqs: seq<Request>, t: int)
    requires Ordered(reqs)
    ensures var total := SumBetween(Log(env, NEW, reqs), t, t + env.windowDuration);
            total == 0 || total <= 2 * env.perWindow - 1
  {
    if env.windowDuration > 0 {
      var last := if reqs == [] then 0 else reqs[0].now;
      IntervalFrom(env, NEW, reqs, t, last, 0);
    } else {
      NothingBetween(Log(env, NEW, reqs), t, t + env.windowDuration);
    }
  }

  lemma {:induction false} NothingBetween(log: seq<Spend>, from: int, to: int)
    requires to <= from
    ensures SumBetween(log, from, to) == 0
  {
    if log != [] { NothingBetween(log[1..], from, to); }
  }

  /** The bound is reached: one unit, then the rest of a window at its last second, then a full window. */
  lemma IntervalBoundReached(d: int64, cap: int64)
    requires d >= 2 && cap >= 2
    ensures var env := Envelope(cap, cap, d, []);
            var reqs := [Request(1, 0), Request(cap - 1, d - 1), Request(cap, d)];
            Ordered(reqs) && SumBetween(Log(env, NEW, reqs), d - 1, d - 1 + d) == 2 * cap - 1
  {
    var env := Envelope(cap, cap, d, []);
    var a, b, c := Request(1, 0), Request(cap - 1, d - 1), Request(cap, d);
    var s1, s2, s3 := State(1, 0, true), State(cap, 0, true), State(cap, d, true);
    assert [a, b, c][1..] == [b, c] && [b, c][1..] == [c] && [c][1..] == [];
    assert Log(env, s2, [c]) == [Spend(cap, d, d)];
    assert Log(env, s1, [b, c]) == [Spend(cap - 1, d - 1, 0), Spend(cap, d, d)];
    var log := [Spend(1, 0, 0), Spend(cap - 1, d - 1, 0), Spend(cap, d, d)];
    assert Log(env, NEW, [a, b, c]) == log;
    assert log[1..] == [Spend(cap - 1, d - 1, 0), Spend(cap, d, d)] && log[1..][1..] == [Spend(cap, d, d)];
    assert SumBetween(log[1..][1..], d - 1, d - 1 + d) == cap;
  }
}
