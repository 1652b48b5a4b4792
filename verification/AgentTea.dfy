/** The AgentTea contract state step and its receipts (src/contracts_next/agent_tea.c). */
module AgentTea {
  import opened Common
  import opened Num2Bin
  import Meter

  type Bytes33 = s: Bytes | |s| == 33 witness seq(33, i => 0)

  datatype Params = Params(
    ricardianHash: Bytes,
    agent: Bytes,
    dailyLimit: int,
    windowDuration: int,
    graduationThreshold: int)

  datatype State = State(txCount: int, spentInWindow: int, windowStart: int, tier: int, recoveryCount: int)

  const GENESIS := State(0, 0, 0, 1, 0)

  /** The state after an action; it does not itself check any limit. */
  function ApplyAction(p: Params, s: State, amount: int, now: int64): State {
    var roll := now - s.windowStart >= p.windowDuration;
    var count := s.txCount + 1;
    State(
      count,
      (if roll then 0 else s.spentInWindow) + amount,
      if roll then now else s.windowStart,
      if count >= p.graduationThreshold && s.tier < 2 then 2 else s.tier,
      s.recoveryCount)
  }

  // ---- whole runs ---------------------------------------------------------

  datatype Action = Action(counterparty: Bytes33, amount: int, actionHash: Bytes32, provenanceHash: Bytes32, now: int64)

  function StateAfter(p: Params, actions: seq<Action>): State {
    if actions == [] then GENESIS
    else
      var last := actions[|actions| - 1];
      ApplyAction(p, StateAfter(p, actions[..|actions| - 1]), last.amount, last.now)
  }

  /** The count is the number of actions; the tier is 2 from the threshold on, and never before. */
  lemma {:induction false} CountAndTier(p: Params, actions: seq<Action>)
    ensures var s := StateAfter(p, actions);
            && s.txCount == |actions|
            && (actions != [] ==> s.tier == if |actions| >= p.graduationThreshold then 2 else 1)
            && 1 <= s.tier <= 2 && s.recoveryCount == 0
  {
    if actions != [] { CountAndTier(p, actions[..|actions| - 1]); }
  }

  lemma TierNeverDrops(p: Params, actions: seq<Action>, k: nat)
    requires k <= |actions|
    ensures StateAfter(p, actions[..k]).tier <= StateAfter(p, actions).tier
  {
    CountAndTier(p, actions[..k]);
    CountAndTier(p, actions);
    assert k == |actions| ==> actions[..k] == actions;
  }

  // ---- receipts -----------------------------------------------------------

  /** The lengths the receipt builder insists on. */
  predicate Shaped(p: Params) {
    |p.ricardianHash| == 32 && |p.agent| == 33
  }

  ghost predicate Encodable(s: State, a: Action) {
    Fits(a.amount, 8) && Fits(s.txCount, 8) && Fits(a.now, 4)
  }

  function Parties(p: Params, a: Action): Bytes {
    p.ricardianHash + p.agent + a.counterparty
  }

  /** What is hashed into a receipt: the state's count is the one before the action. */
  ghost function ReceiptBytes(p: Params, s: State, a: Action): Bytes
    requires Encodable(s, a)
  {
    Parties(p, a) + SignMag(a.amount, 8) + a.actionHash + a.provenanceHash + SignMag(s.txCount, 8) + SignMag(a.now, 4)
  }

  /** What the buffer has gained when the builder returns: it stops before the first number that does not fit. */
  ghost function Written(p: Params, s: State, a: Action): Bytes {
    if !Shaped(p) then []
    else if !Fits(a.amount, 8) then Parties(p, a)
    else if !Fits(s.txCount, 8) then Parties(p, a) + SignMag(a.amount, 8) + a.actionHash + a.provenanceHash
    else if !Fits(a.now, 4) then
      Parties(p, a) + SignMag(a.amount, 8) + a.actionHash + a.provenanceHash + SignMag(s.txCount, 8)
    else ReceiptBytes(p, s, a)
  }

  lemma Grow(out: Bytes, w: Bytes, x: Bytes)
    ensures (out + w) + x == out + (w + x)
  {
  }

  method ReceiptPreimage(p: Params, s: State, a: Action, out: Bytes) returns (err: Option<Code>, r: Bytes)
    ensures err == if !Shaped(p) then Some(EINVAL) else if !Encodable(s, a) then Some(ERANGE) else None
    ensures r == out + Written(p, s, a)
  {
    hide SignMag, Fits, Parties;
    if |p.ricardianHash| != 32 || |p.agent| != 33 { return Some(EINVAL), out; }
    r := AppendParties(p, a, out);
    ghost var w := Parties(p, a);
    var sized := Sized(a.amount, 8, r);
    if sized.Err? { return Some(sized.code), r; }
    Grow(out, w, SignMag(a.amount, 8));
    w := w + SignMag(a.amount, 8);
    r := sized.value + a.actionHash;
    Grow(out, w, a.actionHash);
    w := w + a.actionHash;
    r := r + a.provenanceHash;
    Grow(out, w, a.provenanceHash);
    w := w + a.provenanceHash;
    sized := Sized(s.txCount, 8, r);
    if sized.Err? { return Some(sized.code), r; }
    Grow(out, w, SignMag(s.txCount, 8));
    w := w + SignMag(s.txCount, 8);
    r := sized.value;
    sized := Sized(a.now, 4, r);
    if sized.Err? { return Some(sized.code), r; }
    Grow(out, w, SignMag(a.now, 4));
    return None, sized.value;
  }

  method AppendParties(p: Params, a: Action, out: Bytes) returns (r: Bytes)
    ensures r == out + Parties(p, a)
  {
    r := out + p.ricardianHash;
    r := r + p.agent;
    r := r + a.counterparty;
  }

  /** Every field of the 182 bytes at its place. */
  lemma ReceiptLayout(p: Params, s: State, a: Action)
    requires Shaped(p) && Encodable(s, a)
    ensures var r := ReceiptBytes(p, s, a);
            && |r| == 182
            && r[..32] == p.ricardianHash && r[32..65] == p.agent && r[65..98] == a.counterparty
            && FromSignMag(r[98..106]) == a.amount
            && r[106..138] == a.actionHash && r[138..170] == a.provenanceHash
            && r[170..178] == SignMag(s.txCount, 8) && FromSignMag(r[170..178]) == s.txCount
            && FromSignMag(r[178..]) == a.now
  {
    hide SignMag, Fits, FromSignMag;
    DecodeSignMag(a.amount, 8);
    DecodeSignMag(s.txCount, 8);
    DecodeSignMag(a.now, 4);
    var amount, count, time := SignMag(a.amount, 8), SignMag(s.txCount, 8), SignMag(a.now, 4);
    var head := p.ricardianHash + p.agent + a.counterparty;
    assert head[..32] == p.ricardianHash && head[32..65] == p.agent && head[65..98] == a.counterparty;
    Fields(ReceiptBytes(p, s, a), head, amount, a.actionHash, a.provenanceHash, count, time);
  }

  lemma Fields(r: Bytes, head: Bytes, amount: Bytes, action: Bytes, provenance: Bytes, count: Bytes, time: Bytes)
    requires |head| == 98 && |amount| == 8 && |action| == 32 && |provenance| == 32 && |count| == 8 && |time| == 4
    requires r == head + amount + action + provenance + count + time
    ensures |r| == 182 && r[98..106] == amount && r[106..138] == action && r[138..170] == provenance
    ensures r[170..178] == count && r[178..] == time
    ensures r[..32] == head[..32] && r[32..65] == head[32..65] && r[65..98] == head[65..98]
  {
  }

  /** No two actions of a run have the same receipt preimage, whatever they carry. */
  lemma ReceiptsDistinct(p: Params, actions: seq<Action>, i: nat, j: nat)
    requires i < j < |actions| && Shaped(p)
    requires Encodable(StateAfter(p, actions[..i]), actions[i]) && Encodable(StateAfter(p, actions[..j]), actions[j])
    ensures ReceiptBytes(p, StateAfter(p, actions[..i]), actions[i])
            != ReceiptBytes(p, StateAfter(p, actions[..j]), actions[j])
  {
    var s, t := StateAfter(p, actions[..i]), StateAfter(p, actions[..j]);
    CountAndTier(p, actions[..i]);
    CountAndTier(p, actions[..j]);
    ReceiptLayout(p, s, actions[i]);
    ReceiptLayout(p, t, actions[j]);
    hide ReceiptBytes, SignMag, Fits, StateAfter;
    if SignMag(s.txCount, 8) == SignMag(t.txCount, 8) { SignMagInjective(s.txCount, t.txCount, 8); }
  }

  // ---- the off-chain meter mirrors the contract ---------------------------

  ghost predicate Mirrors(env: Meter.Envelope, p: Params) {
    env.perWindow == p.dailyLimit && env.windowDuration == p.windowDuration
  }

  ghost predicate Same(m: Meter.State, s: State) {
    m.spent == s.spentInWindow && m.start == s.windowStart
  }

  /** The contract takes exactly the charges the meter allows. */
  function Follow(env: Meter.Envelope, p: Params, m: Meter.State, s: State, r: Meter.Request): State {
    if Meter.Decide(env, m, r.amount, r.now).Allowed? then ApplyAction(p, s, r.amount, r.now) else s
  }

  /** Meter and contract agree on spend and window start now and after every later request. */
  ghost predicate AlwaysSame(env: Meter.Envelope, p: Params, m: Meter.State, s: State, reqs: seq<Meter.Request>)
    decreases reqs
  {
    && Same(m, s)
    && (reqs == [] ||
        AlwaysSame(env, p, Meter.After(env, m, reqs[0].amount, reqs[0].now), Follow(env, p, m, s, reqs[0]), reqs[1..]))
  }

  /** The first allowed charge of a run that starts with an unused meter. */
  ghost function FirstAllowed(env: Meter.Envelope, reqs: seq<Meter.Request>): Option<Meter.Request> {
    if reqs == [] then None
    else if Meter.Decide(env, Meter.NEW, reqs[0].amount, reqs[0].now).Allowed? then Some(reqs[0])
    else FirstAllowed(env, reqs[1..])
  }

  lemma {:induction false} SameOnceStarted(env: Meter.Envelope, p: Params, m: Meter.State, s: State,
                                           reqs: seq<Meter.Request>)
    requires Mirrors(env, p) && m.started && Same(m, s)
    ensures AlwaysSame(env, p, m, s, reqs)
    decreases reqs
  {
    if reqs != [] {
      SameOnceStarted(env, p, Meter.After(env, m, reqs[0].amount, reqs[0].now), Follow(env, p, m, s, reqs[0]),
                      reqs[1..]);
    }
  }

  /**
   * The contract, fed the allowed charges, tracks the meter through the whole run exactly when the
   * first allowed charge comes at time 0 or not before one window length (the contract's window
   * opens at 0, the meter's at its first charge).
   */
  lemma {:induction false} MeterMatchesContract(env: Meter.Envelope, p: Params, reqs: seq<Meter.Request>)
    requires Mirrors(env, p)
    ensures AlwaysSame(env, p, Meter.NEW, GENESIS, reqs) <==>
            match FirstAllowed(env, reqs)
            case None => true
            case Some(r) => r.now == 0 || r.now >= p.windowDuration
  {
    if reqs != [] {
      var r := reqs[0];
      if Meter.Decide(env, Meter.NEW, r.amount, r.now).Allowed? {
        var m, s := Meter.After(env, Meter.NEW, r.amount, r.now), Follow(env, p, Meter.NEW, GENESIS, r);
        if Same(m, s) { SameOnceStarted(env, p, m, s, reqs[1..]); }
      } else {
        MeterMatchesContract(env, p, reqs[1..]);
      }
    }
  }

  /** While they agree, the contract's spend stays within the daily limit. */
  lemma {:induction false} SpendWithinLimit(env: Meter.Envelope, p: Params, m: Meter.State, s: State,
                                            reqs: seq<Meter.Request>)
    requires Mirrors(env, p) && AlwaysSame(env, p, m, s, reqs)
    requires m.spent == 0 || m.spent <= env.perWindow
    ensures var (m', s') := Final(env, p, m, s, reqs);
            Same(m', s') && (s'.spentInWindow == 0 || s'.spentInWindow <= p.dailyLimit)
    decreases reqs
  {
    if reqs != [] {
      SpendWithinLimit(env, p, Meter.After(env, m, reqs[0].amount, reqs[0].now), Follow(env, p, m, s, reqs[0]),
                       reqs[1..]);
    }
  }

  function Final(env: Meter.Envelope, p: Params, m: Meter.State, s: State, reqs: seq<Meter.Request>)
    : (Meter.State, State)
    decreases reqs
  {
    if reqs == [] then (m, s)
    else Final(env, p, Meter.After(env, m, reqs[0].amount, reqs[0].now), Follow(env, p, m, s, reqs[0]), reqs[1..])
  }

  // ---- when the daily limit holds -----------------------------------------

  const LAST_TIME: int := 0x7fff_ffff_ffff_ffff

  /** The contract's spend after a run that starts with an unused meter. */
  function SpentAfter(env: Meter.Envelope, p: Params, reqs: seq<Meter.Request>): int {
    Final(env, p, Meter.NEW, GENESIS, reqs).1.spentInWindow
  }

  /** Requests refused before the first allowed one leave no trace on either side. */
  lemma {:induction false} DeniedFirst(env: Meter.Envelope, p: Params, denied: seq<Meter.Request>,
                                       rest: seq<Meter.Request>)
    requires FirstAllowed(env, denied).None?
    ensures Final(env, p, Meter.NEW, GENESIS, denied + rest) == Final(env, p, Meter.NEW, GENESIS, rest)
  {
    if denied == [] {
      assert denied + rest == rest;
    } else {
      DeniedFirst(env, p, denied[1..], rest);
      assert (denied + rest)[1..] == denied[1..] + rest;
    }
  }

  /** A first charge that fills the window: the next one allowed finds both windows over. */
  lemma {:induction false} FilledAtOnce(env: Meter.Envelope, p: Params, m: Meter.State, s: State,
                                        reqs: seq<Meter.Request>)
    requires Mirrors(env, p) && m.started && m.spent == s.spentInWindow == env.perWindow
    requires 0 < m.start < p.windowDuration && s.windowStart == 0
    ensures Final(env, p, m, s, reqs).1.spentInWindow <= p.dailyLimit
    decreases reqs
  {
    if reqs != [] {
      var r, rest := reqs[0], reqs[1..];
      var m', s' := Meter.After(env, m, r.amount, r.now), Follow(env, p, m, s, r);
      if Meter.Decide(env, m, r.amount, r.now).Allowed? {
        assert Same(m', s');
        SameOnceStarted(env, p, m', s', rest);
        SpendWithinLimit(env, p, m', s', rest);
      } else {
        FilledAtOnce(env, p, m, s, rest);
      }
    }
  }

  /** A meter window that outlasts the clock: the contract never holds more than the meter. */
  lemma {:induction false} NeverRolls(env: Meter.Envelope, p: Params, m: Meter.State, s: State,
                                      reqs: seq<Meter.Request>)
    requires Mirrors(env, p) && m.started && m.start + p.windowDuration > LAST_TIME
    requires s.spentInWindow <= m.spent <= env.perWindow
    ensures Final(env, p, m, s, reqs).1.spentInWindow <= p.dailyLimit
    decreases reqs
  {
    if reqs != [] {
      var r := reqs[0];
      NeverRolls(env, p, Meter.After(env, m, r.amount, r.now), Follow(env, p, m, s, r), reqs[1..]);
    }
  }

  /** Inside one contract window the units add up there, whatever the meter has forgotten. */
  lemma {:induction false} UnitsAddUp(env: Meter.Envelope, p: Params, m: Meter.State, s: State, t: int64, n: nat)
    requires Mirrors(env, p) && env.perCall >= 1 && m.started && t - s.windowStart < p.windowDuration
    requires if t - m.start >= env.windowDuration then n <= env.perWindow else m.spent + n <= env.perWindow
    ensures Final(env, p, m, s, Meter.Units(t, n)).1.spentInWindow == s.spentInWindow + n
    decreases n
  {
    if n > 0 {
      var m', s' := Meter.After(env, m, 1, t), Follow(env, p, m, s, Meter.Request(1, t));
      assert Meter.Units(t, n)[1..] == Meter.Units(t, n - 1);
      UnitsAddUp(env, p, m', s', t, n - 1);
    }
  }

  /** The caller's test on the first allowed charge. */
  predicate KeepsLimit(p: Params, first: Meter.Request) {
    || first.now == 0
    || first.now >= p.windowDuration
    || (first.now > 0 && (first.amount == p.dailyLimit || first.now + p.windowDuration > LAST_TIME))
  }

  /** A continuation, with a clock that never runs back, that takes the contract past its limit. */
  function Overrun(p: Params, first: Meter.Request): (more: seq<Meter.Request>)
    requires !KeepsLimit(p, first) && 0 <= p.dailyLimit && p.windowDuration <= LAST_TIME
    ensures Meter.Ordered([first] + more)
  {
    if first.now < 0 then Meter.Units(first.now + if p.windowDuration > 0 then p.windowDuration else 0, p.dailyLimit)
    else [Meter.Request(1, p.windowDuration)] + Meter.Units(first.now + p.windowDuration, p.dailyLimit)
  }

  /** The state both sides are in once the first charge was allowed. */
  lemma FirstTaken(env: Meter.Envelope, p: Params, first: Meter.Request)
    requires Mirrors(env, p) && Meter.Decide(env, Meter.NEW, first.amount, first.now).Allowed?
    ensures 1 <= first.amount <= p.dailyLimit && first.amount <= env.perCall
    ensures Meter.After(env, Meter.NEW, first.amount, first.now) == Meter.State(first.amount, first.now, true)
    ensures var s := Follow(env, p, Meter.NEW, GENESIS, first);
            && s.spentInWindow == first.amount
            && s.windowStart == if first.now >= p.windowDuration then first.now else 0
  {
  }

  /** Every first charge the test refuses really leads past the limit. */
  lemma OverrunPasses(env: Meter.Envelope, p: Params, first: Meter.Request)
    requires Mirrors(env, p) && Meter.Decide(env, Meter.NEW, first.amount, first.now).Allowed?
    requires !KeepsLimit(p, first)
    ensures 0 <= p.dailyLimit && p.windowDuration <= LAST_TIME
    ensures SpentAfter(env, p, [first] + Overrun(p, first)) > p.dailyLimit
  {
    FirstTaken(env, p, first);
    var m, s := Meter.After(env, Meter.NEW, first.amount, first.now), Follow(env, p, Meter.NEW, GENESIS, first);
    var more := Overrun(p, first);
    assert ([first] + more)[1..] == more;
    assert Final(env, p, Meter.NEW, GENESIS, [first] + more) == Final(env, p, m, s, more);
    if first.now < 0 {
      UnitsAddUp(env, p, m, s, first.now + if p.windowDuration > 0 then p.windowDuration else 0, p.dailyLimit);
    } else {
      var one, units := Meter.Request(1, p.windowDuration), Meter.Units(first.now + p.windowDuration, p.dailyLimit);
      assert more[0] == one && more[1..] == units;
      UnitsAddUp(env, p, Meter.After(env, m, 1, one.now), Follow(env, p, m, s, one), first.now + p.windowDuration,
                 p.dailyLimit);
    }
  }

  /** Every first charge the test accepts keeps every continuation within the limit, whatever the clock does. */
  lemma KeptWithin(env: Meter.Envelope, p: Params, first: Meter.Request, more: seq<Meter.Request>)
    requires Mirrors(env, p) && Meter.Decide(env, Meter.NEW, first.amount, first.now).Allowed?
    requires KeepsLimit(p, first)
    ensures SpentAfter(env, p, [first] + more) <= p.dailyLimit
  {
    FirstTaken(env, p, first);
    var m, s := Meter.After(env, Meter.NEW, first.amount, first.now), Follow(env, p, Meter.NEW, GENESIS, first);
    assert ([first] + more)[1..] == more;
    if Same(m, s) {
      SameOnceStarted(env, p, m, s, more);
      SpendWithinLimit(env, p, m, s, more);
    } else if first.amount == p.dailyLimit {
      FilledAtOnce(env, p, m, s, more);
    } else {
      NeverRolls(env, p, m, s, more);
    }
  }

  ghost predicate StaysWithin(env: Meter.Envelope, p: Params, denied: seq<Meter.Request>, first: Meter.Request,
                              more: seq<Meter.Request>) {
    SpentAfter(env, p, denied + ([first] + more)) <= p.dailyLimit
  }

  /**
   * The contract, fed the allowed charges, stays within its daily limit on every continuation exactly
   * when the first allowed charge passes the test; with an ordered clock the answer is the same.
   */
  lemma LimitKeptIff(env: Meter.Envelope, p: Params, denied: seq<Meter.Request>, first: Meter.Request)
    requires Mirrors(env, p) && FirstAllowed(env, denied).None?
    requires Meter.Decide(env, Meter.NEW, first.amount, first.now).Allowed?
    ensures (forall more :: StaysWithin(env, p, denied, first, more)) <==> KeepsLimit(p, first)
    ensures (forall more :: Meter.Ordered([first] + more) ==> StaysWithin(env, p, denied, first, more)) <==>
            KeepsLimit(p, first)
  {
    hide Final, Meter.Decide, Meter.Ordered, FirstAllowed;
    if KeepsLimit(p, first) {
      forall more ensures StaysWithin(env, p, denied, first, more) {
        DeniedFirst(env, p, denied, [first] + more);
        KeptWithin(env, p, first, more);
      }
    } else {
      OverrunPasses(env, p, first);
      var more := Overrun(p, first);
      DeniedFirst(env, p, denied, [first] + more);
      assert Meter.Ordered([first] + more) && !StaysWithin(env, p, denied, first, more);
    }
  }
}
