/** The broker of src/broker/key_broker.c with the oracle of src/broker/chain_revocation_oracle.c plugged in. */
module GatedBroker {
  import opened Common
  import opened Chain
  import RO = RevocationOracle
  import KB = KeyBroker
  import Meter

  /** What both handles hold. */
  datatype World = World(keys: seq<KB.Key>, caches: RO.Caches)

  /** How the oracle was set up. */
  datatype Setup = Setup(vout: uint32, maxHops: nat)

  datatype Event =
    | Issue(id: KB.Draw16, draw: KB.Draw24, holder: KB.Holder, env: Meter.Envelope, at: int64)
    | Authorize(req: KB.Request, src: Source, now: int64)
    | Revoke(keyId: Bytes)

  /** The oracle is asked about the matched key only, and only while that key is not latched. */
  predicate AsksOracle(sha: Hash, keys: seq<KB.Key>, req: KB.Request) {
    var at := KB.Match(sha, keys, req.secret);
    at.Some? && !keys[at.value].revokedLocally
  }

  function Consult(sha: Hash, w: World, setup: Setup, req: KB.Request, src: Source): (Result<bool>, RO.Caches) {
    if AsksOracle(sha, w.keys, req)
    then RO.Query(w.caches, src, setup.vout, setup.maxHops, w.keys[KB.Match(sha, w.keys, req.secret).value].identityId)
    else (Err(ENET), w.caches)
  }

  /** The event as the broker alone sees it, with the oracle's answer filled in. */
  function Seen(sha: Hash, w: World, setup: Setup, e: Event): KB.Event {
    match e
    case Issue(id, draw, holder, env, at) => KB.Event.Issue(id, draw, holder, env, at)
    case Authorize(req, src, now) => KB.Event.Authorize(req, Consult(sha, w, setup, req, src).0, now)
    case Revoke(keyId) => KB.Event.Revoke(keyId)
  }

  function Step(sha: Hash, w: World, setup: Setup, e: Event): World {
    World(KB.Step(sha, w.keys, Seen(sha, w, setup, e)),
          if e.Authorize? then Consult(sha, w, setup, e.req, e.src).1 else w.caches)
  }

  function After(sha: Hash, setup: Setup, events: seq<Event>): World {
    if events == [] then World([], RO.Caches({}, map[]))
    else Step(sha, After(sha, setup, events[..|events| - 1]), setup, events[|events| - 1])
  }

  ghost function DecisionAt(sha: Hash, setup: Setup, events: seq<Event>, n: nat): KB.Decision
    requires n < |events| && events[n].Authorize?
  {
    var w := After(sha, setup, events[..n]);
    KB.Decide(sha, w.keys, events[n].req, Consult(sha, w, setup, events[n].req, events[n].src).0, events[n].now)
  }

  /** Event i happens while the ledger grows from marks[i] to marks[i + 1]. */
  ghost predicate Marked(events: seq<Event>, marks: seq<Ledger>) {
    && |marks| == |events| + 1
    && (forall i :: 0 <= i < |events| ==> Extends(marks[i], marks[i + 1]))
    && (forall i :: 0 <= i < |events| && events[i].Authorize? ==> RO.Grows(events[i].src, marks[i], marks[i + 1]))
  }

  // ---- the two handles together -------------------------------------------

  /** One authorization through both handles is one step of the composed machine. */
  method AuthorizeOnChain(broker: KB.Broker, oracle: RO.Oracle, sha: Hash, req: KB.Request, src: Source, now: int64)
      returns (d: KB.Decision)
    requires oracle.Valid()
    modifies broker, oracle
    ensures oracle.Valid()
    ensures var was := World(old(broker.keys), old(oracle.Model()));
            var setup := Setup(oracle.identityVout, oracle.maxHops);
            && d == KB.Decide(sha, was.keys, req, Consult(sha, was, setup, req, src).0, now)
            && World(broker.keys, oracle.Model()) == Step(sha, was, setup, Authorize(req, src, now))
  {
    hide KB.Lookup, KB.Decide, RO.Query, KB.Settle;
    var answer: Result<bool> := Err(ENET);
    if req.secret.Some? {
      var at := broker.FindSecret(sha(req.secret.value));
      if at.Some? && !broker.keys[at.value].revokedLocally {
        answer := oracle.IsRevoked(src, broker.keys[at.value].identityId);
      }
    }
    d := broker.Authorize(sha, req, answer, now);
  }

  // ---- whole runs ---------------------------------------------------------

  lemma StepSound(sha: Hash, w: World, setup: Setup, e: Event, c: Ledger, c': Ledger)
    requires RO.Sound(w.caches, c, setup.vout) && Extends(c, c')
    requires e.Authorize? ==> RO.Grows(e.src, c, c')
    ensures RO.Sound(Step(sha, w, setup, e).caches, c', setup.vout)
  {
    hide RO.Query, RO.Sound, RO.Grows, KB.Step, Extends, KB.Lookup;
    RO.SoundGrows(w.caches, c, c', setup.vout);
    if e.Authorize? && AsksOracle(sha, w.keys, e.req) {
      var i := KB.Match(sha, w.keys, e.req.secret).value;
      RO.QuerySound(w.caches, e.src, setup.vout, setup.maxHops, w.keys[i].identityId, c, c');
    }
  }

  lemma {:induction false} RunSound(sha: Hash, setup: Setup, events: seq<Event>, marks: seq<Ledger>)
    requires Marked(events, marks)
    ensures RO.Sound(After(sha, setup, events).caches, marks[|events|], setup.vout)
  {
    if events != [] {
      var k := |events| - 1;
      assert Marked(events[..k], marks[..k + 1]) by { hide RO.Grows, Extends; }
      RunSound(sha, setup, events[..k], marks[..k + 1]);
      hide Step, RO.Sound, RO.Grows, Extends;
      StepSound(sha, After(sha, setup, events[..k]), setup, events[k], marks[k], marks[k + 1]);
    }
  }

  lemma PrefixSound(sha: Hash, setup: Setup, events: seq<Event>, marks: seq<Ledger>, n: nat)
    requires Marked(events, marks) && n <= |events|
    ensures RO.Sound(After(sha, setup, events[..n]).caches, marks[n], setup.vout)
  {
    assert Marked(events[..n], marks[..n + 1]) by { hide RO.Grows, Extends; }
    hide After, RO.Sound, RO.Grows, Extends;
    RunSound(sha, setup, events[..n], marks[..n + 1]);
  }

  lemma {:induction false} MarksGrow(events: seq<Event>, marks: seq<Ledger>, m: nat, n: nat)
    requires Marked(events, marks) && m <= n <= |events|
    ensures Extends(marks[m], marks[n])
    decreases n
  {
    if m < n {
      MarksGrow(events, marks, m, n - 1);
      assert Extends(marks[n - 1], marks[n]);
    }
  }

  /** An allow is a not-revoked answer of the chain, in the same call, about the key that is charged. */
  lemma AllowConsulted(sha: Hash, w: World, setup: Setup, req: KB.Request, src: Source, now: int64)
    requires KB.Decide(sha, w.keys, req, Consult(sha, w, setup, req, src).0, now).Allow?
    ensures var d := KB.Decide(sha, w.keys, req, Consult(sha, w, setup, req, src).0, now);
            && d.key < |w.keys|
            && RO.Query(w.caches, src, setup.vout, setup.maxHops, w.keys[d.key].identityId).0 == Ok(false)
  {
    hide KB.Lookup, RO.Query, Meter.Decide;
  }

  /** In every run: whatever was allowed on a key was allowed while its identity was alive on the chain. */
  lemma AllowedWhileLive(sha: Hash, setup: Setup, events: seq<Event>, marks: seq<Ledger>, n: nat)
    requires Marked(events, marks) && n < |events| && events[n].Authorize?
    requires DecisionAt(sha, setup, events, n).Allow?
    ensures var i := DecisionAt(sha, setup, events, n).key;
            var keys := After(sha, setup, events[..n]).keys;
            && i < |keys|
            && exists u: nat :: RO.LiveIn(events[n].src(u).ledger, setup.vout, keys[i].identityId)
  {
    var w := After(sha, setup, events[..n]);
    PrefixSound(sha, setup, events, marks, n);
    AllowConsulted(sha, w, setup, events[n].req, events[n].src, events[n].now);
    hide After, RO.Query, RO.Sound, RO.LiveIn, KB.Decide, Consult;
    var i := DecisionAt(sha, setup, events, n).key;
    RO.QuerySound(w.caches, events[n].src, setup.vout, setup.maxHops, w.keys[i].identityId, marks[n], marks[n + 1]);
  }

  /** Once the chain has revoked an identity, no request on any of its keys is ever allowed again. */
  lemma RevokedNeverAllowed(sha: Hash, setup: Setup, events: seq<Event>, marks: seq<Ledger>, m: nat, n: nat)
    requires Marked(events, marks) && m <= n < |events| && events[n].Authorize?
    ensures var d := DecisionAt(sha, setup, events, n);
            var keys := After(sha, setup, events[..n]).keys;
            d.Allow? ==> d.key < |keys| && !RO.RevokedIn(marks[m], setup.vout, keys[d.key].identityId)
  {
    if DecisionAt(sha, setup, events, n).Allow? {
      AllowedWhileLive(sha, setup, events, marks, n);
      MarksGrow(events, marks, m, n);
      hide After, DecisionAt, RO.LiveIn, RO.RevokedIn, Extends;
      var id := After(sha, setup, events[..n]).keys[DecisionAt(sha, setup, events, n).key].identityId;
      var u: nat :| RO.LiveIn(events[n].src(u).ledger, setup.vout, id);
      var c := events[n].src(u).ledger;
      assert RO.Grows(events[n].src, marks[n], marks[n + 1]);
      assert Extends(marks[n], c);
      if RO.RevokedIn(marks[m], setup.vout, id) {
        RO.RevokedGrows(marks[m], marks[n], setup.vout, id);
        RO.RevokedGrows(marks[n], c, setup.vout, id);
        RO.NotBoth(c, setup.vout, id);
      }
    }
  }

  // ---- the identity itself, recreated at output 0 -------------------------

  lemma StepNear(sha: Hash, w: World, setup: Setup, e: Event, c: Ledger, c': Ledger)
    requires setup.maxHops <= 1 && RO.Near(w.caches, c, setup.vout) && Extends(c, c')
    requires e.Authorize? ==> RO.Grows(e.src, c, c')
    ensures RO.Near(Step(sha, w, setup, e).caches, c', setup.vout)
  {
    hide RO.Query, RO.Near, RO.Grows, KB.Step, Extends, KB.Lookup;
    RO.NearGrows(w.caches, c, c', setup.vout);
    if e.Authorize? && AsksOracle(sha, w.keys, e.req) {
      var i := KB.Match(sha, w.keys, e.req.secret).value;
      RO.QueryNear(w.caches, e.src, setup.vout, setup.maxHops, w.keys[i].identityId, c, c');
    }
  }

  lemma {:induction false} RunNear(sha: Hash, setup: Setup, events: seq<Event>, marks: seq<Ledger>, n: nat)
    requires setup.maxHops <= 1 && Marked(events, marks) && n <= |events|
    ensures RO.Near(After(sha, setup, events[..n]).caches, marks[n], setup.vout)
    decreases n
  {
    if n > 0 {
      hide Step, RO.Near, RO.Grows, Extends;
      RunNear(sha, setup, events, marks, n - 1);
      assert events[..n][..n - 1] == events[..n - 1] && events[..n][n - 1] == events[n - 1];
      StepNear(sha, After(sha, setup, events[..n - 1]), setup, events[n - 1], marks[n - 1], marks[n - 1 + 1]);
    }
  }

  /** Watching output 0, or one hop only: whatever is allowed is allowed while the identity itself is alive. */
  lemma AllowedWhileIdentityLive(sha: Hash, setup: Setup, events: seq<Event>, marks: seq<Ledger>, n: nat)
    requires Marked(events, marks) && n < |events| && events[n].Authorize?
    requires DecisionAt(sha, setup, events, n).Allow? && (setup.vout == 0 || setup.maxHops <= 1)
    ensures var i := DecisionAt(sha, setup, events, n).key;
            var keys := After(sha, setup, events[..n]).keys;
            && i < |keys|
            && exists u: nat :: RO.IdentityLive(events[n].src(u).ledger, setup.vout, keys[i].identityId)
  {
    AllowedWhileLive(sha, setup, events, marks, n);
    var w := After(sha, setup, events[..n]);
    var i := DecisionAt(sha, setup, events, n).key;
    var src, id := events[n].src, w.keys[i].identityId;
    if setup.vout == 0 {
      hide After, DecisionAt, RO.LiveIn, RO.IdentityLive;
      var u: nat :| RO.LiveIn(src(u).ledger, 0, id);
      RO.IdentityAtZero(src(u).ledger, id);
    } else {
      RunNear(sha, setup, events, marks, n);
      AllowConsulted(sha, w, setup, events[n].req, src, events[n].now);
      hide After, RO.Query, RO.Near, RO.HopFrom, KB.Decide, Consult;
      RO.QueryNear(w.caches, src, setup.vout, setup.maxHops, id, marks[n], marks[n + 1]);
      assert RO.IdentityLive(src(0).ledger, setup.vout, id);
    }
  }

  /** Nothing is allowed at event n on an identity that the ledger had revoked by mark m. */
  ghost predicate GateHolds(sha: Hash, setup: Setup, events: seq<Event>, marks: seq<Ledger>, m: nat, n: nat)
    requires |marks| > m && n < |events| && events[n].Authorize?
  {
    var d := DecisionAt(sha, setup, events, n);
    var keys := After(sha, setup, events[..n]).keys;
    d.Allow? ==> d.key < |keys| && !RO.IdentityRevoked(marks[m], setup.vout, keys[d.key].identityId)
  }

  lemma GateHoldsWhen(sha: Hash, setup: Setup, events: seq<Event>, marks: seq<Ledger>, m: nat, n: nat)
    requires Marked(events, marks) && m <= n < |events| && events[n].Authorize?
    requires setup.vout == 0 || setup.maxHops <= 1
    ensures GateHolds(sha, setup, events, marks, m, n)
  {
    if DecisionAt(sha, setup, events, n).Allow? {
      AllowedWhileIdentityLive(sha, setup, events, marks, n);
      MarksGrow(events, marks, m, n);
      hide After, DecisionAt, RO.IdentityLive, RO.IdentityRevoked, Extends;
      var id := After(sha, setup, events[..n]).keys[DecisionAt(sha, setup, events, n).key].identityId;
      var u: nat :| RO.IdentityLive(events[n].src(u).ledger, setup.vout, id);
      var c := events[n].src(u).ledger;
      assert RO.Grows(events[n].src, marks[n], marks[n + 1]);
      assert Extends(marks[n], c);
      if RO.IdentityRevoked(marks[m], setup.vout, id) {
        RO.IdentityRevokedGrows(marks[m], marks[n], setup.vout, id);
        RO.IdentityRevokedGrows(marks[n], c, setup.vout, id);
        RO.IdentityNotBoth(c, setup.vout, id);
      }
    }
  }

  /** A key issued to an identity that has ended at output 0, and one request on it. */
  function EndedEvents(e: RO.Ended, vout: uint32, id: KB.Draw16, draw: KB.Draw24): seq<Event> {
    [Issue(id, draw, KB.Holder("", "", e.genesis), Meter.Envelope(1, 1, 1, ["s"]), 0),
     Authorize(KB.Request(Some(KB.Secret(draw)), Some("s"), 1), RO.Static(RO.EndedAtZero(e, vout)), 0)]
  }

  lemma OneIssued(sha: Hash, setup: Setup, e: RO.Ended, id: KB.Draw16, draw: KB.Draw24)
    ensures var events := EndedEvents(e, setup.vout, id, draw); var key := events[0];
            && events[..1] == [key]
            && After(sha, setup, events[..1])
               == World([KB.NewKey(sha, id, draw, key.holder, key.env, 0)], RO.Caches({}, map[]))
  {
    var events := EndedEvents(e, setup.vout, id, draw);
    hide KB.Secret, RO.EndedAtZero;
    assert events[..1] == [events[0]] && [events[0]][..0] == [];
    assert After(sha, setup, []) == World([], RO.Caches({}, map[]));
  }

  lemma EndedDecision(sha: Hash, setup: Setup, e: RO.Ended, id: KB.Draw16, draw: KB.Draw24)
    requires RO.IsEnded(e) && setup.vout != 0 && setup.maxHops >= 2
    ensures var events := EndedEvents(e, setup.vout, id, draw);
            var d := DecisionAt(sha, setup, events, 1);
            d.Allow? && d.key == 0
  {
    OneIssued(sha, setup, e, id, draw);
    RO.EndedButLive(e, setup.vout, setup.maxHops);
    var events := EndedEvents(e, setup.vout, id, draw);
    var w := After(sha, setup, events[..1]);
    hide After, RO.Query, KB.Secret, RO.EndedAtZero, RO.IsEnded, RO.IdentityRevoked;
    var req := events[1].req;
    assert KB.Match(sha, w.keys, req.secret) == Some(0);
  }

  /** With another output and two hops to go, such a request is allowed. */
  lemma EndedAllowed(sha: Hash, setup: Setup, e: RO.Ended, id: KB.Draw16, draw: KB.Draw24)
    requires RO.IsEnded(e) && setup.vout != 0 && setup.maxHops >= 2
    ensures var c, events := RO.EndedAtZero(e, setup.vout), EndedEvents(e, setup.vout, id, draw);
            Marked(events, [c, c, c]) && !GateHolds(sha, setup, events, [c, c, c], 0, 1)
  {
    hide After, DecisionAt, RO.Query, KB.Secret, RO.EndedAtZero, RO.IsEnded, RO.IdentityRevoked, RO.Grows;
    EndedDecision(sha, setup, e, id, draw);
    OneIssued(sha, setup, e, id, draw);
    RO.EndedButLive(e, setup.vout, setup.maxHops);
    RO.StaticGrows(RO.EndedAtZero(e, setup.vout));
  }

  /**
   * In every run the gate holds against the identity's own revocation exactly when the oracle watches
   * output 0, or never gets past the first hop.
   */
  lemma GateHoldsIff(sha: Hash, setup: Setup)
    ensures (forall events: seq<Event>, marks: seq<Ledger>, m: nat, n: nat ::
               Marked(events, marks) && m <= n < |events| && events[n].Authorize? ==>
                 GateHolds(sha, setup, events, marks, m, n))
            <==> setup.vout == 0 || setup.maxHops <= 1
  {
    hide GateHolds;
    if setup.vout == 0 || setup.maxHops <= 1 {
      forall events: seq<Event>, marks: seq<Ledger>, m: nat, n: nat
        | Marked(events, marks) && m <= n < |events| && events[n].Authorize?
        ensures GateHolds(sha, setup, events, marks, m, n)
      {
        GateHoldsWhen(sha, setup, events, marks, m, n);
      }
    } else {
      var e := RO.SomeEnded();
      var id: KB.Draw16, draw: KB.Draw24 := seq(16, i => 0), seq(24, i => 0);
      var c, events := RO.EndedAtZero(e, setup.vout), EndedEvents(e, setup.vout, id, draw);
      EndedAllowed(sha, setup, e, id, draw);
      hide Marked;
      assert !GateHolds(sha, setup, events, [c, c, c], 0, 1);
    }
  }

  // ---- the composed run, seen by the broker -------------------------------

  ghost function SeenRun(sha: Hash, setup: Setup, events: seq<Event>): (r: seq<KB.Event>)
    ensures |r| == |events|
  {
    if events == [] then []
    else
      var front := events[..|events| - 1];
      SeenRun(sha, setup, front) + [Seen(sha, After(sha, setup, front), setup, events[|events| - 1])]
  }

  /** The composed run is one of the broker's own runs, so every law about those holds of it. */
  lemma {:induction false} BrokerRefined(sha: Hash, setup: Setup, events: seq<Event>)
    ensures KB.KeysAfter(sha, SeenRun(sha, setup, events)) == After(sha, setup, events).keys
  {
    if events != [] {
      var k := |events| - 1;
      BrokerRefined(sha, setup, events[..k]);
      hide KB.Step, Seen;
      var seen := SeenRun(sha, setup, events);
      assert seen[..k] == SeenRun(sha, setup, events[..k]);
    }
  }

  ghost predicate ClockOrdered(events: seq<Event>) {
    forall m, n :: 0 <= m < n < |events| && events[m].Authorize? && events[n].Authorize? ==>
      events[m].now <= events[n].now
  }

  lemma {:induction false} SeenAt(sha: Hash, setup: Setup, events: seq<Event>, n: nat)
    requires n < |events|
    ensures SeenRun(sha, setup, events)[n] == Seen(sha, After(sha, setup, events[..n]), setup, events[n])
    decreases |events|
  {
    hide Seen, After;
    var k := |events| - 1;
    if n < k {
      SeenAt(sha, setup, events[..k], n);
      assert events[..k][..n] == events[..n];
    }
  }

  /** Filling in the oracle's answer changes neither the kind of an event nor its time. */
  ghost predicate Keeps(e: Event, seen: KB.Event) {
    match e
    case Issue(_, _, _, _, _) => seen.Issue?
    case Authorize(_, _, now) => seen.Authorize? && seen.now == now
    case Revoke(_) => seen.Revoke?
  }

  lemma SeenIs(sha: Hash, setup: Setup, events: seq<Event>)
    ensures forall n :: 0 <= n < |events| ==> Keeps(events[n], SeenRun(sha, setup, events)[n])
  {
    forall n | 0 <= n < |events| ensures Keeps(events[n], SeenRun(sha, setup, events)[n]) {
      SeenAt(sha, setup, events, n);
      hide After, SeenRun, Consult;
    }
  }

  lemma SeenOrdered(sha: Hash, setup: Setup, events: seq<Event>)
    requires ClockOrdered(events)
    ensures KB.ClockOrdered(SeenRun(sha, setup, events))
  {
    hide SeenRun;
    SeenIs(sha, setup, events);
  }

  /** With the chain deciding revocation, each key still keeps to its spending bound. */
  lemma SpendBoundOnChain(sha: Hash, setup: Setup, events: seq<Event>, i: nat, t: int)
    requires ClockOrdered(events) && i < |After(sha, setup, events).keys|
    ensures var env := After(sha, setup, events).keys[i].envelope;
            var total := Meter.SumBetween(KB.Spent(sha, SeenRun(sha, setup, events), i), t, t + env.windowDuration);
            total == 0 || total <= 2 * env.perWindow - 1
  {
    hide *;
    BrokerRefined(sha, setup, events);
    SeenOrdered(sha, setup, events);
    KB.KeySpendBound(sha, SeenRun(sha, setup, events), i, t);
  }

  // ---- exactly what is allowed --------------------------------------------

  /** Everything an allow needs, said of the chain, the history and the request. */
  ghost predicate Deserves(sha: Hash, setup: Setup, events: seq<Event>, c: Ledger, req: KB.Request, now: int64) {
    var w := After(sha, setup, events);
    var at := KB.Match(sha, w.keys, req.secret);
    && at.Some?
    && var k := w.keys[at.value];
    && !k.revokedLocally
    && RO.LiveIn(c, setup.vout, k.identityId)
    && RO.Along(c, setup.vout, RO.Tip(w.caches, k.identityId), setup.maxHops).None?
    && KB.InScope(k.envelope, req.scope)
    && Meter.FitsHistory(k.envelope, KB.Spent(sha, SeenRun(sha, setup, events), at.value),
                         Meter.Request(req.amount, now))
  }

  /** The charge a key's meter would allow is the one that fits what the run has spent on that key. */
  lemma ChargeFitsHistory(sha: Hash, setup: Setup, events: seq<Event>, i: nat, amount: int64, now: int64)
    requires i < |After(sha, setup, events).keys|
    requires After(sha, setup, events).keys[i].envelope.windowDuration > 0
    ensures var k := After(sha, setup, events).keys[i];
            Meter.Decide(k.envelope, k.meter, amount, now).Allowed? <==>
            Meter.FitsHistory(k.envelope, KB.Spent(sha, SeenRun(sha, setup, events), i), Meter.Request(amount, now))
  {
    hide *;
    var seen := SeenRun(sha, setup, events);
    BrokerRefined(sha, setup, events);
    KB.MeterOfKey(sha, seen, i);
    Meter.AllowedByHistory(After(sha, setup, events).keys[i].envelope, KB.Asked(sha, seen, i),
                           Meter.Request(amount, now));
  }

  /**
   * After any run over any growth of the ledger, a request made while the ledger stands still is allowed
   * exactly when its secret matches an unlatched key whose identity is live with less than maxHops of
   * path past the cached tip, its scope is listed, and its amount fits the key's history.
   */
  lemma AllowedIff(sha: Hash, setup: Setup, events: seq<Event>, marks: seq<Ledger>, c: Ledger, req: KB.Request,
                   now: int64)
    requires Marked(events, marks) && Extends(marks[|events|], c)
    requires var keys := After(sha, setup, events).keys; var at := KB.Match(sha, keys, req.secret);
             at.Some? ==> keys[at.value].envelope.windowDuration > 0
    ensures var w := After(sha, setup, events);
            KB.Decide(sha, w.keys, req, Consult(sha, w, setup, req, RO.Static(c)).0, now).Allow? <==>
            Deserves(sha, setup, events, c, req, now)
  {
    var w := After(sha, setup, events);
    var src := RO.Static(c);
    RunSound(sha, setup, events, marks);
    RO.SoundGrows(w.caches, marks[|events|], c, setup.vout);
    KB.AllowedExactly(sha, w.keys, req, Consult(sha, w, setup, req, src).0, now);
    hide After, SeenRun, Marked, Extends, KB.Decide, KB.Lookup, KB.Spent, Meter.Decide, Meter.FitsHistory;
    hide RO.Query, RO.Sound, RO.LiveIn, RO.Along, RO.Static, KB.InScope;
    if AsksOracle(sha, w.keys, req) {
      var i := KB.Match(sha, w.keys, req.secret).value;
      RO.LiveAnswerIff(w.caches, c, setup.vout, setup.maxHops, w.keys[i].identityId);
      ChargeFitsHistory(sha, setup, events, i, req.amount, now);
    }
  }
}
