/** The key broker (src/broker/key_broker.c): issue, authorize and revoke over per-key meters. */
module KeyBroker {
  import opened Common
  import Meter
  import Chain

  /** A stored key: its public part, the hash of its secret, its meter and its local latch. */
  datatype Key = Key(
    keyId: Bytes,
    agentPubKey: string,
    ricardianHash: string,
    identityId: Chain.Txid,
    envelope: Meter.Envelope,
    createdAt: int64,
    secretHash: Bytes32,
    meter: Meter.State,
    revokedLocally: bool)

  /** Who a key is issued to. */
  datatype Holder = Holder(agentPubKey: string, ricardianHash: string, identityId: Chain.Txid)

  /** The public part of a key, as it is handed back. */
  datatype IssuedKey = IssuedKey(keyId: Bytes, holder: Holder, envelope: Meter.Envelope, createdAt: int64)

  /** The public part and the secret, which is shown this once. */
  datatype Issued = Issued(key: IssuedKey, secret: Bytes)

  type Draw16 = s: Bytes | |s| == 16 witness seq(16, i => 0)
  type Draw24 = s: Bytes | |s| == 24 witness seq(24, i => 0)

  datatype Request = Request(secret: Option<Bytes>, scope: Option<string>, amount: int64)

  datatype Denial =
    | UnknownKey
    | KeyRevoked
    | OracleUnavailable
    | IdentityRevoked
    | ScopeNotAuthorised
    | OverEnvelope(charge: Meter.Charge)

  /** A decision about key number `key` of the broker, or about no key at all. */
  datatype Decision =
    | Allow(key: nat, charge: Meter.Charge)
    | Deny(denial: Denial, matched: Option<nat>)

  // ---- the pipeline -------------------------------------------------------

  /** The first key whose secret hash matches. */
  function Lookup(keys: seq<Key>, h: Bytes32): (r: Option<nat>)
    ensures r.Some? ==> r.value < |keys| && keys[r.value].secretHash == h
    ensures r.Some? ==> forall j :: 0 <= j < r.value ==> keys[j].secretHash != h
    ensures r.None? ==> forall j :: 0 <= j < |keys| ==> keys[j].secretHash != h
  {
    if keys == [] then None
    else if keys[0].secretHash == h then Some(0)
    else
      match Lookup(keys[1..], h)
      case None => None
      case Some(j) => Some(j + 1)
  }

  function Match(sha: Hash, keys: seq<Key>, secret: Option<Bytes>): (r: Option<nat>)
    ensures r.Some? ==> r.value < |keys|
  {
    if secret.None? then None else Lookup(keys, sha(secret.value))
  }

  predicate InScope(env: Meter.Envelope, scope: Option<string>) {
    scope.Some? && scope.value in env.scopes
  }

  /** The ordered checks; `oracle` is what the revocation oracle answers if it is asked. */
  function Decide(sha: Hash, keys: seq<Key>, req: Request, oracle: Result<bool>, now: int64): Decision {
    match Match(sha, keys, req.secret)
    case None => Deny(UnknownKey, None)
    case Some(i) =>
      var k := keys[i];
      if k.revokedLocally then Deny(KeyRevoked, Some(i))
      else if oracle.Err? then Deny(OracleUnavailable, Some(i))
      else if oracle.value then Deny(IdentityRevoked, Some(i))
      else if !InScope(k.envelope, req.scope) then Deny(ScopeNotAuthorised, Some(i))
      else
        var charge := Meter.Decide(k.envelope, k.meter, req.amount, now);
        match charge
        case Denied(_, _, _) => Deny(OverEnvelope(charge), Some(i))
        case Allowed(_, _) => Allow(i, charge)
  }

  /** The keys after the decision: an on-chain revocation latches, an allow moves one meter. */
  function Settle(keys: seq<Key>, req: Request, d: Decision, now: int64): (r: seq<Key>)
    ensures |r| == |keys|
  {
    match d
    case Deny(IdentityRevoked, Some(i)) =>
      if i < |keys| then keys[i := keys[i].(revokedLocally := true)] else keys
    case Deny(_, _) => keys
    case Allow(i, _) =>
      if i < |keys|
      then keys[i := keys[i].(meter := Meter.After(keys[i].envelope, keys[i].meter, req.amount, now))]
      else keys
  }

  function FindById(keys: seq<Key>, keyId: Bytes): (r: Option<nat>)
    ensures r.Some? ==> r.value < |keys| && keys[r.value].keyId == keyId
    ensures r.None? ==> forall j :: 0 <= j < |keys| ==> keys[j].keyId != keyId
  {
    if keys == [] then None
    else if keys[0].keyId == keyId then Some(0)
    else
      match FindById(keys[1..], keyId)
      case None => None
      case Some(j) => Some(j + 1)
  }

  function Revoked(keys: seq<Key>, keyId: Bytes): seq<Key> {
    match FindById(keys, keyId)
    case None => keys
    case Some(i) => keys[i := keys[i].(revokedLocally := true)]
  }

  /** Key i is the first that carries this id. */
  predicate FirstWithId(keys: seq<Key>, keyId: Bytes, i: nat)
    requires i < |keys|
  {
    keys[i].keyId == keyId && forall j :: 0 <= j < i ==> keys[j].keyId != keyId
  }

  /** Revoking latches the first key with that id and leaves every other key as it is. */
  lemma RevokedExactly(keys: seq<Key>, keyId: Bytes)
    ensures |Revoked(keys, keyId)| == |keys|
    ensures forall i :: 0 <= i < |keys| ==>
      Revoked(keys, keyId)[i] == if FirstWithId(keys, keyId, i) then keys[i].(revokedLocally := true) else keys[i]
  {
    forall i | 0 <= i < |keys|
      ensures Revoked(keys, keyId)[i]
           == if FirstWithId(keys, keyId, i) then keys[i].(revokedLocally := true) else keys[i]
    {
      var at := FindById(keys, keyId);
      if FirstWithId(keys, keyId, i) {
        FindByIdIs(keys, keyId, i);
      } else if at == Some(i) {
        FoundFirst(keys, keyId);
      }
    }
  }

  lemma {:induction false} FoundFirst(keys: seq<Key>, keyId: Bytes)
    ensures var at := FindById(keys, keyId); at.Some? ==> FirstWithId(keys, keyId, at.value)
  {
    if keys != [] && keys[0].keyId != keyId {
      FoundFirst(keys[1..], keyId);
      var at := FindById(keys, keyId);
      if at.Some? {
        assert forall j :: 0 < j < at.value ==> keys[j] == keys[1..][j - 1];
      }
    }
  }

  /** An allow needs, in the same call, a matched unlatched key, a not-revoked answer, a scope and a budget. */
  lemma AllowedExactly(sha: Hash, keys: seq<Key>, req: Request, oracle: Result<bool>, now: int64)
    ensures Decide(sha, keys, req, oracle, now).Allow? <==>
      && Match(sha, keys, req.secret).Some?
      && var k := keys[Match(sha, keys, req.secret).value];
      && !k.revokedLocally
      && oracle == Ok(false)
      && InScope(k.envelope, req.scope)
      && Meter.Decide(k.envelope, k.meter, req.amount, now).Allowed?
  {
  }

  // ---- issuing ------------------------------------------------------------

  function Hex(s: Bytes): (r: Bytes)
    ensures |r| == 2 * |s|
    ensures forall i :: 0 <= i < |s| ==> r[2 * i] == HexDigit(s[i] / 16) && r[2 * i + 1] == HexDigit(s[i] % 16)
  {
    seq(2 * |s|, i requires 0 <= i < 2 * |s| => HexDigit(if i % 2 == 0 then s[i / 2] / 16 else s[i / 2] % 16))
  }

  lemma HexInjective(s: Bytes, t: Bytes)
    requires Hex(s) == Hex(t)
    ensures s == t
  {
    assert 2 * |s| == |Hex(s)| == |Hex(t)| == 2 * |t|;
    forall i | 0 <= i < |s| ensures s[i] == t[i] {
      assert Hex(s)[2 * i] == Hex(t)[2 * i] && Hex(s)[2 * i + 1] == Hex(t)[2 * i + 1];
    }
  }

  /** pk_ */
  const PREFIX: Bytes := [0x70, 0x6b, 0x5f]

  function Secret(draw: Draw24): Bytes {
    PREFIX + Hex(draw)
  }

  lemma SecretInjective(a: Draw24, b: Draw24)
    requires Secret(a) == Secret(b)
    ensures a == b
  {
    hide Hex;
    assert Secret(a)[3..] == Hex(a) && Secret(b)[3..] == Hex(b);
    HexInjective(a, b);
  }

  function NewKey(sha: Hash, id: Draw16, draw: Draw24, holder: Holder, env: Meter.Envelope, now: int64): Key {
    Key(Hex(id), holder.agentPubKey, holder.ricardianHash, holder.identityId, env, now, sha(Secret(draw)), Meter.NEW,
        false)
  }

  /** What a new key holds: its holder's data, an unused meter, an open latch, the hash of its secret. */
  lemma NewKeyFields(sha: Hash, id: Draw16, draw: Draw24, holder: Holder, env: Meter.Envelope, now: int64)
    ensures var k := NewKey(sha, id, draw, holder, env, now);
            && k.keyId == Hex(id) && k.envelope == env && k.createdAt == now
            && k.agentPubKey == holder.agentPubKey && k.ricardianHash == holder.ricardianHash
            && k.identityId == holder.identityId
            && k.secretHash == sha(Secret(draw)) && !k.revokedLocally
            && !k.meter.started && k.meter.spent == 0
  {
  }

  /** The secret is pk_ and 48 lower-case hexadecimal digits, high half of each byte first. */
  lemma SecretLayout(draw: Draw24, i: nat)
    requires i < 24
    ensures var s := Secret(draw);
            && |s| == 51 && s[..3] == ['p' as int, 'k' as int, '_' as int]
            && s[3 + 2 * i] == "0123456789abcdef"[draw[i] / 16] as int
            && s[4 + 2 * i] == "0123456789abcdef"[draw[i] % 16] as int
  {
    var hex := Hex(draw);
    assert Secret(draw)[..3] == PREFIX;
    assert Secret(draw)[3 + 2 * i] == hex[2 * i] && Secret(draw)[4 + 2 * i] == hex[2 * i + 1];
    hide Secret, Hex;
    HexDigitIs(draw[i] / 16);
    HexDigitIs(draw[i] % 16);
  }

  lemma HexDigitIs(d: int)
    requires 0 <= d < 16
    ensures HexDigit(d) == "0123456789abcdef"[d] as int
  {
    var s := "0123456789abcdef";
    assert s[0] == '0' && s[1] == '1' && s[2] == '2' && s[3] == '3' && s[4] == '4' && s[5] == '5' && s[6] == '6';
    assert s[7] == '7' && s[8] == '8' && s[9] == '9' && s[10] == 'a' && s[11] == 'b' && s[12] == 'c';
    assert s[13] == 'd' && s[14] == 'e' && s[15] == 'f';
  }

  /** Each key was issued with a secret made from the draw at its place. */
  ghost predicate DrawnFrom(sha: Hash, keys: seq<Key>, draws: seq<Draw24>) {
    |draws| == |keys| && forall j :: 0 <= j < |keys| ==> keys[j].secretHash == sha(Secret(draws[j]))
  }

  /** A key's own secret finds that key, unless two draws coincide or a hash collision is in hand. */
  lemma SecretFindsKey(sha: Hash, keys: seq<Key>, draws: seq<Draw24>, i: nat)
    requires DrawnFrom(sha, keys, draws) && i < |keys|
    ensures || Match(sha, keys, Some(Secret(draws[i]))) == Some(i)
            || exists j :: 0 <= j < i && (draws[j] == draws[i] || Collision(sha, Secret(draws[j]), Secret(draws[i])))
  {
    hide Secret, Lookup;
    var at := Match(sha, keys, Some(Secret(draws[i])));
    assert at.Some? && at.value <= i;
    var j := at.value;
    if j < i {
      assert sha(Secret(draws[j])) == sha(Secret(draws[i]));
      if Secret(draws[j]) == Secret(draws[i]) { SecretInjective(draws[j], draws[i]); }
      assert draws[j] == draws[i] || Collision(sha, Secret(draws[j]), Secret(draws[i]));
    }
  }

  // ---- the broker ---------------------------------------------------------

  class Broker {
    var keys: seq<Key>

    constructor ()
      ensures keys == []
    {
      keys := [];
    }

    /** The two random draws may fail; only the hash of the secret is kept. */
    method Issue(sha: Hash, idDraw: Option<Draw16>, secretDraw: Option<Draw24>, holder: Holder, env: Meter.Envelope,
                 now: int64)
        returns (r: Result<Issued>)
      modifies this
      ensures idDraw.None? || secretDraw.None? ==> r == Err(ECRYPTO) && keys == old(keys)
      ensures idDraw.Some? && secretDraw.Some? ==>
        && keys == old(keys) + [NewKey(sha, idDraw.value, secretDraw.value, holder, env, now)]
        && r == Ok(Issued(IssuedKey(Hex(idDraw.value), holder, env, now), Secret(secretDraw.value)))
    {
      if idDraw.None? { return Err(ECRYPTO); }
      if secretDraw.None? { return Err(ECRYPTO); }
      var secret := PREFIX + Hex(secretDraw.value);
      var issued := IssuedKey(Hex(idDraw.value), holder, env, now);
      keys := keys + [Key(issued.keyId, holder.agentPubKey, holder.ricardianHash, holder.identityId, env, now,
                          sha(secret), Meter.NEW, false)];
      return Ok(Issued(issued, secret));
    }

    method FindSecret(h: Bytes32) returns (at: Option<nat>)
      ensures at == Lookup(keys, h)
    {
      for i := 0 to |keys|
        invariant forall j :: 0 <= j < i ==> keys[j].secretHash != h
      {
        if keys[i].secretHash == h {
          LookupIs(keys, h, i);
          return Some(i);
        }
      }
      return None;
    }

    method Authorize(sha: Hash, req: Request, oracle: Result<bool>, now: int64) returns (d: Decision)
      modifies this
      ensures d == Decide(sha, old(keys), req, oracle, now)
      ensures keys == Settle(old(keys), req, d, now)
    {
      if req.secret.None? { return Deny(UnknownKey, None); }
      var at := FindSecret(sha(req.secret.value));
      if at.None? { return Deny(UnknownKey, None); }
      var i := at.value;
      if keys[i].revokedLocally { return Deny(KeyRevoked, Some(i)); }
      if oracle.Err? { return Deny(OracleUnavailable, Some(i)); }
      if oracle.value {
        keys := keys[i := keys[i].(revokedLocally := true)];
        return Deny(IdentityRevoked, Some(i));
      }
      var env := keys[i].envelope;
      var inScope := false;
      var n := 0;
      while n < |env.scopes| && !inScope
        invariant 0 <= n <= |env.scopes|
        invariant inScope <==> req.scope.Some? && req.scope.value in env.scopes[..n]
        decreases |env.scopes| - n
      {
        inScope := req.scope.Some? && env.scopes[n] == req.scope.value;
        n := n + 1;
      }
      assert inScope <==> InScope(env, req.scope) by {
        if !inScope { assert env.scopes[..n] == env.scopes; }
      }
      if !inScope { return Deny(ScopeNotAuthorised, Some(i)); }
      var charge := Meter.Decide(env, keys[i].meter, req.amount, now);
      if charge.Denied? { return Deny(OverEnvelope(charge), Some(i)); }
      keys := keys[i := keys[i].(meter := Meter.State(charge.spent, charge.start, true))];
      return Allow(i, charge);
    }

    method RevokeLocally(keyId: Bytes) returns (found: bool)
      modifies this
      ensures keys == Revoked(old(keys), keyId)
      ensures |keys| == |old(keys)|
      ensures forall i :: 0 <= i < |keys| ==>
        keys[i] == if FirstWithId(old(keys), keyId, i) then old(keys)[i].(revokedLocally := true) else old(keys)[i]
      ensures found <==> exists j :: 0 <= j < |old(keys)| && old(keys)[j].keyId == keyId
    {
      RevokedExactly(keys, keyId);
      for i := 0 to |keys|
        invariant keys == old(keys)
        invariant forall j :: 0 <= j < i ==> keys[j].keyId != keyId
      {
        if keys[i].keyId == keyId {
          FindByIdIs(keys, keyId, i);
          keys := keys[i := keys[i].(revokedLocally := true)];
          return true;
        }
      }
      return false;
    }
  }

  lemma {:induction false} LookupIs(keys: seq<Key>, h: Bytes32, i: nat)
    requires i < |keys| && keys[i].secretHash == h
    requires forall j :: 0 <= j < i ==> keys[j].secretHash != h
    ensures Lookup(keys, h) == Some(i)
  {
    if i > 0 { LookupIs(keys[1..], h, i - 1); }
  }

  lemma {:induction false} FindByIdIs(keys: seq<Key>, keyId: Bytes, i: nat)
    requires i < |keys| && keys[i].keyId == keyId
    requires forall j :: 0 <= j < i ==> keys[j].keyId != keyId
    ensures FindById(keys, keyId) == Some(i)
  {
    if i > 0 { FindByIdIs(keys[1..], keyId, i - 1); }
  }

  // ---- whole runs ---------------------------------------------------------

  datatype Event =
    | Issue(id: Draw16, draw: Draw24, holder: Holder, env: Meter.Envelope, at: int64)
    | Authorize(req: Request, oracle: Result<bool>, now: int64)
    | Revoke(keyId: Bytes)

  function Step(sha: Hash, keys: seq<Key>, e: Event): seq<Key> {
    match e
    case Issue(id, draw, holder, env, at) => keys + [NewKey(sha, id, draw, holder, env, at)]
    case Authorize(req, oracle, now) => Settle(keys, req, Decide(sha, keys, req, oracle, now), now)
    case Revoke(keyId) => Revoked(keys, keyId)
  }

  function KeysAfter(sha: Hash, events: seq<Event>): seq<Key> {
    if events == [] then [] else Step(sha, KeysAfter(sha, events[..|events| - 1]), events[|events| - 1])
  }

  /** The decision taken at event n of a run, if it is an authorization. */
  ghost predicate AllowsAt(sha: Hash, events: seq<Event>, n: nat, i: nat)
    requires n < |events|
  {
    && events[n].Authorize?
    && var d := Decide(sha, KeysAfter(sha, events[..n]), events[n].req, events[n].oracle, events[n].now);
    && d.Allow? && d.key == i
  }

  /** Everything but the meter and the latch is fixed at issue; a latch never opens. */
  lemma StepKeeps(sha: Hash, keys: seq<Key>, e: Event, i: nat)
    requires i < |keys|
    ensures |keys| <= |Step(sha, keys, e)|
    ensures var k, k' := keys[i], Step(sha, keys, e)[i];
            && k' == k.(meter := k'.meter, revokedLocally := k'.revokedLocally)
            && (k.revokedLocally ==> k'.revokedLocally)
  {
    hide Lookup, FindById, Meter.Decide;
  }

  /** A denial moves no meter; an allow moves the meter of its key and nothing else. */
  lemma MetersMoveOnAllowOnly(sha: Hash, keys: seq<Key>, req: Request, oracle: Result<bool>, now: int64)
    ensures var d := Decide(sha, keys, req, oracle, now);
            var keys' := Settle(keys, req, d, now);
            && (d.Deny? ==> forall j :: 0 <= j < |keys| ==> keys'[j].meter == keys[j].meter)
            && (d.Allow? ==> d.key < |keys|)
            && (d.Allow? ==>
                  keys' == keys[d.key := keys[d.key].(meter := Meter.State(d.charge.spent, d.charge.start, true))])
            && (d.Allow? ==> oracle == Ok(false) && !keys[d.key].revokedLocally)
            && (d.Allow? ==> InScope(keys[d.key].envelope, req.scope))
  {
    hide Lookup;
  }

  lemma {:induction false} LatchStays(sha: Hash, events: seq<Event>, m: nat, n: nat, i: nat)
    requires m <= n <= |events|
    requires i < |KeysAfter(sha, events[..m])| && KeysAfter(sha, events[..m])[i].revokedLocally
    ensures i < |KeysAfter(sha, events[..n])| && KeysAfter(sha, events[..n])[i].revokedLocally
    decreases n
  {
    hide Step;
    if m < n {
      LatchStays(sha, events, m, n - 1, i);
      assert events[..n][..n - 1] == events[..n - 1] && events[..n][n - 1] == events[n - 1];
      StepKeeps(sha, KeysAfter(sha, events[..n - 1]), events[n - 1], i);
    }
  }

  // ---- what closes a latch ------------------------------------------------

  /** The secret presented is hashed to key i's hash, and to that of no earlier key. */
  predicate FirstWithSecret(sha: Hash, keys: seq<Key>, secret: Option<Bytes>, i: nat)
    requires i < |keys|
  {
    && secret.Some?
    && keys[i].secretHash == sha(secret.value)
    && forall j :: 0 <= j < i ==> keys[j].secretHash != sha(secret.value)
  }

  lemma MatchExactly(sha: Hash, keys: seq<Key>, secret: Option<Bytes>, i: nat)
    requires i < |keys|
    ensures Match(sha, keys, secret) == Some(i) <==> FirstWithSecret(sha, keys, secret, i)
  {
    if FirstWithSecret(sha, keys, secret, i) { LookupIs(keys, sha(secret.value), i); }
  }

  /** The event revokes key i by its id, or meets an on-chain revocation while key i is open. */
  predicate Latches(sha: Hash, keys: seq<Key>, e: Event, i: nat)
    requires i < |keys|
  {
    match e
    case Issue(_, _, _, _, _) => false
    case Revoke(keyId) => FirstWithId(keys, keyId, i)
    case Authorize(req, oracle, _) =>
      FirstWithSecret(sha, keys, req.secret, i) && !keys[i].revokedLocally && oracle == Ok(true)
  }

  lemma StepLatches(sha: Hash, keys: seq<Key>, e: Event, i: nat)
    requires i < |keys|
    ensures i < |Step(sha, keys, e)|
    ensures Step(sha, keys, e)[i].revokedLocally <==> keys[i].revokedLocally || Latches(sha, keys, e, i)
  {
    match e {
      case Issue(_, _, _, _, _) =>
      case Revoke(keyId) =>
        RevokedExactly(keys, keyId);
        hide Revoked;
      case Authorize(req, oracle, now) =>
        MatchExactly(sha, keys, req.secret, i);
        hide Match, FirstWithSecret, Meter.Decide, Meter.After;
    }
  }

  lemma StepGrows(sha: Hash, keys: seq<Key>, e: Event)
    ensures |Step(sha, keys, e)| >= |keys|
  {
    hide Decide, FindById;
  }

  lemma {:induction false} KeysGrow(sha: Hash, events: seq<Event>, m: nat, n: nat)
    requires m <= n <= |events|
    ensures |KeysAfter(sha, events[..m])| <= |KeysAfter(sha, events[..n])|
    decreases n
  {
    hide Step;
    if m < n {
      KeysGrow(sha, events, m, n - 1);
      assert events[..n][..n - 1] == events[..n - 1] && events[..n][n - 1] == events[n - 1];
      StepGrows(sha, KeysAfter(sha, events[..n - 1]), events[n - 1]);
    }
  }

  /** Event n of the run latches key i, which is there by then. */
  ghost predicate LatchesAt(sha: Hash, events: seq<Event>, n: nat, i: nat)
    requires n < |events|
  {
    i < |KeysAfter(sha, events[..n])| && Latches(sha, KeysAfter(sha, events[..n]), events[n], i)
  }

  /**
   * In every run a key is latched exactly when, since its issue, it was revoked by its id as the first
   * key of that id, or was matched while open by a request that met an on-chain revocation.
   */
  lemma {:induction false} LatchedIff(sha: Hash, events: seq<Event>, i: nat)
    requires i < |KeysAfter(sha, events)|
    ensures KeysAfter(sha, events)[i].revokedLocally <==> exists n :: 0 <= n < |events| && LatchesAt(sha, events, n, i)
  {
    var k := |events| - 1;
    var front := events[..k];
    var keys := KeysAfter(sha, front);
    assert events[..k] == front;
    LatchesInFront(sha, events, i);
    if i < |keys| {
      LatchedIff(sha, front, i);
      StepLatches(sha, keys, events[k], i);
      hide KeysAfter, Step, Latches, LatchesAt;
      if LatchesAt(sha, events, k, i) { }
    } else {
      forall n | 0 <= n < |events| ensures !LatchesAt(sha, events, n, i) { KeysGrow(sha, events, n, k); }
      NewlyIssued(sha, keys, events[k], i);
    }
  }

  lemma NewlyIssued(sha: Hash, keys: seq<Key>, e: Event, i: nat)
    requires |keys| <= i < |Step(sha, keys, e)|
    ensures !Step(sha, keys, e)[i].revokedLocally
  {
    hide Lookup, FindById, Meter.Decide;
  }

  /** What latches in the front of a run and at its last event is what latches in the run. */
  lemma LatchesInFront(sha: Hash, events: seq<Event>, i: nat)
    requires events != []
    ensures var k := |events| - 1;
            (exists n :: 0 <= n < |events| && LatchesAt(sha, events, n, i)) <==>
            || (exists n :: 0 <= n < k && LatchesAt(sha, events[..k], n, i))
            || LatchesAt(sha, events, k, i)
  {
    var k := |events| - 1;
    forall n | 0 <= n < k ensures LatchesAt(sha, events[..k], n, i) <==> LatchesAt(sha, events, n, i) {
      assert events[..k][..n] == events[..n];
    }
    hide LatchesAt;
  }

  /** Once a key is revoked by its id, every later request that matches it is turned away as revoked. */
  lemma RevokedThenDenied(sha: Hash, events: seq<Event>, m: nat, n: nat, i: nat)
    requires m < n < |events| && events[m].Revoke? && events[n].Authorize?
    requires i < |KeysAfter(sha, events[..m])| && FirstWithId(KeysAfter(sha, events[..m]), events[m].keyId, i)
    ensures !AllowsAt(sha, events, n, i)
    ensures i < |KeysAfter(sha, events[..n])|
    ensures FirstWithSecret(sha, KeysAfter(sha, events[..n]), events[n].req.secret, i) ==>
      Decide(sha, KeysAfter(sha, events[..n]), events[n].req, events[n].oracle, events[n].now)
        == Deny(KeyRevoked, Some(i))
  {
    var keys := KeysAfter(sha, events[..m]);
    assert events[..m + 1][..m] == events[..m] && events[..m + 1][m] == events[m];
    StepLatches(sha, keys, events[m], i);
    assert KeysAfter(sha, events[..m + 1]) == Step(sha, keys, events[m]);
    LatchedNeverAllowed(sha, events, m + 1, n, i);
    LatchStays(sha, events, m + 1, n, i);
    MatchExactly(sha, KeysAfter(sha, events[..n]), events[n].req.secret, i);
    hide KeysAfter, Match, FirstWithSecret, FirstWithId;
  }

  /** Why a request is turned away, first reason first. */
  lemma DeniedExactly(sha: Hash, keys: seq<Key>, req: Request, oracle: Result<bool>, now: int64, i: nat)
    ensures Decide(sha, keys, req, oracle, now) == Deny(UnknownKey, None) <==>
            req.secret.None? || forall j :: 0 <= j < |keys| ==> keys[j].secretHash != sha(req.secret.value)
    ensures i < |keys| && FirstWithSecret(sha, keys, req.secret, i) ==>
      var d, k := Decide(sha, keys, req, oracle, now), keys[i];
      var listed := req.scope.Some? && req.scope.value in k.envelope.scopes;
      && (d == Deny(KeyRevoked, Some(i)) <==> k.revokedLocally)
      && (d == Deny(OracleUnavailable, Some(i)) <==> !k.revokedLocally && oracle.Err?)
      && (d == Deny(IdentityRevoked, Some(i)) <==> !k.revokedLocally && oracle == Ok(true))
      && (d == Deny(ScopeNotAuthorised, Some(i)) <==> !k.revokedLocally && oracle == Ok(false) && !listed)
      && (!k.revokedLocally && oracle == Ok(false) && listed ==>
            var charge := Meter.Decide(k.envelope, k.meter, req.amount, now);
            d == if charge.Allowed? then Allow(i, charge) else Deny(OverEnvelope(charge), Some(i)))
  {
    if i < |keys| { MatchExactly(sha, keys, req.secret, i); }
    hide Lookup, FirstWithSecret, Meter.Decide;
  }

  /** In every run: once a key is latched, no later request is allowed on it. */
  lemma LatchedNeverAllowed(sha: Hash, events: seq<Event>, m: nat, n: nat, i: nat)
    requires m <= n < |events|
    requires i < |KeysAfter(sha, events[..m])| && KeysAfter(sha, events[..m])[i].revokedLocally
    ensures !AllowsAt(sha, events, n, i)
  {
    LatchStays(sha, events, m, n, i);
    if events[n].Authorize? {
      AllowedExactly(sha, KeysAfter(sha, events[..n]), events[n].req, events[n].oracle, events[n].now);
      hide KeysAfter, Meter.Decide;
    }
  }

  // ---- secrets in a run ---------------------------------------------------

  /** The draws the secrets of a run were made from, in order. */
  function Drawn(events: seq<Event>): seq<Draw24> {
    if events == [] then []
    else
      var last := events[|events| - 1];
      Drawn(events[..|events| - 1]) + if last.Issue? then [last.draw] else []
  }

  lemma StepDrawn(sha: Hash, keys: seq<Key>, e: Event, draws: seq<Draw24>)
    requires DrawnFrom(sha, keys, draws)
    ensures DrawnFrom(sha, Step(sha, keys, e), draws + if e.Issue? then [e.draw] else [])
  {
    if !e.Issue? {
      assert |Step(sha, keys, e)| == |keys| by { hide Lookup, FindById, Meter.Decide; }
      forall i | 0 <= i < |keys| ensures Step(sha, keys, e)[i].secretHash == keys[i].secretHash {
        StepKeeps(sha, keys, e, i);
      }
    }
    hide Secret, Decide, Settle, Revoked;
  }

  lemma {:induction false} RunDrawn(sha: Hash, events: seq<Event>)
    ensures DrawnFrom(sha, KeysAfter(sha, events), Drawn(events))
  {
    hide DrawnFrom, Step;
    if events == [] {
      NoneDrawn(sha);
    } else {
      var front, e := events[..|events| - 1], events[|events| - 1];
      RunDrawn(sha, front);
      StepDrawn(sha, KeysAfter(sha, front), e, Drawn(front));
    }
  }

  lemma NoneDrawn(sha: Hash)
    ensures DrawnFrom(sha, [], [])
  {
  }

  /** In every run, each key's own secret finds that key, unless two draws coincide or a collision is in hand. */
  lemma OwnSecretFinds(sha: Hash, events: seq<Event>, i: nat)
    requires i < |KeysAfter(sha, events)|
    ensures i < |Drawn(events)|
    ensures var draws := Drawn(events);
            || Match(sha, KeysAfter(sha, events), Some(Secret(draws[i]))) == Some(i)
            || exists j :: 0 <= j < i && (draws[j] == draws[i] || Collision(sha, Secret(draws[j]), Secret(draws[i])))
  {
    RunDrawn(sha, events);
    hide KeysAfter, Drawn, Match, Secret;
    SecretFindsKey(sha, KeysAfter(sha, events), Drawn(events), i);
  }

  /** And what is allowed on a key presented that key's secret, or a collision. */
  lemma AllowedHadSecret(sha: Hash, events: seq<Event>, n: nat, i: nat)
    requires n < |events| && AllowsAt(sha, events, n, i)
    ensures events[n].req.secret.Some? && i < |Drawn(events[..n])|
    ensures var presented, own := events[n].req.secret.value, Secret(Drawn(events[..n])[i]);
            presented == own || Collision(sha, presented, own)
  {
    RunDrawn(sha, events[..n]);
    hide KeysAfter, Drawn, Secret, Meter.Decide;
  }

  // ---- each key's meter sees a run of its own -----------------------------

  /** What an event asks of the meter of key i: nothing, or a charge. */
  ghost function Asks(sha: Hash, keys: seq<Key>, e: Event, i: nat): seq<Meter.Request> {
    if !e.Authorize? then []
    else
      match Decide(sha, keys, e.req, e.oracle, e.now)
      case Allow(k, _) => if k == i then [Meter.Request(e.req.amount, e.now)] else []
      case Deny(OverEnvelope(_), Some(k)) => if k == i then [Meter.Request(e.req.amount, e.now)] else []
      case _ => []
  }

  /** What an event spends on key i. */
  ghost function Spends(sha: Hash, keys: seq<Key>, e: Event, i: nat): seq<Meter.Spend> {
    if !e.Authorize? then []
    else
      match Decide(sha, keys, e.req, e.oracle, e.now)
      case Allow(k, charge) => if k == i then [Meter.Spend(e.req.amount, e.now, charge.start)] else []
      case _ => []
  }

  ghost function Asked(sha: Hash, events: seq<Event>, i: nat): seq<Meter.Request> {
    if events == [] then []
    else
      var front := events[..|events| - 1];
      Asked(sha, front, i) + Asks(sha, KeysAfter(sha, front), events[|events| - 1], i)
  }

  /** Everything the broker allowed on key i in a run, in order. */
  ghost function Spent(sha: Hash, events: seq<Event>, i: nat): seq<Meter.Spend> {
    if events == [] then []
    else
      var front := events[..|events| - 1];
      Spent(sha, front, i) + Spends(sha, KeysAfter(sha, front), events[|events| - 1], i)
  }

  ghost function SpendOf(charge: Meter.Charge, e: Event): seq<Meter.Spend>
    requires e.Authorize?
  {
    match charge
    case Denied(_, _, _) => []
    case Allowed(_, start) => [Meter.Spend(e.req.amount, e.now, start)]
  }

  /** One event, seen from the meter of key i. */
  lemma MeterStep(sha: Hash, keys: seq<Key>, e: Event, i: nat)
    requires i < |keys|
    ensures i < |Step(sha, keys, e)|
    ensures var k := keys[i]; var asks := Asks(sha, keys, e, i);
            && Step(sha, keys, e)[i].envelope == k.envelope
            && (asks == [] ==> Step(sha, keys, e)[i].meter == k.meter && Spends(sha, keys, e, i) == [])
            && (asks != [] ==> asks == [Meter.Request(e.req.amount, e.now)])
            && (asks != [] ==> Step(sha, keys, e)[i].meter == Meter.After(k.envelope, k.meter, e.req.amount, e.now))
            && (asks != [] ==>
                  Spends(sha, keys, e, i) == SpendOf(Meter.Decide(k.envelope, k.meter, e.req.amount, e.now), e))
  {
    hide Lookup, FindById;
  }

  lemma MeterOfUnissued(sha: Hash, keys: seq<Key>, e: Event, i: nat)
    requires i >= |keys|
    ensures Asks(sha, keys, e, i) == [] && Spends(sha, keys, e, i) == []
    ensures |Step(sha, keys, e)| <= |keys| + 1
    ensures i < |Step(sha, keys, e)| ==> Step(sha, keys, e)[i].meter == Meter.NEW
  {
    hide Lookup, FindById;
  }

  /** The meter of each key is exactly the rolling-window meter run over the requests that reached it. */
  lemma {:induction false} MeterOfKey(sha: Hash, events: seq<Event>, i: nat)
    ensures var keys := KeysAfter(sha, events);
            if i < |keys| then
              && keys[i].meter == Meter.Run(keys[i].envelope, Meter.NEW, Asked(sha, events, i))
              && Spent(sha, events, i) == Meter.Log(keys[i].envelope, Meter.NEW, Asked(sha, events, i))
            else Asked(sha, events, i) == [] && Spent(sha, events, i) == []
  {
    if events != [] {
      var front, e := events[..|events| - 1], events[|events| - 1];
      var keys := KeysAfter(sha, front);
      MeterOfKey(sha, front, i);
      if i < |keys| {
        MeterStep(sha, keys, e, i);
        hide Step, Asks, Spends, Meter.Decide, Meter.After;
        var asked := Asked(sha, front, i);
        Meter.RunAppend(keys[i].envelope, Meter.NEW, asked, Meter.Request(
          if e.Authorize? then e.req.amount else 0, if e.Authorize? then e.now else 0));
        assert asked + [] == asked && Spent(sha, front, i) + [] == Spent(sha, front, i);
      } else {
        MeterOfUnissued(sha, keys, e, i);
        hide Step, Asks, Spends;
        assert [] + Asks(sha, keys, e, i) == [];
      }
    }
  }

  ghost predicate ClockOrdered(events: seq<Event>) {
    forall m, n :: 0 <= m < n < |events| && events[m].Authorize? && events[n].Authorize? ==>
      events[m].now <= events[n].now
  }

  ghost predicate NoLaterThan(reqs: seq<Meter.Request>, events: seq<Event>) {
    forall r :: r in reqs ==> exists n :: 0 <= n < |events| && events[n].Authorize? && events[n].now == r.now
  }

  lemma AsksNow(sha: Hash, keys: seq<Key>, e: Event, i: nat)
    ensures var asks := Asks(sha, keys, e, i);
            asks == [] || (|asks| == 1 && e.Authorize? && asks[0].now == e.now)
  {
    hide Decide;
  }

  /** One more request keeps the order if it comes no earlier than every event before it. */
  lemma OrderedWith(events: seq<Event>, reqs: seq<Meter.Request>, e: Event, added: seq<Meter.Request>)
    requires ClockOrdered(events + [e]) && Meter.Ordered(reqs) && NoLaterThan(reqs, events)
    requires added == [] || (|added| == 1 && e.Authorize? && added[0].now == e.now)
    ensures Meter.Ordered(reqs + added) && NoLaterThan(reqs + added, events + [e])
  {
    var all := events + [e];
    assert all[|events|] == e;
    forall k | 0 <= k < |reqs|
      ensures exists n :: 0 <= n < |all| && all[n].Authorize? && all[n].now == reqs[k].now
      ensures added != [] ==> reqs[k].now <= added[0].now
    {
      assert reqs[k] in reqs;
      var n :| 0 <= n < |events| && events[n].Authorize? && events[n].now == reqs[k].now;
      assert all[n] == events[n];
    }
  }

  lemma {:induction false} AskedOrdered(sha: Hash, events: seq<Event>, i: nat)
    requires ClockOrdered(events)
    ensures Meter.Ordered(Asked(sha, events, i)) && NoLaterThan(Asked(sha, events, i), events)
  {
    if events != [] {
      var front, e := events[..|events| - 1], events[|events| - 1];
      assert events == front + [e];
      AskedOrdered(sha, front, i);
      AsksNow(sha, KeysAfter(sha, front), e, i);
      hide Asks, KeysAfter, ClockOrdered, Meter.Ordered, NoLaterThan;
      OrderedWith(front, Asked(sha, front, i), e, Asks(sha, KeysAfter(sha, front), e, i));
    }
  }

  /**
   * In every run of issues, authorizations and revocations with any oracle answers and a clock that
   * never runs back: what is allowed on one key in any interval of its window length totals at most
   * twice its window limit, less one.
   */
  lemma KeySpendBound(sha: Hash, events: seq<Event>, i: nat, t: int)
    requires ClockOrdered(events) && i < |KeysAfter(sha, events)|
    ensures var env := KeysAfter(sha, events)[i].envelope;
            var total := Meter.SumBetween(Spent(sha, events, i), t, t + env.windowDuration);
            total == 0 || total <= 2 * env.perWindow - 1
  {
    hide *;
    MeterOfKey(sha, events, i);
    AskedOrdered(sha, events, i);
    Meter.IntervalBound(KeysAfter(sha, events)[i].envelope, Asked(sha, events, i), t);
  }
}
