/** The chain source (include/reputation_indexer.h) and tx-shape tests (src/chain/tx_parse.c). */
module Chain {
  import opened Common
  import opened Transaction

  type Txid = Bytes32

  /** An append-only spend index and immutable raw transactions. */
  datatype Ledger = Ledger(spend: map<Outpoint, Txid>, raw: map<Txid, Bytes>)

  /** Growth: nothing recorded is ever changed or removed. */
  ghost predicate Extends(c: Ledger, c': Ledger) {
    && (forall p :: p in c.spend ==> p in c'.spend && c'.spend[p] == c.spend[p])
    && (forall x :: x in c.raw ==> x in c'.raw && c'.raw[x] == c.raw[x])
  }

  /** What one call into the source meets: the ledger as it is then, or a failure of the source. */
  datatype Moment = Moment(ledger: Ledger, fault: Option<Code>)

  /** The successive calls of one walk; the ledger may grow between them. */
  type Source = nat -> Moment

  function GetSpending(m: Moment, txid: Txid, vout: uint32): Result<Option<Txid>> {
    if m.fault.Some? then Err(m.fault.value)
    else if Outpoint(txid, vout) in m.ledger.spend then Ok(Some(m.ledger.spend[Outpoint(txid, vout)]))
    else Ok(None)
  }

  function GetRaw(m: Moment, txid: Txid): Result<Option<Bytes>> {
    if m.fault.Some? then Err(m.fault.value)
    else if txid in m.ledger.raw then Ok(Some(m.ledger.raw[txid]))
    else Ok(None)
  }

  /** The 25-byte pay-to-public-key-hash template. */
  predicate IsP2pkh(script: Bytes) {
    && |script| == 25
    && script[0] == 0x76 && script[1] == 0xa9 && script[2] == 0x14
    && script[23] == 0x88 && script[24] == 0xac
  }

  /** A spend that does not recreate the identity: no outputs, or a plain payment at output 0. */
  predicate IsTerminal(raw: Bytes) {
    match ParseTx(raw)
    case Err(_) => false
    case Ok(tx) => tx.outputs == [] || IsP2pkh(tx.outputs[0].script)
  }

  ghost predicate PaysToHash(script: Bytes, hash: Bytes) {
    |hash| == 20 && script == [0x76, 0xa9, 0x14] + hash + [0x88, 0xac]
  }

  lemma P2pkhExactly(script: Bytes)
    ensures IsP2pkh(script) <==> exists hash: Bytes :: PaysToHash(script, hash)
  {
    if IsP2pkh(script) {
      var hash := script[3..23];
      assert script == [0x76, 0xa9, 0x14] + hash + [0x88, 0xac];
      assert PaysToHash(script, hash);
    }
  }

  /** A spend is terminal exactly when it has no outputs or pays a public key hash at output 0. */
  lemma TerminalExactly(t: Tx)
    ensures IsTerminal(Serialize(t)) <==>
            t.outputs == [] || exists hash: Bytes :: PaysToHash(t.outputs[0].script, hash)
  {
    DeserializeOfSerialize(t);
    hide Serialize, ParseTx, IsP2pkh, PaysToHash;
    if t.outputs != [] { P2pkhExactly(t.outputs[0].script); }
  }

  /** Bytes that are no transaction are not. */
  lemma MalformedNotTerminal(raw: Bytes)
    requires forall t: Tx :: raw != Serialize(t)
    ensures !IsTerminal(raw)
  {
    if ParseTx(raw).Ok? { SerializeOfDeserialize(raw); }
  }

  /** The txid of input number `input`, of a real transaction that has one; nothing else is found. */
  lemma PrevoutExactly(raw: Bytes, input: nat, txid: Txid)
    ensures Prevout(raw, input) == Ok(txid) <==>
            exists t: Tx :: raw == Serialize(t) && input < |t.inputs| && t.inputs[input].prev == txid
    ensures Prevout(raw, input).Err? ==> Prevout(raw, input) == Err(EPARSE)
  {
    hide Serialize, ParseTx;
    if Prevout(raw, input) == Ok(txid) {
      SerializeOfDeserialize(raw);
    }
    if t: Tx :| raw == Serialize(t) && input < |t.inputs| && t.inputs[input].prev == txid {
      DeserializeOfSerialize(t);
    }
  }

  /** The transaction an input spends from. */
  function Prevout(raw: Bytes, input: nat): Result<Txid> {
    match ParseTx(raw)
    case Err(_) => Err(EPARSE)
    case Ok(tx) => if input >= |tx.inputs| then Err(EPARSE) else Ok(tx.inputs[input].prev)
  }
}

/** The revocation oracle (src/broker/chain_revocation_oracle.c): a resumable forward walk with caches. */
module RevocationOracle {
  import opened Common
  import opened Transaction
  import opened Arith
  import opened Chain
  import opened SampleChain

  const DEFAULT_VOUT: uint32 := 0
  const DEFAULT_MAX_HOPS: nat := 100000

  // ---- the truth: the unbounded path of an identity -----------------------

  datatype Hop = Unspent | Unknown | Ends | Continues(next: Txid)

  /** What the ledger says about the identity output of txid. */
  function HopFrom(c: Ledger, vout: uint32, txid: Txid): Hop {
    if Outpoint(txid, vout) !in c.spend then Unspent
    else
      var spender := c.spend[Outpoint(txid, vout)];
      if spender !in c.raw then Unknown
      else if IsTerminal(c.raw[spender]) then Ends
      else Continues(spender)
  }

  /** The transaction n continuing hops from txid, if the path is that long. */
  function Along(c: Ledger, vout: uint32, txid: Txid, n: nat): Option<Txid>
    decreases n
  {
    if n == 0 then Some(txid)
    else match HopFrom(c, vout, txid)
      case Continues(next) => Along(c, vout, next, n - 1)
      case _ => None
  }

  /** The identity's path reaches x. */
  ghost predicate Reaches(c: Ledger, vout: uint32, genesis: Txid, x: Txid) {
    exists n: nat :: Along(c, vout, genesis, n) == Some(x)
  }

  ghost predicate RevokedIn(c: Ledger, vout: uint32, genesis: Txid) {
    exists x :: Reaches(c, vout, genesis, x) && HopFrom(c, vout, x) == Ends
  }

  ghost predicate LiveIn(c: Ledger, vout: uint32, genesis: Txid) {
    exists x :: Reaches(c, vout, genesis, x) && HopFrom(c, vout, x) == Unspent
  }

  lemma {:induction false} AlongStep(c: Ledger, vout: uint32, txid: Txid, n: nat, x: Txid)
    requires Along(c, vout, txid, n) == Some(x)
    ensures HopFrom(c, vout, x).Continues? ==> Along(c, vout, txid, n + 1) == Some(HopFrom(c, vout, x).next)
    ensures !HopFrom(c, vout, x).Continues? ==> Along(c, vout, txid, n + 1) == None
    decreases n
  {
    hide IsTerminal;
    if n > 0 { AlongStep(c, vout, HopFrom(c, vout, txid).next, n - 1, x); }
  }

  lemma ReachesNext(c: Ledger, vout: uint32, genesis: Txid, x: Txid)
    requires Reaches(c, vout, genesis, x) && HopFrom(c, vout, x).Continues?
    ensures Reaches(c, vout, genesis, HopFrom(c, vout, x).next)
  {
    var n: nat :| Along(c, vout, genesis, n) == Some(x);
    AlongStep(c, vout, genesis, n, x);
  }

  lemma {:induction false} AlongPrefix(c: Ledger, vout: uint32, txid: Txid, m: nat, n: nat)
    requires m <= n && Along(c, vout, txid, n).Some?
    ensures Along(c, vout, txid, m).Some?
    ensures Along(c, vout, Along(c, vout, txid, m).value, n - m) == Along(c, vout, txid, n)
    decreases m
  {
    hide IsTerminal;
    if m > 0 { AlongPrefix(c, vout, HopFrom(c, vout, txid).next, m - 1, n - 1); }
  }

  /** The path has one end: reaching a dead stop twice is reaching the same one. */
  lemma OneEnd(c: Ledger, vout: uint32, genesis: Txid, x: Txid, y: Txid)
    requires Reaches(c, vout, genesis, x) && !HopFrom(c, vout, x).Continues?
    requires Reaches(c, vout, genesis, y) && !HopFrom(c, vout, y).Continues?
    ensures x == y
  {
    var m: nat :| Along(c, vout, genesis, m) == Some(x);
    var n: nat :| Along(c, vout, genesis, n) == Some(y);
    if m < n {
      AlongStep(c, vout, genesis, m, x);
      AlongPrefix(c, vout, genesis, m + 1, n);
    } else if n < m {
      AlongStep(c, vout, genesis, n, y);
      AlongPrefix(c, vout, genesis, n + 1, m);
    }
  }

  lemma NotBoth(c: Ledger, vout: uint32, genesis: Txid)
    ensures !(RevokedIn(c, vout, genesis) && LiveIn(c, vout, genesis))
  {
    if RevokedIn(c, vout, genesis) && LiveIn(c, vout, genesis) {
      var x :| Reaches(c, vout, genesis, x) && HopFrom(c, vout, x) == Ends;
      var y :| Reaches(c, vout, genesis, y) && HopFrom(c, vout, y) == Unspent;
      OneEnd(c, vout, genesis, x, y);
    }
  }

  // ---- growth keeps what was learned --------------------------------------

  lemma {:induction false} AlongGrows(c: Ledger, c': Ledger, vout: uint32, txid: Txid, n: nat)
    requires Extends(c, c') && Along(c, vout, txid, n).Some?
    ensures Along(c', vout, txid, n) == Along(c, vout, txid, n)
    decreases n
  {
    hide IsTerminal;
    if n > 0 { AlongGrows(c, c', vout, HopFrom(c, vout, txid).next, n - 1); }
  }

  lemma ReachesGrows(c: Ledger, c': Ledger, vout: uint32, genesis: Txid, x: Txid)
    requires Extends(c, c') && Reaches(c, vout, genesis, x)
    ensures Reaches(c', vout, genesis, x)
  {
    var n: nat :| Along(c, vout, genesis, n) == Some(x);
    AlongGrows(c, c', vout, genesis, n);
  }

  lemma RevokedGrows(c: Ledger, c': Ledger, vout: uint32, genesis: Txid)
    requires Extends(c, c') && RevokedIn(c, vout, genesis)
    ensures RevokedIn(c', vout, genesis)
  {
    var x :| Reaches(c, vout, genesis, x) && HopFrom(c, vout, x) == Ends;
    ReachesGrows(c, c', vout, genesis, x);
    assert HopFrom(c', vout, x) == Ends;
  }

  // ---- the walk -----------------------------------------------------------

  /** How a walk ends: with an answer and the tip it was given at, or with an error. */
  datatype WalkEnd = Answer(revoked: bool, tip: Txid) | Failed(code: Code)

  function Walk(src: Source, t: nat, vout: uint32, txid: Txid, hops: nat): WalkEnd
    decreases hops
  {
    if hops == 0 then Failed(EHOPLIMIT) else
    match GetSpending(src(t), txid, vout)
    case Err(code) => Failed(code)
    case Ok(None) => Answer(false, txid)
    case Ok(Some(spender)) =>
      match GetRaw(src(t + 1), spender)
      case Err(code) => Failed(code)
      case Ok(None) => Failed(ENET)
      case Ok(Some(raw)) =>
        if IsTerminal(raw) then Answer(true, txid)
        else Walk(src, t + 2, vout, spender, hops - 1)
  }

  datatype Caches = Caches(revoked: set<Txid>, tips: map<Txid, Txid>)

  /** Where a walk for genesis starts. */
  function Tip(st: Caches, genesis: Txid): Txid {
    if genesis in st.tips then st.tips[genesis] else genesis
  }

  /** One query: a revoked hit answers at once; otherwise walk on from the cached tip. */
  function Query(st: Caches, src: Source, vout: uint32, maxHops: nat, genesis: Txid): (Result<bool>, Caches) {
    if genesis in st.revoked then (Ok(true), st)
    else
      match Walk(src, 0, vout, Tip(st, genesis), maxHops)
      case Failed(code) => (Err(code), st)
      case Answer(false, tip) => (Ok(false), st.(tips := st.tips[genesis := tip]))
      case Answer(true, _) => (Ok(true), Caches(st.revoked + {genesis}, st.tips - {genesis}))
  }

  /** What the caches may claim about a ledger. */
  ghost predicate Sound(st: Caches, c: Ledger, vout: uint32) {
    && (forall g :: g in st.revoked ==> RevokedIn(c, vout, g))
    && (forall g :: g in st.tips ==> Reaches(c, vout, g, st.tips[g]))
  }

  /** Every ledger the source shows is between `first` and `last`, and they only grow. */
  ghost predicate Grows(src: Source, first: Ledger, last: Ledger) {
    && (forall t: nat :: Extends(first, src(t).ledger) && Extends(src(t).ledger, last))
    && (forall t: nat, u: nat :: t <= u ==> Extends(src(t).ledger, src(u).ledger))
  }

  lemma SoundGrows(st: Caches, c: Ledger, c': Ledger, vout: uint32)
    requires Sound(st, c, vout) && Extends(c, c')
    ensures Sound(st, c', vout)
  {
    forall g | g in st.revoked ensures RevokedIn(c', vout, g) { RevokedGrows(c, c', vout, g); }
    forall g | g in st.tips ensures Reaches(c', vout, g, st.tips[g]) { ReachesGrows(c, c', vout, g, st.tips[g]); }
  }

  /** A walk that starts on the path tells the truth about the ledger it ended on. */
  lemma {:induction false} WalkSound(src: Source, t: nat, vout: uint32, genesis: Txid, txid: Txid, hops: nat,
                                     first: Ledger, last: Ledger)
    requires Grows(src, first, last) && Reaches(src(t).ledger, vout, genesis, txid)
    ensures match Walk(src, t, vout, txid, hops)
            case Failed(_) => true
            case Answer(true, _) => RevokedIn(last, vout, genesis)
            case Answer(false, tip) =>
              && Reaches(last, vout, genesis, tip)
              && exists u: nat :: LiveIn(src(u).ledger, vout, genesis)
    decreases hops
  {
    hide IsTerminal, HopFrom, Extends;
    var end := Walk(src, t, vout, txid, hops);
    if hops > 0 && end.Answer? {
      var c := src(t).ledger;
      if Outpoint(txid, vout) !in c.spend {
        ReachesGrows(c, last, vout, genesis, txid);
        UnspentHop(c, vout, txid);
        assert LiveIn(src(t).ledger, vout, genesis);
      } else {
        WalkHop(src, t, vout, genesis, txid, first, last);
        var spender := c.spend[Outpoint(txid, vout)];
        var raw := src(t + 1).ledger.raw[spender];
        if !IsTerminal(raw) {
          ReachesGrows(src(t + 1).ledger, src(t + 2).ledger, vout, genesis, spender);
          WalkSound(src, t + 2, vout, genesis, spender, hops - 1, first, last);
        }
      }
    }
  }

  lemma UnspentHop(c: Ledger, vout: uint32, txid: Txid)
    ensures HopFrom(c, vout, txid) == Unspent <==> Outpoint(txid, vout) !in c.spend
  {
  }

  lemma WalkHop(src: Source, t: nat, vout: uint32, genesis: Txid, txid: Txid, first: Ledger, last: Ledger)
    requires Grows(src, first, last) && Reaches(src(t).ledger, vout, genesis, txid)
    requires Outpoint(txid, vout) in src(t).ledger.spend
    requires src(t).ledger.spend[Outpoint(txid, vout)] in src(t + 1).ledger.raw
    ensures var spender := src(t).ledger.spend[Outpoint(txid, vout)];
            if IsTerminal(src(t + 1).ledger.raw[spender]) then RevokedIn(last, vout, genesis)
            else Reaches(src(t + 1).ledger, vout, genesis, spender)
  {
    var c, c' := src(t).ledger, src(t + 1).ledger;
    ReachesGrows(c, c', vout, genesis, txid);
    if HopFrom(c', vout, txid) == Ends {
      assert RevokedIn(c', vout, genesis);
      RevokedGrows(c', last, vout, genesis);
    } else {
      ReachesNext(c', vout, genesis, txid);
    }
  }

  /** Any answer is the true one for the unbounded path, and the caches stay sound. */
  lemma QuerySound(st: Caches, src: Source, vout: uint32, maxHops: nat, genesis: Txid, first: Ledger, last: Ledger)
    requires Sound(st, first, vout) && Grows(src, first, last)
    ensures var (answer, st') := Query(st, src, vout, maxHops, genesis);
            && Sound(st', last, vout)
            && (answer == Ok(true) ==> RevokedIn(last, vout, genesis))
            && (answer == Ok(false) ==> exists u: nat :: LiveIn(src(u).ledger, vout, genesis))
  {
    hide IsTerminal, HopFrom, Walk;
    var c := src(0).ledger;
    SoundGrows(st, first, c, vout);
    SoundGrows(st, c, last, vout);
    if genesis !in st.revoked {
      assert Along(c, vout, genesis, 0) == Some(genesis);
      WalkSound(src, 0, vout, genesis, Tip(st, genesis), maxHops, first, last);
    }
  }

  // ---- whole runs ---------------------------------------------------------

  datatype Event = Event(src: Source, genesis: Txid)

  /** The caches after a run of queries, each against its own stretch of ledger growth. */
  ghost function Run(events: seq<Event>, vout: uint32, maxHops: nat): Caches {
    if events == [] then Caches({}, map[])
    else
      var last := events[|events| - 1];
      Query(Run(events[..|events| - 1], vout, maxHops), last.src, vout, maxHops, last.genesis).1
  }

  /** Ledgers that mark the run: query i happens while the ledger grows from marks[i] to marks[i + 1]. */
  ghost predicate Marked(events: seq<Event>, marks: seq<Ledger>) {
    && |marks| == |events| + 1
    && (forall i :: 0 <= i < |events| ==> Grows(events[i].src, marks[i], marks[i + 1]))
  }

  lemma {:induction false} RunSound(events: seq<Event>, marks: seq<Ledger>, vout: uint32, maxHops: nat)
    requires Marked(events, marks)
    ensures Sound(Run(events, vout, maxHops), marks[|events|], vout)
  {
    if events != [] {
      hide Query, Sound, Grows;
      var k := |events| - 1;
      RunSound(events[..k], marks[..k + 1], vout, maxHops);
      QuerySound(Run(events[..k], vout, maxHops), events[k].src, vout, maxHops, events[k].genesis, marks[k],
                 marks[k + 1]);
    } else {
      assert Run(events, vout, maxHops) == Caches({}, map[]);
    }
  }

  function Static(c: Ledger): Source {
    t => Moment(c, None)
  }

  lemma {:induction false} WalkStatic(c: Ledger, t: nat, vout: uint32, txid: Txid, hops: nat)
    ensures Walk(Static(c), t, vout, txid, hops) ==
      if hops == 0 then Failed(EHOPLIMIT)
      else match HopFrom(c, vout, txid)
        case Unspent => Answer(false, txid)
        case Unknown => Failed(ENET)
        case Ends => Answer(true, txid)
        case Continues(next) => Walk(Static(c), 0, vout, next, hops - 1)
    decreases hops
  {
    hide IsTerminal;
    if hops > 0 && HopFrom(c, vout, txid).Continues? {
      var next := HopFrom(c, vout, txid).next;
      WalkStatic(c, t + 2, vout, next, hops - 1);
      WalkStatic(c, 0, vout, next, hops - 1);
    }
  }

  /** A walk that finishes passes every point of the path, and could have been resumed there. */
  lemma {:induction false} WalkResumes(c: Ledger, vout: uint32, txid: Txid, n: nat, x: Txid, hops: nat)
    requires Along(c, vout, txid, n) == Some(x) && Walk(Static(c), 0, vout, txid, hops).Answer?
    ensures n < hops && Walk(Static(c), 0, vout, x, hops - n) == Walk(Static(c), 0, vout, txid, hops)
    decreases n
  {
    hide HopFrom, IsTerminal;
    WalkStatic(c, 0, vout, txid, hops);
    if n > 0 { WalkResumes(c, vout, HopFrom(c, vout, txid).next, n - 1, x, hops - 1); }
  }

  lemma {:induction false} WalkMoreHops(c: Ledger, vout: uint32, txid: Txid, hops: nat, more: nat)
    requires hops <= more && Walk(Static(c), 0, vout, txid, hops).Answer?
    ensures Walk(Static(c), 0, vout, txid, more) == Walk(Static(c), 0, vout, txid, hops)
    decreases hops
  {
    hide HopFrom, IsTerminal;
    WalkStatic(c, 0, vout, txid, hops);
    WalkStatic(c, 0, vout, txid, more);
    if hops > 0 && HopFrom(c, vout, txid).Continues? {
      WalkMoreHops(c, vout, HopFrom(c, vout, txid).next, hops - 1, more - 1);
    }
  }

  lemma StaticGrows(c: Ledger)
    ensures Grows(Static(c), c, c)
  {
  }

  /** With sound caches, a query that a fresh walk would answer gets the fresh walk's answer. */
  lemma ResumedAgreesWithFresh(st: Caches, c: Ledger, vout: uint32, maxHops: nat, genesis: Txid)
    requires Sound(st, c, vout) && Walk(Static(c), 0, vout, genesis, maxHops).Answer?
    ensures Query(st, Static(c), vout, maxHops, genesis).0
         == Ok(Walk(Static(c), 0, vout, genesis, maxHops).revoked)
  {
    StaticGrows(c);
    hide HopFrom, Walk, LiveIn, RevokedIn;
    assert Along(c, vout, genesis, 0) == Some(genesis);
    if genesis in st.revoked {
      WalkSound(Static(c), 0, vout, genesis, genesis, maxHops, c, c);
      NotBoth(c, vout, genesis);
    } else if genesis in st.tips {
      var n: nat :| Along(c, vout, genesis, n) == Some(st.tips[genesis]);
      WalkResumes(c, vout, genesis, n, st.tips[genesis], maxHops);
      WalkMoreHops(c, vout, st.tips[genesis], maxHops - n, maxHops);
    }
  }

  /**
   * After any run of queries over any growth of the ledger, with any failures of the source: the next
   * query agrees with a fresh walk from genesis whenever that walk finishes within the hop limit, and
   * whatever it answers is the truth about the unbounded path.
   */
  lemma OracleCorrect(events: seq<Event>, marks: seq<Ledger>, vout: uint32, maxHops: nat, c: Ledger, genesis: Txid)
    requires Marked(events, marks) && Extends(marks[|events|], c)
    ensures var anew := Walk(Static(c), 0, vout, genesis, maxHops);
            var answer := Query(Run(events, vout, maxHops), Static(c), vout, maxHops, genesis).0;
            && (anew.Answer? ==> answer == Ok(anew.revoked))
            && (answer.Ok? ==> (answer.value <==> RevokedIn(c, vout, genesis)))
            && (answer.Ok? ==> (!answer.value <==> LiveIn(c, vout, genesis)))
  {
    var st := Run(events, vout, maxHops);
    RunSound(events, marks, vout, maxHops);
    SoundGrows(st, marks[|events|], c, vout);
    StaticGrows(c);
    QuerySound(st, Static(c), vout, maxHops, genesis, c, c);
    NotBoth(c, vout, genesis);
    hide Walk, Query, Run, RevokedIn, LiveIn, Sound;
    if Walk(Static(c), 0, vout, genesis, maxHops).Answer? {
      ResumedAgreesWithFresh(st, c, vout, maxHops, genesis);
    }
  }

  // ---- what an answer comes from ------------------------------------------

  /** The ordinary revocation: the watched output is spent by a payment to a key hash. */
  lemma PaymentRevokes(st: Caches, c: Ledger, vout: uint32, maxHops: nat, genesis: Txid, spender: Txid, t: Tx,
                       hash: Bytes)
    requires Outpoint(genesis, vout) in c.spend && c.spend[Outpoint(genesis, vout)] == spender
    requires spender in c.raw && c.raw[spender] == Serialize(t)
    requires t.outputs != [] && PaysToHash(t.outputs[0].script, hash)
    requires Tip(st, genesis) == genesis && maxHops >= 1
    ensures RevokedIn(c, vout, genesis)
    ensures var (answer, st') := Query(st, Static(c), vout, maxHops, genesis);
            answer == Ok(true) && genesis in st'.revoked
  {
    TerminalExactly(t);
    hide Serialize, PaysToHash, IsTerminal;
    assert HopFrom(c, vout, genesis) == Ends;
    WalkStatic(c, 0, vout, genesis, maxHops);
    hide Walk, HopFrom;
    assert Along(c, vout, genesis, 0) == Some(genesis);
    assert Reaches(c, vout, genesis, genesis);
  }

  /** A failure of the source, at either call of a hop, is passed on, and nothing is remembered. */
  lemma FaultPassedOn(st: Caches, src: Source, vout: uint32, maxHops: nat, genesis: Txid, code: Code)
    requires genesis !in st.revoked && maxHops >= 1
    requires || src(0).fault == Some(code)
             || (src(0).fault.None? && Outpoint(Tip(st, genesis), vout) in src(0).ledger.spend
                 && src(1).fault == Some(code))
    ensures Query(st, src, vout, maxHops, genesis) == (Err(code), st)
  {
    hide IsTerminal;
  }

  /** A revoked identity is answered from the cache, whatever the source does. */
  lemma CachedRevocation(st: Caches, src: Source, vout: uint32, maxHops: nat, genesis: Txid)
    requires genesis in st.revoked
    ensures Query(st, src, vout, maxHops, genesis) == (Ok(true), st)
  {
  }

  /** What a query leaves in the caches: a revocation, the unspent end of the path, or nothing new. */
  lemma QueryRemembers(st: Caches, c: Ledger, vout: uint32, maxHops: nat, genesis: Txid, other: Txid)
    requires genesis !in st.revoked
    ensures var (answer, st') := Query(st, Static(c), vout, maxHops, genesis);
            && (answer == Ok(true) ==> genesis in st'.revoked && genesis !in st'.tips)
            && (answer == Ok(false) ==>
                  && genesis !in st'.revoked && genesis in st'.tips
                  && HopFrom(c, vout, st'.tips[genesis]) == Unspent
                  && Reaches(c, vout, Tip(st, genesis), st'.tips[genesis]))
            && (answer.Err? ==> st' == st)
            && (other != genesis ==>
                  && (other in st'.revoked <==> other in st.revoked)
                  && (other in st'.tips <==> other in st.tips)
                  && Tip(st', other) == Tip(st, other))
  {
    WalkEndsUnspent(c, vout, Tip(st, genesis), maxHops);
    hide Walk, HopFrom, Reaches;
  }

  lemma {:induction false} WalkEndsUnspent(c: Ledger, vout: uint32, txid: Txid, hops: nat)
    ensures var end := Walk(Static(c), 0, vout, txid, hops);
            end.Answer? && !end.revoked ==> HopFrom(c, vout, end.tip) == Unspent && Reaches(c, vout, txid, end.tip)
    decreases hops
  {
    hide HopFrom, IsTerminal;
    WalkStatic(c, 0, vout, txid, hops);
    assert Along(c, vout, txid, 0) == Some(txid);
    if hops > 0 && HopFrom(c, vout, txid).Continues? {
      var next := HopFrom(c, vout, txid).next;
      WalkEndsUnspent(c, vout, next, hops - 1);
      var end := Walk(Static(c), 0, vout, txid, hops);
      if end.Answer? && !end.revoked { ReachesFromNext(c, vout, txid, end.tip); }
    }
  }

  // ---- when there is no answer --------------------------------------------

  /** The path from txid comes to an answer after n hops. */
  ghost predicate StopsAt(c: Ledger, vout: uint32, txid: Txid, n: nat) {
    match Along(c, vout, txid, n)
    case None => false
    case Some(x) => HopFrom(c, vout, x).Unspent? || HopFrom(c, vout, x).Ends?
  }

  ghost predicate EndsWithin(c: Ledger, vout: uint32, txid: Txid, hops: nat) {
    exists n: nat :: n < hops && StopsAt(c, vout, txid, n)
  }

  lemma EndsWithinStep(c: Ledger, vout: uint32, txid: Txid, hops: nat)
    requires hops > 0
    ensures EndsWithin(c, vout, txid, hops) <==>
            match HopFrom(c, vout, txid)
            case Continues(next) => EndsWithin(c, vout, next, hops - 1)
            case Unknown => false
            case _ => true
  {
    hide HopFrom;
    match HopFrom(c, vout, txid) {
      case Continues(next) =>
        assert forall n: nat :: StopsAt(c, vout, txid, n + 1) <==> StopsAt(c, vout, next, n);
        assert !StopsAt(c, vout, txid, 0);
        if EndsWithin(c, vout, txid, hops) {
          var n: nat :| n < hops && StopsAt(c, vout, txid, n);
          assert StopsAt(c, vout, next, n - 1);
        }
        if EndsWithin(c, vout, next, hops - 1) {
          var n: nat :| n < hops - 1 && StopsAt(c, vout, next, n);
          assert StopsAt(c, vout, txid, n + 1);
        }
      case Unknown =>
        assert forall n: nat :: !StopsAt(c, vout, txid, n);
      case _ =>
        assert StopsAt(c, vout, txid, 0);
    }
  }

  /** A walk answers exactly when its path ends in time, and hits the limit exactly when its path is that long. */
  lemma {:induction false} WalkAnswersIff(c: Ledger, vout: uint32, txid: Txid, hops: nat)
    ensures Walk(Static(c), 0, vout, txid, hops).Answer? <==> EndsWithin(c, vout, txid, hops)
    ensures Walk(Static(c), 0, vout, txid, hops) == Failed(EHOPLIMIT) <==> Along(c, vout, txid, hops).Some?
    ensures var end := Walk(Static(c), 0, vout, txid, hops); end.Failed? ==> end.code in {EHOPLIMIT, ENET}
    decreases hops
  {
    hide HopFrom, IsTerminal, EndsWithin;
    WalkStatic(c, 0, vout, txid, hops);
    if hops == 0 {
      NothingWithinZero(c, vout, txid);
    } else {
      EndsWithinStep(c, vout, txid, hops);
      if HopFrom(c, vout, txid).Continues? { WalkAnswersIff(c, vout, HopFrom(c, vout, txid).next, hops - 1); }
    }
  }

  lemma NothingWithinZero(c: Ledger, vout: uint32, txid: Txid)
    ensures !EndsWithin(c, vout, txid, 0)
  {
  }

  /** Exactly when a query answers, and exactly when it gives up at the hop limit. */
  lemma QueryAnswersIff(st: Caches, c: Ledger, vout: uint32, maxHops: nat, genesis: Txid)
    ensures var answer := Query(st, Static(c), vout, maxHops, genesis).0;
            && (answer.Ok? <==> genesis in st.revoked || EndsWithin(c, vout, Tip(st, genesis), maxHops))
            && (answer == Err(EHOPLIMIT) <==> genesis !in st.revoked && Along(c, vout, Tip(st, genesis), maxHops).Some?)
            && (answer.Err? && answer != Err(EHOPLIMIT) ==> answer == Err(ENET))
  {
    hide Walk, Along, EndsWithin;
    WalkAnswersIff(c, vout, Tip(st, genesis), maxHops);
  }

  /** A live identity's path ends within the limit from every point of it that the limit does not fall short of. */
  lemma LiveEndsWithin(c: Ledger, vout: uint32, genesis: Txid, tip: Txid, hops: nat)
    requires Reaches(c, vout, genesis, tip) && LiveIn(c, vout, genesis) && Along(c, vout, tip, hops).None?
    ensures EndsWithin(c, vout, tip, hops)
  {
    hide HopFrom;
    var x :| Reaches(c, vout, genesis, x) && HopFrom(c, vout, x) == Unspent;
    var m: nat :| Along(c, vout, genesis, m) == Some(x);
    var n: nat :| Along(c, vout, genesis, n) == Some(tip);
    if m < n {
      AlongStep(c, vout, genesis, m, x);
      AlongPrefix(c, vout, genesis, m + 1, n);
    } else {
      AlongPrefix(c, vout, genesis, n, m);
      if hops <= m - n { AlongPrefix(c, vout, tip, hops, m - n); }
      assert StopsAt(c, vout, tip, m - n);
    }
  }

  /** With sound caches the answer is "live" exactly when the identity is and the path past the tip is short enough. */
  lemma LiveAnswerIff(st: Caches, c: Ledger, vout: uint32, maxHops: nat, genesis: Txid)
    requires Sound(st, c, vout)
    ensures Query(st, Static(c), vout, maxHops, genesis).0 == Ok(false) <==>
            LiveIn(c, vout, genesis) && Along(c, vout, Tip(st, genesis), maxHops).None?
  {
    StaticGrows(c);
    QuerySound(st, Static(c), vout, maxHops, genesis, c, c);
    QueryAnswersIff(st, c, vout, maxHops, genesis);
    NotBoth(c, vout, genesis);
    assert Along(c, vout, genesis, 0) == Some(genesis);
    assert Reaches(c, vout, genesis, Tip(st, genesis));
    hide Walk, RevokedIn, LiveIn, Along, EndsWithin, Reaches;
    if LiveIn(c, vout, genesis) && Along(c, vout, Tip(st, genesis), maxHops).None? {
      LiveEndsWithin(c, vout, genesis, Tip(st, genesis), maxHops);
    }
  }

  /** Past the cached tip the path is at least maxHops long. */
  ghost predicate Stuck(st: Caches, c: Ledger, vout: uint32, maxHops: nat, genesis: Txid) {
    genesis !in st.revoked && Along(c, vout, Tip(st, genesis), maxHops).Some?
  }

  /** Growth does not shorten a path, so a walk that was too short stays too short. */
  lemma {:induction false} WalkStuck(src: Source, t: nat, vout: uint32, txid: Txid, hops: nat, first: Ledger,
                                     last: Ledger)
    requires Grows(src, first, last) && Along(first, vout, txid, hops).Some?
    ensures Walk(src, t, vout, txid, hops).Failed?
    ensures (forall u: nat :: src(u).fault.None?) ==> Walk(src, t, vout, txid, hops) == Failed(EHOPLIMIT)
    decreases hops
  {
    hide IsTerminal;
    if hops > 0 {
      var next := HopFrom(first, vout, txid).next;
      assert Extends(first, src(t).ledger) && Extends(first, src(t + 1).ledger);
      WalkStuck(src, t + 2, vout, next, hops - 1, first, last);
    }
  }

  /** No progress is saved: the query fails, changes nothing, and will fail again. */
  lemma QueryStuck(st: Caches, src: Source, vout: uint32, maxHops: nat, genesis: Txid, first: Ledger, last: Ledger)
    requires Grows(src, first, last) && Stuck(st, first, vout, maxHops, genesis)
    ensures var (answer, st') := Query(st, src, vout, maxHops, genesis);
            && answer.Err? && st' == st
            && ((forall u: nat :: src(u).fault.None?) ==> answer == Err(EHOPLIMIT))
  {
    hide Walk, Along, Grows;
    WalkStuck(src, 0, vout, Tip(st, genesis), maxHops, first, last);
  }

  lemma StuckStep(st: Caches, src: Source, vout: uint32, maxHops: nat, genesis: Txid, asked: Txid, first: Ledger,
                  last: Ledger)
    requires Grows(src, first, last) && Stuck(st, first, vout, maxHops, genesis)
    ensures Stuck(Query(st, src, vout, maxHops, asked).1, last, vout, maxHops, genesis)
  {
    assert Extends(first, last) by { assert Extends(first, src(0).ledger) && Extends(src(0).ledger, last); }
    AlongGrows(first, last, vout, Tip(st, genesis), maxHops);
    hide Along, Walk, Grows, Extends;
    if asked == genesis { QueryStuck(st, src, vout, maxHops, genesis, first, last); }
  }

  /**
   * In every run: once the path past the cached tip is at least maxHops long, no later query about that
   * identity is ever answered, however the ledger grows and whatever else is asked in between.
   */
  lemma {:induction false} StuckForever(events: seq<Event>, marks: seq<Ledger>, vout: uint32, maxHops: nat,
                                        genesis: Txid, k: nat, n: nat)
    requires Marked(events, marks) && k <= n <= |events|
    requires Stuck(Run(events[..k], vout, maxHops), marks[k], vout, maxHops, genesis)
    ensures Stuck(Run(events[..n], vout, maxHops), marks[n], vout, maxHops, genesis)
    ensures n < |events| && events[n].genesis == genesis ==>
      Query(Run(events[..n], vout, maxHops), events[n].src, vout, maxHops, genesis).0.Err?
    decreases n
  {
    hide Query, Stuck, Grows;
    if k < n {
      StuckForever(events, marks, vout, maxHops, genesis, k, n - 1);
      assert events[..n][..n - 1] == events[..n - 1] && events[..n][n - 1] == events[n - 1];
      StuckStep(Run(events[..n - 1], vout, maxHops), events[n - 1].src, vout, maxHops, genesis,
                events[n - 1].genesis, marks[n - 1], marks[n - 1 + 1]);
    }
    if n < |events| && events[n].genesis == genesis {
      QueryStuck(Run(events[..n], vout, maxHops), events[n].src, vout, maxHops, genesis, marks[n], marks[n + 1]);
    }
  }

  // ---- an identity that is never answered ---------------------------------

  /** Transactions 0 to last in a row; nothing spends the last one. */
  function LongLedger(last: nat): Ledger
    requires last < Pow(256, 32)
  {
    IdsDistinct(last);
    Ledger(map i | 0 <= i < last :: Outpoint(Id(i), 0) := Id(i + 1),
           map i | 0 < i <= last :: Id(i) := Serialize(Link(i, [])))
  }

  lemma LongSpend(last: nat, i: nat)
    requires i <= last < Pow(256, 32)
    ensures var c := LongLedger(last); var p := Outpoint(Id(i), 0);
            && (p in c.spend <==> i < last)
            && (i < last ==> c.spend[p] == Id(i + 1) && Id(i + 1) in c.raw)
            && (i < last ==> c.raw[Id(i + 1)] == Serialize(Link(i + 1, [])))
  {
    hide Id, Pow, Serialize, Link;
    IdsDistinct(last);
  }

  lemma LongHop(last: nat, i: nat)
    requires i <= last < Pow(256, 32)
    ensures HopFrom(LongLedger(last), 0, Id(i)) == if i < last then Continues(Id(i + 1)) else Unspent
  {
    hide *;
    LongSpend(last, i);
    UnspentHop(LongLedger(last), 0, Id(i));
    if i < last {
      LinkReads(i + 1, []);
      ContinuingHop(LongLedger(last), 0, Id(i));
    }
  }

  lemma ContinuingHop(c: Ledger, vout: uint32, txid: Txid)
    requires Outpoint(txid, vout) in c.spend && c.spend[Outpoint(txid, vout)] in c.raw
    requires !IsTerminal(c.raw[c.spend[Outpoint(txid, vout)]])
    ensures HopFrom(c, vout, txid) == Continues(c.spend[Outpoint(txid, vout)])
  {
    hide IsTerminal;
  }

  lemma {:induction false} LongAlong(last: nat, i: nat, n: nat)
    requires i + n <= last < Pow(256, 32)
    ensures Along(LongLedger(last), 0, Id(i), n) == Some(Id(i + n))
    decreases n
  {
    hide LongLedger, Id, Pow, HopFrom;
    if n > 0 {
      LongHop(last, i);
      LongAlong(last, i + 1, n - 1);
    }
  }

  /** For every limit: a live identity whose query gives up and, with StuckForever, always will. */
  lemma StuckHappens(maxHops: nat)
    requires maxHops < Pow(256, 32)
    ensures var c, st := LongLedger(maxHops), Caches({}, map[]);
            && LiveIn(c, 0, Id(0))
            && Stuck(st, c, 0, maxHops, Id(0))
            && Query(st, Static(c), 0, maxHops, Id(0)) == (Err(EHOPLIMIT), st)
  {
    hide LongLedger, Id, Pow, HopFrom, Along, Query;
    var c, st := LongLedger(maxHops), Caches({}, map[]);
    LongAlong(maxHops, 0, maxHops);
    LongHop(maxHops, maxHops);
    assert Reaches(c, 0, Id(0), Id(maxHops));
    StaticGrows(c);
    QueryStuck(st, Static(c), 0, maxHops, Id(0), c, c);
  }

  lemma StuckAtDefault()
    ensures DEFAULT_MAX_HOPS < Pow(256, 32)
    ensures var c, st := LongLedger(DEFAULT_MAX_HOPS), Caches({}, map[]);
            && LiveIn(c, DEFAULT_VOUT, Id(0))
            && Query(st, Static(c), DEFAULT_VOUT, DEFAULT_MAX_HOPS, Id(0)) == (Err(EHOPLIMIT), st)
  {
    RoomForIds();
    hide LongLedger, Id, Pow, LiveIn, Query;
    StuckHappens(DEFAULT_MAX_HOPS);
  }

  // ---- the identity itself lives at output 0 ------------------------------

  /** Whatever output it starts at, the identity is recreated at output 0. */
  ghost predicate IdentityRevoked(c: Ledger, vout: uint32, genesis: Txid) {
    match HopFrom(c, vout, genesis)
    case Ends => true
    case Continues(next) => RevokedIn(c, 0, next)
    case _ => false
  }

  ghost predicate IdentityLive(c: Ledger, vout: uint32, genesis: Txid) {
    match HopFrom(c, vout, genesis)
    case Unspent => true
    case Continues(next) => LiveIn(c, 0, next)
    case _ => false
  }

  lemma IdentityNotBoth(c: Ledger, vout: uint32, genesis: Txid)
    ensures !(IdentityRevoked(c, vout, genesis) && IdentityLive(c, vout, genesis))
  {
    hide HopFrom, RevokedIn, LiveIn;
    if HopFrom(c, vout, genesis).Continues? { NotBoth(c, 0, HopFrom(c, vout, genesis).next); }
  }

  lemma HopGrows(c: Ledger, c': Ledger, vout: uint32, txid: Txid)
    requires Extends(c, c')
    ensures var hop := HopFrom(c, vout, txid); hop.Ends? || hop.Continues? ==> HopFrom(c', vout, txid) == hop
  {
    hide IsTerminal;
  }

  lemma IdentityRevokedGrows(c: Ledger, c': Ledger, vout: uint32, genesis: Txid)
    requires Extends(c, c') && IdentityRevoked(c, vout, genesis)
    ensures IdentityRevoked(c', vout, genesis)
  {
    HopGrows(c, c', vout, genesis);
    hide HopFrom, Extends, RevokedIn;
    if HopFrom(c, vout, genesis).Continues? { RevokedGrows(c, c', 0, HopFrom(c, vout, genesis).next); }
  }

  lemma ReachesFromNext(c: Ledger, vout: uint32, genesis: Txid, x: Txid)
    requires HopFrom(c, vout, genesis).Continues?
    ensures Reaches(c, vout, genesis, x) <==> x == genesis || Reaches(c, vout, HopFrom(c, vout, genesis).next, x)
  {
    hide HopFrom;
    var next := HopFrom(c, vout, genesis).next;
    assert Along(c, vout, genesis, 0) == Some(genesis);
    if Reaches(c, vout, genesis, x) {
      var n: nat :| Along(c, vout, genesis, n) == Some(x);
      assert n > 0 ==> Along(c, vout, next, n - 1) == Some(x);
    }
    if Reaches(c, vout, next, x) {
      var n: nat :| Along(c, vout, next, n) == Some(x);
      assert Along(c, vout, genesis, n + 1) == Some(x);
    }
  }

  lemma ReachesOnlyItself(c: Ledger, vout: uint32, genesis: Txid, x: Txid)
    requires !HopFrom(c, vout, genesis).Continues?
    ensures Reaches(c, vout, genesis, x) <==> x == genesis
  {
    hide HopFrom;
    assert Along(c, vout, genesis, 0) == Some(genesis);
  }

  /** At output 0 the path of that output is the identity's path. */
  lemma IdentityAtZero(c: Ledger, genesis: Txid)
    ensures IdentityRevoked(c, 0, genesis) <==> RevokedIn(c, 0, genesis)
    ensures IdentityLive(c, 0, genesis) <==> LiveIn(c, 0, genesis)
  {
    hide HopFrom, Reaches;
    if HopFrom(c, 0, genesis).Continues? {
      forall x ensures Reaches(c, 0, genesis, x) <==> x == genesis || Reaches(c, 0, HopFrom(c, 0, genesis).next, x) {
        ReachesFromNext(c, 0, genesis, x);
      }
    } else {
      forall x ensures Reaches(c, 0, genesis, x) <==> x == genesis { ReachesOnlyItself(c, 0, genesis, x); }
    }
  }

  /** What caches hold that only ever saw walks of one hop. */
  ghost predicate Near(st: Caches, c: Ledger, vout: uint32) {
    && (forall g :: g in st.revoked ==> HopFrom(c, vout, g) == Ends)
    && (forall g :: g in st.tips ==> st.tips[g] == g)
  }

  lemma QueryNear(st: Caches, src: Source, vout: uint32, maxHops: nat, genesis: Txid, first: Ledger, last: Ledger)
    requires maxHops <= 1 && Near(st, first, vout) && Grows(src, first, last)
    ensures var (answer, st') := Query(st, src, vout, maxHops, genesis);
            && Near(st', last, vout)
            && (answer == Ok(true) ==> HopFrom(last, vout, genesis) == Ends)
            && (answer == Ok(false) ==> HopFrom(src(0).ledger, vout, genesis) == Unspent)
  {
    hide IsTerminal;
    var c, c' := src(0).ledger, src(1).ledger;
    assert Extends(first, c) && Extends(c, c') && Extends(c', last);
    forall g | g in st.revoked ensures HopFrom(last, vout, g) == Ends {
      HopGrows(first, c, vout, g);
      HopGrows(c, last, vout, g);
    }
    if maxHops == 1 { OneHopWalk(src, vout, genesis, last); }
    hide Walk, HopFrom;
  }

  lemma OneHopWalk(src: Source, vout: uint32, txid: Txid, last: Ledger)
    requires Extends(src(0).ledger, src(1).ledger) && Extends(src(1).ledger, last)
    ensures match Walk(src, 0, vout, txid, 1)
            case Failed(_) => true
            case Answer(true, tip) => tip == txid && HopFrom(last, vout, txid) == Ends
            case Answer(false, tip) => tip == txid && HopFrom(src(0).ledger, vout, txid) == Unspent
  {
    hide IsTerminal;
  }

  /** Whether an answer, if there is one, is true of the identity. */
  ghost predicate TrueAnswer(answer: Result<bool>, c: Ledger, vout: uint32, genesis: Txid) {
    match answer
    case Err(_) => true
    case Ok(revoked) =>
      (revoked <==> IdentityRevoked(c, vout, genesis)) && (!revoked <==> IdentityLive(c, vout, genesis))
  }

  lemma {:induction false} RunNear(events: seq<Event>, marks: seq<Ledger>, vout: uint32, maxHops: nat)
    requires maxHops <= 1 && Marked(events, marks)
    ensures Near(Run(events, vout, maxHops), marks[|events|], vout)
  {
    if events != [] {
      hide Query, Near, Grows;
      var k := |events| - 1;
      RunNear(events[..k], marks[..k + 1], vout, maxHops);
      var st := Run(events[..k], vout, maxHops);
      QueryNear(st, events[k].src, vout, maxHops, events[k].genesis, marks[k], marks[k + 1]);
    }
  }

  lemma NearGrows(st: Caches, c: Ledger, c': Ledger, vout: uint32)
    requires Near(st, c, vout) && Extends(c, c')
    ensures Near(st, c', vout)
  {
    hide HopFrom, Extends;
    forall g | g in st.revoked ensures HopFrom(c', vout, g) == Ends { HopGrows(c, c', vout, g); }
  }

  /** Watching output 0, or never looking past the first hop, every answer is true of the identity. */
  lemma AnswersTrue(events: seq<Event>, marks: seq<Ledger>, vout: uint32, maxHops: nat, c: Ledger, genesis: Txid)
    requires Marked(events, marks) && Extends(marks[|events|], c) && (vout == 0 || maxHops <= 1)
    ensures TrueAnswer(Query(Run(events, vout, maxHops), Static(c), vout, maxHops, genesis).0, c, vout, genesis)
  {
    IdentityNotBoth(c, vout, genesis);
    if vout == 0 {
      hide *;
      OracleCorrect(events, marks, vout, maxHops, c, genesis);
      IdentityAtZero(c, genesis);
      TrueAnswerIs(Query(Run(events, vout, maxHops), Static(c), vout, maxHops, genesis).0, c, vout, genesis);
    } else {
      var st := Run(events, vout, maxHops);
      RunNear(events, marks, vout, maxHops);
      NearGrows(st, marks[|events|], c, vout);
      StaticGrows(c);
      QueryNear(st, Static(c), vout, maxHops, genesis, c, c);
      hide Query, Run, Near, HopFrom, Marked, Extends, Grows;
    }
  }

  lemma TrueAnswerIs(answer: Result<bool>, c: Ledger, vout: uint32, genesis: Txid)
    requires answer.Ok? ==> (answer.value <==> IdentityRevoked(c, vout, genesis))
    requires answer.Ok? ==> (!answer.value <==> IdentityLive(c, vout, genesis))
    ensures TrueAnswer(answer, c, vout, genesis)
  {
    hide IdentityRevoked, IdentityLive;
  }

  /** An identity that `next` recreates at output 0 and `end` ends there. */
  datatype Ended = Ended(genesis: Txid, next: Txid, end: Txid, opening: Bytes, closing: Bytes)

  ghost predicate IsEnded(e: Ended) {
    e.genesis != e.next && e.next != e.end && !IsTerminal(e.opening) && IsTerminal(e.closing)
  }

  function EndedAtZero(e: Ended, vout: uint32): Ledger {
    Ledger(map[Outpoint(e.genesis, vout) := e.next, Outpoint(e.next, 0) := e.end],
           map[e.next := e.opening, e.end := e.closing])
  }

  lemma SomeEnded() returns (e: Ended)
    ensures IsEnded(e)
  {
    hide Id, Pow, Serialize, Link, Closing, IsTerminal;
    RoomForIds();
    IdsDistinct(2);
    LinkReads(1, []);
    ClosingReads(2);
    e := Ended(Id(0), Id(1), Id(2), Serialize(Link(1, [])), Serialize(Closing(2)));
  }

  lemma EndedHops(e: Ended, vout: uint32)
    requires IsEnded(e) && vout != 0
    ensures var c := EndedAtZero(e, vout);
            && HopFrom(c, vout, e.genesis) == Continues(e.next)
            && HopFrom(c, 0, e.next) == Ends
            && HopFrom(c, vout, e.next) == Unspent
  {
    hide IsTerminal;
  }

  /** The walk stays on output vout, finds it unspent, and says live of a revoked identity. */
  lemma EndedButLive(e: Ended, vout: uint32, maxHops: nat)
    requires IsEnded(e) && vout != 0 && maxHops >= 2
    ensures var c := EndedAtZero(e, vout);
            && IdentityRevoked(c, vout, e.genesis)
            && Query(Caches({}, map[]), Static(c), vout, maxHops, e.genesis).0 == Ok(false)
  {
    var c := EndedAtZero(e, vout);
    EndedHops(e, vout);
    WalkStatic(c, 0, vout, e.genesis, maxHops);
    WalkStatic(c, 0, vout, e.next, maxHops - 1);
    hide EndedAtZero, HopFrom, Walk;
    assert Along(c, 0, e.next, 0) == Some(e.next);
    assert Reaches(c, 0, e.next, e.next);
  }

  /** Whether the next query after a run, if it answers, answers truly. */
  ghost predicate NextIsTrue(events: seq<Event>, c: Ledger, vout: uint32, maxHops: nat, genesis: Txid) {
    TrueAnswer(Query(Run(events, vout, maxHops), Static(c), vout, maxHops, genesis).0, c, vout, genesis)
  }

  ghost predicate LeadsTo(events: seq<Event>, marks: seq<Ledger>, c: Ledger) {
    Marked(events, marks) && Extends(marks[|events|], c)
  }

  /**
   * Over every run of queries, growth and failures the answers are true of the identity exactly when
   * the oracle watches output 0, or never gets past the first hop.
   */
  lemma OracleTrueIff(vout: uint32, maxHops: nat)
    ensures (forall events: seq<Event>, marks: seq<Ledger>, c: Ledger, genesis: Txid ::
               LeadsTo(events, marks, c) ==> NextIsTrue(events, c, vout, maxHops, genesis))
            <==> vout == 0 || maxHops <= 1
  {
    hide Marked, Extends, Run, Query, TrueAnswer;
    if vout == 0 || maxHops <= 1 {
      forall events: seq<Event>, marks: seq<Ledger>, c: Ledger, genesis: Txid | LeadsTo(events, marks, c)
        ensures NextIsTrue(events, c, vout, maxHops, genesis)
      {
        AnswersTrue(events, marks, vout, maxHops, c, genesis);
      }
    } else {
      var e := SomeEnded();
      EndedRun(e, vout, maxHops);
      hide LeadsTo, NextIsTrue;
    }
  }

  lemma EndedRun(e: Ended, vout: uint32, maxHops: nat)
    requires IsEnded(e) && vout != 0 && maxHops >= 2
    ensures var c := EndedAtZero(e, vout);
            LeadsTo([], [c], c) && !NextIsTrue([], c, vout, maxHops, e.genesis)
  {
    EndedButLive(e, vout, maxHops);
    hide EndedAtZero, Query, IdentityRevoked, IdentityLive;
  }

  // ---- the handle ---------------------------------------------------------

  class Oracle {
    const identityVout: uint32
    const maxHops: nat
    var revoked: seq<Txid>
    var liveTips: seq<(Txid, Txid)>

    ghost predicate Valid()
      reads this
    {
      Distinct(liveTips)
    }

    ghost function Tips(): map<Txid, Txid>
      reads this
    {
      ToMap(liveTips)
    }

    ghost function Model(): Caches
      reads this
    {
      Caches((set g | g in revoked), Tips())
    }

    constructor (vout: Option<uint32>, hops: Option<nat>)
      ensures Valid() && Model() == Caches({}, map[])
      ensures identityVout == if vout.Some? then vout.value else 0
      ensures maxHops == if hops.Some? then hops.value else 100_000
    {
      identityVout := if vout.Some? then vout.value else DEFAULT_VOUT;
      maxHops := if hops.Some? then hops.value else DEFAULT_MAX_HOPS;
      revoked := [];
      liveTips := [];
    }

    method RevokedHas(genesis: Txid) returns (has: bool)
      ensures has <==> genesis in revoked
    {
      for i := 0 to |revoked|
        invariant genesis !in revoked[..i]
      {
        if revoked[i] == genesis { return true; }
      }
      return false;
    }

    method RevokedAdd(genesis: Txid)
      modifies this`revoked
      ensures revoked == if genesis in old(revoked) then old(revoked) else old(revoked) + [genesis]
    {
      var has := RevokedHas(genesis);
      if !has { revoked := revoked + [genesis]; }
    }

    method LiveTipFind(genesis: Txid) returns (at: Option<nat>)
      ensures at.None? ==> forall i :: 0 <= i < |liveTips| ==> liveTips[i].0 != genesis
      ensures at.Some? ==> at.value < |liveTips| && liveTips[at.value].0 == genesis
    {
      for i := 0 to |liveTips|
        invariant forall j :: 0 <= j < i ==> liveTips[j].0 != genesis
      {
        if liveTips[i].0 == genesis { return Some(i); }
      }
      return None;
    }

    method LiveTipSet(genesis: Txid, tip: Txid)
      requires Valid()
      modifies this`liveTips
      ensures Valid() && Tips() == old(Tips())[genesis := tip]
    {
      ghost var was := liveTips;
      var at := LiveTipFind(genesis);
      if at.Some? {
        liveTips := liveTips[at.value := (genesis, tip)];
      } else {
        liveTips := liveTips + [(genesis, tip)];
      }
      ToMapUpdate(was, liveTips, genesis, tip, at);
    }

    method LiveTipDelete(genesis: Txid)
      requires Valid()
      modifies this`liveTips
      ensures Valid() && Tips() == old(Tips()) - {genesis}
    {
      ghost var was := liveTips;
      var at := LiveTipFind(genesis);
      if at.Some? {
        liveTips := liveTips[at.value := liveTips[|liveTips| - 1]][..|liveTips| - 1];
      }
      ToMapDelete(was, liveTips, genesis, at);
    }

    /** The walk with its caches around it: exactly one step of the query specification. */
    method IsRevoked(src: Source, genesis: Txid) returns (answer: Result<bool>)
      requires Valid()
      modifies this
      ensures Valid()
      ensures (answer, Model()) == Query(old(Model()), src, identityVout, maxHops, genesis)
    {
      hide ToMap, Walk;
      var hit := RevokedHas(genesis);
      if hit { return Ok(true); }
      var resume := LiveTipFind(genesis);
      ToMapLookup(liveTips, genesis, resume);
      var end := WalkLoop(src, identityVout, if resume.Some? then liveTips[resume.value].1 else genesis, maxHops);
      match end {
        case Failed(code) =>
          return Err(code);
        case Answer(false, tip) =>
          LiveTipSet(genesis, tip);
          return Ok(false);
        case Answer(true, _) =>
          RevokedAdd(genesis);
          LiveTipDelete(genesis);
          assert (set g | g in revoked) == (set g | g in old(revoked)) + {genesis};
          return Ok(true);
      }
    }
  }

  method WalkLoop(src: Source, vout: uint32, start: Txid, maxHops: nat) returns (end: WalkEnd)
    ensures end == Walk(src, 0, vout, start, maxHops)
  {
    hide IsTerminal;
    var txid: Txid := start;
    for hops := 0 to maxHops
      invariant Walk(src, 2 * hops, vout, txid, maxHops - hops) == Walk(src, 0, vout, start, maxHops)
    {
      var spender: Result<Option<Txid>> := GetSpending(src(2 * hops), txid, vout);
      if spender.Err? { return Failed(spender.code); }
      if spender.value.None? { return Answer(false, txid); }
      var raw := GetRaw(src(2 * hops + 1), spender.value.value);
      if raw.Err? { return Failed(raw.code); }
      if raw.value.None? { return Failed(ENET); }
      if IsTerminal(raw.value.value) { return Answer(true, txid); }
      txid := spender.value.value;
    }
    return Failed(EHOPLIMIT);
  }

  /** The map an association list with distinct keys stands for. */
  ghost function ToMap(l: seq<(Txid, Txid)>): map<Txid, Txid> {
    map g | g in Keys(l) :: Lookup(l, g)
  }

  ghost function Keys(l: seq<(Txid, Txid)>): set<Txid> {
    set i | 0 <= i < |l| :: l[i].0
  }

  ghost function Lookup(l: seq<(Txid, Txid)>, g: Txid): (tip: Txid)
    requires g in Keys(l)
    ensures exists i :: 0 <= i < |l| && l[i] == (g, tip)
  {
    var i :| 0 <= i < |l| && l[i].0 == g;
    l[i].1
  }

  ghost predicate HasKey(l: seq<(Txid, Txid)>, g: Txid) {
    exists i :: 0 <= i < |l| && l[i].0 == g
  }

  ghost predicate Distinct(l: seq<(Txid, Txid)>) {
    forall i, j :: 0 <= i < j < |l| ==> l[i].0 != l[j].0
  }

  /** With distinct keys, an entry is what the map holds. */
  lemma LookupEntry(l: seq<(Txid, Txid)>, i: nat)
    requires Distinct(l) && i < |l|
    ensures l[i].0 in Keys(l) && Lookup(l, l[i].0) == l[i].1
  {
  }

  lemma ToMapLookup(l: seq<(Txid, Txid)>, g: Txid, at: Option<nat>)
    requires Distinct(l)
    requires at.None? ==> forall i :: 0 <= i < |l| ==> l[i].0 != g
    requires at.Some? ==> at.value < |l| && l[at.value].0 == g
    ensures g in ToMap(l) <==> at.Some?
    ensures at.Some? ==> ToMap(l)[g] == l[at.value].1
  {
    if at.Some? { LookupEntry(l, at.value); }
  }

  /** A map is determined by its entries. */
  lemma ToMapIs(l: seq<(Txid, Txid)>, m: map<Txid, Txid>)
    requires Distinct(l)
    requires forall i :: 0 <= i < |l| ==> l[i].0 in m && m[l[i].0] == l[i].1
    requires forall g :: g in m ==> HasKey(l, g)
    ensures ToMap(l) == m
  {
    forall g | g in m ensures g in ToMap(l) && ToMap(l)[g] == m[g] {
      var i :| 0 <= i < |l| && l[i].0 == g;
      LookupEntry(l, i);
    }
    forall g | g in ToMap(l) ensures g in m { }
  }

  lemma ToMapEntries(l: seq<(Txid, Txid)>)
    requires Distinct(l)
    ensures forall i :: 0 <= i < |l| ==> l[i].0 in ToMap(l) && ToMap(l)[l[i].0] == l[i].1
    ensures forall g :: g in ToMap(l) ==> HasKey(l, g)
  {
    forall i | 0 <= i < |l| ensures l[i].0 in ToMap(l) && ToMap(l)[l[i].0] == l[i].1 { LookupEntry(l, i); }
  }

  lemma UpdateKeepsKey(was: seq<(Txid, Txid)>, now: seq<(Txid, Txid)>, g: Txid, tip: Txid, at: Option<nat>, x: Txid)
    requires at.None? ==> now == was + [(g, tip)]
    requires at.Some? ==> at.value < |was| && was[at.value].0 == g && now == was[at.value := (g, tip)]
    requires x == g || HasKey(was, x)
    ensures HasKey(now, x)
  {
    if x == g {
      assert now[if at.Some? then at.value else |was|].0 == g;
    } else {
      var i :| 0 <= i < |was| && was[i].0 == x;
      assert now[i].0 == x;
    }
  }

  lemma DeleteKeepsKey(was: seq<(Txid, Txid)>, now: seq<(Txid, Txid)>, g: Txid, at: Option<nat>, x: Txid)
    requires at.None? ==> now == was
    requires at.Some? ==> at.value < |was| && was[at.value].0 == g
    requires at.Some? ==> now == was[at.value := was[|was| - 1]][..|was| - 1]
    requires x != g && HasKey(was, x)
    ensures HasKey(now, x)
  {
    var i :| 0 <= i < |was| && was[i].0 == x;
    assert now[if at.Some? && i == |was| - 1 then at.value else i].0 == x;
  }

  lemma ToMapUpdate(was: seq<(Txid, Txid)>, now: seq<(Txid, Txid)>, g: Txid, tip: Txid, at: Option<nat>)
    requires Distinct(was)
    requires at.None? ==> (forall i :: 0 <= i < |was| ==> was[i].0 != g) && now == was + [(g, tip)]
    requires at.Some? ==> at.value < |was| && was[at.value].0 == g && now == was[at.value := (g, tip)]
    ensures Distinct(now) && ToMap(now) == ToMap(was)[g := tip]
  {
    ToMapEntries(was);
    hide ToMap, HasKey;
    var m := ToMap(was)[g := tip];
    forall x | x in m ensures HasKey(now, x) { UpdateKeepsKey(was, now, g, tip, at, x); }
    ToMapIs(now, m);
  }

  lemma DistinctAfterDelete(was: seq<(Txid, Txid)>, now: seq<(Txid, Txid)>, at: Option<nat>)
    requires Distinct(was) && (at.None? ==> now == was)
    requires at.Some? ==> at.value < |was| && now == was[at.value := was[|was| - 1]][..|was| - 1]
    ensures Distinct(now)
  {
  }

  lemma ToMapDelete(was: seq<(Txid, Txid)>, now: seq<(Txid, Txid)>, g: Txid, at: Option<nat>)
    requires Distinct(was)
    requires at.None? ==> (forall i :: 0 <= i < |was| ==> was[i].0 != g) && now == was
    requires at.Some? ==> at.value < |was| && was[at.value].0 == g
    requires at.Some? ==> now == was[at.value := was[|was| - 1]][..|was| - 1]
    ensures Distinct(now) && ToMap(now) == ToMap(was) - {g}
  {
    DistinctAfterDelete(was, now, at);
    ToMapEntries(was);
    hide ToMap, HasKey;
    var m := ToMap(was) - {g};
    forall x | x in m ensures HasKey(now, x) { DeleteKeepsKey(was, now, g, at, x); }
    ToMapIs(now, m);
  }
}
