/** Receipt histories (src/reputation_indexer.c): the forward and the backward walk. */
module Indexer {
  import opened Common
  import opened Arith
  import opened Numerals
  import opened Transaction
  import opened Chain
  import opened ReceiptScript
  import opened SampleChain

  const MAX_HOPS: nat := 5000000
  const MAX_BACKWARD_HOPS: nat := 100000

  datatype Receipt = Receipt(txid: Txid, time: int64, hash: Bytes32, valid: bool, erased: bool)

  /** The source's three calls with any answers, errors included, and the caller's validity mark. */
  datatype Feed = Feed(
    spending: (Txid, uint32) -> Result<Option<Txid>>,
    raw: Txid -> Result<Bytes>,
    time: Txid -> Result<int64>,
    markValid: (Txid, int64, Bytes32) -> bool)

  /** The first zero-value output that carries a receipt. */
  function FirstReceipt(outs: seq<TxOut>): Option<Bytes32> {
    if outs == [] then None
    else if outs[0].satoshis == 0 && ReceiptHash(outs[0].script).Some? then ReceiptHash(outs[0].script)
    else FirstReceipt(outs[1..])
  }

  /** Output i is worth nothing and its script reads as a receipt. */
  predicate HoldsReceipt(outs: seq<TxOut>, i: nat)
    requires i < |outs|
  {
    outs[i].satoshis == 0 && ReceiptHash(outs[i].script).Some?
  }

  /** Output i is the first to hold a receipt, and it is for hash. */
  predicate FirstAt(outs: seq<TxOut>, i: nat, hash: Bytes32)
    requires i < |outs|
  {
    && HoldsReceipt(outs, i) && ReceiptHash(outs[i].script) == Some(hash)
    && forall j :: 0 <= j < i ==> !HoldsReceipt(outs, j)
  }

  /** The receipt found is that of the first output that holds one; none is found exactly when none holds one. */
  lemma {:induction false} FirstReceiptExactly(outs: seq<TxOut>, hash: Bytes32)
    ensures FirstReceipt(outs) == Some(hash) <==> exists i :: 0 <= i < |outs| && FirstAt(outs, i, hash)
    ensures FirstReceipt(outs).None? <==> forall i :: 0 <= i < |outs| ==> !HoldsReceipt(outs, i)
  {
    hide ReceiptHash;
    if outs != [] {
      var rest := outs[1..];
      assert forall i :: 0 <= i < |rest| ==> rest[i] == outs[i + 1];
      FirstReceiptExactly(rest, hash);
      if HoldsReceipt(outs, 0) {
        if ReceiptHash(outs[0].script) == Some(hash) { assert FirstAt(outs, 0, hash); }
      } else {
        if i :| 0 <= i < |rest| && FirstAt(rest, i, hash) {
          LaterFirst(outs, i, hash);
          assert FirstAt(outs, i + 1, hash);
        }
        if i :| 0 <= i < |outs| && FirstAt(outs, i, hash) {
          LaterFirst(outs, i - 1, hash);
          assert FirstAt(rest, i - 1, hash);
        }
        assert forall i :: 0 <= i < |rest| ==> (HoldsReceipt(rest, i) <==> HoldsReceipt(outs, i + 1));
        assert forall i :: 0 < i < |outs| ==> (HoldsReceipt(outs, i) <==> HoldsReceipt(rest, i - 1));
      }
    }
  }

  lemma LaterFirst(outs: seq<TxOut>, i: nat, hash: Bytes32)
    requires i + 1 < |outs| && !HoldsReceipt(outs, 0)
    ensures FirstAt(outs[1..], i, hash) <==> FirstAt(outs, i + 1, hash)
  {
    hide ReceiptHash;
    var rest := outs[1..];
    assert forall j :: 0 <= j < |rest| ==> (HoldsReceipt(rest, j) <==> HoldsReceipt(outs, j + 1));
    assert forall j :: 0 < j < |outs| ==> (HoldsReceipt(outs, j) <==> HoldsReceipt(rest, j - 1));
  }

  /** What one transaction adds to the history: nothing, one receipt, or an error. */
  function Entry(f: Feed, txid: Txid, raw: Bytes): Result<seq<Receipt>> {
    match ParseTx(raw)
    case Err(_) => Err(EPARSE)
    case Ok(tx) =>
      match FirstReceipt(tx.outputs)
      case None => Ok([])
      case Some(hash) =>
        match f.time(txid)
        case Err(code) => Err(code)
        case Ok(time) => Ok([Receipt(txid, time, hash, f.markValid(txid, time, hash), false)])
  }

  /** The entry of a real transaction, field by field; anything else is EPARSE. */
  lemma EntryExactly(f: Feed, txid: Txid, t: Tx, i: nat, hash: Bytes32)
    ensures i < |t.outputs| && FirstAt(t.outputs, i, hash) ==>
      Entry(f, txid, Serialize(t)) ==
        match f.time(txid) {
          case Err(code) => Err(code)
          case Ok(time) => Ok([Receipt(txid, time, hash, f.markValid(txid, time, hash), false)])
        }
    ensures (forall j :: 0 <= j < |t.outputs| ==> !HoldsReceipt(t.outputs, j)) ==>
            Entry(f, txid, Serialize(t)) == Ok([])
  {
    DeserializeOfSerialize(t);
    FirstReceiptExactly(t.outputs, hash);
    hide Serialize, ParseTx, ReceiptHash, FirstReceipt, FirstAt, HoldsReceipt;
  }

  lemma MalformedEntry(f: Feed, txid: Txid, raw: Bytes)
    requires forall t: Tx :: raw != Serialize(t)
    ensures Entry(f, txid, raw) == Err(EPARSE)
  {
    if ParseTx(raw).Ok? { SerializeOfDeserialize(raw); }
  }

  function Then(first: Result<seq<Receipt>>, more: Result<seq<Receipt>>): Result<seq<Receipt>> {
    match first
    case Err(code) => Err(code)
    case Ok(xs) =>
      match more
      case Err(code) => Err(code)
      case Ok(ys) => Ok(xs + ys)
  }

  /** The forward walk. At its hop limit it stops as if the chain had ended there. */
  function Forward(f: Feed, txid: Txid, vout: uint32, hops: nat): Result<seq<Receipt>>
    decreases hops
  {
    if hops == 0 then Ok([]) else
    match f.spending(txid, vout)
    case Err(code) => Err(code)
    case Ok(None) => Ok([])
    case Ok(Some(next)) =>
      match f.raw(next)
      case Err(code) => Err(code)
      case Ok(raw) =>
        if IsTerminal(raw) then Ok([])
        else Then(Entry(f, next, raw), Forward(f, next, 0, hops - 1))
  }

  /** The backward walk, newest first. A limit, a terminal spend or a missing input is an error. */
  function Backward(f: Feed, txid: Txid, genesis: Txid, input: nat, hops: nat): Result<seq<Receipt>>
    decreases hops
  {
    if txid == genesis then Ok([])
    else if hops == 0 then Err(EHOPLIMIT) else
    match f.raw(txid)
    case Err(code) => Err(code)
    case Ok(raw) =>
      if IsTerminal(raw) then Err(EPARSE) else
      match Entry(f, txid, raw)
      case Err(code) => Err(code)
      case Ok(entry) =>
        match Prevout(raw, input)
        case Err(code) => Err(code)
        case Ok(prev) => Then(Ok(entry), Backward(f, prev, genesis, input, hops - 1))
  }

  function OldestFirst(r: Result<seq<Receipt>>): Result<seq<Receipt>> {
    match r
    case Err(code) => Err(code)
    case Ok(xs) => Ok(Reverse(xs))
  }

  // ---- a consistent identity chain ----------------------------------------

  function VoutAt(vout: uint32, i: nat): uint32 {
    if i == 0 then vout else 0
  }

  ghost predicate Linked(f: Feed, path: seq<Txid>, vout: uint32, input: nat, i: nat)
    requires i + 1 < |path|
  {
    && f.spending(path[i], VoutAt(vout, i)) == Ok(Some(path[i + 1]))
    && f.raw(path[i + 1]).Ok?
    && !IsTerminal(f.raw(path[i + 1]).value)
    && Prevout(f.raw(path[i + 1]).value, input) == Ok(path[i])
    && path[i + 1] != path[0]
  }

  ghost predicate EndsAt(f: Feed, txid: Txid, vout: uint32) {
    match f.spending(txid, vout)
    case Err(_) => false
    case Ok(None) => true
    case Ok(Some(next)) => f.raw(next).Ok? && IsTerminal(f.raw(next).value)
  }

  /** Genesis to tip: each transaction spends the one before it and the spend index says so. */
  ghost predicate IdentityChain(f: Feed, path: seq<Txid>, vout: uint32, input: nat) {
    && path != []
    && (forall i :: 0 <= i < |path| - 1 ==> Linked(f, path, vout, input, i))
    && EndsAt(f, path[|path| - 1], VoutAt(vout, |path| - 1))
  }

  /** Along the chain: the first transaction is spent at output vout, every later one at output 0. */
  lemma ChainSpends(f: Feed, path: seq<Txid>, vout: uint32, input: nat)
    requires IdentityChain(f, path, vout, input)
    ensures |path| > 1 ==> f.spending(path[0], vout) == Ok(Some(path[1]))
    ensures forall i :: 0 < i < |path| - 1 ==> f.spending(path[i], 0) == Ok(Some(path[i + 1]))
    ensures StepsBack(f, path, input)
  {
    hide IsTerminal, Prevout;
    if |path| > 1 { assert Linked(f, path, vout, input, 0); }
    forall i | 0 < i < |path| - 1 ensures f.spending(path[i], 0) == Ok(Some(path[i + 1])) {
      assert Linked(f, path, vout, input, i);
    }
    forall i | 0 <= i < |path| - 1 ensures SpendsBack(f, path, input, i) {
      assert Linked(f, path, vout, input, i);
    }
  }

  ghost function EntryOf(f: Feed, txid: Txid): Result<seq<Receipt>>
  {
    match f.raw(txid)
    case Err(code) => Err(code)
    case Ok(raw) => Entry(f, txid, raw)
  }

  ghost predicate AllOk(f: Feed, txids: seq<Txid>) {
    forall i :: 0 <= i < |txids| ==> EntryOf(f, txids[i]).Ok?
  }

  /** The receipts of some transactions in order. */
  ghost function Receipts(f: Feed, txids: seq<Txid>): seq<Receipt>
    requires AllOk(f, txids)
  {
    if txids == [] then [] else EntryOf(f, txids[0]).value + Receipts(f, txids[1..])
  }

  lemma {:induction false} ReceiptsAppend(f: Feed, txids: seq<Txid>, x: Txid)
    requires AllOk(f, txids) && EntryOf(f, x).Ok?
    ensures AllOk(f, txids + [x]) && Receipts(f, txids + [x]) == Receipts(f, txids) + EntryOf(f, x).value
  {
    hide EntryOf;
    if txids == [] {
      assert [x][1..] == [];
    } else {
      assert AllOk(f, txids[1..]);
      ReceiptsAppend(f, txids[1..], x);
      assert (txids + [x])[1..] == txids[1..] + [x];
    }
  }

  /** Each entry is at most one receipt, so reversing it changes nothing. */
  lemma EntryShort(f: Feed, txid: Txid)
    requires EntryOf(f, txid).Ok?
    ensures |EntryOf(f, txid).value| <= 1 && Reverse(EntryOf(f, txid).value) == EntryOf(f, txid).value
  {
    hide ParseTx, FirstReceipt;
  }

  /** From position i the forward walk collects the receipts of the next `hops` transactions. */
  lemma {:induction false} ForwardAlong(f: Feed, path: seq<Txid>, vout: uint32, input: nat, i: nat, hops: nat)
    requires IdentityChain(f, path, vout, input) && i < |path|
    ensures var seen := path[i + 1..Min(i + 1 + hops, |path|)];
            var r := Forward(f, path[i], VoutAt(vout, i), hops);
            if AllOk(f, seen) then r == Ok(Receipts(f, seen)) else r.Err?
    decreases hops
  {
    hide IsTerminal, Entry, Prevout;
    var seen := path[i + 1..Min(i + 1 + hops, |path|)];
    if hops == 0 || i + 1 == |path| {
      assert seen == [];
    } else {
      assert Linked(f, path, vout, input, i);
      ForwardAlong(f, path, vout, input, i + 1, hops - 1);
      var rest := path[i + 2..Min(i + 2 + (hops - 1), |path|)];
      assert seen == [path[i + 1]] + rest;
      AllOkCons(f, path[i + 1], rest);
    }
  }

  lemma AllOkCons(f: Feed, x: Txid, xs: seq<Txid>)
    ensures AllOk(f, [x] + xs) <==> EntryOf(f, x).Ok? && AllOk(f, xs)
    ensures AllOk(f, [x] + xs) ==> Receipts(f, [x] + xs) == EntryOf(f, x).value + Receipts(f, xs)
  {
    hide EntryOf;
    var all := [x] + xs;
    assert all[0] == x && all[1..] == xs;
    if AllOk(f, all) {
      assert forall i :: 0 <= i < |xs| ==> xs[i] == all[i + 1];
    }
    if EntryOf(f, x).Ok? && AllOk(f, xs) {
      assert forall i :: 0 < i < |all| ==> all[i] == xs[i - 1];
    }
  }

  /** From position i the backward walk collects the receipts of path[1..i], reversed. */
  lemma {:induction false} BackwardAlong(f: Feed, path: seq<Txid>, vout: uint32, input: nat, i: nat, hops: nat)
    requires IdentityChain(f, path, vout, input) && i < |path| && i <= hops
    ensures var seen := path[1..i + 1];
            var r := Backward(f, path[i], path[0], input, hops);
            if AllOk(f, seen) then r == Ok(Reverse(Receipts(f, seen))) else r.Err?
    decreases i
  {
    hide IsTerminal, Entry, Prevout;
    if i == 0 {
      assert path[1..1] == [];
    } else {
      assert Linked(f, path, vout, input, i - 1);
      BackwardAlong(f, path, vout, input, i - 1, hops - 1);
      var seen, front := path[1..i + 1], path[1..i];
      assert seen == front + [path[i]];
      BackwardStep(f, front, path[i]);
    }
  }

  lemma BackwardStep(f: Feed, front: seq<Txid>, x: Txid)
    ensures AllOk(f, front + [x]) <==> AllOk(f, front) && EntryOf(f, x).Ok?
    ensures AllOk(f, front + [x]) ==>
      Reverse(Receipts(f, front + [x])) == EntryOf(f, x).value + Reverse(Receipts(f, front))
  {
    hide EntryOf;
    var all := front + [x];
    assert all[|front|] == x;
    if AllOk(f, all) {
      assert forall i :: 0 <= i < |front| ==> front[i] == all[i];
    }
    if AllOk(f, front) && EntryOf(f, x).Ok? {
      ReceiptsAppend(f, front, x);
      EntryShort(f, x);
      ReverseConcat(Receipts(f, front), EntryOf(f, x).value);
    }
  }

  lemma TurnAround(r: Result<seq<Receipt>>)
    ensures r.Err? ==> OldestFirst(r).Err?
    ensures r.Ok? ==> OldestFirst(r) == Ok(Reverse(r.value))
  {
  }

  lemma BackwardHistory(f: Feed, path: seq<Txid>, vout: uint32, input: nat, maxHops: nat)
    requires IdentityChain(f, path, vout, input) && |path| - 1 <= maxHops
    ensures var bwd := OldestFirst(Backward(f, path[|path| - 1], path[0], input, maxHops));
            if AllOk(f, path[1..]) then bwd == Ok(Receipts(f, path[1..])) else bwd.Err?
  {
    hide *;
    ChainNotEmpty(f, path, vout, input);
    BackwardAlong(f, path, vout, input, |path| - 1, maxHops);
    assert path[1..|path| - 1 + 1] == path[1..];
    TurnAround(Backward(f, path[|path| - 1], path[0], input, maxHops));
    if AllOk(f, path[1..]) { ReverseTwice(Receipts(f, path[1..])); }
  }

  /** The forward walk sees the first `cap` transactions of the chain, and only an error stops it. */
  lemma ForwardHistory(f: Feed, path: seq<Txid>, vout: uint32, input: nat, cap: nat)
    requires IdentityChain(f, path, vout, input)
    ensures var seen := path[1..Min(1 + cap, |path|)];
            var fwd := Forward(f, path[0], vout, cap);
            if AllOk(f, seen) then fwd == Ok(Receipts(f, seen)) else fwd.Err?
  {
    hide *;
    ChainNotEmpty(f, path, vout, input);
    VoutAtZero(vout);
    ForwardAlong(f, path, vout, input, 0, cap);
  }

  lemma VoutAtZero(vout: uint32)
    ensures VoutAt(vout, 0) == vout
  {
  }

  /**
   * On a consistent chain within both hop limits the two walks return the same history, oldest
   * first, or both fail.
   */
  lemma WalksAgree(f: Feed, path: seq<Txid>, vout: uint32, input: nat, cap: nat, maxHops: nat)
    requires IdentityChain(f, path, vout, input) && |path| - 1 <= maxHops && |path| - 1 <= cap
    ensures var fwd := Forward(f, path[0], vout, cap);
            var bwd := OldestFirst(Backward(f, path[|path| - 1], path[0], input, maxHops));
            (fwd.Ok? <==> bwd.Ok?) && (fwd.Ok? ==> fwd == bwd)
  {
    ForwardHistory(f, path, vout, input, cap);
    BackwardHistory(f, path, vout, input, maxHops);
    hide Forward, Backward, Receipts, IdentityChain, EntryOf, AllOk;
    assert path[1..Min(1 + cap, |path|)] == path[1..];
  }

  lemma {:induction false} ReceiptsConcat(f: Feed, xs: seq<Txid>, ys: seq<Txid>)
    requires AllOk(f, xs + ys)
    ensures AllOk(f, xs) && AllOk(f, ys) && Receipts(f, xs + ys) == Receipts(f, xs) + Receipts(f, ys)
  {
    hide EntryOf;
    if xs == [] {
      assert xs + ys == ys;
    } else {
      assert xs + ys == [xs[0]] + (xs[1..] + ys) && xs == [xs[0]] + xs[1..];
      AllOkCons(f, xs[0], xs[1..] + ys);
      ReceiptsConcat(f, xs[1..], ys);
      AllOkCons(f, xs[0], xs[1..]);
    }
  }

  // ---- what a returned list means, with nothing assumed of the source -----

  /** Transaction i + 1 is reached through the spend index and recreates the identity. */
  ghost predicate ReachedBy(f: Feed, path: seq<Txid>, vout: uint32, i: nat)
    requires i + 1 < |path|
  {
    && f.spending(path[i], VoutAt(vout, i)) == Ok(Some(path[i + 1]))
    && f.raw(path[i + 1]).Ok? && !IsTerminal(f.raw(path[i + 1]).value)
  }

  ghost predicate StepsForward(f: Feed, path: seq<Txid>, vout: uint32) {
    forall i :: 0 <= i < |path| - 1 ==> ReachedBy(f, path, vout, i)
  }

  /**
   * A list from the forward walk is the whole list of the transactions it passed, each read without an
   * error, up to the end of the chain or the limit: no error ever leaves a partial list.
   */
  lemma {:induction false} ForwardOkMeans(f: Feed, txid: Txid, vout: uint32, hops: nat) returns (path: seq<Txid>)
    requires Forward(f, txid, vout, hops).Ok?
    ensures path != [] && path[0] == txid && |path| - 1 <= hops && StepsForward(f, path, vout)
    ensures |path| - 1 == hops || EndsAt(f, path[|path| - 1], VoutAt(vout, |path| - 1))
    ensures AllOk(f, path[1..]) && Forward(f, txid, vout, hops) == Ok(Receipts(f, path[1..]))
    decreases hops
  {
    hide IsTerminal, Entry;
    path := [txid];
    assert path[1..] == [];
    if hops > 0 && !EndsAt(f, txid, vout) {
      var next := f.spending(txid, vout).value.value;
      var rest := ForwardOkMeans(f, next, 0, hops - 1);
      path := [txid] + rest;
      assert path[1..] == rest && rest == [next] + rest[1..];
      AllOkCons(f, next, rest[1..]);
      forall i | 0 <= i < |path| - 1 ensures ReachedBy(f, path, vout, i) {
        if i > 0 { assert ReachedBy(f, rest, 0, i - 1); }
      }
    }
  }

  /** Transaction i + 1 recreates the identity and spends the one before it. */
  ghost predicate SpendsBack(f: Feed, path: seq<Txid>, input: nat, i: nat)
    requires i + 1 < |path|
  {
    && f.raw(path[i + 1]).Ok? && !IsTerminal(f.raw(path[i + 1]).value)
    && Prevout(f.raw(path[i + 1]).value, input) == Ok(path[i])
    && path[i + 1] != path[0]
  }

  ghost predicate StepsBack(f: Feed, path: seq<Txid>, input: nat) {
    forall i :: 0 <= i < |path| - 1 ==> SpendsBack(f, path, input, i)
  }

  /** A list from the backward walk is the whole list from genesis to the tip, newest first. */
  lemma {:induction false} BackwardOkMeans(f: Feed, txid: Txid, genesis: Txid, input: nat, hops: nat)
      returns (path: seq<Txid>)
    requires Backward(f, txid, genesis, input, hops).Ok?
    ensures path != [] && path[0] == genesis && path[|path| - 1] == txid && |path| - 1 <= hops
    ensures StepsBack(f, path, input)
    ensures AllOk(f, path[1..]) && Backward(f, txid, genesis, input, hops) == Ok(Reverse(Receipts(f, path[1..])))
    decreases hops
  {
    hide IsTerminal, Entry, Prevout;
    path := [txid];
    assert path[1..] == [];
    if txid != genesis {
      var prev := Prevout(f.raw(txid).value, input).value;
      var front := BackwardOkMeans(f, prev, genesis, input, hops - 1);
      path := front + [txid];
      assert path[1..] == front[1..] + [txid];
      BackwardStep(f, front[1..], txid);
      forall i | 0 <= i < |path| - 1 ensures SpendsBack(f, path, input, i) {
        if i + 1 < |front| { assert SpendsBack(f, front, input, i); }
      }
    }
  }

  /** On a chain longer than its limit the backward walk fails with EHOPLIMIT. */
  lemma {:induction false} BackwardLimit(f: Feed, path: seq<Txid>, input: nat, i: nat, hops: nat)
    requires StepsBack(f, path, input) && hops < i < |path|
    requires AllOk(f, path[i - hops + 1..i + 1])
    ensures Backward(f, path[i], path[0], input, hops) == Err(EHOPLIMIT)
    decreases hops
  {
    hide IsTerminal, Entry, Prevout;
    assert SpendsBack(f, path, input, i - 1);
    if hops > 0 {
      var seen := path[i - hops + 1..i + 1];
      assert seen[hops - 1] == path[i] && EntryOf(f, path[i]).Ok?;
      var fewer := path[i - hops + 1..i];
      assert fewer == path[i - 1 - (hops - 1) + 1..i - 1 + 1];
      forall k | 0 <= k < |fewer| ensures EntryOf(f, fewer[k]).Ok? { assert fewer[k] == seen[k]; }
      BackwardLimit(f, path, input, i - 1, hops - 1);
    }
  }

  /** A failure at the first call is passed on, and a tip that is itself terminal is EPARSE. */
  lemma WalkErrors(f: Feed, txid: Txid, vout: uint32, genesis: Txid, input: nat, hops: nat)
    requires hops > 0
    ensures f.spending(txid, vout).Err? ==> Forward(f, txid, vout, hops) == Err(f.spending(txid, vout).code)
    ensures txid != genesis && f.raw(txid).Err? ==> Backward(f, txid, genesis, input, hops) == Err(f.raw(txid).code)
    ensures txid != genesis && f.raw(txid).Ok? && IsTerminal(f.raw(txid).value) ==>
      Backward(f, txid, genesis, input, hops) == Err(EPARSE)
  {
    hide IsTerminal, Entry, Prevout;
  }

  /** Exactly when the forward walk is complete: the chain is within its limit, or nothing beyond it matters. */
  lemma ForwardCompleteIff(f: Feed, path: seq<Txid>, vout: uint32, input: nat, cap: nat)
    requires IdentityChain(f, path, vout, input) && AllOk(f, path[1..])
    ensures Forward(f, path[0], vout, cap) == Ok(Receipts(f, path[1..])) <==>
            |path| - 1 <= cap || (AllOk(f, path[cap + 1..]) && Receipts(f, path[cap + 1..]) == [])
  {
    hide *;
    ForwardHistory(f, path, vout, input, cap);
    ChainNotEmpty(f, path, vout, input);
    MinIs(1 + cap, |path|);
    if |path| - 1 <= cap {
      assert path[1..Min(1 + cap, |path|)] == path[1..];
    } else {
      assert path[1..] == path[1..1 + cap] + path[cap + 1..];
      TailMatters(f, path[1..1 + cap], path[cap + 1..], path[1..]);
    }
  }

  // ---- a chain the forward walk cuts short --------------------------------

  /** Transactions 0 to last, each but the first with the given output script. */
  function LongFeed(last: nat, script: Script): Feed {
    Feed(
      (txid, vout) => if FromLE(txid) < last then Ok(Some(Id(FromLE(txid) + 1))) else Ok(None),
      txid => if FromLE(txid) > 0 then Ok(Serialize(Link(FromLE(txid), script))) else Err(ENET),
      txid => Ok(0),
      (txid, time, hash) => true)
  }

  function LongPath(last: nat): (path: seq<Txid>)
    ensures |path| == last + 1
    ensures forall i :: 0 <= i <= last ==> path[i] == Id(i)
  {
    seq(last + 1, i requires 0 <= i <= last => Id(i))
  }

  lemma LinkReceipt(i: nat, script: Script)
    requires i > 0 && ReceiptHash(script).Some?
    ensures FirstReceipt(Link(i, script).outputs) == ReceiptHash(script)
  {
    hide Id, ReceiptHash;
    var outs := Link(i, script).outputs;
    assert outs[0] == TxOut(1, []) && outs[1..][0] == TxOut(0, script);
  }

  /** What transaction i adds to a history. */
  lemma LinkEntry(f: Feed, i: nat, script: Script)
    requires i > 0 && ReceiptHash(script).Some? && f.time(Id(i)).Ok?
    ensures var hash, time := ReceiptHash(script).value, f.time(Id(i)).value;
            Entry(f, Id(i), Serialize(Link(i, script)))
              == Ok([Receipt(Id(i), time, hash, f.markValid(Id(i), time, hash), false)])
  {
    hide Serialize, ParseTx, Id, ReceiptHash, Link, FirstReceipt, IsTerminal, Prevout;
    LinkReads(i, script);
    LinkReceipt(i, script);
  }

  /** What the feed says of transaction i + 1 and of the way there. */
  lemma LongLink(last: nat, script: Script, i: nat)
    requires i < last < Pow(256, 32) && ReceiptHash(script).Some?
    ensures var f := LongFeed(last, script); var next := Id(i + 1);
            && Id(i + 1) != Id(0)
            && (forall vout :: f.spending(Id(i), vout) == Ok(Some(next)))
            && f.raw(next) == Ok(Serialize(Link(i + 1, script)))
            && EntryOf(f, next) == Ok([Receipt(next, 0, ReceiptHash(script).value, true, false)])
  {
    hide Serialize, Entry, IsTerminal, Prevout, Id, FromLE, Pow, Link, ReceiptHash;
    IdValue(i);
    IdValue(i + 1);
    IdValue(0);
    LinkEntry(LongFeed(last, script), i + 1, script);
  }

  lemma LongLinked(last: nat, script: Script, i: nat)
    requires i < last < Pow(256, 32) && ReceiptHash(script).Some?
    ensures var f, path := LongFeed(last, script), LongPath(last);
            Linked(f, path, 0, 0, i) && EntryOf(f, path[i + 1]).Ok?
  {
    LongLink(last, script, i);
    LinkReads(i + 1, script);
    hide *;
    LinkedIs(LongFeed(last, script), LongPath(last), i);
  }

  lemma LinkedIs(f: Feed, path: seq<Txid>, i: nat)
    requires i + 1 < |path| && (forall vout :: f.spending(path[i], vout) == Ok(Some(path[i + 1])))
    requires f.raw(path[i + 1]).Ok? && !IsTerminal(f.raw(path[i + 1]).value)
    requires Prevout(f.raw(path[i + 1]).value, 0) == Ok(path[i]) && path[i + 1] != path[0]
    ensures Linked(f, path, 0, 0, i)
  {
    hide IsTerminal, Prevout;
  }

  lemma LongEnds(last: nat, script: Script)
    requires last < Pow(256, 32)
    ensures EndsAt(LongFeed(last, script), Id(last), VoutAt(0, last))
  {
    hide Pow, Id, FromLE, Serialize, Link;
    IdValue(last);
  }

  lemma LongChain(last: nat, script: Script)
    requires last < Pow(256, 32) && ReceiptHash(script).Some?
    ensures var f, path := LongFeed(last, script), LongPath(last);
            IdentityChain(f, path, 0, 0) && AllOk(f, path[1..])
  {
    hide LongFeed, Linked, EntryOf, EndsAt, Id, Pow, ReceiptHash;
    var f, path := LongFeed(last, script), LongPath(last);
    forall i | 0 <= i < last ensures Linked(f, path, 0, 0, i) && EntryOf(f, path[1..][i]).Ok? {
      LongLinked(last, script, i);
    }
    LongEnds(last, script);
  }

  /**
   * For every limit and every receipt script there is a consistent chain one hop longer whose last
   * receipt is dropped without an error.
   */
  lemma ForwardCutsShort(cap: nat, script: Script)
    requires cap + 1 < Pow(256, 32) && ReceiptHash(script).Some?
    ensures var f, path := LongFeed(cap + 1, script), LongPath(cap + 1);
            var fwd := Forward(f, path[0], 0, cap);
            && IdentityChain(f, path, 0, 0) && AllOk(f, path[1..])
            && fwd.Ok? && fwd != Ok(Receipts(f, path[1..]))
  {
    hide *;
    var f, path := LongFeed(cap + 1, script), LongPath(cap + 1);
    LongChain(cap + 1, script);
    LongLink(cap + 1, script, cap);
    ForwardHistory(f, path, 0, 0, cap);
    ForwardCompleteIff(f, path, 0, 0, cap);
    MinIs(1 + cap, |path|);
    assert path[1..] == path[1..1 + cap] + path[cap + 1..];
    TailMatters(f, path[1..1 + cap], path[cap + 1..], path[1..]);
    assert path[cap + 1..] == [Id(cap + 1)] + [];
    AllOkCons(f, Id(cap + 1), []);
  }

  /** So it does at the limit the code uses, on receipts as the contracts write them. */
  lemma CollectCutsShort(hash: Bytes32)
    ensures var f, path := LongFeed(MAX_HOPS + 1, Carrier(hash)), LongPath(MAX_HOPS + 1);
            var fwd := Forward(f, path[0], 0, MAX_HOPS);
            && IdentityChain(f, path, 0, 0) && AllOk(f, path[1..])
            && fwd.Ok? && fwd != Ok(Receipts(f, path[1..]))
  {
    CarrierReads(hash);
    RoomForIds();
    hide LongFeed, LongPath, Forward, IdentityChain, AllOk, Receipts, Pow, ReceiptHash, Carrier;
    ForwardCutsShort(MAX_HOPS, Carrier(hash));
  }

  lemma ChainNotEmpty(f: Feed, path: seq<Txid>, vout: uint32, input: nat)
    requires IdentityChain(f, path, vout, input)
    ensures path != []
  {
  }

  lemma MinIs(a: nat, b: nat)
    ensures Min(a, b) == if a <= b then a else b
  {
  }

  lemma TailMatters(f: Feed, xs: seq<Txid>, ys: seq<Txid>, all: seq<Txid>)
    requires all == xs + ys && AllOk(f, all)
    ensures AllOk(f, xs) && AllOk(f, ys) && (Receipts(f, xs) == Receipts(f, all) <==> Receipts(f, ys) == [])
  {
    ReceiptsConcat(f, xs, ys);
    hide AllOk, Receipts;
    assert Receipts(f, all) == Receipts(f, xs) + Receipts(f, ys);
    assert |Receipts(f, all)| == |Receipts(f, xs)| + |Receipts(f, ys)|;
    assert Receipts(f, ys) == [] ==> Receipts(f, xs) + [] == Receipts(f, xs);
  }

  // ---- the loops ----------------------------------------------------------

  /** The scan over the outputs: the first zero-value one that reads as a receipt. */
  method FindReceipt(raw: Bytes) returns (r: Result<Option<Bytes32>>)
    ensures r == match ParseTx(raw) { case Err(_) => Err(EPARSE) case Ok(tx) => Ok(FirstReceipt(tx.outputs)) }
  {
    hide ReceiptHash;
    var tx := Deserialize(raw);
    if tx.Err? { return Err(EPARSE); }
    hide ParseTx, Serialize;
    var outs := tx.value.outputs;
    assert outs[0..] == outs;
    for i := 0 to |outs|
      invariant FirstReceipt(outs) == FirstReceipt(outs[i..])
    {
      assert outs[i..][1..] == outs[i + 1..];
      if outs[i].satoshis == 0 {
        var hash := ReadReceiptHash(outs[i].script);
        if hash.Ok? { return Ok(Some(hash.value)); }
      }
    }
    return Ok(None);
  }

  method ReadEntry(f: Feed, txid: Txid, raw: Bytes) returns (r: Result<seq<Receipt>>)
    ensures r == Entry(f, txid, raw)
  {
    hide ParseTx, FirstReceipt;
    var found := FindReceipt(raw);
    if found.Err? { return Err(found.code); }
    if found.value.None? { return Ok([]); }
    var hash := found.value.value;
    var time := f.time(txid);
    if time.Err? { return Err(time.code); }
    return Ok([Receipt(txid, time.value, hash, f.markValid(txid, time.value, hash), false)]);
  }

  method CollectReceipts(f: Feed, genesis: Txid, identityVout: uint32) returns (r: Result<seq<Receipt>>)
    ensures r == Forward(f, genesis, identityVout, 5_000_000)
  {
    hide IsTerminal, Entry;
    var txid: Txid, vout: uint32, out: seq<Receipt> := genesis, identityVout, [];
    ghost var whole := Forward(f, genesis, identityVout, MAX_HOPS);
    assert whole.Ok? ==> [] + whole.value == whole.value;
    for hops := 0 to MAX_HOPS
      invariant Then(Ok(out), Forward(f, txid, vout, MAX_HOPS - hops)) == whole
    {
      var next := f.spending(txid, vout);
      if next.Err? { return Err(next.code); }
      if next.value.None? { break; }
      var raw := f.raw(next.value.value);
      if raw.Err? { return Err(raw.code); }
      if IsTerminal(raw.value) { break; }
      var entry := ReadEntry(f, next.value.value, raw.value);
      if entry.Err? { return Err(entry.code); }
      ThenAssoc(out, entry.value, Forward(f, next.value.value, 0, MAX_HOPS - hops - 1));
      out := out + entry.value;
      txid := next.value.value;
      vout := 0;
    }
    assert out + [] == out;
    return Ok(out);
  }

  lemma ThenAssoc(xs: seq<Receipt>, ys: seq<Receipt>, more: Result<seq<Receipt>>)
    ensures Then(Ok(xs), Then(Ok(ys), more)) == Then(Ok(xs + ys), more)
  {
    if more.Ok? { assert xs + (ys + more.value) == (xs + ys) + more.value; }
  }

  method CollectReceiptsBackward(f: Feed, tip: Txid, genesis: Txid, input: nat, limit: nat)
    returns (r: Result<seq<Receipt>>)
    ensures var maxHops := if limit == 0 then 100_000 else limit;
            r == OldestFirst(Backward(f, tip, genesis, input, maxHops))
  {
    hide IsTerminal, Entry, Prevout;
    var maxHops := if limit == 0 then MAX_BACKWARD_HOPS else limit;
    var txid: Txid, hops: nat, out: seq<Receipt> := tip, 0, [];
    ghost var whole := Backward(f, tip, genesis, input, maxHops);
    assert whole.Ok? ==> [] + whole.value == whole.value;
    while txid != genesis
      invariant hops <= maxHops
      invariant Then(Ok(out), Backward(f, txid, genesis, input, maxHops - hops)) == whole
      decreases maxHops - hops
    {
      if hops >= maxHops { return Err(EHOPLIMIT); }
      var raw := f.raw(txid);
      if raw.Err? { return Err(raw.code); }
      if IsTerminal(raw.value) { return Err(EPARSE); }
      var entry := ReadEntry(f, txid, raw.value);
      if entry.Err? { return Err(entry.code); }
      var prev: Result<Txid> := Prevout(raw.value, input);
      if prev.Err? { return Err(prev.code); }
      ThenAssoc(out, entry.value, Backward(f, prev.value, genesis, input, maxHops - hops - 1));
      out := out + entry.value;
      txid := prev.value;
      hops := hops + 1;
    }
    assert out + [] == out;
    var items := new Receipt[|out|](i requires 0 <= i < |out| => out[i]);
    assert items[..] == out;
    ReverseInPlace(items);
    return Ok(items[..]);
  }

  /** The closing swap loop of the backward walk. */
  method ReverseInPlace<T>(a: array<T>)
    modifies a
    ensures a[..] == Reverse(old(a[..]))
  {
    var n := a.Length;
    var i, j := 0, n;
    while i + 1 <= j && j > 0
      invariant 0 <= 2 * i <= n && j == n - i
      invariant forall k :: i <= k < n - i ==> a[k] == old(a[k])
      invariant forall k :: 0 <= k < i ==> a[k] == old(a[n - 1 - k])
      invariant forall k :: n - i <= k < n ==> a[k] == old(a[n - 1 - k])
      decreases n - i
    {
      j := j - 1;
      if i >= j { break; }
      a[i], a[j] := a[j], a[i];
      i := i + 1;
    }
    assert forall k :: 0 <= k < n ==> a[k] == old(a[n - 1 - k]);
  }
}
