/** Size estimation and change settlement (src/bsv/tx_change.c). */
module TxChange {
  import opened Common
  import opened Codec
  import opened Transaction
  import Varint

  const DUST_AMOUNT: int := 1

  // ---- the size the fee is charged on -------------------------------------

  function InputSize(i: TxIn): nat {
    32 + 4 + |Varint.Print(|i.script|)| + |i.script| + 4
  }

  function OutputSize(o: TxOut): nat {
    8 + |Varint.Print(|o.script|)| + |o.script|
  }

  function SumInputSizes(ins: seq<TxIn>): nat {
    if ins == [] then 0 else SumInputSizes(ins[..|ins| - 1]) + InputSize(ins[|ins| - 1])
  }

  function SumOutputSizes(outs: seq<TxOut>): nat {
    if outs == [] then 0 else SumOutputSizes(outs[..|outs| - 1]) + OutputSize(outs[|outs| - 1])
  }

  lemma {:induction false} InputSizesMeasure(ins: seq<TxIn>)
    ensures SumInputSizes(ins) == |PrintMany(InputBytes, ins)|
  {
    if ins != [] {
      InputSizesMeasure(ins[..|ins| - 1]);
      PrintManyAppend(InputBytes, ins[..|ins| - 1], ins[|ins| - 1]);
      assert ins == ins[..|ins| - 1] + [ins[|ins| - 1]];
    }
  }

  lemma {:induction false} OutputSizesMeasure(outs: seq<TxOut>)
    ensures SumOutputSizes(outs) == |PrintMany(OutputBytes, outs)|
  {
    if outs != [] {
      OutputSizesMeasure(outs[..|outs| - 1]);
      PrintManyAppend(OutputBytes, outs[..|outs| - 1], outs[|outs| - 1]);
      assert outs == outs[..|outs| - 1] + [outs[|outs| - 1]];
    }
  }

  /** The estimate is the length of the serialized transaction. */
  method EstimateSize(t: Tx) returns (size: nat)
    ensures size == |Serialize(t)|
  {
    size := 8 + |Varint.Print(|t.inputs|)| + |Varint.Print(|t.outputs|)|;
    for i := 0 to |t.inputs|
      invariant size == 8 + |Varint.Print(|t.inputs|)| + |Varint.Print(|t.outputs|)| + SumInputSizes(t.inputs[..i])
    {
      assert t.inputs[..i + 1][..i] == t.inputs[..i];
      size := size + InputSize(t.inputs[i]);
    }
    ghost var half := size;
    for i := 0 to |t.outputs|
      invariant size == half + SumOutputSizes(t.outputs[..i])
    {
      assert t.outputs[..i + 1][..i] == t.outputs[..i];
      size := size + OutputSize(t.outputs[i]);
    }
    assert t.inputs[..|t.inputs|] == t.inputs && t.outputs[..|t.outputs|] == t.outputs;
    InputSizesMeasure(t.inputs);
    OutputSizesMeasure(t.outputs);
  }

  // ---- settlement ---------------------------------------------------------

  function Sum(outs: seq<TxOut>): nat {
    if outs == [] then 0 else Sum(outs[..|outs| - 1]) + outs[|outs| - 1].satoshis
  }

  lemma {:induction false} SumConcat(a: seq<TxOut>, b: seq<TxOut>)
    ensures Sum(a + b) == Sum(a) + Sum(b)
  {
    if b == [] {
      assert a + b == a;
    } else {
      SumConcat(a, b[..|b| - 1]);
      assert (a + b)[..|a + b| - 1] == a + b[..|b| - 1];
    }
  }

  /** All outputs but the change output. */
  function Others(outs: seq<TxOut>, change: nat): seq<TxOut>
    requires change < |outs|
  {
    outs[..change] + outs[change + 1..]
  }

  lemma SumOne(o: TxOut)
    ensures Sum([o]) == o.satoshis
  {
    assert [o][..0] == [];
  }

  lemma SumSplit(outs: seq<TxOut>, change: nat)
    requires change < |outs|
    ensures Sum(outs) == Sum(Others(outs, change)) + outs[change].satoshis
  {
    hide Sum;
    var front, o, back := outs[..change], outs[change], outs[change + 1..];
    assert outs == front + ([o] + back);
    SumConcat(front, [o] + back);
    SumConcat([o], back);
    SumConcat(front, back);
    SumOne(o);
  }

  /** The fee of a transaction under some rate: any function of the two, as the sizes are exact. */
  type FeeRule = (nat, uint64) -> uint64

  /** What settlement makes of a transaction whose change slot was seeded with the input total. */
  function Settled(fee: FeeRule, t: Tx, change: nat, rate: uint64): Result<Tx> {
    if change >= |t.outputs| then Err(EINVAL)
    else
      var seed := t.outputs[change].satoshis;
      var spent := Sum(Others(t.outputs, change));
      var f := fee(|Serialize(t)|, rate);
      if seed > MAX_MONEY || spent > MAX_MONEY || spent > seed || seed - spent < f then Err(ERANGE)
      else if seed - spent - f >= DUST_AMOUNT then
        Ok(t.(outputs := t.outputs[change := t.outputs[change].(satoshis := seed - spent - f)]))
      else Ok(t.(outputs := Others(t.outputs, change)))
  }

  /** Settlement conserves value: the seeded total is what the outputs carry plus the fee, to the satoshi. */
  lemma SettlementConserves(fee: FeeRule, t: Tx, change: nat, rate: uint64)
    requires Settled(fee, t, change, rate).Ok?
    ensures var t' := Settled(fee, t, change, rate).value;
            t.outputs[change].satoshis == Sum(t'.outputs) + fee(|Serialize(t)|, rate)
  {
    hide Serialize;
    var t' := Settled(fee, t, change, rate).value;
    if |t'.outputs| == |t.outputs| {
      SumSplit(t'.outputs, change);
      assert Others(t'.outputs, change) == Others(t.outputs, change);
    }
  }

  /** What is there for change and fee together: the seeded total less all other outputs. */
  function Available(t: Tx, change: nat): int
    requires change < |t.outputs|
  {
    t.outputs[change].satoshis - Sum(t.outputs[..change] + t.outputs[change + 1..])
  }

  /** Settlement fails exactly for a bad index, a value past the money supply, or too little for the fee. */
  lemma SettlementFails(fee: FeeRule, t: Tx, change: nat, rate: uint64)
    ensures Settled(fee, t, change, rate).Err? <==>
            || change >= |t.outputs|
            || t.outputs[change].satoshis > 2_100_000_000_000_000
            || Sum(t.outputs[..change] + t.outputs[change + 1..]) > 2_100_000_000_000_000
            || Available(t, change) < fee(|Serialize(t)|, rate)
    ensures Settled(fee, t, change, rate).Err? ==>
            Settled(fee, t, change, rate).code == if change >= |t.outputs| then EINVAL else ERANGE
  {
    hide Serialize, Sum;
  }

  /**
   * On success nothing but the outputs changes. Money left after the fee stays at the change output, with
   * its script, and every other output is as it was; with none left that output is taken out, in order.
   */
  lemma SettlementExactly(fee: FeeRule, t: Tx, change: nat, rate: uint64)
    requires Settled(fee, t, change, rate).Ok?
    ensures var t', left := Settled(fee, t, change, rate).value, Available(t, change) - fee(|Serialize(t)|, rate);
            && t'.version == t.version && t'.inputs == t.inputs && t'.locktime == t.locktime
            && left >= 0
            && (left > 0 ==>
                  && |t'.outputs| == |t.outputs|
                  && t'.outputs[change].script == t.outputs[change].script
                  && t'.outputs[change].satoshis == left
                  && forall i :: 0 <= i < |t.outputs| && i != change ==> t'.outputs[i] == t.outputs[i])
            && (left == 0 ==>
                  && |t'.outputs| == |t.outputs| - 1
                  && (forall i :: 0 <= i < change ==> t'.outputs[i] == t.outputs[i])
                  && forall i :: change <= i < |t'.outputs| ==> t'.outputs[i] == t.outputs[i + 1])
  {
    hide Serialize, Sum;
  }

  /** A transaction under construction: the output array is rewritten in place. */
  class TxBuffer {
    const version: uint32
    const inputs: seq<TxIn>
    const locktime: uint32
    const outputs: array<TxOut>
    var numOutputs: nat

    ghost predicate Valid()
      reads this
    {
      && numOutputs <= outputs.Length < 0x1_0000_0000_0000_0000
      && |inputs| < 0x1_0000_0000_0000_0000
    }

    function Contents(): Tx
      requires Valid()
      reads this, outputs
    {
      TxData(version, inputs, outputs[..numOutputs], locktime)
    }

    constructor (t: Tx)
      ensures Valid() && fresh(outputs) && Contents() == t
    {
      version := t.version;
      inputs := t.inputs;
      locktime := t.locktime;
      outputs := new TxOut[|t.outputs|](i requires 0 <= i < |t.outputs| => t.outputs[i]);
      numOutputs := |t.outputs|;
    }

    method UpdateChangeOutput(fee: FeeRule, change: nat, rate: uint64) returns (err: Option<Code>)
      requires Valid()
      modifies this, outputs
      ensures Valid()
      ensures var settled := Settled(fee, old(Contents()), change, rate);
              if settled.Err? then err == Some(settled.code) && Contents() == old(Contents())
              else err == None && Contents() == settled.value
    {
      hide Serialize, Sum, Others;
      if change >= numOutputs { return Some(EINVAL); }
      var totalIn := outputs[change].satoshis;
      if totalIn > MAX_MONEY { return Some(ERANGE); }
      ghost var t := Contents();
      var over, outSum := SumOthers(change);
      if over { return Some(ERANGE); }
      if outSum > totalIn { return Some(ERANGE); }
      var available := totalIn - outSum;
      var size := EstimateSize(Contents());
      var f := fee(size, rate);
      if available < f { return Some(ERANGE); }
      if available - f >= DUST_AMOUNT {
        outputs[change] := outputs[change].(satoshis := available - f);
        assert outputs[..numOutputs] == t.outputs[change := t.outputs[change].(satoshis := available - f)];
        return None;
      }
      RemoveOutput(change);
      return None;
    }

    /** The running sum of the other outputs, stopped before it can pass the money supply. */
    method SumOthers(change: nat) returns (over: bool, sum: nat)
      requires Valid() && change < numOutputs
      ensures over <==> Sum(Others(outputs[..numOutputs], change)) > MAX_MONEY
      ensures !over ==> sum == Sum(Others(outputs[..numOutputs], change))
    {
      ghost var outs := outputs[..numOutputs];
      sum := 0;
      for i := 0 to numOutputs
        invariant sum == SumUpTo(outs, change, i) <= MAX_MONEY
      {
        SumUpToStep(outs, change, i);
        if i != change {
          var s := outputs[i].satoshis;
          if s > MAX_MONEY || s > MAX_MONEY - sum {
            SumUpToGrows(outs, change, i + 1);
            return true, 0;
          }
          sum := sum + s;
        }
      }
      SumUpToAll(outs, change);
      over := false;
    }

    /** Shifts the outputs behind the removed one down by one. */
    method RemoveOutput(change: nat)
      requires Valid() && change < numOutputs
      modifies this`numOutputs, outputs
      ensures Valid() && outputs[..numOutputs] == Others(old(outputs[..numOutputs]), change)
    {
      ghost var was := outputs[..numOutputs];
      var i := change;
      while i + 1 < numOutputs
        invariant change <= i < numOutputs
        invariant numOutputs == old(numOutputs)
        invariant forall k :: 0 <= k < change ==> outputs[k] == was[k]
        invariant forall k :: change <= k < i ==> outputs[k] == was[k + 1]
        invariant forall k :: i <= k < numOutputs ==> outputs[k] == was[k]
      {
        outputs[i] := outputs[i + 1];
        i := i + 1;
      }
      numOutputs := numOutputs - 1;
    }
  }

  ghost function SumUpTo(outs: seq<TxOut>, change: nat, i: nat): nat
    requires change < |outs| && i <= |outs|
  {
    Sum(if i <= change then outs[..i] else outs[..change] + outs[change + 1..i])
  }

  lemma SumUpToStep(outs: seq<TxOut>, change: nat, i: nat)
    requires change < |outs| && i < |outs|
    ensures SumUpTo(outs, change, i + 1) == SumUpTo(outs, change, i) + if i == change then 0 else outs[i].satoshis
  {
    if i < change {
      assert outs[..i + 1][..i] == outs[..i];
    } else if i == change {
      assert outs[..change] + outs[change + 1..change + 1] == outs[..change];
    } else {
      var a, b := outs[..change] + outs[change + 1..i], outs[..change] + outs[change + 1..i + 1];
      assert b[..|b| - 1] == a && b[|b| - 1] == outs[i];
    }
  }

  lemma {:induction false} SumUpToGrows(outs: seq<TxOut>, change: nat, i: nat)
    requires change < |outs| && i <= |outs|
    ensures SumUpTo(outs, change, i) <= Sum(Others(outs, change))
    decreases |outs| - i
  {
    if i == |outs| {
      SumUpToAll(outs, change);
    } else {
      SumUpToStep(outs, change, i);
      SumUpToGrows(outs, change, i + 1);
    }
  }

  lemma SumUpToAll(outs: seq<TxOut>, change: nat)
    requires change < |outs|
    ensures SumUpTo(outs, change, |outs|) == Sum(Others(outs, change))
  {
    assert outs[change + 1..|outs|] == outs[change + 1..];
  }
}
