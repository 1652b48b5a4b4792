/** Transactions in a row, each spending output 0 of the one before: the chains that witnesses are built on. */
module SampleChain {
  import opened Common
  import opened Arith
  import opened Numerals
  import opened Transaction
  import opened Chain

  function Id(i: nat): Txid {
    LE(i, 32)
  }

  /** Ids below 256^32 are told apart. */
  lemma IdValue(i: nat)
    requires i < Pow(256, 32)
    ensures FromLE(Id(i)) == i
  {
    hide Pow, LE, FromLE;
    FromLEofLE(i, 32);
  }

  lemma IdsDistinct(last: nat)
    requires last < Pow(256, 32)
    ensures forall i, j :: 0 <= i <= last && 0 <= j <= last && Id(i) == Id(j) ==> i == j
  {
    hide Pow, Id, FromLE;
    forall i, j | 0 <= i <= last && 0 <= j <= last && Id(i) == Id(j) ensures i == j {
      IdValue(i);
      IdValue(j);
    }
  }

  /** Room for every hop limit in the code. */
  lemma RoomForIds()
    ensures 0x1_0000_0000 < Pow(256, 32)
  {
    Pow256Values();
    PowMonotoneExp(256, 8, 32);
  }

  /** Transaction i spends transaction i - 1; its state is at output 0 and the given script, worth nothing, at 1. */
  function Link(i: nat, script: Script): Tx
    requires i > 0
  {
    TxData(1, [TxIn(Id(i - 1), 0, [], 0)], [TxOut(1, []), TxOut(0, script)], 0)
  }

  lemma LinkReads(i: nat, script: Script)
    requires i > 0
    ensures var raw := Serialize(Link(i, script));
            ParseTx(raw) == Ok(Link(i, script)) && !IsTerminal(raw) && Prevout(raw, 0) == Ok(Id(i - 1))
  {
    DeserializeOfSerialize(Link(i, script));
    assert !IsP2pkh([]);
    hide Serialize, ParseTx, Id, IsP2pkh;
    assert Link(i, script).outputs[0] == TxOut(1, []);
  }

  /** Transaction i spends transaction i - 1 and recreates nothing. */
  function Closing(i: nat): Tx
    requires i > 0
  {
    TxData(1, [TxIn(Id(i - 1), 0, [], 0)], [], 0)
  }

  lemma ClosingReads(i: nat)
    requires i > 0
    ensures IsTerminal(Serialize(Closing(i)))
  {
    DeserializeOfSerialize(Closing(i));
    hide Serialize, ParseTx, Id;
    assert Closing(i).outputs == [];
  }
}
