/** CompactSize integers (src/bsv/varint.c) and raw transactions (src/bsv/tx.c). */
module Varint {
  import opened Common
  import opened Arith
  import opened Numerals
  import opened Codec

  /** The shortest CompactSize form of n. */
  function Print(n: uint64): (r: Bytes)
    ensures r != []
  {
    if n < 0xfd then [n]
    else if n <= 0xffff then [0xfd] + LE(n, 2)
    else if n <= 0xffff_ffff then [0xfe] + LE(n, 4)
    else [0xff] + LE(n, 8)
  }

  function PayloadLength(prefix: byte): nat {
    if prefix < 0xfd then 0 else if prefix == 0xfd then 2 else if prefix == 0xfe then 4 else 8
  }

  function LeastValue(prefix: byte): nat {
    if prefix < 0xfd then 0 else if prefix == 0xfd then 0xfd else if prefix == 0xfe then 0x1_0000 else 0x1_0000_0000
  }

  function Parse(s: Bytes): (r: Parsed<uint64>)
    ensures r.Got? ==> |r.rest| < |s|
  {
    if s == [] then Stop
    else if s[0] < 0xfd then Got(s[0], s[1..])
    else
      var k := PayloadLength(s[0]);
      if |s| - 1 < k then Stop
      else
        var v := FromLE(s[1..1 + k]);
        assert v < 0x1_0000_0000_0000_0000 by { FromLEBound(s[1..1 + k]); Pow256Values(); }
        if v < LeastValue(s[0]) then Stop else Got(v, s[1 + k..])
  }

  lemma ParseOfPrint(n: uint64, rest: Bytes)
    ensures Parse(Print(n) + rest) == Got(n, rest)
  {
    if n >= 0xfd {
      var s := Print(n) + rest;
      var k := PayloadLength(s[0]);
      assert s[1..1 + k] == LE(n, k) && s[1 + k..] == rest;
      Pow256Values();
      FromLEofLE(n, k);
    }
  }

  lemma PrintOfParse(s: Bytes)
    requires Parse(s).Got?
    ensures s == Print(Parse(s).value) + Parse(s).rest
  {
    if s[0] < 0xfd {
      assert s == [s[0]] + s[1..];
    } else {
      var k := PayloadLength(s[0]);
      var payload := s[1..1 + k];
      Pow256Values();
      FromLEBound(payload);
      LEofFromLE(payload);
      assert s == ([s[0]] + payload) + s[1 + k..];
    }
  }

  /** Every value has one accepted form: overlong encodings are refused. */
  lemma VarintCodec()
    ensures IsCodec(Print, Parse)
  {
    forall x: uint64, rest ensures Parse(Print(x) + rest) == Got(x, rest) { ParseOfPrint(x, rest); }
    forall s | Parse(s).Got? ensures s == Print(Parse(s).value) + Parse(s).rest { PrintOfParse(s); }
  }

  /** The form byte by byte: one byte below 0xfd, else a marker and 2, 4 or 8 little-endian bytes. */
  lemma PrintLayout(n: uint64)
    ensures n < 0xfd ==> Print(n) == [n]
    ensures 0xfd <= n < 0x1_0000 ==> |Print(n)| == 3 && Print(n)[0] == 0xfd && FromLE(Print(n)[1..]) == n
    ensures 0x1_0000 <= n < 0x1_0000_0000 ==> |Print(n)| == 5 && Print(n)[0] == 0xfe && FromLE(Print(n)[1..]) == n
    ensures 0x1_0000_0000 <= n ==> |Print(n)| == 9 && Print(n)[0] == 0xff && FromLE(Print(n)[1..]) == n
  {
    if n >= 0xfd {
      var w := |Print(n)| - 1;
      assert Print(n)[1..] == LE(n, w);
      Pow256Values();
      FromLEofLE(n, w);
    }
  }

  method AppendLE(n: uint64, w: nat, out: Bytes) returns (r: Bytes)
    ensures r == out + LE(n, w)
  {
    r := out;
    var v: nat := n;
    for i := 0 to w
      invariant r + LE(v, w - i) == out + LE(n, w)
    {
      assert r + ([v % 256] + LE(v / 256, w - i - 1)) == (r + [v % 256]) + LE(v / 256, w - i - 1);
      r := r + [v % 256];
      v := v / 256;
    }
    assert r + LE(v, 0) == r;
  }

  method Write(n: uint64, out: Bytes) returns (r: Bytes)
    ensures r == out + Print(n)
  {
    if n < 0xfd {
      r := out + [n];
    } else if n <= 0xffff {
      r := AppendLE(n, 2, out + [0xfd]);
    } else if n <= 0xffff_ffff {
      r := AppendLE(n, 4, out + [0xfe]);
    } else {
      r := AppendLE(n, 8, out + [0xff]);
    }
  }

  method ReadLE(data: Bytes, off: nat, n: nat) returns (v: nat)
    requires off + n <= |data|
    ensures v == FromLE(data[off..off + n])
  {
    var scale: nat := 1;
    v := 0;
    for i := 0 to n
      invariant scale == Pow(256, i)
      invariant v == FromLE(data[off..off + i])
    {
      assert data[off..off + i + 1] == data[off..off + i] + [data[off + i]];
      FromLEAppend(data[off..off + i], data[off + i]);
      v := v + data[off + i] * scale;
      scale := scale * 256;
    }
  }

  /** Reads at offset off; the value and how many bytes it took. */
  method Read(data: Bytes, off: nat) returns (r: Result<(uint64, nat)>)
    ensures off > |data| ==> r == Err(EPARSE)
    ensures off <= |data| ==>
      match Parse(data[off..])
      case Stop => r == Err(EPARSE)
      case Got(v, rest) => r.Ok? && r.value.0 == v && off + r.value.1 <= |data| && rest == data[off + r.value.1..]
  {
    if off >= |data| { return Err(EPARSE); }
    var prefix := data[off];
    if prefix < 0xfd { return Ok((prefix, 1)); }
    var n := PayloadLength(prefix);
    if n > |data| - off - 1 { return Err(EPARSE); }
    var v := ReadLE(data, off + 1, n);
    assert data[off..][1..1 + n] == data[off + 1..off + 1 + n];
    assert data[off..][1 + n..] == data[off + 1 + n..];
    FromLEBound(data[off + 1..off + 1 + n]);
    Pow256Values();
    if v < LeastValue(prefix) { return Err(EPARSE); }
    return Ok((v, 1 + n));
  }
}

module Transaction {
  import opened Common
  import opened Numerals
  import opened Codec
  import Varint

  type Script = s: Bytes | |s| < 0x1_0000_0000_0000_0000 witness []

  /** prev is the previous txid in display order, the reverse of its wire bytes. */
  datatype TxIn = TxIn(prev: Bytes32, vout: uint32, script: Script, sequence: uint32)

  datatype TxOut = TxOut(satoshis: uint64, script: Script)

  datatype TxData = TxData(version: uint32, inputs: seq<TxIn>, outputs: seq<TxOut>, locktime: uint32)

  /** A transaction whose counts fit size_t, as every one in memory does. */
  type Tx = t: TxData
    | |t.inputs| < 0x1_0000_0000_0000_0000 && |t.outputs| < 0x1_0000_0000_0000_0000
    witness TxData(0, [], [], 0)

  // ---- the wire format ----------------------------------------------------

  function U32(v: uint32): (r: Bytes)
    ensures |r| == 4
  {
    LE(v, 4)
  }

  function U64(v: uint64): (r: Bytes)
    ensures |r| == 8
  {
    LE(v, 8)
  }

  function VarBytes(s: Script): (r: Bytes)
    ensures |r| >= 1 + |s|
  {
    Varint.Print(|s|) + s
  }

  datatype Outpoint = Outpoint(txid: Bytes32, vout: uint32)

  datatype Unlock = Unlock(script: Script, sequence: uint32)

  /** The previous txid goes onto the wire reversed. */
  function OutpointBytes(p: Outpoint): (r: Bytes)
    ensures |r| == 36
  {
    Reverse(p.txid) + U32(p.vout)
  }

  function UnlockBytes(u: Unlock): (r: Bytes)
    ensures |r| >= 5
  {
    VarBytes(u.script) + U32(u.sequence)
  }

  function InputBytes(i: TxIn): (r: Bytes)
    ensures |r| >= 41
  {
    OutpointBytes(Outpoint(i.prev, i.vout)) + UnlockBytes(Unlock(i.script, i.sequence))
  }

  function OutputBytes(o: TxOut): (r: Bytes)
    ensures |r| >= 9
  {
    U64(o.satoshis) + VarBytes(o.script)
  }

  function Serialize(t: Tx): Bytes {
    U32(t.version)
    + (Varint.Print(|t.inputs|) + (PrintMany(InputBytes, t.inputs)
    + (Varint.Print(|t.outputs|) + (PrintMany(OutputBytes, t.outputs)
    + U32(t.locktime)))))
  }

  // ---- reading it back ----------------------------------------------------

  function ParseU32(s: Bytes): Parsed<uint32> {
    if |s| < 4 then Stop
    else
      assert FromLE(s[..4]) < 0x1_0000_0000 by { FromLEBound(s[..4]); Pow256Values(); }
      Got(FromLE(s[..4]), s[4..])
  }

  function ParseU64(s: Bytes): Parsed<uint64> {
    if |s| < 8 then Stop
    else
      assert FromLE(s[..8]) < 0x1_0000_0000_0000_0000 by { FromLEBound(s[..8]); Pow256Values(); }
      Got(FromLE(s[..8]), s[8..])
  }

  function ParseVarBytes(s: Bytes): Parsed<Script> {
    match Varint.Parse(s)
    case Stop => Stop
    case Got(n, rest) => if n > |rest| then Stop else Got(rest[..n], rest[n..])
  }

  function ParseOutpoint(s: Bytes): Parsed<Outpoint> {
    if |s| < 32 then Stop
    else
      match ParseU32(s[32..])
      case Stop => Stop
      case Got(vout, rest) => Got(Outpoint(Reverse(s[..32]), vout), rest)
  }

  function ParseUnlock(s: Bytes): Parsed<Unlock> {
    match ParseVarBytes(s)
    case Stop => Stop
    case Got(script, s1) =>
      match ParseU32(s1)
      case Stop => Stop
      case Got(sequence, s2) => Got(Unlock(script, sequence), s2)
  }

  function ParseInput(s: Bytes): Parsed<TxIn> {
    match ParseOutpoint(s)
    case Stop => Stop
    case Got(p, s1) =>
      match ParseUnlock(s1)
      case Stop => Stop
      case Got(u, s2) => Got(TxIn(p.txid, p.vout, u.script, u.sequence), s2)
  }

  function ParseOutput(s: Bytes): Parsed<TxOut> {
    match ParseU64(s)
    case Stop => Stop
    case Got(satoshis, s1) =>
      match ParseVarBytes(s1)
      case Stop => Stop
      case Got(script, s2) => Got(TxOut(satoshis, script), s2)
  }

  /** A count, refused when n items of the least size cannot be there, then the items. */
  function ParseCounted<T>(parse: Bytes -> Parsed<T>, least: nat, s: Bytes): (r: Parsed<seq<T>>)
    requires least > 0
    ensures r.Got? ==> |r.value| < 0x1_0000_0000_0000_0000
  {
    match Varint.Parse(s)
    case Stop => Stop
    case Got(n, rest) => if n > |rest| / least then Stop else ParseMany(parse, n, rest)
  }

  function ParseTx(s: Bytes): Result<Tx> {
    match ParseU32(s)
    case Stop => Err(EPARSE)
    case Got(version, s1) =>
      match ParseCounted(ParseInput, 41, s1)
      case Stop => Err(EPARSE)
      case Got(inputs, s2) =>
        match ParseCounted(ParseOutput, 9, s2)
        case Stop => Err(EPARSE)
        case Got(outputs, s3) =>
          match ParseU32(s3)
          case Stop => Err(EPARSE)
          case Got(locktime, s4) =>
            if s4 != [] then Err(EPARSE) else Ok(TxData(version, inputs, outputs, locktime))
  }

  // ---- field codecs -------------------------------------------------------

  lemma U32Codec()
    ensures IsCodec(U32, ParseU32)
  {
    Pow256Values();
    forall v: uint32, rest ensures ParseU32(U32(v) + rest) == Got(v, rest) {
      FromLEofLE(v, 4);
      assert (U32(v) + rest)[..4] == U32(v) && (U32(v) + rest)[4..] == rest;
    }
    forall s | ParseU32(s).Got? ensures s == U32(ParseU32(s).value) + ParseU32(s).rest {
      LEofFromLE(s[..4]);
    }
  }

  lemma U64Codec()
    ensures IsCodec(U64, ParseU64)
  {
    Pow256Values();
    forall v: uint64, rest ensures ParseU64(U64(v) + rest) == Got(v, rest) {
      FromLEofLE(v, 8);
      assert (U64(v) + rest)[..8] == U64(v) && (U64(v) + rest)[8..] == rest;
    }
    forall s | ParseU64(s).Got? ensures s == U64(ParseU64(s).value) + ParseU64(s).rest {
      LEofFromLE(s[..8]);
    }
  }

  lemma VarBytesCodec()
    ensures IsCodec(VarBytes, ParseVarBytes)
  {
    hide Varint.Parse, Varint.Print;
    Varint.VarintCodec();
    forall x: Script, rest ensures ParseVarBytes(VarBytes(x) + rest) == Got(x, rest) {
      assert VarBytes(x) + rest == Varint.Print(|x|) + (x + rest);
    }
    forall s | ParseVarBytes(s).Got? ensures s == VarBytes(ParseVarBytes(s).value) + ParseVarBytes(s).rest {
      var tail := Varint.Parse(s).rest;
      var x, rest := ParseVarBytes(s).value, ParseVarBytes(s).rest;
      assert tail == x + rest;
      assert Varint.Print(|x|) + (x + rest) == VarBytes(x) + rest;
    }
  }

  lemma OutpointCodec()
    ensures IsCodec(OutpointBytes, ParseOutpoint)
  {
    U32Codec();
    forall p: Outpoint, rest ensures ParseOutpoint(OutpointBytes(p) + rest) == Got(p, rest) {
      var s := OutpointBytes(p) + rest;
      assert s[..32] == Reverse(p.txid) && s[32..] == U32(p.vout) + rest;
      ReverseTwice(p.txid);
    }
    forall s | ParseOutpoint(s).Got? ensures s == OutpointBytes(ParseOutpoint(s).value) + ParseOutpoint(s).rest {
      ReverseTwice(s[..32]);
      assert s == s[..32] + s[32..];
    }
  }

  lemma UnlockCodec()
    ensures IsCodec(UnlockBytes, ParseUnlock)
  {
    forall x: Unlock, rest ensures ParseUnlock(UnlockBytes(x) + rest) == Got(x, rest) {
      var s1 := U32(x.sequence) + rest;
      assert UnlockBytes(x) + rest == VarBytes(x.script) + s1;
      assert ParseVarBytes(VarBytes(x.script) + s1) == Got(x.script, s1) by { VarBytesCodec(); }
      assert ParseU32(s1) == Got(x.sequence, rest) by { U32Codec(); }
    }
    forall s | ParseUnlock(s).Got? ensures s == UnlockBytes(ParseUnlock(s).value) + ParseUnlock(s).rest {
      var x, rest, s1 := ParseUnlock(s).value, ParseUnlock(s).rest, ParseVarBytes(s).rest;
      assert s == VarBytes(x.script) + s1 by { VarBytesCodec(); }
      assert s1 == U32(x.sequence) + rest by { U32Codec(); }
    }
  }

  lemma InputCodec()
    ensures IsCodec(InputBytes, ParseInput)
  {
    hide ParseOutpoint, ParseUnlock, OutpointBytes, UnlockBytes;
    OutpointCodec();
    UnlockCodec();
    forall x: TxIn, rest ensures ParseInput(InputBytes(x) + rest) == Got(x, rest) {
      var p, u := Outpoint(x.prev, x.vout), Unlock(x.script, x.sequence);
      assert InputBytes(x) + rest == OutpointBytes(p) + (UnlockBytes(u) + rest);
    }
    forall s | ParseInput(s).Got? ensures s == InputBytes(ParseInput(s).value) + ParseInput(s).rest {
      var p := ParseOutpoint(s);
      var u := ParseUnlock(p.rest);
      assert s == OutpointBytes(p.value) + (UnlockBytes(u.value) + u.rest);
    }
  }

  lemma OutputCodec()
    ensures IsCodec(OutputBytes, ParseOutput)
  {
    U64Codec();
    VarBytesCodec();
    forall x: TxOut, rest ensures ParseOutput(OutputBytes(x) + rest) == Got(x, rest) {
      assert OutputBytes(x) + rest == U64(x.satoshis) + (VarBytes(x.script) + rest);
    }
    forall s | ParseOutput(s).Got? ensures s == OutputBytes(ParseOutput(s).value) + ParseOutput(s).rest {
      var x, rest := ParseOutput(s).value, ParseOutput(s).rest;
      assert s == U64(x.satoshis) + (VarBytes(x.script) + rest);
    }
  }

  // ---- counted lists ------------------------------------------------------

  function Counted<T>(show: T -> Bytes, xs: seq<T>): Bytes
    requires |xs| < 0x1_0000_0000_0000_0000
  {
    Varint.Print(|xs|) + PrintMany(show, xs)
  }

  /** The guard on the count never refuses a list that really is there. */
  lemma ParseCountedOfPrint<T(!new)>(show: T -> Bytes, parse: Bytes -> Parsed<T>, least: nat, xs: seq<T>, rest: Bytes)
    requires IsCodec(show, parse) && least > 0 && |xs| < 0x1_0000_0000_0000_0000
    requires forall x :: |show(x)| >= least
    ensures ParseCounted(parse, least, Counted(show, xs) + rest) == Got(xs, rest)
  {
    Varint.ParseOfPrint(|xs|, PrintMany(show, xs) + rest);
    assert Counted(show, xs) + rest == Varint.Print(|xs|) + (PrintMany(show, xs) + rest);
    ParseManyOfPrint(show, parse, xs, rest);
    PrintManyLength(show, xs, least);
    CountFits(|xs|, least, |PrintMany(show, xs) + rest|);
  }

  lemma CountFits(n: nat, least: nat, len: nat)
    requires least > 0 && n * least <= len
    ensures n <= len / least
  {
    var q := len / least;
    assert len == q * least + len % least;
    assert q + 1 <= n ==> (q + 1) * least <= n * least;
  }

  lemma PrintOfParseCounted<T(!new)>(show: T -> Bytes, parse: Bytes -> Parsed<T>, least: nat, s: Bytes)
    requires IsCodec(show, parse) && least > 0
    ensures var r := ParseCounted(parse, least, s);
            r.Got? ==> s == Counted(show, r.value) + r.rest
  {
    var r := ParseCounted(parse, least, s);
    if r.Got? {
      Varint.PrintOfParse(s);
      var head := Varint.Parse(s);
      PrintOfParseMany(show, parse, head.value, head.rest);
      assert Varint.Print(|r.value|) + (PrintMany(show, r.value) + r.rest) == Counted(show, r.value) + r.rest;
    }
  }

  // ---- the two undo each other --------------------------------------------

  lemma SerializeShape(t: Tx)
    ensures Serialize(t) == U32(t.version) + (Counted(InputBytes, t.inputs)
                          + (Counted(OutputBytes, t.outputs) + (U32(t.locktime) + [])))
  {
    var tail := Counted(OutputBytes, t.outputs) + (U32(t.locktime) + []);
    assert tail == Varint.Print(|t.outputs|) + (PrintMany(OutputBytes, t.outputs) + U32(t.locktime));
  }

  lemma ItemSizes()
    ensures forall x :: |InputBytes(x)| >= 41
    ensures forall x :: |OutputBytes(x)| >= 9
  {
  }

  /** Parsing a serialized transaction gives it back; the count guards never stand in the way. */
  lemma DeserializeOfSerialize(t: Tx)
    ensures ParseTx(Serialize(t)) == Ok(t)
  {
    SerializeShape(t);
    hide Serialize, U32, ParseU32, InputBytes, ParseInput, OutputBytes, ParseOutput, Counted, ParseCounted;
    U32Codec();
    InputCodec();
    OutputCodec();
    ItemSizes();
    var s3 := U32(t.locktime) + [];
    var s2 := Counted(OutputBytes, t.outputs) + s3;
    ParseCountedOfPrint(OutputBytes, ParseOutput, 9, t.outputs, s3);
    ParseCountedOfPrint(InputBytes, ParseInput, 41, t.inputs, s2);
  }

  /** Whatever parses is the serialization of its parse: no overlong counts, no trailing bytes. */
  lemma SerializeOfDeserialize(s: Bytes)
    requires ParseTx(s).Ok?
    ensures Serialize(ParseTx(s).value) == s
  {
    U32Codec();
    InputCodec();
    OutputCodec();
    var t := ParseTx(s).value;
    SerializeShape(t);
    var s1 := ParseU32(s).rest;
    PrintOfParseCounted(InputBytes, ParseInput, 41, s1);
    var s2 := ParseCounted(ParseInput, 41, s1).rest;
    PrintOfParseCounted(OutputBytes, ParseOutput, 9, s2);
  }

  /** No two byte strings parse to the same transaction. */
  lemma DeserializeInjective(s: Bytes, s': Bytes)
    requires ParseTx(s).Ok? && ParseTx(s) == ParseTx(s')
    ensures s == s'
  {
    SerializeOfDeserialize(s);
    SerializeOfDeserialize(s');
  }

  // ---- the layout, by position --------------------------------------------

  lemma U32Value(v: uint32)
    ensures FromLE(U32(v)) == v
  {
    Pow256Values();
    FromLEofLE(v, 4);
  }

  lemma U64Value(v: uint64)
    ensures FromLE(U64(v)) == v
  {
    Pow256Values();
    FromLEofLE(v, 8);
  }

  /** The txid byte-reversed, the output number in four bytes. */
  lemma OutpointLayout(p: Outpoint)
    ensures var s := OutpointBytes(p);
            && |s| == 36
            && s[..32] == Reverse(p.txid)
            && FromLE(s[32..36]) == p.vout
  {
    U32Value(p.vout);
    hide U32, FromLE, Reverse;
    assert OutpointBytes(p)[32..36] == U32(p.vout);
  }

  /** Outpoint, script length, script, sequence. */
  lemma InputLayout(x: TxIn)
    ensures var s, len := InputBytes(x), Varint.Print(|x.script|);
            && |s| == 40 + |len| + |x.script|
            && s[..32] == Reverse(x.prev)
            && FromLE(s[32..36]) == x.vout
            && s[36..36 + |len|] == len
            && s[36 + |len|..|s| - 4] == x.script
            && FromLE(s[|s| - 4..]) == x.sequence
  {
    var s, len, p := InputBytes(x), Varint.Print(|x.script|), Outpoint(x.prev, x.vout);
    OutpointLayout(p);
    U32Value(x.sequence);
    hide OutpointBytes, U32, FromLE, Varint.Print, Reverse;
    assert s == OutpointBytes(p) + len + x.script + U32(x.sequence);
    assert s[..32] == OutpointBytes(p)[..32];
    assert s[32..36] == OutpointBytes(p)[32..36];
    assert s[|s| - 4..] == U32(x.sequence);
  }

  /** Value, script length, script. */
  lemma OutputLayout(o: TxOut)
    ensures var s, len := OutputBytes(o), Varint.Print(|o.script|);
            && |s| == 8 + |len| + |o.script|
            && FromLE(s[..8]) == o.satoshis
            && s[8..8 + |len|] == len
            && s[8 + |len|..] == o.script
  {
    var s, len := OutputBytes(o), Varint.Print(|o.script|);
    U64Value(o.satoshis);
    hide U64, FromLE, Varint.Print;
    assert s == U64(o.satoshis) + len + o.script;
    assert s[..8] == U64(o.satoshis);
  }

  /** Version, counted inputs, counted outputs, lock time; item i of a list behind the ones before it. */
  lemma SerializeLayout(t: Tx)
    ensures var s := Serialize(t);
            var ins, outs := Varint.Print(|t.inputs|), Varint.Print(|t.outputs|);
            var inBytes, outBytes := PrintMany(InputBytes, t.inputs), PrintMany(OutputBytes, t.outputs);
            var mid := 4 + |ins| + |inBytes|;
            && |s| == mid + |outs| + |outBytes| + 4
            && FromLE(s[..4]) == t.version
            && s[4..4 + |ins|] == ins
            && s[4 + |ins|..mid] == inBytes
            && s[mid..mid + |outs|] == outs
            && s[mid + |outs|..|s| - 4] == outBytes
            && FromLE(s[|s| - 4..]) == t.locktime
  {
    hide *;
    var s := Serialize(t);
    var ins, outs := Varint.Print(|t.inputs|), Varint.Print(|t.outputs|);
    var inBytes, outBytes := PrintMany(InputBytes, t.inputs), PrintMany(OutputBytes, t.outputs);
    U32Value(t.version);
    U32Value(t.locktime);
    SerializeParts(t);
    Slices(s, U32(t.version), ins, inBytes, outs, outBytes, U32(t.locktime));
  }

  lemma SerializeParts(t: Tx)
    ensures Serialize(t) == U32(t.version) + (Varint.Print(|t.inputs|) + (PrintMany(InputBytes, t.inputs)
                          + (Varint.Print(|t.outputs|) + (PrintMany(OutputBytes, t.outputs) + U32(t.locktime)))))
  {
  }

  lemma Slices(s: Bytes, a: Bytes, b: Bytes, c: Bytes, d: Bytes, e: Bytes, f: Bytes)
    requires s == a + (b + (c + (d + (e + f))))
    ensures var p1, p2, p3 := |a| + |b|, |a| + |b| + |c|, |a| + |b| + |c| + |d|;
            && |s| == p3 + |e| + |f|
            && s[..|a|] == a && s[|a|..p1] == b && s[p1..p2] == c && s[p2..p3] == d
            && s[p3..|s| - |f|] == e && s[|s| - |f|..] == f
  {
    After1(a, b + (c + (d + (e + f))), |b|);
    var s1 := b + (c + (d + (e + f)));
    assert s[|a|..] == s1;
    var s2 := c + (d + (e + f));
    assert s1[|b|..] == s2;
    var s3 := d + (e + f);
    assert s2[|c|..] == s3;
    assert s3[|d|..] == e + f;
    assert s[|a| + |b|..] == s1[|b|..];
    assert s[|a| + |b| + |c|..] == s2[|c|..];
    assert s[|a| + |b| + |c| + |d|..] == s3[|d|..];
  }

  lemma After1(a: Bytes, rest: Bytes, n: nat)
    requires n <= |rest|
    ensures (a + rest)[|a|..|a| + n] == rest[..n]
  {
  }

  // ---- the cursor loops ---------------------------------------------------

  /** The outcome of a cursor read: the value and the offset after it. */
  ghost predicate Reads<T>(d: Bytes, r: Result<(T, nat)>, p: Parsed<T>) {
    match p
    case Stop => r == Err(EPARSE)
    case Got(v, rest) => r.Ok? && r.value.0 == v && r.value.1 <= |d| && rest == d[r.value.1..]
  }

  method ReadU32(d: Bytes, off: nat) returns (r: Result<(uint32, nat)>)
    requires off <= |d|
    ensures Reads(d, r, ParseU32(d[off..]))
  {
    if off + 4 > |d| { return Err(EPARSE); }
    var v := Varint.ReadLE(d, off, 4);
    assert d[off..][..4] == d[off..off + 4] && d[off..][4..] == d[off + 4..];
    FromLEBound(d[off..off + 4]);
    Pow256Values();
    return Ok((v, off + 4));
  }

  method ReadU64(d: Bytes, off: nat) returns (r: Result<(uint64, nat)>)
    requires off <= |d|
    ensures Reads(d, r, ParseU64(d[off..]))
  {
    if off + 8 > |d| { return Err(EPARSE); }
    var v := Varint.ReadLE(d, off, 8);
    assert d[off..][..8] == d[off..off + 8] && d[off..][8..] == d[off + 8..];
    FromLEBound(d[off..off + 8]);
    Pow256Values();
    return Ok((v, off + 8));
  }

  method ReadVarBytes(d: Bytes, off: nat) returns (r: Result<(Script, nat)>)
    requires off <= |d|
    ensures Reads(d, r, ParseVarBytes(d[off..]))
  {
    var n := Varint.Read(d, off);
    if n.Err? { return Err(EPARSE); }
    var start, len := off + n.value.1, n.value.0;
    if len > |d| - start { return Err(EPARSE); }
    assert d[start..][..len] == d[start..start + len] && d[start..][len..] == d[start + len..];
    return Ok((d[start..start + len], start + len));
  }

  method ReadOutpoint(d: Bytes, off: nat) returns (r: Result<(Outpoint, nat)>)
    requires off <= |d|
    ensures Reads(d, r, ParseOutpoint(d[off..]))
  {
    if |d| - off < 32 { return Err(EPARSE); }
    assert d[off..][..32] == d[off..off + 32] && d[off..][32..] == d[off + 32..];
    var vout := ReadU32(d, off + 32);
    if vout.Err? { return Err(EPARSE); }
    return Ok((Outpoint(Reverse(d[off..off + 32]), vout.value.0), vout.value.1));
  }

  method ReadInput(d: Bytes, off: nat) returns (r: Result<(TxIn, nat)>)
    requires off <= |d|
    ensures Reads(d, r, ParseInput(d[off..]))
  {
    var p := ReadOutpoint(d, off);
    if p.Err? { return Err(EPARSE); }
    var script := ReadVarBytes(d, p.value.1);
    if script.Err? { return Err(EPARSE); }
    var sequence := ReadU32(d, script.value.1);
    if sequence.Err? { return Err(EPARSE); }
    return Ok((TxIn(p.value.0.txid, p.value.0.vout, script.value.0, sequence.value.0), sequence.value.1));
  }

  method ReadOutput(d: Bytes, off: nat) returns (r: Result<(TxOut, nat)>)
    requires off <= |d|
    ensures Reads(d, r, ParseOutput(d[off..]))
  {
    var satoshis := ReadU64(d, off);
    if satoshis.Err? { return Err(EPARSE); }
    var script := ReadVarBytes(d, satoshis.value.1);
    if script.Err? { return Err(EPARSE); }
    return Ok((TxOut(satoshis.value.0, script.value.0), script.value.1));
  }

  /** What is left to do after some items have been read in front. */
  ghost function After<T>(front: seq<T>, p: Parsed<seq<T>>): Parsed<seq<T>> {
    match p
    case Stop => Stop
    case Got(xs, rest) => Got(front + xs, rest)
  }

  lemma AfterOne<T>(parse: Bytes -> Parsed<T>, front: seq<T>, n: nat, s: Bytes)
    requires n > 0
    ensures parse(s).Stop? ==> After(front, ParseMany(parse, n, s)) == Stop
    ensures parse(s).Got? ==>
      After(front, ParseMany(parse, n, s)) == After(front + [parse(s).value], ParseMany(parse, n - 1, parse(s).rest))
  {
    if parse(s).Got? && ParseMany(parse, n - 1, parse(s).rest).Got? {
      var xs := ParseMany(parse, n - 1, parse(s).rest).value;
      assert front + ([parse(s).value] + xs) == (front + [parse(s).value]) + xs;
    }
  }

  method ReadInputs(d: Bytes, off: nat) returns (r: Result<(seq<TxIn>, nat)>)
    requires off <= |d|
    ensures Reads(d, r, ParseCounted(ParseInput, 41, d[off..]))
  {
    var n := Varint.Read(d, off);
    if n.Err? { return Err(EPARSE); }
    if n.value.0 > (|d| - (off + n.value.1)) / 41 { return Err(EPARSE); }
    r := ReadInputLoop(d, off + n.value.1, n.value.0);
  }

  method ReadInputLoop(d: Bytes, off: nat, count: nat) returns (r: Result<(seq<TxIn>, nat)>)
    requires off <= |d|
    ensures Reads(d, r, ParseMany(ParseInput, count, d[off..]))
  {
    hide ParseInput;
    ghost var whole := ParseMany(ParseInput, count, d[off..]);
    var xs: seq<TxIn>, cur: nat := [], off;
    assert whole.Got? ==> [] + whole.value == whole.value;
    for i := 0 to count
      invariant cur <= |d|
      invariant After(xs, ParseMany(ParseInput, count - i, d[cur..])) == whole
    {
      AfterOne(ParseInput, xs, count - i, d[cur..]);
      var x := ReadInput(d, cur);
      if x.Err? { return Err(EPARSE); }
      xs := xs + [x.value.0];
      cur := x.value.1;
    }
    assert xs + [] == xs;
    return Ok((xs, cur));
  }

  method ReadOutputs(d: Bytes, off: nat) returns (r: Result<(seq<TxOut>, nat)>)
    requires off <= |d|
    ensures Reads(d, r, ParseCounted(ParseOutput, 9, d[off..]))
  {
    var n := Varint.Read(d, off);
    if n.Err? { return Err(EPARSE); }
    if n.value.0 > (|d| - (off + n.value.1)) / 9 { return Err(EPARSE); }
    r := ReadOutputLoop(d, off + n.value.1, n.value.0);
  }

  method ReadOutputLoop(d: Bytes, off: nat, count: nat) returns (r: Result<(seq<TxOut>, nat)>)
    requires off <= |d|
    ensures Reads(d, r, ParseMany(ParseOutput, count, d[off..]))
  {
    hide ParseOutput;
    ghost var whole := ParseMany(ParseOutput, count, d[off..]);
    var xs: seq<TxOut>, cur: nat := [], off;
    assert whole.Got? ==> [] + whole.value == whole.value;
    for i := 0 to count
      invariant cur <= |d|
      invariant After(xs, ParseMany(ParseOutput, count - i, d[cur..])) == whole
    {
      AfterOne(ParseOutput, xs, count - i, d[cur..]);
      var x := ReadOutput(d, cur);
      if x.Err? { return Err(EPARSE); }
      xs := xs + [x.value.0];
      cur := x.value.1;
    }
    assert xs + [] == xs;
    return Ok((xs, cur));
  }

  method Deserialize(d: Bytes) returns (r: Result<Tx>)
    ensures r == ParseTx(d)
    ensures forall t: Tx :: r == Ok(t) <==> d == Serialize(t)
    ensures r.Err? ==> r == Err(EPARSE)
  {
    assert d[0..] == d;
    r := Err(EPARSE);
    var version := ReadU32(d, 0);
    if version.Ok? {
      var inputs := ReadInputs(d, version.value.1);
      if inputs.Ok? {
        var outputs := ReadOutputs(d, inputs.value.1);
        if outputs.Ok? {
          var locktime := ReadU32(d, outputs.value.1);
          if locktime.Ok? && locktime.value.1 == |d| {
            r := Ok(TxData(version.value.0, inputs.value.0, outputs.value.0, locktime.value.0));
          }
        }
      }
    }
    assert r == ParseTx(d);
    forall t: Tx ensures r == Ok(t) <==> d == Serialize(t) {
      DeserializeOfSerialize(t);
      if r.Ok? { SerializeOfDeserialize(d); }
    }
  }

  method SerializeTo(t: Tx, out: Bytes) returns (r: Bytes)
    ensures r == out + Serialize(t)
  {
    SerializeShape(t);
    hide Serialize, Counted, InputBytes, OutputBytes, LE;
    r := Varint.AppendLE(t.version, 4, out);
    r := WriteInputs(t.inputs, r);
    r := WriteOutputs(t.outputs, r);
    r := Varint.AppendLE(t.locktime, 4, r);
  }

  method WriteInputs(xs: seq<TxIn>, out: Bytes) returns (r: Bytes)
    requires |xs| < 0x1_0000_0000_0000_0000
    ensures r == out + Counted(InputBytes, xs)
  {
    hide InputBytes, OutputBytes, Varint.Print;
    r := Varint.Write(|xs|, out);
    for i := 0 to |xs|
      invariant r == out + (Varint.Print(|xs|) + PrintMany(InputBytes, xs[..i]))
    {
      assert xs[..i + 1] == xs[..i] + [xs[i]];
      PrintManyAppend(InputBytes, xs[..i], xs[i]);
      r := WriteInput(xs[i], r);
    }
    assert xs[..|xs|] == xs;
  }

  method WriteOutputs(xs: seq<TxOut>, out: Bytes) returns (r: Bytes)
    requires |xs| < 0x1_0000_0000_0000_0000
    ensures r == out + Counted(OutputBytes, xs)
  {
    hide InputBytes, OutputBytes, Varint.Print;
    r := Varint.Write(|xs|, out);
    for i := 0 to |xs|
      invariant r == out + (Varint.Print(|xs|) + PrintMany(OutputBytes, xs[..i]))
    {
      assert xs[..i + 1] == xs[..i] + [xs[i]];
      PrintManyAppend(OutputBytes, xs[..i], xs[i]);
      r := WriteOutput(xs[i], r);
    }
    assert xs[..|xs|] == xs;
  }

  method WriteOutpoint(x: TxIn, out: Bytes) returns (r: Bytes)
    ensures r == out + OutpointBytes(Outpoint(x.prev, x.vout))
  {
    r := out + Reverse(x.prev);
    r := Varint.AppendLE(x.vout, 4, r);
  }

  method WriteInput(x: TxIn, out: Bytes) returns (r: Bytes)
    ensures r == out + InputBytes(x)
  {
    r := WriteOutpoint(x, out);
    ghost var head := r;
    r := Varint.Write(|x.script|, r);
    r := r + x.script;
    r := Varint.AppendLE(x.sequence, 4, r);
    assert r == head + UnlockBytes(Unlock(x.script, x.sequence));
  }

  method WriteOutput(o: TxOut, out: Bytes) returns (r: Bytes)
    ensures r == out + OutputBytes(o)
  {
    r := Varint.AppendLE(o.satoshis, 8, out);
    r := Varint.Write(|o.script|, r);
    r := r + o.script;
  }
}
