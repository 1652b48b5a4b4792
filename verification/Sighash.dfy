/** The BIP 143 sighash preimage (src/bsv/sighash.c). */
module Sighash {
  import opened Common
  import opened Codec
  import opened Transaction
  import Varint
  import Numerals

  function Points(ins: seq<TxIn>): (r: seq<Outpoint>)
    ensures |r| == |ins|
    ensures forall i :: 0 <= i < |ins| ==> r[i] == Outpoint(ins[i].prev, ins[i].vout)
  {
    seq(|ins|, i requires 0 <= i < |ins| => Outpoint(ins[i].prev, ins[i].vout))
  }

  function Sequences(ins: seq<TxIn>): (r: seq<uint32>)
    ensures |r| == |ins|
    ensures forall i :: 0 <= i < |ins| ==> r[i] == ins[i].sequence
  {
    seq(|ins|, i requires 0 <= i < |ins| => ins[i].sequence)
  }

  function PrevoutBytes(t: Tx): Bytes {
    PrintMany(OutpointBytes, Points(t.inputs))
  }

  function SequenceBytes(t: Tx): Bytes {
    PrintMany(U32, Sequences(t.inputs))
  }

  function OutputsBytes(t: Tx): Bytes {
    PrintMany(OutputBytes, t.outputs)
  }

  /** One signing request: which input, what it unlocks, and under which sighash type. */
  datatype Spend = Spend(index: nat, scriptCode: Script, satoshis: uint64, sighashType: byte)

  /** The fields in the order of BIP 143, section Specification. */
  function Preimage(h: Hash, t: Tx, s: Spend): Bytes
    requires s.index < |t.inputs|
  {
    var i := t.inputs[s.index];
    U32(t.version) + (h(PrevoutBytes(t)) + (h(SequenceBytes(t)) + (OutpointBytes(Outpoint(i.prev, i.vout))
    + (VarBytes(s.scriptCode) + (U64(s.satoshis) + (U32(i.sequence) + (h(OutputsBytes(t))
    + (U32(t.locktime) + U32(s.sighashType)))))))))
  }

  // ---- building it --------------------------------------------------------

  method HashPrevouts(h: Hash, t: Tx) returns (r: Bytes32)
    ensures r == h(PrevoutBytes(t))
  {
    hide OutpointBytes;
    var acc: Bytes := [];
    for i := 0 to |t.inputs|
      invariant acc == PrintMany(OutpointBytes, Points(t.inputs)[..i])
    {
      assert Points(t.inputs)[..i + 1] == Points(t.inputs)[..i] + [Points(t.inputs)[i]];
      PrintManyAppend(OutpointBytes, Points(t.inputs)[..i], Points(t.inputs)[i]);
      acc := WriteOutpoint(t.inputs[i], acc);
    }
    assert Points(t.inputs)[..|t.inputs|] == Points(t.inputs);
    r := h(acc);
  }

  method HashSequence(h: Hash, t: Tx) returns (r: Bytes32)
    ensures r == h(SequenceBytes(t))
  {
    var acc: Bytes := [];
    for i := 0 to |t.inputs|
      invariant acc == PrintMany(U32, Sequences(t.inputs)[..i])
    {
      assert Sequences(t.inputs)[..i + 1] == Sequences(t.inputs)[..i] + [Sequences(t.inputs)[i]];
      PrintManyAppend(U32, Sequences(t.inputs)[..i], Sequences(t.inputs)[i]);
      acc := Varint.AppendLE(t.inputs[i].sequence, 4, acc);
    }
    assert Sequences(t.inputs)[..|t.inputs|] == Sequences(t.inputs);
    r := h(acc);
  }

  method HashOutputs(h: Hash, t: Tx) returns (r: Bytes32)
    ensures r == h(OutputsBytes(t))
  {
    hide OutputBytes;
    var acc: Bytes := [];
    for i := 0 to |t.outputs|
      invariant acc == PrintMany(OutputBytes, t.outputs[..i])
    {
      assert t.outputs[..i + 1] == t.outputs[..i] + [t.outputs[i]];
      PrintManyAppend(OutputBytes, t.outputs[..i], t.outputs[i]);
      acc := WriteOutput(t.outputs[i], acc);
    }
    assert t.outputs[..|t.outputs|] == t.outputs;
    r := h(acc);
  }

  method BuildPreimage(h: Hash, t: Tx, s: Spend, out: Bytes) returns (r: Result<Bytes>)
    ensures if s.index >= |t.inputs| then r == Err(EINVAL) else r == Ok(out + Preimage(h, t, s))
  {
    if s.index >= |t.inputs| { return Err(EINVAL); }
    hide PrevoutBytes, SequenceBytes, OutputsBytes, OutpointBytes, Numerals.LE;
    var hp := HashPrevouts(h, t);
    var hs := HashSequence(h, t);
    var ho := HashOutputs(h, t);
    var i := t.inputs[s.index];
    var b := Varint.AppendLE(t.version, 4, out);
    b := b + hp;
    b := b + hs;
    b := WriteOutpoint(i, b);
    b := WriteScript(s.scriptCode, b);
    b := Varint.AppendLE(s.satoshis, 8, b);
    b := Varint.AppendLE(i.sequence, 4, b);
    b := b + ho;
    b := Varint.AppendLE(t.locktime, 4, b);
    b := Varint.AppendLE(s.sighashType, 4, b);
    Regroup(out, U32(t.version), hp, hs, OutpointBytes(Outpoint(i.prev, i.vout)), VarBytes(s.scriptCode),
            U64(s.satoshis), U32(i.sequence), ho, U32(t.locktime), U32(s.sighashType));
    return Ok(b);
  }

  method WriteScript(script: Script, out: Bytes) returns (r: Bytes)
    ensures r == out + VarBytes(script)
  {
    r := Varint.Write(|script|, out);
    r := r + script;
  }

  lemma Assoc(x: Bytes, y: Bytes, z: Bytes)
    ensures (x + y) + z == x + (y + z)
  {
  }

  lemma Regroup(x: Bytes, a: Bytes, b: Bytes, c: Bytes, d: Bytes, e: Bytes, f: Bytes, g: Bytes, h: Bytes, i: Bytes,
                j: Bytes)
    ensures x + a + b + c + d + e + f + g + h + i + j
         == x + (a + (b + (c + (d + (e + (f + (g + (h + (i + j)))))))))
  {
    Assoc(x + a + b + c + d + e + f + g + h, i, j);
    Assoc(x + a + b + c + d + e + f + g, h, i + j);
    Assoc(x + a + b + c + d + e + f, g, h + (i + j));
    Assoc(x + a + b + c + d + e, f, g + (h + (i + j)));
    Assoc(x + a + b + c + d, e, f + (g + (h + (i + j))));
    Assoc(x + a + b + c, d, e + (f + (g + (h + (i + j)))));
    Assoc(x + a + b, c, d + (e + (f + (g + (h + (i + j))))));
    Assoc(x + a, b, c + (d + (e + (f + (g + (h + (i + j)))))));
    Assoc(x, a, b + (c + (d + (e + (f + (g + (h + (i + j))))))));
  }

  // ---- the layout, by position --------------------------------------------

  /** Part of an item found at some place. */
  lemma SubSlice(s: Bytes, at: nat, item: Bytes, a: nat, b: nat)
    requires at + |item| <= |s| && s[at..at + |item|] == item && a <= b <= |item|
    ensures s[at + a..at + b] == item[a..b]
  {
    forall k | 0 <= k < b - a ensures s[at + a..at + b][k] == item[a..b][k] {
      assert s[at..at + |item|][a + k] == item[a + k];
    }
  }

  /** The outpoint digest is over 36 bytes an input: the txid reversed and the output number. */
  lemma PrevoutLayout(t: Tx, i: nat)
    requires i < |t.inputs|
    ensures var s := PrevoutBytes(t);
            && |s| == 36 * |t.inputs|
            && s[36 * i..36 * i + 32] == Numerals.Reverse(t.inputs[i].prev)
            && Numerals.FromLE(s[36 * i + 32..36 * i + 36]) == t.inputs[i].vout
  {
    var ps := Points(t.inputs);
    PrintManyWidth(OutpointBytes, ps, 36);
    PrintManyWidth(OutpointBytes, ps[..i], 36);
    PrintManyAt(OutpointBytes, ps, i);
    OutpointLayout(ps[i]);
    hide OutpointBytes, PrintMany, Numerals.FromLE, Numerals.Reverse;
    var s := PrevoutBytes(t);
    SubSlice(s, 36 * i, OutpointBytes(ps[i]), 0, 32);
    SubSlice(s, 36 * i, OutpointBytes(ps[i]), 32, 36);
  }

  /** The sequence digest is over four bytes an input. */
  lemma SequenceLayout(t: Tx, i: nat)
    requires i < |t.inputs|
    ensures var s := SequenceBytes(t);
            |s| == 4 * |t.inputs| && Numerals.FromLE(s[4 * i..4 * i + 4]) == t.inputs[i].sequence
  {
    var qs := Sequences(t.inputs);
    PrintManyWidth(U32, qs, 4);
    PrintManyWidth(U32, qs[..i], 4);
    PrintManyAt(U32, qs, i);
    U32Value(qs[i]);
    hide U32, PrintMany, Numerals.FromLE;
  }

  lemma OutputsAre(t: Tx)
    ensures OutputsBytes(t) == PrintMany(OutputBytes, t.outputs)
  {
  }

  /** How far output i is into the digested outputs. */
  function OutputOffset(outs: seq<TxOut>, i: nat): nat
    requires i <= |outs|
  {
    if i == 0 then 0
    else OutputOffset(outs, i - 1) + 8 + |Varint.Print(|outs[i - 1].script|)| + |outs[i - 1].script|
  }

  lemma {:induction false} OffsetIs(outs: seq<TxOut>, i: nat)
    requires i <= |outs|
    ensures |PrintMany(OutputBytes, outs[..i])| == OutputOffset(outs, i)
  {
    hide OutputBytes, PrintMany, Varint.Print, Numerals.FromLE;
    if i > 0 {
      OffsetIs(outs, i - 1);
      assert outs[..i] == outs[..i - 1] + [outs[i - 1]];
      PrintManyAppend(OutputBytes, outs[..i - 1], outs[i - 1]);
      OutputLayout(outs[i - 1]);
    } else {
      assert outs[..0] == [];
      PrintNone(OutputBytes);
    }
  }

  /** The output digest is over the outputs back to back: value, script length, script. */
  lemma OutputsLayout(t: Tx, i: nat)
    requires i < |t.outputs|
    ensures var s, at, o := OutputsBytes(t), OutputOffset(t.outputs, i), t.outputs[i];
            var len := Varint.Print(|o.script|);
            && |s| == OutputOffset(t.outputs, |t.outputs|)
            && at + 8 + |len| + |o.script| <= |s|
            && Numerals.FromLE(s[at..at + 8]) == o.satoshis
            && s[at + 8..at + 8 + |len|] == len
            && s[at + 8 + |len|..at + 8 + |len| + |o.script|] == o.script
  {
    hide *;
    var s, at, o := OutputsBytes(t), OutputOffset(t.outputs, i), t.outputs[i];
    var len := Varint.Print(|o.script|);
    OutputsAre(t);
    OffsetIs(t.outputs, i);
    OffsetIs(t.outputs, |t.outputs|);
    assert t.outputs[..|t.outputs|] == t.outputs;
    PrintManyAt(OutputBytes, t.outputs, i);
    OutputLayout(o);
    var item := OutputBytes(o);
    SubSlice(s, at, item, 0, 8);
    SubSlice(s, at, item, 8, 8 + |len|);
    SubSlice(s, at, item, 8 + |len|, |item|);
  }

  /** Ten fields in the order of BIP 143, section Specification, each at its place. */
  lemma PreimageLayout(h: Hash, t: Tx, s: Spend)
    requires s.index < |t.inputs|
    ensures var pre, x := Preimage(h, t, s), t.inputs[s.index];
            var len := Varint.Print(|s.scriptCode|);
            var end := |pre|;
            && end == 156 + |len| + |s.scriptCode|
            && Numerals.FromLE(pre[..4]) == t.version
            && pre[4..36] == h(PrevoutBytes(t))
            && pre[36..68] == h(SequenceBytes(t))
            && pre[68..100] == Numerals.Reverse(x.prev)
            && Numerals.FromLE(pre[100..104]) == x.vout
            && pre[104..104 + |len|] == len
            && pre[104 + |len|..end - 52] == s.scriptCode
            && Numerals.FromLE(pre[end - 52..end - 44]) == s.satoshis
            && Numerals.FromLE(pre[end - 44..end - 40]) == x.sequence
            && pre[end - 40..end - 8] == h(OutputsBytes(t))
            && Numerals.FromLE(pre[end - 8..end - 4]) == t.locktime
            && Numerals.FromLE(pre[end - 4..]) == s.sighashType
  {
    hide *;
    var pre, x := Preimage(h, t, s), t.inputs[s.index];
    var len, p := Varint.Print(|s.scriptCode|), Outpoint(x.prev, x.vout);
    OutpointLayout(p);
    U32Value(t.version);
    U64Value(s.satoshis);
    U32Value(x.sequence);
    U32Value(t.locktime);
    U32Value(s.sighashType);
    PreimageParts(h, t, s);
    var amount, order := U64(s.satoshis), U32(x.sequence);
    var head := U32(t.version) + h(PrevoutBytes(t)) + h(SequenceBytes(t)) + OutpointBytes(p);
    var tail := amount + order + h(OutputsBytes(t)) + U32(t.locktime) + U32(s.sighashType);
    HeadTail(U32(t.version), h(PrevoutBytes(t)), h(SequenceBytes(t)), OutpointBytes(p), len, s.scriptCode,
             amount, order, h(OutputsBytes(t)), U32(t.locktime), U32(s.sighashType));
    HeadFields(pre, U32(t.version), h(PrevoutBytes(t)), h(SequenceBytes(t)), OutpointBytes(p),
               len + s.scriptCode + tail);
    TailSlices(pre, head + len + s.scriptCode, amount, order, h(OutputsBytes(t)), U32(t.locktime), U32(s.sighashType));
    MiddleFields(pre, head, len, s.scriptCode, tail);
  }

  lemma PreimageParts(h: Hash, t: Tx, s: Spend)
    requires s.index < |t.inputs|
    ensures var x := t.inputs[s.index];
            Preimage(h, t, s) == U32(t.version) + (h(PrevoutBytes(t)) + (h(SequenceBytes(t))
              + (OutpointBytes(Outpoint(x.prev, x.vout)) + ((Varint.Print(|s.scriptCode|) + s.scriptCode)
              + (U64(s.satoshis) + (U32(x.sequence) + (h(OutputsBytes(t))
              + (U32(t.locktime) + U32(s.sighashType)))))))))
  {
    hide PrevoutBytes, SequenceBytes, OutputsBytes, OutpointBytes, U32, U64, Varint.Print;
  }

  lemma HeadTail(a: Bytes, b: Bytes, c: Bytes, d: Bytes, e: Bytes, f: Bytes, g: Bytes, i: Bytes, j: Bytes, k: Bytes,
                 l: Bytes)
    ensures var pre := a + (b + (c + (d + ((e + f) + (g + (i + (j + (k + l))))))));
            && pre == (a + b + c + d) + (e + f + (g + i + j + k + l))
            && pre == (a + b + c + d) + e + f + (g + i + j + k + l)
  {
    Regroup([], a, b, c, d, e + f, g, i, j, k, l);
    var head, tail := a + b + c + d, g + i + j + k + l;
    assert g + (i + (j + (k + l))) == tail;
    assert a + (b + (c + (d + ((e + f) + tail)))) == head + ((e + f) + tail);
    assert head + ((e + f) + tail) == head + e + f + tail;
  }

  lemma HeadFields(pre: Bytes, a: Bytes, b: Bytes, c: Bytes, d: Bytes, rest: Bytes)
    requires |a| == 4 && |b| == 32 && |c| == 32 && |d| == 36 && pre == (a + b + c + d) + rest
    ensures pre[..4] == a && pre[4..36] == b && pre[36..68] == c && pre[68..104] == d
    ensures pre[68..100] == d[..32] && pre[100..104] == d[32..36]
  {
  }

  lemma MiddleFields(pre: Bytes, head: Bytes, len: Bytes, script: Bytes, tail: Bytes)
    requires |head| == 104 && |tail| == 52 && pre == head + len + script + tail
    ensures |pre| == 156 + |len| + |script|
    ensures pre[104..104 + |len|] == len && pre[104 + |len|..|pre| - 52] == script
  {
  }

  lemma TailSlices(pre: Bytes, front: Bytes, g: Bytes, i: Bytes, j: Bytes, k: Bytes, l: Bytes)
    requires |g| == 8 && |i| == 4 && |j| == 32 && |k| == 4 && |l| == 4 && pre == front + (g + i + j + k + l)
    ensures var end := |pre|;
            && end >= 52 && pre[end - 52..end - 44] == g && pre[end - 44..end - 40] == i
            && pre[end - 40..end - 8] == j && pre[end - 8..end - 4] == k && pre[end - 4..] == l
  {
  }

  // ---- what it commits to -------------------------------------------------

  lemma SplitFixed(a: Bytes, x: Bytes, b: Bytes, y: Bytes)
    requires |a| == |b| && a + x == b + y
    ensures a == b && x == y
  {
    assert (a + x)[..|a|] == a && (b + y)[..|a|] == b;
    assert (a + x)[|a|..] == x && (b + y)[|a|..] == y;
  }

  lemma SplitCodec<T(!new)>(show: T -> Bytes, parse: Bytes -> Parsed<T>, a: T, x: Bytes, b: T, y: Bytes)
    requires IsCodec(show, parse) && show(a) + x == show(b) + y
    ensures a == b && x == y
  {
    assert parse(show(a) + x) == Got(a, x) && parse(show(b) + y) == Got(b, y);
  }

  /** Equal preimages agree field by field. */
  ghost predicate SameFields(h: Hash, t: Tx, s: Spend, t': Tx, s': Spend)
    requires s.index < |t.inputs| && s'.index < |t'.inputs|
  {
    var i, i' := t.inputs[s.index], t'.inputs[s'.index];
    && t.version == t'.version && t.locktime == t'.locktime
    && h(PrevoutBytes(t)) == h(PrevoutBytes(t'))
    && h(SequenceBytes(t)) == h(SequenceBytes(t'))
    && h(OutputsBytes(t)) == h(OutputsBytes(t'))
    && i.prev == i'.prev && i.vout == i'.vout && i.sequence == i'.sequence
    && s.scriptCode == s'.scriptCode && s.satoshis == s'.satoshis && s.sighashType == s'.sighashType
  }

  lemma PreimageFields(h: Hash, t: Tx, s: Spend, t': Tx, s': Spend)
    requires s.index < |t.inputs| && s'.index < |t'.inputs|
    requires Preimage(h, t, s) == Preimage(h, t', s')
    ensures SameFields(h, t, s, t', s')
  {
    var i, i' := t.inputs[s.index], t'.inputs[s'.index];
    var hp, hs, ho := h(PrevoutBytes(t)), h(SequenceBytes(t)), h(OutputsBytes(t));
    var hp', hs', ho' := h(PrevoutBytes(t')), h(SequenceBytes(t')), h(OutputsBytes(t'));
    hide PrevoutBytes, SequenceBytes, OutputsBytes, OutpointBytes, VarBytes, U32, U64, IsCodec;
    var e, e' := U32(t.locktime) + U32(s.sighashType), U32(t'.locktime) + U32(s'.sighashType);
    var d, d' := U64(s.satoshis) + (U32(i.sequence) + (ho + e)), U64(s'.satoshis) + (U32(i'.sequence) + (ho' + e'));
    var c, c' := VarBytes(s.scriptCode) + d, VarBytes(s'.scriptCode) + d';
    var p, p' := Outpoint(i.prev, i.vout), Outpoint(i'.prev, i'.vout);
    U32Codec();
    SplitCodec(U32, ParseU32, t.version, hp + (hs + (OutpointBytes(p) + c)), t'.version,
               hp' + (hs' + (OutpointBytes(p') + c')));
    SplitFixed(hp, hs + (OutpointBytes(p) + c), hp', hs' + (OutpointBytes(p') + c'));
    SplitFixed(hs, OutpointBytes(p) + c, hs', OutpointBytes(p') + c');
    OutpointCodec();
    SplitCodec(OutpointBytes, ParseOutpoint, p, c, p', c');
    VarBytesCodec();
    SplitCodec(VarBytes, ParseVarBytes, s.scriptCode, d, s'.scriptCode, d');
    TailFields(s.satoshis, i.sequence, ho, t.locktime, s.sighashType, s'.satoshis, i'.sequence, ho', t'.locktime,
               s'.sighashType);
  }

  lemma TailFields(a: uint64, q: uint32, o: Bytes32, l: uint32, k: byte, a': uint64, q': uint32, o': Bytes32,
                   l': uint32, k': byte)
    requires U64(a) + (U32(q) + (o + (U32(l) + U32(k)))) == U64(a') + (U32(q') + (o' + (U32(l') + U32(k'))))
    ensures a == a' && q == q' && o == o' && l == l' && k == k'
  {
    hide U32, U64, IsCodec;
    U64Codec();
    SplitCodec(U64, ParseU64, a, U32(q) + (o + (U32(l) + U32(k))), a', U32(q') + (o' + (U32(l') + U32(k'))));
    U32Codec();
    SplitCodec(U32, ParseU32, q, o + (U32(l) + U32(k)), q', o' + (U32(l') + U32(k')));
    SplitFixed(o, U32(l) + U32(k), o', U32(l') + U32(k'));
    SplitCodec(U32, ParseU32, l, U32(k), l', U32(k'));
    assert U32(k) + [] == U32(k) && U32(k') + [] == U32(k');
    SplitCodec<uint32>(U32, ParseU32, k, [], k', []);
  }

  /** One of the three aggregated strings differs and still has the same digest. */
  ghost predicate MidstateCollision(h: Hash, t: Tx, t': Tx) {
    || Collision(h, PrevoutBytes(t), PrevoutBytes(t'))
    || Collision(h, SequenceBytes(t), SequenceBytes(t'))
    || Collision(h, OutputsBytes(t), OutputsBytes(t'))
  }

  /** Everything the preimage commits to: all but the unlocking scripts. */
  ghost predicate SameCommitted(t: Tx, s: Spend, t': Tx, s': Spend)
    requires s.index < |t.inputs| && s'.index < |t'.inputs|
  {
    && t.version == t'.version && t.locktime == t'.locktime
    && Points(t.inputs) == Points(t'.inputs)
    && Sequences(t.inputs) == Sequences(t'.inputs)
    && t.outputs == t'.outputs
    && Points(t.inputs)[s.index] == Points(t'.inputs)[s'.index]
    && t.inputs[s.index].sequence == t'.inputs[s'.index].sequence
    && s.scriptCode == s'.scriptCode && s.satoshis == s'.satoshis && s.sighashType == s'.sighashType
  }

  lemma ListsFromBytes(t: Tx, t': Tx)
    ensures PrevoutBytes(t) == PrevoutBytes(t') ==> Points(t.inputs) == Points(t'.inputs)
    ensures SequenceBytes(t) == SequenceBytes(t') ==> Sequences(t.inputs) == Sequences(t'.inputs)
    ensures OutputsBytes(t) == OutputsBytes(t') ==> t.outputs == t'.outputs
  {
    hide IsCodec, PrintMany;
    if PrevoutBytes(t) == PrevoutBytes(t') {
      OutpointCodec();
      PrintManyInjective(OutpointBytes, ParseOutpoint, Points(t.inputs), Points(t'.inputs));
    }
    if SequenceBytes(t) == SequenceBytes(t') {
      U32Codec();
      PrintManyInjective(U32, ParseU32, Sequences(t.inputs), Sequences(t'.inputs));
    }
    if OutputsBytes(t) == OutputsBytes(t') {
      OutputCodec();
      PrintManyInjective(OutputBytes, ParseOutput, t.outputs, t'.outputs);
    }
  }

  /** Equal preimages come from the same committed data, or exhibit a hash collision. */
  lemma PreimageCommits(h: Hash, t: Tx, s: Spend, t': Tx, s': Spend)
    requires s.index < |t.inputs| && s'.index < |t'.inputs|
    requires Preimage(h, t, s) == Preimage(h, t', s')
    ensures SameCommitted(t, s, t', s') || MidstateCollision(h, t, t')
  {
    PreimageFields(h, t, s, t', s');
    ListsFromBytes(t, t');
    hide Preimage, PrevoutBytes, SequenceBytes, OutputsBytes;
  }

  ghost predicate DistinctInputs(t: Tx) {
    forall i, j :: 0 <= i < j < |t.inputs| ==> Points(t.inputs)[i] != Points(t.inputs)[j]
  }

  /** When no outpoint is spent twice, the preimage also commits to which input is signed. */
  lemma CommitsToIndex(h: Hash, t: Tx, s: Spend, t': Tx, s': Spend)
    requires s.index < |t.inputs| && s'.index < |t'.inputs| && DistinctInputs(t)
    requires Preimage(h, t, s) == Preimage(h, t', s')
    ensures (SameCommitted(t, s, t', s') && s.index == s'.index) || MidstateCollision(h, t, t')
  {
    hide Preimage, MidstateCollision;
    PreimageCommits(h, t, s, t', s');
    if SameCommitted(t, s, t', s') {
      assert |t.inputs| == |Points(t.inputs)| == |t'.inputs|;
    }
  }

  /** The same for the digest that is signed. */
  lemma SighashCommits(h: Hash, t: Tx, s: Spend, t': Tx, s': Spend)
    requires s.index < |t.inputs| && s'.index < |t'.inputs|
    requires h(Preimage(h, t, s)) == h(Preimage(h, t', s'))
    ensures || SameCommitted(t, s, t', s')
            || MidstateCollision(h, t, t')
            || Collision(h, Preimage(h, t, s), Preimage(h, t', s'))
  {
    if Preimage(h, t, s) == Preimage(h, t', s') { PreimageCommits(h, t, s, t', s'); }
  }

  /** And it commits to nothing else: any change to unlocking scripts leaves it as it is. */
  lemma ScriptSigsIrrelevant(h: Hash, t: Tx, s: Spend, t': Tx, s': Spend)
    requires s.index < |t.inputs| && s'.index < |t'.inputs| && SameCommitted(t, s, t', s')
    ensures Preimage(h, t, s) == Preimage(h, t', s')
  {
    hide PrintMany, OutpointBytes, VarBytes, U32, U64;
  }
}
