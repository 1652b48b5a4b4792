/** Script chunks and the receipt reader (src/bsv/script.c). */
module ReceiptScript {
  import opened Common
  import opened Arith
  import opened Numerals
  import opened Codec
  import Varint

  const OP_0: byte := 0x00
  const OP_PUSHDATA1: byte := 0x4c
  const OP_PUSHDATA2: byte := 0x4d
  const OP_PUSHDATA4: byte := 0x4e
  const OP_RETURN: byte := 0x6a
  const STACK_CHUNKS: nat := 64

  /** An opcode and, for a push, what it pushes. */
  datatype ChunkData = ChunkData(opcode: byte, data: Option<Bytes>)

  predicate Pushes(opcode: byte) {
    OP_0 < opcode <= OP_PUSHDATA4
  }

  /** How many length bytes follow the opcode; a direct push is its own length. */
  function LengthWidth(opcode: byte): nat {
    if opcode == OP_PUSHDATA1 then 1 else if opcode == OP_PUSHDATA2 then 2 else if opcode == OP_PUSHDATA4 then 4 else 0
  }

  predicate WellFormed(c: ChunkData) {
    if !Pushes(c.opcode) then c.data.None?
    else
      && c.data.Some?
      && if LengthWidth(c.opcode) == 0 then |c.data.value| == c.opcode
         else |c.data.value| < Pow(256, LengthWidth(c.opcode))
  }

  type Chunk = c: ChunkData | WellFormed(c) witness ChunkData(0, None)

  function ShowChunk(c: Chunk): (r: Bytes)
    ensures r != []
  {
    if !Pushes(c.opcode) then [c.opcode]
    else [c.opcode] + (LE(|c.data.value|, LengthWidth(c.opcode)) + c.data.value)
  }

  /** One chunk off the front; a push that runs past the end is refused. */
  function ParseChunk(s: Bytes): (r: Parsed<Chunk>)
    ensures r.Got? ==> |r.rest| < |s|
  {
    if s == [] then Stop
    else if !Pushes(s[0]) then Got(ChunkData(s[0], None), s[1..])
    else
      var w := LengthWidth(s[0]);
      if |s| - 1 < w then Stop
      else
        var n: nat := if w == 0 then s[0] else FromLE(s[1..1 + w]);
        FromLEBound(s[1..1 + w]);
        if n > |s| - 1 - w then Stop
        else Got(ChunkData(s[0], Some(s[1 + w..1 + w + n])), s[1 + w + n..])
  }

  /** The forms of a chunk: a direct push of 1 to 75 bytes, three pushes with a length, or a bare opcode. */
  lemma ChunkForms(c: Chunk)
    ensures 0x01 <= c.opcode <= 0x4b ==> c.data.Some? && |c.data.value| == c.opcode
    ensures 0x01 <= c.opcode <= 0x4b ==> ShowChunk(c) == [c.opcode] + c.data.value
    ensures c.opcode == 0x4c ==> c.data.Some? && ShowChunk(c) == [0x4c] + (LE(|c.data.value|, 1) + c.data.value)
    ensures c.opcode == 0x4d ==> c.data.Some? && ShowChunk(c) == [0x4d] + (LE(|c.data.value|, 2) + c.data.value)
    ensures c.opcode == 0x4e ==> c.data.Some? && ShowChunk(c) == [0x4e] + (LE(|c.data.value|, 4) + c.data.value)
    ensures c.opcode == 0x00 || c.opcode > 0x4e ==> c.data.None? && ShowChunk(c) == [c.opcode]
  {
    if c.data.Some? { assert LE(|c.data.value|, 0) + c.data.value == c.data.value; }
    hide Pow, LE;
  }

  lemma ParseOfShow(c: Chunk, rest: Bytes)
    ensures ParseChunk(ShowChunk(c) + rest) == Got(c, rest)
  {
    var s := ShowChunk(c) + rest;
    if Pushes(c.opcode) {
      var w, data := LengthWidth(c.opcode), c.data.value;
      if w > 0 { FromLEofLE(|data|, w); }
      hide Pow, LE, FromLE;
      assert s[1..1 + w] == LE(|data|, w);
      assert s[1 + w..1 + w + |data|] == data && s[1 + w + |data|..] == rest;
    }
  }

  lemma ShowOfParse(s: Bytes)
    requires ParseChunk(s).Got?
    ensures s == ShowChunk(ParseChunk(s).value) + ParseChunk(s).rest
  {
    if Pushes(s[0]) {
      var w := LengthWidth(s[0]);
      LEofFromLE(s[1..1 + w]);
      hide Pow, FromLE, LE;
      var n := |ParseChunk(s).value.data.value|;
      assert ShowChunk(ParseChunk(s).value) == [s[0]] + (s[1..1 + w] + s[1 + w..1 + w + n]) by { LEZero(n); }
      hide ParseChunk, ShowChunk;
      Pieces(s, w, n);
    } else {
      assert s == [s[0]] + s[1..];
    }
  }

  lemma LEZero(n: nat)
    ensures LE(n, 0) == []
  {
  }

  lemma Pieces(s: Bytes, w: nat, n: nat)
    requires 1 + w + n <= |s|
    ensures s == [s[0]] + (s[1..1 + w] + s[1 + w..1 + w + n]) + s[1 + w + n..]
  {
  }

  /** A chunk and its bytes determine each other. */
  lemma ChunkCodec()
    ensures IsCodec(ShowChunk, ParseChunk)
  {
    forall c: Chunk, rest ensures ParseChunk(ShowChunk(c) + rest) == Got(c, rest) { ParseOfShow(c, rest); }
    forall s | ParseChunk(s).Got? ensures s == ShowChunk(ParseChunk(s).value) + ParseChunk(s).rest { ShowOfParse(s); }
  }

  // ---- whole scripts ------------------------------------------------------

  function Cons(c: Chunk, r: Result<seq<Chunk>>): Result<seq<Chunk>> {
    match r
    case Err(code) => Err(code)
    case Ok(cs) => Ok([c] + cs)
  }

  function Chunks(s: Bytes): Result<seq<Chunk>>
    decreases |s|
  {
    if s == [] then Ok([]) else
    match ParseChunk(s)
    case Stop => Err(EPARSE)
    case Got(c, rest) => Cons(c, Chunks(rest))
  }

  /** The same into a chunk array of a given size. */
  function ChunksUpTo(s: Bytes, max: nat): Result<seq<Chunk>>
    decreases |s|
  {
    if s == [] then Ok([]) else
    match ParseChunk(s)
    case Stop => Err(EPARSE)
    case Got(c, rest) => if max == 0 then Err(ERANGE) else Cons(c, ChunksUpTo(rest, max - 1))
  }

  /** An array too small only ever shows as ERANGE, and one as long as the script never is. */
  lemma {:induction false} ChunksFit(s: Bytes, max: nat)
    ensures ChunksUpTo(s, max) == Err(ERANGE) || ChunksUpTo(s, max) == Chunks(s)
    ensures max >= |s| ==> ChunksUpTo(s, max) == Chunks(s)
    decreases |s|
  {
    hide ParseChunk;
    if s != [] && ParseChunk(s).Got? && max > 0 { ChunksFit(ParseChunk(s).rest, max - 1); }
  }

  lemma {:induction false} ChunksNotRange(s: Bytes)
    ensures Chunks(s) != Err(ERANGE)
    decreases |s|
  {
    hide ParseChunk;
    if s != [] && ParseChunk(s).Got? { ChunksNotRange(ParseChunk(s).rest); }
  }

  /** A script has some chunks exactly when it is those chunks, one after the other. */
  lemma {:induction false} ChunksExactly(s: Bytes, cs: seq<Chunk>)
    ensures Chunks(s) == Ok(cs) <==> s == PrintMany(ShowChunk, cs)
    decreases |s|
  {
    if s != [] {
      if cs != [] {
        ParseOfShow(cs[0], PrintMany(ShowChunk, cs[1..]));
        assert cs == [cs[0]] + cs[1..];
      }
      if ParseChunk(s).Got? {
        ShowOfParse(s);
        hide ParseChunk, ShowChunk;
        var c, rest := ParseChunk(s).value, ParseChunk(s).rest;
        if cs != [] { ChunksExactly(rest, cs[1..]); }
        if Chunks(s) == Ok(cs) { assert cs[1..] == Chunks(rest).value; }
      }
    } else if cs != [] {
      assert PrintMany(ShowChunk, cs) != [];
    }
  }

  method ParseScript(script: Bytes, max: nat) returns (r: Result<seq<Chunk>>)
    ensures r == ChunksUpTo(script, max)
  {
    hide ParseChunk;
    var i: nat, chunks: seq<Chunk> := 0, [];
    assert script[0..] == script;
    Prepending([], ChunksUpTo(script, max));
    while i < |script|
      invariant i <= |script| && |chunks| <= max
      invariant Prepended(chunks, ChunksUpTo(script[i..], max - |chunks|)) == ChunksUpTo(script, max)
      decreases |script| - i
    {
      var c := ReadChunk(script, i);
      if c.Err? { return Err(EPARSE); }
      if |chunks| >= max { return Err(ERANGE); }
      PrependOne(chunks, c.value.chunk, ChunksUpTo(script[c.value.end..], max - |chunks| - 1));
      chunks := chunks + [c.value.chunk];
      i := c.value.end;
    }
    assert script[i..] == [] && chunks + [] == chunks;
    return Ok(chunks);
  }

  ghost function Prepended(front: seq<Chunk>, r: Result<seq<Chunk>>): Result<seq<Chunk>> {
    match r
    case Err(code) => Err(code)
    case Ok(cs) => Ok(front + cs)
  }

  lemma Prepending(front: seq<Chunk>, r: Result<seq<Chunk>>)
    requires front == []
    ensures Prepended(front, r) == r
  {
    if r.Ok? { assert front + r.value == r.value; }
  }

  lemma PrependOne(front: seq<Chunk>, c: Chunk, r: Result<seq<Chunk>>)
    ensures Prepended(front, Cons(c, r)) == Prepended(front + [c], r)
  {
    if r.Ok? { assert front + ([c] + r.value) == (front + [c]) + r.value; }
  }

  /** A chunk and the offset behind it. */
  datatype Located = Located(chunk: Chunk, end: nat)

  lemma Slice(s: Bytes, i: nat, a: nat, b: nat)
    requires a <= b && i + b <= |s|
    ensures s[i..][a..b] == s[i + a..i + b] && s[i..][b..] == s[i + b..]
  {
  }

  /** One round of the parse loop: the chunk at offset i and the offset behind it. */
  method ReadChunk(script: Bytes, i: nat) returns (r: Result<Located>)
    requires i < |script|
    ensures match ParseChunk(script[i..])
            case Stop => r == Err(EPARSE)
            case Got(c, rest) =>
              r.Ok? && r.value.chunk == c && i < r.value.end <= |script| && rest == script[r.value.end..]
  {
    var opcode, at := script[i], i + 1;
    if !Pushes(opcode) {
      assert script[i..][1..] == script[at..];
      return Ok(Located(ChunkData(opcode, None), at));
    }
    var w := LengthWidth(opcode);
    if w > |script| - at { return Err(EPARSE); }
    var n: nat := opcode;
    if w > 0 { n := Varint.ReadLE(script, at, w); }
    Slice(script, i, 1, 1 + w);
    FromLEBound(script[at..at + w]);
    hide Pow, FromLE;
    at := at + w;
    if n > |script| - at { return Err(EPARSE); }
    Slice(script, i, 1 + w, 1 + w + n);
    var chunk := ChunkData(opcode, Some(script[at..at + n]));
    assert |script[at..at + n]| == n && WellFormed(chunk);
    return Ok(Located(chunk, at + n));
  }

  // ---- receipts -----------------------------------------------------------

  /** The hash a script carries: OP_0 OP_RETURN in front, 32 bytes in the last chunk. */
  function ReceiptHash(s: Bytes): Option<Bytes32> {
    if |s| < 2 || s[0] != OP_0 || s[1] != OP_RETURN then None else
    match Chunks(s)
    case Err(_) => None
    case Ok(cs) =>
      if cs == [] then None
      else
        var last := cs[|cs| - 1];
        if last.data.Some? && |last.data.value| == 32 then Some(last.data.value) else None
  }

  method ReadReceiptHash(s: Bytes) returns (r: Result<Bytes32>)
    ensures r == match ReceiptHash(s) { case None => Err(EPARSE) case Some(h) => Ok(h) }
  {
    if |s| < 2 { return Err(EPARSE); }
    if s[0] != OP_0 || s[1] != OP_RETURN { return Err(EPARSE); }
    ChunksFit(s, STACK_CHUNKS);
    ChunksFit(s, |s|);
    ChunksNotRange(s);
    hide Chunks, ChunksUpTo;
    var chunks := ParseScript(s, STACK_CHUNKS);
    if chunks == Err(ERANGE) {
      chunks := ParseScript(s, |s|);
    }
    if chunks.Err? { return Err(EPARSE); }
    if chunks.value == [] { return Err(EPARSE); }
    var last := chunks.value[|chunks.value| - 1];
    if last.data.None? || |last.data.value| != 32 { return Err(EPARSE); }
    return Ok(last.data.value);
  }

  /** Chunks that make up a receipt for h. */
  ghost predicate Carries(cs: seq<Chunk>, h: Bytes32) {
    && |cs| >= 3
    && cs[0] == ChunkData(0x00, None)
    && cs[1] == ChunkData(0x6a, None)
    && cs[|cs| - 1].data == Some(h)
  }

  /** A script is read as a receipt for h exactly when it is the bytes of chunks that carry h. */
  lemma ReceiptExactly(s: Bytes, h: Bytes32)
    ensures ReceiptHash(s) == Some(h) <==> exists cs: seq<Chunk> :: Carries(cs, h) && s == PrintMany(ShowChunk, cs)
  {
    if ReceiptHash(s) == Some(h) {
      var cs := Chunks(s).value;
      ChunksExactly(s, cs);
      LeadingChunks(s, cs);
      assert Carries(cs, h);
    }
    if cs: seq<Chunk> :| Carries(cs, h) && s == PrintMany(ShowChunk, cs) {
      ChunksExactly(s, cs);
      LeadingBytes(cs);
    }
  }

  lemma LeadingChunks(s: Bytes, cs: seq<Chunk>)
    requires |s| >= 2 && s[0] == OP_0 && s[1] == OP_RETURN && Chunks(s) == Ok(cs)
    ensures |cs| >= 2 && cs[0] == ChunkData(OP_0, None) && cs[1] == ChunkData(OP_RETURN, None)
  {
    assert ParseChunk(s) == Got(ChunkData(OP_0, None), s[1..]);
    assert ParseChunk(s[1..]) == Got(ChunkData(OP_RETURN, None), s[2..]) by { assert s[1..][1..] == s[2..]; }
    assert Chunks(s) == Cons(ChunkData(OP_0, None), Cons(ChunkData(OP_RETURN, None), Chunks(s[2..])));
  }

  lemma LeadingBytes(cs: seq<Chunk>)
    requires |cs| >= 2 && cs[0] == ChunkData(OP_0, None) && cs[1] == ChunkData(OP_RETURN, None)
    ensures var s := PrintMany(ShowChunk, cs); |s| >= 2 && s[0] == OP_0 && s[1] == OP_RETURN
  {
    assert PrintMany(ShowChunk, cs) == [OP_0] + ([OP_RETURN] + PrintMany(ShowChunk, cs[1..][1..]));
  }

  /** The receipt script the contracts write: OP_0 OP_RETURN and one direct push. */
  function Carrier(h: Bytes32): (r: Bytes)
    ensures |r| == 35
  {
    [OP_0, OP_RETURN, 32] + h
  }

  lemma CarrierReads(h: Bytes32)
    ensures ReceiptHash([0x00, 0x6a, 0x20] + h) == Some(h)
    ensures Carrier(h) == [0x00, 0x6a, 0x20] + h
  {
    var push: Chunk := ChunkData(32, Some(h));
    var cs: seq<Chunk> := [ChunkData(OP_0, None), ChunkData(OP_RETURN, None), push];
    assert LE(32, 0) == [];
    assert cs[1..] == [cs[1], cs[2]] && cs[1..][1..] == [push] && [push][1..] == [];
    assert ShowChunk(push) == [32] + h;
    assert PrintMany(ShowChunk, [push]) == [32] + h;
    assert PrintMany(ShowChunk, cs) == [OP_0] + ([OP_RETURN] + ([32] + h));
    assert Carries(cs, h);
    ReceiptExactly(Carrier(h), h);
  }
}
