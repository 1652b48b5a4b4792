/** UTF-8 well-formedness (src/common/utf8.c), against the encoding of RFC 3629. */
module Utf8 {
  import opened Common

  /** A Unicode scalar value: a code point that is not a surrogate. */
  type Scalar = x: int | 0 <= x < 0xD800 || 0xE000 <= x <= 0x10FFFF

  /** Section 3 of RFC 3629: the shortest form of one scalar value. */
  function Encode(c: Scalar): (r: Bytes)
    ensures 1 <= |r| <= 4
  {
    if c < 0x80 then [c]
    else if c < 0x800 then [0xC0 + c / 64, 0x80 + c % 64]
    else if c < 0x1_0000 then [0xE0 + c / 64 / 64, 0x80 + c / 64 % 64, 0x80 + c % 64]
    else [0xF0 + c / 64 / 64 / 64, 0x80 + c / 64 / 64 % 64, 0x80 + c / 64 % 64, 0x80 + c % 64]
  }

  function EncodeAll(cs: seq<Scalar>): Bytes {
    if cs == [] then [] else Encode(cs[0]) + EncodeAll(cs[1..])
  }

  /** (b & 0xc0) == 0x80. */
  predicate Continuation(b: byte) {
    0x80 <= b < 0xC0
  }

  /**
   * The length of the well-formed character at the front of s, or 0: the branches of the scan, with
   * each mask test on the lead byte written as the range it selects.
   */
  function Front(s: Bytes): (n: nat)
    requires s != []
    ensures n <= 4 && n <= |s|
  {
    var c := s[0];
    if c <= 0x7F then 1
    else if 0xC0 <= c < 0xE0 then
      if c < 0xC2 || |s| < 2 || !Continuation(s[1]) then 0 else 2
    else if 0xE0 <= c < 0xF0 then
      if |s| < 3 || !Continuation(s[1]) || !Continuation(s[2]) then 0
      else if c == 0xE0 && s[1] < 0xA0 then 0
      else if c == 0xED && s[1] >= 0xA0 then 0
      else 3
    else if 0xF0 <= c < 0xF8 then
      if c > 0xF4 then 0
      else if |s| < 4 || !Continuation(s[1]) || !Continuation(s[2]) || !Continuation(s[3]) then 0
      else if c == 0xF0 && s[1] < 0x90 then 0
      else if c == 0xF4 && s[1] >= 0x90 then 0
      else 4
    else 0
  }

  function Shift(hi: int, b: int): int {
    hi * 64 + (b - 0x80)
  }

  /** The scalar value a well-formed front stands for. */
  function FrontScalar(s: Bytes): Scalar
    requires s != [] && Front(s) > 0
  {
    var n := Front(s);
    var c: int := s[0];
    if n == 1 then c
    else if n == 2 then Shift(c - 0xC0, s[1])
    else if n == 3 then Shift(Shift(c - 0xE0, s[1]), s[2])
    else Shift(Shift(Shift(c - 0xF0, s[1]), s[2]), s[3])
  }

  lemma Unshift(hi: int, b: int)
    requires 0x80 <= b < 0xC0
    ensures Shift(hi, b) / 64 == hi && Shift(hi, b) % 64 == b - 0x80
  {
  }

  lemma EncodeOfFront(s: Bytes)
    requires s != [] && Front(s) > 0
    ensures Encode(FrontScalar(s)) == s[..Front(s)]
  {
    var n := Front(s);
    var c: int := s[0];
    if n == 1 {
      assert s[..1] == [s[0]];
    } else if n == 2 {
      Unshift(c - 0xC0, s[1]);
      assert s[..2] == [s[0], s[1]];
    } else if n == 3 {
      Unshift(c - 0xE0, s[1]);
      Unshift(Shift(c - 0xE0, s[1]), s[2]);
      assert s[..3] == [s[0], s[1], s[2]];
    } else {
      Unshift(c - 0xF0, s[1]);
      Unshift(Shift(c - 0xF0, s[1]), s[2]);
      Unshift(Shift(Shift(c - 0xF0, s[1]), s[2]), s[3]);
      assert s[..4] == [s[0], s[1], s[2], s[3]];
    }
  }

  lemma Reshift(c: int)
    ensures Shift(c / 64, 0x80 + c % 64) == c
  {
  }

  lemma FrontOfEncode(c: Scalar, rest: Bytes)
    ensures Front(Encode(c) + rest) == |Encode(c)| && FrontScalar(Encode(c) + rest) == c
  {
    var e := Encode(c);
    var s := e + rest;
    assert s[0] == e[0];
    Reshift(c);
    Reshift(c / 64);
    Reshift(c / 64 / 64);
    if c >= 0x1_0000 {
      assert s[1] == e[1] && s[2] == e[2] && s[3] == e[3];
      FourByteLead(c);
    } else if c >= 0x800 {
      assert s[1] == e[1] && s[2] == e[2];
      ThreeByteLead(c);
    } else if c >= 0x80 {
      assert s[1] == e[1];
    }
  }

  /** A three-byte lead is E0 only above the two-byte range and ED only below the surrogates. */
  lemma ThreeByteLead(c: Scalar)
    requires 0x800 <= c < 0x1_0000
    ensures 0 <= c / 64 / 64 < 16
    ensures c / 64 / 64 == 0 ==> c / 64 % 64 >= 0x20
    ensures c / 64 / 64 == 13 ==> c / 64 % 64 < 0x20
  {
  }

  /** A four-byte lead is F0 only above the three-byte range and F4 only up to 10FFFF. */
  lemma FourByteLead(c: Scalar)
    requires 0x1_0000 <= c
    ensures 0 <= c / 64 / 64 / 64 <= 4
    ensures c / 64 / 64 / 64 == 0 ==> c / 64 / 64 % 64 >= 0x10
    ensures c / 64 / 64 / 64 == 4 ==> c / 64 / 64 % 64 < 0x10
  {
  }

  ghost predicate Valid(s: Bytes) {
    s == [] || (Front(s) > 0 && Valid(s[Front(s)..]))
  }

  lemma {:induction false} ValidHasScalars(s: Bytes) returns (cs: seq<Scalar>)
    requires Valid(s)
    ensures EncodeAll(cs) == s
  {
    if s == [] {
      cs := [];
    } else {
      var more := ValidHasScalars(s[Front(s)..]);
      EncodeOfFront(s);
      cs := [FrontScalar(s)] + more;
      assert cs[1..] == more;
      assert s == s[..Front(s)] + s[Front(s)..];
    }
  }

  lemma {:induction false} ScalarsAreValid(cs: seq<Scalar>)
    ensures Valid(EncodeAll(cs))
  {
    if cs != [] {
      ScalarsAreValid(cs[1..]);
      FrontOfEncode(cs[0], EncodeAll(cs[1..]));
      var s := EncodeAll(cs);
      assert s[|Encode(cs[0])|..] == EncodeAll(cs[1..]);
    }
  }

  /** Two sequences of scalar values with the same encoding are the same. */
  lemma {:induction false} EncodingUnique(cs: seq<Scalar>, ds: seq<Scalar>)
    requires EncodeAll(cs) == EncodeAll(ds)
    ensures cs == ds
  {
    if cs != [] && ds != [] {
      FrontOfEncode(cs[0], EncodeAll(cs[1..]));
      FrontOfEncode(ds[0], EncodeAll(ds[1..]));
      var s := EncodeAll(cs);
      assert s[|Encode(cs[0])|..] == EncodeAll(cs[1..]);
      assert s[|Encode(ds[0])|..] == EncodeAll(ds[1..]);
      EncodingUnique(cs[1..], ds[1..]);
      assert cs == [cs[0]] + cs[1..] && ds == [ds[0]] + ds[1..];
    }
  }

  /** Accepts exactly the encodings of sequences of scalar values. */
  method IsValid(s: Bytes) returns (ok: bool)
    ensures ok <==> exists cs: seq<Scalar> :: EncodeAll(cs) == s
  {
    ok := Scan(s);
    if ok {
      var cs := ValidHasScalars(s);
    }
    forall cs: seq<Scalar> | EncodeAll(cs) == s ensures ok { ScalarsAreValid(cs); }
  }

  method Scan(p: Bytes) returns (ok: bool)
    ensures ok <==> Valid(p)
  {
    var i, len := 0, |p|;
    assert p[0..] == p;
    while i < len
      invariant 0 <= i <= len
      invariant Valid(p) <==> Valid(p[i..])
    {
      var n := Step(p, i);
      if n == 0 { return false; }
      assert p[i..][n..] == p[i + n..];
      i := i + n;
    }
    assert p[len..] == [];
    return true;
  }

  /** The body of the scan at offset i: how far to move on, or 0 to refuse. */
  method Step(p: Bytes, i: nat) returns (n: nat)
    requires i < |p|
    ensures n == Front(p[i..]) && i + n <= |p|
  {
    var len, c := |p|, p[i];
    if c <= 0x7F { return 1; }
    if 0xC0 <= c < 0xE0 {
      if c < 0xC2 { return 0; }
      if i + 1 >= len { return 0; }
      if !Continuation(p[i + 1]) { return 0; }
      return 2;
    }
    if 0xE0 <= c < 0xF0 {
      if i + 2 >= len { return 0; }
      var c1, c2 := p[i + 1], p[i + 2];
      if !Continuation(c1) || !Continuation(c2) { return 0; }
      if c == 0xE0 && c1 < 0xA0 { return 0; }
      if c == 0xED && c1 >= 0xA0 { return 0; }
      return 3;
    }
    if 0xF0 <= c < 0xF8 {
      if c > 0xF4 { return 0; }
      if i + 3 >= len { return 0; }
      var c1, c2, c3 := p[i + 1], p[i + 2], p[i + 3];
      if !Continuation(c1) || !Continuation(c2) || !Continuation(c3) { return 0; }
      if c == 0xF0 && c1 < 0x90 { return 0; }
      if c == 0xF4 && c1 >= 0x90 { return 0; }
      return 4;
    }
    return 0;
  }
}
