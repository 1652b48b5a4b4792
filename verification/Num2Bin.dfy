/** The two sign-magnitude integer encoders (src/bsv/num2bin.c). */
module Num2Bin {
  import opened Common
  import opened Arith
  import opened Numerals

  function Abs(n: int): nat {
    if n < 0 then -n else n
  }

  /** 2^(8w-1): where the sign bit of w bytes sits; width 0 holds only zero. */
  function Half(w: nat): (h: nat)
    ensures h > 0
  {
    if w == 0 then 1 else PowPositive(256, w - 1); 128 * Pow(256, w - 1)
  }

  predicate Fits(n: int, w: nat) {
    Abs(n) < Half(w)
  }

  /** The w-byte little-endian form of n: magnitude below, sign in the top bit. */
  function SignMag(n: int, w: nat): (r: Bytes)
    requires Fits(n, w)
    ensures |r| == w
  {
    LE(if n < 0 then Abs(n) + Half(w) else Abs(n), w)
  }

  /** Reading sign-magnitude bytes back. */
  function FromSignMag(s: Bytes): int {
    var v := FromLE(s);
    if s != [] && v >= Half(|s|) then -(v - Half(|s|)) else v
  }

  lemma HalfIsHalf(w: nat)
    requires w > 0
    ensures 2 * Half(w) == Pow(256, w)
  {
  }

  /** Both encoders' output reads back as n. */
  lemma DecodeSignMag(n: int, w: nat)
    requires Fits(n, w)
    ensures FromSignMag(SignMag(n, w)) == n
  {
    if w > 0 {
      HalfIsHalf(w);
      hide Half, Pow, LE, FromLE;
      FromLEofLE(if n < 0 then Abs(n) + Half(w) else Abs(n), w);
    }
  }

  lemma SignMagInjective(m: int, n: int, w: nat)
    requires Fits(m, w) && Fits(n, w) && SignMag(m, w) == SignMag(n, w)
    ensures m == n
  {
    DecodeSignMag(m, w);
    DecodeSignMag(n, w);
  }

  lemma HalfMonotone(v: nat, w: nat)
    requires v <= w
    ensures Half(v) <= Half(w)
  {
    if 0 < v {
      PowMonotoneExp(256, v - 1, w - 1);
    } else if 0 < w {
      PowPositive(256, w - 1);
    }
  }

  // ---- the top byte -------------------------------------------------------

  lemma {:induction false} TopByte(v: nat, w: nat)
    requires w > 0 && v < Pow(256, w)
    ensures LE(v, w)[w - 1] >= 128 <==> v >= Half(w)
    ensures v < Half(w) ==> LE(v + Half(w), w) == LE(v, w)[w - 1 := LE(v, w)[w - 1] + 128]
  {
    if w == 1 {
      assert Pow(256, 0) == 1;
      assert LE(v, 1) == [v] && (v < 128 ==> LE(v + 128, 1) == [v + 128]);
    } else {
      var h := Half(w - 1);
      assert Half(w) == 256 * h;
      TopByte(v / 256, w - 1);
      assert LE(v, w)[w - 1] == LE(v / 256, w - 1)[w - 2];
      if v < Half(w) {
        assert (v + 256 * h) / 256 == v / 256 + h && (v + 256 * h) % 256 == v % 256;
        assert LE(v + Half(w), w) == [v % 256] + LE(v / 256 + h, w - 1);
      }
    }
  }

  // ---- the fixed-width encoder --------------------------------------------

  method Sized(n: int, width: nat, out: Bytes) returns (r: Result<Bytes>)
    ensures r == if Fits(n, width) then Ok(out + SignMag(n, width)) else Err(ERANGE)
  {
    var mag := Abs(n);
    if mag >= Pow(256, width) {
      if width > 0 { HalfIsHalf(width); }
      return Err(ERANGE);
    }
    var bytes := LE(mag, width);
    var tmp := new byte[width](i requires 0 <= i < width => bytes[i]);
    assert tmp[..] == bytes;
    if width > 0 {
      TopByte(mag, width);
      hide LE, Half, Pow;
      if tmp[width - 1] >= 128 { return Err(ERANGE); }
      if n < 0 {
        tmp[width - 1] := tmp[width - 1] + 128;
        assert tmp[..] == bytes[width - 1 := bytes[width - 1] + 128];
      }
    } else if n != 0 {
      return Err(ERANGE);
    }
    return Ok(out + tmp[..]);
  }

  // ---- the minimal encoder ------------------------------------------------

  ghost predicate LeastWidth(n: int, w: nat) {
    Fits(n, w) && forall v: nat :: v < w ==> !Fits(n, v)
  }

  lemma LeastWidthIs(n: int, w: nat)
    requires Fits(n, w) && (w > 0 ==> !Fits(n, w - 1))
    ensures LeastWidth(n, w)
  {
    forall v: nat | v < w ensures !Fits(n, v) { HalfMonotone(v, w - 1); }
  }

  lemma {:induction false} ReversedDigits(v: nat)
    ensures Reverse(Digits(256, v)) == LE(v, |Digits(256, v)|)
  {
    if v > 0 {
      DivSmaller(v, 256);
      ReversedDigits(v / 256);
      ReverseConcat(Digits(256, v / 256), [v % 256]);
    }
  }

  /** The number of base-256 digits brackets the number. */
  lemma DigitCount(v: nat)
    requires v > 0
    ensures var k := |Digits(256, v)|; k > 0 && Pow(256, k - 1) <= v < Pow(256, k)
  {
    var ds := Digits(256, v);
    ValDigits(256, v);
    assert ds != [];
    ValHead(256, ds);
    ValBound(256, ds);
    ValBound(256, ds[1..]);
    hide Val, Digits, Pow;
    MulMonotone(1, ds[0], Pow(256, |ds| - 1), Pow(256, |ds| - 1));
  }

  lemma MinimalWidth(n: int)
    requires n != 0
    ensures var v := Abs(n); var k := |Digits(256, v)|;
            && k > 0
            && (v < Half(k) ==> LeastWidth(n, k))
            && (v >= Half(k) ==> LeastWidth(n, k + 1))
  {
    var v := Abs(n);
    var k := |Digits(256, v)|;
    DigitCount(v);
    HalfIsHalf(k + 1);
    if v < Half(k) {
      if k > 1 { HalfIsHalf(k - 1); }
      LeastWidthIs(n, k);
    } else {
      LeastWidthIs(n, k + 1);
    }
  }

  lemma SignByte(v: nat, k: nat)
    requires v < Pow(256, k)
    ensures LE(v, k + 1) == LE(v, k) + [0]
    ensures LE(v + Half(k + 1), k + 1) == LE(v, k) + [128]
    decreases k
  {
    LEPad(v, k);
    PowPositive(256, k);
    assert v < Half(k + 1);
    TopByte(v, k + 1);
    assert LE(v, k + 1)[k := 128] == LE(v, k) + [128];
  }

  lemma {:induction false} LEPad(v: nat, k: nat)
    requires v < Pow(256, k)
    ensures LE(v, k + 1) == LE(v, k) + [0]
  {
    if k > 0 {
      LEPad(v / 256, k - 1);
    }
  }

  method Reversed(be: Bytes) returns (le: Bytes)
    ensures le == Reverse(be)
  {
    le := [];
    for i := 0 to |be|
      invariant |le| == i && forall j :: 0 <= j < i ==> le[j] == be[|be| - 1 - j]
    {
      le := le + [be[|be| - 1 - i]];
    }
  }

  lemma ZeroWidth()
    ensures LeastWidth(0, 0) && SignMag(0, 0) == []
  {
  }

  method Minimal(n: int, out: Bytes) returns (r: Bytes, ghost w: nat)
    ensures LeastWidth(n, w) && r == out + SignMag(n, w)
  {
    hide Digits, LE, Half, Pow, LeastWidth;
    if n == 0 {
      ZeroWidth();
      return out, 0;
    }
    var mag := Abs(n);
    var be: Bytes := Digits(256, mag);
    MinimalWidth(n);
    DigitCount(mag);
    ReversedDigits(mag);
    ghost var k := |be|;
    SignByte(mag, k);
    TopByte(mag, k);
    var le := Reversed(be);
    var top := |le| - 1;
    if le[top] >= 128 {
      w := k + 1;
      le := le + [if n < 0 then 128 else 0];
    } else {
      w := k;
      if n < 0 { le := le[top := le[top] + 128]; }
    }
    r := out + le;
  }

  /** The width minimal(n) uses is the only least one, and sized(n, v) succeeds from there on up. */
  lemma EncodersAgree(n: int, w: nat, v: nat)
    requires LeastWidth(n, w)
    ensures Fits(n, v) <==> v >= w
    ensures LeastWidth(n, v) <==> v == w
    ensures FromSignMag(SignMag(n, w)) == n
  {
    DecodeSignMag(n, w);
    if v >= w { HalfMonotone(w, v); }
  }
}
