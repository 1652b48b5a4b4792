/** Positional numerals: big-endian in any base, little-endian in base 256. */
module Numerals {
  import opened Common
  import opened Arith

  ghost predicate InBase(b: int, s: seq<int>) {
    forall i :: 0 <= i < |s| ==> 0 <= s[i] < b
  }

  /** The number a big-endian digit string denotes. */
  function Val(b: int, s: seq<int>): int {
    if s == [] then 0 else Val(b, s[..|s| - 1]) * b + s[|s| - 1]
  }

  /** The big-endian digits of n without leading zeros; 0 has none. */
  function Digits(b: int, n: nat): (r: seq<int>)
    requires b >= 2
    ensures InBase(b, r)
    ensures r != [] ==> r[0] != 0
  {
    if n == 0 then [] else
    assert n / b < n by { DivSmaller(n, b); }
    var front := Digits(b, n / b);
    assert front == [] ==> n / b == 0;
    assert n / b == 0 ==> n % b == n;
    front + [n % b]
  }

  lemma DivSmaller(n: nat, b: int)
    requires b >= 2 && n > 0
    ensures 0 <= n / b < n
  {
    var q := n / b;
    assert n == b * q + n % b;
    assert q >= 0;
    MulMonotone(2, b, q, q);
  }

  lemma {:induction false} ValAppend(b: int, s: seq<int>, d: int)
    ensures Val(b, s + [d]) == Val(b, s) * b + d
  {
    assert (s + [d])[..|s|] == s;
  }

  lemma {:induction false} ValConcat(b: nat, s: seq<int>, t: seq<int>)
    ensures Val(b, s + t) == Val(b, s) * Pow(b, |t|) + Val(b, t)
  {
    if t == [] {
      assert s + t == s;
    } else {
      var t', d, e := t[..|t| - 1], t[|t| - 1], |t| - 1;
      ValConcat(b, s, t');
      assert s + t == (s + t') + [d];
      ValAppend(b, s + t', d);
      ConcatArithmetic(b, Val(b, s), Pow(b, e), Val(b, t'), d);
    }
  }

  lemma ConcatArithmetic(b: int, v: int, p: int, w: int, d: int)
    ensures (v * p + w) * b + d == v * (b * p) + (w * b + d)
  {
    assert (v * p + w) * b == (v * p) * b + w * b;
    assert (v * p) * b == v * (p * b);
  }

  /** Peeling the most significant digit. */
  lemma ValHead(b: nat, s: seq<int>)
    requires s != []
    ensures Val(b, s) == s[0] * Pow(b, |s| - 1) + Val(b, s[1..])
  {
    ValConcat(b, [s[0]], s[1..]);
    assert s == [s[0]] + s[1..];
    ValAppend(b, [], s[0]);
    assert [] + [s[0]] == [s[0]];
  }

  lemma {:induction false} ValBound(b: nat, s: seq<int>)
    requires InBase(b, s)
    ensures 0 <= Val(b, s) < Pow(b, |s|)
  {
    if s != [] {
      var s' := s[..|s| - 1];
      ValBound(b, s');
      var v, p, d := Val(b, s'), Pow(b, |s'|), s[|s| - 1];
      assert Val(b, s) == v * b + d && Pow(b, |s|) == b * p;
      hide Val, Pow;
      DigitBound(v, p, b, d);
    }
  }

  lemma DigitBound(v: int, p: int, b: int, d: int)
    requires 0 <= v < p && 0 <= d < b
    ensures 0 <= v * b + d < b * p
  {
    BelowProduct(v, p, b);
  }

  lemma {:induction false} ValZeros(b: nat, s: seq<int>)
    requires forall i :: 0 <= i < |s| ==> s[i] == 0
    ensures Val(b, s) == 0
  {
    if s != [] { ValZeros(b, s[..|s| - 1]); }
  }

  /** Leading zeros do not change the number. */
  lemma ValSkipZeros(b: nat, s: seq<int>, k: nat)
    requires k <= |s|
    requires forall i :: 0 <= i < k ==> s[i] == 0
    ensures Val(b, s) == Val(b, s[k..])
  {
    assert s == s[..k] + s[k..];
    ValConcat(b, s[..k], s[k..]);
    ValZeros(b, s[..k]);
  }

  lemma {:induction false} ValDigits(b: int, n: nat)
    requires b >= 2
    ensures Val(b, Digits(b, n)) == n
  {
    if n > 0 {
      DivSmaller(n, b);
      ValDigits(b, n / b);
      ValAppend(b, Digits(b, n / b), n % b);
      hide Val;
      DivModSum(n, b);
    }
  }

  /** A numeral with a nonzero first digit is the one Digits produces. */
  lemma {:induction false} DigitsVal(b: int, s: seq<int>)
    requires b >= 2 && InBase(b, s)
    requires s != [] ==> s[0] != 0
    ensures Val(b, s) >= 0 && Digits(b, Val(b, s)) == s
  {
    ValBound(b, s);
    if s != [] {
      var s', d := s[..|s| - 1], s[|s| - 1];
      DigitsVal(b, s');
      assert s == s' + [d];
      DivModUnique(b, Val(b, s'), d);
      var v := Val(b, s');
      assert v > 0 ==> v * b > 0;
      assert v == 0 ==> s' == [] && d == s[0];
    }
  }

  // ---- little-endian bytes ------------------------------------------------

  /** The low w bytes of n, least significant first. */
  function LE(n: nat, w: nat): (r: Bytes)
    ensures |r| == w
  {
    if w == 0 then [] else [n % 256] + LE(n / 256, w - 1)
  }

  function FromLE(s: Bytes): nat {
    if s == [] then 0 else s[0] + 256 * FromLE(s[1..])
  }

  lemma {:induction false} FromLEBound(s: Bytes)
    ensures FromLE(s) < Pow(256, |s|)
  {
    if s != [] { FromLEBound(s[1..]); }
  }

  lemma {:induction false} FromLEofLE(n: nat, w: nat)
    requires n < Pow(256, w)
    ensures FromLE(LE(n, w)) == n
  {
    if w > 0 { FromLEofLE(n / 256, w - 1); }
  }

  /** Byte i holds the digit of weight 256^i. */
  lemma {:induction false} LEByte(n: nat, w: nat, i: nat)
    requires i < w
    ensures Pow(256, i) > 0 && LE(n, w)[i] == (n / Pow(256, i)) % 256
  {
    PowPositive(256, i);
    if i > 0 {
      LEByte(n / 256, w - 1, i - 1);
      DivDiv(n, 256, Pow(256, i - 1));
    }
  }

  lemma {:induction false} LEofFromLE(s: Bytes)
    ensures LE(FromLE(s), |s|) == s
  {
    if s != [] {
      var v, x := FromLE(s), FromLE(s[1..]);
      LEofFromLE(s[1..]);
      assert v == x * 256 + s[0];
      assert LE(v, |s|) == [v % 256] + LE(v / 256, |s| - 1);
      hide LE, FromLE;
      DivModUnique(256, x, s[0]);
      assert [s[0]] + s[1..] == s;
    }
  }

  lemma {:induction false} FromLEConcat(s: Bytes, t: Bytes)
    ensures FromLE(s + t) == FromLE(s) + Pow(256, |s|) * FromLE(t)
  {
    if s == [] {
      assert s + t == t;
    } else {
      FromLEConcat(s[1..], t);
      assert (s + t)[1..] == s[1..] + t;
      var p, v := Pow(256, |s| - 1), FromLE(t);
      assert FromLE(s + t) == s[0] + 256 * (FromLE(s[1..]) + p * v);
      MulAssoc(256, p, v);
    }
  }

  lemma FromLEAppend(s: Bytes, x: byte)
    ensures FromLE(s + [x]) == FromLE(s) + x * Pow(256, |s|)
  {
    FromLEConcat(s, [x]);
    FromLESingle(x);
    hide Pow, FromLE;
    MulSwap(Pow(256, |s|), FromLE([x]), x);
  }

  lemma FromLESingle(x: byte)
    ensures FromLE([x]) == x
  {
    assert [x][1..] == [];
  }

  lemma Pow256Values()
    ensures Pow(256, 1) == 0x100 && Pow(256, 2) == 0x1_0000
    ensures Pow(256, 4) == 0x1_0000_0000
    ensures Pow(256, 8) == 0x1_0000_0000_0000_0000
  {
    assert Pow(256, 3) == 0x100_0000;
    assert Pow(256, 5) == 0x100_0000_0000;
    assert Pow(256, 6) == 0x1_0000_0000_0000;
    assert Pow(256, 7) == 0x100_0000_0000_0000;
  }

  // ---- reversal -----------------------------------------------------------

  function Reverse<T>(s: seq<T>): (r: seq<T>)
    ensures |r| == |s|
    ensures forall i :: 0 <= i < |s| ==> r[i] == s[|s| - 1 - i]
  {
    if s == [] then [] else Reverse(s[1..]) + [s[0]]
  }

  lemma ReverseTwice<T>(s: seq<T>)
    ensures Reverse(Reverse(s)) == s
  {
  }

  lemma ReverseConcat<T>(s: seq<T>, t: seq<T>)
    ensures Reverse(s + t) == Reverse(t) + Reverse(s)
  {
  }
}
