/** Fixed-width integers, byte strings and error codes shared by every module. */
module Common {
  type byte = x: int | 0 <= x < 256
  type uint32 = x: int | 0 <= x < 0x1_0000_0000
  type uint64 = x: int | 0 <= x < 0x1_0000_0000_0000_0000
  type int64 = x: int | -0x8000_0000_0000_0000 <= x < 0x8000_0000_0000_0000

  type Bytes = seq<byte>
  type Bytes32 = s: Bytes | |s| == 32 witness seq(32, i => 0)

  /** SHA-256 (or its double) is any function into 32 bytes; nothing else is assumed of it. */
  type Hash = Bytes -> Bytes32

  /** Two different byte strings with the same digest. */
  ghost predicate Collision(h: Hash, x: Bytes, y: Bytes) {
    x != y && h(x) == h(y)
  }

  /** The error codes of common/error.h that the modelled functions return. */
  datatype Code =
    | EINVAL | ECRYPTO | ENET | EPARSE | EINTEGRITY | EHOPLIMIT | ERANGE

  datatype Option<+T> = None | Some(value: T)

  datatype Result<+T> = Ok(value: T) | Err(code: Code)

  /** 21 million coins, in satoshis: no value or total may pass it. */
  const MAX_MONEY: int64 := 2_100_000_000_000_000

  /** A lower-case hexadecimal digit, as its ASCII byte. */
  function HexDigit(d: int): (r: byte)
    requires 0 <= d < 16
    ensures 0x30 <= r <= 0x39 || 0x61 <= r <= 0x66
  {
    if d < 10 then 0x30 + d else 0x61 + (d - 10)
  }

  function Min(a: nat, b: nat): nat {
    if a <= b then a else b
  }
}

/** Powers, and the division facts the solver does not find alone. */
module Arith {
  function Pow(b: nat, e: nat): nat {
    if e == 0 then 1 else b * Pow(b, e - 1)
  }

  lemma {:induction false} PowPositive(b: nat, e: nat)
    requires b > 0
    ensures Pow(b, e) > 0
  {
    if e > 0 { PowPositive(b, e - 1); }
  }

  lemma {:induction false} PowAdd(b: nat, m: nat, n: nat)
    ensures Pow(b, m + n) == Pow(b, m) * Pow(b, n)
  {
    if m > 0 {
      PowAdd(b, m - 1, n);
      MulAssoc(b, Pow(b, m - 1), Pow(b, n));
    }
  }

  lemma {:induction false} PowOfPow(b: nat, m: nat, n: nat)
    ensures Pow(Pow(b, m), n) == Pow(b, m * n)
  {
    if n > 0 {
      PowOfPow(b, m, n - 1);
      PowAdd(b, m, m * (n - 1));
      assert m + m * (n - 1) == m * n;
    }
  }

  lemma {:induction false} PowMonotoneBase(a: nat, b: nat, e: nat)
    requires a <= b
    ensures Pow(a, e) <= Pow(b, e)
  {
    if e > 0 {
      PowMonotoneBase(a, b, e - 1);
      MulMonotone(a, b, Pow(a, e - 1), Pow(b, e - 1));
    }
  }

  lemma {:induction false} PowMonotoneExp(b: nat, m: nat, n: nat)
    requires b > 0 && m <= n
    ensures Pow(b, m) <= Pow(b, n)
  {
    PowAdd(b, m, n - m);
    PowPositive(b, n - m);
    MulMonotone(Pow(b, m), Pow(b, m), 1, Pow(b, n - m));
  }

  lemma Rearrange(a: int, b: int, x: int, y: int)
    ensures (a * b) * (x * y) == (a * x) * (b * y)
  {
    assert (a * b) * (x * y) == a * (b * (x * y));
    assert b * (x * y) == x * (b * y);
    assert a * (x * (b * y)) == (a * x) * (b * y);
  }

  lemma MulMonotone(a: nat, b: nat, x: nat, y: nat)
    requires a <= b && x <= y
    ensures a * x <= b * y
  {
    assert a * x <= b * x;
    assert b * x <= b * y;
  }

  lemma MulAssoc(a: int, b: int, c: int)
    ensures a * (b * c) == (a * b) * c
  {
  }

  lemma MulSwap(a: int, b: int, c: int)
    requires b == c
    ensures a * b == c * a
  {
  }

  lemma DivModSum(n: int, b: int)
    requires b > 0
    ensures (n / b) * b + n % b == n && 0 <= n % b < b
  {
  }

  lemma SmallMultiple(b: int, k: int)
    requires -b < b * k < b
    ensures k == 0
  {
    assert k >= 1 ==> b * k >= b;
    assert k <= -1 ==> b * k <= -b;
  }

  /** Quotient and remainder are the only decomposition with the remainder in range. */
  lemma DivModUnique(b: int, q: int, r: int)
    requires b > 0 && 0 <= r < b
    ensures (q * b + r) / b == q && (q * b + r) % b == r
  {
    var n := q * b + r;
    var k := n / b - q;
    assert n == b * (n / b) + n % b;
    assert b * (n / b) == b * q + b * k;
    assert b * k == r - n % b;
    SmallMultiple(b, k);
  }

  /** Dividing twice is dividing by the product. */
  lemma DivDiv(n: nat, a: nat, b: nat)
    requires a > 0 && b > 0
    ensures a * b > 0 && (n / a) / b == n / (a * b)
  {
    DivModSum(n, a);
    DivModSum(n / a, b);
    TwoRemainders(n, a, b, (n / a) / b, n / a, (n / a) % b, n % a);
  }

  lemma Distribute(q: int, b: int, t: int, a: int)
    ensures (q * b + t) * a == q * (a * b) + t * a
  {
  }

  lemma BelowProduct(t: int, b: int, a: int)
    requires 0 <= t < b && 0 < a
    ensures 0 <= t * a <= a * b - a
  {
    assert (b - 1 - t) * a >= 0;
    assert (b - 1 - t) * a == a * b - a - t * a;
  }

  lemma TwoRemainders(n: int, a: int, b: int, q: int, m: int, t: int, r: int)
    requires a > 0 && b > 0 && n == m * a + r && m == q * b + t && 0 <= t < b && 0 <= r < a
    ensures a * b > 0 && n / (a * b) == q
  {
    Distribute(q, b, t, a);
    BelowProduct(t, b, a);
    var ab, rest := a * b, t * a + r;
    assert n == q * ab + rest && 0 <= rest < ab;
    DivModUnique(ab, q, rest);
  }
}
