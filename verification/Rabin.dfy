/** Rabin signatures (src/crypto/rabin.c): CRT square roots, padding retries, verification. */
module Rabin {
  import opened Common
  import opened Arith
  import opened Numerals
  import opened NumberTheory

  const SECURITY_LEVEL: nat := 6
  const MAX_PADDING_BYTES: nat := 4096

  // ---- hashing ------------------------------------------------------------

  /** A digest per half of the digest: 64 bytes. */
  function Bin2Hash(sha: Hash, data: Bytes): (r: Bytes)
    ensures |r| == 64
  {
    sha(sha(data)[..16]) + sha(sha(data)[16..])
  }

  /** The first k blocks of the expanded hash, each block hashing everything before it. */
  function Expanded(sha: Hash, data: Bytes, k: nat): (r: Bytes)
    requires k > 0
    ensures |r| == 64 * k
  {
    if k == 1 then Bin2Hash(sha, data)
    else
      var front := Expanded(sha, data, k - 1);
      front + Bin2Hash(sha, front)
  }

  lemma {:induction false} ExpandedPrefix(sha: Hash, data: Bytes, i: nat, k: nat)
    requires 0 < i <= k
    ensures Expanded(sha, data, k)[..64 * i] == Expanded(sha, data, i)
    decreases k
  {
    hide Bin2Hash;
    if i < k {
      ExpandedPrefix(sha, data, i, k - 1);
      var front := Expanded(sha, data, k - 1);
      assert Expanded(sha, data, k) == front + Bin2Hash(sha, front);
      assert (front + Bin2Hash(sha, front))[..64 * i] == front[..64 * i];
    }
  }

  /** 64 bytes: the digests of the two halves of a digest. */
  ghost predicate DoubleDigest(sha: Hash, block: Bytes, data: Bytes) {
    |block| == 64 && block[..32] == sha(sha(data)[..16]) && block[32..] == sha(sha(data)[16..])
  }

  lemma Bin2HashIs(sha: Hash, data: Bytes)
    ensures DoubleDigest(sha, Bin2Hash(sha, data), data)
  {
  }

  /** The expanded hash is 384 bytes: a doubled digest of the data, then five of everything before them. */
  lemma ExpansionLayout(sha: Hash, data: Bytes, i: nat)
    requires i < 6
    ensures var all := Expanded(sha, data, SECURITY_LEVEL);
            && |all| == 384
            && HashValue(sha, data) == FromLE(all)
            && DoubleDigest(sha, all[64 * i..64 * i + 64], if i == 0 then data else all[..64 * i])
  {
    var all := Expanded(sha, data, 6);
    ExpandedPrefix(sha, data, i + 1, 6);
    hide Bin2Hash, DoubleDigest;
    if i == 0 {
      Bin2HashIs(sha, data);
      assert all[0..64] == all[..64];
    } else {
      ExpandedPrefix(sha, data, i, 6);
      var front := Expanded(sha, data, i);
      Bin2HashIs(sha, front);
      assert all[64 * i..64 * i + 64] == all[..64 * (i + 1)][64 * i..];
      assert all[..64 * (i + 1)] == front + Bin2Hash(sha, front);
    }
  }

  function HashValue(sha: Hash, data: Bytes): nat {
    FromLE(Expanded(sha, data, SECURITY_LEVEL))
  }

  method RabinHash(sha: Hash, data: Bytes) returns (h: nat)
    ensures h == HashValue(sha, data)
  {
    var acc := Bin2Hash(sha, data);
    for i := 0 to SECURITY_LEVEL - 1
      invariant acc == Expanded(sha, data, i + 1)
    {
      acc := acc + Bin2Hash(sha, acc);
    }
    h := FromLE(acc);
  }

  // ---- long division ------------------------------------------------------

  const WORD: int := 0x1_0000_0000
  const SAFE_DIVISOR: int := 0x100_0000

  /** One more byte after remainder rem, in a 32-bit word: the shift drops what does not fit. */
  function Cur(rem: nat, x: byte): (cur: nat)
    ensures cur < WORD
  {
    (rem * 256 + x) % WORD
  }

  /** The quotient bytes and the last remainder, most significant byte first. */
  function LongDivision(d: nat, s: Bytes): (r: (Bytes, nat))
    requires d > 0
    ensures |r.0| == |s|
  {
    if s == [] then ([], 0)
    else
      var (front, rem) := LongDivision(d, s[..|s| - 1]);
      var cur := Cur(rem, s[|s| - 1]);
      (front + [(cur / d) % 256], cur % d)
  }

  lemma LongDivisionAppend(d: nat, s: Bytes, x: byte)
    requires d > 0
    ensures var (front, rem) := LongDivision(d, s);
            LongDivision(d, s + [x]) == (front + [(Cur(rem, x) / d) % 256], Cur(rem, x) % d)
  {
    assert (s + [x])[..|s|] == s;
  }

  /** One byte of long division. */
  lemma DivisionStep(d: int, v: int, q: int, rem: int, x: int)
    requires d > 0 && v == q * d + rem && 0 <= rem < d && 0 <= x < 256
    ensures var cur := rem * 256 + x;
            0 <= cur / d < 256 && v * 256 + x == (q * 256 + cur / d) * d + cur % d
  {
    var cur := rem * 256 + x;
    DivModSum(cur, d);
    var k := cur / d;
    assert cur < 256 * d;
    assert k >= 256 ==> k * d >= 256 * d;
    assert k <= -1 ==> k * d <= -d;
    assert (q * 256 + k) * d == (q * d) * 256 + k * d;
  }

  /** The same in the 32-bit word, while no remainder outgrows it. */
  lemma ExactStep(d: int, v: int, q: int, rem: nat, x: byte)
    requires 0 < d <= SAFE_DIVISOR && v == q * d + rem && rem < d
    ensures var cur := Cur(rem, x);
            && 0 <= cur / d < 256 && (cur / d) % 256 == cur / d && 0 <= cur % d < d
            && v * 256 + x == (q * 256 + cur / d) * d + cur % d
  {
    assert rem * 256 + x < WORD;
    DivModUnique(WORD, 0, rem * 256 + x);
    DivisionStep(d, v, q, rem, x);
    DivModUnique(256, 0, Cur(rem, x) / d);
  }

  /** Up to 2^24 no remainder outgrows the word, and the bytes are those of the quotient. */
  lemma {:induction false} LongDivisionExact(d: nat, s: Bytes)
    requires 0 < d <= SAFE_DIVISOR
    ensures var (q, rem) := LongDivision(d, s);
            0 <= rem < d && Val(256, s) == Val(256, q) * d + rem
  {
    if s != [] {
      var front, x := s[..|s| - 1], s[|s| - 1];
      assert s == front + [x];
      LongDivisionExact(d, front);
      LongDivisionAppend(d, front, x);
      hide LongDivision, Val, Pow, Cur;
      var (q, rem) := LongDivision(d, front);
      ExactStep(d, Val(256, front), Val(256, q), rem, x);
      ValAppend(256, front, x);
      ValAppend(256, q, Cur(rem, x) / d);
    }
  }

  lemma QuotientExact(d: nat, s: Bytes)
    requires 0 < d <= SAFE_DIVISOR
    ensures Val(256, LongDivision(d, s).0) >= 0 && Val(256, LongDivision(d, s).0) == Val(256, s) / d
  {
    LongDivisionExact(d, s);
    hide LongDivision, Val, Pow;
    var (q, rem) := LongDivision(d, s);
    ValBound(256, q);
    DivModUnique(d, Val(256, q), rem);
  }

  /** Below the divisor a byte is only carried along. */
  lemma SmallStep(d: nat, rem: nat, x: byte)
    requires 0 < d < WORD && rem * 256 + x < d
    ensures Cur(rem, x) == rem * 256 + x && Cur(rem, x) / d == 0 && Cur(rem, x) % d == rem * 256 + x
  {
    DivModUnique(WORD, 0, rem * 256 + x);
    DivModUnique(d, 0, rem * 256 + x);
  }

  /** A number below the divisor leaves zero bytes and itself as the remainder. */
  lemma {:induction false} BelowDivisor(d: nat, s: Bytes)
    requires 0 < d < WORD && Val(256, s) < d
    ensures LongDivision(d, s).1 == Val(256, s) && Val(256, LongDivision(d, s).0) == 0
  {
    if s != [] {
      hide LongDivision, Val, Pow, Cur;
      var front, x := s[..|s| - 1], s[|s| - 1];
      assert s == front + [x];
      ValAppend(256, front, x);
      ValBound(256, front);
      BelowDivisor(d, front);
      LongDivisionAppend(d, front, x);
      SmallStep(d, Val(256, front), x);
      ValAppend(256, LongDivision(d, front).0, 0);
    }
  }

  lemma QuotientBelow(c: int, d: int, k: int)
    requires d > 0 && 0 <= c < k * d
    ensures 0 <= c / d < k
  {
    var q := c / d;
    DivModSum(c, d);
    assert q >= k ==> q * d >= k * d;
    assert q <= -1 ==> q * d <= -d;
  }

  lemma WrapLoses(full: int)
    requires full >= WORD
    ensures 0 <= full % WORD <= full - WORD
  {
    DivModSum(full, WORD);
  }

  /** Above 2^24 the shift loses the top of the remainder d - 1, and the last quotient byte is too small. */
  lemma WrappedByte(d: nat)
    requires SAFE_DIVISOR < d < WORD
    ensures ((d - 1) * 256) / d == 255 && 0 <= Cur(d - 1, 0) / d < 255
  {
    var full := (d - 1) * 256;
    assert full == 255 * d + (d - 256);
    DivModUnique(d, 255, d - 256);
    WrapLoses(full);
    var cur := Cur(d - 1, 0);
    assert cur <= full - WORD;
    hide Cur;
    QuotientBelow(cur, d, 255);
  }

  /** The bytes of d - 1 and a zero: the input on which such a divisor fails. */
  lemma WrapsAbove(d: nat)
    requires SAFE_DIVISOR < d < WORD
    ensures var s := Digits(256, d - 1) + [0]; Val(256, LongDivision(d, s).0) != Val(256, s) / d
  {
    hide LongDivision, Digits, Val, Pow, Cur;
    var front := Digits(256, d - 1);
    ValDigits(256, d - 1);
    BelowDivisor(d, front);
    LongDivisionAppend(d, front, 0);
    WrappedByte(d);
    var q := Cur(d - 1, 0) / d;
    DivModSum(Cur(d - 1, 0), d);
    DivModUnique(256, 0, q);
    ValAppend(256, front, 0);
    ValAppend(256, LongDivision(d, front).0, q);
  }

  ghost predicate DividesAll(d: nat)
    requires d > 0
  {
    forall s: Bytes :: Val(256, LongDivision(d, s).0) == Val(256, s) / d
  }

  /** Exactly which 32-bit divisors the byte-wise division is right for. */
  lemma DividesIff(d: nat)
    requires 0 < d < WORD
    ensures DividesAll(d) <==> d <= SAFE_DIVISOR
  {
    hide LongDivision, Val, Digits;
    if d <= SAFE_DIVISOR {
      forall s: Bytes ensures Val(256, LongDivision(d, s).0) == Val(256, s) / d { QuotientExact(d, s); }
    } else {
      WrapsAbove(d);
      assert InBase(256, Digits(256, d - 1));
      var s: Bytes := Digits(256, d - 1) + [0];
      assert Val(256, LongDivision(d, s).0) != Val(256, s) / d;
    }
  }

  /** The in-place loop over the big-endian bytes. */
  method DivideBytes(be: array<byte>, d: nat)
    requires 0 < d < WORD
    modifies be
    ensures be[..] == LongDivision(d, old(be[..])).0
  {
    ghost var was := be[..];
    var rem := 0;
    hide LongDivision;
    assert LongDivision(d, was[..0]) == ([], 0) by { LongDivisionNone(d); }
    for i := 0 to be.Length
      invariant be[..i] == LongDivision(d, was[..i]).0 && rem == LongDivision(d, was[..i]).1
      invariant be[i..] == was[i..]
    {
      assert be[i] == be[i..][0] == was[i];
      assert was[..i + 1] == was[..i] + [was[i]];
      LongDivisionAppend(d, was[..i], was[i]);
      var cur := Cur(rem, be[i]);
      ghost var front := be[..i];
      be[i] := (cur / d) % 256;
      rem := cur % d;
      assert be[..i + 1] == front + [(cur / d) % 256];
      assert be[i + 1..] == was[i..][1..];
    }
    assert was[..be.Length] == was && be[..be.Length] == be[..];
  }

  lemma LongDivisionNone(d: nat)
    requires d > 0
    ensures LongDivision(d, []) == ([], 0)
  {
  }

  /** The bytes of a, divided in place and read back: a / d, as long as the divisor is within 2^24. */
  method DivSmall(a: nat, d: nat) returns (q: int)
    requires 0 < d < WORD
    ensures q == Val(256, LongDivision(d, Digits(256, a)).0)
    ensures d <= SAFE_DIVISOR ==> q == a / d
  {
    var digits: Bytes := Digits(256, a);
    ValDigits(256, a);
    var be := new byte[|digits|](i requires 0 <= i < |digits| => digits[i]);
    assert be[..] == digits;
    hide Val, Digits, LongDivision;
    DivideBytes(be, d);
    q := Val(256, be[..]);
    if d <= SAFE_DIVISOR { QuotientExact(d, digits); }
  }

  // ---- square roots -------------------------------------------------------

  function ModExp(b: nat, e: nat, m: nat): nat
    requires m > 0
  {
    Pow(b, e) % m
  }

  /** The combination of the two prime roots that rabin_crt_root assembles. */
  function CrtRoot(x: nat, p: nat, q: nat): nat
    requires p >= 2 && q >= 2
  {
    var termp := ModExp(q, p - 2, p) * q * ModExp(x, (p + 1) / 4, p);
    var termq := ModExp(p, q - 2, q) * p * ModExp(x, (q + 1) / 4, q);
    (termp + termq) % (p * q)
  }

  ghost predicate IsSquare(x: int, n: int)
    requires n > 0
  {
    exists y: nat :: SquareRoot(y, x, n)
  }

  ghost predicate SquareRoot(y: int, x: int, n: int)
    requires n > 0
  {
    (y * y) % n == x % n
  }

  ghost predicate BlumPrime(p: int) {
    Prime(p) && p % 4 == 3
  }

  ghost predicate GoodKey(p: int, q: int) {
    BlumPrime(p) && BlumPrime(q) && p != q
  }

  method ComputeCrtRoot(x: nat, p: nat, q: nat) returns (s: nat)
    requires p >= 2 && q >= 2
    ensures s == CrtRoot(x, p, q)
  {
    hide LongDivision, Val, Digits, Pow;
    var ep := DivSmall(p + 1, 4);
    var eq := DivSmall(q + 1, 4);
    var tp := ModExp(q, p - 2, p) * q;
    var tq := ModExp(p, q - 2, q) * p;
    s := (tp * ModExp(x, ep, p) + tq * ModExp(x, eq, q)) % (p * q);
  }

  /** x^((p+1)/4) is a root of x modulo p as soon as x has one. */
  lemma RootModPrime(p: int, x: nat, y: nat)
    requires BlumPrime(p) && Cong(p, y * y, x)
    ensures var r := ModExp(x, (p + 1) / 4, p); Cong(p, r * r, x)
  {
    var e := (p + 1) / 4;
    var r := Pow(x, e);
    assert 4 * e == p + 1;
    CongMod(p, r);
    CongMul(p, r % p, r, r % p, r);
    PowAdd(x, e, e);
    CongSym(p, y * y, x);
    CongPow(p, x, y * y, e + e);
    PowSquareBase(y, e + e);
    PowPlusOne(p, y);
    CongTrans(p, Pow(x, e + e), Pow(y, p + 1), y * y);
    CongTrans(p, Pow(x, e + e), y * y, x);
    CongTrans(p, (r % p) * (r % p), r * r, x);
  }

  lemma PowSquareBase(y: nat, e: nat)
    ensures Pow(y * y, e) == Pow(y, 2 * e)
  {
    assert Pow(y, 2) == y * y by { assert Pow(y, 1) == y; }
    PowOfPow(y, 2, e);
  }

  /** y^(p+1) is y^2 modulo p, whether or not p divides y. */
  lemma PowPlusOne(p: int, y: nat)
    requires Prime(p)
    ensures Cong(p, Pow(y, p + 1), y * y)
  {
    PowAdd(y, 2, p - 1);
    assert Pow(y, 2) == y * y by { assert Pow(y, 1) == y; }
    var sq, z := y * y, Pow(y, p - 1);
    if y % p == 0 {
      var k := Quotient(p, y);
      DivisibleSquare(p, y, k, z);
    } else {
      Fermat(p, y);
      CongRefl(p, sq);
      CongMul(p, sq, sq, z, 1);
    }
  }

  lemma DivisibleSquare(p: int, y: int, k: int, z: int)
    requires p > 0 && y == p * k
    ensures Cong(p, (y * y) * z, y * y)
  {
    var w := k * (y * (z - 1));
    assert (y * y) * z - y * y == y * (y * (z - 1));
    assert (p * k) * (y * (z - 1)) == p * w;
    CongBy(p, (y * y) * z, y * y, w);
  }

  /** One CRT term vanishes modulo its own factor. */
  lemma TermVanishes(p: int, c: int, r: int)
    requires p > 0
    ensures Cong(p, c * p * r, 0)
  {
    assert c * p * r == p * (c * r);
    CongBy(p, c * p * r, 0, c * r);
  }

  /** The other is the prime root, since q^(p-2) * q is 1 modulo p. */
  lemma TermIsRoot(p: int, q: nat, r: int)
    requires Prime(p) && q % p != 0
    ensures Cong(p, ModExp(q, p - 2, p) * q * r, r)
  {
    Fermat(p, q);
    var t := Pow(q, p - 2);
    assert Pow(q, p - 1) == q * t;
    CongMod(p, t);
    CongRefl(p, q);
    CongMul(p, t % p, t, q, q);
    assert t * q == q * t;
    CongTrans(p, (t % p) * q, t * q, 1);
    CongRefl(p, r);
    CongMul(p, (t % p) * q, 1, r, r);
  }

  lemma ReduceProduct(p: int, q: int, a: int)
    requires p > 0 && q > 0
    ensures p * q > 0 && Cong(p, a % (p * q), a)
  {
    assert p * q > 0;
    DivModSum(a, p * q);
    var k := a / (p * q);
    assert k * (p * q) == p * (k * q);
    assert a % (p * q) - a == p * (-(k * q));
    CongBy(p, a % (p * q), a, -(k * q));
  }

  /** The assembled s restricts to the prime root on each side. */
  lemma CrtResidue(x: nat, p: int, q: int)
    requires GoodKey(p, q)
    ensures Cong(p, CrtRoot(x, p, q), ModExp(x, (p + 1) / 4, p))
    ensures Cong(q, CrtRoot(x, p, q), ModExp(x, (q + 1) / 4, q))
  {
    var rp, rq := ModExp(x, (p + 1) / 4, p), ModExp(x, (q + 1) / 4, q);
    var cp, cq := ModExp(q, p - 2, p), ModExp(p, q - 2, q);
    var termp, termq := cp * q * rp, cq * p * rq;
    DistinctPrimes(p, q);
    DistinctPrimes(q, p);
    hide Pow, ModExp, Prime, Cong;
    ResidueSum(p, q, termp, termq, rp, cq, rq);
    ResidueSum(q, p, termq, termp, rq, cp, rp);
    assert p * q == q * p && termp + termq == termq + termp;
  }

  lemma ResidueSum(p: int, q: int, term: int, other: int, r: int, c: int, r': int)
    requires Prime(p) && q > 1 && q % p != 0
    requires term == ModExp(q, p - 2, p) * q * r && other == c * p * r'
    ensures Cong(p, (term + other) % (p * q), r)
  {
    TermIsRoot(p, q, r);
    TermVanishes(p, c, r');
    CongAdd(p, term, r, other, 0);
    ReduceProduct(p, q, term + other);
    CongTrans(p, (term + other) % (p * q), term + other, r);
  }

  lemma RootSquares(p: int, s: nat, r: int, x: int)
    requires p > 0 && Cong(p, s, r) && Cong(p, r * r, x)
    ensures Cong(p, s * s, x)
  {
    CongMul(p, s, r, s, r);
    CongTrans(p, s * s, r * r, x);
  }

  lemma SquareModFactor(p: int, q: int, y: nat, x: nat)
    requires p > 0 && q > 0 && p * q > 0 && SquareRoot(y, x, p * q)
    ensures Cong(p, y * y, x)
  {
    CongIffSameMod(p * q, y * y, x);
    var k := Quotient(p * q, y * y - x);
    assert (p * q) * k == p * (q * k);
    CongBy(p, y * y, x, q * k);
  }

  /** An attempt is accepted exactly when the hash value is a square modulo n. */
  lemma AcceptedIffSquare(x: nat, p: int, q: int)
    requires GoodKey(p, q) && x < p * q
    ensures var s := CrtRoot(x, p, q); (s * s) % (p * q) == x <==> IsSquare(x, p * q)
  {
    var s, n := CrtRoot(x, p, q), p * q;
    DivModUnique(n, 0, x);
    if (s * s) % n == x {
      assert SquareRoot(s, x, n);
    }
    if IsSquare(x, n) {
      var y: nat :| SquareRoot(y, x, n);
      SquareModFactor(p, q, y, x);
      assert p * q == q * p;
      SquareModFactor(q, p, y, x);
      CrtAccepted(x, p, q, y);
    }
  }

  lemma CrtAccepted(x: nat, p: int, q: int, y: nat)
    requires GoodKey(p, q) && Cong(p, y * y, x) && Cong(q, y * y, x)
    ensures var s := CrtRoot(x, p, q); (s * s) % (p * q) == x % (p * q)
  {
    var s := CrtRoot(x, p, q);
    CrtResidue(x, p, q);
    RootModPrime(p, x, y);
    RootModPrime(q, x, y);
    hide CrtRoot, ModExp, Prime;
    RootSquares(p, s, ModExp(x, (p + 1) / 4, p), x);
    RootSquares(q, s, ModExp(x, (q + 1) / 4, q), x);
    CoprimeProduct(p, q, s * s - x);
    CongIffSameMod(p * q, s * s, x);
  }

  // ---- sign and verify ----------------------------------------------------

  datatype Signature = Signature(s: int, padding: nat)

  function Zeros(k: nat): (r: Bytes)
    ensures |r| == k
    ensures forall i :: 0 <= i < k ==> r[i] == 0
  {
    seq(k, i => 0)
  }

  /** The hash value of the message with k zero bytes behind it, reduced modulo n. */
  function Padded(sha: Hash, msg: Bytes, k: nat, n: nat): (x: nat)
    requires n > 0
    ensures x < n
  {
    HashValue(sha, msg + Zeros(k)) % n
  }

  /** Padding k makes the hash a square, and no smaller padding does. */
  ghost predicate LeastPadding(sha: Hash, msg: Bytes, n: nat, k: nat)
    requires n > 0
  {
    && IsSquare(Padded(sha, msg, k, n), n)
    && forall j: nat :: j < k ==> !IsSquare(Padded(sha, msg, j, n), n)
  }

  /**
   * Retries with one more zero byte until an attempt is accepted. It would run for ever if no
   * padding made the hash a square, so one that does is needed for the method to return at all.
   */
  method Sign(sha: Hash, msg: Bytes, p: nat, q: nat) returns (sig: Signature)
    requires GoodKey(p, q) && p * q > 0
    requires exists k: nat :: IsSquare(Padded(sha, msg, k, p * q), p * q)
    ensures 0 <= sig.s < p * q && LeastPadding(sha, msg, p * q, sig.padding)
    ensures (sig.s * sig.s) % (p * q) == Padded(sha, msg, sig.padding, p * q)
  {
    var n := p * q;
    ghost var bound: nat :| IsSquare(Padded(sha, msg, bound, n), n);
    var data, padding := msg, 0;
    assert data == msg + Zeros(0);
    while true
      invariant data == msg + Zeros(padding)
      invariant padding <= bound
      invariant forall j: nat :: j < padding ==> !IsSquare(Padded(sha, msg, j, n), n)
      decreases bound - padding
    {
      var accepted, s := Attempt(sha, data, p, q, n);
      if accepted {
        return Signature(s, padding);
      }
      assert padding != bound;
      assert data + [0] == msg + Zeros(padding + 1);
      data := data + [0];
      padding := padding + 1;
    }
  }

  method Attempt(sha: Hash, data: Bytes, p: nat, q: nat, n: nat) returns (accepted: bool, s: nat)
    requires GoodKey(p, q) && n == p * q > 0
    ensures accepted <==> IsSquare(HashValue(sha, data) % n, n)
    ensures s < n
    ensures accepted ==> (s * s) % n == HashValue(sha, data) % n
  {
    var h := RabinHash(sha, data);
    var x := h % n;
    s := ComputeCrtRoot(x, p, q);
    AcceptedIffSquare(x, p, q);
    accepted := (s * s) % n == x;
  }

  function Accepts(sha: Hash, msg: Bytes, sig: Signature, n: int): bool {
    && sig.padding <= MAX_PADDING_BYTES
    && n != 0
    && HashValue(sha, msg + Zeros(sig.padding)) % n == (sig.s * sig.s) % n
  }

  method Verify(sha: Hash, msg: Bytes, sig: Signature, n: int) returns (ok: bool)
    ensures ok == Accepts(sha, msg, sig, n)
    ensures ok <==>
      && sig.padding <= 4096 && n != 0
      && HashValue(sha, msg + Zeros(sig.padding)) % n == (sig.s * sig.s) % n
  {
    if sig.padding > MAX_PADDING_BYTES { return false; }
    var data := msg;
    for i := 0 to sig.padding
      invariant data == msg + Zeros(i)
    {
      assert data + [0] == msg + Zeros(i + 1);
      data := data + [0];
    }
    var h := RabinHash(sha, data);
    if n == 0 { return false; }
    ok := h % n == (sig.s * sig.s) % n;
  }

  /** A signature that verifies is a square root of the padded hash. */
  lemma AcceptedSquares(sha: Hash, msg: Bytes, sig: Signature, n: nat)
    requires n > 0 && Accepts(sha, msg, sig, n)
    ensures IsSquare(Padded(sha, msg, sig.padding, n), n)
  {
    var y := if sig.s >= 0 then sig.s else -sig.s;
    assert y * y == sig.s * sig.s;
    var h := HashValue(sha, msg + Zeros(sig.padding));
    DivModSum(h, n);
    DivModUnique(n, 0, h % n);
    assert SquareRoot(y, Padded(sha, msg, sig.padding, n), n);
  }

  /**
   * What the signer returns verifies exactly when its padding is within the verifier's bound, and
   * then only: if it does not verify, no signature at all verifies for this message and key.
   */
  lemma SignerComplete(sha: Hash, msg: Bytes, n: nat, sig: Signature)
    requires n > 0 && LeastPadding(sha, msg, n, sig.padding)
    requires (sig.s * sig.s) % n == Padded(sha, msg, sig.padding, n)
    ensures Accepts(sha, msg, sig, n) <==> sig.padding <= 4096
    ensures Accepts(sha, msg, sig, n) <==> exists other: Signature :: Accepts(sha, msg, other, n)
  {
    if other: Signature :| Accepts(sha, msg, other, n) {
      AcceptedSquares(sha, msg, other, n);
    }
  }

  // ---- a hash that needs any given padding --------------------------------

  const MARK: byte := 9

  /** A byte and 31 zeros. */
  function Lead(x: byte): Bytes32 {
    [x] + Zeros(31)
  }

  predicate Short(len: Option<nat>, data: Bytes) {
    len.None? || |data| < len.value
  }

  /** Marked data shorter than `len`, or any marked data, hashes to something else than all other data. */
  function StubbornHash(len: Option<nat>): Hash {
    data =>
      if |data| == 16 && data[0] == 1 then Lead(2)
      else if data != [] && data[0] == MARK && Short(len, data) then Lead(1)
      else Lead(0)
  }

  /** Long unmarked data hashes to a zero block. */
  lemma ZeroBlock(len: Option<nat>, data: Bytes)
    requires |data| != 16 && data != [] && data[0] != MARK
    ensures Bin2Hash(StubbornHash(len), data) == Zeros(64)
  {
    var sha := StubbornHash(len);
    assert sha(data) == Lead(0);
    assert Lead(0)[..16][0] == 0 && Lead(0)[16..][0] == 0;
    assert sha(Lead(0)[..16]) == Lead(0) && sha(Lead(0)[16..]) == Lead(0);
    assert Lead(0) + Lead(0) == Zeros(64);
  }

  /** Blocks that follow an unmarked start are zero. */
  lemma {:induction false} StubbornTail(len: Option<nat>, data: Bytes, x: byte, k: nat)
    requires k > 0 && x != MARK && Bin2Hash(StubbornHash(len), data) == [x] + Zeros(63)
    ensures Expanded(StubbornHash(len), data, k) == [x] + Zeros(64 * k - 1)
  {
    hide Bin2Hash, StubbornHash;
    if k > 1 {
      StubbornTail(len, data, x, k - 1);
      var front := Expanded(StubbornHash(len), data, k - 1);
      assert |front| >= 64 && front[0] == x;
      ZeroBlock(len, front);
      assert [x] + Zeros(64 * k - 65) + Zeros(64) == [x] + Zeros(64 * k - 1);
    }
  }

  lemma {:induction false} LeadValue(x: byte, k: nat)
    ensures FromLE([x] + Zeros(k)) == x
  {
    ZerosValue(k);
    assert ([x] + Zeros(k))[1..] == Zeros(k);
  }

  lemma {:induction false} ZerosValue(k: nat)
    ensures FromLE(Zeros(k)) == 0
  {
    if k > 0 {
      ZerosValue(k - 1);
      assert Zeros(k)[1..] == Zeros(k - 1);
    }
  }

  /** Its value is 2 while the data is short and 0 from then on. */
  lemma StubbornValue(len: Option<nat>, data: Bytes)
    requires data != [] && data[0] == MARK
    ensures HashValue(StubbornHash(len), data) == if Short(len, data) then 2 else 0
  {
    var sha := StubbornHash(len);
    var x: byte := if Short(len, data) then 2 else 0;
    var y: byte := if Short(len, data) then 1 else 0;
    assert sha(data) == Lead(y);
    assert Lead(y)[..16][0] == y && Lead(y)[16..][0] == 0;
    assert sha(Lead(y)[..16]) == Lead(x) && sha(Lead(y)[16..]) == Lead(0);
    assert Lead(x) + Lead(0) == [x] + Zeros(63);
    StubbornTail(len, data, x, SECURITY_LEVEL);
    LeadValue(x, 64 * SECURITY_LEVEL - 1);
  }

  lemma StubbornPadded(len: Option<nat>, k: nat)
    ensures Padded(StubbornHash(len), [MARK], k, 21) == if len.None? || k + 1 < len.value then 2 else 0
  {
    hide HashValue, StubbornHash;
    StubbornValue(len, [MARK] + Zeros(k));
  }

  lemma SmallKey()
    ensures GoodKey(3, 7)
  {
    assert forall k :: 1 < k < 3 ==> 3 % k != 0;
    assert forall k :: 1 < k < 7 ==> 7 % k != 0;
  }

  lemma TwoIsNoSquare()
    ensures !IsSquare(2, 21)
  {
    forall y: nat ensures !SquareRoot(y, 2, 21) {
      if SquareRoot(y, 2, 21) { SquareModThree(y); }
    }
  }

  lemma SquareModThree(y: nat)
    ensures (y * y) % 21 != 2
  {
    var k, r := y / 3, y % 3;
    assert y == 3 * k + r;
    assert y * y == 3 * (3 * k * k + 2 * k * r) + r * r;
    assert (y * y) % 3 == (r * r) % 3;
    var q := (y * y) / 21;
    assert y * y == 3 * (7 * q) + (y * y) % 21;
  }

  /** For every k some hash makes k the least padding for the message [9] and the key (3, 7). */
  lemma AnyPaddingHappens(k: nat)
    ensures GoodKey(3, 7) && LeastPadding(StubbornHash(Some(k + 1)), [MARK], 21, k)
  {
    var sha := StubbornHash(Some(k + 1));
    SmallKey();
    TwoIsNoSquare();
    hide Padded, StubbornHash, GoodKey;
    forall j: nat | j <= k ensures Padded(sha, [MARK], j, 21) == if j < k then 2 else 0 {
      StubbornPadded(Some(k + 1), j);
    }
    ZeroIsSquare();
    hide IsSquare;
  }

  lemma ZeroIsSquare()
    ensures IsSquare(0, 21)
  {
    assert SquareRoot(0, 0, 21);
  }

  /** So the signer can be made to return a signature that the verifier refuses, as it does every other. */
  lemma SignedButRefused(sig: Signature)
    ensures var sha := StubbornHash(Some(MAX_PADDING_BYTES + 2));
            && LeastPadding(sha, [MARK], 21, MAX_PADDING_BYTES + 1)
            && !Accepts(sha, [MARK], sig, 21)
  {
    AnyPaddingHappens(MAX_PADDING_BYTES + 1);
    var sha := StubbornHash(Some(MAX_PADDING_BYTES + 2));
    hide StubbornHash, Padded;
    if Accepts(sha, [MARK], sig, 21) { AcceptedSquares(sha, [MARK], sig, 21); }
  }

  /** And with some hash no padding works at all: the signing loop has nothing to stop at. */
  lemma NeverSigned(k: nat)
    ensures !IsSquare(Padded(StubbornHash(None), [MARK], k, 21), 21)
  {
    hide Padded, StubbornHash, IsSquare;
    StubbornPadded(None, k);
    TwoIsNoSquare();
  }
}
