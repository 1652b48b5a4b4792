/** Congruences, Euclid's lemma and Fermat's little theorem. */
module NumberTheory {
  import opened Arith

  ghost predicate Cong(m: int, a: int, b: int)
    requires m > 0
  {
    (a - b) % m == 0
  }

  lemma Quotient(m: int, x: int) returns (k: int)
    requires m > 0 && x % m == 0
    ensures x == m * k
  {
    k := x / m;
    DivModSum(x, m);
    assert (x / m) * m == m * k;
  }

  lemma MultipleIsZero(m: int, k: int)
    requires m > 0
    ensures (m * k) % m == 0
  {
    DivModUnique(m, k, 0);
    assert k * m + 0 == m * k;
  }

  lemma CongBy(m: int, a: int, b: int, k: int)
    requires m > 0 && a - b == m * k
    ensures Cong(m, a, b)
  {
    MultipleIsZero(m, k);
  }

  lemma CongRefl(m: int, a: int)
    requires m > 0
    ensures Cong(m, a, a)
  {
  }

  lemma CongSym(m: int, a: int, b: int)
    requires m > 0 && Cong(m, a, b)
    ensures Cong(m, b, a)
  {
    var k := Quotient(m, a - b);
    assert b - a == m * (-k);
    CongBy(m, b, a, -k);
  }

  lemma CongTrans(m: int, a: int, b: int, c: int)
    requires m > 0 && Cong(m, a, b) && Cong(m, b, c)
    ensures Cong(m, a, c)
  {
    var k := Quotient(m, a - b);
    var l := Quotient(m, b - c);
    assert m * k + m * l == m * (k + l);
    CongBy(m, a, c, k + l);
  }

  lemma CongAdd(m: int, a: int, b: int, c: int, d: int)
    requires m > 0 && Cong(m, a, b) && Cong(m, c, d)
    ensures Cong(m, a + c, b + d)
  {
    var k := Quotient(m, a - b);
    var l := Quotient(m, c - d);
    assert m * k + m * l == m * (k + l);
    CongBy(m, a + c, b + d, k + l);
  }

  lemma CongMul(m: int, a: int, b: int, c: int, d: int)
    requires m > 0 && Cong(m, a, b) && Cong(m, c, d)
    ensures Cong(m, a * c, b * d)
  {
    var k := Quotient(m, a - b);
    var l := Quotient(m, c - d);
    assert a * c - b * d == (a - b) * c + b * (c - d);
    assert (m * k) * c == m * (k * c);
    assert b * (m * l) == m * (b * l);
    assert m * (k * c) + m * (b * l) == m * (k * c + b * l);
    CongBy(m, a * c, b * d, k * c + b * l);
  }

  lemma {:induction false} CongPow(m: int, a: nat, b: nat, e: nat)
    requires m > 0 && Cong(m, a, b)
    ensures Cong(m, Pow(a, e), Pow(b, e))
  {
    if e == 0 {
      CongRefl(m, 1);
    } else {
      CongPow(m, a, b, e - 1);
      CongMul(m, a, b, Pow(a, e - 1), Pow(b, e - 1));
    }
  }

  lemma CongMod(m: int, a: int)
    requires m > 0
    ensures Cong(m, a % m, a)
  {
    DivModSum(a, m);
    assert a % m - a == m * (-(a / m));
    CongBy(m, a % m, a, -(a / m));
  }

  /** Congruent numbers have the same remainder, and only they do. */
  lemma CongIffSameMod(m: int, a: int, b: int)
    requires m > 0
    ensures Cong(m, a, b) <==> a % m == b % m
  {
    if Cong(m, a, b) {
      var k := Quotient(m, a - b);
      DivModSum(b, m);
      assert a == (b / m + k) * m + b % m;
      DivModUnique(m, b / m + k, b % m);
    }
    if a % m == b % m {
      DivModSum(a, m);
      DivModSum(b, m);
      assert a - b == m * (a / m - b / m);
      CongBy(m, a, b, a / m - b / m);
    }
  }

  // ---- primes -------------------------------------------------------------

  ghost predicate Prime(p: int) {
    p >= 2 && forall d :: 1 < d < p ==> p % d != 0
  }

  /** Euclid's lemma for a reduced factor, by Euclid's own descent on it. */
  lemma {:induction false} EuclidReduced(p: int, a: int, b: int)
    requires Prime(p) && 0 < a < p && (a * b) % p == 0
    ensures b % p == 0
    decreases a
  {
    if a > 1 {
      var q, r := p / a, p % a;
      DivModSum(p, a);
      var k := Quotient(p, a * b);
      EuclidStep(p, a, b, q, r, k);
      EuclidReduced(p, r, b);
    }
  }

  lemma EuclidStep(p: int, a: int, b: int, q: int, r: int, k: int)
    requires p > 0 && p == q * a + r && a * b == p * k
    ensures (r * b) % p == 0
  {
    assert r * b == p * b - (q * a) * b;
    assert (q * a) * b == q * (a * b);
    assert q * (p * k) == p * (q * k);
    assert p * b - p * (q * k) == p * (b - q * k);
    MultipleIsZero(p, b - q * k);
  }

  lemma Euclid(p: int, a: int, b: int)
    requires Prime(p) && (a * b) % p == 0
    ensures a % p == 0 || b % p == 0
  {
    if a % p != 0 {
      CongMod(p, a);
      CongRefl(p, b);
      CongMul(p, a % p, a, b, b);
      CongIffSameMod(p, (a % p) * b, a * b);
      EuclidReduced(p, a % p, b);
    }
  }

  /** Two different primes dividing x: their product divides x. */
  lemma CoprimeProduct(p: int, q: int, x: int)
    requires Prime(p) && Prime(q) && p != q
    requires x % p == 0 && x % q == 0
    ensures p * q > 0 && x % (p * q) == 0
  {
    var k := Quotient(q, x);
    DistinctPrimes(p, q);
    Euclid(p, q, k);
    var j := Quotient(p, k);
    assert p * q > 0;
    assert q * (p * j) == (p * q) * j;
    MultipleIsZero(p * q, j);
  }

  lemma DistinctPrimes(p: int, q: int)
    requires Prime(p) && Prime(q) && p != q
    ensures q % p != 0
  {
    if q < p {
      DivModUnique(p, 0, q);
    }
  }

  // ---- Fermat's little theorem -------------------------------------------

  ghost function Pick(s: set<int>): (x: int)
    requires s != {}
    ensures x in s
  {
    assert (forall x :: x !in s) ==> s == {};
    var x :| x in s;
    x
  }

  ghost function Prod(s: set<int>): int {
    if s == {} then 1 else Pick(s) * Prod(s - {Pick(s)})
  }

  lemma {:induction false} ProdRemove(s: set<int>, y: int)
    requires y in s
    ensures Prod(s) == y * Prod(s - {y})
    decreases |s|
  {
    var x := Pick(s);
    if x != y {
      ProdRemove(s - {x}, y);
      ProdRemove(s - {y}, x);
      assert s - {x} - {y} == s - {y} - {x};
      hide Prod;
      SwapFactors(x, y, Prod(s - {x} - {y}));
    }
  }

  lemma SwapFactors(x: int, y: int, r: int)
    ensures x * (y * r) == y * (x * r)
  {
  }

  /** The nonzero residues. */
  ghost function Units(p: int): (u: set<int>)
    ensures forall i :: i in u <==> 1 <= i < p
    ensures p >= 1 ==> |u| == p - 1
  {
    if p <= 1 then {} else Units(p - 1) + {p - 1}
  }

  ghost function Scale(p: int, a: int, i: int): int
    requires p > 0
  {
    (a * i) % p
  }

  ghost function Scaled(p: int, a: int, t: set<int>): set<int>
    requires p > 0
  {
    set i | i in t :: Scale(p, a, i)
  }

  lemma ScaleInjective(p: int, a: int, i: int, j: int)
    requires Prime(p) && a % p != 0
    requires 1 <= i < p && 1 <= j < p && Scale(p, a, i) == Scale(p, a, j)
    ensures i == j
  {
    CongIffSameMod(p, a * i, a * j);
    assert a * i - a * j == a * (i - j);
    Euclid(p, a, i - j);
    var k := Quotient(p, i - j);
    SmallMultiple(p, k);
  }

  lemma ScaleUnit(p: int, a: int, i: int)
    requires Prime(p) && a % p != 0 && i in Units(p)
    ensures Scale(p, a, i) in Units(p)
  {
    if (a * i) % p == 0 {
      Euclid(p, a, i);
      DivModUnique(p, 0, i);
    }
  }

  lemma {:induction false} ScaledProduct(p: int, a: nat, t: set<int>)
    requires Prime(p) && a % p != 0 && t <= Units(p)
    ensures |Scaled(p, a, t)| == |t|
    ensures Cong(p, Prod(Scaled(p, a, t)), Pow(a, |t|) * Prod(t))
    decreases |t|
  {
    hide Cong, Prime, Scale;
    PrimeAtLeastTwo(p);
    if t == {} {
      assert Scaled(p, a, t) == {};
      assert Pow(a, |t|) == 1 && Prod(t) == 1;
      CongRefl(p, 1);
    } else {
      hide Scaled;
      var x := Pick(t);
      ScaledProduct(p, a, t - {x});
      ScaledRemove(p, a, t, x);
      ProdRemove(Scaled(p, a, t), Scale(p, a, x));
      ScaledStep(p, a, x, Pow(a, |t| - 1), Prod(t - {x}), Prod(Scaled(p, a, t - {x})),
                 Pow(a, |t|), Prod(t), Prod(Scaled(p, a, t)));
    }
  }

  lemma ScaledRemove(p: int, a: nat, t: set<int>, x: int)
    requires Prime(p) && a % p != 0 && t <= Units(p) && x in t
    ensures Scale(p, a, x) in Scaled(p, a, t)
    ensures Scaled(p, a, t) - {Scale(p, a, x)} == Scaled(p, a, t - {x})
  {
    hide Scale, Prime;
    forall z | z in t && z != x ensures Scale(p, a, z) != Scale(p, a, x) {
      if Scale(p, a, z) == Scale(p, a, x) { ScaleInjective(p, a, x, z); }
    }
  }

  lemma ScaledStep(p: int, a: int, x: int, power: int, prod: int, scaled: int,
                   power': int, prod': int, scaled': int)
    requires p > 0 && Cong(p, scaled, power * prod)
    requires power' == a * power && prod' == x * prod && scaled' == Scale(p, a, x) * scaled
    ensures Cong(p, scaled', power' * prod')
  {
    CongMod(p, a * x);
    CongMul(p, (a * x) % p, a * x, scaled, power * prod);
    Rearrange(a, x, power, prod);
  }

  lemma ScaledUnits(p: int, a: nat)
    requires Prime(p) && a % p != 0
    ensures Scaled(p, a, Units(p)) == Units(p)
  {
    ScaledProduct(p, a, Units(p));
    hide Scale, Prime, Prod, Pow, Cong;
    forall i | i in Units(p) ensures Scale(p, a, i) in Units(p) { ScaleUnit(p, a, i); }
    SubsetOfSameSize(Scaled(p, a, Units(p)), Units(p));
  }

  lemma SubsetOfSameSize(a: set<int>, b: set<int>)
    requires a <= b && |a| == |b|
    ensures a == b
  {
    assert |b - a| == 0;
  }

  lemma {:induction false} ProdNotDivisible(p: int, t: set<int>)
    requires Prime(p) && t <= Units(p)
    ensures Prod(t) % p != 0
    decreases |t|
  {
    if t == {} {
      DivModUnique(p, 0, 1);
    } else {
      var x :| x in t;
      ProdRemove(t, x);
      ProdNotDivisible(p, t - {x});
      DivModUnique(p, 0, x);
      if Prod(t) % p == 0 { Euclid(p, x, Prod(t - {x})); }
    }
  }

  /** Fermat: a^(p-1) leaves remainder 1 for every a the prime p does not divide. */
  lemma Fermat(p: int, a: nat)
    requires Prime(p) && a % p != 0
    ensures Cong(p, Pow(a, p - 1), 1)
  {
    hide *;
    ScaledUnits(p, a);
    ScaledProduct(p, a, Units(p));
    ProdNotDivisible(p, Units(p));
    PrimeAtLeastTwo(p);
    CancelUnit(p, Pow(a, p - 1), Prod(Units(p)));
  }

  lemma PrimeAtLeastTwo(p: int)
    requires Prime(p)
    ensures p >= 2
  {
  }

  lemma CancelUnit(p: int, x: int, y: int)
    requires Prime(p) && y % p != 0 && Cong(p, y, x * y)
    ensures Cong(p, x, 1)
  {
    CongSym(p, y, x * y);
    assert x * y - y == (x - 1) * y;
    Euclid(p, x - 1, y);
  }
}
