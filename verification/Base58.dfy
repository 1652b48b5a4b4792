/** Base58 and Base58Check (src/bsv/base58.c): base conversion in a fixed digit buffer. */
module Base58 {
  import opened Common
  import opened Arith
  import opened Numerals

  /** The Bitcoin alphabet, split where the ASCII codes jump (0, I, O and l are missing). */
  const ALPHABET: string :=
    "123456789" + "ABCDEFGH" + "JKLMN" + "PQRSTUVWXYZ" + "abcdefghijk" + "mnopqrstuvwxyz"

  function Run(c: char, n: nat): string
    requires c as int + n < 0xD800
  {
    seq(n, i requires 0 <= i < n => (c as int + i) as char)
  }

  lemma AlphabetRuns()
    ensures "123456789" == Run('1', 9) && "ABCDEFGH" == Run('A', 8) && "JKLMN" == Run('J', 5)
    ensures "PQRSTUVWXYZ" == Run('P', 11) && "abcdefghijk" == Run('a', 11) && "mnopqrstuvwxyz" == Run('m', 14)
  {
  }

  lemma AlphabetAscends()
    ensures |ALPHABET| == 58 && ALPHABET[0] == '1'
    ensures forall i, j :: 0 <= i < j < 58 ==> ALPHABET[i] < ALPHABET[j]
  {
    AlphabetRuns();
    assert ALPHABET == Run('1', 9) + Run('A', 8) + Run('J', 5) + Run('P', 11) + Run('a', 11) + Run('m', 14);
  }

  // ---- what the two conversions mean --------------------------------------

  /** The digit a character stands for, or -1 (the table of b58_value). */
  function Value(c: char): (v: int)
    ensures -1 <= v < 58
  {
    AlphabetAscends();
    ValueFrom(c, 0)
  }

  function ValueFrom(c: char, i: nat): (v: int)
    requires i <= 58 == |ALPHABET|
    ensures -1 <= v < 58
    ensures 0 <= v ==> i <= v && ALPHABET[v] == c
    ensures v < 0 ==> c !in ALPHABET[i..]
    decreases 58 - i
  {
    if i == 58 then -1
    else if ALPHABET[i] == c then i
    else ValueFrom(c, i + 1)
  }

  function DigitChar(d: int): (c: char)
    requires 0 <= d < 58
    ensures Value(c) == d
  {
    AlphabetAscends();
    var v := ValueFrom(ALPHABET[d], 0);
    assert ALPHABET[d] in ALPHABET[0..];
    ALPHABET[d]
  }

  lemma ValueMeaning(c: char)
    ensures Value(c) >= 0 <==> c in ALPHABET
    ensures Value(c) >= 0 ==> DigitChar(Value(c)) == c
    ensures Value(c) == 0 <==> c == '1'
  {
    AlphabetAscends();
    assert ALPHABET[0..] == ALPHABET;
    assert DigitChar(0) == '1';
  }

  ghost predicate InAlphabet(str: string) {
    forall i :: 0 <= i < |str| ==> Value(str[i]) >= 0
  }

  lemma AlphabetMembership(str: string)
    ensures InAlphabet(str) <==> forall i :: 0 <= i < |str| ==> str[i] in ALPHABET
  {
    forall i | 0 <= i < |str| ensures Value(str[i]) >= 0 <==> str[i] in ALPHABET { ValueMeaning(str[i]); }
  }

  /** A digit or an ASCII letter, but not one that is easily taken for another. */
  predicate IsBase58Char(c: char) {
    ('0' <= c <= '9' || 'A' <= c <= 'Z' || 'a' <= c <= 'z') && c !in {'0', 'I', 'O', 'l'}
  }

  lemma InRun(c: char, first: char, n: nat)
    requires first as int + n < 0xD800
    ensures c in Run(first, n) <==> first as int <= c as int < first as int + n
  {
    if first as int <= c as int < first as int + n {
      assert Run(first, n)[c as int - first as int] == c;
    }
  }

  lemma AlphabetIsRuns()
    ensures ALPHABET == Run('1', 9) + Run('A', 8) + Run('J', 5) + Run('P', 11) + Run('a', 11) + Run('m', 14)
  {
    AlphabetRuns();
  }

  lemma InAlphabetRuns(c: char)
    ensures c in ALPHABET <==> IsBase58Char(c)
  {
    hide Run, ALPHABET;
    AlphabetIsRuns();
    InRun(c, '1', 9);
    InRun(c, 'A', 8);
    InRun(c, 'J', 5);
    InRun(c, 'P', 11);
    InRun(c, 'a', 11);
    InRun(c, 'm', 14);
  }

  /** The alphabet is the digits and letters without 0, I, O and l, in ASCII order, so the digits are fixed too. */
  lemma AlphabetExactly(c: char)
    ensures Value(c) >= 0 <==> IsBase58Char(c)
    ensures |ALPHABET| == 58 && forall i, j :: 0 <= i < j < 58 ==> ALPHABET[i] < ALPHABET[j]
  {
    hide Value, ALPHABET, IsBase58Char;
    AlphabetAscends();
    ValueMeaning(c);
    InAlphabetRuns(c);
  }

  function Leading<T(==)>(s: seq<T>, x: T): (k: nat)
    ensures k <= |s|
    ensures forall i :: 0 <= i < k ==> s[i] == x
    ensures k < |s| ==> s[k] != x
  {
    if s != [] && s[0] == x then 1 + Leading(s[1..], x) else 0
  }

  lemma {:induction false} LeadingOf<T>(s: seq<T>, x: T, k: nat)
    requires k <= |s|
    requires forall i :: 0 <= i < k ==> s[i] == x
    requires k < |s| ==> s[k] != x
    ensures Leading(s, x) == k
  {
    if k > 0 { LeadingOf(s[1..], x, k - 1); }
  }

  function Fill<T>(x: T, k: nat): (r: seq<T>)
    ensures |r| == k
    ensures forall i :: 0 <= i < k ==> r[i] == x
  {
    seq(k, i => x)
  }

  function ToChars(ds: seq<int>): (r: string)
    requires InBase(58, ds)
    ensures |r| == |ds|
    ensures forall i :: 0 <= i < |ds| ==> r[i] == DigitChar(ds[i])
  {
    seq(|ds|, i requires 0 <= i < |ds| => DigitChar(ds[i]))
  }

  function ToValues(str: string): (r: seq<int>)
    ensures |r| == |str|
    ensures forall i :: 0 <= i < |str| ==> r[i] == Value(str[i])
  {
    seq(|str|, i requires 0 <= i < |str| => Value(str[i]))
  }

  /** One '1' per leading zero byte, then the number in base 58. */
  function Encoded(data: Bytes): string {
    ValBound(256, data);
    Fill<char>('1', Leading<int>(data, 0)) + ToChars(Digits(58, Val(256, data)))
  }

  /** One zero byte per leading '1', then the number in base 256. */
  ghost function Decoded(str: string): Result<Bytes> {
    if !InAlphabet(str) then Err(EPARSE)
    else
      ValuesInBase(str);
      ValBound(58, ToValues(str));
      Ok(Fill<int>(0, Leading<char>(str, '1')) + Digits(256, Val(58, ToValues(str))))
  }

  lemma ValuesInBase(str: string)
    requires InAlphabet(str)
    ensures InBase(58, ToValues(str))
  {
    hide Value;
  }

  // ---- the two are mutually inverse ---------------------------------------

  lemma CharsOfValues(str: string)
    requires InAlphabet(str)
    ensures InBase(58, ToValues(str)) && ToChars(ToValues(str)) == str
  {
    ValuesInBase(str);
    forall i | 0 <= i < |str| ensures ToChars(ToValues(str))[i] == str[i] { ValueMeaning(str[i]); }
  }

  lemma LeadingValues(str: string)
    requires InAlphabet(str)
    ensures Leading<int>(ToValues(str), 0) == Leading<char>(str, '1')
  {
    var k := Leading<char>(str, '1');
    forall i | 0 <= i <= k && i < |str| ensures ToValues(str)[i] == 0 <==> str[i] == '1' { ValueMeaning(str[i]); }
    LeadingOf(ToValues(str), 0, k);
  }

  /** A digit string is its leading zeros followed by the digits of its number. */
  lemma ZerosThenDigits(b: int, s: seq<int>)
    requires b >= 2 && InBase(b, s)
    ensures Val(b, s) >= 0
    ensures s == Fill<int>(0, Leading<int>(s, 0)) + Digits(b, Val(b, s))
  {
    DigitsAfterZeros(b, s, Leading<int>(s, 0));
    FillPrefix<int>(s, Leading<int>(s, 0), 0);
  }

  lemma DigitsAfterZeros(b: int, s: seq<int>, k: nat)
    requires b >= 2 && InBase(b, s) && k <= |s|
    requires forall i :: 0 <= i < k ==> s[i] == 0
    requires k < |s| ==> s[k] != 0
    ensures Val(b, s) >= 0 && Digits(b, Val(b, s)) == s[k..]
  {
    ValSkipZeros(b, s, k);
    DigitsVal(b, s[k..]);
  }

  lemma FillPrefix<T>(s: seq<T>, k: nat, x: T)
    requires k <= |s|
    requires forall i :: 0 <= i < k ==> s[i] == x
    ensures Fill(x, k) + s[k..] == s
  {
  }

  /** Zeros in front of digits: the count of zeros and the number are both kept. */
  lemma FillThenDigits(b: int, k: nat, n: nat)
    requires b >= 2
    ensures var s := Fill<int>(0, k) + Digits(b, n);
            InBase(b, s) && Leading<int>(s, 0) == k && Val(b, s) == n
  {
    var s := Fill<int>(0, k) + Digits(b, n);
    LeadingOf(s, 0, k);
    ValSkipZeros(b, s, k);
    assert s[k..] == Digits(b, n);
    ValDigits(b, n);
  }

  lemma CharsOfFill(k: nat, ds: seq<int>)
    requires InBase(58, ds)
    ensures InBase(58, Fill<int>(0, k) + ds)
    ensures ToChars(Fill<int>(0, k) + ds) == Fill<char>('1', k) + ToChars(ds)
  {
    ValueMeaning('1');
  }

  lemma ValuesOfChars(ds: seq<int>)
    requires InBase(58, ds)
    ensures InAlphabet(ToChars(ds)) && ToValues(ToChars(ds)) == ds
  {
  }

  lemma DecodedOfDigits(ds: seq<int>)
    requires InBase(58, ds)
    ensures Val(58, ds) >= 0
    ensures Decoded(ToChars(ds)) == Ok(Fill<int>(0, Leading<int>(ds, 0)) + Digits(256, Val(58, ds)))
  {
    ValBound(58, ds);
    ValuesOfChars(ds);
    LeadingValues(ToChars(ds));
  }

  /** Decoding what encoding produced gives the data back, leading zeros included. */
  lemma DecodeOfEncode(data: Bytes)
    ensures Decoded(Encoded(data)) == Ok(data)
  {
    hide Val, Digits, Decoded, ToChars, Leading;
    ZerosThenDigits(256, data);
    DecodedOfParts(Leading<int>(data, 0), Val(256, data));
  }

  lemma DecodedOfParts(k: nat, n: nat)
    ensures Decoded(Fill<char>('1', k) + ToChars(Digits(58, n))) == Ok(Fill<int>(0, k) + Digits(256, n))
  {
    CharsOfFill(k, Digits(58, n));
    FillThenDigits(58, k, n);
    DecodedOfDigits(Fill<int>(0, k) + Digits(58, n));
  }

  /** Every string over the alphabet is the encoding of what it decodes to. */
  lemma EncodeOfDecode(str: string)
    requires InAlphabet(str)
    ensures Decoded(str).Ok? && Encoded(Decoded(str).value) == str
  {
    CharsOfValues(str);
    LeadingValues(str);
    var vs := ToValues(str);
    var k, n := Leading<int>(vs, 0), Val(58, vs);
    ZerosThenDigits(58, vs);
    FillThenDigits(256, k, n);
    CharsOfFill(k, Digits(58, n));
  }

  lemma DecodedInAlphabet(str: string)
    ensures Decoded(str).Ok? <==> InAlphabet(str)
  {
  }

  // ---- the buffers are large enough ---------------------------------------

  lemma PowOrderFromRoot(a: nat, b: nat, e: nat)
    requires e > 0 && Pow(a, e) < Pow(b, e)
    ensures a < b
  {
    if b <= a { PowMonotoneBase(b, a, e); }
  }

  lemma PowPowSwap(b: nat, m: nat, n: nat)
    ensures Pow(Pow(b, m), n) == Pow(Pow(b, n), m)
  {
    PowOfPow(b, m, n);
    PowOfPow(b, n, m);
    assert m * n == n * m;
  }

  lemma PowStrict(d: nat, m: nat, n: nat)
    requires d >= 2 && m < n
    ensures Pow(d, m) < Pow(d, n)
  {
    PowPositive(d, m);
    MulMonotone(2, d, Pow(d, m), Pow(d, m));
    PowMonotoneExp(d, m + 1, n);
  }

  /** If c^k <= d^m and m*len < k*size, then len digits in base c fit size digits in base d. */
  lemma CapacityFromRatio(c: nat, k: nat, d: nat, m: nat, len: nat, size: nat)
    requires d >= 2 && k > 0
    requires Pow(c, k) <= Pow(d, m)
    requires m * len < size * k
    ensures Pow(c, len) < Pow(d, size)
  {
    RatioToPower(c, k, d, m, len, m * len);
    RootOfPower(Pow(c, len), d, k, size, m * len, size * k);
  }

  lemma RatioToPower(c: nat, k: nat, d: nat, m: nat, len: nat, e: nat)
    requires Pow(c, k) <= Pow(d, m) && e == m * len
    ensures Pow(Pow(c, len), k) <= Pow(d, e)
  {
    PowPowSwap(c, len, k);
    PowMonotoneBase(Pow(c, k), Pow(d, m), len);
    PowOfPow(d, m, len);
  }

  lemma RootOfPower(x: nat, d: nat, k: nat, size: nat, e: nat, f: nat)
    requires d >= 2 && k > 0 && f == size * k && e < f
    requires Pow(x, k) <= Pow(d, e)
    ensures x < Pow(d, size)
  {
    PowStrict(d, e, f);
    PowOfPow(d, size, k);
    PowOrderFromRoot(x, Pow(d, size), k);
  }

  lemma PowSquare(b: nat, e: nat, v: nat)
    requires Pow(b, e) == v
    ensures Pow(b, 2 * e) == v * v
  {
    PowAdd(b, e, e);
  }

  lemma Pow58Of11()
    ensures Pow(256, 8) <= Pow(58, 11)
  {
    Pow256Values();
    PowSquare(58, 5, 656356768);
  }

  lemma Pow256Of52()
    ensures Pow(58, 71) <= Pow(256, 52)
  {
    PowSquare(58, 4, 11316496);
    PowSquare(58, 8, 128063081718016);
    PowSquare(58, 17, 951208868148684143308060622848);
    PowSquare(58, 35, 52478302028992644968172978478148648556151605660894866578604032);
    PowSquare(256, 6, 281474976710656);
    PowSquare(256, 13, 20282409603651670423947251286016);
    PowSquare(256, 26, 411376139330301510538742295639337626245683966408394965837152256);
  }

  /** len bytes always fit in len*138/100 + 1 base-58 digits. */
  lemma EncodeCapacity(len: nat)
    ensures Pow(256, len) < Pow(58, len * 138 / 100 + 1)
  {
    Pow58Of11();
    CapacityFromRatio(256, 8, 58, 11, len, len * 138 / 100 + 1);
  }

  /** len base-58 digits always fit in len*733/1000 + 1 bytes. */
  lemma DecodeCapacity(len: nat)
    ensures Pow(58, len) < Pow(256, len * 733 / 1000 + 1)
  {
    Pow256Of52();
    CapacityFromRatio(58, 71, 256, 52, len, len * 733 / 1000 + 1);
  }

  // ---- the in-place loops -------------------------------------------------

  /** The buffer holds s in base b, and everything before `high` is zero. */
  ghost predicate Holds(b: int, s: seq<int>, high: nat) {
    && high <= |s|
    && InBase(b, s)
    && (forall i :: 0 <= i < high ==> s[i] == 0)
  }

  lemma HoldsInBase(b: int, s: seq<int>, high: nat)
    requires Holds(b, s, high)
    ensures InBase(b, s)
  {
  }

  /**
   * Part way through the multiply-and-add: positions j and up are done, the ones before are as
   * they were, and `carry` is still to be added at position j - 1.
   */
  ghost predicate Progress(b: nat, mult: int, d: int, was: seq<int>, cur: seq<int>, j: nat, carry: int) {
    && j <= |was| == |cur|
    && 0 <= carry < mult
    && InBase(b, cur)
    && cur[..j] == was[..j]
    && Val(b, was[j..]) * mult + d == carry * Pow(b, |was| - j) + Val(b, cur[j..])
  }

  lemma CarryArithmetic(b: nat, mult: nat, p: nat, carry: int, digit: int, below: int, belowNew: int, d: int)
    requires b > 0
    requires below * mult + d == carry * p + belowNew
    ensures (digit * p + below) * mult + d
         == ((carry + mult * digit) / b) * (b * p) + (((carry + mult * digit) % b) * p + belowNew)
  {
    var t := carry + mult * digit;
    var q, r := t / b, t % b;
    assert t == q * b + r;
    assert (digit * p + below) * mult + d == (mult * digit) * p + (below * mult + d);
    assert (mult * digit) * p + carry * p == t * p;
    assert t * p == (q * b + r) * p == q * (b * p) + r * p;
  }

  lemma CarryBound(b: nat, mult: nat, carry: int, digit: int)
    requires b > 0 && 0 <= carry < mult && 0 <= digit < b
    ensures 0 <= (carry + mult * digit) / b < mult
  {
    MulMonotone(mult, mult, digit, b - 1);
    assert mult * (b - 1) == mult * b - mult;
    var t := carry + mult * digit;
    assert 0 <= mult * digit;
    var q := t / b;
    assert t == q * b + t % b;
    assert q >= mult ==> q * b >= mult * b;
  }

  lemma DigitStep(b: nat, mult: nat, d: int, was: seq<int>, cur: seq<int>, j: nat, carry: int)
    requires b > 0 && 0 < j && Progress(b, mult, d, was, cur, j, carry)
    ensures var t := carry + mult * cur[j - 1];
            Progress(b, mult, d, was, cur[j - 1 := t % b], j - 1, t / b)
  {
    var t := carry + mult * cur[j - 1];
    var next := cur[j - 1 := t % b];
    assert cur[j - 1] == cur[..j][j - 1] == was[j - 1];
    CarryBound(b, mult, carry, cur[j - 1]);
    CarryArithmetic(b, mult, Pow(b, |was| - j), carry, was[j - 1], Val(b, was[j..]), Val(b, cur[j..]), d);
    ValHead(b, was[j - 1..]);
    ValHead(b, next[j - 1..]);
    assert was[j - 1..][1..] == was[j..] && next[j - 1..][1..] == cur[j..];
    assert next[..j - 1] == cur[..j][..j - 1] == was[..j][..j - 1] == was[..j - 1];
  }

  lemma ProgressStart(b: nat, mult: int, d: int, was: seq<int>)
    requires 0 <= d < mult && InBase(b, was)
    ensures Progress(b, mult, d, was, was, |was|, d)
  {
    assert was[|was|..] == [];
  }

  /** Nothing carries out of index 0 when the product fits the buffer. */
  lemma NoCarryOut(b: nat, mult: int, d: int, was: seq<int>, cur: seq<int>, carry: int)
    requires Progress(b, mult, d, was, cur, 0, carry)
    requires Val(b, was) * mult + d < Pow(b, |was|)
    ensures carry == 0
  {
    assert was[0..] == was && cur[0..] == cur;
    hide Val, Pow;
    ValBound(b, cur);
    if carry >= 1 { MulMonotone(1, carry, Pow(b, |was|), Pow(b, |was|)); }
  }

  /** Once the carry is spent, zeros on the left are already what they should be. */
  lemma ProgressDone(b: nat, mult: int, d: int, was: seq<int>, cur: seq<int>, j: nat)
    requires Progress(b, mult, d, was, cur, j, 0)
    requires forall i :: 0 <= i < j ==> was[i] == 0
    ensures Holds(b, cur, j) && Val(b, cur) == Val(b, was) * mult + d
  {
    assert forall i :: 0 <= i < j ==> cur[i] == cur[..j][i];
    ValSkipZeros(b, was, j);
    ValSkipZeros(b, cur, j);
  }

  /**
   * buf := buf * mult + d, digit by digit from the right, stopping early once the carry is spent
   * and the digits up to `high` have been visited. The product fits, so no carry leaves index 0.
   */
  method MulAdd(buf: array<int>, b: int, mult: int, d: int, high: nat) returns (newHigh: nat)
    requires 2 <= b <= 256 && 0 <= d < mult <= 256
    requires buf.Length > 0 && Holds(b, buf[..], high)
    requires Val(b, buf[..]) * mult + d < Pow(b, buf.Length)
    modifies buf
    ensures Holds(b, buf[..], newHigh) && newHigh < buf.Length
    ensures Val(b, buf[..]) == Val(b, old(buf[..])) * mult + d
  {
    ghost var was := buf[..];
    var carry, j := d, buf.Length - 1;
    ProgressStart(b, mult, d, was);
    hide Val, Pow, Progress;
    while true
      invariant 0 <= j < buf.Length
      invariant Progress(b, mult, d, was, buf[..], j + 1, carry)
      decreases j
    {
      DigitStep(b, mult, d, was, buf[..], j + 1, carry);
      ghost var next := buf[..][j := (carry + mult * buf[j]) % b];
      carry := carry + mult * buf[j];
      buf[j] := carry % b;
      carry := carry / b;
      assert buf[..] == next;
      if j <= high && carry == 0 { break; }
      if j == 0 {
        NoCarryOut(b, mult, d, was, buf[..], carry);
        break;
      }
      j := j - 1;
    }
    newHigh := j;
    ProgressDone(b, mult, d, was, buf[..], j);
  }

  method Encode(data: Bytes) returns (out: string)
    ensures out == Encoded(data)
  {
    var zeros := CountLeading<int>(data, 0);
    var buf := ToBase58(data, zeros);
    var it := SkipZeros(buf);
    DigitsAfterZeros(58, buf[..], it);
    hide Val, Digits, ToChars, Leading;
    assert buf[..][it..] == buf[it..];
    var digits := PrintDigits(buf, it);
    out := Fill<char>('1', zeros) + digits;
  }

  method ZeroBuffer(b: int, size: nat) returns (buf: array<int>)
    requires b > 0
    ensures fresh(buf) && buf.Length == size
    ensures Holds(b, buf[..], size) && Val(b, buf[..]) == 0
  {
    buf := new int[size](i => 0);
    ValZeros(b, buf[..]);
  }

  method CountLeading<T(==)>(s: seq<T>, x: T) returns (k: nat)
    ensures k == Leading(s, x)
  {
    k := 0;
    while k < |s| && s[k] == x
      invariant k <= |s|
      invariant forall i :: 0 <= i < k ==> s[i] == x
    {
      k := k + 1;
    }
    LeadingOf(s, x, k);
  }

  /** The number the bytes denote, in base 58, in a buffer of len*138/100 + 1 digits. */
  method ToBase58(data: Bytes, zeros: nat) returns (buf: array<int>)
    requires zeros <= |data| && forall i :: 0 <= i < zeros ==> data[i] == 0
    ensures InBase(58, buf[..]) && Val(58, buf[..]) == Val(256, data)
  {
    var size := |data| * 138 / 100 + 1;
    EncodeCapacity(|data|);
    buf := ZeroBuffer(58, size);
    var high: nat := size;
    ValZeros(256, data[..zeros]);
    hide *;
    for i := zeros to |data|
      invariant Holds(58, buf[..], high)
      invariant Val(58, buf[..]) == Val(256, data[..i])
    {
      ExtendPrefix(256, data, i);
      high := MulAdd(buf, 58, 256, data[i], high);
    }
    assert data[..|data|] == data;
    HoldsInBase(58, buf[..], high);
  }

  method PrintDigits(buf: array<int>, it: nat) returns (out: string)
    requires it <= buf.Length && InBase(58, buf[..])
    ensures out == ToChars(buf[it..])
  {
    out := "";
    for k := it to buf.Length
      invariant out == ToChars(buf[it..k])
    {
      assert buf[it..k + 1] == buf[it..k] + [buf[k]];
      out := out + [DigitChar(buf[k])];
    }
    assert buf[it..buf.Length] == buf[it..];
  }

  method Decode(str: string) returns (out: Result<Bytes>)
    ensures out == Decoded(str)
  {
    var zeros := CountLeading<char>(str, '1');
    var ok, buf := ToBase256(str, zeros);
    if !ok { return Err(EPARSE); }
    var it := SkipZeros(buf);
    DigitsAfterZeros(256, buf[..], it);
    hide Val, Digits, ToValues, Leading, InAlphabet;
    assert buf[..][it..] == buf[it..];
    out := Ok(Fill<int>(0, zeros) + buf[it..]);
  }

  ghost function Number(str: string): int {
    Val(58, ToValues(str))
  }

  /** The number the string denotes, in base 256, in a buffer of len*733/1000 + 1 bytes. */
  method ToBase256(str: string, zeros: nat) returns (ok: bool, buf: array<int>)
    requires zeros <= |str| && forall i :: 0 <= i < zeros ==> str[i] == '1'
    ensures ok <==> InAlphabet(str)
    ensures ok ==> InBase(256, buf[..]) && Val(256, buf[..]) == Number(str)
  {
    hide *;
    OnesAreZero(str, zeros);
    var size := |str| * 733 / 1000 + 1;
    DecodeCapacity(|str|);
    buf := ZeroBuffer(256, size);
    var high: nat := size;
    for i := zeros to |str|
      invariant Holds(256, buf[..], high)
      invariant InAlphabet(str[..i])
      invariant Val(256, buf[..]) == Number(str[..i])
    {
      var v := Value(str[i]);
      if v < 0 {
        NotADigit(str, i);
        return false, buf;
      }
      ExtendNumber(str, i);
      high := MulAdd(buf, 256, 58, v, high);
    }
    assert str[..|str|] == str;
    HoldsInBase(256, buf[..], high);
    ok := true;
  }

  lemma NotADigit(str: string, i: nat)
    requires i < |str| && Value(str[i]) < 0
    ensures !InAlphabet(str)
  {
    hide Value;
  }

  lemma OnesAreZero(str: string, k: nat)
    requires k <= |str|
    requires forall i :: 0 <= i < k ==> str[i] == '1'
    ensures InAlphabet(str[..k]) && Number(str[..k]) == 0
  {
    ValueMeaning('1');
    ValZeros(58, ToValues(str[..k]));
  }

  lemma ValuesFit(b: int, s: seq<int>, n: nat)
    requires b >= 2 && |s| <= n && InBase(b, s)
    ensures Val(b, s) < Pow(b, n)
  {
    ValBound(b, s);
    PowMonotoneExp(b, |s|, n);
  }

  lemma AppendNumber(s: string, c: char)
    requires InAlphabet(s) && Value(c) >= 0
    ensures InAlphabet(s + [c]) && Number(s + [c]) == Number(s) * 58 + Value(c)
  {
    hide Value;
    assert ToValues(s + [c]) == ToValues(s) + [Value(c)];
    ValAppend(58, ToValues(s), Value(c));
  }

  lemma ExtendNumber(str: string, i: nat)
    requires i < |str| && InAlphabet(str[..i]) && Value(str[i]) >= 0
    ensures InAlphabet(str[..i + 1])
    ensures Number(str[..i + 1]) == Number(str[..i]) * 58 + Value(str[i]) < Pow(58, |str|)
  {
    hide Value, Number, InAlphabet, Pow;
    assert str[..i + 1] == str[..i] + [str[i]];
    AppendNumber(str[..i], str[i]);
    NumberFits(str[..i + 1], |str|);
  }

  lemma NumberFits(s: string, n: nat)
    requires InAlphabet(s) && |s| <= n
    ensures Number(s) < Pow(58, n)
  {
    ValuesInBase(s);
    ValuesFit(58, ToValues(s), n);
  }

  lemma ExtendPrefix(b: int, s: seq<int>, i: nat)
    requires b >= 2 && i < |s| && InBase(b, s)
    ensures Val(b, s[..i + 1]) == Val(b, s[..i]) * b + s[i] < Pow(b, |s|)
  {
    ValuesFit(b, s[..i + 1], |s|);
    assert s[..i + 1] == s[..i] + [s[i]];
    ValAppend(b, s[..i], s[i]);
  }

  method SkipZeros(buf: array<int>) returns (it: nat)
    ensures it <= buf.Length
    ensures forall i :: 0 <= i < it ==> buf[i] == 0
    ensures it < buf.Length ==> buf[it] != 0
  {
    it := 0;
    while it < buf.Length && buf[it] == 0
      invariant it <= buf.Length
      invariant forall i :: 0 <= i < it ==> buf[i] == 0
    {
      it := it + 1;
    }
  }

  // ---- Base58Check --------------------------------------------------------

  ghost function CheckDecoded(sha256d: Hash, str: string): Result<Bytes> {
    var raw := Decoded(str);
    if raw.Err? then raw
    else if |raw.value| < 4 then Err(EPARSE)
    else
      var data := raw.value[..|raw.value| - 4];
      if sha256d(data)[..4] != raw.value[|raw.value| - 4..] then Err(EINTEGRITY) else Ok(data)
  }

  method CheckEncode(sha256d: Hash, data: Bytes) returns (out: string)
    ensures out == Encoded(data + sha256d(data)[..4])
  {
    out := Encode(data + sha256d(data)[..4]);
  }

  method CheckDecode(sha256d: Hash, str: string) returns (out: Result<Bytes>)
    ensures out == CheckDecoded(sha256d, str)
  {
    var raw := Decode(str);
    if raw.Err? { return raw; }
    if |raw.value| < 4 { return Err(EPARSE); }
    var plen := |raw.value| - 4;
    if sha256d(raw.value[..plen])[..4] != raw.value[plen..] { return Err(EINTEGRITY); }
    return Ok(raw.value[..plen]);
  }

  /** A checked string decodes to a payload exactly when it is that payload's checked encoding. */
  lemma CheckedExactly(sha256d: Hash, str: string, data: Bytes)
    ensures CheckDecoded(sha256d, str) == Ok(data) <==> str == Encoded(data + sha256d(data)[..4])
  {
    hide Decoded, Encoded;
    var raw := data + sha256d(data)[..4];
    DecodeOfEncode(raw);
    assert raw[..|raw| - 4] == data && raw[|raw| - 4..] == sha256d(data)[..4];
    if CheckDecoded(sha256d, str) == Ok(data) {
      DecodedInAlphabet(str);
      EncodeOfDecode(str);
      var got := Decoded(str).value;
      assert got == got[..|got| - 4] + got[|got| - 4..];
    }
  }

  /** A foreign character or fewer than four bytes is EPARSE, a wrong checksum EINTEGRITY. */
  lemma CheckErrors(sha256d: Hash, str: string)
    ensures CheckDecoded(sha256d, str) == Err(EPARSE) <==>
            (exists i :: 0 <= i < |str| && !IsBase58Char(str[i])) || (Decoded(str).Ok? && |Decoded(str).value| < 4)
    ensures CheckDecoded(sha256d, str).Err? && CheckDecoded(sha256d, str) != Err(EPARSE) ==>
      CheckDecoded(sha256d, str) == Err(EINTEGRITY)
  {
    forall i | 0 <= i < |str| ensures Value(str[i]) >= 0 <==> IsBase58Char(str[i]) { AlphabetExactly(str[i]); }
    DecodedInAlphabet(str);
    hide Value, IsBase58Char;
  }
}
