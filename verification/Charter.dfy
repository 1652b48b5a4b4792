/** JSON string escaping and the sorted-key serializer (src/json/json.c). */
module CanonicalJson {
  import opened Common

  /** The bytes of a C string: no terminator inside. */
  type CStr = s: Bytes | 0 !in s witness []

  const QUOTE: byte := 0x22
  const BACKSLASH: byte := 0x5c

  /** What one byte becomes inside a JSON string. */
  function EscapeByte(c: byte): (r: Bytes)
    ensures r != [] && r[0] != QUOTE
  {
    if c == QUOTE then [BACKSLASH, QUOTE]
    else if c == BACKSLASH then [BACKSLASH, BACKSLASH]
    else if c == 0x08 then [BACKSLASH, 0x62]
    else if c == 0x0c then [BACKSLASH, 0x66]
    else if c == 0x0a then [BACKSLASH, 0x6e]
    else if c == 0x0d then [BACKSLASH, 0x72]
    else if c == 0x09 then [BACKSLASH, 0x74]
    else if c < 0x20 then [BACKSLASH, 0x75, 0x30, 0x30, HexDigit(c / 16), HexDigit(c % 16)]
    else [c]
  }

  function EscapeBody(s: Bytes): Bytes {
    if s == [] then [] else EscapeByte(s[0]) + EscapeBody(s[1..])
  }

  function Escaped(s: Bytes): (r: Bytes)
    ensures r != [] && r[0] == QUOTE
  {
    [QUOTE] + EscapeBody(s) + [QUOTE]
  }

  method EscapeString(s: CStr, out: Bytes) returns (r: Bytes)
    ensures r == out + Escaped(s)
  {
    hide EscapeByte;
    r := out + [QUOTE];
    for i := 0 to |s|
      invariant r == out + ([QUOTE] + EscapeBody(s[..i]))
    {
      assert s[..i + 1] == s[..i] + [s[i]];
      BodyAppend(s[..i], s[i]);
      r := r + EscapeByte(s[i]);
    }
    assert s[..|s|] == s;
    r := r + [QUOTE];
  }

  lemma {:induction false} BodyAppend(s: Bytes, c: byte)
    ensures EscapeBody(s + [c]) == EscapeBody(s) + EscapeByte(c)
  {
    hide EscapeByte;
    if s == [] {
      assert s + [c] == [c] && [c][1..] == [];
    } else {
      BodyAppend(s[1..], c);
      assert (s + [c])[1..] == s[1..] + [c];
    }
  }

  // ---- what the escapes mean ----------------------------------------------

  /** The value of a hexadecimal digit, either case, or -1. */
  function HexValue(c: byte): (v: int)
    ensures -1 <= v < 16
  {
    if 0x30 <= c <= 0x39 then c - 0x30
    else if 0x61 <= c <= 0x66 then c - 0x61 + 10
    else if 0x41 <= c <= 0x46 then c - 0x41 + 10
    else -1
  }

  /** One character of a string body and how many bytes it took, as section 7 of RFC 8259 reads it; 0 if none. */
  function ReadChar(s: Bytes): (r: (int, nat))
    requires s != []
    ensures r.1 <= |s| && (r.1 > 0 ==> 0 <= r.0)
  {
    if s[0] != BACKSLASH then (if s[0] < 0x20 || s[0] == QUOTE then (0, 0) else (s[0], 1))
    else if |s| < 2 then (0, 0)
    else if s[1] == '\"' as int then (0x22, 2)
    else if s[1] == '\\' as int then (0x5c, 2)
    else if s[1] == '/' as int then (0x2f, 2)
    else if s[1] == 'b' as int then (0x08, 2)
    else if s[1] == 'f' as int then (0x0c, 2)
    else if s[1] == 'n' as int then (0x0a, 2)
    else if s[1] == 'r' as int then (0x0d, 2)
    else if s[1] == 't' as int then (0x09, 2)
    else if s[1] != 'u' as int || |s| < 6 then (0, 0)
    else
      var a, b, c, d := HexValue(s[2]), HexValue(s[3]), HexValue(s[4]), HexValue(s[5]);
      if a < 0 || b < 0 || c < 0 || d < 0 then (0, 0) else (((a * 16 + b) * 16 + c) * 16 + d, 6)
  }

  /** Each escape is read back by a JSON reader as the byte it stands for, whatever follows. */
  lemma EscapeReads(c: byte, rest: Bytes)
    ensures ReadChar(EscapeByte(c) + rest) == (c, |EscapeByte(c)|)
  {
    var s := EscapeByte(c) + rest;
    assert s[0] == EscapeByte(c)[0];
    if |EscapeByte(c)| > 1 { assert s[1] == EscapeByte(c)[1]; }
    if |EscapeByte(c)| > 2 {
      assert s[2] == 0x30 && s[3] == 0x30 && s[4] == HexDigit(c / 16) && s[5] == HexDigit(c % 16);
    }
  }

  /** The text a whole body denotes. */
  function ReadBody(s: Bytes): Result<seq<int>>
    decreases |s|
  {
    if s == [] then Ok([])
    else
      var (c, n) := ReadChar(s);
      if n == 0 then Err(EPARSE) else
      match ReadBody(s[n..])
      case Err(code) => Err(code)
      case Ok(cs) => Ok([c] + cs)
  }

  /** A JSON reader gets every string back. */
  lemma {:induction false} BodyReads(s: Bytes)
    ensures ReadBody(EscapeBody(s)) == Ok(s)
  {
    if s != [] {
      var e, rest := EscapeByte(s[0]), EscapeBody(s[1..]);
      EscapeReads(s[0], rest);
      BodyReads(s[1..]);
      hide EscapeByte, ReadChar;
      assert (e + rest)[|e|..] == rest;
      assert [s[0]] + s[1..] == s;
    }
  }

  /** The code of escapes is prefix-free: what follows an escape cannot be taken for part of it. */
  lemma EscapePrefixFree(a: byte, b: byte, x: Bytes, y: Bytes)
    requires EscapeByte(a) + x == EscapeByte(b) + y
    ensures a == b && x == y
  {
    var s, t := EscapeByte(a) + x, EscapeByte(b) + y;
    assert s[0] == EscapeByte(a)[0] && t[0] == EscapeByte(b)[0];
    if |EscapeByte(a)| > 1 {
      assert s[1] == EscapeByte(a)[1] && t[1] == EscapeByte(b)[1];
      if |EscapeByte(a)| > 2 {
        assert s[4] == EscapeByte(a)[4] && t[4] == EscapeByte(b)[4];
        assert s[5] == EscapeByte(a)[5] && t[5] == EscapeByte(b)[5];
      }
    }
    assert a == b;
    assert s[|EscapeByte(a)|..] == x && t[|EscapeByte(b)|..] == y;
  }

  lemma BodyHead(s: Bytes, x: Bytes)
    ensures var u := EscapeBody(s) + ([QUOTE] + x);
            && u != []
            && (u[0] == QUOTE <==> s == [])
            && (s == [] ==> u[1..] == x)
            && (s != [] ==> u == EscapeByte(s[0]) + (EscapeBody(s[1..]) + ([QUOTE] + x)))
  {
    hide EscapeByte;
    if s == [] {
      assert [] + ([QUOTE] + x) == [QUOTE] + x;
      assert ([QUOTE] + x)[1..] == x;
    } else {
      var first, more := EscapeByte(s[0]), EscapeBody(s[1..]);
      assert EscapeBody(s) == first + more;
      hide EscapeBody;
      assert (first + more) + ([QUOTE] + x) == first + (more + ([QUOTE] + x));
    }
  }

  /** An escaped string ends at its closing quote, whatever comes after. */
  lemma {:induction false} BodyEnds(s: Bytes, t: Bytes, x: Bytes, y: Bytes)
    requires EscapeBody(s) + ([QUOTE] + x) == EscapeBody(t) + ([QUOTE] + y)
    ensures s == t && x == y
  {
    BodyHead(s, x);
    BodyHead(t, y);
    hide EscapeByte, EscapeBody;
    if s != [] && t != [] {
      EscapePrefixFree(s[0], t[0], EscapeBody(s[1..]) + ([QUOTE] + x), EscapeBody(t[1..]) + ([QUOTE] + y));
      BodyEnds(s[1..], t[1..], x, y);
      assert s == [s[0]] + s[1..] && t == [t[0]] + t[1..];
    }
  }

  lemma EscapedEnds(s: Bytes, t: Bytes, x: Bytes, y: Bytes)
    requires Escaped(s) + x == Escaped(t) + y
    ensures s == t && x == y
  {
    hide EscapeBody;
    var a, b := EscapeBody(s) + ([QUOTE] + x), EscapeBody(t) + ([QUOTE] + y);
    assert Escaped(s) + x == [QUOTE] + a && Escaped(t) + y == [QUOTE] + b;
    DropFirst(QUOTE, a, QUOTE, b);
    BodyEnds(s, t, x, y);
  }

  lemma DropFirst(c: byte, a: Bytes, d: byte, b: Bytes)
    requires [c] + a == [d] + b
    ensures c == d && a == b
  {
    assert ([c] + a)[0] == c && ([d] + b)[0] == d;
    assert ([c] + a)[1..] == a && ([d] + b)[1..] == b;
  }

  // ---- objects ------------------------------------------------------------

  datatype Member = Member(key: CStr, value: CStr)

  function PrintMember(m: Member): (r: Bytes)
    ensures r != [] && r[0] == QUOTE
  {
    Escaped(m.key) + [0x3a] + Escaped(m.value)
  }

  /** Members with commas between them, and the closing brace. */
  function PrintRest(ms: seq<Member>): (r: Bytes)
    ensures r != [] && (ms != [] ==> r[0] == 0x2c) && (ms == [] ==> r == [0x7d])
  {
    if ms == [] then [0x7d] else [0x2c] + PrintMember(ms[0]) + PrintRest(ms[1..])
  }

  function PrintObject(ms: seq<Member>): Bytes {
    if ms == [] then [0x7b, 0x7d] else [0x7b] + PrintMember(ms[0]) + PrintRest(ms[1..])
  }

  lemma MemberEnds(m: Member, n: Member, x: Bytes, y: Bytes)
    requires PrintMember(m) + x == PrintMember(n) + y
    ensures m == n && x == y
  {
    hide Escaped;
    var mx, ny := Escaped(m.value) + x, Escaped(n.value) + y;
    assert PrintMember(m) + x == Escaped(m.key) + ([0x3a] + mx);
    assert PrintMember(n) + y == Escaped(n.key) + ([0x3a] + ny);
    EscapedEnds(m.key, n.key, [0x3a] + mx, [0x3a] + ny);
    DropFirst(0x3a, mx, 0x3a, ny);
    EscapedEnds(m.value, n.value, x, y);
  }

  lemma MembersEnd(c: byte, ms: seq<Member>, ns: seq<Member>)
    requires ms != [] && ns != []
    requires [c] + PrintMember(ms[0]) + PrintRest(ms[1..]) == [c] + PrintMember(ns[0]) + PrintRest(ns[1..])
    ensures ms[0] == ns[0] && PrintRest(ms[1..]) == PrintRest(ns[1..])
  {
    hide PrintMember, PrintRest;
    var a, b := PrintMember(ms[0]) + PrintRest(ms[1..]), PrintMember(ns[0]) + PrintRest(ns[1..]);
    assert [c] + PrintMember(ms[0]) + PrintRest(ms[1..]) == [c] + a;
    assert [c] + PrintMember(ns[0]) + PrintRest(ns[1..]) == [c] + b;
    DropFirst(c, a, c, b);
    MemberEnds(ms[0], ns[0], PrintRest(ms[1..]), PrintRest(ns[1..]));
  }

  lemma {:induction false} RestInjective(ms: seq<Member>, ns: seq<Member>)
    requires PrintRest(ms) == PrintRest(ns)
    ensures ms == ns
  {
    hide PrintMember;
    if ms != [] && ns != [] {
      MembersEnd(0x2c, ms, ns);
      RestInjective(ms[1..], ns[1..]);
      assert ms == [ms[0]] + ms[1..] && ns == [ns[0]] + ns[1..];
    }
  }

  /** The printed object determines its members and their order. */
  lemma PrintObjectInjective(ms: seq<Member>, ns: seq<Member>)
    requires PrintObject(ms) == PrintObject(ns)
    ensures ms == ns
  {
    hide PrintMember, PrintRest;
    ObjectHead(ms);
    ObjectHead(ns);
    if ms != [] && ns != [] {
      MembersEnd(0x7b, ms, ns);
      RestInjective(ms[1..], ns[1..]);
      assert ms == [ms[0]] + ms[1..] && ns == [ns[0]] + ns[1..];
    }
  }

  lemma ObjectHead(ms: seq<Member>)
    ensures |PrintObject(ms)| >= 2 && (PrintObject(ms)[1] == QUOTE <==> ms != [])
  {
    hide PrintMember;
  }

  // ---- an object is one line ----------------------------------------------

  lemma {:induction false} BodyOneLine(s: Bytes)
    ensures 0x0a !in EscapeBody(s)
  {
    if s != [] {
      BodyOneLine(s[1..]);
      assert 0x0a !in EscapeByte(s[0]);
    }
  }

  lemma MemberOneLine(m: Member)
    ensures 0x0a !in PrintMember(m)
  {
    BodyOneLine(m.key);
    BodyOneLine(m.value);
  }

  lemma {:induction false} RestOneLine(ms: seq<Member>)
    ensures 0x0a !in PrintRest(ms)
  {
    hide PrintMember;
    if ms != [] {
      MemberOneLine(ms[0]);
      RestOneLine(ms[1..]);
    }
  }

  /** No raw newline ever comes out, whatever the keys and values contain. */
  lemma ObjectOneLine(ms: seq<Member>)
    ensures 0x0a !in PrintObject(ms)
  {
    hide PrintMember, PrintRest;
    if ms != [] {
      MemberOneLine(ms[0]);
      RestOneLine(ms[1..]);
    }
  }

  // ---- key order ----------------------------------------------------------

  /** strcmp(a, b) < 0. */
  predicate Before(a: Bytes, b: Bytes) {
    if b == [] then false
    else if a == [] then true
    else a[0] < b[0] || (a[0] == b[0] && Before(a[1..], b[1..]))
  }

  lemma {:induction false} BeforeTotal(a: Bytes, b: Bytes)
    requires !Before(a, b) && !Before(b, a)
    ensures a == b
  {
    if a != [] && b != [] {
      BeforeTotal(a[1..], b[1..]);
      assert a == [a[0]] + a[1..] && b == [b[0]] + b[1..];
    }
  }

  lemma {:induction false} BeforeTransitive(a: Bytes, b: Bytes, c: Bytes)
    requires !Before(b, a) && !Before(c, b)
    ensures !Before(c, a)
  {
    if a != [] && b != [] && c != [] && a[0] == b[0] == c[0] {
      BeforeTransitive(a[1..], b[1..], c[1..]);
    }
  }

  lemma {:induction false} BeforeAsymmetric(a: Bytes, b: Bytes)
    requires Before(a, b)
    ensures !Before(b, a)
  {
    if a != [] && a[0] == b[0] { BeforeAsymmetric(a[1..], b[1..]); }
  }

  /** The two agree on k bytes, and there a ends or has the smaller byte. */
  predicate SmallerAt(a: Bytes, b: Bytes, k: nat) {
    k <= |a| && k < |b| && a[..k] == b[..k] && (k == |a| || a[k] < b[k])
  }

  /** Byte order, as strcmp has it on unsigned bytes. */
  lemma {:induction false} BeforeExactly(a: Bytes, b: Bytes)
    ensures Before(a, b) <==> exists k: nat :: SmallerAt(a, b, k)
  {
    if a == [] || b == [] || a[0] != b[0] {
      if Before(a, b) { assert SmallerAt(a, b, 0); }
      if k: nat :| SmallerAt(a, b, k) { assert k > 0 ==> a[..k][0] == b[..k][0]; }
    } else {
      BeforeExactly(a[1..], b[1..]);
      if k: nat :| SmallerAt(a[1..], b[1..], k) {
        assert a[..k + 1] == [a[0]] + a[1..][..k] && b[..k + 1] == [b[0]] + b[1..][..k];
        assert SmallerAt(a, b, k + 1);
      }
      if k: nat :| SmallerAt(a, b, k) {
        assert k > 0;
        assert a[1..][..k - 1] == a[..k][1..] && b[1..][..k - 1] == b[..k][1..];
        assert SmallerAt(a[1..], b[1..], k - 1);
      }
    }
  }

  ghost predicate KeySorted(ms: seq<Member>) {
    forall i, j :: 0 <= i < j < |ms| ==> !Before(ms[j].key, ms[i].key)
  }

  ghost predicate DistinctKeys(ms: seq<Member>) {
    forall i, j :: 0 <= i < j < |ms| ==> ms[i].key != ms[j].key
  }

  /** A key-sorted arrangement of some members. */
  ghost predicate Arranges(sorted: seq<Member>, ms: seq<Member>) {
    KeySorted(sorted) && multiset(sorted) == multiset(ms)
  }

  lemma SameHead(a: seq<Member>, b: seq<Member>)
    requires KeySorted(a) && KeySorted(b) && DistinctKeys(a) && multiset(a) == multiset(b) && a != [] && b != []
    ensures a[0] == b[0]
  {
    assert a[0] in multiset(b) && b[0] in multiset(a);
    var i :| 0 <= i < |a| && a[i] == b[0];
    var j :| 0 <= j < |b| && b[j] == a[0];
    if i > 0 && j > 0 { BeforeTotal(a[0].key, b[0].key); }
  }

  /** With distinct keys there is only one key-sorted arrangement. */
  lemma {:induction false} ArrangementUnique(a: seq<Member>, b: seq<Member>)
    requires KeySorted(a) && KeySorted(b) && DistinctKeys(a) && multiset(a) == multiset(b)
    ensures a == b
  {
    assert |a| == |multiset(a)| == |multiset(b)| == |b|;
    if a != [] {
      SameHead(a, b);
      assert a == [a[0]] + a[1..] && b == [b[0]] + b[1..];
      assert multiset(a[1..]) == multiset(a) - multiset{a[0]};
      assert multiset(b[1..]) == multiset(b) - multiset{b[0]};
      ArrangementUnique(a[1..], b[1..]);
    }
  }

  lemma {:induction false} DistinctKeysPermute(a: seq<Member>, b: seq<Member>)
    requires DistinctKeys(a) && multiset(a) == multiset(b)
    ensures DistinctKeys(b)
  {
    forall i, j | 0 <= i < j < |b| ensures b[i].key != b[j].key {
      if b[i].key == b[j].key {
        assert b[i] in multiset(a) && b[j] in multiset(a);
        var m :| 0 <= m < |a| && a[m] == b[i];
        var n :| 0 <= n < |a| && a[n] == b[j];
        assert m == n;
        TwiceInSeq(b, i, j);
        OnceInSeq(a, m);
      }
    }
  }

  lemma TwiceInSeq(b: seq<Member>, i: nat, j: nat)
    requires i < j < |b| && b[i] == b[j]
    ensures multiset(b)[b[i]] >= 2
  {
    assert b == b[..j] + [b[j]] + b[j + 1..];
    assert b[i] in b[..j];
  }

  lemma OnceInSeq(a: seq<Member>, m: nat)
    requires DistinctKeys(a) && m < |a|
    ensures multiset(a)[a[m]] == 1
  {
    assert a == a[..m] + [a[m]] + a[m + 1..];
    assert a[m] !in a[..m] && a[m] !in a[m + 1..];
  }

  // ---- canonical_json -----------------------------------------------------

  datatype JsonValue = JString(text: CStr) | JOther

  datatype Entry = Entry(key: CStr, value: JsonValue)

  function InsertMember(m: Member, ms: seq<Member>): (r: seq<Member>)
    requires KeySorted(ms)
    ensures KeySorted(r) && multiset(r) == multiset{m} + multiset(ms)
  {
    if ms == [] then [m]
    else if !Before(ms[0].key, m.key) then
      InsertFront(m, ms);
      [m] + ms
    else
      var r := InsertMember(m, ms[1..]);
      InsertAfter(m, ms, r);
      [ms[0]] + r
  }

  lemma InsertFront(m: Member, ms: seq<Member>)
    requires KeySorted(ms) && ms != [] && !Before(ms[0].key, m.key)
    ensures KeySorted([m] + ms)
  {
    forall j | 0 <= j < |ms| ensures !Before(ms[j].key, m.key) {
      if j > 0 { BeforeTransitive(m.key, ms[0].key, ms[j].key); }
    }
  }

  lemma InsertAfter(m: Member, ms: seq<Member>, r: seq<Member>)
    requires KeySorted(ms) && ms != [] && Before(ms[0].key, m.key)
    requires KeySorted(r) && multiset(r) == multiset{m} + multiset(ms[1..])
    ensures KeySorted([ms[0]] + r) && multiset([ms[0]] + r) == multiset{m} + multiset(ms)
  {
    assert ms == [ms[0]] + ms[1..];
    BeforeAsymmetric(ms[0].key, m.key);
    forall j | 0 <= j < |r| ensures !Before(r[j].key, ms[0].key) {
      assert r[j] in multiset(r);
      if r[j] != m {
        var i :| 0 <= i < |ms[1..]| && ms[1..][i] == r[j];
        assert ms[i + 1] == r[j];
      }
    }
  }

  /** Stands for the library qsort: some key-sorted arrangement of the members. */
  function QSort(ms: seq<Member>): (r: seq<Member>)
    ensures Arranges(r, ms)
  {
    if ms == [] then []
    else
      assert ms == [ms[0]] + ms[1..];
      InsertMember(ms[0], QSort(ms[1..]))
  }

  ghost predicate AllStrings(es: seq<Entry>) {
    forall i :: 0 <= i < |es| ==> es[i].value.JString?
  }

  function Members(es: seq<Entry>): (r: seq<Member>)
    ensures |r| == |es|
    ensures forall i :: 0 <= i < |es| && es[i].value.JString? ==> r[i] == Member(es[i].key, es[i].value.text)
  {
    seq(|es|, i requires 0 <= i < |es| => Member(es[i].key, if es[i].value.JString? then es[i].value.text else []))
  }

  method Canonical(es: seq<Entry>) returns (out: Result<Bytes>)
    ensures !AllStrings(es) ==> out == Err(EINVAL)
    ensures AllStrings(es) ==> out.Ok?
    ensures AllStrings(es) ==> exists sorted :: Arranges(sorted, Members(es)) && out.value == PrintObject(sorted)
  {
    for i := 0 to |es|
      invariant AllStrings(es[..i])
    {
      if !es[i].value.JString? {
        assert !AllStrings(es);
        return Err(EINVAL);
      }
    }
    assert es[..|es|] == es;
    var members := QSort(Members(es));
    var buf := [0x7b];
    for i := 0 to |members|
      invariant i == 0 ==> buf == [0x7b]
      invariant i > 0 ==> buf + PrintRest(members[i..]) == PrintObject(members)
    {
      ghost var was := buf;
      if i > 0 { buf := buf + [0x2c]; }
      buf := EscapeString(members[i].key, buf);
      buf := buf + [0x3a];
      buf := EscapeString(members[i].value, buf);
      PrintStep(was, buf, members, i);
    }
    assert |members| > 0 ==> members[|members|..] == [];
    buf := buf + [0x7d];
    assert buf == PrintObject(members);
    return Ok(buf);
  }

  lemma PrintStep(was: Bytes, now: Bytes, ms: seq<Member>, i: nat)
    requires i < |ms|
    requires now == was + (if i > 0 then [0x2c] else []) + Escaped(ms[i].key) + [0x3a] + Escaped(ms[i].value)
    requires i == 0 ==> was == [0x7b]
    requires i > 0 ==> was + PrintRest(ms[i..]) == PrintObject(ms)
    ensures now + PrintRest(ms[i + 1..]) == PrintObject(ms)
  {
    hide Escaped;
    if i > 0 {
      assert ms[i..][1..] == ms[i + 1..];
      assert now == was + [0x2c] + PrintMember(ms[i]);
    } else {
      assert now == [0x7b] + PrintMember(ms[0]);
    }
  }

  /** For distinct keys the output does not depend on the order the members were added in. */
  lemma OrderIrrelevant(ms: seq<Member>, ns: seq<Member>, a: seq<Member>, b: seq<Member>)
    requires DistinctKeys(ms) && multiset(ms) == multiset(ns) && Arranges(a, ms) && Arranges(b, ns)
    ensures PrintObject(a) == PrintObject(b)
  {
    DistinctKeysPermute(ms, a);
    ArrangementUnique(a, b);
  }
}

/** The canonical charter bytes (src/ricardian_charter.c). */
module RicardianCharter {
  import opened Common
  import opened CanonicalJson

  function Ascii(s: string): (r: CStr)
    requires forall i :: 0 <= i < |s| ==> 0 < s[i] as int < 128
    ensures |r| == |s|
    ensures forall i :: 0 <= i < |s| ==> r[i] == s[i] as int
  {
    seq(|s|, i requires 0 <= i < |s| => s[i] as int)
  }

  /** A deployment binding; an absent (NULL) field counts as the empty string. */
  datatype Binding = Binding(
    agentPubKey: Option<CStr>,
    designatedValidatorPubKey: Option<CStr>,
    validatorRabinPubKey: Option<CStr>,
    maxSlashingTarget: Option<CStr>,
    minSlashConfirmations: Option<CStr>,
    initialSlashCheckpointHash: Option<CStr>)

  function Text(field: Option<CStr>): CStr {
    match field
    case None => []
    case Some(s) => s
  }

  const AGENT: CStr := Ascii("agentPubKey")
  const DESIGNATED: CStr := Ascii("designatedValidatorPubKey")
  const RABIN: CStr := Ascii("validatorRabinPubKey")
  const MAX_TARGET: CStr := Ascii("maxSlashingTarget")
  const MIN_CONFIRMATIONS: CStr := Ascii("minSlashConfirmations")
  const CHECKPOINT: CStr := Ascii("initialSlashCheckpointHash")

  const SEPARATOR: Bytes := [0x0a, 0x0a] + Ascii("--- DEPLOYMENT BINDING (canonical) ---") + [0x0a]

  /** The members in the order they are added. */
  function Added(b: Binding): seq<Member> {
    [Member(AGENT, Text(b.agentPubKey)),
     Member(DESIGNATED, Text(b.designatedValidatorPubKey)),
     Member(RABIN, Text(b.validatorRabinPubKey)),
     Member(MAX_TARGET, Text(b.maxSlashingTarget)),
     Member(MIN_CONFIRMATIONS, Text(b.minSlashConfirmations)),
     Member(CHECKPOINT, Text(b.initialSlashCheckpointHash))]
  }

  /** The same members in key order. */
  function InOrder(b: Binding): seq<Member> {
    [Member(AGENT, Text(b.agentPubKey)),
     Member(DESIGNATED, Text(b.designatedValidatorPubKey)),
     Member(CHECKPOINT, Text(b.initialSlashCheckpointHash)),
     Member(MAX_TARGET, Text(b.maxSlashingTarget)),
     Member(MIN_CONFIRMATIONS, Text(b.minSlashConfirmations)),
     Member(RABIN, Text(b.validatorRabinPubKey))]
  }

  function BindingJson(b: Binding): Bytes {
    PrintObject(InOrder(b))
  }

  function CanonicalBytes(prose: CStr, b: Binding): Bytes {
    prose + SEPARATOR + BindingJson(b) + [0x0a]
  }

  lemma KeyHeads()
    ensures |AGENT| > 1 && AGENT[0] == 0x61
    ensures |DESIGNATED| > 1 && DESIGNATED[0] == 0x64
    ensures |CHECKPOINT| > 1 && CHECKPOINT[0] == 0x69
    ensures |MAX_TARGET| > 1 && MAX_TARGET[0] == 0x6d && MAX_TARGET[1] == 0x61
    ensures |MIN_CONFIRMATIONS| > 1 && MIN_CONFIRMATIONS[0] == 0x6d && MIN_CONFIRMATIONS[1] == 0x69
    ensures |RABIN| > 1 && RABIN[0] == 0x76
  {
  }

  lemma MaxBeforeMin()
    ensures MAX_TARGET != MIN_CONFIRMATIONS && !Before(MIN_CONFIRMATIONS, MAX_TARGET)
  {
    KeyHeads();
    hide Ascii, MAX_TARGET, MIN_CONFIRMATIONS;
    assert MIN_CONFIRMATIONS[1..][0] == 0x69 && MAX_TARGET[1..][0] == 0x61;
    assert !Before(MIN_CONFIRMATIONS[1..], MAX_TARGET[1..]);
  }

  lemma OrderIsSorted(b: Binding)
    ensures KeySorted(InOrder(b)) && DistinctKeys(InOrder(b))
  {
    KeyHeads();
    MaxBeforeMin();
    hide Text, Ascii, AGENT, DESIGNATED, RABIN, MAX_TARGET, MIN_CONFIRMATIONS, CHECKPOINT;
  }

  lemma SwapPermutes(s: seq<Member>, i: nat, j: nat)
    requires i < j < |s|
    ensures multiset(s[i := s[j]][j := s[i]]) == multiset(s)
  {
    assert s == s[..i] + [s[i]] + s[i + 1..j] + [s[j]] + s[j + 1..];
    assert s[i := s[j]][j := s[i]] == s[..i] + [s[j]] + s[i + 1..j] + [s[i]] + s[j + 1..];
  }

  lemma OrderRearranges(b: Binding)
    ensures multiset(InOrder(b)) == multiset(Added(b))
  {
    OrderIsSwap(b);
    hide InOrder, Added;
    SwapPermutes(Added(b), 2, 5);
  }

  lemma OrderIsSwap(b: Binding)
    ensures |Added(b)| == 6 && InOrder(b) == Added(b)[2 := Added(b)[5]][5 := Added(b)[2]]
  {
    hide Text, Ascii, AGENT, DESIGNATED, RABIN, MAX_TARGET, MIN_CONFIRMATIONS, CHECKPOINT;
  }

  /** The object as it is built, field by field. */
  function Entries(b: Binding): seq<Entry> {
    [Entry(AGENT, JString(Text(b.agentPubKey))),
     Entry(DESIGNATED, JString(Text(b.designatedValidatorPubKey))),
     Entry(RABIN, JString(Text(b.validatorRabinPubKey))),
     Entry(MAX_TARGET, JString(Text(b.maxSlashingTarget))),
     Entry(MIN_CONFIRMATIONS, JString(Text(b.minSlashConfirmations))),
     Entry(CHECKPOINT, JString(Text(b.initialSlashCheckpointHash)))]
  }

  lemma EntriesAreAdded(b: Binding)
    ensures AllStrings(Entries(b)) && Members(Entries(b)) == Added(b)
  {
    hide Text, Ascii, Members, AGENT, DESIGNATED, RABIN, MAX_TARGET, MIN_CONFIRMATIONS, CHECKPOINT;
  }

  method BindingJsonOf(b: Binding) returns (out: Bytes)
    ensures out == BindingJson(b)
  {
    hide Added, InOrder, Members, Entries, AllStrings, KeySorted, DistinctKeys, PrintObject;
    EntriesAreAdded(b);
    OrderIsSorted(b);
    OrderRearranges(b);
    var r := Canonical(Entries(b));
    ghost var sorted :| Arranges(sorted, Members(Entries(b))) && r.value == PrintObject(sorted);
    ArrangementUnique(InOrder(b), sorted);
    out := r.value;
  }

  method ContractBytes(prose: CStr, b: Binding, out: Bytes) returns (r: Bytes)
    ensures r == out + CanonicalBytes(prose, b)
  {
    var json := BindingJsonOf(b);
    hide BindingJson;
    r := out + prose;
    r := r + SEPARATOR;
    r := r + json;
    r := r + [0x0a];
  }

  // ---- the bytes themselves -----------------------------------------------

  /** The character codes of a text. */
  function Codes(s: string): (r: seq<int>)
    ensures |r| == |s| && forall i :: 0 <= i < |s| ==> r[i] == s[i] as int
  {
    seq(|s|, i requires 0 <= i < |s| => s[i] as int)
  }

  /** Nothing in it needs an escape. */
  predicate Plain(s: Bytes) {
    forall i :: 0 <= i < |s| ==> 0x20 <= s[i] && s[i] != QUOTE && s[i] != BACKSLASH
  }

  lemma {:induction false} PlainBody(s: Bytes)
    requires Plain(s)
    ensures EscapeBody(s) == s
  {
    if s != [] { PlainBody(s[1..]); }
  }

  /** A field: its name in quotes, a colon, and the escaped value, a missing one as the empty string. */
  function Field(key: string, value: Option<CStr>): seq<int> {
    Codes("\"") + Codes(key) + Codes("\":") + Escaped(if value.None? then [] else value.value)
  }

  lemma PrintedField(name: string, key: CStr, value: Option<CStr>)
    requires key == Codes(name) && Plain(key)
    ensures PrintMember(Member(key, Text(value))) == Field(name, value)
  {
    PlainBody(key);
    hide EscapeBody, Plain;
    var v := Escaped(Text(value));
    hide Text;
    assert Codes("\"") == [QUOTE] && Codes("\":") == [QUOTE, 0x3a];
    assert [QUOTE] + key + [QUOTE] + [0x3a] + v == [QUOTE] + key + [QUOTE, 0x3a] + v;
  }

  lemma AgentName()
    ensures AGENT == Codes("agentPubKey") && Plain(AGENT)
  {
  }

  lemma DesignatedName()
    ensures DESIGNATED == Codes("designatedValidatorPubKey") && Plain(DESIGNATED)
  {
  }

  lemma CheckpointName()
    ensures CHECKPOINT == Codes("initialSlashCheckpointHash") && Plain(CHECKPOINT)
  {
  }

  lemma MaxTargetName()
    ensures MAX_TARGET == Codes("maxSlashingTarget") && Plain(MAX_TARGET)
  {
  }

  lemma MinConfirmationsName()
    ensures MIN_CONFIRMATIONS == Codes("minSlashConfirmations") && Plain(MIN_CONFIRMATIONS)
  {
  }

  lemma RabinName()
    ensures RABIN == Codes("validatorRabinPubKey") && Plain(RABIN)
  {
  }

  lemma PrintedFields(b: Binding)
    ensures var ms := InOrder(b);
            && |ms| == 6
            && PrintMember(ms[0]) == Field("agentPubKey", b.agentPubKey)
            && PrintMember(ms[1]) == Field("designatedValidatorPubKey", b.designatedValidatorPubKey)
            && PrintMember(ms[2]) == Field("initialSlashCheckpointHash", b.initialSlashCheckpointHash)
            && PrintMember(ms[3]) == Field("maxSlashingTarget", b.maxSlashingTarget)
            && PrintMember(ms[4]) == Field("minSlashConfirmations", b.minSlashConfirmations)
            && PrintMember(ms[5]) == Field("validatorRabinPubKey", b.validatorRabinPubKey)
  {
    hide PrintMember, Escaped, Codes, Field, Plain, Text;
    hide AGENT, DESIGNATED, RABIN, MAX_TARGET, MIN_CONFIRMATIONS, CHECKPOINT;
    AgentName();
    DesignatedName();
    CheckpointName();
    MaxTargetName();
    MinConfirmationsName();
    RabinName();
    PrintedField("agentPubKey", AGENT, b.agentPubKey);
    PrintedField("designatedValidatorPubKey", DESIGNATED, b.designatedValidatorPubKey);
    PrintedField("initialSlashCheckpointHash", CHECKPOINT, b.initialSlashCheckpointHash);
    PrintedField("maxSlashingTarget", MAX_TARGET, b.maxSlashingTarget);
    PrintedField("minSlashConfirmations", MIN_CONFIRMATIONS, b.minSlashConfirmations);
    PrintedField("validatorRabinPubKey", RABIN, b.validatorRabinPubKey);
  }

  /** Members behind an opening brace, commas between them and a closing brace. */
  lemma SixMembers(ms: seq<Member>)
    requires |ms| == 6
    ensures PrintObject(ms) ==
      [0x7b] + PrintMember(ms[0]) + ([0x2c] + PrintMember(ms[1]) + ([0x2c] + PrintMember(ms[2])
      + ([0x2c] + PrintMember(ms[3]) + ([0x2c] + PrintMember(ms[4]) + ([0x2c] + PrintMember(ms[5]) + [0x7d])))))
  {
    hide PrintMember;
    assert ms[1..][1..] == ms[2..] && ms[2..][1..] == ms[3..] && ms[3..][1..] == ms[4..] && ms[4..][1..] == ms[5..];
    assert ms[5..][1..] == [];
    assert PrintRest(ms[5..]) == [0x2c] + PrintMember(ms[5]) + PrintRest([]);
    assert PrintRest(ms[4..]) == [0x2c] + PrintMember(ms[4]) + PrintRest(ms[5..]);
    assert PrintRest(ms[3..]) == [0x2c] + PrintMember(ms[3]) + PrintRest(ms[4..]);
    assert PrintRest(ms[2..]) == [0x2c] + PrintMember(ms[2]) + PrintRest(ms[3..]);
    assert PrintRest(ms[1..]) == [0x2c] + PrintMember(ms[1]) + PrintRest(ms[2..]);
  }

  /** The binding, byte for byte: an object of six fields in key order, with no space anywhere. */
  lemma BindingLayout(b: Binding)
    ensures BindingJson(b) ==
      ['{' as int] + Field("agentPubKey", b.agentPubKey)
      + ([',' as int] + Field("designatedValidatorPubKey", b.designatedValidatorPubKey)
      + ([',' as int] + Field("initialSlashCheckpointHash", b.initialSlashCheckpointHash)
      + ([',' as int] + Field("maxSlashingTarget", b.maxSlashingTarget)
      + ([',' as int] + Field("minSlashConfirmations", b.minSlashConfirmations)
      + ([',' as int] + Field("validatorRabinPubKey", b.validatorRabinPubKey)
      + ['}' as int])))))
  {
    hide PrintObject, PrintMember, Field, InOrder;
    PrintedFields(b);
    SixMembers(InOrder(b));
  }

  lemma SeparatorLine()
    ensures SEPARATOR == Codes("\n\n") + Codes("--- DEPLOYMENT BINDING (canonical) ---") + Codes("\n")
  {
    assert Codes("\n") == [0x0a] && Codes("\n\n") == [0x0a, 0x0a];
    assert Ascii("--- DEPLOYMENT BINDING (canonical) ---") == Codes("--- DEPLOYMENT BINDING (canonical) ---");
  }

  /** Prose, an empty line, the separator line, the binding, a newline. */
  lemma CharterLayout(prose: CStr, b: Binding)
    ensures CanonicalBytes(prose, b) ==
      prose + (Codes("\n\n") + Codes("--- DEPLOYMENT BINDING (canonical) ---") + Codes("\n"))
      + BindingJson(b) + ['\n' as int]
  {
    hide BindingJson, SEPARATOR, Codes;
    SeparatorLine();
  }

  lemma NewlineAt(x: Bytes, j: Bytes, p: nat)
    requires 0x0a !in j && p < |x + [0x0a] + j| && (x + [0x0a] + j)[p] == 0x0a
    ensures p <= |x|
  {
    var s := x + [0x0a] + j;
    assert forall i :: |x| < i < |s| ==> s[i] == j[i - |x| - 1];
  }

  /** The last newline splits a text in one way only. */
  lemma LastLine(x: Bytes, j: Bytes, y: Bytes, k: Bytes)
    requires x + [0x0a] + j == y + [0x0a] + k && 0x0a !in j && 0x0a !in k
    ensures x == y && j == k
  {
    var s, t := x + [0x0a] + j, y + [0x0a] + k;
    assert s[|x|] == 0x0a && t[|y|] == 0x0a;
    NewlineAt(x, j, |y|);
    NewlineAt(y, k, |x|);
    assert s[..|x|] == x && t[..|x|] == y && s[|x| + 1..] == j && t[|x| + 1..] == k;
  }

  /** Prose, a separator that ends in a newline, one line and a newline: prose and line are fixed. */
  lemma SplitAtLastLine(p: Bytes, j: Bytes, q: Bytes, k: Bytes, sep: Bytes)
    requires p + (sep + [0x0a]) + j + [0x0a] == q + (sep + [0x0a]) + k + [0x0a]
    requires 0x0a !in j && 0x0a !in k
    ensures p == q && j == k
  {
    var s, t := p + (sep + [0x0a]) + j + [0x0a], q + (sep + [0x0a]) + k + [0x0a];
    assert s[..|s| - 1] == (p + sep) + [0x0a] + j;
    assert t[..|t| - 1] == (q + sep) + [0x0a] + k;
    LastLine(p + sep, j, q + sep, k);
    assert (p + sep)[..|p|] == p && (q + sep)[..|q|] == q;
  }

  ghost predicate SameBinding(b: Binding, c: Binding) {
    && Text(b.agentPubKey) == Text(c.agentPubKey)
    && Text(b.designatedValidatorPubKey) == Text(c.designatedValidatorPubKey)
    && Text(b.validatorRabinPubKey) == Text(c.validatorRabinPubKey)
    && Text(b.maxSlashingTarget) == Text(c.maxSlashingTarget)
    && Text(b.minSlashConfirmations) == Text(c.minSlashConfirmations)
    && Text(b.initialSlashCheckpointHash) == Text(c.initialSlashCheckpointHash)
  }

  lemma JsonInjective(b: Binding, c: Binding)
    requires BindingJson(b) == BindingJson(c)
    ensures SameBinding(b, c)
  {
    PrintObjectInjective(InOrder(b), InOrder(c));
    hide PrintObject, Text;
    var m, n := InOrder(b), InOrder(c);
    assert m[0] == n[0] && m[1] == n[1] && m[2] == n[2] && m[3] == n[3] && m[4] == n[4] && m[5] == n[5];
  }

  /**
   * The canonical bytes determine the prose and the binding, even when the prose itself contains the
   * separator.
   */
  lemma CanonicalBytesInjective(prose: CStr, b: Binding, prose': CStr, c: Binding)
    ensures CanonicalBytes(prose, b) == CanonicalBytes(prose', c) <==> prose == prose' && SameBinding(b, c)
  {
    if CanonicalBytes(prose, b) == CanonicalBytes(prose', c) {
      CanonicalSplit(prose, b, prose', c);
    } else {
      assert SameBinding(b, c) ==> InOrder(b) == InOrder(c);
    }
  }

  /** So the digest of them commits to both, or exhibits a collision. */
  lemma RicardianHashCommits(sha: Hash, prose: CStr, b: Binding, prose': CStr, c: Binding)
    requires sha(CanonicalBytes(prose, b)) == sha(CanonicalBytes(prose', c))
    ensures || (prose == prose' && SameBinding(b, c))
            || Collision(sha, CanonicalBytes(prose, b), CanonicalBytes(prose', c))
  {
    hide CanonicalBytes;
    CanonicalBytesInjective(prose, b, prose', c);
  }

  lemma CanonicalSplit(prose: CStr, b: Binding, prose': CStr, c: Binding)
    requires CanonicalBytes(prose, b) == CanonicalBytes(prose', c)
    ensures prose == prose' && SameBinding(b, c)
  {
    ObjectOneLine(InOrder(b));
    ObjectOneLine(InOrder(c));
    hide PrintObject, InOrder, Ascii;
    SplitAtLastLine(prose, BindingJson(b), prose', BindingJson(c),
                    [0x0a, 0x0a] + Ascii("--- DEPLOYMENT BINDING (canonical) ---"));
    JsonInjective(b, c);
  }
}
