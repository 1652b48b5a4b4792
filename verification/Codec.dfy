/** Printers paired with parsers that consume exactly what was printed. */
module Codec {
  import opened Common

  /** What a parser makes of its input: nothing, or a value and the bytes after it. */
  datatype Parsed<+T> = Stop | Got(value: T, rest: Bytes)

  /** Parsing undoes printing whatever follows, and accepts nothing but printed bytes. */
  ghost predicate IsCodec<T(!new)>(show: T -> Bytes, parse: Bytes -> Parsed<T>) {
    && (forall x, rest :: parse(show(x) + rest) == Got(x, rest))
    && (forall s :: parse(s).Got? ==> s == show(parse(s).value) + parse(s).rest)
  }

  function PrintMany<T>(show: T -> Bytes, xs: seq<T>): Bytes {
    if xs == [] then [] else show(xs[0]) + PrintMany(show, xs[1..])
  }

  function ParseMany<T>(parse: Bytes -> Parsed<T>, n: nat, s: Bytes): (r: Parsed<seq<T>>)
    ensures r.Got? ==> |r.value| == n
  {
    if n == 0 then Got([], s) else
    match parse(s)
    case Stop => Stop
    case Got(x, rest) =>
      match ParseMany(parse, n - 1, rest)
      case Stop => Stop
      case Got(xs, end) => Got([x] + xs, end)
  }

  lemma PrintCons<T>(show: T -> Bytes, x: T, xs: seq<T>)
    ensures PrintMany(show, [x] + xs) == show(x) + PrintMany(show, xs)
  {
    assert ([x] + xs)[1..] == xs;
  }

  lemma PrintNone<T>(show: T -> Bytes)
    ensures PrintMany(show, []) == []
  {
  }

  lemma {:induction false} ParseManyOfPrint<T(!new)>(show: T -> Bytes, parse: Bytes -> Parsed<T>, xs: seq<T>,
                                                     rest: Bytes)
    requires IsCodec(show, parse)
    ensures ParseMany(parse, |xs|, PrintMany(show, xs) + rest) == Got(xs, rest)
  {
    if xs == [] {
      assert PrintMany(show, xs) + rest == rest;
    } else {
      var x, more := xs[0], xs[1..];
      var tail := PrintMany(show, more) + rest;
      ParseManyOfPrint(show, parse, more, rest);
      assert parse(show(x) + tail) == Got(x, tail);
      assert ParseMany(parse, |xs|, show(x) + tail) == Got([x] + more, rest);
      assert PrintMany(show, xs) == show(x) + PrintMany(show, more);
      hide *;
      assert (show(x) + PrintMany(show, more)) + rest == show(x) + tail;
      assert [x] + more == xs;
    }
  }

  lemma {:induction false} PrintOfParseMany<T(!new)>(show: T -> Bytes, parse: Bytes -> Parsed<T>, n: nat, s: Bytes)
    requires IsCodec(show, parse)
    ensures var r := ParseMany(parse, n, s);
            r.Got? ==> |r.value| == n && s == PrintMany(show, r.value) + r.rest
  {
    if n > 0 && ParseMany(parse, n, s).Got? {
      var one := parse(s);
      PrintOfParseMany(show, parse, n - 1, one.rest);
      var more := ParseMany(parse, n - 1, one.rest);
      assert s == show(one.value) + one.rest;
      PrintCons(show, one.value, more.value);
      assert ParseMany(parse, n, s) == Got([one.value] + more.value, more.rest);
      hide *;
      assert show(one.value) + (PrintMany(show, more.value) + more.rest)
          == (show(one.value) + PrintMany(show, more.value)) + more.rest;
    }
  }

  lemma {:induction false} PrintManyAppend<T>(show: T -> Bytes, xs: seq<T>, x: T)
    ensures PrintMany(show, xs + [x]) == PrintMany(show, xs) + show(x)
  {
    if xs == [] {
      assert [x][1..] == [];
    } else {
      PrintManyAppend(show, xs[1..], x);
      assert (xs + [x])[1..] == xs[1..] + [x];
    }
  }

  lemma {:induction false} PrintManyLength<T>(show: T -> Bytes, xs: seq<T>, least: nat)
    requires forall i :: 0 <= i < |xs| ==> |show(xs[i])| >= least
    ensures |PrintMany(show, xs)| >= |xs| * least
  {
    if xs != [] {
      PrintManyLength(show, xs[1..], least);
      assert |xs| * least == least + |xs[1..]| * least;
    }
  }

  /** Item i sits behind the items before it. */
  lemma {:induction false} PrintManyAt<T>(show: T -> Bytes, xs: seq<T>, i: nat)
    requires i < |xs|
    ensures var at := |PrintMany(show, xs[..i])|;
            && at + |show(xs[i])| <= |PrintMany(show, xs)|
            && PrintMany(show, xs)[at..at + |show(xs[i])|] == show(xs[i])
  {
    var x, tail := show(xs[0]), PrintMany(show, xs[1..]);
    assert PrintMany(show, xs) == x + tail;
    if i == 0 {
      assert xs[..0] == [];
      assert (x + tail)[..|x|] == x;
    } else {
      PrintManyAt(show, xs[1..], i - 1);
      assert xs[..i][0] == xs[0] && xs[..i][1..] == xs[1..][..i - 1];
      var at, n := |PrintMany(show, xs[1..][..i - 1])|, |show(xs[i])|;
      assert (x + tail)[|x| + at..|x| + at + n] == tail[at..at + n];
    }
  }

  /** Items of one width sit at multiples of it. */
  lemma {:induction false} PrintManyWidth<T>(show: T -> Bytes, xs: seq<T>, w: nat)
    requires forall i :: 0 <= i < |xs| ==> |show(xs[i])| == w
    ensures |PrintMany(show, xs)| == w * |xs|
  {
    if xs != [] {
      PrintManyWidth(show, xs[1..], w);
      assert w * |xs| == w + w * |xs[1..]|;
    }
  }

  /** A list of items printed back to back determines the items, with no count stored. */
  lemma {:induction false} PrintManyInjective<T(!new)>(show: T -> Bytes, parse: Bytes -> Parsed<T>, xs: seq<T>,
                                                       ys: seq<T>)
    requires IsCodec(show, parse)
    requires forall x :: show(x) != []
    requires PrintMany(show, xs) == PrintMany(show, ys)
    ensures xs == ys
  {
    if xs != [] && ys != [] {
      var s := PrintMany(show, xs);
      assert s == show(xs[0]) + PrintMany(show, xs[1..]);
      assert s == show(ys[0]) + PrintMany(show, ys[1..]);
      assert parse(s) == Got(xs[0], PrintMany(show, xs[1..]));
      assert parse(s) == Got(ys[0], PrintMany(show, ys[1..]));
      PrintManyInjective(show, parse, xs[1..], ys[1..]);
      assert xs == [xs[0]] + xs[1..] && ys == [ys[0]] + ys[1..];
    }
  }
}
