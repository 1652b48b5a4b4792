/** Funding candidates (src/chainSources/utxo_select.c): a bottom-up stable merge sort and a capped sum. */
module UtxoSelect {
  import opened Common

  datatype Utxo = Utxo(txHash: string, txPos: uint32, value: int64, height: int64)

  datatype Funding = Funding(txId: string, outputIndex: uint32, satoshis: int64, confirmed: bool)

  datatype RankOpts = RankOpts(minSats: Option<int64>, confirmedOnly: Option<bool>)

  /** Confirmed first, then larger value first; negative when a comes before b. */
  function Cmp(a: Funding, b: Funding): int {
    if a.confirmed != b.confirmed then (if a.confirmed then -1 else 1)
    else if b.satoshis > a.satoshis then 1
    else if b.satoshis < a.satoshis then -1
    else 0
  }

  predicate Leq(a: Funding, b: Funding) {
    Cmp(a, b) <= 0
  }

  // ---- what a stable sort is ----------------------------------------------

  ghost predicate Sorted(s: seq<Funding>) {
    forall i, j :: 0 <= i < j < |s| ==> Leq(s[i], s[j])
  }

  /** The elements that tie with k, in order. */
  ghost function Ties(k: Funding, s: seq<Funding>): seq<Funding> {
    if s == [] then []
    else (if Cmp(k, s[0]) == 0 then [s[0]] else []) + Ties(k, s[1..])
  }

  /** The same elements, with ties kept in their order. */
  ghost predicate SameTies(s: seq<Funding>, t: seq<Funding>) {
    forall k :: Ties(k, s) == Ties(k, t)
  }

  lemma {:induction false} TiesConcat(k: Funding, s: seq<Funding>, t: seq<Funding>)
    ensures Ties(k, s + t) == Ties(k, s) + Ties(k, t)
  {
    if s == [] {
      assert s + t == t;
    } else {
      TiesConcat(k, s[1..], t);
      TiesCons(k, s[0], s[1..] + t);
      TiesCons(k, s[0], s[1..]);
      hide Ties, Cmp;
      assert s + t == [s[0]] + (s[1..] + t) && s == [s[0]] + s[1..];
    }
  }

  lemma {:induction false} NoTies(k: Funding, s: seq<Funding>)
    requires forall i :: 0 <= i < |s| ==> Cmp(k, s[i]) != 0
    ensures Ties(k, s) == []
  {
    if s != [] { NoTies(k, s[1..]); }
  }

  lemma {:induction false} TiesMember(k: Funding, s: seq<Funding>)
    requires Ties(k, s) != []
    ensures exists i :: 0 <= i < |s| && Cmp(k, s[i]) == 0
  {
    if Cmp(k, s[0]) != 0 {
      TiesMember(k, s[1..]);
      var i :| 0 <= i < |s[1..]| && Cmp(k, s[1..][i]) == 0;
      assert Cmp(k, s[i + 1]) == 0;
    }
  }

  /** The heads of two such lists are the same element. */
  lemma SameHead(a: seq<Funding>, b: seq<Funding>)
    requires Sorted(a) && Sorted(b) && SameTies(a, b) && a != [] && b != []
    ensures a[0] == b[0]
  {
    assert Ties(a[0], a) == Ties(a[0], b) && Ties(b[0], a) == Ties(b[0], b);
    assert Ties(a[0], a)[0] == a[0];
    assert Ties(b[0], b)[0] == b[0];
    TiesMember(a[0], b);
    TiesMember(b[0], a);
  }

  /** A list has only one stable sort: sorted lists with the same ties are equal. */
  lemma {:induction false} StableSortUnique(a: seq<Funding>, b: seq<Funding>)
    requires Sorted(a) && Sorted(b) && SameTies(a, b)
    ensures a == b
  {
    if a != [] { assert Ties(a[0], a) != [] && Ties(a[0], a) == Ties(a[0], b); }
    if b != [] { assert Ties(b[0], b) != [] && Ties(b[0], a) == Ties(b[0], b); }
    if a != [] && b != [] {
      SameHead(a, b);
      forall k ensures Ties(k, a[1..]) == Ties(k, b[1..]) {
        assert Ties(k, a) == Ties(k, b);
        var h := if Cmp(k, a[0]) == 0 then [a[0]] else [];
        assert (h + Ties(k, a[1..]))[|h|..] == Ties(k, a[1..]);
        assert (h + Ties(k, b[1..]))[|h|..] == Ties(k, b[1..]);
      }
      StableSortUnique(a[1..], b[1..]);
      assert a == [a[0]] + a[1..] && b == [b[0]] + b[1..];
    }
  }

  // ---- a reference sort ---------------------------------------------------

  function Insert(x: Funding, s: seq<Funding>): seq<Funding> {
    if s == [] || Leq(x, s[0]) then [x] + s else [s[0]] + Insert(x, s[1..])
  }

  /** Insertion sort, the textbook stable sort. */
  function StableSorted(s: seq<Funding>): seq<Funding> {
    if s == [] then [] else Insert(s[0], StableSorted(s[1..]))
  }

  lemma {:induction false} InsertSorted(x: Funding, s: seq<Funding>)
    requires Sorted(s)
    ensures Sorted(Insert(x, s))
    ensures forall y :: y in Insert(x, s) <==> y == x || y in s
  {
    if s != [] && !Leq(x, s[0]) {
      InsertSorted(x, s[1..]);
      var r := Insert(x, s[1..]);
      assert forall i :: 0 <= i < |r| ==> r[i] in r;
    }
  }

  lemma {:induction false} InsertTies(k: Funding, x: Funding, s: seq<Funding>)
    ensures Ties(k, Insert(x, s)) == Ties(k, [x] + s)
  {
    if s != [] && !Leq(x, s[0]) {
      InsertTies(k, x, s[1..]);
      var r := Insert(x, s[1..]);
      TiesCons(k, s[0], r);
      TiesCons(k, x, s);
      TiesCons(k, x, s[1..]);
      hide Insert;
      assert s == [s[0]] + s[1..];
    }
  }

  lemma TiesCons(k: Funding, x: Funding, s: seq<Funding>)
    ensures Ties(k, [x] + s) == (if Cmp(k, x) == 0 then [x] else []) + Ties(k, s)
  {
    assert ([x] + s)[1..] == s;
  }

  lemma {:induction false} ReferenceStable(s: seq<Funding>)
    ensures Sorted(StableSorted(s)) && SameTies(StableSorted(s), s)
  {
    if s != [] {
      ReferenceStable(s[1..]);
      var t := StableSorted(s[1..]);
      InsertSorted(s[0], t);
      assert s == [s[0]] + s[1..];
      forall k ensures Ties(k, StableSorted(s)) == Ties(k, s) {
        InsertTies(k, s[0], t);
        TiesCons(k, s[0], t);
        TiesCons(k, s[0], s[1..]);
        assert Ties(k, t) == Ties(k, s[1..]);
      }
    }
  }

  lemma {:induction false} InsertPermutes(x: Funding, s: seq<Funding>)
    ensures multiset(Insert(x, s)) == multiset{x} + multiset(s)
  {
    if s != [] && !Leq(x, s[0]) {
      InsertPermutes(x, s[1..]);
      assert s == [s[0]] + s[1..];
    }
  }

  /** Sorting loses and invents nothing. */
  lemma {:induction false} SortPermutes(s: seq<Funding>)
    ensures multiset(StableSorted(s)) == multiset(s)
  {
    if s != [] {
      SortPermutes(s[1..]);
      InsertPermutes(s[0], StableSorted(s[1..]));
      assert s == [s[0]] + s[1..];
    }
  }

  // ---- merging ------------------------------------------------------------

  function Merge(a: seq<Funding>, b: seq<Funding>): (r: seq<Funding>)
    ensures |r| == |a| + |b|
  {
    if a == [] then b
    else if b == [] then a
    else if Leq(a[0], b[0]) then [a[0]] + Merge(a[1..], b)
    else [b[0]] + Merge(a, b[1..])
  }

  lemma {:induction false} MergeMembers(a: seq<Funding>, b: seq<Funding>, x: Funding)
    ensures x in Merge(a, b) <==> x in a || x in b
  {
    if a != [] && b != [] {
      if Leq(a[0], b[0]) {
        MergeMembers(a[1..], b, x);
        assert a == [a[0]] + a[1..];
      } else {
        MergeMembers(a, b[1..], x);
        assert b == [b[0]] + b[1..];
      }
    }
  }

  lemma {:induction false} MergeSorted(a: seq<Funding>, b: seq<Funding>)
    requires Sorted(a) && Sorted(b)
    ensures Sorted(Merge(a, b))
  {
    if a != [] && b != [] {
      if Leq(a[0], b[0]) {
        MergeSorted(a[1..], b);
        PrependSorted(a[0], Merge(a[1..], b), a[1..], b);
      } else {
        MergeSorted(a, b[1..]);
        PrependSorted(b[0], Merge(a, b[1..]), a, b[1..]);
      }
    }
  }

  lemma PrependSorted(x: Funding, m: seq<Funding>, a: seq<Funding>, b: seq<Funding>)
    requires Sorted(m) && m == Merge(a, b)
    requires forall y :: y in a || y in b ==> Leq(x, y)
    ensures Sorted([x] + m)
  {
    hide Merge;
    forall i | 0 <= i < |m| ensures Leq(x, m[i]) {
      MergeMembers(a, b, m[i]);
    }
  }

  lemma MergeUnfolds(a: seq<Funding>, b: seq<Funding>)
    ensures a == [] ==> Merge(a, b) == b
    ensures b == [] ==> Merge(a, b) == a
    ensures a != [] && b != [] ==>
      Merge(a, b) == if Leq(a[0], b[0]) then [a[0]] + Merge(a[1..], b) else [b[0]] + Merge(a, b[1..])
  {
  }

  /** A later element that belongs first ties with nothing in the sorted run it overtakes. */
  lemma OvertakenTies(k: Funding, a: seq<Funding>, x: Funding)
    requires Sorted(a) && a != [] && !Leq(a[0], x) && Cmp(k, x) == 0
    ensures Ties(k, a) == []
  {
    NoTies(k, a);
  }

  /** Merging two sorted runs keeps every tie of the left run before those of the right. */
  lemma {:induction false} MergeTies(k: Funding, a: seq<Funding>, b: seq<Funding>)
    requires Sorted(a)
    ensures Ties(k, Merge(a, b)) == Ties(k, a) + Ties(k, b)
  {
    hide Ties, Merge, Cmp, Leq;
    MergeUnfolds(a, b);
    if a == [] || b == [] {
      TiesOfNone(k);
    } else if Leq(a[0], b[0]) {
      var x, rest := a[0], a[1..];
      MergeTies(k, rest, b);
      TiesCons(k, x, Merge(rest, b));
      TiesCons(k, x, rest);
      assert a == [x] + rest;
    } else {
      var x, rest := b[0], b[1..];
      MergeTies(k, a, rest);
      TiesCons(k, x, Merge(a, rest));
      TiesCons(k, x, rest);
      assert b == [x] + rest;
      if Cmp(k, x) == 0 { OvertakenTies(k, a, x); }
    }
  }

  lemma TiesOfNone(k: Funding)
    ensures Ties(k, []) == []
  {
  }

  // ---- one pass over the runs ---------------------------------------------

  /** Merges neighbouring runs of width w. */
  function Pass(s: seq<Funding>, w: nat): (r: seq<Funding>)
    requires w > 0
    ensures |r| == |s|
  {
    if s == [] then []
    else
      var mid, right := Min(w, |s|), Min(2 * w, |s|);
      Merge(s[..mid], s[mid..right]) + Pass(s[right..], w)
  }

  /** Every run of width w is sorted (the last may be shorter). */
  ghost predicate RunsSorted(s: seq<Funding>, w: nat)
    requires w > 0
  {
    s == [] || (Sorted(s[..Min(w, |s|)]) && RunsSorted(s[Min(w, |s|)..], w))
  }

  lemma {:induction false} PassTies(k: Funding, s: seq<Funding>, w: nat)
    requires w > 0 && RunsSorted(s, w)
    ensures Ties(k, Pass(s, w)) == Ties(k, s)
    decreases |s|
  {
    hide Merge, Sorted, RunsSorted, Ties;
    if s != [] {
      var mid, right := Min(w, |s|), Min(2 * w, |s|);
      SecondRun(s, w);
      PassTies(k, s[right..], w);
      assert s == s[..mid] + (s[mid..right] + s[right..]);
      TiesOfMerged(k, s[..mid], s[mid..right], s[right..], Pass(s[right..], w));
    }
  }

  lemma TiesOfMerged(k: Funding, a: seq<Funding>, b: seq<Funding>, rest: seq<Funding>, passed: seq<Funding>)
    requires Sorted(a) && Ties(k, passed) == Ties(k, rest)
    ensures Ties(k, Merge(a, b) + passed) == Ties(k, a + (b + rest))
  {
    hide Ties, Merge, Sorted;
    MergeTies(k, a, b);
    TiesConcat(k, Merge(a, b), passed);
    TiesConcat(k, a, b + rest);
    TiesConcat(k, b, rest);
  }

  /** The two runs a pass merges first are sorted, and so are the runs after them. */
  lemma SecondRun(s: seq<Funding>, w: nat)
    requires w > 0 && s != [] && RunsSorted(s, w)
    ensures var mid, right := Min(w, |s|), Min(2 * w, |s|);
            Sorted(s[..mid]) && Sorted(s[mid..right]) && RunsSorted(s[right..], w)
  {
    var mid, right := Min(w, |s|), Min(2 * w, |s|);
    var t := s[mid..];
    if t != [] {
      assert t[..Min(w, |t|)] == s[mid..right] && t[Min(w, |t|)..] == s[right..];
    } else {
      assert s[mid..right] == [] && s[right..] == [];
    }
  }

  lemma {:induction false} PassSorts(s: seq<Funding>, w: nat)
    requires w > 0 && RunsSorted(s, w)
    ensures RunsSorted(Pass(s, w), 2 * w)
    decreases |s|
  {
    if s != [] {
      var mid, right := Min(w, |s|), Min(2 * w, |s|);
      SecondRun(s, w);
      MergeSorted(s[..mid], s[mid..right]);
      PassSorts(s[right..], w);
      var m, rest := Merge(s[..mid], s[mid..right]), Pass(s[right..], w);
      assert |m| == right && Min(2 * w, |s|) == right;
      assert (m + rest)[..right] == m && (m + rest)[right..] == rest;
    }
  }

  lemma {:induction false} SingleRuns(s: seq<Funding>)
    ensures RunsSorted(s, 1)
  {
    if s != [] { SingleRuns(s[1..]); }
  }

  // ---- the loops ----------------------------------------------------------

  /** The two-sided loop: stops when one run is used up, and says what is left to copy. */
  method MergeHeads(arr: array<Funding>, tmp: array<Funding>, left: nat, mid: nat, right: nat, ghost s: seq<Funding>)
    returns (l: nat, r: nat, k: nat, ghost done: seq<Funding>)
    requires arr != tmp && left <= mid <= right <= arr.Length == tmp.Length && arr[..] == s
    modifies tmp
    ensures left <= l <= mid <= r <= right && k - left == (l - left) + (r - mid)
    ensures tmp[..k] == old(tmp[..left]) + done
    ensures done + (s[l..mid] + s[r..right]) == Merge(s[left..mid], s[mid..right])
  {
    hide Merge, Leq;
    l, r, k, done := left, mid, left, [];
    while l < mid && r < right
      invariant left <= l <= mid <= r <= right && k - left == (l - left) + (r - mid)
      invariant tmp[..k] == old(tmp[..left]) + done
      invariant done + Merge(s[l..mid], s[r..right]) == Merge(s[left..mid], s[mid..right])
      decreases right - k
    {
      HeadStep(s, done, l, mid, r, right);
      if Leq(arr[l], arr[r]) {
        tmp[k] := arr[l];
        done := done + [s[l]];
        l := l + 1;
      } else {
        tmp[k] := arr[r];
        done := done + [s[r]];
        r := r + 1;
      }
      k := k + 1;
    }
    MergeEmpty(s[l..mid], s[r..right]);
  }

  lemma MergeEmpty(a: seq<Funding>, b: seq<Funding>)
    requires a == [] || b == []
    ensures Merge(a, b) == a + b
  {
  }

  lemma MergeSlices(s: seq<Funding>, l: nat, mid: nat, r: nat, right: nat)
    requires l < mid <= r < right <= |s|
    ensures Merge(s[l..mid], s[r..right]) ==
      if Leq(s[l], s[r]) then [s[l]] + Merge(s[l + 1..mid], s[r..right]) else [s[r]] + Merge(s[l..mid], s[r + 1..right])
  {
    assert s[l..mid][1..] == s[l + 1..mid] && s[r..right][1..] == s[r + 1..right];
  }

  lemma HeadStep(s: seq<Funding>, done: seq<Funding>, l: nat, mid: nat, r: nat, right: nat)
    requires l < mid <= r < right <= |s|
    ensures done + Merge(s[l..mid], s[r..right]) ==
      if Leq(s[l], s[r]) then (done + [s[l]]) + Merge(s[l + 1..mid], s[r..right])
      else (done + [s[r]]) + Merge(s[l..mid], s[r + 1..right])
  {
    hide *;
    MergeSlices(s, l, mid, r, right);
    MoveBlock(done, [s[l]], Merge(s[l + 1..mid], s[r..right]));
    MoveBlock(done, [s[r]], Merge(s[l..mid], s[r + 1..right]));
  }

  method MergeRuns(arr: array<Funding>, tmp: array<Funding>, left: nat, mid: nat, right: nat, ghost s: seq<Funding>)
    requires arr != tmp && left <= mid <= right <= arr.Length == tmp.Length && arr[..] == s
    modifies tmp
    ensures tmp[..right] == old(tmp[..left]) + Merge(s[left..mid], s[mid..right])
  {
    hide Merge;
    ghost var base := tmp[..left];
    var l, r, k, done := MergeHeads(arr, tmp, left, mid, right, s);
    CopyRun(arr, tmp, l, mid, k, s);
    CopyRun(arr, tmp, r, right, k + (mid - l), s);
    assert base + (done + (s[l..mid] + s[r..right])) == base + done + s[l..mid] + s[r..right];
  }

  method CopyRun(arr: array<Funding>, tmp: array<Funding>, from: nat, to: nat, at: nat, ghost s: seq<Funding>)
    requires arr != tmp && from <= to <= arr.Length == tmp.Length && at + (to - from) <= tmp.Length && arr[..] == s
    modifies tmp
    ensures tmp[..at + (to - from)] == old(tmp[..at]) + s[from..to]
  {
    var l, k := from, at;
    while l < to
      invariant from <= l <= to && k - at == l - from
      invariant tmp[..k] == old(tmp[..at]) + s[from..l]
    {
      tmp[k] := arr[l];
      l, k := l + 1, k + 1;
    }
  }

  method MergePass(arr: array<Funding>, tmp: array<Funding>, w: nat)
    requires arr != tmp && arr.Length == tmp.Length && w > 0
    modifies tmp
    ensures tmp[..] == Pass(arr[..], w)
  {
    var n, i := arr.Length, 0;
    ghost var s := arr[..];
    assert s[0..] == s && (n <= 0 ==> s == []);
    ghost var done: seq<Funding> := [];
    hide Merge, Pass;
    while i < n
      invariant 0 <= i && arr[..] == s
      invariant tmp[..Min(i, n)] == done
      invariant done + Pass(s[Min(i, n)..], w) == Pass(s, w)
    {
      var mid, right := Min(i + w, n), Min(i + 2 * w, n);
      PassStep(s, i, w);
      MergeRuns(arr, tmp, i, mid, right, s);
      ghost var merged := Merge(s[i..mid], s[mid..right]);
      MoveBlock(done, merged, Pass(s[right..], w));
      done := done + merged;
      i := i + 2 * w;
      assert right == Min(i, n);
    }
    PassNothing(w);
    assert s[n..] == [] && tmp[..n] == tmp[..] && done + [] == done;
  }

  lemma MoveBlock(done: seq<Funding>, block: seq<Funding>, rest: seq<Funding>)
    ensures done + (block + rest) == (done + block) + rest
  {
  }

  lemma PassNothing(w: nat)
    requires w > 0
    ensures Pass([], w) == []
  {
  }

  lemma PassStep(s: seq<Funding>, i: nat, w: nat)
    requires w > 0 && i < |s|
    ensures var mid, right := Min(i + w, |s|), Min(i + 2 * w, |s|);
            Pass(s[i..], w) == Merge(s[i..mid], s[mid..right]) + Pass(s[right..], w)
  {
    hide Merge;
    var rest := s[i..];
    var mid, right := Min(i + w, |s|), Min(i + 2 * w, |s|);
    SliceOf(s, i, 0, mid - i);
    SliceOf(s, i, mid - i, right - i);
    assert Min(w, |rest|) == mid - i && Min(2 * w, |rest|) == right - i;
  }

  lemma SliceOf(s: seq<Funding>, i: nat, a: nat, b: nat)
    requires a <= b && i + b <= |s|
    ensures s[i..][a..b] == s[i + a..i + b] && s[i..][b..] == s[i + b..]
  {
  }

  /** One pass with its copy back: the runs are twice as wide, and no tie has moved. */
  method SortPass(arr: array<Funding>, tmp: array<Funding>, w: nat)
    requires arr != tmp && arr.Length == tmp.Length && w > 0 && RunsSorted(arr[..], w)
    modifies arr, tmp
    ensures RunsSorted(arr[..], 2 * w) && SameTies(arr[..], old(arr[..]))
  {
    ghost var before := arr[..];
    MergePass(arr, tmp, w);
    PassSorts(before, w);
    forall k ensures Ties(k, Pass(before, w)) == Ties(k, before) { PassTies(k, before, w); }
    ghost var passed := Pass(before, w);
    assert SameTies(passed, before) && RunsSorted(passed, 2 * w) && tmp[..] == passed;
    hide *;
    forall i | 0 <= i < arr.Length { arr[i] := tmp[i]; }
    assert arr[..] == passed;
  }

  /** The bottom-up merge sort: doubling run widths until one run is left. */
  method StableSort(arr: array<Funding>)
    modifies arr
    ensures arr[..] == StableSorted(old(arr[..]))
  {
    ghost var was := arr[..];
    var n := arr.Length;
    ReferenceStable(was);
    if n >= 2 {
      var tmp := new Funding[n](i => Funding("", 0, 0, false));
      var w := 1;
      SingleRuns(was);
      hide StableSorted, RunsSorted, Ties;
      while w < n
        invariant w > 0 && RunsSorted(arr[..], w) && SameTies(arr[..], was)
        decreases n - w
      {
        SortPass(arr, tmp, w);
        w := w * 2;
      }
      OneRun(arr[..], w);
    }
    StableSortUnique(arr[..], StableSorted(was));
  }

  lemma OneRun(s: seq<Funding>, w: nat)
    requires w > 0 && |s| <= w && RunsSorted(s, w)
    ensures Sorted(s)
  {
    assert s[..|s|] == s;
  }

  // ---- ranking ------------------------------------------------------------

  predicate Keeps(opts: Option<RankOpts>, u: Utxo) {
    var minSats := if opts.Some? && opts.value.minSats.Some? then opts.value.minSats.value else 0;
    var confirmedOnly := opts.Some? && opts.value.confirmedOnly == Some(true);
    u.value <= MAX_MONEY && u.value >= minSats && (confirmedOnly ==> u.height > 0)
  }

  function ToFunding(u: Utxo): Funding {
    Funding(u.txHash, u.txPos, u.value, u.height > 0)
  }

  function Candidates(opts: Option<RankOpts>, utxos: seq<Utxo>): seq<Funding> {
    if utxos == [] then []
    else (if Keeps(opts, utxos[0]) then [ToFunding(utxos[0])] else []) + Candidates(opts, utxos[1..])
  }

  lemma {:induction false} CandidatesAppend(opts: Option<RankOpts>, utxos: seq<Utxo>, u: Utxo)
    ensures Candidates(opts, utxos + [u]) == Candidates(opts, utxos) + (if Keeps(opts, u) then [ToFunding(u)] else [])
  {
    if utxos == [] {
      assert utxos + [u] == [u] && [u][1..] == [];
    } else {
      CandidatesAppend(opts, utxos[1..], u);
      assert (utxos + [u])[1..] == utxos[1..] + [u];
    }
  }

  /** Confirmed before unconfirmed, larger before smaller, equals in input order, nothing lost. */
  lemma RankingMeans(opts: Option<RankOpts>, utxos: seq<Utxo>)
    ensures var kept := Candidates(opts, utxos); var ranked := StableSorted(kept);
            && multiset(ranked) == multiset(kept)
            && (forall i, j :: 0 <= i < j < |ranked| && ranked[j].confirmed ==> ranked[i].confirmed)
            && (forall i, j :: 0 <= i < j < |ranked| && ranked[i].confirmed == ranked[j].confirmed
                  ==> ranked[i].satoshis >= ranked[j].satoshis)
            && (forall k :: Ties(k, ranked) == Ties(k, kept))
  {
    var kept := Candidates(opts, utxos);
    ReferenceStable(kept);
    SortPermutes(kept);
    hide StableSorted, Candidates, Ties;
    var ranked := StableSorted(kept);
    assert forall i, j :: 0 <= i < j < |ranked| ==> Leq(ranked[i], ranked[j]);
  }

  /** The test on one coin, in its own height and value. */
  predicate Wanted(opts: Option<RankOpts>, u: Utxo) {
    && u.value <= 2_100_000_000_000_000
    && (opts.Some? && opts.value.minSats.Some? ==> u.value >= opts.value.minSats.value)
    && (opts.None? || opts.value.minSats.None? ==> u.value >= 0)
    && (opts.Some? && opts.value.confirmedOnly == Some(true) ==> u.height > 0)
  }

  /** The wanted coins of one value, confirmed or not, in input order. */
  function CoinsOf(opts: Option<RankOpts>, utxos: seq<Utxo>, confirmed: bool, value: int64): seq<Utxo> {
    if utxos == [] then []
    else
      var u := utxos[0];
      (if Wanted(opts, u) && (u.height > 0) == confirmed && u.value == value then [u] else [])
      + CoinsOf(opts, utxos[1..], confirmed, value)
  }

  /** The ranked entries of one value, confirmed or not, in rank order. */
  function EntriesOf(items: seq<Funding>, confirmed: bool, value: int64): seq<Funding> {
    if items == [] then []
    else
      (if items[0].confirmed == confirmed && items[0].satoshis == value then [items[0]] else [])
      + EntriesOf(items[1..], confirmed, value)
  }

  /** The same coins, one by one. */
  ghost predicate SameCoins(items: seq<Funding>, coins: seq<Utxo>) {
    && |items| == |coins|
    && forall i :: 0 <= i < |items| ==>
         && items[i].txId == coins[i].txHash && items[i].outputIndex == coins[i].txPos
         && items[i].satoshis == coins[i].value && (items[i].confirmed <==> coins[i].height > 0)
  }

  /** Tying with an entry is having its value and its confirmation. */
  lemma {:induction false} TiesAreEntries(k: Funding, items: seq<Funding>)
    ensures Ties(k, items) == EntriesOf(items, k.confirmed, k.satoshis)
  {
    if items != [] { TiesAreEntries(k, items[1..]); }
  }

  lemma {:induction false} EntriesAreCoins(opts: Option<RankOpts>, utxos: seq<Utxo>, confirmed: bool, value: int64)
    ensures SameCoins(EntriesOf(Candidates(opts, utxos), confirmed, value), CoinsOf(opts, utxos, confirmed, value))
  {
    if utxos != [] {
      var u, more := utxos[0], utxos[1..];
      var rest := Candidates(opts, more);
      EntriesAreCoins(opts, more, confirmed, value);
      EntriesCons(ToFunding(u), rest, confirmed, value);
      KeepsWanted(opts, u);
      assert Candidates(opts, utxos) == if Keeps(opts, u) then [ToFunding(u)] + rest else [] + rest;
      assert [] + rest == rest;
      hide EntriesOf, Candidates, Wanted, Keeps, SameCoins;
      SamePrepended(u, EntriesOf(rest, confirmed, value), CoinsOf(opts, more, confirmed, value));
      assert [] + EntriesOf(rest, confirmed, value) == EntriesOf(rest, confirmed, value);
      assert [] + CoinsOf(opts, more, confirmed, value) == CoinsOf(opts, more, confirmed, value);
    }
  }

  lemma KeepsWanted(opts: Option<RankOpts>, u: Utxo)
    ensures Keeps(opts, u) <==> Wanted(opts, u)
  {
  }

  lemma SamePrepended(u: Utxo, items: seq<Funding>, coins: seq<Utxo>)
    requires SameCoins(items, coins)
    ensures SameCoins([ToFunding(u)] + items, [u] + coins)
  {
  }

  lemma EntriesCons(x: Funding, items: seq<Funding>, confirmed: bool, value: int64)
    ensures EntriesOf([x] + items, confirmed, value) ==
      (if x.confirmed == confirmed && x.satoshis == value then [x] else []) + EntriesOf(items, confirmed, value)
  {
    assert ([x] + items)[1..] == items;
  }

  /**
   * The ranking, said of the coins themselves: for every value, confirmed or not, it holds exactly the
   * wanted coins of that value in input order; confirmed ones come first and larger ones before smaller.
   */
  lemma RankingOfCoins(opts: Option<RankOpts>, utxos: seq<Utxo>, confirmed: bool, value: int64)
    ensures var ranked := StableSorted(Candidates(opts, utxos));
            && SameCoins(EntriesOf(ranked, confirmed, value), CoinsOf(opts, utxos, confirmed, value))
            && (forall i, j :: 0 <= i < j < |ranked| && ranked[j].confirmed ==> ranked[i].confirmed)
            && (forall i, j :: 0 <= i < j < |ranked| && ranked[i].confirmed == ranked[j].confirmed
                  ==> ranked[i].satoshis >= ranked[j].satoshis)
  {
    hide StableSorted, Candidates, Ties, EntriesOf, CoinsOf, SameCoins;
    var kept := Candidates(opts, utxos);
    RankingMeans(opts, utxos);
    var k := Funding("", 0, value, confirmed);
    TiesAreEntries(k, StableSorted(kept));
    TiesAreEntries(k, kept);
    EntriesAreCoins(opts, utxos, confirmed, value);
  }

  /** The ranking is the stable sort of the kept candidates. */
  method Rank(opts: Option<RankOpts>, utxos: seq<Utxo>) returns (items: seq<Funding>)
    ensures items == StableSorted(Candidates(opts, utxos))
  {
    items := [];
    for i := 0 to |utxos|
      invariant items == Candidates(opts, utxos[..i])
    {
      assert utxos[..i + 1] == utxos[..i] + [utxos[i]];
      CandidatesAppend(opts, utxos[..i], utxos[i]);
      if Keeps(opts, utxos[i]) { items := items + [ToFunding(utxos[i])]; }
    }
    assert utxos[..|utxos|] == utxos;
    var arr := new Funding[|items|](i requires 0 <= i < |items| => items[i]);
    assert arr[..] == items;
    StableSort(arr);
    items := arr[..];
  }

  // ---- the capped total ---------------------------------------------------

  function Sum(items: seq<Funding>): int {
    if items == [] then 0 else Sum(items[..|items| - 1]) + items[|items| - 1].satoshis
  }

  ghost predicate AllInRange(items: seq<Funding>) {
    forall i :: 0 <= i < |items| ==> 0 <= items[i].satoshis <= MAX_MONEY
  }

  lemma {:induction false} SumPrefix(items: seq<Funding>, k: nat)
    requires AllInRange(items) && k <= |items|
    ensures 0 <= Sum(items[..k]) <= Sum(items)
  {
    if k == |items| {
      assert items[..k] == items;
      if k > 0 { SumPrefix(items[..k - 1], 0); assert items[..k - 1][..0] == []; }
    } else {
      assert items[..|items| - 1][..k] == items[..k];
      SumPrefix(items[..|items| - 1], k);
    }
  }

  /** Succeeds exactly when every value and the total are within the money supply. */
  method Total(items: seq<Funding>) returns (r: Result<uint64>)
    ensures r == if AllInRange(items) && Sum(items) <= MAX_MONEY then Ok(Sum(items)) else Err(ERANGE)
    ensures r.Ok? <==>
      && (forall i :: 0 <= i < |items| ==> 0 <= items[i].satoshis <= 2_100_000_000_000_000)
      && Sum(items) <= 2_100_000_000_000_000
  {
    var total := 0;
    for i := 0 to |items|
      invariant AllInRange(items[..i])
      invariant total == Sum(items[..i]) && 0 <= total <= MAX_MONEY
    {
      var v := items[i].satoshis;
      assert items[..i + 1] == items[..i] + [items[i]];
      assert items[..i + 1][..i] == items[..i];
      if v < 0 || v > MAX_MONEY { return Err(ERANGE); }
      if v > MAX_MONEY - total {
        if AllInRange(items) { SumPrefix(items, i + 1); }
        return Err(ERANGE);
      }
      total := total + v;
    }
    assert items[..|items|] == items;
    return Ok(total);
  }
}
