/** Internal keys of the integer-array index: g_int_compress and g_int_decompress. */
module IntCompress {
  import opened Machine
  import opened Sorting
  import opened IntArray
  import opened IntCover

  const MAXNUMRANGE := 100

  ghost predicate Int32s(s: seq<int>) {
    forall i :: 0 <= i < |s| ==> IsInt32(s[i])
  }

  /** Subtraction of 32-bit integers. */
  function Sub32(x: int, y: int): int {
    var d := x - y;
    if d > INT_MAX then d - 0x1_0000_0000 else if d < INT_MIN then d + 0x1_0000_0000 else d
  }

  lemma SubWraps(x: int, y: int)
    requires IsInt32(x) && IsInt32(y)
    ensures Sub32(x, y) == Wrap32(x - y)
  {
  }

  /** A gap as the 32-bit subtraction sees it. */
  ghost function Gap32(s: seq<int>, i: nat): int
    requires 1 <= i < |s|
  {
    Sub32(s[i], s[i - 1])
  }

  // Ranges over a sorted sequence

  /** Cut points of 0..n. */
  ghost predicate Bounds(b: seq<nat>, n: nat) {
    && |b| >= 2 && b[0] == 0 && b[|b| - 1] == n
    && forall i, j :: 0 <= i < j < |b| ==> b[i] < b[j]
  }

  ghost predicate RangeAt(d: seq<int>, s: seq<int>, b: seq<nat>, k: nat)
    requires Bounds(b, |s|) && |d| == 2 * (|b| - 1) && k < |b| - 1
  {
    BoundsIn(b, |s|, k);
    d[2 * k] == s[b[k]] && d[2 * k + 1] == s[b[k + 1] - 1]
  }

  lemma BoundsIn(b: seq<nat>, n: nat, k: nat)
    requires Bounds(b, n) && k < |b| - 1
    ensures b[k] < b[k + 1] <= n
  {
  }

  /** d lists, low end and high end in turn, the ranges of s between cut points. */
  ghost predicate Ranged(d: seq<int>, s: seq<int>, b: seq<nat>) {
    && Bounds(b, |s|) && |d| == 2 * (|b| - 1)
    && forall k {:trigger RangeAt(d, s, b, k)} :: 0 <= k < |b| - 1 ==> RangeAt(d, s, b, k)
  }

  lemma DropCut(b: seq<nat>, n: nat, c: nat)
    requires Bounds(b, n) && 1 <= c < |b| - 1
    ensures Bounds(b[..c] + b[c + 1..], n)
  {
  }

  /** Removing a high end and the low end after it joins two ranges. */
  lemma DropRange(d: seq<int>, s: seq<int>, b: seq<nat>, c: nat)
    requires Ranged(d, s, b) && 1 <= c < |b| - 1
    ensures Ranged(d[..2 * c - 1] + d[2 * c + 1..], s, b[..c] + b[c + 1..])
  {
    var d', b' := d[..2 * c - 1] + d[2 * c + 1..], b[..c] + b[c + 1..];
    DropCut(b, |s|, c);
    forall k | 0 <= k < |b'| - 1 ensures RangeAt(d', s, b', k) {
      if k < c {
        assert RangeAt(d, s, b, k);
        if k == c - 1 { assert RangeAt(d, s, b, c); }
      } else {
        assert RangeAt(d, s, b, k + 1);
      }
    }
  }

  /** The gap between ranges c - 1 and c, as the loop computes it. */
  ghost function GapAt(d: seq<int>, c: nat): int
    requires 1 <= c && 2 * c < |d|
  {
    Sub32(d[2 * c], d[2 * c - 1])
  }

  lemma GapIs(d: seq<int>, s: seq<int>, b: seq<nat>, c: nat)
    requires Ranged(d, s, b) && 1 <= c < |b| - 1
    ensures 1 <= b[c] < |s| && GapAt(d, c) == Gap32(s, b[c])
  {
    assert RangeAt(d, s, b, c) && RangeAt(d, s, b, c - 1);
    BoundsIn(b, |s|, c);
  }

  /** Three kept gaps cannot all look as wide as the initial minimum. */
  lemma SomeNarrow(d: seq<int>, s: seq<int>, b: seq<nat>) returns (c: nat)
    requires Ranged(d, s, b) && Strict(s) && Int32s(s) && |b| > 4
    ensures 1 <= c < |b| - 1 && GapAt(d, c) < INT_MAX
  {
    GapIs(d, s, b, 1);
    GapIs(d, s, b, 2);
    GapIs(d, s, b, 3);
    assert b[1] < b[2] < b[3];
    assert s[b[1]] <= s[b[2] - 1] && s[b[2]] <= s[b[3] - 1];
    assert IsInt32(s[b[1] - 1]) && IsInt32(s[b[3]]);
    c := if GapAt(d, 1) < INT_MAX then 1 else if GapAt(d, 2) < INT_MAX then 2 else 3;
  }

  // The compress loop

  ghost function Cuts(b: seq<nat>): set<nat>
    requires |b| >= 2
  {
    Elems(b[1..|b| - 1])
  }

  ghost predicate Threshold32(s: seq<int>, keep: set<nat>, t: int) {
    forall i {:trigger Gap32(s, i)} :: 1 <= i < |s| ==> if i in keep then Gap32(s, i) >= t else Gap32(s, i) <= t
  }

  /** d holds ranges over s, and only gaps no wider than t have been closed. */
  ghost predicate Merged(d: seq<int>, s: seq<int>, b: seq<nat>, t: int) {
    Ranged(d, s, b) && Threshold32(s, Cuts(b), t)
  }

  lemma DropElem(s: seq<nat>, j: nat)
    requires j < |s| && forall i, k :: 0 <= i < k < |s| ==> s[i] < s[k]
    ensures Elems(s[..j] + s[j + 1..]) == Elems(s) - {s[j]}
  {
    var r := s[..j] + s[j + 1..];
    forall x | x in r ensures x in s && x != s[j] {
      var i :| 0 <= i < |r| && r[i] == x;
      assert x == s[if i < j then i else i + 1];
    }
    forall x | x in s && x != s[j] ensures x in r {
      var i :| 0 <= i < |s| && s[i] == x;
      assert x == r[if i < j then i else i - 1];
    }
  }

  lemma DropCuts(b: seq<nat>, n: nat, c: nat)
    requires Bounds(b, n) && 1 <= c < |b| - 1
    ensures Cuts(b[..c] + b[c + 1..]) == Cuts(b) - {b[c]}
  {
    var inner := b[1..|b| - 1];
    assert (b[..c] + b[c + 1..])[1..|b| - 2] == inner[..c - 1] + inner[c..];
    DropElem(inner, c - 1);
  }

  lemma CutIs(b: seq<nat>, n: nat, i: nat) returns (c: nat)
    requires Bounds(b, n) && i in Cuts(b)
    ensures 1 <= c < |b| - 1 && b[c] == i
  {
    var inner := b[1..|b| - 1];
    var k :| 0 <= k < |inner| && inner[k] == i;
    c := k + 1;
  }

  lemma MergeStep(d: seq<int>, s: seq<int>, b: seq<nat>, t: int, c: nat)
    requires Merged(d, s, b, t) && 1 <= c < |b| - 1
    requires forall k {:trigger GapAt(d, k)} :: 1 <= k < |b| - 1 ==> GapAt(d, c) <= GapAt(d, k)
    ensures Merged(d[..2 * c - 1] + d[2 * c + 1..], s, b[..c] + b[c + 1..], GapAt(d, c))
  {
    DropRange(d, s, b, c);
    DropCuts(b, |s|, c);
    GapIs(d, s, b, c);
    var keep := Cuts(b) - {b[c]};
    assert b[c] in Cuts(b) by { assert b[1..|b| - 1][c - 1] == b[c]; }
    forall i | 1 <= i < |s| ensures if i in keep then Gap32(s, i) >= GapAt(d, c) else Gap32(s, i) <= GapAt(d, c) {
      if i in keep {
        var k := CutIs(b, |s|, i);
        GapIs(d, s, b, k);
      } else if i != b[c] {
        assert Gap32(s, i) <= t <= Gap32(s, b[c]);
      }
    }
  }

  /** The search for the narrowest gap; min starts at the largest integer. */
  method Narrowest(dr: array<int>, len: nat, stale: nat) returns (cand: nat)
    requires len % 2 == 0 && len <= dr.Length
    requires exists k {:trigger GapAt(dr[..len], k)} :: 1 <= k && 2 * k < len && GapAt(dr[..len], k) < INT_MAX
    ensures cand % 2 == 0 && 2 <= cand < len
    ensures forall k {:trigger GapAt(dr[..len], k)} :: 1 <= k && 2 * k < len ==>
      GapAt(dr[..len], cand / 2) <= GapAt(dr[..len], k)
  {
    ghost var d := dr[..len];
    var min := INT_MAX;
    cand := stale;
    ghost var c := 0;
    var i := 2;
    ghost var m := 1;
    while i < len
      invariant i == 2 * m && 1 <= m && i <= len + 2
      invariant forall k {:trigger GapAt(d, k)} :: 1 <= k < m && 2 * k < len ==> min <= GapAt(d, k)
      invariant min < INT_MAX ==> 1 <= c && cand == 2 * c < len && min == GapAt(d, c)
      invariant min <= INT_MAX
    {
      assert Sub32(dr[i], dr[i - 1]) == GapAt(d, m);
      if min > Sub32(dr[i], dr[i - 1]) {
        min := Sub32(dr[i], dr[i - 1]);
        cand, c := i, m;
      }
      i, m := i + 2, m + 1;
    }
    ghost var k :| 1 <= k && 2 * k < len && GapAt(d, k) < INT_MAX;
    assert cand / 2 == c;
  }

  method MemMove(a: array<int>, to: nat, from: nat, count: nat)
    requires to + count <= a.Length && from + count <= a.Length
    modifies a
    ensures a[..] == old(a[..to] + a[from..from + count] + a[to + count..])
  {
    forall k | 0 <= k < count {
      a[to + k] := a[from + k];
    }
  }

  /** One round: the narrowest gap is closed. */
  method MergeOne(dr: array<int>, len: nat, stale: nat, ghost s: seq<int>, ghost b: seq<nat>, ghost t: int)
    returns (cand: nat, ghost b': seq<nat>, ghost t': int)
    requires len <= dr.Length && Merged(dr[..len], s, b, t) && Strict(s) && Int32s(s) && |b| > 4
    modifies dr
    ensures |b'| == |b| - 1 && len >= 2 && Merged(dr[..len - 2], s, b', t')
  {
    ghost var d := dr[..len];
    ghost var c := SomeNarrow(d, s, b);
    assert GapAt(d, c) < INT_MAX;
    cand := Narrowest(dr, len, stale);
    c := cand / 2;
    MemMove(dr, cand - 1, cand + 1, len - cand - 1);
    b', t' := b[..c] + b[c + 1..], GapAt(d, c);
    assert dr[..len - 2] == d[..2 * c - 1] + d[2 * c + 1..];
    MergeStep(d, s, b, t, c);
  }

  // Doubling every element in place

  method Double(dr: array<int>, len: nat, ghost s: seq<int>)
    requires dr.Length >= 2 * len && |s| == len && dr[..len] == s
    modifies dr
    ensures forall k :: 0 <= k < len ==> dr[2 * k] == s[k] && dr[2 * k + 1] == s[k]
  {
    var i := len;
    while i > 0
      invariant 0 <= i <= len
      invariant forall k :: 0 <= k < i ==> dr[k] == s[k]
      invariant forall k {:trigger s[k]} :: i <= k < len ==> dr[2 * k] == s[k] && dr[2 * k + 1] == s[k]
    {
      i := i - 1;
      var x := dr[i];
      dr[2 * i], dr[2 * i + 1] := x, x;
    }
  }

  ghost function Upto(n: nat): (b: seq<nat>)
    ensures |b| == n + 1 && forall i :: 0 <= i <= n ==> b[i] == i
  {
    seq(n + 1, i requires 0 <= i => i)
  }

  lemma DoubledIsRanged(d: seq<int>, s: seq<int>)
    requires |s| >= 1 && |d| == 2 * |s| && Int32s(s)
    requires forall k :: 0 <= k < |s| ==> d[2 * k] == s[k] && d[2 * k + 1] == s[k]
    ensures Merged(d, s, Upto(|s|), INT_MIN)
  {
    var b := Upto(|s|);
    forall k | 0 <= k < |b| - 1 ensures RangeAt(d, s, b, k) {
      assert d[2 * k] == s[k];
    }
    forall i | 1 <= i < |s| ensures i in Cuts(b) && Gap32(s, i) >= INT_MIN {
      assert b[1..|b| - 1][i - 1] == i;
      assert IsInt32(s[i]) && IsInt32(s[i - 1]);
    }
  }

  /** The merge loop. */
  method MergeAll(dr: array<int>, len0: nat, ghost s: seq<int>, ghost b0: seq<nat>, ghost t0: int)
    returns (len: nat, ghost b: seq<nat>, ghost t: int)
    requires 2 * MAXNUMRANGE <= len0 <= dr.Length && Merged(dr[..len0], s, b0, t0) && Strict(s) && Int32s(s)
    modifies dr
    ensures len == 2 * MAXNUMRANGE && Merged(dr[..len], s, b, t)
  {
    len, b, t := len0, b0, t0;
    var cand := 1;
    while len > 2 * MAXNUMRANGE
      invariant 2 * MAXNUMRANGE <= len <= dr.Length && len % 2 == 0 && Merged(dr[..len], s, b, t)
    {
      cand, b, t := MergeOne(dr, len, cand, s, b, t);
      len := len - 2;
    }
  }

  const ARR_OVERHEAD := 24 // ARR_OVERHEAD_NONULLS(NDIM)

  /** The byte count new_intArrayType computes, in 32 bits. */
  function ArrayBytes(num: int): int { Wrap32(ARR_OVERHEAD + 4 * num) }

  /** palloc takes the count for an unsigned one and refuses too large ones. */
  predicate Granted(nbytes: int) { 0 <= nbytes <= MAX_ALLOC_SIZE }

  /** How many elements a granted array has room for. */
  function Room(nbytes: int): nat { if nbytes < ARR_OVERHEAD then 0 else (nbytes - ARR_OVERHEAD) / 4 }

  const MAX_INTS := 268435449 // (MAX_ALLOC_SIZE - ARR_OVERHEAD) / 4

  /** The array allocated for n integers exists and holds them exactly when palloc could give that many. */
  lemma RoomExact(n: nat)
    ensures var nbytes := ArrayBytes(Wrap32(n)); n > 0 ==> (Granted(nbytes) && n <= Room(nbytes) <==> n <= MAX_INTS)
    ensures n <= MAX_INTS ==> Granted(ArrayBytes(Wrap32(n))) && Room(ArrayBytes(Wrap32(n))) == n
  {
    if n <= MAX_INTS {
      WrapSmall(n);
      WrapSmall(ARR_OVERHEAD + 4 * n);
    }
  }

  /**
    What decompression comes to: a key, an error from palloc, or neither, because the code
    then reads or writes outside an array or its loop does not end.
   */
  datatype Outcome = Key(key: seq<int>) | Refused | Undefined

  /** The key doubled in place and cut to 100 ranges. */
  method CompressIn(dr: array<int>, s: seq<int>) returns (c: seq<int>, ghost b: seq<nat>, ghost t: int)
    requires Strict(s) && Int32s(s) && |s| >= 2 * MAXNUMRANGE && dr.Length >= 2 * |s| && dr[..|s|] == s
    modifies dr
    ensures |c| == 2 * MAXNUMRANGE && Merged(c, s, b, t)
  {
    var len := |s|;
    Double(dr, len, s);
    b, t := Upto(len), INT_MIN;
    len := 2 * len;
    DoubledIsRanged(dr[..len], s);
    len, b, t := MergeAll(dr, len, s, b, t);
    c := dr[..len];
  }

  /** g_int_compress of an internal key; the array of twice the length is a new allocation. */
  method Compress(s: seq<int>) returns (r: Outcome, ghost b: seq<nat>, ghost t: int)
    requires Strict(s) && Int32s(s)
    ensures |s| < 2 * MAXNUMRANGE ==> r == Key(s)
    ensures |s| >= 2 * MAXNUMRANGE ==> (r.Key? <==> 2 * |s| <= MAX_INTS)
    ensures |s| >= 2 * MAXNUMRANGE && r.Key? ==> |r.key| == 2 * MAXNUMRANGE && Merged(r.key, s, b, t)
  {
    b, t := [], 0;
    if |s| < 2 * MAXNUMRANGE {
      return Key(s), b, t;
    }
    var nbytes := ArrayBytes(Wrap32(2 * |s|));
    RoomExact(2 * |s|);
    if !Granted(nbytes) {
      return Refused, b, t;
    }
    if Room(nbytes) < 2 * |s| {
      return Undefined, b, t; // doubling would write behind the array
    }
    var dr := new int[Room(nbytes)](i requires 0 <= i => if i < |s| then s[i] else 0);
    assert dr[..|s|] == s;
    var c;
    c, b, t := CompressIn(dr, s);
    r := Key(c);
  }

  // Decompression

  function Span(lo: int, hi: int): (r: seq<int>)
    requires lo <= hi + 1
    ensures |r| == hi - lo + 1 && forall i :: 0 <= i < |r| ==> r[i] == lo + i
  {
    seq(hi - lo + 1, i requires 0 <= i => lo + i)
  }

  ghost predicate LoHi(d: seq<int>, k: nat)
    requires 2 * k + 1 < |d|
  {
    d[2 * k] <= d[2 * k + 1] && (k > 0 ==> d[2 * k - 1] < d[2 * k])
  }

  /** Ranges in order and apart; a last element without a partner may follow. */
  ghost predicate RangeList(d: seq<int>) {
    forall k {:trigger LoHi(d, k)} :: 0 <= k && 2 * k + 1 < |d| ==> LoHi(d, k)
  }

  /** The integers of the first k ranges. */
  ghost function Expand(d: seq<int>, k: nat): (r: seq<int>)
    requires RangeList(d) && 2 * k <= |d|
    ensures k > 0 ==> r != [] && r[|r| - 1] == d[2 * k - 1]
  {
    if k == 0 then [] else
      assert LoHi(d, k - 1);
      Expand(d, k - 1) + Span(d[2 * k - 2], d[2 * k - 1])
  }

  /** How many integers a key stands for. */
  ghost function Extent(d: seq<int>): nat
    requires RangeList(d)
  {
    |Expand(d, |d| / 2)|
  }

  lemma {:induction false} ExpandStrict(d: seq<int>, k: nat)
    requires RangeList(d) && 2 * k <= |d|
    ensures Strict(Expand(d, k))
  {
    if k > 0 {
      ExpandStrict(d, k - 1);
      assert LoHi(d, k - 1);
      var e := Expand(d, k - 1);
      assert k > 1 ==> forall i :: 0 <= i < |e| ==> e[i] <= e[|e| - 1];
    }
  }

  /** internal_size, added up in 32 bits. */
  method InternalSize(a: seq<int>) returns (size: int)
    requires RangeList(a) && |a| % 2 == 0
    ensures size == Wrap32(Extent(a))
  {
    size := 0;
    var i := 0;
    ghost var k := 0;
    while i < |a|
      invariant i == 2 * k <= |a|
      invariant size == Wrap32(|Expand(a, k)|)
    {
      assert LoHi(a, k);
      if i == 0 || a[i] != a[i - 1] {
        WrapAdd(|Expand(a, k)|, a[i + 1] - a[i] + 1);
        size := Wrap32(size + (a[i + 1] - a[i] + 1));
      }
      i, k := i + 2, k + 1;
    }
  }

  ghost function ReadBack(c: seq<int>): Outcome
    requires RangeList(c)
  {
    if |c| < 2 * MAXNUMRANGE then Key(c)
    else if |c| % 2 == 1 then Undefined
    else if !Granted(ArrayBytes(Wrap32(Extent(c)))) then Refused
    else if Extent(c) <= MAX_INTS && c[|c| - 1] < INT_MAX then Key(Expand(c, |c| / 2))
    else Undefined
  }

  /** One range written out with a 32-bit counter; the test skips an integer equal to the last one written. */
  method WriteRange(dr: array<int>, p: nat, lo: int, hi: int, first: bool) returns (p': nat)
    requires INT_MIN <= lo <= hi < INT_MAX && p + (hi - lo + 1) <= dr.Length
    requires first || (p > 0 && dr[p - 1] < lo)
    modifies dr
    ensures p' == p + (hi - lo + 1) && dr[..p'] == old(dr[..p]) + Span(lo, hi)
  {
    p' := p;
    ghost var front := dr[..p];
    var j := lo;
    assert dr[..p'] == front + Span(lo, j - 1);
    while j <= hi
      invariant lo <= j <= hi + 1 && p' == p + (j - lo) && dr[..p'] == front + Span(lo, j - 1)
      invariant first || (p' > 0 && dr[p' - 1] < j)
    {
      if first || dr[p' - 1] != j {
        dr[p'] := j;
        p' := p' + 1;
      }
      assert Span(lo, j) == Span(lo, j - 1) + [j];
      WrapSmall(j + 1);
      j := Wrap32(j + 1);
    }
  }

  /** One range, if its counter can pass it and the array has room. */
  method WriteNext(dr: array<int>, p: nat, c: seq<int>, i: nat, ghost k: nat) returns (ok: bool, p': nat)
    requires RangeList(c) && Int32s(c) && i == 2 * k && i + 1 < |c| && p <= dr.Length && dr[..p] == Expand(c, k)
    modifies dr
    ensures ok <==> c[i + 1] < INT_MAX && |Expand(c, k + 1)| <= dr.Length
    ensures ok ==> p' <= dr.Length && dr[..p'] == Expand(c, k + 1)
  {
    ExpandNext(c, k);
    assert k > 0 ==> dr[p - 1] == dr[..p][p - 1];
    ok, p' := c[i + 1] < INT_MAX && p + (c[i + 1] - c[i] + 1) <= dr.Length, p;
    if ok {
      p' := WriteRange(dr, p, c[i], c[i + 1], i == 0);
    }
  }

  /** k ranges have been written. */
  ghost predicate Done(c: seq<int>, k: nat, front: seq<int>)
    requires RangeList(c)
  {
    2 * k <= |c| && front == Expand(c, k) && (k > 0 ==> c[2 * k - 1] < INT_MAX)
  }

  /** All ranges, as long as each can be written. */
  method WriteAll(dr: array<int>, c: seq<int>) returns (ok: bool, p: nat)
    requires RangeList(c) && Int32s(c) && |c| % 2 == 0 && c != []
    modifies dr
    ensures ok <==> c[|c| - 1] < INT_MAX && Extent(c) <= dr.Length
    ensures ok ==> p <= dr.Length && dr[..p] == Expand(c, |c| / 2)
  {
    var i := 0;
    ok, p := true, 0;
    ghost var k := 0;
    while i < |c|
      invariant i == 2 * k && p <= dr.Length && Done(c, k, dr[..p])
    {
      ok, p := WriteNext(dr, p, c, i, k);
      if !ok {
        NotWritten(dr.Length, c, k);
        return;
      }
      i, k := i + 2, k + 1;
    }
  }

  lemma NotWritten(room: nat, c: seq<int>, k: nat)
    requires RangeList(c) && |c| % 2 == 0 && 2 * k < |c| && Int32s(c)
    requires c[2 * k + 1] == INT_MAX || |Expand(c, k + 1)| > room
    ensures c[|c| - 1] == INT_MAX || Extent(c) > room
  {
    var last := |c| - 1;
    ExpandGrows(c, k + 1, |c| / 2);
    HighEnds(c, k);
    assert IsInt32(c[last]);
  }

  lemma {:induction false} HighEnds(c: seq<int>, k: nat)
    requires RangeList(c) && |c| % 2 == 0 && 2 * k < |c|
    ensures c[2 * k + 1] <= c[|c| - 1]
    decreases |c| - 2 * k
  {
    if 2 * k + 2 < |c| {
      assert LoHi(c, k + 1);
      HighEnds(c, k + 1);
    }
  }

  /** g_int_decompress */
  method Decompress(c: seq<int>) returns (r: Outcome)
    requires RangeList(c) && Int32s(c)
    ensures r == ReadBack(c)
  {
    if |c| < 2 * MAXNUMRANGE {
      return Key(c);
    }
    if |c| % 2 == 1 {
      return Undefined; // the last range has no high end inside the key
    }
    var lenr := InternalSize(c);
    var nbytes := ArrayBytes(lenr);
    if !Granted(nbytes) {
      return Refused;
    }
    var dr := new int[Room(nbytes)];
    RoomExact(Extent(c));
    ExpandGrows(c, 1, |c| / 2);
    var ok, p := WriteAll(dr, c);
    r := if ok then Key(dr[..p]) else Undefined;
  }

  lemma {:induction false} ExpandGrows(d: seq<int>, k: nat, m: nat)
    requires RangeList(d) && k <= m && 2 * m <= |d|
    ensures |Expand(d, k)| <= |Expand(d, m)|
  {
    if k < m { ExpandGrows(d, k, m - 1); }
  }

  lemma ExpandNext(d: seq<int>, k: nat)
    requires RangeList(d) && 2 * k + 1 < |d|
    ensures d[2 * k] <= d[2 * k + 1] && (k > 0 ==> Expand(d, k) != [] && Expand(d, k)[|Expand(d, k)| - 1] < d[2 * k])
    ensures Expand(d, k + 1) == Expand(d, k) + Span(d[2 * k], d[2 * k + 1])
  {
    assert LoHi(d, k);
    ExpandUnfold(d, k, k + 1);
  }

  lemma {:induction false} ExpandUnfold(d: seq<int>, k: nat, n: nat)
    requires RangeList(d) && n == k + 1 && 2 * n <= |d|
    ensures LoHi(d, k) && Expand(d, n) == Expand(d, k) + Span(d[2 * k], d[2 * k + 1])
  {
    assert LoHi(d, k);
    assert n - 1 == k && 2 * n - 2 == 2 * k && 2 * n - 1 == 2 * k + 1;
  }

  // What an internal key holds

  /** A compressed key is a list of ranges that ends where the elements end. */
  lemma RangedIsList(d: seq<int>, s: seq<int>, b: seq<nat>)
    requires Ranged(d, s, b) && Strict(s) && Int32s(s)
    ensures RangeList(d) && Int32s(d) && d != [] && s != [] && d[|d| - 1] == s[|s| - 1]
  {
    assert RangeAt(d, s, b, |b| - 2);
    forall i | 0 <= i < |d| ensures IsInt32(d[i]) {
      assert RangeAt(d, s, b, i / 2);
      BoundsIn(b, |s|, i / 2);
    }
    forall k | 0 <= k && 2 * k + 1 < |d| ensures LoHi(d, k) {
      assert RangeAt(d, s, b, k);
      BoundsIn(b, |s|, k);
      if k > 0 { assert RangeAt(d, s, b, k - 1); }
    }
  }

  lemma {:induction false} FillRun(s: seq<int>, keep: set<nat>, i: nat, j: nat)
    requires Strict(s) && 1 <= i <= j <= |s| && forall k :: i <= k < j ==> k !in keep
    ensures Fill(s, keep, j) == Fill(s, keep, i) + Interval(s[i - 1] + 1, s[j - 1])
  {
    if i == j {
      assert Interval(s[i - 1] + 1, s[j - 1]) == {};
    } else {
      FillRun(s, keep, i, j - 1);
      assert Interval(s[i - 1] + 1, s[j - 1]) == Interval(s[i - 1] + 1, s[j - 2]) + Interval(s[j - 2] + 1, s[j - 1]);
    }
  }

  lemma BetweenCuts(b: seq<nat>, n: nat, k: nat, x: nat)
    requires Bounds(b, n) && k < |b| - 1 && b[k] < x < b[k + 1]
    ensures x !in Cuts(b)
  {
    if x in Cuts(b) {
      var c := CutIs(b, n, x);
    }
  }

  lemma SpanElems(lo: int, hi: int)
    requires lo <= hi
    ensures Elems(Span(lo, hi)) == {lo} + Interval(lo + 1, hi)
  {
    var r := Span(lo, hi);
    forall x | lo <= x <= hi ensures x in r {
      assert r[x - lo] == x;
    }
  }

  lemma {:induction false} FillFirst(s: seq<int>, b: seq<nat>, k: nat)
    requires Strict(s) && Bounds(b, |s|) && k < |b| - 1 && b[k] < |s|
    ensures Fill(s, Cuts(b), b[k] + 1) == Fill(s, Cuts(b), b[k]) + {s[b[k]]}
  {
    if k > 0 { assert b[1..|b| - 1][k - 1] == b[k]; }
  }

  lemma {:induction false} FillRest(s: seq<int>, b: seq<nat>, k: nat)
    requires Strict(s) && Bounds(b, |s|) && k < |b| - 1
    ensures b[k] < b[k + 1] <= |s|
    ensures Fill(s, Cuts(b), b[k + 1]) == Fill(s, Cuts(b), b[k] + 1) + Interval(s[b[k]] + 1, s[b[k + 1] - 1])
  {
    BoundsIn(b, |s|, k);
    forall x: nat | b[k] + 1 <= x < b[k + 1] ensures x !in Cuts(b) { BetweenCuts(b, |s|, k, x); }
    FillRun(s, Cuts(b), b[k] + 1, b[k + 1]);
  }

  lemma JoinSets(f: set<int>, x: set<int>, i: set<int>, g: set<int>, h: set<int>)
    requires g == f + x && h == g + i
    ensures h == f + (x + i)
  {
  }

  /** One range of a key fills the stretch between its cut points. */
  lemma {:induction false} FillRange(s: seq<int>, b: seq<nat>, k: nat, lo: int, hi: int)
    requires Strict(s) && Bounds(b, |s|) && k < |b| - 1 && b[k] < b[k + 1] <= |s|
    requires lo == s[b[k]] && hi == s[b[k + 1] - 1]
    ensures lo <= hi && Fill(s, Cuts(b), b[k + 1]) == Fill(s, Cuts(b), b[k]) + Elems(Span(lo, hi))
  {
    FillFirst(s, b, k);
    FillRest(s, b, k);
    SpanElems(lo, hi);
    JoinSets(Fill(s, Cuts(b), b[k]), {lo}, Interval(lo + 1, hi),
             Fill(s, Cuts(b), b[k] + 1), Fill(s, Cuts(b), b[k + 1]));
  }

  lemma ElemsJoin(x: seq<int>, y: seq<int>)
    ensures Elems(x + y) == Elems(x) + Elems(y)
  {
  }

  lemma {:induction false} ExpandFills(d: seq<int>, s: seq<int>, b: seq<nat>, k: nat)
    requires Ranged(d, s, b) && Strict(s) && RangeList(d) && k < |b|
    ensures b[k] <= |s| && Elems(Expand(d, k)) == Fill(s, Cuts(b), b[k])
  {
    if k > 0 {
      ExpandFills(d, s, b, k - 1);
      BoundsIn(b, |s|, k - 1);
      assert RangeAt(d, s, b, k - 1) && LoHi(d, k - 1);
      var lo, hi := d[2 * k - 2], d[2 * k - 1];
      FillRange(s, b, k - 1, lo, hi);
      ElemsJoin(Expand(d, k - 1), Span(lo, hi));
    }
  }

  /** e holds all of s in at most m ranges, and no set that does so is smaller. */
  ghost predicate Smallest(s: seq<int>, e: set<int>, m: nat) {
    Elems(s) <= e && |Starts(e)| <= m && NoneSmaller(s, |e|, m)
  }

  ghost predicate NoneSmaller(s: seq<int>, size: nat, m: nat) {
    forall d: set<int> {:trigger Starts(d)} :: Elems(s) <= d && |Starts(d)| <= m ==> size <= |d|
  }

  lemma {:induction false} CutsCount(b: seq<nat>, n: nat)
    requires Bounds(b, n)
    ensures Indices(Cuts(b), n) && |Cuts(b)| == |b| - 2 == Count(Cuts(b), n)
  {
    CountElems(b[1..|b| - 1]);
    forall i | i in Cuts(b) ensures 1 <= i < n { var c := CutIs(b, n, i); }
    CountIsSize(Cuts(b), n);
  }

  /** A filled set holds the elements and nothing outside them. */
  lemma {:induction false} FillSpans(s: seq<int>, keep: set<nat>)
    requires Strict(s) && s != []
    ensures Elems(s) <= Fill(s, keep, |s|)
    ensures forall x :: x in Fill(s, keep, |s|) ==> s[0] <= x <= s[|s| - 1]
  {
    forall x | x in Elems(s) ensures x in Fill(s, keep, |s|) {
      var i :| 0 <= i < |s| && s[i] == x;
      FillHolds(s, keep, |s|, i);
    }
    forall x | x in Fill(s, keep, |s|) ensures s[0] <= x <= s[|s| - 1] {
      FillBounds(s, keep, |s|, x);
    }
  }

  /** Whatever the gaps, the integers a key stands for are in order, hold every element and lie in so many ranges. */
  lemma {:induction false} KeyCovers(c: seq<int>, s: seq<int>, b: seq<nat>, t: int)
    requires Strict(s) && Int32s(s) && Merged(c, s, b, t)
    ensures s != [] && RangeList(c) && Strict(Expand(c, |c| / 2))
    ensures Elems(Expand(c, |c| / 2)) == Fill(s, Cuts(b), |s|)
    ensures Elems(s) <= Elems(Expand(c, |c| / 2)) && |Starts(Elems(Expand(c, |c| / 2)))| <= |c| / 2
    ensures forall x :: x in Elems(Expand(c, |c| / 2)) ==> s[0] <= x <= s[|s| - 1]
  {
    RangedIsList(c, s, b);
    assert |c| / 2 == |b| - 1;
    ExpandStrict(c, |b| - 1);
    ExpandFills(c, s, b, |b| - 1);
    FillStarts(s, Cuts(b), |s|);
    CutsCount(b, |s|);
    FillSpans(s, Cuts(b));
  }

  lemma {:induction false} SomeClosed(keep: set<nat>, n: nat) returns (i: nat)
    requires Count(keep, n) < n - 1
    ensures 1 <= i < n && i !in keep
  {
    if n - 1 in keep { i := SomeClosed(keep, n - 1); } else { i := n - 1; }
  }

  /** With no gap beyond 32 bits the merged key is smallest. */
  lemma {:induction false} NarrowIsSmallest(s: seq<int>, b: seq<nat>, t: int)
    requires Strict(s) && Bounds(b, |s|) && |b| <= |s| && Threshold32(s, Cuts(b), t)
    requires Narrow(s)
    ensures NoneSmaller(s, |Fill(s, Cuts(b), |s|)|, |b| - 1)
  {
    var keep := Cuts(b);
    CutsCount(b, |s|);
    forall i | 1 <= i < |s| ensures if i in keep then Gap(s, i) >= t else Gap(s, i) <= t {
      assert Gap32(s, i) == Gap(s, i);
    }
    var closed := SomeClosed(keep, |s|);
    assert 1 <= Gap(s, closed) <= t;
    forall d: set<int> | Elems(s) <= d && |Starts(d)| <= |b| - 1 ensures |Fill(s, keep, |s|)| <= |d| {
      FillIsLeast(s, keep, t, d);
    }
  }

  /** Exchanging a kept gap for a closed one changes the size by their difference. */
  lemma {:induction false} SwapCost(s: seq<int>, keep: set<nat>, k: nat, w: nat, i: nat)
    requires i <= |s| && k in keep && w !in keep && 1 <= k < |s| && 1 <= w < |s|
    ensures Cost(s, keep - {k} + {w}, i) ==
      Cost(s, keep, i) + (if k < i then Gap(s, k) - 1 else 0) - (if w < i then Gap(s, w) - 1 else 0)
  {
    if i > 0 { SwapCost(s, keep, k, w, i - 1); }
  }

  lemma OneWide(s: seq<int>, i: nat, w: nat)
    requires Strict(s) && Int32s(s) && 1 <= i < |s| && 1 <= w < |s| && i != w && Gap(s, w) > INT_MAX
    ensures 1 <= Gap(s, i) < Gap(s, w) && Gap32(s, i) == Gap(s, i) && Gap32(s, w) < 0
  {
    assert IsInt32(s[0]) && IsInt32(s[|s| - 1]) && IsInt32(s[i]) && IsInt32(s[i - 1]) && IsInt32(s[w]) &&
      IsInt32(s[w - 1]);
    assert i < w ==> s[i] <= s[w - 1];
    assert w < i ==> s[w] <= s[i - 1];
  }

  /** A gap beyond 32 bits looks negative, is closed first, and the key is not smallest. */
  lemma {:induction false} WideIsNotSmallest(s: seq<int>, b: seq<nat>, t: int, w: nat)
    requires Strict(s) && Int32s(s) && Bounds(b, |s|) && 2 < |b| <= |s| && Threshold32(s, Cuts(b), t)
    requires 1 <= w < |s| && Gap(s, w) > INT_MAX
    ensures !NoneSmaller(s, |Fill(s, Cuts(b), |s|)|, |b| - 1)
  {
    var keep, n := Cuts(b), |s|;
    CutsCount(b, n);
    var closed := SomeClosed(keep, n);
    if w in keep { OneWide(s, closed, w); }
    var k := b[1];
    assert k in keep by { assert b[1..|b| - 1][0] == k; }
    OneWide(s, k, w);
    var other := keep - {k} + {w};
    SwapCost(s, keep, k, w, n);
    FillSize(s, keep, n);
    FillSize(s, other, n);
    FillStarts(s, other, n);
    CountIsSize(other, n);
    var d := Fill(s, other, n);
    forall x | x in Elems(s) ensures x in d {
      var i :| 0 <= i < |s| && s[i] == x;
      FillHolds(s, other, n, i);
    }
    assert Elems(s) <= d && |Starts(d)| <= |b| - 1;
  }

  ghost predicate Narrow(s: seq<int>) {
    forall i {:trigger Gap(s, i)} :: 1 <= i < |s| ==> Gap(s, i) <= INT_MAX
  }

  lemma {:induction false} NoneSmallerIff(s: seq<int>, b: seq<nat>, t: int)
    requires Strict(s) && Int32s(s) && Bounds(b, |s|) && 2 < |b| <= |s| && Threshold32(s, Cuts(b), t)
    ensures NoneSmaller(s, |Fill(s, Cuts(b), |s|)|, |b| - 1) <==> Narrow(s)
  {
    if Narrow(s) {
      NarrowIsSmallest(s, b, t);
    } else {
      var w :| 1 <= w < |s| && Gap(s, w) > INT_MAX;
      WideIsNotSmallest(s, b, t, w);
    }
  }

  /** The integers a key stands for are the smallest cover by so many ranges exactly when no gap exceeds 32 bits. */
  lemma {:induction false} SmallestIff(c: seq<int>, s: seq<int>, b: seq<nat>, t: int, m: nat, e: set<int>)
    requires Strict(s) && Int32s(s) && 2 <= m < |s|
    requires |c| == 2 * m && Merged(c, s, b, t) && RangeList(c) && e == Elems(Expand(c, m))
    ensures Smallest(s, e, m) <==> Narrow(s)
  {
    KeyCovers(c, s, b, t);
    assert |c| / 2 == m;
    NoneSmallerIff(s, b, t);
  }

  lemma {:induction false} CostAtLeast(s: seq<int>, keep: set<nat>, w: nat, i: nat)
    requires Strict(s) && 1 <= w < i <= |s| && w !in keep
    ensures Cost(s, keep, i) >= Gap(s, w)
  {
    CostNotNegative(s, keep, i - 1);
    if w < i - 1 { CostAtLeast(s, keep, w, i - 1); }
  }

  lemma {:induction false} CostNotNegative(s: seq<int>, keep: set<nat>, i: nat)
    requires Strict(s) && i <= |s|
    ensures Cost(s, keep, i) >= 0
  {
    if i > 0 { CostNotNegative(s, keep, i - 1); }
  }

  /** A gap beyond 32 bits is closed, so that the key stands for more integers than an int can count. */
  lemma {:induction false} WideIsHuge(s: seq<int>, b: seq<nat>, t: int, w: nat)
    requires Strict(s) && Int32s(s) && Bounds(b, |s|) && 2 < |b| <= |s| && Threshold32(s, Cuts(b), t)
    requires 1 <= w < |s| && Gap(s, w) > INT_MAX
    ensures w !in Cuts(b) && |Fill(s, Cuts(b), |s|)| > INT_MAX
  {
    CutsCount(b, |s|);
    var closed := SomeClosed(Cuts(b), |s|);
    if w in Cuts(b) { OneWide(s, closed, w); }
    FillSize(s, Cuts(b), |s|);
    CostAtLeast(s, Cuts(b), w, |s|);
  }

  /** Some set that palloc could hold contains the elements in at most m ranges. */
  ghost predicate Compressible(s: seq<int>, m: nat) {
    exists d: set<int> {:trigger Starts(d)} :: Elems(s) <= d && |Starts(d)| <= m && |d| <= MAX_INTS
  }

  /** A key of 200 or more elements can be read back after compression. */
  ghost predicate Readable(s: seq<int>)
    requires s != []
  {
    2 * |s| <= MAX_INTS && s[|s| - 1] < INT_MAX && Narrow(s) && Compressible(s, MAXNUMRANGE)
  }

  lemma {:induction false} ExtentIs(c: seq<int>, s: seq<int>, b: seq<nat>, t: int)
    requires Strict(s) && Int32s(s) && Merged(c, s, b, t) && RangeList(c)
    ensures Extent(c) == |Fill(s, Cuts(b), |s|)| == |Elems(Expand(c, |c| / 2))|
  {
    KeyCovers(c, s, b, t);
    var e := Expand(c, |c| / 2);
    CountElems(e);
  }

  /** The key stands for no more integers than palloc could hold exactly when that can be done without wide gaps. */
  lemma ExtentFits(c: seq<int>, s: seq<int>, b: seq<nat>, t: int, m: nat)
    requires Strict(s) && Int32s(s) && 2 <= m < |s| && |c| == 2 * m && Merged(c, s, b, t) && RangeList(c)
    ensures Extent(c) <= MAX_INTS <==> Narrow(s) && Compressible(s, m)
  {
    ExtentIs(c, s, b, t);
    KeyCovers(c, s, b, t);
    assert |c| / 2 == m;
    if Narrow(s) {
      NarrowIsSmallest(s, b, t);
      if Extent(c) <= MAX_INTS {
        var d := Elems(Expand(c, m));
        assert Elems(s) <= d && |Starts(d)| <= m && |d| <= MAX_INTS;
      }
    } else {
      var w :| 1 <= w < |s| && Gap(s, w) > INT_MAX;
      WideIsHuge(s, b, t, w);
    }
  }

  /** What compress and then decompress come to. */
  ghost predicate Restored(s: seq<int>, r: Outcome) {
    if |s| < 2 * MAXNUMRANGE then r == Key(s)
    else
      && (r.Key? <==> Readable(s))
      && (r.Key? ==>
        && Strict(r.key) && Smallest(s, Elems(r.key), MAXNUMRANGE)
        && forall x :: x in r.key ==> s[0] <= x <= s[|s| - 1])
  }

  /** g_int_compress, then g_int_decompress. */
  method RoundTrip(s: seq<int>) returns (r: Outcome)
    requires Strict(s) && Int32s(s)
    ensures Restored(s, r)
  {
    var z, b, t := Compress(s);
    if !z.Key? {
      return z;
    }
    if |s| < 2 * MAXNUMRANGE {
      ShortIsList(s);
      r := Decompress(z.key);
    } else {
      RangedIsList(z.key, s, b);
      r := Decompress(z.key);
      KeyIs(z.key, s, b, t);
    }
  }

  lemma ShortIsList(s: seq<int>)
    requires Strict(s)
    ensures RangeList(s)
  {
    forall k | 0 <= k && 2 * k + 1 < |s| ensures LoHi(s, k) {
    }
  }

  /** A compressed key is read back exactly if its elements are readable. */
  lemma {:induction false} KeyRead(c: seq<int>, s: seq<int>, b: seq<nat>, t: int)
    requires Strict(s) && Int32s(s) && 2 * MAXNUMRANGE <= |s|
    requires |c| == 2 * MAXNUMRANGE && Merged(c, s, b, t) && RangeList(c) && 2 * |s| <= MAX_INTS
    ensures ReadBack(c).Key? <==> Readable(s)
    ensures ReadBack(c).Key? ==> ReadBack(c).key == Expand(c, MAXNUMRANGE)
  {
    RangedIsList(c, s, b);
    ExtentFits(c, s, b, t, MAXNUMRANGE);
    RoomExact(Extent(c));
  }

  lemma KeyIs(c: seq<int>, s: seq<int>, b: seq<nat>, t: int)
    requires Strict(s) && Int32s(s) && 2 * MAXNUMRANGE <= |s|
    requires |c| == 2 * MAXNUMRANGE && Merged(c, s, b, t) && RangeList(c) && 2 * |s| <= MAX_INTS
    ensures Restored(s, ReadBack(c))
  {
    KeyRead(c, s, b, t);
    var e := Expand(c, MAXNUMRANGE);
    if ReadBack(c).Key? {
      KeyCovers(c, s, b, t);
      assert |c| / 2 == MAXNUMRANGE;
      SmallestIff(c, s, b, t, MAXNUMRANGE, Elems(e));
      forall x | x in e ensures s[0] <= x <= s[|s| - 1] { assert x in Elems(e); }
    }
  }

  /** The counter of a range after n increments, in 32 bits. */
  ghost function Walk(lo: int, n: nat): int { Wrap32(lo + n) }

  /** The low end of a range passes its high end, counting in 32 bits, exactly when that is not the largest integer. */
  lemma WalkEnds(lo: int, hi: int)
    requires INT_MIN <= lo <= hi <= INT_MAX
    ensures (exists n: nat :: Walk(lo, n) > hi) <==> hi < INT_MAX
  {
    if hi < INT_MAX {
      WrapSmall(hi + 1);
      assert Walk(lo, hi + 1 - lo) == hi + 1;
    } else {
      forall n: nat ensures Walk(lo, n) <= hi { WrapRange(lo + n); }
    }
  }

  ghost predicate RangeEnds(c: seq<int>, k: nat)
    requires 2 * k + 1 < |c|
  {
    exists n: nat :: Walk(c[2 * k], n) > c[2 * k + 1]
  }

  /** All loops of the expansion of a compressed key end exactly when its elements stop short of the largest integer. */
  lemma ExpansionEnds(c: seq<int>, s: seq<int>, b: seq<nat>, t: int)
    requires Strict(s) && Int32s(s) && Merged(c, s, b, t)
    ensures (forall k {:trigger RangeEnds(c, k)} :: 0 <= k && 2 * k + 1 < |c| ==> RangeEnds(c, k)) <==>
      s[|s| - 1] < INT_MAX
  {
    RangedIsList(c, s, b);
    var last := |c| / 2 - 1;
    forall k | 0 <= k && 2 * k + 1 < |c| ensures RangeEnds(c, k) <==> c[2 * k + 1] < INT_MAX {
      assert LoHi(c, k);
      WalkEnds(c[2 * k], c[2 * k + 1]);
    }
    forall k | 0 <= k && 2 * k + 1 < |c| ensures c[2 * k + 1] <= c[|c| - 1] { HighEnds(c, k); }
    assert RangeEnds(c, last) <==> c[2 * last + 1] < INT_MAX;
  }

  // A key whose size wraps

  /** Two runs of a hundred integers at the ends of the 32-bit range. */
  function TwoRuns(): (s: seq<int>)
    ensures |s| == 200 && forall i :: 0 <= i < 200 ==> s[i] == if i < 100 then INT_MIN + i else INT_MAX - 200 + i
  {
    seq(200, i requires 0 <= i < 200 => if i < 100 then INT_MIN + i else INT_MAX - 200 + i)
  }

  lemma {:induction false} TwoRunsCost(keep: set<nat>, i: nat)
    requires i <= 200 && 100 !in keep
    ensures Cost(TwoRuns(), keep, i) == if i <= 100 then i else i + 4294967095
  {
    if i > 0 { TwoRunsCost(keep, i - 1); }
  }

  /** The ranges kept for it stand for 4294967295 integers, which internal_size counts as -1. */
  lemma SizeWraps(c: seq<int>, b: seq<nat>, t: int)
    requires |c| == 2 * MAXNUMRANGE && Merged(c, TwoRuns(), b, t)
    ensures Strict(TwoRuns()) && Int32s(TwoRuns()) && TwoRuns()[199] < INT_MAX
    ensures RangeList(c) && Extent(c) == 4294967295 && Wrap32(Extent(c)) == -1 && ReadBack(c) == Undefined
  {
    var s := TwoRuns();
    assert Gap(s, 100) > INT_MAX;
    RangedIsList(c, s, b);
    WideIsHuge(s, b, t, 100);
    TwoRunsCost(Cuts(b), 200);
    FillSize(s, Cuts(b), 200);
    ExtentIs(c, s, b, t);
  }

  // Leaf keys

  /** Each range is two neighbouring integers. */
  predicate Neighbours(s: seq<int>, k: nat)
    requires 2 * k <= |s|
  {
    k == 0 || (Neighbours(s, k - 1) && s[2 * k - 1] == s[2 * k - 2] + 1)
  }

  lemma SplitSame(e: seq<int>, x: seq<int>, f: seq<int>, y: seq<int>)
    requires |e| >= |f| && |x| >= |y|
    ensures e + x == f + y <==> e == f && x == y
  {
    if e + x == f + y {
      assert e == (e + x)[..|f|];
      assert x == (e + x)[|f|..];
    }
  }

  lemma {:induction false} ExpandPairs(s: seq<int>, k: nat)
    requires Strict(s) && RangeList(s) && 2 * k <= |s|
    ensures Expand(s, k) == s[..2 * k] <==> Neighbours(s, k)
    ensures |Expand(s, k)| >= 2 * k
  {
    if k > 0 {
      ExpandPairs(s, k - 1);
      assert LoHi(s, k - 1);
      PairExpands(s, k, Expand(s, k - 1), s[..2 * k - 2]);
    }
  }

  lemma PairExpands(s: seq<int>, k: nat, e: seq<int>, front: seq<int>)
    requires Strict(s) && 1 <= k && 2 * k <= |s| && front == s[..2 * k - 2] && |e| >= |front|
    ensures s[2 * k - 2] < s[2 * k - 1]
    ensures var x := e + Span(s[2 * k - 2], s[2 * k - 1]);
      (x == s[..2 * k] <==> e == front && s[2 * k - 1] == s[2 * k - 2] + 1) && |x| >= |front| + 2
  {
    var lo, hi := s[2 * k - 2], s[2 * k - 1];
    assert s[..2 * k] == front + [lo, hi];
    SpanIsPair(lo, hi);
    SplitSame(e, Span(lo, hi), front, [lo, hi]);
  }

  lemma SpanIsPair(lo: int, hi: int)
    requires lo < hi
    ensures Span(lo, hi) == [lo, hi] <==> hi == lo + 1
  {
    assert |Span(lo, hi)| == hi - lo + 1;
  }

  /** Leaf keys that come back as they were stored. */
  predicate Stable(s: seq<int>) {
    |s| < 2 * MAXNUMRANGE ||
    (|s| % 2 == 0 && Neighbours(s, |s| / 2) && s[|s| - 1] < INT_MAX && |s| <= MAX_INTS)
  }

  /**
    A leaf key is stored as it is but from 200 elements on read back as ranges: it
    survives exactly if it is short or consists of pairs of neighbours.
   */
  lemma LeafReadBack(s: seq<int>)
    requires Strict(s) && Int32s(s)
    ensures RangeList(s) && (ReadBack(s) == Key(s) <==> Stable(s))
  {
    ShortIsList(s);
    var k := |s| / 2;
    ExpandPairs(s, k);
    RoomExact(Extent(s));
    if |s| % 2 == 0 { assert s[..2 * k] == s; }
  }

  /** A long leaf key comes back at all exactly if it has an even length, ends short of INT_MAX and fits an array. */
  lemma {:induction false} LeafReadable(s: seq<int>)
    requires Strict(s) && Int32s(s)
    ensures RangeList(s)
    ensures ReadBack(s).Key? <==>
      |s| < 2 * MAXNUMRANGE || (|s| % 2 == 0 && s[|s| - 1] < INT_MAX && Extent(s) <= MAX_INTS)
  {
    ShortIsList(s);
    RoomExact(Extent(s));
  }

  /** If anything comes back, it holds all the elements. */
  lemma LeafCovers(s: seq<int>)
    requires Strict(s) && Int32s(s)
    ensures RangeList(s)
    ensures ReadBack(s).Key? ==>
      Strict(ReadBack(s).key) && Elems(s) <= Elems(ReadBack(s).key) && Int32s(ReadBack(s).key)
  {
    ShortIsList(s);
    if |s| >= 2 * MAXNUMRANGE && ReadBack(s).Key? {
      var k := |s| / 2;
      ExpandStrict(s, k);
      ExpandHolds(s, k);
      assert s[..2 * k] == s;
    }
  }

  lemma {:induction false} ExpandHolds(s: seq<int>, k: nat)
    requires Strict(s) && Int32s(s) && RangeList(s) && 2 * k <= |s|
    ensures Elems(s[..2 * k]) <= Elems(Expand(s, k)) && Int32s(Expand(s, k))
  {
    if k > 0 {
      ExpandHolds(s, k - 1);
      assert LoHi(s, k - 1);
      var lo, hi := s[2 * k - 2], s[2 * k - 1];
      var r := Span(lo, hi);
      assert r[0] == lo && r[hi - lo] == hi;
      assert s[..2 * k] == s[..2 * k - 2] + [lo, hi];
      ElemsJoin(Expand(s, k - 1), r);
      ElemsJoin(s[..2 * k - 2], [lo, hi]);
    }
  }
}
