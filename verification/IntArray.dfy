/** Sorting, duplicate removal and set operations on integer arrays, in place as the extension does them. */
module IntArray {
  import opened Sorting

  predicate Ascending(s: seq<int>) {
    forall i, j :: 0 <= i < j < |s| ==> s[i] <= s[j]
  }

  predicate Strict(s: seq<int>) {
    forall i, j :: 0 <= i < j < |s| ==> s[i] < s[j]
  }

  predicate Distinct(s: seq<int>) {
    forall i, j :: 0 <= i < j < |s| ==> s[i] != s[j]
  }

  // Permutations

  lemma SameElems(s: seq<int>, t: seq<int>)
    requires multiset(s) == multiset(t)
    ensures Elems(s) == Elems(t)
  {
    forall x ensures x in s <==> x in t {
      assert x in s <==> x in multiset(s);
      assert x in t <==> x in multiset(t);
    }
  }

  lemma CountAt(s: seq<int>, i: nat, j: nat)
    requires i < j < |s| && s[i] == s[j]
    ensures multiset(s)[s[i]] >= 2
  {
    assert s == s[..j] + [s[j]] + s[j + 1..];
    assert s[..j][i] == s[i];
    assert s[i] in multiset(s[..j]);
  }

  lemma {:induction false} CountOnce(s: seq<int>, x: int)
    requires Distinct(s)
    ensures multiset(s)[x] <= 1
  {
    if s != [] {
      var p, y := s[..|s| - 1], s[|s| - 1];
      assert s == p + [y];
      CountOnce(p, x);
      assert x in multiset(p) ==> x in p;
    }
  }

  /** Whether elements repeat does not depend on their order. */
  lemma DistinctPermuted(s: seq<int>, t: seq<int>)
    requires multiset(s) == multiset(t) && Distinct(s)
    ensures Distinct(t)
  {
    forall i, j | 0 <= i < j < |t| ensures t[i] != t[j] {
      CountOnce(s, t[i]);
      if t[i] == t[j] { CountAt(t, i, j); }
    }
  }

  lemma StrictSort(s: seq<int>)
    requires Ascending(s) && forall i :: 1 <= i < |s| ==> s[i - 1] != s[i]
    ensures Strict(s)
  {
    forall i, j | 0 <= i < j < |s| ensures s[i] < s[j] {
      assert s[j - 1] != s[j];
    }
  }

  lemma {:induction false} StepsAscend(s: seq<int>, i: nat, j: nat)
    requires i <= j < |s| && forall k :: 1 <= k < |s| ==> s[k - 1] <= s[k]
    ensures s[i] <= s[j]
  {
    if i < j { StepsAscend(s, i, j - 1); }
  }

  // isort

  /** The places from p on hold their final values. */
  ghost predicate Settled(s: seq<int>, p: int) {
    forall i, j :: 0 <= i < j < |s| && p <= j ==> s[i] <= s[j]
  }

  method Swap(a: array<int>, c: nat)
    requires 1 <= c < a.Length
    modifies a
    ensures a[..] == old(a[..])[c - 1 := old(a[c])][c := old(a[c - 1])]
    ensures multiset(a[..]) == multiset(old(a[..]))
  {
    a[c - 1], a[c] := a[c], a[c - 1];
  }

  /** State of one pass just before place c is compared: p places remained unsettled when it began. */
  ghost predicate MidPass(s: seq<int>, p: int, c: nat, swapped: bool) {
    && 1 <= c <= |s|
    && Settled(s, p)
    && (c <= p ==> forall i :: 0 <= i < c ==> s[i] <= s[c - 1])
    && (p < c ==> Settled(s, p - 1))
    && (!swapped ==> forall i :: 1 <= i < c ==> s[i - 1] <= s[i])
  }

  lemma PassKeeps(s: seq<int>, p: int, c: nat, swapped: bool)
    requires MidPass(s, p, c, swapped) && c < |s| && s[c - 1] <= s[c]
    ensures MidPass(s, p, c + 1, swapped)
  {
  }

  lemma PassSwaps(s: seq<int>, p: int, c: nat, swapped: bool)
    requires MidPass(s, p, c, swapped) && c < |s| && s[c - 1] > s[c]
    ensures c < p && MidPass(s[c - 1 := s[c]][c := s[c - 1]], p, c + 1, true)
  {
    var t := s[c - 1 := s[c]][c := s[c - 1]];
    forall i, j | 0 <= i < j < |t| && p <= j ensures t[i] <= t[j] {
      assert s[j] == t[j];
    }
  }

  /** The pass so far: s is a rearrangement of was, and r tells of repeats in it. */
  ghost predicate PassState(was: seq<int>, s: seq<int>, p: int, c: nat, swapped: bool, r0: bool, r: bool) {
    && multiset(s) == multiset(was) && |s| == |was|
    && MidPass(s, p, c, swapped)
    && (swapped ==> p > 0)
    && (r0 ==> r)
    && (r && !r0 ==> !Distinct(was))
    && (!swapped && !r ==> forall i :: 1 <= i < c ==> s[i - 1] != s[i])
  }

  lemma PassStep(was: seq<int>, s: seq<int>, p: int, c: nat, swapped: bool, r0: bool, r: bool)
    requires PassState(was, s, p, c, swapped, r0, r) && c < |s|
    requires 0 <= p
    ensures s[c - 1] > s[c] ==> PassState(was, s[c - 1 := s[c]][c := s[c - 1]], p, c + 1, true, r0, r)
    ensures s[c - 1] <= s[c] ==> PassState(was, s, p, c + 1, swapped, r0, r || s[c - 1] == s[c])
  {
    if s[c - 1] > s[c] {
      PassSwaps(s, p, c, swapped);
    } else {
      PassKeeps(s, p, c, swapped);
      if s[c - 1] == s[c] && Distinct(was) {
        DistinctPermuted(was, s);
      }
    }
  }

  /** One pass of isort: r records any equal neighbours met. */
  method Pass(a: array<int>, r0: bool, ghost p: int) returns (swapped: bool, r: bool)
    requires a.Length >= 1 && 0 <= p && Settled(a[..], p)
    modifies a
    ensures multiset(a[..]) == multiset(old(a[..]))
    ensures Settled(a[..], p - 1)
    ensures swapped ==> p > 0
    ensures !swapped ==> Ascending(a[..]) && (r || Strict(a[..]))
    ensures r0 ==> r
    ensures r && !r0 ==> !Distinct(old(a[..]))
  {
    swapped, r := false, r0;
    ghost var was := a[..];
    var cur := 1;
    while cur < a.Length
      invariant 1 <= cur <= a.Length && PassState(was, a[..], p, cur, swapped, r0, r)
    {
      PassStep(was, a[..], p, cur, swapped, r0, r);
      if a[cur - 1] > a[cur] {
        Swap(a, cur);
        swapped := true;
      } else if !r && a[cur - 1] == a[cur] {
        r := true;
      }
      cur := cur + 1;
    }
    EndPass(a[..], p, swapped, r);
  }

  lemma EndPass(s: seq<int>, p: int, swapped: bool, r: bool)
    requires s != [] && 0 <= p && MidPass(s, p, |s|, swapped)
    requires !swapped && !r ==> forall i :: 1 <= i < |s| ==> s[i - 1] != s[i]
    ensures Settled(s, p - 1)
    ensures !swapped ==> Ascending(s) && (r || Strict(s))
  {
    if p >= |s| {
      assert forall i :: 0 <= i < |s| ==> s[i] <= s[|s| - 1];
    }
    if !swapped {
      forall i, j | 0 <= i < j < |s| ensures s[i] <= s[j] {
        StepsAscend(s, i, j);
      }
      if !r { StrictSort(s); }
    }
  }

  /** isort: sorts in place, ends on every input, and reports exactly whether elements repeat. */
  method ISort(a: array<int>) returns (r: bool)
    requires a.Length >= 2
    modifies a
    ensures Ascending(a[..]) && multiset(a[..]) == multiset(old(a[..]))
    ensures r <==> !Distinct(old(a[..]))
  {
    r := false;
    ghost var was := a[..];
    ghost var p: int := a.Length;
    var swapped := true;
    while swapped
      invariant 0 <= p + 1 && (swapped ==> 0 <= p)
      invariant multiset(a[..]) == multiset(was)
      invariant swapped ==> Settled(a[..], p)
      invariant !swapped ==> Ascending(a[..]) && (r || Strict(a[..]))
      invariant r ==> !Distinct(was)
      decreases p, swapped
    {
      ghost var s := a[..];
      swapped, r := Pass(a, r, p);
      if Distinct(was) { DistinctPermuted(was, s); }
      p := p - 1;
    }
    if !r { DistinctPermuted(a[..], was); }
  }

  // _int_unique

  lemma {:induction false} DedupIsSet(s: seq<int>, k: nat)
    requires k <= |s| && Ascending(s)
    ensures Strict(Dedup(s, k)) && Elems(Dedup(s, k)) == Elems(s[..k])
  {
    if k > 0 {
      DedupIsSet(s, k - 1);
      assert s[..k] == s[..k - 1] + [s[k - 1]];
      ElemsSnoc(s[..k - 1], s[k - 1]);
      if k > 1 && s[k - 1] == s[k - 2] {
        assert s[..k - 1][k - 2] == s[k - 1];
      } else {
        StrictSnoc(Dedup(s, k - 1), s[k - 1]);
        ElemsSnoc(Dedup(s, k - 1), s[k - 1]);
      }
    }
  }

  lemma ElemsSnoc(r: seq<int>, x: int)
    ensures Elems(r + [x]) == Elems(r) + {x}
  {
  }

  lemma StrictSnoc(r: seq<int>, x: int)
    requires Strict(r) && (r == [] || r[|r| - 1] < x)
    ensures Strict(r + [x])
  {
    assert forall i :: 0 <= i < |r| ==> r[i] <= r[|r| - 1];
  }

  /** _int_unique on the first n places: returns how many distinct ones are now in front. */
  method Unique(a: array<int>, n: nat) returns (m: nat)
    requires n <= a.Length && Ascending(a[..n])
    modifies a
    ensures m <= n && Strict(a[..m]) && Elems(a[..m]) == old(Elems(a[..n]))
  {
    if n < 2 {
      return n;
    }
    ghost var s := a[..n];
    m := DedupPrefix(a, n);
    DedupIsSet(s, n);
    assert s[..n] == s;
  }

  /** PREPAREARR: the first n places become the set of all elements, in order. */
  method Prepare(a: array<int>) returns (n: nat)
    modifies a
    ensures n <= a.Length && Strict(a[..n]) && Elems(a[..n]) == old(Elems(a[..]))
  {
    ghost var was := a[..];
    n := a.Length;
    assert a[..n] == was;
    if n > 1 {
      var r := ISort(a);
      assert a[..n] == a[..];
      SameElems(a[..], was);
      if r {
        n := Unique(a, n);
      } else {
        DistinctPermuted(was, a[..]);
      }
    }
  }

  // Set operations on prepared arrays

  /** inner_int_contains: stops at the first element of b that a passes over. */
  method InnerContains(a: seq<int>, b: seq<int>) returns (r: bool)
    requires Strict(a) && Strict(b)
    ensures r <==> a != [] && b != [] && Elems(b) <= Elems(a)
  {
    if a == [] || b == [] {
      return false;
    }
    var i, j, n := 0, 0, 0;
    while i < |a| && j < |b|
      invariant 0 <= i <= |a| && 0 <= j == n <= |b|
      invariant forall k :: 0 <= k < j ==> b[k] in a
      invariant j < |b| ==> forall k :: 0 <= k < i ==> a[k] < b[j]
    {
      if a[i] < b[j] {
        i := i + 1;
      } else if a[i] == b[j] {
        assert b[j] in a;
        n, i, j := n + 1, i + 1, j + 1;
      } else {
        break;
      }
    }
    if n < |b| {
      assert forall k :: i <= k < |a| ==> a[k] > b[j];
      assert b[j] in Elems(b) && b[j] !in Elems(a);
    }
    return n == |b|;
  }

  /** inner_int_overlap */
  method InnerOverlap(a: seq<int>, b: seq<int>) returns (r: bool)
    requires Strict(a) && Strict(b)
    ensures r <==> !(Elems(a) !! Elems(b))
  {
    if a == [] || b == [] {
      return false;
    }
    var i, j := 0, 0;
    while i < |a| && j < |b|
      invariant 0 <= i <= |a| && 0 <= j <= |b|
      invariant forall k, l :: 0 <= k < |a| && 0 <= l < |b| && (k < i || l < j) ==> a[k] != b[l]
    {
      if a[i] < b[j] {
        i := i + 1;
      } else if a[i] == b[j] {
        assert a[i] in Elems(a) && a[i] in Elems(b);
        return true;
      } else {
        j := j + 1;
      }
    }
    return false;
  }

  /** The merge of a[..i] and b[..j] is in r; what is left is no smaller. */
  ghost predicate Uniting(a: seq<int>, b: seq<int>, i: nat, j: nat, r: seq<int>) {
    && i <= |a| && j <= |b| && |r| <= i + j && Ascending(r)
    && Elems(r) == Elems(a[..i]) + Elems(b[..j])
    && (i < |a| ==> forall k :: 0 <= k < |r| ==> r[k] <= a[i])
    && (j < |b| ==> forall k :: 0 <= k < |r| ==> r[k] <= b[j])
  }

  lemma AscendingSnoc(r: seq<int>, x: int)
    requires Ascending(r) && forall k :: 0 <= k < |r| ==> r[k] <= x
    ensures Ascending(r + [x])
  {
  }

  lemma TakeOne(a: seq<int>, i: nat)
    requires i < |a|
    ensures Elems(a[..i + 1]) == Elems(a[..i]) + {a[i]}
  {
    assert a[..i + 1] == a[..i] + [a[i]];
  }

  lemma UniteFirst(a: seq<int>, b: seq<int>, i: nat, j: nat, r: seq<int>)
    requires Ascending(a) && Uniting(a, b, i, j, r) && i < |a| && (j < |b| ==> a[i] <= b[j])
    ensures Uniting(a, b, i + 1, j, r + [a[i]])
  {
    AscendingSnoc(r, a[i]);
    TakeOne(a, i);
    ElemsSnoc(r, a[i]);
  }

  lemma UniteSecond(a: seq<int>, b: seq<int>, i: nat, j: nat, r: seq<int>)
    requires Ascending(b) && Uniting(a, b, i, j, r) && j < |b| && (i < |a| ==> b[j] <= a[i])
    ensures Uniting(a, b, i, j + 1, r + [b[j]])
  {
    AscendingSnoc(r, b[j]);
    TakeOne(b, j);
    ElemsSnoc(r, b[j]);
  }

  lemma UniteBoth(a: seq<int>, b: seq<int>, i: nat, j: nat, r: seq<int>)
    requires Ascending(a) && Ascending(b) && Uniting(a, b, i, j, r) && i < |a| && j < |b| && a[i] == b[j]
    ensures Uniting(a, b, i + 1, j + 1, r + [a[i]])
  {
    AscendingSnoc(r, a[i]);
    TakeOne(a, i);
    TakeOne(b, j);
    ElemsSnoc(r, a[i]);
  }

  method Append(dr: array<int>, n: nat, x: int)
    requires n < dr.Length
    modifies dr
    ensures dr[..n + 1] == old(dr[..n]) + [x]
  {
    dr[n] := x;
  }

  /** The first loop of inner_int_union, while both have elements. */
  method UniteWhileBoth(dr: array<int>, a: seq<int>, b: seq<int>) returns (i: nat, j: nat, n: nat)
    requires Ascending(a) && Ascending(b) && dr.Length == |a| + |b|
    modifies dr
    ensures n <= i + j && i <= |a| && j <= |b| && (i == |a| || j == |b|) && Uniting(a, b, i, j, dr[..n])
  {
    i, j, n := 0, 0, 0;
    while i < |a| && j < |b|
      invariant i <= |a| && j <= |b| && n <= i + j && Uniting(a, b, i, j, dr[..n])
    {
      if a[i] == b[j] {
        UniteBoth(a, b, i, j, dr[..n]);
        Append(dr, n, a[i]);
        i, j := i + 1, j + 1;
      } else if a[i] < b[j] {
        UniteFirst(a, b, i, j, dr[..n]);
        Append(dr, n, a[i]);
        i := i + 1;
      } else {
        UniteSecond(a, b, i, j, dr[..n]);
        Append(dr, n, b[j]);
        j := j + 1;
      }
      n := n + 1;
    }
  }

  /** All three loops. */
  method UniteInto(dr: array<int>, a: seq<int>, b: seq<int>) returns (n: nat)
    requires Ascending(a) && Ascending(b) && dr.Length == |a| + |b|
    modifies dr
    ensures n <= dr.Length && Ascending(dr[..n]) && Elems(dr[..n]) == Elems(a) + Elems(b)
  {
    var i, j;
    i, j, n := UniteWhileBoth(dr, a, b);
    while i < |a|
      invariant i <= |a| && j <= |b| && n <= i + j && Uniting(a, b, i, j, dr[..n]) && (i == |a| || j == |b|)
    {
      UniteFirst(a, b, i, j, dr[..n]);
      Append(dr, n, a[i]);
      n, i := n + 1, i + 1;
    }
    while j < |b|
      invariant j <= |b| && n <= i + j && Uniting(a, b, i, j, dr[..n])
    {
      UniteSecond(a, b, i, j, dr[..n]);
      Append(dr, n, b[j]);
      n, j := n + 1, j + 1;
    }
    assert a[..|a|] == a && b[..|b|] == b;
  }

  /** inner_int_union: sorted inputs, repeats allowed; the result is the union without repeats. */
  method InnerUnion(a: seq<int>, b: seq<int>) returns (r: seq<int>)
    requires Ascending(a) && Ascending(b)
    ensures Strict(r) && Elems(r) == Elems(a) + Elems(b)
  {
    var dr := new int[|a| + |b|];
    var n := UniteInto(dr, a, b);
    var m := Unique(dr, n);
    r := dr[..m];
  }

  /** PG_DETOAST_DATUM_COPY */
  method Copy(s: seq<int>) returns (a: array<int>)
    ensures fresh(a) && a[..] == s
  {
    a := new int[|s|](i requires 0 <= i < |s| => s[i]);
  }

  /** _int_contains on arguments in any order, with or without repeats. */
  method Contains(x: seq<int>, y: seq<int>) returns (r: bool)
    ensures r <==> x != [] && y != [] && Elems(y) <= Elems(x)
  {
    if x == [] || y == [] {
      return false;
    }
    assert x[0] in Elems(x) && y[0] in Elems(y);
    var a := Copy(x);
    var b := Copy(y);
    var na := Prepare(a);
    var nb := Prepare(b);
    var sa, sb := a[..na], b[..nb];
    assert Elems(sa) == Elems(x) && Elems(sb) == Elems(y);
    assert sa != [] by { assert x[0] in Elems(sa); }
    assert sb != [] by { assert y[0] in Elems(sb); }
    r := InnerContains(sa, sb);
  }

  /** QSORT(a, 1) and _int_unique */
  method SortUnique(a: array<int>) returns (n: nat)
    modifies a
    ensures n <= a.Length && Strict(a[..n]) && Elems(a[..n]) == old(Elems(a[..]))
  {
    ghost var was := a[..];
    assert a[..a.Length] == was;
    if a.Length > 1 {
      var leq := (x: int, y: int) => x <= y;
      QSortPrefix(a, a.Length, leq);
      forall i, j | 0 <= i < j < a.Length ensures a[i] <= a[j] {
        SortedPair(a[..a.Length], leq, i, j);
      }
      SameElems(a[..a.Length], was);
    }
    n := Unique(a, a.Length);
  }

  ghost predicate Subtracting(a: seq<int>, b: seq<int>, i: nat, k: nat, r: seq<int>) {
    && i <= |a| && k <= |b| && |r| <= i
    && Strict(r)
    && (forall x :: x in r <==> x in a[..i] && x !in b)
    && (i < |a| ==> forall j :: 0 <= j < k ==> b[j] < a[i])
    && (i < |a| ==> forall j :: 0 <= j < |r| ==> r[j] < a[i])
  }

  lemma SubtractKeep(a: seq<int>, b: seq<int>, i: nat, k: nat, r: seq<int>)
    requires Strict(a) && Strict(b) && Subtracting(a, b, i, k, r)
    requires i < |a| && (k == |b| || a[i] < b[k])
    ensures Subtracting(a, b, i + 1, k, r + [a[i]])
  {
    assert forall j :: 0 <= j < |b| ==> b[j] != a[i];
    assert a[i] !in b;
    StrictSnoc(r, a[i]);
    assert a[..i + 1] == a[..i] + [a[i]];
  }

  lemma SubtractDrop(a: seq<int>, b: seq<int>, i: nat, k: nat, r: seq<int>)
    requires Strict(a) && Strict(b) && Subtracting(a, b, i, k, r)
    requires i < |a| && k < |b| && a[i] == b[k]
    ensures Subtracting(a, b, i + 1, k + 1, r)
  {
    assert b[k] in b;
    assert a[..i + 1] == a[..i] + [a[i]];
  }

  /** intset_subtract */
  method Subtract(x: seq<int>, y: seq<int>) returns (result: seq<int>)
    ensures Strict(result) && Elems(result) == Elems(x) - Elems(y)
  {
    var a := Copy(x);
    var b := Copy(y);
    var ca := SortUnique(a);
    var cb := SortUnique(b);
    var aa, bb := a[..ca], b[..cb];
    var r := new int[ca];
    var n, i, k := 0, 0, 0;
    while i < ca
      invariant n <= i <= ca && k <= cb
      invariant Subtracting(aa, bb, i, k, r[..n])
      decreases ca - i, cb - k
    {
      if k == cb || aa[i] < bb[k] {
        SubtractKeep(aa, bb, i, k, r[..n]);
        ghost var was := r[..n];
        r[n] := aa[i];
        assert r[..n + 1] == was + [aa[i]];
        n, i := n + 1, i + 1;
      } else if aa[i] == bb[k] {
        SubtractDrop(aa, bb, i, k, r[..n]);
        i, k := i + 1, k + 1;
      } else {
        k := k + 1;
      }
    }
    assert aa[..ca] == aa;
    result := r[..n];
  }

  /** Each element is behind the one before it, strictly or not. */
  ghost predicate Rising(s: seq<int>, strictly: bool) {
    forall i {:trigger s[i]} :: 1 <= i < |s| ==> if strictly then s[i - 1] < s[i] else s[i - 1] <= s[i]
  }

  lemma {:induction false} Climbs(s: seq<int>, strictly: bool, i: nat, j: nat)
    requires Rising(s, strictly) && i < j < |s|
    ensures if strictly then s[i] < s[j] else s[i] <= s[j]
  {
    if i + 1 < j { Climbs(s, strictly, i, j - 1); }
  }

  /** In order means rising from each element to the next, and without repeats strictly so. */
  lemma OrderMeans(s: seq<int>)
    ensures Ascending(s) <==> Rising(s, false)
    ensures Strict(s) <==> Rising(s, true)
  {
    forall i, j | 0 <= i < j < |s|
      ensures (Rising(s, false) ==> s[i] <= s[j]) && (Rising(s, true) ==> s[i] < s[j])
    {
      if Rising(s, false) { Climbs(s, false, i, j); }
      if Rising(s, true) { Climbs(s, true, i, j); }
    }
  }
}
