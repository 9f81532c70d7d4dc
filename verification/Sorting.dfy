/**
  The C library's qsort, taken by its contract: some sorted permutation, with no
  promise about the order of elements that compare equal.
 */
module Sorting {
  ghost predicate TotalPreorder<T(!new)>(leq: (T, T) -> bool) {
    && (forall x, y :: leq(x, y) || leq(y, x))
    && (forall x, y, z :: leq(x, y) && leq(y, z) ==> leq(x, z))
  }

  ghost predicate SortedBy<T>(s: seq<T>, leq: (T, T) -> bool) {
    forall i, j {:trigger leq(s[i], s[j])} :: 0 <= i < j < |s| ==> leq(s[i], s[j])
  }

  lemma SortedPair<T>(s: seq<T>, leq: (T, T) -> bool, i: nat, j: nat)
    requires SortedBy(s, leq) && i < j < |s|
    ensures leq(s[i], s[j])
  {
  }

  function Elems<T>(s: seq<T>): set<T> {
    set x | x in s
  }

  lemma {:induction false} Subset<T>(a: set<T>, b: set<T>)
    requires a <= b
    ensures |a| <= |b|
  {
    if a != {} {
      var x :| x in a;
      Subset(a - {x}, b - {x});
    }
  }

  /** A sequence that lists a set lists no element twice. */
  lemma ListsOnce<T>(s: seq<T>, keys: set<T>)
    requires multiset(s) == multiset(keys)
    ensures |s| == |keys| && Elems(s) == keys
    ensures forall i, j :: 0 <= i < j < |s| ==> s[i] != s[j]
  {
    assert |multiset(s)| == |multiset(keys)|;
    forall x ensures x in s <==> x in keys {
      assert x in s <==> x in multiset(s);
    }
    forall i, j | 0 <= i < j < |s| ensures s[i] != s[j] {
      assert s == s[..j] + [s[j]] + s[j + 1..];
      assert multiset(s)[s[j]] <= 1;
      assert s[j] !in multiset(s[..j]);
      assert s[i] == s[..j][i];
    }
  }

  lemma {:induction false} CountElems<T>(s: seq<T>)
    requires forall i, j :: 0 <= i < j < |s| ==> s[i] != s[j]
    ensures |Elems(s)| == |s|
  {
    if s != [] {
      var p, x := s[..|s| - 1], s[|s| - 1];
      CountElems(p);
      assert s == p + [x];
      assert Elems(s) == Elems(p) + {x};
    }
  }

  lemma InsertAt<T>(s: seq<T>, k: nat, x: T, leq: (T, T) -> bool)
    requires SortedBy(s, leq) && k <= |s|
    requires forall i :: 0 <= i < k ==> leq(s[i], x)
    requires forall i :: k <= i < |s| ==> leq(x, s[i])
    ensures SortedBy(s[..k] + [x] + s[k..], leq)
    ensures multiset(s[..k] + [x] + s[k..]) == multiset(s) + multiset{x}
  {
    assert s == s[..k] + s[k..];
  }

  method Insert<T(!new)>(s: seq<T>, x: T, leq: (T, T) -> bool) returns (r: seq<T>)
    ensures multiset(r) == multiset(s) + multiset{x}
    ensures TotalPreorder(leq) && SortedBy(s, leq) ==> SortedBy(r, leq)
  {
    var k := 0;
    while k < |s| && leq(s[k], x)
      invariant 0 <= k <= |s| && forall i :: 0 <= i < k ==> leq(s[i], x)
    {
      k := k + 1;
    }
    r := s[..k] + [x] + s[k..];
    assert s == s[..k] + s[k..];
    if TotalPreorder(leq) && SortedBy(s, leq) {
      forall i | k <= i < |s| ensures leq(x, s[i]) {
        assert leq(x, s[k]);
        assert k < i ==> leq(s[k], s[i]);
      }
      InsertAt(s, k, x, leq);
    }
  }

  /** A comparison that is no order still leaves a permutation. */
  method QSort<T(!new)>(s: seq<T>, leq: (T, T) -> bool) returns (r: seq<T>)
    ensures multiset(r) == multiset(s)
    ensures TotalPreorder(leq) ==> SortedBy(r, leq)
  {
    r := [];
    for k := 0 to |s|
      invariant multiset(r) == multiset(s[..k])
      invariant TotalPreorder(leq) ==> SortedBy(r, leq)
    {
      r := Insert(r, s[k], leq);
      assert s[..k + 1] == s[..k] + [s[k]];
    }
    assert s[..|s|] == s;
  }

  /** qsort on an array prefix, in place. */
  method QSortPrefix<T(!new)>(a: array<T>, n: nat, leq: (T, T) -> bool)
    requires TotalPreorder(leq) && n <= a.Length
    modifies a
    ensures SortedBy(a[..n], leq) && multiset(a[..n]) == multiset(old(a[..n]))
    ensures a[n..] == old(a[n..])
  {
    var r := QSort(a[..n], leq);
    assert |r| == |multiset(r)| == |multiset(a[..n])| == n;
    forall i | 0 <= i < n {
      a[i] := r[i];
    }
    assert a[..n] == r;
  }

  // Removing neighbours that repeat

  /** The first k elements without those that repeat their predecessor. */
  ghost function Dedup<T>(s: seq<T>, k: nat): (r: seq<T>)
    requires k <= |s|
    ensures |r| <= k && (k > 0 ==> r != [] && r[|r| - 1] == s[k - 1])
  {
    if k == 0 then [] else
      var r := Dedup(s, k - 1);
      if k > 1 && s[k - 1] == s[k - 2] then r else r + [s[k - 1]]
  }

  /** Where the loop stands: the front holds what s[..tmp] leaves, the rest is untouched. */
  ghost predicate Fronted<T>(a: seq<T>, s: seq<T>, tmp: nat, dr: nat) {
    && dr <= tmp <= |s| <= |a| && dr < |s|
    && a[tmp..|s|] == s[tmp..]
    && (if tmp == 0 then dr == 0 else dr < tmp && a[..dr + 1] == Dedup(s, tmp))
  }

  lemma FrontStep<T>(a: seq<T>, s: seq<T>, tmp: nat, dr: nat)
    requires Fronted(a, s, tmp, dr) && tmp < |s|
    ensures a[tmp] == a[dr] ==> Fronted(a, s, tmp + 1, dr)
    ensures a[tmp] != a[dr] ==> dr + 1 < |s| && Fronted(a[dr + 1 := a[tmp]], s, tmp + 1, dr + 1)
  {
    assert a[tmp] == a[tmp..|s|][0] == s[tmp];
    if tmp == 0 {
      assert a[..1] == Dedup(s, 1);
    } else {
      assert a[dr] == a[..dr + 1][dr] == s[tmp - 1];
      assert a[tmp + 1..|s|] == a[tmp..|s|][1..] == s[tmp + 1..];
      if a[tmp] != a[dr] {
        var b := a[dr + 1 := a[tmp]];
        assert b[..dr + 2] == a[..dr + 1] + [s[tmp]];
        assert b[tmp + 1..|s|] == a[tmp + 1..|s|];
      }
    }
  }

  method Place<T(==)>(a: array<T>, ghost s: seq<T>, tmp: nat, dr: nat) returns (dr': nat)
    requires Fronted(a[..], s, tmp, dr) && tmp < |s|
    modifies a
    ensures Fronted(a[..], s, tmp + 1, dr')
  {
    ghost var was := a[..];
    FrontStep(was, s, tmp, dr);
    dr' := dr;
    if a[tmp] != a[dr] {
      dr' := dr + 1;
      a[dr'] := a[tmp];
      assert a[..] == was[dr + 1 := was[tmp]];
    }
  }

  /** The loop of _int_unique and of unique_array, in place on the first n elements. */
  method DedupPrefix<T(==)>(a: array<T>, n: nat) returns (m: nat)
    requires 1 <= n <= a.Length
    modifies a
    ensures m <= n && a[..m] == Dedup(old(a[..n]), n)
  {
    ghost var s := a[..n];
    var tmp, dr := 0, 0;
    assert a[..][0..n] == s[0..];
    while tmp < n
      invariant 0 <= dr <= tmp <= n && Fronted(a[..], s, tmp, dr)
    {
      dr := Place(a, s, tmp, dr);
      tmp := tmp + 1;
    }
    m := dr + 1;
    assert a[..m] == a[..][..m];
  }
}
