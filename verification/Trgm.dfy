/** Trigram similarity and the index keys that bound it from above. */
module Trgm {
  import opened Wrappers
  import opened Signature
  import opened Sorting

  /** trgm: three chars, compared as numbers. */
  datatype Trgm = Trgm(a: int, b: int, c: int)

  function CmpChar(x: int, y: int): int { if x == y then 0 else if x < y then -1 else 1 }

  /** CMPTRGM */
  function CmpTrgm(s: Trgm, t: Trgm): int {
    if CmpChar(s.a, t.a) != 0 then CmpChar(s.a, t.a)
    else if CmpChar(s.b, t.b) != 0 then CmpChar(s.b, t.b)
    else CmpChar(s.c, t.c)
  }

  lemma CmpOrder(s: Trgm, t: Trgm, u: Trgm)
    ensures CmpTrgm(s, t) == 0 <==> s == t
    ensures CmpTrgm(s, t) < 0 <==> CmpTrgm(t, s) > 0
    ensures CmpTrgm(s, t) < 0 && CmpTrgm(t, u) <= 0 ==> CmpTrgm(s, u) < 0
  {
  }

  /** By the first character that differs. */
  lemma CmpMeans(s: Trgm, t: Trgm)
    ensures CmpTrgm(s, t) < 0 <==> s.a < t.a || (s.a == t.a && (s.b < t.b || (s.b == t.b && s.c < t.c)))
  {
  }

  /** What generate_trgm makes: in order, without repeats. */
  ghost predicate Sorted(ts: seq<Trgm>) {
    forall i, j {:trigger CmpTrgm(ts[i], ts[j])} :: 0 <= i < j < |ts| ==> CmpTrgm(ts[i], ts[j]) < 0
  }

  lemma SortedDistinct(ts: seq<Trgm>)
    requires Sorted(ts)
    ensures |Elems(ts)| == |ts|
  {
    forall i, j | 0 <= i < j < |ts| ensures ts[i] != ts[j] {
      assert CmpTrgm(ts[i], ts[j]) < 0;
    }
    CountElems(ts);
  }

  /** In order, repeats allowed, as qsort leaves them. */
  ghost predicate Ordered(ts: seq<Trgm>) {
    forall i, j {:trigger CmpTrgm(ts[i], ts[j])} :: 0 <= i < j < |ts| ==> CmpTrgm(ts[i], ts[j]) <= 0
  }

  lemma SortedSnoc(r: seq<Trgm>, x: Trgm)
    requires Sorted(r) && (r == [] || CmpTrgm(r[|r| - 1], x) < 0)
    ensures Sorted(r + [x])
  {
    var n := |r|;
    forall i | 0 <= i < n ensures CmpTrgm(r[i], x) < 0 {
      if i < n - 1 {
        assert CmpTrgm(r[i], r[n - 1]) < 0;
        CmpOrder(r[i], r[n - 1], x);
      }
    }
  }

  lemma {:induction false} DedupSorts(s: seq<Trgm>, k: nat)
    requires k <= |s| && Ordered(s)
    ensures Sorted(Dedup(s, k)) && Elems(Dedup(s, k)) == Elems(s[..k])
  {
    if k > 0 {
      DedupSorts(s, k - 1);
      ElemsTake(s, k - 1);
      if k > 1 && s[k - 1] == s[k - 2] {
        assert s[..k - 1][k - 2] == s[k - 1];
      } else {
        var r := Dedup(s, k - 1);
        if k > 1 {
          assert CmpTrgm(s[k - 2], s[k - 1]) <= 0;
          CmpOrder(s[k - 2], s[k - 1], s[k - 1]);
        }
        SortedSnoc(r, s[k - 1]);
        assert Elems(r + [s[k - 1]]) == Elems(r) + {s[k - 1]};
      }
    }
  }

  /** unique_array: CMPTRGM is non-zero exactly between different trigrams. */
  method UniqueArray(a: array<Trgm>, len: nat) returns (m: nat)
    requires 1 <= len <= a.Length && Ordered(a[..len])
    modifies a
    ensures m <= len && Sorted(a[..m]) && Elems(a[..m]) == old(Elems(a[..len]))
  {
    ghost var s := a[..len];
    m := DedupPrefix(a, len);
    DedupSorts(s, len);
    assert s[..len] == s;
  }

  // Similarity

  /** Division of two counts as the floating-point unit rounds it. */
  type Rounding = real -> real

  ghost predicate Monotone(rnd: Rounding) {
    forall x, y :: x <= y ==> rnd(x) <= rnd(y)
  }

  /** Shared over united trigrams; nothing when both are empty (0/0). */
  ghost function Similarity(x: set<Trgm>, y: set<Trgm>, rnd: Rounding): Option<real> {
    if x + y == {} then None else Some(rnd(|x * y| as real / |x + y| as real))
  }

  /** The merge so far: count shared ones behind the cursors, none shared across them. */
  ghost predicate Counting(s: seq<Trgm>, t: seq<Trgm>, i: nat, j: nat, count: nat) {
    && i <= |s| && j <= |t|
    && count == |Elems(s[..i]) * Elems(t[..j])|
    && (forall k, l {:trigger CmpTrgm(s[k], t[l])} :: 0 <= k < i && j <= l < |t| ==> CmpTrgm(s[k], t[l]) < 0)
    && (forall k, l {:trigger CmpTrgm(t[l], s[k])} :: i <= k < |s| && 0 <= l < j ==> CmpTrgm(t[l], s[k]) < 0)
  }

  lemma ElemsTake(s: seq<Trgm>, i: nat)
    requires i < |s|
    ensures Elems(s[..i + 1]) == Elems(s[..i]) + {s[i]}
  {
    assert s[..i + 1] == s[..i] + [s[i]];
  }

  lemma NotBehind(t: seq<Trgm>, x: Trgm, j: nat)
    requires j <= |t| && forall l {:trigger CmpTrgm(t[l], x)} :: 0 <= l < j ==> CmpTrgm(t[l], x) < 0
    ensures x !in Elems(t[..j])
  {
    if x in Elems(t[..j]) {
      var l :| 0 <= l < j && t[..j][l] == x;
      CmpOrder(t[l], x, x);
    }
  }

  lemma Mirror(s: seq<Trgm>, t: seq<Trgm>, i: nat, j: nat, count: nat)
    requires Counting(s, t, i, j, count)
    ensures Counting(t, s, j, i, count)
  {
    assert Elems(s[..i]) * Elems(t[..j]) == Elems(t[..j]) * Elems(s[..i]);
  }

  /** The smaller trigram is passed over. */
  lemma PassSmaller(s: seq<Trgm>, t: seq<Trgm>, i: nat, j: nat, count: nat)
    requires Sorted(s) && Sorted(t) && Counting(s, t, i, j, count) && i < |s| && j < |t| && CmpTrgm(s[i], t[j]) < 0
    ensures Counting(s, t, i + 1, j, count)
  {
    ElemsTake(s, i);
    NotBehind(t, s[i], j);
    assert Elems(s[..i + 1]) * Elems(t[..j]) == Elems(s[..i]) * Elems(t[..j]);
    forall k, l | 0 <= k < i + 1 && j <= l < |t| ensures CmpTrgm(s[k], t[l]) < 0 {
      CmpOrder(s[i], t[j], t[l]);
      CmpOrder(t[j], t[l], t[l]);
      assert j < l ==> CmpTrgm(t[j], t[l]) < 0;
    }
  }

  lemma PassEqual(s: seq<Trgm>, t: seq<Trgm>, i: nat, j: nat, count: nat)
    requires Sorted(s) && Sorted(t) && Counting(s, t, i, j, count) && i < |s| && j < |t| && s[i] == t[j]
    ensures Counting(s, t, i + 1, j + 1, count + 1)
  {
    CountEqual(s, t, i, j);
    forall k, l | 0 <= k < i + 1 && j + 1 <= l < |t| ensures CmpTrgm(s[k], t[l]) < 0 {
      assert CmpTrgm(t[j], t[l]) < 0;
    }
    forall k, l | i + 1 <= k < |s| && 0 <= l < j + 1 ensures CmpTrgm(t[l], s[k]) < 0 {
      assert CmpTrgm(s[i], s[k]) < 0;
    }
  }

  lemma CountEqual(s: seq<Trgm>, t: seq<Trgm>, i: nat, j: nat)
    requires i < |s| && j < |t| && s[i] == t[j]
    requires forall k, l {:trigger CmpTrgm(s[k], t[l])} :: 0 <= k < i && j <= l < |t| ==> CmpTrgm(s[k], t[l]) < 0
    requires forall k, l {:trigger CmpTrgm(t[l], s[k])} :: i <= k < |s| && 0 <= l < j ==> CmpTrgm(t[l], s[k]) < 0
    ensures |Elems(s[..i + 1]) * Elems(t[..j + 1])| == |Elems(s[..i]) * Elems(t[..j])| + 1
  {
    ElemsTake(s, i);
    ElemsTake(t, j);
    NotBehind(t, s[i], j);
    BehindToo(s, t, i, j);
    OneMore(Elems(s[..i]), Elems(t[..j]), s[i]);
  }

  lemma OneMore(a: set<Trgm>, b: set<Trgm>, x: Trgm)
    requires x !in a && x !in b
    ensures |(a + {x}) * (b + {x})| == |a * b| + 1
  {
    assert (a + {x}) * (b + {x}) == a * b + {x};
  }

  lemma BehindToo(s: seq<Trgm>, t: seq<Trgm>, i: nat, j: nat)
    requires i <= |s| && j < |t| && forall k, l {:trigger CmpTrgm(s[k], t[l])} :: 0 <= k < i && j <= l < |t| ==>
      CmpTrgm(s[k], t[l]) < 0
    ensures t[j] !in Elems(s[..i])
  {
    NotBehind(s, t[j], i);
  }

  lemma CountDone(s: seq<Trgm>, t: seq<Trgm>, i: nat, j: nat, count: nat)
    requires Counting(s, t, i, j, count) && i == |s|
    ensures count == |Elems(s) * Elems(t)|
  {
    assert s[..i] == s;
    forall x | x in Elems(s) && x in Elems(t) ensures x in Elems(t[..j]) {
      var l :| 0 <= l < |t| && t[l] == x;
      if l >= j {
        var k :| 0 <= k < |s| && s[k] == x;
        CmpOrder(s[k], t[l], x);
      } else {
        assert t[..j][l] == x;
      }
    }
    assert Elems(s) * Elems(t) == Elems(s) * Elems(t[..j]);
  }

  method CountShared(s: seq<Trgm>, t: seq<Trgm>) returns (count: nat)
    requires Sorted(s) && Sorted(t)
    ensures count == |Elems(s) * Elems(t)|
  {
    var i, j := 0, 0;
    count := 0;
    while i < |s| && j < |t|
      invariant 0 <= i <= |s| && 0 <= j <= |t| && Counting(s, t, i, j, count)
    {
      var res := CmpTrgm(s[i], t[j]);
      CmpOrder(s[i], t[j], t[j]);
      if res < 0 {
        PassSmaller(s, t, i, j, count);
        i := i + 1;
      } else if res > 0 {
        Mirror(s, t, i, j, count);
        PassSmaller(t, s, j, i, count);
        Mirror(t, s, j + 1, i, count);
        j := j + 1;
      } else {
        PassEqual(s, t, i, j, count);
        i, j, count := i + 1, j + 1, count + 1;
      }
    }
    if i == |s| {
      CountDone(s, t, i, j, count);
    } else {
      Mirror(s, t, i, j, count);
      CountDone(t, s, j, i, count);
      assert Elems(t) * Elems(s) == Elems(s) * Elems(t);
    }
  }

  lemma UnionSize(x: set<Trgm>, y: set<Trgm>)
    ensures |x + y| == |x| + |y| - |x * y|
    ensures x + y == {} <==> |x + y| == 0
  {
  }

  /** cnt_sml: the shared trigrams over the united ones. */
  method CntSml(s: seq<Trgm>, t: seq<Trgm>, rnd: Rounding) returns (r: Option<real>)
    requires Sorted(s) && Sorted(t)
    ensures r == Similarity(Elems(s), Elems(t), rnd)
    ensures r.None? <==> s == [] && t == []
    ensures r.Some? ==> r.value == rnd(|Elems(s) * Elems(t)| as real / |Elems(s) + Elems(t)| as real)
  {
    var count := CountShared(s, t);
    SortedDistinct(s);
    SortedDistinct(t);
    UnionSize(Elems(s), Elems(t));
    var all := |s| + |t| - count;
    if all == 0 {
      return None;
    }
    return Some(rnd(count as real / all as real));
  }

  // Keys

  const SIGLEN := 12 // sizeof(int) * SIGLENINT
  const SIGLENBIT := 95

  /** A trigram's three bytes copied into an integer, as an unsigned value. */
  type Code = Trgm -> nat

  function HashVal(code: Code, t: Trgm): nat { HashIndex(code(t), SIGLENBIT) }

  ghost function TrgmBits(code: Code, ts: seq<Trgm>, n: nat): set<nat>
    requires n <= |ts|
  {
    if n == 0 then {} else TrgmBits(code, ts, n - 1) + {HashVal(code, ts[n - 1])}
  }

  lemma {:induction false} TrgmBitsIn(code: Code, ts: seq<Trgm>, n: nat, j: nat)
    requires j < n <= |ts|
    ensures HashVal(code, ts[j]) in TrgmBits(code, ts, n)
  {
    if j < n - 1 { TrgmBitsIn(code, ts, n - 1, j); }
  }

  lemma {:induction false} TrgmBitsWithin(code: Code, ts: seq<Trgm>, n: nat)
    requires n <= |ts|
    ensures TrgmBits(code, ts, n) <= AllBits(SIGLEN)
  {
    if n > 0 {
      TrgmBitsWithin(code, ts, n - 1);
      AllBitsAre(SIGLEN, HashVal(code, ts[n - 1]));
    }
  }

  method HashAll(sign: array<bv8>, code: Code, ts: seq<Trgm>)
    requires sign.Length == SIGLEN
    modifies sign
    ensures Bits(sign[..]) == old(Bits(sign[..])) + TrgmBits(code, ts, |ts|)
  {
    ghost var was := Bits(sign[..]);
    for i := 0 to |ts|
      invariant Bits(sign[..]) == was + TrgmBits(code, ts, i)
    {
      SetBitIn(sign, HashVal(code, ts[i]));
    }
  }

  /** makesign: the bits of the trigrams and the last, unused one. */
  method MakeSign(code: Code, ts: seq<Trgm>) returns (r: Sign)
    ensures |r| == SIGLEN && Bits(r) == TrgmBits(code, ts, |ts|) + {SIGLENBIT}
  {
    var sign := new bv8[SIGLEN](_ => 0);
    assert sign[..] == Zero(SIGLEN);
    SetBitIn(sign, SIGLENBIT);
    HashAll(sign, code, ts);
    return sign[..];
  }

  /** Entries: trigrams at a leaf, a signature above. */
  datatype Tree = Leaf(value: seq<Trgm>) | Inner(key: GKey, children: seq<Tree>) {
    ghost function KeyBitsOf(code: Code): set<nat> {
      if Leaf? then TrgmBits(code, value, |value|) else KeyBits(key, SIGLEN)
    }

    ghost predicate WellBuilt(code: Code) {
      && (Leaf? ==> Sorted(value))
      && (Inner? ==> KeyOk(key, SIGLEN) && forall i :: 0 <= i < |children| ==>
            children[i].KeyBitsOf(code) <= KeyBits(key, SIGLEN) && children[i].WellBuilt(code))
    }

    ghost predicate Holds(x: seq<Trgm>) {
      if Leaf? then value == x else exists i :: 0 <= i < |children| && children[i].Holds(x)
    }
  }

  /** unionkey; tells whether the entry is all true. */
  method UnionKey(base: array<bv8>, add: Tree, code: Code) returns (all: bool)
    requires base.Length == SIGLEN && add.WellBuilt(code)
    modifies base
    ensures all ==> add.Inner? && add.key.AllTrue?
    ensures !all ==> Bits(base[..]) == old(Bits(base[..])) + add.KeyBitsOf(code)
  {
    if add.Inner? {
      if add.key.AllTrue? {
        return true;
      }
      OrInto(base, add.key.sign);
    } else {
      HashAll(base, code, add.value);
    }
    return false;
  }

  lemma {:induction false} WithinAll(t: Tree, code: Code)
    requires t.WellBuilt(code)
    ensures t.KeyBitsOf(code) <= AllBits(SIGLEN)
  {
    if t.Leaf? {
      TrgmBitsWithin(code, t.value, |t.value|);
    } else if t.key.Signed? {
      OnesBits(t.key.sign);
    }
  }

  /** gtrgm_union over a page. */
  method Union(es: seq<Tree>, code: Code) returns (t: Tree)
    requires forall i :: 0 <= i < |es| ==> es[i].WellBuilt(code)
    ensures t.Inner? && t.children == es && t.WellBuilt(code)
  {
    var base := new bv8[SIGLEN](_ => 0);
    forall i | 0 <= i < |es| ensures es[i].KeyBitsOf(code) <= AllBits(SIGLEN) { WithinAll(es[i], code); }
    for i := 0 to |es|
      invariant forall j :: 0 <= j < i ==> es[j].KeyBitsOf(code) <= Bits(base[..])
    {
      var all := UnionKey(base, es[i], code);
      if all {
        return Tree.Inner(AllTrue, es);
      }
    }
    t := Tree.Inner(Signed(base[..]), es);
  }

  // Search

  ghost function Hits(code: Code, ts: seq<Trgm>, n: nat, bits: set<nat>): nat
    requires n <= |ts|
  {
    if n == 0 then 0 else Hits(code, ts, n - 1, bits) + if HashVal(code, ts[n - 1]) in bits then 1 else 0
  }

  /** gtrgm_consistent above the leaves: as many hits as there could be shared trigrams. */
  ghost predicate Possible(h: nat, len: nat, limit: real, rnd: Rounding)
    requires h <= len
  {
    len == h || rnd(h as real / (len - h) as real) >= limit
  }

  /** Without rounding: the hits are at least the limit times the misses. */
  lemma PossibleMeans(h: nat, len: nat, limit: real)
    requires h <= len
    ensures Possible(h, len, limit, x => x) <==> h == len || h as real >= limit * (len - h) as real
  {
  }

  lemma {:induction false} HitsBounded(code: Code, ts: seq<Trgm>, n: nat, bits: set<nat>)
    requires n <= |ts|
    ensures Hits(code, ts, n, bits) <= n
  {
    if n > 0 { HitsBounded(code, ts, n - 1, bits); }
  }

  method Consistent(key: GKey, q: seq<Trgm>, code: Code, limit: real, rnd: Rounding) returns (res: bool)
    requires KeyOk(key, SIGLEN)
    ensures Hits(code, q, |q|, KeyBits(key, SIGLEN)) <= |q|
    ensures res <==> key.AllTrue? || Possible(Hits(code, q, |q|, KeyBits(key, SIGLEN)), |q|, limit, rnd)
  {
    HitsBounded(code, q, |q|, KeyBits(key, SIGLEN));
    if key.AllTrue? {
      return true;
    }
    var count := 0;
    for k := 0 to |q|
      invariant 0 <= count == Hits(code, q, k, Bits(key.sign))
    {
      if GetBit(key.sign, HashVal(code, q[k])) {
        count := count + 1;
      }
    }
    return |q| == count || rnd(count as real / (|q| - count) as real) >= limit;
  }

  /** Every shared trigram hits. */
  lemma {:induction false} SharedHit(code: Code, x: seq<Trgm>, q: seq<Trgm>, n: nat, bits: set<nat>)
    requires n <= |q| && TrgmBits(code, x, |x|) <= bits
    ensures |Elems(x) * Elems(q[..n])| <= Hits(code, q, n, bits)
  {
    if n > 0 {
      SharedHit(code, x, q, n - 1, bits);
      ElemsTake(q, n - 1);
      var t, fewer := q[n - 1], Elems(x) * Elems(q[..n - 1]);
      if t in Elems(x) {
        var j :| 0 <= j < |x| && x[j] == t;
        TrgmBitsIn(code, x, |x|, j);
        assert Elems(x) * Elems(q[..n]) == fewer + {t};
      } else {
        assert Elems(x) * Elems(q[..n]) == fewer;
      }
    } else {
      assert Elems(x) * Elems(q[..0]) == {};
    }
  }

  /** c shared of u united is at most h over the rest, when c <= h and the query is within the union. */
  lemma Ratio(c: nat, u: nat, h: nat, len: nat)
    requires c <= h < len <= u
    ensures c as real / u as real <= h as real / (len - h) as real
  {
    var d := (len - h) as real;
    assert 0.0 < d <= u as real;
    assert c as real / u as real <= h as real / u as real;
    Divide(h as real, d, u as real);
  }

  lemma Divide(h: real, d: real, u: real)
    requires 0.0 <= h && 0.0 < d <= u
    ensures h / u <= h / d
  {
    assert h / u * u == h && h / d * d == h;
    if h / u > h / d {
      Times(h / d, h / u, d, u);
    }
  }

  lemma Times(x: real, y: real, d: real, u: real)
    requires 0.0 <= x < y && 0.0 < d <= u
    ensures x * d < y * u
  {
    assert x * d < y * d;
    assert y * d <= y * u;
  }

  /** If c of u clears the limit, so do h hits of len, when c <= h and the query is within the union. */
  lemma HitsClear(c: nat, u: nat, h: nat, len: nat, limit: real, rnd: Rounding)
    requires Monotone(rnd) && c <= h <= len <= u && u > 0 && rnd(c as real / u as real) >= limit
    ensures Possible(h, len, limit, rnd)
  {
    if h < len { Ratio(c, u, h, len); }
  }

  lemma Counts(x: seq<Trgm>, q: seq<Trgm>)
    requires Sorted(x) && Sorted(q)
    ensures |Elems(x) * Elems(q)| <= |q| <= |Elems(x) + Elems(q)|
    ensures Elems(x) + Elems(q) == {} <==> |Elems(x) + Elems(q)| == 0
  {
    SortedDistinct(q);
    Subset(Elems(x) * Elems(q), Elems(q));
    Subset(Elems(q), Elems(x) + Elems(q));
  }

  /** A key that covers a row similar enough to the query never rejects it, however division rounds. */
  lemma {:induction false} NeverMisses(x: seq<Trgm>, q: seq<Trgm>, key: GKey, code: Code, limit: real, rnd: Rounding)
    requires Sorted(x) && Sorted(q) && Monotone(rnd) && KeyOk(key, SIGLEN)
    requires TrgmBits(code, x, |x|) <= KeyBits(key, SIGLEN)
    requires var s := Similarity(Elems(x), Elems(q), rnd); s.Some? && s.value >= limit
    ensures Hits(code, q, |q|, KeyBits(key, SIGLEN)) <= |q|
    ensures Possible(Hits(code, q, |q|, KeyBits(key, SIGLEN)), |q|, limit, rnd)
  {
    var bits := KeyBits(key, SIGLEN);
    HitsBounded(code, q, |q|, bits);
    SharedHit(code, x, q, |q|, bits);
    assert q[..|q|] == q;
    Counts(x, q);
    HitsClear(|Elems(x) * Elems(q)|, |Elems(x) + Elems(q)|, Hits(code, q, |q|, bits), |q|, limit, rnd);
  }

  ghost function TrueCount(check: seq<bool>, n: nat): nat
    requires n <= |check|
  {
    if n == 0 then 0 else TrueCount(check, n - 1) + if check[n - 1] then 1 else 0
  }

  lemma {:induction false} TrueCountBounded(check: seq<bool>, n: nat)
    requires n <= |check|
    ensures TrueCount(check, n) <= n
  {
    if n > 0 { TrueCountBounded(check, n - 1); }
  }

  /** gin_trgm_consistent: counts the answers for the trigrams of the query. */
  method GinConsistent(check: seq<bool>, limit: real, rnd: Rounding) returns (res: bool)
    ensures TrueCount(check, |check|) <= |check|
    ensures res <==> Possible(TrueCount(check, |check|), |check|, limit, rnd)
  {
    TrueCountBounded(check, |check|);
    var trglen := |check|;
    var ntrue := 0;
    for i := 0 to trglen
      invariant 0 <= ntrue == TrueCount(check, i)
    {
      if check[i] {
        ntrue := ntrue + 1;
      }
    }
    return trglen == ntrue || rnd(ntrue as real / (trglen - ntrue) as real) >= limit;
  }

  /** Right answers count exactly the shared trigrams. */
  lemma {:induction false} AnswersCount(x: seq<Trgm>, q: seq<Trgm>, check: seq<bool>, n: nat)
    requires Sorted(q) && |check| == |q| && n <= |q| && forall i :: 0 <= i < |q| ==> (check[i] <==> q[i] in x)
    ensures TrueCount(check, n) == |Elems(x) * Elems(q[..n])|
  {
    if n == 0 {
      assert Elems(x) * Elems(q[..0]) == {};
    } else {
      AnswersCount(x, q, check, n - 1);
      ElemsTake(q, n - 1);
      SortedSoFar(q, n - 1);
      OneShared(Elems(x), Elems(q[..n - 1]), q[n - 1]);
    }
  }

  lemma OneShared(x: set<Trgm>, e: set<Trgm>, t: Trgm)
    requires t !in e
    ensures |x * (e + {t})| == |x * e| + if t in x then 1 else 0
  {
    assert x * (e + {t}) == if t in x then x * e + {t} else x * e;
  }

  lemma SortedSoFar(q: seq<Trgm>, n: nat)
    requires Sorted(q) && n < |q|
    ensures q[n] !in Elems(q[..n])
  {
    forall l | 0 <= l < n ensures CmpTrgm(q[l], q[n]) < 0 {
    }
    NotBehind(q, q[n], n);
  }

  /** With an answer for each trigram of the query, the inverted index rejects no row similar enough. */
  lemma {:induction false} GinNeverMisses(x: seq<Trgm>, q: seq<Trgm>, check: seq<bool>, limit: real, rnd: Rounding)
    requires Sorted(x) && Sorted(q) && Monotone(rnd)
    requires |check| == |q| && forall i :: 0 <= i < |q| ==> (check[i] <==> q[i] in x)
    requires var s := Similarity(Elems(x), Elems(q), rnd); s.Some? && s.value >= limit
    ensures var c := TrueCount(check, |check|); c <= |check| && Possible(c, |check|, limit, rnd)
  {
    Counts(x, q);
    AnswersCount(x, q, check, |q|);
    assert q[..|q|] == q;
    var c := |Elems(x) * Elems(q)|;
    HitsClear(c, |Elems(x) + Elems(q)|, c, |q|, limit, rnd);
  }

  lemma {:induction false} CoversLeaves(t: Tree, x: seq<Trgm>, code: Code)
    requires t.WellBuilt(code) && t.Holds(x)
    ensures Sorted(x) && TrgmBits(code, x, |x|) <= t.KeyBitsOf(code)
  {
    if t.Inner? {
      var i :| 0 <= i < |t.children| && t.children[i].Holds(x);
      CoversLeaves(t.children[i], x, code);
    }
  }

  /** No signature above a similar row rejects the query. */
  lemma {:induction false} SearchIsComplete(t: Tree, x: seq<Trgm>, q: seq<Trgm>, code: Code, limit: real, rnd: Rounding)
    requires t.WellBuilt(code) && t.Holds(x) && t.Inner? && Sorted(x) && Sorted(q) && Monotone(rnd)
    requires var s := Similarity(Elems(x), Elems(q), rnd); s.Some? && s.value >= limit
    ensures Hits(code, q, |q|, KeyBits(t.key, SIGLEN)) <= |q|
    ensures t.key.AllTrue? || Possible(Hits(code, q, |q|, KeyBits(t.key, SIGLEN)), |q|, limit, rnd)
  {
    CoversLeaves(t, x, code);
    NeverMisses(x, q, t.key, code, limit, rnd);
  }
}
