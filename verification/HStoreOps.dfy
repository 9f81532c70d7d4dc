/**
  The operators of hstore_op.c. Each is proved to be the corresponding operation on
  finite maps and to return a valid, hence canonical, value.
 */
module HStoreOps {
  import opened Wrappers
  import opened Bytes
  import opened HStoreLayout
  import opened HStoreBuild

  /** The key test the merge loops share: lengths first, then strncmp. */
  function Difference(a: Text, b: Text): int {
    if |a| == |b| then CompareN(a, b, |a|) else if |a| > |b| then 1 else -1
  }

  lemma DifferenceIsKeyCmp(a: Text, b: Text)
    ensures Difference(a, b) == KeyCmp(a, b)
    ensures KeyCmp(a, b) == -KeyCmp(b, a)
    ensures KeyCmp(a, b) == 0 <==> a == b
  {
    KeyOrder(a, b);
    if |a| == |b| {
      assert a[..|a|] == a && b[..|a|] == b;
    }
  }

  // hstoreFindKey

  ghost predicate FoundAt(ps: seq<Pair>, key: Text, idx: int) {
    if idx < 0 then idx == -1 && (forall i :: 0 <= i < |ps| ==> ps[i].key != key)
    else idx < |ps| && ps[idx].key == key
  }

  /** The answer of a search does not depend on where it started. */
  lemma FoundOnce(ps: seq<Pair>, key: Text, i: int, j: int)
    requires Sorted(ps) && FoundAt(ps, key, i) && FoundAt(ps, key, j)
    ensures i == j
  {
    KeyOrder(key, key);
    assert 0 <= i < j ==> KeyLess(ps[i].key, ps[j].key);
    assert 0 <= j < i ==> KeyLess(ps[j].key, ps[i].key);
  }

  /** Everything before low is smaller than the key. */
  ghost predicate Below(ps: seq<Pair>, low: nat, key: Text) {
    low <= |ps| && forall i {:trigger KeyLess(ps[i].key, key)} :: 0 <= i < low ==> KeyLess(ps[i].key, key)
  }

  lemma BelowLater(ps: seq<Pair>, low: nat, key: Text, later: Text)
    requires Below(ps, low, key) && KeyCmp(key, later) <= 0
    ensures Below(ps, low, later)
  {
    forall i | 0 <= i < low ensures KeyLess(ps[i].key, later) {
      assert KeyLess(ps[i].key, key);
      KeyLessTrans(ps[i].key, key, later);
    }
  }

  lemma BelowExtend(ps: seq<Pair>, m: nat, key: Text)
    requires Sorted(ps) && m < |ps| && KeyLess(ps[m].key, key)
    ensures Below(ps, m + 1, key)
  {
    forall i | 0 <= i < m + 1 ensures KeyLess(ps[i].key, key) {
      if i < m {
        assert KeyLess(ps[i].key, ps[m].key);
        KeyLessTrans(ps[i].key, ps[m].key, key);
      }
    }
  }

  ghost predicate Above(ps: seq<Pair>, high: nat, key: Text) {
    high <= |ps| && forall i {:trigger KeyLess(key, ps[i].key)} :: high <= i < |ps| ==> KeyLess(key, ps[i].key)
  }

  lemma AboveExtend(ps: seq<Pair>, m: nat, key: Text)
    requires Sorted(ps) && m < |ps| && KeyLess(key, ps[m].key)
    ensures Above(ps, m, key)
  {
    forall i | m <= i < |ps| ensures KeyLess(key, ps[i].key) {
      if m < i {
        assert KeyLess(ps[m].key, ps[i].key);
        KeyLessTrans(key, ps[m].key, ps[i].key);
      }
    }
  }

  lemma NotBetween(ps: seq<Pair>, low: nat, key: Text)
    requires Below(ps, low, key) && Above(ps, low, key)
    ensures FoundAt(ps, key, -1)
  {
    KeyOrder(key, key);
    forall i | 0 <= i < |ps| ensures ps[i].key != key {
      assert i < low ==> KeyLess(ps[i].key, key);
      assert i >= low ==> KeyLess(key, ps[i].key);
    }
  }

  /**
    hstoreFindKey with a lower bound from earlier searches for smaller keys. The new
    bound serves any search for a greater key.
   */
  method FindKey(hs: HStore, lowbound: nat, key: Text) returns (idx: int, low: nat)
    requires Valid(hs) && Below(Decode(hs), lowbound, key)
    ensures FoundAt(Decode(hs), key, idx)
    ensures forall later {:trigger KeyLess(key, later)} :: KeyLess(key, later) ==> Below(Decode(hs), low, later)
  {
    ghost var ps := Decode(hs);
    var stopLow: nat, stopHigh: nat := lowbound, hs.count;
    while stopLow < stopHigh
      invariant 0 <= stopLow <= stopHigh <= |ps|
      invariant Below(ps, stopLow, key) && Above(ps, stopHigh, key)
    {
      var m := stopLow + (stopHigh - stopLow) / 2;
      var difference := Difference(Key(hs, m), key);
      DifferenceIsKeyCmp(ps[m].key, key);
      if difference == 0 {
        forall later | KeyLess(key, later) ensures Below(ps, m + 1, later) {
          BelowExtend(ps, m, later);
        }
        return m, m + 1;
      } else if difference < 0 {
        BelowExtend(ps, m, key);
        stopLow := m + 1;
      } else {
        AboveExtend(ps, m, key);
        stopHigh := m;
      }
    }
    NotBetween(ps, stopLow, key);
    forall later | KeyLess(key, later) ensures Below(ps, stopLow, later) {
      BelowLater(ps, stopLow, key, later);
    }
    return -1, stopLow;
  }

  lemma {:induction false} FoundIsIn(ps: seq<Pair>, key: Text, idx: int)
    requires Sorted(ps) && FoundAt(ps, key, idx)
    ensures idx >= 0 <==> key in ToMap(ps)
    ensures idx >= 0 ==> ToMap(ps)[key] == ps[idx].val
  {
    ToMapAt(ps, key);
  }

  // The delete operators keep a subsequence of the pairs

  /** Deletion by key, or by key and equal value. */
  datatype Cut = ByKey | ByPair

  predicate Keeps(m: HMap, cut: Cut, p: Pair) {
    !(p.key in m && (cut == ByPair ==> m[p.key] == p.val))
  }

  function Filter(ps: seq<Pair>, m: HMap, cut: Cut): seq<Pair> {
    if ps == [] then [] else
      var q, p := ps[..|ps| - 1], ps[|ps| - 1];
      Filter(q, m, cut) + if Keeps(m, cut, p) then [p] else []
  }

  function Remaining(h: HMap, m: HMap, cut: Cut): HMap {
    map k | k in h && Keeps(m, cut, Pair(k, h[k])) :: h[k]
  }

  lemma {:induction false} FilterStep(ps: seq<Pair>, i: nat, m: HMap, cut: Cut)
    requires i < |ps|
    ensures Filter(ps[..i + 1], m, cut) == Filter(ps[..i], m, cut) + if Keeps(m, cut, ps[i]) then [ps[i]] else []
  {
    assert ps[..i + 1][..i] == ps[..i];
  }

  ghost predicate AllBelow(ps: seq<Pair>, k: Text) {
    Below(ps, |ps|, k)
  }

  lemma {:induction false} SortedSnoc(ps: seq<Pair>, p: Pair)
    requires Sorted(ps) && AllBelow(ps, p.key)
    ensures Sorted(ps + [p]) && ToMap(ps + [p]) == ToMap(ps)[p.key := p.val] && p.key !in ToMap(ps)
    ensures forall k {:trigger KeyLess(p.key, k)} :: KeyLess(p.key, k) ==> AllBelow(ps + [p], k)
  {
    var qs := ps + [p];
    forall i, j | 0 <= i < j < |qs| ensures KeyLess(qs[i].key, qs[j].key) {
      assert j < |ps| ==> KeyLess(ps[i].key, ps[j].key);
      assert j == |ps| ==> KeyLess(ps[i].key, p.key);
    }
    assert qs[..|ps|] == ps;
    FreshKey(ps, p.key);
    forall k | KeyLess(p.key, k) ensures AllBelow(qs, k) {
      BelowLater(ps, |ps|, p.key, k);
      forall i | 0 <= i < |qs| ensures KeyLess(qs[i].key, k) {
        assert i < |ps| ==> KeyLess(ps[i].key, k);
      }
    }
  }

  lemma RemainingSnoc(h: HMap, p: Pair, m: HMap, cut: Cut)
    requires p.key !in h
    ensures Remaining(h[p.key := p.val], m, cut) ==
            if Keeps(m, cut, p) then Remaining(h, m, cut)[p.key := p.val] else Remaining(h, m, cut)
  {
    assert Pair(p.key, p.val) == p;
  }

  lemma {:induction false} FilterBelow(ps: seq<Pair>, m: HMap, cut: Cut, k: Text)
    requires AllBelow(ps, k)
    ensures AllBelow(Filter(ps, m, cut), k)
  {
    if ps != [] {
      var q, p := ps[..|ps| - 1], ps[|ps| - 1];
      forall i | 0 <= i < |q| ensures KeyLess(q[i].key, k) {
        assert KeyLess(ps[i].key, k);
      }
      FilterBelow(q, m, cut, k);
      var f := Filter(q, m, cut);
      forall i | 0 <= i < |Filter(ps, m, cut)| ensures KeyLess(Filter(ps, m, cut)[i].key, k) {
        assert i < |f| ==> KeyLess(f[i].key, k);
        assert KeyLess(p.key, k);
      }
    }
  }

  lemma {:induction false} FilterSorted(ps: seq<Pair>, m: HMap, cut: Cut)
    requires Sorted(ps)
    ensures Sorted(Filter(ps, m, cut))
    ensures ToMap(Filter(ps, m, cut)) == Remaining(ToMap(ps), m, cut)
  {
    if ps != [] {
      var q, p := ps[..|ps| - 1], ps[|ps| - 1];
      SortedPrefix(ps, |q|);
      FilterSorted(q, m, cut);
      PrefixBelow(ps);
      FreshKey(q, p.key);
      RemainingSnoc(ToMap(q), p, m, cut);
      if Keeps(m, cut, p) {
        FilterBelow(q, m, cut, p.key);
        SortedSnoc(Filter(q, m, cut), p);
      } else {
        assert Filter(q, m, cut) + [] == Filter(q, m, cut);
      }
    }
  }

  lemma PrefixBelow(ps: seq<Pair>)
    requires Sorted(ps) && ps != []
    ensures AllBelow(ps[..|ps| - 1], ps[|ps| - 1].key)
  {
    var q, p := ps[..|ps| - 1], ps[|ps| - 1];
    forall i | 0 <= i < |q| ensures KeyLess(q[i].key, p.key) {
      assert KeyLess(ps[i].key, ps[|ps| - 1].key);
    }
  }

  lemma {:induction false} FilterSize(ps: seq<Pair>, m: HMap, cut: Cut)
    ensures |Filter(ps, m, cut)| <= |ps| && |Flat(Filter(ps, m, cut))| <= |Flat(ps)|
  {
    if ps != [] {
      var q, p := ps[..|ps| - 1], ps[|ps| - 1];
      FilterSize(q, m, cut);
      FlatSnoc(Filter(q, m, cut), p);
      assert Filter(q, m, cut) + [] == Filter(q, m, cut);
    }
  }

  /** HS_COPYITEM of pair i of an hstore. */
  method CopyPair(b: Builder, hs: HStore, i: nat)
    requires b.Valid() && Shaped(hs) && i < hs.count
    requires b.ed < b.slots
    requires b.pd + |Decode(hs)[i].key| + |Decode(hs)[i].ValBytes()| <= b.room
    modifies b, b.mem
    ensures b.Valid() && b.pairs == old(b.pairs) + [Decode(hs)[i]]
  {
    PairOf(hs, i);
    var off, k, v, isnull := KeyOff(hs.items, i), KeyLen(hs, i), ValLen(hs, i), ValIsNull(hs, i);
    ghost var p := Decode(hs)[i];
    assert |p.key| == k && |p.ValBytes()| == v;
    b.CopyItem(hs.str, off, k, v, isnull);
  }

  /** The bytes of pair i lie side by side. */
  lemma PairOf(hs: HStore, i: nat)
    requires Shaped(hs) && i < hs.count
    ensures var off, k, v := KeyOff(hs.items, i), KeyLen(hs, i), ValLen(hs, i);
      && 0 <= k && 0 <= v && off + k + v <= |hs.str| && (ValIsNull(hs, i) ==> v == 0)
      && Decode(hs)[i] == Pair(hs.str[off..off + k],
                               if ValIsNull(hs, i) then None else Some(hs.str[off + k..off + k + v]))
  {
    assert ItemOk(hs.items, i) && Decode(hs)[i] == PairAt(hs, i);
    ItemBounds(hs.items, |hs.str|, i);
  }

  /** A builder sized for hs has room for pair i after a filtered prefix. */
  lemma {:induction false} FilterRoom(hs: HStore, i: nat, m: HMap, cut: Cut)
    requires Shaped(hs) && i < hs.count
    ensures var f, p := Filter(Decode(hs)[..i], m, cut), Decode(hs)[i];
            |f| <= i && |Flat(f)| + |p.key| + |p.ValBytes()| <= |hs.str|
  {
    EncodeDecode(hs);
    RoomFor(Decode(hs), i);
    FilterSize(Decode(hs)[..i], m, cut);
  }

  lemma {:induction false} Filtered(hs: HStore, m: HMap, cut: Cut)
    requires Valid(hs)
    ensures var f := Filter(Decode(hs), m, cut);
            Fits(f) && Valid(Encode(f)) && Denotes(Encode(f)) == Remaining(Denotes(hs), m, cut)
  {
    EncodeDecode(hs);
    FilterSize(Decode(hs), m, cut);
    FilterSorted(Decode(hs), m, cut);
    EncodeValid(Filter(Decode(hs), m, cut));
  }

  /** b, sized like hs, holds the kept ones among the first i pairs of hs. */
  ghost predicate Filtering(b: Builder, hs: HStore, m: HMap, cut: Cut, i: nat)
    requires Shaped(hs)
    reads b, b.mem
  {
    && i <= hs.count && b.Valid() && b.pairs == Filter(Decode(hs)[..i], m, cut)
    && b.slots == hs.count && b.room == |hs.str|
  }

  method CopyIfKept(b: Builder, hs: HStore, i: nat, keep: bool, ghost m: HMap, ghost cut: Cut)
    requires Shaped(hs) && i < hs.count && Filtering(b, hs, m, cut, i)
    requires keep <==> Keeps(m, cut, Decode(hs)[i])
    modifies b, b.mem
    ensures Filtering(b, hs, m, cut, i + 1)
  {
    FilterRoom(hs, i, m, cut);
    FilterStep(Decode(hs), i, m, cut);
    if keep {
      CopyPair(b, hs, i);
    }
  }

  method FinishFilter(b: Builder, hs: HStore, ghost m: HMap, ghost cut: Cut) returns (r: HStore)
    requires Valid(hs) && Filtering(b, hs, m, cut, hs.count)
    modifies b.mem
    ensures Valid(r) && Denotes(r) == Remaining(Denotes(hs), m, cut)
  {
    assert Decode(hs)[..hs.count] == Decode(hs);
    Filtered(hs, m, cut);
    r := b.Finalize();
  }

  /** hstore_delete */
  method Delete(hs: HStore, key: Text) returns (r: HStore)
    requires Valid(hs)
    ensures Valid(r) && Denotes(r) == Denotes(hs) - {key}
  {
    ghost var m := map[key := None];
    var b := new Builder(hs.count, |hs.str|);
    for i := 0 to hs.count
      invariant Filtering(b, hs, m, ByKey, i)
      invariant fresh(b) && fresh(b.mem)
    {
      var same := HasKey(hs, i, key);
      CopyIfKept(b, hs, i, !same, m, ByKey);
    }
    r := FinishFilter(b, hs, m, ByKey);
    RemainingByKey(Denotes(hs), key);
  }

  /** The test of hstore_delete. */
  method HasKey(hs: HStore, i: nat, key: Text) returns (same: bool)
    requires Shaped(hs) && i < hs.count
    ensures same <==> Decode(hs)[i].key == key
  {
    SameKeyTest(Key(hs, i), key);
    same := KeyLen(hs, i) == |key| && CompareN(Key(hs, i), key, |key|) == 0;
    assert Decode(hs)[i] == PairAt(hs, i);
  }

  lemma RemainingByKey(h: HMap, key: Text)
    ensures Remaining(h, map[key := None], ByKey) == h - {key}
  {
  }

  /** hstoreArrayToPairs: the distinct non-null keys, in key order. */
  method ArrayToPairs(keys: seq<Option<Text>>) returns (pairs: seq<RawPair>)
    ensures StrictKeys(pairs)
    ensures forall k {:trigger Some(k) in keys} :: Some(k) in keys <==>
      exists i :: 0 <= i < |pairs| && pairs[i].key == k
  {
    var raw: seq<RawPair> := [];
    for i := 0 to |keys|
      invariant forall x :: x in raw ==> Some(x.key) in keys[..i]
      invariant forall k :: Some(k) in keys[..i] ==> KeyPair(k) in raw
    {
      if keys[i].Some? {
        raw := raw + [KeyPair(keys[i].value)];
      }
    }
    assert keys[..|keys|] == keys;
    var a := new RawPair[|raw|](i requires 0 <= i < |raw| => raw[i]);
    assert a[..a.Length] == raw;
    var n, _ := UniquePairs(a, a.Length);
    pairs := a[..n];
    forall k ensures Some(k) in keys <==> exists i :: 0 <= i < |pairs| && pairs[i].key == k {
      if Some(k) in keys {
        assert CoveredBy(pairs, KeyPair(k));
      }
      if i :| 0 <= i < |pairs| && pairs[i].key == k {
        assert pairs[i] in raw;
      }
    }
  }

  function KeyPair(k: Text): RawPair { RawPair(k, [], true, false) }

  lemma StrictIsSorted(rs: seq<RawPair>)
    requires StrictKeys(rs)
    ensures Sorted(AsPairs(rs))
  {
    var ps := AsPairs(rs);
    forall i, j | 0 <= i < j < |ps| ensures KeyLess(ps[i].key, ps[j].key) {
      assert KeyLess(rs[i].key, rs[j].key);
    }
  }

  // Merging hs with a sorted list ks: j is the merge cursor for the current key

  lemma {:induction false} MergeMiss(ks: seq<Pair>, j: nat, key: Text)
    requires Sorted(ks) && Below(ks, j, key) && (j < |ks| ==> KeyLess(key, ks[j].key))
    ensures key !in ToMap(ks)
  {
    if j < |ks| {
      AboveExtend(ks, j, key);
    }
    NotBetween(ks, j, key);
    FoundIsIn(ks, key, -1);
  }

  lemma {:induction false} MergeHit(ks: seq<Pair>, j: nat)
    requires Sorted(ks) && j < |ks|
    ensures ks[j].key in ToMap(ks) && ToMap(ks)[ks[j].key] == ks[j].val
  {
    FoundIsIn(ks, ks[j].key, j);
  }

  /** The cursor for key i also serves key i + 1, and may then stand after an equal key. */
  lemma MergeNext(hs: HStore, i: nat, ks: seq<Pair>, j: nat)
    requires Valid(hs) && i < hs.count && Sorted(ks) && Below(ks, j, Decode(hs)[i].key)
    ensures i + 1 < hs.count ==> Below(ks, j, Decode(hs)[i + 1].key)
    ensures i + 1 < hs.count && j < |ks| && ks[j].key == Decode(hs)[i].key ==>
              Below(ks, j + 1, Decode(hs)[i + 1].key)
  {
    if i + 1 < hs.count {
      var k, k' := Decode(hs)[i].key, Decode(hs)[i + 1].key;
      assert KeyLess(k, k');
      BelowLater(ks, j, k, k');
      if j < |ks| && ks[j].key == k {
        BelowExtend(ks, j, k');
      }
    }
  }

  ghost function KeySet(keys: seq<Option<Text>>): set<Text> {
    set o | o in keys && o.Some? :: o.value
  }

  /** hstore_delete_array */
  method DeleteArray(hs: HStore, keys: seq<Option<Text>>) returns (r: HStore)
    requires Valid(hs)
    ensures Valid(r) && Denotes(r) == Denotes(hs) - KeySet(keys)
  {
    var pairs := ArrayToPairs(keys);
    ghost var ks := AsPairs(pairs);
    ghost var m := ToMap(ks);
    StrictIsSorted(pairs);
    KeysOfArray(keys, pairs);
    if |pairs| == 0 {
      assert Denotes(hs) - {} == Denotes(hs);
      return hs;
    }
    var b := new Builder(hs.count, |hs.str|);
    var i, j := 0, 0;
    while i < hs.count
      invariant 0 <= i && 0 <= j <= |pairs|
      invariant Filtering(b, hs, m, ByKey, i)
      invariant i < hs.count ==> Below(ks, j, Decode(hs)[i].key)
      invariant fresh(b) && fresh(b.mem)
      decreases hs.count - i, |pairs| - j
    {
      var difference := if j >= |pairs| then -1 else Difference(Key(hs, i), pairs[j].key);
      ghost var key := Decode(hs)[i].key;
      if j < |pairs| { DifferenceIsKeyCmp(key, ks[j].key); }
      if difference > 0 {
        BelowExtend(ks, j, key);
        j := j + 1;
      } else if difference == 0 {
        MergeHit(ks, j);
        MergeNext(hs, i, ks, j);
        CopyIfKept(b, hs, i, false, m, ByKey);
        i, j := i + 1, j + 1;
      } else {
        MergeMiss(ks, j, key);
        MergeNext(hs, i, ks, j);
        CopyIfKept(b, hs, i, true, m, ByKey);
        i := i + 1;
      }
    }
    r := FinishFilter(b, hs, m, ByKey);
    RemainingByKeys(Denotes(hs), m);
  }

  lemma RemainingByKeys(h: HMap, m: HMap)
    ensures Remaining(h, m, ByKey) == h - m.Keys
  {
  }

  lemma KeysOfArray(keys: seq<Option<Text>>, pairs: seq<RawPair>)
    requires StrictKeys(pairs)
    requires forall k {:trigger Some(k) in keys} :: Some(k) in keys <==>
      exists i :: 0 <= i < |pairs| && pairs[i].key == k
    ensures Sorted(AsPairs(pairs)) && ToMap(AsPairs(pairs)).Keys == KeySet(keys)
  {
    StrictIsSorted(pairs);
    forall k ensures k in ToMap(AsPairs(pairs)) <==> k in KeySet(keys) {
      ToMapAt(AsPairs(pairs), k);
      assert k in KeySet(keys) <==> Some(k) in keys;
      if i :| 0 <= i < |pairs| && pairs[i].key == k {
        assert AsPairs(pairs)[i].key == k;
      }
    }
  }

  /** The value test of hstore_delete_hstore and hstore_contains. */
  predicate SameValue(a: HStore, i: nat, b: HStore, j: nat)
    requires Shaped(a) && i < a.count && Shaped(b) && j < b.count
  {
    && ValIsNull(a, i) == ValIsNull(b, j)
    && (!ValIsNull(a, i) ==> ValLen(a, i) == ValLen(b, j) && CompareN(Val(a, i), Val(b, j), |Val(a, i)|) == 0)
  }

  lemma SameValueMeans(a: HStore, i: nat, b: HStore, j: nat)
    requires Shaped(a) && i < a.count && Shaped(b) && j < b.count
    ensures SameValue(a, i, b, j) <==> Decode(a)[i].val == Decode(b)[j].val
  {
    assert Decode(a)[i] == PairAt(a, i) && Decode(b)[j] == PairAt(b, j);
    SameKeyTest(Val(a, i), Val(b, j));
  }

  lemma RemainingByPair(h: HMap, m: HMap)
    ensures Remaining(h, m, ByPair) == map k | k in h && !(k in m && m[k] == h[k]) :: h[k]
  {
  }

  /** Equal keys: the pair is kept unless the values are equal too. */
  method DeleteHit(b: Builder, hs: HStore, i: nat, hs2: HStore, j: nat)
    requires Valid(hs) && Valid(hs2) && i < hs.count && j < hs2.count && Decode(hs)[i].key == Decode(hs2)[j].key
    requires Filtering(b, hs, ToMap(Decode(hs2)), ByPair, i)
    modifies b, b.mem
    ensures Filtering(b, hs, ToMap(Decode(hs2)), ByPair, i + 1)
  {
    MergeHit(Decode(hs2), j);
    SameValueMeans(hs, i, hs2, j);
    CopyIfKept(b, hs, i, !SameValue(hs, i, hs2, j), ToMap(Decode(hs2)), ByPair);
  }

  /** hstore_delete_hstore: a pair goes when the other store has it with an equal value. */
  method DeleteHStore(hs: HStore, hs2: HStore) returns (r: HStore)
    requires Valid(hs) && Valid(hs2)
    ensures Valid(r)
    ensures Denotes(r) == map k | k in Denotes(hs) && !(k in Denotes(hs2) && Denotes(hs2)[k] == Denotes(hs)[k])
                              :: Denotes(hs)[k]
  {
    ghost var ks := Decode(hs2);
    ghost var m := ToMap(ks);
    RemainingByPair(Denotes(hs), m);
    if hs2.count == 0 {
      return hs;
    }
    var b := new Builder(hs.count, |hs.str|);
    var i, j := 0, 0;
    while i < hs.count
      invariant 0 <= i && 0 <= j <= hs2.count
      invariant Filtering(b, hs, m, ByPair, i)
      invariant i < hs.count ==> Below(ks, j, Decode(hs)[i].key)
      invariant fresh(b) && fresh(b.mem)
      decreases hs.count - i, hs2.count - j
    {
      var difference := if j >= hs2.count then -1 else Difference(Key(hs, i), Key(hs2, j));
      ghost var key := Decode(hs)[i].key;
      if j < hs2.count { DifferenceIsKeyCmp(key, ks[j].key); }
      if difference > 0 {
        BelowExtend(ks, j, key);
        j := j + 1;
      } else if difference == 0 {
        DeleteHit(b, hs, i, hs2, j);
        MergeNext(hs, i, ks, j);
        i, j := i + 1, j + 1;
      } else {
        MergeMiss(ks, j, key);
        MergeNext(hs, i, ks, j);
        CopyIfKept(b, hs, i, true, m, ByPair);
        i := i + 1;
      }
    }
    r := FinishFilter(b, hs, m, ByPair);
  }

  // hstore_concat

  /** out is the merge of the first i pairs of ps and the first j of qs, and fits between what follows. */
  ghost predicate Merged(out: seq<Pair>, ps: seq<Pair>, i: nat, qs: seq<Pair>, j: nat) {
    && i <= |ps| && j <= |qs| && Sorted(out)
    && ToMap(out) == ToMap(ps[..i]) + ToMap(qs[..j])
    && |out| <= i + j && |Flat(out)| <= |Flat(ps[..i])| + |Flat(qs[..j])|
    && (i < |ps| ==> AllBelow(out, ps[i].key))
    && (j < |qs| ==> AllBelow(out, qs[j].key))
  }

  lemma ToMapStep(ps: seq<Pair>, i: nat)
    requires i < |ps|
    ensures ToMap(ps[..i + 1]) == ToMap(ps[..i])[ps[i].key := ps[i].val]
    ensures |Flat(ps[..i + 1])| == |Flat(ps[..i])| + |ps[i].key| + |ps[i].ValBytes()|
  {
    assert ps[..i + 1][..i] == ps[..i];
    FlatStep(ps, i);
  }

  lemma NextAbove(ps: seq<Pair>, i: nat, out: seq<Pair>, k: Text)
    requires Sorted(ps) && i < |ps| && ps[i].key == k
    requires forall k' {:trigger KeyLess(k, k')} :: KeyLess(k, k') ==> AllBelow(out, k')
    ensures i + 1 < |ps| ==> AllBelow(out, ps[i + 1].key)
  {
    if i + 1 < |ps| {
      assert KeyLess(ps[i].key, ps[i + 1].key);
    }
  }

  lemma TakeFirst(out: seq<Pair>, ps: seq<Pair>, i: nat, qs: seq<Pair>, j: nat)
    requires Merged(out, ps, i, qs, j) && Sorted(ps) && i < |ps|
    requires j < |qs| ==> KeyLess(ps[i].key, qs[j].key)
    ensures Merged(out + [ps[i]], ps, i + 1, qs, j)
  {
    var p := ps[i];
    SortedSnoc(out, p);
    FlatSnoc(out, p);
    ToMapStep(ps, i);
    NextAbove(ps, i, out + [p], p.key);
    assert ToMap(ps[..i])[p.key := p.val] + ToMap(qs[..j]) == (ToMap(ps[..i]) + ToMap(qs[..j]))[p.key := p.val];
  }

  lemma PutSecond(m: HMap, n: HMap, k: Text, v: Option<Text>)
    ensures m + n[k := v] == (m + n)[k := v]
  {
  }

  lemma PutBoth(m: HMap, n: HMap, k: Text, u: Option<Text>, v: Option<Text>)
    ensures m[k := u] + n[k := v] == (m + n)[k := v]
  {
  }

  lemma TakeSecond(out: seq<Pair>, ps: seq<Pair>, i: nat, qs: seq<Pair>, j: nat)
    requires Merged(out, ps, i, qs, j) && Sorted(qs) && j < |qs|
    requires i < |ps| ==> KeyLess(qs[j].key, ps[i].key)
    ensures Merged(out + [qs[j]], ps, i, qs, j + 1)
  {
    var q := qs[j];
    SortedSnoc(out, q);
    FlatSnoc(out, q);
    ToMapStep(qs, j);
    NextAbove(qs, j, out + [q], q.key);
    PutSecond(ToMap(ps[..i]), ToMap(qs[..j]), q.key, q.val);
  }

  lemma TakeSecondForBoth(out: seq<Pair>, ps: seq<Pair>, i: nat, qs: seq<Pair>, j: nat)
    requires Merged(out, ps, i, qs, j) && Sorted(ps) && Sorted(qs) && i < |ps| && j < |qs|
    requires qs[j].key == ps[i].key
    ensures Merged(out + [qs[j]], ps, i + 1, qs, j + 1)
  {
    var p, q := ps[i], qs[j];
    SortedSnoc(out, q);
    FlatSnoc(out, q);
    ToMapStep(ps, i);
    ToMapStep(qs, j);
    NextAbove(ps, i, out + [q], q.key);
    NextAbove(qs, j, out + [q], q.key);
    PutBoth(ToMap(ps[..i]), ToMap(qs[..j]), q.key, p.val, q.val);
  }

  lemma MergeRoom(hs: HStore, i: nat)
    requires Shaped(hs) && i <= hs.count
    ensures |Flat(Decode(hs)[..i])| <= |hs.str|
    ensures i < hs.count ==>
              |Flat(Decode(hs)[..i])| + |Decode(hs)[i].key| + |Decode(hs)[i].ValBytes()| <= |hs.str|
  {
    EncodeDecode(hs);
    FlatPrefix(Decode(hs), i);
    if i < hs.count { RoomFor(Decode(hs), i); }
  }

  /** b, sized for both, holds the merge of i pairs of s1 and j pairs of s2. */
  ghost predicate Merging(b: Builder, s1: HStore, i: nat, s2: HStore, j: nat)
    requires Shaped(s1) && Shaped(s2)
    reads b, b.mem
  {
    && b.Valid() && Merged(b.pairs, Decode(s1), i, Decode(s2), j)
    && b.slots == s1.count + s2.count && b.room == |s1.str| + |s2.str|
  }

  method CopyFirst(b: Builder, s1: HStore, i: nat, s2: HStore, ghost j: nat)
    requires Valid(s1) && Valid(s2) && i < s1.count && Merging(b, s1, i, s2, j)
    requires j < s2.count ==> KeyLess(Decode(s1)[i].key, Decode(s2)[j].key)
    modifies b, b.mem
    ensures Merging(b, s1, i + 1, s2, j)
  {
    MergeRoom(s1, i);
    MergeRoom(s2, j);
    TakeFirst(b.pairs, Decode(s1), i, Decode(s2), j);
    CopyPair(b, s1, i);
  }

  method CopySecond(b: Builder, s1: HStore, i: nat, s2: HStore, j: nat, both: bool)
    requires Valid(s1) && Valid(s2) && j < s2.count && Merging(b, s1, i, s2, j)
    requires both ==> i < s1.count && Decode(s1)[i].key == Decode(s2)[j].key
    requires !both && i < s1.count ==> KeyLess(Decode(s2)[j].key, Decode(s1)[i].key)
    modifies b, b.mem
    ensures Merging(b, s1, if both then i + 1 else i, s2, j + 1)
  {
    MergeRoom(s1, i);
    MergeRoom(s2, j);
    if both {
      TakeSecondForBoth(b.pairs, Decode(s1), i, Decode(s2), j);
    } else {
      TakeSecond(b.pairs, Decode(s1), i, Decode(s2), j);
    }
    CopyPair(b, s2, j);
  }

  /** The merge loop of hstore_concat. */
  method MergeInto(b: Builder, s1: HStore, s2: HStore)
    requires Valid(s1) && Valid(s2) && Merging(b, s1, 0, s2, 0)
    modifies b, b.mem
    ensures Merging(b, s1, s1.count, s2, s2.count)
  {
    var i, j := 0, 0;
    while i < s1.count || j < s2.count
      invariant 0 <= i <= s1.count && 0 <= j <= s2.count
      invariant Merging(b, s1, i, s2, j)
      decreases s1.count + s2.count - i - j
    {
      i, j := MergeTurn(b, s1, i, s2, j);
    }
  }

  /** One turn of it. */
  method MergeTurn(b: Builder, s1: HStore, i: nat, s2: HStore, j: nat) returns (i': nat, j': nat)
    requires Valid(s1) && Valid(s2) && i <= s1.count && j <= s2.count && (i < s1.count || j < s2.count)
    requires Merging(b, s1, i, s2, j)
    modifies b, b.mem
    ensures i <= i' <= s1.count && j <= j' <= s2.count && i + j < i' + j'
    ensures Merging(b, s1, i', s2, j')
  {
    var difference := if i >= s1.count then 1 else if j >= s2.count then -1
                      else Difference(Key(s1, i), Key(s2, j));
    if i < s1.count && j < s2.count { DifferenceIsKeyCmp(Key(s1, i), Key(s2, j)); }
    i', j' := i, j;
    if difference >= 0 {
      CopySecond(b, s1, i, s2, j, difference == 0);
      j' := j + 1;
      if difference == 0 {
        i' := i + 1;
      }
    } else {
      CopyFirst(b, s1, i, s2, j);
      i' := i + 1;
    }
  }

  lemma MergedNone(ps: seq<Pair>, qs: seq<Pair>)
    ensures Merged([], ps, 0, qs, 0)
  {
  }

  lemma MergedAll(out: seq<Pair>, s1: HStore, s2: HStore)
    requires Valid(s1) && Valid(s2) && Merged(out, Decode(s1), s1.count, Decode(s2), s2.count)
    requires s1.varsize + s2.varsize <= MAX_ALLOC_SIZE
    ensures Fits(out) && Valid(Encode(out)) && Denotes(Encode(out)) == Denotes(s1) + Denotes(s2)
  {
    assert Decode(s1)[..s1.count] == Decode(s1) && Decode(s2)[..s2.count] == Decode(s2);
    MergeRoom(s1, s1.count);
    MergeRoom(s2, s2.count);
    EncodeValid(out);
  }

  /** hstore_concat: the second operand wins; refused when both sizes together exceed what palloc gives. */
  method Concat(s1: HStore, s2: HStore) returns (r: Result<HStore>)
    requires Valid(s1) && Valid(s2)
    ensures r.Ok? <==> s1.varsize + s2.varsize <= MAX_ALLOC_SIZE
    ensures r.Ok? ==> Valid(r.value) && Denotes(r.value) == Denotes(s1) + Denotes(s2)
  {
    if s1.varsize + s2.varsize > MAX_ALLOC_SIZE {
      return Error;
    }
    if s1.count == 0 {
      assert map[] + Denotes(s2) == Denotes(s2);
      return Ok(s2);
    }
    if s2.count == 0 {
      return Ok(s1);
    }
    var b := new Builder(s1.count + s2.count, |s1.str| + |s2.str|);
    MergedNone(Decode(s1), Decode(s2));
    MergeInto(b, s1, s2);
    MergedAll(b.pairs, s1, s2);
    var hs := b.Finalize();
    return Ok(hs);
  }

  // Searches for an ascending run of keys

  /** hstore_exists_all */
  method ExistsAll(hs: HStore, keys: seq<Option<Text>>) returns (res: bool)
    requires Valid(hs)
    ensures res <==> KeySet(keys) != {} && KeySet(keys) <= Denotes(hs).Keys
  {
    var pairs := ArrayToPairs(keys);
    ghost var ks := AsPairs(pairs);
    KeysOfArray(keys, pairs);
    EmptyMapOnly(ks);
    res := |pairs| != 0;
    var i, lowbound := 0, 0;
    while res && i < |pairs|
      invariant 0 <= i <= |pairs|
      invariant i < |pairs| ==> Below(Decode(hs), lowbound, pairs[i].key)
      invariant res ==> ToMap(ks[..i]).Keys <= Denotes(hs).Keys
      invariant !res ==> |pairs| == 0 || !(ToMap(ks).Keys <= Denotes(hs).Keys)
    {
      var idx;
      idx, lowbound := FindKey(hs, lowbound, pairs[i].key);
      FoundIsIn(Decode(hs), pairs[i].key, idx);
      MergeHit(ks, i);
      ToMapStep(ks, i);
      if idx < 0 {
        res := false;
      }
      assert i + 1 < |pairs| ==> KeyLess(pairs[i].key, pairs[i + 1].key);
      i := i + 1;
    }
    assert ks[..|pairs|] == ks;
  }

  /** hstore_exists_any */
  method ExistsAny(hs: HStore, keys: seq<Option<Text>>) returns (res: bool)
    requires Valid(hs)
    ensures res <==> !(KeySet(keys) !! Denotes(hs).Keys)
  {
    var pairs := ArrayToPairs(keys);
    ghost var ks := AsPairs(pairs);
    KeysOfArray(keys, pairs);
    res := false;
    var i, lowbound := 0, 0;
    while !res && i < |pairs|
      invariant 0 <= i <= |pairs|
      invariant i < |pairs| ==> Below(Decode(hs), lowbound, pairs[i].key)
      invariant !res ==> ToMap(ks[..i]).Keys !! Denotes(hs).Keys
      invariant res ==> !(ToMap(ks).Keys !! Denotes(hs).Keys)
    {
      var idx;
      idx, lowbound := FindKey(hs, lowbound, pairs[i].key);
      FoundIsIn(Decode(hs), pairs[i].key, idx);
      MergeHit(ks, i);
      ToMapStep(ks, i);
      if idx >= 0 {
        res := true;
      }
      assert i + 1 < |pairs| ==> KeyLess(pairs[i].key, pairs[i + 1].key);
      i := i + 1;
    }
    assert ks[..|pairs|] == ks;
  }

  ghost predicate SubMap(t: HMap, m: HMap) {
    forall k :: k in t ==> k in m && m[k] == t[k]
  }

  /** hstore_contains: the template is a sub-map of the value. */
  method Contains(val: HStore, tmpl: HStore) returns (res: bool)
    requires Valid(val) && Valid(tmpl)
    ensures res <==> SubMap(Denotes(tmpl), Denotes(val))
    ensures res <==> forall k :: k in Denotes(tmpl) ==> k in Denotes(val) && Denotes(val)[k] == Denotes(tmpl)[k]
  {
    ghost var vs, ts := Decode(val), Decode(tmpl);
    res := true;
    var i, lastidx := 0, 0;
    while res && i < tmpl.count
      invariant 0 <= i <= tmpl.count
      invariant i < tmpl.count ==> Below(vs, lastidx, ts[i].key)
      invariant res ==> SubMap(ToMap(ts[..i]), Denotes(val))
      invariant !res ==> !SubMap(Denotes(tmpl), Denotes(val))
    {
      var idx;
      idx, lastidx := FindKey(val, lastidx, Key(tmpl, i));
      FoundIsIn(vs, ts[i].key, idx);
      MergeHit(ts, i);
      ToMapStep(ts, i);
      if idx >= 0 {
        SameValueMeans(tmpl, i, val, idx);
        if !SameValue(tmpl, i, val, idx) {
          res := false;
        }
      } else {
        res := false;
      }
      assert i + 1 < tmpl.count ==> KeyLess(ts[i].key, ts[i + 1].key);
      i := i + 1;
    }
    assert ts[..tmpl.count] == ts;
  }

  ghost function Restrict(h: HMap, keys: set<Text>): HMap {
    map k | k in h && k in keys :: h[k]
  }

  lemma RestrictSnoc(h: HMap, keys: set<Text>, k: Text)
    ensures Restrict(h, keys + {k}) == if k in h then Restrict(h, keys)[k := h[k]] else Restrict(h, keys)
  {
  }

  /** The pairs hstore_slice_to_hstore collects: those of the asked keys that hs has. */
  ghost predicate Sliced(out: seq<RawPair>, hs: HStore, ks: seq<Pair>, i: nat)
    requires Shaped(hs)
  {
    && i <= |ks| && Sorted(AsPairs(out))
    && ToMap(AsPairs(out)) == Restrict(Denotes(hs), ToMap(ks[..i]).Keys)
    && (i < |ks| ==> AllBelow(AsPairs(out), ks[i].key))
  }

  lemma SliceStep(out: seq<RawPair>, hs: HStore, ks: seq<Pair>, i: nat, idx: int, r: RawPair)
    requires Valid(hs) && Sorted(ks) && i < |ks| && Sliced(out, hs, ks, i)
    requires FoundAt(Decode(hs), ks[i].key, idx) && (idx >= 0 ==> r.AsPair() == Decode(hs)[idx])
    ensures Sliced(if idx >= 0 then out + [r] else out, hs, ks, i + 1)
  {
    FoundIsIn(Decode(hs), ks[i].key, idx);
    ToMapStep(ks, i);
    RestrictSnoc(Denotes(hs), ToMap(ks[..i]).Keys, ks[i].key);
    assert ToMap(ks[..i + 1]).Keys == ToMap(ks[..i]).Keys + {ks[i].key};
    if idx >= 0 {
      SortedSnoc(AsPairs(out), r.AsPair());
      assert AsPairs(out + [r]) == AsPairs(out) + [r.AsPair()];
      NextAbove(ks, i, AsPairs(out + [r]), ks[i].key);
    } else if i + 1 < |ks| {
      assert KeyLess(ks[i].key, ks[i + 1].key);
      BelowLater(AsPairs(out), |out|, ks[i].key, ks[i + 1].key);
    }
  }

  lemma ComplementRemains(h: HMap, o: HMap)
    requires SubMap(o, h)
    ensures Remaining(h, h - o.Keys, ByKey) == o
  {
  }

  /** A sorted sub-map is a subsequence, so it is no larger. */
  lemma {:induction false} SubMapSize(ps: seq<Pair>, out: seq<Pair>)
    requires Sorted(ps) && Sorted(out) && SubMap(ToMap(out), ToMap(ps))
    ensures |out| <= |ps| && |Flat(out)| <= |Flat(ps)|
  {
    var rest := ToMap(ps) - ToMap(out).Keys;
    FilterSorted(ps, rest, ByKey);
    FilterSize(ps, rest, ByKey);
    ComplementRemains(ToMap(ps), ToMap(out));
    SameMapSamePairs(Filter(ps, rest, ByKey), out);
  }

  /** The pair found at idx, as a Pairs entry. */
  function FoundPair(hs: HStore, idx: nat, key: Text): (r: RawPair)
    requires Shaped(hs) && idx < hs.count && key == Key(hs, idx)
    ensures r.AsPair() == Decode(hs)[idx]
    ensures |r.AsPair().ValBytes()| == ValLen(hs, idx)
  {
    assert ItemOk(hs.items, idx) && Decode(hs)[idx] == PairAt(hs, idx);
    RawPair(key, Val(hs, idx), ValIsNull(hs, idx), false)
  }

  /** The collecting loop of hstore_slice_to_hstore. */
  method CollectSlice(hs: HStore, pairs: seq<RawPair>) returns (out: seq<RawPair>, bufsiz: nat)
    requires Valid(hs) && StrictKeys(pairs)
    ensures Sliced(out, hs, AsPairs(pairs), |pairs|) && bufsiz == |Flat(AsPairs(out))|
  {
    ghost var ks := AsPairs(pairs);
    StrictIsSorted(pairs);
    out := [];
    bufsiz := 0;
    var lastidx := 0;
    for i := 0 to |pairs|
      invariant i < |pairs| ==> Below(Decode(hs), lastidx, pairs[i].key)
      invariant Sliced(out, hs, ks, i)
      invariant bufsiz == |Flat(AsPairs(out))|
    {
      var idx;
      idx, lastidx := FindKey(hs, lastidx, pairs[i].key);
      if idx >= 0 {
        var one := FoundPair(hs, idx, pairs[i].key);
        SliceStep(out, hs, ks, i, idx, one);
        FlatSnoc(AsPairs(out), one.AsPair());
        assert AsPairs(out + [one]) == AsPairs(out) + [one.AsPair()];
        bufsiz := bufsiz + |one.key| + ValLen(hs, idx);
        out := out + [one];
      } else {
        SliceStep(out, hs, ks, i, idx, pairs[i]);
      }
      assert i + 1 < |pairs| ==> KeyLess(pairs[i].key, pairs[i + 1].key);
    }
  }

  /** hstore_slice_to_hstore: the restriction of the map to the asked keys. */
  method SliceToHStore(hs: HStore, keys: seq<Option<Text>>) returns (r: Result<HStore>)
    requires Valid(hs)
    ensures r.Ok? && Valid(r.value)
    ensures Denotes(r.value) == map k | k in Denotes(hs) && Some(k) in keys :: Denotes(hs)[k]
  {
    r := Slice(hs, keys);
    RestrictIs(Denotes(hs), keys);
  }

  lemma RestrictIs(h: HMap, keys: seq<Option<Text>>)
    ensures Restrict(h, KeySet(keys)) == map k | k in h && Some(k) in keys :: h[k]
  {
  }

  method Slice(hs: HStore, keys: seq<Option<Text>>) returns (r: Result<HStore>)
    requires Valid(hs)
    ensures r.Ok? && Valid(r.value) && Denotes(r.value) == Restrict(Denotes(hs), KeySet(keys))
  {
    var pairs := ArrayToPairs(keys);
    ghost var ks := AsPairs(pairs);
    KeysOfArray(keys, pairs);
    if |pairs| == 0 {
      r := HStorePairs([], 0);
      EncodeValid([]);
      return;
    }
    var out, bufsiz := CollectSlice(hs, pairs);
    assert ks[..|pairs|] == ks;
    EncodeDecode(hs);
    SubMapSize(Decode(hs), AsPairs(out));
    EncodeValid(AsPairs(out));
    r := HStorePairs(out, bufsiz);
  }
}
