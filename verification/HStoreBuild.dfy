/** Writing hstores: the HS_COPYITEM, HS_ADDITEM and HS_FINALIZE macros, hstoreUniquePairs and hstorePairs. */
module HStoreBuild {
  import opened Wrappers
  import opened Bytes
  import opened Sorting
  import opened HStoreLayout
  import opened HStoreMemory

  /** The Pairs struct: the value's bytes are kept even when isnull is set. */
  datatype RawPair = RawPair(key: Text, val: Text, isnull: bool, needfree: bool) {
    function AsPair(): Pair { Pair(key, if isnull then None else Some(val)) }
  }

  function AsPairs(rs: seq<RawPair>): (ps: seq<Pair>)
    ensures |ps| == |rs| && forall i :: 0 <= i < |rs| ==> ps[i] == rs[i].AsPair()
  {
    seq(|rs|, i requires 0 <= i < |rs| => rs[i].AsPair())
  }

  /** An hstore under construction: one allocation, with the strings behind the entries first planned for. */
  class Builder {
    const slots: nat
    const room: nat
    const mem: array<Cell>
    var ed: nat
    var pd: nat
    ghost var pairs: seq<Pair>

    ghost predicate Valid()
      reads this, mem
    {
      && mem.Length == 8 * slots + room
      && ed == |pairs| <= slots && pd == |Flat(pairs)| <= room
      && Laid(mem[..], 8 * slots, ArrayCells(Items(pairs)), CharCells(Flat(pairs)))
    }

    constructor (count: nat, lenstr: nat)
      ensures Valid() && pairs == []
      ensures slots == count && room == lenstr
      ensures fresh(mem)
    {
      slots, room := count, lenstr;
      mem := new Cell[8 * count + lenstr](_ => Blank);
      ed, pd, pairs := 0, 0, [];
    }

    /** Writes the bytes and the entries of one more pair. */
    method Put(bytes: Text, item: HItem, ghost p: Pair)
      requires Valid() && ed < slots && pd + |bytes| <= room
      requires Flat(pairs + [p]) == Flat(pairs) + bytes && Items(pairs + [p]) == Items(pairs) + [item]
      modifies this, mem
      ensures Valid() && pairs == old(pairs) + [p]
    {
      WritePair(mem, 8 * slots, ed, pd, item, bytes, Items(pairs), Flat(pairs));
      ed, pd, pairs := ed + 1, pd + |bytes|, pairs + [p];
    }

    /** HS_COPYITEM: key and value bytes lie side by side in the source. */
    method CopyItem(src: seq<Byte>, off: nat, klen: nat, vlen: nat, vnull: bool)
      requires Valid()
      requires off + klen + vlen <= |src|
      requires ed < slots && pd + klen + vlen <= room
      requires vnull ==> vlen == 0
      modifies this, mem
      ensures Valid()
      ensures pairs == old(pairs) + [Pair(src[off..off + klen],
                                          if vnull then None else Some(src[off + klen..off + klen + vlen]))]
    {
      ghost var p := Pair(src[off..off + klen],
                          if vnull then None else Some(src[off + klen..off + klen + vlen]));
      var bytes := src[off..off + klen + vlen];
      var dptr := pd + klen + vlen;
      FlatBytes(pairs, p, bytes);
      ItemsSnoc(pairs, p, dptr - vlen, dptr);
      Put(bytes, HItem(HEntry(false, false, Mask(dptr - vlen)), HEntry(false, vnull, Mask(dptr))), p);
    }

    /** HS_ADDITEM: a null pair contributes only its key. */
    method AddItem(r: RawPair)
      requires Valid()
      requires ed < slots && pd + |r.key| + |r.AsPair().ValBytes()| <= room
      modifies this, mem
      ensures Valid()
      ensures pairs == old(pairs) + [r.AsPair()]
    {
      if r.isnull {
        AddNull(r.key);
      } else {
        AddValue(r.key, r.val);
      }
    }

    method AddNull(key: Text)
      requires Valid() && ed < slots && pd + |key| <= room
      modifies this, mem
      ensures Valid() && pairs == old(pairs) + [Pair(key, None)]
    {
      var k := HEntry(false, false, Mask(pd + |key|));
      var v := HEntry(false, true, Mask(pd + |key|));
      FlatBytes(pairs, Pair(key, None), key);
      ItemsSnoc(pairs, Pair(key, None), pd + |key|, pd + |key|);
      Put(key, HItem(k, v), Pair(key, None));
    }

    method AddValue(key: Text, val: Text)
      requires Valid() && ed < slots && pd + |key| + |val| <= room
      modifies this, mem
      ensures Valid() && pairs == old(pairs) + [Pair(key, Some(val))]
    {
      var bytes := key + val;
      var k := HEntry(false, false, Mask(pd + |key|));
      var v := HEntry(false, false, Mask(pd + |bytes|));
      FlatBytes(pairs, Pair(key, Some(val)), bytes);
      ItemsSnoc(pairs, Pair(key, Some(val)), pd + |key|, pd + |bytes|);
      Put(bytes, HItem(k, v), Pair(key, Some(val)));
    }

    /** HS_FINALIZE: the first entry is flagged, and strings behind unused entries move down to the used ones. */
    method Finalize() returns (hs: HStore)
      requires Valid() && Fits(pairs)
      modifies mem
      ensures hs == Encode(pairs)
      ensures 8 * ed + pd <= mem.Length && mem[..8 * ed + pd] == ArrayCells(hs.items) + CharCells(hs.str)
    {
      ghost var es, t := Items(pairs), Flat(pairs);
      if ed > 0 {
        Flag(mem, 8 * slots, es, CharCells(t));
      }
      Close(mem, 8 * slots, 8 * ed, pd, ArrayCells(FlagFirst(es)), CharCells(t));
      var items, str := View(mem, ed, pd, FlagFirst(es), t);
      hs := HStore(CalcDataSize(ed, pd), true, ed, items, str);
    }
  }

  lemma {:induction false} FlatSnoc(ps: seq<Pair>, p: Pair)
    ensures Flat(ps + [p]) == Flat(ps) + p.key + p.ValBytes()
  {
    assert (ps + [p])[..|ps|] == ps;
  }

  lemma {:induction false} FlatBytes(ps: seq<Pair>, p: Pair, bytes: Text)
    requires bytes == p.key + p.ValBytes()
    ensures Flat(ps + [p]) == Flat(ps) + bytes
  {
    FlatSnoc(ps, p);
    var f := Flat(ps);
    assert f + p.key + p.ValBytes() == f + (p.key + p.ValBytes());
  }

  lemma {:induction false} ItemsSnoc(ps: seq<Pair>, p: Pair, k: nat, v: nat)
    requires k == |Flat(ps)| + |p.key| && v == |Flat(ps + [p])|
    ensures Items(ps + [p]) == Items(ps) + [HItem(HEntry(false, false, Mask(k)), HEntry(false, p.val.None?, Mask(v)))]
  {
    assert (ps + [p])[..|ps|] == ps;
  }

  // hstoreUniquePairs

  /** comparePairs as an order: by key, and among equal keys those not to be freed first. */
  predicate PairLeq(x: RawPair, y: RawPair) {
    var c := KeyCmp(x.key, y.key);
    c < 0 || (c == 0 && (x.needfree ==> y.needfree))
  }

  lemma PairLeqTotal()
    ensures TotalPreorder(PairLeq)
  {
    forall x: RawPair, y: RawPair ensures PairLeq(x, y) || PairLeq(y, x) {
      KeyOrder(x.key, y.key);
    }
    forall x: RawPair, y: RawPair, z: RawPair | PairLeq(x, y) && PairLeq(y, z) ensures PairLeq(x, z) {
      KeyLessTrans(x.key, y.key, z.key);
      KeyOrder(x.key, y.key);
      KeyOrder(y.key, z.key);
      KeyOrder(x.key, z.key);
    }
  }

  /** x is the same key as o, and o is no worse a choice. */
  predicate Covers(o: RawPair, x: RawPair) {
    o.key == x.key && (o.needfree ==> x.needfree)
  }

  ghost predicate StrictKeys(out: seq<RawPair>) {
    forall i, j {:trigger KeyLess(out[i].key, out[j].key)} ::
      0 <= i < j < |out| ==> KeyLess(out[i].key, out[j].key)
  }

  ghost predicate CoveredBy(out: seq<RawPair>, x: RawPair) {
    exists i :: 0 <= i < |out| && Covers(out[i], x)
  }

  /** One pair per key of the input, strictly sorted, each taken from the input. */
  ghost predicate UniqueOf(out: seq<RawPair>, input: seq<RawPair>) {
    && StrictKeys(out)
    && (forall i :: 0 <= i < |out| ==> out[i] in input)
    && (forall x {:trigger CoveredBy(out, x)} :: x in input ==> CoveredBy(out, x))
  }

  ghost predicate Occurs(x: RawPair, input: seq<RawPair>, k: nat)
    requires k <= |input|
  {
    exists j :: 0 <= j < k && input[j] == x
  }

  /** UniqueOf for the first k pairs of the input. */
  ghost predicate UniqueSoFar(out: seq<RawPair>, input: seq<RawPair>, k: nat)
    requires k <= |input|
  {
    && StrictKeys(out)
    && (forall i {:trigger Occurs(out[i], input, k)} :: 0 <= i < |out| ==> Occurs(out[i], input, k))
    && (forall j {:trigger CoveredBy(out, input[j])} :: 0 <= j < k ==> CoveredBy(out, input[j]))
  }

  lemma StrictKeysSnoc(out: seq<RawPair>, x: RawPair)
    requires StrictKeys(out) && (out != [] ==> KeyLess(out[|out| - 1].key, x.key))
    ensures StrictKeys(out + [x])
  {
    forall i | 0 <= i < |out| ensures KeyLess(out[i].key, x.key) {
      if i < |out| - 1 {
        assert KeyLess(out[i].key, out[|out| - 1].key);
        KeyLessTrans(out[i].key, out[|out| - 1].key, x.key);
      }
    }
    forall i, j | 0 <= i < j < |out| + 1 ensures KeyLess((out + [x])[i].key, (out + [x])[j].key) {
      assert j < |out| ==> KeyLess(out[i].key, out[j].key);
    }
  }

  lemma CoveredSnoc(out: seq<RawPair>, x: RawPair, y: RawPair)
    requires CoveredBy(out, y)
    ensures CoveredBy(out + [x], y)
  {
    var i :| 0 <= i < |out| && Covers(out[i], y);
    assert (out + [x])[i] == out[i];
  }

  lemma OccursLater(x: RawPair, input: seq<RawPair>, k: nat)
    requires k < |input| && Occurs(x, input, k)
    ensures Occurs(x, input, k + 1)
  {
  }

  lemma UniqueSkip(out: seq<RawPair>, input: seq<RawPair>, k: nat)
    requires k < |input| && UniqueSoFar(out, input, k)
    requires out != [] && Covers(out[|out| - 1], input[k])
    ensures UniqueSoFar(out, input, k + 1)
  {
    assert CoveredBy(out, input[k]);
    forall i | 0 <= i < |out| ensures Occurs(out[i], input, k + 1) {
      OccursLater(out[i], input, k);
    }
  }

  lemma UniqueAppend(out: seq<RawPair>, input: seq<RawPair>, k: nat)
    requires k < |input| && UniqueSoFar(out, input, k)
    requires out != [] ==> KeyLess(out[|out| - 1].key, input[k].key)
    ensures UniqueSoFar(out + [input[k]], input, k + 1)
  {
    var x := input[k];
    StrictKeysSnoc(out, x);
    forall j | 0 <= j < k + 1 ensures CoveredBy(out + [x], input[j]) {
      if j < k {
        CoveredSnoc(out, x, input[j]);
      } else {
        assert Covers((out + [x])[|out|], x);
      }
    }
    forall i | 0 <= i < |out + [x]| ensures Occurs((out + [x])[i], input, k + 1) {
      if i < |out| { OccursLater(out[i], input, k); }
    }
  }

  lemma UniqueAtEnd(out: seq<RawPair>, sorted: seq<RawPair>, input: seq<RawPair>)
    requires UniqueSoFar(out, sorted, |sorted|) && multiset(sorted) == multiset(input)
    ensures UniqueOf(out, input)
  {
    forall i | 0 <= i < |out| ensures out[i] in input {
      assert Occurs(out[i], sorted, |sorted|);
      var j :| 0 <= j < |sorted| && sorted[j] == out[i];
      assert out[i] in multiset(sorted);
    }
    forall x | x in input ensures CoveredBy(out, x) {
      assert x in multiset(sorted);
      var j :| 0 <= j < |sorted| && sorted[j] == x;
      assert CoveredBy(out, sorted[j]);
    }
  }

  /** The byte comparison the loop uses decides key equality. */
  lemma SameKeyTest(a: Text, b: Text)
    ensures |a| == |b| && CompareN(a, b, |b|) == 0 <==> a == b
    ensures KeyCmp(a, b) == 0 <==> a == b
  {
    KeyOrder(a, b);
    if |a| == |b| {
      assert a[..|b|] == a && b[..|b|] == b;
      LexOpposite(a, b);
    }
  }

  /** The string bytes that the first n pairs need. */
  function Size(rs: seq<RawPair>, n: nat): nat
    requires n <= |rs|
  {
    if n == 0 then 0 else Size(rs, n - 1) + |rs[n - 1].key| + if rs[n - 1].isnull then 0 else |rs[n - 1].val|
  }

  lemma {:induction false} SizeSame(rs: seq<RawPair>, ss: seq<RawPair>, n: nat)
    requires n <= |rs| && n <= |ss| && rs[..n] == ss[..n]
    ensures Size(rs, n) == Size(ss, n)
  {
    if n > 0 {
      assert rs[..n - 1] == rs[..n][..n - 1] && ss[..n - 1] == ss[..n][..n - 1];
      assert rs[n - 1] == rs[..n][n - 1] && ss[n - 1] == ss[..n][n - 1];
      SizeSame(rs, ss, n - 1);
    }
  }

  lemma {:induction false} SizeIsFlat(rs: seq<RawPair>, n: nat)
    requires n <= |rs|
    ensures Size(rs, n) == |Flat(AsPairs(rs)[..n])|
  {
    if n > 0 {
      SizeIsFlat(rs, n - 1);
      FlatStep(AsPairs(rs), n - 1);
    }
  }

  lemma {:induction false} SizeOfPrefix(rs: seq<RawPair>, n: nat)
    requires n <= |rs|
    ensures Size(rs, n) == |Flat(AsPairs(rs[..n]))|
  {
    SizeSame(rs, rs[..n], n);
    SizeIsFlat(rs[..n], n);
    assert AsPairs(rs[..n])[..n] == AsPairs(rs[..n]);
  }

  /** The loop of hstoreUniquePairs: sorted[..ptr] is compacted into now[..res + 1]. */
  ghost predicate Compacting(now: seq<RawPair>, sorted: seq<RawPair>, ptr: nat, res: nat, buflen: int) {
    && |now| == |sorted| && res < ptr <= |now|
    && now[ptr..] == sorted[ptr..]
    && UniqueSoFar(now[..res + 1], sorted, ptr)
    && now[res].key == sorted[ptr - 1].key && PairLeq(now[res], sorted[ptr - 1])
    && buflen == Size(now, res)
  }

  lemma NextPair(now: seq<RawPair>, sorted: seq<RawPair>, ptr: nat, res: nat, buflen: int)
    requires Compacting(now, sorted, ptr, res, buflen) && ptr < |now| && SortedBy(sorted, PairLeq)
    ensures now[ptr] == sorted[ptr]
    ensures now[ptr + 1..] == sorted[ptr + 1..]
    ensures Covers(now[res], now[ptr]) || KeyLess(now[res].key, now[ptr].key)
    ensures now[res].key == now[ptr].key ==> Covers(now[res], now[ptr])
  {
    assert now[ptr] == now[ptr..][0] && now[ptr + 1..] == now[ptr..][1..] && sorted[ptr + 1..] == sorted[ptr..][1..];
    SortedPair(sorted, PairLeq, ptr - 1, ptr);
    KeyOrder(sorted[ptr - 1].key, sorted[ptr].key);
    KeyOrder(now[res].key, sorted[ptr - 1].key);
  }

  lemma SkipStep(now: seq<RawPair>, sorted: seq<RawPair>, ptr: nat, res: nat, buflen: int)
    requires Compacting(now, sorted, ptr, res, buflen) && ptr < |now| && SortedBy(sorted, PairLeq)
    requires now[ptr].key == now[res].key
    ensures Compacting(now, sorted, ptr + 1, res, buflen)
  {
    NextPair(now, sorted, ptr, res, buflen);
    UniqueSkip(now[..res + 1], sorted, ptr);
    KeyOrder(now[res].key, now[res].key);
  }

  lemma KeepStep(now: seq<RawPair>, sorted: seq<RawPair>, ptr: nat, res: nat, buflen: int)
    requires Compacting(now, sorted, ptr, res, buflen) && ptr < |now| && SortedBy(sorted, PairLeq)
    requires now[ptr].key != now[res].key
    ensures Compacting(now[res + 1 := now[ptr]], sorted, ptr + 1, res + 1,
                       buflen + |now[res].key| + if now[res].isnull then 0 else |now[res].val|)
  {
    NextPair(now, sorted, ptr, res, buflen);
    UniqueAppend(now[..res + 1], sorted, ptr);
    var after := now[res + 1 := now[ptr]];
    assert after[..res + 1] == now[..res + 1] && after[..res + 2] == now[..res + 1] + [now[ptr]];
    assert after[ptr + 1..] == now[ptr + 1..];
    SizeSame(now, after, res + 1);
    KeyOrder(now[ptr].key, now[ptr].key);
  }

  lemma Compacted(now: seq<RawPair>, sorted: seq<RawPair>, res: nat, buflen: int)
    requires Compacting(now, sorted, |sorted|, res, buflen)
    ensures UniqueSoFar(now[..res + 1], sorted, |sorted|)
    ensures |Flat(AsPairs(now[..res + 1]))| == buflen + |now[res].key| + if now[res].isnull then 0 else |now[res].val|
  {
    SizeOfPrefix(now, res + 1);
  }

  lemma CompactingStart(now: seq<RawPair>)
    requires |now| > 0
    ensures Compacting(now, now, 1, 0, 0)
  {
    assert now[..1] == [] + [now[0]];
    UniqueAppend([], now, 0);
    KeyOrder(now[0].key, now[0].key);
  }

  /** One turn of the loop. */
  method CompactOne(a: array<RawPair>, l: nat, ptr: nat, res: nat, buflen: nat, ghost sorted: seq<RawPair>)
    returns (res': nat, buflen': nat)
    requires l <= a.Length && ptr < l && SortedBy(sorted, PairLeq)
    requires Compacting(a[..l], sorted, ptr, res, buflen)
    modifies a
    ensures Compacting(a[..l], sorted, ptr + 1, res', buflen')
  {
    ghost var now := a[..l];
    SameKeyTest(a[ptr].key, a[res].key);
    if |a[ptr].key| == |a[res].key| && CompareN(a[ptr].key, a[res].key, |a[res].key|) == 0 {
      SkipStep(now, sorted, ptr, res, buflen);
      return res, buflen;
    } else {
      KeepStep(now, sorted, ptr, res, buflen);
      buflen' := buflen + |a[res].key| + if a[res].isnull then 0 else |a[res].val|;
      res' := res + 1;
      a[res'] := a[ptr];
      assert a[..l] == now[res' := now[ptr]];
    }
  }

  method CompactPairs(a: array<RawPair>, l: nat) returns (n: nat, buflen: nat)
    requires 1 <= l <= a.Length && SortedBy(a[..l], PairLeq)
    modifies a
    ensures 0 <= n <= l && UniqueSoFar(a[..n], old(a[..l]), l)
    ensures buflen == |Flat(AsPairs(a[..n]))|
  {
    ghost var sorted := a[..l];
    var ptr, res := 1, 0;
    buflen := 0;
    CompactingStart(sorted);
    while ptr < l
      invariant 0 <= res < ptr <= l
      invariant Compacting(a[..l], sorted, ptr, res, buflen)
    {
      res, buflen := CompactOne(a, l, ptr, res, buflen, sorted);
      ptr := ptr + 1;
    }
    Compacted(a[..l], sorted, res, buflen);
    n := res + 1;
    assert a[..l][..n] == a[..n];
    buflen := buflen + |a[res].key| + if a[res].isnull then 0 else |a[res].val|;
  }

  /** hstoreUniquePairs: sorts and deduplicates the array in place. */
  method UniquePairs(a: array<RawPair>, l: nat) returns (n: nat, buflen: nat)
    requires l <= a.Length
    modifies a
    ensures 0 <= n <= l && UniqueOf(a[..n], old(a[..l]))
    ensures buflen == |Flat(AsPairs(a[..n]))|
  {
    if l < 2 {
      buflen := 0;
      if l == 1 {
        assert a[..1] == [] + [a[0]];
        UniqueAppend([], a[..1], 0);
        UniqueAtEnd(a[..1], a[..1], a[..1]);
        SizeOfPrefix(a[..1], 1);
        assert a[..1][..1] == a[..1];
        buflen := |a[0].key| + if a[0].isnull then 0 else |a[0].val|;
      }
      return l, buflen;
    }
    PairLeqTotal();
    ghost var input := a[..l];
    QSortPrefix(a, l, PairLeq);
    ghost var sorted := a[..l];
    n, buflen := CompactPairs(a, l);
    UniqueAtEnd(a[..n], sorted, input);
  }

  /** hstorePairs: the caller passes the length of the strings to come. */
  method HStorePairs(pairs: seq<RawPair>, buflen: nat) returns (r: Result<HStore>)
    requires buflen == |Flat(AsPairs(pairs))|
    ensures r.Ok? <==> Fits(AsPairs(pairs))
    ensures r.Ok? ==> r.value == Encode(AsPairs(pairs))
  {
    if CalcDataSize(|pairs|, buflen) > MAX_ALLOC_SIZE {
      return Error;
    }
    ghost var ps := AsPairs(pairs);
    var b := new Builder(|pairs|, buflen);
    for i := 0 to |pairs|
      invariant b.Valid() && b.pairs == ps[..i]
      invariant fresh(b) && fresh(b.mem)
    {
      RoomFor(ps, i);
      b.AddItem(pairs[i]);
    }
    assert ps[..|ps|] == ps;
    var hs := b.Finalize();
    return Ok(hs);
  }

  lemma {:induction false} RoomFor(ps: seq<Pair>, i: nat)
    requires i < |ps|
    ensures |Flat(ps[..i])| + |ps[i].key| + |ps[i].ValBytes()| <= |Flat(ps)|
    ensures ps[..i] + [ps[i]] == ps[..i + 1]
  {
    FlatStep(ps, i);
    FlatPrefix(ps, i + 1);
  }
}
