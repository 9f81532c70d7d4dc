/**
  The stored form of an hstore: a header, an array of end positions with flags, and
  one string buffer. A valid value is exactly the encoding of its sorted pairs, so
  two valid values are the same bytes just when they denote the same map.
 */
module HStoreLayout {
  import Machine
  import opened Wrappers
  import opened Bytes

  const POS_LIMIT := 0x4000_0000 // HENTRY_POSMASK + 1
  const COUNT_LIMIT := 0x1000_0000
  const HSHRDSIZE := 8
  const MAX_ALLOC_SIZE := Machine.MAX_ALLOC_SIZE

  type Pos = n: int | 0 <= n < POS_LIMIT

  /** One 32-bit entry: HENTRY_ISFIRST, HENTRY_ISNULL and the 30 bits of HENTRY_POSMASK. */
  datatype HEntry = HEntry(first: bool, isnull: bool, endpos: Pos)

  function Mask(n: nat): Pos { n % POS_LIMIT }

  /** The two entries of one pair; they lie side by side in the entry array. */
  datatype HItem = HItem(key: HEntry, val: HEntry)

  // HSE_OFF: the entry before tells where this one starts.

  function KeyOff(es: seq<HItem>, i: nat): nat
    requires i < |es|
  {
    if es[i].key.first || i == 0 then 0 else es[i - 1].val.endpos
  }

  function ValOff(es: seq<HItem>, i: nat): nat
    requires i < |es|
  {
    if es[i].val.first then 0 else es[i].key.endpos
  }

  /**
    varsize is the length word of the varlena header; newVersion and count are the
    HS_FLAG_NEWVERSION bit and the HS_COUNT bits of size_.
   */
  datatype HStore = HStore(varsize: nat, newVersion: bool, count: nat, items: seq<HItem>, str: seq<Byte>)

  function CalcDataSize(count: nat, lenstr: nat): nat { count * 2 * 4 + HSHRDSIZE + lenstr }

  function Start(es: seq<HItem>, i: nat): nat
    requires i <= |es|
  {
    if i == 0 then 0 else es[i - 1].val.endpos
  }

  /** Item i begins where the one before ends; only keys may be flagged first, only values null. */
  ghost predicate ItemOk(es: seq<HItem>, i: nat)
    requires i < |es|
  {
    var e := es[i];
    && (e.key.first <==> i == 0) && !e.val.first && !e.key.isnull
    && Start(es, i) <= e.key.endpos <= e.val.endpos
    && (e.val.isnull ==> e.key.endpos == e.val.endpos)
  }

  ghost predicate Contiguous(es: seq<HItem>, lenstr: nat) {
    && lenstr == Start(es, |es|)
    && forall i :: 0 <= i < |es| ==> ItemOk(es, i)
  }

  lemma {:induction false} StartsOrdered(es: seq<HItem>, lenstr: nat, i: nat)
    requires Contiguous(es, lenstr) && i <= |es|
    ensures Start(es, i) <= lenstr
    decreases |es| - i
  {
    if i < |es| {
      StartsOrdered(es, lenstr, i + 1);
      assert ItemOk(es, i);
    }
  }

  lemma ItemBounds(es: seq<HItem>, lenstr: nat, i: nat)
    requires Contiguous(es, lenstr) && i < |es|
    ensures KeyOff(es, i) == Start(es, i) <= es[i].key.endpos == ValOff(es, i) <= es[i].val.endpos <= lenstr
  {
    assert ItemOk(es, i);
    StartsOrdered(es, lenstr, i + 1);
  }

  ghost predicate Shaped(hs: HStore) {
    && |hs.items| == hs.count
    && hs.newVersion
    && Contiguous(hs.items, |hs.str|)
    && hs.varsize == CalcDataSize(hs.count, |hs.str|)
    && hs.varsize <= MAX_ALLOC_SIZE
  }

  // HS_* macros

  function KeyLen(hs: HStore, i: nat): int
    requires i < |hs.items|
  {
    hs.items[i].key.endpos - KeyOff(hs.items, i)
  }

  function ValLen(hs: HStore, i: nat): int
    requires i < |hs.items|
  {
    hs.items[i].val.endpos - ValOff(hs.items, i)
  }

  predicate ValIsNull(hs: HStore, i: nat)
    requires i < |hs.items|
  {
    hs.items[i].val.isnull
  }

  function Key(hs: HStore, i: nat): (k: seq<Byte>)
    requires Shaped(hs) && i < hs.count
    ensures |k| == KeyLen(hs, i)
  {
    ItemBounds(hs.items, |hs.str|, i);
    hs.str[KeyOff(hs.items, i)..hs.items[i].key.endpos]
  }

  function Val(hs: HStore, i: nat): (v: seq<Byte>)
    requires Shaped(hs) && i < hs.count
    ensures |v| == ValLen(hs, i)
  {
    ItemBounds(hs.items, |hs.str|, i);
    hs.str[ValOff(hs.items, i)..hs.items[i].val.endpos]
  }

  // Pairs

  type Text = seq<Byte>

  /** A key with its value; None is SQL NULL. */
  datatype Pair = Pair(key: Text, val: Option<Text>) {
    function ValBytes(): Text { if val.None? then [] else val.value }
  }

  /** The order of keys: shorter first, then bytewise. */
  function KeyCmp(a: Text, b: Text): int {
    if |a| == |b| then Lex(a, b) else if |a| > |b| then 1 else -1
  }

  predicate KeyLess(a: Text, b: Text) { KeyCmp(a, b) < 0 }

  lemma KeyOrder(a: Text, b: Text)
    ensures KeyCmp(a, b) == -KeyCmp(b, a)
    ensures KeyCmp(a, b) == 0 <==> a == b
  {
    LexOpposite(a, b);
  }

  /** Keys are ordered by length, and keys of one length by the first byte that differs. */
  lemma KeyLessMeans(a: Text, b: Text)
    ensures KeyLess(a, b) <==>
      |a| < |b| || (|a| == |b| && exists k: nat {:trigger DifferAt(a, b, k)} :: DifferAt(a, b, k) && a[k] < b[k])
  {
    LexMeans(a, b);
  }

  lemma KeyLessTrans(a: Text, b: Text, c: Text)
    requires KeyCmp(a, b) <= 0 && KeyCmp(b, c) <= 0
    ensures KeyCmp(a, c) <= 0
    ensures KeyLess(a, b) || KeyLess(b, c) ==> KeyLess(a, c)
  {
    if |a| == |b| == |c| {
      LexTransitive(a, b, c);
    }
  }

  ghost predicate Sorted(ps: seq<Pair>) {
    forall i, j {:trigger KeyLess(ps[i].key, ps[j].key)} ::
      0 <= i < j < |ps| ==> KeyLess(ps[i].key, ps[j].key)
  }

  function PairAt(hs: HStore, i: nat): Pair
    requires Shaped(hs) && i < hs.count
  {
    Pair(Key(hs, i), if ValIsNull(hs, i) then None else Some(Val(hs, i)))
  }

  function Decode(hs: HStore): (ps: seq<Pair>)
    requires Shaped(hs)
    ensures |ps| == hs.count && forall i {:trigger PairAt(hs, i)} :: 0 <= i < |ps| ==> ps[i] == PairAt(hs, i)
  {
    seq(hs.count, i requires 0 <= i < hs.count => PairAt(hs, i))
  }

  ghost predicate Valid(hs: HStore) {
    Shaped(hs) && Sorted(Decode(hs))
  }

  // Encoding

  function Flat(ps: seq<Pair>): Text {
    if ps == [] then [] else
      var q, p := ps[..|ps| - 1], ps[|ps| - 1];
      Flat(q) + p.key + p.ValBytes()
  }

  /** The entry array before HS_FINALIZE flags the first entry. */
  function Items(ps: seq<Pair>): (es: seq<HItem>)
    ensures |es| == |ps|
  {
    if ps == [] then [] else
      var q, p := ps[..|ps| - 1], ps[|ps| - 1];
      Items(q) + [HItem(HEntry(false, false, Mask(|Flat(q)| + |p.key|)),
                        HEntry(false, p.val.None?, Mask(|Flat(ps)|)))]
  }

  function FlagFirst(es: seq<HItem>): seq<HItem> {
    if es == [] then [] else es[0 := es[0].(key := es[0].key.(first := true))]
  }

  predicate Fits(ps: seq<Pair>) {
    CalcDataSize(|ps|, |Flat(ps)|) <= MAX_ALLOC_SIZE
  }

  function Encode(ps: seq<Pair>): HStore
    requires Fits(ps)
  {
    HStore(CalcDataSize(|ps|, |Flat(ps)|), true, |ps|, FlagFirst(Items(ps)), Flat(ps))
  }

  // The encoding is canonical

  lemma MaskSmall(n: nat)
    requires n < POS_LIMIT
    ensures Mask(n) == n
  {
  }

  lemma {:induction false} FlatStep(ps: seq<Pair>, i: nat)
    requires i < |ps|
    ensures Flat(ps[..i + 1]) == Flat(ps[..i]) + ps[i].key + ps[i].ValBytes()
  {
    assert ps[..i + 1][..i] == ps[..i];
  }

  lemma {:induction false} FlatPrefix(ps: seq<Pair>, i: nat)
    requires i <= |ps|
    ensures Flat(ps[..i]) <= Flat(ps)
    decreases |ps| - i
  {
    if i == |ps| {
      assert ps[..i] == ps;
    } else {
      FlatStep(ps, i);
      FlatPrefix(ps, i + 1);
    }
  }

  /** What Items holds for pair i. */
  function ItemFor(ps: seq<Pair>, i: nat): HItem
    requires i < |ps|
  {
    HItem(HEntry(false, false, Mask(|Flat(ps[..i])| + |ps[i].key|)),
          HEntry(false, ps[i].val.None?, Mask(|Flat(ps[..i + 1])|)))
  }

  lemma ItemForPrefix(ps: seq<Pair>, n: nat, i: nat)
    requires i < n <= |ps|
    ensures ItemFor(ps[..n], i) == ItemFor(ps, i)
  {
    assert ps[..n][..i] == ps[..i] && ps[..n][..i + 1] == ps[..i + 1];
  }

  lemma {:induction false} ItemsAt(ps: seq<Pair>, i: nat)
    requires i < |ps|
    ensures Items(ps)[i] == ItemFor(ps, i)
  {
    var q := ps[..|ps| - 1];
    if i < |q| {
      ItemsAt(q, i);
      ItemForPrefix(ps, |ps| - 1, i);
      assert Items(ps)[i] == Items(q)[i];
    } else {
      assert ps[..i + 1] == ps;
    }
  }

  /** The item of pair i in the encoding of ps. */
  lemma {:induction false} EncodedAt(ps: seq<Pair>, i: nat)
    requires Fits(ps) && i < |ps|
    ensures var k := |Flat(ps[..i])| + |ps[i].key|;
            && k <= |Flat(ps[..i + 1])| == k + |ps[i].ValBytes()| <= |Flat(ps)| < POS_LIMIT
            && Encode(ps).items[i] ==
               HItem(HEntry(i == 0, false, k), HEntry(false, ps[i].val.None?, |Flat(ps[..i + 1])|))
    ensures Start(Encode(ps).items, i) == |Flat(ps[..i])|
  {
    FlatStep(ps, i);
    FlatPrefix(ps, i + 1);
    ItemsAt(ps, i);
    MaskSmall(|Flat(ps[..i])| + |ps[i].key|);
    MaskSmall(|Flat(ps[..i + 1])|);
    if i > 0 {
      ItemsAt(ps, i - 1);
      MaskSmall(|Flat(ps[..i])|);
    } else {
      assert ps[..0] == [];
    }
  }

  lemma {:induction false} EncodedBytes(ps: seq<Pair>, i: nat)
    requires i < |ps|
    ensures var a := |Flat(ps[..i])|;
            var b := a + |ps[i].key|;
            var c := |Flat(ps[..i + 1])|;
            && b <= c <= |Flat(ps)| && Flat(ps)[a..b] == ps[i].key && Flat(ps)[b..c] == ps[i].ValBytes()
  {
    FlatStep(ps, i);
    FlatPrefix(ps, i + 1);
  }

  lemma {:induction false} EncodeShaped(ps: seq<Pair>)
    requires Fits(ps)
    ensures Shaped(Encode(ps))
  {
    var es := Encode(ps).items;
    forall i | 0 <= i < |es| ensures ItemOk(es, i) {
      EncodedAt(ps, i);
    }
    if |ps| > 0 {
      EncodedAt(ps, |ps| - 1);
      assert ps[..|ps|] == ps;
    }
  }

  /** Reading back what was encoded. */
  lemma {:induction false} DecodeEncode(ps: seq<Pair>)
    requires Fits(ps)
    ensures Shaped(Encode(ps)) && Decode(Encode(ps)) == ps
  {
    EncodeShaped(ps);
    var hs := Encode(ps);
    forall i | 0 <= i < |ps| ensures PairAt(hs, i) == ps[i] {
      EncodedAt(ps, i);
      EncodedBytes(ps, i);
      ItemBounds(hs.items, |hs.str|, i);
    }
  }

  lemma ThreeParts(s: Text, a: nat, b: nat, c: nat)
    requires a <= b <= c <= |s|
    ensures s[..a] + s[a..b] + s[b..c] == s[..c]
  {
  }

  lemma {:induction false} DecodedFlat(hs: HStore, i: nat)
    requires Shaped(hs) && i <= hs.count
    ensures Start(hs.items, i) <= |hs.str|
    ensures Flat(Decode(hs)[..i]) == hs.str[..Start(hs.items, i)]
  {
    if i > 0 {
      var ps, e := Decode(hs), hs.items[i - 1];
      DecodedFlat(hs, i - 1);
      ItemBounds(hs.items, |hs.str|, i - 1);
      FlatStep(ps, i - 1);
      assert ItemOk(hs.items, i - 1);
      assert ps[i - 1] == PairAt(hs, i - 1);
      assert ps[i - 1].ValBytes() == hs.str[e.key.endpos..e.val.endpos];
      ThreeParts(hs.str, Start(hs.items, i - 1), e.key.endpos, e.val.endpos);
    }
  }

  lemma {:induction false} DecodedLengths(hs: HStore, i: nat)
    requires Shaped(hs) && i < hs.count
    ensures |Flat(Decode(hs)[..i])| + |Decode(hs)[i].key| == hs.items[i].key.endpos
    ensures |Flat(Decode(hs)[..i + 1])| == hs.items[i].val.endpos
    ensures Decode(hs)[i].val.None? <==> hs.items[i].val.isnull
  {
    DecodedFlat(hs, i);
    DecodedFlat(hs, i + 1);
    ItemBounds(hs.items, |hs.str|, i);
    assert Decode(hs)[i] == PairAt(hs, i);
  }

  lemma {:induction false} DecodedItems(hs: HStore, i: nat)
    requires Shaped(hs) && i < hs.count
    ensures ItemFor(Decode(hs), i) == hs.items[i].(key := hs.items[i].key.(first := false))
  {
    DecodedLengths(hs, i);
    ItemBounds(hs.items, |hs.str|, i);
    assert ItemOk(hs.items, i);
    ItemFrom(Decode(hs), i, hs.items[i]);
  }

  lemma ItemFrom(ps: seq<Pair>, i: nat, e: HItem)
    requires i < |ps| && |Flat(ps[..i])| + |ps[i].key| == e.key.endpos && |Flat(ps[..i + 1])| == e.val.endpos
    requires e.key.endpos < POS_LIMIT && e.val.endpos < POS_LIMIT
    requires (ps[i].val.None? <==> e.val.isnull) && !e.key.isnull && !e.val.first
    ensures ItemFor(ps, i) == e.(key := e.key.(first := false))
  {
    MaskSmall(e.key.endpos);
    MaskSmall(e.val.endpos);
  }

  lemma FlagUnflagged(es: seq<HItem>, fs: seq<HItem>)
    requires |es| == |fs|
    requires forall i :: 0 <= i < |es| ==> es[i] == fs[i].(key := fs[i].key.(first := false))
    requires forall i :: 0 <= i < |es| ==> (fs[i].key.first <==> i == 0)
    ensures FlagFirst(es) == fs
  {
  }

  /** Every well-shaped value is the encoding of what it decodes to, byte for byte. */
  lemma {:induction false} EncodeDecode(hs: HStore)
    requires Shaped(hs)
    ensures Fits(Decode(hs)) && Encode(Decode(hs)) == hs
  {
    var ps := Decode(hs);
    DecodedFlat(hs, |ps|);
    assert ps[..|ps|] == ps && hs.str[..Start(hs.items, |ps|)] == hs.str;
    forall i | 0 <= i < |ps|
      ensures Items(ps)[i] == hs.items[i].(key := hs.items[i].key.(first := false))
      ensures hs.items[i].key.first <==> i == 0
    {
      ItemsAt(ps, i);
      DecodedItems(hs, i);
      assert ItemOk(hs.items, i);
    }
    FlagUnflagged(Items(ps), hs.items);
  }

  lemma {:induction false} EncodeValid(ps: seq<Pair>)
    requires Fits(ps) && Sorted(ps)
    ensures Valid(Encode(ps)) && Decode(Encode(ps)) == ps
  {
    DecodeEncode(ps);
  }

  // The map an hstore denotes

  type HMap = map<Text, Option<Text>>

  function ToMap(ps: seq<Pair>): HMap {
    if ps == [] then map[] else
      var p := ps[|ps| - 1];
      ToMap(ps[..|ps| - 1])[p.key := p.val]
  }

  ghost function Denotes(hs: HStore): HMap
    requires Shaped(hs)
  {
    ToMap(Decode(hs))
  }

  lemma SortedPrefix(ps: seq<Pair>, n: nat)
    requires Sorted(ps) && n <= |ps|
    ensures Sorted(ps[..n])
  {
    forall i, j | 0 <= i < j < n ensures KeyLess(ps[..n][i].key, ps[..n][j].key) {
      assert KeyLess(ps[i].key, ps[j].key);
    }
  }

  lemma {:induction false} ToMapAt(ps: seq<Pair>, k: Text)
    requires Sorted(ps)
    ensures k in ToMap(ps) <==> exists i :: 0 <= i < |ps| && ps[i].key == k
    ensures forall i :: 0 <= i < |ps| && ps[i].key == k ==> k in ToMap(ps) && ToMap(ps)[k] == ps[i].val
  {
    if ps != [] {
      var n := |ps| - 1;
      var q := ps[..n];
      SortedPrefix(ps, n);
      ToMapAt(q, k);
      forall i | 0 <= i < n ensures q[i] == ps[i] && ps[i].key != ps[n].key {
        assert KeyLess(ps[i].key, ps[n].key);
        KeyOrder(ps[n].key, ps[n].key);
      }
      if ps[n].key != k && k in ToMap(q) {
        var i :| 0 <= i < |q| && q[i].key == k;
        assert ps[i].key == k;
      }
    }
  }

  /** The last key is the greatest, so equal maps have equal last pairs. */
  lemma {:induction false} SameMapSamePairs(ps: seq<Pair>, qs: seq<Pair>)
    requires Sorted(ps) && Sorted(qs) && ToMap(ps) == ToMap(qs)
    ensures ps == qs
  {
    if ps == [] || qs == [] {
      EmptyMapOnly(ps);
      EmptyMapOnly(qs);
    } else {
      var p, q := ps[|ps| - 1], qs[|qs| - 1];
      NoGreaterKey(ps, q.key);
      NoGreaterKey(qs, p.key);
      KeyOrder(p.key, q.key);
      var ps', qs' := ps[..|ps| - 1], qs[..|qs| - 1];
      DropLast(ps);
      DropLast(qs);
      SortedPrefix(ps, |ps| - 1);
      SortedPrefix(qs, |qs| - 1);
      SameMapSamePairs(ps', qs');
      assert ps == ps' + [p] && qs == qs' + [q];
    }
  }

  lemma {:induction false} EmptyMapOnly(ps: seq<Pair>)
    ensures ToMap(ps) == map[] <==> ps == []
  {
    if ps != [] {
      assert ps[|ps| - 1].key in ToMap(ps);
    }
  }

  lemma {:induction false} NoGreaterKey(ps: seq<Pair>, k: Text)
    requires Sorted(ps) && k in ToMap(ps) && ps != []
    ensures KeyCmp(k, ps[|ps| - 1].key) <= 0
  {
    ToMapAt(ps, k);
    var i :| 0 <= i < |ps| && ps[i].key == k;
    KeyOrder(k, k);
    assert i < |ps| - 1 ==> KeyLess(ps[i].key, ps[|ps| - 1].key);
  }

  lemma {:induction false} DropLast(ps: seq<Pair>)
    requires Sorted(ps) && ps != []
    ensures ToMap(ps[..|ps| - 1]) == ToMap(ps) - {ps[|ps| - 1].key}
  {
    var k := ps[|ps| - 1].key;
    var m := ToMap(ps[..|ps| - 1]);
    SortedPrefix(ps, |ps| - 1);
    var q := ps[..|ps| - 1];
    forall i | 0 <= i < |q| ensures KeyLess(q[i].key, k) {
      assert KeyLess(ps[i].key, k);
    }
    FreshKey(q, k);
    assert m[k := ps[|ps| - 1].val] - {k} == m;
  }

  lemma {:induction false} FreshKey(ps: seq<Pair>, k: Text)
    requires Sorted(ps) && forall i {:trigger KeyLess(ps[i].key, k)} :: 0 <= i < |ps| ==> KeyLess(ps[i].key, k)
    ensures k !in ToMap(ps)
  {
    ToMapAt(ps, k);
    KeyOrder(k, k);
    forall i | 0 <= i < |ps| ensures ps[i].key != k {
      assert KeyLess(ps[i].key, k);
    }
  }

  /** Valid values that denote the same map are the same bytes. */
  lemma {:induction false} Canonical(a: HStore, b: HStore)
    requires Valid(a) && Valid(b)
    ensures Denotes(a) == Denotes(b) <==> a == b
  {
    EncodeDecode(a);
    EncodeDecode(b);
    if Denotes(a) == Denotes(b) {
      SameMapSamePairs(Decode(a), Decode(b));
    }
  }

  // The format

  /** Eight bytes of header, eight for each pair, and one for each byte of the strings, up to a gigabyte. */
  lemma {:induction false} SizeOf(ps: seq<Pair>)
    ensures Fits(ps) <==> 8 + 8 * |ps| + |Flat(ps)| <= 0x3fff_ffff
    ensures Fits(ps) ==> Encode(ps).varsize == 8 + 8 * |ps| + |Flat(ps)|
  {
  }

  /** The pairs a=>1 and b=>NULL as they are stored: each entry tells where its string ends. */
  lemma {:induction false} StoredTwo()
    ensures var ps := [Pair([97], Some([49])), Pair([98], None)];
      Fits(ps) && Encode(ps) == HStore(27, true, 2,
        [HItem(HEntry(true, false, 1), HEntry(false, false, 2)),
         HItem(HEntry(false, false, 3), HEntry(false, true, 3))],
        [97, 49, 98])
  {
    var p, q := Pair([97], Some([49])), Pair([98], None);
    assert [p, q][..1] == [p] && [p][..0] == [];
    assert Flat([p]) == [97, 49] && Flat([p, q]) == [97, 49, 98];
    MaskSmall(1);
    MaskSmall(2);
    MaskSmall(3);
    assert Items([p]) == [HItem(HEntry(false, false, 1), HEntry(false, false, 2))];
  }
}
