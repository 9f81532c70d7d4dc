/** The GiST opclass of hstore: index search never misses a row that matches. */
module HStoreGist {
  import opened Wrappers
  import opened HStoreLayout
  import opened HStoreOps
  import opened Signature

  const SIGLEN := 16 // sizeof(int) * SIGLENINT
  const SIGLENBIT := 128

  /** crc32_sz, seen as any function from bytes to unsigned values. */
  type Crc = Text -> nat

  function HashVal(crc: Crc, t: Text): nat { HashIndex(crc(t), SIGLENBIT) }

  /** The bits a pair sets. */
  ghost function PairBits(crc: Crc, p: Pair): set<nat> {
    {HashVal(crc, p.key)} + if p.val.None? then {} else {HashVal(crc, p.val.value)}
  }

  ghost function StoreBits(crc: Crc, ps: seq<Pair>, i: nat): set<nat>
    requires i <= |ps|
  {
    if i == 0 then {} else StoreBits(crc, ps, i - 1) + PairBits(crc, ps[i - 1])
  }

  lemma {:induction false} StoreBitsHold(crc: Crc, ps: seq<Pair>, i: nat, j: nat)
    requires j < i <= |ps|
    ensures PairBits(crc, ps[j]) <= StoreBits(crc, ps, i)
  {
    if j < i - 1 { StoreBitsHold(crc, ps, i - 1, j); }
  }

  /** HASH(sign, h) */
  method HashInto(sign: array<bv8>, crc: Crc, t: Text)
    requires sign.Length == SIGLEN
    modifies sign
    ensures Bits(sign[..]) == old(Bits(sign[..])) + {HashVal(crc, t)}
  {
    SetBitIn(sign, HashVal(crc, t));
  }

  method NewSign() returns (sign: array<bv8>)
    ensures fresh(sign) && sign.Length == SIGLEN && Bits(sign[..]) == {}
  {
    sign := new bv8[SIGLEN](_ => 0);
    assert sign[..] == Zero(SIGLEN);
  }

  /** One round of the loop in ghstore_compress. */
  method HashPair(sign: array<bv8>, crc: Crc, p: Pair)
    requires sign.Length == SIGLEN
    modifies sign
    ensures Bits(sign[..]) == old(Bits(sign[..])) + PairBits(crc, p)
  {
    HashInto(sign, crc, p.key);
    if p.val.Some? {
      HashInto(sign, crc, p.val.value);
    }
  }

  method HashAll(sign: array<bv8>, ps: seq<Pair>, crc: Crc)
    requires sign.Length == SIGLEN && Bits(sign[..]) == {}
    modifies sign
    ensures Bits(sign[..]) == StoreBits(crc, ps, |ps|)
  {
    for i := 0 to |ps|
      invariant Bits(sign[..]) == StoreBits(crc, ps, i)
    {
      HashPair(sign, crc, ps[i]);
    }
  }

  /** ghstore_compress of a leaf value. */
  method Compress(hs: HStore, crc: Crc) returns (k: GKey)
    requires Valid(hs)
    ensures KeyOk(k, SIGLEN) && KeyBits(k, SIGLEN) == StoreBits(crc, Decode(hs), hs.count)
  {
    var sign := NewSign();
    HashAll(sign, Decode(hs), crc); // the pairs HS_KEY and HS_VAL read
    k := Signed(sign[..]);
  }

  /** The strategies: hs @> q, hs ? k, hs ?& ks, hs ?| ks. */
  datatype Query =
    | QContains(hs: HStore)
    | QExists(key: Text)
    | QExistsAll(keys: seq<Option<Text>>)
    | QExistsAny(keys: seq<Option<Text>>)

  ghost predicate QueryOk(q: Query) { q.QContains? ==> Valid(q.hs) }

  /** What the operator itself answers for a stored map. */
  ghost predicate Matches(m: HMap, q: Query)
    requires QueryOk(q)
  {
    match q
    case QContains(hs) => SubMap(Denotes(hs), m)
    case QExists(k) => k in m
    case QExistsAll(keys) => KeySet(keys) != {} && KeySet(keys) <= m.Keys
    case QExistsAny(keys) => !(KeySet(keys) !! m.Keys)
  }

  predicate HashHit(sign: Sign, crc: Crc, t: Text)
    requires |sign| == SIGLEN
  {
    GetBit(sign, HashVal(crc, t))
  }

  predicate PairHit(sign: Sign, crc: Crc, p: Pair)
    requires |sign| == SIGLEN
  {
    HashHit(sign, crc, p.key) && (p.val.Some? ==> HashHit(sign, crc, p.val.value))
  }

  /** ghstore_consistent, as a condition on the key. */
  ghost predicate IsConsistent(k: GKey, q: Query, crc: Crc)
    requires KeyOk(k, SIGLEN) && QueryOk(q)
  {
    k.AllTrue? ||
    match q
    case QContains(hs) => forall i {:trigger Decode(hs)[i]} :: 0 <= i < hs.count ==> PairHit(k.sign, crc, Decode(hs)[i])
    case QExists(key) => HashHit(k.sign, crc, key)
    case QExistsAll(keys) =>
      forall key {:trigger HashHit(k.sign, crc, key)} :: key in KeySet(keys) ==> HashHit(k.sign, crc, key)
    case QExistsAny(keys) => exists key :: key in KeySet(keys) && HashHit(k.sign, crc, key)
  }

  /** ghstore_consistent */
  method Consistent(k: GKey, q: Query, crc: Crc) returns (res: bool)
    requires KeyOk(k, SIGLEN) && QueryOk(q)
    ensures res <==> IsConsistent(k, q, crc)
  {
    if k.AllTrue? {
      return true;
    }
    res := true;
    match q {
      case QContains(hs) =>
        var i := 0;
        while res && i < hs.count
          invariant 0 <= i <= hs.count
          invariant res ==> forall j {:trigger Decode(hs)[j]} :: 0 <= j < i ==> PairHit(k.sign, crc, Decode(hs)[j])
          invariant !res ==> exists j :: 0 <= j < hs.count && !PairHit(k.sign, crc, Decode(hs)[j])
        {
          assert Decode(hs)[i] == PairAt(hs, i);
          if HashHit(k.sign, crc, Key(hs, i)) {
            if !ValIsNull(hs, i) {
              if !HashHit(k.sign, crc, Val(hs, i)) {
                res := false;
              }
            }
          } else {
            res := false;
          }
          i := i + 1;
        }
      case QExists(key) =>
        res := HashHit(k.sign, crc, key);
      case QExistsAll(keys) =>
        var i := 0;
        while res && i < |keys|
          invariant 0 <= i <= |keys|
          invariant res ==> forall j :: 0 <= j < i && keys[j].Some? ==> HashHit(k.sign, crc, keys[j].value)
          invariant !res ==> exists j :: 0 <= j < |keys| && keys[j].Some? && !HashHit(k.sign, crc, keys[j].value)
        {
          if keys[i].Some? && !HashHit(k.sign, crc, keys[i].value) {
            res := false;
          }
          i := i + 1;
        }
        KeySetAt(keys);
      case QExistsAny(keys) =>
        res := false;
        var i := 0;
        while !res && i < |keys|
          invariant 0 <= i <= |keys|
          invariant !res ==> forall j :: 0 <= j < i && keys[j].Some? ==> !HashHit(k.sign, crc, keys[j].value)
          invariant res ==> exists j :: 0 <= j < |keys| && keys[j].Some? && HashHit(k.sign, crc, keys[j].value)
        {
          if keys[i].Some? && HashHit(k.sign, crc, keys[i].value) {
            res := true;
          }
          i := i + 1;
        }
        KeySetAt(keys);
    }
  }

  lemma KeySetAt(keys: seq<Option<Text>>)
    ensures forall i :: 0 <= i < |keys| && keys[i].Some? ==> keys[i].value in KeySet(keys)
    ensures forall k :: k in KeySet(keys) ==> exists i :: 0 <= i < |keys| && keys[i].Some? && keys[i].value == k
  {
  }

  /** The stored pair's bits are in any key that covers its store. */
  lemma CoveredPair(hs: HStore, k: GKey, crc: Crc, key: Text)
    requires Valid(hs) && k.Signed? && KeyOk(k, SIGLEN)
    requires StoreBits(crc, Decode(hs), hs.count) <= KeyBits(k, SIGLEN) && key in Denotes(hs)
    ensures PairHit(k.sign, crc, Pair(key, Denotes(hs)[key]))
  {
    ToMapAt(Decode(hs), key);
    var i :| 0 <= i < |Decode(hs)| && Decode(hs)[i].key == key;
    var p := Decode(hs)[i];
    assert p == Pair(key, Denotes(hs)[key]);
    StoreBitsHold(crc, Decode(hs), hs.count, i);
    assert HashVal(crc, p.key) in Bits(k.sign);
    assert p.val.Some? ==> HashVal(crc, p.val.value) in Bits(k.sign);
  }

  /** If a store satisfies the operator, every key covering it is consistent. */
  lemma {:induction false} NeverMisses(hs: HStore, k: GKey, q: Query, crc: Crc)
    requires Valid(hs) && KeyOk(k, SIGLEN) && QueryOk(q)
    requires StoreBits(crc, Decode(hs), hs.count) <= KeyBits(k, SIGLEN)
    requires Matches(Denotes(hs), q)
    ensures IsConsistent(k, q, crc)
  {
    if k.Signed? {
      match q
      case QContains(t) =>
        forall i | 0 <= i < t.count ensures PairHit(k.sign, crc, Decode(t)[i]) {
          var p := Decode(t)[i];
          MergeHit(Decode(t), i);
          CoveredPair(hs, k, crc, p.key);
          assert p == Pair(p.key, Denotes(hs)[p.key]);
        }
      case QExists(key) =>
        CoveredPair(hs, k, crc, key);
      case QExistsAll(keys) =>
        forall key | key in KeySet(keys) ensures HashHit(k.sign, crc, key) {
          CoveredPair(hs, k, crc, key);
        }
      case QExistsAny(keys) =>
        var key :| key in KeySet(keys) && key in Denotes(hs);
        CoveredPair(hs, k, crc, key);
    }
  }

  lemma {:induction false} BitsWithin(crc: Crc, ps: seq<Pair>, i: nat, bits: set<nat>)
    requires i <= |ps| && forall j {:trigger ps[j]} :: 0 <= j < i ==> PairBits(crc, ps[j]) <= bits
    ensures StoreBits(crc, ps, i) <= bits
  {
    if i > 0 { BitsWithin(crc, ps, i - 1, bits); }
  }

  /** The asked keys, without values. */
  function Bare(keys: seq<Option<Text>>): (ps: seq<Pair>)
    ensures forall p :: p in ps ==> p.val.None? && Some(p.key) in keys
    ensures forall k :: Some(k) in keys ==> Pair(k, None) in ps
  {
    if keys == [] then [] else
      var last := keys[|keys| - 1];
      Bare(keys[..|keys| - 1]) + if last.Some? then [Pair(last.value, None)] else []
  }

  lemma {:induction false} KeysHit(ps: seq<Pair>, k: GKey, crc: Crc)
    requires KeyOk(k, SIGLEN) && forall p :: p in ps ==> p.val.None? && (k.AllTrue? || HashHit(k.sign, crc, p.key))
    ensures StoreBits(crc, ps, |ps|) <= KeyBits(k, SIGLEN)
  {
    forall j | 0 <= j < |ps| ensures PairBits(crc, ps[j]) <= KeyBits(k, SIGLEN) {
      assert ps[j] in ps;
    }
    BitsWithin(crc, ps, |ps|, KeyBits(k, SIGLEN));
  }

  /**
    A key accepts a query only if it could stand above a store that satisfies the operator;
    without any key asked for, exists-all is accepted though no store satisfies it.
   */
  lemma {:induction false} ConsistentIsTight(k: GKey, q: Query, crc: Crc) returns (ps: seq<Pair>)
    requires KeyOk(k, SIGLEN) && QueryOk(q) && IsConsistent(k, q, crc)
    requires q.QExistsAll? ==> KeySet(q.keys) != {}
    requires k.AllTrue? && q.QExistsAny? ==> KeySet(q.keys) != {}
    ensures StoreBits(crc, ps, |ps|) <= KeyBits(k, SIGLEN) && Matches(ToMap(ps), q)
  {
    match q
    case QContains(hs) =>
      ps := Decode(hs);
      ContainedHits(hs, k, crc);
    case QExists(key) => ps := OneKey(key, k, crc);
    case QExistsAll(keys) => ps := AllKeys(keys, k, crc);
    case QExistsAny(keys) =>
      var key :| key in KeySet(keys) && (k.AllTrue? || HashHit(k.sign, crc, key));
      ps := OneKey(key, k, crc);
  }

  lemma {:induction false} ContainedHits(hs: HStore, k: GKey, crc: Crc)
    requires Valid(hs) && KeyOk(k, SIGLEN) && IsConsistent(k, QContains(hs), crc)
    ensures StoreBits(crc, Decode(hs), hs.count) <= KeyBits(k, SIGLEN)
  {
    var ps := Decode(hs);
    forall j | 0 <= j < |ps| ensures PairBits(crc, ps[j]) <= KeyBits(k, SIGLEN) {
      assert k.Signed? ==> PairHit(k.sign, crc, Decode(hs)[j]);
    }
    BitsWithin(crc, ps, |ps|, KeyBits(k, SIGLEN));
  }

  lemma {:induction false} OneKey(key: Text, k: GKey, crc: Crc) returns (ps: seq<Pair>)
    requires KeyOk(k, SIGLEN) && (k.AllTrue? || HashHit(k.sign, crc, key))
    ensures StoreBits(crc, ps, |ps|) <= KeyBits(k, SIGLEN) && key in ToMap(ps)
  {
    ps := [Pair(key, None)];
    KeysHit(ps, k, crc);
    ToMapAt(ps, key);
    assert ps[0].key == key;
  }

  lemma {:induction false} AllKeys(keys: seq<Option<Text>>, k: GKey, crc: Crc) returns (ps: seq<Pair>)
    requires KeyOk(k, SIGLEN) && IsConsistent(k, QExistsAll(keys), crc)
    ensures StoreBits(crc, ps, |ps|) <= KeyBits(k, SIGLEN) && KeySet(keys) <= ToMap(ps).Keys
  {
    ps := Bare(keys);
    forall p | p in ps ensures k.AllTrue? || HashHit(k.sign, crc, p.key) {
      assert Some(p.key) in keys && p.key in KeySet(keys);
    }
    KeysHit(ps, k, crc);
    forall key | key in KeySet(keys) ensures key in ToMap(ps) {
      assert Pair(key, None) in ps;
      InToMap(ps, Pair(key, None));
    }
  }

  lemma {:induction false} InToMap(ps: seq<Pair>, p: Pair)
    requires p in ps
    ensures p.key in ToMap(ps)
  {
    var n := |ps| - 1;
    if ps[n].key != p.key {
      assert ps == ps[..n] + [ps[n]];
      InToMap(ps[..n], p);
    }
  }

  /** Leaves carry what Compress makes of their value. */
  ghost predicate LeafOk(leaf: Tree<HStore>, crc: Crc) {
    && leaf.Leaf? && Valid(leaf.value) && KeyOk(leaf.leafKey, SIGLEN)
    && KeyBits(leaf.leafKey, SIGLEN) == StoreBits(crc, Decode(leaf.value), leaf.value.count)
  }

  /** Descending any well-built tree, no key on the way to a matching row rejects the query. */
  lemma {:induction false} SearchIsComplete(t: Tree<HStore>, leaf: Tree<HStore>, q: Query, crc: Crc)
    requires t.WellBuilt(SIGLEN) && t.Holds(leaf) && LeafOk(leaf, crc) && QueryOk(q)
    requires Matches(Denotes(leaf.value), q)
    ensures IsConsistent(t.Key(), q, crc)
  {
    CoversLeaves(t, leaf, SIGLEN);
    NeverMisses(leaf.value, t.Key(), q, crc);
  }
}
