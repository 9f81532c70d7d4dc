/**
  Signature keys of the GiST opclasses: bit vectors or-ed together up the tree. The
  union and picksplit support functions here are the ones hstore_gist.c and
  _intbig_gist.c share, apart from the signature length and one constant.
 */
module Signature {
  import opened Sorting

  // Bits of bytes

  function BitMask(k: nat): bv8
    requires k < 8
  {
    if k == 0 then 1 else if k == 1 then 2 else if k == 2 then 4 else if k == 3 then 8
    else if k == 4 then 16 else if k == 5 then 32 else if k == 6 then 64 else 128
  }

  predicate Bit(b: bv8, k: nat)
    requires k < 8
  {
    b & BitMask(k) != 0
  }

  lemma BitSet(b: bv8, k: nat, j: nat)
    requires k < 8 && j < 8
    ensures Bit(b | BitMask(k), j) <==> j == k || Bit(b, j)
  {
  }

  lemma BitOr(a: bv8, b: bv8, j: nat)
    requires j < 8
    ensures Bit(a | b, j) <==> Bit(a, j) || Bit(b, j)
  {
  }

  lemma BitFull(b: bv8)
    ensures b == 0xff <==> forall j :: 0 <= j < 8 ==> Bit(b, j)
  {
    if forall j :: 0 <= j < 8 ==> Bit(b, j) {
      assert Bit(b, 0) && Bit(b, 1) && Bit(b, 2) && Bit(b, 3) && Bit(b, 4) && Bit(b, 5) && Bit(b, 6) && Bit(b, 7);
    }
  }

  /** BITVEC */
  type Sign = seq<bv8>

  /** HASHVAL: an unsigned value modulo the number of usable bits. */
  function HashIndex(value: nat, bits: nat): (i: nat)
    requires bits > 0
    ensures i < bits && value == bits * (value / bits) + i
  {
    value % bits
  }

  /** GETBIT */
  predicate GetBit(s: Sign, i: nat)
    requires i < 8 * |s|
  {
    Bit(s[i / 8], i % 8)
  }

  /** SETBIT */
  function SetBit(s: Sign, i: nat): Sign
    requires i < 8 * |s|
  {
    s[i / 8 := s[i / 8] | BitMask(i % 8)]
  }

  ghost function Bits(s: Sign): set<nat> {
    set i | 0 <= i < 8 * |s| && GetBit(s, i)
  }

  lemma SetBitBits(s: Sign, i: nat)
    requires i < 8 * |s|
    ensures Bits(SetBit(s, i)) == Bits(s) + {i}
  {
    var t := SetBit(s, i);
    forall j | 0 <= j < 8 * |s| ensures GetBit(t, j) <==> j == i || GetBit(s, j) {
      if j / 8 == i / 8 {
        BitSet(s[i / 8], i % 8, j % 8);
        assert j == i <==> j % 8 == i % 8;
      }
    }
  }

  function Zero(n: nat): (s: Sign)
    ensures |s| == n && Bits(s) == {}
  {
    var s := seq(n, _ => 0 as bv8);
    assert forall i :: 0 <= i < 8 * n ==> !GetBit(s, i);
    s
  }

  function Ones(n: nat): (s: Sign)
    ensures |s| == n && forall i :: 0 <= i < n ==> s[i] == 0xff
  {
    seq(n, _ => 0xff as bv8)
  }

  ghost function AllBits(n: nat): set<nat> { Bits(Ones(n)) }

  lemma AllBitsAre(n: nat, i: nat)
    ensures i in AllBits(n) <==> i < 8 * n
  {
    if i < 8 * n {
      BitFull(Ones(n)[i / 8]);
    }
  }

  lemma OnesBits(s: Sign)
    ensures s == Ones(|s|) <==> Bits(s) == AllBits(|s|)
    ensures Bits(s) <= AllBits(|s|)
  {
    forall i | i in Bits(s) ensures i in AllBits(|s|) {
      AllBitsAre(|s|, i);
    }
    if Bits(s) == AllBits(|s|) {
      forall i | 0 <= i < |s| ensures s[i] == 0xff {
        forall j | 0 <= j < 8 ensures Bit(s[i], j) {
          AllBitsAre(|s|, 8 * i + j);
          assert (8 * i + j) / 8 == i && (8 * i + j) % 8 == j;
          assert GetBit(s, 8 * i + j);
        }
        BitFull(s[i]);
      }
    }
  }

  /** SETBIT in place. */
  method SetBitIn(sign: array<bv8>, i: nat)
    requires i < 8 * sign.Length
    modifies sign
    ensures Bits(sign[..]) == old(Bits(sign[..])) + {i}
  {
    ghost var was := sign[..];
    SetBitBits(was, i);
    sign[i / 8] := sign[i / 8] | BitMask(i % 8);
    assert sign[..] == SetBit(was, i);
  }

  /** The LOOPBYTE or of two signatures. */
  method OrInto(base: array<bv8>, add: Sign)
    requires base.Length == |add|
    modifies base
    ensures Bits(base[..]) == old(Bits(base[..])) + Bits(add)
  {
    ghost var was := base[..];
    for i := 0 to base.Length
      invariant forall j :: 0 <= j < i ==> base[j] == was[j] | add[j]
      invariant forall j :: i <= j < base.Length ==> base[j] == was[j]
    {
      base[i] := base[i] | add[i];
    }
    forall j | 0 <= j < 8 * |add| ensures GetBit(base[..], j) <==> GetBit(was, j) || GetBit(add, j) {
      BitOr(was[j / 8], add[j / 8], j % 8);
    }
  }

  // Keys

  /** GISTTYPE: a signature, or the flag that all bits are true. */
  datatype GKey = AllTrue | Signed(sign: Sign)

  ghost predicate KeyOk(k: GKey, siglen: nat) { k.Signed? ==> |k.sign| == siglen }

  ghost function KeyBits(k: GKey, siglen: nat): set<nat> {
    if k.AllTrue? then AllBits(siglen) else Bits(k.sign)
  }

  ghost predicate Covers(k: GKey, l: GKey, siglen: nat) {
    KeyBits(l, siglen) <= KeyBits(k, siglen)
  }

  /** The compress method of an internal key: a full signature becomes the flag. */
  method CompressInner(k: GKey, siglen: nat) returns (r: GKey)
    requires KeyOk(k, siglen)
    ensures KeyOk(r, siglen) && KeyBits(r, siglen) == KeyBits(k, siglen)
    ensures r.Signed? ==> KeyBits(r, siglen) != AllBits(siglen)
  {
    if k.AllTrue? {
      return k;
    }
    OnesBits(k.sign);
    for i := 0 to siglen
      invariant forall j :: 0 <= j < i ==> k.sign[j] == 0xff
    {
      if k.sign[i] != 0xff {
        return k;
      }
    }
    return AllTrue;
  }

  ghost function UnionBits(es: seq<GKey>, i: nat, siglen: nat): set<nat>
    requires i <= |es|
  {
    if i == 0 then {} else UnionBits(es, i - 1, siglen) + KeyBits(es[i - 1], siglen)
  }

  lemma {:induction false} UnionCovers(es: seq<GKey>, i: nat, j: nat, siglen: nat)
    requires j < i <= |es|
    ensures KeyBits(es[j], siglen) <= UnionBits(es, i, siglen)
  {
    if j < i - 1 { UnionCovers(es, i - 1, j, siglen); }
  }

  lemma {:induction false} UnionWithin(es: seq<GKey>, i: nat, siglen: nat)
    requires i <= |es| && forall j :: 0 <= j < |es| ==> KeyOk(es[j], siglen)
    ensures UnionBits(es, i, siglen) <= AllBits(siglen)
  {
    if i > 0 {
      UnionWithin(es, i - 1, siglen);
      assert KeyOk(es[i - 1], siglen);
      if es[i - 1].Signed? { OnesBits(es[i - 1].sign); }
    }
  }

  /** The union method: exactly the bits of the entries, all of them once one entry is all true. */
  method Union(es: seq<GKey>, siglen: nat) returns (r: GKey)
    requires forall i :: 0 <= i < |es| ==> KeyOk(es[i], siglen)
    ensures KeyOk(r, siglen) && KeyBits(r, siglen) == UnionBits(es, |es|, siglen)
    ensures forall i {:trigger es[i]} :: 0 <= i < |es| ==> Covers(r, es[i], siglen)
  {
    var base := new bv8[siglen](_ => 0);
    assert base[..] == Zero(siglen);
    forall i | 0 <= i < |es| ensures KeyBits(es[i], siglen) <= UnionBits(es, |es|, siglen) {
      UnionCovers(es, |es|, i, siglen);
    }
    UnionWithin(es, |es|, siglen);
    for i := 0 to |es|
      invariant Bits(base[..]) == UnionBits(es, i, siglen)
    {
      assert KeyOk(es[i], siglen);
      if es[i].AllTrue? {
        return AllTrue;
      }
      OrInto(base, es[i].sign);
    }
    return Signed(base[..]);
  }

  // picksplit

  function CountDiff(a: Sign, b: Sign, n: nat): nat
    requires |a| == |b| && n <= 8 * |a|
  {
    if n == 0 then 0 else CountDiff(a, b, n - 1) + if GetBit(a, n - 1) != GetBit(b, n - 1) then 1 else 0
  }

  /** hemdist: the number of differing bits. */
  function HemDist(a: GKey, b: GKey, siglen: nat): nat
    requires KeyOk(a, siglen) && KeyOk(b, siglen)
  {
    var s, t := if a.AllTrue? then Ones(siglen) else a.sign, if b.AllTrue? then Ones(siglen) else b.sign;
    CountDiff(s, t, 8 * siglen)
  }

  /** WISH_F */
  function Wish(a: int, b: int, c: real): real {
    -(((a - b) * (a - b) * (a - b)) as real) * c
  }

  function Abs(n: int): int { if n < 0 then -n else n }

  function KeyFrom(all: bool, sig: Sign): GKey { if all then AllTrue else Signed(sig) }

  /** Adds an entry to the key of one side. */
  method Absorb(all: bool, sig: array<bv8>, e: GKey)
    requires KeyOk(e, sig.Length)
    modifies sig
    ensures KeyBits(KeyFrom(all, sig[..]), sig.Length) ==
            old(KeyBits(KeyFrom(all, sig[..]), sig.Length)) + (if all then {} else KeyBits(e, sig.Length))
  {
    if all || e.AllTrue? {
      if !all {
        ghost var was := sig[..];
        forall i | 0 <= i < sig.Length {
          sig[i] := 0xff;
        }
        assert sig[..] == Ones(sig.Length);
        OnesBits(was);
      }
    } else {
      OrInto(sig, e.sign);
    }
  }

  /** The two seeds: the pair of entries farthest apart among all but the last. */
  method PickSeeds(vec: seq<GKey>, siglen: nat) returns (seed1: nat, seed2: nat)
    requires |vec| >= 3 && forall i :: 1 <= i < |vec| ==> KeyOk(vec[i], siglen)
    ensures 1 <= seed1 < seed2 < |vec|
  {
    var maxoff: nat := |vec| - 2;
    var waste: int := -1;
    seed1, seed2 := 0, 0;
    for k := 1 to maxoff
      invariant (seed1 == 0 && seed2 == 0) || 1 <= seed1 < seed2 <= maxoff
    {
      for j := k + 1 to maxoff + 1
        invariant (seed1 == 0 && seed2 == 0) || 1 <= seed1 < seed2 <= maxoff
      {
        var sizeWaste := HemDist(vec[k], vec[j], siglen);
        if sizeWaste > waste {
          waste, seed1, seed2 := sizeWaste, k, j;
        }
      }
    }
    if seed1 == 0 || seed2 == 0 {
      seed1, seed2 := 1, 2;
    }
  }

  /** The offsets of the real entries, 1 to n - 1. */
  function Offsets(n: nat): seq<nat>
    requires n >= 1
  {
    seq(n - 1, i requires 0 <= i < n - 1 => i + 1)
  }

  ghost predicate SideOk(vec: seq<GKey>, side: seq<nat>, key: GKey, siglen: nat) {
    forall i {:trigger side[i]} :: 0 <= i < |side| ==> 1 <= side[i] < |vec| && Covers(key, vec[side[i]], siglen)
  }

  /** A side stays covered when its key grows to cover one more entry. */
  lemma SideGrows(vec: seq<GKey>, side: seq<nat>, key: GKey, key': GKey, j: nat, siglen: nat)
    requires SideOk(vec, side, key, siglen) && Covers(key', key, siglen)
    requires 1 <= j < |vec| && Covers(key', vec[j], siglen)
    ensures SideOk(vec, side + [j], key', siglen)
  {
  }

  /** picksplit: every real entry goes to exactly one side, and each side has a key over its entries. */
  method PickSplit(vec: seq<GKey>, siglen: nat, wish: real)
    returns (left: seq<nat>, right: seq<nat>, lkey: GKey, rkey: GKey)
    requires |vec| >= 3 && forall i :: 1 <= i < |vec| ==> KeyOk(vec[i], siglen)
    ensures multiset(left) + multiset(right) == multiset(Offsets(|vec|))
    ensures left != [] && right != []
    ensures KeyOk(lkey, siglen) && SideOk(vec, left, lkey, siglen)
    ensures KeyOk(rkey, siglen) && SideOk(vec, right, rkey, siglen)
  {
    var seed1, seed2 := PickSeeds(vec, siglen);
    var order := SplitOrder(vec, siglen, seed1, seed2);
    left, right, lkey, rkey := Distribute(vec, siglen, wish, seed1, seed2, order);
    OffsetIn(|vec|, seed1);
    OffsetIn(|vec|, seed2);
    assert seed1 in multiset(order) && seed2 in multiset(order);
    assert seed1 in multiset(left) && seed2 in multiset(right);
  }

  lemma OffsetIn(n: nat, j: nat)
    requires n >= 1
    ensures j in multiset(Offsets(n)) <==> 1 <= j < n
  {
    if 1 <= j < n {
      assert Offsets(n)[j - 1] == j;
    }
  }

  /** The sort by cost; qsort leaves equal costs in any order. */
  method SplitOrder(vec: seq<GKey>, siglen: nat, seed1: nat, seed2: nat) returns (order: seq<nat>)
    requires forall i :: 1 <= i < |vec| ==> KeyOk(vec[i], siglen)
    requires 1 <= seed1 < |vec| && 1 <= seed2 < |vec|
    ensures multiset(order) == multiset(Offsets(|vec|))
    ensures forall i :: 0 <= i < |order| ==> 1 <= order[i] < |vec|
  {
    var costs := seq(|vec|, j requires 0 <= j < |vec| =>
      if j == 0 then 0 else Abs(HemDist(vec[seed1], vec[j], siglen) - HemDist(vec[seed2], vec[j], siglen)));
    order := QSort(Offsets(|vec|), (i, j) => CostAt(costs, i) <= CostAt(costs, j));
    forall i | 0 <= i < |order| ensures 1 <= order[i] < |vec| {
      assert order[i] in multiset(order);
      OffsetIn(|vec|, order[i]);
    }
  }

  function CostAt(costs: seq<int>, i: nat): int { if i < |costs| then costs[i] else 0 }

  /** One side of the split: its offsets and the key being built for them. */
  class Side {
    var offsets: seq<nat>
    const all: bool
    const sig: array<bv8>

    ghost function Key(): GKey
      reads this, sig
    {
      KeyFrom(all, sig[..])
    }

    ghost predicate Valid(vec: seq<GKey>, seed: nat)
      reads this, sig
    {
      && 1 <= seed < |vec| && Covers(Key(), vec[seed], sig.Length)
      && SideOk(vec, offsets, Key(), sig.Length)
    }

    constructor (vec: seq<GKey>, seed: nat, siglen: nat)
      requires 1 <= seed < |vec| && KeyOk(vec[seed], siglen)
      ensures Valid(vec, seed) && offsets == [] && sig.Length == siglen && fresh(sig)
    {
      var e := vec[seed];
      var s := if e.AllTrue? then Ones(siglen) else e.sign;
      offsets, all := [], e.AllTrue?;
      sig := new bv8[siglen](i requires 0 <= i < siglen => s[i]);
      new;
      assert sig[..] == s;
    }

    method PlaceSeed(ghost vec: seq<GKey>, seed: nat)
      requires Valid(vec, seed)
      modifies this
      ensures Valid(vec, seed) && offsets == old(offsets) + [seed]
    {
      offsets := offsets + [seed];
    }

    method Place(vec: seq<GKey>, j: nat, ghost seed: nat)
      requires Valid(vec, seed) && 1 <= j < |vec| && KeyOk(vec[j], sig.Length)
      modifies this, sig
      ensures Valid(vec, seed) && offsets == old(offsets) + [j]
    {
      ghost var was := Key();
      Absorb(all, sig, vec[j]);
      KeyWithin(vec[j], sig.Length);
      SideGrows(vec, offsets, was, Key(), j, sig.Length);
      offsets := offsets + [j];
    }
  }

  lemma KeyWithin(k: GKey, siglen: nat)
    requires KeyOk(k, siglen)
    ensures KeyBits(k, siglen) <= AllBits(siglen)
  {
    if k.Signed? { OnesBits(k.sign); }
  }

  method PlaceOne(l: Side, r: Side, vec: seq<GKey>, siglen: nat, wish: real, seed1: nat, seed2: nat, j: nat)
    requires l.Valid(vec, seed1) && r.Valid(vec, seed2) && seed1 != seed2
    requires l != r && l.sig != r.sig && l.sig.Length == r.sig.Length == siglen
    requires 1 <= j < |vec| && KeyOk(vec[j], siglen)
    requires seed1 !in multiset(r.offsets) && seed2 !in multiset(l.offsets)
    modifies l, r, l.sig, r.sig
    ensures l.Valid(vec, seed1) && r.Valid(vec, seed2)
    ensures multiset(l.offsets) + multiset(r.offsets) ==
            old(multiset(l.offsets) + multiset(r.offsets)) + multiset{j}
    ensures seed1 !in multiset(r.offsets) && seed2 !in multiset(l.offsets)
  {
    if j == seed1 {
      l.PlaceSeed(vec, j);
    } else if j == seed2 {
      r.PlaceSeed(vec, j);
    } else {
      var alpha := HemDist(KeyFrom(l.all, l.sig[..]), vec[j], siglen);
      var beta := HemDist(KeyFrom(r.all, r.sig[..]), vec[j], siglen);
      if (alpha as real) < (beta as real) + Wish(|l.offsets|, |r.offsets|, wish) {
        l.Place(vec, j, seed1);
      } else {
        r.Place(vec, j, seed2);
      }
    }
  }

  /** The distribution loop: seeds to their own sides, others by distance and balance. */
  method Distribute(vec: seq<GKey>, siglen: nat, wish: real, seed1: nat, seed2: nat, order: seq<nat>)
    returns (left: seq<nat>, right: seq<nat>, lkey: GKey, rkey: GKey)
    requires forall i :: 1 <= i < |vec| ==> KeyOk(vec[i], siglen)
    requires 1 <= seed1 < |vec| && 1 <= seed2 < |vec| && seed1 != seed2
    requires forall i :: 0 <= i < |order| ==> 1 <= order[i] < |vec|
    ensures multiset(left) + multiset(right) == multiset(order)
    ensures seed1 !in multiset(right) && seed2 !in multiset(left)
    ensures KeyOk(lkey, siglen) && SideOk(vec, left, lkey, siglen)
    ensures KeyOk(rkey, siglen) && SideOk(vec, right, rkey, siglen)
  {
    var l := new Side(vec, seed1, siglen);
    var r := new Side(vec, seed2, siglen);
    for k := 0 to |order|
      invariant l.sig.Length == r.sig.Length == siglen && l.sig != r.sig && l != r
      invariant fresh(l) && fresh(r) && fresh(l.sig) && fresh(r.sig)
      invariant l.Valid(vec, seed1) && r.Valid(vec, seed2)
      invariant multiset(l.offsets) + multiset(r.offsets) == multiset(order[..k])
      invariant seed1 !in multiset(r.offsets) && seed2 !in multiset(l.offsets)
    {
      assert order[..k + 1] == order[..k] + [order[k]];
      PlaceOne(l, r, vec, siglen, wish, seed1, seed2, order[k]);
    }
    assert order[..|order|] == order;
    left, right := l.offsets, r.offsets;
    lkey, rkey := KeyFrom(l.all, l.sig[..]), KeyFrom(r.all, r.sig[..]);
  }

  // Index trees

  /** A tree of index entries; a leaf entry carries the compressed key of one stored value. */
  datatype Tree<V> = Leaf(value: V, leafKey: GKey) | Inner(innerKey: GKey, children: seq<Tree<V>>) {
    function Key(): GKey { if Leaf? then leafKey else innerKey }

    /** Every inner key covers the keys right below it, however it came about. */
    ghost predicate WellBuilt(siglen: nat) {
      && KeyOk(Key(), siglen)
      && (Inner? ==> forall i :: 0 <= i < |children| ==>
            Covers(innerKey, children[i].Key(), siglen) && children[i].WellBuilt(siglen))
    }

    /** The leaves below. */
    ghost predicate Holds(leaf: Tree<V>) {
      if Leaf? then leaf == this else exists i :: 0 <= i < |children| && children[i].Holds(leaf)
    }
  }

  /** Through any nesting, a key covers every leaf below it. */
  lemma {:induction false} CoversLeaves<V>(t: Tree<V>, leaf: Tree<V>, siglen: nat)
    requires t.WellBuilt(siglen) && t.Holds(leaf)
    ensures Covers(t.Key(), leaf.Key(), siglen)
  {
    if t.Inner? {
      var i :| 0 <= i < |t.children| && t.children[i].Holds(leaf);
      CoversLeaves(t.children[i], leaf, siglen);
    }
  }

  function Keys<V>(cs: seq<Tree<V>>): (ks: seq<GKey>)
    ensures |ks| == |cs| && forall i :: 0 <= i < |cs| ==> ks[i] == cs[i].Key()
  {
    seq(|cs|, i requires 0 <= i < |cs| => cs[i].Key())
  }

  /** A parent entry for a page: union, then compress. */
  method Parent<V>(children: seq<Tree<V>>, siglen: nat) returns (t: Tree<V>)
    requires forall i :: 0 <= i < |children| ==> children[i].WellBuilt(siglen)
    ensures t.Inner? && t.children == children && t.WellBuilt(siglen)
  {
    var ks := Keys(children);
    forall i | 0 <= i < |ks| ensures KeyOk(ks[i], siglen) {
      assert children[i].WellBuilt(siglen);
    }
    var k := Union(ks, siglen);
    var c := CompressInner(k, siglen);
    t := Inner(c, children);
    forall i | 0 <= i < |children| ensures Covers(c, children[i].Key(), siglen) {
      assert Covers(k, ks[i], siglen);
    }
  }

  function Chosen<V>(vec: seq<Tree<V>>, side: seq<nat>): (cs: seq<Tree<V>>)
    requires forall i :: 0 <= i < |side| ==> side[i] < |vec|
    ensures |cs| == |side| && forall i :: 0 <= i < |side| ==> cs[i] == vec[side[i]]
  {
    seq(|side|, i requires 0 <= i < |side| => vec[side[i]])
  }

  /** A page split into two well-built parents; vec[0] is not an entry. */
  method Split<V>(vec: seq<Tree<V>>, siglen: nat, wish: real)
    returns (l: Tree<V>, r: Tree<V>, ghost left: seq<nat>, ghost right: seq<nat>)
    requires |vec| >= 3 && forall i :: 1 <= i < |vec| ==> vec[i].WellBuilt(siglen)
    ensures l.WellBuilt(siglen) && r.WellBuilt(siglen)
    ensures multiset(left) + multiset(right) == multiset(Offsets(|vec|)) && left != [] && right != []
    ensures (forall i :: 0 <= i < |left| ==> left[i] < |vec|) && (forall i :: 0 <= i < |right| ==> right[i] < |vec|)
    ensures l == Inner(l.Key(), Chosen(vec, left)) && r == Inner(r.Key(), Chosen(vec, right))
  {
    var ks := Keys(vec);
    forall i | 1 <= i < |ks| ensures KeyOk(ks[i], siglen) {
      assert vec[i].WellBuilt(siglen);
    }
    var ls, rs, lk, rk := PickSplit(ks, siglen, wish);
    left, right := ls, rs;
    l, r := Inner(lk, Chosen(vec, ls)), Inner(rk, Chosen(vec, rs));
    SplitSide(vec, ks, ls, lk, siglen);
    SplitSide(vec, ks, rs, rk, siglen);
  }

  lemma {:induction false} SplitSide<V>(vec: seq<Tree<V>>, ks: seq<GKey>, side: seq<nat>, key: GKey, siglen: nat)
    requires forall i :: 1 <= i < |vec| ==> vec[i].WellBuilt(siglen)
    requires ks == Keys(vec) && KeyOk(key, siglen) && SideOk(ks, side, key, siglen)
    ensures forall i :: 0 <= i < |side| ==> side[i] < |vec|
    ensures Inner(key, Chosen(vec, side)).WellBuilt(siglen)
  {
    var cs := Chosen(vec, side);
    forall i | 0 <= i < |cs| ensures Covers(key, cs[i].Key(), siglen) && cs[i].WellBuilt(siglen) {
      assert Covers(key, ks[side[i]], siglen);
    }
  }
}
