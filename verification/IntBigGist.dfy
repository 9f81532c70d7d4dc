/** The GiST opclass that keys integer arrays by signatures of 2016 bits. */
module IntBigGist {
  import opened Sorting
  import opened Signature
  import opened IntBool
  import G = IntGist
  import IntArray

  /** The bits an array sets. */
  ghost function HashBits(s: seq<int>, i: nat): set<nat>
    requires i <= |s|
  {
    if i == 0 then {} else HashBits(s, i - 1) + {HashVal(s[i - 1])}
  }

  lemma {:induction false} HashBitsIn(s: seq<int>, i: nat, j: nat)
    requires j < i <= |s|
    ensures HashVal(s[j]) in HashBits(s, i)
  {
    if j < i - 1 { HashBitsIn(s, i - 1, j); }
  }

  lemma {:induction false} HashBitsFrom(s: seq<int>, i: nat, b: nat) returns (j: nat)
    requires i <= |s| && b in HashBits(s, i)
    ensures j < i && HashVal(s[j]) == b
  {
    if b == HashVal(s[i - 1]) { j := i - 1; } else { j := HashBitsFrom(s, i - 1, b); }
  }

  /** Larger arrays set more bits, whatever the order. */
  lemma {:induction false} HashBitsMonotone(s: seq<int>, t: seq<int>)
    requires Elems(s) <= Elems(t)
    ensures HashBits(s, |s|) <= HashBits(t, |t|)
  {
    forall b | b in HashBits(s, |s|) ensures b in HashBits(t, |t|) {
      var j := HashBitsFrom(s, |s|, b);
      assert s[j] in Elems(t);
      var k :| 0 <= k < |t| && t[k] == s[j];
      HashBitsIn(t, |t|, k);
    }
  }

  /** HASH over an array, into a zeroed signature. */
  method Hash(s: seq<int>) returns (sign: Sign)
    ensures |sign| == SIGLEN && Bits(sign) == HashBits(s, |s|)
  {
    sign := Zero(SIGLEN);
    for i := 0 to |s|
      invariant |sign| == SIGLEN && Bits(sign) == HashBits(s, i)
    {
      SetBitBits(sign, HashVal(s[i]));
      sign := SetBit(sign, HashVal(s[i]));
    }
  }

  /** g_intbig_compress of a leaf value. */
  method Compress(s: seq<int>) returns (k: GKey)
    ensures KeyOk(k, SIGLEN) && k.Signed? && KeyBits(k, SIGLEN) == HashBits(s, |s|)
  {
    var sign := Hash(s);
    k := Signed(sign);
  }

  ghost predicate Hit(k: set<nat>, v: int) { HashVal(v) in k }

  /** _intbig_overlap */
  method SignOverlap(sign: Sign, q: seq<int>) returns (r: bool)
    requires |sign| == SIGLEN
    ensures r <==> exists i :: 0 <= i < |q| && Hit(Bits(sign), q[i])
  {
    for i := 0 to |q|
      invariant forall j :: 0 <= j < i ==> !Hit(Bits(sign), q[j])
    {
      if GetBit(sign, HashVal(q[i])) {
        assert Hit(Bits(sign), q[i]);
        return true;
      }
    }
    return false;
  }

  /** _intbig_contains */
  method SignContains(sign: Sign, q: seq<int>) returns (r: bool)
    requires |sign| == SIGLEN
    ensures r <==> forall i :: 0 <= i < |q| ==> Hit(Bits(sign), q[i])
  {
    for i := 0 to |q|
      invariant forall j :: 0 <= j < i ==> Hit(Bits(sign), q[j])
    {
      if !GetBit(sign, HashVal(q[i])) {
        assert !Hit(Bits(sign), q[i]);
        return false;
      }
    }
    return true;
  }

  /** What g_intbig_consistent says of a key that is not all-true. */
  ghost predicate Answer(st: G.Strategy, leaf: bool, k: set<nat>, q: seq<int>) {
    q != [] &&
    match st
    case Overlap => exists i :: 0 <= i < |q| && Hit(k, q[i])
    case Same => if leaf then k == HashBits(q, |q|) else forall i :: 0 <= i < |q| ==> Hit(k, q[i])
    case Contain => forall i :: 0 <= i < |q| ==> Hit(k, q[i])
    case ContainedBy => if leaf then k <= HashBits(q, |q|) else exists i :: 0 <= i < |q| && Hit(k, q[i])
  }

  lemma SameBits(a: Sign, b: Sign)
    requires |a| == |b|
    ensures a == b <==> Bits(a) == Bits(b)
  {
    if Bits(a) == Bits(b) {
      forall i | 0 <= i < |a| ensures a[i] == b[i] {
        forall j | 0 <= j < 8 ensures Bit(a[i], j) <==> Bit(b[i], j) {
          BitPlace(a, i, j);
          BitPlace(b, i, j);
        }
        BitsEqual(a[i], b[i]);
      }
    }
  }

  lemma BitPlace(a: Sign, i: nat, j: nat)
    requires i < |a| && j < 8
    ensures 8 * i + j in Bits(a) <==> Bit(a[i], j)
  {
    assert (8 * i + j) / 8 == i && (8 * i + j) % 8 == j;
    assert GetBit(a, 8 * i + j) <==> Bit(a[i], j);
  }

  lemma BitsEqual(a: bv8, b: bv8)
    requires forall j :: 0 <= j < 8 ==> (Bit(a, j) <==> Bit(b, j))
    ensures a == b
  {
    assert (Bit(a, 0) <==> Bit(b, 0)) && (Bit(a, 1) <==> Bit(b, 1)) && (Bit(a, 2) <==>
      Bit(b, 2)) && (Bit(a, 3) <==> Bit(b, 3));
    assert (Bit(a, 4) <==> Bit(b, 4)) && (Bit(a, 5) <==> Bit(b, 5)) && (Bit(a, 6) <==>
      Bit(b, 6)) && (Bit(a, 7) <==> Bit(b, 7));
  }

  lemma BitOutside(a: bv8, b: bv8, j: nat)
    requires j < 8
    ensures Bit(a & !b, j) <==> Bit(a, j) && !Bit(b, j)
  {
  }

  lemma NoBits(x: bv8)
    ensures x == 0 <==> forall j :: 0 <= j < 8 ==> !Bit(x, j)
  {
    if forall j :: 0 <= j < 8 ==> !Bit(x, j) {
      assert !Bit(x, 0) && !Bit(x, 1) && !Bit(x, 2) && !Bit(x, 3) && !Bit(x, 4) && !Bit(x, 5) && !Bit(x, 6) &&
        !Bit(x, 7);
    }
  }

  lemma BitsWithin(a: bv8, b: bv8)
    ensures a & !b == 0 <==> forall j :: 0 <= j < 8 ==> Bit(a, j) ==> Bit(b, j)
  {
    var x := a & !b;
    NoBits(x);
    forall j | 0 <= j < 8 ensures !Bit(x, j) <==> (Bit(a, j) ==> Bit(b, j)) { BitOutside(a, b, j); }
  }

  lemma BytesWithin(a: Sign, b: Sign, i: nat)
    requires |a| == |b| && i < |a| && Bits(a) <= Bits(b)
    ensures a[i] & !b[i] == 0
  {
    forall j | 0 <= j < 8 ensures Bit(a[i], j) ==> Bit(b[i], j) {
      BitPlace(a, i, j);
      BitPlace(b, i, j);
    }
    BitsWithin(a[i], b[i]);
  }

  /** The leaf test of equality, byte by byte. */
  method SignSame(de: Sign, dq: Sign) returns (r: bool)
    requires |de| == |dq|
    ensures r <==> Bits(de) == Bits(dq)
  {
    SameBits(de, dq);
    for i := 0 to |de|
      invariant de[..i] == dq[..i]
    {
      if de[i] != dq[i] {
        return false;
      }
    }
    return true;
  }

  /** The leaf test of containment, byte by byte. */
  method SignWithin(de: Sign, dq: Sign) returns (r: bool)
    requires |de| == |dq|
    ensures r <==> Bits(de) <= Bits(dq)
  {
    for i := 0 to |de|
      invariant forall j :: 0 <= j < i ==> de[j] & !dq[j] == 0
    {
      if de[i] & !dq[i] != 0 {
        if Bits(de) <= Bits(dq) { BytesWithin(de, dq, i); }
        return false;
      }
    }
    forall b | b in Bits(de) ensures b in Bits(dq) {
      assert GetBit(de, b);
      BitsWithin(de[b / 8], dq[b / 8]);
      assert GetBit(dq, b);
    }
    return true;
  }

  /** g_intbig_consistent for the set operators. */
  method Consistent(k: GKey, leaf: bool, st: G.Strategy, q: seq<int>) returns (r: bool)
    requires KeyOk(k, SIGLEN)
    ensures r <==> k.AllTrue? || Answer(st, leaf, Bits(k.sign), q)
  {
    if k.AllTrue? {
      return true;
    }
    if q == [] {
      return false;
    }
    match st {
      case Overlap =>
        r := SignOverlap(k.sign, q);
      case Same =>
        if leaf {
          var qp := Hash(q);
          r := SignSame(k.sign, qp);
        } else {
          r := SignContains(k.sign, q);
        }
      case Contain =>
        r := SignContains(k.sign, q);
      case ContainedBy =>
        if leaf {
          var qp := Hash(q);
          r := SignWithin(k.sign, qp);
        } else {
          r := SignOverlap(k.sign, q);
        }
    }
  }

  ghost predicate LeafOk(leaf: Tree<seq<int>>) {
    leaf.Leaf? && KeyOk(leaf.leafKey, SIGLEN) && KeyBits(leaf.leafKey, SIGLEN) == HashBits(leaf.value, |leaf.value|)
  }

  lemma {:induction false} AllHit(x: seq<int>, q: seq<int>, k: set<nat>, i: nat)
    requires Elems(q) <= Elems(x) && HashBits(x, |x|) <= k && i < |q|
    ensures Hit(k, q[i])
  {
    HashBitsMonotone(q, x);
    HashBitsIn(q, |q|, i);
  }

  lemma Shared(x: seq<int>, q: seq<int>) returns (i: nat, j: nat)
    requires !(Elems(x) !! Elems(q))
    ensures i < |q| && j < |x| && x[j] == q[i]
  {
    if forall v :: v in x ==> v !in q {
      assert false;
    }
    var v :| v in x && v in q;
    i :| 0 <= i < |q| && q[i] == v;
    j :| 0 <= j < |x| && x[j] == v;
  }

  lemma {:induction false} SomeHit(x: seq<int>, q: seq<int>, k: set<nat>)
    requires !(Elems(x) !! Elems(q)) && HashBits(x, |x|) <= k
    ensures exists i :: 0 <= i < |q| && Hit(k, q[i])
  {
    var i, j := Shared(x, q);
    HashBitsIn(x, |x|, j);
    assert Hit(k, q[i]);
  }

  lemma OneHashed(v: int)
    ensures HashBits([v], 1) == {HashVal(v)}
  {
    assert HashBits([v], 0) == {};
  }

  lemma {:induction false} HashedWithin(q: seq<int>, i: nat, k: set<nat>)
    requires i <= |q|
    ensures HashBits(q, i) <= k <==> forall j :: 0 <= j < i ==> Hit(k, q[j])
  {
    if i > 0 { HashedWithin(q, i - 1, k); }
  }

  /** An inner key accepts a query exactly if it could stand above an array that satisfies the operator. */
  lemma {:induction false} InnerIsTight(st: G.Strategy, k: set<nat>, q: seq<int>)
    ensures Answer(st, false, k, q) <==> (
      && !(st == G.Same && q == [])
      && exists x: seq<int> {:trigger G.Op(st, x, q)} :: HashBits(x, |x|) <= k && G.Op(st, x, q))
  {
    HashedWithin(q, |q|, k);
    if Answer(st, false, k, q) {
      if st == G.Same || st == G.Contain {
        assert G.Op(st, q, q);
      } else {
        var i :| 0 <= i < |q| && Hit(k, q[i]);
        OneHashed(q[i]);
        assert Elems([q[i]]) == {q[i]} && q[i] in Elems(q);
        assert G.Op(st, [q[i]], q);
      }
    }
    if x: seq<int> :| HashBits(x, |x|) <= k && G.Op(st, x, q) {
      if x == [] { assert st == G.Same ==> q == []; assert Elems(x) == {}; }
      if q == [] { assert Elems(q) == {}; } else { NeverMisses(x, st, false, k, q); }
    }
  }

  /** If an array satisfies the operator, a key covering its bits is consistent. */
  lemma {:induction false} NeverMisses(x: seq<int>, st: G.Strategy, leaf: bool, k: set<nat>, q: seq<int>)
    requires G.Op(st, x, q) && HashBits(x, |x|) <= k && (leaf ==> HashBits(x, |x|) == k)
    ensures Answer(st, leaf, k, q) <==> !(st == G.Same && q == [])
  {
    if q != [] {
      assert q[0] in Elems(q);
      match st
      case Overlap => SomeHit(x, q, k);
      case Same =>
        IntArray.SameElems(x, q);
        if leaf {
          HashBitsMonotone(x, q);
          HashBitsMonotone(q, x);
        } else {
          forall i | 0 <= i < |q| ensures Hit(k, q[i]) { AllHit(x, q, k, i); }
        }
      case Contain =>
        forall i | 0 <= i < |q| ensures Hit(k, q[i]) { AllHit(x, q, k, i); }
      case ContainedBy =>
        assert x[0] in Elems(x);
        HashBitsMonotone(x, q);
        if !leaf { SomeHit(x, q, k); }
    }
  }

  /** Descending any well-built tree of signatures, no key above a matching array rejects the query. */
  lemma {:induction false} SearchIsComplete(t: Tree<seq<int>>, leaf: Tree<seq<int>>, st: G.Strategy, q: seq<int>)
    requires t.WellBuilt(SIGLEN) && t.Holds(leaf) && LeafOk(leaf)
    requires G.Op(st, leaf.value, q) && !(st == G.Same && q == [])
    ensures t.Key().AllTrue? || Answer(st, t.Leaf?, Bits(t.Key().sign), q)
  {
    CoversLeaves(t, leaf, SIGLEN);
    if t.Key().Signed? {
      NeverMisses(leaf.value, st, t.Leaf?, Bits(t.Key().sign), q);
    }
  }

  ghost function InBits(sign: Sign): Member
    requires |sign| == SIGLEN
  {
    v => GetBit(sign, HashVal(v))
  }

  /** The same for boolean queries, whose negations no signature can refute. */
  lemma {:induction false} BooleanIsComplete(t: Tree<seq<int>>, leaf: Tree<seq<int>>, q: Query)
    requires t.WellBuilt(SIGLEN) && t.Holds(leaf) && LeafOk(leaf) && Value(q, In(leaf.value), true)
    ensures t.Key().AllTrue? || Value(q, InBits(t.Key().sign), false)
  {
    CoversLeaves(t, leaf, SIGLEN);
    if t.Key().Signed? {
      var x, sign := leaf.value, t.Key().sign;
      forall v ensures In(x)(v) ==> InBits(sign)(v) {
        if v in x {
          var j :| 0 <= j < |x| && x[j] == v;
          HashBitsIn(x, |x|, j);
          assert HashVal(v) in Bits(sign);
        }
      }
      Monotone(q, In(x), InBits(sign), true);
    }
  }
}
