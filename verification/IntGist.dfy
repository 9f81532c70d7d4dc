/** The GiST opclass that keys integer arrays by sorted sets of integers. */
module IntGist {
  import opened Wrappers
  import opened Machine
  import opened Sorting
  import opened IntArray
  import opened IntCompress
  import B = IntBool

  datatype Strategy = Overlap | Same | Contain | ContainedBy

  /** What the operator of a strategy says of a stored array and a query array. */
  ghost predicate Op(st: Strategy, x: seq<int>, q: seq<int>) {
    match st
    case Overlap => !(Elems(x) !! Elems(q))
    case Same => multiset(x) == multiset(q)
    case Contain => x != [] && q != [] && Elems(q) <= Elems(x)
    case ContainedBy => x != [] && q != [] && Elems(x) <= Elems(q)
  }

  /** What g_int_consistent says of a key, as a set, and a query. */
  ghost predicate Answer(st: Strategy, leaf: bool, k: set<int>, q: set<int>) {
    q != {} &&
    match st
    case Overlap => !(k !! q)
    case Same => if leaf then k == q else q <= k
    case Contain => q <= k
    case ContainedBy => if leaf then k != {} && k <= q else !(k !! q)
  }

  lemma LastIsGreatest(a: seq<int>, v: int)
    requires Strict(a) && v in Elems(a)
    ensures a != [] && v <= a[|a| - 1]
  {
    var i :| 0 <= i < |a| && a[i] == v;
  }

  lemma FrontElems(a: seq<int>)
    requires Strict(a) && a != []
    ensures Elems(a[..|a| - 1]) == Elems(a) - {a[|a| - 1]}
  {
    var n := |a| - 1;
    assert a == a[..n] + [a[n]];
  }

  lemma {:induction false} StrictUnique(a: seq<int>, b: seq<int>)
    requires Strict(a) && Strict(b) && Elems(a) == Elems(b)
    ensures a == b
  {
    ElemsEmpty(a);
    ElemsEmpty(b);
    if a != [] {
      var m, n := |a| - 1, |b| - 1;
      assert a[m] in Elems(b) && b[n] in Elems(a);
      LastIsGreatest(a, b[n]);
      LastIsGreatest(b, a[m]);
      FrontElems(a);
      FrontElems(b);
      StrictUnique(a[..m], b[..n]);
      assert a == a[..m] + [a[m]] && b == b[..n] + [b[n]];
    }
  }

  /** g_int_same */
  method GSame(a: seq<int>, b: seq<int>) returns (r: bool)
    ensures r <==> a == b
  {
    if |a| != |b| {
      return false;
    }
    var i := 0;
    while i < |a|
      invariant 0 <= i <= |a| && a[..i] == b[..i]
    {
      if a[i] != b[i] {
        return false;
      }
      i := i + 1;
    }
    return true;
  }

  lemma ElemsEmpty(s: seq<int>)
    ensures s == [] <==> Elems(s) == {}
  {
    if s != [] { assert s[0] in Elems(s); }
  }

  /** g_int_consistent for the set operators. */
  method Consistent(key: seq<int>, leaf: bool, st: Strategy, query: seq<int>) returns (r: bool)
    requires Strict(key)
    ensures r <==> Answer(st, leaf, Elems(key), Elems(query))
  {
    ElemsEmpty(query);
    ElemsEmpty(key);
    if query == [] {
      return false;
    }
    var a := Copy(query);
    var n := Prepare(a);
    var q := a[..n];
    assert Elems(q) == Elems(query);
    ElemsEmpty(q);
    match st {
      case Overlap =>
        r := InnerOverlap(key, q);
      case Same =>
        if leaf {
          r := GSame(key, q);
          if Elems(key) == Elems(q) { StrictUnique(key, q); }
        } else {
          r := InnerContains(key, q);
        }
      case Contain =>
        r := InnerContains(key, q);
      case ContainedBy =>
        if leaf {
          r := InnerContains(q, key);
        } else {
          r := InnerOverlap(key, q);
        }
    }
  }

  /** Index entries: a leaf stores the prepared array; every key is what decompress reads back. */
  datatype Tree =
    | Leaf(value: seq<int>, stored: seq<int>, leafKey: seq<int>)
    | Inner(innerKey: seq<int>, children: seq<Tree>)
  {
    function Key(): seq<int> { if Leaf? then leafKey else innerKey }

    ghost predicate WellBuilt() {
      && Strict(Key()) && Int32s(Key())
      && (Leaf? ==> LeafOk(value, stored, leafKey))
      && (Inner? ==> forall i :: 0 <= i < |children| ==>
            Elems(children[i].Key()) <= Elems(innerKey) && children[i].WellBuilt())
    }

    ghost predicate Holds(leaf: Tree) {
      if Leaf? then leaf == this else exists i :: 0 <= i < |children| && children[i].Holds(leaf)
    }
  }

  ghost predicate LeafOk(value: seq<int>, stored: seq<int>, key: seq<int>) {
    && Strict(stored) && Int32s(stored) && Elems(stored) == Elems(value)
    && RangeList(stored) && ReadBack(stored) == Outcome.Key(key)
  }

  /** What a leaf key holds: its elements, and no others exactly if it comes back as stored. */
  lemma LeafKeyIs(value: seq<int>, stored: seq<int>, key: seq<int>)
    requires LeafOk(value, stored, key)
    ensures Strict(key) && Int32s(key) && Elems(value) <= Elems(key)
    ensures Elems(key) == Elems(value) <==> Stable(stored)
    ensures !Stable(stored) ==> value != []
  {
    LeafReadBack(stored);
    LeafCovers(stored);
    if Elems(key) == Elems(stored) { StrictUnique(key, stored); }
    ElemsEmpty(value);
    ElemsEmpty(stored);
  }

  /** A leaf entry: g_int_compress of an array, read back; none exactly if its sorted elements cannot be read back. */
  method LeafEntry(value: seq<int>) returns (t: Option<Tree>, ghost sorted: seq<int>)
    requires Int32s(value)
    ensures Strict(sorted) && Elems(sorted) == Elems(value) && RangeList(sorted)
    ensures t.Some? <==> ReadBack(sorted).Key?
    ensures t.Some? <==> (
      || |Elems(value)| < 2 * MAXNUMRANGE
      || (|sorted| % 2 == 0 && sorted[|sorted| - 1] < INT_MAX && Extent(sorted) <= MAX_INTS))
    ensures t.Some? ==> t.value.Leaf? && t.value.value == value && t.value.stored == sorted && t.value.WellBuilt()
  {
    var a := Copy(value);
    var n := Prepare(a);
    var stored := a[..n];
    forall i | 0 <= i < |stored| ensures IsInt32(stored[i]) {
      assert stored[i] in Elems(value);
      var j :| 0 <= j < |value| && value[j] == stored[i];
    }
    sorted := stored;
    LeafReadable(stored);
    CountElems(stored);
    var r := Decompress(stored);
    if r.Key? {
      LeafKeyIs(value, stored, r.key);
      t := Some(Tree.Leaf(value, stored, r.key));
    } else {
      t := None;
    }
  }

  lemma {:induction false} KeyCoversLeaf(t: Tree, leaf: Tree)
    requires t.WellBuilt() && t.Holds(leaf)
    ensures leaf.Leaf? && leaf.WellBuilt() && Elems(leaf.value) <= Elems(t.Key())
  {
    if t.Inner? {
      var i :| 0 <= i < |t.children| && t.children[i].Holds(leaf);
      KeyCoversLeaf(t.children[i], leaf);
    } else {
      LeafKeyIs(t.value, t.stored, t.leafKey);
    }
  }

  /** The condition under which a key above or at a matching leaf accepts the query. */
  ghost predicate Accepts(t: Tree, st: Strategy, q: seq<int>) {
    && !(st == Same && q == [])
    && (t.Leaf? && (st == Same || st == ContainedBy) ==>
          Stable(t.stored) || (st == ContainedBy && Elems(t.leafKey) <= Elems(q)))
  }

  /**
    No key above a matching array rejects the query, except when an empty array is sought by
    equality; a leaf of the array rejects it exactly when its key has grown in reading back and
    the strategy needs it not to.
   */
  lemma {:induction false} SearchIsComplete(t: Tree, leaf: Tree, st: Strategy, q: seq<int>)
    requires t.WellBuilt() && t.Holds(leaf) && leaf.Leaf? && Op(st, leaf.value, q)
    ensures Answer(st, t.Leaf?, Elems(t.Key()), Elems(q)) <==> Accepts(t, st, q)
  {
    KeyCoversLeaf(t, leaf);
    ElemsEmpty(q);
    ElemsEmpty(leaf.value);
    if st == Same { SameElems(leaf.value, q); }
    if t.Leaf? { LeafKeyIs(t.value, t.stored, t.leafKey); }
  }

  /** For all but equality, a leaf answers every query as the operator does exactly if its key comes back as stored. */
  lemma {:induction false} LeafIsExact(leaf: Tree, st: Strategy)
    requires leaf.Leaf? && leaf.WellBuilt() && st != Same
    ensures (forall q: seq<int> {:trigger Op(st, leaf.value, q)} ::
               Answer(st, true, Elems(leaf.leafKey), Elems(q)) <==> Op(st, leaf.value, q)) <==> Stable(leaf.stored)
  {
    LeafKeyIs(leaf.value, leaf.stored, leaf.leafKey);
    ElemsEmpty(leaf.value);
    forall q: seq<int> {:trigger Op(st, leaf.value, q)}
      ensures Stable(leaf.stored) ==> (Answer(st, true, Elems(leaf.leafKey), Elems(q)) <==> Op(st, leaf.value, q))
    {
      ElemsEmpty(q);
    }
    if !Stable(leaf.stored) {
      var x :| x in Elems(leaf.leafKey) && x !in Elems(leaf.value);
      var q := if st == ContainedBy then leaf.value else [x];
      assert Elems([x]) == {x};
      assert !(Answer(st, true, Elems(leaf.leafKey), Elems(q)) <==> Op(st, leaf.value, q));
    }
  }

  lemma SharedElem(x: seq<int>, k: set<int>)
    requires !(Elems(x) !! k)
    ensures exists v :: v in x && v in k
  {
    if forall v :: v in x ==> v !in k {
      assert false;
    }
  }

  /** An inner key accepts a query exactly if it could stand above an array that satisfies the operator. */
  lemma {:induction false} InnerIsTight(st: Strategy, k: set<int>, q: seq<int>)
    ensures Answer(st, false, k, Elems(q)) <==>
      !(st == Same && q == []) && exists x: seq<int> {:trigger Op(st, x, q)} :: Elems(x) <= k && Op(st, x, q)
  {
    ElemsEmpty(q);
    if Answer(st, false, k, Elems(q)) {
      if st == Same || st == Contain {
        assert Op(st, q, q);
      } else {
        SharedElem(q, k);
        var v :| v in q && v in k;
        assert Elems([v]) == {v} && v in Elems(q);
        assert Op(st, [v], q);
      }
    }
    if x: seq<int> :| Elems(x) <= k && Op(st, x, q) {
      ElemsEmpty(x);
      if st == Same { SameElems(x, q); }
      if st == ContainedBy { assert x[0] in Elems(x) && x[0] in Elems(q) && x[0] in k; }
    }
  }

  /** The containment strategies are those of the operators @> and <@. */
  method Containment(x: seq<int>, q: seq<int>) returns (contains: bool, contained: bool)
    ensures (contains <==> Op(Contain, x, q)) && (contained <==> Op(ContainedBy, x, q))
  {
    contains := IntArray.Contains(x, q);
    contained := IntArray.Contains(q, x);
  }

  // Boolean search

  lemma {:induction false} SameMembers(x: seq<int>, y: seq<int>, q: B.Query)
    requires Elems(x) == Elems(y)
    ensures B.Value(q, B.In(x), true) <==> B.Value(q, B.In(y), true)
  {
    forall v ensures B.In(x)(v) <==> B.In(y)(v) {
      assert v in Elems(x) <==> v in Elems(y);
    }
    ValueSame(q, B.In(x), B.In(y), true);
  }

  /** Boolean search descends to every array that satisfies the query, and finds it if its key comes back as stored. */
  lemma {:induction false} BooleanIsComplete(t: Tree, leaf: Tree, q: B.Query)
    requires t.WellBuilt() && t.Holds(leaf) && leaf.Leaf? && B.Value(q, B.In(leaf.value), true)
    ensures t.Inner? || Stable(t.stored) ==> B.Value(q, B.In(t.Key()), t.Leaf?)
  {
    KeyCoversLeaf(t, leaf);
    if t.Leaf? {
      LeafKeyIs(t.value, t.stored, t.leafKey);
      if Stable(t.stored) { SameMembers(leaf.value, t.leafKey, q); }
    } else {
      forall v ensures B.In(leaf.value)(v) ==> B.In(t.Key())(v) {
        assert v in Elems(leaf.value) ==> v in Elems(t.Key());
      }
      B.Monotone(q, B.In(leaf.value), B.In(t.Key()), true);
    }
  }

  ghost predicate Satisfies(x: seq<int>, q: B.Query) { B.Value(q, B.In(x), true) }

  /** A leaf's key satisfies every query its array does exactly if it comes back as stored. */
  lemma {:induction false} BooleanLeafComplete(leaf: Tree)
    requires leaf.Leaf? && leaf.WellBuilt()
    ensures (forall q :: Satisfies(leaf.value, q) ==> Satisfies(leaf.leafKey, q)) <==> Stable(leaf.stored)
  {
    LeafKeyIs(leaf.value, leaf.stored, leaf.leafKey);
    if Stable(leaf.stored) {
      forall q ensures Satisfies(leaf.value, q) <==> Satisfies(leaf.leafKey, q) {
        SameMembers(leaf.value, leaf.leafKey, q);
      }
    } else {
      var x :| x in Elems(leaf.leafKey) && x !in Elems(leaf.value);
      var v, q := B.Val(x), B.Not(B.Val(x));
      assert B.Value(v, B.In(leaf.leafKey), true) && !B.Value(v, B.In(leaf.value), true);
      assert Satisfies(leaf.value, q) && !Satisfies(leaf.leafKey, q);
    }
  }

  /** At a stable leaf boolean search and the operator differ only on an empty array that satisfies the query. */
  lemma {:induction false} BooleanLeaf(leaf: Tree, q: B.Query)
    requires leaf.Leaf? && leaf.WellBuilt()
    ensures Stable(leaf.stored) ==>
      ((B.Value(q, B.In(leaf.leafKey), true) <==> leaf.value != [] && B.Value(q, B.In(leaf.value), true))
        <==> leaf.value != [] || !B.Value(q, B.In([]), true))
  {
    LeafKeyIs(leaf.value, leaf.stored, leaf.leafKey);
    if Stable(leaf.stored) { SameMembers(leaf.value, leaf.leafKey, q); }
  }

  lemma {:induction false} ValueSame(q: B.Query, m: B.Member, n: B.Member, calcnot: bool)
    requires forall v :: m(v) <==> n(v)
    ensures B.Value(q, m, calcnot) <==> B.Value(q, n, calcnot)
  {
    match q
    case Val(_) =>
    case Not(p) => ValueSame(p, m, n, calcnot);
    case Bin(_, l, r) => ValueSame(l, m, n, calcnot); ValueSame(r, m, n, calcnot);
  }

  /** g_int_union */
  method Union(keys: seq<seq<int>>) returns (r: seq<int>)
    ensures Strict(r) && forall x :: x in r <==> exists i :: 0 <= i < |keys| && x in keys[i]
  {
    var all: seq<int> := [];
    for i := 0 to |keys|
      invariant forall x :: x in all <==> exists j :: 0 <= j < i && x in keys[j]
    {
      all := all + keys[i];
    }
    var a := Copy(all);
    var n := SortUnique(a);
    r := a[..n];
    forall x ensures x in r <==> x in all {
      assert x in Elems(r) <==> x in Elems(all);
    }
  }

  /** The key of a page, before compression. */
  ghost predicate PageKey(u: seq<int>, children: seq<Tree>) {
    Strict(u) && forall x :: x in u <==> exists i :: 0 <= i < |children| && x in children[i].Key()
  }

  /**
    A parent entry: the union of the keys of its page, through compress and decompress. Its
    key is again one of 32-bit integers, so that pages of parents get parents in turn; there
    is none exactly if the compressed union cannot be read back.
   */
  method Parent(children: seq<Tree>) returns (t: Option<Tree>, ghost u: seq<int>)
    requires forall i :: 0 <= i < |children| ==> children[i].WellBuilt()
    ensures PageKey(u, children)
    ensures t.Some? <==> |u| < 2 * MAXNUMRANGE || Readable(u)
    ensures t.Some? ==> t.value.Inner? && t.value.children == children && t.value.WellBuilt()
  {
    var keys := seq(|children|, i requires 0 <= i < |children| => children[i].Key());
    var all := Union(keys);
    u := all;
    forall x ensures x in u <==> exists i :: 0 <= i < |children| && x in children[i].Key() {
      if i :| 0 <= i < |children| && x in children[i].Key() { assert x in keys[i]; }
    }
    forall k | 0 <= k < |all| ensures IsInt32(all[k]) {
      assert all[k] in all;
      var i :| 0 <= i < |keys| && all[k] in keys[i];
      assert children[i].WellBuilt();
      var j :| 0 <= j < |keys[i]| && keys[i][j] == all[k];
    }
    var r := RoundTrip(all);
    if r.Key? {
      t := Some(Tree.Inner(r.key, children));
      ParentOk(all, r.key, children);
    } else {
      t := None;
    }
  }

  lemma ParentOk(u: seq<int>, key: seq<int>, children: seq<Tree>)
    requires PageKey(u, children) && Int32s(u) && Restored(u, Outcome.Key(key))
    requires forall i :: 0 <= i < |children| ==> children[i].WellBuilt()
    ensures Tree.Inner(key, children).WellBuilt()
  {
    assert Strict(key) && Elems(u) <= Elems(key);
    forall k | 0 <= k < |key| ensures IsInt32(key[k]) {
      assert key[k] in key;
    }
    forall i | 0 <= i < |children| ensures Elems(children[i].Key()) <= Elems(key) {
      forall x | x in children[i].Key() ensures x in key {
        assert x in u;
        assert x in Elems(u);
      }
    }
  }
}
