/** The GiST opclass of label paths: a key spans the least to the greatest path below it. */
module LTreeGist {
  import opened Bytes
  import opened LTree
  import opened Signature
  import opened Sorting

  const SIGLEN := 8 // sizeof(int4) * SIGLENINT
  const SIGLENBIT := 64

  /** ltree_crc32_sz, seen as any function from labels to unsigned values. */
  type Crc = Label -> nat

  ghost predicate Leq(a: Path, b: Path) { PathCmp(a, b) <= 0 }

  lemma LeqTransitive(a: Path, b: Path, c: Path)
    requires Leq(a, b) && Leq(b, c)
    ensures Leq(a, c)
  {
    PathTransitive(a, b, c);
  }

  lemma LeqReflexive(a: Path)
    ensures Leq(a, a)
  {
    PathOpposite(a, a);
  }

  // What the tests of ltree_compare(a, b) against zero mean

  ghost predicate Above0(a: Path, b: Path) { PathCmp(a, b) > 0 && !Deep(a, b) }

  ghost predicate Below0(a: Path, b: Path) { PathCmp(a, b) < 0 || Deep(a, b) }

  ghost predicate NotBelow0(a: Path, b: Path) { PathCmp(a, b) >= 0 && !Deep(a, b) }

  ghost predicate NotAbove0(a: Path, b: Path) { PathCmp(a, b) <= 0 || Deep(a, b) }

  lemma Tests(a: Path, b: Path)
    requires IsPath(a) && IsPath(b)
    ensures Compare(a, b) > 0 <==> Above0(a, b)
    ensures Compare(a, b) < 0 <==> Below0(a, b)
    ensures Compare(a, b) >= 0 <==> NotBelow0(a, b)
    ensures Compare(a, b) <= 0 <==> NotAbove0(a, b)
    ensures Compare(a, b) == 0 <==> a == b
  {
    CompareSigns(a, b);
    if Deep(a, b) { DescendantAfter(b, a); }
  }

  // Keys

  /** ltree_gist: one path at a leaf; above, the ends and a signature, the right end left out when equal. */
  datatype LKey = OneNode(node: Path) | Range(sign: GKey, lnode: Path, noRight: bool, rnode: Path) {
    /** LTG_GETLNODE */
    function Left(): Path { if OneNode? then node else lnode }

    /** LTG_GETRNODE */
    function Right(): Path { if OneNode? then node else if noRight then lnode else rnode }
  }

  function HashVal(crc: Crc, t: Label): nat { HashIndex(crc(t), SIGLENBIT) }

  ghost function PathBits(crc: Crc, p: Path, n: nat): set<nat>
    requires n <= |p|
  {
    if n == 0 then {} else PathBits(crc, p, n - 1) + {HashVal(crc, p[n - 1])}
  }

  ghost function LKeyBits(crc: Crc, k: LKey): set<nat> {
    if k.OneNode? then PathBits(crc, k.node, |k.node|) else KeyBits(k.sign, SIGLEN)
  }

  ghost predicate LKeyOk(k: LKey) {
    IsPath(k.Left()) && IsPath(k.Right()) && (k.Range? ==> KeyOk(k.sign, SIGLEN))
  }

  /** k spans l: ends and labels. */
  ghost predicate Spans(crc: Crc, k: LKey, l: LKey) {
    Leq(k.Left(), l.Left()) && Leq(l.Right(), k.Right()) && LKeyBits(crc, l) <= LKeyBits(crc, k)
  }

  /** hashing */
  method Hashing(sign: array<bv8>, crc: Crc, p: Path)
    requires sign.Length == SIGLEN
    modifies sign
    ensures Bits(sign[..]) == old(Bits(sign[..])) + PathBits(crc, p, |p|)
  {
    ghost var was := Bits(sign[..]);
    for i := 0 to |p|
      invariant Bits(sign[..]) == was + PathBits(crc, p, i)
    {
      SetBitIn(sign, HashVal(crc, p[i]));
    }
  }

  // Consistency

  datatype Strategy = Less | LessEqual | Equal | GreaterEqual | Greater | Ancestor | Descendant

  /** The operator of a strategy on a stored path and a query: ltree_lt and its kin, and the ancestry tests. */
  ghost predicate Op(st: Strategy, x: Path, q: Path) {
    match st
    case Less => Compare(x, q) < 0
    case LessEqual => Compare(x, q) <= 0
    case Equal => Compare(x, q) == 0
    case GreaterEqual => Compare(x, q) >= 0
    case Greater => Compare(x, q) > 0
    case Ancestor => x <= q
    case Descendant => q <= x
  }

  predicate ByOrder(st: Strategy) { st == Less || st == LessEqual || st == GreaterEqual || st == Greater }

  /** What it stands for: the same by the order of paths. */
  ghost predicate Meant(st: Strategy, x: Path, q: Path) {
    match st
    case Less => PathCmp(x, q) < 0
    case LessEqual => PathCmp(x, q) <= 0
    case Equal => x == q
    case GreaterEqual => PathCmp(x, q) >= 0
    case Greater => PathCmp(x, q) > 0
    case Ancestor => x <= q
    case Descendant => q <= x
  }

  function Trunc(p: Path, n: nat): Path { if |p| > n then p[..n] else p }

  /** gist_isparent: the query is cut shorter and shorter until it falls between the ends. */
  method GistIsParent(key: LKey, query: Path) returns (r: bool)
    requires LKeyOk(key) && IsPath(query)
    ensures r <==> exists i :: 0 <= i <= |query| && Between(key.Left(), query[..i], key.Right())
  {
    var i: int := |query|;
    while i >= 0
      invariant -1 <= i <= |query|
      invariant forall j :: i < j <= |query| ==> !Between(key.Left(), query[..j], key.Right())
    {
      Tests(query[..i], key.Left());
      Tests(query[..i], key.Right());
      if Compare(query[..i], key.Left()) >= 0 && Compare(query[..i], key.Right()) <= 0 {
        return true;
      }
      i := i - 1;
    }
    return false;
  }

  /** The two comparisons that place p between l and r. */
  ghost predicate Between(l: Path, p: Path, r: Path) { NotBelow0(p, l) && NotAbove0(p, r) }

  /** gist_ischild: the ends are cut to the length of the query. */
  method GistIsChild(key: LKey, query: Path) returns (r: bool)
    requires LKeyOk(key) && IsPath(query)
    ensures r <==> Between(Trunc(key.Left(), |query|), query, Trunc(key.Right(), |query|))
  {
    r := true;
    var left, right := key.Left(), key.Right();
    if |left| > |query| {
      left := left[..|query|];
    }
    Tests(query, left);
    if Compare(query, left) < 0 {
      r := false;
    }
    if |right| > |query| {
      right := right[..|query|];
    }
    Tests(query, right);
    if r && Compare(query, right) > 0 {
      r := false;
    }
  }

  /** What ltree_consistent answers, at a leaf and above. */
  ghost predicate Answer(st: Strategy, leaf: bool, l: Path, r: Path, q: Path) {
    match st
    case Less => if leaf then Above0(q, l) else NotBelow0(q, l)
    case LessEqual => NotBelow0(q, l)
    case Equal => if leaf then l == q else Between(l, q, r)
    case GreaterEqual => NotAbove0(q, r)
    case Greater => if leaf then Below0(q, r) else NotAbove0(q, r)
    case Ancestor => if leaf then l <= q else exists i :: 0 <= i <= |q| && Between(l, q[..i], r)
    case Descendant => if leaf then q <= l else Between(Trunc(l, |q|), q, Trunc(r, |q|))
  }

  /** ltree_consistent for the order and ancestry strategies. */
  method Consistent(key: LKey, leaf: bool, st: Strategy, q: Path) returns (res: bool)
    requires LKeyOk(key) && IsPath(q) && (leaf ==> key.OneNode?)
    ensures res <==> Answer(st, leaf, key.Left(), key.Right(), q)
  {
    Tests(q, key.Left());
    Tests(q, key.Right());
    match st {
      case Less =>
        res := if leaf then Compare(q, key.node) > 0 else Compare(q, key.Left()) >= 0;
      case LessEqual =>
        res := Compare(q, key.Left()) >= 0;
      case Equal =>
        if leaf {
          res := Compare(q, key.node) == 0;
        } else {
          res := Compare(q, key.Left()) >= 0 && Compare(q, key.Right()) <= 0;
        }
      case GreaterEqual =>
        res := Compare(q, key.Right()) <= 0;
      case Greater =>
        res := if leaf then Compare(q, key.Right()) < 0 else Compare(q, key.Right()) <= 0;
      case Ancestor =>
        if leaf {
          res := IsParent(q, key.node);
        } else {
          res := GistIsParent(key, q);
        }
      case Descendant =>
        if leaf {
          res := IsParent(key.node, q);
        } else {
          res := GistIsChild(key, q);
        }
    }
  }

  /** Cutting paths to one length keeps their order. */
  lemma {:induction false} TruncMonotone(a: Path, b: Path, n: nat)
    requires Leq(a, b)
    ensures Leq(Trunc(a, n), Trunc(b, n))
  {
    if a != [] && b != [] && n > 0 {
      LexOpposite(a[0], b[0]);
      if a[0] == b[0] {
        TruncMonotone(a[1..], b[1..], n - 1);
        TruncTail(a, n);
        TruncTail(b, n);
      } else {
        assert Trunc(a, n)[0] == a[0] && Trunc(b, n)[0] == b[0];
      }
    } else if n == 0 {
      LeqReflexive([]);
      assert Trunc(a, 0) == [] && Trunc(b, 0) == [];
    }
  }

  lemma TruncTail(a: Path, n: nat)
    requires a != [] && n > 0
    ensures Trunc(a, n) != [] && Trunc(a, n)[0] == a[0] && Trunc(a, n)[1..] == Trunc(a[1..], n - 1)
  {
  }

  /** The strategies that compare the query with the left end. */
  predicate UsesLeft(st: Strategy) { st == Less || st == LessEqual || st == Equal || st == Descendant }

  /** Some ancestor of the query lies between the ends if one of them is a path between them. */
  lemma AncestorBetween(x: Path, l: Path, r: Path, q: Path)
    requires x <= q && Leq(l, x) && Leq(x, r)
    ensures exists i :: 0 <= i <= |q| && Between(l, q[..i], r)
  {
    var p := if Deep(x, l) then l else x;
    assert l < x || p == x;
    if p == l {
      LeqReflexive(l);
      LeqTransitive(l, x, r);
    }
    EnclosedBetween(l, p, r);
    assert q[..|p|] == p;
  }

  lemma EnclosedBetween(l: Path, p: Path, r: Path)
    requires Leq(l, p) && Leq(p, r) && !Deep(p, l)
    ensures Between(l, p, r)
  {
    PathOpposite(p, l);
  }

  lemma DescendantBetween(x: Path, l: Path, r: Path, q: Path)
    requires q <= x && Leq(l, x) && Leq(x, r)
    ensures Between(Trunc(l, |q|), q, Trunc(r, |q|)) <==> !Deep(q, l)
  {
    TruncMonotone(l, x, |q|);
    TruncMonotone(x, r, |q|);
    assert Trunc(x, |q|) == q;
    PathOpposite(q, Trunc(l, |q|));
  }

  /** What a key above the leaves can still rule out: the end itself may be equal to the query. */
  function Weak(st: Strategy): Strategy {
    match st
    case Less => LessEqual
    case Greater => GreaterEqual
    case _ => st
  }

  lemma NotDeep(q: Path, p: Path)
    requires |q| <= SAFE_DEPTH
    ensures !Deep(q, p)
  {
    DepthLimit(|q| - |p|);
  }

  lemma {:induction false} TruncStrict(a: Path, b: Path, n: nat)
    requires PathCmp(Trunc(a, n), Trunc(b, n)) < 0
    ensures PathCmp(a, b) < 0
  {
    PathOpposite(Trunc(a, n), Trunc(b, n));
    PathOpposite(a, b);
    if PathCmp(b, a) <= 0 { TruncMonotone(b, a, n); PathOpposite(Trunc(b, n), Trunc(a, n)); }
  }

  /** For shallow queries an inner key accepts exactly if a path between its ends could match. */
  lemma {:induction false} InnerIsTight(st: Strategy, l: Path, r: Path, q: Path)
    requires Leq(l, r) && |q| <= SAFE_DEPTH
    ensures Answer(st, false, l, r, q) <==> exists x {:trigger Meant(Weak(st), x, q)} ::
      Leq(l, x) && Leq(x, r) && Meant(Weak(st), x, q)
  {
    NotDeep(q, l);
    NotDeep(q, r);
    if x :| Leq(l, x) && Leq(x, r) && Meant(Weak(st), x, q) { TightBack(st, l, r, q, x); }
    if Answer(st, false, l, r, q) {
      var x := Witness(st, l, r, q);
      assert Meant(Weak(st), x, q);
    }
  }

  lemma {:induction false} TightBack(st: Strategy, l: Path, r: Path, q: Path, x: Path)
    requires Leq(l, x) && Leq(x, r) && Meant(Weak(st), x, q) && |q| <= SAFE_DEPTH
    ensures Answer(st, false, l, r, q)
  {
    NotDeep(q, l);
    MeantNeverMissed(Weak(st), x, l, r, q);
  }

  lemma {:induction false} Witness(st: Strategy, l: Path, r: Path, q: Path) returns (x: Path)
    requires Leq(l, r) && |q| <= SAFE_DEPTH && Answer(st, false, l, r, q)
    ensures Leq(l, x) && Leq(x, r) && Meant(Weak(st), x, q)
  {
    NotDeep(q, l);
    NotDeep(q, r);
    LeqReflexive(l);
    LeqReflexive(r);
    LeqReflexive(q);
    PathOpposite(q, l);
    PathOpposite(q, r);
    match st
    case Less => x := l;
    case LessEqual => x := l;
    case Equal => x := q;
    case GreaterEqual => x := r;
    case Greater => x := r;
    case Ancestor =>
      var i :| 0 <= i <= |q| && Between(l, q[..i], r);
      x := q[..i];
      NotDeep(x, r);
      PathOpposite(x, l);
    case Descendant => x := DescendantIn(l, r, q);
  }

  lemma {:induction false} DescendantIn(l: Path, r: Path, q: Path) returns (x: Path)
    requires Leq(l, r) && |q| <= SAFE_DEPTH && Between(Trunc(l, |q|), q, Trunc(r, |q|))
    ensures Leq(l, x) && Leq(x, r) && q <= x
  {
    var tl, tr := Trunc(l, |q|), Trunc(r, |q|);
    NotDeep(q, tl);
    NotDeep(q, tr);
    PathOpposite(q, tl);
    PathOpposite(q, tr);
    LeqReflexive(l);
    LeqReflexive(r);
    assert Trunc(q, |q|) == q;
    if tl == q {
      x := l;
    } else if tr == q {
      x := r;
    } else {
      x := q;
      TruncStrict(l, q, |q|);
      TruncStrict(q, r, |q|);
    }
  }

  /** An operator says what it stands for exactly unless an order strategy meets a path too far below the query. */
  lemma OpMeans(st: Strategy, x: Path, q: Path)
    requires IsPath(x) && IsPath(q)
    ensures (Op(st, x, q) <==> Meant(st, x, q)) <==> !(Deep(x, q) && ByOrder(st))
  {
    Tests(x, q);
    if Deep(x, q) { DescendantAfter(q, x); }
  }

  /**
    A key whose ends enclose a path meant by the query accepts it exactly unless the strategy
    compares the query with a left end too far above it.
   */
  lemma MeantNeverMissed(st: Strategy, x: Path, l: Path, r: Path, q: Path)
    requires Meant(st, x, q) && Leq(l, x) && Leq(x, r)
    ensures Answer(st, false, l, r, q) <==> !(UsesLeft(st) && Deep(q, l))
  {
    PathOpposite(x, q);
    PathOpposite(q, l);
    match st
    case Less => LeqTransitive(l, x, q);
    case LessEqual => LeqTransitive(l, x, q);
    case Equal =>
    case GreaterEqual => LeqTransitive(q, x, r);
    case Greater => LeqTransitive(q, x, r);
    case Ancestor => AncestorBetween(x, l, r, q);
    case Descendant => DescendantBetween(x, l, r, q);
  }

  /**
    A left end turns away a path that satisfies the operator: it lies too far above the query,
    or behind the query, where only a path too far below the query can follow it.
   */
  ghost predicate Missed(st: Strategy, l: Path, q: Path) {
    || (UsesLeft(st) && Deep(q, l))
    || ((st == Less || st == LessEqual) && PathCmp(l, q) > 0)
  }

  /** A key whose ends enclose a path that satisfies the operator accepts the query exactly unless it misses it. */
  lemma NeverMisses(st: Strategy, x: Path, l: Path, r: Path, q: Path)
    requires IsPath(x) && IsPath(q) && Op(st, x, q) && Leq(l, x) && Leq(x, r)
    ensures Answer(st, false, l, r, q) <==> !Missed(st, l, q)
    ensures Missed(st, l, q) ==> Deep(q, l) || Deep(x, q)
  {
    OpMeans(st, x, q);
    PathOpposite(l, q);
    if Meant(st, x, q) {
      MeantNeverMissed(st, x, l, r, q);
      if PathCmp(l, q) > 0 && (st == Less || st == LessEqual) { LeqTransitive(l, x, q); }
    } else {
      Tests(x, q);
    }
  }

  /**
    At a leaf the answer is the operator's exactly unless an order strategy meets a path and a
    query of which one lies too far below the other.
   */
  lemma LeafIsExact(st: Strategy, x: Path, q: Path)
    requires IsPath(x) && IsPath(q)
    ensures (Answer(st, true, x, x, q) <==> Op(st, x, q)) <==> !((Deep(q, x) || Deep(x, q)) && ByOrder(st))
  {
    Tests(x, q);
    PathOpposite(x, q);
    if Deep(q, x) { DescendantAfter(x, q); }
    if Deep(x, q) { DescendantAfter(q, x); }
  }

  /** A path of 14654 levels is not found by equality below a key that starts at the empty path. */
  lemma DeepPathLost(a: Path, r: Path)
    requires |a| == SAFE_DEPTH + 1 && IsPath(a) && Leq(a, r)
    ensures Leq([], a) && Op(Equal, a, a) && !Answer(Equal, false, [], r, a)
  {
    DepthLimit(|a|);
    PathOpposite(a, a);
    Tests(a, a);
    NeverMisses(Equal, a, [], r, a);
  }

  /**
    The operator has it before the empty path, yet neither its leaf nor a key that starts at
    another path finds it there; and its leaf has it behind the empty path, as the operator has not.
   */
  lemma DeepPathMisplaced(x: Path, l: Path, r: Path)
    requires |x| == SAFE_DEPTH + 1 && IsPath(x) && l != [] && Leq(l, x) && Leq(x, r)
    ensures Op(Less, x, []) && !Answer(Less, true, x, x, []) && !Answer(Less, false, l, r, [])
    ensures Answer(GreaterEqual, true, x, x, []) && !Op(GreaterEqual, x, [])
    ensures !Deep([], x) && !Deep([], l)
  {
    DeepComparesWrong(x);
    DescendantAfter([], x);
    LeafIsExact(Less, x, []);
    LeafIsExact(GreaterEqual, x, []);
    NeverMisses(Less, x, l, r, []);
    DescendantAfter([], l);
  }

  // Index trees

  datatype Tree = Leaf(value: Path) | Inner(key: LKey, children: seq<Tree>) {
    function Key(): LKey { if Leaf? then OneNode(value) else key }

    ghost predicate WellBuilt(crc: Crc) {
      && LKeyOk(Key())
      && (Inner? ==> forall i :: 0 <= i < |children| ==>
        Spans(crc, key, children[i].Key()) && children[i].WellBuilt(crc))
    }

    ghost predicate Holds(x: Path) {
      if Leaf? then value == x else exists i :: 0 <= i < |children| && children[i].Holds(x)
    }
  }

  lemma {:induction false} SpansLeaves(t: Tree, x: Path, crc: Crc)
    requires t.WellBuilt(crc) && t.Holds(x)
    ensures IsPath(x) && Leq(t.Key().Left(), x) && Leq(x, t.Key().Right())
    ensures PathBits(crc, x, |x|) <= LKeyBits(crc, t.Key())
  {
    if t.Inner? {
      var i :| 0 <= i < |t.children| && t.children[i].Holds(x);
      SpansLeaves(t.children[i], x, crc);
      LeqTransitive(t.key.Left(), t.children[i].Key().Left(), x);
      LeqTransitive(x, t.children[i].Key().Right(), t.key.Right());
    } else {
      LeqReflexive(x);
    }
  }

  /** A key on the way to a path that satisfies the operator accepts the query exactly unless it misses it. */
  lemma {:induction false} SearchIsComplete(t: Tree, x: Path, st: Strategy, q: Path, crc: Crc)
    requires t.WellBuilt(crc) && t.Holds(x) && IsPath(q) && Op(st, x, q)
    ensures Answer(st, t.Leaf?, t.Key().Left(), t.Key().Right(), q) <==> !Missed(st, t.Key().Left(), q)
    ensures Missed(st, t.Key().Left(), q) ==> Deep(q, t.Key().Left()) || Deep(x, q)
  {
    SpansLeaves(t, x, crc);
    NeverMisses(st, x, t.Key().Left(), t.Key().Right(), q);
    if t.Leaf? {
      LeafIsExact(st, x, q);
      Tests(x, q);
      PathOpposite(x, q);
      if Deep(q, x) { DescendantAfter(x, q); }
    }
  }

  // Union and picksplit

  lemma {:induction false} PathBitsWithin(crc: Crc, p: Path, n: nat)
    requires n <= |p|
    ensures PathBits(crc, p, n) <= AllBits(SIGLEN)
  {
    if n > 0 {
      PathBitsWithin(crc, p, n - 1);
      AllBitsAre(SIGLEN, HashVal(crc, p[n - 1]));
    }
  }

  /** Adds the labels of one entry to a signature in the making. */
  method Absorb(all: bool, base: array<bv8>, e: LKey, crc: Crc) returns (all': bool)
    requires base.Length == SIGLEN && LKeyOk(e)
    modifies base
    ensures KeyBits(KeyFrom(all', base[..]), SIGLEN) == old(KeyBits(KeyFrom(all, base[..]), SIGLEN)) + LKeyBits(crc, e)
  {
    all' := all;
    OnesBits(base[..]);
    if e.OneNode? {
      PathBitsWithin(crc, e.node, |e.node|);
      Hashing(base, crc, e.node);
    } else {
      if e.sign.Signed? { OnesBits(e.sign.sign); }
      if all || e.sign.AllTrue? {
        all' := true;
      } else {
        OrInto(base, e.sign.sign);
      }
    }
  }

  /** ISEQ */
  predicate IsEq(a: Path, b: Path) { |a| == |b| && Compare(a, b) == 0 }

  /** The key built from a signature and two ends. */
  method MakeKey(all: bool, base: array<bv8>, left: Path, right: Path) returns (k: LKey)
    requires base.Length == SIGLEN && IsPath(left) && IsPath(right)
    ensures LKeyOk(k) && k.Range? && k.Left() == left && k.Right() == right
    ensures KeyBits(k.sign, SIGLEN) == KeyBits(KeyFrom(all, base[..]), SIGLEN)
  {
    var sign := CompressInner(KeyFrom(all, base[..]), SIGLEN);
    CompareZero(left, right);
    k := Range(sign, left, IsEq(left, right), right);
  }

  /** No path among these lies too far below another. */
  ghost predicate Safe(ps: seq<Path>) {
    forall i, j {:trigger Deep(ps[i], ps[j])} :: 0 <= i < |ps| && 0 <= j < |ps| ==> !Deep(ps[i], ps[j])
  }

  ghost predicate Paths(ps: seq<Path>) {
    forall i {:trigger ps[i]} :: 0 <= i < |ps| ==> IsPath(ps[i])
  }

  /** Paths of at most 14653 levels are safe together. */
  lemma ShallowIsSafe(ps: seq<Path>)
    requires forall i {:trigger ps[i]} :: 0 <= i < |ps| ==> |ps[i]| <= SAFE_DEPTH
    ensures Safe(ps)
  {
    forall i, j | 0 <= i < |ps| && 0 <= j < |ps| ensures !Deep(ps[i], ps[j]) {
      DepthLimit(|ps[i]| - |ps[j]|);
    }
  }

  // The tests by which union and picksplit choose their ends

  function Lower(left: Path, cur: Path): Path { if Compare(left, cur) > 0 then cur else left }

  function Upper(right: Path, cur: Path): Path { if Compare(right, cur) < 0 then cur else right }

  function Higher(right: Path, cur: Path): Path { if Compare(cur, right) > 0 then cur else right }

  /** The lower of two ends is found exactly unless the one held lies too far below the other. */
  lemma LowerIs(a: Path, b: Path)
    requires IsPath(a) && IsPath(b)
    ensures Leq(Lower(a, b), a) && Leq(Lower(a, b), b) <==> !Deep(a, b)
  {
    Tests(a, b);
    PathOpposite(a, b);
    LeqReflexive(a);
    LeqReflexive(b);
    if Deep(a, b) { DescendantAfter(b, a); }
  }

  /** The upper one likewise, and in picksplit unless the new one lies too far below the one held. */
  lemma UpperIs(a: Path, b: Path)
    requires IsPath(a) && IsPath(b)
    ensures Leq(a, Upper(a, b)) && Leq(b, Upper(a, b)) <==> !Deep(a, b)
    ensures Leq(a, Higher(a, b)) && Leq(b, Higher(a, b)) <==> !Deep(b, a)
  {
    Tests(a, b);
    Tests(b, a);
    PathOpposite(a, b);
    LeqReflexive(a);
    LeqReflexive(b);
    if Deep(a, b) { DescendantAfter(b, a); }
    if Deep(b, a) { DescendantAfter(a, b); }
  }

  /** The left end ltree_union chooses among the first n. */
  function Least(ps: seq<Path>, n: nat): Path
    requires 1 <= n <= |ps|
  {
    if n == 1 then ps[0] else Lower(Least(ps, n - 1), ps[n - 1])
  }

  /** The right end it chooses; picksplit compares the other way round. */
  function Greatest(ps: seq<Path>, n: nat, split: bool): Path
    requires 1 <= n <= |ps|
  {
    if n == 1 then ps[0] else
      var g := Greatest(ps, n - 1, split);
      if split then Higher(g, ps[n - 1]) else Upper(g, ps[n - 1])
  }

  ghost predicate BelowAll(p: Path, ps: seq<Path>, n: nat)
    requires n <= |ps|
  {
    forall i {:trigger ps[i]} :: 0 <= i < n ==> Leq(p, ps[i])
  }

  ghost predicate AboveAll(p: Path, ps: seq<Path>, n: nat)
    requires n <= |ps|
  {
    forall i {:trigger ps[i]} :: 0 <= i < n ==> Leq(ps[i], p)
  }

  /** ps[i] replaces the end held before it, or is the first. */
  ghost predicate Taken(ps: seq<Path>, i: nat)
    requires i < |ps|
  {
    i == 0 || !Deep(Least(ps, i), ps[i])
  }

  /** A least path is not turned away when its turn comes. */
  ghost predicate FindsLeast(ps: seq<Path>, n: nat)
    requires n <= |ps|
  {
    exists i {:trigger Taken(ps, i)} :: 0 <= i < n && BelowAll(ps[i], ps, n) && Taken(ps, i)
  }

  /** In union a greatest path, once held, is not given up; in picksplit it is not turned away. */
  ghost predicate Kept(ps: seq<Path>, n: nat, split: bool, i: nat)
    requires i < n <= |ps|
  {
    if split then i == 0 || !Deep(ps[i], Greatest(ps, i, true))
    else forall j {:trigger ps[j]} :: i < j < n ==> !Deep(ps[i], ps[j])
  }

  ghost predicate FindsGreatest(ps: seq<Path>, n: nat, split: bool)
    requires n <= |ps|
  {
    exists i {:trigger Kept(ps, n, split, i)} :: 0 <= i < n && AboveAll(ps[i], ps, n) && Kept(ps, n, split, i)
  }

  /** The left end held is one of the paths and replaced the one before it. */
  lemma {:induction false} LeastFrom(ps: seq<Path>, n: nat) returns (m: nat)
    requires 1 <= n <= |ps| && Paths(ps)
    ensures m < n && Least(ps, n) == ps[m] && IsPath(ps[m]) && Taken(ps, m)
  {
    if n == 1 {
      m := 0;
    } else {
      m := LeastFrom(ps, n - 1);
      if Compare(Least(ps, n - 1), ps[n - 1]) > 0 {
        Tests(ps[m], ps[n - 1]);
        m := n - 1;
      }
    }
  }

  /** The left end held only goes down. */
  lemma {:induction false} LeastFalls(ps: seq<Path>, i: nat, n: nat)
    requires 1 <= i <= n <= |ps| && Paths(ps)
    ensures Leq(Least(ps, n), Least(ps, i))
  {
    if i == n {
      LeqReflexive(Least(ps, n));
    } else {
      LeastFalls(ps, i, n - 1);
      var m := LeastFrom(ps, n - 1);
      Tests(ps[m], ps[n - 1]);
      PathOpposite(ps[m], ps[n - 1]);
      LeqReflexive(ps[m]);
      LeqTransitive(Least(ps, n), ps[m], Least(ps, i));
    }
  }

  /** The left end chosen is least exactly if a least path is not turned away. */
  lemma {:induction false} LeastIs(ps: seq<Path>, n: nat)
    requires 1 <= n <= |ps| && Paths(ps)
    ensures BelowAll(Least(ps, n), ps, n) <==> FindsLeast(ps, n)
  {
    if BelowAll(Least(ps, n), ps, n) {
      var m := LeastFrom(ps, n);
    }
    if FindsLeast(ps, n) {
      var i :| 0 <= i < n && BelowAll(ps[i], ps, n) && Taken(ps, i);
      TakenIsLeast(ps, n, i);
    }
  }

  lemma {:induction false} TakenIsLeast(ps: seq<Path>, n: nat, i: nat)
    requires i < n <= |ps| && Paths(ps) && BelowAll(ps[i], ps, n) && Taken(ps, i)
    ensures BelowAll(Least(ps, n), ps, n)
  {
    var l := Least(ps, n);
    TakenHolds(ps, i);
    LeastFalls(ps, i + 1, n);
    LeqTransitive(l, Least(ps, i + 1), ps[i]);
    LowerThanAll(l, ps, n, i);
  }

  lemma LowerThanAll(l: Path, ps: seq<Path>, n: nat, i: nat)
    requires i < n <= |ps| && Leq(l, ps[i]) && BelowAll(ps[i], ps, n)
    ensures BelowAll(l, ps, n)
  {
    forall j | 0 <= j < n ensures Leq(l, ps[j]) { LeqTransitive(l, ps[i], ps[j]); }
  }

  lemma HigherThanAll(g: Path, ps: seq<Path>, n: nat, i: nat)
    requires i < n <= |ps| && Leq(ps[i], g) && AboveAll(ps[i], ps, n)
    ensures AboveAll(g, ps, n)
  {
    forall j | 0 <= j < n ensures Leq(ps[j], g) { LeqTransitive(ps[j], ps[i], g); }
  }

  lemma {:induction false} TakenHolds(ps: seq<Path>, i: nat)
    requires i < |ps| && Paths(ps) && Taken(ps, i)
    ensures Leq(Least(ps, i + 1), ps[i])
  {
    if i == 0 {
      LeqReflexive(ps[0]);
    } else {
      var m := LeastFrom(ps, i);
      LowerIs(ps[m], ps[i]);
    }
  }

  /** The right end held is one of the paths, and nothing since has made it give way. */
  lemma {:induction false} GreatestFrom(ps: seq<Path>, n: nat, split: bool) returns (m: nat)
    requires 1 <= n <= |ps| && Paths(ps)
    ensures m < n && Greatest(ps, n, split) == ps[m] && IsPath(ps[m]) && Kept(ps, n, split, m)
  {
    if n == 1 {
      m := 0;
    } else {
      m := GreatestFrom(ps, n - 1, split);
      Tests(ps[m], ps[n - 1]);
      Tests(ps[n - 1], ps[m]);
      if Greatest(ps, n, split) != ps[m] {
        m := n - 1;
      }
    }
  }

  /** In picksplit the right end held only goes up. */
  lemma {:induction false} GreatestRises(ps: seq<Path>, i: nat, n: nat)
    requires 1 <= i <= n <= |ps| && Paths(ps)
    ensures Leq(Greatest(ps, i, true), Greatest(ps, n, true))
  {
    if i == n {
      LeqReflexive(Greatest(ps, n, true));
    } else {
      GreatestRises(ps, i, n - 1);
      var m := GreatestFrom(ps, n - 1, true);
      Tests(ps[n - 1], ps[m]);
      PathOpposite(ps[m], ps[n - 1]);
      LeqReflexive(ps[m]);
      LeqTransitive(Greatest(ps, i, true), ps[m], Greatest(ps, n, true));
    }
  }

  /** In union a greatest path is held from its turn on, unless another makes it give way. */
  lemma {:induction false} GreatestStays(ps: seq<Path>, i: nat, n: nat)
    requires i < n <= |ps| && Paths(ps) && AboveAll(ps[i], ps, n) && Kept(ps, n, false, i)
    ensures Greatest(ps, n, false) == ps[i]
  {
    if n > 1 {
      var m := GreatestFrom(ps, n - 1, false);
      PathOpposite(ps[m], ps[n - 1]);
      Tests(ps[m], ps[n - 1]);
      if i < n - 1 { GreatestStays(ps, i, n - 1); }
    }
  }

  /** The right end chosen is greatest exactly if a greatest path is kept. */
  lemma {:induction false} GreatestIs(ps: seq<Path>, n: nat, split: bool)
    requires 1 <= n <= |ps| && Paths(ps)
    ensures AboveAll(Greatest(ps, n, split), ps, n) <==> FindsGreatest(ps, n, split)
  {
    if AboveAll(Greatest(ps, n, split), ps, n) {
      var m := GreatestFrom(ps, n, split);
    }
    if FindsGreatest(ps, n, split) {
      var i :| 0 <= i < n && AboveAll(ps[i], ps, n) && Kept(ps, n, split, i);
      var g := Greatest(ps, n, split);
      if split {
        KeptHolds(ps, n, i);
        GreatestRises(ps, i + 1, n);
        LeqTransitive(ps[i], Greatest(ps, i + 1, true), g);
      } else {
        GreatestStays(ps, i, n);
        LeqReflexive(ps[i]);
      }
      HigherThanAll(g, ps, n, i);
    }
  }

  lemma {:induction false} KeptHolds(ps: seq<Path>, n: nat, i: nat)
    requires i < n <= |ps| && Paths(ps) && Kept(ps, n, true, i)
    ensures Leq(ps[i], Greatest(ps, i + 1, true))
  {
    if i == 0 {
      LeqReflexive(ps[0]);
    } else {
      var m := GreatestFrom(ps, i, true);
      UpperIs(ps[m], ps[i]);
    }
  }

  /** Both ends are found if no path lies too far below another. */
  lemma {:induction false} SafeFinds(ps: seq<Path>, n: nat, split: bool)
    requires 1 <= n <= |ps| && Paths(ps) && Safe(ps)
    ensures FindsLeast(ps, n) && FindsGreatest(ps, n, split)
  {
    SafeLeast(ps, n);
    SafeGreatest(ps, n, split);
    LeastIs(ps, n);
    GreatestIs(ps, n, split);
  }

  lemma {:induction false} SafeLeast(ps: seq<Path>, n: nat)
    requires 1 <= n <= |ps| && Paths(ps) && Safe(ps)
    ensures BelowAll(Least(ps, n), ps, n)
  {
    if n == 1 {
      LeqReflexive(ps[0]);
    } else {
      SafeLeast(ps, n - 1);
      var m := LeastFrom(ps, n - 1);
      var l, cur := ps[m], ps[n - 1];
      assert !Deep(ps[m], ps[n - 1]);
      LowerIs(l, cur);
      forall i | 0 <= i < n - 1 ensures Leq(Lower(l, cur), ps[i]) { LeqTransitive(Lower(l, cur), l, ps[i]); }
    }
  }

  lemma {:induction false} SafeGreatest(ps: seq<Path>, n: nat, split: bool)
    requires 1 <= n <= |ps| && Paths(ps) && Safe(ps)
    ensures AboveAll(Greatest(ps, n, split), ps, n)
  {
    if n == 1 {
      LeqReflexive(ps[0]);
    } else {
      SafeGreatest(ps, n - 1, split);
      var m := GreatestFrom(ps, n - 1, split);
      var g, next := ps[m], Greatest(ps, n, split);
      assert !Deep(ps[m], ps[n - 1]) && !Deep(ps[n - 1], ps[m]);
      UpperIs(g, ps[n - 1]);
      forall i | 0 <= i < n - 1 ensures Leq(ps[i], next) { LeqTransitive(ps[i], g, next); }
    }
  }

  /** Of a path of 14654 levels and the empty path, in this order, union keeps the wrong one as left end. */
  lemma DeepUnionWrong(a: Path)
    requires |a| == SAFE_DEPTH + 1 && IsPath(a)
    ensures Least([a, []], 2) == a && !Leq(a, [])
  {
    DeepComparesWrong(a);
    assert Least([a, []], 1) == a;
  }

  // Unions of entries

  function Lefts(es: seq<LKey>): (ps: seq<Path>)
    ensures |ps| == |es| && forall i {:trigger ps[i]} :: 0 <= i < |es| ==> ps[i] == es[i].Left()
  {
    seq(|es|, i requires 0 <= i < |es| => es[i].Left())
  }

  function Rights(es: seq<LKey>): (ps: seq<Path>)
    ensures |ps| == |es| && forall i {:trigger ps[i]} :: 0 <= i < |es| ==> ps[i] == es[i].Right()
  {
    seq(|es|, i requires 0 <= i < |es| => es[i].Right())
  }

  ghost predicate KeysOk(es: seq<LKey>) {
    forall i {:trigger es[i]} :: 0 <= i < |es| ==> LKeyOk(es[i])
  }

  ghost predicate SpansAll(crc: Crc, k: LKey, es: seq<LKey>) {
    forall i {:trigger es[i]} :: 0 <= i < |es| ==> Spans(crc, k, es[i])
  }

  ghost predicate BitsOfAll(crc: Crc, bits: set<nat>, es: seq<LKey>, n: nat)
    requires n <= |es|
  {
    forall i {:trigger es[i]} :: 0 <= i < n ==> LKeyBits(crc, es[i]) <= bits
  }

  lemma EndsOk(es: seq<LKey>)
    requires KeysOk(es)
    ensures Paths(Lefts(es)) && Paths(Rights(es))
  {
    forall i | 0 <= i < |es| ensures IsPath(Lefts(es)[i]) && IsPath(Rights(es)[i]) {
      assert LKeyOk(es[i]);
    }
  }

  /** The labels of all entries, gathered into one signature. */
  method GatherBits(es: seq<LKey>, crc: Crc) returns (all: bool, base: array<bv8>)
    requires KeysOk(es)
    ensures fresh(base) && base.Length == SIGLEN
    ensures BitsOfAll(crc, KeyBits(KeyFrom(all, base[..]), SIGLEN), es, |es|)
  {
    all := false;
    base := new bv8[SIGLEN](_ => 0);
    for j := 0 to |es|
      invariant BitsOfAll(crc, KeyBits(KeyFrom(all, base[..]), SIGLEN), es, j)
    {
      assert LKeyOk(es[j]);
      ghost var bits := KeyBits(KeyFrom(all, base[..]), SIGLEN);
      all := Absorb(all, base, es[j], crc);
      BitsMore(crc, bits, KeyBits(KeyFrom(all, base[..]), SIGLEN), es, j);
    }
  }

  lemma BitsMore(crc: Crc, bits: set<nat>, bits': set<nat>, es: seq<LKey>, n: nat)
    requires n < |es| && BitsOfAll(crc, bits, es, n) && bits <= bits' && LKeyBits(crc, es[n]) <= bits'
    ensures BitsOfAll(crc, bits', es, n + 1)
  {
  }

  method UnionEnds(es: seq<LKey>) returns (left: Path, right: Path)
    requires es != []
    ensures left == Least(Lefts(es), |es|) && right == Greatest(Rights(es), |es|, false)
  {
    left, right := es[0].Left(), es[0].Right();
    for j := 1 to |es|
      invariant left == Least(Lefts(es), j) && right == Greatest(Rights(es), j, false)
    {
      if Compare(left, es[j].Left()) > 0 {
        left := es[j].Left();
      }
      if Compare(right, es[j].Right()) < 0 {
        right := es[j].Right();
      }
    }
  }

  /** The comparisons of union find both ends of a page. */
  ghost predicate FindsEnds(es: seq<LKey>) {
    FindsLeast(Lefts(es), |es|) && FindsGreatest(Rights(es), |es|, false)
  }

  lemma SafeFindsEnds(es: seq<LKey>)
    requires es != [] && KeysOk(es) && Safe(Lefts(es)) && Safe(Rights(es))
    ensures FindsEnds(es)
  {
    EndsOk(es);
    SafeFinds(Lefts(es), |es|, false);
    SafeFinds(Rights(es), |es|, false);
  }

  /** ltree_union of at least one entry: it spans them all exactly if its comparisons find both ends. */
  method Union(es: seq<LKey>, crc: Crc) returns (k: LKey)
    requires es != [] && KeysOk(es)
    ensures LKeyOk(k) && k.Left() == Least(Lefts(es), |es|) && k.Right() == Greatest(Rights(es), |es|, false)
    ensures BitsOfAll(crc, LKeyBits(crc, k), es, |es|)
    ensures SpansAll(crc, k, es) <==> FindsEnds(es)
  {
    EndsOk(es);
    var all, base := GatherBits(es, crc);
    var left, right := UnionEnds(es);
    ghost var m := LeastFrom(Lefts(es), |es|);
    m := GreatestFrom(Rights(es), |es|, false);
    k := MakeKey(all, base, left, right);
    LeastIs(Lefts(es), |es|);
    GreatestIs(Rights(es), |es|, false);
    SpansByEnds(es, crc, k);
  }

  lemma SpansByEnds(es: seq<LKey>, crc: Crc, k: LKey)
    requires BitsOfAll(crc, LKeyBits(crc, k), es, |es|)
    ensures SpansAll(crc, k, es) <==> BelowAll(k.Left(), Lefts(es), |es|) && AboveAll(k.Right(), Rights(es), |es|)
  {
    forall i | 0 <= i < |es|
      ensures Spans(crc, k, es[i]) <==> Leq(k.Left(), Lefts(es)[i]) && Leq(Rights(es)[i], k.Right())
    {
    }
  }

  // picksplit

  function LeftAt(lefts: seq<Path>, i: nat): Path
    requires |lefts| >= 2
  {
    if 1 <= i < |lefts| then lefts[i] else lefts[1]
  }

  lemma OrderIsTotal(lefts: seq<Path>, leq: (nat, nat) -> bool)
    requires |lefts| >= 2 && Paths(lefts[1..]) && Safe(lefts[1..])
    requires forall i: nat, j: nat :: leq(i, j) <==> Compare(LeftAt(lefts, i), LeftAt(lefts, j)) <= 0
    ensures TotalPreorder(leq)
  {
    forall i: nat, j: nat ensures leq(i, j) <==> Leq(LeftAt(lefts, i), LeftAt(lefts, j)) {
      LeftsCompare(lefts, i, j);
    }
    forall i: nat, j: nat ensures leq(i, j) || leq(j, i) {
      PathOpposite(LeftAt(lefts, i), LeftAt(lefts, j));
    }
    forall i: nat, j: nat, k: nat | leq(i, j) && leq(j, k) ensures leq(i, k) {
      LeqTransitive(LeftAt(lefts, i), LeftAt(lefts, j), LeftAt(lefts, k));
    }
  }

  lemma LeftsCompare(lefts: seq<Path>, i: nat, j: nat)
    requires |lefts| >= 2 && Paths(lefts[1..]) && Safe(lefts[1..])
    ensures Compare(LeftAt(lefts, i), LeftAt(lefts, j)) <= 0 <==> Leq(LeftAt(lefts, i), LeftAt(lefts, j))
  {
    var ps := lefts[1..];
    var x, y := if 1 <= i < |lefts| then i - 1 else 0, if 1 <= j < |lefts| then j - 1 else 0;
    assert LeftAt(lefts, i) == ps[x] && LeftAt(lefts, j) == ps[y];
    assert !Deep(ps[x], ps[y]);
    Tests(ps[x], ps[y]);
  }

  /** The sort of a page by the left ends of its entries: sorted if they compare as an order. */
  method SplitOrder(lefts: seq<Path>) returns (order: seq<nat>)
    requires |lefts| >= 2 && Paths(lefts[1..])
    ensures multiset(order) == multiset(Offsets(|lefts|)) && |order| == |lefts| - 1
    ensures forall i {:trigger order[i]} :: 0 <= i < |order| ==> 1 <= order[i] < |lefts|
    ensures Safe(lefts[1..]) ==> forall i, j :: 0 <= i < j < |order| ==> Leq(lefts[order[i]], lefts[order[j]])
  {
    var leq := (i: nat, j: nat) => Compare(LeftAt(lefts, i), LeftAt(lefts, j)) <= 0;
    order := QSort(Offsets(|lefts|), leq);
    assert |multiset(order)| == |order| == |Offsets(|lefts|)|;
    forall i | 0 <= i < |order| ensures 1 <= order[i] < |lefts| {
      assert order[i] in multiset(order);
      OffsetIn(|lefts|, order[i]);
    }
    if Safe(lefts[1..]) {
      OrderIsTotal(lefts, leq);
      forall i, j | 0 <= i < j < |order| ensures Leq(lefts[order[i]], lefts[order[j]]) {
        SortedPair(order, leq, i, j);
        LeftsCompare(lefts, order[i], order[j]);
      }
    }
  }

  function Entries(vec: seq<LKey>, side: seq<nat>): (es: seq<LKey>)
    requires forall i {:trigger side[i]} :: 0 <= i < |side| ==> side[i] < |vec|
    ensures |es| == |side| && forall i {:trigger es[i]} :: 0 <= i < |side| ==> es[i] == vec[side[i]]
  {
    seq(|side|, i requires 0 <= i < |side| => vec[side[i]])
  }

  method SplitEnds(es: seq<LKey>) returns (left: Path, right: Path)
    requires es != []
    ensures left == es[0].Left() && right == Greatest(Rights(es), |es|, true)
  {
    left, right := es[0].Left(), es[0].Right();
    for j := 1 to |es|
      invariant right == Greatest(Rights(es), j, true)
    {
      if Compare(es[j].Right(), right) > 0 {
        right := es[j].Right();
      }
    }
  }

  /** The first entry of a half has its least left end, and the comparisons of picksplit find its greatest right end. */
  ghost predicate FindsHalf(es: seq<LKey>) {
    es != [] && BelowAll(es[0].Left(), Lefts(es), |es|) && FindsGreatest(Rights(es), |es|, true)
  }

  /** The key of one half of a sorted page: its left end is that of the first entry. */
  method HalfKey(es: seq<LKey>, crc: Crc) returns (k: LKey)
    requires es != [] && KeysOk(es)
    ensures LKeyOk(k) && BitsOfAll(crc, LKeyBits(crc, k), es, |es|)
    ensures SpansAll(crc, k, es) <==> FindsHalf(es)
  {
    EndsOk(es);
    assert LKeyOk(es[0]);
    var all, base := GatherBits(es, crc);
    var left, right := SplitEnds(es);
    ghost var m := GreatestFrom(Rights(es), |es|, true);
    k := MakeKey(all, base, left, right);
    GreatestIs(Rights(es), |es|, true);
    SpansByEnds(es, crc, k);
  }

  ghost predicate SideSpanned(crc: Crc, vec: seq<LKey>, side: seq<nat>, key: LKey) {
    forall i {:trigger side[i]} :: 0 <= i < |side| ==> 1 <= side[i] < |vec| && Spans(crc, key, vec[side[i]])
  }

  /** The sorted offsets of a page. */
  ghost predicate Ordered(vec: seq<LKey>, order: seq<nat>) {
    && (forall i {:trigger order[i]} :: 0 <= i < |order| ==> 1 <= order[i] < |vec|)
    && forall i, j :: 0 <= i < j < |order| ==> Leq(vec[order[i]].Left(), vec[order[j]].Left())
  }

  ghost predicate Within(vec: seq<LKey>, side: seq<nat>) {
    forall i {:trigger side[i]} :: 0 <= i < |side| ==> 1 <= side[i] < |vec|
  }

  method SideKey(vec: seq<LKey>, order: seq<nat>, lo: nat, hi: nat, crc: Crc) returns (k: LKey)
    requires lo < hi <= |order| && vec != [] && KeysOk(vec[1..]) && Within(vec, order)
    ensures LKeyOk(k) && Within(vec, order[lo..hi])
    ensures SideSpanned(crc, vec, order[lo..hi], k) <==> FindsHalf(Entries(vec, order[lo..hi]))
    ensures Ordered(vec, order) && Safe(Rights(vec[1..])) ==> FindsHalf(Entries(vec, order[lo..hi]))
  {
    var side := order[lo..hi];
    forall i | 0 <= i < |side| ensures 1 <= side[i] < |vec| { assert side[i] == order[lo + i]; }
    var es := Entries(vec, side);
    forall i | 0 <= i < |es| ensures LKeyOk(es[i]) { assert es[i] == vec[1..][side[i] - 1]; }
    k := HalfKey(es, crc);
    SideSpans(crc, vec, side, k, es);
    if Ordered(vec, order) && Safe(Rights(vec[1..])) { SafeHalf(vec, order, lo, hi, es); }
  }

  lemma SideSpans(crc: Crc, vec: seq<LKey>, side: seq<nat>, k: LKey, es: seq<LKey>)
    requires Within(vec, side) && es == Entries(vec, side)
    ensures SideSpanned(crc, vec, side, k) <==> SpansAll(crc, k, es)
  {
    forall i | 0 <= i < |side| ensures es[i] == vec[side[i]] {
    }
  }

  lemma SafeHalf(vec: seq<LKey>, order: seq<nat>, lo: nat, hi: nat, es: seq<LKey>)
    requires lo < hi <= |order| && vec != [] && KeysOk(vec[1..]) && Within(vec, order) && Within(vec, order[lo..hi])
    requires Ordered(vec, order) && Safe(Rights(vec[1..])) && es == Entries(vec, order[lo..hi]) && KeysOk(es)
    ensures FindsHalf(es)
  {
    var side := order[lo..hi];
    SideSafe(vec, side, es);
    EndsOk(es);
    SafeFinds(Rights(es), |es|, true);
    forall i | 0 <= i < |es| ensures Leq(es[0].Left(), Lefts(es)[i]) {
      LeqReflexive(es[0].Left());
      assert side[i] == order[lo + i] && side[0] == order[lo];
    }
  }

  lemma SideSafe(vec: seq<LKey>, side: seq<nat>, es: seq<LKey>)
    requires vec != [] && Safe(Rights(vec[1..])) && Within(vec, side) && es == Entries(vec, side)
    ensures Safe(Rights(es))
  {
    var ps, rs := Rights(vec[1..]), Rights(es);
    forall i, j | 0 <= i < |rs| && 0 <= j < |rs| ensures !Deep(rs[i], rs[j]) {
      assert rs[i] == ps[side[i] - 1] && rs[j] == ps[side[j] - 1];
    }
  }

  method PageOrder(vec: seq<LKey>) returns (order: seq<nat>)
    requires |vec| >= 2 && KeysOk(vec[1..])
    ensures multiset(order) == multiset(Offsets(|vec|)) && |order| == |vec| - 1
    ensures forall i {:trigger order[i]} :: 0 <= i < |order| ==> 1 <= order[i] < |vec|
    ensures Safe(Lefts(vec[1..])) ==> Ordered(vec, order)
  {
    var lefts := Lefts(vec);
    assert lefts[1..] == Lefts(vec[1..]);
    EndsOk(vec[1..]);
    order := SplitOrder(lefts);
  }

  lemma Halves(order: seq<nat>, half: nat)
    requires half <= |order|
    ensures multiset(order[0..half]) + multiset(order[half..|order|]) == multiset(order)
    ensures forall i {:trigger order[0..half][i]} :: 0 <= i < half ==> order[0..half][i] == order[i]
    ensures forall i {:trigger order[half..|order|][i]} :: 0 <= i < |order| - half ==>
      order[half..|order|][i] == order[half + i]
  {
    assert order == order[0..half] + order[half..|order|];
  }

  /**
    ltree_picksplit: the lower half by left end goes left, the rest right; vec[0] is not an
    entry. A half is spanned by its key exactly if its ends are found, as both are if no end
    lies too far below another.
   */
  method PickSplit(vec: seq<LKey>, crc: Crc) returns (left: seq<nat>, right: seq<nat>, lkey: LKey, rkey: LKey)
    requires |vec| >= 3 && KeysOk(vec[1..])
    ensures multiset(left) + multiset(right) == multiset(Offsets(|vec|)) && left != [] && right != []
    ensures LKeyOk(lkey) && LKeyOk(rkey) && Within(vec, left) && Within(vec, right)
    ensures SideSpanned(crc, vec, left, lkey) <==> FindsHalf(Entries(vec, left))
    ensures SideSpanned(crc, vec, right, rkey) <==> FindsHalf(Entries(vec, right))
    ensures Safe(Lefts(vec[1..])) && Safe(Rights(vec[1..])) ==>
      FindsHalf(Entries(vec, left)) && FindsHalf(Entries(vec, right))
  {
    var order := PageOrder(vec);
    var half := |order| / 2;
    left, right := order[0..half], order[half..|order|];
    Halves(order, half);
    lkey := SideKey(vec, order, 0, half, crc);
    rkey := SideKey(vec, order, half, |order|, crc);
  }

  // Pages of trees

  function Keys(ts: seq<Tree>): (ks: seq<LKey>)
    ensures |ks| == |ts| && forall i {:trigger ks[i]} :: 0 <= i < |ts| ==> ks[i] == ts[i].Key()
  {
    seq(|ts|, i requires 0 <= i < |ts| => ts[i].Key())
  }

  /** A parent entry over a page of well-built entries, well built exactly if union finds its ends. */
  method Parent(children: seq<Tree>, crc: Crc) returns (t: Tree)
    requires children != [] && forall i {:trigger children[i]} :: 0 <= i < |children| ==> children[i].WellBuilt(crc)
    ensures t.Inner? && t.children == children
    ensures t.WellBuilt(crc) <==> FindsEnds(Keys(children))
  {
    var keys := Keys(children);
    forall i | 0 <= i < |keys| ensures LKeyOk(keys[i]) { assert children[i].WellBuilt(crc); }
    var k := Union(keys, crc);
    t := Tree.Inner(k, children);
    forall i | 0 <= i < |children| ensures Spans(crc, k, children[i].Key()) <==> Spans(crc, k, keys[i]) {
    }
  }

  function Chosen(vec: seq<Tree>, side: seq<nat>): (cs: seq<Tree>)
    requires forall i {:trigger side[i]} :: 0 <= i < |side| ==> side[i] < |vec|
    ensures |cs| == |side| && forall i {:trigger cs[i]} :: 0 <= i < |side| ==> cs[i] == vec[side[i]]
  {
    seq(|side|, i requires 0 <= i < |side| => vec[side[i]])
  }

  /** A page split into two parents, each well built exactly if its ends are found; vec[0] is not an entry. */
  method Split(vec: seq<Tree>, crc: Crc) returns (l: Tree, r: Tree, ghost left: seq<nat>, ghost right: seq<nat>)
    requires |vec| >= 3 && forall i {:trigger vec[i]} :: 1 <= i < |vec| ==> vec[i].WellBuilt(crc)
    ensures multiset(left) + multiset(right) == multiset(Offsets(|vec|)) && left != [] && right != []
    ensures Within(Keys(vec), left) && Within(Keys(vec), right)
    ensures l.Inner? && l.children == Chosen(vec, left) && r.Inner? && r.children == Chosen(vec, right)
    ensures l.WellBuilt(crc) <==> FindsHalf(Entries(Keys(vec), left))
    ensures r.WellBuilt(crc) <==> FindsHalf(Entries(Keys(vec), right))
    ensures Safe(Lefts(Keys(vec)[1..])) && Safe(Rights(Keys(vec)[1..])) ==> l.WellBuilt(crc) && r.WellBuilt(crc)
  {
    var keys := Keys(vec);
    forall i | 0 <= i < |keys[1..]| ensures LKeyOk(keys[1..][i]) { assert vec[i + 1].WellBuilt(crc); }
    var ls, rs, lk, rk := PickSplit(keys, crc);
    left, right := ls, rs;
    l, r := Tree.Inner(lk, Chosen(vec, ls)), Tree.Inner(rk, Chosen(vec, rs));
    SplitSide(vec, keys, ls, lk, crc);
    SplitSide(vec, keys, rs, rk, crc);
  }

  lemma {:induction false} SplitSide(vec: seq<Tree>, keys: seq<LKey>, side: seq<nat>, key: LKey, crc: Crc)
    requires forall i {:trigger vec[i]} :: 1 <= i < |vec| ==> vec[i].WellBuilt(crc)
    requires keys == Keys(vec) && LKeyOk(key) && Within(keys, side)
    ensures Tree.Inner(key, Chosen(vec, side)).WellBuilt(crc) <==> SideSpanned(crc, keys, side, key)
  {
    var cs := Chosen(vec, side);
    forall i | 0 <= i < |cs|
      ensures cs[i].WellBuilt(crc) && (Spans(crc, key, cs[i].Key()) <==> Spans(crc, key, keys[side[i]]))
    {
      assert 1 <= side[i] < |vec| && keys[side[i]] == cs[i].Key();
    }
  }
}
