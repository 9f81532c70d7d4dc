/** Label paths: the order ltree_compare gives, ancestry, and the lowest common ancestor. */
module LTree {
  import opened Wrappers
  import opened Bytes
  import opened Machine

  type Label = seq<Byte>
  type Path = seq<Label>

  /** What the stored form can hold: a 16-bit level count, labels of at most 255 characters of four bytes. */
  ghost predicate IsPath(p: Path) {
    |p| <= 0xffff && forall i :: 0 <= i < |p| ==> |p[i]| <= 1020
  }

  // The order

  /** Paths compared label by label, an ancestor before its descendants; as a sign. */
  function PathCmp(a: Path, b: Path): int {
    if a == [] then (if b == [] then 0 else -1)
    else if b == [] then 1
    else if Lex(a[0], b[0]) != 0 then Lex(a[0], b[0])
    else PathCmp(a[1..], b[1..])
  }

  lemma {:induction false} PathOpposite(a: Path, b: Path)
    ensures PathCmp(a, b) == -PathCmp(b, a)
    ensures PathCmp(a, b) == 0 <==> a == b
  {
    if a != [] && b != [] {
      LexOpposite(a[0], b[0]);
      PathOpposite(a[1..], b[1..]);
      assert a == [a[0]] + a[1..] && b == [b[0]] + b[1..];
    }
  }

  lemma {:induction false} PathTransitive(a: Path, b: Path, c: Path)
    requires PathCmp(a, b) <= 0 && PathCmp(b, c) <= 0
    ensures PathCmp(a, c) <= 0
    ensures PathCmp(a, b) < 0 || PathCmp(b, c) < 0 ==> PathCmp(a, c) < 0
  {
    if a != [] && b != [] && c != [] {
      LexTransitive(a[0], b[0], c[0]);
      LexOpposite(a[0], b[0]);
      LexOpposite(b[0], c[0]);
      if Lex(a[0], b[0]) == 0 && Lex(b[0], c[0]) == 0 {
        PathTransitive(a[1..], b[1..], c[1..]);
      }
    }
  }

  /** a is an ancestor of b, or where they first differ its label comes first in the order of dictionaries. */
  ghost predicate PathBefore(a: Path, b: Path) {
    a < b || exists k: nat {:trigger DifferAt(a, b, k)} :: DifferAt(a, b, k) && Precedes(a[k], b[k])
  }

  lemma {:induction false} PathMeans(a: Path, b: Path)
    ensures PathCmp(a, b) < 0 <==> PathBefore(a, b)
  {
    if a != [] && b != [] {
      LexMeans(a[0], b[0]);
      LexOpposite(a[0], b[0]);
      if a[0] != b[0] {
        assert DifferAt(a, b, 0);
        forall k: nat | DifferAt(a, b, k) ensures k == 0 { if k > 0 { DifferLater(a, b, k); } }
      } else {
        var c, d := a[1..], b[1..];
        PathMeans(c, d);
        PrefixCons(a, b);
        if k: nat :| DifferAt(c, d, k) && Precedes(c[k], d[k]) { DifferCons(a, b, k); }
        if k: nat :| DifferAt(a, b, k) && Precedes(a[k], b[k]) { DifferCons(a, b, k - 1); }
      }
    }
  }

  // ltree_compare

  function Min(x: nat, y: nat): nat { if x < y then x else y }

  /** ltree_compare from level k on. */
  function CompareAt(a: Path, b: Path, k: nat): int
    requires k <= |a| && k <= |b|
    decreases |a| - k
  {
    var an := |a| - k;
    if k < |a| && k < |b| then
      var res := CompareN(a[k], b[k], Min(|a[k]|, |b[k]|));
      if res != 0 then Wrap32(res * 10 * (an + 1))
      else if |a[k]| != |b[k]| then Wrap32((|a[k]| - |b[k]|) * 10 * (an + 1))
      else CompareAt(a, b, k + 1)
    else Wrap32((|a| - |b|) * 10 * (an + 1))
  }

  function Compare(a: Path, b: Path): int { CompareAt(a, b, 0) }

  predicate SameSign(x: int, y: int) {
    (x < 0 <==> y < 0) && (x > 0 <==> y > 0)
  }

  lemma Product(x: int, n: nat)
    requires 1 <= x <= 1020 && 1 <= n <= 0x1_0000
    ensures 1 <= x * n <= 1020 * 0x1_0000
  {
    assert 1 <= n <= x * n <= 1020 * n;
  }

  lemma Scaled(x: int, n: nat)
    requires -1020 <= x <= 1020 && 1 <= n <= 0x1_0000
    ensures SameSign(Wrap32(x * 10 * n), x)
  {
    var y := x * n;
    assert x * 10 * n == 10 * y;
    if x > 0 {
      Product(x, n);
    } else if x < 0 {
      Product(-x, n);
      assert (-x) * n == -y;
    }
    WrapSmall(10 * y);
  }

  /** What the last line computes when b ran out d levels before a. */
  function Depth(d: int): int { Wrap32(d * 10 * (d + 1)) }

  /** b is a proper ancestor of a. */
  predicate Above(b: Path, a: Path) { b < a }

  /** The result at the first level that differs. */
  function LevelResult(x: Label, y: Label, n: nat): int {
    var res := CompareN(x, y, Min(|x|, |y|));
    if res != 0 then Wrap32(res * 10 * n) else Wrap32((|x| - |y|) * 10 * n)
  }

  lemma {:induction false} LevelSign(x: Label, y: Label, n: nat)
    requires |x| <= 1020 && |y| <= 1020 && 1 <= n <= 0x1_0000
    ensures SameSign(LevelResult(x, y, n), Lex(x, y))
  {
    var m := Min(|x|, |y|);
    LexByCommonLength(x, y);
    LexIsSign(x[..m], y[..m]);
    Scaled(CompareN(x, y, m), n);
    Scaled(|x| - |y|, n);
  }

  lemma SameLabel(x: Label, y: Label)
    ensures CompareN(x, y, Min(|x|, |y|)) == 0 && |x| == |y| <==> x == y
  {
    LexByCommonLength(x, y);
    LexOpposite(x, y);
  }

  lemma {:induction false} LevelDiffers(a: Path, b: Path, k: nat)
    requires IsPath(a) && IsPath(b) && k < |a| && k < |b| && a[k] != b[k]
    ensures SameSign(CompareAt(a, b, k), PathCmp(a[k..], b[k..]))
    ensures !Above(b[k..], a[k..])
  {
    SameLabel(a[k], b[k]);
    assert CompareAt(a, b, k) == LevelResult(a[k], b[k], |a| - k + 1);
    LevelSign(a[k], b[k], |a| - k + 1);
    LexOpposite(a[k], b[k]);
    assert a[k..][0] == a[k] && b[k..][0] == b[k];
  }

  lemma {:induction false} CompareFrom(a: Path, b: Path, k: nat)
    requires IsPath(a) && IsPath(b) && k <= |a| && k <= |b|
    ensures Above(b[k..], a[k..]) ==> CompareAt(a, b, k) == Depth(|a| - |b|)
    ensures !Above(b[k..], a[k..]) ==> SameSign(CompareAt(a, b, k), PathCmp(a[k..], b[k..]))
    decreases |a| - k
  {
    if k < |a| && k < |b| {
      if a[k] == b[k] {
        CompareFrom(a, b, k + 1);
        LexOpposite(a[k], b[k]);
        SameLabel(a[k], b[k]);
        assert a[k..] == [a[k]] + a[k + 1..] && b[k..] == [b[k]] + b[k + 1..];
        assert Above(b[k..], a[k..]) <==> Above(b[k + 1..], a[k + 1..]);
      } else {
        LevelDiffers(a, b, k);
      }
    } else if k == |a| {
      WrapSmall((|a| - |b|) * 10 * 1);
    }
  }

  /**
    The sign of ltree_compare is the order of paths exactly when the 32-bit product
    of its last line keeps its sign, whenever that line is reached with levels left.
   */
  lemma {:induction false} CompareCorrect(a: Path, b: Path)
    requires IsPath(a) && IsPath(b)
    ensures SameSign(Compare(a, b), PathCmp(a, b)) <==> !(Above(b, a) && Depth(|a| - |b|) <= 0)
  {
    CompareFrom(a, b, 0);
    assert a[0..] == a && b[0..] == b;
    if Above(b, a) { DescendantAfter(b, a); }
  }

  /** a lies so far below its ancestor b that comparing it with b comes out with the wrong sign. */
  predicate Deep(a: Path, b: Path) { Above(b, a) && Depth(|a| - |b|) <= 0 }

  /** All tests of a result against zero, at every depth. */
  lemma {:induction false} CompareSigns(a: Path, b: Path)
    requires IsPath(a) && IsPath(b)
    ensures Compare(a, b) > 0 <==> PathCmp(a, b) > 0 && !Deep(a, b)
    ensures Compare(a, b) < 0 <==> PathCmp(a, b) < 0 || Deep(a, b)
    ensures Compare(a, b) == 0 <==> a == b
    ensures PathCmp(a, b) == -PathCmp(b, a) && (PathCmp(a, b) == 0 <==> a == b)
  {
    CompareCorrect(a, b);
    CompareZero(a, b);
    PathOpposite(a, b);
    if Deep(a, b) {
      CompareFrom(a, b, 0);
      assert a[0..] == a && b[0..] == b;
      DescendantAfter(b, a);
    }
  }

  lemma {:induction false} DescendantAfter(b: Path, a: Path)
    requires Above(b, a)
    ensures PathCmp(a, b) > 0
  {
    if b != [] {
      LexOpposite(a[0], b[0]);
      assert a[0] == b[0];
      DescendantAfter(b[1..], a[1..]);
    }
  }

  const SAFE_DEPTH := 14653

  /** No product overflows while level counts differ by at most 14653; one more and it turns negative. */
  lemma DepthLimit(d: int)
    ensures 1 <= d <= SAFE_DEPTH ==> Depth(d) > 0
    ensures d == SAFE_DEPTH + 1 ==> Depth(d) < 0
  {
    if 1 <= d <= SAFE_DEPTH {
      Quadratic(d, SAFE_DEPTH);
      WrapSmall(d * 10 * (d + 1));
    }
  }

  lemma Quadratic(d: int, e: int)
    requires 0 <= d <= e
    ensures 0 <= d * (d + 1) <= e * (e + 1) && d * 10 * (d + 1) == 10 * (d * (d + 1))
  {
    assert d * (d + 1) <= e * (d + 1) <= e * (e + 1);
  }

  /** A path of 14654 levels compares as smaller than the empty path above it. */
  lemma {:induction false} DeepComparesWrong(a: Path)
    requires |a| == SAFE_DEPTH + 1 && IsPath(a)
    ensures Compare(a, []) < 0 < PathCmp(a, [])
  {
    CompareFrom(a, [], 0);
    assert a[0..] == a;
    DepthLimit(|a|);
  }

  /** Zero means equal paths, at every depth. */
  lemma CompareZero(a: Path, b: Path)
    requires IsPath(a) && IsPath(b)
    ensures Compare(a, b) == 0 <==> a == b
  {
    CompareFrom(a, b, 0);
    PathOpposite(a, b);
    assert a[0..] == a && b[0..] == b;
    if Above(b, a) { DepthNotZero(|a| - |b|); }
  }

  lemma DepthNotZero(d: int)
    requires 1 <= d <= 0xffff
    ensures Depth(d) != 0
  {
    var x := d * (d + 1);
    Quadratic(d, 0xffff);
    if d <= 46340 { Quadratic(d, 46340); } else { Quadratic(46341, d); }
    assert d * 10 * (d + 1) == 10 * x;
    if Depth(d) == 0 {
      NoMultiple(x);
    }
  }

  lemma NoMultiple(x: int)
    requires 1 <= x <= 0xffff * 0x1_0000 && (x <= 46340 * 46341 || 46341 * 46342 <= x)
    ensures Wrap32(10 * x) != 0
  {
  }

  /** What the sign of ltree_compare says of two paths. */
  lemma {:induction false} CompareMeans(a: Path, b: Path)
    requires IsPath(a) && IsPath(b)
    ensures Compare(a, b) < 0 <==> PathBefore(a, b) || Deep(a, b)
    ensures Compare(a, b) > 0 <==> PathBefore(b, a) && !Deep(a, b)
  {
    CompareSigns(a, b);
    PathMeans(a, b);
    PathMeans(b, a);
  }

  /** The sign tells which path comes first, except that a path too far below the other one comes before it. */
  ghost predicate SignMeans(a: Path, b: Path, res: int) {
    IsPath(a) && IsPath(b) ==>
      (res < 0 <==> PathBefore(a, b) || Deep(a, b)) && (res > 0 <==> PathBefore(b, a) && !Deep(a, b))
  }

  lemma SignOf(a: Path, b: Path)
    ensures SignMeans(a, b, Compare(a, b))
  {
    if IsPath(a) && IsPath(b) { CompareMeans(a, b); }
  }

  /** ltree_compare, level by level. */
  method LTreeCompare(a: Path, b: Path) returns (res: int)
    ensures res == Compare(a, b)
    ensures SignMeans(a, b, res)
  {
    SignOf(a, b);
    var an, bn, k := |a|, |b|, 0;
    while an > 0 && bn > 0
      invariant 0 <= k <= |a| && k <= |b| && an == |a| - k && bn == |b| - k
      invariant Compare(a, b) == CompareAt(a, b, k)
    {
      res := CompareN(a[k], b[k], Min(|a[k]|, |b[k]|));
      if res == 0 {
        if |a[k]| != |b[k]| {
          return Wrap32((|a[k]| - |b[k]|) * 10 * (an + 1));
        }
      } else {
        return Wrap32(res * 10 * (an + 1));
      }
      an, bn, k := an - 1, bn - 1, k + 1;
    }
    return Wrap32((|a| - |b|) * 10 * (an + 1));
  }

  /** One label against another, as inner_isparent and lca_inner test them. */
  predicate LabelEq(x: Label, y: Label) { |x| == |y| && CompareN(x, y, |x|) == 0 }

  lemma LabelEqIs(x: Label, y: Label)
    ensures LabelEq(x, y) <==> x == y
  {
    if |x| == |y| { LexOpposite(x[..|x|], y[..|x|]); }
  }

  /** inner_isparent: p is c or one of its ancestors. */
  method IsParent(c: Path, p: Path) returns (r: bool)
    ensures r <==> p <= c
  {
    if |p| > |c| {
      return false;
    }
    var i := 0;
    while i < |p|
      invariant 0 <= i <= |p| && p[..i] == c[..i]
    {
      LabelEqIs(c[i], p[i]);
      if !LabelEq(c[i], p[i]) {
        return false;
      }
      i := i + 1;
    }
    return true;
  }

  /** Proper ancestor of each of the first n paths. */
  ghost predicate AboveAll(q: Path, a: seq<Path>, n: nat)
    requires n <= |a|
  {
    forall i {:trigger Above(q, a[i])} :: 0 <= i < n ==> Above(q, a[i])
  }

  /** How far two paths agree, up to a limit. */
  method Agree(a: Path, b: Path, limit: nat) returns (num: nat)
    requires limit <= |a| && limit <= |b|
    ensures num <= limit && a[..num] == b[..num]
    ensures num < limit ==> a[num] != b[num]
  {
    num := 0;
    for i := 0 to limit
      invariant num == i && a[..num] == b[..num]
    {
      LabelEqIs(a[i], b[i]);
      if LabelEq(a[i], b[i]) {
        num := i + 1;
      } else {
        break;
      }
    }
  }

  /** num labels of the first path are above the first n paths, and no more are. */
  ghost predicate Lowest(num: nat, a: seq<Path>, n: nat)
    requires 1 <= n <= |a|
  {
    && num <= |a[0]| && AboveAll(a[0][..num], a, n)
    && forall q: Path {:trigger AboveAll(q, a, n)} :: AboveAll(q, a, n) ==> q <= a[0][..num]
  }

  lemma LowestStep(a: seq<Path>, n: nat, num: nat, num': nat)
    requires 1 <= n < |a| && Lowest(num, a, n) && num' <= num && num' < |a[n]| && a[0][..num'] == a[n][..num']
    requires num' < num && num' < |a[n]| - 1 ==> a[0][num'] != a[n][num']
    ensures Lowest(num', a, n + 1)
  {
    var p := a[0][..num'];
    forall i | 0 <= i < n + 1 ensures Above(p, a[i]) {
      if i < n { assert Above(a[0][..num], a[i]); }
    }
    var m := n + 1;
    forall q: Path {:trigger AboveAll(q, a, m)} | AboveAll(q, a, m) ensures q <= p {
      forall i | 0 <= i < n ensures Above(q, a[i]) { assert i < m; }
      assert AboveAll(q, a, n);
      assert Above(q, a[n]) by { assert n < m; }
      NoLonger(q, a[0], a[n], num, num');
    }
  }

  lemma NoLonger(q: Path, x: Path, y: Path, num: nat, num': nat)
    requires num <= |x| && num' <= num && num' < |y| && q <= x[..num] && Above(q, y)
    requires num' < num && num' < |y| - 1 ==> x[num'] != y[num']
    ensures q <= x[..num']
  {
  }

  lemma LowestOne(a: seq<Path>)
    requires a != [] && a[0] != []
    ensures Lowest(|a[0]| - 1, a, 1)
  {
    forall q: Path {:trigger AboveAll(q, a, 1)} | AboveAll(q, a, 1) ensures q <= a[0][..|a[0]| - 1] {
      assert Above(q, a[0]);
    }
  }

  /** lca_inner: none if some path is empty, else the longest path properly above all. */
  method Lca(a: seq<Path>) returns (res: Option<Path>)
    requires a != []
    ensures res.None? <==> [] in a
    ensures res.Some? ==> AboveAll(res.value, a, |a|)
    ensures res.Some? ==> forall q: Path {:trigger AboveAll(q, a, |a|)} :: AboveAll(q, a, |a|) ==> q <= res.value
  {
    if a[0] == [] {
      return None;
    }
    var num: nat := |a[0]| - 1;
    LowestOne(a);
    for n := 1 to |a|
      invariant Lowest(num, a, n) && num < |a[0]| && forall i :: 0 <= i < n ==> a[i] != []
    {
      if a[n] == [] {
        return None;
      } else if |a[n]| == 1 {
        LowestStep(a, n, num, 0);
        num := 0;
      } else {
        var num' := Agree(a[0], a[n], Min(num, |a[n]| - 1));
        LowestStep(a, n, num, num');
        num := num';
      }
    }
    return Some(a[0][..num]);
  }
}
