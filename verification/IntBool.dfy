/** Boolean queries over integer arrays: postfix items linked by findoprnd and evaluated by execute. */
module IntBool {
  import opened Sorting
  import opened Signature
  import opened IntArray

  const NOT := 33  // '!'
  const AND := 38  // '&'
  const OR := 124  // '|'

  datatype Kind = VAL | OPR
  datatype Item = Item(kind: Kind, left: int, val: int)

  /** What a query means. */
  datatype Query = Val(v: int) | Not(p: Query) | Bin(op: Op, l: Query, r: Query)
  datatype Op = And | Or

  function Code(op: Op): int { if op.And? then AND else OR }

  type Member = int -> bool

  /** Truth of a query; without calcnot every negation counts as possibly true. */
  ghost predicate Value(q: Query, m: Member, calcnot: bool) {
    match q
    case Val(v) => m(v)
    case Not(p) => calcnot ==> !Value(p, m, calcnot)
    case Bin(And, l, r) => Value(l, m, calcnot) && Value(r, m, calcnot)
    case Bin(Or, l, r) => Value(l, m, calcnot) || Value(r, m, calcnot)
  }

  ghost function Size(q: Query): nat {
    match q
    case Val(_) => 1
    case Not(p) => Size(p) + 1
    case Bin(_, l, r) => Size(l) + Size(r) + 1
  }

  ghost predicate IsOpr(i: Item, op: int) { i.kind == OPR && i.val == op }

  /** s is the postfix form of q, whatever its links hold. */
  ghost predicate Spells(s: seq<Item>, q: Query)
    decreases |s|, 0
  {
    |s| == Size(q) &&
    match q
    case Val(v) => s[0].kind == VAL && s[0].val == v
    case Not(p) => IsOpr(s[|s| - 1], NOT) && Spells(s[..|s| - 1], p)
    case Bin(op, l, r) => IsOpr(s[|s| - 1], Code(op)) && SpellsBoth(s[..|s| - 1], l, r)
  }

  ghost predicate SpellsBoth(s: seq<Item>, l: Query, r: Query)
    decreases |s|, 1
  {
    |s| == Size(l) + Size(r) && Size(l) > 0 && Size(r) > 0 && Spells(s[..Size(l)], l) && Spells(s[Size(l)..], r)
  }

  /** The stored link field has 16 bits. */
  function Int16(x: int): int { (x + 0x8000) % 0x1_0000 - 0x8000 }

  /** Postfix form with links. */
  ghost function Linked(q: Query): (s: seq<Item>)
    ensures |s| == Size(q)
  {
    match q
    case Val(v) => [Item(VAL, 0, v)]
    case Not(p) => Linked(p) + [Item(OPR, -1, NOT)]
    case Bin(op, l, r) => Linked(l) + Linked(r) + [Item(OPR, Int16(-1 - Size(r)), Code(op))]
  }

  /** No right operand is longer than a link can reach over. */
  ghost predicate Reachable(q: Query) {
    match q
    case Val(_) => true
    case Not(p) => Reachable(p)
    case Bin(_, l, r) => Reachable(l) && Reachable(r) && Size(r) < 0x8000
  }

  lemma {:induction false} SizePositive(q: Query)
    ensures Size(q) >= 1
  {
  }

  /** Postfix is unambiguous: items that end at one place spell one query there. */
  lemma {:induction false} SpellsOne(x: seq<Item>, s: seq<Item>, q: Query, y: seq<Item>, u: seq<Item>, t: Query)
    requires x + s == y + u && Spells(s, q) && Spells(u, t)
    ensures s == u && q == t
    decreases |s|, 1
  {
    SizePositive(q);
    SizePositive(t);
    var s', u' := s[..|s| - 1], u[..|u| - 1];
    CutLast(x, s, y, u);
    assert s == s' + [s[|s| - 1]];
    match q
    case Val(_) => assert t.Val?;
    case Not(p) =>
      assert t.Not?;
      SpellsOne(x, s', p, y, u', t.p);
    case Bin(_, l, r) =>
      assert t.Bin?;
      SpellsPair(x, s', l, r, y, u', t.l, t.r);
  }

  lemma CutLast(x: seq<Item>, s: seq<Item>, y: seq<Item>, u: seq<Item>)
    requires x + s == y + u && s != [] && u != []
    ensures s[|s| - 1] == u[|u| - 1] && x + s[..|s| - 1] == y + u[..|u| - 1]
  {
    var w := x + s;
    assert w[|w| - 1] == s[|s| - 1] == u[|u| - 1];
    assert w[..|w| - 1] == x + s[..|s| - 1];
    assert w[..|w| - 1] == y + u[..|u| - 1];
  }

  lemma {:induction false} SpellsPair(x: seq<Item>, s: seq<Item>, l: Query, r: Query, y: seq<Item>, u: seq<Item>,
                                      tl: Query, tr: Query)
    requires x + s == y + u && SpellsBoth(s, l, r) && SpellsBoth(u, tl, tr)
    ensures s == u && l == tl && r == tr
    decreases |s|, 2
  {
    var sl, sr, ul, ur := s[..Size(l)], s[Size(l)..], u[..Size(tl)], u[Size(tl)..];
    SizePositive(l);
    SizePositive(r);
    assert s == sl + sr && u == ul + ur;
    assert x + s == (x + sl) + sr && y + u == (y + ul) + ur;
    SpellsOne(x + sl, sr, r, y + ul, ur, tr);
    CutTail(x + sl, y + ul, sr);
    SpellsOne(x, sl, l, y, ul, tl);
  }

  lemma CutTail(a: seq<Item>, b: seq<Item>, c: seq<Item>)
    requires a + c == b + c
    ensures a == b
  {
    assert a == (a + c)[..|a|];
    assert b == (b + c)[..|b|];
  }

  // findoprnd

  /** The array holds pre, then the items of q, then post, with pos at the last item of q. */
  ghost predicate Around(a: seq<Item>, pre: seq<Item>, s: seq<Item>, post: seq<Item>, pos: int) {
    a == pre + s + post && pos == |pre| + |s| - 1
  }

  /** findoprnd: links the query that ends at pos and leaves pos before its first item. */
  method FindOprnd(ptr: array<Item>, pos: int, ghost pre: seq<Item>, ghost s: seq<Item>, ghost post: seq<Item>,
                   ghost q: Query)
    returns (p: int)
    requires Around(ptr[..], pre, s, post, pos) && Spells(s, q)
    modifies ptr
    ensures p == |pre| - 1 && ptr[..] == pre + Linked(q) + post
    decreases |s|
  {
    SizePositive(q);
    ghost var op, s' := s[|s| - 1], s[..|s| - 1];
    assert s == s' + [op];
    JoinOne(pre, s', op, post);
    assert ptr[pos] == op by { assert ptr[..][pos] == op; }
    if ptr[pos].kind == VAL {
      Relink(ptr, pos, 0, pre + s', post);
      assert s' == [];
      p := pos - 1;
    } else if ptr[pos].val == NOT {
      var link := Item(OPR, -1, NOT);
      Relink(ptr, pos, -1, pre + s', post);
      JoinOne(pre, s', link, post);
      p := FindOprnd(ptr, pos - 1, pre, s', [link] + post, q.p);
      JoinOne(pre, Linked(q.p), link, post);
    } else {
      p := FindBoth(ptr, pos, pre, s', op, post, q.l, q.r);
      JoinBoth(pre, Linked(q.l), Linked(q.r), Item(OPR, Int16(-1 - Size(q.r)), Code(q.op)), post);
    }
  }

  lemma JoinOne(pre: seq<Item>, s: seq<Item>, op: Item, post: seq<Item>)
    ensures pre + (s + [op]) + post == (pre + s) + [op] + post
    ensures pre + (s + [op]) + post == pre + s + ([op] + post)
  {
  }

  lemma JoinBoth(pre: seq<Item>, l: seq<Item>, r: seq<Item>, op: Item, post: seq<Item>)
    ensures pre + l + (r + [op] + post) == pre + (l + r + [op]) + post
  {
  }

  method Relink(ptr: array<Item>, pos: int, left: int, ghost before: seq<Item>, ghost post: seq<Item>)
    requires 0 <= pos < ptr.Length && pos == |before| && ptr[..] == before + [ptr[pos]] + post
    modifies ptr
    ensures ptr[..] == before + [old(ptr[pos]).(left := left)] + post
  {
    ptr[pos] := ptr[pos].(left := left);
  }

  method FindBoth(ptr: array<Item>, pos: int, ghost pre: seq<Item>, ghost s: seq<Item>, ghost op: Item,
                  ghost post: seq<Item>, ghost l: Query, ghost r: Query) returns (p: int)
    requires op.kind == OPR && ptr[..] == pre + s + [op] + post && pos == |pre| + |s| && SpellsBoth(s, l, r)
    modifies ptr
    ensures p == |pre| - 1
    ensures ptr[..] == pre + Linked(l) + (Linked(r) + [Item(OPR, Int16(-1 - Size(r)), op.val)] + post)
    decreases |s|, 1
  {
    ghost var sl, sr := s[..Size(l)], s[Size(l)..];
    assert pre + s + [op] + post == (pre + sl) + sr + ([op] + post);
    p := FindOprnd(ptr, pos - 1, pre + sl, sr, [op] + post, r);
    ghost var done := pre + sl + Linked(r);
    assert pre + sl + Linked(r) + ([op] + post) == done + [op] + post;
    assert ptr[pos] == op by { assert ptr[..][pos] == op; }
    Relink(ptr, pos, Int16(p - pos), done, post);
    ghost var post' := Linked(r) + [Item(OPR, Int16(-1 - Size(r)), op.val)] + post;
    assert done + [Item(OPR, Int16(p - pos), op.val)] + post == pre + sl + post';
    p := FindOprnd(ptr, p, pre, sl, post', l);
  }

  /** On a whole query findoprnd consumes every item. */
  method LinkQuery(ptr: array<Item>, ghost q: Query)
    requires Spells(ptr[..], q)
    modifies ptr
    ensures ptr[..] == Linked(q)
  {
    assert ptr[..] == [] + ptr[..] + [];
    var pos := FindOprnd(ptr, ptr.Length - 1, [], ptr[..], [], q);
    assert pos == -1;
    assert [] + Linked(q) + [] == Linked(q);
  }

  // execute

  /** The check functions execute is given, with what they look at. */
  datatype Check = InArray(a: seq<int>) | InSign(sign: Sign) | InMap(mapped: seq<bool>)

  const SIGLEN := 252 // sizeof(int) * SIGLENINT
  const SIGLENBIT := 2016

  /** HASHVAL: the value as an unsigned 32-bit number, modulo the signature's bits. */
  function HashVal(v: int): nat { HashIndex(v % 0x1_0000_0000, SIGLENBIT) }

  ghost predicate CheckOk(c: Check, n: nat) {
    match c
    case InArray(a) => Ascending(a)
    case InSign(sign) => |sign| == SIGLEN
    case InMap(mapped) => |mapped| == n
  }

  ghost predicate Passes(c: Check, items: seq<Item>, i: nat)
    requires i < |items| && CheckOk(c, |items|)
  {
    match c
    case InArray(a) => items[i].val in a
    case InSign(sign) => GetBit(sign, HashVal(items[i].val))
    case InMap(mapped) => mapped[i]
  }

  /** checkcondition_arr: binary search. */
  method Search(a: seq<int>, v: int) returns (r: bool)
    requires Ascending(a)
    ensures r <==> v in a
  {
    var lo, hi := 0, |a|;
    while lo < hi
      invariant 0 <= lo <= hi <= |a|
      invariant forall i :: 0 <= i < lo ==> a[i] < v
      invariant forall i :: hi <= i < |a| ==> a[i] > v
    {
      var mid := lo + (hi - lo) / 2;
      if a[mid] == v {
        return true;
      } else if a[mid] < v {
        lo := mid + 1;
      } else {
        hi := mid;
      }
    }
    return false;
  }

  method CheckCondition(c: Check, items: seq<Item>, i: nat) returns (r: bool)
    requires i < |items| && CheckOk(c, |items|)
    ensures r <==> Passes(c, items, i)
  {
    match c
    case InArray(a) => r := Search(a, items[i].val);
    case InSign(sign) => r := GetBit(sign, HashVal(items[i].val));
    case InMap(mapped) => r := mapped[i];
  }

  /** The check agrees with m at every operand among the items. */
  ghost predicate Agrees(c: Check, items: seq<Item>, m: Member)
    requires CheckOk(c, |items|)
  {
    forall i {:trigger Passes(c, items, i)} :: 0 <= i < |items| && items[i].kind == VAL ==>
      (Passes(c, items, i) <==> m(items[i].val))
  }

  /** Before item cur stand pre and the linked form of q, whose last item it is. */
  ghost predicate EndsAt(items: seq<Item>, cur: int, pre: seq<Item>, q: Query) {
    0 <= cur < |items| && items[..cur + 1] == pre + Linked(q)
  }

  lemma EndsLast(items: seq<Item>, cur: int, pre: seq<Item>, s: seq<Item>, last: Item)
    requires 0 <= cur < |items| && items[..cur + 1] == pre + (s + [last])
    ensures cur == |pre| + |s| && items[cur] == last && items[..cur] == pre + s
  {
    assert items[cur] == items[..cur + 1][cur] == last;
    assert items[..cur] == items[..cur + 1][..cur] == pre + s;
  }

  lemma EndsBoth(items: seq<Item>, cur: int, pre: seq<Item>, q: Query)
    requires q.Bin? && EndsAt(items, cur, pre, q)
    ensures items[cur] == Item(OPR, Int16(-1 - Size(q.r)), Code(q.op))
    ensures EndsAt(items, cur - 1, pre + Linked(q.l), q.r) && EndsAt(items, cur - 1 - Size(q.r), pre, q.l)
  {
    var l, r := Linked(q.l), Linked(q.r);
    SizePositive(q.l);
    SizePositive(q.r);
    EndsLast(items, cur, pre, l + r, Item(OPR, Int16(-1 - Size(q.r)), Code(q.op)));
    assert items[..cur] == (pre + l) + r;
    var k := |pre + l|;
    assert items[..k] == items[..cur][..k] == pre + l;
  }

  /** execute: through the links, the value of the query. */
  method Execute(items: seq<Item>, cur: int, c: Check, calcnot: bool, ghost pre: seq<Item>, ghost q: Query,
                 ghost m: Member)
    returns (r: bool)
    requires EndsAt(items, cur, pre, q) && Reachable(q) && CheckOk(c, |items|) && Agrees(c, items, m)
    ensures r <==> Value(q, m, calcnot)
    decreases q
  {
    if q.Val? { EndsLast(items, cur, pre, [], Item(VAL, 0, q.v)); }
    if q.Not? { EndsLast(items, cur, pre, Linked(q.p), Item(OPR, -1, NOT)); SizePositive(q.p); }
    if q.Bin? { EndsBoth(items, cur, pre, q); }
    var item := items[cur];
    if item.kind == VAL {
      r := CheckCondition(c, items, cur);
    } else if item.val == NOT {
      if calcnot {
        var x := Execute(items, cur - 1, c, calcnot, pre, q.p, m);
        r := !x;
      } else {
        r := true;
      }
    } else if item.val == AND {
      r := Execute(items, cur + item.left, c, calcnot, pre, q.l, m);
      if r {
        r := Execute(items, cur - 1, c, calcnot, pre + Linked(q.l), q.r, m);
      }
    } else {
      r := Execute(items, cur + item.left, c, calcnot, pre, q.l, m);
      if !r {
        r := Execute(items, cur - 1, c, calcnot, pre + Linked(q.l), q.r, m);
      }
    }
  }

  // What the operators and the index methods answer

  /** signconsistent, execconsistent and the tail of ginconsistent: execute from the last item. */
  method Consistent(items: seq<Item>, c: Check, calcnot: bool, ghost q: Query, ghost m: Member) returns (r: bool)
    requires items == Linked(q) && Reachable(q) && CheckOk(c, |items|) && Agrees(c, items, m)
    ensures r <==> Value(q, m, calcnot)
  {
    SizePositive(q);
    assert items[..|items|] == [] + Linked(q);
    r := Execute(items, |items| - 1, c, calcnot, [], q, m);
  }

  ghost function In(s: seq<int>): Member { v => v in s }

  /** boolop */
  method BoolOp(val: seq<int>, items: seq<Item>, ghost q: Query) returns (r: bool)
    requires items == Linked(q) && Reachable(q)
    ensures r <==> val != [] && Value(q, In(val), true)
  {
    if val == [] {
      return false;
    }
    var a := Copy(val);
    var n := Prepare(a);
    var s := a[..n];
    forall v ensures v in s <==> v in val {
      assert v in s <==> v in Elems(s);
      assert v in val <==> v in Elems(val);
    }
    r := Consistent(items, InArray(s), true, q, In(val));
  }

  /** The operands among the first k items, in order. */
  ghost function Operands(items: seq<Item>, k: nat): seq<int>
    requires k <= |items|
  {
    if k == 0 then [] else
      Operands(items, k - 1) + if items[k - 1].kind == VAL then [items[k - 1].val] else []
  }

  lemma {:induction false} OperandAt(items: seq<Item>, i: nat, k: nat)
    requires i < k <= |items| && items[i].kind == VAL
    ensures |Operands(items, i)| < |Operands(items, k)| && Operands(items, k)[|Operands(items, i)|] == items[i].val
  {
    if i < k - 1 { OperandAt(items, i, k - 1); }
  }

  /** ginconsistent: check answers for the operands in the order ginint4_queryextract lists them. */
  method GinConsistent(items: seq<Item>, check: seq<bool>, ghost q: Query, ghost m: Member) returns (r: bool)
    requires items == Linked(q) && Reachable(q) && |check| == |Operands(items, |items|)|
    requires forall j :: 0 <= j < |check| ==> (check[j] <==> m(Operands(items, |items|)[j]))
    ensures r <==> Value(q, m, true)
  {
    var mapped := new bool[|items|];
    var j := 0;
    for i := 0 to |items|
      invariant j == |Operands(items, i)| <= |check|
      invariant forall k :: 0 <= k < i && items[k].kind == VAL ==> (mapped[k] <==> m(items[k].val))
    {
      if items[i].kind == VAL {
        OperandAt(items, i, |items|);
        mapped[i] := check[j];
        j := j + 1;
      }
    }
    r := Consistent(items, InMap(mapped[..]), true, q, m);
  }

  /** The inverted index and the operator agree on every array that is not empty. */
  method GinAgrees(val: seq<int>, items: seq<Item>, check: seq<bool>, ghost q: Query) returns (g: bool, b: bool)
    requires items == Linked(q) && Reachable(q) && |check| == |Operands(items, |items|)|
    requires forall j :: 0 <= j < |check| ==> (check[j] <==> Operands(items, |items|)[j] in val)
    ensures g == b <==> val != [] || !Value(q, In([]), true)
  {
    g := GinConsistent(items, check, q, In(val));
    b := BoolOp(val, items, q);
  }

  /** With negation ignored, a query true of a set stays possible for every larger set. */
  lemma {:induction false} Monotone(q: Query, m: Member, wider: Member, calcnot: bool)
    requires forall v :: m(v) ==> wider(v)
    requires Value(q, m, calcnot)
    ensures Value(q, wider, false)
  {
    match q
    case Val(_) =>
    case Not(_) =>
    case Bin(And, l, r) => Monotone(l, m, wider, calcnot); Monotone(r, m, wider, calcnot);
    case Bin(Or, l, r) =>
      if Value(l, m, calcnot) { Monotone(l, m, wider, calcnot); } else { Monotone(r, m, wider, calcnot); }
  }

  lemma Int16Exact(n: nat)
    ensures Int16(-1 - n) == -1 - n <==> n < 0x8000
  {
    if n < 0x8000 {
      assert 0 <= -1 - n + 0x8000 < 0x1_0000;
    }
  }

  /** A link is the distance to the left operand exactly when 16 bits can hold it. */
  lemma {:induction false} LinkExact(q: Query)
    requires q.Bin?
    ensures Linked(q)[|Linked(q)| - 1].left == -1 - Size(q.r) <==> Size(q.r) < 0x8000
  {
    Int16Exact(Size(q.r));
    var s := Linked(q.l) + Linked(q.r);
    assert (s + [Item(OPR, Int16(-1 - Size(q.r)), Code(q.op))])[|s|].left == Int16(-1 - Size(q.r));
  }

  /** Every query of at most 32768 items can be evaluated through its links. */
  lemma {:induction false} ShortIsReachable(q: Query)
    requires Size(q) <= 0x8000
    ensures Reachable(q)
  {
    match q
    case Val(_) =>
    case Not(p) => ShortIsReachable(p);
    case Bin(_, l, r) => ShortIsReachable(l); ShortIsReachable(r); SizePositive(l); SizePositive(r);
  }

  /** A value behind n negations. */
  function Chain(n: nat): Query {
    if n == 0 then Val(0) else Not(Chain(n - 1))
  }

  lemma {:induction false} ChainSize(n: nat)
    ensures Size(Chain(n)) == n + 1
  {
    if n > 0 { ChainSize(n - 1); }
  }

  /** From a right operand of 32768 items on, the link of a conjunction no longer points back. */
  lemma {:induction false} FarLink(n: nat)
    requires 0x7fff <= n < 0xffff
    ensures var q := Bin(And, Val(0), Chain(n));
      Size(q) == n + 3 && !Reachable(q) && Linked(q)[n + 2].left == 0xfffe - n
  {
    var q := Bin(And, Val(0), Chain(n));
    ChainSize(n);
    assert Int16(-1 - Size(q.r)) == 0xfffe - n;
    var s := Linked(q.l) + Linked(q.r);
    assert (s + [Item(OPR, Int16(-1 - Size(q.r)), Code(q.op))])[|s|].left == 0xfffe - n;
  }

  // What the operators of a query mean

  /** The values joined by one operator alone. */
  ghost predicate Joined(q: Query, op: Op) {
    match q
    case Val(_) => true
    case Not(_) => false
    case Bin(o, l, r) => o == op && Joined(l, op) && Joined(r, op)
  }

  ghost function Values(q: Query): set<int> {
    match q
    case Val(v) => {v}
    case Not(p) => Values(p)
    case Bin(_, l, r) => Values(l) + Values(r)
  }

  /** Values joined by & are all asked for. */
  lemma {:induction false} AndMeansAll(q: Query, x: seq<int>, calcnot: bool)
    requires Joined(q, And)
    ensures Value(q, In(x), calcnot) <==> Values(q) <= Elems(x)
  {
    if q.Bin? {
      AndMeansAll(q.l, x, calcnot);
      AndMeansAll(q.r, x, calcnot);
    }
  }

  /** Of values joined by | one is asked for. */
  lemma {:induction false} OrMeansSome(q: Query, x: seq<int>, calcnot: bool)
    requires Joined(q, Or)
    ensures Value(q, In(x), calcnot) <==> Values(q) * Elems(x) != {}
  {
    match q
    case Val(v) =>
      if v in x { assert v in Values(q) * Elems(x); }
    case Bin(_, l, r) =>
      OrMeansSome(l, x, calcnot);
      OrMeansSome(r, x, calcnot);
      assert Values(q) * Elems(x) == Values(l) * Elems(x) + Values(r) * Elems(x);
  }

  /** A negation holds exactly where its operand does not, or always when negation is ignored. */
  lemma {:induction false} NotMeansNot(q: Query, x: seq<int>)
    ensures Value(Not(q), In(x), true) <==> !Value(q, In(x), true)
    ensures Value(Not(q), In(x), false)
  {
  }

  /** The stored forms of u&v, u|v and !u: operands, then the operator's character and the way to its left operand. */
  lemma StoredForms(u: int, v: int)
    ensures Linked(Bin(And, Val(u), Val(v))) == [Item(VAL, 0, u), Item(VAL, 0, v), Item(OPR, -2, 38)]
    ensures Linked(Bin(Or, Val(u), Val(v))) == [Item(VAL, 0, u), Item(VAL, 0, v), Item(OPR, -2, 124)]
    ensures Linked(Not(Val(u))) == [Item(VAL, 0, u), Item(OPR, -1, 33)]
  {
    assert Int16(-2) == -2;
  }
}
