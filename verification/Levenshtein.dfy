/**
  The two-row dynamic program of levenshtein_internal, proved optimal among all
  edit scripts, and the metric laws that follow by reversing and composing scripts.
 */
module Levenshtein {
  import opened Wrappers
  import opened Bytes

  datatype Costs = Costs(ins: int, del: int, sub: int)

  /** One step of a left-to-right edit script; Match keeps a byte or substitutes it. */
  datatype Edit = Insert(c: Byte) | Delete(c: Byte) | Match(from: Byte, to: Byte) {
    function Reads(): seq<Byte> {
      match this
      case Insert(_) => []
      case Delete(c) => [c]
      case Match(f, _) => [f]
    }

    function Writes(): seq<Byte> {
      match this
      case Insert(c) => [c]
      case Delete(_) => []
      case Match(_, t) => [t]
    }

    function Price(k: Costs): int {
      match this
      case Insert(_) => k.ins
      case Delete(_) => k.del
      case Match(f, t) => if f == t then 0 else k.sub
    }
  }

  type Script = seq<Edit>

  function Init<T>(s: seq<T>): seq<T>
    requires |s| > 0
  {
    s[..|s| - 1]
  }

  function Last<T>(s: seq<T>): T
    requires |s| > 0
  {
    s[|s| - 1]
  }

  function Source(p: Script): seq<Byte> {
    if p == [] then [] else Source(Init(p)) + Last(p).Reads()
  }

  function Target(p: Script): seq<Byte> {
    if p == [] then [] else Target(Init(p)) + Last(p).Writes()
  }

  function Cost(p: Script, k: Costs): int {
    if p == [] then 0 else Cost(Init(p), k) + Last(p).Price(k)
  }

  ghost predicate Turns(p: Script, s: seq<Byte>, t: seq<Byte>) {
    Source(p) == s && Target(p) == t
  }

  /** r is the least cost of a script turning s into t. */
  ghost predicate IsLeastCost(r: int, s: seq<Byte>, t: seq<Byte>, k: Costs) {
    && (exists p :: Turns(p, s, t) && Cost(p, k) == r)
    && (forall p :: Turns(p, s, t) ==> r <= Cost(p, k))
  }

  function Min(a: int, b: int): int { if a < b then a else b }

  /** The notional full table: its entry for the prefixes of lengths i and j. */
  function Table(s: seq<Byte>, i: nat, t: seq<Byte>, j: nat, k: Costs): int
    requires i <= |s| && j <= |t|
  {
    if i == 0 && j == 0 then 0
    else if i == 0 then Table(s, i, t, j - 1, k) + k.ins
    else if j == 0 then Table(s, i - 1, t, j, k) + k.del
    else
      Min(Min(Table(s, i, t, j - 1, k) + k.ins, Table(s, i - 1, t, j, k) + k.del),
          Table(s, i - 1, t, j - 1, k) + if s[i - 1] == t[j - 1] then 0 else k.sub)
  }

  function Distance(s: seq<Byte>, t: seq<Byte>, k: Costs): int {
    Table(s, |s|, t, |t|, k)
  }

  lemma {:induction false} ExtendScript(p: Script, e: Edit, k: Costs)
    ensures Source(p + [e]) == Source(p) + e.Reads()
    ensures Target(p + [e]) == Target(p) + e.Writes()
    ensures Cost(p + [e], k) == Cost(p, k) + e.Price(k)
  {
    assert Init(p + [e]) == p;
  }

  lemma {:induction false} ExtendTo(p: Script, e: Edit, s: seq<Byte>, i: nat, t: seq<Byte>, j: nat)
    requires i <= |s| && j <= |t| && Turns(p, s[..i], t[..j])
    requires i + |e.Reads()| <= |s| && e.Reads() == s[i..i + |e.Reads()|]
    requires j + |e.Writes()| <= |t| && e.Writes() == t[j..j + |e.Writes()|]
    ensures Turns(p + [e], s[..i + |e.Reads()|], t[..j + |e.Writes()|])
  {
    ExtendScript(p, e, Costs(0, 0, 0));
    assert s[..i] + e.Reads() == s[..i + |e.Reads()|];
    assert t[..j] + e.Writes() == t[..j + |e.Writes()|];
  }

  /** The last edit of a cheapest script, read off the table. */
  lemma {:induction false} BestLastEdit(s: seq<Byte>, i: nat, t: seq<Byte>, j: nat, k: Costs) returns (e: Edit)
    requires i <= |s| && j <= |t| && i + j > 0
    ensures |e.Reads()| <= i && e.Reads() == s[i - |e.Reads()|..i]
    ensures |e.Writes()| <= j && e.Writes() == t[j - |e.Writes()|..j]
    ensures Table(s, i, t, j, k) == Table(s, i - |e.Reads()|, t, j - |e.Writes()|, k) + e.Price(k)
  {
    var here := Table(s, i, t, j, k);
    if j > 0 && here == Table(s, i, t, j - 1, k) + k.ins {
      e := Insert(t[j - 1]);
    } else if i > 0 && here == Table(s, i - 1, t, j, k) + k.del {
      e := Delete(s[i - 1]);
    } else {
      e := Match(s[i - 1], t[j - 1]);
    }
  }

  /** A script that achieves the table's entry. */
  lemma {:induction false} Achieved(s: seq<Byte>, i: nat, t: seq<Byte>, j: nat, k: Costs) returns (p: Script)
    requires i <= |s| && j <= |t|
    ensures Turns(p, s[..i], t[..j])
    ensures Cost(p, k) == Table(s, i, t, j, k)
    decreases i + j
  {
    if i == 0 && j == 0 {
      p := [];
    } else {
      var e := BestLastEdit(s, i, t, j, k);
      var i', j' := i - |e.Reads()|, j - |e.Writes()|;
      EditMoves(e);
      var q := Achieved(s, i', t, j', k);
      p := EndWith(q, e, s, i, t, j, k);
    }
  }

  lemma EditMoves(e: Edit)
    ensures |e.Reads()| + |e.Writes()| > 0
  {
  }

  lemma EndWith(q: Script, e: Edit, s: seq<Byte>, i: nat, t: seq<Byte>, j: nat, k: Costs) returns (p: Script)
    requires i <= |s| && |e.Reads()| <= i && e.Reads() == s[i - |e.Reads()|..i]
    requires j <= |t| && |e.Writes()| <= j && e.Writes() == t[j - |e.Writes()|..j]
    requires Turns(q, s[..i - |e.Reads()|], t[..j - |e.Writes()|])
    ensures Turns(p, s[..i], t[..j]) && Cost(p, k) == Cost(q, k) + e.Price(k)
  {
    p := q + [e];
    ExtendTo(q, e, s, i - |e.Reads()|, t, j - |e.Writes()|);
    ExtendScript(q, e, k);
  }

  lemma {:induction false} AnyLastEdit(s: seq<Byte>, i: nat, t: seq<Byte>, j: nat, e: Edit, k: Costs)
    requires i <= |s| && |e.Reads()| <= i && e.Reads() == s[i - |e.Reads()|..i]
    requires j <= |t| && |e.Writes()| <= j && e.Writes() == t[j - |e.Writes()|..j]
    ensures Table(s, i, t, j, k) <= Table(s, i - |e.Reads()|, t, j - |e.Writes()|, k) + e.Price(k)
  {
    match e
    case Insert(c) => assert c == t[j - 1];
    case Delete(c) => assert c == s[i - 1];
    case Match(f, g) => assert f == s[i - 1] && g == t[j - 1];
  }

  lemma LastPart(a: seq<Byte>, x: seq<Byte>, s: seq<Byte>, i: nat)
    requires i <= |s| && a + x == s[..i]
    ensures |x| <= i && a == s[..i - |x|] && x == s[i - |x|..i]
  {
    assert a == (a + x)[..|a|] && x == (a + x)[|a|..];
  }

  /** No script beats the table's entry. */
  lemma {:induction false} NoneCheaper(p: Script, s: seq<Byte>, i: nat, t: seq<Byte>, j: nat, k: Costs)
    requires i <= |s| && j <= |t| && Turns(p, s[..i], t[..j])
    ensures Table(s, i, t, j, k) <= Cost(p, k)
  {
    if p == [] {
      assert i == |s[..i]| == 0 && j == |t[..j]| == 0;
    } else {
      var q, e := Init(p), Last(p);
      LastPart(Source(q), e.Reads(), s, i);
      LastPart(Target(q), e.Writes(), t, j);
      NoneCheaper(q, s, i - |e.Reads()|, t, j - |e.Writes()|, k);
      AnyLastEdit(s, i, t, j, e, k);
    }
  }

  lemma {:induction false} DistanceIsLeast(s: seq<Byte>, t: seq<Byte>, k: Costs)
    ensures IsLeastCost(Distance(s, t, k), s, t, k)
  {
    assert s[..|s|] == s && t[..|t|] == t;
    var p := Achieved(s, |s|, t, |t|, k);
    forall q | Turns(q, s, t) ensures Distance(s, t, k) <= Cost(q, k) {
      NoneCheaper(q, s, |s|, t, |t|, k);
    }
  }

  lemma {:induction false} TableEdge(s: seq<Byte>, t: seq<Byte>, n: nat, k: Costs)
    ensures n <= |t| ==> Table(s, 0, t, n, k) == n * k.ins
    ensures n <= |s| ==> Table(s, n, t, 0, k) == n * k.del
  {
    if n > 0 {
      TableEdge(s, t, n - 1, k);
    }
  }

  const MAX_LEVENSHTEIN_STRLEN := 255

  /** levenshtein_internal: two rows, swapped after each byte of t. */
  method LevenshteinInternal(s: seq<Byte>, t: seq<Byte>, k: Costs) returns (r: Result<int>)
    ensures r.Error? <==>
            s != [] && t != [] && (|s| > MAX_LEVENSHTEIN_STRLEN || |t| > MAX_LEVENSHTEIN_STRLEN)
    ensures r.Ok? ==> IsLeastCost(r.value, s, t, k)
    ensures r.Ok? ==> r.value == Distance(s, t, k)
  {
    var m, n := |s|, |t|;
    DistanceIsLeast(s, t, k);
    if m == 0 {
      TableEdge(s, t, n, k);
      return Ok(n * k.ins);
    }
    if n == 0 {
      TableEdge(s, t, m, k);
      return Ok(m * k.del);
    }
    if m > MAX_LEVENSHTEIN_STRLEN || n > MAX_LEVENSHTEIN_STRLEN {
      return Error;
    }
    m, n := m + 1, n + 1;
    var prev, curr := new int[m], new int[m];
    for i := 0 to m
      invariant RowHolds(prev, i, s, t, 0, k)
    {
      prev[i] := i * k.del;
      TableEdge(s, t, i, k);
    }
    for j := 1 to n
      invariant prev != curr && prev.Length == curr.Length == m && fresh(prev) && fresh(curr)
      invariant RowHolds(prev, m, s, t, j - 1, k)
    {
      FillRow(prev, curr, s, t, j, k);
      prev, curr := curr, prev;
    }
    return Ok(prev[m - 1]);
  }

  ghost predicate RowHolds(row: array<int>, m: nat, s: seq<Byte>, t: seq<Byte>, j: nat, k: Costs)
    requires m <= row.Length <= |s| + 1 && j <= |t|
    reads row
  {
    forall x {:trigger row[x]} :: 0 <= x < m ==> row[x] == Table(s, x, t, j, k)
  }

  /** The inner loop: from row j - 1 of the table to row j. */
  method FillRow(prev: array<int>, curr: array<int>, s: seq<Byte>, t: seq<Byte>, j: nat, k: Costs)
    requires prev.Length == curr.Length == |s| + 1 && prev != curr && 1 <= j <= |t|
    requires RowHolds(prev, |s| + 1, s, t, j - 1, k)
    modifies curr
    ensures RowHolds(curr, |s| + 1, s, t, j, k)
  {
    curr[0] := j * k.ins;
    TableEdge(s, t, j, k);
    for i := 1 to |s| + 1
      invariant RowHolds(curr, i, s, t, j, k)
    {
      var ins := prev[i] + k.ins;
      var del := curr[i - 1] + k.del;
      var sub := prev[i - 1] + if s[i - 1] == t[j - 1] then 0 else k.sub;
      curr[i] := Min(ins, del);
      curr[i] := Min(curr[i], sub);
    }
  }

  // Metric laws

  function Swapped(k: Costs): Costs { Costs(k.del, k.ins, k.sub) }

  function Undo(p: Script): (q: Script)
    ensures Source(q) == Target(p) && Target(q) == Source(p)
    ensures forall k :: Cost(q, k) == Cost(p, Swapped(k))
  {
    if p == [] then [] else
      var e := match Last(p)
               case Insert(c) => Delete(c)
               case Delete(c) => Insert(c)
               case Match(f, t) => Match(t, f);
      var q := Undo(Init(p));
      assert forall k :: Cost(q + [e], k) == Cost(q, k) + e.Price(k) by {
        forall k { ExtendScript(q, e, k); }
      }
      ExtendScript(q, e, Costs(0, 0, 0));
      q + [e]
  }

  /** The distance from the outside: some script has this cost and none is cheaper. */
  lemma {:induction false} BestScript(s: seq<Byte>, t: seq<Byte>, k: Costs) returns (p: Script)
    ensures Turns(p, s, t) && Cost(p, k) == Distance(s, t, k)
  {
    DistanceIsLeast(s, t, k);
    p :| Turns(p, s, t) && Cost(p, k) == Distance(s, t, k);
  }

  /** Exchanging the strings is exchanging the insertion and deletion costs. */
  lemma {:induction false} DistanceReversed(s: seq<Byte>, t: seq<Byte>, k: Costs)
    ensures Distance(s, t, k) == Distance(t, s, Swapped(k))
  {
    var p := BestScript(s, t, k);
    var q := BestScript(t, s, Swapped(k));
    DistanceIsLeast(s, t, k);
    DistanceIsLeast(t, s, Swapped(k));
    assert Turns(Undo(p), t, s) && Turns(Undo(q), s, t);
  }

  /** Run p, then q: the composed script costs no more than both. */
  lemma {:induction false} Compose(p: Script, q: Script, k: Costs) returns (r: Script)
    requires k.ins >= 0 && k.del >= 0 && k.sub >= 0
    requires Target(p) == Source(q)
    ensures Turns(r, Source(p), Target(q))
    ensures Cost(r, k) <= Cost(p, k) + Cost(q, k)
    decreases |p| + |q|
  {
    if p != [] && Last(p).Delete? {
      var r' := Compose(Init(p), q, k);
      ExtendScript(r', Last(p), k);
      r := r' + [Last(p)];
    } else if q != [] && Last(q).Insert? {
      var r' := Compose(p, Init(q), k);
      ExtendScript(r', Last(q), k);
      r := r' + [Last(q)];
    } else if p == [] {
      r := [];
    } else {
      var d, e := Last(p), Last(q);
      LastByte(Target(Init(p)), d.Writes(), Source(Init(q)), e.Reads());
      var r' := Compose(Init(p), Init(q), k);
      r := r' + Join(d, e);
      JoinEffect(r', d, e, k);
    }
  }

  lemma {:induction false} JoinEffect(r: Script, d: Edit, e: Edit, k: Costs)
    requires k.ins >= 0 && k.del >= 0 && k.sub >= 0
    requires !d.Delete? && !e.Insert? && d.Writes() == e.Reads()
    ensures Source(r + Join(d, e)) == Source(r) + d.Reads()
    ensures Target(r + Join(d, e)) == Target(r) + e.Writes()
    ensures Cost(r + Join(d, e), k) <= Cost(r, k) + d.Price(k) + e.Price(k)
  {
    if d.Insert? && e.Delete? {
      assert r + [] == r;
    } else {
      ExtendScript(r, Join(d, e)[0], k);
      assert d.Match? && e.Match? ==> d.to == d.Writes()[0] == e.Reads()[0] == e.from;
    }
  }

  lemma LastByte(a: seq<Byte>, x: seq<Byte>, b: seq<Byte>, y: seq<Byte>)
    requires |x| == |y| == 1 && a + x == b + y
    ensures a == b && x == y
  {
    assert a == (a + x)[..|a|] && b == (b + y)[..|b|];
  }

  /** The joint effect of an edit that writes a byte and one that reads it. */
  function Join(d: Edit, e: Edit): Script
    requires !d.Delete? && !e.Insert?
  {
    if d.Insert? then
      if e.Delete? then [] else [Insert(e.to)]
    else
      [if e.Delete? then Delete(d.from) else Match(d.from, e.to)]
  }

  lemma {:induction false} TriangleInequality(s: seq<Byte>, t: seq<Byte>, u: seq<Byte>, k: Costs)
    requires k.ins >= 0 && k.del >= 0 && k.sub >= 0
    ensures Distance(s, u, k) <= Distance(s, t, k) + Distance(t, u, k)
  {
    var p := BestScript(s, t, k);
    var q := BestScript(t, u, k);
    var r := Compose(p, q, k);
    DistanceIsLeast(s, u, k);
  }

  lemma {:induction false} FreeScriptKeeps(p: Script, k: Costs)
    requires k.ins > 0 && k.del > 0 && k.sub > 0
    ensures Cost(p, k) >= 0
    ensures Cost(p, k) == 0 ==> Source(p) == Target(p)
  {
    if p != [] {
      FreeScriptKeeps(Init(p), k);
    }
  }

  lemma {:induction false} KeepAll(s: seq<Byte>, i: nat, k: Costs)
    requires i <= |s|
    ensures Table(s, i, s, i, k) <= 0
  {
    if i > 0 {
      KeepAll(s, i - 1, k);
    }
  }

  lemma {:induction false} ZeroExactlyOnEqual(s: seq<Byte>, t: seq<Byte>, k: Costs)
    requires k.ins > 0 && k.del > 0 && k.sub > 0
    ensures Distance(s, t, k) >= 0
    ensures Distance(s, t, k) == 0 <==> s == t
  {
    var p := BestScript(s, t, k);
    FreeScriptKeeps(p, k);
    if s == t {
      KeepAll(s, |s|, k);
    }
  }

  /** levenshtein(text, text): with unit costs the distance is a metric. */
  lemma {:induction false} UnitDistanceIsMetric(s: seq<Byte>, t: seq<Byte>, u: seq<Byte>)
    ensures var k := Costs(1, 1, 1);
            && (Distance(s, t, k) == 0 <==> s == t)
            && Distance(s, t, k) >= 0
            && Distance(s, t, k) == Distance(t, s, k)
            && Distance(s, u, k) <= Distance(s, t, k) + Distance(t, u, k)
  {
    var k := Costs(1, 1, 1);
    ZeroExactlyOnEqual(s, t, k);
    DistanceReversed(s, t, k);
    TriangleInequality(s, t, u, k);
  }

  /** From nothing every byte is inserted, to nothing every byte is deleted. */
  lemma {:induction false} EmptyEnds(s: seq<Byte>, k: Costs)
    ensures Distance([], s, k) == |s| * k.ins
    ensures Distance(s, [], k) == |s| * k.del
  {
    TableEdge([], s, |s|, k);
    TableEdge(s, [], |s|, k);
  }

  /** One byte becomes another by substitution, or by deletion and insertion, whichever is cheaper. */
  lemma {:induction false} OneByte(a: Byte, b: Byte, k: Costs)
    requires a != b
    ensures Distance([a], [b], k) == if k.sub <= k.ins + k.del then k.sub else k.ins + k.del
  {
    TableEdge([a], [b], 0, k);
    TableEdge([a], [b], 1, k);
    assert Table([a], 0, [b], 1, k) == k.ins && Table([a], 1, [b], 0, k) == k.del;
  }
}
