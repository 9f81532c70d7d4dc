/**
  How small a union of ranges can be that holds given integers: the theory behind
  the internal keys of the integer-array index, free of any encoding.
 */
module IntCover {
  import opened Sorting
  import opened IntArray

  function Gap(s: seq<int>, i: nat): int
    requires 1 <= i < |s|
  {
    s[i] - s[i - 1]
  }

  ghost predicate Between(lo: int, x: int, hi: int) { lo <= x <= hi }

  ghost function Interval(lo: int, hi: int): set<int> {
    set x {:trigger Between(lo, x, hi)} | lo <= x <= hi && Between(lo, x, hi)
  }

  lemma {:induction false} IntervalSize(lo: int, hi: int)
    requires lo - 1 <= hi
    ensures |Interval(lo, hi)| == hi - lo + 1
    decreases hi - lo
  {
    if lo <= hi {
      IntervalSize(lo, hi - 1);
      assert Interval(lo, hi) == Interval(lo, hi - 1) + {hi};
    } else {
      assert Interval(lo, hi) == {};
    }
  }

  ghost predicate IsStart(d: set<int>, x: int) { x in d && x - 1 !in d }

  /** The places where a set of integers begins anew: one for each of its maximal ranges. */
  ghost function Starts(d: set<int>): set<int> {
    set x {:trigger IsStart(d, x)} | x in d && IsStart(d, x)
  }

  /** What element i adds: itself, and the gap before it unless that is kept open. */
  ghost function Piece(s: seq<int>, keep: set<nat>, i: nat): set<int>
    requires i < |s|
  {
    if i == 0 || i in keep then {s[i]} else Interval(s[i - 1] + 1, s[i])
  }

  lemma PieceIs(s: seq<int>, keep: set<nat>, i: nat)
    requires Strict(s) && i < |s|
    ensures s[i] in Piece(s, keep, i)
    ensures forall x :: x in Piece(s, keep, i) ==> x <= s[i] && (i > 0 ==> s[i - 1] < x)
    ensures |Piece(s, keep, i)| == if i == 0 || i in keep then 1 else Gap(s, i)
  {
    if !(i == 0 || i in keep) { IntervalSize(s[i - 1] + 1, s[i]); }
  }

  /** The first i elements, with every gap filled but those that end at an index in keep. */
  ghost function Fill(s: seq<int>, keep: set<nat>, i: nat): set<int>
    requires i <= |s|
  {
    if i == 0 then {} else Fill(s, keep, i - 1) + Piece(s, keep, i - 1)
  }

  ghost function Cost(s: seq<int>, keep: set<nat>, i: nat): int
    requires i <= |s|
  {
    if i == 0 then 0 else
      Cost(s, keep, i - 1) + if i == 1 || i - 1 in keep then 1 else Gap(s, i - 1)
  }

  ghost function Count(keep: set<nat>, i: nat): nat {
    if i <= 1 then 0 else Count(keep, i - 1) + if i - 1 in keep then 1 else 0
  }

  ghost predicate Indices(keep: set<nat>, n: nat) {
    forall i :: i in keep ==> 1 <= i < n
  }

  lemma {:induction false} CountIsSize(keep: set<nat>, n: nat)
    requires Indices(keep, n)
    ensures Count(keep, n) == |keep|
  {
    if n <= 1 {
      assert keep == {};
    } else {
      var less := keep - {n - 1};
      CountIsSize(less, n - 1);
      CountCongruent(keep, less, n - 1);
      if n - 1 in keep { assert keep == less + {n - 1}; } else { assert keep == less; }
    }
  }

  lemma {:induction false} CountCongruent(a: set<nat>, b: set<nat>, n: nat)
    requires forall i :: 1 <= i < n ==> (i in a <==> i in b)
    ensures Count(a, n) == Count(b, n)
  {
    if n > 1 { CountCongruent(a, b, n - 1); }
  }

  lemma {:induction false} FillBounds(s: seq<int>, keep: set<nat>, i: nat, x: int)
    requires Strict(s) && 1 <= i <= |s| && x in Fill(s, keep, i)
    ensures s[0] <= x <= s[i - 1]
  {
    PieceIs(s, keep, i - 1);
    if i > 1 && x in Fill(s, keep, i - 1) { FillBounds(s, keep, i - 1, x); }
  }

  lemma {:induction false} FillHolds(s: seq<int>, keep: set<nat>, i: nat, j: nat)
    requires Strict(s) && j < i <= |s|
    ensures s[j] in Fill(s, keep, i)
  {
    if j < i - 1 { FillHolds(s, keep, i - 1, j); } else { PieceIs(s, keep, j); }
  }

  lemma {:induction false} FillApart(s: seq<int>, keep: set<nat>, i: nat)
    requires Strict(s) && i < |s|
    ensures Fill(s, keep, i) !! Piece(s, keep, i)
  {
    var front, add := Fill(s, keep, i), Piece(s, keep, i);
    PieceIs(s, keep, i);
    if i > 0 {
      forall x | x in front ensures x !in add {
        FillBounds(s, keep, i, x);
      }
    }
  }

  lemma {:induction false} FillSize(s: seq<int>, keep: set<nat>, i: nat)
    requires Strict(s) && i <= |s|
    ensures |Fill(s, keep, i)| == Cost(s, keep, i)
  {
    if i > 0 {
      FillSize(s, keep, i - 1);
      PieceIs(s, keep, i - 1);
      FillApart(s, keep, i - 1);
      DisjointSize(Fill(s, keep, i - 1), Piece(s, keep, i - 1));
    }
  }

  lemma DisjointSize(a: set<int>, b: set<int>)
    requires a !! b
    ensures |a + b| == |a| + |b|
  {
  }

  /** Adding a piece to a set that reaches up to it adds at most one start, and none to fill a gap. */
  lemma PieceStarts(s: seq<int>, keep: set<nat>, i: nat, e: set<int>)
    requires Strict(s) && 1 <= i < |s| && s[i - 1] in e
    ensures Starts(e + Piece(s, keep, i)) <= Starts(e) + if i in keep then {s[i]} else {}
  {
    var add := Piece(s, keep, i);
    PieceIs(s, keep, i);
    forall x | x in Starts(e + add) ensures x in Starts(e) + if i in keep then {s[i]} else {} {
      assert IsStart(e + add, x);
      if x in e {
        assert IsStart(e, x);
      } else if i !in keep {
        assert x - 1 == s[i - 1] || (Between(s[i - 1] + 1, x - 1, s[i]) && x - 1 in add);
      }
    }
  }

  /** A filled set begins anew only at the first element and at kept gaps. */
  lemma {:induction false} FillStarts(s: seq<int>, keep: set<nat>, i: nat)
    requires Strict(s) && 1 <= i <= |s|
    ensures |Starts(Fill(s, keep, i))| <= 1 + Count(keep, i)
  {
    if i == 1 {
      assert Fill(s, keep, 1) == {s[0]} by { assert Fill(s, keep, 0) == {}; }
      Subset(Starts({s[0]}), {s[0]});
    } else {
      FillStarts(s, keep, i - 1);
      FillHolds(s, keep, i - 1, i - 2);
      var e := Fill(s, keep, i - 1);
      PieceStarts(s, keep, i - 1, e);
      Subset(Starts(Fill(s, keep, i)), Starts(e) + if i - 1 in keep then {s[i - 1]} else {});
    }
  }

  // Any other cover

  ghost predicate IsOpen(s: seq<int>, d: set<int>, i: nat) {
    1 <= i < |s| && exists x :: s[i - 1] < x < s[i] && x !in d
  }

  /** The gaps a set does not fill. */
  ghost function Open(s: seq<int>, d: set<int>): set<nat> {
    set i: nat {:trigger IsOpen(s, d, i)} | 1 <= i < |s| && IsOpen(s, d, i)
  }

  lemma {:induction false} FillWithin(s: seq<int>, d: set<int>, i: nat)
    requires Strict(s) && i <= |s| && Elems(s) <= d
    ensures Fill(s, Open(s, d), i) <= d
  {
    if i > 0 {
      FillWithin(s, d, i - 1);
      PieceIs(s, Open(s, d), i - 1);
      assert s[i - 1] in Elems(s);
      if i > 1 && i - 1 !in Open(s, d) {
        assert !IsOpen(s, d, i - 1);
      }
    }
  }

  /** Below any member of d that follows a hole there is a start after the hole. */
  lemma {:induction false} StartAfter(d: set<int>, hole: int, x: int) returns (y: int)
    requires hole !in d && x in d && hole < x
    ensures hole < y <= x && y in Starts(d)
    decreases x - hole
  {
    if x - 1 in d {
      y := StartAfter(d, hole, x - 1);
    } else {
      y := x;
    }
  }

  lemma {:induction false} FirstStart(d: set<int>, x: int, lo: int) returns (y: int)
    requires x in d && (forall z :: z in d ==> lo <= z)
    ensures y <= x && y in Starts(d)
    decreases x - lo
  {
    if x - 1 in d {
      y := FirstStart(d, x - 1, lo);
    } else {
      y := x;
    }
  }

  lemma {:induction false} LowerBound(d: set<int>) returns (lo: int)
    ensures forall z :: z in d ==> lo <= z
    decreases d
  {
    if x :| x in d {
      lo := LowerBound(d - {x});
      if x < lo {
        lo := x;
      }
      forall z | z in d ensures lo <= z {
        if z != x { assert z in d - {x}; }
      }
    } else {
      lo := 0;
    }
  }

  ghost function StartsUpTo(d: set<int>, x: int): set<int> {
    set y | y in Starts(d) && y <= x
  }

  lemma AddStart(d: set<int>, x: int, x': int, y: int)
    requires x < y <= x' && y in Starts(d)
    ensures |StartsUpTo(d, x)| + 1 <= |StartsUpTo(d, x')|
  {
    Subset(StartsUpTo(d, x) + {y}, StartsUpTo(d, x'));
  }

  /** Up to each element a cover has one start more than it has open gaps. */
  lemma {:induction false} OpenStarts(s: seq<int>, d: set<int>, i: nat)
    requires Strict(s) && Elems(s) <= d && 1 <= i <= |s|
    ensures 1 + Count(Open(s, d), i) <= |StartsUpTo(d, s[i - 1])|
  {
    assert s[i - 1] in Elems(s);
    var all := StartsUpTo(d, s[i - 1]);
    if i == 1 {
      var lo := LowerBound(d);
      var y := FirstStart(d, s[0], lo);
      Subset({y}, all);
    } else {
      OpenStarts(s, d, i - 1);
      var before := StartsUpTo(d, s[i - 2]);
      if i - 1 in Open(s, d) {
        assert IsOpen(s, d, i - 1);
        var hole :| s[i - 2] < hole < s[i - 1] && hole !in d;
        var y := StartAfter(d, hole, s[i - 1]);
        AddStart(d, s[i - 2], s[i - 1], y);
      } else {
        Subset(before, all);
      }
    }
  }

  lemma {:induction false} OpenBounded(s: seq<int>, d: set<int>)
    requires Strict(s) && Elems(s) <= d && s != []
    ensures Count(Open(s, d), |s|) < |Starts(d)|
  {
    OpenStarts(s, d, |s|);
    Subset(StartsUpTo(d, s[|s| - 1]), Starts(d));
  }

  // The exchange argument

  /** Kept gaps are at least t, filled ones at most t. */
  ghost predicate Threshold(s: seq<int>, keep: set<nat>, t: int) {
    forall i {:trigger Gap(s, i)} :: 1 <= i < |s| ==> if i in keep then Gap(s, i) >= t else Gap(s, i) <= t
  }

  lemma {:induction false} Exchange(s: seq<int>, keep: set<nat>, other: set<nat>, t: int, i: nat)
    requires i <= |s| && Threshold(s, keep, t)
    ensures Cost(s, keep, i) - Cost(s, other, i) <= (t - 1) * (Count(other, i) - Count(keep, i))
  {
    if i > 1 {
      Exchange(s, keep, other, t, i - 1);
      var c := Count(other, i - 1) - Count(keep, i - 1);
      assert (t - 1) * (c + 1) == (t - 1) * c + (t - 1);
      assert (t - 1) * (c - 1) == (t - 1) * c - (t - 1);
      assert if i - 1 in keep then Gap(s, i - 1) >= t else Gap(s, i - 1) <= t;
    }
  }

  /** Keeping the widest gaps open is best among all sets with no more ranges. */
  lemma {:induction false} FillIsLeast(s: seq<int>, keep: set<nat>, t: int, d: set<int>)
    requires Strict(s) && s != [] && Threshold(s, keep, t) && t >= 1
    requires Elems(s) <= d && |Starts(d)| <= 1 + Count(keep, |s|)
    ensures |Fill(s, keep, |s|)| <= |d|
  {
    var n, open := |s|, Open(s, d);
    OpenBounded(s, d);
    FillWithin(s, d, n);
    Subset(Fill(s, open, n), d);
    FillSize(s, keep, n);
    FillSize(s, open, n);
    Exchange(s, keep, open, t, n);
    NotAbove(t - 1, Count(open, n) - Count(keep, n));
  }

  lemma NotAbove(e: nat, c: int)
    requires c <= 0
    ensures e * c <= 0
  {
  }
}
