/** Bytes of C strings and text values, which hold no NUL, and the order memcmp and strncmp give. */
module Bytes {
  type Byte = b: int | 1 <= b < 256 witness 1

  /** Any byte, NUL and padding included. */
  type Octet = b: int | 0 <= b < 256

  function AsText(o: seq<Octet>): (t: seq<Byte>)
    requires forall i :: 0 <= i < |o| ==> o[i] != 0
    ensures |t| == |o| && forall i :: 0 <= i < |o| ==> t[i] == o[i]
  {
    seq(|o|, i requires 0 <= i < |o| => o[i])
  }

  /** Lexicographic order, as a sign. On equal lengths this is the sign of strncmp and memcmp. */
  function Lex(a: seq<Byte>, b: seq<Byte>): int {
    if a == [] then (if b == [] then 0 else -1)
    else if b == [] then 1
    else if a[0] < b[0] then -1
    else if a[0] > b[0] then 1
    else Lex(a[1..], b[1..])
  }

  lemma {:induction false} LexIsSign(a: seq<Byte>, b: seq<Byte>)
    ensures -1 <= Lex(a, b) <= 1
  {
    if a != [] && b != [] {
      LexIsSign(a[1..], b[1..]);
    }
  }

  lemma {:induction false} LexOpposite(a: seq<Byte>, b: seq<Byte>)
    ensures Lex(a, b) == -Lex(b, a)
    ensures Lex(a, b) == 0 <==> a == b
  {
    if a != [] && b != [] {
      LexOpposite(a[1..], b[1..]);
      assert a == [a[0]] + a[1..] && b == [b[0]] + b[1..];
    }
  }

  /** The first place where two sequences differ. */
  ghost predicate DifferAt<T>(a: seq<T>, b: seq<T>, k: nat) {
    k < |a| && k < |b| && a[..k] == b[..k] && a[k] != b[k]
  }

  /** a is a proper prefix of b or has the smaller byte where they first differ. */
  ghost predicate Precedes(a: seq<Byte>, b: seq<Byte>) {
    a < b || exists k: nat {:trigger DifferAt(a, b, k)} :: DifferAt(a, b, k) && a[k] < b[k]
  }

  lemma DifferCons<T>(a: seq<T>, b: seq<T>, k: nat)
    requires a != [] && b != [] && a[0] == b[0]
    ensures DifferAt(a, b, k + 1) <==> DifferAt(a[1..], b[1..], k)
  {
    if k + 1 < |a| && k + 1 < |b| {
      assert a[..k + 1] == [a[0]] + a[1..][..k] && b[..k + 1] == [b[0]] + b[1..][..k];
      assert a[1..][..k] == a[..k + 1][1..] && b[1..][..k] == b[..k + 1][1..];
    }
  }

  lemma DifferLater<T>(a: seq<T>, b: seq<T>, k: nat)
    requires DifferAt(a, b, k) && k > 0
    ensures a[0] == b[0]
  {
    assert a[..k][0] == b[..k][0];
  }

  lemma PrefixCons<T>(a: seq<T>, b: seq<T>)
    requires a != [] && b != [] && a[0] == b[0]
    ensures a < b <==> a[1..] < b[1..]
  {
    if |a| < |b| {
      assert b[..|a|] == [b[0]] + b[1..][..|a| - 1] && a == [a[0]] + a[1..];
      assert b[1..][..|a| - 1] == b[..|a|][1..];
    }
  }

  /** The order is the one of dictionaries. */
  lemma {:induction false} LexMeans(a: seq<Byte>, b: seq<Byte>)
    ensures Lex(a, b) < 0 <==> Precedes(a, b)
  {
    if a != [] && b != [] {
      if a[0] != b[0] {
        assert DifferAt(a, b, 0);
        forall k: nat | DifferAt(a, b, k) ensures k == 0 { if k > 0 { DifferLater(a, b, k); } }
      } else {
        var c, d := a[1..], b[1..];
        LexMeans(c, d);
        PrefixCons(a, b);
        if k: nat :| DifferAt(c, d, k) && c[k] < d[k] { DifferCons(a, b, k); }
        if k: nat :| DifferAt(a, b, k) && a[k] < b[k] { DifferCons(a, b, k - 1); }
      }
    }
  }

  lemma {:induction false} LexTransitive(a: seq<Byte>, b: seq<Byte>, c: seq<Byte>)
    requires Lex(a, b) <= 0 && Lex(b, c) <= 0
    ensures Lex(a, c) <= 0
    ensures Lex(a, b) < 0 || Lex(b, c) < 0 ==> Lex(a, c) < 0
  {
    if a != [] && b != [] && c != [] {
      if a[0] == b[0] == c[0] {
        LexTransitive(a[1..], b[1..], c[1..]);
      }
    }
  }

  /** strncmp or memcmp over the first n bytes of both. */
  function CompareN(a: seq<Byte>, b: seq<Byte>, n: nat): int
    requires n <= |a| && n <= |b|
  {
    Lex(a[..n], b[..n])
  }

  /** Comparing the common length first and the lengths next is comparing lexicographically. */
  lemma {:induction false} LexByCommonLength(a: seq<Byte>, b: seq<Byte>)
    ensures var n := if |a| < |b| then |a| else |b|;
            Lex(a, b) == if CompareN(a, b, n) != 0 then CompareN(a, b, n)
                         else if |a| < |b| then -1 else if |a| > |b| then 1 else 0
  {
    var n := if |a| < |b| then |a| else |b|;
    if n > 0 && a[0] == b[0] {
      LexByCommonLength(a[1..], b[1..]);
      assert a[..n][1..] == a[1..][..n - 1] && b[..n][1..] == b[1..][..n - 1];
    }
  }
}
