/** The bytes of an hstore allocation: four to an entry word, then one to a string byte. */
module HStoreMemory {
  import opened Bytes
  import opened HStoreLayout

  /** One byte: byte n of an entry word, a string byte, or not yet written. */
  datatype Cell = Part(e: HEntry, n: nat) | Char(b: Byte) | Blank

  function EntryCells(e: HEntry): (c: seq<Cell>)
    ensures |c| == 4
  {
    [Part(e, 0), Part(e, 1), Part(e, 2), Part(e, 3)]
  }

  function ItemCells(item: HItem): (c: seq<Cell>)
    ensures |c| == 8 && c[0] == Part(item.key, 0) && c[4] == Part(item.val, 0)
  {
    EntryCells(item.key) + EntryCells(item.val)
  }

  /** The entry array. */
  function ArrayCells(es: seq<HItem>): (c: seq<Cell>)
    ensures |c| == 8 * |es|
  {
    if es == [] then [] else ArrayCells(es[..|es| - 1]) + ItemCells(es[|es| - 1])
  }

  function CharCells(t: Text): (c: seq<Cell>)
    ensures |c| == |t| && forall i :: 0 <= i < |t| ==> c[i] == Char(t[i])
  {
    seq(|t|, i requires 0 <= i < |t| => Char(t[i]))
  }

  lemma {:induction false} ArraySnoc(es: seq<HItem>, item: HItem)
    ensures ArrayCells(es + [item]) == ArrayCells(es) + ItemCells(item)
  {
    assert (es + [item])[..|es|] == es;
  }

  lemma CharsJoin(t: Text, u: Text)
    ensures CharCells(t + u) == CharCells(t) + CharCells(u)
  {
  }

  lemma {:induction false} ArrayAt(es: seq<HItem>, i: nat)
    requires i < |es|
    ensures ArrayCells(es)[8 * i] == Part(es[i].key, 0) && ArrayCells(es)[8 * i + 4] == Part(es[i].val, 0)
  {
    var q := es[..|es| - 1];
    if i < |q| { ArrayAt(q, i); }
  }

  lemma {:induction false} ArrayFirst(es: seq<HItem>)
    requires es != []
    ensures |ArrayCells(es)| >= 8
    ensures ArrayCells(FlagFirst(es)) == EntryCells(es[0].key.(first := true)) + ArrayCells(es)[4..]
  {
    var q, p := es[..|es| - 1], es[|es| - 1];
    if q == [] {
      assert FlagFirst(es)[..0] == [];
      assert ArrayCells(es) == ItemCells(p);
      assert ArrayCells(FlagFirst(es)) == ItemCells(FlagFirst(es)[0]);
      assert ItemCells(p)[4..] == EntryCells(p.val);
    } else {
      ArrayFirst(q);
      assert FlagFirst(es)[..|es| - 1] == FlagFirst(q) && FlagFirst(es)[|es| - 1] == p;
      assert (ArrayCells(q) + ItemCells(p))[4..] == ArrayCells(q)[4..] + ItemCells(p);
    }
  }

  /** a stands at the start of the memory and b at base. */
  ghost predicate Laid(m: seq<Cell>, base: nat, a: seq<Cell>, b: seq<Cell>) {
    |a| <= base && base + |b| <= |m| && m[..|a|] == a && m[base..base + |b|] == b
  }

  /** The memory after src was written at a place. */
  function Written(m: seq<Cell>, at: nat, src: seq<Cell>): seq<Cell>
    requires at + |src| <= |m|
  {
    m[..at] + src + m[at + |src|..]
  }

  lemma LaidEntry(m: seq<Cell>, base: nat, a: seq<Cell>, b: seq<Cell>, c: seq<Cell>)
    requires Laid(m, base, a, b) && |a| + |c| <= base
    ensures Laid(Written(m, |a|, c), base, a + c, b)
  {
    var w := Written(m, |a|, c);
    assert w[..|a| + |c|] == a + c;
    assert w[base..base + |b|] == m[base..base + |b|];
  }

  lemma LaidChars(m: seq<Cell>, base: nat, a: seq<Cell>, b: seq<Cell>, c: seq<Cell>)
    requires Laid(m, base, a, b) && base + |b| + |c| <= |m|
    ensures Laid(Written(m, base + |b|, c), base, a, b + c)
  {
    var w := Written(m, base + |b|, c);
    assert w[..|a|] == m[..|a|];
    assert w[base..base + |b| + |c|] == b + c;
  }

  /** One more item and its string bytes. */
  lemma {:induction false} LaidPair(m: seq<Cell>, base: nat, es: seq<HItem>, t: Text, item: HItem, bytes: Text)
    requires Laid(m, base, ArrayCells(es), CharCells(t)) && 8 * |es| + 8 <= base && base + |t| + |bytes| <= |m|
    ensures var w := Written(m, base + |t|, CharCells(bytes));
      Laid(Written(w, 8 * |es|, ItemCells(item)), base, ArrayCells(es + [item]), CharCells(t + bytes))
  {
    var a, b, c := ArrayCells(es), CharCells(t), CharCells(bytes);
    LaidChars(m, base, a, b, c);
    LaidEntry(Written(m, base + |b|, c), base, a, b + c, ItemCells(item));
    CharsJoin(t, bytes);
    ArraySnoc(es, item);
  }

  lemma LaidFirst(m: seq<Cell>, base: nat, a: seq<Cell>, b: seq<Cell>, c: seq<Cell>)
    requires Laid(m, base, a, b) && |c| <= |a|
    ensures Laid(Written(m, 0, c), base, c + a[|c|..], b)
  {
    var w := Written(m, 0, c);
    assert w[..|a|] == c + a[|c|..];
    assert w[base..base + |b|] == m[base..base + |b|];
  }

  /** Moving the strings down to the end of the entries leaves both side by side. */
  lemma LaidClosed(m: seq<Cell>, base: nat, a: seq<Cell>, b: seq<Cell>)
    requires Laid(m, base, a, b)
    ensures Written(m, |a|, m[base..base + |b|])[..|a| + |b|] == a + b
  {
  }

  method Write(mem: array<Cell>, at: nat, src: seq<Cell>)
    requires at + |src| <= mem.Length
    modifies mem
    ensures mem[..] == Written(old(mem[..]), at, src)
  {
    forall i | 0 <= i < |src| {
      mem[at + i] := src[i];
    }
  }

  /** Writes an item behind es and its bytes behind t. */
  method WritePair(mem: array<Cell>, base: nat, ed: nat, pd: nat, item: HItem, bytes: Text, ghost es: seq<HItem>,
                   ghost t: Text)
    requires ed == |es| && pd == |t| && 8 * ed + 8 <= base && base + pd + |bytes| <= mem.Length
    requires Laid(mem[..], base, ArrayCells(es), CharCells(t))
    modifies mem
    ensures Laid(mem[..], base, ArrayCells(es + [item]), CharCells(t + bytes))
  {
    LaidPair(mem[..], base, es, t, item, bytes);
    Write(mem, base + pd, CharCells(bytes));
    Write(mem, 8 * ed, ItemCells(item));
  }

  /** memmove: the regions may overlap. */
  method MemMove(mem: array<Cell>, to: nat, from: nat, n: nat)
    requires to + n <= mem.Length && from + n <= mem.Length
    modifies mem
    ensures mem[..] == Written(old(mem[..]), to, old(mem[from..from + n]))
  {
    forall i | 0 <= i < n {
      mem[to + i] := mem[from + i];
    }
  }

  /** Sets HENTRY_ISFIRST in the first entry word. */
  method Flag(mem: array<Cell>, base: nat, ghost es: seq<HItem>, ghost b: seq<Cell>)
    requires es != [] && Laid(mem[..], base, ArrayCells(es), b)
    modifies mem
    ensures Laid(mem[..], base, ArrayCells(FlagFirst(es)), b)
  {
    ArrayFirst(es);
    ArrayAt(es, 0);
    assert mem[0] == mem[..][..8 * |es|][0];
    LaidFirst(mem[..], base, ArrayCells(es), b, EntryCells(es[0].key.(first := true)));
    Write(mem, 0, EntryCells(mem[0].e.(first := true)));
  }

  /** Moves the n string bytes at base down to the end of the entries, if there is a gap. */
  method Close(mem: array<Cell>, base: nat, to: nat, n: nat, ghost a: seq<Cell>, ghost b: seq<Cell>)
    requires Laid(mem[..], base, a, b) && to == |a| && n == |b|
    modifies mem
    ensures to + n <= mem.Length && mem[..to + n] == a + b
  {
    LaidClosed(mem[..], base, a, b);
    if to != base {
      ghost var was := mem[..];
      assert mem[base..base + n] == was[base..base + n];
      MemMove(mem, to, base, n);
      assert mem[..to + n] == mem[..][..to + n];
    }
  }

  /** The entries and strings that the macros see in finished memory. */
  method View(mem: array<Cell>, count: nat, len: nat, ghost es: seq<HItem>, ghost t: Text)
    returns (items: seq<HItem>, str: Text)
    requires 8 * count + len <= mem.Length && |es| == count && |t| == len
    requires mem[..8 * count + len] == ArrayCells(es) + CharCells(t)
    ensures items == es && str == t
  {
    ghost var m := mem[..8 * count + len];
    items, str := [], [];
    for i := 0 to count
      invariant items == es[..i]
    {
      ArrayAt(es, i);
      assert mem[8 * i] == m[8 * i] && mem[8 * i + 4] == m[8 * i + 4];
      items := items + [HItem(mem[8 * i].e, mem[8 * i + 4].e)];
    }
    for i := 0 to len
      invariant str == t[..i]
    {
      assert mem[8 * count + i] == m[8 * count + i] == Char(t[i]);
      str := str + [mem[8 * count + i].b];
    }
  }
}
