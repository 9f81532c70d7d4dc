/** hstore_cmp: a total order on valid values, and zero exactly on values that denote the same map. */
module HStoreCmp {
  import opened Bytes
  import opened HStoreLayout

  /** How one entry compares: end positions first, then a null after a non-null. */
  function EntryCmp(e: HEntry, f: HEntry): int {
    if e.endpos < f.endpos then -1
    else if e.endpos > f.endpos then 1
    else if e.isnull == f.isnull then 0
    else if e.isnull then 1 else -1
  }

  /** Entry i of the flat entry array. */
  function Entry(es: seq<HItem>, i: nat): HEntry
    requires i < 2 * |es|
  {
    if i % 2 == 0 then es[i / 2].key else es[i / 2].val
  }

  function EntriesCmp(es: seq<HItem>, fs: seq<HItem>, i: nat): int
    requires |es| == |fs| && i <= 2 * |es|
    decreases 2 * |es| - i
  {
    if i == 2 * |es| then 0
    else
      var c := EntryCmp(Entry(es, i), Entry(fs, i));
      if c != 0 then c else EntriesCmp(es, fs, i + 1)
  }

  function IntCmp(a: int, b: int): int {
    if a < b then -1 else if a > b then 1 else 0
  }

  /** The comparison: empty first, then string buffers, counts and entries. */
  function Cmp(a: HStore, b: HStore): int
    requires |a.items| == a.count && |b.items| == b.count
  {
    if a.count == 0 || b.count == 0 then IntCmp(if a.count > 0 then 1 else 0, if b.count > 0 then 1 else 0)
    else if Lex(a.str, b.str) != 0 then Lex(a.str, b.str)
    else if a.count != b.count then IntCmp(a.count, b.count)
    else EntriesCmp(a.items, b.items, 0)
  }

  /** hstore_cmp */
  method HStoreCompare(a: HStore, b: HStore) returns (res: int)
    requires Valid(a) && Valid(b)
    ensures res == Cmp(a, b)
    ensures (res < 0 <==> Before(a, b)) && (res > 0 <==> Before(b, a))
  {
    CmpMeans(a, b);
    CmpMeans(b, a);
    CmpAntisymmetric(a, b);
    res := Compared(a, b);
  }

  method Compared(a: HStore, b: HStore) returns (res: int)
    requires Valid(a) && Valid(b)
    ensures res == Cmp(a, b)
  {
    res := 0;
    if a.count == 0 || b.count == 0 {
      if a.count > 0 {
        res := 1;
      } else if b.count > 0 {
        res := -1;
      }
    } else {
      var len1, len2 := a.items[a.count - 1].val.endpos, b.items[b.count - 1].val.endpos;
      assert len1 == |a.str| && len2 == |b.str|;
      LexByCommonLength(a.str, b.str);
      LexIsSign(a.str, b.str);
      res := CompareN(a.str, b.str, if len1 < len2 then len1 else len2);
      if res == 0 {
        if len1 > len2 {
          res := 1;
        } else if len1 < len2 {
          res := -1;
        } else if a.count > b.count {
          res := 1;
        } else if b.count > a.count {
          res := -1;
        } else {
          var count, i := a.count * 2, 0;
          while i < count && EntryCmp(Entry(a.items, i), Entry(b.items, i)) == 0
            invariant 0 <= i <= count && EntriesCmp(a.items, b.items, 0) == EntriesCmp(a.items, b.items, i)
          {
            i := i + 1;
          }
          if i < count {
            var e, f := Entry(a.items, i), Entry(b.items, i);
            if e.endpos < f.endpos {
              res := -1;
            } else if e.endpos > f.endpos {
              res := 1;
            } else if e.isnull {
              res := 1;
            } else if f.isnull {
              res := -1;
            }
          }
        }
      } else {
        res := if res > 0 then 1 else -1;
      }
    }
  }

  /** Up to entry i the two arrays have the same end positions and nulls. */
  ghost predicate SameUpTo(es: seq<HItem>, fs: seq<HItem>, i: nat)
    requires i <= 2 * |es| && i <= 2 * |fs|
  {
    forall j {:trigger Entry(es, j)} :: 0 <= j < i ==>
      Entry(es, j).endpos == Entry(fs, j).endpos && Entry(es, j).isnull == Entry(fs, j).isnull
  }

  /** At the first entry that differs, i, the first array ends earlier, or at the same place without a null. */
  ghost predicate EntryBefore(es: seq<HItem>, fs: seq<HItem>, i: nat) {
    && i < 2 * |es| && i < 2 * |fs| && SameUpTo(es, fs, i)
    && (|| Entry(es, i).endpos < Entry(fs, i).endpos
        || (Entry(es, i).endpos == Entry(fs, i).endpos && !Entry(es, i).isnull && Entry(fs, i).isnull))
  }

  lemma SameBefore(es: seq<HItem>, fs: seq<HItem>, j: nat, i: nat)
    requires i < j <= 2 * |es| && j <= 2 * |fs| && SameUpTo(es, fs, j)
    ensures EntryCmp(Entry(es, i), Entry(fs, i)) == 0
  {
  }

  lemma {:induction false} EntriesMean(es: seq<HItem>, fs: seq<HItem>, i: nat)
    requires |es| == |fs| && i <= 2 * |es| && SameUpTo(es, fs, i)
    ensures EntriesCmp(es, fs, i) < 0 <==> exists j: nat :: EntryBefore(es, fs, j)
    decreases 2 * |es| - i
  {
    if i < 2 * |es| {
      if EntryCmp(Entry(es, i), Entry(fs, i)) == 0 {
        EntriesMean(es, fs, i + 1);
      } else {
        forall j: nat | EntryBefore(es, fs, j) ensures j == i {
          if j > i { SameBefore(es, fs, j, i); }
        }
        assert EntryBefore(es, fs, i) <==> EntryCmp(Entry(es, i), Entry(fs, i)) < 0;
      }
    }
  }

  /** Empty values first, then by string bytes, then by the number of pairs, then by the first entry that differs. */
  ghost predicate Before(a: HStore, b: HStore) {
    if a.count == 0 || b.count == 0 then a.count == 0 && b.count != 0
    else if a.str != b.str then Precedes(a.str, b.str)
    else if a.count != b.count then a.count < b.count
    else exists i: nat :: EntryBefore(a.items, b.items, i)
  }

  lemma {:induction false} CmpMeans(a: HStore, b: HStore)
    requires Shaped(a) && Shaped(b)
    ensures Cmp(a, b) < 0 <==> Before(a, b)
  {
    LexMeans(a.str, b.str);
    LexOpposite(a.str, b.str);
    if a.count == b.count { EntriesMean(a.items, b.items, 0); }
  }

  lemma {:induction false} EntriesOpposite(es: seq<HItem>, fs: seq<HItem>, i: nat)
    requires |es| == |fs| && i <= 2 * |es|
    ensures EntriesCmp(es, fs, i) == -EntriesCmp(fs, es, i)
    decreases 2 * |es| - i
  {
    if i < 2 * |es| { EntriesOpposite(es, fs, i + 1); }
  }

  lemma {:induction false} EntriesTransitive(es: seq<HItem>, fs: seq<HItem>, gs: seq<HItem>, i: nat)
    requires |es| == |fs| == |gs| && i <= 2 * |es|
    requires EntriesCmp(es, fs, i) <= 0 && EntriesCmp(fs, gs, i) <= 0
    ensures EntriesCmp(es, gs, i) <= 0
    decreases 2 * |es| - i
  {
    if i < 2 * |es| {
      var e, f, g := Entry(es, i), Entry(fs, i), Entry(gs, i);
      if EntryCmp(e, f) == 0 && EntryCmp(f, g) == 0 {
        EntriesTransitive(es, fs, gs, i + 1);
      }
    }
  }

  lemma {:induction false} EntriesEqual(es: seq<HItem>, fs: seq<HItem>, i: nat, j: nat)
    requires |es| == |fs| && i <= j < 2 * |es| && EntriesCmp(es, fs, i) == 0
    ensures EntryCmp(Entry(es, j), Entry(fs, j)) == 0
    decreases j - i
  {
    if i < j { EntriesEqual(es, fs, i + 1, j); }
  }

  lemma {:induction false} EntriesSame(es: seq<HItem>, i: nat)
    requires i <= 2 * |es|
    ensures EntriesCmp(es, es, i) == 0
    decreases 2 * |es| - i
  {
    if i < 2 * |es| { EntriesSame(es, i + 1); }
  }

  lemma {:induction false} CmpAntisymmetric(a: HStore, b: HStore)
    requires Valid(a) && Valid(b)
    ensures Cmp(a, b) == -Cmp(b, a)
  {
    LexOpposite(a.str, b.str);
    if a.count == b.count { EntriesOpposite(a.items, b.items, 0); }
  }

  lemma {:induction false} CmpTransitive(a: HStore, b: HStore, c: HStore)
    requires Valid(a) && Valid(b) && Valid(c)
    requires Cmp(a, b) <= 0 && Cmp(b, c) <= 0
    ensures Cmp(a, c) <= 0
  {
    if a.count > 0 && b.count > 0 && c.count > 0 {
      LexTransitive(a.str, b.str, c.str);
      LexOpposite(a.str, b.str);
      LexOpposite(b.str, c.str);
      LexOpposite(a.str, c.str);
      if a.str == b.str == c.str && a.count == b.count == c.count {
        EntriesTransitive(a.items, b.items, c.items, 0);
      }
    }
  }

  lemma {:induction false} ItemsEqual(a: HStore, b: HStore)
    requires Shaped(a) && Shaped(b) && a.count == b.count && EntriesCmp(a.items, b.items, 0) == 0
    ensures a.items == b.items
  {
    forall i | 0 <= i < a.count ensures a.items[i] == b.items[i] {
      assert ItemOk(a.items, i) && ItemOk(b.items, i);
      EntriesEqual(a.items, b.items, 0, 2 * i);
      EntriesEqual(a.items, b.items, 0, 2 * i + 1);
    }
  }

  lemma {:induction false} CmpZeroIsSame(a: HStore, b: HStore)
    requires Shaped(a) && Shaped(b)
    ensures Cmp(a, b) == 0 <==> a == b
  {
    LexOpposite(a.str, b.str);
    if a == b {
      EntriesSame(a.items, 0);
    }
    if a.count == b.count > 0 && Cmp(a, b) == 0 {
      ItemsEqual(a, b);
    } else if a.count == b.count == 0 {
      assert a.items == b.items == [];
    }
  }

  /** Zero exactly when the two values denote the same map. */
  lemma {:induction false} CmpZero(a: HStore, b: HStore)
    requires Valid(a) && Valid(b)
    ensures Cmp(a, b) == 0 <==> Denotes(a) == Denotes(b)
  {
    CmpZeroIsSame(a, b);
    Canonical(a, b);
  }
}
