/**
  Values written by the old contrib/hstore: the check that recognises them and the
  in-place rewrite of their entries. Each old entry occupies the same eight bytes as
  the two new entries that replace it.
 */
module HStoreCompat {
  import opened Wrappers
  import opened Bytes
  import opened HStoreLayout

  type Word = w: int | 0 <= w < 0x1_0000_0000

  /** Eight bytes of the entry array, as two 32-bit words. */
  datatype Slot = Slot(lo: Word, hi: Word)

  // HOldEntry in the usual i386 layout: keylen in the low half, valisnull in the low bit

  function OldKeyLen(s: Slot): nat { s.lo % 0x1_0000 }

  function OldValLen(s: Slot): nat { s.lo / 0x1_0000 }

  predicate OldIsNull(s: Slot) { s.hi % 2 == 1 }

  function OldPos(s: Slot): nat { s.hi / 2 }

  // HEntry

  function Pack(e: HEntry): Word {
    e.endpos + (if e.isnull then 0x4000_0000 else 0) + (if e.first then 0x8000_0000 else 0)
  }

  function Unpack(w: Word): HEntry {
    HEntry(w >= 0x8000_0000, w / 0x4000_0000 % 2 == 1, w % 0x4000_0000)
  }

  lemma UnpackPack(e: HEntry)
    ensures Unpack(Pack(e)) == e
  {
  }

  /** A value's bytes: length word, size_ word, entry array, and all bytes that follow, padding included. */
  datatype Image = Image(varsize: nat, size: Word, slots: seq<Slot>, str: seq<Octet>)

  /** The regions fill the declared size, and split where the count says if that is inside the value. */
  ghost predicate WellSized(m: Image) {
    && m.varsize <= MAX_ALLOC_SIZE && m.varsize == CalcDataSize(|m.slots|, |m.str|)
    && (m.size <= 0xFFF_FFFF && CalcDataSize(m.size, 0) <= m.varsize ==> |m.slots| == m.size)
  }

  /** Where entry i starts if the entries before it are contiguous. */
  function OldEnd(slots: seq<Slot>, i: nat): nat
    requires i <= |slots|
  {
    if i == 0 then 0 else
      OldEnd(slots, i - 1) + OldKeyLen(slots[i - 1]) + if OldIsNull(slots[i - 1]) then 0 else OldValLen(slots[i - 1])
  }

  ghost predicate OldOrdered(slots: seq<Slot>) {
    forall i {:trigger OldKeyLen(slots[i])} :: 1 <= i < |slots| ==> OldKeyLen(slots[i - 1]) <= OldKeyLen(slots[i])
  }

  ghost predicate OldContiguous(slots: seq<Slot>) {
    forall i {:trigger OldPos(slots[i])} :: 0 <= i < |slots| ==> OldPos(slots[i]) == OldEnd(slots, i)
  }

  /** Old format: no new-version flag, entries in key-length order, contiguous, inside the value. */
  ghost predicate OldOk(m: Image) {
    && m.size <= 0xFFF_FFFF
    && m.size == |m.slots| && CalcDataSize(m.size, 0) <= m.varsize
    && OldOrdered(m.slots) && OldContiguous(m.slots)
    && CalcDataSize(m.size, OldEnd(m.slots, m.size)) <= m.varsize
  }

  method CheckOrdered(slots: seq<Slot>) returns (ok: bool)
    requires slots != []
    ensures ok <==> OldOrdered(slots)
  {
    for i := 1 to |slots|
      invariant forall j {:trigger OldKeyLen(slots[j])} :: 1 <= j < i ==> OldKeyLen(slots[j - 1]) <= OldKeyLen(slots[j])
    {
      if OldKeyLen(slots[i]) < OldKeyLen(slots[i - 1]) {
        return false;
      }
    }
    return true;
  }

  method CheckContiguous(slots: seq<Slot>) returns (ok: bool, lastpos: nat)
    ensures ok <==> OldContiguous(slots)
    ensures ok ==> lastpos == OldEnd(slots, |slots|)
  {
    lastpos := 0;
    for i := 0 to |slots|
      invariant lastpos == OldEnd(slots, i)
      invariant forall j {:trigger OldPos(slots[j])} :: 0 <= j < i ==> OldPos(slots[j]) == OldEnd(slots, j)
    {
      if OldPos(slots[i]) != lastpos {
        return false, lastpos;
      }
      lastpos := lastpos + OldKeyLen(slots[i]) + if OldIsNull(slots[i]) then 0 else OldValLen(slots[i]);
    }
    return true, lastpos;
  }

  /** hstoreValidOldFormat: 0 not valid, 1 valid with slop in the length, 2 exactly valid. */
  method ValidOldFormat(m: Image) returns (v: int)
    requires WellSized(m)
    ensures v == 0 || v == 1 || v == 2
    ensures v != 0 <==> OldOk(m)
    ensures v != 0 ==> (v == 2 <==> m.size == 0 || m.varsize == CalcDataSize(m.size, OldEnd(m.slots, m.size)))
  {
    var count := m.size;
    if m.size >= 0x8000_0000 {
      return 0;
    }
    if count == 0 {
      return 2;
    }
    if count > 0xFFF_FFFF {
      return 0;
    }
    if CalcDataSize(count, 0) > m.varsize {
      return 0;
    }
    if OldPos(m.slots[0]) != 0 {
      assert OldEnd(m.slots, 0) == 0;
      return 0;
    }
    var ok := CheckOrdered(m.slots);
    if !ok {
      return 0;
    }
    var lastpos;
    ok, lastpos := CheckContiguous(m.slots);
    if !ok {
      return 0;
    }
    var vsize := CalcDataSize(count, lastpos);
    if vsize > m.varsize {
      return 0;
    }
    if vsize != m.varsize {
      return 1;
    }
    return 2;
  }

  // The rewrite

  /** The bytes the entries cover are text, so they hold no NUL; what follows them may. */
  ghost predicate HoldsText(m: Image) {
    && OldEnd(m.slots, |m.slots|) <= |m.str|
    && forall i :: 0 <= i < OldEnd(m.slots, |m.slots|) ==> m.str[i] != 0
  }

  /** The string bytes in use. */
  ghost function Used(m: Image): (t: Text)
    requires HoldsText(m)
    ensures |t| == OldEnd(m.slots, |m.slots|)
  {
    AsText(m.str[..OldEnd(m.slots, |m.slots|)])
  }

  /** The pairs an old-format value holds, read through its old entries. */
  ghost function OldPairs(m: Image): (ps: seq<Pair>)
    requires WellSized(m) && OldOk(m) && HoldsText(m)
    ensures |ps| == |m.slots|
    ensures forall i :: 0 <= i < |ps| ==> ps[i] == OldPair(m, i)
  {
    seq(|m.slots|, i requires 0 <= i < |m.slots| => OldPair(m, i))
  }

  ghost function OldPair(m: Image, i: nat): Pair
    requires WellSized(m) && OldOk(m) && HoldsText(m) && i < |m.slots|
  {
    var s := m.slots[i];
    var k := OldPos(s) + OldKeyLen(s);
    OldEndsInside(m, i + 1);
    Pair(Used(m)[OldPos(s)..k], if OldIsNull(s) then None else Some(Used(m)[k..k + OldValLen(s)]))
  }

  lemma {:induction false} OldEndsInside(m: Image, i: nat)
    requires WellSized(m) && OldOk(m) && i <= |m.slots|
    ensures OldEnd(m.slots, i) <= OldEnd(m.slots, |m.slots|) <= |m.str| < POS_LIMIT
    decreases |m.slots| - i
  {
    if i < |m.slots| { OldEndsInside(m, i + 1); }
  }

  /** What the rewrite puts over an old entry. */
  function NewSlot(s: Slot): Slot {
    var k := OldPos(s) + OldKeyLen(s);
    var v := if OldIsNull(s) then 0 else OldValLen(s);
    Slot(Pack(HEntry(false, false, Mask(k))), Pack(HEntry(false, OldIsNull(s), Mask(k + v))))
  }

  function NewItem(s: Slot): HItem { HItem(Unpack(s.lo), Unpack(s.hi)) }

  /** The value read in the new format. */
  ghost function NewView(m: Image): HStore
    requires m.size % COUNT_LIMIT == |m.slots|
    requires NewText(m)
  {
    HStore(m.varsize, m.size >= 0x8000_0000, |m.slots|,
           seq(|m.slots|, i requires 0 <= i < |m.slots| => NewItem(m.slots[i])),
           AsText(m.str[..m.varsize - CalcDataSize(|m.slots|, 0)]))
  }

  /** The declared size ends inside the bytes, and those up to it are text. */
  ghost predicate NewText(m: Image) {
    && CalcDataSize(|m.slots|, 0) <= m.varsize <= CalcDataSize(|m.slots|, |m.str|)
    && forall i :: 0 <= i < m.varsize - CalcDataSize(|m.slots|, 0) ==> m.str[i] != 0
  }

  /** A value in memory. */
  class Varlena {
    var varsize: nat
    var size: Word
    const slots: array<Slot>
    const str: seq<Octet>

    constructor (m: Image)
      ensures View() == m && fresh(slots)
    {
      varsize, size, str := m.varsize, m.size, m.str;
      slots := new Slot[|m.slots|](i requires 0 <= i < |m.slots| => m.slots[i]);
      new;
      assert slots[..] == m.slots;
    }

    ghost function View(): Image
      reads this, slots
    {
      Image(varsize, size, slots[..], str)
    }

    /** The loop of hstoreUpgrade: every new pair of entries overwrites the old entry just read. */
    method RewriteEntries()
      modifies slots
      ensures forall i :: 0 <= i < slots.Length ==> slots[i] == NewSlot(old(slots[i]))
    {
      for i := 0 to slots.Length
        invariant forall j :: 0 <= j < i ==> slots[j] == NewSlot(old(slots[j]))
        invariant forall j :: i <= j < slots.Length ==> slots[j] == old(slots[j])
      {
        var pos, keylen, vallen, isnull :=
          OldPos(slots[i]), OldKeyLen(slots[i]), OldValLen(slots[i]), OldIsNull(slots[i]);
        if isnull {
          vallen := 0;
        }
        slots[i] := slots[i].(lo := Pack(HEntry(false, false, Mask(pos + keylen))));
        slots[i] := slots[i].(hi := Pack(HEntry(false, isnull, Mask(pos + keylen + vallen))));
      }
    }

    /** The rewrite of hstoreUpgrade, with HS_SETCOUNT and HS_FIXSIZE. */
    method Upgrade()
      requires WellSized(View()) && OldOk(View()) && HoldsText(View())
      modifies this, slots
      ensures View().size % COUNT_LIMIT == |View().slots| && NewText(View())
      ensures Shaped(NewView(View())) && Decode(NewView(View())) == OldPairs(old(View()))
    {
      ghost var m := View();
      var count := size;
      RewriteEntries();
      if count > 0 {
        slots[0] := slots[0].(lo := Pack(Unpack(slots[0].lo).(first := true)));
      }
      size := count + 0x8000_0000;
      var bl := if count > 0 then Unpack(slots[count - 1].hi).endpos else 0;
      varsize := CalcDataSize(count, bl);
      Upgraded(m, View());
    }
  }

  /** m' is what the rewrite makes of m. */
  ghost predicate Rewritten(m: Image, m': Image) {
    && |m'.slots| == |m.slots| && m'.str == m.str && m'.size == |m.slots| + 0x8000_0000
    && (forall i {:trigger m'.slots[i]} :: 0 <= i < |m.slots| ==>
          m'.slots[i] == if i == 0 then Flagged(NewSlot(m.slots[0])) else NewSlot(m.slots[i]))
    && m'.varsize == CalcDataSize(|m.slots|, if |m.slots| == 0 then 0 else Unpack(m'.slots[|m.slots| - 1].hi).endpos)
  }

  function Flagged(s: Slot): Slot { s.(lo := Pack(Unpack(s.lo).(first := true))) }

  lemma NewItemOf(s: Slot, k: nat, v: nat)
    requires k == OldPos(s) + OldKeyLen(s) && v == (if OldIsNull(s) then 0 else OldValLen(s)) && k + v < POS_LIMIT
    ensures var item := HItem(HEntry(false, false, k), HEntry(false, OldIsNull(s), k + v));
            && NewItem(NewSlot(s)) == item
            && NewItem(Flagged(NewSlot(s))) == item.(key := item.key.(first := true))
  {
    MaskSmall(k);
    MaskSmall(k + v);
    UnpackPack(HEntry(false, false, k));
    UnpackPack(HEntry(true, false, k));
    UnpackPack(HEntry(false, OldIsNull(s), k + v));
  }

  /** The new item over old entry i. */
  ghost function Expected(slots: seq<Slot>, i: nat): HItem
    requires i < |slots| && OldEnd(slots, i + 1) < POS_LIMIT
  {
    HItem(HEntry(i == 0, false, OldEnd(slots, i) + OldKeyLen(slots[i])),
          HEntry(false, OldIsNull(slots[i]), OldEnd(slots, i + 1)))
  }

  lemma {:induction false} ItemOfSlot(m: Image, m': Image, i: nat)
    requires WellSized(m) && OldOk(m) && Rewritten(m, m') && i < |m.slots|
    ensures OldEnd(m.slots, i + 1) <= |m.str| < POS_LIMIT
    ensures NewItem(m'.slots[i]) == Expected(m.slots, i)
  {
    var s := m.slots[i];
    OldEndsInside(m, i + 1);
    assert OldPos(s) == OldEnd(m.slots, i);
    NewItemOf(s, OldPos(s) + OldKeyLen(s), if OldIsNull(s) then 0 else OldValLen(s));
  }

  /** Items as expected are contiguous and hold the old pairs. */
  lemma {:induction false} ExpectedItems(m: Image, hs: HStore)
    requires WellSized(m) && OldOk(m) && |hs.items| == |m.slots|
    requires forall i :: 0 <= i <= |m.slots| ==> OldEnd(m.slots, i) < POS_LIMIT
    requires forall i :: 0 <= i < |m.slots| ==> hs.items[i] == Expected(m.slots, i)
    requires |hs.str| == OldEnd(m.slots, |m.slots|)
    ensures Contiguous(hs.items, |hs.str|)
    ensures forall i :: 0 <= i <= |m.slots| ==> Start(hs.items, i) == OldEnd(m.slots, i)
  {
    forall i | 0 <= i < |m.slots| ensures ItemOk(hs.items, i) {
      assert i > 0 ==> hs.items[i - 1] == Expected(m.slots, i - 1);
    }
  }

  lemma {:induction false} SamePair(m: Image, hs: HStore, i: nat)
    requires WellSized(m) && OldOk(m) && HoldsText(m) && Shaped(hs) && i < hs.count == |m.slots|
    requires OldEnd(m.slots, i + 1) < POS_LIMIT && hs.str == Used(m)
    requires hs.items[i] == Expected(m.slots, i) && Start(hs.items, i) == OldEnd(m.slots, i)
    ensures PairAt(hs, i) == OldPair(m, i)
  {
    ItemBounds(hs.items, |hs.str|, i);
    assert OldPos(m.slots[i]) == OldEnd(m.slots, i);
    OldEndsInside(m, i + 1);
  }

  lemma CountOfSize(n: nat)
    requires n <= 0xFFF_FFFF
    ensures (n + 0x8000_0000) % COUNT_LIMIT == n
  {
    assert n + 0x8000_0000 == 8 * COUNT_LIMIT + n;
  }

  lemma {:induction false} UpgradedSize(m: Image, m': Image)
    requires WellSized(m) && OldOk(m) && Rewritten(m, m')
    ensures m'.varsize == CalcDataSize(|m.slots|, OldEnd(m.slots, |m.slots|))
    ensures OldEnd(m.slots, |m.slots|) <= |m.str|
  {
    if |m.slots| > 0 { ItemOfSlot(m, m', |m.slots| - 1); }
  }

  lemma {:induction false} UpgradedHead(m: Image, m': Image)
    requires WellSized(m) && OldOk(m) && HoldsText(m) && Rewritten(m, m')
    ensures m'.size % COUNT_LIMIT == |m'.slots| && NewText(m')
    ensures forall i :: 0 <= i <= |m.slots| ==> OldEnd(m.slots, i) <= |m.str| < POS_LIMIT
    ensures m'.varsize - CalcDataSize(|m.slots|, 0) == OldEnd(m.slots, |m.slots|)
  {
    CountOfSize(|m.slots|);
    UpgradedSize(m, m');
    forall i | 0 <= i <= |m.slots| ensures OldEnd(m.slots, i) <= |m.str| < POS_LIMIT {
      OldEndsInside(m, i);
    }
  }

  lemma {:induction false} Upgraded(m: Image, m': Image)
    requires WellSized(m) && OldOk(m) && HoldsText(m) && Rewritten(m, m')
    ensures m'.size % COUNT_LIMIT == |m'.slots| && NewText(m')
    ensures Shaped(NewView(m')) && Decode(NewView(m')) == OldPairs(m)
  {
    var n := |m.slots|;
    UpgradedHead(m, m');
    var hs := NewView(m');
    forall i | 0 <= i < n ensures hs.items[i] == Expected(m.slots, i) {
      ItemOfSlot(m, m', i);
    }
    ExpectedItems(m, hs);
    forall i | 0 <= i < n ensures PairAt(hs, i) == OldPair(m, i) {
      SamePair(m, hs, i);
    }
  }

  // The fast path

  /** hstoreUpgrade returns such a value as it is. */
  ghost predicate ReturnedAsIs(m: Image) {
    m.size >= 0x8000_0000 || m.size == 0 || (m.varsize < 32768 && |m.slots| > 0 && Unpack(m.slots[0].lo).first)
  }

  /**
    An old value with entries is taken for a new one, and left alone, exactly when its
    first value is null while the unused length field of that null is 32768 or more.
   */
  lemma {:induction false} OldTakenForNew(m: Image)
    requires WellSized(m) && OldOk(m) && m.size > 0
    ensures ReturnedAsIs(m) <==>
            m.varsize < 32768 && OldIsNull(m.slots[0]) && OldValLen(m.slots[0]) >= 32768
  {
    OldEndsInside(m, 1);
    assert OldEnd(m.slots, 0) == 0;
    assert OldEnd(m.slots, 1) == OldKeyLen(m.slots[0]) + if OldIsNull(m.slots[0]) then 0 else OldValLen(m.slots[0]);
  }

  /** Such a value exists: the one pair "" => NULL with a stale length. */
  lemma StaleNullTakenForNew()
    ensures var m := Image(16, 1, [Slot(0x8000_0000, 1)], []);
            WellSized(m) && OldOk(m) && HoldsText(m) && OldPairs(m) == [Pair([], None)] && ReturnedAsIs(m)
  {
    var m := Image(16, 1, [Slot(0x8000_0000, 1)], []);
    assert OldEnd(m.slots, 1) == OldEnd(m.slots, 0) + 0;
    assert OldPair(m, 0) == Pair([], None);
  }

  /** The words of an entry: the end position, with flags in the two highest bits. */
  lemma PackedWords()
    ensures Pack(HEntry(true, false, 1)) == 0x8000_0001 && Pack(HEntry(false, true, 3)) == 0x4000_0003
  {
  }

  /** Two old pairs, a=>1 and b=>NULL: the lengths in the first word, position and null bit in the second. */
  lemma OldTwo()
    ensures var m := Image(27, 2, [Slot(0x0001_0001, 0), Slot(0x0000_0001, 5)], [97, 49, 98]);
      WellSized(m) && OldOk(m) && HoldsText(m) && OldPairs(m) == [Pair([97], Some([49])), Pair([98], None)]
  {
    var m := Image(27, 2, [Slot(0x0001_0001, 0), Slot(0x0000_0001, 5)], [97, 49, 98]);
    assert OldEnd(m.slots, 0) == 0;
    assert OldEnd(m.slots, 1) == 2;
    assert OldEnd(m.slots, 2) == 3;
    var t := Used(m);
    assert t == [97, 49, 98];
    assert t[0..1] == [97] && t[1..2] == [49] && t[2..3] == [98];
    assert OldPair(m, 0) == Pair([97], Some([49]));
    assert OldPair(m, 1) == Pair([98], None);
  }
}
