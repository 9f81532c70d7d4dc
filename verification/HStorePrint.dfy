/** hstore_out: escaping, the length computed in advance, and the text written. */
module HStorePrint {
  import opened Wrappers
  import opened Bytes
  import opened HStoreLayout
  import opened HStoreParse
  import opened HStoreGrammar

  const NULL_TEXT: Text := [78, 85, 76, 76]

  function EscapeChar(c: Byte): Item { if c == QUOTE || c == BACKSLASH then Escaped(c) else Plain(c) }

  function EscapeItems(t: Text): (items: seq<Item>)
    ensures |items| == |t| && forall i :: 0 <= i < |t| ==> items[i] == EscapeChar(t[i])
  {
    seq(|t|, i requires 0 <= i < |t| => EscapeChar(t[i]))
  }

  /** What cpw writes for t. */
  function Escape(t: Text): Text { Written(EscapeItems(t)) }

  lemma {:induction false} WrittenSnoc(items: seq<Item>, i: Item)
    ensures Written(items + [i]) == Written(items) + i.Written()
  {
    if items == [] {
      assert items + [i] == [i] && [i][1..] == [];
    } else {
      assert (items + [i])[0] == items[0] && (items + [i])[1..] == items[1..] + [i];
      WrittenSnoc(items[1..], i);
    }
  }

  lemma EscapeSnoc(t: Text, c: Byte)
    ensures Escape(t + [c]) == Escape(t) + EscapeChar(c).Written()
  {
    assert EscapeItems(t + [c]) == EscapeItems(t) + [EscapeChar(c)];
    WrittenSnoc(EscapeItems(t), EscapeChar(c));
  }

  lemma {:induction false} EscapeSize(t: Text)
    ensures |Escape(t)| <= 2 * |t|
  {
    if t == [] {
      assert EscapeItems(t) == [];
    } else {
      var n := |t| - 1;
      EscapeSize(t[..n]);
      EscapeSnoc(t[..n], t[n]);
      assert t == t[..n] + [t[n]];
    }
  }

  /** How many bytes are quotes or backslashes. */
  function Marks(t: Text): (n: nat)
    ensures n <= |t|
  {
    if t == [] then 0 else Marks(t[..|t| - 1]) + if t[|t| - 1] == 34 || t[|t| - 1] == 92 then 1 else 0
  }

  /** Escaping adds one byte for each quote or backslash, and leaves other texts as they are. */
  lemma {:induction false} EscapeAdds(t: Text)
    ensures |Escape(t)| == |t| + Marks(t)
    ensures Marks(t) == 0 ==> Escape(t) == t
  {
    if t == [] {
      assert EscapeItems(t) == [];
    } else {
      var n := |t| - 1;
      EscapeAdds(t[..n]);
      EscapeSnoc(t[..n], t[n]);
      assert t == t[..n] + [t[n]];
    }
  }

  /** A text without quotes and backslashes is printed between quotes as it is. */
  lemma {:induction false} PlainPrinted(t: Text)
    requires 34 !in t && 92 !in t
    ensures InQuotes(t) == [34] + t + [34]
  {
    Unmarked(t);
    EscapeAdds(t);
  }

  lemma {:induction false} Unmarked(t: Text)
    requires 34 !in t && 92 !in t
    ensures Marks(t) == 0
  {
    if t != [] { Unmarked(t[..|t| - 1]); }
  }

  /** The length estimated for a pair exceeds what it takes by the bytes that need no escape. */
  lemma {:induction false} EstimateExact(p: Pair)
    ensures EstimateOne(p) == |PairOut(p)| + 2 + (|p.key| - Marks(p.key)) +
      if p.val.None? then 0 else |p.val.value| - Marks(p.val.value)
  {
    EscapeAdds(p.key);
    if p.val.Some? { EscapeAdds(p.val.value); }
  }

  /** Two pairs as they are printed: "a"=>"1", "b"=>NULL. */
  lemma {:induction false} PrintedTwo()
    ensures Printed([Pair([97], Some([49])), Pair([98], None)]) ==
      [34, 97, 34, 61, 62, 34, 49, 34, 44, 32, 34, 98, 34, 61, 62, 78, 85, 76, 76]
  {
    var p, q := Pair([97], Some([49])), Pair([98], None);
    PlainPrinted([97]);
    PlainPrinted([49]);
    PlainPrinted([98]);
    assert PairOut(p) == [34, 97, 34, 61, 62, 34, 49, 34];
    assert PairOut(q) == [34, 98, 34, 61, 62, 78, 85, 76, 76];
    var ts := PairTexts([p, q]);
    assert Join(ts, 0) == [];
    assert Join(ts, 1) == ts[0] + [44, 32];
    assert Join(ts, 2) == Join(ts, 1) + ts[1] + [];
  }

  lemma {:induction false} CharsOfEscape(t: Text)
    ensures Chars(EscapeItems(t)) == t && QuotedItems(EscapeItems(t))
  {
    if t != [] {
      assert EscapeItems(t)[1..] == EscapeItems(t[1..]);
      CharsOfEscape(t[1..]);
    }
  }

  function ValText(v: Option<Text>): Text {
    if v.None? then NULL_TEXT else InQuotes(v.value)
  }

  function InQuotes(t: Text): (r: Text)
    ensures |r| == |Escape(t)| + 2
  {
    [QUOTE] + Escape(t) + [QUOTE]
  }

  function PairOut(p: Pair): Text { InQuotes(p.key) + ARROW + ValText(p.val) }

  function PairTexts(ps: seq<Pair>): (ts: seq<Text>)
    ensures |ts| == |ps| && forall i :: 0 <= i < |ps| ==> ts[i] == PairOut(ps[i])
  {
    seq(|ps|, i requires 0 <= i < |ps| => PairOut(ps[i]))
  }

  /** The first i of the given texts, with a comma and a space after each but the last. */
  function Join(ts: seq<Text>, i: nat): Text
    requires i <= |ts|
  {
    if i == 0 then [] else Join(ts, i - 1) + ts[i - 1] + if i != |ts| then [COMMA, SPACE] else []
  }

  function Printed(ps: seq<Pair>): Text { Join(PairTexts(ps), |ps|) }

  function EstimateOne(p: Pair): nat {
    6 + 2 * |p.key| + 2 + if p.val.None? then 2 else 2 * |p.val.value|
  }

  /** The buffer length hstore_out computes in advance. */
  function Estimate(ps: seq<Pair>, i: nat): nat
    requires i <= |ps|
  {
    if i == 0 then 0 else Estimate(ps, i - 1) + EstimateOne(ps[i - 1])
  }

  lemma PairOutSize(p: Pair)
    ensures |PairOut(p)| + 2 <= EstimateOne(p)
  {
    EscapeSize(p.key);
    if p.val.Some? { EscapeSize(p.val.value); }
  }

  lemma {:induction false} EstimateGrows(ps: seq<Pair>, i: nat, j: nat)
    requires i <= j <= |ps|
    ensures Estimate(ps, i) <= Estimate(ps, j)
  {
    if i < j { EstimateGrows(ps, i, j - 1); }
  }

  /** A char* that moves over a buffer of known length. */
  class Output {
    const buf: array<Byte>
    var ptr: nat

    ghost predicate Valid()
      reads this
    {
      ptr <= buf.Length
    }

    ghost function Text(): seq<Byte>
      requires Valid()
      reads this, buf
    {
      buf[..ptr]
    }

    constructor (n: nat)
      ensures Valid() && Text() == [] && buf.Length == n && fresh(buf)
    {
      buf := new Byte[n](_ => 1);
      ptr := 0;
    }

    method Put(c: Byte)
      requires Valid() && ptr < buf.Length
      modifies this, buf
      ensures Valid() && Text() == old(Text()) + [c]
    {
      buf[ptr] := c;
      ptr := ptr + 1;
    }

    method PutText(t: seq<Byte>)
      requires Valid() && ptr + |t| <= buf.Length
      modifies this, buf
      ensures Valid() && Text() == old(Text()) + t
    {
      for i := 0 to |t|
        invariant Valid() && ptr + |t| - i <= buf.Length && Text() == old(Text()) + t[..i]
      {
        Put(t[i]);
      }
      assert t[..|t|] == t;
    }

    /** cpw: copies with a backslash before quotes and backslashes. */
    method Cpw(src: seq<Byte>)
      requires Valid() && ptr + |Escape(src)| <= buf.Length
      modifies this, buf
      ensures Valid() && Text() == old(Text()) + Escape(src)
    {
      assert EscapeItems(src[..0]) == [];
      for i := 0 to |src|
        invariant Valid() && Text() == old(Text()) + Escape(src[..i])
      {
        EscapePrefix(src, i + 1);
        EscapeSnoc(src[..i], src[i]);
        assert src[..i + 1] == src[..i] + [src[i]];
        if src[i] == QUOTE || src[i] == BACKSLASH {
          Put(BACKSLASH);
        }
        Put(src[i]);
      }
      assert src[..|src|] == src;
    }

    method PutQuoted(src: seq<Byte>)
      requires Valid() && ptr + |Escape(src)| + 2 <= buf.Length
      modifies this, buf
      ensures Valid() && Text() == old(Text()) + InQuotes(src)
    {
      Put(QUOTE);
      Cpw(src);
      Put(QUOTE);
    }
  }

  lemma {:induction false} EscapePrefix(t: Text, i: nat)
    requires i <= |t|
    ensures |Escape(t[..i])| <= |Escape(t)|
    decreases |t| - i
  {
    if i == |t| {
      assert t[..i] == t;
    } else {
      assert t[..i + 1] == t[..i] + [t[i]];
      EscapeSnoc(t[..i], t[i]);
      EscapePrefix(t, i + 1);
    }
  }

  /** One turn of the printing loop, without the separator. */
  method PutPair(o: Output, key: Text, val: Option<Text>)
    requires o.Valid() && o.ptr + |PairOut(Pair(key, val))| <= o.buf.Length
    modifies o, o.buf
    ensures o.Valid() && o.Text() == old(o.Text()) + PairOut(Pair(key, val))
  {
    ghost var was, k, v := o.Text(), InQuotes(key), ValText(val);
    Assoc(was, k, ARROW, v);
    o.PutQuoted(key);
    o.PutText(ARROW);
    if val.None? {
      o.PutText(NULL_TEXT);
    } else {
      o.PutQuoted(val.value);
    }
  }

  lemma Assoc(a: Text, b: Text, c: Text, d: Text)
    ensures a + b + c + d == a + (b + c + d)
  {
  }

  method PrintedLength(hs: HStore) returns (buflen: nat)
    requires Shaped(hs)
    ensures buflen == Estimate(Decode(hs), hs.count)
  {
    buflen := 0;
    for i := 0 to hs.count
      invariant buflen == Estimate(Decode(hs), i)
    {
      assert Decode(hs)[i] == PairAt(hs, i);
      ItemBounds(hs.items, |hs.str|, i);
      buflen := buflen + 6 + 2 * KeyLen(hs, i);
      buflen := buflen + 2 + if ValIsNull(hs, i) then 2 else 2 * ValLen(hs, i);
    }
  }

  /** hstore_out: refused only when the estimate is more than palloc gives. */
  method HStoreOut(hs: HStore) returns (r: Result<Text>)
    requires Valid(hs)
    ensures r.Ok? <==> Estimate(Decode(hs), hs.count) <= MAX_ALLOC_SIZE
    ensures r.Ok? ==> r.value == Printed(Decode(hs))
  {
    if hs.count == 0 {
      return Ok([]);
    }
    var buflen := PrintedLength(hs);
    if buflen > MAX_ALLOC_SIZE {
      return Error;
    }
    var o := new Output(buflen);
    ghost var ps := Decode(hs);
    forall i | 0 <= i < |ps| ensures |PairTexts(ps)[i]| + 2 <= EstimateOne(ps[i]) {
      PairOutSize(ps[i]);
    }
    PrintAll(o, hs, PairTexts(ps));
    return Ok(o.buf[..o.ptr]);
  }

  ghost predicate TextsOf(ts: seq<Text>, ps: seq<Pair>) {
    |ts| == |ps| && forall i {:trigger PairOut(ps[i])} :: 0 <= i < |ps| ==> ts[i] == PairOut(ps[i])
  }

  /** The printing loop; the buffer has a byte left for the terminating NUL. */
  method PrintAll(o: Output, hs: HStore, ghost ts: seq<Text>)
    requires Shaped(hs) && hs.count > 0 && o.Valid() && o.ptr == 0
    requires o.buf.Length == Estimate(Decode(hs), hs.count)
    requires TextsOf(ts, Decode(hs))
    requires forall i {:trigger EstimateOne(Decode(hs)[i])} :: 0 <= i < |ts| ==>
      |ts[i]| + 2 <= EstimateOne(Decode(hs)[i])
    modifies o, o.buf
    ensures o.Valid() && o.Text() == Join(ts, |ts|) && o.ptr < o.buf.Length
  {
    for i := 0 to hs.count
      invariant o.Valid() && o.Text() == Join(ts, i)
    {
      JoinRoom(ts, Decode(hs), i);
      PrintOne(o, hs, i, ts);
    }
    JoinRoom(ts, Decode(hs), hs.count);
    assert o.ptr == |o.Text()|;
  }

  lemma {:induction false} JoinRoom(ts: seq<Text>, ps: seq<Pair>, i: nat)
    requires i <= |ps| == |ts|
    requires forall i {:trigger EstimateOne(ps[i])} :: 0 <= i < |ps| ==> |ts[i]| + 2 <= EstimateOne(ps[i])
    ensures |Join(ts, i)| <= Estimate(ps, i)
    ensures i == |ps| > 0 ==> |Join(ts, i)| < Estimate(ps, |ps|)
    ensures i < |ps| ==> |Join(ts, i)| + |ts[i]| + 2 <= Estimate(ps, |ps|)
  {
    if i > 0 {
      JoinRoom(ts, ps, i - 1);
    }
    if i < |ps| {
      EstimateGrows(ps, i + 1, |ps|);
    }
  }

  method PrintOne(o: Output, hs: HStore, i: nat, ghost ts: seq<Text>)
    requires Shaped(hs) && i < hs.count && TextsOf(ts, Decode(hs))
    requires o.Valid() && o.Text() == Join(ts, i) && |Join(ts, i)| + |ts[i]| + 2 <= o.buf.Length
    modifies o, o.buf
    ensures o.Valid() && o.Text() == Join(ts, i + 1)
  {
    assert o.ptr == |o.Text()|;
    var p := PairAt(hs, i);
    assert Decode(hs)[i] == p && ts[i] == PairOut(Decode(hs)[i]);
    PutPair(o, p.key, p.val);
    if i + 1 != hs.count {
      o.PutText([COMMA, SPACE]);
    } else {
      assert o.Text() + [] == o.Text();
    }
  }
}
