/** hstore_in, what it may return, and that it undoes hstore_out. */
module HStoreRoundTrip {
  import opened Wrappers
  import opened Bytes
  import opened HStoreLayout
  import opened HStoreBuild
  import opened HStoreOps
  import opened HStoreParse
  import opened HStoreText
  import opened HStoreGrammar
  import opened HStorePrint

  /** r stores one of the possible choices among pairs with equal keys. */
  ghost predicate Stores(r: Result<HStore>, raw: seq<RawPair>) {
    exists out: seq<RawPair> :: UniqueOf(out, raw) &&
                  r == if Fits(AsPairs(out)) then Ok(Encode(AsPairs(out))) else Error
  }

  /** What hstore_in may return for a text; qsort leaves the choice among equal keys open. */
  ghost predicate InResult(s: Text, r: Result<HStore>) {
    match Parse(s)
    case Error => r.Error?
    case Ok(raw) => Stores(r, raw)
  }

  /** hstore_in */
  method HStoreIn(s: Text) returns (r: Result<HStore>)
    ensures InResult(s, r)
    ensures r.Ok? ==> forall d: Doc :: d.WellFormed() && d.Text() == s ==> HoldsSaid(r.value, d)
  {
    r := Stored(s);
    if r.Ok? {
      forall d: Doc | d.WellFormed() && d.Text() == s ensures HoldsSaid(r.value, d) { InMeans(s, r.value, d); }
    }
  }

  method Stored(s: Text) returns (r: Result<HStore>)
    ensures InResult(s, r)
  {
    var state := new HSParser(s);
    var ok := state.ParseHStore();
    if !ok {
      return Error;
    }
    var raw := state.pairs;
    var a := new RawPair[|raw|](i requires 0 <= i < |raw| => raw[i]);
    assert a[..|raw|] == raw;
    var n, buflen := UniquePairs(a, |raw|);
    r := HStorePairs(a[..n], buflen);
    assert UniqueOf(a[..n], raw);
  }

  /** Whatever hstore_in returns is valid, has exactly the keys of the text, and takes each value from it. */
  lemma {:induction false} InIsFaithful(s: Text, h: HStore)
    requires InResult(s, Ok(h))
    ensures Parse(s).Ok? && Valid(h)
    ensures forall k :: k in Denotes(h) <==> exists x :: x in Parse(s).value && x.key == k
    ensures forall k :: k in Denotes(h) ==> exists x :: x in Parse(s).value && x.AsPair() == Pair(k, Denotes(h)[k])
  {
    var raw := Parse(s).value;
    var out: seq<RawPair> :| UniqueOf(out, raw)
      && Ok(h) == if Fits(AsPairs(out)) then Ok(Encode(AsPairs(out))) else Error;
    StrictIsSorted(out);
    EncodeValid(AsPairs(out));
    forall k | k in Denotes(h)
      ensures exists x :: x in raw && x.key == k
      ensures exists x :: x in raw && x.AsPair() == Pair(k, Denotes(h)[k])
    {
      ToMapAt(AsPairs(out), k);
      var i :| 0 <= i < |out| && AsPairs(out)[i].key == k;
      assert out[i] in raw && out[i].AsPair() == AsPairs(out)[i];
    }
    forall x: RawPair | x in raw ensures x.key in Denotes(h) {
      assert CoveredBy(out, x);
      var i :| 0 <= i < |out| && Covers(out[i], x);
      ToMapAt(AsPairs(out), x.key);
      assert AsPairs(out)[i].key == x.key;
    }
  }

  /** h has exactly the keys a text says, each with a value it says for it. */
  ghost predicate HoldsSaid(h: HStore, d: Doc) {
    && Valid(h)
    && (forall k :: k in Denotes(h) ==> SaidIn(d, Pair(k, Denotes(h)[k])))
    && forall i {:trigger PairsOf(d)[i]} :: 0 <= i < |PairsOf(d)| ==> PairsOf(d)[i].key.Word() in Denotes(h)
  }

  ghost predicate SaidIn(d: Doc, p: Pair) {
    exists i {:trigger PairsOf(d)[i]} :: 0 <= i < |PairsOf(d)| && Said(PairsOf(d)[i]) == p
  }

  lemma {:induction false} SaidOf(d: Doc, p: Pair)
    requires exists x :: x in d.Meaning() && x.AsPair() == p
    ensures SaidIn(d, p)
  {
    DocMeans(d);
    var raw := d.Meaning();
    var x :| x in raw && x.AsPair() == p;
    var i :| 0 <= i < |raw| && raw[i] == x;
    assert Said(PairsOf(d)[i]) == p;
  }

  lemma {:induction false} KeySaid(d: Doc, i: nat)
    requires i < |PairsOf(d)|
    ensures exists x :: x in d.Meaning() && x.key == PairsOf(d)[i].key.Word()
  {
    DocMeans(d);
    assert d.Meaning()[i].AsPair() == Said(PairsOf(d)[i]);
    assert d.Meaning()[i] in d.Meaning();
  }

  /** What hstore_in returns holds what the text says. */
  lemma {:induction false} InMeans(s: Text, h: HStore, d: Doc)
    requires InResult(s, Ok(h)) && d.WellFormed() && d.Text() == s
    ensures HoldsSaid(h, d)
  {
    ParserIsGrammar(s, d.Meaning());
    InIsFaithful(s, h);
    forall k | k in Denotes(h) ensures SaidIn(d, Pair(k, Denotes(h)[k])) {
      SaidOf(d, Pair(k, Denotes(h)[k]));
    }
    forall i | 0 <= i < |PairsOf(d)| ensures PairsOf(d)[i].key.Word() in Denotes(h) {
      KeySaid(d, i);
    }
  }

  function NullPair(): PairText {
    PairText(Bare([], Plain(97), []), [], Bare([], Plain(110), [Plain(117), Plain(108), Plain(108)]), [])
  }

  lemma NullPairSays()
    ensures NullPair().WellFormed() && Said(NullPair()) == Pair([97], None)
    ensures NullPair().Text() == [97, 61, 62, 110, 117, 108, 108]
  {
    var pt := NullPair();
    SpelledNull();
    assert pt.key.Text() == [97] && pt.key.Word() == [97];
  }

  /** The text a=>null stores NULL. */
  lemma {:induction false} LowerCaseNull(h: HStore)
    requires InResult([97, 61, 62, 110, 117, 108, 108], Ok(h))
    ensures Valid(h) && Denotes(h) == map[[97] := None]
  {
    NullPairSays();
    OnePair(NullPair(), h);
  }

  /** A text of one pair stores that pair. */
  lemma {:induction false} OnePair(pt: PairText, h: HStore)
    requires pt.WellFormed() && InResult(pt.Text(), Ok(h))
    ensures Valid(h) && Denotes(h) == map[Said(pt).key := Said(pt).val]
  {
    var d := Last(pt);
    InMeans(pt.Text(), h, d);
    assert PairsOf(d)[0] == pt;
    forall k | k in Denotes(h) ensures k == Said(pt).key && Denotes(h)[k] == Said(pt).val {
      assert SaidIn(d, Pair(k, Denotes(h)[k]));
    }
  }

  function Spaced(c: Byte): PairText {
    PairText(Bare([c], Plain(97), []), [c], Bare([c], Plain(49), []), [c])
  }

  lemma SpacedSays(c: Byte)
    requires c == 32 || 9 <= c <= 13
    ensures Spaced(c).WellFormed() && Said(Spaced(c)) == Pair([97], Some([49]))
    ensures Spaced(c).Text() == [c, 97, c, 61, 62, c, 49, c]
  {
    var pt := Spaced(c);
    assert pt.key.Text() == [c, 97] && pt.val.Text() == [c, 49] && pt.val.Word() == [49];
  }

  /** A blank, a tab and the other four space characters are skipped around words. */
  lemma {:induction false} SpacesSkipped(c: Byte, h: HStore)
    requires c == 32 || 9 <= c <= 13
    requires InResult([c, 97, c, 61, 62, c, 49, c], Ok(h))
    ensures Valid(h) && Denotes(h) == map[[97] := Some([49])]
  {
    SpacedSays(c);
    OnePair(Spaced(c), h);
  }

  lemma SpelledNull()
    ensures var v := Bare([], Plain(110), [Plain(117), Plain(108), Plain(108)]);
      v.Text() == [110, 117, 108, 108] && v.Word() == [110, 117, 108, 108] && SpellsNull(v)
  {
    var b, c, d := Plain(117), Plain(108), Plain(108);
    assert [b, c, d][1..] == [c, d] && [c, d][1..] == [d] && [d][1..] == [];
    assert Written([d]) == [108] && Written([c, d]) == [108, 108] && Written([b, c, d]) == [117, 108, 108];
    assert Chars([d]) == [108] && Chars([c, d]) == [108, 108] && Chars([b, c, d]) == [117, 108, 108];
  }

  /** Pairs with distinct keys are all stored. */
  lemma {:induction false} DistinctKeysStored(out: seq<RawPair>, raw: seq<RawPair>)
    requires StrictKeys(raw) && UniqueOf(out, raw)
    ensures AsPairs(out) == AsPairs(raw)
  {
    var ps, qs := AsPairs(out), AsPairs(raw);
    StrictIsSorted(out);
    StrictIsSorted(raw);
    forall i | 0 <= i < |out| ensures out[i].key in ToMap(qs) && ToMap(qs)[out[i].key] == ps[i].val {
      var j :| 0 <= j < |raw| && raw[j] == out[i];
      MergeHit(qs, j);
      assert qs[j] == ps[i];
    }
    forall k ensures k in ToMap(ps) <==> k in ToMap(qs)
      ensures k in ToMap(ps) ==> ToMap(ps)[k] == ToMap(qs)[k]
    {
      ToMapAt(ps, k);
      ToMapAt(qs, k);
      if k in ToMap(qs) {
        var j :| 0 <= j < |qs| && qs[j].key == k;
        assert raw[j] in raw && CoveredBy(out, raw[j]);
        var i :| 0 <= i < |out| && Covers(out[i], raw[j]);
        assert ps[i].key == k;
      }
      if k in ToMap(ps) {
        var i :| 0 <= i < |ps| && ps[i].key == k;
        assert out[i].key == k;
      }
    }
    assert ToMap(ps) == ToMap(qs);
    SameMapSamePairs(ps, qs);
  }

  // The printed text as a text of the grammar

  function NullSpelling(): Spelling { Bare([], Plain(78), [Plain(85), Plain(76), Plain(76)]) }

  function ValSpelling(v: Option<Text>): Spelling {
    if v.None? then NullSpelling() else Quoted([], EscapeItems(v.value))
  }

  function PrintedPair(p: Pair, lead: Text): PairText {
    PairText(Quoted(lead, EscapeItems(p.key)), [], ValSpelling(p.val), [])
  }

  function PrintedDoc(ps: seq<Pair>, i: nat, lead: Text): Doc
    requires i < |ps|
    decreases |ps| - i
  {
    if i + 1 == |ps| then Last(PrintedPair(ps[i], lead))
    else More(PrintedPair(ps[i], lead), PrintedDoc(ps, i + 1, [SPACE]))
  }

  lemma NullWritten()
    ensures NullSpelling().Text() == NULL_TEXT && NullSpelling().Word() == NULL_TEXT
    ensures NullSpelling().WellFormed(true) && IsNullWord(NULL_TEXT)
  {
    var items := [Plain(85), Plain(76), Plain(76)];
    assert items[1..] == [Plain(76), Plain(76)] && items[1..][1..] == [Plain(76)] && items[1..][1..][1..] == [];
    assert Written(items) == [85] + ([76] + ([76] + [])) && Chars(items) == [85] + ([76] + ([76] + []));
  }

  lemma PrintedPairText(p: Pair, lead: Text)
    ensures PrintedPair(p, lead).Text() == lead + PairOut(p)
  {
    var k, v := InQuotes(p.key), ValText(p.val);
    QuotedText(lead, p.key);
    ValSpellingText(p.val);
    PairAssoc(lead, k, v);
  }

  lemma QuotedText(lead: Text, t: Text)
    ensures Quoted(lead, EscapeItems(t)).Text() == lead + InQuotes(t)
  {
    var e := Escape(t);
    assert lead + [QUOTE] + e + [QUOTE] == lead + ([QUOTE] + e + [QUOTE]);
  }

  lemma ValSpellingText(v: Option<Text>)
    ensures ValSpelling(v).Text() == ValText(v)
  {
    if v.None? {
      NullWritten();
    } else {
      QuotedText([], v.value);
      assert [] + InQuotes(v.value) == InQuotes(v.value);
    }
  }

  lemma PairAssoc(lead: Text, k: Text, v: Text)
    ensures lead + k + [] + ARROW + (v + []) == lead + (k + ARROW + v)
  {
  }

  lemma PrintedPairMeans(p: Pair, lead: Text)
    requires Spaces(lead) && Short(p)
    ensures PrintedPair(p, lead).WellFormed()
    ensures PrintedPair(p, lead).Meaning().AsPair() == p
  {
    NullWritten();
    CharsOfEscape(p.key);
    if p.val.Some? { CharsOfEscape(p.val.value); }
  }

  /** What Join writes from text i on. */
  function Rest(ts: seq<Text>, i: nat): Text
    requires i < |ts|
    decreases |ts| - i
  {
    if i + 1 == |ts| then ts[i] else ts[i] + [COMMA, SPACE] + Rest(ts, i + 1)
  }

  lemma {:induction false} JoinRest(ts: seq<Text>, i: nat)
    requires i < |ts|
    ensures Join(ts, |ts|) == Join(ts, i) + Rest(ts, i)
    decreases |ts| - i
  {
    if i + 1 == |ts| {
      assert Join(ts, i) + ts[i] + [] == Join(ts, i) + ts[i];
    } else {
      JoinRest(ts, i + 1);
      assert Join(ts, i) + ts[i] + [COMMA, SPACE] + Rest(ts, i + 1)
          == Join(ts, i) + (ts[i] + [COMMA, SPACE] + Rest(ts, i + 1));
    }
  }

  lemma {:induction false} PrintedDocText(ps: seq<Pair>, ts: seq<Text>, i: nat, lead: Text)
    requires i < |ps| && TextsOf(ts, ps)
    ensures PrintedDoc(ps, i, lead).Text() == lead + Rest(ts, i)
    decreases |ps| - i
  {
    PrintedPairText(ps[i], lead);
    assert PairOut(ps[i]) == ts[i];
    if i + 1 < |ps| {
      PrintedDocText(ps, ts, i + 1, [SPACE]);
      MoreText(PrintedPair(ps[i], lead), PrintedDoc(ps, i + 1, [SPACE]), lead, ts[i], Rest(ts, i + 1));
    }
  }

  lemma {:induction false} MoreText(pt: PairText, d: Doc, lead: Text, t: Text, r: Text)
    requires pt.Text() == lead + t && d.Text() == [SPACE] + r
    ensures More(pt, d).Text() == lead + (t + [COMMA, SPACE] + r)
  {
    assert lead + t + [COMMA] + ([SPACE] + r) == lead + (t + [COMMA, SPACE] + r);
  }

  /** Keys and values within the lengths the parser accepts. */
  predicate Short(p: Pair) {
    |p.key| <= HSTORE_MAX_KEY_LEN && |p.ValBytes()| <= HSTORE_MAX_VALUE_LEN
  }

  lemma {:induction false} PrintedDocOk(ps: seq<Pair>, i: nat, lead: Text)
    requires i < |ps| && Spaces(lead) && forall j {:trigger Short(ps[j])} :: 0 <= j < |ps| ==> Short(ps[j])
    ensures PrintedDoc(ps, i, lead).WellFormed()
    decreases |ps| - i
  {
    assert Short(ps[i]);
    PrintedPairMeans(ps[i], lead);
    if i + 1 < |ps| {
      PrintedDocOk(ps, i + 1, [SPACE]);
      MoreOk(PrintedPair(ps[i], lead), PrintedDoc(ps, i + 1, [SPACE]));
    }
  }

  lemma {:induction false} MoreOk(pt: PairText, d: Doc)
    requires pt.WellFormed() && d.WellFormed()
    ensures More(pt, d).WellFormed()
  {
  }

  lemma AsPairsCons(m: RawPair, rest: seq<RawPair>)
    ensures AsPairs([m] + rest) == [m.AsPair()] + AsPairs(rest)
  {
  }

  lemma {:induction false} PrintedDocMeans(ps: seq<Pair>, i: nat, lead: Text)
    requires i < |ps| && Spaces(lead) && forall j {:trigger Short(ps[j])} :: 0 <= j < |ps| ==> Short(ps[j])
    ensures AsPairs(PrintedDoc(ps, i, lead).Meaning()) == ps[i..]
    decreases |ps| - i
  {
    assert Short(ps[i]);
    var pt := PrintedPair(ps[i], lead);
    PrintedPairMeans(ps[i], lead);
    if i + 1 < |ps| {
      PrintedDocMeans(ps, i + 1, [SPACE]);
      MoreMeans(pt, PrintedDoc(ps, i + 1, [SPACE]));
    } else {
      LastMeans(pt);
    }
    assert ps[i..] == [ps[i]] + ps[i + 1..];
  }

  lemma {:induction false} MoreMeans(pt: PairText, d: Doc)
    ensures AsPairs(More(pt, d).Meaning()) == [pt.Meaning().AsPair()] + AsPairs(d.Meaning())
  {
    AsPairsCons(pt.Meaning(), d.Meaning());
  }

  lemma {:induction false} LastMeans(pt: PairText)
    ensures AsPairs(Last(pt).Meaning()) == [pt.Meaning().AsPair()]
  {
  }

  /** The parser reads back exactly the pairs that were printed. */
  lemma {:induction false} ParsePrinted(ps: seq<Pair>)
    requires Fits(ps)
    ensures Parse(Printed(ps)).Ok? && AsPairs(Parse(Printed(ps)).value) == ps
  {
    var s, ts := Printed(ps), PairTexts(ps);
    assert s[0..] == s;
    if ps == [] {
      ReadsDoc(s, 0, End([]), []);
    } else {
      forall j | 0 <= j < |ps| ensures Short(ps[j]) {
        RoomFor(ps, j);
      }
      var d := PrintedDoc(ps, 0, []);
      PrintedDocOk(ps, 0, []);
      PrintedDocMeans(ps, 0, []);
      PrintedDocText(ps, ts, 0, []);
      JoinRest(ts, 0);
      assert [] + Rest(ts, 0) == Rest(ts, 0);
      ReadsDoc(s, 0, d, []);
      assert [] + d.Meaning() == d.Meaning();
      assert ps[0..] == ps;
    }
  }

  /** Reading back a printed hstore yields the identical value, whichever order qsort takes. */
  lemma {:induction false} RoundTrip(hs: HStore, r: Result<HStore>)
    requires Valid(hs) && InResult(Printed(Decode(hs)), r)
    ensures r == Ok(hs)
  {
    var ps := Decode(hs);
    EncodeDecode(hs);
    ParsePrinted(ps);
    var raw := Parse(Printed(ps)).value;
    SortedIsStrict(raw);
    var out: seq<RawPair> :| UniqueOf(out, raw) && r == if Fits(AsPairs(out)) then Ok(Encode(AsPairs(out))) else Error;
    DistinctKeysStored(out, raw);
  }

  lemma SortedIsStrict(rs: seq<RawPair>)
    requires Sorted(AsPairs(rs))
    ensures StrictKeys(rs)
  {
    forall i, j | 0 <= i < j < |rs| ensures KeyLess(rs[i].key, rs[j].key) {
      assert KeyLess(AsPairs(rs)[i].key, AsPairs(rs)[j].key);
    }
  }

  /** hstore_in(hstore_out(hs)), run as code. */
  method OutThenIn(hs: HStore) returns (t: Result<Text>, r: Result<HStore>)
    requires Valid(hs)
    ensures t.Ok? <==> Estimate(Decode(hs), hs.count) <= MAX_ALLOC_SIZE
    ensures t.Ok? ==> r == Ok(hs)
  {
    t := HStoreOut(hs);
    r := Error;
    if t.Ok? {
      r := HStoreIn(t.value);
      RoundTrip(hs, r);
    }
  }
}
