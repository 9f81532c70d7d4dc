/** The grammar of hstore texts, and that parse_hstore accepts exactly its texts. */
module HStoreGrammar {
  import opened Wrappers
  import opened HStoreLayout
  import opened HStoreBuild
  import opened HStoreParse
  import opened HStoreText

  const ARROW: Text := [EQUALS, GREATER]

  datatype PairText = PairText(key: Spelling, gap: Text, val: Spelling, after: Text) {
    function Text(): Text { key.Text() + gap + ARROW + (val.Text() + after) }

    predicate WellFormed() {
      && key.WellFormed(false) && Spaces(gap) && val.WellFormed(true) && Spaces(after)
      && |key.Word()| <= HSTORE_MAX_KEY_LEN && |val.Word()| <= HSTORE_MAX_VALUE_LEN
    }

    function Meaning(): RawPair { MakePair(key.Word(), val.Word(), val.Quoted?) }
  }

  /** Pairs with commas between; a last comma and spaces may follow. */
  datatype Doc = End(ws: Text) | Last(p: PairText) | More(p: PairText, rest: Doc) {
    function Text(): Text {
      match this
      case End(ws) => ws
      case Last(p) => p.Text()
      case More(p, rest) => p.Text() + [COMMA] + rest.Text()
    }

    predicate WellFormed() {
      match this
      case End(ws) => Spaces(ws)
      case Last(p) => p.WellFormed()
      case More(p, rest) => p.WellFormed() && rest.WellFormed()
    }

    function Meaning(): seq<RawPair> {
      match this
      case End(_) => []
      case Last(p) => [p.Meaning()]
      case More(p, rest) => [p.Meaning()] + rest.Meaning()
    }
  }

  // Reading a pair

  lemma {:induction false} ReadsGap(s: Text, p: nat, q: nat, k: Text, acc: seq<RawPair>)
    requires p <= q <= |s| && Spaces(s[p..q])
    ensures ParseFrom(s, p, WEq(k), acc) == ParseFrom(s, q, WEq(k), acc)
    decreases q - p
  {
    if p < q {
      assert s[p..q][0] == s[p] && s[p + 1..q] == s[p..q][1..];
      ReadsGap(s, p + 1, q, k, acc);
    }
  }

  lemma {:induction false} ReadsAfter(s: Text, p: nat, q: nat, acc: seq<RawPair>)
    requires p <= q <= |s| && Spaces(s[p..q])
    ensures ParseFrom(s, p, WDel, acc) == ParseFrom(s, q, WDel, acc)
    decreases q - p
  {
    if p < q {
      assert s[p..q][0] == s[p] && s[p + 1..q] == s[p..q][1..];
      ReadsAfter(s, p + 1, q, acc);
    }
  }

  /** Whether or not get_val consumed the first of them, spaces lead from where ptr was left to q. */
  lemma SpacesOn(s: Text, e: nat, n: nat, q: nat)
    requires LeftBy(s, e, n) && e <= q <= |s| && Spaces(s[e..q]) && (q < |s| ==> !IsSpace(s[q]))
    ensures n + 1 <= q && Spaces(s[n + 1..q])
  {
    if n == e {
      assert s[n + 1..q] == s[e..q][1..];
    }
  }

  /** The parts of a written pair, where the arrow stands and where the pair ends. */
  lemma PairParts(s: Text, p: nat, pt: PairText) returns (g: nat, q: nat)
    requires HasAt(s, p, pt.Text())
    ensures HasAt(s, p, pt.key.Text()) && p + |pt.key.Text()| <= g && g + 1 < |s| && s[p + |pt.key.Text()|..g] == pt.gap
    ensures s[g] == EQUALS && s[g + 1] == GREATER
    ensures HasAt(s, g + 2, pt.val.Text()) && g + 2 + |pt.val.Text()| <= q && q == p + |pt.Text()| <= |s|
    ensures s[g + 2 + |pt.val.Text()|..q] == pt.after
  {
    g, q := FiveParts(s, p, pt.key.Text(), pt.gap, pt.val.Text(), pt.after);
  }

  lemma FiveParts(s: Text, p: nat, k: Text, gap: Text, v: Text, after: Text) returns (g: nat, q: nat)
    requires HasAt(s, p, k + gap + ARROW + (v + after))
    ensures HasAt(s, p, k) && p + |k| <= g && g + 1 < |s| && s[p + |k|..g] == gap
    ensures s[g] == EQUALS && s[g + 1] == GREATER
    ensures HasAt(s, g + 2, v) && g + 2 + |v| <= q && q == p + |k + gap + ARROW + (v + after)| <= |s|
    ensures s[g + 2 + |v|..q] == after
  {
    g := p + |k| + |gap|;
    q := g + 2 + |v| + |after|;
    HasAtFour(s, p, k, gap, ARROW, v + after);
    HasAtSplit(s, g + 2, v, after);
    assert s[g] == s[g..g + 2][0] && s[g + 1] == s[g..g + 2][1];
  }

  /** From a key at p to its value at g + 2. */
  lemma {:induction false} ReadsKey(s: Text, p: nat, key: Spelling, g: nat, acc: seq<RawPair>)
    requires key.WellFormed(false) && HasAt(s, p, key.Text()) && |key.Word()| <= HSTORE_MAX_KEY_LEN
    requires p + |key.Text()| <= g && g + 1 < |s| && Spaces(s[p + |key.Text()|..g])
    requires s[g] == EQUALS && s[g + 1] == GREATER
    ensures ParseFrom(s, p, WKey, acc) == ParseFrom(s, g + 2, WVal(key.Word()), acc)
  {
    var e := p + |key.Text()|;
    StopsBefore(s, e, g, false);
    var n := SpellingRead(s, p, key, false, e);
    ReadsToArrow(s, p, acc, key.Word(), key.Quoted?, e, n, g);
  }

  /** Spaces and then the arrow, the comma or the end stop a bare word. */
  lemma StopsBefore(s: Text, e: nat, q: nat, ignoreeq: bool)
    requires e <= q <= |s| && Spaces(s[e..q])
    requires if ignoreeq then q < |s| ==> s[q] == COMMA else q < |s| && s[q] == EQUALS
    ensures EndsBare(s, e, ignoreeq)
  {
    assert e < q ==> s[e] == s[e..q][0];
  }

  lemma {:induction false} ReadsToArrow(
    s: Text, p: nat, acc: seq<RawPair>, k: Text, escaped: bool, e: nat, n: nat, g: nat)
    requires p <= |s| && GetValFrom(s, p, WaitVal, false, false, []) == GvWord(k, escaped, n) &&
      |k| <= HSTORE_MAX_KEY_LEN
    requires LeftBy(s, e, n) && e <= g && g + 1 < |s| && Spaces(s[e..g]) && s[g] == EQUALS && s[g + 1] == GREATER
    ensures ParseFrom(s, p, WKey, acc) == ParseFrom(s, g + 2, WVal(k), acc)
  {
    SpacesOn(s, e, n, g);
    ReadsGap(s, n + 1, g, k, acc);
    ReadsArrow(s, g, k, acc);
  }

  lemma {:induction false} ReadsArrow(s: Text, g: nat, k: Text, acc: seq<RawPair>)
    requires g + 1 < |s| && s[g] == EQUALS && s[g + 1] == GREATER
    ensures ParseFrom(s, g, WEq(k), acc) == ParseFrom(s, g + 2, WVal(k), acc)
  {
    assert ParseFrom(s, g, WEq(k), acc) == ParseFrom(s, g + 1, WGt(k), acc);
  }

  lemma {:induction false} ValueStep(s: Text, v: nat, k: Text, acc: seq<RawPair>, w: Text, escaped: bool, q: nat)
    requires v <= |s| && GetValFrom(s, v, WaitVal, true, false, []) == GvWord(w, escaped, q)
    requires |w| <= HSTORE_MAX_VALUE_LEN
    ensures ParseFrom(s, v, WVal(k), acc) == ParseFrom(s, q + 1, WDel, acc + [MakePair(k, w, escaped)])
  {
  }

  /** From a value at v to the delimiter at q. */
  lemma {:induction false} ReadsValue(s: Text, v: nat, val: Spelling, q: nat, k: Text, acc: seq<RawPair>)
    requires val.WellFormed(true) && HasAt(s, v, val.Text()) && |val.Word()| <= HSTORE_MAX_VALUE_LEN
    requires v + |val.Text()| <= q <= |s| && Spaces(s[v + |val.Text()|..q])
    requires q < |s| ==> s[q] == COMMA
    ensures ParseFrom(s, v, WVal(k), acc) ==
            ParseFrom(s, q, WDel, acc + [MakePair(k, val.Word(), val.Quoted?)])
  {
    var f := v + |val.Text()|;
    StopsBefore(s, f, q, true);
    var n := SpellingRead(s, v, val, true, f);
    ReadsToDelimiter(s, v, k, acc, val.Word(), val.Quoted?, f, n, q);
  }

  lemma {:induction false} ReadsToDelimiter(
    s: Text, v: nat, k: Text, acc: seq<RawPair>, w: Text, escaped: bool, f: nat, n: nat, q: nat)
    requires v <= |s| && GetValFrom(s, v, WaitVal, true, false, []) == GvWord(w, escaped, n) &&
      |w| <= HSTORE_MAX_VALUE_LEN
    requires LeftBy(s, f, n) && f <= q <= |s| && Spaces(s[f..q]) && (q < |s| ==> s[q] == COMMA)
    ensures ParseFrom(s, v, WVal(k), acc) == ParseFrom(s, q, WDel, acc + [MakePair(k, w, escaped)])
  {
    SpacesOn(s, f, n, q);
    ValueStep(s, v, k, acc, w, escaped, n);
    ReadsAfter(s, n + 1, q, acc + [MakePair(k, w, escaped)]);
  }

  lemma {:induction false} ReadsPair(s: Text, p: nat, pt: PairText, acc: seq<RawPair>)
    requires pt.WellFormed() && HasAt(s, p, pt.Text())
    requires p + |pt.Text()| < |s| ==> s[p + |pt.Text()|] == COMMA
    ensures ParseFrom(s, p, WKey, acc) == ParseFrom(s, p + |pt.Text()|, WDel, acc + [pt.Meaning()])
  {
    var g, q := PairParts(s, p, pt);
    ReadsParts(s, p, pt.key, g, pt.val, q, acc);
  }

  lemma {:induction false} ReadsParts(s: Text, p: nat, key: Spelling, g: nat, val: Spelling, q: nat, acc: seq<RawPair>)
    requires key.WellFormed(false) && HasAt(s, p, key.Text()) && |key.Word()| <= HSTORE_MAX_KEY_LEN
    requires p + |key.Text()| <= g && g + 1 < |s| && Spaces(s[p + |key.Text()|..g])
    requires s[g] == EQUALS && s[g + 1] == GREATER
    requires val.WellFormed(true) && HasAt(s, g + 2, val.Text()) && |val.Word()| <= HSTORE_MAX_VALUE_LEN
    requires g + 2 + |val.Text()| <= q <= |s| && Spaces(s[g + 2 + |val.Text()|..q])
    requires q < |s| ==> s[q] == COMMA
    ensures ParseFrom(s, p, WKey, acc) ==
            ParseFrom(s, q, WDel, acc + [MakePair(key.Word(), val.Word(), val.Quoted?)])
  {
    ReadsKey(s, p, key, g, acc);
    ReadsValue(s, g + 2, val, q, key.Word(), acc);
  }

  /** Every text of the grammar is read, with its meaning. */
  lemma {:induction false} ReadsDoc(s: Text, p: nat, d: Doc, acc: seq<RawPair>)
    requires p <= |s| && d.WellFormed() && s[p..] == d.Text()
    ensures ParseFrom(s, p, WKey, acc) == Ok(acc + d.Meaning())
    decreases d
  {
    match d
    case End(ws) =>
      EndSound(s, p, false);
      assert acc + [] == acc;
    case Last(pt) =>
      ReadsLast(s, p, pt, acc);
    case More(pt, rest) =>
      var e := ReadsMore(s, p, pt, rest.Text(), acc);
      ReadsDoc(s, e, rest, acc + [pt.Meaning()]);
      assert acc + [pt.Meaning()] + rest.Meaning() == acc + d.Meaning();
  }

  lemma {:induction false} ReadsLast(s: Text, p: nat, pt: PairText, acc: seq<RawPair>)
    requires p <= |s| && pt.WellFormed() && s[p..] == pt.Text()
    ensures ParseFrom(s, p, WKey, acc) == Ok(acc + [pt.Meaning()])
  {
    assert s[p..p + |pt.Text()|] == s[p..];
    ReadsPair(s, p, pt, acc);
  }

  lemma {:induction false} ReadsMore(s: Text, p: nat, pt: PairText, rest: Text, acc: seq<RawPair>) returns (e: nat)
    requires p <= |s| && pt.WellFormed() && s[p..] == pt.Text() + [COMMA] + rest
    ensures e <= |s| && s[e..] == rest
    ensures ParseFrom(s, p, WKey, acc) == ParseFrom(s, e, WKey, acc + [pt.Meaning()])
  {
    e := p + |pt.Text()| + 1;
    ThreeFrom(s, p, pt.Text(), rest);
    ReadsPair(s, p, pt, acc);
    CommaStep(s, e - 1, acc + [pt.Meaning()]);
  }

  lemma {:induction false} CommaStep(s: Text, p: nat, acc: seq<RawPair>)
    requires p < |s| && s[p] == COMMA
    ensures ParseFrom(s, p, WDel, acc) == ParseFrom(s, p + 1, WKey, acc)
  {
  }

  lemma ThreeFrom(s: Text, p: nat, t: Text, u: Text)
    requires p <= |s| && s[p..] == t + [COMMA] + u
    ensures HasAt(s, p, t) && p + |t| < |s| && s[p + |t|] == COMMA && s[p + |t| + 1..] == u
  {
    assert s[p..p + |t|] == s[p..][..|t|];
    assert s[p + |t|] == s[p..][|t|];
    assert s[p + |t| + 1..] == s[p..][|t| + 1..];
  }

  // Every accepted text is of the grammar

  lemma {:induction false} EqSound(s: Text, p: nat, k: Text, acc: seq<RawPair>) returns (g: nat)
    requires p <= |s| && ParseFrom(s, p, WEq(k), acc).Ok?
    ensures p <= g && g + 1 < |s| && Spaces(s[p..g]) && s[g] == EQUALS && s[g + 1] == GREATER
    ensures ParseFrom(s, p, WEq(k), acc) == ParseFrom(s, g + 2, WVal(k), acc)
    decreases |s| - p
  {
    if CharAt(s, p) == EQUALS {
      g := p;
    } else {
      g := EqSound(s, p + 1, k, acc);
      assert s[p..g] == [s[p]] + s[p + 1..g];
    }
  }

  lemma {:induction false} DelSound(s: Text, p: nat, acc: seq<RawPair>) returns (q: nat)
    requires p <= |s| && ParseFrom(s, p, WDel, acc).Ok?
    ensures p <= q <= |s| && Spaces(s[p..q]) && (q < |s| ==> s[q] == COMMA)
    ensures q < |s| ==> ParseFrom(s, p, WDel, acc) == ParseFrom(s, q + 1, WKey, acc)
    decreases |s| - p
  {
    if p == |s| || s[p] == COMMA {
      q := p;
    } else {
      q := DelSound(s, p + 1, acc);
      assert s[p..q] == [s[p]] + s[p + 1..q];
    }
  }

  /** The spaces between a word's end e and g, whether or not get_val consumed the first. */
  lemma SpacesFrom(s: Text, e: nat, n: nat, g: nat)
    requires LeftBy(s, e, n) && n + 1 <= g <= |s| && Spaces(s[n + 1..g])
    ensures e <= g && Spaces(s[e..g])
  {
    if n == e {
      assert s[e..g] == [s[e]] + s[n + 1..g];
    }
  }

  lemma {:induction false} KeyStep(s: Text, p: nat, acc: seq<RawPair>, w: Text, escaped: bool, n: nat)
    requires p <= |s| && GetValFrom(s, p, WaitVal, false, false, []) == GvWord(w, escaped, n) && n < |s|
    requires ParseFrom(s, p, WKey, acc).Ok?
    ensures |w| <= HSTORE_MAX_KEY_LEN && ParseFrom(s, p, WKey, acc) == ParseFrom(s, n + 1, WEq(w), acc)
  {
  }

  lemma {:induction false} KeySound(s: Text, p: nat, acc: seq<RawPair>) returns (key: Spelling, g: nat)
    requires p <= |s| && ParseFrom(s, p, WKey, acc).Ok? && !Spaces(s[p..])
    ensures key.WellFormed(false) && HasAt(s, p, key.Text()) && |key.Word()| <= HSTORE_MAX_KEY_LEN
    ensures p + |key.Text()| <= g && g + 1 < |s| && Spaces(s[p + |key.Text()|..g])
    ensures s[g] == EQUALS && s[g + 1] == GREATER
    ensures ParseFrom(s, p, WKey, acc) == ParseFrom(s, g + 2, WVal(key.Word()), acc)
  {
    EndSound(s, p, false);
    var k, e, n := SpellingFound(s, p, false);
    key := k;
    g := ArrowSound(s, p, acc, key.Word(), key.Quoted?, e, n);
  }

  lemma {:induction false} ArrowSound(
    s: Text, p: nat, acc: seq<RawPair>, w: Text, escaped: bool, e: nat, n: nat) returns (g: nat)
    requires p <= |s| && ParseFrom(s, p, WKey, acc).Ok?
    requires GetValFrom(s, p, WaitVal, false, false, []) == GvWord(w, escaped, n) && n < |s| && LeftBy(s, e, n)
    ensures |w| <= HSTORE_MAX_KEY_LEN && e <= g && g + 1 < |s| && Spaces(s[e..g])
    ensures s[g] == EQUALS && s[g + 1] == GREATER
    ensures ParseFrom(s, p, WKey, acc) == ParseFrom(s, g + 2, WVal(w), acc)
  {
    KeyStep(s, p, acc, w, escaped, n);
    g := EqSound(s, n + 1, w, acc);
    SpacesFrom(s, e, n, g);
  }

  lemma {:induction false} ValueStepOk(s: Text, v: nat, k: Text, acc: seq<RawPair>, w: Text, escaped: bool, n: nat)
    requires v <= |s| && GetValFrom(s, v, WaitVal, true, false, []) == GvWord(w, escaped, n) && n < |s|
    requires ParseFrom(s, v, WVal(k), acc).Ok?
    ensures |w| <= HSTORE_MAX_VALUE_LEN
    ensures ParseFrom(s, v, WVal(k), acc) == ParseFrom(s, n + 1, WDel, acc + [MakePair(k, w, escaped)])
  {
  }

  lemma {:induction false} ValueSound(s: Text, v: nat, k: Text, acc: seq<RawPair>) returns (val: Spelling, q: nat)
    requires v <= |s| && ParseFrom(s, v, WVal(k), acc).Ok?
    ensures val.WellFormed(true) && HasAt(s, v, val.Text()) && |val.Word()| <= HSTORE_MAX_VALUE_LEN
    ensures |val.Text()| > 0 && v + |val.Text()| <= q <= |s| && Spaces(s[v + |val.Text()|..q])
    ensures q < |s| ==> s[q] == COMMA
    ensures q < |s| ==> ParseFrom(s, v, WVal(k), acc) ==
                        ParseFrom(s, q + 1, WKey, acc + [MakePair(k, val.Word(), val.Quoted?)])
  {
    var w, f, n := SpellingFound(s, v, true);
    val := w;
    ValueStepOk(s, v, k, acc, val.Word(), val.Quoted?, n);
    q := DelSound(s, n + 1, acc + [MakePair(k, val.Word(), val.Quoted?)]);
    SpacesFrom(s, f, n, q);
  }

  lemma AssemblePair(s: Text, p: nat, key: Spelling, g: nat, val: Spelling, q: nat) returns (pt: PairText)
    requires HasAt(s, p, key.Text()) && p + |key.Text()| <= g && g + 1 < |s|
    requires s[g] == EQUALS && s[g + 1] == GREATER
    requires HasAt(s, g + 2, val.Text()) && g + 2 + |val.Text()| <= q <= |s|
    ensures pt == PairText(key, s[p + |key.Text()|..g], val, s[g + 2 + |val.Text()|..q])
    ensures p <= q && s[p..q] == pt.Text()
  {
    var e, f := p + |key.Text()|, g + 2 + |val.Text()|;
    pt := PairText(key, s[e..g], val, s[f..q]);
    JoinParts(s, p, e, g, f, q);
    assert s[p..e] == key.Text() && s[g + 2..f] == val.Text() && s[g..g + 2] == ARROW;
    assert pt.Text() == s[p..e] + s[e..g] + s[g..g + 2] + (s[g + 2..f] + s[f..q]);
  }

  lemma JoinParts(s: Text, p: nat, e: nat, g: nat, f: nat, q: nat)
    requires p <= e <= g && g + 2 <= f <= q <= |s|
    ensures s[p..q] == s[p..e] + s[e..g] + s[g..g + 2] + (s[g + 2..f] + s[f..q])
  {
    assert s[p..e] + s[e..g] == s[p..g];
    assert s[p..g] + s[g..g + 2] == s[p..g + 2];
    assert s[g + 2..f] + s[f..q] == s[g + 2..q];
  }

  lemma JoinDoc(s: Text, p: nat, q: nat)
    requires p <= q < |s|
    ensures s[p..] == s[p..q] + [s[q]] + s[q + 1..]
  {
  }

  lemma {:induction false} PairSound(s: Text, p: nat, acc: seq<RawPair>) returns (pt: PairText, q: nat)
    requires p <= |s| && ParseFrom(s, p, WKey, acc).Ok? && !Spaces(s[p..])
    ensures pt.WellFormed() && p <= q <= |s| && s[p..q] == pt.Text()
    ensures q < |s| ==> s[q] == COMMA && ParseFrom(s, q + 1, WKey, acc + [pt.Meaning()]).Ok?
  {
    var key, g := KeySound(s, p, acc);
    var val, q' := ValueSound(s, g + 2, key.Word(), acc);
    q := q';
    pt := AssemblePair(s, p, key, g, val, q);
  }

  lemma {:induction false} DocSound(s: Text, p: nat, acc: seq<RawPair>) returns (d: Doc)
    requires p <= |s| && ParseFrom(s, p, WKey, acc).Ok?
    ensures d.WellFormed() && d.Text() == s[p..]
    decreases |s| - p
  {
    if Spaces(s[p..]) {
      d := End(s[p..]);
    } else {
      var pt, q := PairSound(s, p, acc);
      if q == |s| {
        d := Last(pt);
        assert s[p..q] == s[p..];
      } else {
        var rest := DocSound(s, q + 1, acc + [pt.Meaning()]);
        d := More(pt, rest);
        JoinDoc(s, p, q);
      }
    }
  }

  /** parse_hstore accepts a text exactly when the grammar derives it, and yields the derivation's pairs. */
  lemma {:induction false} ParserIsGrammar(s: Text, ps: seq<RawPair>)
    ensures Parse(s) == Ok(ps) <==> exists d: Doc :: d.WellFormed() && d.Text() == s && d.Meaning() == ps
  {
    assert s[0..] == s;
    if Parse(s).Ok? {
      var d := DocSound(s, 0, []);
      ReadsDoc(s, 0, d, []);
      assert [] + d.Meaning() == d.Meaning();
    }
    forall d: Doc | d.WellFormed() && d.Text() == s ensures Parse(s) == Ok(d.Meaning()) {
      ReadsDoc(s, 0, d, []);
      assert [] + d.Meaning() == d.Meaning();
    }
  }

  // What a text says

  /** Letters A to Z as a to z. */
  function Lowered(w: Text): (r: Text)
    ensures |r| == |w| && forall i :: 0 <= i < |w| ==> r[i] == if 65 <= w[i] <= 90 then w[i] + 32 else w[i]
  {
    seq(|w|, i requires 0 <= i < |w| => if 65 <= w[i] <= 90 then w[i] + 32 else w[i])
  }

  /** A bare word that is null in any mixture of cases. */
  predicate SpellsNull(v: Spelling) { v.Bare? && Lowered(v.Word()) == [110, 117, 108, 108] }

  /** The pair a text of a pair says. */
  function Said(pt: PairText): Pair {
    Pair(pt.key.Word(), if SpellsNull(pt.val) then None else Some(pt.val.Word()))
  }

  lemma PairMeans(pt: PairText)
    ensures pt.Meaning().AsPair() == Said(pt)
    ensures pt.Meaning().isnull <==> SpellsNull(pt.val)
  {
    var w, word: Text := pt.val.Word(), [110, 117, 108, 108];
    if |w| == 4 {
      var l := Lowered(w);
      assert l == word <==> l[0] == 110 && l[1] == 117 && l[2] == 108 && l[3] == 108;
    }
  }

  function PairsOf(d: Doc): seq<PairText> {
    match d
    case End(_) => []
    case Last(p) => [p]
    case More(p, rest) => [p] + PairsOf(rest)
  }

  /** A text means the pairs it says, in order: NULL exactly for a bare null in any case. */
  lemma {:induction false} DocMeans(d: Doc)
    ensures |d.Meaning()| == |PairsOf(d)|
    ensures forall i {:trigger d.Meaning()[i]} :: 0 <= i < |d.Meaning()| ==>
      d.Meaning()[i].AsPair() == Said(PairsOf(d)[i]) && (d.Meaning()[i].isnull <==> SpellsNull(PairsOf(d)[i].val))
  {
    if !d.End? { PairMeans(d.p); }
    if d.More? { DocMeans(d.rest); }
  }
}
