/**
  get_val of the hstore text parser: a state machine over a NUL-terminated string. The
  spellings of a word are given on their own, and it reads exactly those.
 */
module HStoreParse {
  import opened Bytes
  import opened HStoreLayout

  const QUOTE: Byte := 34
  const BACKSLASH: Byte := 92
  const EQUALS: Byte := 61
  const GREATER: Byte := 62
  const COMMA: Byte := 44
  const SPACE: Byte := 32

  /** isspace in the C locale. */
  predicate IsSpace(c: int) { c == SPACE || 9 <= c <= 13 }

  /** The character at p of a C string; NUL is 0. */
  function CharAt(s: Text, p: nat): int { if p < |s| then s[p] else 0 }

  // get_val

  datatype GvState = WaitVal | InVal | InEscVal | WaitEscIn | WaitEscEscIn

  /** What get_val reports: a syntax error, the end of the string, or a word with where ptr is left. */
  datatype GvResult = GvError | GvEnd | GvWord(word: Text, escaped: bool, ptr: nat)

  /** The state machine of get_val, from position p on. */
  function GetValFrom(s: Text, p: nat, st: GvState, ignoreeq: bool, escaped: bool, word: Text): (r: GvResult)
    requires p <= |s| && (st == InVal ==> p > 0)
    ensures r.GvWord? ==> (if st == InVal then p - 1 else p) <= r.ptr < |s|
    decreases |s| - p
  {
    if p == |s| then
      match st
      case WaitVal => GvEnd
      case InVal => GvWord(word, escaped, p - 1)
      case _ => GvError
    else
      var c := s[p];
      match st
      case WaitVal =>
        if c == QUOTE then GetValFrom(s, p + 1, InEscVal, ignoreeq, true, word)
        else if c == EQUALS && !ignoreeq then GvError
        else if c == BACKSLASH then GetValFrom(s, p + 1, WaitEscIn, ignoreeq, escaped, word)
        else if !IsSpace(c) then GetValFrom(s, p + 1, InVal, ignoreeq, escaped, word + [c])
        else GetValFrom(s, p + 1, WaitVal, ignoreeq, escaped, word)
      case InVal =>
        if c == BACKSLASH then GetValFrom(s, p + 1, WaitEscIn, ignoreeq, escaped, word)
        else if c == EQUALS && !ignoreeq then GvWord(word, escaped, p - 1)
        else if c == COMMA && ignoreeq then GvWord(word, escaped, p - 1)
        else if IsSpace(c) then GvWord(word, escaped, p)
        else GetValFrom(s, p + 1, InVal, ignoreeq, escaped, word + [c])
      case InEscVal =>
        if c == BACKSLASH then GetValFrom(s, p + 1, WaitEscEscIn, ignoreeq, escaped, word)
        else if c == QUOTE then GvWord(word, escaped, p)
        else GetValFrom(s, p + 1, InEscVal, ignoreeq, escaped, word + [c])
      case WaitEscIn => GetValFrom(s, p + 1, InVal, ignoreeq, escaped, word + [c])
      case WaitEscEscIn => GetValFrom(s, p + 1, InEscVal, ignoreeq, escaped, word + [c])
  }

  // The grammar of words

  /** A character written as itself or after a backslash. */
  datatype Item = Plain(c: Byte) | Escaped(c: Byte) {
    function Written(): Text { if Plain? then [c] else [BACKSLASH, c] }
  }

  function Written(items: seq<Item>): Text {
    if items == [] then [] else items[0].Written() + Written(items[1..])
  }

  function Chars(items: seq<Item>): Text {
    if items == [] then [] else [items[0].c] + Chars(items[1..])
  }

  /** Which characters may stand unescaped: within quotes, inside a bare word, and as its first character. */
  predicate QuotedItem(i: Item) { i.Plain? ==> i.c != BACKSLASH && i.c != QUOTE }

  predicate BareItem(i: Item, ignoreeq: bool) {
    i.Plain? ==> i.c != BACKSLASH && !IsSpace(i.c) && !(i.c == EQUALS && !ignoreeq) && !(i.c == COMMA && ignoreeq)
  }

  predicate FirstItem(i: Item, ignoreeq: bool) {
    i.Plain? ==> i.c != BACKSLASH && i.c != QUOTE && !IsSpace(i.c) && !(i.c == EQUALS && !ignoreeq)
  }

  predicate Spaces(t: Text) { forall i :: 0 <= i < |t| ==> IsSpace(t[i]) }

  /** No other byte is a space. */
  lemma SpaceBytes(c: Byte)
    ensures Spaces([c]) <==> c in {9, 10, 11, 12, 13, 32}
  {
    assert [c][0] == c;
  }

  predicate QuotedItems(items: seq<Item>) { forall i :: 0 <= i < |items| ==> QuotedItem(items[i]) }

  predicate BareItems(items: seq<Item>, ignoreeq: bool) {
    forall i :: 0 <= i < |items| ==> BareItem(items[i], ignoreeq)
  }

  datatype Spelling = Quoted(lead: Text, items: seq<Item>) | Bare(lead: Text, first: Item, rest: seq<Item>) {
    function Text(): Text {
      match this
      case Quoted(lead, items) => lead + [QUOTE] + Written(items) + [QUOTE]
      case Bare(lead, first, rest) => lead + first.Written() + Written(rest)
    }

    function Word(): Text {
      match this
      case Quoted(_, items) => Chars(items)
      case Bare(_, first, rest) => [first.c] + Chars(rest)
    }

    predicate WellFormed(ignoreeq: bool) {
      match this
      case Quoted(lead, items) => Spaces(lead) && QuotedItems(items)
      case Bare(lead, first, rest) => Spaces(lead) && FirstItem(first, ignoreeq) && BareItems(rest, ignoreeq)
    }
  }

  /** t stands in s at p. */
  predicate HasAt(s: Text, p: nat, t: Text) { p + |t| <= |s| && s[p..p + |t|] == t }

  lemma HasAtSplit(s: Text, p: nat, t: Text, u: Text)
    ensures HasAt(s, p, t + u) <==> HasAt(s, p, t) && HasAt(s, p + |t|, u)
  {
    if p + |t| + |u| <= |s| {
      assert s[p..p + |t + u|] == s[p..p + |t|] + s[p + |t|..p + |t| + |u|];
      if HasAt(s, p, t + u) {
        assert t == (t + u)[..|t|] && u == (t + u)[|t|..];
      }
    }
  }

  lemma HasAtThree(s: Text, p: nat, t: Text, u: Text, v: Text)
    ensures HasAt(s, p, t + u + v) <==>
            HasAt(s, p, t) && HasAt(s, p + |t|, u) && HasAt(s, p + |t| + |u|, v)
  {
    HasAtSplit(s, p, t + u, v);
    HasAtSplit(s, p, t, u);
  }

  lemma HasAtFour(s: Text, p: nat, t: Text, u: Text, v: Text, w: Text)
    ensures HasAt(s, p, t + u + v + w) <==>
            HasAt(s, p, t) && HasAt(s, p + |t|, u) && HasAt(s, p + |t| + |u|, v) && HasAt(s, p + |t| + |u| + |v|, w)
  {
    HasAtSplit(s, p, t + u + v, w);
    HasAtThree(s, p, t, u, v);
  }

  /** What may follow a bare word: the delimiter of its place, a space, or the end. */
  predicate EndsBare(s: Text, p: nat, ignoreeq: bool) {
    p >= |s| || IsSpace(s[p]) || (s[p] == EQUALS && !ignoreeq) || (s[p] == COMMA && ignoreeq)
  }

  // The parser reads every spelling

  lemma {:induction false} ReadsSpaces(s: Text, p: nat, lead: Text, ignoreeq: bool)
    requires Spaces(lead) && HasAt(s, p, lead)
    ensures GetValFrom(s, p, WaitVal, ignoreeq, false, []) == GetValFrom(s, p + |lead|, WaitVal, ignoreeq, false, [])
    decreases |lead|
  {
    if lead != [] {
      HasAtSplit(s, p, lead[..1], lead[1..]);
      assert lead == lead[..1] + lead[1..] && s[p] == lead[0];
      ReadsSpaces(s, p + 1, lead[1..], ignoreeq);
    }
  }

  /** The characters of one written item. */
  lemma ItemAt(s: Text, p: nat, i: Item)
    requires HasAt(s, p, i.Written())
    ensures |i.Written()| == if i.Plain? then 1 else 2
    ensures if i.Plain? then s[p] == i.c else s[p] == BACKSLASH && s[p + 1] == i.c
  {
    assert s[p] == s[p..p + |i.Written()|][0];
    assert i.Escaped? ==> s[p + 1] == s[p..p + |i.Written()|][1];
  }

  lemma QuotedStep(s: Text, p: nat, i: Item, ignoreeq: bool, word: Text)
    requires HasAt(s, p, i.Written()) && QuotedItem(i)
    ensures GetValFrom(s, p, InEscVal, ignoreeq, true, word) ==
            GetValFrom(s, p + |i.Written()|, InEscVal, ignoreeq, true, word + [i.c])
  {
    ItemAt(s, p, i);
  }

  lemma BareStep(s: Text, p: nat, i: Item, ignoreeq: bool, word: Text)
    requires p > 0 && HasAt(s, p, i.Written()) && BareItem(i, ignoreeq)
    ensures GetValFrom(s, p, InVal, ignoreeq, false, word) ==
            GetValFrom(s, p + |i.Written()|, InVal, ignoreeq, false, word + [i.c])
  {
    ItemAt(s, p, i);
  }

  lemma {:induction false} FirstStep(s: Text, p: nat, i: Item, ignoreeq: bool)
    requires HasAt(s, p, i.Written()) && FirstItem(i, ignoreeq)
    ensures GetValFrom(s, p, WaitVal, ignoreeq, false, []) ==
            GetValFrom(s, p + |i.Written()|, InVal, ignoreeq, false, [i.c])
  {
    ItemAt(s, p, i);
    assert [] + [i.c] == [i.c];
  }

  /** Where ptr is left after a bare word that ends before p. */
  function LeftAt(s: Text, p: nat): nat
    requires p > 0
  {
    if p < |s| && IsSpace(s[p]) then p else p - 1
  }

  lemma {:induction false} BareStop(s: Text, p: nat, ignoreeq: bool, word: Text)
    requires 0 < p <= |s| && EndsBare(s, p, ignoreeq)
    ensures GetValFrom(s, p, InVal, ignoreeq, false, word) == GvWord(word, false, LeftAt(s, p))
  {
  }

  lemma QuoteAt(s: Text, p: nat)
    requires HasAt(s, p, [QUOTE])
    ensures p < |s| && s[p] == QUOTE
  {
    assert s[p] == s[p..p + 1][0];
  }

  lemma {:induction false} CharsCons(word: Text, items: seq<Item>)
    requires items != []
    ensures word + [items[0].c] + Chars(items[1..]) == word + Chars(items)
  {
    var rest := Chars(items[1..]);
    assert word + [items[0].c] + rest == word + ([items[0].c] + rest);
  }

  lemma {:induction false} ReadsQuoted(s: Text, p: nat, items: seq<Item>, ignoreeq: bool, word: Text)
    requires QuotedItems(items) && HasAt(s, p, Written(items)) && HasAt(s, p + |Written(items)|, [QUOTE])
    ensures GetValFrom(s, p, InEscVal, ignoreeq, true, word) == GvWord(word + Chars(items), true, p + |Written(items)|)
    decreases |items|
  {
    if items == [] {
      QuoteAt(s, p);
      assert word + [] == word;
    } else {
      var i, w := items[0], items[0].Written();
      HasAtSplit(s, p, w, Written(items[1..]));
      QuotedStep(s, p, i, ignoreeq, word);
      ReadsQuoted(s, p + |w|, items[1..], ignoreeq, word + [i.c]);
      CharsCons(word, items);
    }
  }

  lemma {:induction false} ReadsBare(s: Text, p: nat, items: seq<Item>, ignoreeq: bool, word: Text, e: nat)
    requires p > 0 && BareItems(items, ignoreeq) && HasAt(s, p, Written(items))
    requires e == p + |Written(items)| && EndsBare(s, e, ignoreeq)
    ensures GetValFrom(s, p, InVal, ignoreeq, false, word) == GvWord(word + Chars(items), false, LeftAt(s, e))
    decreases |items|
  {
    if items == [] {
      BareStop(s, p, ignoreeq, word);
      assert word + [] == word;
    } else {
      var i, w, rest := items[0], items[0].Written(), Written(items[1..]);
      HasAtSplit(s, p, w, rest);
      assert |w + rest| == |w| + |rest|;
      BareStep(s, p, i, ignoreeq, word);
      ReadsBare(s, p + |w|, items[1..], ignoreeq, word + [i.c], e);
      CharsCons(word, items);
    }
  }

  /** Where ptr is left after a spelling that ends before e. */
  function LeftAfter(s: Text, sp: Spelling, e: nat): nat
    requires e > 0
  {
    if sp.Quoted? then e - 1 else LeftAt(s, e)
  }

  lemma {:induction false} ReadsSpelling(s: Text, p: nat, sp: Spelling, ignoreeq: bool)
    requires sp.WellFormed(ignoreeq) && HasAt(s, p, sp.Text())
    requires sp.Bare? ==> EndsBare(s, p + |sp.Text()|, ignoreeq)
    ensures |sp.Text()| > 0
    ensures GetValFrom(s, p, WaitVal, ignoreeq, false, []) ==
            GvWord(sp.Word(), sp.Quoted?, LeftAfter(s, sp, p + |sp.Text()|))
  {
    if sp.Quoted? {
      ReadsQuotedSpelling(s, p, sp.lead, sp.items, ignoreeq);
    } else {
      var r := p + |sp.lead| + |sp.first.Written()|;
      HasAtThree(s, p, sp.lead, sp.first.Written(), Written(sp.rest));
      ReadsBareSpelling(s, p, sp.lead, sp.first, sp.rest, ignoreeq, r, r + |Written(sp.rest)|);
    }
  }

  lemma QuotedAt(s: Text, p: nat, lead: Text, body: Text)
    requires HasAt(s, p, lead + [QUOTE] + body + [QUOTE])
    ensures HasAt(s, p, lead) && p + |lead| < |s| && s[p + |lead|] == QUOTE
    ensures HasAt(s, p + |lead| + 1, body) && HasAt(s, p + |lead| + 1 + |body|, [QUOTE])
  {
    HasAtFour(s, p, lead, [QUOTE], body, [QUOTE]);
    QuoteAt(s, p + |lead|);
  }

  lemma {:induction false} ReadsQuotedSpelling(s: Text, p: nat, lead: Text, items: seq<Item>, ignoreeq: bool)
    requires Spaces(lead) && QuotedItems(items) && HasAt(s, p, lead + [QUOTE] + Written(items) + [QUOTE])
    ensures GetValFrom(s, p, WaitVal, ignoreeq, false, []) ==
            GvWord(Chars(items), true, p + |lead| + 1 + |Written(items)|)
  {
    QuotedAt(s, p, lead, Written(items));
    ReadsSpaces(s, p, lead, ignoreeq);
    ReadsFromQuote(s, p + |lead|, items, ignoreeq);
  }

  lemma {:induction false} ReadsFromQuote(s: Text, q: nat, items: seq<Item>, ignoreeq: bool)
    requires q < |s| && s[q] == QUOTE && QuotedItems(items)
    requires HasAt(s, q + 1, Written(items)) && HasAt(s, q + 1 + |Written(items)|, [QUOTE])
    ensures GetValFrom(s, q, WaitVal, ignoreeq, false, []) == GvWord(Chars(items), true, q + 1 + |Written(items)|)
  {
    OpenQuote(s, q, ignoreeq);
    ReadsQuoted(s, q + 1, items, ignoreeq, []);
    assert [] + Chars(items) == Chars(items);
  }

  lemma {:induction false} OpenQuote(s: Text, q: nat, ignoreeq: bool)
    requires q < |s| && s[q] == QUOTE
    ensures GetValFrom(s, q, WaitVal, ignoreeq, false, []) == GetValFrom(s, q + 1, InEscVal, ignoreeq, true, [])
  {
  }

  lemma {:induction false} ReadsBareSpelling(
    s: Text, p: nat, lead: Text, first: Item, rest: seq<Item>, ignoreeq: bool, r: nat, e: nat)
    requires Spaces(lead) && FirstItem(first, ignoreeq) && BareItems(rest, ignoreeq)
    requires HasAt(s, p, lead) && HasAt(s, p + |lead|, first.Written()) && HasAt(s, r, Written(rest))
    requires r == p + |lead| + |first.Written()| && e == r + |Written(rest)| && EndsBare(s, e, ignoreeq)
    ensures GetValFrom(s, p, WaitVal, ignoreeq, false, []) == GvWord([first.c] + Chars(rest), false, LeftAt(s, e))
  {
    ReadsSpaces(s, p, lead, ignoreeq);
    FirstStep(s, p + |lead|, first, ignoreeq);
    ReadsBare(s, r, rest, ignoreeq, [first.c], e);
  }

  // Every word the parser reads is a spelling

  lemma {:induction false} WrittenCons(i: Item, rest: seq<Item>)
    ensures Written([i] + rest) == i.Written() + Written(rest) && Chars([i] + rest) == [i.c] + Chars(rest)
  {
    assert ([i] + rest)[1..] == rest;
  }

  /** Prepend an item to what was found after it. */
  lemma {:induction false} ConsAt(s: Text, p: nat, i: Item, rest: seq<Item>)
    requires HasAt(s, p, i.Written()) && HasAt(s, p + |i.Written()|, Written(rest))
    ensures HasAt(s, p, Written([i] + rest)) && |Written([i] + rest)| == |i.Written()| + |Written(rest)|
  {
    WrittenCons(i, rest);
    HasAtSplit(s, p, i.Written(), Written(rest));
  }

  /** The item that starts at p, if the string goes on long enough. */
  function NextItem(s: Text, p: nat): Item
    requires p < |s| && (s[p] == BACKSLASH ==> p + 1 < |s|)
  {
    if s[p] == BACKSLASH then Escaped(s[p + 1]) else Plain(s[p])
  }

  lemma NextItemAt(s: Text, p: nat)
    requires p < |s| && (s[p] == BACKSLASH ==> p + 1 < |s|)
    ensures HasAt(s, p, NextItem(s, p).Written())
  {
  }

  lemma {:induction false} QuotedSound(s: Text, p: nat, ignoreeq: bool, word: Text) returns (items: seq<Item>)
    requires p <= |s| && GetValFrom(s, p, InEscVal, ignoreeq, true, word).GvWord?
    ensures QuotedItems(items) && HasAt(s, p, Written(items)) && HasAt(s, p + |Written(items)|, [QUOTE])
    decreases |s| - p
  {
    if s[p] == QUOTE {
      items := [];
    } else {
      var i := NextItem(s, p);
      NextItemAt(s, p);
      QuotedStep(s, p, i, ignoreeq, word);
      var rest := QuotedSound(s, p + |i.Written()|, ignoreeq, word + [i.c]);
      ConsAt(s, p, i, rest);
      items := [i] + rest;
    }
  }

  lemma {:induction false} BareSound(s: Text, p: nat, ignoreeq: bool, word: Text) returns (items: seq<Item>)
    requires 0 < p <= |s| && GetValFrom(s, p, InVal, ignoreeq, false, word).GvWord?
    ensures BareItems(items, ignoreeq) && HasAt(s, p, Written(items))
    ensures EndsBare(s, p + |Written(items)|, ignoreeq)
    decreases |s| - p
  {
    if EndsBare(s, p, ignoreeq) {
      items := [];
    } else {
      var i := NextItem(s, p);
      NextItemAt(s, p);
      BareStep(s, p, i, ignoreeq, word);
      var rest := BareSound(s, p + |i.Written()|, ignoreeq, word + [i.c]);
      ConsAt(s, p, i, rest);
      items := [i] + rest;
    }
  }

  /** The spaces at p and where they end. */
  lemma {:induction false} SkipSpaces(s: Text, p: nat, ignoreeq: bool) returns (q: nat)
    requires p <= |s|
    ensures p <= q <= |s| && Spaces(s[p..q]) && (q == |s| || !IsSpace(s[q]))
    ensures GetValFrom(s, p, WaitVal, ignoreeq, false, []) == GetValFrom(s, q, WaitVal, ignoreeq, false, [])
    decreases |s| - p
  {
    if p < |s| && IsSpace(s[p]) {
      q := SkipSpaces(s, p + 1, ignoreeq);
      assert s[p..q] == [s[p]] + s[p + 1..q];
    } else {
      q := p;
    }
  }

  lemma {:induction false} SpellingSound(s: Text, p: nat, ignoreeq: bool) returns (sp: Spelling)
    requires p <= |s| && GetValFrom(s, p, WaitVal, ignoreeq, false, []).GvWord?
    ensures sp.WellFormed(ignoreeq) && HasAt(s, p, sp.Text())
    ensures sp.Bare? ==> EndsBare(s, p + |sp.Text()|, ignoreeq)
  {
    var q := SkipSpaces(s, p, ignoreeq);
    if s[q] == QUOTE {
      sp := QuotedSpellingSound(s, p, q, ignoreeq);
    } else {
      var i, rest := BareSpellingSound(s, q, ignoreeq);
      sp := SpellBare(s, p, q, i, rest, i.Written(), Written(rest));
    }
  }

  lemma {:induction false} QuotedSpellingSound(s: Text, p: nat, q: nat, ignoreeq: bool) returns (sp: Spelling)
    requires p <= q < |s| && Spaces(s[p..q]) && s[q] == QUOTE
    requires GetValFrom(s, q, WaitVal, ignoreeq, false, []).GvWord?
    ensures sp.Quoted? && sp.WellFormed(ignoreeq) && HasAt(s, p, sp.Text())
  {
    OpenQuote(s, q, ignoreeq);
    var items := QuotedSound(s, q + 1, ignoreeq, []);
    sp := SpellQuoted(s, p, q, items, Written(items));
  }

  lemma JoinFour(s: Text, p: nat, q: nat, r: nat, t: nat, e: nat)
    requires p <= q <= r <= t <= e <= |s|
    ensures s[p..e] == s[p..q] + s[q..r] + s[r..t] + s[t..e]
  {
    assert s[p..q] + s[q..r] == s[p..r];
    assert s[p..r] + s[r..t] == s[p..t];
    assert s[p..t] + s[t..e] == s[p..e];
  }

  lemma SpellQuoted(s: Text, p: nat, q: nat, items: seq<Item>, body: Text) returns (sp: Spelling)
    requires p <= q < |s| && s[q] == QUOTE && body == Written(items)
    requires HasAt(s, q + 1, body) && HasAt(s, q + 1 + |body|, [QUOTE])
    ensures sp == Quoted(s[p..q], items) && HasAt(s, p, sp.Text())
  {
    sp := Quoted(s[p..q], items);
    QuotedJoin(s, p, q, body);
    assert sp.Text() == s[p..q] + [QUOTE] + body + [QUOTE];
  }

  lemma QuotedJoin(s: Text, p: nat, q: nat, body: Text)
    requires p <= q < |s| && s[q] == QUOTE && HasAt(s, q + 1, body) && HasAt(s, q + 1 + |body|, [QUOTE])
    ensures HasAt(s, p, s[p..q] + [QUOTE] + body + [QUOTE])
  {
    var t := q + 1 + |body|;
    JoinFour(s, p, q, q + 1, t, t + 1);
    var u := s[p..q] + [QUOTE] + body + [QUOTE];
    assert s[q..q + 1] == [QUOTE];
    assert s[t..t + 1] == [QUOTE];
    assert s[q + 1..t] == body;
    assert p + |u| == t + 1;
    assert s[p..t + 1] == u;
  }

  lemma SpellBare(s: Text, p: nat, q: nat, i: Item, rest: seq<Item>, head: Text, tail: Text) returns (sp: Spelling)
    requires head == i.Written() && tail == Written(rest)
    requires p <= q <= |s| && HasAt(s, q, head) && HasAt(s, q + |head|, tail)
    ensures sp == Bare(s[p..q], i, rest) && HasAt(s, p, sp.Text())
    ensures p + |sp.Text()| == q + |head| + |tail|
  {
    sp := Bare(s[p..q], i, rest);
    BareJoin(s, p, q, head, tail);
    assert sp.Text() == s[p..q] + head + tail;
  }

  lemma BareJoin(s: Text, p: nat, q: nat, head: Text, tail: Text)
    requires p <= q <= |s| && HasAt(s, q, head) && HasAt(s, q + |head|, tail)
    ensures HasAt(s, p, s[p..q] + head + tail)
  {
    var t, u := q + |head|, s[p..q] + head + tail;
    JoinFour(s, p, q, t, t + |tail|, t + |tail|);
    assert p + |u| == t + |tail|;
    assert s[p..t + |tail|] == u;
  }

  /** ptr is left at the last byte of a word that ends before e, or at one space behind it. */
  predicate LeftBy(s: Text, e: nat, n: nat) { n + 1 == e || (n == e < |s| && IsSpace(s[e])) }

  /** A spelling that ends before e is read, with ptr left there. */
  lemma {:induction false} SpellingRead(s: Text, p: nat, sp: Spelling, ignoreeq: bool, e: nat) returns (n: nat)
    requires sp.WellFormed(ignoreeq) && HasAt(s, p, sp.Text()) && e == p + |sp.Text()|
    requires sp.Bare? ==> EndsBare(s, e, ignoreeq)
    ensures p < e <= |s| && LeftBy(s, e, n)
    ensures GetValFrom(s, p, WaitVal, ignoreeq, false, []) == GvWord(sp.Word(), sp.Quoted?, n)
  {
    ReadsSpelling(s, p, sp, ignoreeq);
    n := LeftAfter(s, sp, e);
  }

  /** A word the parser reads, where it ends, and where ptr is left. */
  lemma {:induction false} SpellingFound(s: Text, p: nat, ignoreeq: bool) returns (sp: Spelling, e: nat, n: nat)
    requires p <= |s| && GetValFrom(s, p, WaitVal, ignoreeq, false, []).GvWord?
    ensures sp.WellFormed(ignoreeq) && HasAt(s, p, sp.Text()) && p < e == p + |sp.Text()| <= |s| && LeftBy(s, e, n)
    ensures GetValFrom(s, p, WaitVal, ignoreeq, false, []) == GvWord(sp.Word(), sp.Quoted?, n)
  {
    sp := SpellingSound(s, p, ignoreeq);
    e := p + |sp.Text()|;
    n := SpellingRead(s, p, sp, ignoreeq, e);
  }

  lemma {:induction false} BareSpellingSound(s: Text, q: nat, ignoreeq: bool) returns (i: Item, rest: seq<Item>)
    requires q < |s| && s[q] != QUOTE && !IsSpace(s[q])
    requires GetValFrom(s, q, WaitVal, ignoreeq, false, []).GvWord?
    ensures FirstItem(i, ignoreeq) && BareItems(rest, ignoreeq)
    ensures HasAt(s, q, i.Written()) && HasAt(s, q + |i.Written()|, Written(rest))
    ensures EndsBare(s, q + |i.Written()| + |Written(rest)|, ignoreeq)
  {
    i := NextItem(s, q);
    NextItemAt(s, q);
    FirstStep(s, q, i, ignoreeq);
    rest := BareSound(s, q + |i.Written()|, ignoreeq, [i.c]);
  }

  lemma {:induction false} EndSound(s: Text, p: nat, ignoreeq: bool)
    requires p <= |s|
    ensures GetValFrom(s, p, WaitVal, ignoreeq, false, []).GvEnd? <==> Spaces(s[p..])
  {
    var q := SkipSpaces(s, p, ignoreeq);
    if q == |s| {
      assert s[p..q] == s[p..];
    } else {
      assert s[p..][q - p] == s[q];
      NotEnd(s, q, ignoreeq);
    }
  }

  lemma {:induction false} NotEnd(s: Text, q: nat, ignoreeq: bool)
    requires q < |s| && !IsSpace(s[q])
    ensures !GetValFrom(s, q, WaitVal, ignoreeq, false, []).GvEnd?
  {
    if s[q] == QUOTE {
      OnlyWaitEnds(s, q + 1, InEscVal, ignoreeq, true, []);
    } else if s[q] == BACKSLASH {
      OnlyWaitEnds(s, q + 1, WaitEscIn, ignoreeq, false, []);
    } else {
      OnlyWaitEnds(s, q + 1, InVal, ignoreeq, false, [] + [s[q]]);
    }
  }

  lemma {:induction false} OnlyWaitEnds(s: Text, p: nat, st: GvState, ignoreeq: bool, escaped: bool, word: Text)
    requires p <= |s| && !st.WaitVal? && (st == InVal ==> p > 0)
    ensures !GetValFrom(s, p, st, ignoreeq, escaped, word).GvEnd?
    decreases |s| - p
  {
    if p < |s| {
      var c := s[p];
      if st == InVal && c != BACKSLASH {
        OnlyWaitEnds(s, p + 1, InVal, ignoreeq, escaped, word + [c]);
      } else if st == InVal {
        OnlyWaitEnds(s, p + 1, WaitEscIn, ignoreeq, escaped, word);
      } else if st == InEscVal && c == BACKSLASH {
        OnlyWaitEnds(s, p + 1, WaitEscEscIn, ignoreeq, escaped, word);
      } else if st == InEscVal || st == WaitEscEscIn {
        OnlyWaitEnds(s, p + 1, InEscVal, ignoreeq, escaped, word + [c]);
      } else {
        OnlyWaitEnds(s, p + 1, InVal, ignoreeq, escaped, word + [c]);
      }
    }
  }
}
