/** parse_hstore: the parser over whole texts, as a specification and as the object it works on. */
module HStoreText {
  import opened Wrappers
  import opened HStoreLayout
  import opened HStoreBuild
  import opened HStoreParse

  const HSTORE_MAX_KEY_LEN := 0x3FFF_FFFF
  const HSTORE_MAX_VALUE_LEN := 0x3FFF_FFFF

  /** pg_strcasecmp(word, "null") == 0 */
  predicate IsNullWord(w: Text) {
    |w| == 4 && (w[0] == 78 || w[0] == 110) && (w[1] == 85 || w[1] == 117) &&
    (w[2] == 76 || w[2] == 108) && (w[3] == 76 || w[3] == 108)
  }

  function MakePair(key: Text, val: Text, escaped: bool): RawPair {
    RawPair(key, val, !escaped && IsNullWord(val), true)
  }

  // parse_hstore

  datatype PState = WKey | WEq(key: Text) | WGt(key: Text) | WVal(key: Text) | WDel

  function ParseFrom(s: Text, p: nat, st: PState, acc: seq<RawPair>): Result<seq<RawPair>>
    requires p <= |s|
    decreases |s| - p
  {
    match st
    case WKey =>
      (match GetValFrom(s, p, WaitVal, false, false, [])
       case GvError => Error
       case GvEnd => Ok(acc)
       case GvWord(w, _, q) => if |w| > HSTORE_MAX_KEY_LEN then Error else ParseFrom(s, q + 1, WEq(w), acc))
    case WEq(k) =>
      if CharAt(s, p) == EQUALS then ParseFrom(s, p + 1, WGt(k), acc)
      else if p < |s| && IsSpace(s[p]) then ParseFrom(s, p + 1, WEq(k), acc)
      else Error
    case WGt(k) =>
      if CharAt(s, p) == GREATER then ParseFrom(s, p + 1, WVal(k), acc) else Error
    case WVal(k) =>
      (match GetValFrom(s, p, WaitVal, true, false, [])
       case GvError => Error
       case GvEnd => Error
       case GvWord(w, escaped, q) =>
         if |w| > HSTORE_MAX_VALUE_LEN then Error else ParseFrom(s, q + 1, WDel, acc + [MakePair(k, w, escaped)]))
    case WDel =>
      if p == |s| then Ok(acc)
      else if s[p] == COMMA then ParseFrom(s, p + 1, WKey, acc)
      else if IsSpace(s[p]) then ParseFrom(s, p + 1, WDel, acc)
      else Error
  }

  function Parse(s: Text): Result<seq<RawPair>> { ParseFrom(s, 0, WKey, []) }

  /** HSParser with the methods that move it over the input. */
  class HSParser {
    const begin: Text
    var ptr: int
    var word: Text
    var pairs: seq<RawPair>

    constructor (s: Text)
      ensures begin == s && ptr == 0 && pairs == []
    {
      begin, ptr, word, pairs := s, 0, [], [];
    }

    /** get_val */
    method GetVal(ignoreeq: bool) returns (r: GvResult)
      requires 0 <= ptr <= |begin|
      modifies this`ptr, this`word
      ensures r == GetValFrom(begin, old(ptr), WaitVal, ignoreeq, false, [])
      ensures r.GvWord? ==> ptr == r.ptr && word == r.word
    {
      var st, escaped := WaitVal, false;
      word := [];
      while true
        invariant 0 <= ptr <= |begin| && (st == InVal ==> ptr > 0)
        invariant GetValFrom(begin, ptr, st, ignoreeq, escaped, word) ==
                  GetValFrom(begin, old(ptr), WaitVal, ignoreeq, false, [])
        decreases |begin| - ptr
      {
        var c := CharAt(begin, ptr);
        match st {
          case WaitVal =>
            if c == QUOTE {
              escaped, st := true, InEscVal;
            } else if c == 0 {
              return GvEnd;
            } else if c == EQUALS && !ignoreeq {
              return GvError;
            } else if c == BACKSLASH {
              st := WaitEscIn;
            } else if !IsSpace(c) {
              word, st := word + [c], InVal;
            }
          case InVal =>
            if c == BACKSLASH {
              st := WaitEscIn;
            } else if (c == EQUALS && !ignoreeq) || (c == COMMA && ignoreeq) {
              ptr := ptr - 1;
              return GvWord(word, escaped, ptr);
            } else if IsSpace(c) {
              return GvWord(word, escaped, ptr);
            } else if c == 0 {
              ptr := ptr - 1;
              return GvWord(word, escaped, ptr);
            } else {
              word := word + [c];
            }
          case InEscVal =>
            if c == BACKSLASH {
              st := WaitEscEscIn;
            } else if c == QUOTE {
              return GvWord(word, escaped, ptr);
            } else if c == 0 {
              return GvError;
            } else {
              word := word + [c];
            }
          case WaitEscIn =>
            if c == 0 {
              return GvError;
            }
            word, st := word + [c], InVal;
          case WaitEscEscIn =>
            if c == 0 {
              return GvError;
            }
            word, st := word + [c], InEscVal;
        }
        ptr := ptr + 1;
      }
    }

    /** parse_hstore */
    method ParseHStore() returns (ok: bool)
      modifies this
      ensures ok <==> Parse(begin).Ok?
      ensures ok ==> pairs == Parse(begin).value
    {
      var st := WKey;
      ptr, pairs, word := 0, [], [];
      while true
        invariant 0 <= ptr <= |begin| && ParseFrom(begin, ptr, st, pairs) == Parse(begin)
        decreases |begin| - ptr
      {
        var c := CharAt(begin, ptr);
        match st {
          case WKey =>
            var r := GetVal(false);
            if r.GvError? {
              return false;
            }
            if r.GvEnd? {
              return true;
            }
            if |word| > HSTORE_MAX_KEY_LEN {
              return false;
            }
            st := WEq(word);
          case WEq(k) =>
            if c == EQUALS {
              st := WGt(k);
            } else if c == 0 || !IsSpace(c) {
              return false;
            }
          case WGt(k) =>
            if c != GREATER {
              return false;
            }
            st := WVal(k);
          case WVal(k) =>
            var r := GetVal(true);
            if !r.GvWord? || |word| > HSTORE_MAX_VALUE_LEN {
              return false;
            }
            pairs := pairs + [MakePair(k, word, r.escaped)];
            st := WDel;
          case WDel =>
            if c == COMMA {
              st := WKey;
            } else if c == 0 {
              return true;
            } else if !IsSpace(c) {
              return false;
            }
        }
        ptr := ptr + 1;
      }
    }
  }
}
