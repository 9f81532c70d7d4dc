/**
  The ladder of rounds both directions of Blowfish climb, for any words with an
  exclusive or and any mixing function: going down undoes going up.
 */
module Feistel {
  datatype Block<W> = Block(l: W, r: W)

  type Xor<!W> = (W, W) -> W

  ghost predicate XorLaws<W(!new)>(xor: Xor<W>) {
    && (forall x, y :: xor(xor(x, y), y) == x)
    && (forall f, r, p :: xor(f, xor(xor(f, r), p)) == xor(r, p))
  }

  /** The ROUND macro. */
  function Round<W>(xor: Xor<W>, f: W -> W, p: W, b: Block<W>): Block<W> {
    var x := xor(b.l, p);
    Block(xor(f(x), b.r), x)
  }

  /** Rounds 0 to n - 1. */
  function Up<W>(xor: Xor<W>, f: W -> W, p: seq<W>, b: Block<W>, n: nat): Block<W>
    requires |p| == 18 && n <= 16
  {
    if n == 0 then b else Round(xor, f, p[n - 1], Up(xor, f, p, b, n - 1))
  }

  /** Rounds 17 down to 18 - n. */
  function Down<W>(xor: Xor<W>, f: W -> W, p: seq<W>, b: Block<W>, n: nat): Block<W>
    requires |p| == 18 && n <= 16
  {
    if n == 0 then b else Round(xor, f, p[18 - n], Down(xor, f, p, b, n - 1))
  }

  /** All of blowfish_encrypt. */
  function UpAll<W>(xor: Xor<W>, f: W -> W, p: seq<W>, b: Block<W>): Block<W>
    requires |p| == 18
  {
    var e := Up(xor, f, p, b, 16);
    Block(xor(e.r, p[17]), xor(e.l, p[16]))
  }

  /** All of blowfish_decrypt. */
  function DownAll<W>(xor: Xor<W>, f: W -> W, p: seq<W>, b: Block<W>): Block<W>
    requires |p| == 18
  {
    var d := Down(xor, f, p, b, 16);
    Block(xor(d.r, p[0]), xor(d.l, p[1]))
  }

  /**
    What each round leaves in xL after its round key is a recurrence, in which the keys go in
    from first to last; the two words before the first come from the block.
   */
  ghost predicate Trace<W>(xor: Xor<W>, f: W -> W, p: seq<W>, b: Block<W>, y: seq<W>)
    requires |p| == 18
  {
    && |y| == 17 && y[0] == xor(b.l, p[0]) && y[1] == xor(xor(f(y[0]), b.r), p[1])
    && forall n {:trigger p[n]} :: 2 <= n <= 16 ==> y[n] == xor(xor(f(y[n - 1]), y[n - 2]), p[n])
  }

  ghost predicate TraceTo<W>(xor: Xor<W>, f: W -> W, p: seq<W>, b: Block<W>, y: seq<W>, n: nat)
    requires |p| == 18
  {
    && |y| == n + 1 <= 17 && y[0] == xor(b.l, p[0]) && (n >= 1 ==> y[1] == xor(xor(f(y[0]), b.r), p[1]))
    && forall i {:trigger p[i]} :: 2 <= i <= n ==> y[i] == xor(xor(f(y[i - 1]), y[i - 2]), p[i])
  }

  lemma {:induction false} TraceUp<W>(xor: Xor<W>, f: W -> W, p: seq<W>, b: Block<W>, n: nat) returns (y: seq<W>)
    requires |p| == 18 && 1 <= n <= 16
    ensures TraceTo(xor, f, p, b, y, n)
    ensures Up(xor, f, p, b, n) == Block(xor(f(y[n - 1]), if n == 1 then b.r else y[n - 2]), y[n - 1])
  {
    if n == 1 {
      var first := xor(b.l, p[0]);
      assert Up(xor, f, p, b, 0) == b;
      y := [first, xor(xor(f(first), b.r), p[1])];
    } else {
      var z := TraceUp(xor, f, p, b, n - 1);
      var e := Up(xor, f, p, b, n - 1);
      assert z[n - 1] == xor(e.l, p[n - 1]);
      y := z + [xor(xor(f(z[n - 1]), z[n - 2]), p[n])];
    }
  }

  /** All of blowfish_encrypt follows the recurrence and ends with its last two words. */
  lemma {:induction false} UpTraces<W>(xor: Xor<W>, f: W -> W, p: seq<W>, b: Block<W>) returns (y: seq<W>)
    requires |p| == 18
    ensures Trace(xor, f, p, b, y)
    ensures UpAll(xor, f, p, b) == Block(xor(y[15], p[17]), y[16])
  {
    y := TraceUp(xor, f, p, b, 16);
    assert p[16] == p[16];
  }

  /** Without round keys, a mixing function that keeps 0 and 1 takes the block (1, 0) round in three rounds. */
  lemma {:induction false} CycleOfThree<W>(xor: Xor<W>, f: W -> W, p: seq<W>, zero: W, one: W)
    requires |p| == 18 && (forall i :: 0 <= i < 18 ==> p[i] == zero) && f(zero) == zero && f(one) == one
    requires xor(zero, zero) == zero && xor(one, zero) == one && xor(zero, one) == one && xor(one, one) == zero
    ensures UpAll(xor, f, p, Block(one, zero)) == Block(one, one)
  {
    var y := UpTraces(xor, f, p, Block(one, zero));
    CycleAt(xor, f, p, zero, one, y, 15);
    CycleAt(xor, f, p, zero, one, y, 16);
  }

  lemma {:induction false} CycleAt<W>(xor: Xor<W>, f: W -> W, p: seq<W>, zero: W, one: W, y: seq<W>, n: nat)
    requires |p| == 18 && (forall i :: 0 <= i < 18 ==> p[i] == zero) && f(zero) == zero && f(one) == one
    requires xor(zero, zero) == zero && xor(one, zero) == one && xor(zero, one) == one && xor(one, one) == zero
    requires Trace(xor, f, p, Block(one, zero), y) && n <= 16
    ensures y[n] == if n % 3 == 2 then zero else one
  {
    if n >= 2 {
      CycleAt(xor, f, p, zero, one, y, n - 1);
      CycleAt(xor, f, p, zero, one, y, n - 2);
      assert p[n] == zero;
    }
  }

  // Chains of blocks

  ghost function Chain<B>(link: (B, B) -> B, last: B, bs: seq<B>): (cs: seq<B>)
    ensures |cs| == |bs|
  {
    if bs == [] then [] else [link(last, bs[0])] + Chain(link, link(last, bs[0]), bs[1..])
  }

  ghost function ChainEnd<B>(link: (B, B) -> B, last: B, bs: seq<B>): B {
    if bs == [] then last else ChainEnd(link, link(last, bs[0]), bs[1..])
  }

  lemma {:induction false} ChainCons<B>(link: (B, B) -> B, last: B, b: B, bs: seq<B>)
    ensures Chain(link, last, [b] + bs) == [link(last, b)] + Chain(link, link(last, b), bs)
    ensures ChainEnd(link, last, [b] + bs) == ChainEnd(link, link(last, b), bs)
  {
    assert ([b] + bs)[1..] == bs;
  }

  lemma {:induction false} ChainAt<B>(link: (B, B) -> B, last: B, bs: seq<B>, j: nat)
    requires j < |bs|
    ensures var cs := Chain(link, last, bs); cs[j] == link(if j == 0 then last else cs[j - 1], bs[j])
  {
    if j > 0 { ChainAt(link, link(last, bs[0]), bs[1..], j - 1); }
  }

  lemma {:induction false} ChainEnds<B>(link: (B, B) -> B, last: B, bs: seq<B>)
    ensures ChainEnd(link, last, bs) == if bs == [] then last else Chain(link, last, bs)[|bs| - 1]
  {
    if bs != [] { ChainEnds(link, link(last, bs[0]), bs[1..]); }
  }

  /** d holds the halves of e crossed and masked. */
  ghost predicate Crossed<W>(xor: Xor<W>, d: Block<W>, e: Block<W>, p0: W, p1: W) {
    d.l == xor(e.r, p1) && d.r == xor(e.l, p0)
  }

  lemma CrossedBack<W(!new)>(xor: Xor<W>, f: W -> W, d: Block<W>, e: Block<W>, p0: W, p1: W, p2: W)
    requires XorLaws(xor) && Crossed(xor, d, Round(xor, f, p0, e), p1, p2)
    ensures Crossed(xor, Round(xor, f, p2, d), e, p0, p1)
  {
  }

  /** After n rounds down, the block is what 16 - n rounds up gave, crossed and masked. */
  lemma {:induction false} DownFollowsUp<W(!new)>(xor: Xor<W>, f: W -> W, p: seq<W>, b: Block<W>, c: Block<W>, n: nat)
    requires XorLaws(xor) && |p| == 18 && n <= 16 && Crossed(xor, c, Up(xor, f, p, b, 16), p[16], p[17])
    ensures Crossed(xor, Down(xor, f, p, c, n), Up(xor, f, p, b, 16 - n), p[16 - n], p[17 - n])
  {
    if n > 0 {
      DownFollowsUp(xor, f, p, b, c, n - 1);
      CrossedBack(xor, f, Down(xor, f, p, c, n - 1), Up(xor, f, p, b, 16 - n), p[16 - n], p[17 - n], p[18 - n]);
    }
  }

  lemma DownUndoesUp<W(!new)>(xor: Xor<W>, f: W -> W, p: seq<W>, b: Block<W>)
    requires XorLaws(xor) && |p| == 18
    ensures DownAll(xor, f, p, UpAll(xor, f, p, b)) == b
  {
    DownFollowsUp(xor, f, p, b, UpAll(xor, f, p, b), 16);
    assert Up(xor, f, p, b, 0) == b;
  }

  function Reversed<W>(p: seq<W>): (r: seq<W>)
    requires |p| == 18
    ensures |r| == 18 && forall i :: 0 <= i < 18 ==> r[i] == p[17 - i]
  {
    seq(18, i requires 0 <= i < 18 => p[17 - i])
  }

  /** Going down is going up with the round keys in reverse. */
  lemma {:induction false} DownIsUp<W>(xor: Xor<W>, f: W -> W, p: seq<W>, b: Block<W>, n: nat)
    requires |p| == 18 && n <= 16
    ensures Down(xor, f, p, b, n) == Up(xor, f, Reversed(p), b, n)
  {
    if n > 0 { DownIsUp(xor, f, p, b, n - 1); }
  }

  lemma DownAllIsUpAll<W>(xor: Xor<W>, f: W -> W, p: seq<W>, b: Block<W>)
    requires |p| == 18
    ensures DownAll(xor, f, p, b) == UpAll(xor, f, Reversed(p), b)
  {
    DownIsUp(xor, f, p, b, 16);
  }

  lemma UpUndoesDown<W(!new)>(xor: Xor<W>, f: W -> W, p: seq<W>, b: Block<W>)
    requires XorLaws(xor) && |p| == 18
    ensures UpAll(xor, f, p, DownAll(xor, f, p, b)) == b
  {
    var r := Reversed(p);
    DownAllIsUpAll(xor, f, p, b);
    DownAllIsUpAll(xor, f, r, UpAll(xor, f, r, b));
    assert Reversed(r) == p;
    DownUndoesUp(xor, f, r, b);
  }
}

/** Blowfish with any tables: the block cipher inverts, and so does its chained mode, in one call or several. */
module Blowfish {
  import opened Feistel

  type Word = bv32

  /** The four substitution boxes and the round keys, whatever the key schedule made of them. */
  datatype Tables = Tables(s0: seq<Word>, s1: seq<Word>, s2: seq<Word>, s3: seq<Word>, p: seq<Word>)

  predicate TablesOk(k: Tables) {
    |k.s0| == 256 && |k.s1| == 256 && |k.s2| == 256 && |k.s3| == 256 && |k.p| == 18
  }

  // The block cipher

  function Byte3(x: Word): bv8 { ((x >> 24) & 0xff) as bv8 }

  function Byte2(x: Word): bv8 { ((x >> 16) & 0xff) as bv8 }

  function Byte1(x: Word): bv8 { ((x >> 8) & 0xff) as bv8 }

  function Byte0(x: Word): bv8 { (x & 0xff) as bv8 }

  function AddWord(x: Word, y: Word): Word { x + y }

  function SubWord(x: Word, y: Word): Word { x - y }

  function XorWord(x: Word, y: Word): Word { x ^ y }

  /** The Fprime macro, on the words its indexes select. */
  function Blend(w0: Word, w1: Word, w2: Word, w3: Word): Word {
    AddWord(XorWord(AddWord(w0, w1), w2), w3)
  }

  /** The F macro. */
  function Mix(k: Tables, x: Word): Word
    requires TablesOk(k)
  {
    Blend(k.s0[Byte3(x) as int], k.s1[Byte2(x) as int], k.s2[Byte1(x) as int], k.s3[Byte0(x) as int])
  }

  function F(k: Tables): Word -> Word
    requires TablesOk(k)
  {
    x => Mix(k, x)
  }


  lemma XorAssoc(x: Word, y: Word, z: Word)
    ensures XorWord(XorWord(x, y), z) == XorWord(x, XorWord(y, z))
  {
  }

  lemma XorSelf(x: Word)
    ensures XorWord(x, x) == 0 && XorWord(x, 0) == x && XorWord(0, x) == x
  {
  }

  lemma XorTwice(x: Word, y: Word)
    ensures XorWord(XorWord(x, y), y) == x
  {
    XorAssoc(x, y, y);
    XorSelf(y);
    XorSelf(x);
  }

  lemma XorCancel(f: Word, x: Word)
    ensures XorWord(f, XorWord(f, x)) == x
  {
    XorAssoc(f, f, x);
    XorSelf(f);
    XorSelf(x);
  }

  lemma XorThree(f: Word, r: Word, p: Word)
    ensures XorWord(f, XorWord(XorWord(f, r), p)) == XorWord(r, p)
  {
    XorAssoc(f, r, p);
    XorCancel(f, XorWord(r, p));
  }

  lemma XorWordLaws()
    ensures XorLaws(XorWord)
  {
    forall x: Word, y: Word ensures XorWord(XorWord(x, y), y) == x {
      XorTwice(x, y);
    }
    forall f: Word, r: Word, p: Word ensures XorWord(f, XorWord(XorWord(f, r), p)) == XorWord(r, p) {
      XorThree(f, r, p);
    }
  }

  /** blowfish_encrypt */
  function Encrypt(k: Tables, b: Block<Word>): Block<Word>
    requires TablesOk(k)
  {
    UpAll(XorWord, F(k), k.p, b)
  }

  /** blowfish_decrypt */
  function Decrypt(k: Tables, b: Block<Word>): Block<Word>
    requires TablesOk(k)
  {
    DownAll(XorWord, F(k), k.p, b)
  }

  /** blowfish_encrypt: ROUND(0) to ROUND(15) on xL and xR. */
  method BlowfishEncrypt(k: Tables, l: Word, r: Word) returns (out0: Word, out1: Word)
    requires TablesOk(k)
    ensures Block(out0, out1) == Encrypt(k, Block(l, r))
  {
    var xL, xR := l, r;
    for n := 0 to 16
      invariant Block(xL, xR) == Up(XorWord, F(k), k.p, Block(l, r), n)
    {
      xL := XorWord(xL, k.p[n]);
      xL, xR := XorWord(F(k)(xL), xR), xL;
    }
    out0, out1 := XorWord(xR, k.p[17]), XorWord(xL, k.p[16]);
  }

  /** blowfish_decrypt: ROUND(17) down to ROUND(2). */
  method BlowfishDecrypt(k: Tables, l: Word, r: Word) returns (out0: Word, out1: Word)
    requires TablesOk(k)
    ensures Block(out0, out1) == Decrypt(k, Block(l, r))
  {
    var xL, xR := l, r;
    for n := 0 to 16
      invariant Block(xL, xR) == Down(XorWord, F(k), k.p, Block(l, r), n)
    {
      xL := XorWord(xL, k.p[17 - n]);
      xL, xR := XorWord(F(k)(xL), xR), xL;
    }
    out0, out1 := XorWord(xR, k.p[0]), XorWord(xL, k.p[1]);
  }

  /** Decryption undoes encryption, for all tables and all blocks. */
  lemma DecryptEncrypt(k: Tables, b: Block<Word>)
    requires TablesOk(k)
    ensures Decrypt(k, Encrypt(k, b)) == b
  {
    XorWordLaws();
    DownUndoesUp(XorWord, F(k), k.p, b);
  }

  /** Encryption undoes decryption. */
  lemma EncryptDecrypt(k: Tables, b: Block<Word>)
    requires TablesOk(k)
    ensures Encrypt(k, Decrypt(k, b)) == b
  {
    XorWordLaws();
    UpUndoesDown(XorWord, F(k), k.p, b);
  }

  // Bytes

  function Join(a: bv8, b: bv8, c: bv8, d: bv8): Word {
    ((a as Word) << 24) | ((b as Word) << 16) | ((c as Word) << 8) | (d as Word)
  }

  lemma JoinBytes(v: Word)
    ensures Join(Byte3(v), Byte2(v), Byte1(v), Byte0(v)) == v
  {
  }

  lemma BytesJoin(a: bv8, b: bv8, c: bv8, d: bv8)
    ensures var v := Join(a, b, c, d); Byte3(v) == a && Byte2(v) == b && Byte1(v) == c && Byte0(v) == d
  {
  }

  /** The first byte is the most significant. */
  lemma JoinIsBigEndian(a: bv8, b: bv8, c: bv8, d: bv8)
    ensures Join(a, b, c, d) == (((a as Word) * 256 + (b as Word)) * 256 + (c as Word)) * 256 + (d as Word)
  {
  }

  // What the mixing function makes of its four table words

  /** It reads one word of each box: of the first at the highest byte, down to the last at the lowest. */
  lemma MixReads(k: Tables, a: bv8, b: bv8, c: bv8, d: bv8)
    requires TablesOk(k)
    ensures Mix(k, Join(a, b, c, d)) == Blend(k.s0[a as int], k.s1[b as int], k.s2[c as int], k.s3[d as int])
  {
    BytesJoin(a, b, c, d);
  }

  lemma AddAssoc(x: Word, y: Word, z: Word)
    ensures AddWord(AddWord(x, y), z) == AddWord(x, AddWord(y, z))
  {
    assert AddWord(x, y) == x + y && AddWord(y, z) == y + z;
    assert AddWord(x + y, z) == x + y + z;
    assert AddWord(x, y + z) == x + y + z;
  }

  lemma AddComm(x: Word, y: Word)
    ensures AddWord(x, y) == AddWord(y, x)
  {
  }

  lemma SubUndoesAdd(x: Word, y: Word)
    ensures SubWord(AddWord(x, y), y) == x
  {
    assert AddWord(x, y) == x + y;
    assert SubWord(x + y, y) == x;
  }

  lemma BlendZeros()
    ensures Blend(0, 0, 0, 0) == 0
  {
  }

  /** The last word is added last. */
  lemma BlendAddsLast(w0: Word, w1: Word, w2: Word, w3: Word, e: Word)
    ensures Blend(w0, w1, w2, AddWord(w3, e)) == AddWord(Blend(w0, w1, w2, w3), e)
  {
    AddAssoc(XorWord(AddWord(w0, w1), w2), w3, e);
  }

  /** Before it, the third word is xored in. */
  lemma BlendXorsThird(w0: Word, w1: Word, w2: Word, w3: Word, e: Word)
    ensures SubWord(Blend(w0, w1, XorWord(w2, e), w3), w3) == XorWord(SubWord(Blend(w0, w1, w2, w3), w3), e)
  {
    SubUndoesAdd(XorWord(AddWord(w0, w1), XorWord(w2, e)), w3);
    SubUndoesAdd(XorWord(AddWord(w0, w1), w2), w3);
    XorAssoc(AddWord(w0, w1), w2, e);
  }

  /** What is left when the last two words are taken out again. */
  function First(w0: Word, w1: Word, w2: Word, w3: Word): Word { XorWord(SubWord(Blend(w0, w1, w2, w3), w3), w2) }

  lemma FirstIs(w0: Word, w1: Word, w2: Word, w3: Word)
    ensures First(w0, w1, w2, w3) == AddWord(w0, w1)
  {
    SubUndoesAdd(XorWord(AddWord(w0, w1), w2), w3);
    XorTwice(AddWord(w0, w1), w2);
  }

  lemma AddSwap(x: Word, y: Word, z: Word)
    ensures AddWord(AddWord(x, z), y) == AddWord(AddWord(x, y), z)
  {
    AddAssoc(x, z, y);
    AddComm(z, y);
    AddAssoc(x, y, z);
  }

  /** And before that, the first two are added. */
  lemma BlendAddsFirst(w0: Word, w1: Word, w2: Word, w3: Word, e: Word)
    ensures First(AddWord(w0, e), w1, w2, w3) == AddWord(First(w0, w1, w2, w3), e)
    ensures First(w0, AddWord(w1, e), w2, w3) == AddWord(First(w0, w1, w2, w3), e)
  {
    FirstIs(w0, w1, w2, w3);
    FirstIs(AddWord(w0, e), w1, w2, w3);
    FirstIs(w0, AddWord(w1, e), w2, w3);
    AddSwap(w0, w1, e);
    AddAssoc(w0, w1, e);
  }

  /** Encryption is the recurrence of its rounds. */
  lemma EncryptTraces(k: Tables, b: Block<Word>) returns (y: seq<Word>)
    requires TablesOk(k)
    ensures Trace(XorWord, F(k), k.p, b, y)
    ensures Encrypt(k, b) == Block(XorWord(y[15], k.p[17]), y[16])
  {
    y := UpTraces(XorWord, F(k), k.p, b);
  }

  /** Boxes that pass the lowest byte on, and no round keys. */
  function LowByte(): (k: Tables)
    ensures TablesOk(k)
  {
    var zeros := seq(256, _ => 0 as Word);
    Tables(zeros, zeros, zeros, seq(256, i requires 0 <= i < 256 => i as Word), seq(18, _ => 0 as Word))
  }

  lemma LowByteMix(x: bv8)
    requires x == 0 || x == 1
    ensures F(LowByte())(x as Word) == x as Word
  {
    MixReads(LowByte(), 0, 0, 0, x);
    assert Join(0, 0, 0, x) == x as Word;
  }

  /** A block they encrypt. */
  lemma EncryptOne()
    ensures Encrypt(LowByte(), Block(1, 0)) == Block(1, 1)
  {
    var k := LowByte();
    LowByteMix(0);
    LowByteMix(1);
    XorSelf(0);
    XorSelf(1);
    CycleOfThree(XorWord, F(k), k.p, 0, 1);
  }

  /** GET_32BIT_MSB_FIRST, twice. */
  function GetBlock(s: seq<bv8>): Block<Word>
    requires |s| >= 8
  {
    Block(Join(s[0], s[1], s[2], s[3]), Join(s[4], s[5], s[6], s[7]))
  }

  /** PUT_32BIT_MSB_FIRST, twice. */
  function PutBlock(b: Block<Word>): (s: seq<bv8>)
    ensures |s| == 8
  {
    [Byte3(b.l), Byte2(b.l), Byte1(b.l), Byte0(b.l), Byte3(b.r), Byte2(b.r), Byte1(b.r), Byte0(b.r)]
  }

  lemma GetPut(b: Block<Word>, t: seq<bv8>)
    ensures GetBlock(PutBlock(b) + t) == b
  {
    JoinBytes(b.l);
    JoinBytes(b.r);
  }

  lemma PutGet(s: seq<bv8>)
    requires |s| >= 8
    ensures PutBlock(GetBlock(s)) == s[..8]
  {
    BytesJoin(s[0], s[1], s[2], s[3]);
    BytesJoin(s[4], s[5], s[6], s[7]);
  }

  // Chained mode

  function XorBlock(a: Block<Word>, b: Block<Word>): Block<Word> { Block(a.l ^ b.l, a.r ^ b.r) }

  lemma XorBlockLaws(a: Block<Word>, b: Block<Word>)
    ensures XorBlock(a, b) == XorBlock(b, a) && XorBlock(a, a) == Block(0, 0) && XorBlock(a, Block(0, 0)) == a
  {
  }

  lemma XorBlockTwice(a: Block<Word>, b: Block<Word>)
    ensures XorBlock(a, XorBlock(a, b)) == b
  {
  }

  function EncBlock(k: Tables, iv: Block<Word>, s: seq<bv8>): Block<Word>
    requires TablesOk(k) && |s| >= 8
  {
    Encrypt(k, XorBlock(iv, GetBlock(s)))
  }

  function DecBlock(k: Tables, iv: Block<Word>, s: seq<bv8>): Block<Word>
    requires TablesOk(k) && |s| >= 8
  {
    XorBlock(iv, Decrypt(k, GetBlock(s)))
  }

  predicate Whole(s: seq<bv8>) { |s| % 8 == 0 }

  /** Chained encryption of whole blocks. */
  ghost function Enc(k: Tables, iv: Block<Word>, s: seq<bv8>): (c: seq<bv8>)
    requires TablesOk(k) && Whole(s)
    ensures |c| == |s|
    decreases |s|
  {
    if s == [] then [] else
      var b := EncBlock(k, iv, s);
      PutBlock(b) + Enc(k, b, s[8..])
  }

  /** The chaining value it leaves. */
  ghost function EncIv(k: Tables, iv: Block<Word>, s: seq<bv8>): Block<Word>
    requires TablesOk(k) && Whole(s)
    decreases |s|
  {
    if s == [] then iv else EncIv(k, EncBlock(k, iv, s), s[8..])
  }

  ghost function Dec(k: Tables, iv: Block<Word>, s: seq<bv8>): (c: seq<bv8>)
    requires TablesOk(k) && Whole(s)
    ensures |c| == |s|
    decreases |s|
  {
    if s == [] then [] else
      PutBlock(DecBlock(k, iv, s)) + Dec(k, GetBlock(s), s[8..])
  }

  ghost function DecIv(k: Tables, iv: Block<Word>, s: seq<bv8>): Block<Word>
    requires TablesOk(k) && Whole(s)
    decreases |s|
  {
    if s == [] then iv else DecIv(k, GetBlock(s), s[8..])
  }

  lemma {:induction false} EncStep(k: Tables, iv: Block<Word>, s: seq<bv8>)
    requires TablesOk(k) && Whole(s) && s != []
    ensures var c := Enc(k, iv, s); GetBlock(c) == EncBlock(k, iv, s) && c[8..] == Enc(k, EncBlock(k, iv, s), s[8..])
  {
    var b := EncBlock(k, iv, s);
    GetPut(b, Enc(k, b, s[8..]));
    assert (PutBlock(b) + Enc(k, b, s[8..]))[8..] == Enc(k, b, s[8..]);
  }

  lemma {:induction false} DecStep(k: Tables, iv: Block<Word>, s: seq<bv8>)
    requires TablesOk(k) && Whole(s) && s != []
    ensures var c := Dec(k, iv, s); GetBlock(c) == DecBlock(k, iv, s) && c[8..] == Dec(k, GetBlock(s), s[8..])
  {
    var b := DecBlock(k, iv, s);
    GetPut(b, Dec(k, GetBlock(s), s[8..]));
    assert (PutBlock(b) + Dec(k, GetBlock(s), s[8..]))[8..] == Dec(k, GetBlock(s), s[8..]);
  }

  ghost function Blocks(s: seq<bv8>): (bs: seq<Block<Word>>)
    requires Whole(s)
    ensures |bs| == |s| / 8
    decreases |s|
  {
    if s == [] then [] else [GetBlock(s)] + Blocks(s[8..])
  }

  /** One link of the chain: the block is xored with the one encrypted before it and then encrypted. */
  function Link(k: Tables): (Block<Word>, Block<Word>) -> Block<Word>
    requires TablesOk(k)
  {
    (last, here) => Encrypt(k, XorBlock(last, here))
  }

  lemma {:induction false} EncIsChain(k: Tables, iv: Block<Word>, s: seq<bv8>)
    requires TablesOk(k) && Whole(s)
    ensures Blocks(Enc(k, iv, s)) == Chain(Link(k), iv, Blocks(s))
    ensures EncIv(k, iv, s) == ChainEnd(Link(k), iv, Blocks(s))
    decreases |s|
  {
    if s != [] {
      var b, rest := EncBlock(k, iv, s), s[8..];
      EncStep(k, iv, s);
      EncIsChain(k, b, rest);
      ChainCons(Link(k), iv, GetBlock(s), Blocks(rest));
    }
  }

  /** Each block is xored with the encrypted block before it, the first with the vector, and then encrypted. */
  lemma {:induction false} EncChains(k: Tables, iv: Block<Word>, s: seq<bv8>, j: nat)
    requires TablesOk(k) && Whole(s) && 8 * j < |s|
    ensures var c := Blocks(Enc(k, iv, s));
      c[j] == Encrypt(k, XorBlock(if j == 0 then iv else c[j - 1], Blocks(s)[j])) && EncIv(k, iv, s) == c[|c| - 1]
  {
    EncIsChain(k, iv, s);
    ChainAt(Link(k), iv, Blocks(s), j);
    ChainEnds(Link(k), iv, Blocks(s));
  }

  /** Decryption with the same first vector restores the text and leaves the same vector. */
  lemma {:induction false} DecEnc(k: Tables, iv: Block<Word>, s: seq<bv8>)
    requires TablesOk(k) && Whole(s)
    ensures Dec(k, iv, Enc(k, iv, s)) == s && DecIv(k, iv, Enc(k, iv, s)) == EncIv(k, iv, s)
    decreases |s|
  {
    if s != [] {
      var b := EncBlock(k, iv, s);
      EncStep(k, iv, s);
      DecryptEncrypt(k, XorBlock(iv, GetBlock(s)));
      XorBlockTwice(iv, GetBlock(s));
      PutGet(s);
      DecEnc(k, b, s[8..]);
      assert s == s[..8] + s[8..];
    }
  }

  /** And the other way round. */
  lemma {:induction false} EncDec(k: Tables, iv: Block<Word>, s: seq<bv8>)
    requires TablesOk(k) && Whole(s)
    ensures Enc(k, iv, Dec(k, iv, s)) == s && EncIv(k, iv, Dec(k, iv, s)) == DecIv(k, iv, s)
    decreases |s|
  {
    if s != [] {
      var b := GetBlock(s);
      DecStep(k, iv, s);
      XorBlockTwice(iv, Decrypt(k, b));
      EncryptDecrypt(k, b);
      PutGet(s);
      EncDec(k, b, s[8..]);
      assert s == s[..8] + s[8..];
    }
  }

  /** Two calls that carry the vector over are one call. */
  lemma {:induction false} EncSplit(k: Tables, iv: Block<Word>, s: seq<bv8>, t: seq<bv8>)
    requires TablesOk(k) && Whole(s) && Whole(t) && Whole(s + t)
    ensures Enc(k, iv, s + t) == Enc(k, iv, s) + Enc(k, EncIv(k, iv, s), t)
    ensures EncIv(k, iv, s + t) == EncIv(k, EncIv(k, iv, s), t)
    decreases |s|
  {
    if s == [] {
      assert s + t == t;
    } else {
      assert (s + t)[8..] == s[8..] + t;
      EncSplit(k, EncBlock(k, iv, s), s[8..], t);
      assert EncBlock(k, iv, s + t) == EncBlock(k, iv, s);
    }
  }

  lemma {:induction false} DecSplit(k: Tables, iv: Block<Word>, s: seq<bv8>, t: seq<bv8>)
    requires TablesOk(k) && Whole(s) && Whole(t) && Whole(s + t)
    ensures Dec(k, iv, s + t) == Dec(k, iv, s) + Dec(k, DecIv(k, iv, s), t)
    ensures DecIv(k, iv, s + t) == DecIv(k, DecIv(k, iv, s), t)
    decreases |s|
  {
    if s == [] {
      assert s + t == t;
    } else {
      assert (s + t)[8..] == s[8..] + t;
      DecSplit(k, GetBlock(s), s[8..], t);
      assert DecBlock(k, iv, s + t) == DecBlock(k, iv, s);
    }
  }

  /** The PUT macros on eight bytes of a buffer. */
  method Store(blk: array<bv8>, i: nat, b: Block<Word>)
    requires i + 8 <= blk.Length
    modifies blk
    ensures blk[..] == old(blk[..i]) + PutBlock(b) + old(blk[i + 8..])
  {
    var s := PutBlock(b);
    forall j | 0 <= j < 8 {
      blk[i + j] := s[j];
    }
  }

  method Load(blk: array<bv8>, i: nat) returns (b: Block<Word>)
    requires i + 8 <= blk.Length
    ensures b == GetBlock(blk[i..])
  {
    b := Block(Join(blk[i], blk[i + 1], blk[i + 2], blk[i + 3]), Join(blk[i + 4], blk[i + 5], blk[i + 6], blk[i + 7]));
  }

  /** A pass through a buffer: output before i, input from i on, rest still to come of total. */
  ghost predicate Passing(a: seq<bv8>, was: seq<bv8>, i: nat, total: seq<bv8>, rest: seq<bv8>) {
    |a| == |was| && i <= |was| && a[i..] == was[i..] && total == a[..i] + rest
  }

  lemma PassBlock(a: seq<bv8>, was: seq<bv8>, i: nat, total: seq<bv8>, out: seq<bv8>, rest: seq<bv8>)
    requires i + 8 <= |a| && |out| == 8 && Passing(a, was, i, total, out + rest)
    ensures Passing(a[..i] + out + a[i + 8..], was, i + 8, total, rest)
  {
    var b := a[..i] + out + a[i + 8..];
    assert b[..i + 8] == a[..i] + out;
    assert b[i + 8..] == a[i..][8..] == was[i + 8..];
    assert a[..i] + (out + rest) == (a[..i] + out) + rest;
  }

  lemma SameBlock(s: seq<bv8>, t: seq<bv8>)
    requires |t| >= 8 && t <= s
    ensures GetBlock(s) == GetBlock(t)
  {
  }

  /** Where a chained pass stands: output before i, input from i on, and the vector to go on with. */
  ghost predicate EncAt(k: Tables, start: Block<Word>, was: seq<bv8>, a: seq<bv8>, i: nat, len: nat, iv: Block<Word>) {
    && TablesOk(k) && i <= len <= |was| && i % 8 == 0 && len % 8 == 0
    && Passing(a, was, i, Enc(k, start, was[..len]), Enc(k, iv, was[i..len]))
    && EncIv(k, start, was[..len]) == EncIv(k, iv, was[i..len])
  }

  lemma EncBegin(k: Tables, start: Block<Word>, was: seq<bv8>, len: nat)
    requires TablesOk(k) && len <= |was| && len % 8 == 0
    ensures EncAt(k, start, was, was, 0, len, start)
  {
    assert was[0..len] == was[..len];
  }

  lemma {:induction false} EncFinish(k: Tables, start: Block<Word>, was: seq<bv8>, a: seq<bv8>, len: nat,
                                     iv: Block<Word>)
    requires EncAt(k, start, was, a, len, len, iv)
    ensures a[..len] == Enc(k, start, was[..len]) && a[len..] == was[len..] && iv == EncIv(k, start, was[..len])
  {
    assert was[len..len] == [];
  }

  lemma {:induction false} EncUnfold(k: Tables, iv: Block<Word>, r: seq<bv8>, rest: seq<bv8>)
    requires TablesOk(k) && Whole(r) && |r| >= 8 && rest == r[8..]
    ensures Whole(rest) && Enc(k, iv, r) == PutBlock(EncBlock(k, iv, r)) + Enc(k, EncBlock(k, iv, r), rest) &&
      EncIv(k, iv, r) == EncIv(k, EncBlock(k, iv, r), rest)
  {
  }

  lemma EncAdvance(k: Tables, start: Block<Word>, was: seq<bv8>, a: seq<bv8>, i: nat, len: nat, iv: Block<Word>,
                   r: seq<bv8>)
    requires EncAt(k, start, was, a, i, len, iv) && i < len && r == was[i..len]
    ensures |r| >= 8 && i + 8 <= len
    ensures EncAt(k, start, was, a[..i] + PutBlock(EncBlock(k, iv, r)) + a[i + 8..], i + 8, len, EncBlock(k, iv, r))
  {
    var rest := was[i + 8..len];
    EncUnfold(k, iv, r, rest);
    PassBlock(a, was, i, Enc(k, start, was[..len]), PutBlock(EncBlock(k, iv, r)), Enc(k, EncBlock(k, iv, r), rest));
  }

  /** One block of blowfish_encrypt_cbc. */
  method EncOne(k: Tables, blk: array<bv8>, i: nat, iv: Block<Word>, ghost start: Block<Word>, ghost was: seq<bv8>,
                ghost len: nat)
    returns (iv': Block<Word>)
    requires EncAt(k, start, was, blk[..], i, len, iv) && i < len
    modifies blk
    ensures EncAt(k, start, was, blk[..], i + 8, len, iv')
  {
    EncAdvance(k, start, was, blk[..], i, len, iv, was[i..len]);
    var x := Load(blk, i);
    SameBlock(blk[i..], was[i..len]);
    var m := XorBlock(iv, x);
    var out0, out1 := BlowfishEncrypt(k, m.l, m.r);
    var c := Block(out0, out1);
    Store(blk, i, c);
    iv' := c;
  }

  /** Where a chained pass stands: output before i, input from i on, and the vector to go on with. */
  ghost predicate DecAt(k: Tables, start: Block<Word>, was: seq<bv8>, a: seq<bv8>, i: nat, len: nat, iv: Block<Word>) {
    && TablesOk(k) && i <= len <= |was| && i % 8 == 0 && len % 8 == 0
    && Passing(a, was, i, Dec(k, start, was[..len]), Dec(k, iv, was[i..len]))
    && DecIv(k, start, was[..len]) == DecIv(k, iv, was[i..len])
  }

  lemma DecBegin(k: Tables, start: Block<Word>, was: seq<bv8>, len: nat)
    requires TablesOk(k) && len <= |was| && len % 8 == 0
    ensures DecAt(k, start, was, was, 0, len, start)
  {
    assert was[0..len] == was[..len];
  }

  lemma {:induction false} DecFinish(k: Tables, start: Block<Word>, was: seq<bv8>, a: seq<bv8>, len: nat,
                                     iv: Block<Word>)
    requires DecAt(k, start, was, a, len, len, iv)
    ensures a[..len] == Dec(k, start, was[..len]) && a[len..] == was[len..] && iv == DecIv(k, start, was[..len])
  {
    assert was[len..len] == [];
  }

  lemma {:induction false} DecUnfold(k: Tables, iv: Block<Word>, r: seq<bv8>, rest: seq<bv8>)
    requires TablesOk(k) && Whole(r) && |r| >= 8 && rest == r[8..]
    ensures Whole(rest) && Dec(k, iv, r) == PutBlock(DecBlock(k, iv, r)) + Dec(k, GetBlock(r), rest) &&
      DecIv(k, iv, r) == DecIv(k, GetBlock(r), rest)
  {
  }

  lemma DecAdvance(k: Tables, start: Block<Word>, was: seq<bv8>, a: seq<bv8>, i: nat, len: nat, iv: Block<Word>,
                   r: seq<bv8>)
    requires DecAt(k, start, was, a, i, len, iv) && i < len && r == was[i..len]
    ensures |r| >= 8 && i + 8 <= len
    ensures DecAt(k, start, was, a[..i] + PutBlock(DecBlock(k, iv, r)) + a[i + 8..], i + 8, len, GetBlock(r))
  {
    var rest := was[i + 8..len];
    DecUnfold(k, iv, r, rest);
    PassBlock(a, was, i, Dec(k, start, was[..len]), PutBlock(DecBlock(k, iv, r)), Dec(k, GetBlock(r), rest));
  }

  /** One block of blowfish_decrypt_cbc. */
  method DecOne(k: Tables, blk: array<bv8>, i: nat, iv: Block<Word>, ghost start: Block<Word>, ghost was: seq<bv8>,
                ghost len: nat)
    returns (iv': Block<Word>)
    requires DecAt(k, start, was, blk[..], i, len, iv) && i < len
    modifies blk
    ensures DecAt(k, start, was, blk[..], i + 8, len, iv')
  {
    DecAdvance(k, start, was, blk[..], i, len, iv, was[i..len]);
    var x := Load(blk, i);
    SameBlock(blk[i..], was[i..len]);
    var out0, out1 := BlowfishDecrypt(k, x.l, x.r);
    var c := XorBlock(iv, Block(out0, out1));
    Store(blk, i, c);
    iv' := x;
  }

  class Context {
    var tables: Tables
    var iv0: Word
    var iv1: Word

    ghost function Iv(): Block<Word>
      reads this
    {
      Block(iv0, iv1)
    }

    /** blowfish_encrypt_cbc */
    method EncryptCbc(blk: array<bv8>, len: nat)
      requires TablesOk(tables) && len <= blk.Length && len % 8 == 0
      modifies this, blk
      ensures tables == old(tables)
      ensures blk[..len] == Enc(tables, old(Iv()), old(blk[..len])) && blk[len..] == old(blk[len..])
      ensures Iv() == EncIv(tables, old(Iv()), old(blk[..len]))
    {
      ghost var was, start := blk[..], Iv();
      var k, iv := tables, Block(iv0, iv1);
      var i := 0;
      EncBegin(k, start, was, len);
      while i < len
        invariant 0 <= i <= len && tables == k && EncAt(k, start, was, blk[..], i, len, iv)
      {
        iv := EncOne(k, blk, i, iv, start, was, len);
        i := i + 8;
      }
      EncFinish(k, start, was, blk[..], len, iv);
      iv0, iv1 := iv.l, iv.r;
    }

    /** blowfish_decrypt_cbc */
    method DecryptCbc(blk: array<bv8>, len: nat)
      requires TablesOk(tables) && len <= blk.Length && len % 8 == 0
      modifies this, blk
      ensures tables == old(tables)
      ensures blk[..len] == Dec(tables, old(Iv()), old(blk[..len])) && blk[len..] == old(blk[len..])
      ensures Iv() == DecIv(tables, old(Iv()), old(blk[..len]))
    {
      ghost var was, start := blk[..], Iv();
      var k, iv := tables, Block(iv0, iv1);
      var i := 0;
      DecBegin(k, start, was, len);
      while i < len
        invariant 0 <= i <= len && tables == k && DecAt(k, start, was, blk[..], i, len, iv)
      {
        iv := DecOne(k, blk, i, iv, start, was, len);
        i := i + 8;
      }
      DecFinish(k, start, was, blk[..], len, iv);
      iv0, iv1 := iv.l, iv.r;
    }
  }
}
