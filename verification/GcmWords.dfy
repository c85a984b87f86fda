/** The word loops of the mode: each computes its bit-string definition. */
module GcmWords {
  import opened BitArrays
  import opened Congruence
  import opened Gcm
  import opened Outcomes
  import opened WordBits

  datatype GcmError = TagMismatch

  function WordsOf(b: Block): (a: seq<int>)
    ensures |a| == 4
  {
    [Word(b[..32]), Word(b[32..64]), Word(b[64..96]), Word(b[96..])]
  }

  lemma WordsOfBits(b: Block)
    ensures All(WordsOf(b)) == b && AllFull(WordsOf(b))
  {
    hide Bits, Word;
    BitsOfWord(b[..32]);
    BitsOfWord(b[32..64]);
    BitsOfWord(b[64..96]);
    BitsOfWord(b[96..]);
    FourAll(WordsOf(b));
    WordFull(b[..32]);
    WordFull(b[32..64]);
    WordFull(b[64..96]);
    WordFull(b[96..]);
  }

  lemma WordFull(s: seq<bool>)
    requires |s| == 32
    ensures Full(Word(s))
  {
  }

  lemma FourAll(a: seq<int>)
    requires |a| == 4
    ensures All(a) == Bits(a[0]) + Bits(a[1]) + Bits(a[2]) + Bits(a[3])
  {
    hide Bits;
    AllOne(a[0]);
    AllLast([a[0]], a[1]);
    AllLast([a[0], a[1]], a[2]);
    AllLast([a[0], a[1], a[2]], a[3]);
    assert a == [a[0], a[1], a[2]] + [a[3]];
    assert [a[0], a[1]] + [a[2]] == [a[0], a[1], a[2]] && [a[0]] + [a[1]] == [a[0], a[1]];
  }

  /** Word by word exclusive or. */
  function XorWords(a: seq<int>, b: seq<int>): (r: seq<int>)
    requires |a| == |b|
    ensures |r| == |a|
  {
    seq(|a|, i requires 0 <= i < |a| => Xor(a[i], b[i]))
  }

  lemma {:induction false} XorWordsBits(a: seq<int>, b: seq<int>)
    requires |a| == |b|
    ensures All(XorWords(a, b)) == XorBits(All(a), All(b)) && AllFull(XorWords(a, b))
  {
    hide Bits, Xor;
    forall i | 0 <= i < |a| ensures Full(XorWords(a, b)[i]) { XorFull(a[i], b[i]); }
    if a != [] {
      var n := |a| - 1;
      XorWordsBits(a[..n], b[..n]);
      XorBitsOf(a[n], b[n]);
      assert XorWords(a, b)[..n] == XorWords(a[..n], b[..n]);
      XorJoins(All(a[..n]), Bits(a[n]), All(b[..n]), Bits(b[n]));
    }
  }

  lemma XorFull(x: int, y: int)
    ensures Full(Xor(x, y))
  {
  }

  lemma XorJoins(s1: seq<bool>, t1: seq<bool>, s2: seq<bool>, t2: seq<bool>)
    requires |s1| == |s2| && |t1| == |t2|
    ensures XorBits(s1, s2) + XorBits(t1, t2) == XorBits(s1 + t1, s2 + t2)
  {
  }

  /** data[i], ..., data[i + 3]. */
  function FourAt(data: seq<int>, i: nat): (a: seq<int>)
    ensures |a| == 4
  {
    [At(data, i), At(data, i + 1), At(data, i + 2), At(data, i + 3)]
  }

  /** All bits of the array, with enough zeros to read past its end. */
  function Extended(data: seq<int>): seq<bool> {
    All(data) + Falses(128)
  }

  lemma FourAtBits(data: seq<int>, i: nat)
    requires i < |data|
    ensures All(FourAt(data, i)) == Extended(data)[32 * i..32 * i + 128]
  {
    hide Bits, All;
    var e := data + [0, 0, 0, 0];
    ZeroBits();
    FourAll([0, 0, 0, 0]);
    assert Falses(32) + Falses(32) + Falses(32) + Falses(32) == Falses(128);
    AllAppend(data, [0, 0, 0, 0]);
    WordsAt(e, i, i + 4);
    assert e[i..i + 4] == FourAt(data, i);
  }

  /** The contents from bit n on, nothing past the end. */
  function Rest(x: seq<bool>, n: nat): seq<bool> {
    if n <= |x| then x[n..] else []
  }

  /** Four words are the first block of what is left. */
  lemma BlockOfRest(data: seq<int>, i: nat)
    requires Valid(data) && i < |data|
    ensures var x := Rest(Contents(data), 32 * i);
            && x != [] && All(FourAt(data, i)) == FirstBlock(x)
            && Rest(Contents(data), 32 * (i + 4)) == (if |x| < 128 then [] else x[128..])
  {
    hide Bits, All, Valid, GetPartial;
    FourAtBits(data, i);
    BitLengthBound(data);
    UnusedFalse(data);
    PaddedSlice(All(data), |Contents(data)|, 32 * i);
  }

  lemma PaddedSlice(x: seq<bool>, n: nat, o: nat)
    requires o < n <= |x| && AllFalse(x[n..]) && o + 32 <= |x|
    ensures (x + Falses(128))[o..o + 128] == FirstBlock(x[..n][o..])
    ensures Rest(x[..n], o + 128) == if n - o < 128 then [] else x[..n][o..][128..]
  {
    var s, t := (x + Falses(128))[o..o + 128], FirstBlock(x[..n][o..]);
    forall j | 0 <= j < 128 ensures s[j] == t[j] {
      if n <= o + j < |x| { assert !x[n..][o + j - n]; }
    }
  }

  // ---------------------------------------------------------------- GHASH

  /** _ghash. */
  method GhashWords(mul: (Block, Block) -> Block, h: seq<int>, y0: seq<int>, data: seq<int>) returns (y: seq<int>)
    requires |h| == 4 && |y0| == 4 && AllFull(y0) && Valid(data)
    ensures |y| == 4 && AllFull(y)
    ensures All(y) == Ghash(mul, All(h), All(y0), Contents(data))
  {
    hide All, Valid, WordsOf, XorWords, Rest, Full;
    y := y0;
    var i := 0;
    RestOfAll(Contents(data));
    while i < |data|
      invariant |y| == 4 && AllFull(y)
      invariant Ghash(mul, All(h), All(y), Rest(Contents(data), 32 * i))
                == Ghash(mul, All(h), All(y0), Contents(data))
    {
      BlockOfRest(data, i);
      XorWordsBits(y, FourAt(data, i));
      y := XorWords(y, FourAt(data, i));
      WordsOfBits(mul(All(y), All(h)));
      y := WordsOf(mul(All(y), All(h)));
      i := i + 4;
    }
    RestPastEnd(data, i);
  }

  lemma RestOfAll(x: seq<bool>)
    ensures Rest(x, 0) == x
  {
  }

  lemma RestPastEnd(data: seq<int>, i: nat)
    requires Valid(data) && i >= |data|
    ensures Rest(Contents(data), 32 * i) == []
  {
    hide All;
    BitLengthBound(data);
  }

  // ---------------------------------------------------------------- counter mode

  /** After i words: those are encrypted, the others untouched. */
  predicate Encrypted(prf: Block -> Block, data: seq<int>, j0: seq<int>, i: nat, r: seq<int>, ctr: seq<int>)
    requires |j0| == 4
  {
    && i % 4 == 0 && i < |data| + 4
    && |r| >= i && r[i..] == (if i <= |data| then data[i..] else [])
    && AllFull(r[..i])
    && All(r[..i]) == XorBits(Extended(data)[..32 * i], KeyStream(prf, All(j0), i / 4))
    && ctr == j0[3 := j0[3] + i / 4]
  }

  lemma CounterWords(j0: seq<int>, k: nat)
    requires |j0| == 4
    ensures All(j0[3 := j0[3] + k]) == Counter(All(j0), k)
  {
    hide Bits, All, Value, BitsOf;
    var j := j0[3 := j0[3] + k];
    FourAll(j0);
    FourAll(j);
    CounterWord(j0[3], k);
    var head := Bits(j0[0]) + Bits(j0[1]) + Bits(j0[2]);
    assert All(j0) == head + Bits(j0[3]) && All(j) == head + Bits(j0[3] + k);
    assert All(j0)[96..] == Bits(j0[3]) && All(j0)[..96] == head;
  }

  lemma CounterWord(w: int, k: nat)
    ensures Bits(w + k) == BitsOf(Value(Bits(w)) + k, 32)
  {
    hide BitsOf, Value, Pow;
    Pow32();
    ValueOfBits(w, 32);
    BitsMod(w + k, Value(Bits(w)) + k, 32);
  }

  lemma EncryptStep(prf: Block -> Block, data: seq<int>, j0: seq<int>, i: nat, r: seq<int>, ctr: seq<int>)
    requires |j0| == 4 && i < |data| && Encrypted(prf, data, j0, i, r, ctr)
    ensures |ctr| == 4
    ensures var next := ctr[3 := ctr[3] + 1];
            var enc := WordsOf(prf(All(next)));
            var block := XorWords(FourAt(r, i), enc);
            Encrypted(prf, data, j0, i + 4, r[..i] + block + (if i + 4 <= |r| then r[i + 4..] else []), next)
  {
    hide All, WordsOf, XorWords, KeyStream, Full, Counter;
    var k := i / 4;
    var next := ctr[3 := ctr[3] + 1];
    assert next == j0[3 := j0[3] + (k + 1)];
    CounterWords(j0, k + 1);
    var enc := WordsOf(prf(All(next)));
    WordsOfBits(prf(All(next)));
    SameFour(r, data, i);
    XorWordsBits(FourAt(data, i), enc);
    FourAtBits(data, i);
    var block := XorWords(FourAt(r, i), enc);
    var r' := r[..i] + block + (if i + 4 <= |r| then r[i + 4..] else []);
    assert r'[..i + 4] == r[..i] + block;
    AllAppend(r[..i], block);
    KeyStreamNext(prf, All(j0), k);
    var e := Extended(data);
    XorJoins(e[..32 * i], e[32 * i..32 * i + 128], KeyStream(prf, All(j0), k), prf(All(next)));
    assert e[..32 * (i + 4)] == e[..32 * i] + e[32 * i..32 * i + 128];
  }

  lemma SameFour(r: seq<int>, data: seq<int>, i: nat)
    requires i < |data| && |r| >= i && r[i..] == data[i..]
    ensures FourAt(r, i) == FourAt(data, i) && |r| == |data|
  {
    assert |r| == |data|;
    forall j | i <= j < |data| ensures r[j] == data[j] { assert r[i..][j - i] == data[i..][j - i]; }
  }

  lemma KeyStreamNext(prf: Block -> Block, j: Block, k: nat)
    ensures KeyStream(prf, j, k + 1) == KeyStream(prf, j, k) + prf(Counter(j, k + 1))
  {
  }

  /** The encryption loop and the clamp to the data's length. */
  method CtrWords(prf: Block -> Block, data: seq<int>, j0: seq<int>) returns (r: seq<int>)
    requires Valid(data) && |j0| == 4
    ensures Valid(r)
    ensures Contents(r) == XorBits(Contents(data), KeyStream(prf, All(j0), (|Contents(data)| + 127) / 128))
  {
    hide All, Valid, WordsOf, XorWords, KeyStream, Full, Encrypted, Contents, GetPartial;
    r := data;
    var l, bl, ctr, i := |data|, BitLength(data), j0, 0;
    BitLengthBound(data);
    EncryptStart(prf, data, j0);
    while i < l
      invariant Encrypted(prf, data, j0, i, r, ctr) && i % 4 == 0 && i < l + 4
    {
      EncryptStep(prf, data, j0, i, r, ctr);
      EncryptLong(prf, data, j0, i, r, ctr);
      ctr := ctr[3 := ctr[3] + 1];
      var enc := WordsOf(prf(All(ctr)));
      r := r[..i] + XorWords(FourAt(r, i), enc) + (if i + 4 <= |r| then r[i + 4..] else []);
      i := i + 4;
    }
    EncryptEnd(prf, data, j0, i, r, ctr);
    r := Clamp(r, bl);
  }

  lemma EncryptLong(prf: Block -> Block, data: seq<int>, j0: seq<int>, i: nat, r: seq<int>, ctr: seq<int>)
    requires |j0| == 4 && i < |data| && Encrypted(prf, data, j0, i, r, ctr)
    ensures |r| >= i
  {
  }

  lemma EncryptStart(prf: Block -> Block, data: seq<int>, j0: seq<int>)
    requires |j0| == 4
    ensures Encrypted(prf, data, j0, 0, data, j0)
  {
    assert data[..0] == [] && data[0..] == data;
    assert j0[3 := j0[3] + 0] == j0;
  }

  lemma EncryptEnd(prf: Block -> Block, data: seq<int>, j0: seq<int>, i: nat, r: seq<int>, ctr: seq<int>)
    requires |j0| == 4 && i >= |data| && Valid(data) && Encrypted(prf, data, j0, i, r, ctr)
    ensures Valid(r) && BitLength(data) <= BitLength(r)
    ensures BitLength(data) >= 0
    ensures Contents(r)[..BitLength(data)]
            == XorBits(Contents(data), KeyStream(prf, All(j0), (|Contents(data)| + 127) / 128))
  {
    hide All, KeyStream, Full, XorBits, Valid, GetPartial;
    BitLengthBound(data);
    assert r[i..] == [] && r == r[..i];
    FullContents(r);
    UnusedFalse(r);
    UnusedFalse(data);
    BlockCount(|data|, i, BitLength(data));
    XorPrefixOf(Extended(data)[..32 * i], KeyStream(prf, All(j0), i / 4), BitLength(data));
    ExtendedPrefix(All(data), 32 * i, BitLength(data));
  }

  lemma ExtendedPrefix(x: seq<bool>, m: nat, n: nat)
    requires n <= |x| <= m <= |x| + 128
    ensures (x + Falses(128))[..m][..n] == x[..n]
  {
  }

  lemma BlockCount(l: nat, i: nat, bl: nat)
    requires l <= i < l + 4 && i % 4 == 0 && bl <= 32 * l && (l > 0 ==> 32 * l - 32 < bl)
    ensures i / 4 == (bl + 127) / 128
  {
  }

  lemma XorPrefixOf(s: seq<bool>, t: seq<bool>, n: nat)
    requires |s| <= |t| && n <= |s|
    ensures XorBits(s, t)[..n] == XorBits(s[..n], t)
  {
  }

  // ---------------------------------------------------------------- the mode

  /** The block of two lengths. */
  function Lengths(m: nat, n: nat): (a: seq<int>)
    ensures |a| == 4
  {
    [m / 0x1_0000_0000, ToInt32(m), n / 0x1_0000_0000, ToInt32(n)]
  }

  /** Four words of a length block stay below 2^32 up to 2^64 bits. */
  lemma LengthsBits(m: nat, n: nat)
    requires m < 0x1_0000_0000_0000_0000 && n < 0x1_0000_0000_0000_0000
    ensures Valid(Lengths(m, n)) && Contents(Lengths(m, n)) == BitsOf(m, 64) + BitsOf(n, 64)
  {
    hide All, Bits, BitsOf, Word;
    var a := Lengths(m, n);
    FourAll(a);
    BitsOfWord(Bits(m));
    BitsOfWord(Bits(n));
    LengthBits(m, a[0]);
    LengthBits(n, a[2]);
    WordFull(Bits(m));
    WordFull(Bits(n));
    FullContents(a);
  }

  /** The first counter block. */
  method FirstCounterWords(c: Cipher, h: seq<int>, iv: seq<int>) returns (j0: seq<int>)
    requires Valid(iv) && |h| == 4 && All(h) == HashKey(c) && BitLength(iv) < 0x1_0000_0000_0000_0000
    ensures |j0| == 4 && All(j0) == FirstCounter(c, Contents(iv))
  {
    hide All, Valid, Ghash, GetPartial, Contents, BitsOf, Falses;
    DataBits(iv);
    if BitLength(iv) == 96 {
      OneWordArray();
      j0 := Concat(iv, [1]);
      WholeContents(j0, 4);
    } else {
      ZeroWords();
      var y := GhashWords(c.mul, h, [0, 0, 0, 0], iv);
      LengthsBits(0, BitLength(iv));
      ZeroLength();
      j0 := GhashWords(c.mul, h, y, Lengths(0, BitLength(iv)));
    }
  }

  lemma WholeContents(a: seq<int>, n: nat)
    requires Valid(a) && |Contents(a)| == 32 * n
    ensures |a| == n && All(a) == Contents(a)
  {
    hide All;
    BitLengthBound(a);
    UnusedFalse(a);
  }

  lemma OneWordArray()
    ensures Valid([1]) && Contents([1]) == BitsOf(1, 32)
  {
    hide BitsOf;
    FullContents([1]);
    AllOne(1);
  }

  lemma ZeroWords()
    ensures All([0, 0, 0, 0]) == ZeroBlock() && AllFull([0, 0, 0, 0])
  {
    hide Bits;
    ZeroBits();
    FourAll([0, 0, 0, 0]);
  }

  lemma ZeroLength()
    ensures BitsOf(0, 64) == Falses(64)
  {
    BitsOfZero(64);
  }

  /** _ctrMode: the tag is taken over the ciphertext, before or after the data are changed. */
  method CtrMode(encrypt: bool, c: Cipher, data: seq<int>, adata: seq<int>, iv: seq<int>, tlen: nat)
    returns (tag: seq<int>, out: seq<int>)
    requires Valid(data) && Valid(adata) && Valid(iv) && tlen <= 128
    requires BitLength(data) < 0x1_0000_0000_0000_0000 && BitLength(adata) < 0x1_0000_0000_0000_0000
    requires BitLength(iv) < 0x1_0000_0000_0000_0000
    ensures Valid(out) && Contents(out) == Gctr(c, Contents(iv), Contents(data))
    ensures Valid(tag)
    ensures var y := if encrypt then Contents(out) else Contents(data);
            Contents(tag) == TagOf(c, Contents(iv), Contents(adata), y)[..tlen]
  {
    hide All, Valid, Ghash, KeyStream, FirstCounter, GetPartial, WordsOf, XorWords, Lengths, Full, Contents;
    ZeroWords();
    WordsOfBits(c.prf(ZeroBlock()));
    var h := WordsOf(c.prf(All([0, 0, 0, 0])));
    var j0 := FirstCounterWords(c, h, iv);
    var s := GhashWords(c.mul, h, [0, 0, 0, 0], adata);
    if !encrypt {
      s := GhashWords(c.mul, h, s, data);
    }
    out := CtrWords(c.prf, data, j0);
    if encrypt {
      s := GhashWords(c.mul, h, s, out);
    }
    SameLength(data, out);
    BitLengthBound(adata);
    DataBits(adata);
    DataBits(data);
    LengthsBits(BitLength(adata), BitLength(data));
    s := GhashWords(c.mul, h, s, Lengths(BitLength(adata), BitLength(data)));
    var enc := WordsOf(c.prf(All(j0)));
    WordsOfBits(c.prf(All(j0)));
    XorWordsBits(s, enc);
    tag := XorWords(s, enc);
    FullContents(tag);
    DataBits(tag);
    tag := BitSlice(tag, 0, tlen);
  }

  lemma DataBits(a: seq<int>)
    requires Valid(a)
    ensures |Contents(a)| == BitLength(a) >= 0
  {
    BitLengthBound(a);
    UnusedFalse(a);
  }

  lemma SameLength(a: seq<int>, b: seq<int>)
    requires Valid(a) && Valid(b) && |Contents(a)| == |Contents(b)|
    ensures BitLength(a) == BitLength(b) && BitLength(a) >= 0
  {
    DataBits(a);
    DataBits(b);
  }

  /** gcm.encrypt; a tag length of 0 means 128. */
  method Encrypt(c: Cipher, plaintext: seq<int>, iv: seq<int>, adata: seq<int>, tlen: nat) returns (z: seq<int>)
    requires Valid(plaintext) && Valid(adata) && Valid(iv) && tlen <= 128
    requires BitLength(plaintext) < 0x1_0000_0000_0000_0000 && BitLength(adata) < 0x1_0000_0000_0000_0000
    requires BitLength(iv) < 0x1_0000_0000_0000_0000
    ensures Valid(z)
    ensures Contents(z)
            == Seal(c, Contents(iv), Contents(adata), if tlen == 0 then 128 else tlen, Contents(plaintext))
  {
    hide Valid, All, Gctr, TagOf;
    var length := if tlen == 0 then 128 else tlen;
    var tag, out := CtrMode(true, c, plaintext, adata, iv, length);
    z := Concat(out, tag);
  }

  /** gcm.decrypt. */
  method Decrypt(c: Cipher, ciphertext: seq<int>, iv: seq<int>, adata: seq<int>, tlen: nat)
    returns (r: Result<seq<int>, GcmError>)
    requires Valid(ciphertext) && Valid(adata) && Valid(iv) && tlen <= 128
    requires BitLength(ciphertext) < 0x1_0000_0000_0000_0000 && BitLength(adata) < 0x1_0000_0000_0000_0000
    requires BitLength(iv) < 0x1_0000_0000_0000_0000
    ensures r.Ok? ==> Valid(r.value)
    ensures var plain :=
              Open(c, Contents(iv), Contents(adata), if tlen == 0 then 128 else tlen, Contents(ciphertext));
            if r.Ok? then plain == Some(Contents(r.value)) else plain == None
  {
    hide Valid, All, Gctr, TagOf, GetPartial;
    var length := if tlen == 0 then 128 else tlen;
    var l := BitLength(ciphertext);
    DataBits(ciphertext);
    var tag, data := ciphertext, [];
    NoBits();
    if length <= l {
      tag := BitSliceFrom(ciphertext, l - length);
      data := BitSlice(ciphertext, 0, l - length);
    }
    DataBits(data);
    var expected, out := CtrMode(false, c, data, adata, iv, length);
    var same := Equal(expected, tag);
    if !same { return Err(TagMismatch); }
    return Ok(out);
  }

  lemma NoBits()
    ensures Valid([]) && Contents([]) == []
  {
  }
}
