/** Galois/counter mode over an arbitrary 128-bit block function and an arbitrary product,
    stated on bit strings as sections 6 and 7 of NIST SP 800-38D do. */
module Gcm {
  import opened Outcomes
  import opened WordBits

  type Block = s: seq<bool> | |s| == 128 witness seq(128, _ => false)

  /** The block function under the key, and the product in the field. */
  datatype Cipher = Cipher(prf: Block -> Block, mul: (Block, Block) -> Block)

  function ZeroBlock(): Block {
    Falses(128)
  }

  function XorBlock(a: Block, b: Block): Block {
    XorBits(a, b)
  }

  // ---------------------------------------------------------------- the mode on bit strings

  /** The first block of x, filled up with zeros. */
  function FirstBlock(x: seq<bool>): Block {
    if |x| < 128 then x + Falses(128 - |x|) else x[..128]
  }

  /** GHASH of x, zero-padded to whole blocks, from y on. */
  function Ghash(mul: (Block, Block) -> Block, h: Block, y: Block, x: seq<bool>): Block
    decreases |x|
  {
    if x == [] then y
    else Ghash(mul, h, mul(XorBlock(y, FirstBlock(x)), h), if |x| < 128 then [] else x[128..])
  }

  /** The counter block k increments of its last 32 bits after j. */
  function Counter(j: Block, k: nat): Block {
    j[..96] + BitsOf(Value(j[96..]) + k, 32)
  }

  /** n blocks of key stream after the counter j. */
  function KeyStream(prf: Block -> Block, j: Block, n: nat): (s: seq<bool>)
    ensures |s| == 128 * n
  {
    if n == 0 then [] else KeyStream(prf, j, n - 1) + prf(Counter(j, n))
  }

  function HashKey(c: Cipher): Block {
    c.prf(ZeroBlock())
  }

  /** J0. */
  function FirstCounter(c: Cipher, iv: seq<bool>): Block {
    if |iv| == 96 then iv + BitsOf(1, 32)
    else
      var h := HashKey(c);
      Ghash(c.mul, h, Ghash(c.mul, h, ZeroBlock(), iv), Falses(64) + BitsOf(|iv|, 64))
  }

  /** GCTR. */
  function Gctr(c: Cipher, iv: seq<bool>, x: seq<bool>): (y: seq<bool>)
    ensures |y| == |x|
  {
    XorBits(x, KeyStream(c.prf, FirstCounter(c, iv), (|x| + 127) / 128))
  }

  /** The full tag over associated data and ciphertext. */
  function TagOf(c: Cipher, iv: seq<bool>, adata: seq<bool>, y: seq<bool>): Block {
    var h := HashKey(c);
    var s := Ghash(c.mul, h, Ghash(c.mul, h, ZeroBlock(), adata), y);
    XorBlock(Ghash(c.mul, h, s, BitsOf(|adata|, 64) + BitsOf(|y|, 64)), c.prf(FirstCounter(c, iv)))
  }

  /** Authenticated encryption. */
  function Seal(c: Cipher, iv: seq<bool>, adata: seq<bool>, tlen: nat, x: seq<bool>): seq<bool>
    requires tlen <= 128
  {
    var y := Gctr(c, iv, x);
    y + TagOf(c, iv, adata, y)[..tlen]
  }

  /** Authenticated decryption; None when the tag does not match. */
  function Open(c: Cipher, iv: seq<bool>, adata: seq<bool>, tlen: nat, z: seq<bool>): Option<seq<bool>>
    requires tlen <= 128
  {
    var cut := if tlen <= |z| then |z| - tlen else 0;
    var y := z[..cut];
    if TagOf(c, iv, adata, y)[..tlen] == z[cut..] then Some(Gctr(c, iv, y)) else None
  }

  lemma XorTwice(s: seq<bool>, t: seq<bool>)
    requires |s| <= |t|
    ensures XorBits(XorBits(s, t), t) == s
  {
  }

  lemma GctrTwice(c: Cipher, iv: seq<bool>, x: seq<bool>)
    ensures Gctr(c, iv, Gctr(c, iv, x)) == x
  {
    hide KeyStream, FirstCounter;
    XorTwice(x, KeyStream(c.prf, FirstCounter(c, iv), (|x| + 127) / 128));
  }

  /** Decryption undoes encryption. */
  lemma OpenSeal(c: Cipher, iv: seq<bool>, adata: seq<bool>, tlen: nat, x: seq<bool>)
    requires tlen <= 128
    ensures Open(c, iv, adata, tlen, Seal(c, iv, adata, tlen, x)) == Some(x)
  {
    hide Gctr, TagOf;
    var y := Gctr(c, iv, x);
    var tag := TagOf(c, iv, adata, y)[..tlen];
    assert (y + tag)[..|y|] == y && (y + tag)[|y|..] == tag;
    GctrTwice(c, iv, x);
  }

  /** Exactly the encryptions are accepted, each as the plaintext it encrypts. */
  lemma OpenExactly(c: Cipher, iv: seq<bool>, adata: seq<bool>, tlen: nat, z: seq<bool>, x: seq<bool>)
    requires tlen <= 128
    ensures Open(c, iv, adata, tlen, z) == Some(x) <==> z == Seal(c, iv, adata, tlen, x)
  {
    hide Gctr, TagOf;
    OpenSeal(c, iv, adata, tlen, x);
    if Open(c, iv, adata, tlen, z) == Some(x) {
      var cut := if tlen <= |z| then |z| - tlen else 0;
      GctrTwice(c, iv, z[..cut]);
      assert z == z[..cut] + z[cut..];
    }
  }

  // ---------------------------------------------------------------- the mode spelled out

  /** Filled up with zeros to whole blocks. */
  function Padded(x: seq<bool>): (w: seq<bool>)
    ensures |w| % 128 == 0
  {
    x + Falses((128 - |x| % 128) % 128)
  }

  /** The chaining values of one GHASH over whole blocks, from zero. */
  predicate Chain(mul: (Block, Block) -> Block, h: Block, w: seq<bool>, ys: seq<Block>) {
    && ys != [] && |w| == 128 * (|ys| - 1)
    && ys[0] == Falses(128)
    && forall i :: 0 <= i < |ys| - 1 ==> ys[i + 1] == mul(XorBits(ys[i], w[128 * i..128 * i + 128]), h)
  }

  lemma {:induction false} ChainExists(mul: (Block, Block) -> Block, h: Block, w: seq<bool>) returns (ys: seq<Block>)
    requires |w| % 128 == 0
    ensures Chain(mul, h, w, ys)
  {
    if w == [] {
      ys := [Falses(128)];
    } else {
      var n := |w| - 128;
      var init := ChainExists(mul, h, w[..n]);
      ys := init + [mul(XorBits(init[|init| - 1], w[n..]), h)];
      forall i | 0 <= i < |ys| - 1 ensures ys[i + 1] == mul(XorBits(ys[i], w[128 * i..128 * i + 128]), h) {
        if i < |init| - 1 {
          assert w[128 * i..128 * i + 128] == w[..n][128 * i..128 * i + 128];
        } else {
          assert w[128 * i..128 * i + 128] == w[n..];
        }
      }
    }
  }

  /** The last chaining value is the hash. */
  lemma {:induction false} GhashChain(
    mul: (Block, Block) -> Block, h: Block, w: seq<bool>, ys: seq<Block>, k: nat)
    requires Chain(mul, h, w, ys) && k < |ys|
    ensures Ghash(mul, h, ys[k], w[128 * k..]) == ys[|ys| - 1]
    decreases |ys| - k
  {
    if k < |ys| - 1 {
      var rest := w[128 * k..];
      assert rest[..128] == w[128 * k..128 * k + 128] && rest[128..] == w[128 * (k + 1)..];
      GhashChain(mul, h, w, ys, k + 1);
    }
  }

  lemma {:induction false} GhashAppend(
    mul: (Block, Block) -> Block, h: Block, y: Block, x: seq<bool>, z: seq<bool>)
    requires |x| % 128 == 0
    ensures Ghash(mul, h, y, x + z) == Ghash(mul, h, Ghash(mul, h, y, x), z)
    decreases |x|
  {
    if x == [] {
      assert x + z == z;
    } else {
      assert (x + z)[..128] == x[..128] && (x + z)[128..] == x[128..] + z;
      GhashAppend(mul, h, mul(XorBlock(y, x[..128]), h), x[128..], z);
    }
  }

  lemma {:induction false} GhashPadded(mul: (Block, Block) -> Block, h: Block, y: Block, x: seq<bool>)
    ensures Ghash(mul, h, y, Padded(x)) == Ghash(mul, h, y, x)
    decreases |x|
  {
    if x == [] {
      assert Padded(x) == x;
    } else if |x| < 128 {
      ShortPadded(mul, h, y, x);
    } else {
      LongPadded(x);
      hide Padded, Falses;
      GhashPadded(mul, h, mul(XorBlock(y, x[..128]), h), x[128..]);
    }
  }

  lemma LongPadded(x: seq<bool>)
    requires |x| >= 128
    ensures |Padded(x)| >= 128 && Padded(x)[..128] == x[..128] && Padded(x)[128..] == Padded(x[128..])
  {
  }

  lemma ShortPadded(mul: (Block, Block) -> Block, h: Block, y: Block, x: seq<bool>)
    requires 0 < |x| < 128
    ensures Ghash(mul, h, y, Padded(x)) == Ghash(mul, h, y, x)
  {
    var p := Padded(x);
    assert p == FirstBlock(x) && p[..128] == p && p[128..] == [];
    hide Falses, Padded;
    var z := mul(XorBlock(y, FirstBlock(x)), h);
    assert FirstBlock(p) == p && Ghash(mul, h, z, []) == z;
  }

  lemma ChainStart(mul: (Block, Block) -> Block, h: Block, w: seq<bool>, ys: seq<Block>)
    requires Chain(mul, h, w, ys)
    ensures Ghash(mul, h, Falses(128), w) == ys[|ys| - 1]
  {
    GhashChain(mul, h, w, ys, 0);
    assert w[0..] == w;
  }

  /** Hashing strings one after the other is one hash of their padded blocks. */
  lemma TwoHashes(mul: (Block, Block) -> Block, h: Block, x: seq<bool>, last: seq<bool>, ys: seq<Block>)
    requires Chain(mul, h, Padded(x) + last, ys)
    ensures ys != [] && Ghash(mul, h, Ghash(mul, h, Falses(128), x), last) == ys[|ys| - 1]
  {
    hide Ghash, Padded, Falses;
    GhashPadded(mul, h, Falses(128), x);
    GhashAppend(mul, h, Falses(128), Padded(x), last);
    ChainStart(mul, h, Padded(x) + last, ys);
  }

  lemma ThreeHashes(
    mul: (Block, Block) -> Block, h: Block, x: seq<bool>, y: seq<bool>, last: seq<bool>, ys: seq<Block>)
    requires Chain(mul, h, Padded(x) + (Padded(y) + last), ys)
    ensures ys != [] && Ghash(mul, h, Ghash(mul, h, Ghash(mul, h, Falses(128), x), y), last) == ys[|ys| - 1]
  {
    hide Ghash, Padded, Chain, Falses;
    var s := Ghash(mul, h, Falses(128), x);
    TwoHashes(mul, h, x, Padded(y) + last, ys);
    GhashPadded(mul, h, s, y);
    GhashAppend(mul, h, s, Padded(y), last);
  }

  function IvLength(iv: seq<bool>): seq<bool> {
    Falses(64) + BitsOf(|iv|, 64)
  }

  function LengthBlock(adata: seq<bool>, y: seq<bool>): seq<bool> {
    BitsOf(|adata|, 64) + BitsOf(|y|, 64)
  }

  /** J0 of section 7.1: the IV and a one, or the hash of the IV and its length. */
  predicate Starts(c: Cipher, iv: seq<bool>, zs: seq<Block>, j0: Block) {
    if |iv| == 96 then j0 == iv + BitsOf(1, 32)
    else Chain(c.mul, c.prf(Falses(128)), Padded(iv) + IvLength(iv), zs) && j0 == zs[|zs| - 1]
  }

  lemma StartIs(c: Cipher, iv: seq<bool>, zs: seq<Block>, j0: Block)
    requires Starts(c, iv, zs, j0)
    ensures j0 == FirstCounter(c, iv)
  {
    hide Ghash, BitsOf, Padded, Chain;
    if |iv| != 96 { TwoHashes(c.mul, c.prf(Falses(128)), iv, IvLength(iv), zs); }
  }

  /** The last 32 bits count modulo 2^32, the others stay. */
  lemma CounterCounts(j: Block, k: nat)
    ensures Counter(j, k)[..96] == j[..96]
    ensures Value(Counter(j, k)[96..]) == (Value(j[96..]) + k) % 0x1_0000_0000
  {
    hide BitsOf, Value;
    ValueOfBits(Value(j[96..]) + k, 32);
    Pow32();
    assert Counter(j, k)[96..] == BitsOf(Value(j[96..]) + k, 32);
  }

  lemma {:induction false} KeyStreamAt(prf: Block -> Block, j: Block, n: nat, i: nat)
    requires i < 128 * n
    ensures KeyStream(prf, j, n)[i] == prf(Counter(j, i / 128 + 1))[i % 128]
  {
    hide Counter;
    if i < 128 * (n - 1) {
      KeyStreamAt(prf, j, n - 1, i);
    } else {
      assert i / 128 == n - 1 && i - 128 * (n - 1) == i % 128;
    }
  }

  /** Bit i of the ciphertext, under counter i / 128 + 1. */
  lemma CipherBit(c: Cipher, iv: seq<bool>, x: seq<bool>, zs: seq<Block>, j0: Block, i: nat)
    requires Starts(c, iv, zs, j0) && i < |x|
    ensures Gctr(c, iv, x)[i] == (x[i] != c.prf(Counter(j0, i / 128 + 1))[i % 128])
  {
    hide Starts, Counter, KeyStream, FirstCounter;
    StartIs(c, iv, zs, j0);
    KeyStreamAt(c.prf, j0, (|x| + 127) / 128, i);
  }

  /** Bit i of the tag: one hash over associated data, ciphertext and both lengths. */
  lemma TagBit(
    c: Cipher, iv: seq<bool>, adata: seq<bool>, y: seq<bool>, zs: seq<Block>, j0: Block, ys: seq<Block>, i: nat)
    requires Starts(c, iv, zs, j0) && i < 128
    requires Chain(c.mul, c.prf(Falses(128)), Padded(adata) + (Padded(y) + LengthBlock(adata, y)), ys)
    ensures TagOf(c, iv, adata, y)[i] == (ys[|ys| - 1][i] != c.prf(j0)[i])
  {
    hide Starts, FirstCounter, Ghash, BitsOf, Padded, Chain;
    StartIs(c, iv, zs, j0);
    ThreeHashes(c.mul, c.prf(Falses(128)), adata, y, LengthBlock(adata, y), ys);
  }

  /** Encryption spelled out: every ciphertext bit, then the tag bits of the ciphertext. */
  lemma SealSpelledOut(
    c: Cipher, iv: seq<bool>, adata: seq<bool>, tlen: nat, x: seq<bool>, zs: seq<Block>, j0: Block, ys: seq<Block>)
    requires tlen <= 128 && Starts(c, iv, zs, j0)
    ensures |Seal(c, iv, adata, tlen, x)| == |x| + tlen
    ensures var z := Seal(c, iv, adata, tlen, x);
            forall i :: 0 <= i < |x| ==> z[i] == (x[i] != c.prf(Counter(j0, i / 128 + 1))[i % 128])
    ensures var z := Seal(c, iv, adata, tlen, x);
            var y := z[..|x|];
            Chain(c.mul, c.prf(Falses(128)), Padded(adata) + (Padded(y) + LengthBlock(adata, y)), ys) ==>
              forall i :: 0 <= i < tlen ==> z[|x| + i] == (ys[|ys| - 1][i] != c.prf(j0)[i])
  {
    hide Starts, Counter, Padded, LengthBlock, Gctr, TagOf;
    var z, y := Seal(c, iv, adata, tlen, x), Gctr(c, iv, x);
    assert z[..|x|] == y;
    forall i | 0 <= i < |x| ensures z[i] == (x[i] != c.prf(Counter(j0, i / 128 + 1))[i % 128]) {
      CipherBit(c, iv, x, zs, j0, i);
    }
    if Chain(c.mul, c.prf(Falses(128)), Padded(adata) + (Padded(y) + LengthBlock(adata, y)), ys) {
      forall i | 0 <= i < tlen ensures z[|x| + i] == (ys[|ys| - 1][i] != c.prf(j0)[i]) {
        TagBit(c, iv, adata, y, zs, j0, ys, i);
      }
    }
  }
}
