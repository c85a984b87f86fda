/** Streaming SHA-256 over an arbitrary compression function: buffering, padding, and why the
    digest does not depend on how the message was cut into updates. */
module Sha256 {
  import opened BitArrays
  import opened Congruence
  import opened WordBits

  /** The largest length the hash accepts, 2^53 - 1 bits. */
  const MAX_LENGTH := 0x1f_ffff_ffff_ffff

  /** The compression function run over whole 512-bit blocks. */
  function Fold<H>(block: (H, seq<bool>) -> H, h: H, x: seq<bool>): H
    decreases |x|
  {
    if |x| < 512 then h else Fold(block, block(h, x[..512]), x[512..])
  }

  lemma {:induction false} FoldNext<H>(block: (H, seq<bool>) -> H, h: H, x: seq<bool>, last: seq<bool>)
    requires |x| % 512 == 0 && |last| == 512
    ensures Fold(block, h, x + last) == block(Fold(block, h, x), last)
    decreases |x|
  {
    if x == [] {
      assert x + last == last && last[..512] == last && last[512..] == [];
    } else {
      assert (x + last)[..512] == x[..512] && (x + last)[512..] == x[512..] + last;
      FoldNext(block, block(h, x[..512]), x[512..], last);
    }
  }

  lemma {:induction false} FoldAppend<H>(block: (H, seq<bool>) -> H, h: H, x: seq<bool>, y: seq<bool>)
    requires |x| % 512 == 0
    ensures Fold(block, h, x + y) == Fold(block, Fold(block, h, x), y)
    decreases |x|
  {
    if x == [] {
      assert x + y == y;
    } else {
      assert (x + y)[..512] == x[..512] && (x + y)[512..] == x[512..] + y;
      FoldAppend(block, block(h, x[..512]), x[512..], y);
    }
  }

  /** Where the buffered tail of an n-bit message begins. */
  function Cut(n: nat): nat {
    n - n % 512
  }

  /** The padded message of section 5.1.1 of FIPS 180-4. */
  function Pad(m: seq<bool>): seq<bool> {
    m + [true] + Falses((447 - |m|) % 512) + BitsOf(|m|, 64)
  }

  function Digest<H>(block: (H, seq<bool>) -> H, init: H, m: seq<bool>): H {
    Fold(block, init, Pad(m))
  }

  /** Whole blocks, and no fewer zeros would do. */
  lemma PadWhole(m: seq<bool>)
    ensures |Pad(m)| % 512 == 0 && |m| + 65 <= |Pad(m)| < |m| + 65 + 512
  {
    hide BitsOf, Falses;
    var q, k := (447 - |m|) / 512, (447 - |m|) % 512;
    assert |Pad(m)| == 512 * (1 - q);
  }

  /** A one, the fewest zeros that complete the block, and the length. */
  lemma PadExactly(m: seq<bool>, p: seq<bool>)
    ensures p == Pad(m)
            <==> && |p| % 512 == 0 && |m| + 65 <= |p| < |m| + 65 + 512
                 && p[..|m|] == m && p[|m|]
                 && (forall i :: |m| < i < |p| - 64 ==> !p[i])
                 && p[|p| - 64..] == BitsOf(|m|, 64)
  {
    hide BitsOf, Pad;
    PadWhole(m);
    PadParts(m);
    var q, l := Pad(m), BitsOf(|m|, 64);
    if |p| % 512 == 0 && |m| + 65 <= |p| < |m| + 65 + 512 {
      SameWhole(|p|, |q|, |m| + 65);
      SameParts(p, q, m, l);
    }
  }

  lemma PadParts(m: seq<bool>)
    ensures var q := Pad(m);
            && |q| >= |m| + 65 && q[..|m|] == m && q[|m|]
            && (forall i :: |m| < i < |q| - 64 ==> !q[i]) && q[|q| - 64..] == BitsOf(|m|, 64)
  {
    hide BitsOf;
    var z := (447 - |m|) % 512;
    assert Pad(m) == (m + [true] + Falses(z)) + BitsOf(|m|, 64);
  }

  lemma SameParts(p: seq<bool>, q: seq<bool>, m: seq<bool>, l: seq<bool>)
    requires |p| == |q| >= |m| + 65 && |l| == 64
    requires q[..|m|] == m && q[|m|] && (forall i :: |m| < i < |q| - 64 ==> !q[i]) && q[|q| - 64..] == l
    ensures p == q
            <==> p[..|m|] == m && p[|m|] && (forall i :: |m| < i < |p| - 64 ==> !p[i]) && p[|p| - 64..] == l
  {
    if p[..|m|] == m && p[|m|] && (forall i :: |m| < i < |p| - 64 ==> !p[i]) && p[|p| - 64..] == l {
      var k := |p| - 64;
      forall i | 0 <= i < |p| ensures p[i] == q[i] {
        if i < |m| { assert p[..|m|][i] == q[..|m|][i]; }
        if i >= k { assert p[k..][i - k] == q[k..][i - k]; }
      }
    }
  }

  lemma SameWhole(a: nat, b: nat, n: nat)
    requires a % 512 == 0 && b % 512 == 0 && n <= a < n + 512 && n <= b < n + 512
    ensures a == b
  {
  }

  /** The digest is the last of the chaining values over the padded message's blocks. */
  lemma DigestChain<H>(block: (H, seq<bool>) -> H, init: H, m: seq<bool>, p: seq<bool>, hs: seq<H>)
    requires p == Pad(m) && |p| == 512 * (|hs| - 1) && hs != [] && hs[0] == init
    requires forall i :: 0 <= i < |hs| - 1 ==> hs[i + 1] == block(hs[i], p[512 * i..512 * i + 512])
    ensures Digest(block, init, m) == hs[|hs| - 1]
  {
    FoldChain(block, p, hs, 0);
    assert p[0..] == p;
  }

  lemma {:induction false} FoldChain<H>(block: (H, seq<bool>) -> H, p: seq<bool>, hs: seq<H>, k: nat)
    requires k < |hs| && |p| == 512 * (|hs| - 1)
    requires forall i :: 0 <= i < |hs| - 1 ==> hs[i + 1] == block(hs[i], p[512 * i..512 * i + 512])
    ensures Fold(block, hs[k], p[512 * k..]) == hs[|hs| - 1]
    decreases |hs| - k
  {
    if k < |hs| - 1 {
      var rest := p[512 * k..];
      assert rest[..512] == p[512 * k..512 * k + 512] && rest[512..] == p[512 * (k + 1)..];
      FoldChain(block, p, hs, k + 1);
    }
  }

  /** h, buffer and length after the message m. */
  predicate Represents<H(==)>(
    block: (H, seq<bool>) -> H, init: H, m: seq<bool>, h: H, buffer: seq<int>, length: nat)
  {
    && length == |m| && Valid(buffer)
    && Contents(buffer) == m[Cut(|m|)..]
    && h == Fold(block, init, m[..Cut(|m|)])
  }

  class Hash<H(==)> {
    const init: H
    const block: (H, seq<bool>) -> H
    var h: H
    var buffer: seq<int>
    var length: nat

    ghost predicate After(m: seq<bool>)
      reads this
    {
      Represents(block, init, m, h, buffer, length)
    }

    constructor (init: H, block: (H, seq<bool>) -> H)
      ensures this.init == init && this.block == block && After([])
    {
      this.init, this.block := init, block;
      h, buffer, length := init, [], 0;
    }

    method Reset()
      modifies this
      ensures After([])
    {
      h, buffer, length := init, [], 0;
    }

    /** update; the length check comes after buffer and length have been changed. */
    method Update(data: seq<int>, ghost m: seq<bool>) returns (threw: bool)
      requires Valid(data) && After(m)
      modifies this
      ensures threw <==> |m| + |Contents(data)| > MAX_LENGTH
      ensures !threw ==> After(m + Contents(data))
      ensures threw ==> h == old(h) && length == old(length) + |Contents(data)|
      ensures threw ==> Valid(buffer) && Contents(buffer) == old(Contents(buffer)) + Contents(data)
    {
      hide Valid, All, Hashed, Contents, Represents, GetPartial, Cut;
      ghost var all := m + Contents(data);
      ghost var start := Cut(|m|);
      FirstBoundary(|m|);
      StartHashing(block, init, m, h, buffer, length, Contents(data));
      BitLengthBound(data);
      DataLength(data);
      var b := Concat(buffer, data);
      var ol := length;
      var nl: nat := ol + BitLength(data);
      buffer, length := b, nl;
      if nl > MAX_LENGTH { return true; }
      var i, j := 512 + ol - (512 + ol) % 512, 0;
      while i <= nl
        invariant i == start + 512 * (j + 1) && start + 512 * j <= nl
        invariant Hashed(block, init, all, start + 512 * j, h)
        invariant buffer == b && length == nl
        decreases nl + 512 - i
      {
        HashNext(block, init, all, start, j, h, b);
        h := block(h, All(b[16 * j..16 * (j + 1)]));
        i, j := i + 512, j + 1;
      }
      StopHashing(block, init, all, start, j, h, b);
      buffer := b[16 * j..];
      return false;
    }

    /** finalize: the digest; the object starts over. */
    method Finalize(ghost m: seq<bool>) returns (digest: H)
      requires After(m)
      modifies this
      ensures digest == Digest(block, init, m)
      ensures After([])
    {
      hide Valid, All, Fold, Pad, Contents;
      var b := PaddedBuffer(buffer, length, m);
      var h := this.h;
      FoldAppend(block, init, m[..Cut(|m|)], All(b));
      while |b| > 0
        invariant |b| % 16 == 0
        invariant Fold(block, h, All(b)) == Digest(block, init, m)
      {
        FirstBlock(b);
        FoldOne(block, h, All(b));
        h := block(h, All(b[..16]));
        b := b[16..];
      }
      NoWords(block, h);
      Reset();
      return h;
    }
  }

  /** The buffer with the 1 bit, zero words up to two short of a block, and the length. */
  method PaddedBuffer(buffer: seq<int>, length: nat, ghost m: seq<bool>) returns (b: seq<int>)
    requires length == |m| && Valid(buffer) && Contents(buffer) == m[Cut(|m|)..]
    ensures |b| % 16 == 0 && m[..Cut(|m|)] + All(b) == Pad(m)
  {
    hide Valid, All, Pad, Contents, Falses, Partial;
    OneBit();
    b := Concat(buffer, [Partial(1, 1, false)]);
    ghost var c := m[Cut(|m|)..] + [true];
    ghost var w0 := |b|;
    ZeroTail(b, c);
    var i := |b| + 2;
    while i % 16 != 0
      invariant i == |b| + 2 && w0 + 2 <= i <= (w0 + 17) / 16 * 16
      invariant |c| <= 32 * |b| && All(b) == c + Falses(32 * |b| - |c|)
      decreases w0 + 18 - i
    {
      ZeroMore(b, c);
      b := b + [0];
      i := i + 1;
    }
    PaddedTail(m, w0, b);
    b := b + [length / 0x1_0000_0000];
    b := b + [ToInt32(length)];
  }

  /** The first block boundary after n bits is where the loop of update starts. */
  lemma FirstBoundary(n: nat)
    ensures Cut(n) <= n < Cut(n) + 512 && Cut(n) % 512 == 0
    ensures 512 + n - (512 + n) % 512 == Cut(n) + 512
  {
    DivModUnique(512 + n, 512, n / 512 + 1, n % 512);
    DivModUnique(Cut(n), 512, n / 512, 0);
  }

  lemma DataLength(data: seq<int>)
    requires Valid(data)
    ensures |Contents(data)| == BitLength(data)
  {
    UnusedFalse(data);
  }

  /** h is the chaining value after the first n bits. */
  predicate Hashed<H(==)>(block: (H, seq<bool>) -> H, init: H, all: seq<bool>, n: nat, h: H) {
    n <= |all| && h == Fold(block, init, all[..n])
  }

  lemma StartHashing<H>(
    block: (H, seq<bool>) -> H, init: H, m: seq<bool>, h: H, buffer: seq<int>, length: nat, d: seq<bool>)
    requires Represents(block, init, m, h, buffer, length)
    ensures Valid(buffer) && length == |m|
    ensures Hashed(block, init, m + d, Cut(|m|), h) && Contents(buffer) + d == (m + d)[Cut(|m|)..]
  {
    hide Valid, Contents, Fold;
    assert (m + d)[..Cut(|m|)] == m[..Cut(|m|)];
  }

  lemma HashNext<H>(
    block: (H, seq<bool>) -> H, init: H, all: seq<bool>, start: nat, j: nat, h: H, b: seq<int>)
    requires Hashed(block, init, all, start + 512 * j, h) && start % 512 == 0
    requires start + 512 * (j + 1) <= |all| && Valid(b) && Contents(b) == all[start..]
    ensures 16 * (j + 1) <= |b|
    ensures Hashed(block, init, all, start + 512 * (j + 1), block(h, All(b[16 * j..16 * (j + 1)])))
  {
    hide Valid, All, Contents, Fold;
    BlockAt(b, all, start, j);
    var n := start + 512 * j;
    var last := all[n..n + 512];
    FoldNext(block, init, all[..n], last);
    assert all[..n + 512] == all[..n] + last;
  }

  lemma StopHashing<H>(
    block: (H, seq<bool>) -> H, init: H, all: seq<bool>, start: nat, j: nat, h: H, b: seq<int>)
    requires Hashed(block, init, all, start + 512 * j, h) && start % 512 == 0
    requires |all| < start + 512 * (j + 1) && Valid(b) && Contents(b) == all[start..]
    ensures 16 * j <= |b| && Represents(block, init, all, h, b[16 * j..], |all|)
  {
    hide Valid, All, Contents, Fold;
    WholeWords(b, 16 * j);
    DropWords(b, 16 * j);
    LastBoundary(|all|, start, j);
    DropTwice(all, start, 512 * j);
  }

  /** The words of block j hold the message bits of that block. */
  lemma BlockAt(b: seq<int>, all: seq<bool>, start: nat, j: nat)
    requires Valid(b) && start + 512 * (j + 1) <= |all| && Contents(b) == all[start..]
    ensures 16 * (j + 1) <= |b|
    ensures All(b[16 * j..16 * (j + 1)]) == all[start + 512 * j..start + 512 * (j + 1)]
  {
    hide All, Valid, GetPartial;
    BitLengthBound(b);
    UnusedFalse(b);
    var k, l := 16 * j, 16 * (j + 1);
    WordsAt(b, k, l);
    PrefixSlice(All(b), BitLength(b), 32 * k, 32 * l);
    SuffixSlice(all, start, 32 * k, 32 * l);
  }

  lemma LastBoundary(n: nat, start: nat, j: nat)
    requires start % 512 == 0 && start + 512 * j <= n < start + 512 * (j + 1)
    ensures Cut(n) == start + 512 * j
  {
    var q := start / 512;
    DivModUnique(n, 512, q + j, n - start - 512 * j);
  }

  lemma DropTwice(x: seq<bool>, i: nat, j: nat)
    requires i + j <= |x|
    ensures x[i..][j..] == x[i + j..]
  {
  }

  lemma SuffixSlice(x: seq<bool>, o: nat, i: nat, j: nat)
    requires i <= j && o + j <= |x|
    ensures x[o..][i..j] == x[o + i..o + j]
  {
    var s, t := x[o..][i..j], x[o + i..o + j];
    assert forall k :: 0 <= k < j - i ==> s[k] == t[k];
  }

  lemma WholeWords(b: seq<int>, k: nat)
    requires Valid(b) && 32 * k <= |Contents(b)|
    ensures k <= |b|
  {
    hide All;
    BitLengthBound(b);
  }

  /** The appended 1 bit. */
  lemma OneBit()
    ensures Valid([Partial(1, 1, false)]) && Contents([Partial(1, 1, false)]) == [true]
  {
    hide Bits, Shl, Word;
    var w := Shl(1, 31);
    ShlBits(1, 31);
    BitsOfOne();
    ShlRange(1, 31);
    TagInvisible(w, 1);
    assert Low5(32 - 1) == 31;
    assert Bits(w + TAG) == [true] + Falses(31);
    OneWord(w + TAG, 1);
  }

  lemma BitsOfOne()
    ensures Bits(1)[31..] == [true]
  {
  }

  lemma ShlRange(x: int, k: nat)
    requires k < 32
    ensures Full(Shl(x, k))
  {
  }

  lemma ZeroTail(b: seq<int>, c: seq<bool>)
    requires Valid(b) && Contents(b) == c
    ensures |c| <= 32 * |b| && All(b) == c + Falses(32 * |b| - |c|)
    ensures c != [] ==> 32 * |b| < |c| + 32
  {
    hide Valid, All, GetPartial;
    UnusedFalse(b);
    BitLengthBound(b);
    SplitFalses(All(b), |c|);
  }

  lemma SplitFalses(x: seq<bool>, n: nat)
    requires n <= |x| && AllFalse(x[n..])
    ensures x == x[..n] + Falses(|x| - n)
  {
    FalsesUnique(x[n..]);
  }

  lemma ZeroMore(b: seq<int>, c: seq<bool>)
    requires |c| <= 32 * |b| && All(b) == c + Falses(32 * |b| - |c|)
    ensures All(b + [0]) == c + Falses(32 * (|b| + 1) - |c|)
  {
    hide All, Bits;
    ZeroBits();
    AllLast(b, 0);
    var n := 32 * |b| - |c|;
    FalsesAdd(n, 32);
    Associate(c, Falses(n), Falses(32));
  }

  /** The buffered tail, the 1 bit, the zeros and the two length words complete the padding. */
  lemma PaddedTail(m: seq<bool>, w0: nat, zeros: seq<int>)
    requires var c := m[Cut(|m|)..] + [true];
             && |c| <= 32 * w0 < |c| + 32 && w0 <= |zeros| && |c| <= 32 * |zeros|
             && |zeros| + 2 <= (w0 + 17) / 16 * 16 && (|zeros| + 2) % 16 == 0
             && All(zeros) == c + Falses(32 * |zeros| - |c|)
    ensures var b := zeros + [|m| / 0x1_0000_0000] + [ToInt32(|m|)];
            |b| % 16 == 0 && m[..Cut(|m|)] + All(b) == Pad(m)
  {
    hide All, Bits, BitsOf, Word, Falses;
    var high, low, head, tail := |m| / 0x1_0000_0000, ToInt32(|m|), m[..Cut(|m|)], m[Cut(|m|)..];
    AllLast(zeros, high);
    AllLast(zeros + [high], low);
    BitsOfWord(Bits(|m|));
    LengthBits(|m|, high);
    var k := 32 * |zeros| - |tail| - 1;
    ZeroCount(|m|, w0, |zeros|);
    assert m == head + tail;
    Rebuild(head, tail, Falses(k), Bits(high), Bits(low));
  }

  lemma ZeroCount(n: nat, w0: nat, w: nat)
    requires n % 512 + 1 <= 32 * w0 < n % 512 + 33
    requires w0 <= w && w + 2 <= (w0 + 17) / 16 * 16 && (w + 2) % 16 == 0
    ensures 32 * w - n % 512 - 1 == (447 - n) % 512
  {
    var t, q, v := n % 512, n / 512, (w + 2) / 16;
    assert w == 16 * v - 2 && n == 512 * q + t;
    DivModUnique(447 - n, 512, 1 - v - q, 32 * w - t - 1);
  }

  lemma Rebuild(head: seq<bool>, tail: seq<bool>, z: seq<bool>, hi: seq<bool>, lo: seq<bool>)
    ensures head + (((tail + [true]) + z) + hi + lo) == (head + tail) + [true] + z + (hi + lo)
  {
  }

  lemma FirstBlock(b: seq<int>)
    requires |b| >= 16
    ensures All(b)[..512] == All(b[..16]) && All(b)[512..] == All(b[16..])
  {
    hide All;
    AllAppend(b[..16], b[16..]);
    assert b == b[..16] + b[16..];
  }

  lemma FoldOne<H>(block: (H, seq<bool>) -> H, h: H, x: seq<bool>)
    requires |x| >= 512
    ensures Fold(block, h, x) == Fold(block, block(h, x[..512]), x[512..])
  {
  }

  lemma NoWords<H>(block: (H, seq<bool>) -> H, h: H)
    ensures Fold(block, h, All([])) == h
  {
  }

  function Concatenated(chunks: seq<seq<int>>): seq<bool>
    requires forall i :: 0 <= i < |chunks| ==> Valid(chunks[i])
  {
    if chunks == [] then []
    else Concatenated(chunks[..|chunks| - 1]) + Contents(chunks[|chunks| - 1])
  }

  /** Any sequence of updates, then finalize: the digest of the concatenation. */
  method HashChunks<H(==)>(init: H, block: (H, seq<bool>) -> H, chunks: seq<seq<int>>) returns (digest: H)
    requires forall i :: 0 <= i < |chunks| ==> Valid(chunks[i])
    requires |Concatenated(chunks)| <= MAX_LENGTH
    ensures digest == Digest(block, init, Concatenated(chunks))
  {
    hide Valid, Contents, Fold, Pad, Represents;
    var hash := new Hash(init, block);
    ghost var m: seq<bool> := [];
    for i := 0 to |chunks|
      invariant hash.init == init && hash.block == block
      invariant m == Concatenated(chunks[..i]) && hash.After(m)
    {
      PrefixShorter(chunks, i);
      var threw := hash.Update(chunks[i], m);
      m := m + Contents(chunks[i]);
    }
    assert chunks[..|chunks|] == chunks;
    digest := hash.Finalize(m);
  }

  lemma {:induction false} PrefixShorter(chunks: seq<seq<int>>, i: nat)
    requires (forall j :: 0 <= j < |chunks| ==> Valid(chunks[j])) && i < |chunks|
    ensures Concatenated(chunks[..i + 1]) == Concatenated(chunks[..i]) + Contents(chunks[i])
    ensures |Concatenated(chunks[..i + 1])| <= |Concatenated(chunks)|
    decreases |chunks|
  {
    hide Valid, Contents;
    assert chunks[..i + 1][..i] == chunks[..i];
    if i + 1 == |chunks| {
      assert chunks[..i + 1] == chunks;
    } else {
      var init := chunks[..|chunks| - 1];
      PrefixShorter(init, i);
      assert init[..i + 1] == chunks[..i + 1];
    }
  }
}
