/** Arrays of bits packed 32 to a number, the last of which may carry its bit count out of
    band, and the operations on them as operations on bit strings. */
module BitArrays {
  import opened Congruence
  import opened WordBits

  /** The weight of the out-of-band bit count. */
  const TAG := 0x100_0000_0000

  /** x & 31. */
  function Low5(x: int): nat {
    x % 32
  }

  /** partial(len, x, end). */
  function Partial(len: nat, x: int, end: bool): int
    requires len <= 32
  {
    if len == 32 then x
    else (if end then ToInt32(x) else Shl(x, Low5(32 - len))) + len * TAG
  }

  /** Math.round(x / 2^40) || 32. */
  function GetPartial(x: int): int {
    var tag := (x + TAG / 2) / TAG;
    if tag == 0 then 32 else tag
  }

  function BitLength(a: seq<int>): int {
    if |a| == 0 then 0 else (|a| - 1) * 32 + GetPartial(a[|a| - 1])
  }

  // ---------------------------------------------------------------- the bits of an array

  predicate Full(w: int) {
    -0x8000_0000 <= w <= 0xffff_ffff
  }

  /** A word of n bits, tagged unless n is 32. */
  predicate Sized(w: int, n: int) {
    if n == 32 then Full(w) else 1 <= n < 32 && Full(w - n * TAG)
  }

  predicate AllFull(a: seq<int>) {
    forall i :: 0 <= i < |a| ==> Full(a[i])
  }

  /** All bits of all words, the unused ones included. */
  function All(a: seq<int>): (s: seq<bool>)
    ensures |s| == 32 * |a|
  {
    if a == [] then [] else All(a[..|a| - 1]) + Bits(a[|a| - 1])
  }

  /** Full words, then one that may be partial, with zeros in its unused places. */
  predicate Valid(a: seq<int>) {
    a == []
    || var n := |a| - 1;
       && AllFull(a[..n])
       && Sized(a[n], GetPartial(a[n]))
       && AllFalse(Bits(a[n])[GetPartial(a[n])..])
  }

  lemma SizedPartial(w: int, n: int)
    requires Sized(w, n)
    ensures GetPartial(w) == n
  {
  }

  lemma BitLengthBound(a: seq<int>)
    requires Valid(a)
    ensures 0 <= BitLength(a) <= 32 * |a| && (a != [] ==> 32 * |a| - 32 < BitLength(a))
  {
  }

  /** The bit string the array stands for. */
  function Contents(a: seq<int>): seq<bool>
    requires Valid(a)
  {
    BitLengthBound(a);
    All(a)[..BitLength(a)]
  }

  lemma AllLast(a: seq<int>, w: int)
    ensures All(a + [w]) == All(a) + Bits(w)
  {
    hide Bits;
    assert (a + [w])[..|a|] == a;
  }

  lemma {:induction false} AllAppend(a: seq<int>, b: seq<int>)
    ensures All(a + b) == All(a) + All(b)
  {
    hide Bits;
    if b == [] {
      assert a + b == a;
    } else {
      var init, w := b[..|b| - 1], b[|b| - 1];
      assert All(b) == All(init) + Bits(w);
      hide All;
      AllAppend(a, init);
      AllLast(a + init, w);
      assert a + b == a + init + [w];
      Associate(All(a), All(init), Bits(w));
    }
  }

  lemma Associate(a: seq<bool>, b: seq<bool>, c: seq<bool>)
    ensures (a + b) + c == a + (b + c)
  {
  }

  lemma AllOne(w: int)
    ensures All([w]) == Bits(w)
  {
    hide Bits;
    assert [w][..0] == [];
  }

  lemma MultipleAway(x: int, k: int)
    ensures (x + 0x1_0000_0000 * k) % 0x1_0000_0000 == x % 0x1_0000_0000
  {
    var q, r := x / 0x1_0000_0000, x % 0x1_0000_0000;
    DivModUnique(x + 0x1_0000_0000 * k, 0x1_0000_0000, q + k, r);
  }

  lemma TagInvisible(x: int, n: int)
    ensures Bits(x + n * TAG) == Bits(x)
  {
    hide Bits;
    MultipleAway(x, 256 * n);
    SameWord(x + n * TAG, x);
  }

  lemma {:induction false} FullContents(a: seq<int>)
    requires AllFull(a)
    ensures Valid(a) && Contents(a) == All(a)
  {
    if a != [] { SizedPartial(a[|a| - 1], 32); }
  }

  lemma UnusedFalse(a: seq<int>)
    requires Valid(a)
    ensures AllFalse(All(a)[|Contents(a)|..]) && |Contents(a)| == BitLength(a) <= 32 * |a|
  {
    hide Bits;
    BitLengthBound(a);
    if a != [] {
      var n := |a| - 1;
      assert All(a)[BitLength(a)..] == Bits(a[n])[GetPartial(a[n])..];
    }
  }

  /** Appending a word of n bits to full words. */
  lemma TailWord(out: seq<int>, w: int, n: nat)
    requires AllFull(out) && 1 <= n <= 32 && AllFalse(Bits(w)[n..])
    ensures var r := out + [Partial(Low5(n), w, true)];
            Valid(r) && Contents(r) == All(out) + Bits(w)[..n]
  {
    hide Bits, Word;
    var x := Partial(Low5(n), w, true);
    BitsOfWord(Bits(w));
    TagInvisible(ToInt32(w), Low5(n));
    OneWord(x, n);
    Joined(out, [x]);
  }

  lemma OneWord(x: int, n: nat)
    requires Sized(x, n) && AllFalse(Bits(x)[n..])
    ensures Valid([x]) && Contents([x]) == Bits(x)[..n]
  {
    hide Bits;
    SizedPartial(x, n);
    AllOne(x);
  }

  /** An array is determined, up to how its words are written, by its bits. */
  lemma SameBits(a: seq<int>, b: seq<int>)
    requires Valid(a) && Valid(b) && Contents(a) == Contents(b)
    ensures |a| == |b| && All(a) == All(b)
  {
    UnusedFalse(a);
    UnusedFalse(b);
    BitLengthBound(a);
    BitLengthBound(b);
    FalsesUnique(All(a)[BitLength(a)..]);
    FalsesUnique(All(b)[BitLength(b)..]);
    assert All(a) == Contents(a) + All(a)[BitLength(a)..];
    assert All(b) == Contents(b) + All(b)[BitLength(b)..];
  }

  // ---------------------------------------------------------------- shifting

  /** The first s bits that a carry shifts in. */
  function CarryBits(carry: int, s: nat): (c: seq<bool>)
    ensures |c| == s
  {
    (Bits(carry) + Falses(s))[..s]
  }

  /** What the shifting loop has written after i words. */
  predicate Shifted(done: seq<bool>, a: seq<int>, s: nat, i: nat, out: seq<int>, carry: int) {
    && 0 < s < 32 && i <= |a|
    && AllFull(out) && AllFalse(Bits(carry)[s..])
    && All(out) + Bits(carry)[..s] == done + All(a[..i])
  }

  lemma ShiftStep(done: seq<bool>, a: seq<int>, s: nat, i: nat, out: seq<int>, carry: int)
    requires Shifted(done, a, s, i, out, carry) && i < |a|
    ensures Shifted(done, a, s, i + 1, out + [Or(carry, Ushr(a[i], s))], Shl(a[i], 32 - s))
  {
    hide Bits, Word, Or, Ushr, Shl;
    var w, c := Or(carry, Ushr(a[i], s)), Shl(a[i], 32 - s);
    UshrBits(a[i], s);
    ShlBits(a[i], 32 - s);
    assert Bits(Ushr(a[i], s))[..s] == Falses(s);
    OrJoins(carry, Ushr(a[i], s), s);
    OrRange(carry, Ushr(a[i], s));
    AllOne(w);
    AllAppend(out, [w]);
    AllOne(a[i]);
    AllAppend(a[..i], [a[i]]);
    assert a[..i + 1] == a[..i] + [a[i]];
    var b := Bits(a[i]);
    assert Bits(c)[..s] == b[32 - s..] && AllFalse(Bits(c)[s..]);
    assert b == b[..32 - s] + b[32 - s..];
    Regroup(All(out), Bits(carry)[..s], b[..32 - s], b[32 - s..], done, All(a[..i]));
  }

  lemma Regroup(o: seq<bool>, c: seq<bool>, b1: seq<bool>, b2: seq<bool>, done: seq<bool>, e: seq<bool>)
    requires o + c == done + e
    ensures (o + (c + b1)) + b2 == done + (e + (b1 + b2))
  {
    assert (o + (c + b1)) + b2 == (o + c) + (b1 + b2);
    assert (done + e) + (b1 + b2) == done + (e + (b1 + b2));
  }

  lemma OrRange(x: int, y: int)
    ensures Full(Or(x, y))
  {
  }

  /** The last word of the shifted array: where its bits end. */
  lemma ShiftEnd(done: seq<bool>, a: seq<int>, s: nat, out: seq<int>, carry: int, n0: nat)
    requires Valid(a) && Shifted(done, a, s, |a|, out, carry)
    requires |out| == n0 + |a| && |done| == 32 * n0 + s
    ensures var k := if a == [] then 32 else GetPartial(a[|a| - 1]);
            && 1 <= k <= 32
            && (s + k > 32 ==>
                  var r := out + [Partial(Low5(s + k), carry, true)];
                  Valid(r) && Contents(r) == done + Contents(a))
            && (s + k <= 32 ==>
                  && |out| > 0
                  && var r := out[..|out| - 1] + [Partial(Low5(s + k), out[|out| - 1], true)];
                  Valid(r) && Contents(r) == done + Contents(a))
  {
    hide Bits, Partial, All, Valid;
    assert a[..|a|] == a;
    var k := if a == [] then 32 else GetPartial(a[|a| - 1]);
    BitLengthBound(a);
    UnusedFalse(a);
    PrefixOfSum(done, All(a), BitLength(a));
    if s + k > 32 {
      JoinCut(All(out), Bits(carry), s, s + k - 32);
      TailWord(out, carry, s + k - 32);
    } else {
      var q := |out| - 1;
      assert out == out[..q] + [out[q]];
      AllLast(out[..q], out[q]);
      InnerCut(All(out[..q]), Bits(out[q]), Bits(carry)[..s], s + k);
      TailWord(out[..q], out[q], s + k);
    }
  }

  lemma PrefixOfSum(done: seq<bool>, x: seq<bool>, m: nat)
    requires m <= |x|
    ensures (done + x)[..|done| + m] == done + x[..m]
    ensures (done + x)[|done| + m..] == x[m..]
  {
  }

  lemma JoinCut(o: seq<bool>, b: seq<bool>, s: nat, n: nat)
    requires n <= s <= |b| && AllFalse((o + b[..s])[|o| + n..]) && AllFalse(b[s..])
    ensures AllFalse(b[n..]) && (o + b[..s])[..|o| + n] == o + b[..n]
  {
    forall i | n <= i < |b| ensures !b[i] {
      if i < s { assert (o + b[..s])[|o| + n..][i - n] == b[i]; } else { assert b[s..][i - s] == b[i]; }
    }
  }

  lemma InnerCut(o: seq<bool>, b: seq<bool>, c: seq<bool>, n: nat)
    requires n <= |b| && AllFalse((o + b + c)[|o| + n..])
    ensures AllFalse(b[n..]) && (o + b + c)[..|o| + n] == o + b[..n]
  {
    forall i | n <= i < |b| ensures !b[i] {
      assert (o + b + c)[|o| + n..][i - n] == b[i];
    }
  }

  /** _shiftRight: after the words of out come s bits of the carry and then the array. */
  method ShiftRight(a: seq<int>, shift: nat, carry: int, out: seq<int>) returns (r: seq<int>)
    requires Valid(a) && AllFull(out) && Full(carry)
    requires shift < 32 ==> AllFalse(Bits(carry)[shift..])
    ensures Valid(r) && Contents(r) == All(out) + CarryBits(carry, shift) + Contents(a)
  {
    hide Bits, Shifted, Or, Ushr, Shl, Partial, Word, CarryBits, All, Valid, GetPartial;
    var s: nat, c := shift, carry;
    r := out;
    while s >= 32
      invariant 0 <= s && AllFull(r) && Full(c) && (s < 32 ==> AllFalse(Bits(c)[s..]))
      invariant All(r) + CarryBits(c, s) == All(out) + CarryBits(carry, shift)
    {
      CarryStep(r, c, s);
      ZeroBits();
      r := r + [c];
      c := 0;
      s := s - 32;
    }
    if s == 0 {
      Joined(r, a);
      return r + a;
    }
    ghost var done := All(r) + CarryBits(c, s);
    ghost var n0 := |r|;
    ShiftStart(r, a, c, s);
    for i := 0 to |a|
      invariant |r| == n0 + i && Shifted(done, a, s, i, r, c)
    {
      ShiftStep(done, a, s, i, r, c);
      r := r + [Or(c, Ushr(a[i], s))];
      c := Shl(a[i], 32 - s);
    }
    ShiftEnd(done, a, s, r, c, n0);
    ZeroIsFull();
    var last2 := if |a| > 0 then a[|a| - 1] else 0;
    var shift2 := GetPartial(last2);
    if s + shift2 > 32 {
      r := r + [Partial(Low5(s + shift2), c, true)];
    } else {
      r := r[..|r| - 1] + [Partial(Low5(s + shift2), r[|r| - 1], true)];
    }
  }

  lemma ZeroIsFull()
    ensures GetPartial(0) == 32
  {
  }

  lemma ZeroBits()
    ensures Bits(0) == Falses(32)
  {
    BitsOfZero(32);
  }

  lemma CarryStep(out: seq<int>, carry: int, s: nat)
    requires s >= 32
    ensures All(out + [carry]) + CarryBits(0, s - 32) == All(out) + CarryBits(carry, s)
  {
    hide Bits;
    ZeroBits();
    AllOne(carry);
    AllAppend(out, [carry]);
    assert CarryBits(carry, s) == Bits(carry) + Falses(s - 32);
    assert CarryBits(0, s - 32) == Falses(s - 32);
  }

  lemma ShiftStart(out: seq<int>, a: seq<int>, carry: int, s: nat)
    requires 0 < s < 32 && AllFull(out) && AllFalse(Bits(carry)[s..])
    ensures Shifted(All(out) + CarryBits(carry, s), a, s, 0, out, carry)
  {
    hide Bits;
    assert CarryBits(carry, s) == Bits(carry)[..s];
    assert a[..0] == [];
  }

  /** Full words in front of an array. */
  lemma Joined(out: seq<int>, a: seq<int>)
    requires AllFull(out) && Valid(a)
    ensures Valid(out + a) && Contents(out + a) == All(out) + Contents(a)
  {
    if a == [] {
      hide Bits;
      assert out + a == out;
      FullContents(out);
      assert Contents(a) == [];
    } else {
      JoinedValid(out, a);
      hide Bits, Valid, All, GetPartial;
      BitLengthBound(a);
      AllAppend(out, a);
      PrefixOfSum(All(out), All(a), BitLength(a));
    }
  }

  lemma JoinedValid(out: seq<int>, a: seq<int>)
    requires AllFull(out) && Valid(a) && a != []
    ensures Valid(out + a) && BitLength(out + a) == 32 * |out| + BitLength(a)
  {
    hide Bits, GetPartial;
    var n, s := |a| - 1, out + a;
    assert s[|s| - 1] == a[n];
    assert s[..|s| - 1] == out + a[..n];
  }

  // ---------------------------------------------------------------- concatenation and slices

  /** concat. */
  method Concat(a1: seq<int>, a2: seq<int>) returns (r: seq<int>)
    requires Valid(a1) && Valid(a2)
    ensures Valid(r) && Contents(r) == Contents(a1) + Contents(a2)
  {
    hide Bits, Word;
    if |a1| == 0 || |a2| == 0 {
      assert a1 == [] ==> a1 + a2 == a2;
      assert a2 == [] ==> a1 + a2 == a1;
      return a1 + a2;
    }
    var n := |a1| - 1;
    var last, shift := a1[n], GetPartial(a1[n]);
    AllOne(last);
    AllAppend(a1[..n], [last]);
    assert a1 == a1[..n] + [last];
    if shift == 32 {
      FullContents(a1);
      Joined(a1, a2);
      return a1 + a2;
    }
    BitsOfWord(Bits(last));
    r := ShiftRight(a2, shift, ToInt32(last), a1[..n]);
    assert CarryBits(ToInt32(last), shift) == Bits(last)[..shift];
    assert Contents(a1) == All(a1[..n]) + Bits(last)[..shift];
  }

  /** Contents of the words from k on. */
  lemma DropWords(a: seq<int>, k: nat)
    requires Valid(a) && k <= |a|
    ensures Valid(a[k..]) && (32 * k <= |Contents(a)| || k == |a|)
    ensures Contents(a[k..]) == (if 32 * k <= |Contents(a)| then Contents(a)[32 * k..] else [])
  {
    hide Bits;
    BitLengthBound(a);
    AllAppend(a[..k], a[k..]);
    assert a == a[..k] + a[k..];
    if k < |a| {
      var n := |a| - 1;
      assert a[k..][..n - k] == a[..n][k..];
      assert a[k..][n - k] == a[n];
    }
  }

  /** bitSlice without an end. */
  method BitSliceFrom(a: seq<int>, bstart: nat) returns (r: seq<int>)
    requires Valid(a) && bstart <= BitLength(a)
    ensures Valid(r) && Contents(r) == Contents(a)[bstart..]
  {
    hide Bits, Valid, All, CarryBits, GetPartial;
    BitLengthBound(a);
    var k := bstart / 32;
    DropWords(a, k);
    ZeroBits();
    var shifted := ShiftRight(a[k..], 32 - Low5(bstart), 0, []);
    SliceParts(Contents(a), bstart, k);
    BitLengthBound(shifted);
    DropWords(shifted, 1);
    r := shifted[1..];
  }

  /** Shifting by what is missing to a word and dropping a word removes the first bits. */
  lemma SliceParts(x: seq<bool>, bstart: nat, k: nat)
    requires bstart <= |x| && k == bstart / 32
    ensures var shifted := All([]) + CarryBits(0, 32 - Low5(bstart)) + x[32 * k..];
            |shifted| >= 32 && shifted[32..] == x[bstart..]
  {
    hide Bits;
    var s := 32 - Low5(bstart);
    assert |All([]) + CarryBits(0, s)| == s;
  }

  /** clamp: the first len bits; past the end of the array it pads with zeros or does nothing. */
  method Clamp(a: seq<int>, len: nat) returns (r: seq<int>)
    requires Valid(a)
    ensures Valid(r)
    ensures len <= BitLength(a) ==> Contents(r) == Contents(a)[..len]
    ensures BitLength(a) < len <= 32 * |a| && len % 32 != 0 ==>
              Contents(r) == Contents(a) + Falses(len - BitLength(a))
    ensures BitLength(a) < len && (len % 32 == 0 || 32 * |a| < len) ==> r == a
  {
    hide Bits, Partial, And;
    BitLengthBound(a);
    if |a| * 32 < len { return a; }
    var l := (len + 31) / 32;
    r := a[..l];
    var low := Low5(len);
    if l > 0 && low != 0 {
      ClampWord(a, len, l);
      r := r[..l - 1] + [Partial(low, And(r[l - 1], Shr31(low - 1)), true)];
    } else {
      ClampWords(a, l);
    }
  }

  /** 0x80000000 >> k on the signed word: k + 1 leading ones. */
  function Shr31(k: nat): int
    requires k < 32
  {
    PowPositive(2, k);
    -0x8000_0000 / Pow(2, k)
  }

  lemma HighMask(n: nat)
    requires 1 <= n < 32
    ensures AllTrue(Bits(Shr31(n - 1))[..n]) && AllFalse(Bits(Shr31(n - 1))[n..])
  {
    hide Pow, BitsOf;
    var p := Pow(2, 32 - n);
    Pow32();
    PowPositive(2, n - 1);
    PowPositive(2, 32 - n);
    PowAdd(2, n - 1, 32 - n);
    NegatedProduct(Pow(2, n - 1), p);
    DivModUnique(-0x8000_0000, Pow(2, n - 1), -p, 0);
    BitsSplit(-p, n, 32 - n);
    DivModUnique(-p, p, -1, 0);
    BitsMod(-p, 0, 32 - n);
    BitsOfZero(32 - n);
    MinusOne(n);
  }

  lemma NegatedProduct(q: int, p: int)
    ensures -(q * p) == -p * q
  {
  }

  lemma {:induction false} MinusOne(n: nat)
    ensures AllTrue(BitsOf(-1, n))
  {
    if n > 0 { MinusOne(n - 1); }
  }

  lemma ClampWord(a: seq<int>, len: nat, l: nat)
    requires Valid(a) && 0 < l <= |a| && l == (len + 31) / 32 && len % 32 != 0
    ensures var r := a[..l][..l - 1] + [Partial(Low5(len), And(a[..l][l - 1], Shr31(Low5(len) - 1)), true)];
            && Valid(r) && Contents(r) == All(a)[..len]
            && (BitLength(a) < len ==> All(a)[..len] == Contents(a) + Falses(len - BitLength(a)))
  {
    hide Bits, Partial, And, Shr31, All, Contents, GetPartial;
    var low, init, w := Low5(len), a[..l - 1], a[l - 1];
    assert a[..l][..l - 1] == init && a[..l][l - 1] == w;
    assert a == init + [w] + a[l..];
    WordSplit(init, w, a[l..], low);
    InitFull(a, l - 1);
    hide Valid;
    HighMask(low);
    AndHigh(w, Shr31(low - 1), low);
    TailWord(init, And(w, Shr31(low - 1)), low);
    assert Bits(And(w, Shr31(low - 1)))[..low] == Bits(w)[..low];
    if BitLength(a) < len { Padded(a, len); }
  }

  lemma InitFull(a: seq<int>, k: nat)
    requires Valid(a) && k < |a|
    ensures AllFull(a[..k])
  {
    hide Bits;
    forall i | 0 <= i < k ensures Full(a[..k][i]) {
      assert a[..k][i] == a[..|a| - 1][i];
    }
  }

  lemma Padded(a: seq<int>, len: nat)
    requires Valid(a) && BitLength(a) < len <= 32 * |a|
    ensures All(a)[..len] == Contents(a) + Falses(len - BitLength(a))
  {
    hide All, Valid;
    BitLengthBound(a);
    UnusedFalse(a);
    PrefixPads(All(a), BitLength(a), len);
  }

  lemma PrefixPads(x: seq<bool>, m: nat, n: nat)
    requires m <= n <= |x| && AllFalse(x[m..])
    ensures x[..n] == x[..m] + Falses(n - m)
  {
    forall i | m <= i < n ensures !x[i] { assert x[m..][i - m] == x[i]; }
  }

  lemma WordSplit(init: seq<int>, w: int, rest: seq<int>, n: nat)
    requires n <= 32
    ensures All(init + [w] + rest)[..32 * |init| + n] == All(init) + Bits(w)[..n]
  {
    hide Bits;
    AllAppend(init + [w], rest);
    AllOne(w);
    AllAppend(init, [w]);
  }

  lemma ClampWords(a: seq<int>, l: nat)
    requires Valid(a) && l <= |a|
    ensures Valid(a[..l])
    ensures 32 * l <= BitLength(a) ==> Contents(a[..l]) == Contents(a)[..32 * l]
    ensures BitLength(a) < 32 * l ==> a[..l] == a
  {
    hide Bits;
    BitLengthBound(a);
    if l < |a| {
      InitFull(a, l);
    } else {
      assert a[..l] == a;
    }
    if 32 * l <= BitLength(a) {
      forall i | 0 <= i < l ensures Full(a[..l][i]) {
        if i < |a| - 1 { assert a[..l][i] == a[..|a| - 1][i]; } else { assert GetPartial(a[i]) == 32; }
      }
      FullContents(a[..l]);
      AllAppend(a[..l], a[l..]);
      assert a == a[..l] + a[l..];
    }
  }

  /** bitSlice with an end. */
  method BitSlice(a: seq<int>, bstart: nat, bend: nat) returns (r: seq<int>)
    requires Valid(a) && bstart <= bend <= BitLength(a)
    ensures Valid(r) && Contents(r) == Contents(a)[bstart..bend]
  {
    BitLengthBound(a);
    r := BitSliceFrom(a, bstart);
    BitLengthBound(r);
    r := Clamp(r, bend - bstart);
  }

  /** equal. */
  method Equal(a: seq<int>, b: seq<int>) returns (same: bool)
    requires Valid(a) && Valid(b)
    ensures same <==> Contents(a) == Contents(b)
  {
    hide Bits, Xor, Or;
    if BitLength(a) != BitLength(b) {
      BitLengthBound(a);
      BitLengthBound(b);
      return false;
    }
    BitLengthBound(a);
    BitLengthBound(b);
    var x := 0;
    for i := 0 to |a|
      invariant x == 0 <==> All(a[..i]) == All(b[..i])
      invariant -0x8000_0000 <= x < 0x8000_0000
    {
      EqualStep(a, b, i, x);
      x := Or(x, Xor(a[i], b[i]));
    }
    assert a[..|a|] == a && b[..|a|] == b;
    if Contents(a) == Contents(b) { SameBits(a, b); }
    return x == 0;
  }

  lemma EqualStep(a: seq<int>, b: seq<int>, i: nat, x: int)
    requires i < |a| == |b| && (x == 0 <==> All(a[..i]) == All(b[..i])) && -0x8000_0000 <= x < 0x8000_0000
    ensures var y := Or(x, Xor(a[i], b[i]));
            -0x8000_0000 <= y < 0x8000_0000 && (y == 0 <==> All(a[..i + 1]) == All(b[..i + 1]))
  {
    hide Bits, Xor, Word;
    XorBitsOf(a[i], b[i]);
    ZeroWord(x);
    var y := Or(x, Xor(a[i], b[i]));
    var o := seq(32, j requires 0 <= j < 32 => Bits(x)[j] || Bits(Xor(a[i], b[i]))[j]);
    BitsOfWord(o);
    ZeroWord(y);
    assert a[..i + 1][..i] == a[..i] && b[..i + 1][..i] == b[..i];
    assert All(a[..i + 1]) == All(a[..i]) + Bits(a[i]);
    assert All(b[..i + 1]) == All(b[..i]) + Bits(b[i]);
    var e := XorBits(Bits(a[i]), Bits(b[i]));
    assert AllFalse(e) <==> Bits(a[i]) == Bits(b[i]) by {
      if AllFalse(e) {
        forall j | 0 <= j < 32 ensures Bits(a[i])[j] == Bits(b[i])[j] { assert !e[j]; }
        assert Bits(a[i]) == Bits(b[i]);
      }
    }
    assert AllFalse(o) <==> AllFalse(Bits(x)) && AllFalse(e) by {
      if AllFalse(o) {
        forall j | 0 <= j < 32 ensures !Bits(x)[j] && !e[j] { assert !o[j]; }
      }
    }
    assert All(a[..i + 1]) == All(b[..i + 1]) ==> All(a[..i]) == All(b[..i]) && Bits(a[i]) == Bits(b[i]) by {
      if All(a[..i + 1]) == All(b[..i + 1]) {
        assert All(a[..i]) == All(a[..i + 1])[..32 * i] && All(b[..i]) == All(b[..i + 1])[..32 * i];
        assert Bits(a[i]) == All(a[..i + 1])[32 * i..] && Bits(b[i]) == All(b[..i + 1])[32 * i..];
      }
    }
  }

  lemma ZeroWord(x: int)
    requires -0x8000_0000 <= x < 0x8000_0000
    ensures x == 0 <==> AllFalse(Bits(x))
  {
    hide BitsOf, Value;
    Pow32();
    ValueOfBits(x, 32);
    if x == 0 { ZeroBits(); }
    if AllFalse(Bits(x)) {
      FalsesUnique(Bits(x));
      ValueOfFalses(32);
    }
  }

  // ---------------------------------------------------------------- extract

  /** a[i], read as 0 outside the array. */
  function At(a: seq<int>, i: int): int {
    if 0 <= i < |a| then a[i] else 0
  }

  /** extract. */
  function Extract(a: seq<int>, bstart: nat, blength: nat): int
    requires blength < 32
  {
    var sh := Low5(-(bstart + blength));
    var x :=
      if And(Xor(bstart + blength - 1, bstart), -32) != 0
      then Xor(Shl(At(a, bstart / 32), Low5(32 - sh)), Ushr(At(a, bstart / 32 + 1), sh))
      else Ushr(At(a, bstart / 32), sh);
    And(x, Shl(1, blength) - 1)
  }

  /** (x ^ y) & -32 tells whether two positions lie in different words. */
  lemma CrossTest(x: int, y: int)
    requires 0 <= x < 0x8000_0000 && 0 <= y < 0x8000_0000
    ensures And(Xor(x, y), -32) != 0 <==> x / 32 != y / 32
  {
    hide BitsOf, Word, Xor, Pow;
    assert Pow(2, 5) == 32 by { PowFive(); }
    HighBits(x);
    HighBits(y);
    BitsSplit(-32, 27, 5);
    MinusOne(27);
    BitsMod(-32, 0, 5);
    BitsOfZero(5);
    XorBitsOf(x, y);
    AndHigh(Xor(x, y), -32, 27);
    ZeroWord(And(Xor(x, y), -32));
    XorPrefix(Bits(x), Bits(y), 27, 5);
  }

  lemma XorPrefix(s: seq<bool>, t: seq<bool>, n: nat, m: nat)
    requires |s| == |t| && n <= |s|
    ensures AllFalse(XorBits(s, t)[..n] + Falses(m)) <==> s[..n] == t[..n]
  {
    var e := XorBits(s, t)[..n] + Falses(m);
    if AllFalse(e) {
      forall i | 0 <= i < n ensures s[i] == t[i] { assert !e[i]; }
    }
    if s[..n] == t[..n] {
      forall i | 0 <= i < n ensures !e[i] { assert s[..n][i] == t[..n][i]; }
    }
  }

  lemma PowFive()
    ensures Pow(2, 5) == 32
  {
  }

  /** The first 27 bits of a word are its quotient by 32. */
  lemma HighBits(x: int)
    requires 0 <= x < 0x8000_0000
    ensures Bits(x)[..27] == BitsOf(x / 32, 27) && Value(Bits(x)[..27]) == x / 32
  {
    hide BitsOf, Value, Pow;
    PowFive();
    Pow32();
    BitsSplit(x, 27, 5);
    PowAdd(2, 27, 5);
    ValueOfBits(x / 32, 27);
    assert x / 32 % Pow(2, 27) == x / 32;
  }

  lemma MaskWord(x: int, k: nat)
    requires k < 32
    ensures And(x, Shl(1, k) - 1) == And(x, Pow(2, k) - 1)
  {
    hide Pow, Value, BitsOf;
    Pow32();
    PowPositive(2, k);
    if k < 31 { PowMonotone(2, k, 31); }
    var p := Pow(2, k);
    ValueOfBits(p, 32);
    assert Value(Bits(p)) == p;
    SameWord(Shl(1, k) - 1, p - 1);
  }

  lemma WordAt(a: seq<int>, i: nat)
    requires i < |a|
    ensures All(a)[32 * i..32 * i + 32] == Bits(a[i])
  {
    hide Bits, All;
    WordsAt(a, i, i + 1);
    AllOne(a[i]);
    assert a[i..i + 1] == [a[i]];
  }

  /** The masked word that joins two words' bits. */
  lemma CrossWord(w0: int, w1: int, c: nat, n: nat)
    requires 1 <= c < 31 && c < n < 32
    ensures And(Xor(Shl(w0, c), Ushr(w1, 32 - c)), Shl(1, n) - 1) == Value((Bits(w0)[c..] + Bits(w1)[..c])[32 - n..])
  {
    hide Bits, And, Xor, Shl, Ushr, Value;
    ShlBits(w0, c);
    UshrBits(w1, 32 - c);
    var l, h := Shl(w0, c), Ushr(w1, 32 - c);
    assert Bits(l)[32 - c..] == Falses(c) && Bits(h)[..32 - c] == Falses(32 - c);
    OrJoins(l, h, 32 - c);
    assert Bits(l)[..32 - c] == Bits(w0)[c..] && Bits(h)[32 - c..] == Bits(w1)[..c];
    MaskWord(Xor(l, h), n);
    AndLow(Xor(l, h), n);
  }

  lemma OneWordExtract(w: int, r: nat, n: nat)
    requires r + n <= 32 && 0 < n < 32
    ensures And(Ushr(w, Low5(32 - (r + n))), Shl(1, n) - 1) == Value(Bits(w)[r..r + n])
  {
    hide Bits, And, Shl, Ushr, Value;
    var sh := 32 - (r + n);
    UshrBits(w, sh);
    MaskWord(Ushr(w, sh), n);
    AndLow(Ushr(w, sh), n);
    assert Bits(Ushr(w, sh))[32 - n..] == Bits(w)[r..r + n];
  }

  lemma ExtractWithin(a: seq<int>, i: nat, r: nat, n: nat)
    requires 0 < n < 32 && r + n <= 32 && i < |a| && 32 * i + r + n < 0x8000_0000
    ensures Extract(a, 32 * i + r, n) == Value(Bits(a[i])[r..r + n])
  {
    hide Bits, And, Xor, Shl, Ushr, Value;
    CrossTest(32 * i + r + n - 1, 32 * i + r);
    assert (32 * i + r) / 32 == i && Low5(-(32 * i + r + n)) == Low5(32 - (r + n));
    OneWordExtract(a[i], r, n);
  }

  lemma ExtractAcross(a: seq<int>, i: nat, r: nat, n: nat)
    requires r < 32 && n < 32 && r + n > 32 && i + 1 < |a| && 32 * i + r + n < 0x8000_0000
    ensures var c := r + n - 32;
            Extract(a, 32 * i + r, n) == Value((Bits(a[i])[c..] + Bits(a[i + 1])[..c])[32 - n..])
  {
    hide Bits, And, Xor, Shl, Ushr, Value;
    var c := r + n - 32;
    CrossTest(32 * i + r + n - 1, 32 * i + r);
    assert (32 * i + r) / 32 == i && Low5(-(32 * i + r + n)) == 32 - c && Low5(32 - (32 - c)) == c;
    CrossWord(a[i], a[i + 1], c, n);
  }

  /** extract is the big-endian value of the slice, within a word and across two. */
  lemma ExtractValue(a: seq<int>, bstart: nat, blength: nat)
    requires Valid(a) && blength < 32 && bstart + blength <= BitLength(a) && bstart + blength < 0x8000_0000
    ensures Extract(a, bstart, blength) == Value(Contents(a)[bstart..bstart + blength])
  {
    hide Bits, Extract, Value, Valid, All;
    BitLengthBound(a);
    var i, r := bstart / 32, bstart % 32;
    assert bstart == 32 * i + r;
    if blength == 0 {
      EmptyExtract(a, bstart);
      assert Contents(a)[bstart..bstart + 0] == [];
    } else {
      PrefixSlice(All(a), BitLength(a), bstart, bstart + blength);
      WordAt(a, i);
      if r + blength > 32 {
        WordAt(a, i + 1);
        ExtractAcross(a, i, r, blength);
        CrossBits(All(a), Bits(a[i]), Bits(a[i + 1]), i, r, blength);
      } else {
        ExtractWithin(a, i, r, blength);
        InnerSlice(All(a), 32 * i, r, blength);
      }
    }
  }

  lemma InnerSlice(x: seq<bool>, o: nat, r: nat, n: nat)
    requires r + n <= 32 && o + 32 <= |x|
    ensures x[o..o + 32][r..r + n] == x[o + r..o + r + n]
  {
    var s, t := x[o..o + 32][r..r + n], x[o + r..o + r + n];
    assert forall j :: 0 <= j < n ==> s[j] == t[j];
  }

  lemma PrefixSlice(x: seq<bool>, m: nat, i: nat, j: nat)
    requires i <= j <= m <= |x|
    ensures x[..m][i..j] == x[i..j]
  {
    var s, t := x[..m][i..j], x[i..j];
    assert forall k :: 0 <= k < j - i ==> s[k] == t[k];
  }

  lemma EmptyExtract(a: seq<int>, bstart: nat)
    ensures Extract(a, bstart, 0) == 0 && Value([]) == 0
  {
    hide Bits, And, Xor, Shl, Ushr;
    var sh := Low5(-(bstart + 0));
    var x :=
      if And(Xor(bstart + 0 - 1, bstart), -32) != 0
      then Xor(Shl(At(a, bstart / 32), Low5(32 - sh)), Ushr(At(a, bstart / 32 + 1), sh))
      else Ushr(At(a, bstart / 32), sh);
    MaskWord(x, 0);
    AndLow(x, 0);
    assert Bits(x)[32..] == [];
  }

  lemma CrossBits(x: seq<bool>, b0: seq<bool>, b1: seq<bool>, i: nat, r: nat, n: nat)
    requires |b0| == |b1| == 32 && r < 32 && 32 < r + n <= 64 && n < 32 && 32 * i + r + n <= |x|
    requires 32 * i + 64 <= |x| && x[32 * i..32 * i + 32] == b0 && x[32 * i + 32..32 * i + 64] == b1
    ensures (b0[r + n - 32..] + b1[..r + n - 32])[32 - n..] == x[32 * i + r..32 * i + r + n]
  {
    var c := r + n - 32;
    assert (b0[c..] + b1[..c])[32 - n..] == b0[r..] + b1[..c];
    assert x[32 * i + r..32 * i + r + n] == x[32 * i..32 * i + 32][r..] + x[32 * i + 32..32 * i + 64][..c];
  }

  lemma WordsAt(b: seq<int>, k: nat, l: nat)
    requires k <= l <= |b|
    ensures All(b)[32 * k..32 * l] == All(b[k..l])
  {
    hide All;
    SplitSeq(b, l);
    AllAppend(b[..l], b[l..]);
    SplitPrefix(b, k, l);
    AllAppend(b[..k], b[k..l]);
    Middle(All(b[..k]), All(b[k..l]), All(b[l..]));
  }

  lemma SplitSeq<T>(s: seq<T>, k: nat)
    requires k <= |s|
    ensures s[..k] + s[k..] == s
  {
  }

  lemma SplitPrefix<T>(s: seq<T>, k: nat, l: nat)
    requires k <= l <= |s|
    ensures s[..k] + s[k..l] == s[..l]
  {
  }

  lemma Middle(p: seq<bool>, q: seq<bool>, r: seq<bool>)
    ensures (p + q + r)[|p|..|p| + |q|] == q
  {
  }
}
