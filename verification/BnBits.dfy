/** Big numbers as bit arrays: 24-bit limbs repacked into 32-bit words and back. */
module BnBits {
  import opened Bignum
  import opened BitArrays
  import opened Congruence
  import opened Limbs
  import opened WordBits

  lemma PowRadix()
    ensures Pow(2, 24) == 0x100_0000
  {
    Pow32();
  }

  /** A partial word of the low n bits of x. */
  lemma PartialBits(n: nat, x: int)
    requires 1 <= n < 32
    ensures Valid([Partial(n, x, false)]) && Contents([Partial(n, x, false)]) == BitsOf(x, n)
  {
    hide BitsOf, Word, Shl, Valid, Contents, GetPartial;
    var w := Shl(x, 32 - n);
    ShlBits(x, 32 - n);
    ShlFull(x, 32 - n);
    TagInvisible(w, n);
    BitsSplit(x, 32 - n, n);
    assert Low5(32 - n) == 32 - n;
    assert Bits(w)[..n] == BitsOf(x, n) && Bits(w)[n..] == Falses(32 - n);
    OneWord(w + n * TAG, n);
  }

  lemma ShlFull(x: int, k: nat)
    requires k < 32
    ensures Full(Shl(x, k))
  {
  }

  /** Bits of the value from limb i on: those above, then the 24 of the limb. */
  lemma LimbBits(limbs: seq<int>, i: nat, n: nat)
    requires Digits(limbs)
    ensures BitsOf(Val(Drop(limbs, i)), n + 24) == BitsOf(Val(Drop(limbs, i + 1)), n) + BitsOf(Limb(limbs, i), 24)
  {
    hide BitsOf, Val, Pow;
    DropStep(limbs, i);
    PowRadix();
    var v, x, u := Val(Drop(limbs, i)), Limb(limbs, i), Val(Drop(limbs, i + 1));
    BitsSplit(v, n, 24);
    DivModUnique(v, 0x100_0000, u, x);
    BitsMod(v, x, 24);
  }

  /** The top limb's bits are those of the value from it on. */
  lemma TopBits(limbs: seq<int>, i: nat, n: nat)
    requires Digits(limbs) && n <= 24
    ensures BitsOf(Val(Drop(limbs, i)), n) == BitsOf(Limb(limbs, i), n)
  {
    hide BitsOf, Val, Pow;
    DropStep(limbs, i);
    PowRadix();
    var v, x, u := Val(Drop(limbs, i)), Limb(limbs, i), Val(Drop(limbs, i + 1));
    BitsSplit(v, 24 - n, n);
    DivModUnique(v, 0x100_0000, u, x);
    BitsMod(v, x, 24);
    BitsSplit(x, 24 - n, n);
    assert BitsOf(v, 24)[24 - n..] == BitsOf(v, n);
    assert BitsOf(x, 24)[24 - n..] == BitsOf(x, n);
  }

  function Least(a: int, b: int): int {
    if a < b then a else b
  }

  /** How many bits toBits writes; the empty length still makes one 24-bit word. */
  function Written(len: nat): nat {
    if len == 0 then 24 else len
  }

  /** toBits: len is the field's exponent or bitLength(), a multiple of 8. */
  method ToBits(limbs: seq<int>, len: nat) returns (out: seq<int>)
    requires Digits(limbs) && len % 8 == 0 && (len == 0 ==> Val(limbs) == 0)
    ensures Valid(out) && Contents(out) == BitsOf(Val(limbs), Written(len))
  {
    hide BitsOf, Val, Partial, Contents, Valid, Digits, Drop, Limb;
    var i := (len - 1) / 24;
    var e := if len % 24 == 0 then 24 else len % 24;
    if i < 0 {
      PartialBits(24, 0);
      return [Partial(24, 0, false)];
    }
    TopLimb(len, i, e);
    var rest := len;
    PartialBits(e, Limb(limbs, i));
    TopBits(limbs, i, e);
    out := [Partial(e, Limb(limbs, i), false)];
    ghost var n := e;
    i := i - 1;
    while i >= 0
      invariant -1 <= i && n + 24 * (i + 1) == len && rest >= 24 * (i + 1)
      invariant Valid(out) && Contents(out) == BitsOf(Val(Drop(limbs, i + 1)), n)
    {
      PartialBits(24, Limb(limbs, i));
      LimbBits(limbs, i, n);
      out := Concat(out, [Partial(Least(24, rest), Limb(limbs, i), false)]);
      n := n + 24;
      rest := rest - 24;
      i := i - 1;
    }
    DropNone(limbs);
  }

  lemma TopLimb(len: nat, i: int, e: nat)
    requires i == (len - 1) / 24 && i >= 0 && e == (if len % 24 == 0 then 24 else len % 24)
    ensures e + 24 * i == len && 1 <= e <= 24
  {
  }

  lemma DropNone(limbs: seq<int>)
    ensures Drop(limbs, 0) == limbs
  {
  }

  // ---------------------------------------------------------------- reading

  /** extract of 24 bits from the empty array. */
  lemma NothingExtract()
    ensures Extract([], 0, 24) == 0
  {
    hide Bits, And, Xor, Shl, Ushr, Value;
    CrossTest(23, 0);
    OneWordExtract(0, 0, 24);
    ZeroBits();
    assert Falses(32)[0..24] == Falses(24);
    ValueOfFalses(24);
  }

  /** words read so far: the value of the first e bits, as limbs. */
  predicate ReadSoFar(x: seq<bool>, e: nat, words: seq<int>) {
    e <= |x| && Digits(words) && Val(words) == Value(x[..e])
  }

  lemma ReadFirst(x: seq<bool>, e: nat, w: int)
    requires e <= |x| && e <= 24 && w == Value(x[0..e])
    ensures ReadSoFar(x, e, [w])
  {
    hide Value, Pow;
    PowRadix();
    assert x[0..e] == x[..e];
    ValueBound(x[..e]);
    if e < 24 { PowMonotone(2, e, 24); }
    assert [w][1..] == [] && Val([]) == 0;
  }

  lemma ReadNext(x: seq<bool>, e: nat, words: seq<int>, w: int)
    requires ReadSoFar(x, e, words) && e + 24 <= |x| && w == Value(x[e..e + 24])
    ensures ReadSoFar(x, e + 24, [w] + words)
  {
    hide Value, Pow;
    PowRadix();
    ValueBound(x[e..e + 24]);
    assert x[..e + 24] == x[..e] + x[e..e + 24];
    ValueAppend(x[..e], x[e..e + 24]);
    assert ([w] + words)[1..] == words;
  }

  /** bn.fromBits: the first limb takes what is over a multiple of 24 bits. */
  method FromBits(bits: seq<int>) returns (words: seq<int>)
    requires Valid(bits) && BitLength(bits) < 0x8000_0000
    ensures Digits(words) && words != [] && Val(words) == Value(Contents(bits))
  {
    hide Extract, Value, Contents, Valid, BitLength, Val, Digits, ReadSoFar;
    BitLengthBound(bits);
    UnusedFalse(bits);
    var l := BitLength(bits);
    var e := if l % 24 == 0 then 24 else l % 24;
    words := [Extract(bits, 0, e)];
    if l == 0 {
      BitLengthZero(bits);
      NothingExtract();
      ZeroLimb();
      return words;
    }
    FirstLimb(l, e);
    ExtractValue(bits, 0, e);
    ghost var x := Contents(bits);
    ReadFirst(x, e, words[0]);
    ghost var left := (l - e) / 24;
    while e < l
      invariant left >= 0 && e + 24 * left == l && words != []
      invariant ReadSoFar(x, e, words)
    {
      ExtractValue(bits, e, 24);
      ReadNext(x, e, words, Extract(bits, e, 24));
      words := [Extract(bits, e, 24)] + words;
      e := e + 24;
      left := left - 1;
    }
    ReadAll(x, words);
  }

  lemma FirstLimb(l: nat, e: nat)
    requires l > 0 && e == (if l % 24 == 0 then 24 else l % 24)
    ensures 0 < e <= l && e <= 24 && e + 24 * ((l - e) / 24) == l
  {
  }

  lemma ReadAll(x: seq<bool>, words: seq<int>)
    requires ReadSoFar(x, |x|, words)
    ensures Digits(words) && Val(words) == Value(x)
  {
    assert x[..|x|] == x;
  }

  lemma BitLengthZero(bits: seq<int>)
    requires Valid(bits) && BitLength(bits) == 0
    ensures bits == [] && Contents(bits) == []
  {
    BitLengthBound(bits);
  }

  lemma ZeroLimb()
    ensures Digits([0]) && Val([0]) == Value([])
  {
    assert [0][1..] == [] && Val([]) == 0;
  }

  /** Reading back what toBits wrote gives the number, if it has no more than len bits. */
  lemma Repacked(limbs: seq<int>, len: nat, words: seq<int>)
    requires 0 <= Val(limbs) < Pow(2, len) && Val(words) == Value(BitsOf(Val(limbs), Written(len)))
    ensures Val(words) == Val(limbs)
  {
    hide Val, BitsOf, Value, Pow;
    ValueOfBits(Val(limbs), Written(len));
    if len == 0 { PowMonotone(2, 0, 24); }
    DivModUnique(Val(limbs), Pow(2, Written(len)), 0, Val(limbs));
  }

  /** bn.fromBits(x.toBits()) has the value of x. */
  method Repack(limbs: seq<int>, len: nat) returns (words: seq<int>)
    requires Digits(limbs) && len % 8 == 0 && 0 <= Val(limbs) < Pow(2, len) && len < 0x7fff_ffff
    ensures Digits(words) && Val(words) == Val(limbs)
  {
    hide Digits, Contents, Valid, GetPartial, Value, BitsOf;
    SmallPower(Val(limbs), len);
    var bits := ToBits(limbs, len);
    UnusedFalse(bits);
    words := FromBits(bits);
    Repacked(limbs, len, words);
  }

  /** toBits without a length: the fewest whole bytes that hold the number. */
  method ToBitsAll(x: Bn) returns (out: seq<int>)
    requires Within(x.limbs, LIMB_MAX) && x.V() >= 0
    modifies x
    ensures x.V() == old(x.V()) && Digits(x.limbs) && Trimmed(x.limbs)
    ensures Valid(out) && Contents(out) == BitsOf(x.V(), |Contents(out)|)
    ensures |Contents(out)| % 8 == 0 && x.V() < Pow(2, |Contents(out)|) && |Contents(out)| <= 24 * (|x.limbs| + 1)
    ensures x.V() > 0 ==> |Contents(out)| >= 8 && Pow(2, |Contents(out)| - 8) <= x.V()
  {
    hide BitsOf, Val, Pow, Contents, Valid, Digits, Within, Trimmed;
    x.Normalize();
    NormalDigits(x.limbs);
    var len := x.BitLength();
    out := ToBits(x.limbs, len);
    BitsLength(x.V(), Written(len));
    if len == 0 { PowPositive(2, 24); }
  }

  lemma NormalDigits(l: seq<int>)
    requires Normal(l) && Val(l) >= 0
    ensures Digits(l) && Trimmed(l)
  {
    NormalNonNegative(l);
  }

  lemma BitsLength(v: int, n: nat)
    ensures |BitsOf(v, n)| == n
  {
  }

  /** fromBits(x.toBits()) has the value of x. */
  method RepackAll(x: Bn) returns (words: seq<int>)
    requires Digits(x.limbs) && |x.limbs| < 0x400_0000
    modifies x
    ensures x.V() == old(x.V()) && Digits(words) && Val(words) == x.V()
  {
    hide Val, BitsOf, Value, Pow, Contents, Valid, Digits, Within, Trimmed;
    ghost var l := x.limbs;
    DigitsWithin(l);
    ValDigitsBound(l);
    var bits := ToBitsAll(x);
    ShortestForm(l, x.limbs);
    UnusedFalse(bits);
    words := FromBits(bits);
    ValueOfBits(x.V(), |Contents(bits)|);
    AllBits(x.V(), |Contents(bits)|);
  }

  lemma AllBits(v: int, n: nat)
    requires 0 <= v < Pow(2, n)
    ensures v % Pow(2, n) == v
  {
    DivModUnique(v, Pow(2, n), 0, v);
  }

  /** Trimming never lengthens. */
  lemma ShortestForm(l: seq<int>, r: seq<int>)
    requires Digits(l) && Digits(r) && Trimmed(r) && Val(l) == Val(r)
    ensures |r| <= |l| || |r| == 1
  {
    ValDigitsBound(l);
    if |r| > 1 {
      TopLimbNonzero(r);
      if |l| < |r| - 1 { PlaceMonotone(|l|, |r| - 1); }
    }
  }

  lemma SmallPower(v: int, len: nat)
    requires 0 <= v < Pow(2, len)
    ensures len == 0 ==> v == 0
  {
  }
}
