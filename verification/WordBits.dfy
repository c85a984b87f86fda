/** 32-bit words inside JavaScript numbers: their bits, most significant first, and the
    bitwise operators in terms of them. */
module WordBits {
  import opened Congruence

  /** Big-endian value of a bit string. */
  function Value(s: seq<bool>): (v: nat) {
    if s == [] then 0 else 2 * Value(s[..|s| - 1]) + (if s[|s| - 1] then 1 else 0)
  }

  /** The low n bits of x, two's complement for negative x. */
  function BitsOf(x: int, n: nat): (s: seq<bool>)
    ensures |s| == n
    decreases n
  {
    if n == 0 then [] else BitsOf(x / 2, n - 1) + [x % 2 == 1]
  }

  function Falses(n: nat): (s: seq<bool>)
    ensures |s| == n && AllFalse(s)
  {
    seq(n, _ => false)
  }

  predicate AllFalse(s: seq<bool>) {
    forall i :: 0 <= i < |s| ==> !s[i]
  }

  lemma FalsesUnique(s: seq<bool>)
    requires AllFalse(s)
    ensures s == Falses(|s|)
  {
  }

  lemma FalsesAdd(m: nat, n: nat)
    ensures Falses(m) + Falses(n) == Falses(m + n)
  {
  }

  lemma {:induction false} ValueBound(s: seq<bool>)
    ensures Value(s) < Pow(2, |s|)
  {
    if s != [] { ValueBound(s[..|s| - 1]); }
  }

  lemma PowStep(n: nat)
    ensures Pow(2, n + 1) == 2 * Pow(2, n) && Pow(2, n) > 0
  {
    PowPositive(2, n);
  }

  lemma {:induction false} ValueOfBits(x: int, n: nat)
    ensures Pow(2, n) > 0 && Value(BitsOf(x, n)) == x % Pow(2, n)
    decreases n
  {
    if n == 0 {
      assert Pow(2, 0) == 1;
    } else {
      ValueOfBits(x / 2, n - 1);
      assert BitsOf(x, n)[..n - 1] == BitsOf(x / 2, n - 1);
      PowStep(n - 1);
      hide Pow;
      HalfMod(x, Pow(2, n - 1));
    }
  }

  lemma HalfMod(x: int, p: nat)
    requires p > 0
    ensures x % (2 * p) == 2 * (x / 2 % p) + x % 2
  {
    var q := x / 2 / p;
    assert x == 2 * (x / 2) + x % 2 && x / 2 == q * p + x / 2 % p;
    DivModUnique(x, 2 * p, q, 2 * (x / 2 % p) + x % 2);
  }

  lemma {:induction false} BitsOfValue(s: seq<bool>)
    ensures BitsOf(Value(s), |s|) == s
  {
    if s != [] {
      var init := s[..|s| - 1];
      BitsOfValue(init);
      assert Value(s) / 2 == Value(init);
      assert s == init + [s[|s| - 1]];
    }
  }

  /** Bit i from the front has the weight 2^(n - 1 - i). */
  lemma {:induction false} BitIs(x: int, n: nat, i: nat)
    requires i < n
    ensures Pow(2, n - 1 - i) > 0 && BitsOf(x, n)[i] == (x / Pow(2, n - 1 - i) % 2 == 1)
    decreases n
  {
    PowPositive(2, n - 1 - i);
    if i < n - 1 {
      BitIs(x / 2, n - 1, i);
      PowPositive(2, n - 2 - i);
      DivDiv(x, 2, Pow(2, n - 2 - i));
    }
  }

  /** Bits depend on the residue only. */
  lemma BitsMod(x: int, y: int, n: nat)
    requires Pow(2, n) > 0 && x % Pow(2, n) == y % Pow(2, n)
    ensures BitsOf(x, n) == BitsOf(y, n)
  {
    ValueOfBits(x, n);
    ValueOfBits(y, n);
    BitsOfValue(BitsOf(x, n));
    BitsOfValue(BitsOf(y, n));
  }

  lemma {:induction false} BitsSplit(x: int, m: nat, n: nat)
    ensures Pow(2, n) > 0 && BitsOf(x, m + n) == BitsOf(x / Pow(2, n), m) + BitsOf(x, n)
    decreases n
  {
    PowPositive(2, n);
    if n > 0 {
      BitsSplit(x / 2, m, n - 1);
      PowPositive(2, n - 1);
      DivDiv(x, 2, Pow(2, n - 1));
    }
  }

  lemma {:induction false} BitsOfZero(n: nat)
    ensures BitsOf(0, n) == Falses(n)
  {
    if n > 0 { BitsOfZero(n - 1); }
  }

  lemma {:induction false} ValueAppend(s: seq<bool>, t: seq<bool>)
    ensures Value(s + t) == Value(s) * Pow(2, |t|) + Value(t)
  {
    if t == [] {
      assert s + t == s;
    } else {
      var init := t[..|t| - 1];
      assert (s + t)[..|s + t| - 1] == s + init;
      ValueAppend(s, init);
      PowStep(|init|);
      hide Pow;
      DoubleProduct(Value(s), Pow(2, |init|));
    }
  }

  lemma DoubleProduct(v: int, p: int)
    ensures v * (2 * p) == 2 * (v * p)
  {
  }

  lemma {:induction false} ValueOfFalses(n: nat)
    ensures Value(Falses(n)) == 0
  {
    if n > 0 {
      ValueOfFalses(n - 1);
      assert Falses(n)[..n - 1] == Falses(n - 1);
    }
  }

  // ---------------------------------------------------------------- words

  /** The 32 bits a bitwise operator sees in a number. */
  function Bits(x: int): (s: seq<bool>)
    ensures |s| == 32
  {
    BitsOf(x, 32)
  }

  /** The number a bitwise operator returns for 32 bits: signed. */
  function Word(s: seq<bool>): (x: int)
    requires |s| == 32
    ensures -0x8000_0000 <= x < 0x8000_0000
  {
    var v := Value(s);
    ValueBound(s);
    Pow32();
    if v < 0x8000_0000 then v else v - 0x1_0000_0000
  }

  lemma Pow32()
    ensures Pow(2, 32) == 0x1_0000_0000 && Pow(2, 31) == 0x8000_0000 && Pow(2, 24) == 0x100_0000
  {
    assert Pow(2, 8) == 256;
    PowAdd(2, 8, 8);
    PowAdd(2, 16, 8);
    PowAdd(2, 16, 16);
    assert Pow(2, 32) == 2 * Pow(2, 31);
  }

  lemma BitsOfWord(s: seq<bool>)
    requires |s| == 32
    ensures Bits(Word(s)) == s
  {
    hide Value, BitsOf, Pow;
    Pow32();
    ValueBound(s);
    BitsOfValue(s);
    BitsMod(Word(s), Value(s), 32);
  }

  /** Numbers that differ by a multiple of 2^32 are one word. */
  lemma SameWord(x: int, y: int)
    requires x % 0x1_0000_0000 == y % 0x1_0000_0000
    ensures Bits(x) == Bits(y)
  {
    Pow32();
    BitsMod(x, y, 32);
  }

  function Or(x: int, y: int): int {
    Word(seq(32, i requires 0 <= i < 32 => Bits(x)[i] || Bits(y)[i]))
  }

  function Xor(x: int, y: int): int {
    Word(XorBits(Bits(x), Bits(y)))
  }

  function And(x: int, y: int): int {
    Word(seq(32, i requires 0 <= i < 32 => Bits(x)[i] && Bits(y)[i]))
  }

  function XorBits(s: seq<bool>, t: seq<bool>): (r: seq<bool>)
    requires |s| <= |t|
    ensures |r| == |s|
  {
    seq(|s|, i requires 0 <= i < |s| => s[i] != t[i])
  }

  /** x | 0, the signed 32-bit integer. */
  function ToInt32(x: int): int {
    Word(Bits(x))
  }

  /** x << k. */
  function Shl(x: int, k: nat): int
    requires k < 32
  {
    ToInt32(x * Pow(2, k))
  }

  /** x >>> k: the unsigned word divided by 2^k. */
  function Ushr(x: int, k: nat): (r: nat)
    requires k < 32
  {
    PowPositive(2, k);
    x % 0x1_0000_0000 / Pow(2, k)
  }

  lemma ShlBits(x: int, k: nat)
    requires k < 32
    ensures Bits(Shl(x, k)) == Bits(x)[k..] + Falses(k)
  {
    hide BitsOf, Word, Pow;
    PowPositive(2, k);
    BitsOfWord(Bits(x * Pow(2, k)));
    BitsSplit(x * Pow(2, k), 32 - k, k);
    CancelFactor(x, Pow(2, k));
    BitsMod(x * Pow(2, k), 0, k);
    BitsOfZero(k);
    BitsSplit(x, k, 32 - k);
  }

  lemma CancelFactor(x: int, p: nat)
    requires p > 0
    ensures x * p / p == x && x * p % p == 0 && 0 % p == 0
  {
    DivModUnique(x * p, p, x, 0);
    DivModUnique(0, p, 0, 0);
  }

  lemma UshrBits(x: int, k: nat)
    requires k < 32
    ensures Bits(Ushr(x, k)) == Falses(k) + Bits(x)[..32 - k]
  {
    hide BitsOf, Word, Pow;
    PowPositive(2, k);
    Pow32();
    var u := x % 0x1_0000_0000;
    SameWord(u, x);
    BitsSplit(u, 32 - k, k);
    BitsSplit(u / Pow(2, k), k, 32 - k);
    PowPositive(2, 32 - k);
    DivDiv(u, Pow(2, k), Pow(2, 32 - k));
    PowAdd(2, k, 32 - k);
    assert u / 0x1_0000_0000 == 0;
    BitsOfZero(k);
  }

  /** Disjoint halves: the union of a word with a false tail and one with a false head. */
  lemma OrJoins(x: int, y: int, k: nat)
    requires k <= 32 && AllFalse(Bits(x)[k..]) && AllFalse(Bits(y)[..k])
    ensures Bits(Or(x, y)) == Bits(x)[..k] + Bits(y)[k..]
    ensures Bits(Xor(x, y)) == Bits(x)[..k] + Bits(y)[k..]
  {
    hide BitsOf, Word;
    var s, t := Bits(x), Bits(y);
    var o := seq(32, i requires 0 <= i < 32 => s[i] || t[i]);
    var e := XorBits(s, t);
    BitsOfWord(o);
    BitsOfWord(e);
    forall i | 0 <= i < 32 ensures o[i] == (s[..k] + t[k..])[i] && e[i] == (s[..k] + t[k..])[i] {
      if i < k { assert !t[..k][i]; } else { assert !s[k..][i - k]; }
    }
    assert o == s[..k] + t[k..];
    assert e == s[..k] + t[k..];
  }

  lemma XorBitsOf(x: int, y: int)
    ensures Bits(Xor(x, y)) == XorBits(Bits(x), Bits(y))
  {
    BitsOfWord(XorBits(Bits(x), Bits(y)));
  }

  /** A mask of k leading ones keeps the first k bits. */
  lemma AndHigh(x: int, m: int, k: nat)
    requires k <= 32 && AllTrue(Bits(m)[..k]) && AllFalse(Bits(m)[k..])
    ensures Bits(And(x, m)) == Bits(x)[..k] + Falses(32 - k)
  {
    hide BitsOf, Word;
    var s, t := Bits(x), Bits(m);
    var a := seq(32, i requires 0 <= i < 32 => s[i] && t[i]);
    BitsOfWord(a);
    forall i | 0 <= i < 32 ensures a[i] == (s[..k] + Falses(32 - k))[i] {
      if i < k { assert t[..k][i]; } else { assert !t[k..][i - k]; }
    }
    assert a == s[..k] + Falses(32 - k);
  }

  /** x & (2^k - 1): the value of the last k bits. */
  lemma AndLow(x: int, k: nat)
    requires k < 32
    ensures And(x, Pow(2, k) - 1) == Value(Bits(x)[32 - k..])
  {
    hide BitsOf, Pow;
    var m := Pow(2, k) - 1;
    LowMask(k);
    var s, t := Bits(x), Bits(m);
    var a := seq(32, i requires 0 <= i < 32 => s[i] && t[i]);
    forall i | 0 <= i < 32 ensures a[i] == (Falses(32 - k) + s[32 - k..])[i] {
      if i < 32 - k { assert !t[..32 - k][i]; } else { assert t[32 - k..][i - (32 - k)]; }
    }
    assert a == Falses(32 - k) + s[32 - k..];
    ValueAppend(Falses(32 - k), s[32 - k..]);
    ValueOfFalses(32 - k);
    ValueBound(s[32 - k..]);
    Pow32();
    if k < 31 { PowMonotone(2, k, 31); }
  }

  predicate AllTrue(s: seq<bool>) {
    forall i :: 0 <= i < |s| ==> s[i]
  }

  lemma LowMask(k: nat)
    requires k <= 32
    ensures var t := Bits(Pow(2, k) - 1); AllFalse(t[..32 - k]) && AllTrue(t[32 - k..])
  {
    hide BitsOf, Pow;
    PowPositive(2, k);
    BitsSplit(Pow(2, k) - 1, 32 - k, k);
    DivModUnique(Pow(2, k) - 1, Pow(2, k), 0, Pow(2, k) - 1);
    BitsOfZero(32 - k);
    Ones(k);
  }

  lemma {:induction false} Ones(k: nat)
    ensures AllTrue(BitsOf(Pow(2, k) - 1, k))
  {
    if k > 0 {
      Ones(k - 1);
      PowPositive(2, k - 1);
      assert (Pow(2, k) - 1) / 2 == Pow(2, k - 1) - 1;
    }
  }

  /** A length as two words. */
  lemma LengthBits(n: nat, high: nat)
    requires high == n / 0x1_0000_0000
    ensures BitsOf(n, 64) == Bits(high) + Bits(n)
  {
    hide BitsOf, Pow;
    Pow32();
    BitsSplit(n, 32, 32);
  }
}
