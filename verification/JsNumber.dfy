/** The JavaScript number operations the engine uses. A number is exact up to 2^53;
    a bitwise operator first converts to a 32-bit integer. */
module JsNumber {
  import opened Congruence

  const EXACT_MAX := 0x20_0000_0000_0000
  const INT32_MAX := 0x7fff_ffff

  predicate Exact(x: int) { -EXACT_MAX <= x <= EXACT_MAX }

  /** The distance of neighbouring doubles at a non-negative integer: 1 below 2^53, doubling
      with every further bit. */
  function Ulp(x: nat): (u: nat)
    ensures u > 0
  {
    if x < EXACT_MAX then 1 else 2 * Ulp(x / 2)
  }

  /** The nearest double, halfway cases to the even one. Doubles are taken without an upper
      bound of their range. */
  function ToDouble(x: nat): (d: nat) {
    var q, r, u := x / Ulp(x), x % Ulp(x), Ulp(x);
    if 2 * r < u || (2 * r == u && q % 2 == 0) then q * u else (q + 1) * u
  }

  predicate IsDouble(x: nat) {
    ToDouble(x) == x
  }

  /** The doubles are the multiples of the distance at them. */
  lemma DoubleMultiple(x: nat)
    ensures IsDouble(x) <==> x % Ulp(x) == 0
  {
    var q, r, u := x / Ulp(x), x % Ulp(x), Ulp(x);
    assert x == q * u + r;
    MulAdd(u, q, 1);
  }

  /** Half a double, rounded down, is a double: a prefix of its bits. */
  lemma HalfDouble(x: nat)
    requires IsDouble(x)
    ensures IsDouble(x / 2)
  {
    DoubleMultiple(x);
    DoubleMultiple(x / 2);
    if x >= EXACT_MAX {
      var v, q := Ulp(x / 2), x / Ulp(x);
      assert x == q * (2 * v);
      HalfProduct(q, v);
      assert x / 2 == q * v;
      MulMod(q, v);
    }
  }

  lemma HalfProduct(q: int, v: int)
    ensures q * (2 * v) == 2 * (q * v)
  {
  }

  lemma ByteOff(x: nat)
    requires IsDouble(x)
    ensures IsDouble(x / 256)
  {
    hide IsDouble;
    FourOff(x);
    FourOff(x / 16);
  }

  lemma FourOff(x: nat)
    requires IsDouble(x)
    ensures IsDouble(x / 16)
  {
    hide IsDouble;
    var a, b, c := x / 2, x / 2 / 2, x / 2 / 2 / 2;
    HalfDouble(x);
    HalfDouble(a);
    HalfDouble(b);
    HalfDouble(c);
    assert x / 16 == c / 2;
  }

  /** Rounding does not cross 2^53, and below it nothing is rounded. */
  lemma SmallDouble(x: nat)
    ensures x < EXACT_MAX ==> ToDouble(x) == x
    ensures x >= EXACT_MAX ==> ToDouble(x) >= EXACT_MAX
  {
    if x >= EXACT_MAX {
      UlpBound(x);
      var q, u := x / Ulp(x), Ulp(x);
      MulMono(EXACT_MAX / 2, q, u);
      MulMono(2, u, EXACT_MAX / 2);
      MulMono(q, q + 1, u);
    }
  }

  /** From 2^53 on a double has all its 53 digits. */
  lemma {:induction false} UlpBound(x: nat)
    requires x >= EXACT_MAX
    ensures Ulp(x) >= 2 && x / Ulp(x) >= EXACT_MAX / 2
  {
    if x / 2 >= EXACT_MAX {
      UlpBound(x / 2);
      var v := Ulp(x / 2);
      DivDiv(x, 2, v);
    } else {
      assert Ulp(x) == 2;
    }
  }

  /** The distance is a power of two that leaves x at most 53 digits, all 53 if it is not 1. */
  lemma {:induction false} UlpShape(x: nat) returns (e: nat)
    ensures Pow(2, e) > 0 && Ulp(x) == Pow(2, e) && x / Ulp(x) < EXACT_MAX
    ensures e > 0 ==> x / Ulp(x) >= EXACT_MAX / 2
  {
    if x < EXACT_MAX {
      e := 0;
      assert Pow(2, 0) == 1;
    } else {
      var f := UlpShape(x / 2);
      e := f + 1;
      PowPositive(2, e);
      DivDiv(x, 2, Ulp(x / 2));
    }
  }

  function Distance(a: int, b: int): (d: nat) {
    if a < b then b - a else a - b
  }

  /** A rounded number is a double: at most 53 binary digits, times a power of two. */
  lemma RoundsToDouble(x: nat) returns (m: nat, e: nat)
    ensures m <= EXACT_MAX && ToDouble(x) == m * Pow(2, e)
  {
    e := UlpShape(x);
    m := if ToDouble(x) == x / Ulp(x) * Ulp(x) then x / Ulp(x) else x / Ulp(x) + 1;
  }

  /** No double lies strictly between the multiples of the distance around x. */
  lemma NoDoubleBetween(x: nat, m: nat, e: nat)
    requires m <= EXACT_MAX
    ensures var q, u, d := x / Ulp(x), Ulp(x), m * Pow(2, e); d <= q * u || d >= (q + 1) * u
  {
    var k := UlpShape(x);
    var q, u, d := x / Ulp(x), Ulp(x), m * Pow(2, e);
    if e >= k {
      PowAdd(2, k, e - k);
      var n := m * Pow(2, e - k);
      assert d == n * u by { Reorder(m, Pow(2, k), Pow(2, e - k)); }
      if n <= q { MulMono(n, q, u); } else { MulMono(q + 1, n, u); }
    } else {
      PowPositive(2, e);
      PowAdd(2, e, 1);
      assert Pow(2, 1) == 2;
      if e + 1 < k { PowMonotone(2, e + 1, k); }
      hide Pow;
      MulMono(m, EXACT_MAX, Pow(2, e));
      MulMono(EXACT_MAX / 2, q, u);
    }
  }

  lemma Reorder(m: int, a: int, b: int)
    ensures m * (a * b) == m * b * a
  {
  }

  /** x lies r above the multiple lo of the distance u, and is rounded down or up by half u at
      most; at half u exactly, to the even multiple. */
  lemma Neighbours(x: nat) returns (lo: nat, r: nat, u: nat, up: bool)
    ensures x == lo + r && r < u && lo == x / Ulp(x) * Ulp(x) && u == Ulp(x)
    ensures ToDouble(x) == if up then lo + u else lo
    ensures if up then 2 * r >= u else 2 * r <= u
    ensures 2 * r == u ==> ToDouble(x) / Ulp(x) % 2 == 0
  {
    hide Ulp;
    var q := x / Ulp(x);
    r, u := x % Ulp(x), Ulp(x);
    lo := q * u;
    MulAdd(u, q, 1);
    up := !(2 * r < u || (2 * r == u && q % 2 == 0));
    DivModUnique(q * u, u, q, 0);
    DivModUnique((q + 1) * u, u, q + 1, 0);
  }

  /** No double is nearer, and of two that are as near the one with the even last digit is
      taken. */
  lemma NearestDouble(x: nat, m: nat, e: nat)
    requires m <= EXACT_MAX
    ensures Distance(x, ToDouble(x)) <= Distance(x, m * Pow(2, e))
    ensures Distance(x, ToDouble(x)) == Distance(x, m * Pow(2, e)) && ToDouble(x) != m * Pow(2, e) ==>
              ToDouble(x) / Ulp(x) % 2 == 0
  {
    NoDoubleBetween(x, m, e);
    NearestTo(x, m * Pow(2, e));
  }

  lemma NearestTo(x: nat, d: int)
    requires d <= x / Ulp(x) * Ulp(x) || d >= (x / Ulp(x) + 1) * Ulp(x)
    ensures Distance(x, ToDouble(x)) <= Distance(x, d)
    ensures Distance(x, ToDouble(x)) == Distance(x, d) && ToDouble(x) != d ==> ToDouble(x) / Ulp(x) % 2 == 0
  {
    hide Ulp, ToDouble;
    var lo, r, u, up := Neighbours(x);
    MulAdd(u, x / Ulp(x), 1);
    Nearer(x, lo, r, u, d);
  }

  /** Of the two neighbours lo and lo + u, the one r is nearer to. */
  lemma Nearer(x: nat, lo: nat, r: nat, u: nat, d: int)
    requires x == lo + r && r < u && (d <= lo || d >= lo + u)
    ensures 2 * r <= u ==> Distance(x, lo) <= Distance(x, d)
    ensures 2 * r >= u ==> Distance(x, lo + u) <= Distance(x, d)
    ensures 2 * r < u && d != lo ==> Distance(x, lo) < Distance(x, d)
    ensures 2 * r > u && d != lo + u ==> Distance(x, lo + u) < Distance(x, d)
  {
  }

  predicate Int32(x: int) { -INT32_MAX - 1 <= x <= INT32_MAX }

  /** x & 0xffffff. The conversion drops multiples of 2^32 only, so an exact number
      keeps its residue modulo 2^24, also when it is negative. */
  function Low24(x: int): (m: int)
    requires Exact(x)
  {
    x % 0x100_0000
  }

  /** x & 1, in two's complement. */
  function Bit0(x: int): int
    requires Exact(x)
  {
    x % 2
  }

  /** Bit 31 of the 32-bit integer a bitwise operator makes of x. */
  predicate SignBit(x: int)
    requires Exact(x)
  {
    x % 0x1_0000_0000 >= 0x8000_0000
  }

  /** x >> k on a 32-bit integer: division rounded down. */
  function Shr(x: int, k: nat): int
    requires Int32(x) && k < 32
  {
    PowPositive(2, k);
    x / Pow(2, k)
  }

  /** x & (2^k - 1) on a non-negative 32-bit integer. */
  function LowBits(x: int, k: nat): int
    requires Int32(x) && x >= 0 && k < 32
  {
    PowPositive(2, k);
    x % Pow(2, k)
  }

  /** low | (x << k), where low has no bit at place k or above and nothing is shifted out:
      the two share no bit, so the union is the sum. */
  function OrAbove(low: int, x: int, k: nat): (r: int)
    requires 0 <= low < Pow(2, k) && 0 <= x && Int32(low + x * Pow(2, k))
  {
    low + x * Pow(2, k)
  }

  lemma ShrRadix(x: int)
    requires Int32(x)
    ensures Shr(x, 24) == x / 0x100_0000
  {
    assert Pow(2, 12) == 0x1000;
    PowAdd(2, 12, 12);
  }
}
