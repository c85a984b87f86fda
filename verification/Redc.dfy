/** The arithmetic of Montgomery reduction, and what its limb shifts compute. */
module Redc {
  import opened Congruence
  import opened Limbs

  lemma {:induction false} PlaceIsPow2(n: nat)
    ensures Place(n) == Pow(2, 24 * n)
  {
    if n != 0 {
      PlaceIsPow2(n - 1);
      PowAdd(2, 24, 24 * (n - 1));
      assert Pow(2, 24) == 0x100_0000 by { PowAdd(2, 12, 12); assert Pow(2, 12) == 0x1000; }
    }
  }

  /** 2^t and its complement in one limb. */
  lemma SplitRadix(t: nat)
    requires t <= 24
    ensures Pow(2, t) * Pow(2, 24 - t) == 0x100_0000 && Pow(2, t) > 0 && Pow(2, 24 - t) > 0
  {
    PowAdd(2, t, 24 - t);
    PlaceIsPow2(1);
    PowPositive(2, t);
    PowPositive(2, 24 - t);
  }

  // ---------------------------------------------------------------- reduction modulo 2R

  /** The low part kept by montMul: n limbs, the top one cut to t bits. */
  function LowPart(l: seq<int>, n: nat, t: nat): seq<int>
    requires n > 0
  {
    PowPositive(2, t);
    if |l| < n then l
    else l[..n][n - 1 := l[n - 1] % Pow(2, t)]
  }

  lemma LowPartShort(l: seq<int>, n: nat, m: int)
    requires Digits(l) && |l| < n && m > 0
    ensures 0 <= Val(l) < Place(n - 1) * m
  {
    ValDigitsBound(l);
    PlacePositive(n - 1);
    MulMono(1, m, Place(n - 1));
    if |l| < n - 1 { PlaceMonotone(|l|, n - 1); }
  }

  lemma SplitAt(l: seq<int>, k: nat)
    requires k < |l|
    ensures Val(l) == Val(l[..k]) + Place(k) * Val(l[k..])
    ensures Val(l[k..]) == l[k] + 0x100_0000 * Val(l[k + 1..])
  {
    assert l == l[..k] + l[k..];
    ValAppend(l[..k], l[k..]);
    assert l[k..][1..] == l[k + 1..];
  }

  lemma LowPartValue(l: seq<int>, n: nat, t: nat)
    requires Digits(l) && n > 0 && t <= 24
    ensures Pow(2, t) > 0 && Place(n - 1) * Pow(2, t) > 0
    ensures Val(LowPart(l, n, t)) == Val(l) % (Place(n - 1) * Pow(2, t))
    ensures Digits(LowPart(l, n, t))
  {
    SplitRadix(t);
    PlacePositive(n - 1);
    var p, m, u := Place(n - 1), Pow(2, t), Pow(2, 24 - t);
    hide Place, Pow, Val;
    MulMono(1, m, p);
    if |l| < n {
      LowPartShort(l, n, m);
      DivModUnique(Val(l), p * m, 0, Val(l));
    } else {
      var low, x := l[..n - 1], l[n - 1];
      assert LowPart(l, n, t) == low + [x % m];
      ValSnoc(low, x % m);
      SplitAt(l, n - 1);
      ValDigitsBound(low);
      LowPartResidue(Val(l), Val(low), p, m, u, Val(l[n - 1..]), x, Val(l[n..]));
    }
  }

  lemma LowPartResidue(v: int, low: int, p: int, m: int, u: int, w: int, x: int, rest: int)
    requires v == low + p * w && w == x + 0x100_0000 * rest && m * u == 0x100_0000
    requires 0 <= low < p && 0 <= x && m > 0 && p * m > 0
    ensures v % (p * m) == low + p * (x % m) && 0 <= x % m <= x
  {
    LowPartArithmetic(v, low, p, m, u, x / m, x % m, rest);
    DivModUnique(v, p * m, x / m + u * rest, low + p * (x % m));
    if x < m { DivModUnique(x, m, 0, x); }
  }

  lemma LowPartArithmetic(v: int, low: int, p: int, m: int, u: int, q: int, x': int, rest: int)
    requires v == low + p * (q * m + x' + 0x100_0000 * rest) && m * u == 0x100_0000
    requires 0 <= low < p && 0 <= x' < m
    ensures v == (q + u * rest) * (p * m) + (low + p * x')
    ensures 0 <= low + p * x' < p * m
  {
    assert 0x100_0000 * rest == m * (u * rest) by { assert m * (u * rest) == m * u * rest; }
    calc {
      p * (q * m + x' + m * (u * rest));
    == { MulAdd(p, q * m + x', m * (u * rest)); MulAdd(p, q * m, x'); }
      p * (q * m) + p * x' + p * (m * (u * rest));
    == { assert p * (q * m) == q * (p * m); assert p * (m * (u * rest)) == (u * rest) * (p * m); }
      q * (p * m) + (u * rest) * (p * m) + p * x';
    == { assert (q + u * rest) * (p * m) == q * (p * m) + (u * rest) * (p * m); }
      (q + u * rest) * (p * m) + p * x';
    }
    MulMono(0, x', p);
    MulMono(x', m - 1, p);
    MulAdd(p, m, -1);
  }

  // ---------------------------------------------------------------- division by 2^t

  /** Limb k of l >> t: its own high bits, and the low t bits of the limb above. */
  function ShiftLimbs(l: seq<int>, t: nat): (r: seq<int>)
    requires t <= 24
    ensures |r| == |l|
  {
    PowPositive(2, t);
    seq(|l|, k requires 0 <= k < |l| => l[k] / Pow(2, t) + (Limb(l, k + 1) % Pow(2, t)) * Pow(2, 24 - t))
  }

  lemma {:induction false} ShiftValue(l: seq<int>, t: nat)
    requires Digits(l) && t <= 24
    ensures Pow(2, t) > 0 && Val(ShiftLimbs(l, t)) == Val(l) / Pow(2, t)
    ensures Digits(ShiftLimbs(l, t))
  {
    SplitRadix(t);
    var m, u := Pow(2, t), Pow(2, 24 - t);
    if l == [] {
      DivModUnique(0, m, 0, 0);
    } else {
      var r := ShiftLimbs(l, t);
      assert r[1..] == ShiftLimbs(l[1..], t);
      ShiftValue(l[1..], t);
      var v := Val(l[1..]);
      var next := Limb(l, 1);
      LowBitsOfVal(l[1..], m, u);
      assert Limb(l[1..], 0) == next;
      ShiftArithmetic(l[0], v, m, u);
      ShiftDigit(l[0], next, m, u);
      assert r[0] == l[0] / m + (next % m) * u;
    }
  }

  /** A factor of the radix sees only the lowest limb. */
  lemma LowBitsOfVal(l: seq<int>, m: int, u: int)
    requires m > 0 && m * u == 0x100_0000
    ensures Val(l) % m == Limb(l, 0) % m
  {
    if l != [] {
      var w := Val(l[1..]);
      assert Val(l) - l[0] == (u * w) * m by { assert (u * w) * m == m * u * w; }
      CongIntro(Val(l), l[0], m, u * w);
      CongIffMod(Val(l), l[0], m);
    }
  }

  lemma ShiftArithmetic(x: int, v: int, m: int, u: int)
    requires m > 0 && u > 0 && m * u == 0x100_0000 && 0 <= x
    ensures (x + 0x100_0000 * v) / m == x / m + (v % m) * u + 0x100_0000 * (v / m)
  {
    var q, r := x / m, x % m;
    assert v == (v / m) * m + v % m;
    assert 0x100_0000 * v == (u * v) * m by { assert (u * v) * m == m * u * v; }
    assert x + 0x100_0000 * v == (q + u * v) * m + r;
    DivModUnique(x + 0x100_0000 * v, m, q + u * v, r);
    assert u * v == u * ((v / m) * m) + u * (v % m) by { MulAdd(u, (v / m) * m, v % m); }
    assert u * ((v / m) * m) == m * u * (v / m);
  }

  lemma ShiftDigit(x: int, next: int, m: int, u: int)
    requires m > 0 && u > 0 && m * u == 0x100_0000 && 0 <= x < 0x100_0000
    ensures 0 <= x / m < u && 0 <= x / m + (next % m) * u < 0x100_0000
  {
    var q, r := x / m, x % m;
    assert x == q * m + r;
    if q >= u { MulMono(u, q, m); }
    if q < 0 { MulMono(q, -1, m); }
    MulMono(next % m, m - 1, u);
    MulMono(0, next % m, u);
    assert (m - 1) * u == m * u - u;
  }

  /** montMul's division loop before turn k: cur is what l has become. */
  predicate Shifting(l: seq<int>, cur: seq<int>, k: nat, t: nat)
    requires t <= 24
  {
    PowPositive(2, t);
    && |cur| == |l|
    && (forall j :: k <= j < |l| ==> cur[j] == l[j])
    && (forall j :: 0 <= j < k - 1 && j < |l| ==> cur[j] == ShiftLimbs(l, t)[j])
    && (0 < k <= |l| ==> cur[k - 1] == l[k - 1] / Pow(2, t))
  }

  lemma ShiftingStep(l: seq<int>, cur: seq<int>, k: nat, t: nat)
    requires t <= 24 && Digits(l) && k < |l| && Shifting(l, cur, k, t)
    ensures Pow(2, t) > 0 && cur[k] == l[k]
    ensures k > 0 ==> 0 <= cur[k - 1] < Pow(2, 24 - t)
                      && 0 <= cur[k - 1] + (l[k] % Pow(2, t)) * Pow(2, 24 - t) < 0x100_0000
    ensures var next := if k == 0 then cur
                        else cur[k - 1 := cur[k - 1] + (l[k] % Pow(2, t)) * Pow(2, 24 - t)];
            Shifting(l, next[k := l[k] / Pow(2, t)], k + 1, t)
  {
    SplitRadix(t);
    hide Pow;
    if k > 0 { ShiftDigit(l[k - 1], l[k], Pow(2, t), Pow(2, 24 - t)); }
  }

  lemma ShiftingEnds(l: seq<int>, t: nat)
    requires t <= 24
    ensures Shifting(l, l, 0, t)
  {
  }

  lemma ShiftingDone(l: seq<int>, cur: seq<int>, t: nat)
    requires t <= 24 && Shifting(l, cur, |l|, t)
    ensures cur == ShiftLimbs(l, t)
  {
    PowPositive(2, t);
    hide Pow;
    if l != [] {
      assert ShiftLimbs(l, t)[|l| - 1] == l[|l| - 1] / Pow(2, t) + (0 % Pow(2, t)) * Pow(2, 24 - t);
      DivModUnique(0, Pow(2, t), 0, 0);
    }
  }

  lemma SliceDigits(l: seq<int>, k: nat)
    requires Digits(l)
    ensures Digits(Slice(l, k))
  {
  }

  function Slice(l: seq<int>, k: nat): seq<int> {
    if k <= |l| then l[k..] else []
  }

  /** Dropping n - 1 limbs and then t bits divides by both. */
  lemma QuotientValue(l: seq<int>, n: nat, t: nat)
    requires Digits(l) && n > 0 && t <= 24
    ensures Place(n - 1) * Pow(2, t) > 0
    ensures Val(ShiftLimbs(Slice(l, n - 1), t)) == Val(l) / (Place(n - 1) * Pow(2, t))
    ensures Digits(ShiftLimbs(Slice(l, n - 1), t))
  {
    var hi, p := Slice(l, n - 1), Place(n - 1);
    PlacePositive(n - 1);
    SplitRadix(t);
    ShiftValue(hi, t);
    DivDiv(Val(l), p, Pow(2, t));
    ValDigitsBound(l);
    hide Place, Pow, ShiftLimbs;
    if n - 1 <= |l| {
      var low := l[..n - 1];
      assert l == low + hi;
      ValAppend(low, hi);
      ValDigitsBound(low);
      assert p * Val(hi) == Val(hi) * p;
      DivModUnique(Val(l), p, Val(hi), Val(low));
    } else {
      PlaceMonotone(|l|, n - 1);
      DivModUnique(Val(l), p, 0, Val(l));
    }
  }

  // ---------------------------------------------------------------- the product step

  /** R R' - N N' = 1 for the radix m = 2R of the reduction. */
  predicate Bezout(m: int, rp: int, n: int, np: int) {
    m * rp - n * np == 1
  }

  lemma DivLess(t: int, m: int, bound: int)
    requires m > 0 && t < bound * m
    ensures t / m < bound
  {
    if t / m >= bound { MulMono(bound, t / m, m); }
  }

  lemma RedcStep(ab: int, n: int, np: int, m: int, rp: int)
    requires m > 0 && n > 0 && ab >= 0 && Bezout(m, rp, n, np)
    ensures var t := ab + (ab * np % m) * n;
            t % m == 0 && t >= 0 && t == t / m * m
            && Cong(t / m * m, ab, n)
            && (ab < n * m ==> t / m < 2 * n)
  {
    hide Cong;
    var u := ab * np % m;
    CongMod(ab * np, m);
    RedcDivides(ab, n, np, m, rp, u);
    var t := ab + u * n;
    MulMono(0, u, n);
    var q := t / m;
    assert t == q * m by { DivExact(t, m); }
    CongIntro(q * m, ab, n, u);
    if ab < n * m {
      MulMono(u, m, n);
      DivLess(t, m, 2 * n);
    }
  }

  lemma DivExact(t: int, m: int)
    requires m > 0 && t % m == 0
    ensures t == t / m * m
  {
  }

  /** Adding u N with u = ab N' makes ab a multiple of the radix. */
  lemma RedcDivides(ab: int, n: int, np: int, m: int, rp: int, u: int)
    requires m > 0 && Bezout(m, rp, n, np) && Cong(u, ab * np, m)
    ensures (ab + u * n) % m == 0
  {
    CongIntro(n, n, m, 0);
    CongMul(u, ab * np, n, n, m);
    CongIntro(ab, ab, m, 0);
    CongAdd(ab, ab, u * n, ab * np * n, m);
    RedcIdentity(ab, n, np, m, rp);
    CongIntro(ab + ab * np * n, 0, m, ab * rp);
    CongSymTrans(ab + u * n, ab + ab * np * n, 0, m);
  }

  lemma RedcIdentity(ab: int, n: int, np: int, m: int, rp: int)
    requires Bezout(m, rp, n, np)
    ensures ab + ab * np * n == ab * rp * m
  {
    var x, y := m * rp, n * np;
    assert x == y + 1;
    assert ab * x == ab * y + ab;
    assert ab * (m * rp) == ab * rp * m;
    assert ab * (n * np) == ab * np * n;
  }

  /** b^e in Montgomery form. */
  predicate Represents(o: int, b: int, e: nat, m: int, n: int) {
    n > 0 && Cong(o, Pow(b, e) * m, n)
  }

  lemma InverseOfRadix(m: int, rp: int, n: int, np: int)
    requires n > 0 && Bezout(m, rp, n, np)
    ensures Cong(m * rp, 1, n)
  {
    CongIntro(m * rp, 1, n, np);
  }

  lemma MontCompose(o: int, q: int, r: int, b: int, e: nat, f: nat, m: int, rp: int, n: int, np: int)
    requires n > 0 && Bezout(m, rp, n, np)
    requires Represents(o, b, e, m, n) && Represents(q, b, f, m, n) && Cong(r * m, o * q, n)
    ensures Represents(r, b, e + f, m, n)
  {
    CongMul(o, Pow(b, e) * m, q, Pow(b, f) * m, n);
    PowAdd(b, e, f);
    Regroup(Pow(b, e), Pow(b, f), m);
    CongSymTrans(r * m, o * q, Pow(b, e + f) * m * m, n);
    InverseOfRadix(m, rp, n, np);
    CongCancel(r, Pow(b, e + f) * m, m, rp, n);
  }

  lemma Regroup(x: int, y: int, m: int)
    ensures x * m * (y * m) == x * y * m * m
  {
    assert x * m * (y * m) == x * (m * (y * m));
    assert m * (y * m) == y * m * m;
    assert x * (y * m * m) == x * y * m * m;
  }

  lemma MontIn(c: int, r2: int, r: int, m: int, rp: int, n: int, np: int)
    requires n > 0 && Bezout(m, rp, n, np) && Cong(r2, m * m, n) && Cong(r * m, c * r2, n)
    ensures Represents(r, c, 1, m, n)
  {
    CongIntro(c, c, n, 0);
    CongMul(c, c, r2, m * m, n);
    assert c * (m * m) == c * m * m;
    CongSymTrans(r * m, c * r2, c * m * m, n);
    InverseOfRadix(m, rp, n, np);
    CongCancel(r, c * m, m, rp, n);
    assert Pow(c, 1) == c;
  }

  lemma MontOut(o: int, r: int, b: int, e: nat, m: int, rp: int, n: int, np: int)
    requires n > 0 && Bezout(m, rp, n, np) && Represents(o, b, e, m, n) && Cong(r * m, o * 1, n)
    ensures Cong(r, Pow(b, e), n)
  {
    CongSymTrans(r * m, o, Pow(b, e) * m, n);
    InverseOfRadix(m, rp, n, np);
    CongCancel(r, Pow(b, e), m, rp, n);
  }

  // ---------------------------------------------------------------- bits of an exponent

  /** getBit; bits below the first read as zero. */
  function BitOf(l: seq<int>, i: int): int
    requires i < 24 * |l|
  {
    if i < 0 then 0
    else
      PowPositive(2, i % 24);
      l[i / 24] / Pow(2, i % 24) % 2
  }

  lemma BitInFirstLimb(x: int, w: int, i: nat)
    requires 0 <= x && i < 24
    ensures Pow(2, i) > 0 && (x + 0x100_0000 * w) / Pow(2, i) % 2 == x / Pow(2, i) % 2
  {
    SplitRadix(i);
    var m, u, h := Pow(2, i), Pow(2, 24 - i), Pow(2, 23 - i);
    assert u == 2 * h;
    hide Pow;
    ShiftArithmetic(x, w, m, u);
    EvenParts(x / m, w % m, h, w / m);
  }

  lemma EvenParts(a: int, y: int, h: int, z: int)
    ensures (a + y * (2 * h) + 0x100_0000 * z) % 2 == a % 2
  {
    assert y * (2 * h) == 2 * (y * h);
  }

  lemma BitInHigherLimb(x: int, w: int, i: nat)
    requires 0 <= x < 0x100_0000 && i >= 24
    ensures Pow(2, i) > 0 && Pow(2, i - 24) > 0
    ensures (x + 0x100_0000 * w) / Pow(2, i) == w / Pow(2, i - 24)
  {
    PowAdd(2, 24, i - 24);
    PlaceIsPow2(1);
    PowPositive(2, i);
    PowPositive(2, i - 24);
    DivDiv(x + 0x100_0000 * w, 0x100_0000, Pow(2, i - 24));
    DivModUnique(x + 0x100_0000 * w, 0x100_0000, w, x);
  }

  lemma {:induction false} BitOfVal(l: seq<int>, i: nat)
    requires Digits(l) && i < 24 * |l|
    ensures Pow(2, i) > 0 && BitOf(l, i) == Val(l) / Pow(2, i) % 2
  {
    hide Pow;
    PowPositive(2, i);
    if i < 24 {
      BitInFirstLimb(l[0], Val(l[1..]), i);
    } else {
      PowPositive(2, i - 24);
      BitOfVal(l[1..], i - 24);
      assert l[1..][(i - 24) / 24] == l[i / 24] && (i - 24) % 24 == i % 24;
      BitInHigherLimb(l[0], Val(l[1..]), i);
    }
  }

  /** One bit further down, a shifted number doubles and takes in the bit. */
  lemma ShiftBit(x: int, i: nat)
    requires x >= 0
    ensures Pow(2, i) > 0 && Pow(2, i + 1) > 0
    ensures x / Pow(2, i) == 2 * (x / Pow(2, i + 1)) + x / Pow(2, i) % 2
  {
    PowPositive(2, i);
    DivDiv(x, Pow(2, i), 2);
    assert Pow(2, i) * 2 == Pow(2, i + 1);
  }

  // ---------------------------------------------------------------- finding R' and N'

  /** R = 2^s in the top of n limbs is a power of two. */
  lemma CapIsPower(n: nat, s: nat)
    requires n > 0
    ensures Place(n - 1) * Pow(2, s) == Pow(2, 24 * (n - 1) + s)
  {
    PlaceIsPow2(n - 1);
    PowAdd(2, 24 * (n - 1), s);
  }

  /** The loop that halves 2R u - N v: u odd takes in N first, and v then takes in R. */
  lemma BezoutHalve(r: int, n: int, u: int, v: int, k: int)
    requires n % 2 == 1 && 2 * r * u - n * v == 2 * k
    ensures v % 2 == 0
    ensures u % 2 == 0 ==> 2 * r * (u / 2) - n * (v / 2) == k
    ensures u % 2 == 1 ==> (u + n) % 2 == 0 && 2 * r * ((u + n) / 2) - n * (v / 2 + r) == k
  {
    EvenFactor(r, u, n * v, k);
    OddFactor(n, v);
    BezoutHalved(r, n, u, v / 2, k);
  }

  lemma EvenFactor(r: int, u: int, nv: int, k: int)
    requires 2 * r * u - nv == 2 * k
    ensures nv % 2 == 0
  {
    assert 2 * r * u == 2 * (r * u);
  }

  lemma BezoutHalved(r: int, n: int, u: int, h: int, k: int)
    requires n % 2 == 1 && 2 * r * u - n * (2 * h) == 2 * k
    ensures u % 2 == 0 ==> 2 * r * (u / 2) - n * h == k
    ensures u % 2 == 1 ==> (u + n) % 2 == 0 && 2 * r * ((u + n) / 2) - n * (h + r) == k
  {
    TimesTwo(n, h);
    if u % 2 == 0 {
      var w := u / 2;
      TimesTwo(2 * r, w);
    } else {
      var w := (u + n) / 2;
      assert u == 2 * w - n;
      TimesTwo(2 * r, w);
      MulAdd(2 * r, 2 * w, -n);
      MulAdd(n, h, r);
      assert 2 * r * -n == -2 * (n * r) by { Rotate(r, n); }
    }
  }

  lemma TimesTwo(a: int, b: int)
    ensures a * (2 * b) == 2 * (a * b)
  {
  }

  lemma Rotate(r: int, n: int)
    ensures 2 * r * -n == -2 * (n * r)
  {
  }

  lemma OddFactor(n: int, v: int)
    requires n % 2 == 1 && (n * v) % 2 == 0
    ensures v % 2 == 0
  {
    if v % 2 == 1 {
      var a, b := n / 2, v / 2;
      OddTimesOdd(a, b);
    }
  }

  lemma OddTimesOdd(a: int, b: int)
    ensures ((2 * a + 1) * (2 * b + 1)) % 2 == 1
  {
    var c := 2 * b + 1;
    MulAdd(c, 2 * a, 1);
    assert c * (2 * a) == 2 * (c * a);
    assert (2 * a + 1) * c == 2 * (c * a + b) + 1;
  }

  lemma {:induction false} HalveWithin(l: seq<int>, k: int)
    requires k >= 0 && Within(l, k)
    ensures Within(HalveLimbs(l), (k + 0x100_0000) / 2)
  {
  }
}
