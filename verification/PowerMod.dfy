/** bn.powermod: Montgomery when it applies, square-and-multiply from the low bit otherwise. */
module PowerMod {
  import opened Bignum
  import opened Congruence
  import opened Limbs
  import opened Montgomery
  import opened Outcomes
  import opened Primes
  import opened Redc

  /** The state of square-and-multiply before bit k: out holds the low k bits' power. */
  ghost predicate Squaring(out: int, pow: int, b: int, x: int, k: nat, nn: int)
    requires x >= 0
  {
    && nn > 0 && Pow(2, k) > 0 && out >= 0
    && (x % Pow(2, k) > 0 ==> out < nn)
    && Cong(out, Pow(b, x % Pow(2, k)), nn)
    && Cong(pow, Pow(b, Pow(2, k)), nn)
  }

  lemma SquaringStart(b: int, x: int, nn: int)
    requires x >= 0 && nn > 0
    ensures Squaring(1, b, b, x, 0, nn)
  {
    assert Pow(2, 0) == 1 && x % 1 == 0 && Pow(b, 0) == 1 && Pow(b, 1) == b;
    CongIntro(1, 1, nn, 0);
    CongIntro(b, b, nn, 0);
  }

  lemma LowBit(x: int, k: nat)
    requires x >= 0
    ensures Pow(2, k) > 0 && Pow(2, k + 1) > 0
    ensures x % Pow(2, k + 1) == x % Pow(2, k) + (x / Pow(2, k) % 2) * Pow(2, k)
  {
    WindowBit(x, 0, k);
    assert Pow(2, 0) == 1;
    DivModUnique(x, 1, x, 0);
    PowPositive(2, k + 1);
  }

  /** Multiplying in the square for a set bit, or nothing for a clear one. */
  lemma SquaringBit(out: int, pow: int, out': int, b: int, x: int, k: nat, nn: int)
    requires x >= 0 && Squaring(out, pow, b, x, k, nn)
    requires Pow(2, k) > 0
    requires if x / Pow(2, k) % 2 == 0 then out' == out
             else 0 <= out' < nn && Cong(out', out * pow, nn)
    ensures Pow(2, k + 1) > 0 && out' >= 0 && (x % Pow(2, k + 1) > 0 ==> out' < nn)
    ensures Cong(out', Pow(b, x % Pow(2, k + 1)), nn)
  {
    LowBit(x, k);
    var e, p := x % Pow(2, k), Pow(2, k);
    hide Pow;
    if x / p % 2 == 1 {
      CongMul(out, Pow(b, e), pow, Pow(b, p), nn);
      PowAdd(b, e, p);
      CongSymTrans(out', out * pow, Pow(b, e + p), nn);
    }
  }

  lemma SquaringSquare(pow: int, pow': int, b: int, k: nat, nn: int)
    requires nn > 0 && Pow(2, k) > 0 && Cong(pow, Pow(b, Pow(2, k)), nn) && Cong(pow', pow * pow, nn)
    ensures Pow(2, k + 1) > 0 && Cong(pow', Pow(b, Pow(2, k + 1)), nn)
  {
    var p := Pow(2, k);
    assert Pow(2, k + 1) == p + p;
    CongMul(pow, Pow(b, p), pow, Pow(b, p), nn);
    PowAdd(b, p, p);
    CongSymTrans(pow', pow * pow, Pow(b, p + p), nn);
  }

  /** No bit at or above k: the low k bits are the whole number. */
  lemma AllBits(x: int, k: nat)
    requires 0 <= x < Pow(2, k)
    ensures x % Pow(2, k) == x
  {
    DivModUnique(x, Pow(2, k), 0, x);
  }

  /** In the last limb, the source stops once no higher bit is left. */
  lemma NoHigherBit(l: seq<int>, j: nat)
    requires Digits(l) && l != [] && j < 24 && Pow(2, j + 1) > 0 && l[|l| - 1] / Pow(2, j + 1) == 0
    ensures Val(l) < Pow(2, 24 * (|l| - 1) + j + 1)
  {
    SmallQuotient(l[|l| - 1], Pow(2, j + 1));
    ModulusBelow(l, j);
    RadixIs(|l|, j);
    CapIsPower(|l|, j + 1);
  }

  /** Step or stop: both ends of the loop body in one place. */
  lemma SquaringStep(out: int, pow: int, pow': int, b: int, x: int, k: nat, nn: int)
    requires x >= 0 && nn > 0 && Pow(2, k + 1) > 0 && Pow(2, k) > 0
    requires out >= 0 && (x % Pow(2, k + 1) > 0 ==> out < nn) && Cong(out, Pow(b, x % Pow(2, k + 1)), nn)
    requires Cong(pow, Pow(b, Pow(2, k)), nn) && Cong(pow', pow * pow, nn)
    ensures Squaring(out, pow', b, x, k + 1, nn)
  {
    SquaringSquare(pow, pow', b, k, nn);
  }

  /** One limb of the exponent, with the early exit in the last one. */
  method PowerLimb(out0: Bn, pow0: Bn, l: seq<int>, i: nat, N: Bn, ghost b: int)
    returns (out: Bn, pow: Bn)
    requires Digits(l) && i < |l| && Digits(out0.limbs) && Digits(pow0.limbs) && Digits(N.limbs) && N.V() > 0
    requires Val(l) >= 0 && Squaring(out0.V(), pow0.V(), b, Val(l), 24 * i, N.V())
    ensures Digits(out.limbs) && Digits(pow.limbs)
    ensures out == out0 || fresh(out)
    ensures Val(l) == 0 ==> out == out0
    ensures i < |l| - 1 ==> Squaring(out.V(), pow.V(), b, Val(l), 24 * (i + 1), N.V())
    ensures i == |l| - 1 ==> out.V() >= 0 && Cong(out.V(), Pow(b, Val(l)), N.V())
                             && (Val(l) > 0 ==> out.V() < N.V())
  {
    hide Pow, Val, Cong, Digits, BitOf, Squaring;
    ghost var X := Val(l);
    out, pow := out0, pow0;
    var j, done := 0, false;
    while j < 24 && !done
      invariant 0 <= j <= 24
      invariant Digits(out.limbs) && Digits(pow.limbs) && (out == out0 || fresh(out))
      invariant X == 0 ==> out == out0
      invariant !done ==> Squaring(out.V(), pow.V(), b, X, 24 * i + j, N.V())
      invariant done ==> out.V() >= 0 && Cong(out.V(), Pow(b, X), N.V()) && (X > 0 ==> out.V() < N.V())
      invariant i == |l| - 1 ==> done || j < 24
      invariant done ==> i == |l| - 1
      decreases !done, 24 - j
    {
      ghost var k, p := 24 * i + j, pow.V();
      out := MultiplyBit(out, pow, l, i, j, N, b);
      PowPositive(2, j + 1);
      DigitAt(l, i);
      if j == 23 { TopExhausted(l[i], 24); }
      if i == |l| - 1 && l[i] / Pow(2, j + 1) == 0 {
        NoHigherBit(l, j);
        AllBits(X, k + 1);
        done := true;
      } else {
        pow := pow.MulMod(pow, N);
        SquaringStep(out.V(), p, pow.V(), b, X, k, N.V());
        j := j + 1;
      }
    }
  }

  lemma DigitAt(l: seq<int>, i: nat)
    requires Digits(l) && i < |l|
    ensures 0 <= l[i] < 0x100_0000
  {
  }

  /** The multiplication for one exponent bit. */
  method MultiplyBit(out0: Bn, pow: Bn, l: seq<int>, i: nat, j: nat, N: Bn, ghost b: int) returns (out: Bn)
    requires Digits(l) && i < |l| && j < 24
    requires Digits(out0.limbs) && Digits(pow.limbs) && Digits(N.limbs) && N.V() > 0
    requires Val(l) >= 0 && Squaring(out0.V(), pow.V(), b, Val(l), 24 * i + j, N.V())
    ensures Digits(out.limbs) && (out == out0 || fresh(out)) && (Val(l) == 0 ==> out == out0)
    ensures Pow(2, 24 * i + j) > 0 && Pow(2, 24 * i + j + 1) > 0 && out.V() >= 0
    ensures Val(l) % Pow(2, 24 * i + j + 1) > 0 ==> out.V() < N.V()
    ensures Cong(out.V(), Pow(b, Val(l) % Pow(2, 24 * i + j + 1)), N.V())
    ensures Cong(pow.V(), Pow(b, Pow(2, 24 * i + j)), N.V())
  {
    hide Pow, Val, Cong, Digits, BitOf;
    ghost var k := 24 * i + j;
    BitOfVal(l, k);
    BitOfLimb(l, i, j);
    ZeroBits(Pow(2, k));
    out := out0;
    if BitOf(l, 24 * i + j) != 0 { out := out.MulMod(pow, N); }
    SquaringBit(out0.V(), pow.V(), out.V(), b, Val(l), k, N.V());
  }

  lemma ZeroBits(p: int)
    requires p > 0
    ensures 0 / p % 2 == 0
  {
    DivModUnique(0, p, 0, 0);
  }

  lemma BitOfLimb(l: seq<int>, i: nat, j: nat)
    requires i < |l| && j < 24
    ensures 24 * i + j < 24 * |l| && Pow(2, j) > 0 && BitOf(l, 24 * i + j) == l[i] / Pow(2, j) % 2
  {
    PowPositive(2, j);
    assert (24 * i + j) / 24 == i && (24 * i + j) % 24 == j;
  }

  lemma TopExhausted(t: int, j: nat)
    requires 0 <= t < 0x100_0000 && j == 24
    ensures Pow(2, j) > 0 && t / Pow(2, j) == 0
  {
    PlaceIsPow2(1);
    DivModUnique(t, Pow(2, j), 0, t);
  }

  /** The slow path of powermod; exponent 0 gives 1 without a reduction. */
  method SlowPowerMod(base: Bn, x: Bn, N: Bn) returns (out: Bn)
    requires Digits(base.limbs) && Digits(x.limbs) && x.limbs != [] && Digits(N.limbs) && N.V() > 0
    ensures fresh(out) && Digits(out.limbs) && out.V() >= 0
    ensures x.V() >= 0 && Cong(out.V(), Pow(base.V(), x.V()), N.V())
    ensures x.V() > 0 ==> out.V() < N.V()
    ensures x.V() == 0 ==> out.V() == 1
  {
    hide Pow, Val, Cong, Digits;
    ghost var b, X := base.V(), x.V();
    ValDigitsBound(x.limbs);
    SmallValues();
    SquaringStart(b, X, N.V());
    out := new Bn([1]);
    var pow := base;
    var i := 0;
    while i < |x.limbs|
      invariant 0 <= i <= |x.limbs|
      invariant Digits(out.limbs) && Digits(pow.limbs) && fresh(out) && (X == 0 ==> out.V() == 1)
      invariant i < |x.limbs| ==> Squaring(out.V(), pow.V(), b, X, 24 * i, N.V())
      invariant i == |x.limbs| ==> out.V() >= 0 && Cong(out.V(), Pow(b, X), N.V()) && (X > 0 ==> out.V() < N.V())
    {
      out, pow := PowerLimb(out, pow, x.limbs, i, N, b);
      i := i + 1;
    }
  }

  lemma ResidueZero(m: int, p: int, n: int)
    requires n > 0 && Cong(m, p, n)
    ensures 0 <= m < n ==> (m == 0 <==> p % n == 0)
  {
    CongIffMod(m, p, n);
    if 0 <= m < n { DivModUnique(m, n, 0, m); }
  }

  /** Modulo a prime only a power of 0 is 0. */
  lemma PowerOfPrime(b: int, x: nat, p: int)
    requires 0 <= b < p && x > 0 && Prime(p)
    ensures Pow(b, x) % p == 0 <==> b == 0
  {
    PowerDivides(b, x, p);
    DivModUnique(b, p, 0, b);
  }

  /** The modulus is odd and the search for R succeeds. */
  predicate MontgomeryTaken(n: seq<int>) {
    Val(n) % 2 == 1 && n != [] && n[|n| - 1] != 1
  }

  /** Every prime but 2 that is not 1 in its top limb takes the Montgomery path. */
  lemma PrimeTaken(n: seq<int>)
    requires n != [] && Prime(Val(n))
    ensures MontgomeryTaken(n) <==> Val(n) != 2 && n[|n| - 1] != 1
  {
    if Val(n) % 2 == 0 { assert Divides(2, Val(n)); }
  }

  /** m != false: both sides become numbers, m by way of its hex string, which normalizes it. */
  method PrintsZero(m: Bn) returns (isZero: bool)
    requires Within(m.limbs, 0x200_0000) && m.V() >= 0
    modifies m
    ensures isZero == (m.V() == 0) && m.V() == old(m.V()) && Digits(m.limbs)
  {
    hide Val, NormalForm;
    var zero := new Bn([0]);
    SmallValues();
    DigitsWithin(zero.limbs);
    FactorWithin(m.limbs);
    isZero := m.Equals(zero);
  }

  /** this ^ x mod N; None is where the source throws. For odd N the Montgomery result is
      first compared with `false`, which prints it as hex: a zero goes on to the slow path,
      but a zero left without limbs cannot be printed. Exponent 0 returns a nonzero base. */
  method PowerMod(base: Bn, x0: Bn, N0: Bn) returns (r: Option<Bn>)
    requires Digits(base.limbs) && Digits(N0.limbs) && N0.V() > 0
    requires Within(x0.limbs, LIMB_MAX) && x0.V() >= 0
    requires Trimmed(base.limbs) && Trimmed(N0.limbs) && base != x0 && base != N0
    modifies base
    ensures Digits(base.limbs) && base.V() == old(base.V())
    ensures r.Some? ==> Digits(r.value.limbs) && (r.value == base || fresh(r.value))
    ensures x0.V() == 0 ==> r.Some? && r.value.V() == (if N0.V() % 2 == 1 && base.V() != 0 then base.V() else 1)
    ensures x0.V() > 0 && r.Some? ==>
              r.value.V() >= 0 && Cong(r.value.V(), Pow(base.V(), x0.V()), N0.V())
              && (base.V() < N0.V() ==> r.value.V() < N0.V())
    ensures x0.V() > 0 && base.V() < N0.V() ==>
              (r.None? <==> MontgomeryTaken(N0.limbs) && |N0.limbs| > 1 && Pow(base.V(), x0.V()) % N0.V() == 0)
    ensures x0.V() > 0 && FarAbove(base.V(), N0.V()) && MontgomeryTaken(N0.limbs) ==>
              r.Some? && r.value.V() >= N0.V()
  {
    hide Pow, Val, Cong, NormalForm, FarAbove;
    ghost var b, X, nn := base.V(), x0.V(), N0.V();
    ValDigitsBound(base.limbs);
    SmallValues();
    var x := new Bn(x0.limbs);
    var N := new Bn(N0.limbs);
    DigitsWithin(N.limbs);
    var odd := N.IsOdd();
    if odd {
      var mont := MontPowerMod(base, x, N);
      if mont.Some? {
        var m := mont.value;
        if X > 0 { ResidueZero(m.V(), Pow(b, X), nn); }
        if m.limbs == [] { return None; }
        var isZero := PrintsZero(m);
        if !isZero { return Some(m); }
      }
    }
    x.Normalize();
    NormalNonNegative(x.limbs);
    var out := SlowPowerMod(base, x, N);
    return Some(out);
  }
}
