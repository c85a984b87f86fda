/** bn.power: square-and-multiply over the integers, from the low bit of the exponent. */
module ExactPower {
  import opened Bignum
  import opened Congruence
  import opened Limbs
  import opened PowerMod
  import opened Redc

  /** Before bit k: out is the power of the low k bits, pow that of 2^k. */
  ghost predicate Powers(out: int, pow: int, b: int, x: int, k: nat) {
    x >= 0 && Pow(2, k) > 0 && out == Pow(b, x % Pow(2, k)) && pow == Pow(b, Pow(2, k))
  }

  lemma PowersStart(b: int, x: int)
    requires x >= 0
    ensures Powers(1, b, b, x, 0)
  {
    assert Pow(2, 0) == 1 && x % 1 == 0 && Pow(b, 0) == 1 && Pow(b, 1) == b;
  }

  /** The product for one bit. */
  lemma PowersBit(out: int, pow: int, b: int, x: int, k: nat)
    requires Powers(out, pow, b, x, k) && Pow(2, k) > 0
    ensures Pow(2, k + 1) > 0
    ensures (if x / Pow(2, k) % 2 == 0 then out else out * pow) == Pow(b, x % Pow(2, k + 1))
    ensures pow * pow == Pow(b, Pow(2, k + 1))
  {
    LowBit(x, k);
    var e, p := x % Pow(2, k), Pow(2, k);
    assert Pow(2, k + 1) == p + p;
    hide Pow;
    BitPower(b, e, p, x / p % 2);
    PowAdd(b, p, p);
  }

  lemma BitPower(b: int, e: nat, p: nat, d: nat)
    requires d < 2
    ensures d * p >= 0 && (if d == 0 then Pow(b, e) else Pow(b, e) * Pow(b, p)) == Pow(b, e + d * p)
  {
    hide Pow;
    if d == 1 { PowAdd(b, e, p); }
  }

  lemma PowersNext(out: int, pow: int, b: int, x: int, k: nat)
    requires x >= 0 && Pow(2, k) > 0 && out == Pow(b, x % Pow(2, k)) && pow == Pow(b, Pow(2, k))
    ensures Powers(out, pow, b, x, k)
  {
  }

  /** One limb of the exponent, with the early exit in the last one. */
  method PowerByLimb(out0: Bn, pow0: Bn, l: seq<int>, i: nat, ghost b: int) returns (out: Bn, pow: Bn)
    requires Digits(l) && i < |l| && Within(out0.limbs, LIMB_MAX) && Within(pow0.limbs, LIMB_MAX)
    requires Val(l) >= 0 && Powers(out0.V(), pow0.V(), b, Val(l), 24 * i)
    modifies out0, pow0
    ensures Within(out.limbs, LIMB_MAX) && Within(pow.limbs, LIMB_MAX)
    ensures (out == out0 || fresh(out)) && (pow == pow0 || fresh(pow)) && pow0.V() == old(pow0.V())
    ensures i < |l| - 1 ==> Powers(out.V(), pow.V(), b, Val(l), 24 * (i + 1))
    ensures i == |l| - 1 ==> out.V() == Pow(b, Val(l))
  {
    hide Pow, Val, Digits, Within, BitOf, Powers, Normal;
    ghost var X := Val(l);
    out, pow := out0, pow0;
    var j, done := 0, false;
    DigitAt(l, i);
    while j < 24 && !done
      invariant 0 <= j <= 24
      invariant Within(out.limbs, LIMB_MAX) && Within(pow.limbs, LIMB_MAX)
      invariant (out == out0 || fresh(out)) && (pow == pow0 || fresh(pow)) && pow0.V() == old(pow0.V())
      invariant !done ==> Powers(out.V(), pow.V(), b, X, 24 * i + j)
      invariant done ==> out.V() == Pow(b, X)
      invariant i == |l| - 1 ==> done || j < 24
      invariant done ==> i == |l| - 1
      decreases !done, 24 - j
    {
      ghost var k := 24 * i + j;
      PowersParts(out.V(), pow.V(), b, X, k);
      PowersBit(out.V(), pow.V(), b, X, k);
      BitOfVal(l, k);
      BitOfLimb(l, i, j);
      if BitOf(l, 24 * i + j) != 0 {
        out := Product(out, pow);
      }
      PowPositive(2, j + 1);
      if j == 23 { TopExhausted(l[i], 24); }
      if i == |l| - 1 && l[i] / Pow(2, j + 1) == 0 {
        NoHigherBit(l, j);
        AllBits(X, k + 1);
        done := true;
      } else {
        pow := Product(pow, pow);
        PowersNext(out.V(), pow.V(), b, X, k + 1);
        j := j + 1;
      }
    }
  }

  lemma PowersParts(out: int, pow: int, b: int, x: int, k: nat)
    requires Powers(out, pow, b, x, k)
    ensures x >= 0 && Pow(2, k) > 0
  {
  }

  /** mul, of which only the values matter here. */
  method Product(a: Bn, c: Bn) returns (r: Bn)
    requires Within(a.limbs, LIMB_MAX) && Within(c.limbs, LIMB_MAX)
    modifies a, c
    ensures fresh(r) && r.V() == old(a.V() * c.V()) && Within(r.limbs, LIMB_MAX)
    ensures a.V() == old(a.V()) && c.V() == old(c.V())
    ensures Within(a.limbs, LIMB_MAX) && Within(c.limbs, LIMB_MAX)
  {
    hide Val, Within, Normal;
    r := a.Mul(c);
    NormalFits(a.limbs);
    NormalFits(c.limbs);
    WithinWider(r.limbs);
  }

  lemma NormalFits(l: seq<int>)
    requires Normal(l)
    ensures Within(l, LIMB_MAX)
  {
    forall i | 0 <= i < |l| ensures -LIMB_MAX <= l[i] <= LIMB_MAX {
      if i < |l| - 1 { assert l[i] == l[..|l| - 1][i]; }
    }
  }

  /** power. */
  method Power(base: Bn, x: Bn) returns (out: Bn)
    requires Within(base.limbs, LIMB_MAX) && Digits(x.limbs) && x.limbs != [] && x != base
    modifies base
    ensures x.V() >= 0 && base.V() == old(base.V()) && out.V() == Pow(base.V(), x.V())
  {
    hide Pow, Val, Digits, Within, Powers;
    ghost var b, X := base.V(), x.V();
    ValDigitsBound(x.limbs);
    PowersStart(b, X);
    out := new Bn([1]);
    OneLimb();
    var pow := base;
    var i := 0;
    while i < |x.limbs|
      invariant 0 <= i <= |x.limbs| && x.limbs == old(x.limbs)
      invariant Within(out.limbs, LIMB_MAX) && Within(pow.limbs, LIMB_MAX)
      invariant fresh(out) && (pow == base || fresh(pow)) && base.V() == b
      invariant i < |x.limbs| ==> Powers(out.V(), pow.V(), b, X, 24 * i)
      invariant i == |x.limbs| ==> out.V() == Pow(b, X)
    {
      out, pow := PowerByLimb(out, pow, x.limbs, i, b);
      i := i + 1;
    }
  }

  lemma OneLimb()
    ensures Within([1], LIMB_MAX) && Val([1]) == 1
  {
    assert [1][1..] == [];
  }
}
