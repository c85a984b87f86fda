/** bn.montpowermod: Montgomery products and sliding-window exponentiation over limbs. */
module Montgomery {
  import opened Bignum
  import opened Congruence
  import opened JsNumber
  import opened Limbs
  import opened LimbProduct
  import opened Outcomes
  import opened Redc

  /** 2R, for R = 2^s in the top of n limbs. */
  function Radix(n: nat, s: nat): (m: int)
    requires n > 0
    ensures m > 0
  {
    PlacePositive(n - 1);
    PowPositive(2, s + 1);
    MulMono(1, Pow(2, s + 1), Place(n - 1));
    Place(n - 1) * Pow(2, s + 1)
  }

  /** What montMul closes over: the modulus N, N' with 2R R' - N N' = 1, and R's shape. */
  ghost predicate Setting(N: Bn, NP: Bn, n: nat, s: nat, rp: int)
    reads N, NP
  {
    && N != NP && n > 0 && s <= 23
    && Digits(N.limbs) && Digits(NP.limbs)
    && 0 < N.V() < Radix(n, s)
    && Bezout(Radix(n, s), rp, N.V(), NP.V())
  }

  /** A non-negative factor, possibly left uncarried by a final subtraction. */
  ghost predicate Factor(a: Bn)
    reads a
  {
    Within(a.limbs, 0x200_0000) && a.V() >= 0
  }

  lemma FactorWithin(l: seq<int>)
    requires Within(l, 0x200_0000)
    ensures Within(l, LIMB_MAX)
  {
  }

  lemma NormalFactor(l: seq<int>)
    requires Normal(l)
    ensures Within(l, 0x200_0000)
  {
    NormalWithin(l);
  }

  lemma MulNonNegative(x: int, y: int)
    requires x >= 0 && y >= 0
    ensures x * y >= 0
  {
  }

  lemma FinalSubtraction(q: int, m: int, c: int, n: int)
    requires n > 0 && Cong(q * m, c, n)
    ensures Cong((q - n) * m, c, n)
  {
    assert (q - n) * m - q * m == (-m) * n;
    CongIntro((q - n) * m, q * m, n, -m);
    CongSymTrans((q - n) * m, q * m, c, n);
  }

  lemma RadixIs(n: nat, s: nat)
    requires n > 0
    ensures Radix(n, s) == Place(n - 1) * Pow(2, s + 1)
  {
  }

  lemma DifferenceWithin(a: seq<int>, b: seq<int>)
    requires Digits(a) && Digits(b)
    ensures Within(SubLimbs(a, b), 0x200_0000)
  {
  }

  /** The quotient keeps no limb exactly when a sum of zero loses its only one. */
  lemma EmptySlice(l: seq<int>, n: nat, s: nat, c: int, nn: int, np: int)
    requires n > 0 && Digits(l) && Trimmed(l) && c >= 0 && nn > 0
    requires Val(l) == c + (c * np % Radix(n, s)) * nn && Val(l) % Radix(n, s) == 0
    ensures Slice(l, n - 1) == [] <==> n > 1 && c == 0
  {
    MulMono(0, c * np % Radix(n, s), nn);
    if c == 0 {
      DivModUnique(0, Radix(n, s), 0, 0);
      TopLimbNonzero(l);
      PlacePositive(|l| - 1);
      assert |l| == 1;
    } else {
      assert Val(l) >= Radix(n, s) by { SmallMultipleOf(Val(l), Radix(n, s)); }
      PowPositive(2, s);
      MulMono(2, Pow(2, s + 1), Place(n - 1));
      ValDigitsBound(l);
      PlacePositive(n - 1);
      if |l| <= n - 1 { PlaceNondecreasing(|l|, n - 1); }
    }
  }

  lemma PlaceNondecreasing(a: nat, b: nat)
    requires a <= b
    ensures Place(a) <= Place(b)
  {
    if a < b { PlaceMonotone(a, b); }
  }

  lemma SmallMultipleOf(v: int, m: int)
    requires m > 0 && v > 0 && v % m == 0
    ensures v >= m
  {
  }

  /** right.limbs = right.limbs.slice(0, n), the top limb masked to s + 1 bits. */
  method KeepLow(right: Bn, n: nat, s: nat)
    requires Digits(right.limbs) && n > 0 && s <= 23
    modifies right
    ensures right.V() == old(right.V()) % Radix(n, s) && Digits(right.limbs)
  {
    LowPartValue(right.limbs, n, s + 1);
    ghost var low := LowPart(right.limbs, n, s + 1);
    right.limbs := right.limbs[..if n < |right.limbs| then n else |right.limbs|];
    if |right.limbs| == n {
      right.limbs := right.limbs[n - 1 := LowBits(right.limbs[n - 1], s + 1)];
    }
    assert right.limbs == low;
  }

  /** The division loop: equivalent to calling halveM s + 1 times. */
  method ShiftDown(t: Bn, s: nat)
    requires Digits(t.limbs) && s <= 23
    modifies t
    ensures t.limbs == ShiftLimbs(old(t.limbs), s + 1)
  {
    hide Pow, Shifting, ShiftLimbs, Val;
    ghost var l := t.limbs;
    var k := 0;
    ShiftingEnds(l, s + 1);
    while k < |t.limbs|
      invariant 0 <= k <= |t.limbs| == |l|
      invariant Shifting(l, t.limbs, k, s + 1)
    {
      ShiftingStep(l, t.limbs, k, s + 1);
      if k > 0 {
        t.limbs := t.limbs[k - 1 := OrAbove(t.limbs[k - 1], LowBits(t.limbs[k], s + 1), 23 - s)];
      }
      t.limbs := t.limbs[k := Shr(t.limbs[k], s + 1)];
      k := k + 1;
    }
    ShiftingDone(l, t.limbs, s + 1);
  }

  /** montMul: a * b / 2R modulo N, with at most one final subtraction. */
  method MontMul(a: Bn, b: Bn, N: Bn, NP: Bn, n: nat, s: nat, ghost rp: int) returns (r: Bn)
    requires n > 0 && Setting(N, NP, n, s, rp) && Factor(a) && Factor(b) && {a, b} !! {N, NP}
    modifies a, b, N, NP
    ensures Setting(N, NP, n, s, rp) && N.V() == old(N.V()) && NP.V() == old(NP.V())
    ensures Factor(a) && Factor(b) && a.V() == old(a.V()) && b.V() == old(b.V())
    ensures fresh(r) && Factor(r) && Cong(r.V() * Radix(n, s), a.V() * b.V(), N.V())
    ensures a.V() * b.V() < N.V() * Radix(n, s) ==> r.V() < N.V()
    ensures r.V() * Radix(n, s) >= a.V() * b.V() - N.V() * Radix(n, s)
    ensures r.limbs == [] <==> n > 1 && a.V() * b.V() == 0
  {
    hide Val, Radix, Cong;
    ghost var m := Radix(n, s);
    FactorWithin(a.limbs);
    FactorWithin(b.limbs);
    var ab := a.Mul(b);
    NormalFactor(a.limbs);
    NormalFactor(b.limbs);
    MulNonNegative(a.V(), b.V());
    r := ReduceProduct(ab, N, NP, n, s, rp);
  }

  /** montMul after its first product: add the multiple of N that 2R divides, and divide. */
  method ReduceProduct(ab: Bn, N: Bn, NP: Bn, n: nat, s: nat, ghost rp: int) returns (r: Bn)
    requires n > 0 && Setting(N, NP, n, s, rp) && Digits(ab.limbs) && ab != N && ab != NP
    modifies ab, N, NP
    ensures Setting(N, NP, n, s, rp) && N.V() == old(N.V()) && NP.V() == old(NP.V())
    ensures fresh(r) && Factor(r) && Cong(r.V() * Radix(n, s), old(ab.V()), N.V())
    ensures old(ab.V()) < N.V() * Radix(n, s) ==> r.V() < N.V()
    ensures r.V() * Radix(n, s) >= old(ab.V()) - N.V() * Radix(n, s)
    ensures r.limbs == [] <==> n > 1 && old(ab.V()) == 0
  {
    hide Val, Radix, Cong, Digits, Within, Place, Bezout, Slice;
    ghost var m, c, nn := Radix(n, s), ab.V(), N.V();
    ValDigitsBound(ab.limbs);
    var right := ab.MulDigits(NP);
    KeepLow(right, n, s);
    var rightN := right.MulDigits(N);
    r := ab.PlusDigits(rightN);
    RedcStep(c, nn, NP.V(), m, rp);
    EmptySlice(r.limbs, n, s, c, nn, NP.V());
    ghost var t := r.V();
    AddsMultiple(c, c * NP.V() % m, nn);
    DivideOut(r, N, n, s, c);
    QuotientBelow(r.V(), t, c, nn, m);
  }

  lemma AddsMultiple(c: int, u: int, n: int)
    requires u >= 0 && n >= 0
    ensures c + u * n >= c
  {
    MulMono(0, u, n);
  }

  /** One subtraction of n takes at most n m off the exact quotient. */
  lemma QuotientBelow(r: int, t: int, c: int, n: int, m: int)
    requires m > 0 && t == t / m * m && t >= c && r >= t / m - n
    ensures r * m >= c - n * m
  {
    MulMono(t / m - n, r, m);
    MulAdd(m, t / m, -n);
  }

  /** montMul's division by 2R and its one conditional subtraction. */
  method DivideOut(r: Bn, N: Bn, n: nat, s: nat, ghost c: int)
    requires n > 0 && r != N && Digits(r.limbs) && Digits(N.limbs) && N.V() > 0 && s <= 23
    requires Cong(r.V() / Radix(n, s) * Radix(n, s), c, N.V())
    modifies r
    ensures Factor(r) && Cong(r.V() * Radix(n, s), c, N.V())
    ensures old(r.V()) / Radix(n, s) < 2 * N.V() ==> r.V() < N.V()
    ensures r.V() >= old(r.V()) / Radix(n, s) - N.V()
    ensures r.limbs == [] <==> Slice(old(r.limbs), n - 1) == []
  {
    hide Val, Radix, Cong, Digits, Within, Place, Slice;
    ghost var m := Radix(n, s);
    QuotientValue(r.limbs, n, s + 1);
    RadixIs(n, s);
    SliceDigits(r.limbs, n - 1);
    SliceIs(r.limbs, n - 1);
    r.limbs := if n - 1 <= |r.limbs| then r.limbs[n - 1..] else [];
    ShiftDown(r, s);
    var ge := r.Reaches(N);
    DigitsWithin(r.limbs);
    DigitsWithin(N.limbs);
    ValDigitsBound(r.limbs);
    if ge {
      FinalSubtraction(r.V(), m, c, N.V());
      DifferenceWithin(r.limbs, N.limbs);
      NotEmpty(r.limbs);
      r.SubM(N);
    }
  }

  lemma SliceIs(l: seq<int>, k: nat)
    ensures Slice(l, k) == if k <= |l| then l[k..] else []
  {
  }

  lemma NotEmpty(l: seq<int>)
    requires Val(l) > 0
    ensures l != []
  {
  }

  /** bits of x above place i, as an exponent. */
  function Above(x: int, i: int): (e: nat)
    requires x >= 0 && i >= -1
    ensures i == -1 ==> e == x
  {
    PowPositive(2, i + 1);
    x / Pow(2, i + 1)
  }

  /** The position of the highest set bit of N's top limb, and R = 2^s there; when the top
      limb is 1 the source's search ends with s = 0 and R left at zero. */
  method CapOf(N: Bn) returns (R: Bn, s: nat)
    requires Digits(N.limbs) && Trimmed(N.limbs) && N.V() > 0
    ensures fresh(R) && Digits(R.limbs) && |R.limbs| == |N.limbs| && s <= 23
    ensures s == 0 <==> N.limbs[|N.limbs| - 1] == 1
    ensures s == 0 ==> R.V() == 0
    ensures s > 0 ==> R.V() == Pow(2, 24 * (|N.limbs| - 1) + s) && N.V() < Radix(|N.limbs|, s) <= 2 * N.V()
  {
    ghost var n := |N.limbs|;
    var top := N.limbs[|N.limbs| - 1];
    if top == 0 { TrimmedZero(N.limbs); }
    R := new Bn(seq(|N.limbs|, _ => 0));
    ValZeros(R.limbs);
    s := 24;
    PlaceIsPow2(1);
    while s > 0
      invariant 0 <= s <= 24 && R.limbs == seq(n, _ => 0) && R.V() == 0
      invariant top < Pow(2, s + 1)
    {
      PowPositive(2, s);
      if Shr(top, s) % 2 == 1 { break; }
      TopBitClear(top, s);
      s := s - 1;
    }
    if s > 0 {
      TopBitSet(top, s);
      R.limbs := R.limbs[|R.limbs| - 1 := Pow(2, s)];
      CapValue(R.limbs, n, s);
      ModulusBelow(N.limbs, s);
      ModulusAbove(N.limbs, s);
    }
  }

  lemma TopBitClear(t: int, s: nat)
    requires 0 <= t < Pow(2, s + 1) && Pow(2, s) > 0 && t / Pow(2, s) % 2 == 0
    ensures t < Pow(2, s)
  {
    if t >= Pow(2, s) { DivModUnique(t, Pow(2, s), 1, t - Pow(2, s)); }
  }

  lemma TopBitSet(t: int, s: nat)
    requires 0 <= t < 0x100_0000 && 0 < s <= 24 && Pow(2, s) > 0 && t / Pow(2, s) % 2 == 1
    ensures Pow(2, s) <= t && s <= 23 && 2 <= Pow(2, s) < 0x100_0000
  {
    if t < Pow(2, s) { DivModUnique(t, Pow(2, s), 0, t); }
    PlaceIsPow2(1);
    PowNondecreasing(1, s);
  }

  lemma CapValue(l: seq<int>, n: nat, s: nat)
    requires n > 0 && |l| == n && l[n - 1] == Pow(2, s) && forall k :: 0 <= k < n - 1 ==> l[k] == 0
    ensures Val(l) == Pow(2, 24 * (n - 1) + s)
  {
    ValTop(l);
    ValZeros(l[..n - 1]);
    CapIsPower(n, s);
  }

  lemma ModulusBelow(l: seq<int>, s: nat)
    requires Digits(l) && l != [] && l[|l| - 1] < Pow(2, s + 1)
    ensures Val(l) < Radix(|l|, s)
  {
    hide Pow, Place;
    var p := Place(|l| - 1);
    ValTop(l);
    ValDigitsBound(l[..|l| - 1]);
    MulMono(l[|l| - 1], Pow(2, s + 1) - 1, p);
    MulAdd(p, Pow(2, s + 1), -1);
  }

  lemma ModulusAbove(l: seq<int>, s: nat)
    requires Digits(l) && l != [] && l[|l| - 1] >= Pow(2, s)
    ensures Radix(|l|, s) <= 2 * Val(l)
  {
    var p := Place(|l| - 1);
    PlacePositive(|l| - 1);
    ValTop(l);
    ValDigitsBound(l[..|l| - 1]);
    assert Pow(2, s + 1) == 2 * Pow(2, s);
    hide Pow, Place, Val;
    MulMono(Pow(2, s), l[|l| - 1], p);
    TimesTwo(p, Pow(2, s));
  }

  /** The search for R' and N': 2R u - N v is halved until it is 1. */
  method FindBezout(R: Bn, N: Bn, ghost k: nat) returns (RP: Bn, NP: Bn)
    requires Digits(R.limbs) && Digits(N.limbs) && N.V() % 2 == 1
    requires R.V() == 0 || R.V() == Pow(2, k)
    ensures fresh(RP) && fresh(NP) && RP != NP
    ensures Digits(RP.limbs) && Digits(NP.limbs)
    ensures R.V() == 0 ==> RP.V() == 1 && NP.V() == 0
    ensures R.V() > 0 ==> Bezout(2 * R.V(), RP.V(), N.V(), NP.V())
  {
    hide Val, Pow, HalveLimbs, NormalForm, Digits, Within;
    RP := new Bn([1]);
    NP := new Bn([0]);
    var RT := new Bn(R.limbs);
    var one := new Bn([1]);
    SmallValues();
    WithinOne();
    PowZeroOne(k);
    ValDigitsBound(N.limbs);
    ghost var j := if R.V() == 0 then -1 else k;
    var ge := RT.Reaches(one);
    while ge
      invariant fresh({RP, NP, RT}) && RP != NP && RP != RT && NP != RT && one !in {RP, NP, RT}
      invariant Within(RP.limbs, 0x200_0000) && Within(NP.limbs, 0x400_0000)
      invariant RP.V() >= 0 && NP.V() >= 0 && Digits(RT.limbs) && one.V() == 1 && Digits(one.limbs)
      invariant j >= -1 && RT.V() == PowOrZero(j) && ge == (j >= 0)
      invariant R.V() == 0 ==> RP.V() == 1 && NP.V() == 0 && j == -1
      invariant R.V() > 0 ==> 2 * R.V() * RP.V() - N.V() * NP.V() == PowOrZero(j + 1)
      decreases j
    {
      PowOrZeroStep(j);
      BezoutHalve(R.V(), N.V(), RP.V(), NP.V(), PowOrZero(j));
      DigitsWithin(RT.limbs);
      RT.HalveM();
      HalveCofactors(RP, NP, R, N);
      j := j - 1;
      ge := RT.Reaches(one);
    }
    PowZero();
    CofactorWithin(RP.limbs, NP.limbs);
    RP.Normalize();
    NP.Normalize();
    NormalNonNegative(RP.limbs);
    NormalNonNegative(NP.limbs);
  }

  /** 2^j, and 0 below the first power. */
  function PowOrZero(j: int): int {
    if j < 0 then 0 else Pow(2, j)
  }

  lemma PowOrZeroStep(j: int)
    requires j >= 0
    ensures PowOrZero(j + 1) == 2 * PowOrZero(j) && PowOrZero(j) / 2 == PowOrZero(j - 1)
    ensures PowOrZero(j) >= 1 && (j >= 1 ==> PowOrZero(j - 1) >= 1)
  {
    PowPositive(2, j);
    if j >= 1 { PowPositive(2, j - 1); }
  }

  lemma PowZeroOne(k: nat)
    ensures Pow(2, k) >= 1 && PowOrZero(k) == Pow(2, k) && PowOrZero(k + 1) == 2 * Pow(2, k)
  {
    PowPositive(2, k);
  }

  lemma WithinOne()
    ensures Within([1], 0x200_0000) && Within([0], 0x400_0000)
  {
  }

  lemma CofactorWithin(a: seq<int>, b: seq<int>)
    requires Within(a, 0x200_0000) && Within(b, 0x400_0000)
    ensures Within(a, LIMB_MAX) && Within(b, LIMB_MAX)
  {
  }

  /** One turn of the search on the two cofactors, whose limbs stay bounded though uncarried. */
  method HalveCofactors(RP: Bn, NP: Bn, R: Bn, N: Bn)
    requires RP != NP && R !in {RP, NP} && N !in {RP, NP}
    requires Within(RP.limbs, 0x200_0000) && Within(NP.limbs, 0x400_0000)
    requires Digits(R.limbs) && Digits(N.limbs)
    modifies RP, NP
    ensures Within(RP.limbs, 0x200_0000) && Within(NP.limbs, 0x400_0000)
    ensures old(RP.V()) % 2 == 0 ==> RP.V() == old(RP.V()) / 2 && NP.V() == old(NP.V()) / 2
    ensures old(RP.V()) % 2 == 1 ==> RP.V() == (old(RP.V()) + N.V()) / 2
                                     && NP.V() == old(NP.V()) / 2 + R.V()
  {
    hide Val, HalveLimbs;
    var odd := RP.IsOdd();
    if !odd {
      HalveWithin(RP.limbs, 0x200_0000);
      HalveWithin(NP.limbs, 0x400_0000);
      RP.HalveM();
      NP.HalveM();
    } else {
      RP.AddM(N);
      HalveWithin(RP.limbs, 0x300_0000);
      RP.HalveM();
      HalveWithin(NP.limbs, 0x400_0000);
      NP.HalveM();
      NP.AddM(R);
    }
  }

  /** A residue in Montgomery form; below the modulus whenever the base is. */
  ghost predicate Residue(o: Bn, b: int, e: nat, m: int, nn: int)
    reads o
  {
    Factor(o) && Represents(o.V(), b, e, m, nn) && (b < nn ==> o.V() < nn)
  }

  /** A base this large is never brought below the modulus again. */
  predicate Huge(b: int, m: int) {
    b >= 4 * (m * m * m * m)
  }

  /** A base that is huge for the radix of N, which is at most 2N. */
  predicate FarAbove(b: int, n: int) {
    b >= 64 * Pow(n, 4)
  }

  /** What the accumulator is: a power of a huge base stays large. */
  ghost predicate InForm(o: Bn, b: int, e: nat, m: int, nn: int)
    reads o
  {
    Residue(o, b, e, m, nn) && (e > 0 && Huge(b, m) ==> o.V() >= 2 * (m * m))
  }

  /** What a table entry is: of a huge base, large enough to be multiplied by a one. */
  ghost predicate Entry(o: Bn, b: int, e: nat, m: int, nn: int)
    reads o
  {
    Residue(o, b, e, m, nn) && (Huge(b, m) ==> o.V() >= 3 * (m * m * m))
  }

  lemma PowersGrow(m: int)
    requires m >= 1
    ensures 0 < m * m <= m * m * m <= m * m * m * m
    ensures m * m * (m * m) == m * m * m * m
    ensures m * m * m * m <= m * m * m * (m * m * m)
  {
    var p2, p3 := m * m, m * m * m;
    MulMono(1, m, m);
    MulMono(1, m, p2);
    MulMono(1, m, p3);
    assert p2 * (m * m) == p2 * m * m;
    MulMono(m, p3, p3);
  }

  lemma ProductAbove(x: int, y: int, a: int, b: int)
    requires 0 <= a <= x && 0 <= b <= y
    ensures x * y >= a * b
  {
    MulMono(a, x, y);
    MulMono(b, y, a);
  }

  /** The quotient of a product above x m + m^2, less n, is still at least x. */
  lemma QuotientAbove(c: int, r: int, n: int, m: int, x: int)
    requires 0 < n < m && r * m >= c - n * m && c >= x * m + m * m
    ensures r >= x
  {
    MulMono(n, m, m);
    if r < x { MulMono(r, x - 1, m); MulAdd(m, x, -1); }
  }

  /** One montMul of two large factors is large again. */
  lemma StaysLarge(o: int, q: int, r: int, n: int, m: int)
    requires 0 < n < m && r * m >= o * q - n * m
    ensures o >= 3 * (m * m * m) && q >= 3 * (m * m * m) ==> r >= 3 * (m * m * m)
    ensures o >= 2 * (m * m) && q >= 2 * (m * m) ==> r >= 2 * (m * m)
    ensures o >= 1 && q >= 3 * (m * m * m) ==> r >= 2 * (m * m)
    ensures o >= 4 * (m * m * m * m) && q >= 1 ==> r >= 3 * (m * m * m)
    ensures o >= 2 * (m * m) && q >= 1 ==> r >= m
  {
    PowersGrow(m);
    var p2, p3, p4, c := m * m, m * m * m, m * m * m * m, o * q;
    Scaled(p2, p3, m);
    if o >= 3 * p3 && q >= 3 * p3 { ProductAbove(o, q, 3 * p3, 3 * p3); QuotientAbove(c, r, n, m, 3 * p3); }
    if o >= 2 * p2 && q >= 2 * p2 { ProductAbove(o, q, 2 * p2, 2 * p2); QuotientAbove(c, r, n, m, 2 * p2); }
    if o >= 1 && q >= 3 * p3 { ProductAbove(o, q, 1, 3 * p3); QuotientAbove(c, r, n, m, 2 * p2); }
    if o >= 4 * p4 && q >= 1 { ProductAbove(o, q, 4 * p4, 1); QuotientAbove(c, r, n, m, 3 * p3); }
    if o >= 2 * p2 && q >= 1 { ProductAbove(o, q, 2 * p2, 1); QuotientAbove(c, r, n, m, m); }
  }

  lemma Scaled(a: int, b: int, m: int)
    ensures 2 * a * m == 2 * (a * m) && 3 * b * m == 3 * (b * m)
    ensures 3 * b * (3 * b) == 9 * (b * b) && 2 * a * (2 * a) == 4 * (a * a)
  {
  }

  /** N divides neither the radix nor its square. */
  lemma RadixNotZero(m: int, rp: int, n: int, np: int)
    requires n > 1 && Bezout(m, rp, n, np)
    ensures !Cong(0, m, n) && !Cong(0, m * m, n)
  {
    InverseOfRadix(m, rp, n, np);
    if Cong(0, m * m, n) { CongCancel(0, m, m, rp, n); }
    if Cong(0, m, n) {
      CongCancel(0, 1, m, rp, n);
      CongUnique(0, 1, n);
    }
  }

  /** 1 in Montgomery form is not zero. */
  lemma OneNotZero(o: int, b: int, m: int, rp: int, n: int, np: int)
    requires n > 1 && Bezout(m, rp, n, np) && Represents(o, b, 0, m, n) && o >= 0
    ensures o >= 1
  {
    RadixNotZero(m, rp, n, np);
    assert Pow(b, 0) * m == m;
  }

  /** montMul adds exponents. */
  method MontTimes(o: Bn, q: Bn, N: Bn, NP: Bn, n: nat, s: nat, ghost rp: int,
                   ghost b: int, ghost e: nat, ghost f: nat) returns (r: Bn)
    requires n > 0 && Setting(N, NP, n, s, rp) && {o, q} !! {N, NP}
    requires Residue(o, b, e, Radix(n, s), N.V()) && Residue(q, b, f, Radix(n, s), N.V())
    modifies o, q, N, NP
    ensures Setting(N, NP, n, s, rp) && N.V() == old(N.V()) && NP.V() == old(NP.V())
    ensures Factor(o) && o.V() == old(o.V()) && Factor(q) && q.V() == old(q.V())
    ensures fresh(r) && Residue(r, b, e + f, Radix(n, s), N.V())
    ensures r.V() * Radix(n, s) >= o.V() * q.V() - N.V() * Radix(n, s)
  {
    hide Val, Radix, Cong, Digits, Within, Represents;
    ghost var m := Radix(n, s);
    r := MontMul(o, q, N, NP, n, s, rp);
    MontCompose(o.V(), q.V(), r.V(), b, e, f, m, rp, N.V(), NP.V());
    if b < N.V() { BelowProduct(o.V(), q.V(), N.V(), m); }
  }

  /** The accumulator squared. */
  method MontSquare(o: Bn, N: Bn, NP: Bn, n: nat, s: nat, ghost rp: int, ghost b: int, ghost e: nat) returns (r: Bn)
    requires n > 0 && Setting(N, NP, n, s, rp) && o !in {N, NP}
    requires InForm(o, b, e, Radix(n, s), N.V())
    modifies o, N, NP
    ensures Setting(N, NP, n, s, rp) && N.V() == old(N.V())
    ensures fresh(r) && InForm(r, b, e + e, Radix(n, s), N.V())
  {
    hide Val, Radix, Residue;
    r := MontTimes(o, o, N, NP, n, s, rp, b, e, e);
    StaysLarge(o.V(), o.V(), r.V(), N.V(), Radix(n, s));
  }

  lemma BelowProduct(x: int, y: int, n: int, m: int)
    requires 0 <= x < n && 0 <= y < n && n <= m
    ensures x * y < n * m
  {
    MulMono(x, n - 1, y);
    MulMono(y, m - 1, n - 1);
    MulAdd(n, m, -1);
    MulAdd(m, n, -1);
  }

  /** The odd powers up to `top` (and the square) that the window looks up. */
  ghost predicate Table(t: map<nat, Bn>, top: int, b: int, m: int, nn: int)
    reads t.Values
  {
    && (forall h: nat :: h in t ==> h > 0 && Entry(t[h], b, h, m, nn))
    && (forall h: nat :: h % 2 == 1 && h <= top ==> h in t)
  }

  lemma TableExtend(t: map<nat, Bn>, next: Bn, h: nat, b: int, m: int, nn: int)
    requires h > 0 && Table(t, 2 * h - 1, b, m, nn) && Entry(next, b, 2 * h + 1, m, nn)
    ensures Table(t[2 * h + 1 := next], 2 * h + 1, b, m, nn)
    ensures t[2 * h + 1 := next].Values <= t.Values + {next}
  {
    hide Entry;
  }

  /** A product with a table entry. Products normalize their factors in place, which no
      entry of the table notices. */
  method TableTimes(o: Bn, t: map<nat, Bn>, k: nat, top: int, N: Bn, NP: Bn, n: nat, s: nat, ghost rp: int,
                    ghost b: int, ghost e: nat) returns (r: Bn)
    requires n > 0 && Setting(N, NP, n, s, rp) && o !in {N, NP} && N !in t.Values && NP !in t.Values
    requires k in t && Table(t, top, b, Radix(n, s), N.V()) && N.V() > 1
    requires Entry(o, b, e, Radix(n, s), N.V()) || InForm(o, b, e, Radix(n, s), N.V())
    modifies o, t.Values, N, NP
    ensures Setting(N, NP, n, s, rp) && N.V() == old(N.V())
    ensures Table(t, top, b, Radix(n, s), N.V())
    ensures fresh(r) && (old(Entry(o, b, e, Radix(n, s), N.V())) ==> Entry(r, b, e + k, Radix(n, s), N.V()))
    ensures old(InForm(o, b, e, Radix(n, s), N.V())) ==> InForm(r, b, e + k, Radix(n, s), N.V())
  {
    hide Val, Radix, Cong, Digits, Within, Represents, Bezout;
    ghost var m, nn := Radix(n, s), N.V();
    r := MontTimes(o, t[k], N, NP, n, s, rp, b, e, k);
    if Huge(b, m) { TimesEntry(o.V(), t[k].V(), r.V(), b, e, nn, m, rp, NP.V()); }
    forall h: nat | h in t ensures Entry(t[h], b, h, m, nn) {
      assert t[h] in t.Values;
      assert old(Entry(t[h], b, h, m, nn));
    }
  }

  /** A one times an entry, an entry times an entry and a large power times an entry are large. */
  lemma TimesEntry(o: int, q: int, r: int, b: int, e: nat, n: int, m: int, rp: int, np: int)
    requires 1 < n < m && Bezout(m, rp, n, np) && Represents(o, b, e, m, n) && o >= 0
    requires r * m >= o * q - n * m && q >= 3 * (m * m * m)
    ensures o >= 3 * (m * m * m) ==> r >= 3 * (m * m * m)
    ensures e == 0 || o >= 2 * (m * m) ==> r >= 2 * (m * m)
  {
    if e == 0 { OneNotZero(o, b, m, rp, n, np); }
    PowersGrow(m);
    StaysLarge(o, q, r, n, m);
  }

  /** A table for windows of at most wind bits. */
  ghost predicate WindowTable(t: map<nat, Bn>, wind: nat, b: int, m: int, nn: int)
    reads t.Values
  {
    Table(t, Pow(2, wind) - 1, b, m, nn)
  }

  /** precomp: base, base^2, then every odd power below 2^wind. */
  method Precompute(pow: Bn, wind: nat, N: Bn, NP: Bn, n: nat, s: nat, ghost rp: int, ghost b: int)
    returns (t: map<nat, Bn>)
    requires 1 <= wind <= 6
    requires n > 0 && Setting(N, NP, n, s, rp) && pow !in {N, NP}
    requires Entry(pow, b, 1, Radix(n, s), N.V()) && N.V() > 1
    modifies pow, N, NP
    ensures Setting(N, NP, n, s, rp) && N.V() == old(N.V())
    ensures fresh(t.Values)
    ensures WindowTable(t, wind, b, Radix(n, s), N.V())
  {
    hide Val, Radix, Cong, Digits, Within, Represents, Residue, Entry, Huge, Table, Factor, Bezout;
    ghost var m := Radix(n, s);
    var first := new Bn(pow.limbs);
    SameEntry(pow, first, b, 1, m, N.V());
    var second := EntrySquare(pow, N, NP, n, s, rp, b, 1);
    PowPositive(2, wind - 1);
    var cap: nat := Pow(2, wind - 1) - 1;
    t := map[1 := first, 2 := second];
    TableStart(t, first, second, b, m, N.V());
    var h: nat := 1;
    while h <= cap
      invariant 1 <= h <= cap + 1
      invariant Setting(N, NP, n, s, rp) && N.V() == old(N.V())
      invariant fresh(t.Values) && N !in t.Values && NP !in t.Values
      invariant 2 in t && 2 * h - 1 in t && Table(t, 2 * h - 1, b, m, N.V())
    {
      TableAt(t, 2 * h - 1, 2 * h - 1, b, m, N.V());
      TableAt(t, 2, 2 * h - 1, b, m, N.V());
      var next := TableTimes(t[2 * h - 1], t, 2, 2 * h - 1, N, NP, n, s, rp, b, 2 * h - 1);
      TableExtend(t, next, h, b, m, N.V());
      t := t[2 * h + 1 := next];
      h := h + 1;
    }
  }

  /** A table entry squared. */
  method EntrySquare(o: Bn, N: Bn, NP: Bn, n: nat, s: nat, ghost rp: int, ghost b: int, ghost e: nat) returns (r: Bn)
    requires n > 0 && Setting(N, NP, n, s, rp) && o !in {N, NP}
    requires Entry(o, b, e, Radix(n, s), N.V())
    modifies o, N, NP
    ensures Setting(N, NP, n, s, rp) && N.V() == old(N.V())
    ensures fresh(r) && Entry(r, b, e + e, Radix(n, s), N.V())
  {
    hide Val, Radix, Residue;
    r := MontTimes(o, o, N, NP, n, s, rp, b, e, e);
    StaysLarge(o.V(), o.V(), r.V(), N.V(), Radix(n, s));
  }

  lemma TableStart(t: map<nat, Bn>, first: Bn, second: Bn, b: int, m: int, nn: int)
    requires Entry(first, b, 1, m, nn) && Entry(second, b, 2, m, nn)
    requires t == map[1 := first, 2 := second]
    ensures Table(t, 1, b, m, nn)
  {
    hide Entry;
  }

  lemma TableAt(t: map<nat, Bn>, h: nat, top: int, b: int, m: int, nn: int)
    requires Table(t, top, b, m, nn)
    requires h in t || (h % 2 == 1 && h <= top)
    ensures h in t && h > 0 && t[h] in t.Values && Entry(t[h], b, h, m, nn)
  {
  }

  lemma SameEntry(o: Bn, q: Bn, b: int, e: nat, m: int, nn: int)
    requires o.limbs == q.limbs && Entry(o, b, e, m, nn)
    ensures Entry(q, b, e, m, nn)
  {
  }

  /** l walks up from i - wind + 1 to the first set bit; bits below the number read as zero. */
  method WindowEnd(x: seq<int>, i: nat, wind: nat) returns (l: nat)
    requires Digits(x) && i < 24 * |x| && wind >= 1 && BitOf(x, i) != 0
    ensures i - wind < l <= i && BitOf(x, l) == 1
  {
    var k := i - wind + 1;
    while BitOf(x, k) == 0
      invariant i - wind < k <= i
      decreases i - k
    {
      k := k + 1;
    }
    l := k;
    BitOfVal(x, l);
  }

  /** The bits of x from l to j - 1, read as a number, against the squarings they cost. */
  lemma WindowBit(x: int, l: nat, j: nat)
    requires x >= 0 && l <= j
    ensures Pow(2, l) > 0 && Pow(2, j) > 0 && Pow(2, j - l) > 0
    ensures var y := x / Pow(2, l);
            y % Pow(2, j + 1 - l) == y % Pow(2, j - l) + (x / Pow(2, j) % 2) * Pow(2, j - l)
  {
    PowPositive(2, l);
    PowPositive(2, j);
    PowPositive(2, j - l);
    var y, p := x / Pow(2, l), Pow(2, j - l);
    PowAdd(2, l, j - l);
    DivDiv(x, Pow(2, l), p);
    assert x / Pow(2, j) == y / p;
    assert Pow(2, j + 1 - l) == 2 * p;
    hide Pow;
    DivDiv(y, p, 2);
    var q := y / p;
    assert y == q * p + y % p && q == 2 * (q / 2) + q % 2;
    TwiceModulus(y, p, q / 2, q % 2, y % p);
  }

  lemma TwiceModulus(y: int, p: int, h: int, bit: int, r: int)
    requires p > 0 && y == (2 * h + bit) * p + r && 0 <= bit <= 1 && 0 <= r < p
    ensures y % (2 * p) == r + bit * p
  {
    assert (2 * h + bit) * p == h * (2 * p) + bit * p;
    DivModUnique(y, 2 * p, h, r + bit * p);
  }

  /** A window that ends on a set bit is odd and indexes the table. */
  lemma WindowValue(x: int, l: nat, i: nat, wind: nat)
    requires x >= 0 && i - wind < l <= i
    requires Pow(2, l) > 0 && x / Pow(2, l) % 2 == 1
    ensures Pow(2, i + 1 - l) > 0
    ensures var w := x / Pow(2, l) % Pow(2, i + 1 - l);
            w % 2 == 1 && 0 <= w <= Pow(2, wind) - 1
            && Above(x, l - 1) == Above(x, i) * Pow(2, i + 1 - l) + w
  {
    var y, d := x / Pow(2, l), i + 1 - l;
    PowPositive(2, d);
    PowPositive(2, d - 1);
    PowPositive(2, i + 1);
    PowAdd(2, l, d);
    DivDiv(x, Pow(2, l), Pow(2, d));
    PowNondecreasing(d, wind);
    assert Pow(2, d) == 2 * Pow(2, d - 1);
    hide Pow;
    OddRemainder(y, Pow(2, d - 1));
    assert y == y / Pow(2, d) * Pow(2, d) + y % Pow(2, d);
  }

  lemma OddRemainder(y: int, h: int)
    requires h > 0 && y % 2 == 1
    ensures y % (2 * h) % 2 == 1
  {
    var q := y / (2 * h);
    assert q * (2 * h) == 2 * (q * h);
    assert y % (2 * h) == y - 2 * (q * h);
  }

  lemma AboveAll(x: int, bits: nat)
    requires 0 <= x < Pow(2, bits)
    ensures Above(x, bits - 1) == 0
  {
    DivModUnique(x, Pow(2, bits), 0, x);
  }

  lemma AboveZeroBit(x: int, i: nat)
    requires x >= 0 && Pow(2, i) > 0 && x / Pow(2, i) % 2 == 0
    ensures Above(x, i - 1) == Above(x, i) + Above(x, i)
  {
    ShiftBit(x, i);
  }

  lemma SquareExponent(e: nat, k: nat)
    ensures e * Pow(2, k) >= 0 && e * Pow(2, k + 1) == e * Pow(2, k) + e * Pow(2, k)
    ensures e * Pow(2, 0) == e
  {
    PowPositive(2, k);
    MulMono(0, e, Pow(2, k));
  }

  /** The branch for a set bit: find the window, square through it, multiply once. */
  method WindowStep(o: Bn, t: map<nat, Bn>, x: Bn, i: nat, wind: nat,
                    N: Bn, NP: Bn, n: nat, s: nat, ghost rp: int, ghost b: int)
    returns (r: Bn, next: int)
    requires n > 0 && Setting(N, NP, n, s, rp) && o !in {N, NP} && o !in t.Values && x !in {o, N, NP} && x !in t.Values
    requires N !in t.Values && NP !in t.Values
    requires Digits(x.limbs) && i < 24 * |x.limbs| && x.V() >= 0 && 1 <= wind <= 6
    requires BitOf(x.limbs, i) != 0
    requires WindowTable(t, wind, b, Radix(n, s), N.V()) && N.V() > 1
    requires InForm(o, b, Above(x.V(), i), Radix(n, s), N.V())
    modifies o, t.Values, N, NP
    ensures Setting(N, NP, n, s, rp) && N.V() == old(N.V())
    ensures -1 <= next < i && fresh(r)
    ensures WindowTable(t, wind, b, Radix(n, s), N.V())
    ensures InForm(r, b, Above(x.V(), next), Radix(n, s), N.V())
  {
    hide Val, Radix, Cong, Digits, Within, Represents, InForm, Residue, Entry, Huge, Table;
    hide Factor, Bezout, Pow, Above, BitOf;
    ghost var m, X, e := Radix(n, s), x.V(), Above(x.V(), i);
    var l := WindowEnd(x.limbs, i, wind);
    BitOfVal(x.limbs, l);
    PowZero();
    SquareExponent(e, 0);
    r := o;
    var indx, j: nat := 0, l;
    while j <= i
      invariant l <= j <= i + 1
      invariant Setting(N, NP, n, s, rp) && N.V() == old(N.V()) && x.limbs == old(x.limbs)
      invariant r !in {N, NP} && r !in t.Values && (r == o || fresh(r)) && (j > l ==> fresh(r))
      invariant WindowTable(t, wind, b, m, N.V()) && e * Pow(2, j - l) >= 0
      invariant InForm(r, b, e * Pow(2, j - l), m, N.V())
      invariant Pow(2, l) > 0 && Pow(2, j - l) > 0 && indx == X / Pow(2, l) % Pow(2, j - l)
    {
      WindowBit(X, l, j);
      PowPositive(2, j + 1 - l);
      BitOfVal(x.limbs, j);
      indx := indx + BitOf(x.limbs, j) * Pow(2, j - l);
      SquareExponent(e, j - l);
      r := MontSquare(r, N, NP, n, s, rp, b, e * Pow(2, j - l));
      j := j + 1;
    }
    WindowValue(X, l, i, wind);
    TableAt(t, indx, Pow(2, wind) - 1, b, m, N.V());
    r := TableTimes(r, t, indx, Pow(2, wind) - 1, N, NP, n, s, rp, b, e * Pow(2, j - l));
    next := l - 1;
  }

  /** HAC 14.85: the exponent's bits above i are in `out`; a zero bit squares, a window of
      bits ending in a one squares once per bit and multiplies by its table entry. */
  method SlidingWindow(one: Bn, t: map<nat, Bn>, x: Bn, bits: nat, wind: nat,
                       N: Bn, NP: Bn, n: nat, s: nat, ghost rp: int, ghost b: int)
    returns (out: Bn)
    requires n > 0 && Setting(N, NP, n, s, rp) && one !in {N, NP} && x !in {one, N, NP} && x !in t.Values
    requires N !in t.Values && NP !in t.Values && one !in t.Values
    requires Digits(x.limbs) && bits <= 24 * |x.limbs| && 0 <= x.V() < Pow(2, bits) && 1 <= wind <= 6
    requires WindowTable(t, wind, b, Radix(n, s), N.V()) && N.V() > 1
    requires InForm(one, b, 0, Radix(n, s), N.V())
    modifies one, t.Values, N, NP
    ensures Setting(N, NP, n, s, rp) && N.V() == old(N.V())
    ensures out !in {N, NP} && (out == one || fresh(out))
    ensures InForm(out, b, x.V(), Radix(n, s), N.V())
  {
    hide Val, Radix, Cong, Digits, Within, Represents, InForm, Residue, Entry, Huge, Table;
    hide Factor, Bezout, Pow, Above, BitOf;
    ghost var m, X := Radix(n, s), x.V();
    out := one;
    var i := bits - 1;
    AboveAll(X, bits);
    while i >= 0
      invariant -1 <= i < bits
      invariant Setting(N, NP, n, s, rp) && N.V() == old(N.V()) && x.limbs == old(x.limbs)
      invariant out !in {N, NP} && out !in t.Values && (out == one || fresh(out))
      invariant WindowTable(t, wind, b, m, N.V()) && InForm(out, b, Above(X, i), m, N.V())
    {
      BitOfVal(x.limbs, i);
      if BitOf(x.limbs, i) == 0 {
        AboveZeroBit(X, i);
        out := MontSquare(out, N, NP, n, s, rp, b, Above(X, i));
        i := i - 1;
      } else {
        out, i := WindowStep(out, t, x, i, wind, N, NP, n, s, rp, b);
      }
    }
  }

  /** The window width the source picks from the exponent's size. */
  function WindowWidth(bits: nat): (wind: nat)
    ensures 1 <= wind <= 6
  {
    if bits < 18 then 1 else if bits < 48 then 3 else if bits < 144 then 4 else if bits < 768 then 5 else 6
  }

  lemma OneInForm(o: int, r: int, r2: int, b: int, m: int, rp: int, n: int, np: int)
    requires n > 0 && Bezout(m, rp, n, np) && Cong(r2, m * m, n) && o == 1 && Cong(r * m, o * r2, n)
    ensures Represents(r, b, 0, m, n)
  {
    MontIn(1, r2, r, m, rp, n, np);
    assert Pow(b, 0) == 1 && Pow(1, 1) == 1;
  }

  /** this ^ x mod N. None is the source's `false`. On exponent 0 the base itself comes
      back, not 1; the search for R fails exactly when N's top limb is 1. */
  method MontPowerMod(base: Bn, x: Bn, N0: Bn) returns (r: Option<Bn>)
    requires Digits(base.limbs) && Within(x.limbs, LIMB_MAX) && x.V() >= 0 && Digits(N0.limbs)
    requires Trimmed(N0.limbs) && N0.V() > 0 && N0.V() % 2 == 1
    ensures x.V() == 0 ==> r == Some(base)
    ensures x.V() > 0 ==> (r.None? <==> N0.limbs[|N0.limbs| - 1] == 1)
    ensures x.V() > 0 && r.Some? ==>
              fresh(r.value) && r.value.V() >= 0 && Within(r.value.limbs, 0x200_0000)
              && Cong(r.value.V(), Pow(base.V(), x.V()), N0.V())
              && (base.V() < N0.V() ==> r.value.V() < N0.V())
              && (base.V() < N0.V() ==> (r.value.limbs == [] <==> |N0.limbs| > 1 && r.value.V() == 0))
              && (FarAbove(base.V(), N0.V()) ==> r.value.V() >= N0.V())
  {
    hide Val, Radix, Cong, Within, Represents, InForm, WindowTable, Factor, Bezout, Pow, Place, NormalForm;
    ValDigitsBound(N0.limbs);
    ValDigitsBound(base.limbs);
    var e := new Bn(x.limbs);
    e.Normalize();
    NormalNonNegative(e.limbs);
    var N := new Bn(N0.limbs);
    var bits := e.BitLength();
    if bits == 0 { return Some(base); }
    r := MontPowerNonzero(base, e, bits, N);
  }

  /** montpowermod for a nonzero exponent: find R, R' and N', check that they fit, raise. */
  method MontPowerNonzero(base: Bn, e: Bn, bits: nat, N: Bn) returns (r: Option<Bn>)
    requires {base, e} !! {N}
    requires Digits(base.limbs) && Digits(e.limbs) && Digits(N.limbs)
    requires Trimmed(N.limbs) && N.V() > 0 && N.V() % 2 == 1
    requires bits <= 24 * |e.limbs| && 0 < e.V() < Pow(2, bits)
    modifies N
    ensures N.V() == old(N.V())
    ensures r.None? <==> old(N.limbs[|N.limbs| - 1]) == 1
    ensures r.Some? ==>
              fresh(r.value) && r.value.V() >= 0 && Within(r.value.limbs, 0x200_0000)
              && Cong(r.value.V(), Pow(base.V(), e.V()), N.V())
              && (base.V() < N.V() ==> r.value.V() < N.V())
              && (base.V() < N.V() ==> (r.value.limbs == [] <==> |old(N.limbs)| > 1 && r.value.V() == 0))
              && (FarAbove(base.V(), N.V()) ==> r.value.V() >= N.V())
  {
    hide Val, Radix, Cong, Within, Bezout, Pow, Place;
    var R, s := CapOf(N);
    var wind := WindowWidth(bits);
    var n := |N.limbs|;
    var RR := new Bn(R.limbs);
    var RP, NP := FindBezout(RR, N, 24 * (n - 1) + s);
    DoubledCap(R.V(), n, s);
    RR.DoubleM();
    NoCap(RR.V(), RP.V(), N.V(), NP.V());
    if N.V() == 1 { TopOfOne(N.limbs); }
    var R2 := RR.MulMod(RR, N);
    var holds := BezoutHolds(RR, N, RP, NP);
    if !holds { return None; }
    if FarAbove(base.V(), N.V()) { HugeBase(base.V(), N.V(), Radix(n, s)); }
    var out := MontPower(base, e, bits, wind, R2, N, NP, n, s, RP.V());
    return Some(out);
  }

  /** The radix is at most 2N, so 64 N^4 is huge. */
  lemma HugeBase(b: int, n: int, m: int)
    requires 0 < n && 0 < m <= 2 * n && FarAbove(b, n)
    ensures Huge(b, m)
  {
    var k := 2 * n;
    var m2, m3 := m * m, m * m * m;
    FourthPower(n);
    ProductAbove(k, k, m, m);
    ProductAbove(k * k, k, m2, m);
    ProductAbove(k * k * k, k, m3, m);
  }

  lemma FourthPower(n: int)
    ensures (2 * n) * (2 * n) * (2 * n) * (2 * n) == 16 * Pow(n, 4)
  {
    var k := 2 * n;
    assert Pow(n, 1) == n;
    assert Pow(n, 2) == n * n;
    assert Pow(n, 3) == n * (n * n);
    assert Pow(n, 4) == n * (n * (n * n));
    assert k * k == 4 * (n * n);
    assert k * k * k == 8 * (n * (n * n));
    assert k * (n * (n * n)) == 2 * (n * (n * (n * n)));
    assert k * k * k * k == 8 * (n * (n * n)) * k;
  }

  lemma NoCap(r: int, rp: int, n: int, np: int)
    ensures r == 0 && np == 0 ==> !Bezout(r, rp, n, np)
  {
  }

  lemma TopOfOne(l: seq<int>)
    requires Digits(l) && Trimmed(l) && Val(l) == 1
    ensures l[|l| - 1] == 1
  {
    TopLimbNonzero(l);
    if |l| > 1 { PlaceMonotone(0, |l| - 1); }
  }

  lemma DoubledCap(r: int, n: nat, s: nat)
    requires n > 0
    ensures r == Pow(2, 24 * (n - 1) + s) ==> r > 0 && 2 * r == Radix(n, s)
  {
    CapIsPower(n, s + 1);
    PowPositive(2, 24 * (n - 1) + s);
    assert Pow(2, 24 * (n - 1) + s + 1) == 2 * Pow(2, 24 * (n - 1) + s);
  }

  /** RR.mul(RP).sub(N.mul(NP)).equals(1). */
  method BezoutHolds(RR: Bn, N: Bn, RP: Bn, NP: Bn) returns (eq: bool)
    requires {RR, RP} !! {N, NP} && RR != RP && N != NP
    requires Digits(RR.limbs) && Digits(N.limbs) && Digits(RP.limbs) && Digits(NP.limbs)
    requires Bezout(RR.V(), RP.V(), N.V(), NP.V()) || (RR.V() == 0 && NP.V() == 0)
    modifies RR, N, RP, NP
    ensures eq == Bezout(RR.V(), RP.V(), N.V(), NP.V())
    ensures Digits(N.limbs) && N.V() == old(N.V()) && Digits(NP.limbs) && NP.V() == old(NP.V())
    ensures RP.V() == old(RP.V()) && RR.V() == old(RR.V())
  {
    hide Val, Digits, Within;
    var left := RR.MulDigits(RP);
    var right := N.MulDigits(NP);
    DigitsWithin(left.limbs);
    DigitsWithin(right.limbs);
    DigitsSmall(left.limbs);
    DigitsSmall(right.limbs);
    var difference := left.Minus(right);
    var one := new Bn([1]);
    SmallValues();
    DigitsWithin(one.limbs);
    NormalWithin(difference.limbs);
    WithinMax(difference.limbs);
    eq := difference.Equals(one);
  }

  lemma DigitsSmall(l: seq<int>)
    requires Digits(l)
    ensures Within(l, 0x3fff_ffff)
  {
  }

  lemma WithinMax(l: seq<int>)
    requires Within(l, 0x100_0000)
    ensures Within(l, LIMB_MAX)
  {
  }

  /** The exponentiation once R', N' and R^2 are there: into Montgomery form, through the
      windows, and out again. */
  method MontPower(base: Bn, e: Bn, bits: nat, wind: nat, R2: Bn,
                   N: Bn, NP: Bn, n: nat, s: nat, ghost rp: int) returns (r: Bn)
    requires n > 0 && Setting(N, NP, n, s, rp) && {base, e, R2} !! {N, NP} && R2 !in {base, e}
    requires Digits(base.limbs) && Digits(e.limbs) && Digits(R2.limbs) && 0 <= R2.V() < N.V()
    requires Cong(R2.V(), Radix(n, s) * Radix(n, s), N.V())
    requires N.V() > 1
    requires bits <= 24 * |e.limbs| && 0 <= e.V() < Pow(2, bits) && 1 <= wind <= 6
    modifies R2, N, NP
    ensures N.V() == old(N.V())
    ensures fresh(r) && Within(r.limbs, 0x200_0000) && r.V() >= 0
    ensures Cong(r.V(), Pow(base.V(), e.V()), N.V())
    ensures base.V() < N.V() ==> r.V() < N.V()
    ensures base.V() < N.V() ==> (r.limbs == [] <==> n > 1 && r.V() == 0)
    ensures e.V() > 0 && Huge(base.V(), Radix(n, s)) ==> r.V() >= N.V()
  {
    hide Val, Radix, Cong, Digits, Within, Represents, InForm, Residue, Entry, WindowTable, Bezout, Pow, Huge;
    var pow := new Bn(base.limbs);
    var out := new Bn([1]);
    SmallValues();
    var powIn := MontEnter(pow, R2, N, NP, n, s, rp);
    ghost var b := base.V();
    var outIn := MontOne(out, R2, N, NP, n, s, rp, b);
    var t := Precompute(powIn, wind, N, NP, n, s, rp, b);
    var p := SlidingWindow(outIn, t, e, bits, wind, N, NP, n, s, rp, b);
    r := MontLeave(p, N, NP, n, s, rp, b, e.V());
  }

  /** montIn of the base. */
  method MontEnter(pow: Bn, R2: Bn, N: Bn, NP: Bn, n: nat, s: nat, ghost rp: int) returns (r: Bn)
    requires n > 0 && Setting(N, NP, n, s, rp) && {pow, R2} !! {N, NP} && N.V() > 1
    requires Digits(pow.limbs) && Digits(R2.limbs) && 0 <= R2.V() < N.V()
    requires Cong(R2.V(), Radix(n, s) * Radix(n, s), N.V())
    modifies pow, R2, N, NP
    ensures Setting(N, NP, n, s, rp) && N.V() == old(N.V())
    ensures Factor(R2) && R2.V() == old(R2.V())
    ensures fresh(r) && Entry(r, old(pow.V()), 1, Radix(n, s), N.V())
  {
    hide Val, Radix, Cong, Digits, Within, Represents;
    ghost var m, b, nn := Radix(n, s), pow.V(), N.V();
    DigitsFactor(pow.limbs);
    DigitsFactor(R2.limbs);
    r := MontMul(pow, R2, N, NP, n, s, rp);
    MontIn(b, R2.V(), r.V(), m, rp, nn, NP.V());
    if b < nn { BelowProduct(b, R2.V(), nn, m); }
    if Huge(b, m) { HugeEnters(b, R2.V(), r.V(), m, rp, nn, NP.V()); }
  }

  /** montIn of 1, the power 0 of any base. */
  method MontOne(out: Bn, R2: Bn, N: Bn, NP: Bn, n: nat, s: nat, ghost rp: int, ghost b: int) returns (r: Bn)
    requires n > 0 && Setting(N, NP, n, s, rp) && {out, R2} !! {N, NP} && N.V() > 1
    requires Digits(out.limbs) && out.V() == 1 && Factor(R2) && 0 <= R2.V() < N.V()
    requires Cong(R2.V(), Radix(n, s) * Radix(n, s), N.V())
    modifies out, R2, N, NP
    ensures Setting(N, NP, n, s, rp) && N.V() == old(N.V())
    ensures fresh(r) && InForm(r, b, 0, Radix(n, s), N.V())
  {
    hide Val, Radix, Cong, Digits, Within, Represents;
    ghost var m, nn := Radix(n, s), N.V();
    DigitsFactor(out.limbs);
    r := MontMul(out, R2, N, NP, n, s, rp);
    OneInForm(1, r.V(), R2.V(), b, m, rp, nn, NP.V());
    BelowProduct(1, R2.V(), nn, m);
  }

  /** montOut. */
  method MontLeave(p: Bn, N: Bn, NP: Bn, n: nat, s: nat, ghost rp: int, ghost b: int, ghost e: nat)
    returns (r: Bn)
    requires n > 0 && Setting(N, NP, n, s, rp) && p !in {N, NP} && N.V() > 1
    requires InForm(p, b, e, Radix(n, s), N.V())
    modifies p, N, NP
    ensures N.V() == old(N.V())
    ensures fresh(r) && Within(r.limbs, 0x200_0000) && r.V() >= 0
    ensures Cong(r.V(), Pow(b, e), N.V())
    ensures b < N.V() ==> r.V() < N.V()
    ensures b < N.V() ==> (r.limbs == [] <==> n > 1 && r.V() == 0)
    ensures e > 0 && Huge(b, Radix(n, s)) ==> r.V() >= N.V()
  {
    hide Val, Radix, Cong, Digits, Within, Represents, Pow, Huge;
    ghost var m, nn := Radix(n, s), N.V();
    SmallValues();
    var one := new Bn([1]);
    DigitsFactor(one.limbs);
    r := MontMul(p, one, N, NP, n, s, rp);
    MontOut(p.V(), r.V(), b, e, m, rp, nn, NP.V());
    if Huge(b, m) && e > 0 { StaysLarge(p.V(), 1, r.V(), nn, m); }
    if b < nn {
      BelowProduct(p.V(), 1, nn, m);
      ZeroOut(p.V(), r.V(), m, rp, nn, NP.V());
    }
  }

  lemma HugeEnters(b: int, r2: int, r: int, m: int, rp: int, n: int, np: int)
    requires 1 < n < m && Bezout(m, rp, n, np) && Cong(r2, m * m, n) && r2 >= 0 && Huge(b, m)
    requires r * m >= b * r2 - n * m
    ensures r >= 3 * (m * m * m)
  {
    RadixNotZero(m, rp, n, np);
    StaysLarge(b, r2, r, n, m);
  }

  /** Leaving Montgomery form, only zero becomes zero. */
  lemma ZeroOut(p: int, r: int, m: int, rp: int, n: int, np: int)
    requires n > 0 && Bezout(m, rp, n, np) && 0 <= p < n && 0 <= r < n && Cong(r * m, p * 1, n)
    ensures r == 0 <==> p == 0
  {
    if r == 0 {
      CongIntro(0, 0, n, 0);
      assert r * m == 0;
      CongUnique(0, p, n);
    }
    if p == 0 {
      InverseOfRadix(m, rp, n, np);
      CongCancel(r, 0, m, rp, n);
      CongUnique(r, 0, n);
    }
  }

  lemma DigitsFactor(l: seq<int>)
    requires Digits(l)
    ensures Within(l, 0x200_0000) && Val(l) >= 0
  {
    ValDigitsBound(l);
  }
}
