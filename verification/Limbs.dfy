/** The little-endian limb arrays of sjcl.bn as sequences: their value, and what each
    carry chain does to it. Limbs may be negative or too large; nothing here assumes
    more than its preconditions say. */
module Limbs {
  import opened Congruence

  /** Place value of limb n: 2^24 to the n. */
  function Place(n: nat): int {
    if n == 0 then 1 else 0x100_0000 * Place(n - 1)
  }

  lemma {:induction false} PlaceAdd(m: nat, n: nat)
    ensures Place(m + n) == Place(m) * Place(n)
  {
    if m != 0 { PlaceAdd(m - 1, n); }
  }

  lemma {:induction false} PlacePositive(n: nat)
    ensures Place(n) > 0
  {
    if n != 0 { PlacePositive(n - 1); }
  }

  lemma {:induction false} PlaceMonotone(m: nat, n: nat)
    requires m < n
    ensures Place(m) < Place(n)
  {
    PlacePositive(n - 1);
    if m < n - 1 { PlaceMonotone(m, n - 1); }
  }

  function Val(l: seq<int>): int {
    if l == [] then 0 else l[0] + 0x100_0000 * Val(l[1..])
  }

  /** getLimb: limbs past the end read as zero. */
  function Limb(l: seq<int>, i: nat): int {
    if i < |l| then l[i] else 0
  }

  predicate Digits(l: seq<int>) {
    forall i :: 0 <= i < |l| ==> 0 <= l[i] < 0x100_0000
  }

  predicate Within(l: seq<int>, k: int) {
    forall i :: 0 <= i < |l| ==> -k <= l[i] <= k
  }

  predicate Trimmed(l: seq<int>) {
    |l| >= 1 && (|l| > 1 ==> l[|l| - 1] != 0)
  }

  /** Outcome of normalize: every limb a digit, except that a negative number
      keeps its sign in the top limb. */
  predicate Normal(l: seq<int>) {
    Trimmed(l) && Digits(l[..|l| - 1]) && -0x100_0000 <= l[|l| - 1] < 0x100_0000
  }

  lemma {:induction false} ValAppend(a: seq<int>, b: seq<int>)
    ensures Val(a + b) == Val(a) + Place(|a|) * Val(b)
  {
    if a == [] {
      assert a + b == b;
    } else {
      assert (a + b)[1..] == a[1..] + b;
      ValAppend(a[1..], b);
      var p, v := Place(|a| - 1), Val(b);
      assert 0x100_0000 * (p * v) == 0x100_0000 * p * v;
    }
  }

  lemma ValSnoc(l: seq<int>, t: int)
    ensures Val(l + [t]) == Val(l) + Place(|l|) * t
  {
    ValAppend(l, [t]);
    assert Val([t]) == t;
  }

  lemma {:induction false} ValDigitsBound(l: seq<int>)
    requires Digits(l)
    ensures 0 <= Val(l) < Place(|l|)
  {
    if l != [] { ValDigitsBound(l[1..]); }
  }

  lemma {:induction false} ValZeros(l: seq<int>)
    requires forall i :: 0 <= i < |l| ==> l[i] == 0
    ensures Val(l) == 0
  {
    if l != [] { ValZeros(l[1..]); }
  }

  // ---------------------------------------------------------------- addM, subM

  function Max(m: nat, n: nat): nat { if m < n then n else m }

  function AddLimbs(a: seq<int>, b: seq<int>): (r: seq<int>)
    ensures |r| == Max(|a|, |b|)
  {
    seq(Max(|a|, |b|), i requires i >= 0 => Limb(a, i) + Limb(b, i))
  }

  function SubLimbs(a: seq<int>, b: seq<int>): (r: seq<int>)
    ensures |r| == Max(|a|, |b|)
  {
    seq(Max(|a|, |b|), i requires i >= 0 => Limb(a, i) - Limb(b, i))
  }

  function Tail(l: seq<int>): seq<int> { if l == [] then [] else l[1..] }

  lemma {:induction false} ValAddSub(a: seq<int>, b: seq<int>)
    ensures Val(AddLimbs(a, b)) == Val(a) + Val(b)
    ensures Val(SubLimbs(a, b)) == Val(a) - Val(b)
    decreases |a| + |b|
  {
    if |a| + |b| != 0 {
      assert AddLimbs(a, b)[1..] == AddLimbs(Tail(a), Tail(b));
      assert SubLimbs(a, b)[1..] == SubLimbs(Tail(a), Tail(b));
      ValAddSub(Tail(a), Tail(b));
    }
  }

  // ---------------------------------------------------------------- carry chains

  /** The digits left behind by a carry c travelling up l. */
  function Ripple(l: seq<int>, c: int): (r: seq<int>)
    ensures |r| == |l|
  {
    if l == [] then [] else [(l[0] + c) % 0x100_0000] + Ripple(l[1..], (l[0] + c) / 0x100_0000)
  }

  /** The carry that leaves the top of l. */
  function CarryOut(l: seq<int>, c: int): int {
    if l == [] then c else CarryOut(l[1..], (l[0] + c) / 0x100_0000)
  }

  lemma {:induction false} RippleValue(l: seq<int>, c: int)
    ensures Digits(Ripple(l, c))
    ensures Val(l) + c == Val(Ripple(l, c)) + Place(|l|) * CarryOut(l, c)
  {
    if l != [] {
      RippleValue(l[1..], (l[0] + c) / 0x100_0000);
      var p, k := Place(|l| - 1), CarryOut(l, c);
      assert 0x100_0000 * (p * k) == 0x100_0000 * p * k;
    }
  }

  /** Limbs up to this size, plus a carry, stay below 2^53. */
  const LIMB_MAX := 0x10_0000_0000_0000
  const CARRY_MAX := 0x2000_0000

  /** One turn of a carry loop: limb i becomes the digit m of t and t's carry moves on. */
  lemma RippleStep(l: seq<int>, i: nat, c: int)
    requires i < |l|
    ensures var t := l[i] + c;
            Ripple(l[i..], c) == [t % 0x100_0000] + Ripple(l[i + 1..], t / 0x100_0000)
            && CarryOut(l[i..], c) == CarryOut(l[i + 1..], t / 0x100_0000)
            && (t - t % 0x100_0000) / 0x100_0000 == t / 0x100_0000
  {
    assert l[i..][1..] == l[i + 1..] && l[i..][0] == l[i];
    var t := l[i] + c;
    assert t == 0x100_0000 * (t / 0x100_0000) + t % 0x100_0000;
  }

  lemma Extend(done: seq<int>, i: nat, m: int, rest: seq<int>)
    requires i < |done|
    ensures done[..i] + ([m] + rest) == done[i := m][..i + 1] + rest
  {
  }

  lemma {:induction false} CarryBound(l: seq<int>, c: int)
    requires Within(l, LIMB_MAX) && -CARRY_MAX <= c <= CARRY_MAX
    ensures -CARRY_MAX <= CarryOut(l, c) <= CARRY_MAX
  {
    if l != [] { CarryBound(l[1..], (l[0] + c) / 0x100_0000); }
  }

  function Abs(c: int): nat { if c < 0 then -c else c }

  /** normalize goes on past the top limb until the carry is 0 or -1. */
  function Spill(c: int): seq<int>
    decreases Abs(c)
  {
    if c == 0 || c == -1 then [] else [c % 0x100_0000] + Spill(c / 0x100_0000)
  }

  function SpillSign(c: int): (s: int)
    ensures s == 0 || s == -1
    decreases Abs(c)
  {
    if c == 0 || c == -1 then c else SpillSign(c / 0x100_0000)
  }

  lemma {:induction false} SpillValue(c: int)
    ensures Digits(Spill(c))
    ensures c == Val(Spill(c)) + Place(|Spill(c)|) * SpillSign(c)
    decreases Abs(c)
  {
    if c != 0 && c != -1 {
      SpillValue(c / 0x100_0000);
      var p, s := Place(|Spill(c / 0x100_0000)|), SpillSign(c);
      assert 0x100_0000 * (p * s) == 0x100_0000 * p * s;
      assert Spill(c)[1..] == Spill(c / 0x100_0000);
    }
  }

  function Trim(l: seq<int>): (r: seq<int>)
    ensures Trimmed(r)
  {
    if l == [] then [0]
    else if |l| > 1 && l[|l| - 1] == 0 then Trim(l[..|l| - 1])
    else l
  }

  lemma {:induction false} TrimValue(l: seq<int>)
    ensures Val(Trim(l)) == Val(l)
    ensures Digits(l) ==> Digits(Trim(l))
    ensures l != [] ==> |Trim(l)| <= |l|
  {
    if |l| > 1 && l[|l| - 1] == 0 {
      assert l == l[..|l| - 1] + [0];
      ValSnoc(l[..|l| - 1], 0);
      TrimValue(l[..|l| - 1]);
    }
  }

  /** normalize before its final trim: the rippled digits, the spilled ones, and the
      borrow taken from the top limb when the last carry is -1. */
  function Carried(l: seq<int>): seq<int> {
    var c := CarryOut(l, 0);
    var s := Ripple(l, 0) + Spill(c);
    if SpillSign(c) == -1 && s != [] then s[|s| - 1 := s[|s| - 1] - 0x100_0000] else s
  }

  function NormalForm(l: seq<int>): seq<int> {
    Trim(Carried(l))
  }

  lemma ValTop(l: seq<int>)
    requires l != []
    ensures Val(l) == Val(l[..|l| - 1]) + Place(|l| - 1) * l[|l| - 1]
  {
    assert l == l[..|l| - 1] + [l[|l| - 1]];
    ValSnoc(l[..|l| - 1], l[|l| - 1]);
  }

  lemma SpilledValue(l: seq<int>)
    ensures var s := Ripple(l, 0) + Spill(CarryOut(l, 0));
            Digits(s) && Val(l) == Val(s) + Place(|s|) * SpillSign(CarryOut(l, 0))
  {
    var r, c := Ripple(l, 0), CarryOut(l, 0);
    RippleValue(l, 0);
    SpillValue(c);
    ValAppend(r, Spill(c));
    PlaceAdd(|r|, |Spill(c)|);
    var p, q, v, g := Place(|r|), Place(|Spill(c)|), Val(Spill(c)), SpillSign(c);
    Distribute(p, v, q, g);
  }

  lemma Distribute(p: int, v: int, q: int, g: int)
    ensures p * (v + q * g) == p * v + p * q * g
  {
  }

  /** Lowering the top limb by t lowers the value by t times its place. */
  lemma LowerTop(l: seq<int>, t: int)
    requires l != []
    ensures Val(l[|l| - 1 := l[|l| - 1] - t]) == Val(l) - Place(|l| - 1) * t
  {
    var n := l[|l| - 1 := l[|l| - 1] - t];
    ValTop(l);
    ValTop(n);
    assert n[..|n| - 1] == l[..|l| - 1];
    Distribute(Place(|l| - 1), l[|l| - 1], -1, t);
  }

  /** normalize keeps the value and makes the number normal; the sign of the value
      is then the sign of the top limb. */
  lemma NormalFormCorrect(l: seq<int>)
    ensures Val(NormalForm(l)) == Val(l)
    ensures Normal(NormalForm(l))
    ensures Val(l) >= 0 ==> Digits(NormalForm(l))
    ensures Val(l) < 0 ==> NormalForm(l)[|NormalForm(l)| - 1] < 0
  {
    var s := Ripple(l, 0) + Spill(CarryOut(l, 0));
    SpilledValue(l);
    hide Val, Ripple, Spill, SpillSign, CarryOut;
    ValDigitsBound(s);
    if SpillSign(CarryOut(l, 0)) == -1 && s != [] {
      LowerTop(s, 0x100_0000);
    } else {
      TrimValue(s);
    }
  }

  /** cnormalize: the carry stops in the top limb. */
  function CarriedIntoTop(l: seq<int>): (r: seq<int>)
    requires l != []
    ensures |r| == |l|
  {
    var init := l[..|l| - 1];
    Ripple(init, 0) + [l[|l| - 1] + CarryOut(init, 0)]
  }

  lemma AbsorbCarry(init: seq<int>, low: seq<int>, k: int, t: int)
    requires |low| == |init| && Val(init) == Val(low) + Place(|init|) * k
    ensures Val(init + [t]) == Val(low + [t + k])
  {
    ValSnoc(init, t);
    ValSnoc(low, t + k);
    MulAdd(Place(|init|), t, k);
  }

  lemma CarriedIntoTopValue(l: seq<int>)
    requires l != []
    ensures Val(CarriedIntoTop(l)) == Val(l)
  {
    var init, t := l[..|l| - 1], l[|l| - 1];
    var low, k := Ripple(init, 0), CarryOut(init, 0);
    assert l == init + [t];
    assert Val(init) == Val(low) + Place(|init|) * k by { RippleValue(init, 0); }
    AbsorbCarry(init, low, k, t);
    assert CarriedIntoTop(l) == low + [t + k];
  }

  lemma CarriedIntoTopDigits(l: seq<int>)
    requires l != []
    ensures Digits(CarriedIntoTop(l)[..|l| - 1])
  {
    assert CarriedIntoTop(l)[..|l| - 1] == Ripple(l[..|l| - 1], 0);
    RippleValue(l[..|l| - 1], 0);
  }

  /** doubleM: one carry chain over the doubled limbs, and a new limb for the last carry. */
  function DoubleLimbs(l: seq<int>): seq<int> {
    var d := AddLimbs(l, l);
    var c := CarryOut(d, 0);
    Ripple(d, 0) + if c != 0 then [c] else []
  }

  lemma {:induction false} DoubleCarry(l: seq<int>, i: nat, c: int)
    requires Digits(l) && i <= |l| && 0 <= c <= 1
    ensures 0 <= CarryOut(AddLimbs(l, l)[i..], c) <= 1
    decreases |l| - i
  {
    if i < |l| {
      RippleStep(AddLimbs(l, l), i, c);
      DoubleCarry(l, i + 1, (2 * l[i] + c) / 0x100_0000);
    }
  }

  lemma DoubleCorrect(l: seq<int>)
    requires Digits(l)
    ensures Val(DoubleLimbs(l)) == 2 * Val(l) && Digits(DoubleLimbs(l))
    ensures Trimmed(l) ==> Trimmed(DoubleLimbs(l))
  {
    var d := AddLimbs(l, l);
    var c := CarryOut(d, 0);
    ValAddSub(l, l);
    RippleValue(d, 0);
    DoubleCarry(l, 0, 0);
    assert d[0..] == d;
    ValSnoc(Ripple(d, 0), c);
    assert c == 0 ==> DoubleLimbs(l) == Ripple(d, 0);
    assert c != 0 ==> DoubleLimbs(l)[|l|] == c;
    if Trimmed(l) && |l| > 1 && c == 0 {
      PlacePositive(|l| - 1);
      TopLimbNonzero(l);
      TopLimbNonzero(DoubleLimbs(l));
    }
  }

  /** A digit string fills its top limb exactly when its value reaches that place. */
  lemma TopLimbNonzero(l: seq<int>)
    requires Digits(l) && l != []
    ensures l[|l| - 1] != 0 <==> Val(l) >= Place(|l| - 1)
  {
    ValTop(l);
    ValDigitsBound(l[..|l| - 1]);
    if l[|l| - 1] != 0 {
      MulMono(1, l[|l| - 1], Place(|l| - 1));
    }
  }

  lemma NormalBound(l: seq<int>)
    requires Normal(l)
    ensures -Place(|l|) <= Val(l) < Place(|l|)
  {
    ValTop(l);
    ValDigitsBound(l[..|l| - 1]);
    var p, t := Place(|l| - 1), l[|l| - 1];
    MulMono(-0x100_0000, t, p);
    MulMono(t, 0x100_0000 - 1, p);
  }

  /** normalize's loop before turn i: cur is what the limbs l have become. */
  predicate Carrying(l: seq<int>, cur: seq<int>, i: nat, carry: int) {
    var r, c := Ripple(l, 0), CarryOut(l, 0);
    && |cur| == Max(|l|, i)
    && -CARRY_MAX <= carry <= CARRY_MAX
    && (i <= |l| ==> cur[i..] == l[i..] && cur[..i] + Ripple(l[i..], carry) == r
                     && CarryOut(l[i..], carry) == c)
    && (i >= |l| ==> cur + Spill(carry) == r + Spill(c) && SpillSign(carry) == SpillSign(c))
  }

  function Put(l: seq<int>, i: nat, m: int): seq<int> {
    if i < |l| then l[i := m] else l + [m]
  }

  lemma CarryingStep(l: seq<int>, cur: seq<int>, i: nat, carry: int)
    requires Within(l, LIMB_MAX) && Carrying(l, cur, i, carry)
    requires i < |l| || (carry != 0 && carry != -1)
    ensures var t := Limb(cur, i) + carry;
            Carrying(l, Put(cur, i, t % 0x100_0000), i + 1, t / 0x100_0000)
  {
    if i < |l| {
      CarryingWithin(l, cur, i, carry);
    } else {
      CarryingBeyond(l, cur, i, carry);
    }
  }

  lemma CarryingWithin(l: seq<int>, cur: seq<int>, i: nat, carry: int)
    requires Within(l, LIMB_MAX) && Carrying(l, cur, i, carry) && i < |l|
    ensures var t := Limb(cur, i) + carry;
            Carrying(l, Put(cur, i, t % 0x100_0000), i + 1, t / 0x100_0000)
  {
    hide Ripple, CarryOut, Spill, SpillSign;
    var t := Limb(cur, i) + carry;
    assert cur[i] == cur[i..][0] == l[i];
    RippleStep(l, i, carry);
    Extend(cur, i, t % 0x100_0000, Ripple(l[i + 1..], t / 0x100_0000));
    assert Put(cur, i, t % 0x100_0000)[i + 1..] == cur[i..][1..] == l[i..][1..] == l[i + 1..];
    if i + 1 == |l| { CarriedAll(l, t / 0x100_0000); }
  }

  /** Past the last limb nothing but the carry is left. */
  lemma CarriedAll(l: seq<int>, carry: int)
    ensures Ripple(l[|l|..], carry) == [] && CarryOut(l[|l|..], carry) == carry
  {
  }

  lemma CarryingBeyond(l: seq<int>, cur: seq<int>, i: nat, carry: int)
    requires Carrying(l, cur, i, carry) && i >= |l| && carry != 0 && carry != -1
    ensures var t := Limb(cur, i) + carry;
            Carrying(l, Put(cur, i, t % 0x100_0000), i + 1, t / 0x100_0000)
  {
    hide Ripple, CarryOut;
    var t := Limb(cur, i) + carry;
    assert cur + Spill(t) == Put(cur, i, t % 0x100_0000) + Spill(t / 0x100_0000);
  }

  lemma CarryingStart(l: seq<int>)
    requires Within(l, LIMB_MAX)
    ensures Carrying(l, l, 0, 0)
  {
    CarryBound(l, 0);
  }

  lemma CarryingFacts(l: seq<int>, cur: seq<int>, i: nat, carry: int)
    requires Carrying(l, cur, i, carry)
    ensures |cur| == Max(|l|, i) && -CARRY_MAX <= carry <= CARRY_MAX
    ensures i < |l| ==> cur[i] == l[i]
  {
    if i < |l| { assert cur[i] == cur[i..][0] == l[i..][0] == l[i]; }
  }

  /** The loop's end, with the borrow for a last carry of -1. */
  lemma CarryingEnd(l: seq<int>, cur: seq<int>, i: nat, carry: int)
    requires Carrying(l, cur, i, carry) && i >= |l| && (carry == 0 || carry == -1)
    ensures carry == -1 ==> i > 0 && |cur| == i
    ensures Carried(l) == if carry == -1 then cur[i - 1 := cur[i - 1] - 0x100_0000] else cur
  {
    if l == [] { assert CarryOut(l, 0) == 0; }
    hide Ripple, CarryOut;
    assert cur + Spill(carry) == cur;
  }

  // ---------------------------------------------------------------- cnormalize's loop

  /** cnormalize before turn i: the digits below i are final, the rest of l untouched. */
  predicate CarryingInto(l: seq<int>, cur: seq<int>, i: nat, carry: int) {
    && |cur| == |l| && i < |l|
    && -CARRY_MAX <= carry <= CARRY_MAX
    && cur[i..] == l[i..]
    && cur[..i] + Ripple(l[..|l| - 1][i..], carry) == Ripple(l[..|l| - 1], 0)
    && CarryOut(l[..|l| - 1][i..], carry) == CarryOut(l[..|l| - 1], 0)
  }

  lemma CarryingIntoStart(l: seq<int>)
    requires l != []
    ensures CarryingInto(l, l, 0, 0)
  {
    assert l[..|l| - 1][0..] == l[..|l| - 1];
  }

  lemma CarryingIntoFacts(l: seq<int>, cur: seq<int>, i: nat, carry: int)
    requires CarryingInto(l, cur, i, carry)
    ensures |cur| == |l| && i < |l| && -CARRY_MAX <= carry <= CARRY_MAX && cur[i] == l[i]
  {
    assert cur[i] == cur[i..][0] == l[i..][0] == l[i];
  }

  lemma CarryingIntoStep(l: seq<int>, cur: seq<int>, i: nat, carry: int)
    requires Within(l, LIMB_MAX) && CarryingInto(l, cur, i, carry) && i < |l| - 1
    ensures i < |cur|
    ensures var t := cur[i] + carry;
            CarryingInto(l, cur[i := t % 0x100_0000], i + 1, t / 0x100_0000)
  {
    hide Ripple, CarryOut;
    CarryingIntoFacts(l, cur, i, carry);
    var init, t := l[..|l| - 1], cur[i] + carry;
    assert init[i] == l[i];
    RippleStep(init, i, carry);
    Extend(cur, i, t % 0x100_0000, Ripple(init[i + 1..], t / 0x100_0000));
    assert cur[i := t % 0x100_0000][i + 1..] == cur[i..][1..] == l[i..][1..] == l[i + 1..];
  }

  lemma CarryingIntoEnd(l: seq<int>, cur: seq<int>, i: nat, carry: int)
    requires CarryingInto(l, cur, i, carry) && i == |l| - 1
    ensures i < |cur| && cur[i := cur[i] + carry] == CarriedIntoTop(l)
  {
    CarryingIntoFacts(l, cur, i, carry);
    assert l[..|l| - 1][i..] == [];
    assert cur[..i] + [] == cur[..i];
  }

  // ---------------------------------------------------------------- doubleM's loop

  /** doubleM before turn i, with d the limb-wise double. */
  predicate Doubling(l: seq<int>, cur: seq<int>, i: nat, carry: int) {
    var d := AddLimbs(l, l);
    && i <= |cur| == |l| && 0 <= carry <= 1
    && cur[i..] == l[i..]
    && cur[..i] + Ripple(d[i..], carry) == Ripple(d, 0)
    && CarryOut(d[i..], carry) == CarryOut(d, 0)
  }

  lemma DoublingStart(l: seq<int>)
    ensures Doubling(l, l, 0, 0)
  {
    var d := AddLimbs(l, l);
    assert d[0..] == d;
  }

  lemma DoublingFacts(l: seq<int>, cur: seq<int>, i: nat, carry: int)
    requires Doubling(l, cur, i, carry)
    ensures i <= |cur| == |l| && 0 <= carry <= 1
    ensures i < |l| ==> cur[i] == l[i]
  {
    if i < |l| { assert cur[i] == cur[i..][0] == l[i..][0] == l[i]; }
  }

  lemma DoublingStep(l: seq<int>, cur: seq<int>, i: nat, carry: int)
    requires Digits(l) && Doubling(l, cur, i, carry) && i < |l|
    ensures i < |cur|
    ensures var t := cur[i] + cur[i] + carry;
            0 <= t < 0x200_0000 && Doubling(l, cur[i := t % 0x100_0000], i + 1, t / 0x100_0000)
  {
    hide Ripple, CarryOut;
    DoublingFacts(l, cur, i, carry);
    var d, t := AddLimbs(l, l), cur[i] + cur[i] + carry;
    assert d[i] == l[i] + l[i];
    RippleStep(d, i, carry);
    Extend(cur, i, t % 0x100_0000, Ripple(d[i + 1..], t / 0x100_0000));
    assert cur[i := t % 0x100_0000][i + 1..] == cur[i..][1..] == l[i..][1..] == l[i + 1..];
  }

  lemma DoublingEnd(l: seq<int>, cur: seq<int>, carry: int)
    requires Doubling(l, cur, |l|, carry)
    ensures DoubleLimbs(l) == if carry != 0 then cur + [carry] else cur
  {
    assert AddLimbs(l, l)[|l|..] == [] && cur[..|l|] == cur;
  }

  lemma WithinAt(l: seq<int>, i: nat)
    requires Within(l, LIMB_MAX)
    ensures i < |l| ==> -LIMB_MAX <= l[i] <= LIMB_MAX
  {
  }

  // ---------------------------------------------------------------- halveM

  /** Limb i of the half: each limb takes the low bit of the one above. */
  function HalveLimbs(l: seq<int>): (r: seq<int>)
    ensures |r| == |l|
  {
    seq(|l|, i requires 0 <= i < |l| => (l[i] + (Limb(l, i + 1) % 2) * 0x100_0000) / 2)
  }

  lemma ParityOfVal(l: seq<int>)
    ensures Val(l) % 2 == Limb(l, 0) % 2
  {
  }

  lemma {:induction false} HalveValue(l: seq<int>)
    ensures Val(HalveLimbs(l)) == Val(l) / 2
    ensures Digits(l) ==> Digits(HalveLimbs(l))
  {
    if l != [] {
      assert HalveLimbs(l)[1..] == HalveLimbs(l[1..]);
      HalveValue(l[1..]);
      ParityOfVal(l[1..]);
      var v, t := Val(l[1..]), Limb(l, 1) % 2;
      assert v == 2 * (v / 2) + t;
    }
  }

  // ---------------------------------------------------------------- greaterEquals

  /** The sign of the highest nonzero limb. */
  function TopSign(d: seq<int>): (s: int)
    ensures -1 <= s <= 1
  {
    if d == [] then 0
    else if TopSign(d[1..]) != 0 then TopSign(d[1..])
    else if d[0] > 0 then 1 else if d[0] < 0 then -1 else 0
  }

  predicate Bit31(x: int) {
    x % 0x1_0000_0000 >= 0x8000_0000
  }

  /** The comparison's verdict on one difference of limbs: bit 31 of -d, then of d. */
  function Sign32(d: int): int {
    if Bit31(-d) then 1 else if Bit31(d) then -1 else 0
  }

  /** The verdict of the topmost difference that has one. */
  function TopSign32(d: seq<int>): (s: int)
    ensures -1 <= s <= 1
  {
    if d == [] then 0 else if TopSign32(d[1..]) != 0 then TopSign32(d[1..]) else Sign32(d[0])
  }

  /** The comparison's two running bits when only the differences from i on are seen. */
  predicate Judged(d: seq<int>, i: nat, greater: bool, less: bool) {
    i <= |d| && greater == (TopSign32(d[i..]) > 0) && less == (TopSign32(d[i..]) < 0)
  }

  lemma JudgedStart(d: seq<int>)
    ensures Judged(d, |d|, false, false)
  {
  }

  lemma JudgedStep(d: seq<int>, i: nat, greater: bool, less: bool)
    requires i < |d| && Judged(d, i + 1, greater, less)
    ensures var g := greater || (Bit31(-d[i]) && !less);
            Judged(d, i, g, less || (Bit31(d[i]) && !g))
  {
    hide Bit31;
    assert d[i..][1..] == d[i + 1..] && d[i..][0] == d[i];
  }

  lemma JudgedEnd(d: seq<int>, greater: bool, less: bool)
    requires Judged(d, 0, greater, less)
    ensures (greater || !less) == (TopSign32(d) >= 0)
  {
    assert d[0..] == d;
  }

  /** Differences that fit 32 bits are judged by their signs. */
  lemma {:induction false} TopSignFits(d: seq<int>)
    requires forall i :: 0 <= i < |d| ==> -0x8000_0000 < d[i] < 0x8000_0000
    ensures TopSign32(d) == TopSign(d)
  {
    if d != [] { TopSignFits(d[1..]); }
  }

  function Sign(v: int): int { if v > 0 then 1 else if v < 0 then -1 else 0 }

  /** The top sign is the sign of the value as soon as all limbs below the top are
      smaller than the place value. */
  lemma {:induction false} TopSignIsSign(d: seq<int>)
    requires forall i :: 0 <= i < |d| - 1 ==> -0x100_0000 < d[i] < 0x100_0000
    ensures TopSign(d) == Sign(Val(d))
  {
    if |d| > 1 { TopSignIsSign(d[1..]); }
  }

  lemma {:induction false} TopSignAt(d: seq<int>, k: nat)
    requires k < |d| && d[k] != 0 && forall i :: k < i < |d| ==> d[i] == 0
    ensures TopSign(d) == Sign(d[k])
  {
    if k == 0 { TopSignZero(d[1..]); } else { TopSignAt(d[1..], k - 1); }
  }

  lemma {:induction false} TopSignZero(d: seq<int>)
    requires forall i :: 0 <= i < |d| ==> d[i] == 0
    ensures TopSign(d) == 0
  {
    if d != [] { TopSignZero(d[1..]); }
  }

  /** A negative normal number is below every digit string, also limb by limb. */
  lemma NegativeBelowDigits(a: seq<int>, b: seq<int>)
    requires Normal(a) && a[|a| - 1] < 0 && Digits(b)
    ensures TopSign(SubLimbs(a, b)) == -1
  {
    var d := SubLimbs(a, b);
    var k := |d| - 1;
    while d[k] == 0
      invariant |a| - 1 <= k < |d|
      invariant forall i :: k < i < |d| ==> d[i] == 0
      decreases k
    {
      k := k - 1;
    }
    TopSignAt(d, k);
  }
  lemma NormalNonNegative(l: seq<int>)
    requires Normal(l)
    ensures Val(l) >= 0 <==> Digits(l)
  {
    ValTop(l);
    ValDigitsBound(l[..|l| - 1]);
    var p, t := Place(|l| - 1), l[|l| - 1];
    if t < 0 {
      MulMono(t, -1, p);
    } else {
      MulMono(0, t, p);
    }
  }

  /** Against a digit string, greaterEquals is true comparison for every normal number. */
  lemma CompareNormal(a: seq<int>, b: seq<int>)
    requires Normal(a) && Digits(b)
    ensures TopSign(SubLimbs(a, b)) == Sign(Val(a) - Val(b))
  {
    hide Val, TopSign;
    NormalNonNegative(a);
    ValDigitsBound(b);
    ValAddSub(a, b);
    if Digits(a) {
      TopSignIsSign(SubLimbs(a, b));
    } else {
      assert forall i :: 0 <= i < |a| - 1 ==> a[i] == a[..|a| - 1][i];
      NegativeBelowDigits(a, b);
    }
  }

  lemma {:induction false} TopSignNonzero(d: seq<int>, k: nat)
    requires k < |d| && d[k] != 0
    ensures TopSign(d) != 0
  {
    if k > 0 { TopSignNonzero(d[1..], k - 1); }
  }

  /** Digit strings, read with zeros above them, are equal exactly when their values are. */
  lemma EqualLimbs(a: seq<int>, b: seq<int>)
    requires Digits(a) && Digits(b)
    ensures Val(a) == Val(b) <==> forall k: nat :: k < Max(|a|, |b|) ==> Limb(a, k) == Limb(b, k)
  {
    var d := SubLimbs(a, b);
    TopSignIsSign(d);
    ValAddSub(a, b);
    if forall k: nat :: k < Max(|a|, |b|) ==> Limb(a, k) == Limb(b, k) {
      ValZeros(d);
    } else {
      var k: nat :| k < Max(|a|, |b|) && Limb(a, k) != Limb(b, k);
      TopSignNonzero(d, k);
    }
  }

  lemma DigitsWithin(l: seq<int>)
    requires Digits(l)
    ensures Within(l, 0x100_0000) && Within(l, 0x200_0000) && Within(l, 0x1000_0000) && Within(l, LIMB_MAX)
  {
  }

  lemma WithinWider(l: seq<int>)
    ensures Within(l, 0x100_0000) ==> Within(l, 0x3fff_ffff)
    ensures Within(l, 0x3fff_ffff) ==> Within(l, LIMB_MAX)
    ensures Within([0], 0x3fff_ffff)
  {
  }

  lemma SmallValues()
    ensures Val([]) == 0 && Val([0]) == 0 && Val([1]) == 1
    ensures Digits([0]) && Digits([1])
  {
  }

  lemma SuffixStep(k: seq<int>, i: nat)
    requires i < |k|
    ensures Val(k[i..]) == k[i] + 0x100_0000 * Val(k[i + 1..])
  {
    assert k[i..][1..] == k[i + 1..];
  }

  /** The limbs from i on, none past the end. */
  function Drop(k: seq<int>, i: nat): seq<int> {
    if i <= |k| then k[i..] else []
  }

  lemma DropPastEnd(k: seq<int>, i: int)
    requires i >= |k|
    ensures Val(Drop(k, i)) == 0 && Drop(k, 0) == k
  {
  }

  lemma DropStep(k: seq<int>, i: nat)
    ensures Val(Drop(k, i)) == Limb(k, i) + 0x100_0000 * Val(Drop(k, i + 1))
  {
    if i < |k| { SuffixStep(k, i); }
  }
}
