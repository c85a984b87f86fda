/** sjcl.bn: a mutable array of 24-bit limbs with delayed carries. Every method states
    what it does to the limbs or to their value, and every intermediate number is shown
    to be exact in a double (or a 32-bit integer, where a bitwise operator sees it). */
module Bignum {
  import opened Congruence
  import opened Divisors
  import opened JsNumber
  import opened LimbProduct
  import opened Limbs
  import opened Outcomes
  import opened Redc

  class Bn {
    var limbs: seq<int>

    /** new sjcl.bn(it) on a limb array: a copy. */
    constructor (l: seq<int>)
      ensures limbs == l
    {
      limbs := l;
    }

    ghost function V(): int reads this { Val(limbs) }

    function GetLimb(i: nat): int reads this { Limb(limbs, i) }

    /** this += that. */
    method AddM(that: Bn)
      requires Within(limbs, LIMB_MAX) && Within(that.limbs, LIMB_MAX)
      modifies this
      ensures limbs == AddLimbs(old(limbs), old(that.limbs))
      ensures V() == old(V()) + old(that.V())
    {
      ghost var l, ll := limbs, that.limbs;
      var i := |limbs|;
      var n := |that.limbs|;
      if this != that {
        while i < |that.limbs|
          invariant |l| <= i <= Max(|l|, |ll|)
          invariant limbs == l + seq(i - |l|, _ => 0)
          invariant that.limbs == ll
        {
          limbs := limbs + [0];
          i := i + 1;
        }
      }
      assert |limbs| == Max(|l|, |ll|);
      assert forall k: nat :: Limb(limbs, k) == Limb(l, k);
      i := 0;
      while i < n
        invariant 0 <= i <= n == |ll| <= |limbs| == Max(|l|, |ll|)
        invariant this != that ==> that.limbs == ll
        invariant forall k :: 0 <= k < i ==> limbs[k] == Limb(l, k) + Limb(ll, k)
        invariant forall k :: i <= k < |limbs| ==> limbs[k] == Limb(l, k)
      {
        assert that.limbs[i] == Limb(ll, i);
        assert Exact(Limb(l, i) + Limb(ll, i));
        limbs := limbs[i := limbs[i] + that.limbs[i]];
        i := i + 1;
      }
      assert limbs == AddLimbs(l, ll);
      ValAddSub(l, ll);
    }

    /** this -= that. */
    method SubM(that: Bn)
      requires that != this
      requires Within(limbs, LIMB_MAX) && Within(that.limbs, LIMB_MAX)
      modifies this
      ensures limbs == SubLimbs(old(limbs), that.limbs)
      ensures V() == old(V()) - that.V()
    {
      ghost var l, ll := limbs, that.limbs;
      var i := |limbs|;
      while i < |that.limbs|
        invariant |l| <= i <= Max(|l|, |ll|)
        invariant limbs == l + seq(i - |l|, _ => 0)
      {
        limbs := limbs + [0];
        i := i + 1;
      }
      assert forall k: nat :: Limb(limbs, k) == Limb(l, k);
      i := 0;
      while i < |that.limbs|
        invariant 0 <= i <= |ll| <= |limbs| == Max(|l|, |ll|)
        invariant forall k :: 0 <= k < i ==> limbs[k] == Limb(l, k) - Limb(ll, k)
        invariant forall k :: i <= k < |limbs| ==> limbs[k] == Limb(l, k)
      {
        assert Exact(Limb(l, i) - Limb(ll, i));
        limbs := limbs[i := limbs[i] - that.limbs[i]];
        i := i + 1;
      }
      assert limbs == SubLimbs(l, ll);
      ValAddSub(l, ll);
    }

    /** this *= 2. */
    method DoubleM()
      requires Digits(limbs)
      modifies this
      ensures limbs == DoubleLimbs(old(limbs))
      ensures Digits(limbs) && V() == 2 * old(V())
    {
      hide Val, Place, Doubling, DoubleLimbs, Digits;
      ghost var l := limbs;
      DoublingStart(l);
      var i, carry := 0, 0;
      while i < |limbs|
        invariant 0 <= i <= |limbs| == |l| && Doubling(l, limbs, i, carry)
      {
        DoublingFacts(l, limbs, i, carry);
        DoublingStep(l, limbs, i, carry);
        var tmp := limbs[i];
        tmp := tmp + tmp + carry;
        limbs := limbs[i := Low24(tmp)];
        ShrRadix(tmp);
        carry := Shr(tmp, 24);
        i := i + 1;
      }
      DoublingEnd(l, limbs, carry);
      if carry != 0 {
        limbs := limbs + [carry];
      }
      DoubleCorrect(l);
    }

    /** this /= 2, rounded down. A single zero limb is dropped from the top. */
    method HalveM()
      requires Within(limbs, 0x1000_0000)
      modifies this
      ensures limbs == (var h := HalveLimbs(old(limbs));
                        if h != [] && h[|h| - 1] == 0 then h[..|h| - 1] else h)
      ensures V() == old(V()) / 2 && (Digits(old(limbs)) ==> Digits(limbs))
    {
      hide Val, Place;
      ghost var l := limbs;
      var carry := 0;
      var i := |limbs| - 1;
      while i >= 0
        invariant -1 <= i < |limbs| == |l|
        invariant carry == (Limb(l, i + 1) % 2) * 0x100_0000
        invariant limbs[..i + 1] == l[..i + 1]
        invariant forall k :: i < k < |l| ==> limbs[k] == HalveLimbs(l)[k]
      {
        var tmp := limbs[i];
        assert tmp == l[i] == Limb(l, i) && Int32(tmp + carry);
        assert Pow(2, 1) == 2;
        limbs := limbs[i := Shr(tmp + carry, 1)];
        carry := Bit0(tmp) * 0x100_0000;
        i := i - 1;
      }
      assert limbs == HalveLimbs(l);
      HalveValue(l);
      if limbs != [] && limbs[|limbs| - 1] == 0 {
        ValTop(limbs);
        limbs := limbs[..|limbs| - 1];
      }
    }

    /** 1 when this >= that limb by limb from the top, using the sign bits of the
        32-bit differences: `greater` and `less` are bit 31 of the source's variables. */
    method GreaterEquals(that: Bn) returns (ge: bool)
      requires Within(limbs, LIMB_MAX) && Within(that.limbs, LIMB_MAX)
      ensures ge == (TopSign32(SubLimbs(limbs, that.limbs)) >= 0)
      ensures Within(limbs, 0x3fff_ffff) && Within(that.limbs, 0x3fff_ffff) ==>
                ge == (TopSign(SubLimbs(limbs, that.limbs)) >= 0)
    {
      hide TopSign, TopSign32, SignBit, Bit31, Judged;
      ghost var d := SubLimbs(limbs, that.limbs);
      JudgedStart(d);
      var less, greater := false, false;
      var i := (if |limbs| < |that.limbs| then |that.limbs| else |limbs|) - 1;
      while i >= 0
        invariant -1 <= i < |d|
        invariant Judged(d, i + 1, greater, less)
      {
        var a, b := GetLimb(i), that.GetLimb(i);
        JudgedStep(d, i, greater, less);
        SignBitIs(a - b, d[i]);
        SignBitIs(b - a, -d[i]);
        greater := greater || (SignBit(b - a) && !less);
        less := less || (SignBit(a - b) && !greater);
        i := i - 1;
      }
      JudgedEnd(d, greater, less);
      if Within(limbs, 0x3fff_ffff) && Within(that.limbs, 0x3fff_ffff) { TopSignFits(d); }
      return greater || !less;
    }

    /** Drop zero limbs from the top, keeping one limb. On an empty array the source
        leaves a single undefined limb, which reads as zero ever after. */
    method TrimM()
      modifies this
      ensures limbs == Trim(old(limbs))
    {
      if limbs == [] { limbs := [0]; return; }
      var p := limbs[|limbs| - 1];
      limbs := limbs[..|limbs| - 1];
      while limbs != [] && p == 0
        invariant Trim(limbs + [p]) == Trim(old(limbs))
        decreases |limbs|
      {
        assert (limbs + [p])[..|limbs|] == limbs;
        assert limbs[..|limbs| - 1] + [limbs[|limbs| - 1]] == limbs;
        p := limbs[|limbs| - 1];
        limbs := limbs[..|limbs| - 1];
      }
      limbs := limbs + [p];
    }

    /** Propagate carries, past the top limb as long as they last. */
    method Normalize()
      requires Within(limbs, LIMB_MAX)
      modifies this
      ensures limbs == NormalForm(old(limbs))
      ensures V() == old(V()) && Normal(limbs)
    {
      hide Val, Place, Trim, Carrying, Carried, Normal, Digits, Within;
      ghost var l := limbs;
      CarryingStart(l);
      var carry, i, ll := 0, 0, |limbs|;
      while i < ll || (carry != 0 && carry != -1)
        invariant 0 <= i && |l| == ll && Carrying(l, limbs, i, carry)
        decreases if i < ll then ll - i else 0, Abs(carry)
      {
        CarryingStep(l, limbs, i, carry);
        CarryingFacts(l, limbs, i, carry);
        WithinAt(l, i);
        var t := (if i < |limbs| then limbs[i] else 0) + carry;
        var m := Low24(t);
        limbs := Put(limbs, i, m);
        carry := (t - m) / 0x100_0000;
        i := i + 1;
      }
      CarryingEnd(l, limbs, i, carry);
      if carry == -1 {
        limbs := limbs[i - 1 := limbs[i - 1] - 0x100_0000];
      }
      TrimM();
      NormalFormCorrect(l);
    }

    /** Propagate carries into the top limb, without growing. */
    method CNormalize()
      requires limbs != [] && Within(limbs, LIMB_MAX)
      modifies this
      ensures limbs == CarriedIntoTop(old(limbs))
      ensures V() == old(V()) && Digits(limbs[..|limbs| - 1])
    {
      hide Val, Place, CarryingInto, CarriedIntoTop, Digits, Within;
      ghost var l := limbs;
      CarryingIntoStart(l);
      var carry, i, ll := 0, 0, |limbs|;
      while i < ll - 1
        invariant 0 <= i <= ll - 1 && |limbs| == ll && CarryingInto(l, limbs, i, carry)
      {
        CarryingIntoFacts(l, limbs, i, carry);
        CarryingIntoStep(l, limbs, i, carry);
        WithinAt(l, i);
        var t := limbs[i] + carry;
        var m := Low24(t);
        limbs := limbs[i := m];
        carry := (t - m) / 0x100_0000;
        i := i + 1;
      }
      CarryingIntoFacts(l, limbs, i, carry);
      CarryingIntoEnd(l, limbs, i, carry);
      limbs := limbs[i := limbs[i] + carry];
      CarriedIntoTopValue(l);
      CarriedIntoTopDigits(l);
    }

    /** The inner loop of mul: one row of the schoolbook product. */
    method AddProductRow(i: nat, ai: int, that: Bn)
      requires this != that && i + |that.limbs| <= |limbs|
      requires Within(that.limbs, 0x100_0000) && -0x100_0000 <= ai <= 0x100_0000
      requires Within(limbs, ColumnMax(7))
      modifies this
      ensures limbs == AddRow(old(limbs), i, ai, that.limbs)
    {
      ghost var c, b := limbs, that.limbs;
      assert AddRow(c, i, ai, b[..0]) == c;
      var j := 0;
      while j < |that.limbs|
        invariant 0 <= j <= |b|
        invariant limbs == AddRow(c, i, ai, b[..j])
      {
        ProductBound(ai, b[j]);
        assert limbs[i + j] == c[i + j] && Exact(c[i + j] + ai * b[j]);
        limbs := limbs[i + j := limbs[i + j] + ai * that.limbs[j]];
        assert limbs == AddRow(c, i, ai, b[..j + 1]);
        j := j + 1;
      }
      assert b[..j] == b;
    }

    /** this * that, normalizing both. Every maxMul = 8 rows the columns are carried, so
        no column reaches 2^53 whatever the number of limbs. */
    method Mul(that: Bn) returns (out: Bn)
      requires Within(limbs, LIMB_MAX) && Within(that.limbs, LIMB_MAX)
      modifies this, that
      ensures V() == old(V()) && Normal(limbs) && that.V() == old(that.V()) && Normal(that.limbs)
      ensures fresh(out) && out.V() == V() * that.V()
      ensures |out.limbs| == |limbs| + |that.limbs| + 1 && Within(out.limbs, 0x100_0000)
      ensures out.V() >= 0 ==> Digits(out.limbs)
    {
      hide Columns, CarriedIntoTop, NormalForm, AddRow, Place;
      that.Normalize();
      Normalize();
      out := new Bn([]);
      ghost var a, b := limbs, that.limbs;
      var i, ii := 0, 8;
      out.limbs := seq(|limbs| + |that.limbs| + 1, _ => 0);
      ColumnsStart(a, b, out.limbs);
      while i < |limbs|
        invariant 0 <= i <= |a| && 1 <= ii <= 8
        invariant limbs == a && that.limbs == b && fresh(out)
        invariant Columns(a, b, out.limbs, i, 8 - ii)
      {
        ColumnsRow(a, b, out.limbs, i, 8 - ii);
        out.AddProductRow(i, limbs[i], that);
        ii := ii - 1;
        if ii == 0 {
          ii := 8;
          ColumnsCarry(a, b, out.limbs, i + 1, 8);
          out.CNormalize();
        }
        i := i + 1;
      }
      ColumnsCarry(a, b, out.limbs, i, 8 - ii);
      out.CNormalize();
      ColumnsDone(a, b, out.limbs);
    }

    /** mul on digit strings: the product is one again. */
    method MulDigits(that: Bn) returns (out: Bn)
      requires Digits(limbs) && Digits(that.limbs)
      modifies this, that
      ensures Digits(limbs) && V() == old(V()) && Digits(that.limbs) && that.V() == old(that.V())
      ensures fresh(out) && Digits(out.limbs) && out.V() == V() * that.V() && out.limbs != []
    {
      hide Val, Place, Digits, Normal;
      DigitsWithin(limbs);
      DigitsWithin(that.limbs);
      ValDigitsBound(limbs);
      ValDigitsBound(that.limbs);
      out := Mul(that);
      NormalNonNegative(limbs);
      NormalNonNegative(that.limbs);
      MulMono(0, V(), that.V());
    }

    /** add(that).normalize().trim() on digit strings, on a copy of this. */
    method PlusDigits(that: Bn) returns (out: Bn)
      requires Digits(limbs) && Digits(that.limbs)
      ensures fresh(out) && Digits(out.limbs) && Trimmed(out.limbs) && out.V() == V() + that.V()
    {
      hide Val, Place, NormalForm;
      ValDigitsBound(limbs);
      ValDigitsBound(that.limbs);
      out := new Bn(limbs);
      out.AddM(that);
      out.Normalize();
      NormalNonNegative(out.limbs);
      TrimValue(out.limbs);
      out.TrimM();
    }

    /** greaterEquals on normal numbers is comparison of values. */
    method AtLeast(that: Bn) returns (ge: bool)
      requires Normal(limbs) && Digits(that.limbs)
      ensures ge == (V() >= that.V())
    {
      NormalWithin(limbs);
      CompareNormal(limbs, that.limbs);
      ge := GreaterEquals(that);
    }

    /** this.sub(that).normalize(), on a copy of this. */
    method Minus(that: Bn) returns (out: Bn)
      requires Within(limbs, 0x3fff_ffff) && Within(that.limbs, 0x3fff_ffff)
      ensures fresh(out) && out.V() == V() - that.V() && Normal(out.limbs)
    {
      out := new Bn(limbs);
      out.SubM(that);
      out.Normalize();
    }

    /** The residue of this modulo that. The sign is read off the limbs before they are
        normalized, so the result is the representative in [0, that) exactly when the
        32-bit sign of the top nonzero limb is the sign of the value. */
    method Mod(that: Bn) returns (out: Bn)
      requires Within(limbs, LIMB_MAX) && Within(that.limbs, LIMB_MAX) && that.V() > 0
      ensures fresh(out) && Trimmed(out.limbs) && (out.V() >= 0 ==> Digits(out.limbs))
      ensures (0 <= out.V() < that.V() && Cong(out.V(), V(), that.V()))
              <==> ((TopSign32(limbs) >= 0) == (V() >= 0))
    {
      hide Cong, NormalForm, Place, Trim, Pow, Val, Normal, Within, Digits;
      ghost var m := that.V();
      var zero := new Bn([0]);
      SmallValues();
      WithinWider([0]);
      assert SubLimbs(limbs, [0]) == if limbs == [] then [0] else limbs;
      var nonneg := GreaterEquals(zero);
      var cap := new Bn(that.limbs);
      cap.Normalize();
      NormalNonNegative(cap.limbs);
      out := new Bn(limbs);
      out.Normalize();
      if !nonneg {
        NormalWithin(out.limbs);
        out := zero.Minus(out);
      }
      var ci := out.DoublePast(cap, m);
      if !nonneg {
        NormalWithin(out.limbs);
        out := cap.Minus(out);
      }
      ghost var u := out.V();
      out.SubtractDown(cap, ci, m);
      ModVerdict(V(), m, ci, nonneg, u, out.V());
    }

    /** limbs[0] & 1: the parity of the value. */
    method IsOdd() returns (odd: bool)
      requires Within(limbs, LIMB_MAX)
      ensures odd == (V() % 2 == 1)
    {
      ParityOfVal(limbs);
      return Bit0(GetLimb(0)) == 1;
    }

    /** Equality of limbs after normalizing both. */
    method Equals(that: Bn) returns (eq: bool)
      requires Within(limbs, LIMB_MAX) && Within(that.limbs, LIMB_MAX)
      requires V() >= 0 && that.V() >= 0
      modifies this, that
      ensures eq == (V() == that.V())
      ensures V() == old(V()) && Digits(limbs) && that.V() == old(that.V()) && Digits(that.limbs)
    {
      hide NormalForm, Val;
      that.Normalize();
      Normalize();
      NormalNonNegative(limbs);
      NormalNonNegative(that.limbs);
      var difference, i := false, 0;
      while i < |limbs| || i < |that.limbs|
        invariant 0 <= i <= Max(|limbs|, |that.limbs|)
        decreases Max(|limbs|, |that.limbs|) - i
        invariant !difference <==> forall k: nat :: k < i ==> Limb(limbs, k) == Limb(that.limbs, k)
      {
        difference := difference || GetLimb(i) != that.GetLimb(i);
        i := i + 1;
      }
      EqualLimbs(limbs, that.limbs);
      return !difference;
    }

    /** Inverse modulo an odd p by binary extended Euclid; None where the source throws. */
    method InverseMod(p: Bn) returns (r: Option<Bn>)
      requires Digits(limbs) && Digits(p.limbs) && p.V() > 1
      ensures r.Some? <==> p.V() % 2 == 1 && Coprime(V(), p.V())
      ensures r.Some? ==> fresh(r.value) && Digits(r.value.limbs) && 0 <= r.value.V() < p.V()
                          && Cong(r.value.V() * V(), 1, p.V())
    {
      hide Val, HalveLimbs, NormalForm, Place, Cong, Coprime, Euclid, Digits, Within;
      ghost var n, m := V(), p.V();
      DigitsWithin(p.limbs);
      var podd := p.IsOdd();
      if !podd { return None; }
      var a := new Bn([1]);
      var b := new Bn([0]);
      var x := new Bn(limbs);
      var y := new Bn(p.limbs);
      SmallValues();
      ValDigitsBound(limbs);
      EuclidStart(n, m);
      var nz := true;
      while nz
        invariant fresh(a) && fresh(b) && fresh(x) && fresh(y)
        invariant a != b && x != y && a != x && a != y && b != x && b != y
        invariant Digits(a.limbs) && Digits(b.limbs) && Digits(x.limbs) && Digits(y.limbs)
        invariant Euclid(n, m, x.V(), y.V(), a.V(), b.V()) && x.V() >= 0 && y.V() > 0
        invariant !nz ==> x.V() == 0
        decreases nz, x.V() + y.V()
      {
        DigitsWithin(x.limbs);
        var odd := x.IsOdd();
        if odd {
          a, b, x, y := SwapSubtract(a, b, x, y, p, n);
        }
        if !odd { DigitsWithin(a.limbs); }
        HalveBoth(a, b, x, y, p, n);
        nz := x.AnyLimb();
      }
      EuclidBounds(n, m, x.V(), y.V(), a.V(), b.V());
      DigitsWithin(y.limbs);
      EuclidEnd(n, m, y.V(), a.V(), b.V());
      var unit := new Bn([1]);
      DigitsWithin(unit.limbs);
      var coprime := y.Equals(unit);
      if !coprime { return None; }
      return Some(b);
    }

    /** The odd branch of inverseMod's loop: after a possible swap, x -= y and a -= b. */
    static method SwapSubtract(a0: Bn, b0: Bn, x0: Bn, y0: Bn, p: Bn, ghost n: int)
      returns (a: Bn, b: Bn, x: Bn, y: Bn)
      requires a0 != b0 && x0 != y0 && {a0, b0} !! {x0, y0} && p !in {a0, b0, x0, y0}
      requires Digits(a0.limbs) && Digits(b0.limbs) && Digits(x0.limbs) && Digits(y0.limbs)
      requires Digits(p.limbs) && p.V() > 1 && x0.V() % 2 == 1
      requires Euclid(n, p.V(), x0.V(), y0.V(), a0.V(), b0.V())
      modifies a0, b0, x0, y0
      ensures (a, b, x, y) == (a0, b0, x0, y0) || (a, b, x, y) == (b0, a0, y0, x0)
      ensures Within(a.limbs, 0x200_0000) && Digits(b.limbs) && Digits(x.limbs) && Digits(y.limbs)
      ensures Euclid(n, p.V(), x.V(), y.V(), a.V(), b.V()) && x.V() % 2 == 0
      ensures x.V() >= 0 && y.V() > 0 && x.V() + y.V() < old(x0.V() + y0.V())
    {
      hide Val, Cong, SameDivisors, Digits, Within;
      a, b, x, y := a0, b0, x0, y0;
      var ge := x.Reaches(y);
      if !ge {
        EuclidSwap(n, p.V(), x.V(), y.V(), a.V(), b.V());
        x, y := y, x;
        a, b := b, a;
      }
      EuclidSubtract(n, p.V(), x.V(), y.V(), a.V(), b.V());
      x.SubCarried(y);
      a.SubMod(b, p);
    }

    /** The rest of the loop body: cut x in half, and a after making it even. */
    static method HalveBoth(a: Bn, b: Bn, x: Bn, y: Bn, p: Bn, ghost n: int)
      requires a != b && x != y && {a, b} !! {x, y} && p !in {a, b, x, y}
      requires Within(a.limbs, 0x200_0000) && Digits(b.limbs) && Digits(x.limbs) && Digits(y.limbs)
      requires Digits(p.limbs) && p.V() > 1 && p.V() % 2 == 1 && x.V() % 2 == 0
      requires Euclid(n, p.V(), x.V(), y.V(), a.V(), b.V())
      modifies a, x
      ensures Digits(a.limbs) && Digits(x.limbs) && x.V() == old(x.V()) / 2
      ensures Euclid(n, p.V(), x.V(), y.V(), a.V(), b.V()) && x.V() >= 0 && y.V() > 0
    {
      hide Val, Cong, SameDivisors, Digits, Within, HalveLimbs;
      EuclidHalve(n, p.V(), x.V(), y.V(), a.V(), b.V());
      DigitsWithin(x.limbs);
      x.HalveM();
      a.HalveOdd(p);
    }

    /** greaterEquals on digit strings. */
    method Reaches(that: Bn) returns (ge: bool)
      requires Digits(limbs) && Digits(that.limbs)
      ensures ge == (V() >= that.V())
    {
      TopSignIsSign(SubLimbs(limbs, that.limbs));
      ValAddSub(limbs, that.limbs);
      ge := GreaterEquals(that);
    }

    /** this.subM(that).normalize() where the difference is not negative. */
    method SubCarried(that: Bn)
      requires this != that && Digits(limbs) && Digits(that.limbs) && V() >= that.V()
      modifies this
      ensures Digits(limbs) && V() == old(V()) - that.V()
    {
      hide Val, NormalForm;
      SubM(that);
      Normalize();
      NormalNonNegative(limbs);
    }

    /** inverseMod's coefficient step: a += p if a < b, then a -= b (left uncarried). */
    method SubMod(b: Bn, p: Bn)
      requires this != b && this != p && Digits(limbs) && Digits(b.limbs) && Digits(p.limbs)
      modifies this
      ensures Within(limbs, 0x200_0000)
      ensures V() == (if old(V()) >= b.V() then old(V()) - b.V() else old(V()) + p.V() - b.V())
    {
      hide Val;
      var ge := Reaches(b);
      if !ge { AddM(p); }
      SubM(b);
    }

    /** inverseMod's halving of the coefficient: an odd a first takes in p. */
    method HalveOdd(p: Bn)
      requires this != p && Within(limbs, 0x200_0000) && Digits(p.limbs) && V() >= 0
      modifies this
      ensures Digits(limbs) && V() == (if old(V()) % 2 == 1 then old(V()) + p.V() else old(V())) / 2
    {
      hide Val, NormalForm;
      ValDigitsBound(p.limbs);
      var odd := IsOdd();
      if odd { AddM(p); }
      Normalize();
      NormalNonNegative(limbs);
      NormalWithin(limbs);
      HalveValue(limbs);
      HalveM();
    }

    /** Whether any limb is nonzero. */
    method AnyLimb() returns (nz: bool)
      requires Digits(limbs)
      ensures nz == (V() != 0)
    {
      nz := false;
      var i := 0;
      while i < |limbs|
        invariant 0 <= i <= |limbs|
        invariant nz <==> exists k :: 0 <= k < i && limbs[k] != 0
      {
        nz := nz || limbs[i] != 0;
        i := i + 1;
      }
      EqualLimbs(limbs, []);
      if nz {
        ghost var k :| 0 <= k < |limbs| && limbs[k] != 0;
        assert Limb(limbs, k) != Limb([], k);
      }
    }

    /** mod on a digit string, whose limbs never hide its sign. */
    method ModDigits(that: Bn) returns (out: Bn)
      requires Digits(limbs) && Digits(that.limbs) && that.V() > 0
      ensures fresh(out) && Digits(out.limbs) && Trimmed(out.limbs)
      ensures 0 <= out.V() < that.V() && Cong(out.V(), V(), that.V())
    {
      hide Val, Place, Cong;
      ValDigitsBound(limbs);
      TopSignIsSign(limbs);
      TopSignFits(limbs);
      out := Mod(that);
    }

    /** this * that mod N, reducing before and after the product. */
    method MulMod(that: Bn, N: Bn) returns (out: Bn)
      requires Digits(limbs) && Digits(that.limbs) && Digits(N.limbs) && N.V() > 0
      ensures fresh(out) && Digits(out.limbs) && 0 <= out.V() < N.V()
      ensures Cong(out.V(), V() * that.V(), N.V())
    {
      hide Val, Cong, Digits;
      var a := ModDigits(N);
      var b := that.ModDigits(N);
      CongMul(a.V(), V(), b.V(), that.V(), N.V());
      var c := a.MulDigits(b);
      out := c.ModDigits(N);
      CongSymTrans(out.V(), a.V() * b.V(), V() * that.V(), N.V());
    }

    /** The length in bits, rounded up to a whole number of bytes. */
    method BitLength() returns (out: nat)
      requires Digits(limbs) && Trimmed(limbs)
      ensures V() < Pow(2, out) && out <= 24 * |limbs| && out % 8 == 0
      ensures out > 0 ==> Pow(2, out - 8) <= V()
      ensures out == 0 <==> V() == 0
    {
      hide Pow, Val, Place;
      var b := limbs[|limbs| - 1];
      var n := 0;
      PowZero();
      while b != 0
        invariant 0 <= b < 0x100_0000
        invariant Pow(2, n) > 0 && b == limbs[|limbs| - 1] / Pow(2, n)
        invariant n > 0 ==> limbs[|limbs| - 1] >= Pow(2, n - 1)
        decreases b
      {
        BitLengthStep(limbs[|limbs| - 1], n);
        b := b / 2;
        n := n + 1;
      }
      out := (24 * (|limbs| - 1) + n + 7) / 8 * 8;
      BitLengthValue(limbs, n, out);
    }

    /** First loop of mod: double cap until it exceeds this. */
    method DoublePast(cap: Bn, ghost m: int) returns (ci: nat)
      requires this != cap && Normal(limbs) && Digits(cap.limbs) && cap.V() == m > 0
      modifies cap
      ensures Digits(cap.limbs) && cap.V() == m * Pow(2, ci) > V()
      ensures ci > 0 ==> V() > 0
    {
      ci := 0;
      var ge := AtLeast(cap);
      while ge
        invariant cap.V() == m * Pow(2, ci) && cap.V() >= m && Digits(cap.limbs)
        invariant ge == (V() >= cap.V())
        invariant ci > 0 ==> V() > 0
        decreases V() - cap.V()
      {
        PastStep(m, ci);
        cap.DoubleM();
        ci := ci + 1;
        ge := AtLeast(cap);
      }
    }

    /** Second loop of mod: halve cap back, subtracting it wherever it fits; then trim. */
    method SubtractDown(cap: Bn, n: nat, ghost m: int)
      requires this != cap && Normal(limbs) && Digits(cap.limbs) && m > 0 && cap.V() == m * Pow(2, n)
      modifies this, cap
      ensures Trimmed(limbs) && (V() >= 0 ==> Digits(limbs))
      ensures 0 <= old(V()) < old(cap.V()) ==> 0 <= V() < m && Cong(V(), old(V()), m)
      ensures n == 0 ==> V() == old(V())
    {
      hide Cong, HalveLimbs, NormalForm, Place, Val;
      ghost var w := V();
      ghost var good := 0 <= w < cap.V();
      var ci := n;
      CongIntro(w, w, m, 0);
      while ci > 0
        invariant 0 <= ci <= n && cap.V() == m * Pow(2, ci) && Digits(cap.limbs) && Normal(limbs)
        invariant good ==> 0 <= V() < cap.V() && Cong(V(), w, m)
        invariant ci == n ==> V() == w
      {
        ci := ci - 1;
        PastStep(m, ci);
        HalveValue(cap.limbs);
        cap.HalveM();
        var ge := AtLeast(cap);
        if ge {
          CongShift(V(), w, m, Pow(2, ci));
          NormalWithin(limbs);
          SubM(cap);
          Normalize();
        }
      }
      NormalNonNegative(limbs);
      TrimValue(limbs);
      TrimM();
    }
  }

  lemma BitLengthStep(t: int, n: nat)
    requires Pow(2, n) > 0 && t / Pow(2, n) > 0
    ensures Pow(2, n + 1) > 0 && t / Pow(2, n) / 2 == t / Pow(2, n + 1) && t >= Pow(2, n)
  {
    DivDiv(t, Pow(2, n), 2);
    assert Pow(2, n) * 2 == Pow(2, n + 1);
    if t < Pow(2, n) {
      if t >= 0 { DivModUnique(t, Pow(2, n), 0, t); }
    }
  }

  /** Top limb t under p = 2^k, with n bits: the value has k + n bits. */
  lemma ValueBits(v: int, low: int, t: int, p: int, k: nat, n: nat)
    requires v == low + p * t && 0 <= low < p && 0 <= t < Pow(2, n)
    requires p * Pow(2, n) == Pow(2, k + n)
    requires n > 0 ==> t >= Pow(2, n - 1) && p * Pow(2, n - 1) == Pow(2, k + n - 1)
    ensures v < Pow(2, k + n) && (n > 0 ==> Pow(2, k + n - 1) <= v)
  {
    hide Pow;
    MulMono(t, Pow(2, n) - 1, p);
    MulAdd(p, Pow(2, n), -1);
    if n > 0 { MulMono(Pow(2, n - 1), t, p); }
  }

  lemma AtMost24(t: int, n: nat)
    requires 0 <= t < 0x100_0000 && n > 0 && t >= Pow(2, n - 1)
    ensures n <= 24
  {
    PlaceIsPow2(1);
    if n > 25 { PowMonotone(2, 24, n - 1); }
  }

  lemma PowNondecreasing(a: nat, b: nat)
    requires a <= b
    ensures Pow(2, a) <= Pow(2, b)
  {
    if a < b { PowMonotone(2, a, b); }
  }

  lemma BitLengthValue(l: seq<int>, n: nat, out: nat)
    requires Digits(l) && Trimmed(l) && Pow(2, n) > 0 && l[|l| - 1] / Pow(2, n) == 0
    requires n > 0 ==> l[|l| - 1] >= Pow(2, n - 1)
    requires out == (24 * (|l| - 1) + n + 7) / 8 * 8
    ensures Val(l) < Pow(2, out) && out <= 24 * |l| && out % 8 == 0
    ensures out > 0 ==> Pow(2, out - 8) <= Val(l)
    ensures out == 0 <==> Val(l) == 0
  {
    hide Pow, Place, Val;
    var t, p, k := l[|l| - 1], Place(|l| - 1), 24 * (|l| - 1);
    SmallQuotient(t, Pow(2, n));
    ValTop(l);
    ValDigitsBound(l[..|l| - 1]);
    CapIsPower(|l|, n);
    if n > 0 {
      CapIsPower(|l|, n - 1);
      AtMost24(t, n);
    } else {
      PowZero();
    }
    ValueBits(Val(l), Val(l[..|l| - 1]), t, p, k, n);
    RoundUp(|l| - 1, n, out);
    PowNondecreasing(k + n, out);
    if n > 0 {
      PowNondecreasing(out - 8, k + n - 1);
      PowPositive(2, out - 8);
    } else {
      TrimmedZero(l);
    }
  }

  lemma RoundUp(limbs: nat, n: nat, out: nat)
    requires out == (24 * limbs + n + 7) / 8 * 8
    ensures 24 * limbs + n <= out < 24 * limbs + n + 8 && out % 8 == 0
    ensures n <= 24 ==> out <= 24 * (limbs + 1)
    ensures n > 0 <==> out > 24 * limbs
  {
    // 24 limbs is a multiple of 8, so only n is rounded
    var q := (n + 7) / 8;
    DivModUnique(24 * limbs + n + 7, 8, 3 * limbs + q, (n + 7) % 8);
    DivModUnique(out, 8, 3 * limbs + q, 0);
  }

  lemma SmallQuotient(t: int, m: int)
    requires m > 0 && t >= 0 && t / m == 0
    ensures t < m
  {
  }

  lemma SignBitIs(x: int, d: int)
    requires Exact(x) && x == d
    ensures SignBit(x) == Bit31(d)
  {
  }

  lemma PowZero()
    ensures Pow(2, 0) == 1
  {
  }

  lemma TrimmedZero(l: seq<int>)
    requires Trimmed(l) && l[|l| - 1] == 0
    ensures l == [0] && Val(l) == 0
  {
  }

  lemma CongShift(u: int, w: int, m: int, k: int)
    requires m > 0
    ensures Cong(u, w, m) ==> Cong(u - m * k, w, m)
  {
    CongIntro(u - m * k, u, m, -k);
    if Cong(u, w, m) { CongSymTrans(u - m * k, u, w, m); }
  }

  lemma PastStep(m: int, ci: nat)
    ensures m * Pow(2, ci + 1) == 2 * (m * Pow(2, ci))
  {
  }

  /** Differences of digit strings are reduced properly by mod. */
  lemma DifferenceReduces(a: seq<int>, b: seq<int>)
    requires Digits(a) && Digits(b)
    ensures TopSign32(SubLimbs(a, b)) == Sign(Val(SubLimbs(a, b)))
  {
    hide Val;
    TopSignFits(SubLimbs(a, b));
    TopSignIsSign(SubLimbs(a, b));
  }

  /** A vector mod gets wrong: the value is 5, the sign read off the limbs is negative. It is
      what (2^24 - 1) + 6 - 2^24 leaves in the limbs, without a normalization in between. */
  lemma ModFails()
    ensures SubLimbs(AddLimbs([0xff_ffff, 0], [6, 0]), [0, 1]) == [0x100_0005, -1]
    ensures Val([0x100_0005, -1]) == 5 && TopSign32([0x100_0005, -1]) == -1
  {
    assert [0x100_0005, -1][1..] == [-1] && [-1][1..] == [];
    assert TopSign32([-1]) == -1 && Val([-1]) == -1;
  }

  /** From 2^31 + 1 on even a single limb is misread. */
  lemma WideLimbFails()
    ensures Val([0x8000_0001]) == 0x8000_0001 && TopSign32([0x8000_0001]) == -1
  {
    assert [0x8000_0001][1..] == [];
  }

  /** What the two loops of mod make of a number entering with value u. */
  lemma ModVerdict(v: int, m: int, ci: nat, nonneg: bool, u: int, r: int)
    requires m > 0 && u == (if nonneg then v else m * Pow(2, ci) + v)
    requires Abs(v) < m * Pow(2, ci) || nonneg != (v >= 0)
    requires nonneg != (v >= 0) ==> ci == 0
    requires 0 <= u < m * Pow(2, ci) ==> 0 <= r < m && Cong(r, u, m)
    requires ci == 0 ==> r == u
    ensures (0 <= r < m && Cong(r, v, m)) <==> nonneg == (v >= 0)
  {
    if nonneg == (v >= 0) {
      CongIntro(u, v, m, if nonneg then 0 else Pow(2, ci));
      CongSymTrans(r, u, v, m);
    } else {
      assert Pow(2, ci) == 1;
    }
  }
}
