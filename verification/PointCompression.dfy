/** Points as byte strings (sections 2.3.3 and 2.3.4 of SEC 1), as aion_crypto writes and
    reads them: the decoder takes a square root by powering, and powermod cannot return zero. */
module PointCompression {
  import opened Bignum
  import opened ByteStrings
  import opened Congruence
  import opened Jacobian
  import opened Limbs
  import opened Outcomes
  import PowerMod
  import opened Primes
  import Redc

  // ---------------------------------------------------------------- square roots

  function TopLimb(p: nat): nat {
    if p < 0x100_0000 then p else TopLimb(p / 0x100_0000)
  }

  /** powermod throws on a zero result for such a modulus (PowerMod.PowerMod). */
  predicate ThrowsOnZero(p: int) {
    p >= 0x100_0000 && TopLimb(p) != 1
  }

  /** recoverYfromX; None where powermod throws. */
  function RecoverY(x: int, odd: int, cv: Curve): Option<int>
    requires cv.p > 2
  {
    var y := Root(Rhs(x, cv) % cv.p, cv.p);
    if y == 0 && ThrowsOnZero(cv.p) then None else Some(WithParity(y, odd, cv.p))
  }

  /** y2.powermod((p + 1) / 4, p). */
  function Root(y2: int, p: int): int
    requires p > 2
  {
    Pow(y2, (p + 1) / 4) % p
  }

  /** The root, or its negative if the parity is not the wanted one. */
  function WithParity(y: int, odd: int, p: int): int {
    if y % 2 != odd then p - y else y
  }

  /** The number of limbs and the top one, read off a normal modulus. */
  lemma {:induction false} ThrowsByLimbs(l: seq<int>)
    requires Digits(l) && Trimmed(l) && Val(l) > 0
    ensures (|l| > 1 && l[|l| - 1] != 1) <==> ThrowsOnZero(Val(l))
    ensures TopLimb(Val(l)) == l[|l| - 1]
  {
    if |l| > 1 {
      ValDigitsBound(l[1..]);
      TopLimbNonzero(l[1..]);
      PlacePositive(|l| - 2);
      assert l[1..][|l| - 2] == l[|l| - 1];
      ThrowsByLimbs(l[1..]);
    }
  }

  /** recoverYfromX over limbs: the square root is powermod's, the exponent is halved in place. */
  method RecoverYfromX(x: Bn, odd: int, prime: Bn, a: Bn, b: Bn) returns (r: Option<Bn>)
    requires Digits(x.limbs) && Digits(prime.limbs) && Digits(a.limbs) && Digits(b.limbs)
    requires Trimmed(prime.limbs) && prime.V() > 2 && prime.V() % 2 == 1
    ensures var cv := Curve(a.V(), b.V(), prime.V());
            && (r.Some? <==> RecoverY(x.V(), odd, cv).Some?)
            && (r.Some? ==> r.value.V() == RecoverY(x.V(), odd, cv).value)
  {
    hide Val, Place, Cong, Digits, Pow, Within, ThrowsOnZero;
    ghost var p := prime.V();
    var xx := new Bn(x.limbs);
    var square := xx.MulDigits(xx);
    var squareMod := square.ModDigits(prime);
    var inner := a.PlusDigits(squareMod);
    var innerMod := inner.ModDigits(prime);
    var cubic := x.MulMod(innerMod, prime);
    var sum := b.PlusDigits(cubic);
    var y2 := sum.ModDigits(prime);
    RhsByParts(x.V(), a.V(), b.V(), squareMod.V(), innerMod.V(), cubic.V(), y2.V(), p);
    var e := QuarterExponent(prime);
    var power := PowerMod.PowerMod(y2, e, prime);
    ThrowsByLimbs(prime.limbs);
    if power.None? { return None; }
    var y := power.value;
    RootBy(y.V(), y2.V(), p);
    DigitsWithin(y.limbs);
    var isOdd := y.IsOdd();
    if (if isOdd then 1 else 0) != odd {
      DigitsWithin(prime.limbs);
      WithinWider(prime.limbs);
      WithinWider(y.limbs);
      y := prime.Minus(y);
    }
    return Some(y);
  }

  /** prime.add(1) halved twice; the carry of the addition is never propagated. */
  method QuarterExponent(prime: Bn) returns (e: Bn)
    requires Digits(prime.limbs)
    ensures fresh(e) && Within(e.limbs, LIMB_MAX) && e.V() == (prime.V() + 1) / 4
  {
    hide Val, HalveLimbs;
    var one := new Bn([1]);
    SmallValues();
    e := new Bn(prime.limbs);
    e.AddM(one);
    PlusOneWithin(prime.limbs);
    Redc.HalveWithin(e.limbs, 0x200_0000);
    e.HalveM();
    HalvedWithin(e.limbs);
    Redc.HalveWithin(e.limbs, 0x200_0000);
    e.HalveM();
    HalvedWithin(e.limbs);
  }

  lemma PlusOneWithin(l: seq<int>)
    requires Digits(l)
    ensures Within(AddLimbs(l, [1]), 0x200_0000) && Within(AddLimbs(l, [1]), 0x1000_0000)
  {
  }

  lemma HalvedWithin(l: seq<int>)
    ensures Within(l, 0x180_0000) ==> Within(l, 0x200_0000) && Within(l, 0x1000_0000) && Within(l, LIMB_MAX)
  {
  }

  lemma RhsByParts(x: int, a: int, b: int, sq: int, inner: int, cubic: int, y2: int, p: int)
    requires p > 0 && Cong(sq, x * x, p) && Cong(inner, a + sq, p) && Cong(cubic, x * inner, p)
    requires Cong(y2, b + cubic, p) && 0 <= y2 < p
    ensures y2 == Rhs(x, Curve(a, b, p)) % p
  {
    CongIntro(a, a, p, 0);
    CongIntro(b, b, p, 0);
    CongAdd(a, a, sq, x * x, p);
    CongTrans(inner, a + sq, a + x * x, p);
    CongScale(x, inner, a + x * x, p);
    CongTrans(cubic, x * inner, x * (a + x * x), p);
    CongAdd(b, b, cubic, x * (a + x * x), p);
    CongTrans(y2, b + cubic, b + x * (a + x * x), p);
    CongIffMod(y2, Rhs(x, Curve(a, b, p)), p);
    ResidueOf(y2, p);
  }

  lemma RootBy(y: int, y2: int, p: int)
    requires p > 2 && 0 <= y < p && Cong(y, Pow(y2, (p + 1) / 4), p)
    ensures y == Root(y2, p)
  {
    CongIffMod(y, Pow(y2, (p + 1) / 4), p);
    ResidueOf(y, p);
  }

  /** pointToBits(point, true). */
  function Encode(t: Affine): seq<byte> {
    match t
    case Identity => [0]
    case Affine(x, y) => [if y % 2 == 0 then 2 else 3] + ToBytes(x, 32)
  }

  /** The bytes from i to j - 1, as far as there are any. */
  function Field32(s: seq<byte>, i: nat, j: nat): seq<byte>
    requires i <= j
  {
    s[Min(i, |s|)..Min(j, |s|)]
  }

  /** pointFromBits: None where it throws. Coordinates stand for their residues. */
  function Decode(s: seq<byte>, cv: Curve): Option<Affine>
    requires cv.p > 2
  {
    var flag := if s == [] then 0 else s[0];
    if flag == 0 then Some(Identity)
    else if flag == 2 || flag == 3 then
      var x := BigEndian(Field32(s, 1, 33));
      match RecoverY(x, flag - 2, cv)
      case None => None
      case Some(y) => Validated(x, y, cv)
    else if flag == 4 then Validated(BigEndian(Field32(s, 1, 33)), BigEndian(Field32(s, 33, 65)), cv)
    else Validated(0, 0, cv)
  }

  /** isValid on freshly built field elements. */
  function Validated(x: int, y: int, cv: Curve): (t: Option<Affine>)
    requires cv.p > 2
    ensures t.Some? ==> t.value.Affine? && Reduced(t.value, cv.p)
  {
    var t := Affine(x % cv.p, y % cv.p);
    if OnCurve(t, cv) then Some(t) else None
  }

  ghost predicate Compressible(cv: Curve) {
    Prime(cv.p) && cv.p % 4 == 3 && cv.p <= Pow(256, 32)
  }

  /** Powering by (p + 1)/4 finds a root of every square when p is 3 modulo 4. */
  lemma SquareRoot(t: int, s: int, p: int)
    requires Prime(p) && p % 4 == 3 && p > 2 && 0 <= s < p && Cong(t * t, s, p)
    ensures 0 <= Root(s, p) < p && (Cong(Root(s, p), t, p) || Cong(Root(s, p), -t, p))
  {
    var e, n := (p + 1) / 4, Pow(s, (p + 1) / 4);
    var y := n % p;
    CongSym(t * t, s, p);
    CongPow(s, t * t, e, p);
    CongMod(n, p);
    CongTrans(y, n, Pow(t * t, e), p);
    CongMul(y, Pow(t * t, e), y, Pow(t * t, e), p);
    PowOfSquare(t, e);
    PowAdd(t, 2 * e, 2 * e);
    assert 4 * e == p + 1;
    PowerIsSquare(t, p);
    CongTrans(y * y, Pow(t, p + 1), t * t, p);
    RootsOfSquare(y, t, p);
  }

  lemma {:induction false} PowOfSquare(t: int, e: nat)
    ensures Pow(t * t, e) == Pow(t, 2 * e)
  {
    if e > 0 {
      PowOfSquare(t, e - 1);
      assert Pow(t, 2 * e) == t * Pow(t, 2 * e - 1) == t * (t * Pow(t, 2 * e - 2));
      var q := Pow(t, 2 * e - 2);
      assert t * t * q == t * (t * q);
    }
  }

  /** t^(p+1) = t^2 for every t. */
  lemma PowerIsSquare(t: int, p: int)
    requires Prime(p)
    ensures Cong(Pow(t, p + 1), t * t, p)
  {
    var u := t % p;
    CongMod(t, p);
    CongPow(t, u, p + 1, p);
    FermatPower(u, p);
    assert Pow(u, p + 1) == u * Pow(u, p);
    CongScale(u, Pow(u, p), u, p);
    CongMul(u, t, u, t, p);
    CongTrans(Pow(t, p + 1), Pow(u, p + 1), u * u, p);
    CongTrans(Pow(t, p + 1), u * u, t * t, p);
  }

  lemma RootsOfSquare(y: int, t: int, p: int)
    requires Prime(p) && Cong(y * y, t * t, p)
    ensures Cong(y, t, p) || Cong(y, -t, p)
  {
    DifferenceOfSquares(y, t);
    if (y - t) % p != 0 && (y - -t) % p != 0 {
      hide Prime;
      ProductNonzero(y - t, y - -t, p);
    }
  }

  lemma DifferenceOfSquares(y: int, t: int)
    ensures (y - t) * (y - -t) == y * y - t * t
  {
  }

  /** On the abscissa of a curve point, recoverYfromX finds the ordinate of wanted parity. */
  lemma RecoverFinds(x: int, t: Affine, odd: int, cv: Curve)
    requires Compressible(cv) && t.Affine? && Reduced(t, cv.p) && OnCurve(t, cv) && t.x == x % cv.p
    requires t.y % 2 == odd || t.y == 0
    requires !(t.y == 0 && ThrowsOnZero(cv.p)) && 0 <= odd <= 1
    ensures RecoverY(x, odd, cv).Some? && RecoverY(x, odd, cv).value % cv.p == t.y
  {
    hide Prime, Rhs, Cong, ThrowsOnZero, Root, WithParity, OnCurve;
    var p, s := cv.p, Rhs(x, cv) % cv.p;
    CompressibleBounds(cv);
    AbscissaSquare(x, t, cv);
    ModRange(Rhs(x, cv), p);
    ZeroSquare(t.y, s, p);
    SquareRoot(t.y, s, p);
    RootZero(s, p);
    if Cong(Root(s, p), t.y, p) {
      CongUnique(Root(s, p), t.y, p);
    } else {
      NegatedRoot(Root(s, p), t.y, p);
    }
    ChosenOrdinate(Root(s, p), t.y, odd, p);
  }

  lemma CompressibleBounds(cv: Curve)
    requires Compressible(cv)
    ensures cv.p > 2 && cv.p % 2 == 1
  {
    hide Pow;
  }

  lemma ModRange(v: int, p: int)
    requires p > 0
    ensures 0 <= v % p < p
  {
  }

  lemma ChosenOrdinate(y: int, t: int, odd: int, p: int)
    requires p % 2 == 1 && p > 0 && 0 <= t < p && 0 <= odd <= 1 && (t % 2 == odd || t == 0)
    requires y == t || (if t == 0 then y == 0 else y == p - t)
    ensures WithParity(y, odd, p) % p == t
  {
    ResidueOf(t, p);
    MulMod(1, p);
    assert 1 * p == p;
  }

  /** The right-hand side at x is the square of the point's ordinate. */
  lemma AbscissaSquare(x: int, t: Affine, cv: Curve)
    requires cv.p > 0 && t.Affine? && OnCurve(t, cv) && t.x == x % cv.p
    ensures Cong(t.y * t.y, Rhs(x, cv) % cv.p, cv.p)
  {
    CongMod(x, cv.p);
    RhsCong(t.x, x, cv);
    CongTrans(t.y * t.y, Rhs(t.x, cv), Rhs(x, cv), cv.p);
    CongMod(Rhs(x, cv), cv.p);
    CongTrans(t.y * t.y, Rhs(x, cv), Rhs(x, cv) % cv.p, cv.p);
  }

  lemma ZeroSquare(y: int, s: int, p: int)
    requires Prime(p) && 0 <= y < p && 0 <= s < p && Cong(y * y, s, p)
    ensures s == 0 <==> y == 0
  {
    if s == 0 && y != 0 {
      ResidueOf(y, p);
      ProductNonzero(y, y, p);
    }
    if y == 0 { CongUnique(0, s, p); }
  }

  lemma NegatedRoot(y: int, t: int, p: int)
    requires p > 0 && 0 <= y < p && 0 <= t < p && Cong(y, -t, p)
    ensures if t == 0 then y == 0 else y == p - t
  {
    CongIntro(-t, p - t, p, -1);
    CongTrans(y, -t, p - t, p);
    if t == 0 {
      CongIntro(p, 0, p, 1);
      CongTrans(y, p, 0, p);
      CongUnique(y, 0, p);
    } else {
      CongUnique(y, p - t, p);
    }
  }

  /** A decoded type 2 or 3 string is exactly the curve point with that abscissa and parity;
      a zero ordinate matches both parities, but throws where powermod cannot return zero. */
  lemma DecodeExact(s: seq<byte>, t: Affine, cv: Curve)
    requires Compressible(cv) && |s| > 0 && (s[0] == 2 || s[0] == 3)
    ensures Decode(s, cv) == Some(t)
            <==> t.Affine? && Reduced(t, cv.p) && OnCurve(t, cv)
                 && t.x == BigEndian(Field32(s, 1, 33)) % cv.p
                 && (t.y % 2 == s[0] - 2 || t.y == 0)
                 && !(t.y == 0 && ThrowsOnZero(cv.p))
  {
    var x := BigEndian(Field32(s, 1, 33));
    if Decode(s, cv) == Some(t) {
      DecodedIsPoint(x, s[0] - 2, t, cv);
    } else if t.Affine? && Reduced(t, cv.p) && OnCurve(t, cv) && t.x == x % cv.p
              && (t.y % 2 == s[0] - 2 || t.y == 0) && !(t.y == 0 && ThrowsOnZero(cv.p)) {
      RecoverFinds(x, t, s[0] - 2, cv);
    }
  }

  lemma DecodedIsPoint(x: int, odd: int, t: Affine, cv: Curve)
    requires Compressible(cv) && 0 <= odd <= 1
    requires RecoverY(x, odd, cv).Some? && Validated(x, RecoverY(x, odd, cv).value, cv) == Some(t)
    ensures t.x == x % cv.p && (t.y % 2 == odd || t.y == 0) && !(t.y == 0 && ThrowsOnZero(cv.p))
  {
    hide Prime, Cong, Rhs, Root, WithParity, OnCurve, ThrowsOnZero;
    var p, s := cv.p, Rhs(x, cv) % cv.p;
    CompressibleBounds(cv);
    ValidatedOnCurve(x, RecoverY(x, odd, cv).value, t, cv);
    AbscissaSquare(x, t, cv);
    ModRange(Rhs(x, cv), p);
    ZeroSquare(t.y, s, p);
    RootRange(s, p);
    RootZero(s, p);
    ParityChosen(Root(s, p), odd, p);
  }

  lemma RootZero(s: int, p: int)
    requires Prime(p) && p > 2 && 0 <= s < p
    ensures Root(s, p) == 0 <==> s == 0
  {
    PowerDivides(s, (p + 1) / 4, p);
    ResidueOf(s, p);
  }

  lemma RootRange(s: int, p: int)
    requires p > 2
    ensures 0 <= Root(s, p) < p
  {
  }

  lemma ValidatedOnCurve(x: int, y: int, t: Affine, cv: Curve)
    requires cv.p > 2 && Validated(x, y, cv) == Some(t)
    ensures t == Affine(x % cv.p, y % cv.p) && OnCurve(t, cv) && Reduced(t, cv.p)
  {
  }

  lemma ParityChosen(y: int, odd: int, p: int)
    requires p % 2 == 1 && p > 2 && 0 <= y < p && 0 <= odd <= 1
    ensures var r := WithParity(y, odd, p) % p;
            r % 2 == odd || r == 0
  {
    if y == 0 {
      MulMod(1, p);
    } else {
      ResidueOf(y, p);
      ResidueOf(p - y, p);
    }
  }

  /** The other strings: 0 and nothing are the identity, 4 carries both coordinates, and every
      further type stands for the origin. */
  lemma DecodeOther(s: seq<byte>, t: Affine, cv: Curve)
    requires cv.p > 2 && (s == [] || (s[0] != 2 && s[0] != 3))
    ensures Decode(s, cv) == Some(t)
            <==> if s == [] || s[0] == 0 then t == Identity
                 else
                   && t.Affine? && Reduced(t, cv.p) && OnCurve(t, cv)
                   && Cong(t.x, if s[0] == 4 then BigEndian(Field32(s, 1, 33)) else 0, cv.p)
                   && Cong(t.y, if s[0] == 4 then BigEndian(Field32(s, 33, 65)) else 0, cv.p)
  {
    hide OnCurve, Field32, BigEndian;
    if s != [] && s[0] != 0 && t.Affine? && Reduced(t, cv.p) {
      var x: int := if s[0] == 4 then BigEndian(Field32(s, 1, 33)) else 0;
      var y: int := if s[0] == 4 then BigEndian(Field32(s, 33, 65)) else 0;
      CongIffMod(t.x, x, cv.p);
      CongIffMod(t.y, y, cv.p);
      ResidueOf(t.x, cv.p);
      ResidueOf(t.y, cv.p);
    }
  }

  /** Compression round-trips for every point but those with ordinate 0 on a throwing field. */
  lemma RoundTrip(t: Affine, cv: Curve)
    requires Compressible(cv) && Reduced(t, cv.p) && OnCurve(t, cv)
    ensures Decode(Encode(t), cv) == Some(t) <==> !(t.Affine? && t.y == 0 && ThrowsOnZero(cv.p))
  {
    if t.Affine? {
      var s := Encode(t);
      BytesRoundTrip(t.x, 32);
      assert Field32(s, 1, 33) == ToBytes(t.x, 32);
      ResidueOf(t.x, cv.p);
      DecodeExact(s, t, cv);
    }
  }
}
