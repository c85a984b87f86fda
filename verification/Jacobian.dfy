/** Curve points: sjcl's Jacobian formulas against the affine chord-and-tangent sum.
    Coordinates are integers standing for residues modulo the field prime p, as sjcl's
    lazily reduced limbs do; only a comparison or toAffine reduces them. */
module Jacobian {
  import opened Congruence
  import opened Primes

  datatype Affine = Identity | Affine(x: int, y: int)

  datatype Jac = JacIdentity | Jac(x: int, y: int, z: int)

  /** The curve y^2 = x^3 + a x + b over the field of p elements. */
  datatype Curve = Curve(a: int, b: int, p: int)

  ghost predicate Field(c: Curve) {
    Prime(c.p) && c.p > 2
  }

  predicate Reduced(t: Affine, p: int) {
    t.Affine? ==> 0 <= t.x < p && 0 <= t.y < p
  }

  /** The right-hand side of the curve equation, as recoverYfromX nests it. */
  function Rhs(x: int, cv: Curve): int {
    cv.b + x * (cv.a + x * x)
  }

  predicate OnCurve(t: Affine, cv: Curve)
    requires cv.p > 0
  {
    t.Affine? ==> Cong(t.y * t.y, Rhs(t.x, cv), cv.p)
  }

  lemma RhsCong(x: int, x': int, cv: Curve)
    requires cv.p > 0 && Cong(x, x', cv.p)
    ensures Cong(Rhs(x, cv), Rhs(x', cv), cv.p)
  {
    var p := cv.p;
    CongMul(x, x', x, x', p);
    CongIntro(cv.a, cv.a, p, 0);
    CongIntro(cv.b, cv.b, p, 0);
    CongAdd(cv.a, cv.a, x * x, x' * x', p);
    CongMul(x, x', cv.a + x * x, cv.a + x' * x', p);
    CongAdd(cv.b, cv.b, x * (cv.a + x * x), x' * (cv.a + x' * x'), p);
  }

  // ---------------------------------------------------------------- the formulas

  function ToJac(t: Affine): Jac {
    match t
    case Identity => JacIdentity
    case Affine(x, y) => Jac(x, y, 1)
  }

  /** field.inverse: power(p - 2). */
  function FieldInverse(z: int, p: int): int
    requires p > 2
  {
    Pow(z % p, p - 2) % p
  }

  function ToAffine(s: Jac, p: int): (t: Affine)
    requires p > 2
    ensures Reduced(t, p)
  {
    if s.JacIdentity? || s.z % p == 0 then Identity
    else
      var zi := FieldInverse(s.z, p);
      Affine(s.x * (zi * zi) % p, s.y * (zi * zi * zi) % p)
  }

  /** pointJac.doubl. The source has a second form of c for a = -3, guarded by comparing hex
      strings that never agree; see DoublFormsAgree. */
  function Doubl(s: Jac, c: Curve): Jac {
    if s.JacIdentity? then s
    else
      var y2 := s.y * s.y;
      var a := y2 * (s.x * 4);
      var b := y2 * y2 * 8;
      var z2 := s.z * s.z;
      var m := s.x * s.x * 3 + z2 * z2 * c.a;
      var x := m * m - a - a;
      var y := (a - x) * m - b;
      var z := (s.y + s.y) * s.z;
      Jac(x, y, z)
  }

  /** pointJac.add: Jacobian plus affine. */
  function Add(s: Jac, t: Affine, cv: Curve): Jac
    requires cv.p > 2
  {
    if s.JacIdentity? then ToJac(t)
    else if t.Identity? then s
    else
      var sz2 := s.z * s.z;
      var c := t.x * sz2 - s.x;
      if c % cv.p == 0 then
        if (s.y - t.y * (sz2 * s.z)) % cv.p == 0 then Doubl(s, cv) else JacIdentity
      else
        var d := t.y * (sz2 * s.z) - s.y;
        var c2 := c * c;
        var x1 := d * d;
        var x2 := c * c * c + (s.x + s.x) * c2;
        var x := x1 - x2;
        var y1 := (s.x * c2 - x) * d;
        var y2 := s.y * (c * c * c);
        Jac(x, y1 - y2, s.z * c)
  }

  lemma DoublFormsAgree(x: int, z2: int, a: int, p: int)
    requires p > 0 && Cong(a, -3, p)
    ensures Cong((x - z2) * 3 * (x + z2), x * x * 3 + z2 * z2 * a, p)
  {
    var k := CongElim(a, -3, p);
    assert (x - z2) * 3 * (x + z2) == x * x * 3 - z2 * z2 * 3;
    assert z2 * z2 * (-3 + k * p) == z2 * z2 * -3 + (z2 * z2 * k) * p;
    CongIntro((x - z2) * 3 * (x + z2), x * x * 3 + z2 * z2 * a, p, -(z2 * z2 * k));
  }

  // ---------------------------------------------------------------- the affine sum

  /** lambda is num / den in the field. */
  predicate Slope(lambda: int, num: int, den: int, p: int)
    requires p > 0
  {
    Cong(lambda * den, num, p)
  }

  /** The third point on a line of slope lambda, reflected. */
  function Third(lambda: int, x1: int, y1: int, x2: int, p: int): Affine
    requires p > 0
  {
    var x3 := lambda * lambda - x1 - x2;
    Affine(x3 % p, (lambda * (x1 - x3) - y1) % p)
  }

  /** r = s + t by section 2.2.1 of SEC 1. */
  ghost predicate AffineSum(s: Affine, t: Affine, r: Affine, c: Curve)
    requires c.p > 2
  {
    if s.Identity? then r == t
    else if t.Identity? then r == s
    else if s.x != t.x then
      exists l :: Slope(l, t.y - s.y, t.x - s.x, c.p) && r == Third(l, s.x, s.y, t.x, c.p)
    else if s.y != t.y || s.y == 0 then r == Identity
    else
      exists l :: Slope(l, 3 * (s.x * s.x) + c.a, 2 * s.y, c.p) && r == Third(l, s.x, s.y, s.x, c.p)
  }

  // ---------------------------------------------------------------- proofs

  lemma NonzeroInverse(z: int, p: int)
    requires Prime(p) && p > 2 && z % p != 0
    ensures Cong(z * FieldInverse(z, p), 1, p)
  {
    var u := z % p;
    CongMod(z, p);
    assert u % p == u by { SmallResidue(u, p); }
    Fermat(u, p);
    assert Pow(u, p - 1) == u * Pow(u, p - 2);
    hide Pow;
    CongMod(Pow(u, p - 2), p);
    CongMul(z, u, FieldInverse(z, p), Pow(u, p - 2), p);
    CongSymTrans(z * FieldInverse(z, p), u * Pow(u, p - 2), 1, p);
  }

  lemma CongScale(k: int, a: int, b: int, p: int)
    requires p > 0 && Cong(a, b, p)
    ensures Cong(k * a, k * b, p) && Cong(a * k, b * k, p)
  {
    CongIntro(k, k, p, 0);
    CongMul(k, k, a, b, p);
    CongMul(a, b, k, k, p);
  }

  /** (X, Y, Z) with Z not 0 denotes the affine point (x, y). */
  predicate Denotes(s: Jac, x: int, y: int, p: int)
    requires p > 0
  {
    && s.Jac? && s.z % p != 0
    && Cong(s.x, x * (s.z * s.z), p)
    && Cong(s.y, y * (s.z * s.z * s.z), p)
  }

  /** Scaling by powers of an inverse undoes scaling by powers of z. */
  lemma Unscale(u: int, w: int, s: int, si: int, p: int)
    requires p > 0 && Cong(u, w * s, p) && Cong(s * si, 1, p)
    ensures Cong(u * si, w, p)
  {
    CongScale(si, u, w * s, p);
    CongScale(w, s * si, 1, p);
    assert w * s * si == w * (s * si);
    CongSymTrans(u * si, w * s * si, w, p);
  }

  lemma PowersOfInverse(z: int, zi: int, p: int)
    requires p > 0 && Cong(z * zi, 1, p)
    ensures Cong(z * z * (zi * zi), 1, p) && Cong(z * z * z * (zi * zi * zi), 1, p)
  {
    CongMul(z * zi, 1, z * zi, 1, p);
    assert z * zi * (z * zi) == z * z * (zi * zi);
    CongMul(z * z * (zi * zi), 1, z * zi, 1, p);
    assert z * z * (zi * zi) * (z * zi) == z * z * z * (zi * zi * zi) by {
      var q, qi := z * z, zi * zi;
      assert q * qi * (z * zi) == q * z * (qi * zi);
    }
  }

  lemma DenotesToAffine(s: Jac, x: int, y: int, p: int)
    requires Prime(p) && p > 2 && Denotes(s, x, y, p)
    ensures ToAffine(s, p) == Affine(x % p, y % p)
  {
    var zi := FieldInverse(s.z, p);
    NonzeroInverse(s.z, p);
    PowersOfInverse(s.z, zi, p);
    Unscale(s.x, x, s.z * s.z, zi * zi, p);
    Unscale(s.y, y, s.z * s.z * s.z, zi * zi * zi, p);
    CongIffMod(s.x * (zi * zi), x, p);
    CongIffMod(s.y * (zi * zi * zi), y, p);
  }

  lemma ToAffineDenotes(s: Jac, p: int)
    requires Prime(p) && p > 2 && s.Jac? && s.z % p != 0
    ensures ToAffine(s, p).Affine? && Denotes(s, ToAffine(s, p).x, ToAffine(s, p).y, p)
  {
    var zi := FieldInverse(s.z, p);
    var z2, z3 := s.z * s.z, s.z * s.z * s.z;
    NonzeroInverse(s.z, p);
    PowersOfInverse(s.z, zi, p);
    Rescale(s.x, zi * zi, z2, p);
    Rescale(s.y, zi * zi * zi, z3, p);
  }

  lemma Rescale(u: int, si: int, s: int, p: int)
    requires p > 0 && Cong(s * si, 1, p)
    ensures Cong(u, u * si % p * s, p)
  {
    CongMod(u * si, p);
    CongScale(s, u * si % p, u * si, p);
    CongScale(u, s * si, 1, p);
    assert u * si * s == u * (s * si);
    CongSymTrans(u * si % p * s, u * si * s, u, p);
    CongSymTrans(u * si % p * s, u, u, p);
  }

  /** What both formulas reduce to: in units of w = Z3, the line's slope is m, the sum of
      the two abscissae s, the first point (u, v). */
  lemma LineResult(w: int, l: int, x1: int, y1: int, x2: int, m: int, s: int, u: int, v: int, p: int)
    requires p > 0
    requires Cong(m, l * w, p) && Cong(s, (x1 + x2) * (w * w), p)
    requires Cong(u, x1 * (w * w), p) && Cong(v, y1 * (w * w * w), p)
    ensures var x3 := l * l - x1 - x2;
            var x := m * m - s;
            && Cong(x, x3 * (w * w), p)
            && Cong((u - x) * m - v, (l * (x1 - x3) - y1) * (w * w * w), p)
  {
    var x3, x, w2 := l * l - x1 - x2, m * m - s, w * w;
    CongMul(m, l * w, m, l * w, p);
    assert l * w * (l * w) == l * l * w2;
    CongAdd(m * m, l * l * w2, s, (x1 + x2) * w2, p);
    assert l * l * w2 - (x1 + x2) * w2 == x3 * w2;
    CongAdd(u, x1 * w2, x, x3 * w2, p);
    assert x1 * w2 - x3 * w2 == (x1 - x3) * w2;
    CongMul(u - x, (x1 - x3) * w2, m, l * w, p);
    assert (x1 - x3) * w2 * (l * w) == l * (x1 - x3) * (w2 * w);
    CongAdd((u - x) * m, l * (x1 - x3) * (w2 * w), v, y1 * (w2 * w), p);
    assert l * (x1 - x3) * (w2 * w) - y1 * (w2 * w) == (l * (x1 - x3) - y1) * (w2 * w);
  }

  lemma ChordOffsets(s: Jac, x1: int, y1: int, x2: int, y2: int, l: int, p: int)
    requires p > 0 && Denotes(s, x1, y1, p) && Slope(l, y2 - y1, x2 - x1, p)
    ensures var c := x2 * (s.z * s.z) - s.x;
            var d := y2 * (s.z * s.z * s.z) - s.y;
            && Cong(c, (x2 - x1) * (s.z * s.z), p)
            && Cong(d, l * (s.z * c), p)
  {
    var z, z2, z3 := s.z, s.z * s.z, s.z * s.z * s.z;
    var c, d := x2 * z2 - s.x, y2 * z3 - s.y;
    CongIntro(x2 * z2, x2 * z2, p, 0);
    CongAdd(x2 * z2, x2 * z2, s.x, x1 * z2, p);
    assert x2 * z2 - x1 * z2 == (x2 - x1) * z2;
    CongIntro(y2 * z3, y2 * z3, p, 0);
    CongAdd(y2 * z3, y2 * z3, s.y, y1 * z3, p);
    assert y2 * z3 - y1 * z3 == z3 * (y2 - y1);
    CongScale(z3, l * (x2 - x1), y2 - y1, p);
    CongScale(l * z, c, (x2 - x1) * z2, p);
    assert l * z * ((x2 - x1) * z2) == z3 * (l * (x2 - x1)) by {
      assert z2 * z == z3;
      assert l * z * ((x2 - x1) * z2) == l * (x2 - x1) * (z2 * z);
    }
    assert l * z * c == l * (z * c);
    CongTrans(l * (z * c), z3 * (l * (x2 - x1)), z3 * (y2 - y1), p);
    CongSym(l * (z * c), z3 * (y2 - y1), p);
    CongTrans(d, z3 * (y2 - y1), l * (z * c), p);
  }

  /** The chord branch of add. */
  lemma Chord(s: Jac, x1: int, y1: int, x2: int, y2: int, l: int, cv: Curve)
    requires Field(cv) && Denotes(s, x1, y1, cv.p) && (x2 - x1) % cv.p != 0
    requires Slope(l, y2 - y1, x2 - x1, cv.p)
    ensures (x2 * (s.z * s.z) - s.x) % cv.p != 0
    ensures ToAffine(Add(s, Affine(x2, y2), cv), cv.p) == Third(l, x1, y1, x2, cv.p)
  {
    var p, z := cv.p, s.z;
    var z2, c := z * z, x2 * (z * z) - s.x;
    var cc, w := c * c, z * c;
    ChordOffsets(s, x1, y1, x2, y2, l, p);
    ProductNonzero(z, z, p);
    ProductNonzero(x2 - x1, z2, p);
    CongIffMod(c, (x2 - x1) * z2, p);
    CongIffMod(c, 0, p);
    assert c % p != 0;
    ProductNonzero(z, c, p);
    assert z2 * cc == w * w && z2 * z * (c * c * c) == w * w * w by { CubeOfProduct(z, c); }
    // u = X c^2, v = Y c^3, s = c^3 + 2 X c^2
    CongScale(cc, s.x, x1 * z2, p);
    assert x1 * z2 * cc == x1 * (w * w);
    CongScale(c * c * c, s.y, y1 * (z2 * z), p);
    assert y1 * (z2 * z) * (c * c * c) == y1 * (w * w * w);
    ChordSum(s.x, x1, x2, z2, c, w, p);
    assert x2 * z2 - s.x == c;
    LineResult(w, l, x1, y1, x2, y2 * (z2 * z) - s.y, c * c * c + (s.x + s.x) * cc, s.x * cc, s.y * (c * c * c), p);
    var r := Add(s, Affine(x2, y2), cv);
    assert r.z == w;
    var x3 := l * l - x1 - x2;
    DenotesToAffine(r, x3, l * (x1 - x3) - y1, p);
  }

  lemma CubeOfProduct(z: int, c: int)
    ensures z * z * (c * c) == z * c * (z * c)
    ensures z * z * z * (c * c * c) == z * c * (z * c) * (z * c)
  {
    var a, b := z * z, c * c;
    assert a * b == z * c * (z * c);
    assert a * z * (b * c) == a * b * (z * c);
  }

  lemma SumTimes(c: int, x: int, cc: int)
    ensures cc * c + (x + x) * cc == (c + x + x) * cc
  {
  }

  lemma ChordSum(x: int, x1: int, x2: int, z2: int, c: int, w: int, p: int)
    requires p > 0 && Cong(x, x1 * z2, p) && c == x2 * z2 - x && z2 * (c * c) == w * w
    ensures Cong(c * c * c + (x + x) * (c * c), (x1 + x2) * (w * w), p)
  {
    var cc := c * c;
    var xz := x2 * z2;
    assert cc * c + (x + x) * cc == (xz + x) * cc by { SumTimes(c, x, cc); }
    CongIntro(x2 * z2, x2 * z2, p, 0);
    CongAdd(x2 * z2, x2 * z2, x, x1 * z2, p);
    assert x2 * z2 + x1 * z2 == (x1 + x2) * z2;
    CongScale(cc, x2 * z2 + x, (x1 + x2) * z2, p);
    assert (x1 + x2) * z2 * cc == (x1 + x2) * (z2 * cc);
  }

  lemma TangentParts(s: Jac, x1: int, y1: int, l: int, a: int, p: int)
    requires p > 0 && Denotes(s, x1, y1, p) && Slope(l, 3 * (x1 * x1) + a, 2 * y1, p)
    ensures var w := (s.y + s.y) * s.z;
            var y2, z2 := s.y * s.y, s.z * s.z;
            && Cong(s.x * s.x * 3 + z2 * z2 * a, l * w, p)
            && Cong(y2 * (s.x * 4), x1 * (w * w), p)
            && Cong(y2 * y2 * 8, y1 * (w * w * w), p)
  {
    TangentSlope(s.x, s.y, s.z, x1, y1, l, a, p);
    TangentAbscissa(s.x, s.y, s.z, x1, p);
    TangentOrdinate(s.y, s.z, y1, p);
  }

  lemma TangentSlope(x: int, y: int, z: int, x1: int, y1: int, l: int, a: int, p: int)
    requires p > 0 && Cong(x, x1 * (z * z), p) && Cong(y, y1 * (z * z * z), p)
    requires Slope(l, 3 * (x1 * x1) + a, 2 * y1, p)
    ensures Cong(x * x * 3 + z * z * (z * z) * a, l * ((y + y) * z), p)
  {
    var z2 := z * z;
    var z4 := z2 * z2;
    CongMul(x, x1 * z2, x, x1 * z2, p);
    assert x1 * z2 * (x1 * z2) == x1 * x1 * z4;
    CongScale(3, x * x, x1 * x1 * z4, p);
    CongIntro(z4 * a, z4 * a, p, 0);
    CongAdd(3 * (x * x), 3 * (x1 * x1 * z4), z4 * a, z4 * a, p);
    assert 3 * (x1 * x1 * z4) + z4 * a == (3 * (x1 * x1) + a) * z4;
    // l w = 2 l z y = 2 l z y1 z^3 = (l 2 y1) z^4
    CongScale(2 * (l * z), y, y1 * (z2 * z), p);
    assert 2 * (l * z) * y == l * ((y + y) * z);
    assert 2 * (l * z) * (y1 * (z2 * z)) == l * (2 * y1) * z4 by {
      assert z * (z2 * z) == z4;
      assert 2 * (l * z) * (y1 * (z2 * z)) == 2 * l * y1 * (z * (z2 * z));
    }
    CongScale(z4, l * (2 * y1), 3 * (x1 * x1) + a, p);
    CongTrans(l * ((y + y) * z), l * (2 * y1) * z4, (3 * (x1 * x1) + a) * z4, p);
    CongSym(l * ((y + y) * z), (3 * (x1 * x1) + a) * z4, p);
    CongTrans(3 * (x * x) + z4 * a, (3 * (x1 * x1) + a) * z4, l * ((y + y) * z), p);
  }

  lemma TangentAbscissa(x: int, y: int, z: int, x1: int, p: int)
    requires p > 0 && Cong(x, x1 * (z * z), p)
    ensures Cong(y * y * (x * 4), x1 * ((y + y) * z * ((y + y) * z)), p)
  {
    var y2, z2 := y * y, z * z;
    CongScale(4 * y2, x, x1 * z2, p);
    assert 4 * y2 * x == y2 * (x * 4);
    assert (y + y) * z * ((y + y) * z) == 4 * (y2 * z2) by {
      var q := y * z;
      assert (y + y) * z == 2 * q;
      assert q * q == y2 * z2;
    }
    assert 4 * y2 * (x1 * z2) == x1 * (4 * (y2 * z2));
  }

  lemma TangentOrdinate(y: int, z: int, y1: int, p: int)
    requires p > 0 && Cong(y, y1 * (z * z * z), p)
    ensures Cong(y * y * (y * y) * 8, y1 * ((y + y) * z * ((y + y) * z) * ((y + y) * z)), p)
  {
    var y3, z3 := y * y * y, z * z * z;
    CongScale(8 * y3, y, y1 * z3, p);
    assert 8 * y3 * y == y * y * (y * y) * 8;
    assert (y + y) * z * ((y + y) * z) * ((y + y) * z) == 8 * (y3 * z3) by {
      var q := y * z;
      assert (y + y) * z == 2 * q;
      CubeOfProduct(y, z);
      assert 2 * q * (2 * q) * (2 * q) == 8 * (q * q * q);
    }
    assert 8 * y3 * (y1 * z3) == y1 * (8 * (y3 * z3));
  }

  /** doubl where the tangent is not vertical. */
  lemma Tangent(s: Jac, x1: int, y1: int, l: int, cv: Curve)
    requires Field(cv) && Denotes(s, x1, y1, cv.p) && y1 % cv.p != 0
    requires Slope(l, 3 * (x1 * x1) + cv.a, 2 * y1, cv.p)
    ensures ToAffine(Doubl(s, cv), cv.p) == Third(l, x1, y1, x1, cv.p)
  {
    var p, w := cv.p, (s.y + s.y) * s.z;
    var y2, z2 := s.y * s.y, s.z * s.z;
    TangentParts(s, x1, y1, l, cv.a, p);
    var u, v, m := y2 * (s.x * 4), y2 * y2 * 8, s.x * s.x * 3 + z2 * z2 * cv.a;
    CongAdd(u, x1 * (w * w), u, x1 * (w * w), p);
    assert x1 * (w * w) + x1 * (w * w) == (x1 + x1) * (w * w);
    LineResult(w, l, x1, y1, x1, m, u + u, u, v, p);
    TangentNonzero(s, x1, y1, p);
    var x3 := l * l - x1 - x1;
    var r := Doubl(s, cv);
    assert r == Jac(m * m - u - u, (u - (m * m - u - u)) * m - v, w);
    assert m * m - (u + u) == m * m - u - u;
    DenotesToAffine(r, x3, l * (x1 - x3) - y1, p);
  }

  lemma TangentNonzero(s: Jac, x1: int, y1: int, p: int)
    requires Prime(p) && p > 2 && Denotes(s, x1, y1, p)
    ensures ((s.y + s.y) * s.z) % p == 0 <==> y1 % p == 0
  {
    var z := s.z;
    CongIffMod(s.y, y1 * (z * z * z), p);
    assert s.y + s.y == 2 * s.y;
    if y1 % p == 0 {
      CongIntro(0, 0, p, 0);
      assert Cong(y1, 0, p);
      CongScale(z * z * z, y1, 0, p);
      CongTrans(s.y, y1 * (z * z * z), 0, p);
      CongScale(2 * z, s.y, 0, p);
      assert 2 * z * s.y == (s.y + s.y) * z;
    } else {
      ProductNonzero(z, z, p);
      ProductNonzero(z * z, z, p);
      ProductNonzero(y1, z * z * z, p);
      SmallResidue(2, p);
      ProductNonzero(2, s.y, p);
      ProductNonzero(s.y + s.y, z, p);
    }
  }

  lemma SlopeExists(num: int, den: int, p: int) returns (l: int)
    requires Prime(p) && p > 2 && den % p != 0
    ensures Slope(l, num, den, p)
  {
    var i := FieldInverse(den, p);
    NonzeroInverse(den, p);
    l := num * i;
    CongScale(num, den * i, 1, p);
    assert num * (den * i) == num * i * den;
  }

  lemma NonzeroDifference(x1: int, x2: int, p: int)
    requires 0 <= x1 < p && 0 <= x2 < p
    ensures (x2 - x1) % p == 0 <==> x1 == x2
  {
    if (x2 - x1) % p == 0 { CongUnique(x2, x1, p); }
    if x1 == x2 { MulMod(0, p); }
  }

  /** Doubling is right for every Jacobian triple, z = 0 and points of order two included. */
  lemma DoublCorrect(s: Jac, cv: Curve)
    requires Field(cv)
    ensures AffineSum(ToAffine(s, cv.p), ToAffine(s, cv.p), ToAffine(Doubl(s, cv), cv.p), cv)
  {
    var p := cv.p;
    if s.Jac? {
      if s.z % p == 0 {
        CongIntro(0, 0, p, 0);
        CongScale(s.y + s.y, s.z, 0, p);
      } else {
        var t := ToAffine(s, p);
        ToAffineDenotes(s, p);
        TangentNonzero(s, t.x, t.y, p);
        if t.y == 0 {
          MulMod(0, p);
        } else {
          SmallResidue(t.y, p);
          SmallResidue(2, p);
          ProductNonzero(2, t.y, p);
          var l := SlopeExists(3 * (t.x * t.x) + cv.a, 2 * t.y, p);
          Tangent(s, t.x, t.y, l, cv);
        }
      }
    }
  }

  /** Mixed addition is right exactly when it is not handed an unflagged z = 0 together with
      a proper affine point; in that one case the affine point is lost. */
  lemma AddCorrect(s: Jac, t: Affine, cv: Curve)
    requires Field(cv) && Reduced(t, cv.p)
    ensures AffineSum(ToAffine(s, cv.p), t, ToAffine(Add(s, t, cv), cv.p), cv)
            <==> (s.JacIdentity? || s.z % cv.p != 0 || t.Identity?)
  {
    var p := cv.p;
    if s.JacIdentity? {
      if t.Affine? { FromAffine(t, p); }
    } else if t.Identity? {
    } else if s.z % p == 0 {
      LostPoint(s, t, cv);
    } else {
      var q := ToAffine(s, p);
      ToAffineDenotes(s, p);
      AddAffine(s, q, t, cv);
    }
  }

  lemma FromAffine(t: Affine, p: int)
    requires Prime(p) && p > 2 && t.Affine? && Reduced(t, p)
    ensures ToAffine(ToJac(t), p) == t
  {
    SmallResidue(1, p);
    CongIntro(t.x, t.x, p, 0);
    CongIntro(t.y, t.y, p, 0);
    DenotesToAffine(ToJac(t), t.x, t.y, p);
    ResidueOf(t.x, p);
    ResidueOf(t.y, p);
  }

  lemma ResidueOf(x: int, p: int)
    requires 0 <= x < p
    ensures x % p == x
  {
  }

  lemma LostPoint(s: Jac, t: Affine, cv: Curve)
    requires Field(cv) && s.Jac? && s.z % cv.p == 0 && t.Affine?
    ensures ToAffine(Add(s, t, cv), cv.p) == Identity
  {
    var p := cv.p;
    CongIntro(0, 0, p, 0);
    CongScale(t.x * (s.z * s.z) - s.x, s.z, 0, p);
    CongScale(s.y + s.y, s.z, 0, p);
  }

  lemma AddAffine(s: Jac, q: Affine, t: Affine, cv: Curve)
    requires Field(cv) && s.Jac? && q.Affine? && t.Affine? && Reduced(q, cv.p) && Reduced(t, cv.p)
    requires q == ToAffine(s, cv.p) && Denotes(s, q.x, q.y, cv.p)
    ensures AffineSum(q, t, ToAffine(Add(s, t, cv), cv.p), cv)
  {
    var p := cv.p;
    NonzeroDifference(q.x, t.x, p);
    if q.x != t.x {
      var l := SlopeExists(t.y - q.y, t.x - q.x, p);
      Chord(s, q.x, q.y, t.x, t.y, l, cv);
    } else {
      SameAbscissa(s, q, t, p);
      if q.y == t.y { DoublCorrect(s, cv); }
    }
  }

  /** With equal abscissae c vanishes, and the second test compares the ordinates. */
  lemma SameAbscissa(s: Jac, q: Affine, t: Affine, p: int)
    requires Prime(p) && p > 2 && s.Jac? && q.Affine? && t.Affine? && Reduced(q, p) && Reduced(t, p)
    requires Denotes(s, q.x, q.y, p) && q.x == t.x
    ensures (t.x * (s.z * s.z) - s.x) % p == 0
    ensures (s.y - t.y * (s.z * s.z * s.z)) % p == 0 <==> q.y == t.y
  {
    var z3 := s.z * s.z * s.z;
    CongSym(s.x, t.x * (s.z * s.z), p);
    NonzeroDifference(t.y, q.y, p);
    CongIntro(t.y * z3, t.y * z3, p, 0);
    CongAdd(s.y, q.y * z3, t.y * z3, t.y * z3, p);
    assert q.y * z3 - t.y * z3 == (q.y - t.y) * z3;
    CongIffMod(s.y - t.y * z3, (q.y - t.y) * z3, p);
    if q.y != t.y {
      ProductNonzero(s.z, s.z, p);
      ProductNonzero(s.z * s.z, s.z, p);
      ProductNonzero(q.y - t.y, z3, p);
    } else {
      MulMod(0, p);
    }
  }

  /** The affine sum is a function: the slope does not matter modulo p. */
  lemma AffineSumUnique(s: Affine, t: Affine, r: Affine, r': Affine, cv: Curve)
    requires Field(cv) && Reduced(s, cv.p) && Reduced(t, cv.p)
    requires AffineSum(s, t, r, cv) && AffineSum(s, t, r', cv)
    ensures r == r'
  {
    var p := cv.p;
    if s.Affine? && t.Affine? {
      NonzeroDifference(s.x, t.x, p);
      if s.x != t.x {
        var l :| Slope(l, t.y - s.y, t.x - s.x, p) && r == Third(l, s.x, s.y, t.x, p);
        var l' :| Slope(l', t.y - s.y, t.x - s.x, p) && r' == Third(l', s.x, s.y, t.x, p);
        SameThird(l, l', t.y - s.y, t.x - s.x, s.x, s.y, t.x, p);
      } else if s.y == t.y && s.y != 0 {
        SmallResidue(s.y, p);
        SmallResidue(2, p);
        ProductNonzero(2, s.y, p);
        var l :| Slope(l, 3 * (s.x * s.x) + cv.a, 2 * s.y, p) && r == Third(l, s.x, s.y, s.x, p);
        var l' :| Slope(l', 3 * (s.x * s.x) + cv.a, 2 * s.y, p) && r' == Third(l', s.x, s.y, s.x, p);
        SameThird(l, l', 3 * (s.x * s.x) + cv.a, 2 * s.y, s.x, s.y, s.x, p);
      }
    }
  }

  lemma SameThird(l: int, l': int, num: int, den: int, x1: int, y1: int, x2: int, p: int)
    requires Prime(p) && p > 2 && den % p != 0 && Slope(l, num, den, p) && Slope(l', num, den, p)
    ensures Third(l, x1, y1, x2, p) == Third(l', x1, y1, x2, p)
  {
    NonzeroInverse(den, p);
    CongSym(l' * den, num, p);
    CongTrans(l * den, num, l' * den, p);
    CongCancel(l, l', den, FieldInverse(den, p), p);
    var x, x' := l * l - x1 - x2, l' * l' - x1 - x2;
    CongMul(l, l', l, l', p);
    CongIntro(x1 + x2, x1 + x2, p, 0);
    CongAdd(l * l, l' * l', x1 + x2, x1 + x2, p);
    assert Cong(x, x', p);
    CongIntro(x1, x1, p, 0);
    CongIntro(y1, y1, p, 0);
    CongAdd(x1, x1, x, x', p);
    CongMul(l, l', x1 - x, x1 - x', p);
    CongAdd(l * (x1 - x), l' * (x1 - x'), y1, y1, p);
    CongIffMod(x, x', p);
    CongIffMod(l * (x1 - x) - y1, l' * (x1 - x') - y1, p);
  }
}
