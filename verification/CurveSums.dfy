/** The scalar loops in Jacobian coordinates: on a curve without a point of order two, sums of
    curve points stay on the curve and never reach the triple that addition gets wrong. */
module CurveSums {
  import opened Congruence
  import opened Jacobian
  import opened Primes

  /** The flagged identity, or an invertible z over a point of the curve. */
  ghost predicate Proper(s: Jac, cv: Curve)
    requires cv.p > 2
  {
    s.JacIdentity? || (s.z % cv.p != 0 && OnCurve(ToAffine(s, cv.p), cv))
  }

  /** No point with ordinate 0. */
  ghost predicate NoOrderTwo(cv: Curve)
    requires cv.p > 0
  {
    forall x :: Rhs(x, cv) % cv.p != 0
  }

  // ---------------------------------------------------------------- the third point

  /** What f - L^2 leaves of the product (x - x1)(x - x2)(x - x3), as alpha x + beta, when
      L = k + l x and x1 + x2 + x3 = l^2. */
  function Alpha(l: int, k: int, x1: int, x2: int, x3: int, a: int): int {
    a - 2 * (l * k) - (x1 * x2 + x1 * x3 + x2 * x3)
  }

  function Beta(k: int, x1: int, x2: int, x3: int, b: int): int {
    b - k * k + x1 * x2 * x3
  }

  lemma LineCubic(l: int, k: int, x1: int, x2: int, x3: int, x: int, cv: Curve)
    requires x1 + x2 + x3 == l * l
    ensures Rhs(x, cv) - (k + l * x) * (k + l * x)
            == (x - x1) * (x - x2) * (x - x3) + Alpha(l, k, x1, x2, x3, cv.a) * x + Beta(k, x1, x2, x3, cv.b)
  {
    var xx, s2 := x * x, x1 * x2 + x1 * x3 + x2 * x3;
    ProductOfThree(x, x1, x2, x3);
    assert (k + l * x) * (k + l * x) == k * k + 2 * (l * k) * x + l * l * xx by { SquareOfLine(k, l, x); }
    assert Rhs(x, cv) == cv.b + cv.a * x + xx * x by { MulAdd(x, cv.a, xx); }
    assert (cv.a - 2 * (l * k) - s2) * x == cv.a * x - 2 * (l * k) * x - s2 * x
      by { Spread(cv.a, 2 * (l * k), s2, x); }
  }

  lemma Spread(a: int, b: int, c: int, x: int)
    ensures (a - b - c) * x == a * x - b * x - c * x
  {
  }

  lemma SquareOfLine(k: int, l: int, x: int)
    ensures (k + l * x) * (k + l * x) == k * k + 2 * (l * k) * x + l * l * (x * x)
  {
    var y := l * x;
    assert (k + y) * (k + y) == k * k + 2 * (k * y) + y * y;
    assert y * y == l * l * (x * x);
    assert k * y == l * k * x;
  }

  lemma ProductOfThree(x: int, x1: int, x2: int, x3: int)
    ensures (x - x1) * (x - x2) * (x - x3)
            == x * x * x - (x1 + x2 + x3) * (x * x) + (x1 * x2 + x1 * x3 + x2 * x3) * x - x1 * x2 * x3
  {
    var s, q := x1 + x2, x1 * x2;
    ProductOfTwo(x, x1, x2);
    MonicTimes(x, s, q, x3);
    MulAdd(x3, x1, x2);
  }

  lemma ProductOfTwo(x: int, a: int, b: int)
    ensures (x - a) * (x - b) == x * x - (a + b) * x + a * b
  {
    MulAdd(x - a, x, -b);
  }

  lemma MonicTimes(x: int, s: int, q: int, t: int)
    ensures (x * x - s * x + q) * (x - t) == x * x * x - (s + t) * (x * x) + (q + t * s) * x - q * t
  {
    var xx, sx := x * x, s * x;
    ThreeTerms(xx, -sx, q, x);
    ThreeTerms(xx, -sx, q, -t);
    MulAdd(xx - sx + q, x, -t);
    assert sx * x == s * xx;
    assert sx * t == t * s * x;
    MulAdd(xx, s, t);
    MulAdd(x, q, t * s);
  }

  lemma ThreeTerms(a: int, b: int, c: int, x: int)
    ensures (a + b + c) * x == a * x + b * x + c * x
  {
  }

  /** Where the line passes through a point of the curve, the linear rest vanishes. */
  lemma RestVanishes(l: int, k: int, x1: int, x2: int, x3: int, x: int, y: int, cv: Curve)
    requires cv.p > 0 && x1 + x2 + x3 == l * l && x in {x1, x2, x3}
    requires Cong(y * y, Rhs(x, cv), cv.p) && Cong(y, k + l * x, cv.p)
    ensures (Alpha(l, k, x1, x2, x3, cv.a) * x + Beta(k, x1, x2, x3, cv.b)) % cv.p == 0
  {
    LineCubic(l, k, x1, x2, x3, x, cv);
    NoProduct(x - x1, x - x2, x - x3);
    hide Rhs, Alpha, Beta;
    var r, t := Rhs(x, cv), k + l * x;
    CongMul(y, t, y, t, cv.p);
    CongSym(y * y, r, cv.p);
    CongTrans(r, y * y, t * t, cv.p);
  }

  lemma NoProduct(a: int, b: int, c: int)
    requires a == 0 || b == 0 || c == 0
    ensures a * b * c == 0
  {
  }

  /** A linear rest that vanishes at x1 with alpha = 0 vanishes everywhere, and the third
      point is on the curve. */
  lemma ThirdOnCurve(l: int, x1: int, y1: int, x2: int, cv: Curve)
    requires cv.p > 2 && Cong(y1 * y1, Rhs(x1, cv), cv.p)
    requires var x3 := l * l - x1 - x2; Alpha(l, y1 - l * x1, x1, x2, x3, cv.a) % cv.p == 0
    ensures OnCurve(Third(l, x1, y1, x2, cv.p), cv)
  {
    var p, x3, k := cv.p, l * l - x1 - x2, y1 - l * x1;
    var y3 := l * (x1 - x3) - y1;
    var al, be := Alpha(l, k, x1, x2, x3, cv.a), Beta(k, x1, x2, x3, cv.b);
    CongIntro(y1, y1, p, 0);
    RestVanishes(l, k, x1, x2, x3, x1, y1, cv);
    CongIntro(al * (x3 - x1), 0, p, al / p * (x3 - x1)) by { assert al == al / p * p; Swap(al / p, p, x3 - x1); }
    CongAdd(al * x1 + be, 0, al * (x3 - x1), 0, p) by { CongIffMod(al * x1 + be, 0, p); }
    assert al * x1 + be + al * (x3 - x1) == al * x3 + be by { MulAdd(al, x1, x3 - x1); }
    LineCubic(l, k, x1, x2, x3, x3, cv);
    assert k + l * x3 == -y3 by { MulAdd(l, x1, -x3); }
    assert (-y3) * (-y3) == y3 * y3;
    assert Rhs(x3, cv) - y3 * y3 == al * x3 + be;
    CongSym(Rhs(x3, cv), y3 * y3, p);
    OnCurveResidues(x3, y3, cv);
  }

  lemma Swap(q: int, p: int, x: int)
    ensures q * p * x == q * x * p
  {
  }

  lemma OnCurveResidues(x: int, y: int, cv: Curve)
    requires cv.p > 0 && Cong(y * y, Rhs(x, cv), cv.p)
    ensures OnCurve(Affine(x % cv.p, y % cv.p), cv)
  {
    var p := cv.p;
    CongMod(x, p);
    CongMod(y, p);
    RhsCong(x, x % p, cv);
    CongMul(y % p, y, y % p, y, p);
    CongTrans(y % p * (y % p), y * y, Rhs(x, cv), p);
    CongTrans(y % p * (y % p), Rhs(x, cv), Rhs(x % p, cv), p);
  }

  /** The chord through two points of the curve meets it in a third. */
  lemma ChordOnCurve(l: int, x1: int, y1: int, x2: int, y2: int, cv: Curve)
    requires Field(cv) && (x2 - x1) % cv.p != 0 && Slope(l, y2 - y1, x2 - x1, cv.p)
    requires Cong(y1 * y1, Rhs(x1, cv), cv.p) && Cong(y2 * y2, Rhs(x2, cv), cv.p)
    ensures OnCurve(Third(l, x1, y1, x2, cv.p), cv)
  {
    hide Prime;
    var p, x3, k := cv.p, l * l - x1 - x2, y1 - l * x1;
    var al, be := Alpha(l, k, x1, x2, x3, cv.a), Beta(k, x1, x2, x3, cv.b);
    CongIntro(y1, y1, p, 0);
    RestVanishes(l, k, x1, x2, x3, x1, y1, cv);
    assert k + l * x2 == y1 + l * (x2 - x1) by { MulAdd(l, x2, -x1); }
    CongAdd(y1, y1, l * (x2 - x1), y2 - y1, p);
    CongSym(k + l * x2, y2, p);
    RestVanishes(l, k, x1, x2, x3, x2, y2, cv);
    CongIffMod(al * x1 + be, 0, p);
    CongIffMod(al * x2 + be, 0, p);
    CongAdd(al * x2 + be, 0, al * x1 + be, 0, p);
    assert al * (x2 - x1) == al * x2 + be - (al * x1 + be) by { MulAdd(al, x2, -x1); }
    CongIffMod(al * (x2 - x1), 0, p);
    if al % p != 0 { ProductNonzero(al, x2 - x1, p); }
    ThirdOnCurve(l, x1, y1, x2, cv);
  }

  /** The tangent at a point of the curve meets it once more. */
  lemma TangentOnCurve(l: int, x1: int, y1: int, cv: Curve)
    requires Field(cv) && Slope(l, 3 * (x1 * x1) + cv.a, 2 * y1, cv.p)
    requires Cong(y1 * y1, Rhs(x1, cv), cv.p)
    ensures OnCurve(Third(l, x1, y1, x1, cv.p), cv)
  {
    var p, x3, k := cv.p, l * l - x1 - x1, y1 - l * x1;
    var al := Alpha(l, k, x1, x1, x3, cv.a);
    TangentAlpha(l, x1, y1, cv.a);
    CongSym(l * (2 * y1), 3 * (x1 * x1) + cv.a, p);
    CongIffMod(al, 0, p);
    ThirdOnCurve(l, x1, y1, x1, cv);
  }

  lemma TangentAlpha(l: int, x1: int, y1: int, a: int)
    ensures Alpha(l, y1 - l * x1, x1, x1, l * l - x1 - x1, a) == 3 * (x1 * x1) + a - l * (2 * y1)
  {
    var ll, ly, xx, xl := l * l, l * y1, x1 * x1, x1 * (l * l);
    assert l * (y1 - l * x1) == ly - xl by {
      MulAdd(l, y1, -(l * x1));
      Commute(l, x1);
    }
    assert x1 * (ll - x1 - x1) == xl - 2 * xx by { MulAdd(x1, ll, -(2 * x1)); TwiceSquare(x1); }
    assert l * (2 * y1) == 2 * ly by { DoubleFactor(l, y1); }
  }

  lemma Commute(l: int, x: int)
    ensures l * -(l * x) == -(x * (l * l))
  {
  }

  lemma TwiceSquare(x: int)
    ensures x * -(2 * x) == -(2 * (x * x))
  {
  }

  lemma DoubleFactor(l: int, y: int)
    ensures l * (2 * y) == 2 * (l * y)
  {
  }

  // ---------------------------------------------------------------- the steps

  /** The affine sum of two curve points is on the curve. */
  lemma SumOnCurve(s: Affine, t: Affine, r: Affine, cv: Curve)
    requires Field(cv) && Reduced(s, cv.p) && Reduced(t, cv.p) && OnCurve(s, cv) && OnCurve(t, cv)
    requires AffineSum(s, t, r, cv)
    ensures OnCurve(r, cv)
  {
    hide Prime;
    if s.Affine? && t.Affine? {
      var p := cv.p;
      NonzeroDifference(s.x, t.x, p);
      if s.x != t.x {
        var l :| Slope(l, t.y - s.y, t.x - s.x, p) && r == Third(l, s.x, s.y, t.x, p);
        ChordOnCurve(l, s.x, s.y, t.x, t.y, cv);
      } else if s.y == t.y && s.y != 0 {
        var l :| Slope(l, 3 * (s.x * s.x) + cv.a, 2 * s.y, p) && r == Third(l, s.x, s.y, s.x, p);
        TangentOnCurve(l, s.x, s.y, cv);
      }
    }
  }

  /** The two points and the sum reflected in the axis lie on one line; reflecting is what tells
      the sum from the third point of the line. */
  lemma SumCollinear(s: Affine, t: Affine, r: Affine, cv: Curve)
    requires Field(cv) && Reduced(s, cv.p) && Reduced(t, cv.p) && s.Affine? && t.Affine? && s.x != t.x
    requires AffineSum(s, t, r, cv)
    ensures r.Affine? && Reduced(r, cv.p)
    ensures Cong((-r.y - s.y) * (t.x - s.x), (t.y - s.y) * (r.x - s.x), cv.p)
    ensures !Cong(t.x, s.x, cv.p)
  {
    hide Prime;
    var p := cv.p;
    var l :| Slope(l, t.y - s.y, t.x - s.x, p) && r == Third(l, s.x, s.y, t.x, p);
    NonzeroDifference(s.x, t.x, p);
    var x3 := l * l - s.x - t.x;
    var y3 := l * (s.x - x3) - s.y;
    CongMod(x3, p);
    CongMod(y3, p);
    OnLine(l, s.x, s.y, t.x - s.x, t.y - s.y, x3, y3, r.x, r.y, p);
  }

  lemma OnLine(l: int, x: int, y: int, dx: int, dy: int, x3: int, y3: int, rx: int, ry: int, p: int)
    requires p > 0 && Cong(l * dx, dy, p) && Cong(rx, x3, p) && Cong(ry, y3, p) && y3 == l * (x - x3) - y
    ensures Cong((-ry - y) * dx, dy * (rx - x), p)
  {
    CongIntro(y, y, p, 0);
    CongIntro(x, x, p, 0);
    CongIntro(0, 0, p, 0);
    CongAdd(0, 0, ry, y3, p);
    CongAdd(-ry, -y3, y, y, p);
    CongScale(dx, -ry - y, -y3 - y, p);
    assert -y3 - y == l * (x3 - x) by { MulAdd(l, x, -x3); MulAdd(l, x3, -x); }
    assert l * (x3 - x) * dx == l * dx * (x3 - x);
    CongAdd(rx, x3, x, x, p);
    CongSym(rx - x, x3 - x, p);
    CongMul(l * dx, dy, x3 - x, rx - x, p);
    CongTrans((-ry - y) * dx, l * dx * (x3 - x), dy * (rx - x), p);
  }

  lemma OrdinateNonzero(t: Affine, cv: Curve)
    requires cv.p > 2 && NoOrderTwo(cv) && t.Affine? && OnCurve(t, cv) && Reduced(t, cv.p)
    ensures t.y % cv.p != 0
  {
    hide Rhs, Cong;
    var r := Rhs(t.x, cv);
    CongIffMod(t.y * t.y, r, cv.p);
    ResidueOf(t.y, cv.p);
    ResidueOf(0, cv.p);
  }

  lemma DoublKeeps(s: Jac, cv: Curve)
    requires Field(cv) && NoOrderTwo(cv) && Proper(s, cv)
    ensures Proper(Doubl(s, cv), cv)
  {
    hide Prime, NoOrderTwo, AffineSum;
    if s.Jac? {
      var p, t := cv.p, ToAffine(s, cv.p);
      ToAffineDenotes(s, p);
      OrdinateNonzero(t, cv);
      TangentNonzero(s, t.x, t.y, p);
      DoublCorrect(s, cv);
      SumOnCurve(t, t, ToAffine(Doubl(s, cv), p), cv);
    }
  }

  lemma AddKeeps(s: Jac, t: Affine, cv: Curve)
    requires Field(cv) && NoOrderTwo(cv) && Proper(s, cv) && Reduced(t, cv.p) && OnCurve(t, cv)
    ensures Proper(Add(s, t, cv), cv)
    ensures AffineSum(ToAffine(s, cv.p), t, ToAffine(Add(s, t, cv), cv.p), cv)
  {
    hide Prime, NoOrderTwo, AffineSum;
    var p := cv.p;
    AddCorrect(s, t, cv);
    SumOnCurve(ToAffine(s, p), t, ToAffine(Add(s, t, cv), p), cv);
    if s.Jac? && t.Affine? {
      var c := t.x * (s.z * s.z) - s.x;
      if c % p == 0 { DoublKeeps(s, cv); } else { ProductNonzero(s.z, c, p); }
    } else if t.Affine? {
      SmallResidue(1, p);
    }
  }

  // ---------------------------------------------------------------- runs

  datatype Step = Twice | Plus(t: Affine)

  /** What a scalar loop makes of the identity it starts from. */
  function Run(steps: seq<Step>, cv: Curve): Jac
    requires cv.p > 2
  {
    if steps == [] then JacIdentity
    else
      var s := Run(steps[..|steps| - 1], cv);
      match steps[|steps| - 1]
      case Twice => Doubl(s, cv)
      case Plus(t) => Add(s, t, cv)
  }

  predicate OnCurveSteps(steps: seq<Step>, cv: Curve)
    requires cv.p > 2
  {
    forall i :: 0 <= i < |steps| && steps[i].Plus? ==> Reduced(steps[i].t, cv.p) && OnCurve(steps[i].t, cv)
  }

  /** Whatever curve points a loop adds, between whatever doublings: it stays proper, and the
      last step is the affine sum with the point added, or with itself. */
  lemma {:induction false} RunSums(steps: seq<Step>, cv: Curve)
    requires Field(cv) && NoOrderTwo(cv) && OnCurveSteps(steps, cv)
    ensures Proper(Run(steps, cv), cv)
    ensures steps != [] ==>
              var before := ToAffine(Run(steps[..|steps| - 1], cv), cv.p);
              var last := steps[|steps| - 1];
              AffineSum(before, if last.Twice? then before else last.t, ToAffine(Run(steps, cv), cv.p), cv)
  {
    hide Prime, NoOrderTwo, AffineSum, Proper;
    if steps == [] {
      ProperIdentity(cv);
    } else {
      var front, last := steps[..|steps| - 1], steps[|steps| - 1];
      assert OnCurveSteps(front, cv);
      RunSums(front, cv);
      var s := Run(front, cv);
      if last.Twice? {
        DoublKeeps(s, cv);
        DoublCorrect(s, cv);
      } else {
        AddKeeps(s, last.t, cv);
      }
    }
  }

  /** Doubling a point with ordinate 0 leaves an unflagged z = 0, and the next point is lost. */
  lemma OrderTwoLoses(x: int, cv: Curve)
    requires Field(cv) && Rhs(x, cv) % cv.p == 0
    ensures var t := Affine(x % cv.p, 0);
            && OnCurveSteps([Plus(t), Twice], cv)
            && !Proper(Run([Plus(t), Twice], cv), cv)
            && !AffineSum(ToAffine(Run([Plus(t), Twice], cv), cv.p), t,
                          ToAffine(Run([Plus(t), Twice, Plus(t)], cv), cv.p), cv)
  {
    var p, t := cv.p, Affine(x % cv.p, 0);
    CongMod(x, p);
    RhsCong(x, x % p, cv);
    CongIffMod(Rhs(x, cv), Rhs(x % p, cv), p);
    CongIffMod(0 * 0, Rhs(x % p, cv), p);
    hide Prime, Rhs, AffineSum;
    assert [Plus(t), Twice][..1] == [Plus(t)] && [Plus(t)][..0] == [];
    assert [Plus(t), Twice, Plus(t)][..2] == [Plus(t), Twice];
    assert Run([Plus(t)], cv) == Jac(x % p, 0, 1);
    var s := Doubl(Jac(x % p, 0, 1), cv);
    assert Run([Plus(t), Twice], cv) == s && s.z == 0;
    ResidueOf(0, p);
    AddCorrect(s, t, cv);
  }

  /** No loop over curve points meets the exception, on exactly the curves without a point of
      order two. */
  lemma ProperExactly(cv: Curve)
    requires Field(cv)
    ensures NoOrderTwo(cv) <==> forall steps | OnCurveSteps(steps, cv) :: Proper(Run(steps, cv), cv)
  {
    hide Prime, AffineSum, Rhs, Proper, OnCurveSteps, Run;
    if NoOrderTwo(cv) {
      forall steps | OnCurveSteps(steps, cv) ensures Proper(Run(steps, cv), cv) { RunSums(steps, cv); }
    } else {
      var x :| Rhs(x, cv) % cv.p == 0;
      OrderTwoLoses(x, cv);
    }
  }

  lemma ProperIdentity(cv: Curve)
    requires cv.p > 2
    ensures Proper(JacIdentity, cv)
  {
  }

  /** Entry i of the table of multiples: one doubling, then additions of the point. */
  function Multiple(i: nat, t: Affine, cv: Curve): Affine
    requires cv.p > 2
  {
    if i == 0 then Identity else if i == 1 then t else ToAffine(Run(MultipleSteps(i, t), cv), cv.p)
  }

  function MultipleSteps(i: nat, t: Affine): seq<Step> {
    if i == 0 then [] else if i == 1 then [Plus(t)] else if i == 2 then [Plus(t), Twice]
    else MultipleSteps(i - 1, t) + [Plus(t)]
  }

  lemma {:induction false} MultipleStepsOnCurve(i: nat, t: Affine, cv: Curve)
    requires cv.p > 2 && Reduced(t, cv.p) && OnCurve(t, cv)
    ensures OnCurveSteps(MultipleSteps(i, t), cv)
  {
    if i > 2 { MultipleStepsOnCurve(i - 1, t, cv); }
  }

  /** Every table entry is a curve point, so mult and mult2 only ever add curve points. */
  lemma TableOnCurve(i: nat, t: Affine, cv: Curve)
    requires Field(cv) && NoOrderTwo(cv) && Reduced(t, cv.p) && OnCurve(t, cv)
    ensures Reduced(Multiple(i, t, cv), cv.p) && OnCurve(Multiple(i, t, cv), cv)
  {
    hide Prime, NoOrderTwo, AffineSum;
    MultipleStepsOnCurve(i, t, cv);
    RunSums(MultipleSteps(i, t), cv);
  }
}
