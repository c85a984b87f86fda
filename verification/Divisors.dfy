/** Common divisors, as binary Euclid moves them about. */
module Divisors {
  import opened Congruence

  predicate Common(d: int, x: int, y: int) {
    d > 0 && x % d == 0 && y % d == 0
  }

  /** x and y have exactly the common divisors of n and p. */
  ghost predicate SameDivisors(x: int, y: int, n: int, p: int) {
    forall d :: Common(d, x, y) <==> Common(d, n, p)
  }

  ghost predicate Coprime(n: int, p: int) {
    forall d :: Common(d, n, p) ==> d == 1
  }

  lemma DividesLinear(d: int, x: int, y: int, s: int, t: int)
    requires Common(d, x, y)
    ensures (s * x + t * y) % d == 0
  {
    var k, l := x / d, y / d;
    assert s * x + t * y == (s * k + t * l) * d by {
      assert s * (k * d) == s * k * d && t * (l * d) == t * l * d;
    }
    MulMod(s * k + t * l, d);
  }

  lemma CommonSwap(x: int, y: int, n: int, p: int)
    requires SameDivisors(x, y, n, p)
    ensures SameDivisors(y, x, n, p)
  {
    forall d ensures Common(d, y, x) <==> Common(d, n, p) {
      assert Common(d, x, y) <==> Common(d, n, p);
    }
  }

  lemma CommonSub(x: int, y: int, n: int, p: int)
    requires SameDivisors(x, y, n, p)
    ensures SameDivisors(x - y, y, n, p)
  {
    forall d ensures Common(d, x - y, y) <==> Common(d, n, p) {
      assert Common(d, x, y) <==> Common(d, n, p);
      if Common(d, x, y) { DividesLinear(d, x, y, 1, -1); }
      if Common(d, x - y, y) { DividesLinear(d, x - y, y, 1, 1); }
    }
  }

  /** Halving an even x loses no divisor in common with an odd y. */
  lemma HalfCombination(w: int, h: int)
    ensures w == w * (2 * h + 1) - h * (2 * w)
  {
  }

  lemma CommonHalve(x: int, y: int, n: int, p: int)
    requires SameDivisors(x, y, n, p) && x % 2 == 0 && y % 2 == 1
    ensures SameDivisors(x / 2, y, n, p)
  {
    forall d ensures Common(d, x / 2, y) <==> Common(d, n, p) {
      assert Common(d, x, y) <==> Common(d, n, p);
      if Common(d, x / 2, y) { DividesLinear(d, x / 2, y, 2, 0); }
      if Common(d, x, y) {
        // d is odd, so d = 2h + 1 and x/2 = (x/2)*d - h*x
        OddDivisor(d, y);
        var h := d / 2;
        HalfCombination(x / 2, h);
        MulMod(x / 2, d);
        DividesLinear(d, (x / 2) * d, x, 1, -h);
      }
    }
  }

  lemma OddDivisor(d: int, y: int)
    requires d > 0 && y % d == 0 && y % 2 == 1
    ensures d % 2 == 1
  {
    var k := y / d;
    assert y == k * d;
    if d == 2 * (d / 2) { EvenProduct(k, d / 2); }
  }

  lemma EvenProduct(k: int, h: int)
    ensures (k * (2 * h)) % 2 == 0
  {
    assert k * (2 * h) == 2 * (k * h);
  }

  lemma SelfCommon(y: int)
    requires y > 0
    ensures Common(y, 0, y)
  {
    MulMod(1, y);
    MulMod(0, y);
  }

  /** What each turn of inverseMod keeps: a and b carry x and y back to the input n,
      y is odd, and no common divisor is gained or lost. */
  ghost predicate Euclid(n: int, p: int, x: int, y: int, a: int, b: int)
    requires p > 0
  {
    && 0 <= x && 0 < y && y % 2 == 1
    && 0 <= a < p && 0 <= b < p
    && Cong(a * n, x, p) && Cong(b * n, y, p)
    && SameDivisors(x, y, n, p)
  }

  lemma EuclidStart(n: int, p: int)
    requires n >= 0 && p > 1 && p % 2 == 1
    ensures Euclid(n, p, n, p, 1, 0)
  {
    CongIntro(n, n, p, 0);
    CongIntro(0, p, p, -1);
  }

  lemma EuclidBounds(n: int, p: int, x: int, y: int, a: int, b: int)
    requires p > 0 && Euclid(n, p, x, y, a, b)
    ensures 0 <= x && 0 < y && y % 2 == 1 && 0 <= a < p && 0 <= b < p
  {
  }

  lemma EuclidSwap(n: int, p: int, x: int, y: int, a: int, b: int)
    requires p > 0 && Euclid(n, p, x, y, a, b) && x % 2 == 1
    ensures Euclid(n, p, y, x, b, a)
  {
    CommonSwap(x, y, n, p);
  }

  /** x odd and at least y: subtract, borrowing p for the coefficient if needed. */
  lemma EuclidSubtract(n: int, p: int, x: int, y: int, a: int, b: int)
    requires p > 0 && Euclid(n, p, x, y, a, b) && x >= y
    ensures Euclid(n, p, x - y, y, if a >= b then a - b else a + p - b, b)
  {
    hide SameDivisors;
    var k := if a >= b then 0 else 1;
    CongAdd(a * n, x, b * n, y, p);
    assert (a + k * p - b) * n - (a * n - b * n) == (k * n) * p by {
      assert (a + k * p - b) * n == a * n + k * p * n - b * n;
      assert k * p * n == (k * n) * p;
    }
    CongIntro((a + k * p - b) * n, a * n - b * n, p, k * n);
    CongSymTrans((a + k * p - b) * n, a * n - b * n, x - y, p);
    CommonSub(x, y, n, p);
  }

  /** x even: halve it, and its coefficient after making that even too. */
  lemma EuclidHalve(n: int, p: int, x: int, y: int, a: int, b: int)
    requires p > 1 && p % 2 == 1 && Euclid(n, p, x, y, a, b) && x % 2 == 0
    ensures Euclid(n, p, x / 2, y, (if a % 2 == 1 then a + p else a) / 2, b)
  {
    HalveCoefficient(n, p, x, a);
    CommonHalve(x, y, n, p);
    hide SameDivisors, Cong;
    var c := if a % 2 == 1 then a + p else a;
    assert 0 <= c / 2 < p;
    assert (x / 2) >= 0;
  }

  /** Halving a coefficient that carries an even x. */
  lemma HalveCoefficient(n: int, p: int, x: int, a: int)
    requires p > 1 && p % 2 == 1 && x % 2 == 0 && Cong(a * n, x, p)
    ensures Cong((if a % 2 == 1 then a + p else a) / 2 * n, x / 2, p)
  {
    hide Cong;
    var k := if a % 2 == 1 then 1 else 0;
    var h := (a + k * p) / 2;
    assert a + k * p == 2 * h;
    DoubledCoefficient(n, p, a, k, h);
    CongIntro(2 * h * n, a * n, p, k * n);
    CongSymTrans(2 * h * n, a * n, x, p);
    CongIntro(2 * ((p + 1) / 2), 1, p, 1);
    CongCancel(h * n, x / 2, 2, (p + 1) / 2, p);
  }

  lemma DoubledCoefficient(n: int, p: int, a: int, k: int, h: int)
    requires a + k * p == 2 * h
    ensures 2 * h * n - a * n == k * n * p && h * n * 2 == 2 * h * n
  {
    assert (a + k * p) * n == a * n + k * p * n;
  }

  /** When x reaches 0 the odd number left over is 1 exactly if input and modulus were coprime. */
  lemma EuclidEnd(n: int, p: int, y: int, a: int, b: int)
    requires p > 0 && Euclid(n, p, 0, y, a, b)
    ensures y == 1 <==> Coprime(n, p)
    ensures y == 1 ==> Cong(b * n, 1, p)
  {
    SelfCommon(y);
    assert Common(y, n, p);
    if y == 1 {
      forall d | Common(d, n, p) ensures d == 1 {
        assert Common(d, 0, y);
        CommonAtMost(d, y);
      }
    }
  }

  lemma CommonAtMost(d: int, y: int)
    requires d > 0 && y > 0 && y % d == 0
    ensures d <= y
  {
    var q := y / d;
    assert y == q * d;
    if q >= 1 { MulMono(1, q, d); } else { MulMono(q, 0, d); }
  }
}
