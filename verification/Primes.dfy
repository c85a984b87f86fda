/** Arithmetic modulo a prime: inverses, Euclid's lemma and Fermat's little theorem. */
module Primes {
  import opened Congruence
  import opened Divisors

  predicate Divides(d: int, n: int) {
    d > 0 && n % d == 0
  }

  ghost predicate Prime(p: int) {
    p > 1 && forall d :: Divides(d, p) ==> d == 1 || d == p
  }

  /** Extended Euclid: the greatest common divisor as a combination. */
  lemma {:induction false} Combination(a: nat, b: nat) returns (g: int, s: int, t: int)
    requires a > 0 || b > 0
    ensures g > 0 && g == s * a + t * b && Divides(g, a) && Divides(g, b)
    decreases b
  {
    if b == 0 {
      g, s, t := a, 1, 0;
      MulMod(1, a);
      MulMod(0, a);
    } else {
      var q, r := a / b, a % b;
      var s', t';
      g, s', t' := Combination(b, r);
      assert a == q * b + r;
      DividesLinear(g, b, r, q, 1);
      s, t := t', s' - q * t';
      assert s * a + t * b == t' * (q * b + r) + s' * b - q * t' * b;
      assert t' * (q * b + r) == q * t' * b + t' * r;
    }
  }

  /** Everything not divisible by a prime has an inverse modulo it. */
  lemma InverseExists(a: nat, p: nat) returns (b: nat)
    requires Prime(p) && a % p != 0
    ensures 0 <= b < p && Cong(a * b, 1, p)
  {
    var g, s, t := Combination(a, p);
    assert g != p;
    assert g == 1;
    b := s % p;
    CongIntro(s * a, 1, p, -t);
    CongMod(s, p);
    CongIntro(a, a, p, 0);
    CongMul(a, a, s % p, s, p);
    CongSymTrans(a * (s % p), a * s, 1, p);
  }

  /** A prime divides a product only through a factor. */
  lemma EuclidsLemma(a: nat, b: int, p: nat)
    requires Prime(p) && (a * b) % p == 0 && a % p != 0
    ensures b % p == 0
  {
    var inv := InverseExists(a, p);
    CongIntro(0, 0, p, 0);
    assert Cong(b * a, 0 * a, p);
    CongCancel(b, 0, a, inv, p);
  }

  // ---------------------------------------------------------------- binomial coefficients

  function Choose(n: nat, k: nat): nat {
    if k == 0 then 1
    else if n == 0 then 0
    else Choose(n - 1, k - 1) + Choose(n - 1, k)
  }

  lemma {:induction false} ChooseAbove(n: nat, k: nat)
    requires k > n
    ensures Choose(n, k) == 0
  {
    if n > 0 {
      ChooseAbove(n - 1, k - 1);
      ChooseAbove(n - 1, k);
    }
  }

  lemma {:induction false} ChooseAll(n: nat)
    ensures Choose(n, n) == 1
  {
    if n > 0 {
      ChooseAll(n - 1);
      ChooseAbove(n - 1, n);
    }
  }

  lemma AbsorptionSum(n: int, k: int, x: int, y: int, c: int, d: int)
    requires y == c + d && k * x == (n - 1) * d && (k - 1) * y == (n - 1) * c
    ensures k * (y + x) == n * y
  {
    MulAdd(k, y, x);
    MulAdd(n - 1, c, d);
  }

  lemma {:induction false} Absorption(n: nat, k: nat)
    requires n > 0 && k > 0
    ensures k * Choose(n, k) == n * Choose(n - 1, k - 1)
  {
    if n == 1 {
      if k > 1 { ChooseAbove(1, k); }
    } else {
      Absorption(n - 1, k);
      var x, y := Choose(n - 1, k), Choose(n - 1, k - 1);
      if k == 1 {
        assert (n - 1) * Choose(n - 2, 0) == n - 1;
      } else {
        Absorption(n - 1, k - 1);
        var c, d := Choose(n - 2, k - 2), Choose(n - 2, k - 1);
        assert Choose(n, k) == y + x && y == c + d;
        AbsorptionSum(n, k, x, y, c, d);
      }
    }
  }

  /** The first m terms of the expansion of (a + 1)^n. */
  function Expansion(n: nat, a: int, m: nat): int {
    if m == 0 then 0 else Expansion(n, a, m - 1) + Choose(n, m - 1) * Pow(a, m - 1)
  }

  lemma {:induction false} ExpansionShift(n: nat, a: int, m: nat)
    ensures Expansion(n + 1, a, m + 1) == Expansion(n, a, m + 1) + a * Expansion(n, a, m)
  {
    if m == 0 {
      assert Choose(n + 1, 0) == Choose(n, 0);
      assert Expansion(n + 1, a, 1) == Choose(n + 1, 0) * Pow(a, 0);
      assert Expansion(n, a, 1) == Choose(n, 0) * Pow(a, 0);
    } else {
      ExpansionShift(n, a, m - 1);
      var x, y, q := Choose(n, m - 1), Choose(n, m), Pow(a, m - 1);
      assert Choose(n + 1, m) == x + y && Pow(a, m) == a * q;
      ShiftTerm(a, x, y, q, Expansion(n, a, m - 1));
    }
  }

  lemma ShiftTerm(a: int, x: int, y: int, q: int, e: int)
    ensures (x + y) * (a * q) == y * (a * q) + a * (x * q)
    ensures a * (e + x * q) == a * e + a * (x * q)
  {
  }

  lemma NoTermAbove(n: nat, a: int)
    ensures Expansion(n, a, n + 2) == Expansion(n, a, n + 1)
  {
    ChooseAbove(n, n + 1);
  }

  lemma PowStep(a: int, n: nat)
    requires n > 0
    ensures Pow(a + 1, n) == Pow(a + 1, n - 1) + a * Pow(a + 1, n - 1)
  {
  }

  lemma {:induction false} BinomialTheorem(n: nat, a: int)
    ensures Expansion(n, a, n + 1) == Pow(a + 1, n)
  {
    if n == 0 {
      assert Expansion(0, a, 1) == Choose(0, 0) * Pow(a, 0);
    } else {
      BinomialTheorem(n - 1, a);
      ExpansionShift(n - 1, a, n);
      NoTermAbove(n - 1, a);
      PowStep(a, n);
    }
  }

  lemma SmallResidue(k: int, p: int)
    requires 0 < k < p
    ensures k % p == k
  {
  }

  lemma PrimeDividesChoose(p: nat, k: nat)
    requires Prime(p) && 0 < k < p && p > 0
    ensures Choose(p, k) % p == 0
  {
    hide Choose, Prime;
    Absorption(p, k);
    MulMod(Choose(p - 1, k - 1), p);
    SmallResidue(k, p);
    EuclidsLemma(k, Choose(p, k), p);
  }

  /** Modulo p only the ends of the expansion of (a + 1)^p survive. */
  lemma {:induction false} MiddleVanishes(p: nat, a: int, m: nat)
    requires Prime(p) && 1 <= m <= p
    ensures Cong(Expansion(p, a, m), 1, p)
  {
    if m == 1 {
      assert Expansion(p, a, 1) == Choose(p, 0) * Pow(a, 0);
      CongIntro(1, 1, p, 0);
    } else {
      MiddleVanishes(p, a, m - 1);
      PrimeDividesChoose(p, m - 1);
      var x := Pow(a, m - 1);
      CongIntro(x, x, p, 0);
      assert Cong(Choose(p, m - 1), 0, p);
      CongMul(Choose(p, m - 1), 0, x, x, p);
      CongAdd(Expansion(p, a, m - 1), 1, Choose(p, m - 1) * x, 0, p);
    }
  }

  lemma LastTerm(p: nat, a: int)
    ensures Pow(a + 1, p) == Expansion(p, a, p) + Pow(a, p)
  {
    hide Pow;
    BinomialTheorem(p, a);
    ChooseAll(p);
    hide Choose;
  }

  lemma {:induction false} FermatPower(a: nat, p: nat)
    requires Prime(p) && p > 0
    ensures Cong(Pow(a, p), a, p)
  {
    if a == 0 {
      assert Pow(0, p) == 0 * Pow(0, p - 1);
      CongIntro(0, 0, p, 0);
    } else {
      hide Pow, Choose, Prime, Expansion, Cong;
      FermatPower(a - 1, p);
      PrimeAboveOne(p);
      MiddleVanishes(p, a - 1, p);
      LastTerm(p, a - 1);
      CongAdd(Expansion(p, a - 1, p), 1, Pow(a - 1, p), a - 1, p);
    }
  }

  /** A product vanishes modulo a prime only with one of its factors. */
  lemma ProductNonzero(a: int, b: int, p: int)
    requires Prime(p) && a % p != 0 && b % p != 0
    ensures (a * b) % p != 0
  {
    CongMod(a, p);
    CongMod(b, p);
    CongMul(a, a % p, b, b % p, p);
    CongIffMod(a * b, a % p * (b % p), p);
    if (a * b) % p == 0 {
      SmallResidue(a % p, p);
      SmallResidue(b % p, p);
      EuclidsLemma(a % p, b % p, p);
    }
  }

  /** A prime divides a power exactly when it divides the base. */
  lemma {:induction false} PowerDivides(a: int, e: nat, p: int)
    requires Prime(p) && e > 0
    ensures Pow(a, e) % p == 0 <==> a % p == 0
  {
    if e == 1 {
      assert Pow(a, 1) == a;
    } else {
      PowerDivides(a, e - 1, p);
      CongIffMod(a, 0, p);
      if a % p == 0 {
        CongIntro(Pow(a, e - 1), Pow(a, e - 1), p, 0);
        CongMul(a, 0, Pow(a, e - 1), Pow(a, e - 1), p);
        CongIffMod(Pow(a, e), 0, p);
      } else {
        ProductNonzero(a, Pow(a, e - 1), p);
      }
    }
  }

  lemma PrimeAboveOne(p: int)
    requires Prime(p)
    ensures p > 1
  {
  }

  /** Fermat's little theorem. */
  lemma Fermat(a: nat, p: nat)
    requires Prime(p) && a % p != 0
    ensures Cong(Pow(a, p - 1), 1, p)
  {
    FermatPower(a, p);
    var inv := InverseExists(a, p);
    assert Pow(a, p) == Pow(a, p - 1) * a;
    CongCancel(Pow(a, p - 1), 1, a, inv, p);
  }
}
