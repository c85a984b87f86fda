/** Integer facts the arithmetic engine rests on: powers, congruence, divisibility. */
module Congruence {

  function Pow(b: int, e: nat): int {
    if e == 0 then 1 else b * Pow(b, e - 1)
  }

  lemma {:induction false} PowAdd(b: int, m: nat, n: nat)
    ensures Pow(b, m + n) == Pow(b, m) * Pow(b, n)
  {
    if m != 0 {
      PowAdd(b, m - 1, n);
      assert b * (Pow(b, m - 1) * Pow(b, n)) == b * Pow(b, m - 1) * Pow(b, n);
    }
  }

  lemma {:induction false} PowPositive(b: int, e: nat)
    requires b > 0
    ensures Pow(b, e) > 0
  {
    if e != 0 { PowPositive(b, e - 1); }
  }

  lemma {:induction false} PowMonotone(b: int, m: nat, n: nat)
    requires b > 1 && m < n
    ensures Pow(b, m) < Pow(b, n)
    decreases n
  {
    PowPositive(b, n - 1);
    if m < n - 1 { PowMonotone(b, m, n - 1); }
  }

  lemma MulAdd(p: int, a: int, b: int)
    ensures p * (a + b) == p * a + p * b
  {
  }

  lemma MulMono(a: int, b: int, p: int)
    requires a <= b && p >= 0
    ensures a * p <= b * p && p * a <= p * b
  {
  }

  /** a and b leave the same residue modulo n. */
  predicate Cong(a: int, b: int, n: int)
    requires n > 0
  {
    (a - b) % n == 0
  }

  lemma SmallMultiple(k: int, n: int)
    requires -n < k * n < n
    ensures k == 0
  {
  }

  lemma MulMod(k: int, n: int)
    requires n > 0
    ensures (k * n) % n == 0
  {
    var q, r := (k * n) / n, (k * n) % n;
    assert (k - q) * n == r;
    SmallMultiple(k - q, n);
  }

  lemma CongIntro(a: int, b: int, n: int, k: int)
    requires n > 0 && a - b == k * n
    ensures Cong(a, b, n)
  {
    MulMod(k, n);
  }

  /** How many times n separates two congruent numbers. */
  function CongElim(a: int, b: int, n: int): (k: int)
    requires n > 0 && Cong(a, b, n)
    ensures a == b + k * n
  {
    (a - b) / n
  }

  lemma CongSymTrans(a: int, b: int, c: int, n: int)
    requires n > 0 && Cong(a, b, n) && Cong(b, c, n)
    ensures Cong(b, a, n) && Cong(a, c, n)
  {
    var k, l := CongElim(a, b, n), CongElim(b, c, n);
    CongIntro(b, a, n, -k);
    assert a - c == (k + l) * n;
    CongIntro(a, c, n, k + l);
  }

  lemma CongSym(a: int, b: int, n: int)
    requires n > 0 && Cong(a, b, n)
    ensures Cong(b, a, n)
  {
    CongIntro(b, a, n, -CongElim(a, b, n));
  }

  lemma CongTrans(a: int, b: int, c: int, n: int)
    requires n > 0 && Cong(a, b, n) && Cong(b, c, n)
    ensures Cong(a, c, n)
  {
    CongSymTrans(a, b, c, n);
  }

  lemma CongMul(a: int, b: int, c: int, d: int, n: int)
    requires n > 0 && Cong(a, b, n) && Cong(c, d, n)
    ensures Cong(a * c, b * d, n)
  {
    var k, l := CongElim(a, b, n), CongElim(c, d, n);
    var t := k * d + b * l + k * n * l;
    assert a * c == b * d + t * n by {
      assert a * c == (b + k * n) * (d + l * n);
      assert (b + k * n) * (d + l * n) == b * d + b * (l * n) + (k * n) * d + (k * n) * (l * n);
    }
    CongIntro(a * c, b * d, n, t);
  }

  lemma CongAdd(a: int, b: int, c: int, d: int, n: int)
    requires n > 0 && Cong(a, b, n) && Cong(c, d, n)
    ensures Cong(a + c, b + d, n) && Cong(a - c, b - d, n)
  {
    var k, l := CongElim(a, b, n), CongElim(c, d, n);
    CongIntro(a + c, b + d, n, k + l);
    CongIntro(a - c, b - d, n, k - l);
  }

  /** Residues are congruent exactly when equal. */
  lemma CongUnique(a: int, b: int, n: int)
    requires n > 0 && 0 <= a < n && 0 <= b < n && Cong(a, b, n)
    ensures a == b
  {
    var k := CongElim(a, b, n);
    SmallMultiple(k, n);
  }

  lemma CongMod(a: int, n: int)
    requires n > 0
    ensures Cong(a % n, a, n) && Cong(a, a % n, n) && 0 <= a % n < n
  {
    var q := a / n;
    assert a == q * n + a % n;
    CongIntro(a % n, a, n, -q);
    CongIntro(a, a % n, n, q);
  }

  /** Congruence is equality of residues. */
  lemma CongIffMod(a: int, b: int, n: int)
    requires n > 0
    ensures Cong(a, b, n) <==> a % n == b % n
  {
    CongMod(a, n);
    CongMod(b, n);
    if Cong(a, b, n) {
      CongSymTrans(a % n, a, b, n);
      CongSymTrans(a % n, b, b % n, n);
      CongUnique(a % n, b % n, n);
    }
    if a % n == b % n { CongSymTrans(a, a % n, b, n); }
  }

  lemma {:induction false} CongPow(a: int, b: int, e: nat, n: int)
    requires n > 0 && Cong(a, b, n)
    ensures Cong(Pow(a, e), Pow(b, e), n)
  {
    if e == 0 {
      CongIntro(1, 1, n, 0);
    } else {
      CongPow(a, b, e - 1, n);
      CongMul(a, b, Pow(a, e - 1), Pow(b, e - 1), n);
    }
  }

  /** A factor with an inverse modulo n cancels. */
  lemma CongCancel(a: int, b: int, m: int, inv: int, n: int)
    requires n > 0 && Cong(m * inv, 1, n) && Cong(a * m, b * m, n)
    ensures Cong(a, b, n)
  {
    var k, l := CongElim(a * m, b * m, n), CongElim(m * inv, 1, n);
    calc {
      a - b;
    ==
      (a - b) * (m * inv - l * n);
    ==
      ((a - b) * m) * inv - (a - b) * (l * n);
    == { assert (a - b) * m == k * n; }
      (k * n) * inv - (a - b) * (l * n);
    ==
      (k * inv - (a - b) * l) * n;
    }
    CongIntro(a, b, n, k * inv - (a - b) * l);
  }

  lemma DivModUnique(v: int, m: int, q: int, r: int)
    requires m > 0 && v == q * m + r && 0 <= r < m
    ensures v / m == q && v % m == r
  {
    var q', r' := v / m, v % m;
    assert (q - q') * m == r' - r;
    SmallMultiple(q - q', m);
  }

  lemma DivDiv(v: int, a: int, b: int)
    requires a > 0 && b > 0
    ensures a * b > 0 && v / a / b == v / (a * b)
  {
    var x := v / a;
    var y, r, r' := x / b, v % a, x % b;
    assert v == (y * b + r') * a + r;
    assert (y * b + r') * a + r == y * (a * b) + (r' * a + r) by {
      assert (y * b + r') * a == y * b * a + r' * a;
      assert y * b * a == y * (a * b);
    }
    MulMono(r', b - 1, a);
    assert (b - 1) * a == a * b - a;
    MulMono(0, r', a);
    DivModUnique(v, a * b, y, r' * a + r);
  }
}
