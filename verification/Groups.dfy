/** Abelian groups as values, and windowed scalar multiplication in them. */
module Groups {
  import opened Congruence
  import opened Limbs
  import opened Redc

  datatype Group<!P(!new)> = Group(zero: P, add: (P, P) -> P, neg: P -> P)

  ghost predicate Abelian<P(!new)>(g: Group<P>) {
    && (forall a, b :: g.add(a, b) == g.add(b, a))
    && (forall a, b, c :: g.add(g.add(a, b), c) == g.add(a, g.add(b, c)))
    && (forall a :: g.add(a, g.zero) == a)
    && (forall a :: g.add(a, g.neg(a)) == g.zero)
  }

  lemma Comm<P(!new)>(g: Group<P>, a: P, b: P)
    requires Abelian(g)
    ensures g.add(a, b) == g.add(b, a)
  {
  }

  lemma Assoc<P(!new)>(g: Group<P>, a: P, b: P, c: P)
    requires Abelian(g)
    ensures g.add(g.add(a, b), c) == g.add(a, g.add(b, c))
  {
  }

  lemma Zero<P(!new)>(g: Group<P>, a: P)
    requires Abelian(g)
    ensures g.add(a, g.zero) == a && g.add(g.zero, a) == a
  {
  }

  lemma Inverse<P(!new)>(g: Group<P>, a: P)
    requires Abelian(g)
    ensures g.add(a, g.neg(a)) == g.zero
  {
  }

  /** (a + b) + (c + d) = (a + c) + (b + d). */
  lemma Interchange<P(!new)>(g: Group<P>, a: P, b: P, c: P, d: P)
    requires Abelian(g)
    ensures g.add(g.add(a, b), g.add(c, d)) == g.add(g.add(a, c), g.add(b, d))
  {
    hide Abelian;
    Assoc(g, a, b, g.add(c, d));
    Assoc(g, b, c, d);
    Comm(g, b, c);
    Assoc(g, c, b, d);
    Assoc(g, a, c, g.add(b, d));
  }

  /** (a + b) - b = a. */
  lemma Cancel<P(!new)>(g: Group<P>, a: P, b: P)
    requires Abelian(g)
    ensures g.add(g.add(a, b), g.neg(b)) == a
  {
    hide Abelian;
    Assoc(g, a, b, g.neg(b));
    Inverse(g, b);
    Zero(g, a);
  }

  lemma CancelEqual<P(!new)>(g: Group<P>, a: P, b: P, c: P)
    requires Abelian(g) && g.add(a, c) == g.add(b, c)
    ensures a == b
  {
    Cancel(g, a, c);
    Cancel(g, b, c);
  }

  /** k P. */
  function Times<P(!new)>(g: Group<P>, k: nat, p: P): P {
    if k == 0 then g.zero else g.add(p, Times(g, k - 1, p))
  }

  lemma {:induction false} TimesAdd<P(!new)>(g: Group<P>, m: nat, n: nat, p: P)
    requires Abelian(g)
    ensures Times(g, m + n, p) == g.add(Times(g, m, p), Times(g, n, p))
  {
    hide Abelian;
    if m == 0 {
      Zero(g, Times(g, n, p));
    } else {
      TimesAdd(g, m - 1, n, p);
      Assoc(g, p, Times(g, m - 1, p), Times(g, n, p));
    }
  }

  lemma {:induction false} TimesOfSum<P(!new)>(g: Group<P>, k: nat, p: P, q: P)
    requires Abelian(g)
    ensures Times(g, k, g.add(p, q)) == g.add(Times(g, k, p), Times(g, k, q))
  {
    hide Abelian;
    if k == 0 {
      Zero(g, g.zero);
    } else {
      TimesOfSum(g, k - 1, p, q);
      Interchange(g, p, q, Times(g, k - 1, p), Times(g, k - 1, q));
    }
  }

  lemma {:induction false} TimesTimes<P(!new)>(g: Group<P>, m: nat, n: nat, p: P)
    requires Abelian(g)
    ensures m * n >= 0 && Times(g, m * n, p) == Times(g, m, Times(g, n, p))
  {
    hide Abelian;
    if m == 0 {
      assert m * n == 0;
    } else {
      assert m * n == n + (m - 1) * n;
      TimesTimes(g, m - 1, n, p);
      TimesAdd(g, n, (m - 1) * n, p);
    }
  }

  lemma {:induction false} TimesZero<P(!new)>(g: Group<P>, k: nat)
    requires Abelian(g)
    ensures Times(g, k, g.zero) == g.zero
  {
    if k != 0 {
      TimesZero(g, k - 1);
      Zero(g, g.zero);
    }
  }

  /** Every element's order divides r. */
  ghost predicate Exponent<P(!new)>(g: Group<P>, r: nat) {
    r > 0 && forall p :: Times(g, r, p) == g.zero
  }

  lemma TimesMod<P(!new)>(g: Group<P>, r: nat, k: nat, p: P)
    requires Abelian(g) && Exponent(g, r)
    ensures Times(g, k % r, p) == Times(g, k, p)
  {
    hide Abelian;
    var q, s := k / r, k % r;
    assert k == q * r + s;
    MulMono(0, q, r);
    TimesTimes(g, q, r, p);
    TimesZero(g, q);
    TimesAdd(g, q * r, s, p);
    Zero(g, Times(g, s, p));
  }

  // ---------------------------------------------------------------- windowed multiplication

  /** point.multiples: 0 P to 15 P, by one doubling and thirteen additions. */
  method Multiples<P(!new)>(g: Group<P>, p: P) returns (m: seq<P>)
    requires Abelian(g)
    ensures |m| == 16 && forall i :: 0 <= i < 16 ==> m[i] == Times(g, i, p)
  {
    hide Abelian;
    var j := g.add(p, p);
    m := [g.zero, p, j];
    Zero(g, p);
    assert Times(g, 1, p) == p && Times(g, 2, p) == g.add(p, Times(g, 1, p));
    var i := 3;
    while i < 16
      invariant 3 <= i <= 16 && |m| == i && j == Times(g, i - 1, p)
      invariant forall k :: 0 <= k < i ==> m[k] == Times(g, k, p)
    {
      Comm(g, j, p);
      j := g.add(j, p);
      m := m + [j];
      i := i + 1;
    }
  }

  /** What has been read of the scalar when w are the limbs above and x the current limb,
      cut below bit j. */
  function Read(w: int, x: int, j: nat): int
    requires j <= 24
  {
    PowPositive(2, j);
    w * Pow(2, 24 - j) + x / Pow(2, j)
  }

  /** The 4-bit window k[i] >> j & 0xF. */
  function Window(x: int, j: nat): (d: nat)
    ensures d < 16
  {
    PowPositive(2, j);
    x / Pow(2, j) % 16
  }

  lemma SixteenTimes(w: int, p: int)
    ensures w * (p * 16) == 16 * (w * p)
  {
  }

  lemma ReadStep(w: int, x: int, j: nat)
    requires 4 <= j <= 24
    ensures Read(w, x, j - 4) == 16 * Read(w, x, j) + Window(x, j - 4)
  {
    PowPositive(2, j);
    PowPositive(2, j - 4);
    PowAdd(2, j - 4, 4);
    PowAdd(2, 24 - j, 4);
    assert Pow(2, 4) == 16;
    DivDiv(x, Pow(2, j - 4), 16);
    var y, p := x / Pow(2, j - 4), Pow(2, 24 - j);
    hide Pow;
    SixteenTimes(w, p);
    assert y == 16 * (y / 16) + y % 16;
  }

  lemma ReadEnds(w: int, x: int)
    requires 0 <= x < 0x100_0000
    ensures Read(w, x, 24) == w && Read(w, x, 0) == x + 0x100_0000 * w
  {
    PlaceIsPow2(1);
    assert Pow(2, 0) == 1;
    DivModUnique(x, 0x100_0000, 0, x);
  }

  /** out.doubl().doubl().doubl().doubl(). */
  function DoubleFourTimes<P(!new)>(g: Group<P>, o: P): P {
    var o2 := g.add(o, o);
    var o4 := g.add(o2, o2);
    var o8 := g.add(o4, o4);
    g.add(o8, o8)
  }

  /** 16 out + d P, as four doublings and one addition. */
  lemma Horner<P(!new)>(g: Group<P>, k: nat, d: nat, p: P)
    requires Abelian(g)
    ensures g.add(DoubleFourTimes(g, Times(g, k, p)), Times(g, d, p)) == Times(g, 16 * k + d, p)
  {
    hide Abelian;
    TimesAdd(g, k, k, p);
    TimesAdd(g, 2 * k, 2 * k, p);
    TimesAdd(g, 4 * k, 4 * k, p);
    TimesAdd(g, 8 * k, 8 * k, p);
    TimesAdd(g, 16 * k, d, p);
  }

  /** pointJac.mult: the scalar's limbs from the top, four bits at a time. */
  method Mult<P(!new)>(g: Group<P>, k: seq<int>, p: P) returns (out: P)
    requires Abelian(g) && Digits(k)
    ensures Val(k) >= 0 && out == Times(g, Val(k), p)
  {
    hide Abelian, Val, Read, Pow;
    var multiples := Multiples(g, p);
    out := g.zero;
    var i := |k| - 1;
    ghost var w := 0;
    SuffixStart(k);
    while i >= 0
      invariant -1 <= i < |k| && w == Val(k[i + 1..]) >= 0 && out == Times(g, w, p)
    {
      ReadEnds(w, k[i]);
      var j := 20;
      while j >= 0
        invariant j in {20, 16, 12, 8, 4, 0, -4} && Read(w, k[i], j + 4) >= 0
        invariant out == Times(g, Read(w, k[i], j + 4), p)
        decreases j + 4
      {
        ReadStep(w, k[i], j + 4);
        Horner(g, Read(w, k[i], j + 4), Window(k[i], j), p);
        out := DoubleFourTimes(g, out);
        out := g.add(out, multiples[Window(k[i], j)]);
        j := j - 4;
      }
      SuffixStep(k, i);
      w := Val(k[i..]);
      i := i - 1;
    }
    assert k[0..] == k;
  }

  lemma SuffixStart(k: seq<int>)
    ensures Val(k[|k|..]) == 0
  {
  }

  /** pointJac.mult2: both scalars in step; a limb past the end of the shorter one is 0. */
  method Mult2<P(!new)>(g: Group<P>, k1: seq<int>, p: P, k2: seq<int>, q: P) returns (out: P)
    requires Abelian(g) && Digits(k1) && Digits(k2)
    ensures Val(k1) >= 0 && Val(k2) >= 0
    ensures out == g.add(Times(g, Val(k1), p), Times(g, Val(k2), q))
  {
    hide Abelian, Val, Read, Pow, DoubleFourTimes, Times, Drop, Window;
    TimesNone(g, p);
    TimesNone(g, q);
    var m1 := Multiples(g, p);
    var m2 := Multiples(g, q);
    out := g.zero;
    Zero(g, g.zero);
    var i := (if |k1| < |k2| then |k2| else |k1|) - 1;
    ghost var w1, w2 := 0, 0;
    DropPastEnd(k1, i + 1);
    DropPastEnd(k2, i + 1);
    while i >= 0
      invariant -1 <= i
      invariant w1 == Val(Drop(k1, i + 1)) >= 0 && w2 == Val(Drop(k2, i + 1)) >= 0
      invariant out == g.add(Times(g, w1, p), Times(g, w2, q))
    {
      var l1, l2 := Limb(k1, i), Limb(k2, i);
      ReadEnds(w1, l1);
      ReadEnds(w2, l2);
      var j := 20;
      while j >= 0
        invariant j in {20, 16, 12, 8, 4, 0, -4}
        invariant Read(w1, l1, j + 4) >= 0 && Read(w2, l2, j + 4) >= 0
        invariant out == g.add(Times(g, Read(w1, l1, j + 4), p), Times(g, Read(w2, l2, j + 4), q))
        decreases j + 4
      {
        ReadStep(w1, l1, j + 4);
        ReadStep(w2, l2, j + 4);
        Horner2(g, Read(w1, l1, j + 4), Window(l1, j), p, Read(w2, l2, j + 4), Window(l2, j), q);
        out := DoubleFourTimes(g, out);
        out := g.add(g.add(out, m1[Window(l1, j)]), m2[Window(l2, j)]);
        j := j - 4;
      }
      DropStep(k1, i);
      DropStep(k2, i);
      w1, w2 := Val(Drop(k1, i)), Val(Drop(k2, i));
      i := i - 1;
    }
  }

  lemma TimesNone<P(!new)>(g: Group<P>, p: P)
    ensures Times(g, 0, p) == g.zero
  {
  }

  lemma Horner2<P(!new)>(g: Group<P>, k: nat, d: nat, p: P, l: nat, e: nat, q: P)
    requires Abelian(g)
    ensures var o := g.add(Times(g, k, p), Times(g, l, q));
            g.add(g.add(DoubleFourTimes(g, o), Times(g, d, p)), Times(g, e, q))
            == g.add(Times(g, 16 * k + d, p), Times(g, 16 * l + e, q))
  {
    hide Abelian;
    DoublePair(g, k, p, l, q);
    DoublePair(g, 2 * k, p, 2 * l, q);
    DoublePair(g, 4 * k, p, 4 * l, q);
    DoublePair(g, 8 * k, p, 8 * l, q);
    var a, b, c, f := Times(g, 16 * k, p), Times(g, 16 * l, q), Times(g, d, p), Times(g, e, q);
    Assoc(g, g.add(a, b), c, f);
    Interchange(g, a, b, c, f);
    TimesAdd(g, 16 * k, d, p);
    TimesAdd(g, 16 * l, e, q);
  }

  lemma DoublePair<P(!new)>(g: Group<P>, k: nat, p: P, l: nat, q: P)
    requires Abelian(g)
    ensures var o := g.add(Times(g, k, p), Times(g, l, q));
            g.add(o, o) == g.add(Times(g, 2 * k, p), Times(g, 2 * l, q))
  {
    hide Abelian, Times;
    Interchange(g, Times(g, k, p), Times(g, l, q), Times(g, k, p), Times(g, l, q));
    TimesAdd(g, k, k, p);
    TimesAdd(g, l, l, q);
  }
}
