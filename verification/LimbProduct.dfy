/** The schoolbook rows of bn.mul: what one row adds, and why no column overflows. */
module LimbProduct {
  import opened Congruence
  import opened Limbs

  /** c with x times b added from place i on. */
  function AddRow(c: seq<int>, i: nat, x: int, b: seq<int>): (r: seq<int>)
    ensures |r| == |c|
  {
    seq(|c|, k requires 0 <= k < |c| => if i <= k < i + |b| then c[k] + x * b[k - i] else c[k])
  }

  lemma {:induction false} AddRowAtZero(c: seq<int>, x: int, b: seq<int>)
    requires |b| <= |c|
    ensures Val(AddRow(c, 0, x, b)) == Val(c) + x * Val(b)
  {
    if b == [] {
      assert AddRow(c, 0, x, b) == c;
    } else {
      assert AddRow(c, 0, x, b)[1..] == AddRow(c[1..], 0, x, b[1..]);
      AddRowAtZero(c[1..], x, b[1..]);
      HeadRow(c[0], x, b[0], Val(c[1..]), Val(b[1..]));
    }
  }

  lemma HeadRow(c0: int, x: int, b0: int, w: int, v: int)
    ensures c0 + x * b0 + 0x100_0000 * (w + x * v) == c0 + 0x100_0000 * w + x * (b0 + 0x100_0000 * v)
  {
  }

  lemma {:induction false} AddRowValue(c: seq<int>, i: nat, x: int, b: seq<int>)
    requires i + |b| <= |c|
    ensures Val(AddRow(c, i, x, b)) == Val(c) + x * (Place(i) * Val(b))
    decreases i
  {
    if i == 0 {
      AddRowAtZero(c, x, b);
    } else {
      assert AddRow(c, i, x, b)[1..] == AddRow(c[1..], i - 1, x, b);
      AddRowValue(c[1..], i - 1, x, b);
      ShiftRow(Val(c[1..]), x, Place(i - 1), Val(b));
    }
  }

  lemma ShiftRow(w: int, x: int, p: int, v: int)
    ensures 0x100_0000 * (w + x * (p * v)) == 0x100_0000 * w + x * (0x100_0000 * p * v)
  {
  }

  lemma ProductBound(x: int, y: int)
    requires -0x100_0000 <= x <= 0x100_0000 && -0x100_0000 <= y <= 0x100_0000
    ensures -0x1_0000_0000_0000 <= x * y <= 0x1_0000_0000_0000
  {
    AbsProduct(x, y, 0x100_0000, 0x100_0000);
  }

  lemma AbsProduct(x: int, y: int, m: int, n: int)
    requires -m <= x <= m && -n <= y <= n
    ensures -(m * n) <= x * y <= m * n
  {
    if x >= 0 {
      MulMono(-n, y, x);
      MulMono(y, n, x);
      MulMono(x, m, n);
    } else {
      MulMono(-n, y, -x);
      MulMono(y, n, -x);
      MulMono(-x, m, n);
    }
  }

  /** The columns' bound while `rows` rows have been added since the last carry pass. */
  function ColumnMax(rows: nat): int { rows * 0x1_0000_0000_0000 + 0x100_0000 }

  lemma AddRowBound(c: seq<int>, i: nat, x: int, b: seq<int>, rows: nat)
    requires Within(c, ColumnMax(rows)) && Within(b, 0x100_0000) && -0x100_0000 <= x <= 0x100_0000
    ensures Within(AddRow(c, i, x, b), ColumnMax(rows + 1))
  {
    forall k | 0 <= k < |c|
      ensures -ColumnMax(rows + 1) <= AddRow(c, i, x, b)[k] <= ColumnMax(rows + 1)
    {
      if i <= k < i + |b| { ProductBound(x, b[k - i]); }
    }
  }

  lemma ProductStep(va: int, p: int, x: int, vb: int)
    ensures (va + p * x) * vb == va * vb + x * (p * vb)
  {
  }

  lemma NormalPrefixBound(a: seq<int>, i: nat)
    requires Normal(a) && i <= |a|
    ensures -Place(|a|) <= Val(a[..i]) <= Place(|a|)
  {
    NormalBound(a);
    if i < |a| {
      assert a[..i] == a[..|a| - 1][..i];
      ValDigitsBound(a[..i]);
      PlaceMonotone(i, |a|);
    } else {
      assert a[..i] == a;
    }
  }

  /** A carried product that is no larger than its top place has a top limb of -1, 0 or 1. */
  lemma TopLimbTiny(c: seq<int>)
    requires c != [] && Digits(c[..|c| - 1])
    requires -Place(|c| - 1) <= Val(c) <= Place(|c| - 1)
    ensures -1 <= c[|c| - 1] <= 1
    ensures 0 <= Val(c) < Place(|c| - 1) ==> c[|c| - 1] == 0
  {
    ValTop(c);
    ValDigitsBound(c[..|c| - 1]);
    var p, t := Place(|c| - 1), c[|c| - 1];
    if t >= 2 { MulMono(2, t, p); }
    if t <= -2 { MulMono(t, -2, p); }
    if t >= 1 { MulMono(1, t, p); }
    if t <= -1 { MulMono(t, -1, p); }
  }

  lemma NormalWithin(l: seq<int>)
    requires Normal(l)
    ensures Within(l, 0x100_0000)
  {
    assert forall k :: 0 <= k < |l| - 1 ==> l[k] == l[..|l| - 1][k];
  }

  /** mul's columns c with i rows of a times b in them, `rows` of them not yet carried. */
  predicate Columns(a: seq<int>, b: seq<int>, c: seq<int>, i: nat, rows: nat) {
    && Normal(a) && Normal(b) && i <= |a|
    && |c| == |a| + |b| + 1
    && Within(c, ColumnMax(rows))
    && -1 <= c[|c| - 1] <= 1
    && Val(c) == Val(a[..i]) * Val(b)
  }

  lemma ColumnsStart(a: seq<int>, b: seq<int>, c: seq<int>)
    requires Normal(a) && Normal(b) && |c| == |a| + |b| + 1
    requires forall k :: 0 <= k < |c| ==> c[k] == 0
    ensures Columns(a, b, c, 0, 0)
  {
    ValZeros(c);
  }

  lemma ColumnsRow(a: seq<int>, b: seq<int>, c: seq<int>, i: nat, rows: nat)
    requires Columns(a, b, c, i, rows) && i < |a| && rows <= 7
    ensures Columns(a, b, AddRow(c, i, a[i], b), i + 1, rows + 1)
    ensures i + |b| <= |c| && Within(c, ColumnMax(7))
    ensures Within(b, 0x100_0000) && -0x100_0000 <= a[i] <= 0x100_0000
  {
    NormalWithin(a);
    NormalWithin(b);
    AddRowBound(c, i, a[i], b, rows);
    AddRowValue(c, i, a[i], b);
    assert a[..i + 1] == a[..i] + [a[i]];
    ValSnoc(a[..i], a[i]);
    ProductStep(Val(a[..i]), Place(i), a[i], Val(b));
  }

  lemma ColumnsCarry(a: seq<int>, b: seq<int>, c: seq<int>, i: nat, rows: nat)
    requires Columns(a, b, c, i, rows) && rows <= 8
    ensures Within(c, LIMB_MAX)
    ensures Columns(a, b, CarriedIntoTop(c), i, 0) && Digits(CarriedIntoTop(c)[..|c| - 1])
  {
    var d := CarriedIntoTop(c);
    CarriedIntoTopValue(c);
    CarriedIntoTopDigits(c);
    assert Digits(d[..|d| - 1]);
    NormalPrefixBound(a, i);
    NormalBound(b);
    PlaceAdd(|a|, |b|);
    AbsProduct(Val(a[..i]), Val(b), Place(|a|), Place(|b|));
    TopLimbTiny(d);
    assert forall k :: 0 <= k < |d| - 1 ==> d[k] == d[..|d| - 1][k];
  }

  lemma NegativeTop(c: seq<int>)
    requires c != [] && Digits(c[..|c| - 1]) && c[|c| - 1] < 0
    ensures Val(c) < 0
  {
    ValTop(c);
    ValDigitsBound(c[..|c| - 1]);
    MulMono(c[|c| - 1], -1, Place(|c| - 1));
  }

  lemma ColumnsDone(a: seq<int>, b: seq<int>, c: seq<int>)
    requires Columns(a, b, c, |a|, 0) && Digits(c[..|c| - 1])
    ensures Val(c) == Val(a) * Val(b) && Within(c, 0x100_0000)
    ensures Val(c) >= 0 ==> Digits(c)
  {
    ColumnsValue(a, b, c);
    hide Columns, Val;
    if c[|c| - 1] < 0 { NegativeTop(c); }
    TopSettled(c);
  }

  lemma ColumnsValue(a: seq<int>, b: seq<int>, c: seq<int>)
    requires Columns(a, b, c, |a|, 0)
    ensures c != [] && -1 <= c[|c| - 1] <= 1 && Val(c) == Val(a) * Val(b)
  {
    hide Val, Normal, Within;
    assert a[..|a|] == a;
  }

  lemma TopSettled(c: seq<int>)
    requires c != [] && Digits(c[..|c| - 1]) && -1 <= c[|c| - 1] <= 1
    ensures Within(c, 0x100_0000) && (c[|c| - 1] >= 0 ==> Digits(c))
  {
    assert forall k :: 0 <= k < |c| - 1 ==> c[k] == c[..|c| - 1][k];
  }
}
