/** Commitments to the randomizers of every contest. */
module Pedersen {
  import opened Congruence
  import opened ElGamal
  import opened Groups
  import opened Outcomes
  import opened Primes
  import SigmaProofs

  // ---------------------------------------------------------------- generators

  /** The k-th abscissa tried from x on, wrapping at the prime. */
  function Tried(x: nat, k: nat, p: nat): nat
    requires p > 0
  {
    (x + k) % p
  }

  /** The first liftable abscissa, n steps on. */
  ghost predicate FirstAt<P>(lift: nat -> Option<P>, start: nat, p: nat, n: nat, point: P)
    requires p > 0
  {
    && lift(Tried(start, n, p)) == Some(point)
    && forall i: nat :: i < n ==> lift(Tried(start, i, p)).None?
  }

  /** computeGenerator: the first point at or after the hashed abscissa, cyclically. The loop
      ends because some abscissa k steps ahead is known to be on the curve. */
  method ComputeGenerator<P>(lift: nat -> Option<P>, start: nat, p: nat, ghost k: nat) returns (point: P)
    requires p > 0 && start < p && lift(Tried(start, k, p)).Some?
    ensures exists n: nat :: n <= k && FirstAt(lift, start, p, n, point)
  {
    var x := start;
    ghost var n: nat := 0;
    TriedStart(start, p);
    while lift(x).None?
      invariant n <= k && x == Tried(start, n, p)
      invariant forall i: nat :: i < n ==> lift(Tried(start, i, p)).None?
      decreases k - n
    {
      TriedNext(start, n, p);
      x := (x + 1) % p;
      n := n + 1;
    }
    point := lift(x).value;
    assert FirstAt(lift, start, p, n, point);
  }

  lemma TriedStart(x: nat, p: nat)
    requires x < p
    ensures Tried(x, 0, p) == x
  {
  }

  lemma TriedNext(x: nat, k: nat, p: nat)
    requires p > 0
    ensures (Tried(x, k, p) + 1) % p == Tried(x, k + 1, p)
  {
    CongMod(x + k, p);
    CongIntro(1, 1, p, 0);
    CongAdd(Tried(x, k, p), x + k, 1, 1, p);
    CongIffMod(Tried(x, k, p) + 1, x + k + 1, p);
  }

  // ---------------------------------------------------------------- commitments

  /** One entry of a contest map. */
  datatype Entry = Entry(contest: string, messages: seq<nat>)

  /** messages.map(...) from index i on, added to acc as reduce does. */
  function AddTerms<P(!new)>(c: Setup<P>, gen: (string, nat) -> P, e: Entry, i: nat, acc: P): P
    decreases |e.messages| - i
  {
    if i >= |e.messages| then acc
    else AddTerms(c, gen, e, i + 1, c.g.add(acc, Times(c.g, e.messages[i], gen(e.contest, i))))
  }

  function AddEntries<P(!new)>(c: Setup<P>, gen: (string, nat) -> P, es: seq<Entry>, acc: P): P {
    if es == [] then acc else AddEntries(c, gen, es[1..], AddTerms(c, gen, es[0], 0, acc))
  }

  /** PedersenCommitment.generate over the entries in the order Object.entries lists them. */
  function Generate<P(!new)>(c: Setup<P>, gen: (string, nat) -> P, es: seq<Entry>, randomizer: nat): P {
    AddEntries(c, gen, es, Times(c.g, randomizer, c.base))
  }

  predicate Verify<P(!new, ==)>(
    c: Setup<P>, gen: (string, nat) -> P, commitment: P, es: seq<Entry>, randomizer: nat)
  {
    commitment == Generate(c, gen, es, randomizer)
  }

  lemma {:induction false} TermsShift<P(!new)>(
    c: Setup<P>, gen: (string, nat) -> P, e: Entry, i: nat, a: P, b: P)
    requires Abelian(c.g)
    ensures AddTerms(c, gen, e, i, c.g.add(a, b)) == c.g.add(AddTerms(c, gen, e, i, a), b)
    decreases |e.messages| - i
  {
    hide Abelian;
    if i < |e.messages| {
      var t := Times(c.g, e.messages[i], gen(e.contest, i));
      Assoc(c.g, a, b, t);
      Comm(c.g, b, t);
      Assoc(c.g, a, t, b);
      TermsShift(c, gen, e, i + 1, c.g.add(a, t), b);
    }
  }

  lemma {:induction false} EntriesShift<P(!new)>(
    c: Setup<P>, gen: (string, nat) -> P, es: seq<Entry>, a: P, b: P)
    requires Abelian(c.g)
    ensures AddEntries(c, gen, es, c.g.add(a, b)) == c.g.add(AddEntries(c, gen, es, a), b)
  {
    if es != [] {
      TermsShift(c, gen, es[0], 0, a, b);
      EntriesShift(c, gen, es[1..], AddTerms(c, gen, es[0], 0, a), b);
    }
  }

  /** An entry's own sum. */
  function EntrySum<P(!new)>(c: Setup<P>, gen: (string, nat) -> P, e: Entry): P {
    AddTerms(c, gen, e, 0, c.g.zero)
  }

  lemma EntryAdds<P(!new)>(c: Setup<P>, gen: (string, nat) -> P, e: Entry, acc: P)
    requires Abelian(c.g)
    ensures AddTerms(c, gen, e, 0, acc) == c.g.add(acc, EntrySum(c, gen, e))
  {
    Zero(c.g, acc);
    TermsShift(c, gen, e, 0, c.g.zero, acc);
    Comm(c.g, EntrySum(c, gen, e), acc);
  }

  /** Moving the entry at position k to the front changes nothing. */
  lemma {:induction false} MoveToFront<P(!new)>(
    c: Setup<P>, gen: (string, nat) -> P, es: seq<Entry>, k: nat, acc: P)
    requires Abelian(c.g) && k < |es|
    ensures AddEntries(c, gen, es, acc) == AddEntries(c, gen, [es[k]] + es[..k] + es[k + 1..], acc)
  {
    hide Abelian, AddTerms;
    var moved := [es[k]] + es[..k] + es[k + 1..];
    assert moved[0] == es[k] && moved[1..] == es[..k] + es[k + 1..];
    EntryAdds(c, gen, es[k], acc);
    EntriesShift(c, gen, moved[1..], acc, EntrySum(c, gen, es[k]));
    InsertEntry(c, gen, es, k, acc);
  }

  /** The k-th entry can be taken out and added at the end. */
  lemma {:induction false} InsertEntry<P(!new)>(
    c: Setup<P>, gen: (string, nat) -> P, es: seq<Entry>, k: nat, acc: P)
    requires Abelian(c.g) && k < |es|
    ensures AddEntries(c, gen, es, acc)
            == c.g.add(AddEntries(c, gen, es[..k] + es[k + 1..], acc), EntrySum(c, gen, es[k]))
    decreases k
  {
    hide Abelian, AddTerms;
    if k == 0 {
      EntryAdds(c, gen, es[0], acc);
      EntriesShift(c, gen, es[1..], acc, EntrySum(c, gen, es[0]));
      assert es[..0] + es[1..] == es[1..];
    } else {
      var rest := es[1..];
      InsertEntry(c, gen, rest, k - 1, AddTerms(c, gen, es[0], 0, acc));
      var without := es[..k] + es[k + 1..];
      assert without[0] == es[0] && without[1..] == rest[..k - 1] + rest[k..];
    }
  }

  lemma TakingOut<T>(es: seq<T>, fs: seq<T>, k: nat)
    requires multiset(es) == multiset(fs) && es != [] && k < |fs| && fs[k] == es[0]
    ensures multiset(es[1..]) == multiset(fs[..k] + fs[k + 1..])
  {
    assert es == [es[0]] + es[1..];
    assert fs == fs[..k] + [fs[k]] + fs[k + 1..];
    assert multiset(es) == multiset{es[0]} + multiset(es[1..]);
    assert multiset(fs) == multiset{fs[k]} + multiset(fs[..k] + fs[k + 1..]);
    assert multiset(es[1..]) == multiset(es) - multiset{es[0]};
  }

  /** The commitment does not depend on the order in which the contests are listed. */
  lemma {:induction false} OrderIrrelevant<P(!new)>(
    c: Setup<P>, gen: (string, nat) -> P, es: seq<Entry>, fs: seq<Entry>, acc: P)
    requires Abelian(c.g) && multiset(es) == multiset(fs)
    ensures AddEntries(c, gen, es, acc) == AddEntries(c, gen, fs, acc)
    decreases |es|
  {
    hide Abelian, AddTerms;
    if es == [] {
      assert |multiset(es)| == |multiset(fs)|;
    } else {
      assert es[0] in multiset(fs);
      var k :| 0 <= k < |fs| && fs[k] == es[0];
      MoveToFront(c, gen, fs, k, acc);
      var rest := fs[..k] + fs[k + 1..];
      assert ([fs[k]] + fs[..k] + fs[k + 1..])[1..] == rest;
      TakingOut(es, fs, k);
      OrderIrrelevant(c, gen, es[1..], rest, AddTerms(c, gen, es[0], 0, acc));
    }
  }

  predicate Unique<T(==)>(s: seq<T>) {
    forall i, j :: 0 <= i < j < |s| ==> s[i] != s[j]
  }

  lemma {:induction false} UniqueCounts<T>(s: seq<T>, x: T)
    requires Unique(s)
    ensures multiset(s)[x] == if x in s then 1 else 0
  {
    if s != [] {
      var n := |s| - 1;
      assert s == s[..n] + [s[n]];
      UniqueCounts(s[..n], x);
    }
  }

  /** Object.entries of a contest map whose keys come in the given order. */
  ghost function Entries(m: map<string, seq<nat>>, keys: seq<string>): seq<Entry>
    requires Lists(m, keys)
  {
    seq(|keys|, i requires 0 <= i < |keys| => Entry(keys[i], m[keys[i]]))
  }

  ghost predicate Lists(m: map<string, seq<nat>>, keys: seq<string>) {
    Unique(keys) && forall k :: k in keys <==> k in m
  }

  lemma EntriesOf(m: map<string, seq<nat>>, keys: seq<string>, e: Entry)
    requires Lists(m, keys)
    ensures Unique(Entries(m, keys))
    ensures e in Entries(m, keys) <==> e.contest in m && e.messages == m[e.contest]
  {
    if e.contest in m && e.messages == m[e.contest] {
      var i :| 0 <= i < |keys| && keys[i] == e.contest;
      assert Entries(m, keys)[i] == e;
    }
  }

  /** An opening validates however its contests come to be ordered. */
  lemma OpeningValidates<P(!new)>(
    c: Setup<P>, gen: (string, nat) -> P, m: map<string, seq<nat>>, keys: seq<string>, others: seq<string>,
    randomizer: nat)
    requires Abelian(c.g) && Lists(m, keys) && Lists(m, others)
    ensures Verify(c, gen, Generate(c, gen, Entries(m, keys), randomizer), Entries(m, others), randomizer)
  {
    var es, fs := Entries(m, keys), Entries(m, others);
    forall e ensures multiset(es)[e] == multiset(fs)[e] {
      EntriesOf(m, keys, e);
      EntriesOf(m, others, e);
      UniqueCounts(es, e);
      UniqueCounts(fs, e);
    }
    OrderIrrelevant(c, gen, es, fs, Times(c.g, randomizer, c.base));
  }

  // ---------------------------------------------------------------- what the commitment binds

  /** m' P = m P + (m' - m) P. */
  lemma TimesMoves<P(!new)>(c: Setup<P>, m: nat, m': nat, p: P)
    requires c.r > 0 && Sound(c)
    ensures Times(c.g, m', p) == c.g.add(Times(c.g, m, p), SigmaProofs.Scale(c, m' - m, p))
  {
    hide Abelian, Exponent, Times, SigmaProofs.Scale;
    SigmaProofs.ScaleTimes(c, m, p);
    SigmaProofs.ScaleTimes(c, m', p);
    SigmaProofs.ScaleAdd(c, m, m' - m, p);
    assert m + (m' - m) == m';
  }

  lemma {:induction false} SameTail<P(!new)>(
    c: Setup<P>, gen: (string, nat) -> P, e: Entry, f: Entry, i: nat, acc: P)
    requires e.contest == f.contest && |e.messages| == |f.messages|
    requires forall j :: i <= j < |e.messages| ==> e.messages[j] == f.messages[j]
    ensures AddTerms(c, gen, e, i, acc) == AddTerms(c, gen, f, i, acc)
    decreases |e.messages| - i
  {
    if i < |e.messages| {
      SameTail(c, gen, e, f, i + 1, c.g.add(acc, Times(c.g, e.messages[i], gen(e.contest, i))));
    }
  }

  function Replaced(e: Entry, k: nat, m: nat): Entry
    requires k < |e.messages|
  {
    Entry(e.contest, e.messages[k := m])
  }

  lemma {:induction false} TermsReplaced<P(!new)>(
    c: Setup<P>, gen: (string, nat) -> P, e: Entry, k: nat, m: nat, i: nat, acc: P)
    requires c.r > 0 && Sound(c) && i <= k < |e.messages|
    ensures AddTerms(c, gen, Replaced(e, k, m), i, acc)
            == c.g.add(AddTerms(c, gen, e, i, acc), SigmaProofs.Scale(c, m - e.messages[k], gen(e.contest, k)))
    decreases k - i
  {
    hide Abelian, Exponent, Times, SigmaProofs.Scale;
    var p, f := gen(e.contest, i), Replaced(e, k, m);
    var t := Times(c.g, e.messages[i], p);
    if i < k {
      TermsReplaced(c, gen, e, k, m, i + 1, c.g.add(acc, t));
    } else {
      var d := SigmaProofs.Scale(c, m - e.messages[k], p);
      TimesMoves(c, e.messages[k], m, p);
      Assoc(c.g, acc, t, d);
      TermsShift(c, gen, f, k + 1, c.g.add(acc, t), d);
      SameTail(c, gen, e, f, k + 1, c.g.add(acc, t));
    }
  }

  lemma {:induction false} EntriesReplaced<P(!new)>(
    c: Setup<P>, gen: (string, nat) -> P, es: seq<Entry>, j: nat, k: nat, m: nat, acc: P)
    requires c.r > 0 && Sound(c) && j < |es| && k < |es[j].messages|
    ensures AddEntries(c, gen, es[j := Replaced(es[j], k, m)], acc)
            == c.g.add(AddEntries(c, gen, es, acc),
                       SigmaProofs.Scale(c, m - es[j].messages[k], gen(es[j].contest, k)))
    decreases j
  {
    hide Abelian, Exponent, Times, SigmaProofs.Scale, AddTerms;
    var fs := es[j := Replaced(es[j], k, m)];
    if j == 0 {
      assert fs[1..] == es[1..];
      TermsReplaced(c, gen, es[0], k, m, 0, acc);
      EntriesShift(c, gen, es[1..], AddTerms(c, gen, es[0], 0, acc),
                   SigmaProofs.Scale(c, m - es[0].messages[k], gen(es[0].contest, k)));
    } else {
      assert fs[1..] == es[1..][j - 1 := Replaced(es[j], k, m)];
      EntriesReplaced(c, gen, es[1..], j - 1, k, m, AddTerms(c, gen, es[0], 0, acc));
    }
  }

  /** A commitment to zeros is the randomizer's multiple of the base point. */
  lemma {:induction false} ZeroTerms<P(!new)>(c: Setup<P>, gen: (string, nat) -> P, e: Entry, i: nat, acc: P)
    requires Abelian(c.g) && forall j :: 0 <= j < |e.messages| ==> e.messages[j] == 0
    ensures AddTerms(c, gen, e, i, acc) == acc
    decreases |e.messages| - i
  {
    if i < |e.messages| {
      Zero(c.g, acc);
      ZeroTerms(c, gen, e, i + 1, acc);
    }
  }

  lemma {:induction false} ZeroEntries<P(!new)>(c: Setup<P>, gen: (string, nat) -> P, es: seq<Entry>, acc: P)
    requires Abelian(c.g)
    requires forall l, j :: 0 <= l < |es| && 0 <= j < |es[l].messages| ==> es[l].messages[j] == 0
    ensures AddEntries(c, gen, es, acc) == acc
  {
    hide Abelian, AddTerms;
    if es != [] {
      ZeroTerms(c, gen, es[0], 0, acc);
      ZeroEntries(c, gen, es[1..], acc);
    }
  }

  lemma ZeroCommitment<P(!new)>(c: Setup<P>, gen: (string, nat) -> P, es: seq<Entry>, randomizer: nat)
    requires Abelian(c.g)
    requires forall l, j :: 0 <= l < |es| && 0 <= j < |es[l].messages| ==> es[l].messages[j] == 0
    ensures Generate(c, gen, es, randomizer) == Times(c.g, randomizer, c.base)
  {
    ZeroEntries(c, gen, es, Times(c.g, randomizer, c.base));
  }

  /** Replacing one message moves the commitment by the difference times that message's own
      generator. */
  lemma MessageShifts<P(!new)>(
    c: Setup<P>, gen: (string, nat) -> P, es: seq<Entry>, j: nat, k: nat, m: nat, randomizer: nat)
    requires c.r > 0 && Sound(c) && j < |es| && k < |es[j].messages|
    ensures Generate(c, gen, es[j := Entry(es[j].contest, es[j].messages[k := m])], randomizer)
            == c.g.add(Generate(c, gen, es, randomizer),
                       SigmaProofs.Scale(c, m - es[j].messages[k], gen(es[j].contest, k)))
  {
    hide Abelian, Exponent, Times, SigmaProofs.Scale;
    EntriesReplaced(c, gen, es, j, k, m, Times(c.g, randomizer, c.base));
  }

  /** Replacing the randomizer moves it by the difference times the base point. */
  lemma RandomizerShifts<P(!new)>(c: Setup<P>, gen: (string, nat) -> P, es: seq<Entry>, v: nat, v': nat)
    requires c.r > 0 && Sound(c)
    ensures Generate(c, gen, es, v')
            == c.g.add(Generate(c, gen, es, v), SigmaProofs.Scale(c, v' - v, c.base))
  {
    hide Abelian, Exponent, Times, SigmaProofs.Scale;
    TimesMoves(c, v, v', c.base);
    EntriesShift(c, gen, es, Times(c.g, v, c.base), SigmaProofs.Scale(c, v' - v, c.base));
  }

  /** A point moved by (b - a) P is itself exactly when a and b are congruent. */
  lemma MovedByNothing<P(!new)>(c: Setup<P>, x: P, a: nat, b: nat, p: P)
    requires c.r > 0 && Sound(c) && Prime(c.r) && p != c.g.zero
    ensures x == c.g.add(x, SigmaProofs.Scale(c, b - a, p)) <==> Cong(a, b, c.r)
  {
    hide Abelian, Exponent, Times, SigmaProofs.Scale, Prime, Cong;
    var d := SigmaProofs.Scale(c, b - a, p);
    SigmaProofs.ScaleNone(c, p);
    SigmaProofs.ScaleInjective(c, b - a, 0, p);
    Zero(c.g, x);
    Zero(c.g, d);
    if x == c.g.add(x, d) {
      Comm(c.g, x, d);
      CancelEqual(c.g, d, c.g.zero, x);
    }
    DifferenceCong(a, b, c.r);
  }

  lemma DifferenceCong(a: int, b: int, r: nat)
    requires r > 0
    ensures Cong(b - a, 0, r) <==> Cong(a, b, r)
  {
    hide Cong;
    if Cong(b - a, 0, r) { CongIntro(b, a, r, CongElim(b - a, 0, r)); CongSym(b, a, r); }
    if Cong(a, b, r) { CongIntro(b - a, 0, r, -CongElim(a, b, r)); }
  }

  /** The contest map with one message replaced. */
  function WithMessage(m: map<string, seq<nat>>, contest: string, i: nat, message: nat): map<string, seq<nat>>
    requires contest in m && i < |m[contest]|
  {
    var messages: seq<nat> := m[contest][i := message];
    m[contest := messages]
  }

  /** An opening with one message replaced validates, in whatever order its contests come,
      exactly when the two messages are congruent modulo the prime order. */
  lemma MessageBinds<P(!new)>(
    c: Setup<P>, gen: (string, nat) -> P, m: map<string, seq<nat>>, keys: seq<string>, others: seq<string>,
    contest: string, i: nat, message: nat, v: nat)
    requires c.r > 0 && Sound(c) && Prime(c.r)
    requires contest in m && i < |m[contest]| && gen(contest, i) != c.g.zero
    requires Lists(m, keys) && Lists(WithMessage(m, contest, i, message), others)
    ensures Verify(c, gen, Generate(c, gen, Entries(m, keys), v),
                   Entries(WithMessage(m, contest, i, message), others), v)
            <==> Cong(m[contest][i], message, c.r)
  {
    hide Abelian, Exponent, Times, SigmaProofs.Scale, Prime, Cong, Generate;
    var m' := WithMessage(m, contest, i, message);
    assert Lists(m', keys);
    OpeningValidates(c, gen, m', keys, others, v);
    var j :| 0 <= j < |keys| && keys[j] == contest;
    var es := Entries(m, keys);
    assert Entries(m', keys) == es[j := Entry(es[j].contest, es[j].messages[i := message])];
    MessageShifts(c, gen, es, j, i, message, v);
    MovedByNothing(c, Generate(c, gen, es, v), m[contest][i], message, gen(contest, i));
  }

  /** Likewise for the randomizer. */
  lemma RandomizerBinds<P(!new)>(
    c: Setup<P>, gen: (string, nat) -> P, m: map<string, seq<nat>>, keys: seq<string>, others: seq<string>,
    v: nat, v': nat)
    requires c.r > 0 && Sound(c) && Prime(c.r) && c.base != c.g.zero && Lists(m, keys) && Lists(m, others)
    ensures Verify(c, gen, Generate(c, gen, Entries(m, keys), v), Entries(m, others), v') <==> Cong(v, v', c.r)
  {
    hide Abelian, Exponent, Times, SigmaProofs.Scale, Prime, Cong, Generate;
    OpeningValidates(c, gen, m, keys, others, v');
    RandomizerShifts(c, gen, Entries(m, keys), v, v');
    MovedByNothing(c, Generate(c, gen, Entries(m, keys), v), v, v', c.base);
  }
}
