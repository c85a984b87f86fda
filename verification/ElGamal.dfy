/** Point ElGamal: encryption, the in-place homomorphic sum, and decryption with a private
    key or, with the roles of key and randomness exchanged, with the randomness. */
module ElGamal {
  import opened Groups

  /** An abelian group of exponent r with a base point. */
  datatype Setup<!P(!new)> = Setup(g: Group<P>, base: P, r: nat)

  ghost predicate Sound<P(!new)>(c: Setup<P>) {
    Abelian(c.g) && Exponent(c.g, c.r)
  }

  /** What toString writes and fromString reads: the two points. */
  datatype Pair<+P> = Pair(randomness: P, ciphertext: P)

  class ElGamalPointCryptogram<P(!new)> {
    var randomness_point: P
    var ciphertext_point: P

    ghost function Value(): Pair<P> reads this { Pair(randomness_point, ciphertext_point) }

    constructor (p: Pair<P>)
      ensures Value() == p
    {
      randomness_point, ciphertext_point := p.randomness, p.ciphertext;
    }

    method HomomorphicallyAddCryptogram(g: Group<P>, other: ElGamalPointCryptogram<P>)
      modifies this
      ensures randomness_point == g.add(old(randomness_point), old(other.randomness_point))
      ensures ciphertext_point == g.add(old(ciphertext_point), old(other.ciphertext_point))
    {
      randomness_point := g.add(randomness_point, other.randomness_point);
      ciphertext_point := g.add(ciphertext_point, other.ciphertext_point);
    }

    /** c - key * R. */
    function Decrypt(g: Group<P>, key: nat): P
      reads this
    {
      g.add(ciphertext_point, g.neg(Times(g, key, randomness_point)))
    }
  }

  function PairSum<P(!new)>(g: Group<P>, a: Pair<P>, b: Pair<P>): Pair<P> {
    Pair(g.add(a.randomness, b.randomness), g.add(a.ciphertext, b.ciphertext))
  }

  /** (n G, n K + M). */
  function Encrypt<P(!new)>(c: Setup<P>, m: P, key: P, n: nat): Pair<P> {
    Pair(Times(c.g, n, c.base), c.g.add(Times(c.g, n, key), m))
  }

  /** The board's share: an encryption of nothing. */
  function EmptyPair<P(!new)>(c: Setup<P>, key: P, n: nat): Pair<P> {
    Pair(Times(c.g, n, c.base), Times(c.g, n, key))
  }

  function DecryptPair<P(!new)>(g: Group<P>, p: Pair<P>, key: nat): P {
    g.add(p.ciphertext, g.neg(Times(g, key, p.randomness)))
  }

  /** Adding an empty cryptogram re-encrypts with the sum of the randomness. */
  lemma SumReencrypts<P(!new)>(c: Setup<P>, m: P, key: P, v: nat, b: nat)
    requires Sound(c)
    ensures PairSum(c.g, Encrypt(c, m, key, v), EmptyPair(c, key, b)) == Encrypt(c, m, key, v + b)
  {
    var g := c.g;
    hide Abelian;
    TimesAdd(g, v, b, c.base);
    TimesAdd(g, v, b, key);
    var x, y := Times(g, v, key), Times(g, b, key);
    Assoc(g, x, m, y);
    Comm(g, m, y);
    Assoc(g, x, y, m);
  }

  /** (n K + M) - n K = M. */
  lemma Unmask<P(!new)>(g: Group<P>, s: P, m: P)
    requires Abelian(g)
    ensures g.add(g.add(s, m), g.neg(s)) == m
  {
    hide Abelian;
    Comm(g, s, m);
    Cancel(g, m, s);
  }

  /** Decrypting with the private key. */
  lemma DecryptsWithKey<P(!new)>(c: Setup<P>, m: P, x: nat, n: nat)
    requires Sound(c)
    ensures DecryptPair(c.g, Encrypt(c, m, Times(c.g, x, c.base), n), x) == m
  {
    TimesTimes(c.g, x, n, c.base);
    TimesTimes(c.g, n, x, c.base);
    assert x * n == n * x;
    Unmask(c.g, Times(c.g, n, Times(c.g, x, c.base)), m);
  }

  /** Decrypting with the combined randomness reduced modulo r: key and randomness point
      change places. */
  lemma DecryptsWithRandomness<P(!new)>(c: Setup<P>, m: P, key: P, v: nat, b: nat)
    requires c.r > 0 && Sound(c)
    ensures var sum := PairSum(c.g, Encrypt(c, m, key, v), EmptyPair(c, key, b));
            DecryptPair(c.g, Pair(key, sum.ciphertext), (v + b) % c.r) == m
  {
    hide Abelian, Exponent, Times;
    SumReencrypts(c, m, key, v, b);
    TimesMod(c.g, c.r, v + b, key);
    Unmask(c.g, Times(c.g, v + b, key), m);
  }
}
