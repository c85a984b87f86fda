/** Scalar ElGamal: a number hidden by a factor hashed from the shared point, over limbs. */
module ScalarElGamal {
  import opened Bignum
  import opened Congruence
  import opened Divisors
  import opened ElGamal
  import opened Groups
  import opened Limbs
  import opened Outcomes
  import opened Primes

  /** What reading a digest as a number gives. */
  type Digest = l: seq<int> | Digits(l)

  /** The hashed point modulo the curve's order. */
  method Secret<P(!new)>(g: Group<P>, hash: P -> Digest, r: Bn, point: P) returns (secret: Bn)
    requires Digits(r.limbs) && r.V() > 0
    ensures fresh(secret) && Digits(secret.limbs) && secret.V() == Val(hash(point)) % r.V()
  {
    hide Val, Cong;
    var bits := new Bn(hash(point));
    secret := bits.ModDigits(r);
    ResidueIs(secret.V(), bits.V(), r.V());
  }

  lemma ResidueIs(m: int, v: int, r: int)
    requires r > 0 && 0 <= m < r && Cong(m, v, r)
    ensures m == v % r
  {
    CongMod(v, r);
    CongTrans(m, v, v % r, r);
    CongUnique(m, v % r, r);
  }

  class ElGamalScalarCryptogram<P(!new)> {
    const randomness_point: P
    const ciphertext_bn: Bn

    constructor (p: P, c: Bn)
      ensures randomness_point == p && ciphertext_bn == c
    {
      randomness_point, ciphertext_bn := p, c;
    }

    /** None is where inverseMod throws. */
    method Decrypt(g: Group<P>, hash: P -> Digest, r: Bn, private_key: nat) returns (m: Option<Bn>)
      requires Digits(r.limbs) && r.V() > 1 && Digits(ciphertext_bn.limbs) && ciphertext_bn != r
      modifies ciphertext_bn
      ensures Digits(ciphertext_bn.limbs) && ciphertext_bn.V() == old(ciphertext_bn.V())
      ensures var secret := Val(hash(Times(g, private_key, randomness_point))) % r.V();
              && (m.Some? <==> r.V() % 2 == 1 && Coprime(secret, r.V()))
              && (m.Some? ==> fresh(m.value) && 0 <= m.value.V() < r.V()
                              && Cong(m.value.V() * secret, ciphertext_bn.V(), r.V()))
    {
      hide Val, Cong, Digits, Coprime, Times;
      var secret_bn := Secret(g, hash, r, Times(g, private_key, randomness_point));
      var secret_bn_inverse := secret_bn.InverseMod(r);
      if secret_bn_inverse.None? { return None; }
      ghost var s, i := secret_bn.V(), secret_bn_inverse.value.V();
      var product := ciphertext_bn.MulDigits(secret_bn_inverse.value);
      var plain := product.ModDigits(r);
      FactorRemoved(plain.V(), ciphertext_bn.V(), s, i, r.V());
      return Some(plain);
    }
  }

  /** What is left after multiplying by the inverse gives c again with the secret. */
  lemma FactorRemoved(m: int, c: int, s: int, i: int, r: int)
    requires r > 0 && Cong(m, c * i, r) && Cong(i * s, 1, r)
    ensures Cong(m * s, c, r)
  {
    CongIntro(s, s, r, 0);
    CongMul(m, c * i, s, s, r);
    CongIntro(c, c, r, 0);
    CongMul(c, c, i * s, 1, r);
    assert c * i * s == c * (i * s);
    CongTrans(m * s, c * i * s, c, r);
  }

  method EncryptScalar<P(!new)>(c: Setup<P>, hash: P -> Digest, scalar: Bn, key: P, n: nat, r: Bn)
    returns (e: ElGamalScalarCryptogram<P>)
    requires Digits(r.limbs) && r.V() > 0 && Digits(scalar.limbs) && scalar != r
    modifies scalar
    ensures Digits(scalar.limbs) && scalar.V() == old(scalar.V())
    ensures fresh(e) && fresh(e.ciphertext_bn) && Digits(e.ciphertext_bn.limbs)
    ensures e.randomness_point == Times(c.g, n, c.base) && 0 <= e.ciphertext_bn.V() < r.V()
    ensures Cong(e.ciphertext_bn.V(), scalar.V() * (Val(hash(Times(c.g, n, key))) % r.V()), r.V())
  {
    hide Val, Cong, Digits, Times;
    var secret_bn := Secret(c.g, hash, r, Times(c.g, n, key));
    var product := scalar.MulDigits(secret_bn);
    var ciphertext := product.ModDigits(r);
    e := new ElGamalScalarCryptogram(Times(c.g, n, c.base), ciphertext);
  }

  /** A number is coprime to a prime exactly when the prime does not divide it. */
  lemma CoprimeToPrime(n: int, p: int)
    requires Prime(p)
    ensures Coprime(n, p) <==> n % p != 0
  {
    if n % p == 0 {
      SelfCommon(p);
      assert Common(p, n, p);
    } else {
      forall d | Common(d, n, p) ensures d == 1 { assert Divides(d, p); }
    }
  }

  /** Only one residue gives the ciphertext with an invertible secret. */
  lemma MessageUnique(m: int, m': int, c: int, s: int, r: nat)
    requires r > 1 && Coprime(s, r) && s >= 0 && Cong(m * s, c, r) && Cong(c, m' * s, r) && 0 <= m < r
    ensures m == m' % r
  {
    var g, a, b := Combination(s, r);
    CongTrans(m * s, c, m' * s, r);
    assert Common(g, s, r);
    CongIntro(s * a, 1, r, -b);
    CongCancel(m, m', s, a, r);
    ResidueIs(m, m', r);
  }

  /** Encrypting to x G and decrypting with x gives the message modulo the order, unless the
      hashed secret has no inverse; for an odd prime order, unless it is a multiple of it. */
  method DecryptEncrypted<P(!new)>(c: Setup<P>, hash: P -> Digest, scalar: Bn, x: nat, n: nat, r: Bn)
    returns (m: Option<Bn>)
    requires Abelian(c.g) && Digits(r.limbs) && r.V() > 1 && Digits(scalar.limbs) && scalar != r
    modifies scalar
    ensures scalar.V() == old(scalar.V())
    ensures var secret := Val(hash(Times(c.g, n, Times(c.g, x, c.base))));
            && (m.Some? <==> r.V() % 2 == 1 && Coprime(secret % r.V(), r.V()))
            && (Prime(r.V()) && r.V() % 2 == 1 ==> (m.None? <==> secret % r.V() == 0))
    ensures m.Some? ==> m.value.V() == scalar.V() % r.V()
  {
    hide Val, Cong, Digits, Times, Abelian, Coprime, Prime;
    var e := EncryptScalar(c, hash, scalar, Times(c.g, x, c.base), n, r);
    TimesTimes(c.g, x, n, c.base);
    TimesTimes(c.g, n, x, c.base);
    assert x * n == n * x;
    m := e.Decrypt(c.g, hash, r, x);
    ghost var s := Val(hash(Times(c.g, n, Times(c.g, x, c.base)))) % r.V();
    if m.Some? { MessageUnique(m.value.V(), scalar.V(), e.ciphertext_bn.V(), s, r.V()); }
    if Prime(r.V()) { CoprimeOfResidue(s, r.V()); }
  }

  lemma CoprimeOfResidue(s: int, p: int)
    requires Prime(p) && 0 <= s < p
    ensures Coprime(s, p) <==> s != 0
  {
    CoprimeToPrime(s, p);
    DivModUnique(s, p, 0, s);
  }
}
