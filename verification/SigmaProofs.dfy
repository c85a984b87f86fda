/** The zero-knowledge proofs and signatures: every honest proof is accepted, what exactly the
    verifiers accept, and that two transcripts give the key away. Hashes to scalars are
    parameters; scalars are the values of their limb vectors. */
module SigmaProofs {
  import opened Congruence
  import opened ElGamal
  import opened Groups
  import opened Outcomes
  import opened Primes

  // ---------------------------------------------------------------- scalars modulo r

  /** (k mod r) P, for any integer k. */
  function Scale<P(!new)>(c: Setup<P>, k: int, p: P): P
    requires c.r > 0
  {
    Times(c.g, k % c.r, p)
  }

  lemma ScaleTimes<P(!new)>(c: Setup<P>, k: nat, p: P)
    requires c.r > 0 && Sound(c)
    ensures Times(c.g, k, p) == Scale(c, k, p)
  {
    TimesMod(c.g, c.r, k, p);
  }

  lemma ScaleCong<P(!new)>(c: Setup<P>, k: int, l: int, p: P)
    requires c.r > 0 && Cong(k, l, c.r)
    ensures Scale(c, k, p) == Scale(c, l, p)
  {
    CongIffMod(k, l, c.r);
  }

  lemma ScaleAdd<P(!new)>(c: Setup<P>, k: int, l: int, p: P)
    requires c.r > 0 && Sound(c)
    ensures Scale(c, k + l, p) == c.g.add(Scale(c, k, p), Scale(c, l, p))
  {
    hide Abelian, Exponent, Times;
    var a, b := k % c.r, l % c.r;
    CongMod(k, c.r);
    CongMod(l, c.r);
    CongAdd(k, a, l, b, c.r);
    ScaleCong(c, k + l, a + b, p);
    ScaleTimes(c, a + b, p);
    TimesAdd(c.g, a, b, p);
  }

  lemma ScaleScale<P(!new)>(c: Setup<P>, k: int, l: int, p: P)
    requires c.r > 0 && Sound(c)
    ensures Scale(c, k * l, p) == Scale(c, k, Scale(c, l, p))
  {
    hide Abelian, Exponent, Times;
    var a, b := k % c.r, l % c.r;
    CongMod(k, c.r);
    CongMod(l, c.r);
    CongMul(k, a, l, b, c.r);
    ScaleCong(c, k * l, a * b, p);
    TimesTimes(c.g, a, b, p);
    ScaleTimes(c, a * b, p);
  }

  lemma ScaleOne<P(!new)>(c: Setup<P>, p: P)
    requires c.r > 1 && Sound(c)
    ensures Scale(c, 1, p) == p
  {
    SmallResidue(1, c.r);
    Zero(c.g, p);
    assert Times(c.g, 1, p) == c.g.add(p, Times(c.g, 0, p));
  }

  lemma ScaleNone<P(!new)>(c: Setup<P>, p: P)
    requires c.r > 0
    ensures Scale(c, 0, p) == c.g.zero
  {
  }

  /** A point other than the identity tells scalars apart modulo a prime r. */
  lemma ScaleInjective<P(!new)>(c: Setup<P>, k: int, l: int, p: P)
    requires c.r > 0 && Sound(c) && Prime(c.r) && p != c.g.zero
    ensures Scale(c, k, p) == Scale(c, l, p) <==> Cong(k, l, c.r)
  {
    hide Abelian, Exponent, Times, Prime, Cong;
    if Cong(k, l, c.r) {
      ScaleCong(c, k, l, p);
    } else if Scale(c, k, p) == Scale(c, l, p) {
      var d := k - l;
      ScaleAdd(c, d, l, p);
      ScaleAdd(c, 0, l, p);
      ScaleNone(c, p);
      CancelEqual(c.g, Scale(c, d, p), c.g.zero, Scale(c, l, p));
      NotCong(k, l, c.r);
      var inv := InverseExists(d % c.r, c.r);
      Inverts(c, d, inv, p);
      ScaleScale(c, inv, d, p);
      TimesZero(c.g, inv % c.r);
      assert false;
    }
  }

  /** The same on the multiples themselves. */
  lemma TimesInjective<P(!new)>(c: Setup<P>, k: nat, l: nat, p: P)
    requires c.r > 0 && Sound(c) && Prime(c.r) && p != c.g.zero
    ensures Times(c.g, k, p) == Times(c.g, l, p) <==> Cong(k, l, c.r)
  {
    hide Abelian, Exponent, Times, Prime, Cong;
    ScaleTimes(c, k, p);
    ScaleTimes(c, l, p);
    ScaleInjective(c, k, l, p);
  }

  lemma NotCong(k: int, l: int, n: nat)
    requires n > 0 && !Cong(k, l, n)
    ensures (k - l) % n != 0
  {
  }

  /** Multiplying by d and then by its inverse modulo r. */
  lemma Inverts<P(!new)>(c: Setup<P>, d: int, inv: int, p: P)
    requires c.r > 0 && Sound(c) && Prime(c.r) && Cong(d % c.r * inv, 1, c.r)
    ensures Scale(c, inv * d, p) == p
  {
    hide Abelian, Exponent, Times, Cong;
    PrimeAboveOne(c.r);
    CongMod(d, c.r);
    CongIntro(inv, inv, c.r, 0);
    CongMul(d, d % c.r, inv, inv, c.r);
    CongTrans(d * inv, d % c.r * inv, 1, c.r);
    ScaleCong(c, d * inv, 1, p);
    ScaleOne(c, p);
    assert inv * d == d * inv;
  }

  // ---------------------------------------------------------------- discrete logarithm

  datatype Transcript<+P> = Transcript(commitment: P, challenge: nat, response: nat)

  /** DiscreteLogarithmProof.verifyWithoutChallenge. */
  predicate Checks<P(!new, ==)>(c: Setup<P>, generator: P, key: P, t: Transcript<P>) {
    Times(c.g, t.response, generator) == c.g.add(t.commitment, Times(c.g, t.challenge, key))
  }

  /** The challenge hash over generator, commitment and public key, modulo r. */
  function Challenge<P>(h: seq<P> -> nat, r: nat, points: seq<P>): nat
    requires r > 0
  {
    h(points) % r
  }

  predicate Verify<P(!new, ==)>(c: Setup<P>, h: seq<P> -> nat, generator: P, key: P, t: Transcript<P>)
    requires c.r > 0
  {
    Checks(c, generator, key, t) && t.challenge == Challenge(h, c.r, [generator, t.commitment, key])
  }

  /** The answer to a challenge: commitment_bn + private_key * challenge, modulo r. */
  function Respond(r: nat, nonce: nat, x: nat, challenge: nat): nat
    requires r > 0
  {
    (nonce + x * challenge) % r
  }

  function Generate<P(!new)>(c: Setup<P>, h: seq<P> -> nat, generator: P, x: nat, nonce: nat): Transcript<P>
    requires c.r > 0
  {
    var commitment := Times(c.g, nonce, generator);
    var challenge := Challenge(h, c.r, [generator, commitment, Times(c.g, x, generator)]);
    Transcript(commitment, challenge, Respond(c.r, nonce, x, challenge))
  }

  /** For a commitment nonce G and a key x G, the verifier accepts exactly the responses
      congruent to nonce + x * challenge. */
  lemma ChecksExactly<P(!new)>(c: Setup<P>, generator: P, x: nat, nonce: nat, challenge: nat, response: nat)
    requires c.r > 0 && Sound(c) && Prime(c.r) && generator != c.g.zero
    ensures Checks(c, generator, Times(c.g, x, generator),
                   Transcript(Times(c.g, nonce, generator), challenge, response))
            <==> Cong(response, nonce + x * challenge, c.r)
  {
    hide Abelian, Exponent, Times, Cong, Prime;
    RightHandSide(c, generator, x, nonce, challenge);
    ScaleTimes(c, response, generator);
    ScaleInjective(c, response, nonce + x * challenge, generator);
  }

  /** nonce G + challenge (x G) = (nonce + x * challenge) G. */
  lemma RightHandSide<P(!new)>(c: Setup<P>, generator: P, x: nat, nonce: nat, challenge: nat)
    requires c.r > 0 && Sound(c)
    ensures c.g.add(Times(c.g, nonce, generator), Times(c.g, challenge, Times(c.g, x, generator)))
            == Scale(c, nonce + x * challenge, generator)
  {
    hide Abelian, Exponent, Times, Scale;
    ScaleTimes(c, nonce, generator);
    ScaleTimes(c, x, generator);
    ScaleTimes(c, challenge, Times(c.g, x, generator));
    ScaleScale(c, challenge, x, generator);
    var xc: int := x * challenge;
    assert challenge * x == xc;
    ScaleAdd(c, nonce, xc, generator);
  }

  /** Completeness of the algebra: the computed response always checks. */
  lemma RespondChecks<P(!new)>(c: Setup<P>, generator: P, x: nat, nonce: nat, challenge: nat)
    requires c.r > 0 && Sound(c)
    ensures Checks(c, generator, Times(c.g, x, generator),
                   Transcript(Times(c.g, nonce, generator), challenge, Respond(c.r, nonce, x, challenge)))
  {
    hide Abelian, Exponent, Times;
    RightHandSide(c, generator, x, nonce, challenge);
    var k := nonce + x * challenge;
    assert Respond(c.r, nonce, x, challenge) == k % c.r;
  }

  /** Every proof made with the key is accepted. */
  lemma Complete<P(!new)>(c: Setup<P>, h: seq<P> -> nat, generator: P, x: nat, nonce: nat)
    requires c.r > 0 && Sound(c)
    ensures Verify(c, h, generator, Times(c.g, x, generator), Generate(c, h, generator, x, nonce))
  {
    hide Abelian, Exponent, Times, Checks;
    RespondChecks(c, generator, x, nonce, Generate(c, h, generator, x, nonce).challenge);
  }

  /** What a proof shows of its nonce: the commitment is the nonce's multiple of the generator,
      and the response masks key times challenge with the nonce. */
  lemma GeneratedFrom<P(!new)>(c: Setup<P>, h: seq<P> -> nat, generator: P, x: nat, nonce: nat)
    requires c.r > 0
    ensures var t := Generate(c, h, generator, x, nonce);
            && t.commitment == Times(c.g, nonce, generator)
            && t.challenge == h([generator, t.commitment, Times(c.g, x, generator)]) % c.r
            && Cong(t.response, nonce + x * t.challenge, c.r) && t.response < c.r
  {
    var t := Generate(c, h, generator, x, nonce);
    CongMod(nonce + x * t.challenge, c.r);
  }

  /** Two proofs, of whatever keys, share a commitment exactly when their nonces are congruent. */
  lemma NoncesApart<P(!new)>(
    c: Setup<P>, h: seq<P> -> nat, h': seq<P> -> nat, generator: P, x: nat, x': nat, nonce: nat, nonce': nat)
    requires c.r > 0 && Sound(c) && Prime(c.r) && generator != c.g.zero
    ensures Generate(c, h, generator, x, nonce).commitment == Generate(c, h', generator, x', nonce').commitment
            <==> Cong(nonce, nonce', c.r)
  {
    TimesInjective(c, nonce, nonce', generator);
  }

  /** The full verifier: the responses ChecksExactly admits, under the hash's own challenge. */
  lemma VerifiesExactly<P(!new)>(
    c: Setup<P>, h: seq<P> -> nat, generator: P, x: nat, nonce: nat, challenge: nat, response: nat)
    requires c.r > 0 && Sound(c) && Prime(c.r) && generator != c.g.zero
    ensures var commitment, key := Times(c.g, nonce, generator), Times(c.g, x, generator);
            Verify(c, h, generator, key, Transcript(commitment, challenge, response))
            <==> && Cong(response, nonce + x * challenge, c.r)
                 && challenge == h([generator, commitment, key]) % c.r
  {
    hide Abelian, Exponent, Times, Cong, Prime, Checks;
    ChecksExactly(c, generator, x, nonce, challenge, response);
  }

  /** A transcript accepted under one hash is accepted under another exactly when the two agree
      modulo r at generator, commitment and key; no other value of the hash matters. */
  lemma HashBinds<P(!new)>(
    c: Setup<P>, h: seq<P> -> nat, h': seq<P> -> nat, generator: P, key: P, t: Transcript<P>)
    requires c.r > 0
    ensures var points := [generator, t.commitment, key];
            && (Verify(c, h, generator, key, t) ==>
                  (Verify(c, h', generator, key, t) <==> Cong(h(points), h'(points), c.r)))
            && (Cong(h(points), h'(points), c.r) ==>
                  (Verify(c, h, generator, key, t) <==> Verify(c, h', generator, key, t)))
  {
    hide Checks, Cong;
    var points := [generator, t.commitment, key];
    CongIffMod(h(points), h'(points), c.r);
  }

  /** Special soundness: two accepted answers to one commitment give the key, whatever the
      key point is, and every logarithm of the key point is that one modulo r. */
  lemma Extract<P(!new)>(c: Setup<P>, generator: P, key: P, t: Transcript<P>, u: Transcript<P>) returns (x: nat)
    requires c.r > 0 && Sound(c) && Prime(c.r)
    requires Checks(c, generator, key, t) && Checks(c, generator, key, u)
    requires t.commitment == u.commitment && !Cong(t.challenge, u.challenge, c.r)
    ensures x < c.r && key == Times(c.g, x, generator)
    ensures Cong(x * (t.challenge - u.challenge), t.response - u.response, c.r)
    ensures generator != c.g.zero ==> forall y: nat :: key == Times(c.g, y, generator) ==> Cong(y, x, c.r)
  {
    hide Abelian, Exponent, Times, Cong, Prime;
    var d, e := t.challenge - u.challenge, t.response - u.response;
    Subtracted(c, generator, key, t, u);
    NotCong(t.challenge, u.challenge, c.r);
    var inv := InverseExists(d % c.r, c.r);
    x := (inv * e) % c.r;
    Inverts(c, d, inv, key);
    ScaleScale(c, inv, d, key);
    ScaleScale(c, inv, e, generator);
    InverseSolves(x, inv, d, e, c.r);
    if generator != c.g.zero {
      forall y: nat | key == Times(c.g, y, generator) ensures Cong(y, x, c.r) {
        ScaleTimes(c, y, generator);
        ScaleTimes(c, x, generator);
        ScaleInjective(c, y, x, generator);
      }
    }
  }

  /** (z - z') G = (e - e') Y. */
  lemma Subtracted<P(!new)>(c: Setup<P>, generator: P, key: P, t: Transcript<P>, u: Transcript<P>)
    requires c.r > 0 && Sound(c) && t.commitment == u.commitment
    requires Checks(c, generator, key, t) && Checks(c, generator, key, u)
    ensures Scale(c, t.response - u.response, generator) == Scale(c, t.challenge - u.challenge, key)
  {
    hide Abelian, Exponent, Times, Scale;
    var d, e := t.challenge - u.challenge, t.response - u.response;
    ScaleTimes(c, t.response, generator);
    ScaleTimes(c, u.response, generator);
    ScaleTimes(c, t.challenge, key);
    ScaleTimes(c, u.challenge, key);
    ScaleAdd(c, e, u.response, generator);
    ScaleAdd(c, d, u.challenge, key);
    var a, w := t.commitment, Scale(c, u.challenge, key);
    Comm(c.g, Scale(c, d, key), w);
    Assoc(c.g, a, w, Scale(c, d, key));
    Comm(c.g, c.g.add(a, w), Scale(c, d, key));
    CancelEqual(c.g, Scale(c, e, generator), Scale(c, d, key), c.g.add(a, w));
  }

  lemma InverseSolves(x: nat, inv: int, d: int, e: int, r: nat)
    requires r > 0 && x == (inv * e) % r && Cong(d % r * inv, 1, r)
    ensures Cong(x * d, e, r)
  {
    hide Cong;
    CongMod(inv * e, r);
    CongMod(d, r);
    CongMul(x, inv * e, d, d % r, r);
    CongIntro(e, e, r, 0);
    CongMul(d % r * inv, 1, e, e, r);
    assert inv * e * (d % r) == d % r * inv * e;
    CongTrans(x * d, d % r * inv * e, e, r);
  }

  // ---------------------------------------------------------------- equality of logarithms

  datatype EqualityTranscript<+P> = EqualityTranscript(
    commitment1: P, commitment2: P, challenge: nat, response: nat)

  /** DiscreteLogarithmEqualityProof.verifyWithoutChallenge. */
  predicate EqualityChecks<P(!new, ==)>(c: Setup<P>, g1: P, g2: P, y1: P, y2: P, t: EqualityTranscript<P>) {
    && Times(c.g, t.response, g1) == c.g.add(t.commitment1, Times(c.g, t.challenge, y1))
    && Times(c.g, t.response, g2) == c.g.add(t.commitment2, Times(c.g, t.challenge, y2))
  }

  predicate EqualityVerify<P(!new, ==)>(
    c: Setup<P>, h: seq<P> -> nat, g1: P, g2: P, y1: P, y2: P, t: EqualityTranscript<P>)
    requires c.r > 0
  {
    && EqualityChecks(c, g1, g2, y1, y2, t)
    && t.challenge == Challenge(h, c.r, [g1, g2, t.commitment1, t.commitment2, y1, y2])
  }

  function EqualityGenerate<P(!new)>(c: Setup<P>, h: seq<P> -> nat, g1: P, g2: P, x: nat, nonce: nat)
    : EqualityTranscript<P>
    requires c.r > 0
  {
    var t1, t2 := Times(c.g, nonce, g1), Times(c.g, nonce, g2);
    var challenge := Challenge(h, c.r, [g1, g2, t1, t2, Times(c.g, x, g1), Times(c.g, x, g2)]);
    EqualityTranscript(t1, t2, challenge, Respond(c.r, nonce, x, challenge))
  }

  lemma EqualityComplete<P(!new)>(c: Setup<P>, h: seq<P> -> nat, g1: P, g2: P, x: nat, nonce: nat)
    requires c.r > 0 && Sound(c)
    ensures EqualityVerify(c, h, g1, g2, Times(c.g, x, g1), Times(c.g, x, g2), EqualityGenerate(c, h, g1, g2, x, nonce))
  {
    hide Abelian, Exponent, Times;
    var challenge := EqualityGenerate(c, h, g1, g2, x, nonce).challenge;
    RespondChecks(c, g1, x, nonce, challenge);
    RespondChecks(c, g2, x, nonce, challenge);
  }

  lemma EqualityGeneratedFrom<P(!new)>(c: Setup<P>, h: seq<P> -> nat, g1: P, g2: P, x: nat, nonce: nat)
    requires c.r > 0
    ensures var t := EqualityGenerate(c, h, g1, g2, x, nonce);
            && t.commitment1 == Times(c.g, nonce, g1) && t.commitment2 == Times(c.g, nonce, g2)
            && t.challenge == h([g1, g2, t.commitment1, t.commitment2, Times(c.g, x, g1), Times(c.g, x, g2)]) % c.r
            && Cong(t.response, nonce + x * t.challenge, c.r) && t.response < c.r
  {
    var t := EqualityGenerate(c, h, g1, g2, x, nonce);
    CongMod(nonce + x * t.challenge, c.r);
  }

  lemma EqualityNoncesApart<P(!new)>(
    c: Setup<P>, h: seq<P> -> nat, h': seq<P> -> nat, g1: P, g2: P, x: nat, x': nat, nonce: nat, nonce': nat)
    requires c.r > 0 && Sound(c) && Prime(c.r) && g1 != c.g.zero
    ensures EqualityGenerate(c, h, g1, g2, x, nonce).commitment1
            == EqualityGenerate(c, h', g1, g2, x', nonce').commitment1
            <==> Cong(nonce, nonce', c.r)
  {
    TimesInjective(c, nonce, nonce', g1);
  }

  /** Any two commitments and key points over the two generators: one response must fit both
      equations, under the hash's own challenge. */
  lemma EqualityVerifiesExactly<P(!new)>(
    c: Setup<P>, h: seq<P> -> nat, g1: P, g2: P, x1: nat, x2: nat, n1: nat, n2: nat, challenge: nat, response: nat)
    requires c.r > 0 && Sound(c) && Prime(c.r) && g1 != c.g.zero && g2 != c.g.zero
    ensures var t1, t2 := Times(c.g, n1, g1), Times(c.g, n2, g2);
            var y1, y2 := Times(c.g, x1, g1), Times(c.g, x2, g2);
            EqualityVerify(c, h, g1, g2, y1, y2, EqualityTranscript(t1, t2, challenge, response))
            <==> && Cong(response, n1 + x1 * challenge, c.r) && Cong(response, n2 + x2 * challenge, c.r)
                 && challenge == h([g1, g2, t1, t2, y1, y2]) % c.r
  {
    hide Abelian, Exponent, Times, Cong, Prime;
    ChecksExactly(c, g1, x1, n1, challenge, response);
    ChecksExactly(c, g2, x2, n2, challenge, response);
  }

  lemma EqualityHashBinds<P(!new)>(
    c: Setup<P>, h: seq<P> -> nat, h': seq<P> -> nat, g1: P, g2: P, y1: P, y2: P, t: EqualityTranscript<P>)
    requires c.r > 0
    ensures var points := [g1, g2, t.commitment1, t.commitment2, y1, y2];
            && (EqualityVerify(c, h, g1, g2, y1, y2, t) ==>
                  (EqualityVerify(c, h', g1, g2, y1, y2, t) <==> Cong(h(points), h'(points), c.r)))
            && (Cong(h(points), h'(points), c.r) ==>
                  (EqualityVerify(c, h, g1, g2, y1, y2, t) <==> EqualityVerify(c, h', g1, g2, y1, y2, t)))
  {
    hide EqualityChecks, Cong;
    var points := [g1, g2, t.commitment1, t.commitment2, y1, y2];
    CongIffMod(h(points), h'(points), c.r);
  }

  /** Two accepted answers give one key that is the logarithm of both key points. */
  lemma EqualityExtract<P(!new)>(
    c: Setup<P>, g1: P, g2: P, y1: P, y2: P, t: EqualityTranscript<P>, u: EqualityTranscript<P>)
    returns (x: nat)
    requires c.r > 0 && Sound(c) && Prime(c.r) && g1 != c.g.zero
    requires EqualityChecks(c, g1, g2, y1, y2, t) && EqualityChecks(c, g1, g2, y1, y2, u)
    requires t.commitment1 == u.commitment1 && t.commitment2 == u.commitment2
    requires !Cong(t.challenge, u.challenge, c.r)
    ensures x < c.r && y1 == Times(c.g, x, g1) && y2 == Times(c.g, x, g2)
  {
    hide Abelian, Exponent, Times, Cong, Prime;
    x := Extract(c, g1, y1, Transcript(t.commitment1, t.challenge, t.response),
                 Transcript(u.commitment1, u.challenge, u.response));
    var w := Extract(c, g2, y2, Transcript(t.commitment2, t.challenge, t.response),
                     Transcript(u.commitment2, u.challenge, u.response));
    NotCong(t.challenge, u.challenge, c.r);
    SameSolution(x, w, t.challenge - u.challenge, t.response - u.response, c.r);
  }

  lemma SameSolution(x: nat, w: nat, d: int, e: int, r: nat)
    requires Prime(r) && r > 0 && d % r != 0 && x < r && w < r
    requires Cong(x * d, e, r) && Cong(w * d, e, r)
    ensures x == w
  {
    hide Prime, Cong;
    var inv := InverseExists(d % r, r);
    CongSym(w * d, e, r);
    CongTrans(x * d, e, w * d, r);
    CongMod(d, r);
    CongIntro(inv, inv, r, 0);
    CongMul(d, d % r, inv, inv, r);
    CongTrans(d * inv, d % r * inv, 1, r);
    CongCancel(x, w, d, inv, r);
    CongUnique(x, w, r);
  }

  // ---------------------------------------------------------------- many generators

  /** points[0] + sum of z[i] points[i + 1], over the first n of them. */
  function Combined<P(!new)>(g: Group<P>, points: seq<P>, z: seq<nat>, n: nat): P
    requires n <= |z| && n < |points|
  {
    if n == 0 then points[0]
    else g.add(Combined(g, points, z, n - 1), Times(g, z[n - 1], points[n]))
  }

  /** The coefficients hash(i || hash(public keys)) mod r for i = 1 .. n. */
  function Coefficients<P>(hz: (nat, seq<P>) -> nat, r: nat, keys: seq<P>, n: nat): seq<nat>
    requires r > 0
  {
    seq(n, i requires 0 <= i < n => hz(i + 1, keys) % r)
  }

  method DrawCoefficients<P>(hz: (nat, seq<P>) -> nat, r: nat, keys: seq<P>, n: nat) returns (z: seq<nat>)
    requires r > 0
    ensures z == Coefficients(hz, r, keys, n)
  {
    z := [];
    for i := 1 to n + 1
      invariant z == Coefficients(hz, r, keys, n)[..i - 1]
    {
      z := z + [hz(i, keys) % r];
    }
  }

  /** The accumulation loops over generators and over public keys. */
  method Accumulate<P(!new)>(g: Group<P>, points: seq<P>, z: seq<nat>) returns (sum: P)
    requires |points| == |z| + 1
    ensures sum == Combined(g, points, z, |z|)
  {
    sum := points[0];
    for i := 0 to |z|
      invariant sum == Combined(g, points, z, i)
    {
      sum := g.add(sum, Times(g, z[i], points[i + 1]));
    }
  }

  function AllTimes<P(!new)>(g: Group<P>, x: nat, points: seq<P>): seq<P> {
    seq(|points|, i requires 0 <= i < |points| => Times(g, x, points[i]))
  }

  /** DiscreteLogarithmMultipleProof.verifyWithoutChallenge; None when it throws. */
  method MultipleChecks<P(!new, ==)>(
    c: Setup<P>, hz: (nat, seq<P>) -> nat, generators: seq<P>, keys: seq<P>, t: Transcript<P>)
    returns (r: Option<bool>)
    requires c.r > 0
    ensures r == MultipleAccepts(c, hz, generators, keys, t)
  {
    if |generators| != |keys| { return Some(false); }
    if |generators| == 0 { return None; }
    var z := DrawCoefficients(hz, c.r, keys, |generators| - 1);
    var left := Accumulate(c.g, generators, z);
    left := Times(c.g, t.response, left);
    var right := Accumulate(c.g, keys, z);
    right := c.g.add(t.commitment, Times(c.g, t.challenge, right));
    return Some(left == right);
  }

  /** The proof is a discrete-logarithm proof for the combined points. */
  function MultipleAccepts<P(!new, ==)>(
    c: Setup<P>, hz: (nat, seq<P>) -> nat, generators: seq<P>, keys: seq<P>, t: Transcript<P>): Option<bool>
    requires c.r > 0
  {
    var n := |generators| - 1;
    if |generators| != |keys| then Some(false)
    else if generators == [] then None
    else
      var z := Coefficients(hz, c.r, keys, n);
      Some(Checks(c, Combined(c.g, generators, z, n), Combined(c.g, keys, z, n), t))
  }

  /** DiscreteLogarithmMultipleProof.generate; None when it throws. */
  method MultipleGenerate<P(!new)>(
    c: Setup<P>, h: seq<P> -> nat, hz: (nat, seq<P>) -> nat, generators: seq<P>, x: nat, nonce: nat)
    returns (r: Option<Transcript<P>>)
    requires c.r > 0 && Sound(c)
    ensures r.None? <==> generators == []
    ensures var keys := AllTimes(c.g, x, generators);
            r.Some? ==>
              && MultipleAccepts(c, hz, generators, keys, r.value) == Some(true)
              && r.value.challenge == h(generators + [r.value.commitment] + keys) % c.r
              && Cong(r.value.response, nonce + x * r.value.challenge, c.r) && r.value.response < c.r
              && r.value.commitment
                 == Times(c.g, nonce, Combined(c.g, generators, Coefficients(hz, c.r, keys, |generators| - 1),
                                               |generators| - 1))
  {
    hide Abelian, Exponent, Times, Checks;
    if generators == [] { return None; }
    var keys := AllTimes(c.g, x, generators);
    var z := DrawCoefficients(hz, c.r, keys, |generators| - 1);
    var commitment := Accumulate(c.g, generators, z);
    ghost var g0 := commitment;
    commitment := Times(c.g, nonce, commitment);
    var challenge := Challenge(h, c.r, generators + [commitment] + keys);
    CombinedTimes(c.g, x, generators, z, |z|);
    RespondChecks(c, g0, x, nonce, challenge);
    CongMod(nonce + x * challenge, c.r);
    return Some(Transcript(commitment, challenge, Respond(c.r, nonce, x, challenge)));
  }

  /** Combining x-multiples gives the x-multiple of the combination. */
  lemma {:induction false} CombinedTimes<P(!new)>(g: Group<P>, x: nat, points: seq<P>, z: seq<nat>, n: nat)
    requires Abelian(g) && n <= |z| && n < |points|
    ensures Combined(g, AllTimes(g, x, points), z, n) == Times(g, x, Combined(g, points, z, n))
  {
    hide Abelian, Times;
    if n > 0 {
      CombinedTimes(g, x, points, z, n - 1);
      TimesTimes(g, z[n - 1], x, points[n]);
      TimesTimes(g, x, z[n - 1], points[n]);
      assert z[n - 1] * x == x * z[n - 1];
      TimesOfSum(g, x, Combined(g, points, z, n - 1), Times(g, z[n - 1], points[n]));
    }
  }

  /** DiscreteLogarithmMultipleProof.verify; None when it throws. */
  method MultipleVerify<P(!new, ==)>(
    c: Setup<P>, h: seq<P> -> nat, hz: (nat, seq<P>) -> nat, generators: seq<P>, keys: seq<P>, t: Transcript<P>)
    returns (r: Option<bool>)
    requires c.r > 0
    ensures r.None? <==> generators == [] && keys == []
    ensures r.Some? ==>
              (r.value <==> && MultipleAccepts(c, hz, generators, keys, t) == Some(true)
                            && t.challenge == h(generators + [t.commitment] + keys) % c.r)
  {
    var checks := MultipleChecks(c, hz, generators, keys, t);
    if checks.None? || !checks.value { return checks; }
    return Some(t.challenge == Challenge(h, c.r, generators + [t.commitment] + keys));
  }

  /** a[0] + sum of z[i] a[i + 1], over the first n coefficients. */
  function Weighted(a: seq<nat>, z: seq<nat>, n: nat): nat
    requires n <= |z| && n < |a|
  {
    if n == 0 then a[0] else Weighted(a, z, n - 1) + z[n - 1] * a[n]
  }

  /** The points with the given logarithms. */
  function Points<P(!new)>(c: Setup<P>, logs: seq<nat>): (points: seq<P>)
    ensures |points| == |logs|
  {
    seq(|logs|, i requires 0 <= i < |logs| => Times(c.g, logs[i], c.base))
  }

  lemma {:induction false} CombinedLogs<P(!new)>(c: Setup<P>, logs: seq<nat>, z: seq<nat>, n: nat)
    requires Abelian(c.g) && n <= |z| && n < |logs|
    ensures Combined(c.g, Points(c, logs), z, n) == Times(c.g, Weighted(logs, z, n), c.base)
  {
    hide Abelian, Times;
    if n > 0 {
      CombinedLogs(c, logs, z, n - 1);
      TimesTimes(c.g, z[n - 1], logs[n], c.base);
      TimesAdd(c.g, Weighted(logs, z, n - 1), z[n - 1] * logs[n], c.base);
    }
  }

  /** Over generators with logarithms a and keys with logarithms b, exactly the responses that
      solve one equation in the hashed coefficients are accepted. */
  lemma MultipleExactly<P(!new)>(
    c: Setup<P>, hz: (nat, seq<P>) -> nat, a: seq<nat>, b: seq<nat>, z: seq<nat>, nonce: nat, challenge: nat,
    response: nat)
    requires c.r > 0 && Sound(c) && Prime(c.r) && c.base != c.g.zero && |a| == |b| == |z| + 1
    requires forall i :: 0 <= i < |z| ==> z[i] == hz(i + 1, Points(c, b)) % c.r
    ensures MultipleAccepts(c, hz, Points(c, a), Points(c, b),
                            Transcript(Times(c.g, nonce, c.base), challenge, response))
            == Some(Cong(response * Weighted(a, z, |z|), nonce + Weighted(b, z, |z|) * challenge, c.r))
  {
    hide Abelian, Exponent, Times, Cong, Prime, Points, Weighted, Checks, Combined;
    var n := |z|;
    assert z == Coefficients(hz, c.r, Points(c, b), n);
    CombinedLogs(c, a, z, n);
    CombinedLogs(c, b, z, n);
    ChecksLogs(c, Weighted(a, z, n), Weighted(b, z, n), nonce, challenge, response);
  }

  /** The check over multiples of the base point. */
  lemma ChecksLogs<P(!new)>(c: Setup<P>, a: nat, b: nat, nonce: nat, challenge: nat, response: nat)
    requires c.r > 0 && Sound(c) && Prime(c.r) && c.base != c.g.zero
    ensures Checks(c, Times(c.g, a, c.base), Times(c.g, b, c.base),
                   Transcript(Times(c.g, nonce, c.base), challenge, response))
            <==> Cong(response * a, nonce + b * challenge, c.r)
  {
    hide Abelian, Exponent, Times, Cong, Prime;
    MulMono(0, response, a);
    TimesTimes(c.g, response, a, c.base);
    RightHandSide(c, c.base, b, nonce, challenge);
    ScaleTimes(c, response * a, c.base);
    ScaleInjective(c, response * a, nonce + b * challenge, c.base);
  }

  // ---------------------------------------------------------------- Schnorr signatures

  datatype Signature = Signature(payload: nat, signature: nat)

  /** The payload: the hash of commitment and message modulo r. */
  function Sign<P(!new), M>(c: Setup<P>, h: (P, M) -> nat, message: M, x: nat, nonce: nat): Signature
    requires c.r > 0
  {
    var payload := h(Times(c.g, nonce, c.base), message) % c.r;
    Signature(payload, (nonce - x * payload) % c.r)
  }

  /** The payload is the hash at the nonce's multiple of the base point; the signature masks
      key times payload with the nonce. */
  lemma SignedFrom<P(!new), M>(c: Setup<P>, h: (P, M) -> nat, message: M, x: nat, nonce: nat)
    requires c.r > 0
    ensures var s := Sign(c, h, message, x, nonce);
            && s.payload == h(Times(c.g, nonce, c.base), message) % c.r
            && Cong(s.signature + x * s.payload, nonce, c.r) && s.signature < c.r
  {
    hide Times, Cong;
    var s := Sign(c, h, message, x, nonce);
    MulMono(0, x, s.payload);
    CongIntro(s.signature, s.signature, c.r, 0);
    SignatureShift(nonce, s.signature, x * s.payload, c.r);
  }

  predicate VerifySignature<P(!new), M>(c: Setup<P>, h: (P, M) -> nat, key: P, message: M, s: Signature)
    requires c.r > 0
  {
    var commitment := c.g.add(Times(c.g, s.signature, c.base), Times(c.g, s.payload, key));
    h(commitment, message) % c.r == s.payload
  }

  /** The recomputed commitment is the multiple by signature + x * payload. */
  lemma Recomputed<P(!new)>(c: Setup<P>, x: nat, s: Signature)
    requires c.r > 0 && Sound(c)
    ensures c.g.add(Times(c.g, s.signature, c.base), Times(c.g, s.payload, Times(c.g, x, c.base)))
            == Scale(c, s.signature + x * s.payload, c.base)
  {
    RightHandSide(c, c.base, x, s.signature, s.payload);
  }

  lemma SignatureComplete<P(!new), M>(c: Setup<P>, h: (P, M) -> nat, message: M, x: nat, nonce: nat)
    requires c.r > 0 && Sound(c)
    ensures VerifySignature(c, h, Times(c.g, x, c.base), message, Sign(c, h, message, x, nonce))
  {
    hide Abelian, Exponent, Times, Cong, Scale;
    var s := Sign(c, h, message, x, nonce);
    Recomputed(c, x, s);
    MulMono(0, x, s.payload);
    CongMod(nonce - x * s.payload, c.r);
    SignatureShift(nonce, s.signature, x * s.payload, c.r);
    CongIntro(s.signature, s.signature, c.r, 0);
    ScaleCong(c, s.signature + x * s.payload, nonce, c.base);
    ScaleTimes(c, nonce, c.base);
  }

  /** Exactly the signatures whose payload is the hash at nonce signature + x * payload. */
  lemma AcceptsExactly<P(!new), M>(c: Setup<P>, h: (P, M) -> nat, message: M, x: nat, s: Signature)
    requires c.r > 0 && Sound(c)
    ensures VerifySignature(c, h, Times(c.g, x, c.base), message, s)
            <==> exists nonce: nat :: nonce < c.r && s.payload == Sign(c, h, message, x, nonce).payload
                                      && Cong(s.signature, Sign(c, h, message, x, nonce).signature, c.r)
  {
    hide Abelian, Exponent, Times, Cong, Scale;
    Recomputed(c, x, s);
    var k := s.signature + x * s.payload;
    if VerifySignature(c, h, Times(c.g, x, c.base), message, s) {
      var nonce := k % c.r;
      CongMod(k, c.r);
      ScaleCong(c, k, nonce, c.base);
      ScaleTimes(c, nonce, c.base);
      MulMono(0, x, s.payload);
      SignatureShift(nonce, s.signature, x * s.payload, c.r);
      assert Sign(c, h, message, x, nonce).payload == s.payload;
    }
    if nonce: nat :| nonce < c.r && s.payload == Sign(c, h, message, x, nonce).payload
                     && Cong(s.signature, Sign(c, h, message, x, nonce).signature, c.r) {
      SignatureShift(nonce, s.signature, x * s.payload, c.r);
      ScaleCong(c, k, nonce, c.base);
      ScaleTimes(c, nonce, c.base);
    }
  }

  lemma SignatureShift(nonce: nat, s: nat, xp: nat, r: nat)
    requires r > 0
    ensures Cong(s, (nonce - xp) % r, r) <==> Cong(s + xp, nonce, r)
  {
    hide Cong;
    var k := nonce - xp;
    CongMod(k, r);
    CongIntro(xp, xp, r, 0);
    if Cong(s, k % r, r) {
      CongTrans(s, k % r, k, r);
      CongAdd(s, k, xp, xp, r);
    }
    if Cong(s + xp, nonce, r) {
      CongAdd(s + xp, nonce, xp, xp, r);
      CongTrans(s, k, k % r, r);
    }
  }
}
