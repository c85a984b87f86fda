/** Messages encrypted to a public key: an ephemeral Diffie-Hellman secret keys the mode, and
    ciphertext and tag travel apart. */
module DhPackages {
  import opened BitArrays
  import opened Congruence
  import opened ElGamal
  import opened Gcm
  import opened GcmWords
  import opened Groups
  import opened Outcomes
  import opened WordBits
  import Primes
  import SigmaProofs

  datatype DHPackage<+P> = DHPackage(ciphertext: seq<int>, tag: seq<int>, iv: seq<int>, ephemeralPublicKey: P)

  datatype DhError = NoSharedSecret | Damaged

  /** deriveKey: the identity has no abscissa to derive from. */
  function DeriveKey<P(!new, ==)>(g: Group<P>, derive: P -> Cipher, shared: P): Option<Cipher> {
    if shared == g.zero then None else Some(derive(shared))
  }

  /** dhEncrypt for the ephemeral exponent e and four random words; None when it throws, which
      it does exactly when the shared point is the identity. */
  method DhEncrypt<P(!new, ==)>(
    c: Setup<P>, derive: P -> Cipher, key: P, message: seq<int>, e: nat, random: seq<int>)
    returns (r: Option<DHPackage<P>>)
    requires Valid(message) && BitLength(message) < 0x1_0000_0000_0000_0000 - 128
    requires |random| == 4 && AllFull(random)
    ensures r.Some? <==> Times(c.g, e, key) != c.g.zero
    ensures r.Some? ==>
              var d := r.value;
              && d.ephemeralPublicKey == Times(c.g, e, c.base)
              && Valid(d.ciphertext) && Valid(d.tag) && Valid(d.iv)
              && Contents(d.iv) == (Bits(random[0]) + Bits(random[1]) + Bits(random[2]))
              && |Contents(d.ciphertext)| == |Contents(message)| && |Contents(d.tag)| == 128
              && Contents(d.ciphertext) + Contents(d.tag)
                 == Seal(derive(Times(c.g, e, key)), Contents(d.iv), [], 128, Contents(message))
  {
    hide Valid, All, Seal, GetPartial, Times;
    var cipher := DeriveKey(c.g, derive, Times(c.g, e, key));
    if cipher.None? { return None; }
    FullContents(random);
    DataBits(random);
    var iv := Clamp(random, 12 * 8);
    ThreeWords(random);
    DataBits(iv);
    DataBits(message);
    NoBits();
    var z := GcmWords.Encrypt(cipher.value, message, iv, [], 128);
    SealLength(cipher.value, Contents(iv), [], Contents(message));
    DataBits(z);
    var cts := BitLength(z);
    var ciphertext := Clamp(z, cts - 128);
    var tag := BitSliceFrom(z, cts - 128);
    CutJoins(Contents(z), cts - 128);
    return Some(DHPackage(ciphertext, tag, iv, Times(c.g, e, c.base)));
  }

  lemma ThreeWords(random: seq<int>)
    requires |random| == 4
    ensures All(random)[..96] == Bits(random[0]) + Bits(random[1]) + Bits(random[2])
  {
    hide Bits, All;
    FourAll(random);
  }

  /** Two packages have one IV, made as DhEncrypt states, exactly when their first three random
      words agree; the fourth does not enter. */
  lemma IvsApart(a: seq<int>, b: seq<int>)
    requires |a| == |b| == 4
    ensures Bits(a[0]) + Bits(a[1]) + Bits(a[2]) == Bits(b[0]) + Bits(b[1]) + Bits(b[2])
            <==> forall i :: 0 <= i < 3 ==> Bits(a[i]) == Bits(b[i])
  {
    hide Bits;
    var s, t := Bits(a[0]) + Bits(a[1]) + Bits(a[2]), Bits(b[0]) + Bits(b[1]) + Bits(b[2]);
    if s == t {
      assert Bits(a[0]) == s[..32] == t[..32] == Bits(b[0]);
      assert Bits(a[1]) == s[32..64] == t[32..64] == Bits(b[1]);
      assert Bits(a[2]) == s[64..] == t[64..] == Bits(b[2]);
    }
  }

  lemma SealLength(c: Cipher, iv: seq<bool>, adata: seq<bool>, x: seq<bool>)
    ensures |Seal(c, iv, adata, 128, x)| == |x| + 128
  {
    hide Gctr, TagOf;
  }

  lemma CutJoins(z: seq<bool>, n: nat)
    requires n <= |z|
    ensures z[..n] + z[n..] == z
  {
  }

  /** dhDecrypt with the private key k. */
  method DhDecrypt<P(!new, ==)>(c: Setup<P>, derive: P -> Cipher, k: nat, d: DHPackage<P>)
    returns (r: Result<seq<int>, DhError>)
    requires Valid(d.ciphertext) && Valid(d.tag) && Valid(d.iv)
    requires |Contents(d.ciphertext)| + |Contents(d.tag)| < 0x1_0000_0000_0000_0000
    requires |Contents(d.iv)| < 0x1_0000_0000_0000_0000
    ensures r == Err(NoSharedSecret) <==> Times(c.g, k, d.ephemeralPublicKey) == c.g.zero
    ensures r.Ok? ==> Valid(r.value)
    ensures Times(c.g, k, d.ephemeralPublicKey) != c.g.zero ==>
              var plain := Open(derive(Times(c.g, k, d.ephemeralPublicKey)), Contents(d.iv), [], 128,
                                Contents(d.ciphertext) + Contents(d.tag));
              if r.Ok? then plain == Some(Contents(r.value)) else plain == None
  {
    hide Valid, All, Open, GetPartial, Times;
    var cipher := DeriveKey(c.g, derive, Times(c.g, k, d.ephemeralPublicKey));
    if cipher.None? { return Err(NoSharedSecret); }
    var z := Concat(d.ciphertext, d.tag);
    DataBits(z);
    DataBits(d.iv);
    NoBits();
    var plaintext := GcmWords.Decrypt(cipher.value, z, d.iv, [], 128);
    if plaintext.Err? { return Err(Damaged); }
    return Ok(plaintext.value);
  }

  /** k (e G) = e (k G): both sides derive one key. */
  lemma SharedSecret<P(!new)>(c: Setup<P>, k: nat, e: nat)
    requires Abelian(c.g)
    ensures Times(c.g, k, Times(c.g, e, c.base)) == Times(c.g, e, Times(c.g, k, c.base))
  {
    TimesTimes(c.g, k, e, c.base);
    TimesTimes(c.g, e, k, c.base);
    assert k * e == e * k;
  }

  /** Both sides have a secret or neither has: in a group of prime order exactly when neither
      exponent is a multiple of the order. */
  lemma SecretExists<P(!new)>(c: Setup<P>, k: nat, e: nat)
    requires c.r > 0 && Sound(c) && Primes.Prime(c.r) && c.base != c.g.zero
    ensures Times(c.g, e, Times(c.g, k, c.base)) != c.g.zero <==> k % c.r != 0 && e % c.r != 0
  {
    hide Times, Abelian, Exponent, Primes.Prime;
    TimesTimes(c.g, e, k, c.base);
    SigmaProofs.ScaleTimes(c, e * k, c.base);
    SigmaProofs.ScaleNone(c, c.base);
    SigmaProofs.ScaleInjective(c, e * k, 0, c.base);
    if (e * k) % c.r == 0 && e % c.r != 0 { Primes.EuclidsLemma(e, k, c.r); }
    if e % c.r == 0 { FactorZero(e, k, c.r); }
    if k % c.r == 0 { FactorZero(k, e, c.r); }
    assert e * k == k * e;
  }

  lemma FactorZero(a: int, b: int, n: nat)
    requires n > 0 && a % n == 0
    ensures (a * b) % n == 0
  {
    CongIntro(0, 0, n, 0);
    CongIntro(b, b, n, 0);
    CongMul(a, 0, b, b, n);
  }

  /** What is sealed to k G with the ephemeral exponent e opens with k. */
  lemma PackageOpens<P(!new)>(c: Setup<P>, derive: P -> Cipher, k: nat, e: nat, iv: seq<bool>, x: seq<bool>)
    requires Abelian(c.g)
    ensures Times(c.g, k, Times(c.g, e, c.base)) == Times(c.g, e, Times(c.g, k, c.base))
    ensures var z := Seal(derive(Times(c.g, e, Times(c.g, k, c.base))), iv, [], 128, x);
            Open(derive(Times(c.g, k, Times(c.g, e, c.base))), iv, [], 128, z) == Some(x)
  {
    hide Open, Seal, Times, Abelian;
    SharedSecret(c, k, e);
    OpenSeal(derive(Times(c.g, e, Times(c.g, k, c.base))), iv, [], 128, x);
  }

  /** The private key's holder recovers every message that can be encrypted to k G; encryption
      throws exactly when k e G is the identity. */
  method DecryptEncrypted<P(!new, ==)>(
    c: Setup<P>, derive: P -> Cipher, k: nat, message: seq<int>, e: nat, random: seq<int>)
    returns (r: Option<Result<seq<int>, DhError>>)
    requires Abelian(c.g)
    requires Valid(message) && BitLength(message) < 0x1_0000_0000_0000_0000 - 128
    requires |random| == 4 && AllFull(random)
    ensures r.Some? <==> Times(c.g, e, Times(c.g, k, c.base)) != c.g.zero
    ensures r.Some? ==> r.value.Ok? && Valid(r.value.value) && Contents(r.value.value) == Contents(message)
  {
    hide Valid, All, Open, Seal, GetPartial, Times, Abelian;
    var d := DhEncrypt(c, derive, Times(c.g, k, c.base), message, e, random);
    if d.None? { return None; }
    DataBits(message);
    PackageOpens(c, derive, k, e, Contents(d.value.iv), Contents(message));
    var plain := DhDecrypt(c, derive, k, d.value);
    return Some(plain);
  }
}
