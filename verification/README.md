# Verified model of the ballot client's arithmetic, cryptography and protocol

A Dafny model of the parts of this repository that decide whether a cast vote is the intended
vote, with proofs of what they compute. It has two cores that meet in one theorem.

**The arithmetic and bit-level engine** (`lib/av_client/sjcl.js`). Big numbers are vectors of
24-bit limbs in JavaScript doubles, with delayed carries and limbs that may be negative. The class
`Bignum.Bn` updates them in place as the source does, and every intermediate value is shown to
be an exact double or a 32-bit integer where an operator needs one. On top of it stand Montgomery
exponentiation, the Jacobian point formulas, windowed scalar multiplication and compressed points;
beside it packed bit arrays with an out-of-band length, base64, counter mode with authentication,
and streaming SHA-256.

**The ballot pipeline and protocol** (`aion_crypto.js`, `encoding/`, `crypto/`, `av_client.ts`). A
selection becomes bytes, curve points and ElGamal cryptograms; the board's empty cryptograms are
added; the verifier decrypts with the combined randomness. `Ballot.CastAsIntended` composes all
layers. `AvClient` is the client against an arbitrary board as a step function, a class whose
methods refine it, and theorems over all runs.

Files follow the source: `JsNumber`, `Limbs`, `LimbProduct`, `Bn`, `Divisors`, `Redc`, `Montgomery`,
`PowerMod`, `ExactPower` (big numbers); `Jacobian`, `CurveSums`, `Groups`, `Primes`, `PointCompression` (points);
`WordBits`, `BitArrays`, `Base64`, `BnBits`, `Sha256`, `Gcm`, `GcmWords`, `DhPackages` (bits);
`ByteStrings`, `Utf8`, `ByteCoding`, `ByteBuffers`, `PointEmbedding` (bytes); `ElGamal`, `ScalarElGamal`,
`Pedersen`, `Ballot`, `SigmaProofs`, `BoardItems`, `AvClient` (protocol); `Congruence`, `Outcomes` (shared facts).

## What the code does differently from what it promises

- `mod` returns the representative in [0, m) exactly when the 32-bit sign it reads off the limbs from
  the top is the sign of the value. Differences of normalised numbers satisfy this. The vector
  [2^24 + 5, −1], which (2^24 − 1) + 6 − 2^24 leaves without a normalisation in between, does not; nor
  does the single limb 2^31 + 1 (`Bignum.ModFails`, `Bignum.WideLimbFails`).
- `montpowermod` returns the base unchanged on exponent 0, and `false` exactly when the top limb of
  N is 1, because the search for the cap stops before bit 0. The congruence always holds; the result
  is guaranteed below N when the base is, and is never below N when the base is 64·N^4 or more, as for
  N = 3 and the base 5184.
- `powermod` compares a big number with `false`, which prints it; a zero result of a modulus of more
  than one limb has an empty limb vector there and throws: for a prime modulus, exactly on the base 0.
  Decoding a compressed point with ordinate 0 throws for that reason.
- Point addition loses the second summand when z is 0 but the identity flag is not set. Doublings
  and additions of curve points never meet this on a curve without a point of ordinate 0; on any other
  curve, doubling that point and adding it again does (`CurveSums.ProperExactly`). `doubl` never takes
  its a = −3 branch, since it compares two printed forms that differ; the other branch gives the same
  result.
- `readInteger` sums in a double. A code of seven bytes or more may be rounded: 2^53 + 1 is read as
  2^53. The text decoder drops a leading byte-order mark and replaces ill-formed UTF-8. Re-encoding a
  decoded buffer reproduces it exactly when neither happens.
- `dhEncrypt` and `dhDecrypt` throw when the shared point is the identity, which has no abscissa to
  derive a key from: in a group of prime order, when an exponent is a multiple of the order.
- `update` of the hash changes buffer and length before it checks the length.
- `spoilBallot` stores the spoil request before validating it. Unless the board repeats a request it
  had accepted, the stored one has been validated exactly when the last call that stored one did not
  throw. The call opens the last accepted board commitment which, as long as none is repeated, is the
  stored ballot's parent exactly when that commitment was followed by its ballot; and the kept
  commitment opening, unless repeated, is the stored ballot's exactly when the last construction led to
  an accepted ballot. A failed second `constructBallot` breaks both.
- The content of a returned cast or spoil request is compared only on the attributes the client
  sent: none for a spoil request, and none for a cast request without an affidavit.

## How to read the theorems

Preconditions name what the source relies on: `Usable` (an abelian group of exponent r, and a point
decoder that keeps the abscissa of a 32-byte prime field), `DistinctOptions` (distinct codes
that are JavaScript numbers, distinct non-empty references), `Compressible` (a prime p ≡ 3 mod 4 of
at most 32 bytes), `Field` (a prime above 2). Hashes, key derivation, the block function, the field
product of the tag, and the uniform serialisation are arbitrary functions. Curve points enter the
protocols as elements of an arbitrary abelian group. Random numbers, board answers and clocks are
parameters. Where a theorem names a function of the model, a lemma beside it says what that function
is in other terms: `BoardItems.PayloadExactly`, `Gcm.SealSpelledOut`, `Sha256.PadExactly` and
`DigestChain`, `Base64.EncodeSpelledOut`, `ByteCoding.EncodingLayout`, `Utf8.WellFormedExactly`.

## Model

| member | source | states |
|---|---|---|
| Bignum.Bn.AddM | lib/av_client/sjcl.js:2456-2467 | addition limb by limb, growing to the longer operand, is exact without normalising, also when a number is added to itself |
| Bignum.Bn.SubM | lib/av_client/sjcl.js:2499-2509 | subtraction in place is exact; limbs may become negative and un-normalised |
| Bignum.Bn.DoubleM | lib/av_client/sjcl.js:2470-2482 | doubling with the carry passed upward keeps 24-bit limbs and doubles the value |
| Bignum.Bn.HalveM | lib/av_client/sjcl.js:2485-2496 | halving rounds the value down, also for negative and un-normalised limbs, and drops a zero top limb |
| Limbs.HalveValue | lib/av_client/sjcl.js:2485-2496 | passing each limb's low bit down as 2^24 halves the whole value |
| Bignum.Bn.GreaterEquals | lib/av_client/sjcl.js:2427-2438 | the two running flags compute the verdict of the topmost limb difference whose 32-bit sign shows one, for limbs of any magnitude below 2^52; below 2^30 that is the sign of the topmost non-zero difference |
| Limbs.TopSignFits | lib/av_client/sjcl.js:2427-2438 | for differences below 2^31 in magnitude the 32-bit verdict is the sign of the topmost non-zero difference |
| Limbs.TopSignIsSign | lib/av_client/sjcl.js:2427-2438 | for limb differences of at most 24 bits that sign is the sign of the value, so the comparison is true comparison |
| Limbs.CompareNormal | lib/av_client/sjcl.js:2427-2438 | the comparison is exact between a normal number and a number with 24-bit limbs |
| Bignum.Bn.Normalize | lib/av_client/sjcl.js:2842-2854 | delayed and negative carries are propagated without changing the value; only the top limb can stay negative |
| Limbs.NormalFormCorrect | lib/av_client/sjcl.js:2842-2854 | the normal form keeps the value and shows its sign in the top limb |
| Bignum.Bn.CNormalize | lib/av_client/sjcl.js:2857-2866 | carries stop in the top limb, every lower limb has 24 bits, the value is kept and the length too |
| Bignum.Bn.Mul | lib/av_client/sjcl.js:2591-2611 | the product is exact for any limb counts, operands keep their values, and the result's limbs have 24 bits when it is not negative |
| LimbProduct.AddRowBound | lib/av_client/sjcl.js:2599-2608 | a row adds at most 2^48 to a column, so eight rows between carries stay below 2^53 |
| LimbProduct.ColumnsCarry | lib/av_client/sjcl.js:2599-2610 | after at most eight rows every column is an exact double, and carrying restores the column invariant |
| Bignum.Bn.Mod | lib/av_client/sjcl.js:2511-2532 | terminates for limbs of any magnitude below 2^52; returns the representative of the value in [0, m) if and only if the 32-bit sign read off the limbs from the top is the sign of the value |
| Bignum.ModFails | lib/av_client/sjcl.js:2511-2532 | a vector two additions and subtractions produce, of value 5, whose sign is read as negative |
| Bignum.WideLimbFails | lib/av_client/sjcl.js:2427-2438 | the single limb 2^31 + 1 is read as negative too |
| Bignum.DifferenceReduces | lib/av_client/sjcl.js:2511-2532 | the sign is read right on every difference of two numbers with 24-bit limbs |
| Bignum.Bn.ModDigits | lib/av_client/sjcl.js:2511-2532 | on normalised operands the result is always the unique residue |
| Bignum.Bn.MulMod | lib/av_client/sjcl.js:2636-2638 | the reduced product is below the modulus and congruent to the product |
| Bignum.Bn.Equals | lib/av_client/sjcl.js:2402-2412 | limb-wise equality after full reduction is equality of values |
| Bignum.Bn.BitLength | lib/av_client/sjcl.js:2882-2891 | the smallest multiple of 8 bits that holds the value |
| Bignum.Bn.InverseMod | lib/av_client/sjcl.js:2535-2578 | terminates for every input; returns b in [0, p) with b times the input congruent to 1 exactly when p is odd and coprime to the input, and throws otherwise |
| Divisors.EuclidSubtract | lib/av_client/sjcl.js:2544-2559 | the subtraction turn keeps a·input ≡ x and b·input ≡ y (mod p), y odd, and the set of common divisors |
| Divisors.EuclidHalve | lib/av_client/sjcl.js:2561-2567 | so does the halving turn, whatever the parity of the coefficient |
| Divisors.EuclidEnd | lib/av_client/sjcl.js:2569-2577 | when x reaches 0, y is 1 exactly if input and modulus were coprime, and then b is the inverse |
| ExactPower.Power | lib/av_client/sjcl.js:2619-2633 | square-and-multiply from the low bit is exact exponentiation, with the early exit in the last limb |
| PowerMod.SlowPowerMod | lib/av_client/sjcl.js:2651-2663 | square-and-multiply with reduction is congruent to the power and below N; exponent 0 gives 1 unreduced |
| PowerMod.PowerMod | lib/av_client/sjcl.js:2641-2664 | the combined routine: when it throws, when it returns the base for exponent 0, when a large base gives a result of N or more, and otherwise the residue of the power |
| PowerMod.PowerOfPrime | lib/av_client/sjcl.js:2641-2664 | modulo a prime the throwing condition is base = 0: no other base below it has a power congruent to 0 |
| PowerMod.PrimeTaken | lib/av_client/sjcl.js:2641-2650 | every prime modulus but 2 with a top limb other than 1 takes the Montgomery path |
| Montgomery.CapOf | lib/av_client/sjcl.js:2676-2688 | the search for the cap R finds a power of two with N < 2R unless N's top limb is 1 |
| Montgomery.FindBezout | lib/av_client/sjcl.js:2705-2724 | each turn halves 2R·u − N·v, so the loop ends with R R' − N N' = 1 |
| Montgomery.ReduceProduct | lib/av_client/sjcl.js:2742-2767 | masking, adding and shifting divide by the radix modulo N; one final subtraction brings the result below N |
| Montgomery.MontMul | lib/av_client/sjcl.js:2736-2768 | the Montgomery product: r·2R ≡ a·b (mod N), below N whenever a·b < N·2R, and never more than N below the exact quotient; the factors keep their values |
| Montgomery.Precompute | lib/av_client/sjcl.js:2775-2782 | the table holds every odd power below 2^wind in Montgomery form although the entries are normalised in place while it is built |
| Montgomery.WindowEnd | lib/av_client/sjcl.js:2801-2805 | the scan from i − wind + 1 stops at the first set bit, reading bits below the number as zero |
| Montgomery.WindowStep | lib/av_client/sjcl.js:2796-2816 | a window squares once per bit and multiplies by the table entry of its value, an odd index within the table |
| Montgomery.SlidingWindow | lib/av_client/sjcl.js:2790-2817 | the sliding-window loop computes the same power as plain exponentiation |
| Montgomery.MontPowerMod | lib/av_client/sjcl.js:2667-2820 | for odd N and exponent > 0: `false` exactly when N's top limb is 1, otherwise a value congruent to base^exponent, guaranteed below N when the base is and never below N when the base is 64·N^4 or more; exponent 0 returns the base itself |
| Montgomery.StaysLarge | lib/av_client/sjcl.js:2736-2768 | one product of two large factors is large again, so neither the window table nor the accumulator of a large base falls below N |
| Jacobian.Chord | lib/av_client/sjcl.js:3224-3236 | for different abscissas the formulas denote the chord sum of section 2.2.1 of SEC 1 |
| Jacobian.Tangent | lib/av_client/sjcl.js:3246-3257 | doubling denotes the tangent sum for every ordinate other than 0 |
| Jacobian.DoublCorrect | lib/av_client/sjcl.js:3243-3258 | doubling is the affine sum of a point with itself for all field values, flagged identity, z = 0 and y = 0 included |
| Jacobian.AddCorrect | lib/av_client/sjcl.js:3198-3241 | mixed addition is the affine sum in every branch, except exactly when z = 0 without the identity flag meets a point other than the identity |
| Jacobian.AffineSumUnique | lib/av_client/sjcl.js:3198-3241 | the affine sum is a function of its summands, so the equivalence pins the result down |
| Jacobian.DoublFormsAgree | lib/av_client/sjcl.js:3251-3253 | the two expressions for the slope's numerator agree when a = −3 |
| Jacobian.ToAffineDenotes | lib/av_client/sjcl.js:3264-3270 | division by powers of z gives the point the triple denotes |
| CurveSums.SumOnCurve | lib/av_client/sjcl.js:3198-3258 | the chord or tangent sum of two points of the curve is on the curve |
| CurveSums.SumCollinear | lib/av_client/sjcl.js:3198-3241 | the summands and the sum reflected in the axis lie on one line |
| CurveSums.DoublKeeps | lib/av_client/sjcl.js:3243-3258 | on a curve without a point of order two, doubling keeps the triple the flagged identity or a curve point with invertible z |
| CurveSums.AddKeeps | lib/av_client/sjcl.js:3198-3241 | so does adding a curve point, and then the addition is the affine sum in every case |
| CurveSums.RunSums | lib/av_client/sjcl.js:3278-3329 | through every sequence of doublings and additions of curve points from the identity, each step is the affine sum: the scalar loops never meet the exception of addition |
| CurveSums.TableOnCurve | lib/av_client/sjcl.js:3142-3153 | every entry of the table of multiples is a curve point, so those loops add only curve points |
| CurveSums.ProperExactly | lib/av_client/sjcl.js:3198-3258 | all such sequences avoid the exception if and only if the curve has no point with ordinate 0 |
| CurveSums.OrderTwoLoses | lib/av_client/sjcl.js:3198-3258 | on other curves, doubling such a point and adding it loses the added point |
| Groups.Multiples | lib/av_client/sjcl.js:3142-3153 | the table of the sixteen multiples |
| Groups.Mult | lib/av_client/sjcl.js:3278-3295 | 4-bit windowed multiplication gives value(k)·P in any abelian group for every digit vector |
| Groups.Mult2 | lib/av_client/sjcl.js:3304-3329 | the two-scalar form gives value(k1)·P + value(k2)·Q, also for different limb counts |
| Primes.Fermat | lib/av_client/aion_crypto.js:664-680 | Fermat's little theorem, on which the square root by exponentiation rests |
| PointCompression.SquareRoot | lib/av_client/aion_crypto.js:668-672 | for p ≡ 3 (mod 4) the (p + 1)/4-th power of a square is one of its roots |
| PointCompression.RecoverYfromX | lib/av_client/aion_crypto.js:664-680 | the computation over limb vectors returns the chosen ordinate, and throws exactly when the model does |
| PointCompression.DecodeExact | lib/av_client/aion_crypto.js:602-636 | a type-2 or type-3 string decodes to a point exactly when the point is on the curve, has that abscissa modulo p and the tagged parity, and its ordinate is not a zero that throws |
| PointCompression.DecodeOther | lib/av_client/aion_crypto.js:602-636 | strings of the other types: nothing and type 0 are the identity, type 4 carries both coordinates, any other type stands for the origin and throws unless that is on the curve |
| PointCompression.RoundTrip | lib/av_client/aion_crypto.js:580-635 | decoding a compressed point gives it back, the identity included, exactly when it is not a y = 0 point over a modulus for which the zero power throws |
| ElGamal.ElGamalPointCryptogram.HomomorphicallyAddCryptogram | lib/av_client/aion_crypto.js:443-446 | both points are replaced by the sums |
| ElGamal.SumReencrypts | lib/av_client/aion_crypto.js:443-446 | adding an empty cryptogram turns an encryption with v into the encryption with v + b |
| ElGamal.DecryptsWithKey | lib/av_client/aion_crypto.js:437-489 | the private key decrypts every encryption |
| ElGamal.DecryptsWithRandomness | lib/av_client/decrypt_contest_selections.ts:45-53 | with key and randomness point exchanged, the sum of the randomness modulo r decrypts the combined cryptogram |
| Pedersen.ComputeGenerator | lib/av_client/crypto/pedersen_commitment.ts:18-38 | the search returns the first point at or after the hashed abscissa, cyclically, and ends whenever some abscissa is on the curve |
| Pedersen.OrderIrrelevant | lib/av_client/crypto/pedersen_commitment.ts:44-57 | the commitment is the same for every order of the entries |
| Pedersen.OpeningValidates | lib/av_client/crypto/pedersen_commitment.ts:40-57 | an opening validates against its own commitment whatever the key orders of the two contest maps |
| Pedersen.MessageShifts | lib/av_client/crypto/pedersen_commitment.ts:40-57 | replacing message k of an entry moves the commitment by the difference times the generator of that contest and index |
| Pedersen.RandomizerShifts | lib/av_client/crypto/pedersen_commitment.ts:40-57 | replacing the randomizer moves it by the difference times the base point |
| Pedersen.ZeroCommitment | lib/av_client/crypto/pedersen_commitment.ts:40-57 | a commitment to zeros is the randomizer's multiple of the base point |
| Pedersen.MessageBinds | lib/av_client/crypto/pedersen_commitment.ts:40-57 | for a prime order, an opening that differs in one message validates if and only if the two messages are congruent, in every order of the contests |
| Pedersen.RandomizerBinds | lib/av_client/crypto/pedersen_commitment.ts:40-57 | likewise an opening with another randomizer |
| ByteCoding.FlattenLists | lib/av_client/flatten_options.ts:3-14 | flattening lists exactly the options of the tree |
| ByteCoding.TablesOfDistinct | lib/av_client/encoding/byte_encoding.ts:73-84 | for distinct codes and non-empty distinct references the code and reference tables invert each other and cover all options |
| ByteCoding.TableEntries | lib/av_client/encoding/byte_encoding.ts:73-84 | every option is found under its own reference, with its own code and write-in |
| ByteCoding.EncodesExactly | lib/av_client/encoding/byte_encoding.ts:42-70 | a selection is encoded if and only if it is of the contest, its options are known with a code between 1 and what the code's bytes hold, its write-ins are UTF-8 and fit, and all fields fit maxSize together |
| ByteCoding.EncodingLayout | lib/av_client/encoding/byte_encoding.ts:42-70 | the bytes are the fields in order (code, most significant byte first, then the text filled up with zeros) and zeros up to maxSize |
| ByteCoding.DecodeEncode | lib/av_client/encoding/byte_encoding.ts:7-70 | decoding an encoded selection gives its canonical form |
| ByteCoding.CanonicalExactly | lib/av_client/encoding/byte_encoding.ts:21-36 | the canonical form is the selection itself exactly when write-ins carry text without a leading byte-order mark and without a trailing NUL, and other options carry none |
| ByteCoding.EncodeDecode | lib/av_client/encoding/byte_encoding.ts:7-70 | re-encoding what a buffer of maxSize bytes decodes to reproduces it byte for byte if and only if no code in it is rounded to a double and its write-in fields are well-formed UTF-8 without a leading mark |
| ByteCoding.EncodeDecodeSmall | lib/av_client/encoding/byte_encoding.ts:7-70 | with codes of at most six bytes, or below 2^53, only the write-in fields matter |
| ByteCoding.SmallCodesExact | lib/av_client/encoding/byte_array_reader.ts:52-55 | such codes are never rounded, whatever the buffer |
| ByteCoding.RoundedCode | lib/av_client/encoding/byte_encoding.ts:7-70 | seven bytes spelling 2^53 + 1 decode to the option with code 2^53 and are written back as 2^53 |
| ByteStrings.ReadsDouble | lib/av_client/encoding/byte_array_reader.ts:52-55 | every code that is a double comes back from its own bytes, since each prefix of them is a double as well |
| JsNumber.NearestDouble | lib/av_client/encoding/byte_array_reader.ts:52-55 | no number of 53 binary digits times a power of two is nearer than the rounded one, and of two as near the one with the even last digit is taken |
| JsNumber.RoundsToDouble | lib/av_client/encoding/byte_array_reader.ts:52-55 | a rounded number has that form |
| Utf8.WellFormedExactly | lib/av_client/encoding/byte_array_reader.ts:65-69 | the well-formed strings are exactly the encodings of sequences of Unicode scalar values |
| Utf8.ReplacedKeeps | lib/av_client/encoding/byte_array_reader.ts:65-69 | replacing ill-formed sequences changes exactly the strings that are not well-formed UTF-8 |
| Utf8.FieldKeeps | lib/av_client/encoding/byte_array_reader.ts:65-69 | a field comes back from decoding, trimming and padding if and only if it is well-formed UTF-8 without a leading byte-order mark |
| ByteBuffers.ByteArrayWriter.Write | lib/av_client/encoding/byte_array_writer.ts:21-27 | bytes are appended at the pointer, or nothing is written when they do not fit |
| ByteBuffers.ByteArrayWriter.WriteInteger | lib/av_client/encoding/byte_array_writer.ts:36-48 | big-endian digits of the requested length, with every error in the order the source checks them |
| ByteBuffers.ByteArrayReader.ReadInteger | lib/av_client/encoding/byte_array_reader.ts:52-55 | the big-endian sum of the next bytes, rounded to a double at each byte; the pointer moves only on success |
| ByteBuffers.ByteArrayReader.ReadString | lib/av_client/encoding/byte_array_reader.ts:65-69 | the next bytes decoded as UTF-8 (mark dropped, ill-formed sequences replaced), without trailing NULs |
| ByteBuffers.ContestSelectionToByteArray | lib/av_client/encoding/byte_encoding.ts:42-70 | the writer loop produces the encoding or the first error |
| ByteBuffers.ByteArrayToContestSelection | lib/av_client/encoding/byte_encoding.ts:7-39 | the reader loop terminates on every input and produces the decoding or the first error |
| PointEmbedding.SearchFinds | lib/av_client/encoding/point_encoding.ts:64-83 | the search visits at most 256 candidates, all congruent to the block modulo 256^31, and returns the first on the curve |
| PointEmbedding.BytesToPoint | lib/av_client/encoding/point_encoding.ts:64-83 | the loop over x is that search, and it throws when the candidates reach the prime |
| PointEmbedding.BytesToPoints | lib/av_client/encoding/point_encoding.ts:13-28 | the loop over blocks embeds the right-padded string or stops at the first exhausted block |
| PointEmbedding.StringRoundTrip | lib/av_client/encoding/point_encoding.ts:13-108 | every byte string that embeds comes back, from exactly ceil(n/31) points |
| PointEmbedding.PointOfBytes | lib/av_client/encoding/point_encoding.ts:13-83 | point i has the first abscissa on the curve among v, v + 256^31, v + 2·256^31, …, for v the value of bytes 31i to 31i + 30, zeros past the end |
| PointEmbedding.EmbedsExactly | lib/av_client/encoding/point_encoding.ts:64-83 | embedding succeeds if and only if every block has a candidate on the curve |
| PointEmbedding.DecoderIsFaithful | lib/av_client/aion_crypto.js:602-636 | the compressed-point decoder keeps the abscissa, which is what the embedding needs of it |
| Ballot.EncryptContestSelection | lib/av_client/encrypt_contest_selections.ts:18-44 | one cryptogram per point of the selection, or the encoder's error; number i drawn is kept as randomizer i, its multiple of the base point is the randomness point, and its multiple of the key plus point i the ciphertext |
| Ballot.AllEncrypted | lib/av_client/encrypt_contest_selections.ts:18-44 | the same for a whole ballot: selection n is encrypted with its own row of random numbers |
| Ballot.RandomnessApart | lib/av_client/encrypt_contest_selections.ts:18-44 | for a prime order two cryptograms of a ballot share their randomness point if and only if the numbers drawn for them are congruent |
| Ballot.AddCryptograms | lib/av_client/finalize_cryptograms.ts:11-20 | both points of each pair are summed, and an error is thrown exactly when the second list falls short |
| Ballot.FinalizesExactly | lib/av_client/finalize_cryptograms.ts:4-20 | finalisation throws if and only if the board's answer lacks a cryptogram that some contest needs |
| Ballot.FinalizedSums | lib/av_client/finalize_cryptograms.ts:4-20 | the finalised ballot holds, for every contest, its last envelope's cryptograms, each added to the board's at the same place |
| Ballot.CombinedAdds | lib/av_client/decrypt_contest_selections.ts:27-36 | a combined randomizer is reduced, and its multiple of every point is the sum of the voter's and the board's multiples |
| Ballot.DecryptedPoints | lib/av_client/decrypt_contest_selections.ts:38-53 | for arbitrary cryptograms, exactly those points come out which the randomizers' multiples of the key complete to the ciphertexts |
| Ballot.LastCounts | lib/av_client/finalize_cryptograms.ts:4-9 | of several selections of one contest the last counts, and its envelope's randomizers open it |
| Ballot.ContestComesBack | lib/av_client/decrypt_contest_selections.ts:27-53 | one contest through encoding, embedding, encryption, the board's sum, decryption with the combined randomizers and decoding |
| Ballot.CastAsIntended | lib/av_client/decrypt_contest_selections.ts:7-53 | every ballot the encoder accepts decrypts, after the board's shares are added, to the canonical form of the voter's selection in every contest and in every listing order |
| Ballot.CastExactly | lib/av_client/decrypt_contest_selections.ts:7-53 | the result is the voter's selection itself if and only if its write-ins carry text without a leading mark and trailing NULs and its other options none |
| Ballot.BothOpeningsValidate | lib/av_client/crypto/pedersen_commitment.ts:40-57 | the voter's and the board's own openings validate whatever the order of contests when committing and when checking |
| SigmaProofs.ScaleInjective | lib/av_client/aion_crypto.js:45-50 | for prime r a point other than the identity tells scalars apart exactly modulo r |
| SigmaProofs.Complete | lib/av_client/aion_crypto.js:25-97 | every discrete-logarithm proof made with the key is accepted, hash check included |
| SigmaProofs.GeneratedFrom | lib/av_client/aion_crypto.js:86-97 | the commitment is the nonce's multiple of the generator, the challenge the hash of generator, commitment and key, and the response is nonce + key·challenge modulo r |
| SigmaProofs.NoncesApart | lib/av_client/aion_crypto.js:86-97 | two proofs share a commitment if and only if their nonces are congruent modulo the prime order |
| SigmaProofs.VerifiesExactly | lib/av_client/aion_crypto.js:25-50 | the full verifier accepts exactly the responses congruent to nonce + key·challenge under the hash's own challenge |
| SigmaProofs.HashBinds | lib/av_client/aion_crypto.js:25-38 | an accepted transcript is accepted under another hash if and only if the two hashes agree modulo r at generator, commitment and key; no other value matters |
| SigmaProofs.ChecksExactly | lib/av_client/aion_crypto.js:45-50 | for a given commitment and challenge exactly the responses congruent to nonce + key·challenge are accepted |
| SigmaProofs.Extract | lib/av_client/aion_crypto.js:45-50 | two accepting transcripts with one commitment and challenges that differ modulo r determine the private key modulo r |
| SigmaProofs.EqualityComplete | lib/av_client/aion_crypto.js:125-199 | equality proofs are accepted |
| SigmaProofs.EqualityGeneratedFrom | lib/av_client/aion_crypto.js:175-199 | both commitments are the nonce's multiples, and one response masks key times challenge with the nonce |
| SigmaProofs.EqualityNoncesApart | lib/av_client/aion_crypto.js:175-199 | two equality proofs share a commitment if and only if their nonces are congruent |
| SigmaProofs.EqualityVerifiesExactly | lib/av_client/aion_crypto.js:120-149 | for any two commitments and key points, exactly the responses that fit both equations are accepted, under the hash's own challenge |
| SigmaProofs.EqualityHashBinds | lib/av_client/aion_crypto.js:120-138 | the verdict depends on the hash at the six points only, and there modulo r |
| SigmaProofs.EqualityExtract | lib/av_client/aion_crypto.js:141-149 | two accepting equality transcripts give one logarithm common to both key points |
| SigmaProofs.MultipleGenerate | lib/av_client/aion_crypto.js:310-348 | for every non-empty generator list the proof is accepted; its commitment is the nonce's multiple of the combined generators and its response nonce + key·challenge modulo r; the empty list throws |
| SigmaProofs.MultipleVerify | lib/av_client/aion_crypto.js:224-238 | the check and the recomputed challenge; two empty lists throw |
| SigmaProofs.MultipleExactly | lib/av_client/aion_crypto.js:245-278 | over generators and keys with known logarithms, exactly the responses that solve one equation in the hashed coefficients are accepted |
| SigmaProofs.MultipleChecks | lib/av_client/aion_crypto.js:245-278 | the accumulation loops reduce the check to one discrete-logarithm check on combined points; unequal lengths are rejected and empty lists throw |
| SigmaProofs.CombinedTimes | lib/av_client/aion_crypto.js:263-276 | combining the public keys gives the private key's multiple of the combined generators |
| SigmaProofs.SignatureComplete | lib/av_client/aion_crypto.js:508-561 | every Schnorr signature verifies, although the response is a difference that may be negative before reduction |
| SigmaProofs.SignedFrom | lib/av_client/aion_crypto.js:547-561 | the payload is the hash at the nonce's multiple of the base point, and signature + key·payload is the nonce modulo r |
| SigmaProofs.AcceptsExactly | lib/av_client/aion_crypto.js:508-515 | exactly the pairs that some nonce would have produced, up to reduction of the response, are accepted |
| ScalarElGamal.ElGamalScalarCryptogram.Decrypt | lib/av_client/aion_crypto.js:368-374 | over limbs: throws exactly when the order is even or the hashed secret is not coprime to it, and otherwise returns the residue that gives the ciphertext again with the secret |
| ScalarElGamal.DecryptEncrypted | lib/av_client/aion_crypto.js:368-417 | what is encrypted to x·G decrypts with x to the message modulo r whenever the hashed secret has an inverse; for an odd prime r it throws exactly when the secret is a multiple of r |
| ScalarElGamal.MessageUnique | lib/av_client/aion_crypto.js:368-417 | with an invertible secret one message residue belongs to a ciphertext |
| ScalarElGamal.CoprimeToPrime | lib/av_client/aion_crypto.js:371-371 | the number inverseMod must be given is coprime to a prime order exactly when it is not a multiple of it |
| AvClient.RunStores | lib/av_client.ts:204-366 | after every run of calls against an arbitrary board, each stored session, board commitment and ballot item has passed its checks, under a trusted board key, and hangs on a chain from a loaded configuration, calls that threw included; the trusted key is the one the client was built with and, only if there is none, a loaded configuration's |
| AvClient.FixedKeyOnly | lib/av_client.ts:530-540 | a client built with a key trusts that key and no other, whatever configurations were loaded |
| AvClient.AcceptedIsLinked | lib/av_client.ts:387-459 | every accepted cast or spoil request is the tip of an unbroken chain configuration, session, voter commitment, board commitment, ballot cryptograms, request; commitment and cryptograms belong to one construction, and every receipt and signature is by a trusted key |
| AvClient.RegistersExactly | lib/av_client.ts:240-257 | after every run a session is stored if and only if it hangs on the configuration loaded last, carries the claims, and it and its receipt are signed by the key in force: the client's own, or else the one of the configuration loaded last |
| AvClient.ConstructsExactly | lib/av_client.ts:314-366 | after every run, which fields a construction replaces, half by half, and when it returns, in terms of the items' fields and the key in force |
| AvClient.CastsExactly | lib/av_client.ts:387-424 | after every run, exactly which cast requests are accepted; no field changes |
| AvClient.SpoilsExactly | lib/av_client.ts:435-459 | after every run, which spoil requests are stored and exactly which of them accepted |
| AvClient.ChainCarries | lib/av_client/sign.ts:25-60 | with a serialisation that tells contents apart, the chain's items carry the claims, the construction's own commitment and the cryptograms finalised from it |
| AvClient.TipFixesChain | lib/av_client/sign.ts:62-78 | with a collision-free address hash, two chains ending in one address agree in every field but the signatures, down to the configuration |
| BoardItems.PayloadExactly | lib/av_client/sign.ts:17-78 | what the payload check lets through: kind, parent, the address as the hash of the five hashed fields, the attributes sent and, with a key, the signature |
| AvClient.ThrowingKeeps | lib/av_client.ts:314-366 | what a throwing call can have changed: never the session, the ballot only to the accepted one whose tracking code was unreadable, the board commitment only to a validated one |
| AvClient.MatchingExactly | lib/av_client.ts:340-366 | the commitment that spoiling opens is the spoiled ballot's parent if and only if the last accepted board commitment was followed by its ballot |
| AvClient.MismatchedSpoil | lib/av_client.ts:435-459 | a concrete run in which spoiling is accepted against a commitment that is not the ballot's parent |
| AvClient.SpoilOpens | lib/av_client.ts:435-459 | an accepted spoil request opened a validated board commitment, the ballot's own one whenever the last accepted commitment was followed by its ballot |
| AvClient.OpeningExactly | lib/av_client.ts:332-366 | when no construction repeats the stored ballot's opening, the kept commitment opening is the stored ballot's if and only if the last construction led to an accepted ballot |
| AvClient.BallotOpeningLinked | lib/av_client.ts:332-366 | what is meant by the stored ballot's opening is, after every run, the opening of the construction on its chain |
| AvClient.OpeningBelongs | lib/av_client.ts:332-366 | the kept commitment opening is that of the construction behind the stored ballot, if the last construction led to an accepted ballot |
| AvClient.MismatchedOpening | lib/av_client.ts:332-366 | a concrete run of two attempts that keeps an opening other than the stored ballot's |
| AvClient.SpoilExactly | lib/av_client.ts:435-459 | when no stored spoil request repeats an accepted one, the stored request has been accepted if and only if the last call that stored one did not throw |
| AvClient.SpoilAcceptedLinked | lib/av_client.ts:435-459 | an accepted spoil request is the tip of an unbroken chain |
| AvClient.UncheckedSpoil | lib/av_client.ts:435-459 | a concrete run in which an item of the wrong kind is refused and stays stored as the spoil request |
| AvClient.CastChecksNoContent | lib/av_client.ts:394-421 | without an affidavit a returned cast request of any content is accepted exactly when kind, parent, address and receipt are right |
| AvClient.SpoilChecksNoContent | lib/av_client.ts:435-459 | a returned spoil request of any content is accepted exactly when kind, parent, address and receipt are right and the board's opening fits the stored commitment |
| AvClient.AVClient.CreateVoterRegistration | lib/av_client.ts:240-257 | the method's new fields and outcome are those of the step function |
| AvClient.AVClient.ConstructBallot | lib/av_client.ts:314-366 | likewise, through both submissions and every point at which it can throw |
| AvClient.AVClient.CastBallot | lib/av_client.ts:387-424 | likewise; no field changes |
| AvClient.AVClient.SpoilBallot | lib/av_client.ts:435-459 | likewise; the spoil request is stored before it is checked |
| AvClient.SubmitVoterCommitment | lib/av_client/actions/submit_voter_commitment.ts:12-50 | the method makes the checks in order and answers exactly when all hold; the board commitment it returns is signed by the board's key and hangs on the session through an addressed copy that the receipt joins to it |
| AvClient.SubmitBallotCryptograms | lib/av_client/actions/submit_ballot_cryptograms.ts:8-46 | the method answers exactly when finalising succeeds and all checks hold; the ballot it returns hangs on the board commitment, carries the finalised cryptograms and has a receipt |
| WordBits.OrJoins | lib/av_client/sjcl.js:481-484 | `|` and `^` of words with complementary zero parts join their bits |
| WordBits.BitIs | lib/av_client/sjcl.js:362-374 | bit i from the front has the weight 2^(n − 1 − i) |
| BitArrays.ShiftRight | lib/av_client/sjcl.js:469-489 | the output's bits, then the first `shift` bits of the carry, then the array's bits; unused bits stay zero and the length tag is right |
| BitArrays.Concat | lib/av_client/sjcl.js:382-393 | concatenation of the bit strings, for every bit length |
| BitArrays.BitSliceFrom | lib/av_client/sjcl.js:350-353 | the bits from bstart on, for every offset within the array |
| BitArrays.BitSlice | lib/av_client/sjcl.js:350-353 | the bits from bstart up to bend |
| BitArrays.Clamp | lib/av_client/sjcl.js:413-422 | the first len bits; beyond the bit length either zero padding or no change, case by case |
| BitArrays.ExtractValue | lib/av_client/sjcl.js:362-374 | the big-endian value of the slice, within one word and across two |
| BitArrays.Equal | lib/av_client/sjcl.js:451-460 | true exactly for equal bit strings, however their words are written |
| BitArrays.CrossTest | lib/av_client/sjcl.js:366-366 | the xor-and-mask test holds exactly when two positions lie in different words |
| Base64.FromBits | lib/av_client/sjcl.js:605-625 | the character loop and padding write the base64 text of the bits |
| Base64.EncodeSpelledOut | lib/av_client/sjcl.js:605-625 | each character is the table's entry for the next six bits, zeros past the end, and equals signs fill up to a multiple of four unless they are left out |
| Base64.ToBits | lib/av_client/sjcl.js:627-650 | reading gathers six bits a character into words, keeps whole bytes, and throws exactly on a foreign character |
| Base64.IndexIs | lib/av_client/sjcl.js:598-636 | a character is read as v if and only if it is entry v of the alphabet string |
| Base64.GroupAt | lib/av_client/sjcl.js:627-650 | character k gives bits 6k to 6k + 5 |
| Base64.ReadableExactly | lib/av_client/sjcl.js:627-636 | reading throws exactly on a string with a character that is neither white space, nor an equals sign, nor in the alphabet |
| Base64.DecodeEncode | lib/av_client/sjcl.js:605-650 | decoding undoes encoding on every byte-aligned bit string, with or without padding, in both alphabets |
| Base64.Reread | lib/av_client/sjcl.js:605-650 | toBits(fromBits(arr)) is the same bits for every array of whole bytes, in every mode |
| BnBits.ToBits | lib/av_client/sjcl.js:2869-2880 | the words spell the value in the given number of bits |
| BnBits.FromBits | lib/av_client/sjcl.js:2896-2907 | the limbs read from a bit array have its big-endian value |
| BnBits.Repack | lib/av_client/sjcl.js:2869-2907 | fromBits after toBits gives the value back, through the repacking of 24-bit limbs into 32-bit words |
| BnBits.ToBitsAll | lib/av_client/sjcl.js:2869-2891 | without a length the words spell the value in the fewest whole bytes that hold it |
| BnBits.RepackAll | lib/av_client/sjcl.js:2869-2907 | fromBits(x.toBits()) has the value of x |
| Sha256.Hash.Update | lib/av_client/sjcl.js:760-785 | after an update buffer, length and chaining value represent the longer message; what is left changed when the length check throws |
| Sha256.PaddedBuffer | lib/av_client/sjcl.js:794-804 | the bit 1, zero words and two length words complete the padding of section 5.1.1 of FIPS 180-4 |
| Sha256.Hash.Finalize | lib/av_client/sjcl.js:791-812 | the digest of the whole message, and a fresh state |
| Sha256.HashChunks | lib/av_client/sjcl.js:733-812 | any sequence of updates gives the one-shot digest of the concatenation |
| Sha256.PadWhole | lib/av_client/sjcl.js:794-804 | the padded message is whole blocks with no superfluous zeros |
| Sha256.PadExactly | lib/av_client/sjcl.js:794-804 | the padding is the only string that is the message, a one, the fewest zeros that complete the block, and the length in 64 bits |
| Sha256.DigestChain | lib/av_client/sjcl.js:791-812 | the digest is the last chaining value of the compression function over the padded message's blocks |
| GcmWords.GhashWords | lib/av_client/sjcl.js:1249-1261 | the word loop computes GHASH of the zero-padded bits |
| GcmWords.CtrWords | lib/av_client/sjcl.js:1301-1310 | the encryption loop xors the key stream into the data and cuts it to the data's bit length |
| GcmWords.CtrMode | lib/av_client/sjcl.js:1272-1331 | the ciphertext of section 7 of NIST SP 800-38D and the tag over the ciphertext in both directions |
| GcmWords.Encrypt | lib/av_client/sjcl.js:1172-1181 | authenticated encryption, ciphertext then tag |
| GcmWords.Decrypt | lib/av_client/sjcl.js:1192-1213 | authenticated decryption, an error exactly when the tags differ |
| Gcm.OpenSeal | lib/av_client/sjcl.js:1172-1213 | decryption undoes encryption for every block function, product, IV, associated data, tag length and plaintext bit length |
| Gcm.OpenExactly | lib/av_client/sjcl.js:1192-1213 | exactly the encryptions are accepted, each as the plaintext it encrypts |
| Gcm.SealSpelledOut | lib/av_client/sjcl.js:1272-1331 | every ciphertext bit is the plaintext bit xor its counter's key-stream bit, and every tag bit that of one GHASH over padded associated data, padded ciphertext and both lengths xor that of the first counter |
| Gcm.StartIs | lib/av_client/sjcl.js:1282-1289 | the first counter is the 96-bit IV and a one, or the hash of a padded IV of another length and its length |
| Gcm.CounterCounts | lib/av_client/sjcl.js:1301-1310 | a counter's last 32 bits count modulo 2^32 and its other bits stay |
| Gcm.ChainExists | lib/av_client/sjcl.js:1249-1261 | the chaining values of that GHASH exist for every string of whole blocks |
| DhPackages.DhEncrypt | lib/av_client/crypto/aes.ts:12-91 | encryption throws exactly when the shared point is the identity; otherwise the IV is the first three random words, and ciphertext and tag are cut apart without loss, under the key shared with the ephemeral exponent |
| DhPackages.IvsApart | lib/av_client/crypto/aes.ts:77-91 | two such IVs are equal if and only if their three words have the same bits; the fourth random word does not enter |
| DhPackages.DhDecrypt | lib/av_client/crypto/aes.ts:12-109 | decryption throws without opening exactly when the shared point is the identity, and otherwise opens the joined ciphertext and tag or reports damage |
| DhPackages.SecretExists | lib/av_client/sjcl.js:3619-3626 | in a group of prime order the shared point is not the identity exactly when neither exponent is a multiple of the order |
| DhPackages.PackageOpens | lib/av_client/crypto/aes.ts:12-109 | both sides reach the same shared point, and what is sealed under it opens |
| DhPackages.DecryptEncrypted | lib/av_client/crypto/aes.ts:12-109 | encrypting to k·G succeeds exactly when e·k·G is not the identity, and then dhDecrypt with k recovers the message |

## Left out

- Network connectors, polling, one-time passwords, JWT decoding and the error class hierarchy: their answers and failures are parameters of the calls.
- AES tables, the SHA-256 compression function, the product of the tag's field, PBKDF2 and HKDF: arbitrary functions.
- The pseudo-Mersenne reduction of field elements: field elements are residues, and only the generic `mod` is modelled on limbs.
- The group law of the curve (associativity): the Jacobian formulas are proved to be the affine sums, and the protocols are proved in any abelian group.
- The cache of a point's multiples: the table is computed on each call, which gives the same entries.
- Hex and JSON serialisation of points, scalars, pairs and packages: values are passed instead of their strings.
- Big-number constructors from strings and numbers, and printing, except for the one comparison in `powermod`.
- trim and normalize of an empty limb vector: the source leaves one undefined limb there, the model a zero limb.
- Normalisation in place by printing and by multiplication is modelled as value-preserving writes to the operands.
- Text of write-ins is its UTF-8 bytes: UTF-16 code units and lone surrogates of JavaScript strings are not modelled.
- Integer doubles are rounded to 53 bits without an upper limit: sums from 2^1024 on, which the source makes infinite, are not modelled.
- A byte-array view with a non-zero offset into its buffer: `read` ignores the offset, the model reads whole buffers.
- Validation of selections, configuration checks, short codes and option lookup: branch-by-branch checks.
- The verifier item, access codes and the stored voting round of the client: they carry no chain links.
- Objects with inherited keys: contest maps are plain maps.
- ElGamalPointCryptogram.Decrypt: states only the formula; what it recovers is stated by ElGamal.DecryptsWithKey.
- Binding of the commitments, and soundness of the proof with many generators: statements about hardness and probability.
- CCM, ECDSA, other curves, entropy collection and the JSON wrapper of the library: unused by the pipeline.
