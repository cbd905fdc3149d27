# Verified model of the crypto library

A Dafny model of the arithmetic, codec and hashing core of a hardware wallet's `crypto/` library, with proofs that
the code computes what it is for. The library is C on fixed-width machine words: numbers of 256 bits on nine limbs of
29 bits that are reduced lazily, branch-free inversion and scalar multiplication, bitsliced field arithmetic, base
conversions and checksums on wrapping accumulators, and hashing contexts that are filled piece by piece. Much of why
it works stands only in its comments. Here these comments are theorems.

`dafny verify dfyconfig.toml` checks the whole project.

## How the model is built

- A C function that changes its arguments is a method that changes arrays or objects; loops, order of updates, early
  exits and allowed aliasing are those of the source. A long function is split into methods along its own sections.
- `Arith.u8`, `u32` and `u64` are subset types of the integers. Every assignment to a variable of such a type is a
  proof that the exact value fits, so a verified carry loop neither overflows nor underflows. Where the source relies
  on wrapping, the wrapping is written out.
- A method is proved against a function of its inputs or an independent definition: a residue, a point of the affine
  law, a polynomial's value, a numeral in another base, a padded message. Lemmas then prove what that definition
  promises, and say in other terms what it is: the number that a text shows, a chain of states over every block, the
  polynomial behind a table of constants, a known answer.
- Congruence is written `a % m == b % m`.
- C strings are sequences of character codes without the terminator; a null pointer is the empty string.

## Modules, from the bottom up

| modules | subject |
|---|---|
| `Arith`, `Limbs`, `Primes`, `Squares`, `Roots`, `Groups` | powers and congruences, limbs, Bezout and Fermat, square roots, root counts, multiples in a group |
| `Bignum`, `BignumBytes`, `BignumModular`, `BignumHalf`, `BignumMultiply`, `BignumReduce`, `BignumDivide`, `BignumPower` | `crypto/bignum.c`: in-place operations on limb arrays |
| `InverseMath`, `BignumInverse` | the constant-time almost Montgomery inverse |
| `BignumLongDivision`, `AmountFormat`, `AmountReading` | small division, the formatting of amounts, and what the text shows |
| `Field`, `Curve`, `CurveLaw`, `CurveGroup`, `JacobianGroup`, `Compression` | `crypto/ecdsa.c`: affine and Jacobian points, public keys |
| `ScalarDigits`, `ScalarMultiply` | signed odd digits and both scalar multiplications |
| `Signatures`, `Ecdsa` | what a signature is; signing, verifying, recovering |
| `HashToCurve` | `crypto/hash_to_curve.c`: the simplified SWU map |
| `Peasant`, `Gf256`, `BitslicedField`, `Interpolation`, `Shamir` | `crypto/shamir.c`: bitsliced GF(2^8) and interpolation |
| `Numerals`, `Base58` | `crypto/base58.c` |
| `Checksum`, `Polymod`, `PolymodField`, `Symbols`, `Segwit`, `CashAddr`, `KnownAddresses` | `crypto/segwit_addr.c` and `crypto/cash_addr.c` |
| `ByteWords`, `Sha256`, `Blake256`, `Hmac`, `Pbkdf2`, `HmacDrbg` | streaming hashes and what is built on them |
| `DerivationCache` | the cache behind key derivation in `crypto/bip32.c` |

## Where the code and its promises differ

- `bn_fast_mod` is commented for numbers whose lower limbs are normalized; `bn_mult_k` and `bn_addmod` pass it others.
  It is right for nine arbitrary 32-bit limbs (`BignumModular.BnFastMod`).
- `bn_cnegate` returns exactly twice the prime for a negated multiple of the prime (`BignumModular.BnCNegate`).
- Taking the other root of zero gives the prime itself, not zero. `Compression.UncompressCoords` and
  `HashToCurve.SimpleSwu` say exactly when, and `Compression.OddRootOfZero` and `HashToCurve.OddRootMapped` give inputs.
  A curve of odd prime order has no such point.
- `hmac_drbg_reseed` skips the second round when there is no entropy, even with additional input, where
  section 10.1.2 of NIST SP 800-90A asks for it. `HmacDrbg.ReseedMeetsStandard` says exactly when it conforms.
- `bech32_encode` accepts an empty human-readable part that `bech32_decode` rejects (`Segwit.EmptyPartFails`), and
  `cash_encode` accepts capitals and long prefixes that `cash_decode` does not give back
  (`CashAddr.UndecodablePrefixes`). The round trips are stated as if-and-only-if.
- `pbkdf2_hmac_sha256` with zero iterations makes one (`Pbkdf2.Pbkdf2HmacSha256`).

## Model

| member | source | states |
|---|---|---|
| Bignum.BnIsLess | crypto/bignum.c:281-289 | The branch-free comparison of normalized numbers is the order of their values, whatever the limbs. |
| Bignum.BnAdd | crypto/bignum.c:1402-1426 | Adding in place is exact and normalized as long as the sum fits 261 bits; the operands may be one array. |
| Bignum.BnSubtract | crypto/bignum.c:1581-1620 | The difference is exact when it is not negative, and wraps modulo 2^261 otherwise; the accumulator never underflows, for any aliasing of the three arrays. |
| Bignum.BnMod | crypto/bignum.c:547-555 | A partly reduced number becomes its residue; in general at most one multiple of the prime is taken off. |
| BignumBytes.BnReadBe | crypto/bignum.c:95-108 | The nine limbs of 29 bits hold the number that 32 bytes write, the highest first; the 32-bit shifts drop only bits that are carried on. |
| BignumBytes.BnWriteBe | crypto/bignum.c:137-148 | The 32 bytes write the number that the limbs hold, for every number below 2^256. |
| BignumBytes.ReadThenWrite | crypto/bignum.c:95-148 | Reading 32 bytes and writing them back gives the bytes. |
| BignumBytes.WriteThenRead | crypto/bignum.c:95-148 | Writing a number and reading it back gives the number. |
| BignumBytes.WordsShow | crypto/byte_order.h:42-47 | The words that the hashes make of their bytes write the same number as the bytes, the highest first. |
| BignumHalf.BnMultHalf | crypto/bignum.c:472-523 | Twice the result is x, or x plus the prime when x is odd: halving modulo an odd prime, without overflow of the carries. |
| BignumModular.BnFastMod | crypto/bignum.c:740-829 | For nine arbitrary 32-bit limbs the result is normalized, below 2 * prime and congruent; it is x less the top limb's quotient by 2^24 times the prime, and the 64-bit accumulator stays in range. |
| BignumModular.BnMultK | crypto/bignum.c:529-540 | Multiplication by at most 8, with limbs left unnormalized for the fast reduction, gives a normalized congruent result below 2 * prime. |
| BignumModular.BnAddMod | crypto/bignum.c:1432-1443 | Addition with unnormalized limbs and a fast reduction gives a normalized congruent result below 2 * prime. |
| BignumModular.BnSubtractMod | crypto/bignum.c:1528-1574 | The result is exactly x + 2 * prime - y for a y of at most 2 * prime, so it never borrows. |
| BignumModular.BnSubI | crypto/bignum.c:1491-1520 | The result is exactly x + prime - y for a machine word y below the prime's lowest limb. |
| BignumModular.BnCNegate | crypto/bignum.c:326-400 | The result is 2 * prime or prime, less or plus x mod prime: the negative or the number itself, and exactly 2 * prime for a negated multiple of the prime. |
| BignumMultiply.BnMultiplyLong | crypto/bignum.c:561-604 | The 18 limbs hold the exact product, and each column's accumulator fits 64 bits; the factors may be one array. |
| BignumReduce.BnMultiplyReduceStep | crypto/bignum.c:611-701 | Step d takes a number below 2^(256 + 29d + 31) to one below 2 * prime * 2^(29d) by taking off a multiple of prime * 2^(29d); no accumulator under- or overflows. |
| BignumReduce.BnReduce | crypto/bignum.c:707-720 | Nine steps take any number below 2^519 to a congruent one below 2 * prime. |
| BignumReduce.BnMultiply | crypto/bignum.c:726-734 | For normalized factors whose product is below 2^519 the result is normalized, below 2 * prime and congruent to the product. |
| BignumDivide.InverseModPowerTwo | crypto/bignum.c:908-929 | Newton's iteration in wrapping 32-bit words gives the inverse of an odd word modulo 2^n, for every n up to 32. |
| BignumDivide.BnDivideBase | crypto/bignum.c:937-997 | Multiplying the result by 2^29 gives back x modulo the prime; a reduced x stays reduced and a partly reduced one partly reduced. |
| InverseMath.TurnKeepsInv | crypto/bignum.c:1132-1158 | Every unfinished turn of the inversion loop keeps u*s + v*r = p, x*s = v*2^k and x*r = -u*2^k modulo p and the parity conditions, and counts k. |
| InverseMath.TurnsBounded | crypto/bignum.c:1132-1158 | Under the invariant u*v has been halved k times and is at least 1, so k is at most 512 for a modulus of up to 256 bits. |
| BignumInverse.AlwaysFinishes | crypto/bignum.c:1178-1207 | After the fixed 522 turns the loop has finished for every nonzero reduced x. |
| BignumInverse.InverseLoop | crypto/bignum.c:1160-1207 | The branch-free loop over limb arrays, which goes on shifting v and doubling r once it has finished, leaves in s the almost inverse 2^k / x below the prime. |
| BignumInverse.DivideByPower | crypto/bignum.c:1209-1223 | The closing loops of divisions by 2^29 and by 2 divide s by exactly 2^k, for every k up to 522. |
| InverseMath.AlmostInverse | crypto/bignum.c:1209-1225 | Dividing the almost inverse by 2^k gives the inverse modulo an odd modulus. |
| BignumInverse.BnInverse | crypto/bignum.c:1127-1231 | For an odd modulus in the source's range and x coprime to it the result is normalized, fully reduced and the inverse of x; for a multiple of the modulus it is 0. |
| Primes.Fermat | crypto/bignum.c:884-902 | Fermat's little theorem, on which the exponents of the square root and of the Legendre symbol rely. |
| BignumPower.BnPowerMod | crypto/bignum.c:838-873 | The result is x^e modulo the prime, partly reduced, for all 261 bits of the exponent, including the early stop at the top limb. |
| BignumPower.BnSqrt | crypto/bignum.c:884-902 | For a prime that is 3 modulo 4 the fully reduced result squares to x whenever x is a square, and is zero exactly for multiples of the prime. |
| Roots.EulerCriterion | crypto/bignum.c:1630-1653 | For every odd prime a nonzero number is a square exactly when its power (p-1)/2 is 1, and otherwise that power is -1; the converse counts the roots of X^((p-1)/2) - 1. |
| BignumPower.BnLegendre | crypto/bignum.c:1630-1653 | The result is 0 exactly for multiples of the prime and -1 exactly for numbers that are not squares modulo it, for every odd prime. |
| BignumLongDivision.BnLongDivision | crypto/bignum.c:1658-1709 | Quotient and remainder by a number below 61304 are exact, also when the quotient overwrites the dividend, and the 32-bit accumulator never overflows. |
| AmountFormat.BnFormat | crypto/bignum.c:1734-1875 | For every amount, prefix, suffix, number of decimals, exponent, trailing flag and separator the buffer holds the text of the Python prototype with its terminator, and the length is returned; when the two do not fit, the result is 0 and the buffer is all zeros. |
| AmountFormat.GroupedIsGroups | crypto/bignum.c:1839-1864 | Separators written after every third digit from the right, but not before the first, give the groups of three of the prototype. |
| AmountReading.GroupsAt | crypto/bignum.c:1839-1864 | In the grouped digits every fourth character from the right is a separator, and the others are the digits in order. |
| AmountReading.TextShows | crypto/bignum.c:1798-1866 | With all decimals, the digits of the text read as one number are the scaled amount, and the point stands before the last `decimals` of them. |
| AmountReading.ScaledDownShows | crypto/bignum.c:1788-1796 | For a negative exponent that number is the amount divided by the power of ten, rounded down. |
| AmountReading.ScaledUpShows | crypto/bignum.c:1804-1848 | For any other exponent it is the exact multiple. |
| AmountReading.TextWithoutZeros | crypto/bignum.c:1816-1837 | Without the trailing flag the text is the same up to the last decimal that is not zero, or up to the point when there is none. |
| Curve.DoublingTest | crypto/ecdsa.c:284-288 | The partly reduced difference equals the prime exactly when the two abscissas agree, which is how the addition recognizes a doubling. |
| Curve.PointJacobianAdd | crypto/ecdsa.c:221-338 | For every slope of the line through the two points (the tangent when they coincide) the new triple stands for the affine sum on that line, and its coordinates stay partly reduced; every bignum call is within its range. |
| Curve.PointJacobianDouble | crypto/ecdsa.c:340-406 | The new triple stands for the affine double on the tangent, with coordinates partly reduced. |
| Curve.CurveToJacobian | crypto/ecdsa.c:187-201 | For any nonzero denominator the triple stands for the given affine point. |
| Curve.JacobianToCurve | crypto/ecdsa.c:203-219 | The fully reduced coordinates of the point that the triple stands for. |
| CurveLaw.SumOnCurve | crypto/ecdsa.c:68-90 | The reflected third point of a chord or tangent of the curve lies on the curve again. |
| CurveLaw.PointAdd | crypto/ecdsa.c:47-91 | In all branches (infinity on either side, equal points, opposite points, distinct abscissas) the new point is the chord-and-tangent sum and is valid and reduced. |
| CurveLaw.PointDouble | crypto/ecdsa.c:94-136 | The new point is the chord-and-tangent double, infinity for a point of ordinate zero, and is valid and reduced. |
| CurveGroup.SumIsThirdPoint | crypto/ecdsa.c:68-135 | A finite sum is the reflected third point of the line through the two points: the cubic less the square of the line is the product of the three differences of abscissas, and the line passes through the negative of the sum. |
| CurveGroup.InfiniteSum | crypto/ecdsa.c:60-66 | A sum of two finite points is infinity exactly when they have one abscissa and their ordinates cancel. |
| CurveGroup.EcIsGroup | crypto/ecdsa.c:47-136 | The points of the curve form a commutative group under the chord-and-tangent sum of the two functions; associativity is its one hypothesis. |
| JacobianGroup.AddAffine | crypto/ecdsa.c:221-338 | Whenever the group sum is finite, adding in Jacobian form gives a triple that denotes it. |
| JacobianGroup.Double | crypto/ecdsa.c:340-406 | Whenever the group double is finite, doubling in Jacobian form gives a triple that denotes it. |
| ScalarDigits.DigitsAreOdd | crypto/ecdsa.c:453-459 | Every recoded digit is odd and at most 15 in size. |
| ScalarDigits.DigitsSum | crypto/ecdsa.c:453-462 | The 64 digits of an odd number a, weighted by powers of 16, sum to a - 2^256. |
| ScalarDigits.UpperOdd | crypto/ecdsa.c:492-495 | Every partial sum of upper digits is odd and below its power of 16 in size, so that no intermediate multiple is zero. |
| ScalarMultiply.HeldNonzero | crypto/ecdsa.c:492-526 | What the top-down loop holds before each addition is never a multiple of the order, so the Jacobian formulas are never called on an infinite sum. |
| ScalarMultiply.MakeOdd | crypto/ecdsa.c:425-451 | The recoded scalar is k + 2^256, less the order when k is even; it is odd, and the zero test is exact. |
| ScalarMultiply.NextWindow | crypto/ecdsa.c:502-514 | Moving the 5-bit window down over the limb boundaries reads bits 4i to 4i + 4 of the scalar. |
| ScalarMultiply.PointMultiply | crypto/ecdsa.c:410-533 | From the highest digit down, with sign changes deferred to the denominator, the result is k times the point for every k between 0 and the order; 0 gives infinity with status 1, and a k of at least the order is rejected. |
| ScalarMultiply.ScalarMultiply | crypto/ecdsa.c:540-627 | From the lowest digit up, over the precomputed table, the result is k times the generator for every k between 0 and the order: the same multiple that PointMultiply gives. |
| Compression.UncompressCoords | crypto/ecdsa.c:935-947 | The result has the wanted parity, is the ordinate of that parity whenever the abscissa has one, and is the prime itself exactly when the cubic vanishes there and the odd root is asked for. |
| Compression.OddRootOfZero | crypto/ecdsa.c:935-947 | Over every prime of the source's kind, on y^2 = x^3 - 2x + 1, the odd ordinate over 1 comes out as the prime. |
| Compression.ValidatePubkey | crypto/ecdsa.c:974-1005 | Accepts exactly the finite points of the curve with reduced coordinates. |
| Compression.ReadPubkey | crypto/ecdsa.c:949-966 | Tag 4 is accepted exactly for valid coordinates, tags 2 and 3 give the ordinate of that parity exactly when there is one, and other tags are rejected. |
| Compression.CompressThenRead | crypto/ecdsa.c:930-972 | Compressing any valid point and reading it back gives the point (sections 2.3.3 and 2.3.4 of SEC 1). |
| Ecdsa.SignWithNonce | crypto/ecdsa.c:705-775 | One turn of the signing loop, through blinding, the inverse of the nonce and the low form of s: under a valid key and without a test for canonical signatures it succeeds exactly when the nonce is in range, r is not zero and neither is z + r * d modulo the order; with such a test, when the low form passes it too. An invalid key is reported exactly when the nonce is usable. |
| Ecdsa.OnlySignature | crypto/ecdsa.c:718-755 | A nonce determines one r, one low s and one recovery byte. |
| Ecdsa.NonceGivesSignature | crypto/ecdsa.c:718-755 | What a nonce gives is a signature with s at most half the order and a recovery byte below 4: the nonce or its negative stands behind it. |
| Ecdsa.SolvableIsAcceptable | crypto/ecdsa.c:718-763 | Without a test for canonical signatures a nonce is accepted exactly when r and z + r * d are not zero, whether s comes out high or low. |
| Ecdsa.SignDigest | crypto/ecdsa.c:682-785 | A zero digest is refused; an invalid key is reported exactly when some nonce is in range with a nonzero r; otherwise the signature is that of the first of 10000 nonces that can sign and whose signature is canonical, and failure means that there is none. |
| Ecdsa.VerifyDigest | crypto/ecdsa.c:1082-1143 | The result is 0 exactly for signatures that verify under a readable key (section 4.1.4 of SEC 1); 1 exactly for unreadable keys, 3 for a zero digest, 2 for r or s out of range, 4 when the combination is infinity and 5 for a mismatch. |
| Ecdsa.AcceptsMeans | crypto/ecdsa.c:1112-1133 | For every inverse w of s the signature verifies exactly when r and s are in range, the digest is not zero, and (w * z) * G + (r * w) * Q is a finite point with abscissa r modulo the order. |
| Ecdsa.RecoverPub | crypto/ecdsa.c:1025-1079 | Success gives the key that (r, s), the digest and the recovery byte determine (section 4.1.6 of SEC 1), and failure means that there is none. |
| Signatures.SignatureRecovers | crypto/ecdsa.c:1025-1079 | Every signature under d recovers d times the generator with its recovery byte. |
| Signatures.RecoveredAccepted | crypto/ecdsa.c:1082-1143 | A recovered key verifies the signature it was recovered from. |
| Signatures.AcceptedRecovers | crypto/ecdsa.c:1025-1143 | Every key that verifies a signature is recovered from it with one of the four recovery bytes. |
| Signatures.RecoveryUnique | crypto/ecdsa.c:1025-1079 | At most one key is recovered from a signature and a recovery byte. |
| Ecdsa.SignVerifyRecover | crypto/ecdsa.c:682-1143 | Whenever signing succeeds, verification under the public key succeeds and recovery with the returned byte gives that public key. |
| HashToCurve.SecondCandidate | crypto/hash_to_curve.c:152-186 | The curve value at the second candidate is t^3 times that at the first. |
| HashToCurve.SecondIsSquare | crypto/hash_to_curve.c:188-201 | When the first candidate's curve value is not a square, the second one's is. |
| HashToCurve.SimpleSwu | crypto/hash_to_curve.c:90-225 | The map fails exactly when a or b is zero or the prime is not 3 modulo 4; otherwise it gives the point that section 6.6.2 of RFC 9380 selects, exceptional case included, with the parity of u; the ordinate is the prime itself exactly when the cubic vanishes and u is odd. |
| HashToCurve.SelectedMeans | crypto/hash_to_curve.c:98-193 | The selected abscissa satisfies the equations of section 6.6.2 of RFC 9380 with their divisions multiplied out. |
| HashToCurve.OddRootMapped | crypto/hash_to_curve.c:209-220 | Over every prime that is 3 modulo 4, on a curve with a given root, the map takes 3 to an ordinate that is the prime itself. |
| HashToCurve.ReadWide | crypto/bignum.c:119-131 | The 18 limbs hold the 512-bit number made of two 256-bit halves, across the limb that both share. |
| HashToCurve.BnReadBe512 | crypto/bignum.c:113-132 | The 18 limbs hold the number that the 64 bytes write, the highest first. |
| HashToCurve.HashToField | crypto/hash_to_curve.c:33-73 | The call fails exactly when a block is longer than 64 bytes or the expansion fails; otherwise field element i is block i of the expanded message, the highest byte first, modulo the prime and fully reduced. |
| HashToCurve.SumOfImages | crypto/hash_to_curve.c:238-289 | The result is the group sum of the images of two field elements under the map, infinity included. |
| Gf256.SquaredIsMul | crypto/shamir.c:202-239 | The linear closed form of squaring is the product of the element with itself modulo x^8 + x^4 + x^3 + x + 1. |
| Gf256.KnownProducts | crypto/shamir.c:90-197 | x^8 reduces to x^4 + x^3 + x + 1, and {57} times {83} is {c1}, the example of section 4.2 of FIPS 197. |
| Gf256.InverseWorks | crypto/shamir.c:244-261 | The power 254 inverts every nonzero element; that all 255 of them form a group follows from squaring eight times being the identity. |
| BitslicedField.GfMul | crypto/shamir.c:90-197 | In each of the 32 lanes the words of r become the field product; r may be the first factor. |
| BitslicedField.GfSquare | crypto/shamir.c:202-239 | In each lane the words become the field square, also in place. |
| BitslicedField.GfInv | crypto/shamir.c:244-261 | The addition chain computes the power 254 in every lane. |
| Interpolation.TooManyRoots | crypto/shamir.c:263-335 | Over any field of characteristic two a polynomial with at least as many roots as coefficients vanishes everywhere. |
| Interpolation.LagrangeRecovers | crypto/shamir.c:263-335 | Lagrange's formula over distinct points gives the value of every polynomial with at most as many coefficients as points, at every x, the points themselves included. |
| Interpolation.ComputedPart | crypto/shamir.c:295-320 | The scaled numerator together with the special case for a share's own index is that share's term of the formula. |
| Interpolation.DistinctDenominators | crypto/shamir.c:305-316 | No denominator vanishes exactly when the indices are distinct. |
| Shamir.Bitslice | crypto/shamir.c:43-54 | Lane k of the words holds byte k, and zero beyond the length. |
| Shamir.Unbitslice | crypto/shamir.c:56-67 | Byte k is lane k of the words, and bytes beyond the length are untouched. |
| Shamir.ShamirInterpolate | crypto/shamir.c:263-335 | The call succeeds exactly when the length is at most 32 and the share indices are distinct; then every byte is the value at the requested index of any polynomial with at most as many coefficients as shares through the shares' bytes. |
| Base58.BufferSuffices | crypto/base58.c:154-158 | A buffer of n * 138 / 100 + 1 digits holds every n-byte number, and one digit less holds n - 1 bytes. |
| Base58.Absorb | crypto/base58.c:160-170 | One byte is absorbed exactly although digits below the moving index are skipped and the loop stops at index 0. |
| Base58.Convert | crypto/base58.c:154-170 | After all bytes the buffer holds the base-58 digits of the number; index 0 is never nonzero before the last byte. |
| Base58.B58Enc | crypto/base58.c:148-186 | The needed size is always reported; encoding succeeds exactly when the capacity is at least that, writes the encoding with its terminator, and otherwise changes nothing. |
| Base58.MultiplyAdd | crypto/base58.c:87-91 | The pass over the 32-bit words computes 58 times the number plus the digit, and returns what does not fit. |
| Base58.FitsBytes | crypto/base58.c:67-97 | The carry and the mask on the first word reject exactly the numbers of more than the buffer's bytes. |
| Base58.B58ToBin | crypto/base58.c:52-128 | Decoding succeeds exactly for strings over the alphabet whose bytes fit a nonempty buffer; the end of the buffer then holds those bytes and the rest is zero. A failure leaves the buffer alone, unless the number fits and only its leading ones do not: then it holds the number. |
| Base58.DecodedEncoded | crypto/base58.c:52-186 | Decoding undoes encoding for every byte string, leading zeros included. |
| Base58.EncodedMeans | crypto/base58.c:148-186 | The characters write the number of the bytes, after a 1 for each leading zero byte and no other. |
| Base58.OrderedIsAlphabet | crypto/base58.c:31-40 | The characters of the digits are the digits and letters in order without 0, O, I and l. |
| Base58.EncodedDecoded | crypto/base58.c:52-186 | Encoding undoes decoding for every string over the alphabet. |
| Base58.EncodeThenDecode | crypto/base58.c:52-186 | Encoding with enough room and decoding into a large enough buffer succeeds and gives the bytes back. |
| Polymod.StepBijective | crypto/segwit_addr.c:27-35 | The step is a bijection on the 30-bit states of Bech32 and on the 40-bit states of CashAddr: an explicit step back undoes it from both sides. |
| PolymodField.StepMultiplies | crypto/segwit_addr.c:27-35 | The step multiplies the state by x modulo the generator polynomial that BIP-173 (for CashAddr, its specification) gives, over the field of 32 elements. |
| PolymodField.GeneratorSymbols | crypto/cash_addr.c:34-41 | The five constants are the coefficients of that polynomial times the powers of a root of x^5 + x^3 + 1, for both checksums. |
| Polymod.IsACode | crypto/cash_addr.c:34-41 | Both checksums are linear over exclusive or, keep their states, have no kernel, and feeding a state's own symbols rebuilds it. |
| Checksum.ClosingReachesTarget | crypto/segwit_addr.c:81-87 | The closing symbols, read off the state after as many empty steps, take any state to the final constant. |
| Checksum.ClosingUnique | crypto/segwit_addr.c:81-87 | No other symbols of that number do. |
| Checksum.OneSymbolDetected | crypto/segwit_addr.c:27-35 | Changing any one symbol at any position of a sequence of any length changes the final state. |
| Symbols.ConvertBits | crypto/segwit_addr.c:155-175 | The output groups hold the bits of the input groups in order although the 32-bit accumulator wraps; without padding it succeeds exactly when fewer bits than a group are left and all are zero. |
| Symbols.BackToBytes | crypto/segwit_addr.c:155-175 | The symbols of padded bytes regroup to the bytes, with only zero padding left over. |
| Symbols.AnyRegrouping | crypto/segwit_addr.c:155-175 | A sequence of symbols regroups to bytes in only one way. |
| Segwit.Encode | crypto/segwit_addr.c:56-90 | Encoding succeeds exactly for printable parts without capitals, 5-bit data and a total length of at most 90, and gives the string that the checksum closes. |
| Segwit.Decode | crypto/segwit_addr.c:92-153 | Decoding fails exactly for malformed strings and wrong checksums, and otherwise gives the lowered part, the data and the encoding. |
| KnownAddresses.KnownBech32 | crypto/segwit_addr.c:92-153 | a12uel5l decodes under Bech32, as in BIP-173. |
| KnownAddresses.KnownBech32m | crypto/segwit_addr.c:92-153 | a1lqfn3a decodes under Bech32m, as in BIP-350. |
| Segwit.DecodingUndoesEncoding | crypto/segwit_addr.c:56-153 | Decoding gives back the part, the data and the encoding exactly when the human-readable part is not empty (BIP-173, BIP-350). |
| Segwit.EmptyPartFails | crypto/segwit_addr.c:56-106 | The encoder accepts an empty human-readable part, and the decoder rejects the result. |
| Segwit.EncodingUndoesDecoding | crypto/segwit_addr.c:56-153 | Every accepted string, in lower case, is the encoding of what it decodes to. |
| Segwit.OneCharacterNoticed | crypto/segwit_addr.c:125-152 | Changing the value of one character after the separator of a valid string never leaves it valid for the same encoding. |
| Segwit.SegwitEncode | crypto/segwit_addr.c:177-189 | Succeeds for exactly the valid versions and programs that fit 90 characters with a usable human-readable part; the result decodes under Bech32 for version 0 and under Bech32m for versions 1 to 16. |
| Segwit.SegwitDecode | crypto/segwit_addr.c:191-209 | Accepts exactly the addresses of valid programs with zero padding, version 0 under Bech32 and versions 1 to 16 under Bech32m, and gives version and program. |
| Segwit.EncodeThenDecode | crypto/segwit_addr.c:177-209 | Decoding undoes encoding for all valid pairs of version and program. |
| CashAddr.Encode | crypto/cash_addr.c:54-86 | Encoding succeeds exactly for printable prefixes, 5-bit data and a total length of at most 129, and gives the string that the checksum closes. |
| CashAddr.Decode | crypto/cash_addr.c:88-143 | Decoding fails exactly for malformed strings and wrong checksums, and otherwise gives the lowered prefix and the data. |
| KnownAddresses.KnownCashAddr | crypto/cash_addr.c:88-143 | p:gpf8m4h7 decodes to no data under the prefix p. |
| CashAddr.DecodingUndoesEncoding | crypto/cash_addr.c:54-143 | Decoding gives back prefix and data exactly when the prefix has 1 to 20 characters and no capitals and the data at most 104 symbols. |
| CashAddr.UndecodablePrefixes | crypto/cash_addr.c:54-115 | The encoder accepts a capital and a prefix of 21 characters, which the decoder does not give back. |
| CashAddr.EncodingUndoesDecoding | crypto/cash_addr.c:54-143 | Every accepted string, in lower case, is the encoding of what it decodes to. |
| CashAddr.OneCharacterNoticed | crypto/cash_addr.c:124-143 | Changing the value of one character after the separator of a valid string is always noticed. |
| CashAddr.CashAddrEncode | crypto/cash_addr.c:168-175 | Succeeds exactly for payloads of 2 to 65 bytes whose address fits 129 characters with a printable prefix. |
| CashAddr.CashAddrDecode | crypto/cash_addr.c:177-189 | Accepts exactly the addresses under the given prefix whose symbols regroup to 2 to 65 bytes with zero padding, and gives these bytes. |
| CashAddr.EncodeThenDecode | crypto/cash_addr.c:168-189 | Decoding undoes encoding for every payload that encodes under a prefix the decoder can give back. |
| Sha256.Resumed | crypto/sha2.c:692-699 | Continuing from the state after any number of whole blocks with their bit count gives the hash of the whole message. |
| Sha256.HashIsChain | crypto/sha2.c:851-961 | The hash is the last of a chain of states from the initial value over every block of the padded message, of which there are as many as hold the message and nine more bytes. |
| Sha256.PaddedBytes | crypto/sha2.c:914-944 | The padding is a one bit, zeros, and the number of message bits in the last two words. |
| Sha256.Context.InitEx | crypto/sha2.c:692-699 | The context continues from a given state at a block boundary. |
| Sha256.Context.Update | crypto/sha2.c:851-907 | Whatever the split into calls, the context holds the fold of the compression function over the whole blocks of all bytes so far and the rest in its buffer; the 64-bit count may wrap. |
| Sha256.Context.Final | crypto/sha2.c:909-961 | The digest is the fold over the message padded as in section 5.1.1 of FIPS 180-4, in both padding cases, and the context is wiped. |
| Sha256.PaddedInTwo | crypto/sha2.c:914-947 | When fewer than eight bytes are left after the one bit, the padding makes two blocks and the digest is still that of the padded message. |
| Blake256.RunOverMessage | crypto/blake256.c:136-174 | Over the whole blocks of a message the 2 x 32-bit counter is the number of message bits so far. |
| Blake256.HashIsChain | crypto/blake256.c:136-225 | The hash is the last of a chain of states over every block of the padded message: a full message block is compressed with the number of bits so far, the block where the message ends with all its bits, a later one with zero. |
| Blake256.PaddedBytes | crypto/blake256.c:177-216 | The padding is a one bit, zeros, a one bit, and the number of message bits in two words. |
| Blake256.Context.Update | crypto/blake256.c:136-174 | The whole blocks of what was buffered and the input are compressed with the counter moving on, and the rest is kept. |
| Blake256.Context.Absorb | crypto/blake256.c:136-174 | Whatever the split into calls, the context holds the same message. |
| Blake256.AdjustedTick | crypto/blake256.c:188-216 | After the counter has been lowered by the padding bits the tick leaves exactly the number of message bits, with no false carry, whenever the block holds message bits. |
| Blake256.Context.Final | crypto/blake256.c:177-225 | In all four padding cases the digest is the fold over the padded message in which every block that holds message bits is compressed with the number of bits so far and every other one with counter zero (section 2.1.3 of the BLAKE submission). |
| Hmac.HmacContext.Final | crypto/hmac.c:53-60 | Init, any Updates and Final give the code of RFC 2104 for keys of any length. |
| Hmac.HmacSha256 | crypto/hmac.c:62-68 | The one-call form gives the same code. |
| Hmac.LongKey | crypto/hmac.c:30-46 | A key of more than 64 bytes gives the code of its hash. |
| Hmac.ShortKey | crypto/hmac.c:30-60 | For any other key the code is the hash of one masked block and the hash of the other masked block and the message, the key filled up with zeros. |
| Hmac.Prepare | crypto/hmac.c:70-102 | The two digests are the states after the key block combined with the two pads, although the second pad is applied over the first. |
| Hmac.OuterIsDigest | crypto/pbkdf2.c:39-53 | One compression of eight words and fixed padding is the digest of these words after one block. |
| Hmac.Precomputed | crypto/pbkdf2.c:38-53 | The code of any message comes from the two digests: the inner hash continued from one, and one compression from the other. |
| Pbkdf2.OneMoreU | crypto/pbkdf2.c:60-62 | Two compressions in place are one more code. |
| Pbkdf2.Context.Init | crypto/pbkdf2.c:30-56 | After initialisation the context holds the first iteration. |
| Pbkdf2.Context.Update | crypto/pbkdf2.c:58-68 | The number of iterations grows by the argument, less the one already made in the first call; any split with a nonempty first part gives the same sum. |
| Pbkdf2.Context.Final | crypto/pbkdf2.c:70-78 | The key is the exclusive or of all iterations (section 5.2 of RFC 8018). |
| Pbkdf2.Pbkdf2HmacSha256 | crypto/pbkdf2.c:80-103 | A key of any length is the blocks one after the other, numbered from one, cut to that length; no iterations count as one. |
| Pbkdf2.BlockIsSum | crypto/pbkdf2.c:43-68 | Block i is the exclusive or of as many numbers as there are iterations: the code of the salt and the four bytes of i, and each the code of the one before. |
| HmacDrbg.MacOfValue | crypto/hmac_drbg.c:81-84 | Two compressions in place are the code of the value. |
| HmacDrbg.Context.UpdateV | crypto/hmac_drbg.c:81-84 | The value becomes its code under the key, and the padding behind it stays. |
| HmacDrbg.InnerWithZero | crypto/hmac_drbg.c:34-39 | Without data the inner hash of the value and a zero byte takes one compression with another padding, which is put back. |
| HmacDrbg.Context.UpdateK | crypto/hmac_drbg.c:28-79 | The key becomes the code of value, domain byte and data, both digests follow, and the value with its padding is unchanged. |
| HmacDrbg.Context.Reseed | crypto/hmac_drbg.c:108-115 | The new key is the code of value, zero byte and data, and the new value its code; with entropy both are renewed once more with a one byte. |
| HmacDrbg.ReseedMeetsStandard | crypto/hmac_drbg.c:108-115 | This is HMAC_DRBG_Update of section 10.1.2 of NIST SP 800-90A for every compression function exactly when there is entropy or no additional input; otherwise a compression function is given for which it is not. |
| HmacDrbg.Context.Init | crypto/hmac_drbg.c:86-106 | The state is the instantiation of the standard for entropy followed by the nonce, when there is entropy or no nonce. |
| HmacDrbg.Context.Generate | crypto/hmac_drbg.c:117-130 | The buffer receives the stream of successive values, cut to its length, and the state is updated without data. |
| HmacDrbg.StreamIsChain | crypto/hmac_drbg.c:117-127 | Every value of the stream is the code of the one before, and the first that of the state. |
| DerivationCache.Cache.Find | crypto/bip32.c:408-422 | A hit gives the node that derivation along the parent path reaches. |
| DerivationCache.Cache.DeriveParent | crypto/bip32.c:424-440 | A miss derives the parent step by step; success is remembered in the next slot in turn and nowhere else, and failure changes no slot. |
| DerivationCache.Cache.Derive | crypto/bip32.c:384-448 | Node, fingerprint and success flag are those of derivation without a cache, and every used entry stays the fold of child derivation from the root along its path. |
| DerivationCache.WantedIsOfParent | crypto/bip32.c:442-445 | A fingerprint is that of the parent, and the last child is derived from the parent. |
| DerivationCache.UnwantedIsWalk | crypto/bip32.c:424-447 | Without a fingerprint derivation is child after child along the whole path, up to the first failure. |
| DerivationCache.AnyRun | crypto/bip32.c:377-448 | Over every sequence of derivations, failing ones included, and clears, all answers are those given without a cache. |

## Left out

- The inside of the compression functions (SHA-256 rounds, BLAKE G): every result about hashing holds for any function
  of their signature, passed as a parameter.
- Child key derivation, fingerprints and the comparison of nodes by bytes: parameters of `DerivationCache`.
- Random choices are parameters: the denominators that curve_to_jacobian picks, the nonces of RFC 6979 or of the random
  source, the blinding factors of signing.
- Primality of the field prime and of the group order, the constants of the curves and the precomputed table: hypotheses
  on parameters. No concrete curve is instantiated.
- Associativity of the chord-and-tangent law, and that every point of the curve is annihilated by the group order
  (cofactor 1, which the source assumes too): the hypotheses `CurveGroup.Associative` and `Signatures.CofactorOne`.
- Bytes in the ECDSA layer: keys, digests and signatures enter it as the numbers below 2^256 that
  `BignumBytes.BnReadBe` reads.
- The expansion of a message before it is read as field elements (expand_message): a parameter of
  `HashToCurve.HashToField`.
- Limb arrays in the curve layer: a normalized bignum256 is determined by its value, so points hold numbers, and each
  field operation runs the limb code on fresh limbs. Aliasing between coordinates is not captured there.
- DerivationCache.Cache.Derive: asks for a parent depth of at most 8, which the source's cache entries need and the
  function itself does not check.
- The 32-bit words of the bitsliced field are sequences of 32 truth values, and Bech32's 32-bit states are taken on
  64-bit words; no bit of a state leaves its lower 30.
- Byte reversal of words on little-endian machines: the model follows the big-endian branch.
- Wiping of secrets is stated only where later results depend on it; constant time and side channels are not modelled.
- The SHA-512 twins of SHA-256, HMAC and PBKDF2, and the twin of convert_bits in `crypto/cash_addr.c`: they repeat
  modelled code.
- The second scalar_multiply for builds without the table (a call of point_multiply), ecdh_multiply, DER encoding,
  address derivation and the checksums of base58_encode_check: thin layers over what is modelled.
- The inverses that are compiled out, and the remaining small bignum helpers.
- Everything outside `crypto/` and, within it, Ed25519, Elligator 2, the library wrappers, word lists and tables.
