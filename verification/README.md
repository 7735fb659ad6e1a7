# A verified model of the vendored cryptography library

`ios/Classes` holds a C library for Bitcoin-style cryptography: arithmetic modulo a 256-bit prime,
elliptic curves, ECDSA, AES with its modes, SHA-2 with HMAC and PBKDF2, Base58, BIP-39 mnemonics and
BIP-32 key derivation. This project models that code in Dafny, in the form the C has (structs that
functions update in place, limb arrays run through carry loops, unrolled rounds, byte-granular state
machines), and proves what the code is for. `dafny verify dfyconfig.toml` checks everything within
Dafny's default limits.

## What is proved

- **256-bit arithmetic** (`Words`, `Limbs`, `Field`, `Bignum`, `BignumAdd`, `BignumMultiply`,
  `Combo`, `AlmostInverse`, `BignumInverse`, `Repack`, `BignumDivide`, `BignumSqrt`, `Fermat`,
  `Bytes`). Nine limbs of 30 bits; values are lazily reduced below 2p. Every operation is exact on
  the stated range, no accumulator over- or underflows, and the packed almost-inverse finds x with
  x*y = 1 modulo p for every prime between 2^256 - 2^224 and 2^256 and every x that is not a
  multiple of it.
- **Curves** (`PrimeField`, `Curves`, `Multiples`, `JacobianForm`, `Points`, `Jacobian`, `Recode`,
  `Scalars`, `MultiplySteps`, `PointMultiply`, `ScalarMultiply`). Jacobian addition and doubling
  refine the affine chord-tangent law; both scalar multiplications return exactly k*P.
- **ECDSA** (`PublicKeys`, `EcdsaSpec`, `Ecdsa`, `EcdsaRoundTrip`). What signing returns, verifying
  accepts and recovery traces back to the signer. Recovery has one unguarded input, s*R = z*G; for R
  = k*G that is exactly s*k = z modulo n, and such r and s exist for all k and z that are not 0
  modulo n, as long as the x of k*G is not.
- **AES** (`AesField`, `AesSBox`, `AesCipher`, `AesBlock`, `AesBasis`, `AesKeys`, `AesBytes`,
  `AesModes`, `AesStream`, `AesCounter`, `AesCbc`, `AesRoundTrip`). Decryption under the
  rotated-basis schedule undoes encryption for every 128- and 256-bit key and every block; the modes
  do not depend on how a message is cut into calls.
- **Codecs** (`Radix`, `Base58`, `Base58Decode`, `Base58Check`, `Bits`, `Bip39`, `Bip39Number`,
  `Mnemonics`, `MnemonicDecode`; `Options`). Parser and printer are inverse to each other, on all
  inputs.
- **Derivation** (`Bip32Spec`, `Bip32`, `Bip32Bytes`, `Bip32Cache`, `Bip32Derivation`, `Sha512`,
  `Hmac512`, `Pbkdf2`, `Casts`, `Padding`, `Pbkdf2Sum`). Private and public derivation commute, the
  cache agrees with plain derivation, and the midstate PBKDF2 is the plain one.
- What an operation computes is stated twice: by the function its contract names, and again in
  bytes, bits or numbers without that function (`AesBytes`, `AesKeys.WordBytes128`,
  `AesCbc.CbcBytes`, `AesCounter.FreshCall`, `Padding`, `Pbkdf2Sum`, `Bip32Bytes`, `Bip39Number`,
  `Base58.CodeExact`, `Ecdsa.AcceptedExact`, `Ecdsa.VerdictExact`).

## Reading the model

- `bignum256` is the class `Bignum256` with the limbs as one sequence-valued field, because the C
  copies the struct by assignment; `V` is the number it denotes, `Fe` its residue. Words that are
  only shifted, masked and or-ed are numbers, a mask written as a remainder, a shift as a quotient;
  where the bits themselves matter (`Words.And`, `Or`, `Xor`) they are functions on bits.
- Hypotheses that are assumed and never proved: the primality of p and n; that the addition of the
  curve is associative (`Multiples.Associative`; closure and commutativity are proved); that the
  generator has order n; that the curve has cofactor one where foreign keys are read
  (`Ecdsa.PrimeGroup`); that the table of the comb holds the odd multiples of the powers of sixteen
  of the generator (`ScalarMultiply.CombTable`); p = 3 mod 4 for square roots.
- Random and external inputs are parameters: the z of `curve_to_jacobian`, the nonces of signing,
  the canonicity test, the hashes of Base58 and BIP-39, the MAC of BIP-32 and the compression
  function of SHA-512.
- The retry loops of BIP-32 run until an accepted output; a ghost parameter names one that is, so
  the loops end. Signing stops after 10000 nonces, as the code does.
- A function pair with one loop structure is modelled once where the C repeats it: `AesStream.Crypt`
  is `aes_cfb_encrypt`, `aes_cfb_decrypt` and `aes_ofb_crypt`, which differ in the assignments of
  their inner loops. The sixteen unrolled assignments of a block are a loop.
- An AES or SHA word is its bytes. The digit tables of Base58 are written as their runs.

Where the code and its comments disagree, the model follows the code:

- `bignum.c:611` states max(u,v) <= 2^k for the main loop of `bn_inverse`; at the start, k = 0, u is
  p (`BignumInverse.StartExceeds`). The bound that holds, and that the end of the loop relies on, is
  on r and s.
- `bignum.c:109-122` promises a plain big-endian write; the last round of the loop also computes a
  shift by 32, whose value is never used.
- `ecdsa.c:1127` fears a false negative when the two points of the verification equation are equal
  or infinite; `point_add` covers these cases, and verification is exact whenever z/s is not 0
  modulo n. When it is, the code answers 3 whatever the signature.
- `bip39.c:68-100` also prints 15 and 21 words (20 and 28 bytes), which `data_from_mnemonic` never
  accepts (`MnemonicDecode.AcceptedLengths`).
- `pbkdf2.c:118-128` counts a first call with no iterations as one iteration.
- `base58.c:118` may report a size that exceeds the buffer, since every leading '1' counts;
  `Base58Decode.SizeFits` says when. `base58_decode_check` then forms a pointer below its buffer.
- `ecdsa.c:1086` multiplies by r^-1 without asking whether s*R - z*G is the point at infinity.

## Model

| member | source | states |
|---|---|---|
| `Bignum.FastMod` | ios/Classes/bignum.c:449-465 | Any nine 32-bit limbs become a normalised number below 2p, equal to the input minus a stated multiple of p; a positive input stays positive, so a multiple of p comes out as p and never as 0. |
| `Bignum.IsLess` | ios/Classes/bignum.c:237-247 | The two comparison words, read limb by limb from the top, decide exactly V(a) < V(b). |
| `Bignum.IsEqual` | ios/Classes/bignum.c:252-259 | True exactly when the limbs, and so the numbers, are equal. |
| `Bignum.IsZero` | ios/Classes/bignum.c:224-232 | True exactly for the number zero. |
| `BignumAdd.Add` | ios/Classes/bignum.c:825-834 | The limbs after the carry loop are normalised and denote the sum; modulo 2^270 when it overflows. |
| `Bignum.WrapIsMod` | ios/Classes/bignum.c:825-834 | The wrapped sum is the sum modulo 2^270. |
| `BignumAdd.AddMod` | ios/Classes/bignum.c:836-843 | The sum modulo p, partly reduced. |
| `BignumAdd.SubI` | ios/Classes/bignum.c:855-860 | a + p - b for b up to the lowest limb of p although that limb may underflow before the prime is added; the difference modulo p when a < 100p. |
| `BignumAdd.AddI` | ios/Classes/bignum.c:845-853 | The sum with any 32-bit number, normalised and modulo 2^270; 2^32 less when that number and the lowest limb overflow the 32-bit accumulator in the first step. |
| `BignumAdd.SubtractMod` | ios/Classes/bignum.c:865-874 | a + 2p - b without any limb underflowing, for b < 2p; the difference modulo p when a < 100p. |
| `BignumAdd.Subtract` | ios/Classes/bignum.c:877-886 | a - b, or 2^270 more when a < b. |
| `BignumAdd.Mod` | ios/Classes/bignum.c:335-341 | The one residue below p of a partly reduced number. |
| `BignumAdd.MultK` | ios/Classes/bignum.c:324-331 | k times x modulo p, partly reduced, for k up to 4. |
| `BignumAdd.MultHalf` | ios/Classes/bignum.c:304-319 | x/2 or (x+p)/2, whichever is an integer; normalised. |
| `BignumAdd.RShift` | ios/Classes/bignum.c:290-297 | Halving, rounding down. |
| `BignumAdd.LShift` | ios/Classes/bignum.c:279-286 | Doubling modulo 2^270. |
| `BignumMultiply.MultiplyLong` | ios/Classes/bignum.c:346-372 | Eighteen normalised limbs that denote the full product; no 64-bit accumulator overflows. |
| `BignumMultiply.MultiplyReduceStep` | ios/Classes/bignum.c:378-410 | One step keeps the residue modulo p and takes the bound from 2^(30(i-7))*2p to 2^(30(i-8))*2p without under- or overflow; limb i+1 becomes zero. |
| `BignumMultiply.MultiplyReduce` | ios/Classes/bignum.c:417-430 | Nine steps bring the product below 2p with its residue unchanged. |
| `BignumMultiply.Multiply` | ios/Classes/bignum.c:436-442 | For operands below 180p the result is normalised, below 2p and the product modulo p. |
| `BignumSqrt.Sqrt` | ios/Classes/bignum.c:471-505 | x^((p+1)/4) modulo p, fully reduced, by the limb-wise square-and-multiply loop. |
| `BignumSqrt.RootOfSquare` | ios/Classes/bignum.c:467-475 | For p = 3 mod 4 that power of a square is one of its square roots. |
| `Fermat.FermatLittle` | ios/Classes/bignum.c:467-475 | a^(p-1) = 1 mod p for prime p, proved from the binomial theorem; the reason the power is a root. |
| `Combo.SubtractFirst` | ios/Classes/bignum.c:696-707 | The first numbers are subtracted limb by limb without losing a borrow, leaving the other half of the register alone. |
| `Combo.AddSecond` | ios/Classes/bignum.c:708-719 | The second numbers, stored from the other end with another split point, are added without losing a carry. |
| `Combo.Compare` | ios/Classes/bignum.c:675-685 | Comparison of the first numbers by length and then by limbs. |
| `BignumInverse.MakeOdd` | ios/Classes/bignum.c:622-667 | The even first number is divided by all its factors of two and the second multiplied by them, across limbs and bits, while the two halves of the nine-limb register never overlap. |
| `BignumInverse.Reduce` | ios/Classes/bignum.c:694-719 | even := even - odd in the first numbers and odd := odd + even in the second ones. |
| `BignumInverse.StripEven` | ios/Classes/bignum.c:616-673 | The first half of an iteration keeps the relations and sizes of the invariant. |
| `BignumInverse.ReduceLarger` | ios/Classes/bignum.c:686-742 | The second half keeps them too and makes u + v smaller, so the loop ends. |
| `AlmostInverse.Strip` | ios/Classes/bignum.c:602-617 | Moving factors of two from u to s keeps x*s = v*2^k, x*(-r) = u*2^k (mod p), u*s + v*r = p and gcd(u,v) = 1. |
| `AlmostInverse.Subtract` | ios/Classes/bignum.c:720-727 | So does subtracting the smaller first number from the larger. |
| `AlmostInverse.StripSizes` | ios/Classes/bignum.c:610-611 | floor(log2 u) + floor(log2 v) + k <= 510 and the bound on r and s by 2^k after a strip. |
| `AlmostInverse.SubtractSizes` | ios/Classes/bignum.c:734-742 | The same bounds, weakened by one doubling, after a subtraction. |
| `AlmostInverse.Finished` | ios/Classes/bignum.c:744-746 | When u = v both are 1 and r, s lie strictly between 0 and p. |
| `AlmostInverse.FinalK` | ios/Classes/bignum.c:745-746 | At the end 255 <= k <= 510. |
| `BignumInverse.AlmostInverseLoop` | ios/Classes/bignum.c:600-743 | The loop ends with u = v = 1, x*s = 2^k (mod p), 0 < s < p and 255 <= k <= 510. |
| `BignumInverse.StartExceeds` | ios/Classes/bignum.c:594-611 | The start of the loop meets the invariants with k = 0, and u = p exceeds 2^0 there. |
| `BignumDivide.NegInverse` | ios/Classes/bignum.c:752-766 | The explicit quadratic iteration gives -1/p modulo 2^32. |
| `BignumDivide.DivideStep` | ios/Classes/bignum.c:785-802 | s := (s + factor*p)/2^k is exact, keeps s < p and divides by 2^k modulo p. |
| `BignumDivide.DivideByPow2` | ios/Classes/bignum.c:767-803 | The two division loops turn x*s = 2^k into x*s = 1 (mod p). |
| `BignumInverse.Inverse` | ios/Classes/bignum.c:547-815 | For prime p and x not a multiple of p the result is fully reduced and x times it is 1 modulo p. |
| `Bytes.ReadBE` | ios/Classes/bignum.c:91-107 | The nine limbs denote the 32 bytes read as a big-endian number. |
| `Bytes.WriteBE` | ios/Classes/bignum.c:111-122 | 32 bytes that denote the number; the shift by 32 of the last round is computed and dropped. |
| `Bytes.BigEndianPrepend` | ios/Classes/bignum.c:89-122 | Of big-endian bytes the first weighs 256 to the number of the others. |
| `Bytes.ReadThenWrite` | ios/Classes/bignum.c:89-122 | Writing what was read gives the same bytes. |
| `Bytes.WriteThenRead` | ios/Classes/bignum.c:89-122 | Reading what was written gives the same limbs. |
| `Points.PointAdd` | ios/Classes/ecdsa.c:47-90 | The chord-tangent sum of the two points, with every case for infinity, equal and opposite points. |
| `Points.PointDouble` | ios/Classes/ecdsa.c:93-134 | The double of the point; infinity for points of order two. |
| `Points.IsNegativeOf` | ios/Classes/ecdsa.c:158-171 | Of two affine points of a curve, true exactly when they are opposite and differ. |
| `Curves.Closed` | ios/Classes/ecdsa.c:47-90 | The chord-tangent sum of two points of the curve is a point of the curve. |
| `Curves.Commutative` | ios/Classes/ecdsa.c:47-90 | It does not depend on the order of the points. |
| `Jacobian.ConditionalNegate` | ios/Classes/ecdsa.c:175-188 | 2p - a where the mask is set, with the closing bound on the top limb for every a; partly reduced exactly when nothing is negated or a is not zero. |
| `Jacobian.CurveToJacobian` | ios/Classes/ecdsa.c:194-211 | The three coordinates stand for the affine point, for every z the random source may give. |
| `Jacobian.JacobianToCurve` | ios/Classes/ecdsa.c:213-228 | Dehomogenising gives the affine point a triple stands for. |
| `Jacobian.MultipleIsPrime` | ios/Classes/ecdsa.c:284-296 | A positive partly reduced h equals p exactly when it is 0 modulo p: the doubling test is sound and complete. |
| `Jacobian.JacobianAdd` | ios/Classes/ecdsa.c:230-347 | For any nonzero z and -3 <= a <= 0 the result stands for the affine sum, with the branch-free doubling selection, and has z = 0 modulo p exactly when that sum is the point at infinity; all intermediate values meet the bounds of the field operations. |
| `Jacobian.JacobianDouble` | ios/Classes/ecdsa.c:349-415 | For any nonzero z the result stands for the affine double, and has z = 0 modulo p exactly when a point of order two was doubled. |
| `JacobianForm.AddCorrect` | ios/Classes/ecdsa.c:236-283 | The polynomial identities behind the addition formulas, for chord and tangent alike. |
| `JacobianForm.DoubleCorrect` | ios/Classes/ecdsa.c:352-377 | The polynomial identities behind the doubling formulas. |
| `Recode.TableEntry` | ios/Classes/ecdsa.c:485-496 | A five-bit window decodes to the sign and the table index of an odd digit of absolute value at most 15. |
| `Scalars.PrepareScalar` | ios/Classes/ecdsa.c:437-457 | The masked additions build 2^256 plus k, n-adjusted to be odd, and report whether k is zero. |
| `Scalars.RecodedSum` | ios/Classes/ecdsa.c:459-484 | The 64 digits add up to k or to k - n, from either end, which is k modulo n. |
| `Scalars.ReadWindow` | ios/Classes/ecdsa.c:508-520 | The limb-crossing read yields the five bits of a >> 4i. |
| `PointMultiply.BuildTable` | ios/Classes/ecdsa.c:470-481 | The table holds the odd multiples of the point up to 15, one entry serving as scratch meanwhile. |
| `PointMultiply.HighSumNonzero` | ios/Classes/ecdsa.c:498-532 | No partial sum of digits from the top is a multiple of the order, so the accumulator is never infinity. |
| `PointMultiply.WindowRound` | ios/Classes/ecdsa.c:498-533 | One round of four doublings, a lazy sign change through z and an addition keeps the accumulator at plus or minus the partial sum times the point. |
| `PointMultiply.PointMultiply` | ios/Classes/ecdsa.c:418-535 | Exactly k*P for every 0 <= k < n and every point of order n. |
| `ScalarMultiply.ShiftFour` | ios/Classes/ecdsa.c:601-606 | The in-place shift by four bits divides by sixteen. |
| `ScalarMultiply.ScalarMultiply` | ios/Classes/ecdsa.c:541-621 | Exactly k*G for every 0 <= k < n, if the table holds the odd multiples of the powers of sixteen of G. |
| `ScalarMultiply.BothWays` | ios/Classes/ecdsa.c:417-621 | On the same k the comb and the window on G leave the same limbs, whatever their random values. |
| `PublicKeys.UncompressCoords` | ios/Classes/ecdsa.c:947-959 | y is the candidate root or its negative, with the parity asked for. |
| `PublicKeys.UncompressedPoint` | ios/Classes/ecdsa.c:947-959 | Decompressing the x and the parity of a point of the curve gives that point. |
| `PublicKeys.ValidatePubkey` | ios/Classes/ecdsa.c:985-1016 | Accepts exactly the reduced coordinates of affine points of the curve. |
| `PublicKeys.ReadPubkey` | ios/Classes/ecdsa.c:961-978 | Succeeds exactly when the bytes denote a point of the curve, and yields it. |
| `Ecdsa.SignDigest` | ios/Classes/ecdsa.c:712-797 | The signature is that of the first nonce that is in range, gives r and s different from zero and passes the canonicity test; 10000 failures give -1. |
| `Ecdsa.VerifyDigest` | ios/Classes/ecdsa.c:1094-1146 | 1 exactly for bytes of no point; and for every d, under the bytes of d*G, 0 exactly when r and s are in range, z is not 0 modulo n and some nonce k has k*s = z + r*d modulo n and r as the x of k*G. |
| `Ecdsa.VerdictExact` | ios/Classes/ecdsa.c:1094-1146 | The codes 2, 3, 0 and 5 under the key d*G by the numbers alone: 2 out of range, 3 for z = 0 modulo n, 0 when such a nonce exists and 5 when none does. |
| `EcdsaSpec.VerifiesExact` | ios/Classes/ecdsa.c:1108-1136 | For the key d*G the verification equation holds exactly for the r and s that some nonce gives. |
| `EcdsaSpec.AttemptExact` | ios/Classes/ecdsa.c:733-786 | One nonce gives (r, s, id) exactly when r is the x of k*G and not 0, s is the root of k*s = z + r*d or of k*s = -(z + r*d) that is at most n/2 and not 0, and id is the parity of y, flipped for the second root, plus 2 when x was reduced. |
| `Ecdsa.AcceptedExact` | ios/Classes/ecdsa.c:712-797 | The 64 bytes and the recovery byte that signing returns for a nonce, in numbers, and that it passes over no nonce that gives some. |
| `Ecdsa.VerifyDigestRecover` | ios/Classes/ecdsa.c:1045-1091 | Fails exactly when r or s is out of range or no point is named; otherwise the key is r^-1*(s*R - z*G), when that is not r^-1 times infinity. |
| `EcdsaSpec.SignatureRange` | ios/Classes/ecdsa.c:745-769 | 0 < r < n, 0 < s <= n/2 and a recovery byte below 4. |
| `EcdsaSpec.SignatureVerifies` | ios/Classes/ecdsa.c:1108-1136 | Every signature satisfies the verification equation for d*G, also after s was negated. |
| `EcdsaSpec.SignatureRecovers` | ios/Classes/ecdsa.c:1045-1091 | The point named by r and the recovery byte leads back to d*G, also after s was negated or R.x was reduced. |
| `EcdsaSpec.RecoveredSigner` | ios/Classes/ecdsa.c:1060-1090 | For any numbers: recovering from k*G returns d*G for the d of which (r, s) is a signature with the nonce k. |
| `EcdsaSpec.InfiniteSum` | ios/Classes/ecdsa.c:1079-1086 | The sum that is formed is the point at infinity, whose z the last multiplication would invert, exactly when s*R = z*G. |
| `EcdsaSpec.RecoverableExact` | ios/Classes/ecdsa.c:1045-1091 | When the named point is k*G, recovery avoids that exactly when s*k - z is not 0 modulo n. |
| `EcdsaSpec.UnsafeInput` | ios/Classes/ecdsa.c:1054-1074 | For every 0 < k < n with (k*G).x not 0 modulo n and every digest z not 0 modulo n, r = (k*G).x and s = z/k modulo n pass the range checks and name k*G, and recovery runs into it. |
| `EcdsaRoundTrip.SignVerifyRecover` | ios/Classes/ecdsa.c:712-1146 | What signing returns is accepted by verification and recovery returns the signer's key, for digests that are not multiples of n. |
| `AesSBox.SBoxDefinition` | ios/Classes/aestab.c:28-60 | Every entry of the substitution table is the affine image of the inverse in GF(2^8). |
| `AesSBox.Multipliers` | ios/Classes/aestab.c:155-163 | The macros f2, f3, f9, fb, fd and fe multiply by 2, 3, 9, 11, 13 and 14 in GF(2^8). |
| `AesField.InverseTables` | ios/Classes/aestab.c:62-94 | The inverse table undoes the table. |
| `AesField.Linear` | ios/Classes/aestab.c:155-163 | Every multiplier macro is linear over exclusive or. |
| `AesCipher.ForwardTables` | ios/Classes/aestab.c:136-149 | The four table entries add up to the column mix and to its inverse. |
| `AesCipher.MixInverse` | ios/Classes/aestab.c:141-149 | The inverse column mix undoes the column mix. |
| `AesCipher.ForwardMeans` | ios/Classes/aescrypt.c:79-84 | A table-driven forward round is the round key plus the mixed, substituted and shifted column. |
| `AesCipher.BackwardMeans` | ios/Classes/aescrypt.c:204-209 | A table-driven inverse round is the round key plus the inverse mix of the inversely substituted and shifted column. |
| `AesCipher.DecryptInverts` | ios/Classes/aescrypt.c:229-295 | Decryption undoes encryption whenever the two schedules are related as in section 5.3.5 of FIPS 197. |
| `AesBlock.TablesAreCipher` | ios/Classes/aescrypt.c:97-164 | The table-driven encryption is the cipher of section 5.1 of FIPS 197. |
| `AesBytes.EncryptIsByteCipher` | ios/Classes/aescrypt.c:97-164 | On sixteen bytes: key bytes added, then rounds in which row r of column c is the product of the matrix with rows of 2, 3, 1, 1 and the substituted bytes of columns c, c + 1, c + 2, c + 3; the last round without the matrix. |
| `AesBlock.Encrypt` | ios/Classes/aescrypt.c:97-164 | The unrolled, fall-through switch computes the cipher for 10, 12 or 14 rounds, in place or not, and fails exactly for any other round count. |
| `AesBlock.Decrypt` | ios/Classes/aescrypt.c:229-295 | The same for the equivalent inverse cipher over a reversed schedule. |
| `AesKeys.BoxMeans` | ios/Classes/aesopt.h:740-750 | ls_box with 3 and 0 is SubWord after RotWord and SubWord alone; inv_mcol is the inverse column mix. |
| `AesKeys.RconTable` | ios/Classes/aestab.c:130-132 | The round constants are the powers of x. |
| `AesKeys.Ke4` | ios/Classes/aeskey.c:75-80 | One cycle derives the next four words of the expansion. |
| `AesKeys.EncryptKey128` | ios/Classes/aeskey.c:82-111 | The 44 words of the key expansion, the first four the key bytes, every later one from two earlier ones by FromBytes128. |
| `AesKeys.WordBytes128` | ios/Classes/aeskey.c:75-111 | Word j of such a schedule is word j - 4 plus word j - 1, or for j a multiple of four plus S(b1) + rcon, S(b2), S(b3), S(b0) of its bytes. |
| `AesKeys.ExpandedBytes128` | ios/Classes/aeskey.c:75-111 | The same recurrence for the expansion itself. |
| `AesKeys.EncryptKey256` | ios/Classes/aeskey.c:181-219 | The 60 words of the key expansion, the first eight the key bytes, every later one from two earlier ones by FromBytes256. |
| `AesKeys.WordBytes256` | ios/Classes/aeskey.c:157-219 | Word j is word j - 8 plus word j - 1, plus its substituted rotated bytes and rcon for j a multiple of eight, plus its substituted bytes for j = 4 modulo 8. |
| `AesKeys.ExpandedBytes256` | ios/Classes/aeskey.c:157-219 | The same recurrence for the expansion itself. |
| `AesBasis.PivotStep` | ios/Classes/aeskey.c:261-268 | w[4i+7] = w[4i-9] + T[i], for any box in place of ls_box and the constants: in the rotated basis a turn touches one slot only. |
| `AesBasis.RotatedStep` | ios/Classes/aeskey.c:261-268 | A turn takes the basis of four last words to the next one, for any box and any number of turns. |
| `AesBasis.ImageNext` | ios/Classes/aeskey.c:261-268 | The images of the words under any ff that is linear over exclusive or obey the recurrence of the words. |
| `AesBasis.LastWords` | ios/Classes/aeskey.c:270-276 | The four plain words of a round from the basis. |
| `AesBasis.FastIsExpansion` | ios/Classes/aeskey.c:249-268 | kdf4 once and kd4 any number of times, over any box and any linear ff, store the images of the round keys of the expansion. |
| `AesKeys.GrownIs` | ios/Classes/aeskey.c:261-268 | The expansion of the standard is that general expansion with ls_box and the round constants, for 128- and 256-bit keys. |
| `AesKeys.FastSchedule` | ios/Classes/aeskey.c:249-339 | So the turns of the code store exactly the inverse column mix of the round keys. |
| `AesKeys.BasisStep` | ios/Classes/aeskey.c:261-268 | The four slots hold the last words of the last four rounds, rotated by the turn. |
| `AesKeys.StoredNext` | ios/Classes/aeskey.c:261-268 | The inverse column mix being linear, the stored images obey the recurrence of the expansion. |
| `AesKeys.Kdf4` | ios/Classes/aeskey.c:249-259 | The first turn changes to the rotated basis and stores the images of the next four words. |
| `AesKeys.Kd4` | ios/Classes/aeskey.c:261-268 | A middle turn stores the next round key from the stored image of the one before. |
| `AesKeys.Kdl4` | ios/Classes/aeskey.c:270-276 | The last turn recovers the plain last round key from the basis. |
| `AesKeys.DecryptKey128` | ios/Classes/aeskey.c:304-339 | Every word of the schedule is where the reversed order puts it, mixed exactly for the nine inner round keys. |
| `AesKeys.DecryptKey256` | ios/Classes/aeskey.c:476-524 | The same for 256-bit keys and thirteen inner round keys. |
| `AesKeys.StoredIsReversed` | ios/Classes/aeskey.c:304-339 | Such a schedule is the encryption schedule reversed, as decryption needs it. |
| `AesKeys.DecryptUndoesEncrypt` | ios/Classes/aescrypt.c:229-295 | Decrypting under decrypt_key128/256 what was encrypted under encrypt_key128/256 gives the block back, for every key and block. |
| `AesModes.CounterInc` | ios/Classes/aes_modes.c:944-952 | Increments the counter block with carry and wrap-around. |
| `AesModes.IncrementAdds` | ios/Classes/aes_modes.c:944-952 | Incrementing adds one modulo 2^(8n) to the big-endian number. |
| `AesModes.CounterNumber` | ios/Classes/aes_modes.c:850-942 | Counter block j is the first one plus j modulo 2^128. |
| `AesModes.Split` | ios/Classes/aes_modes.c:457-942 | Processing two pieces one after the other gives the bytes and the state of processing the whole, for CFB, OFB and CTR. |
| `AesModes.DecryptAnySplit` | ios/Classes/aes_modes.c:457-942 | Decrypting with any other split recovers the plaintext and ends in the same state. |
| `AesModes.Standard` | ios/Classes/aes_modes.c:457-942 | From a fresh iv every byte is the plaintext byte plus the mask byte of sections 6.3 to 6.5 of NIST SP 800-38A. |
| `AesStream.Crypt` | ios/Classes/aes_modes.c:457-842 | The three loops of cfb_encrypt, cfb_decrypt and ofb_crypt compute exactly the bytes and the carried state of the one-byte-at-a-time mode, in place or not; they fail only for an unkeyed context. |
| `AesCounter.CtrCrypt` | ios/Classes/aes_modes.c:850-942 | The buffered loop of ctr_crypt computes the key stream from any position, where (c, 16) and (c + 1, 0) are the same state. |
| `AesCounter.FreshCall` | ios/Classes/aes_modes.c:457-942 | From a fresh context byte 16i + j of the output is that byte of the input plus byte j of E of: the counter plus i, the ciphertext block before, or the key stream block before. |
| `AesCbc.CbcEncrypt` | ios/Classes/aes_modes.c:261-356 | Chained encryption of whole blocks; other lengths are refused. |
| `AesCbc.CbcDecrypt` | ios/Classes/aes_modes.c:358-455 | Chained decryption, in place or not. |
| `AesCbc.CbcInverse` | ios/Classes/aes_modes.c:261-455 | Decryption undoes encryption and leaves the same register, for any block function and its inverse. |
| `AesRoundTrip.SchedulesUndo` | ios/Classes/aeskey.c:304-524 | The block functions of the two schedules of any 128- or 256-bit key undo each other and are what the CBC functions need. |
| `AesRoundTrip.CbcRoundTrip` | ios/Classes/aes_modes.c:261-455 | Both schedules, CBC encryption and CBC decryption run on one key, register and message of whole blocks return the message. |
| `AesCbc.CbcSplit` | ios/Classes/aes_modes.c:261-356 | Two calls to encrypt are one call on the whole message. |
| `AesCbc.CbcDecryptSplit` | ios/Classes/aes_modes.c:358-455 | Two calls to decrypt are one call on the whole message. |
| `AesCbc.CbcBytes` | ios/Classes/aes_modes.c:261-356 | Ciphertext block i is E of plaintext block i added byte by byte to the ciphertext block before, or to the register. |
| `AesCbc.CbcDecryptBytes` | ios/Classes/aes_modes.c:358-455 | Plaintext block i is D of ciphertext block i added byte by byte to the ciphertext block before, or to the register. |
| `AesCbc.Registers` | ios/Classes/aes_modes.c:261-455 | Both leave the last ciphertext block in the register. |
| `Base58.Alphabet` | ios/Classes/base58.c:32-41 | The two character tables are inverse to each other. |
| `Base58.AlphabetText` | ios/Classes/base58.c:32-41 | The letters are those of 123456789ABCDEFGHJKLMNPQRSTUVWXYZabcdefghijkmnopqrstuvwxyz in this order, and nothing else is a digit. |
| `Base58.Decoded` | ios/Classes/base58.c:43-186 | Decoding an encoding gives the bytes back, leading zeros included. |
| `Base58.Encoded` | ios/Classes/base58.c:43-186 | Encoding a decoding gives the string back, for every valid string. |
| `Base58.CodeExact` | ios/Classes/base58.c:43-186 | The encoding is the one valid text with as many leading ones as the data has leading zeros and with the same number in base 58 as the data in base 256. |
| `Base58.Enough` | ios/Classes/base58.c:156-156 | 256^n < 58^size whenever 8*size > 11*n. |
| `Base58.SizeSuffices` | ios/Classes/base58.c:156-156 | length*138/100 + 1 digits hold the number of every byte string of that length. |
| `Base58.AddByte` | ios/Classes/base58.c:160-168 | Multiplying by 256 and adding a byte in place keeps the number, and the carry is gone before the index runs below zero. |
| `Base58.B58Enc` | ios/Classes/base58.c:146-186 | Writes the encoding and a NUL exactly when they fit; otherwise reports the size that makes a retry succeed and writes nothing. |
| `Base58Decode.TakeDigit` | ios/Classes/base58.c:74-80 | Multiplies the 32-bit words by 58 in place, the last carry being the overflow. |
| `Base58Decode.ReadAll` | ios/Classes/base58.c:66-87 | Stops with failure exactly when a character is invalid or the number no longer fits. |
| `Base58Decode.B58ToBin` | ios/Classes/base58.c:43-121 | Succeeds exactly for valid strings whose number fits the buffer, writes that number, and reports the length of the decoding, whose bytes end the buffer when they fit it. |
| `Base58Decode.SizeCanExceed` | ios/Classes/base58.c:112-118 | The reported size can exceed the buffer: "11" in one byte. |
| `Base58Decode.SizeFits` | ios/Classes/base58.c:112-118 | The reported size is at most n exactly when the text has at most n leading ones and its number fits the bytes they leave. |
| `Base58Check.B58CheckSum` | ios/Classes/base58.c:123-142 | For any bytes and any text: -4, -1 and -3 for too few bytes, a wrong checksum and leading zeros that do not match the leading ones, else the first byte. |
| `Base58Check.EncodeCheck` | ios/Classes/base58.c:188-202 | The text of the data and its checksum, or 0 if it does not fit or the data is too long. |
| `Base58Check.CheckTextBytes` | ios/Classes/base58.c:188-202 | That text decodes to the data and the first four bytes of the hash of its hash. |
| `Base58Check.CheckedBytes` | ios/Classes/base58.c:123-133 | The checksum test compares the last four bytes with those of the hash of the hash of the others. |
| `Base58Check.DecodeCheck` | ios/Classes/base58.c:204-220 | Accepts exactly the checked texts whose payload fits, and yields the payload. |
| `Base58Check.BoundsExact` | ios/Classes/base58.c:128-141 | The stated condition on a text is exactly what the pointer d + datalen + 4 - res and the skipping loop need to stay within the buffer. |
| `Base58Check.FiveOnes` | ios/Classes/base58.c:204-220 | "11111" with room for no payload breaks it: it decodes to five bytes in a buffer of four. |
| `Base58Check.AcceptsText` | ios/Classes/base58.c:188-220 | What the encoder writes is accepted and gives the payload back. |
| `Base58Check.AcceptsOnly` | ios/Classes/base58.c:204-220 | An accepted text is the one the encoder writes. |
| `Mnemonics.IndexesFromData` | ios/Classes/bip39.c:102-130 | Refuses every length but 16, 20, ..., 32; otherwise the eleven-bit groups of the entropy and its checksum. |
| `Mnemonics.MnemonicFromData` | ios/Classes/bip39.c:68-100 | Prints the words of those groups with single spaces and a NUL, always within 240 bytes. |
| `Bip39.SplitJoin` | ios/Classes/bip39.c:94-96 | Splitting printed words at single spaces gives the words back. |
| `Bip39.JoinLast` | ios/Classes/bip39.c:86-98 | A text grows by one space and the next word. |
| `Bip39Number.IndexesAreNumber` | ios/Classes/bip39.c:102-128 | The word indexes are the digits in base 2048 of the entropy followed by its checksum bits, read as one big-endian number. |
| `Bip39.PackedIndexes` | ios/Classes/bip39.c:178-207 | Packed indexes are those of some entropy exactly when the bytes and the checksum bits agree with it. |
| `MnemonicDecode.CountWords` | ios/Classes/bip39.c:139-146 | The number of spaces plus one is the number of words. |
| `MnemonicDecode.PackIndex` | ios/Classes/bip39.c:176-183 | Or-ing the eleven bits of an index into the zeroed buffer appends them and touches no other bit. |
| `MnemonicDecode.ParseWords` | ios/Classes/bip39.c:156-190 | Every word is found in the list and packed, or some word is not in the list. |
| `MnemonicDecode.DataFromMnemonic` | ios/Classes/bip39.c:132-208 | Accepts exactly the texts printed for 16, 24 or 32 bytes of entropy and returns those bytes, so doubled, leading or trailing spaces, unknown words and wrong checksum bits are all rejected. |
| `MnemonicDecode.PrintAndRead` | ios/Classes/bip39.c:68-208 | Printing and reading back returns the bytes for 16, 24 and 32 of them, and 0 for 20 and 28. |
| `MnemonicDecode.AcceptedLengths` | ios/Classes/bip39.c:132-158 | Of the texts the printer makes from 16 to 32 bytes, exactly those of 16, 24 and 32 are accepted; 15 and 21 words never are. |
| `Bip32.FillPublicKey` | ios/Classes/bip32.c:394-407 | The compressed public key of the private key, computed only if it is missing. |
| `Bip32.PrivateCkd` | ios/Classes/bip32.c:153-212 | The private child by the first accepted MAC output; only a non-hardened child of a node without curve parameters is refused. |
| `Bip32.PublicCkd` | ios/Classes/bip32.c:214-272 | The public child by the first accepted MAC output; refused for hardened indexes, missing parameters and unreadable keys. |
| `Bip32Bytes.MessageBytes` | ios/Classes/bip32.c:160-171 | The MAC is fed 33 bytes and the index in four, most significant first. |
| `Bip32Bytes.PrivateChildBytes` | ios/Classes/bip32.c:153-212 | A private child comes exactly from such a run: first 00 and the key, or the compressed public key, then 01 and the right half of the last output; all outputs but the last refused; the key the sum of the left half and the parent key modulo n, the chain code the right half. |
| `Bip32Bytes.PublicChildBytes` | ios/Classes/bip32.c:214-272 | The same for public children, the child point the sum of the parent point and the left half times G. |
| `Bip32Bytes.PlainChildBytes` | ios/Classes/bip32.c:197-212 | Without curve parameters the child key is the left half as it is. |
| `Bip32Derivation.DeriveBothWays` | ios/Classes/bip32.c:153-407 | hdnode_private_ckd with hdnode_fill_public_key, and hdnode_public_ckd on the wiped copy of the same node, end with the same public key, chain code, depth and child number. |
| `Bip32Derivation.ReadyTogether` | ios/Classes/bip32.c:153-272 | A MAC output accepted for a private key is accepted for its public key, which is readable. |
| `Bip32Spec.SameRound` | ios/Classes/bip32.c:175-234 | The private and the public side accept exactly the same MAC outputs, and the child point is the point of the child key. |
| `Bip32Spec.Square` | ios/Classes/bip32.c:153-272 | Wiping the private child gives exactly the public child of the wiped parent: same key, chain code, depth and child number, through any number of retries. |
| `Bip32Spec.PrivateChildUsable` | ios/Classes/bip32.c:153-212 | A private child of a usable node is a usable node. |
| `Bip32Spec.PrivateChildUnique` | ios/Classes/bip32.c:153-212 | A private child is determined by its parent and index. |
| `Bip32Cache.Cache.PrivateCkdCached` | ios/Classes/bip32.c:326-378 | The result and the node equal plain derivation along the path, whatever the cache holds, and every set slot still holds the derivation of its prefix. |
| `Bip32Cache.AnyCalls` | ios/Classes/bip32.c:313-378 | So it is over every sequence of calls with any roots and any paths of at most nine indices. |
| `Bip32Cache.FoldRuns` | ios/Classes/bip32.c:352-372 | Plain derivation: every step gives the next node, or the first step that fails ends it and the node stays. |
| `Bip32Derivation.ComputesCkd` | ios/Classes/bip32.c:153-212 | hdnode_private_ckd computes whatever function gives the private children of usable nodes; there is one only. |
| `Bip32Derivation.FoldDescends` | ios/Classes/bip32.c:326-378 | Derivation with that function reaches a usable node down the path, and the only one. |
| `Bip32Derivation.CachedDescents` | ios/Classes/bip32.c:313-378 | So every call of the cached function, in any sequence, returns the one node down its path. |
| `Sha512.AddInc` | ios/Classes/sha2.c:103-108 | The two-word counter grows by n modulo 2^128. |
| `Sha512.Update` | ios/Classes/sha2.c:729-785 | After any chunk the context holds the message so far followed by the chunk. |
| `Sha512.Last` | ios/Classes/sha2.c:787-824 | The state becomes the padded hash of everything taken in, with one or two final blocks. |
| `Sha512.Raw` | ios/Classes/sha2.c:865-870 | The hash of section 6.4 of FIPS 180-4 around an arbitrary compression function. |
| `Padding.PadExact` | ios/Classes/sha2.c:787-824 | The padded message is the one shortest string of whole blocks that starts with the message and 0x80, ends with the length in bits in sixteen big-endian bytes and has zeros between. |
| `Padding.LengthNumber` | ios/Classes/sha2.c:815-820 | The sixteen bytes of the length field are the number of bits modulo 2^128. |
| `Padding.HashChain` | ios/Classes/sha2.c:787-843 | The hash is the last of the states that start with the initial value and take in the 128-byte blocks of that string one by one. |
| `Sha512.Chunked` | ios/Classes/sha2.c:729-843 | Any way of cutting a message into calls gives the same digest. |
| `Hmac512.HmacSha512` | ios/Classes/hmac.c:135-141 | HMAC of RFC 2104, long keys hashed first. |
| `Padding.HmacBytes` | ios/Classes/hmac.c:100-141 | The hash of opad and the hash of ipad and the message, where byte k of the pads is that of the key, of its hash if it is longer than 128 bytes, or 0, plus 0x36 or 0x5c. |
| `Hmac512.Prepare` | ios/Classes/hmac.c:143-169 | The two midstates are one transform of each padded key. |
| `Hmac512.OneTransform` | ios/Classes/pbkdf2.c:98-113 | Hashing a block and a digest is one transform of the digest and the fixed padding words from the block's midstate. |
| `Padding.FixedPadBytes` | ios/Classes/pbkdf2.c:98-113 | The fixed padding is 0x80, 61 zeros, 0x06 and 0x00. |
| `Hmac512.TwoTransforms` | ios/Classes/pbkdf2.c:118-123 | HMAC of a digest is two transforms from the midstates. |
| `Pbkdf2.Init` | ios/Classes/pbkdf2.c:89-116 | Starts with U_1, computed by resuming the inner midstate. |
| `Pbkdf2.Update` | ios/Classes/pbkdf2.c:118-128 | Adds the next U to f once per iteration; the first call counts the U of Init. |
| `Pbkdf2.Pbkdf2HmacSha512` | ios/Classes/pbkdf2.c:141-147 | U_1 xor ... xor U_c of section 5.2 of RFC 8018, each U by plain HMAC. |
| `Pbkdf2Sum.SumBits` | ios/Classes/pbkdf2.c:118-147 | Every bit of the derived key is set exactly when it is set in an odd number of the chained HMACs, the first of the salt and 00000001. |
| `Pbkdf2.TotalIsSum` | ios/Classes/pbkdf2.c:118-128 | The calls add up to the sum of their iterations exactly when there is a call and the first asks for at least one. |
| `Pbkdf2.AnyUpdates` | ios/Classes/pbkdf2.c:89-139 | Any sequence of update calls yields F of its total. |

## Left out

- The Flutter, Dart, Kotlin and Swift layers, key storage, contract calls, the relay client and the example application: plumbing without properties of their own.
- `rand.c` and RFC 6979 nonce generation: the values enter as parameters.
- The SHA-2 round functions and the strength of any hash or MAC: the compression function stays uninterpreted, so aliased input and output of one transform is taken to be safe, as its code reads all data before it writes the state.
- The SHA-256 twins of the hash, HMAC and PBKDF2: the same loops with 64-byte blocks and 32-bit words.
- `sha3.c` and `ripemd160.c`: their buffering repeats the argument made for SHA-512.
- The entries of `secp256k1.table`: taken as stated, not computed.
- The disabled 192-bit AES schedule, table generation at run time, the VIA and Intel branches, aligned fast paths and ECB beyond the one use in counter mode: dead, or equal to the byte paths at this level.
- The slow `bn_inverse`, `bn_divmod58`, `bn_divmod1000`, the little-endian readers, DER, WIF and address formatting, the Graphene variants, `bip39` seeds and their cache: small or not compiled.
- Byte swaps between host words and bytes in `sha2.c`, `hmac.c` and `pbkdf2.c`: a word is its bytes, most significant first, so a swap has nothing to model.
- Wiping of memory, timing and constant-time claims.
- BignumInverse.Inverse: leaves out the early return for x = 0 modulo p, an input the source excludes; x not a multiple of p is required.
- Jacobian.JacobianAdd: an input with z = 0 modulo p, which stands for the point at infinity, is not taken; PointMultiply and ScalarMultiply prove that none arises.
- Ecdsa.VerifyDigestRecover: with r and s in range, s*R != z*G is required, since the code goes on to invert 0 otherwise; RecoverableExact and UnsafeInput say when, and a signature made by SignDigest is never such an input.
- EcdsaRoundTrip.SignVerifyRecover: requires a digest that is not 0 modulo n, since verification answers 3 otherwise.
- Base58Check.DecodeCheck: for payloads of up to 128 bytes and texts whose number fits, requires `InBounds`, outside of which the code forms a pointer below its buffer or skips past its end; the lengths and the leading ones of the text decide it.
- Base58Check.B58CheckSum: leaves out bytes that are all zero, carry their own checksum and meet as many leading ones in the text, where the skipping loop reads beyond the buffer.
- MnemonicDecode.DataFromMnemonic: the null pointer, answered with 0 by the source, has no counterpart.
- AesCounter.CtrCrypt: the increment function is the library's own, and the 128-byte key stream buffer is an array of eight blocks.
- AesStream.Crypt: on failure the contents of the buffers are not stated.
- Bip32Cache.Cache.PrivateCkdCached: derivation is an arbitrary function of node and index, and a slot holds a copy of the node; `Bip32Derivation` puts private derivation in, where every usable node is taken to have its children.
- Bip32.PublicCkd: a public key that starts with 04 needs 65 bytes, which its 33-byte field does not have; where the key is read its first byte is not 04.
