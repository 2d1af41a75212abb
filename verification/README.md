# Verified models of the boot chain's cryptographic library and exception framework

The boot chain under `bootloader/ATF` carries Mbed TLS 2.18.0 and Trusted Firmware-A 2.3. This project models the parts of
both whose correctness is hardest to see from the code, and proves it:

- **Multi-precision integers** (`bignum.c`) at the level of limbs, for 32-bit and 64-bit limbs at once: `Numbers`, `Limbs`,
  `Mpi`, `Bits`, `Arith`, `WordDiv`, `Division`, `ModInt`, `Montgomery`, `ExpMod`, `Gcd`, `Bytes`, `Text`. An MPI is a class
  with a sign and a sequence of limbs that the routines overwrite; contracts speak about the integer it denotes, and X, A
  and B may be the same object wherever the code allows it.
- **Protocols on top of them**: Diffie-Hellman with blinding (`Dhm`) and ECDSA over any group of prime order (`Ecdsa`).
- **Block ciphers**: AES from its table generation to its key schedules against FIPS 197 (`AesField`, `AesSbox`, `AesCipher`,
  `AesTables`, `AesCode`, `AesKeys`), and the inversion of Blowfish, DES and 3DES, Camellia and ARIA for any round keys
  (`Blowfish`, `Des`, `Camellia`, `Aria`; helpers in `Words32`, `Octets`).
- **Modes and streams**: XTS with ciphertext stealing (`Xts`), CBC with padding behind the streaming cipher interface (`Cbc`,
  `Padding`, `CipherLayer`), CMAC (`Cmac`), ChaCha20 and ChaCha20-Poly1305 (`Chacha20`, `ChachaPoly`; helpers in `Blocks`).
- **Printers and parsers**: DER (`Der`, `Asn1Write`, `Asn1Parse`, `Asn1RoundTrip`, `Asn1BitString`, `Asn1Sequence`) and
  Base64 (`Base64`).
- **EL3 exception priorities** (`Ehf`, `Bitwise`): runs of activations, deactivations and world switches.

`dafny verify dfyconfig.toml` checks everything.

Where the code does not do what one would expect, the code is modelled as it is, and the theorem says exactly when the
expectation holds:

- `mbedtls_mpi_exp_mod` returns N instead of 0 for a negative multiple of N and an odd exponent (`MpiExpMod.ExpMod`).
- `mbedtls_mpi_gcd` with a zero second argument returns 0 (`MpiGcd.GcdMpi`).
- `mbedtls_mpi_mod_int` loses bits for divisors above half a word, unless they are powers of two
  (`MpiModInt.RightExactlyWhenSafe`).
- `mbedtls_mpi_div_mpi` reads the sign of A and B after it has overwritten Q (`MpiDivision.DivMpi`,
  `MpiDivision.SignsSurvive`).
- `ehf_deactivate_priority` restores the mask only with the last level; with others still open it programs the level being
  dropped. The comment at `bootloader/ATF/arm-trusted-firmware-2.3/bl31/ehf.c:201` and
  `bootloader/ATF/arm-trusted-firmware-2.3/docs/components/exception-handling.rst:428-431` say otherwise
  (`Ehf.MaskBackOnlyWhenOutermost`, `Ehf.InnerReleaseKeepsDroppedLevel`).
- `mbedtls_chachapoly_finish` accepts a context that is already finished, against
  `bootloader/ATF/mbedtls-2.18.0/include/mbedtls/chachapoly.h:263-266` (`ChachaPoly.Context.Finish`).
- Zero padding loses trailing zero bytes of the plaintext (`CipherLayer.SealedOpens`).
- `mbedtls_asn1_write_mpi` writes negative numbers as their absolute value, although its comment speaks of two's complement,
  and decides about the octet of 0 by the byte behind it (`Asn1RoundTrip.MpiThereAndBack`, `Asn1Write.WriteMpi`).
- A Diffie-Hellman call that is refused because its draws give no blinding pair leaves its last draw behind as Vi, and the
  next call with the same X takes it for a pair: it exports the right secret exactly when that draw is a 2X-th root of 1
  (`Dhm.NextExportRight`, with runs that go wrong in `Dhm.WrongExportAfterRefusal`).
- XTS in place overwrites leftover bytes before it reads them; the result is right exactly when they equal the head of the
  last full block (`XtsMode.InPlaceRight`, `XtsMode.InPlaceSpoils`).
- An empty SEQUENCE OF leaves the caller's first cell as it was (`Asn1Sequence.GetSequenceOf`).

## Model

| member | source | states |
|---|---|---|
| MpiCore.Copy | bootloader/ATF/mbedtls-2.18.0/library/bignum.c:191-228 | the copied integer, whatever the two sizes and also when both are one object; an empty source empties the target |
| MpiCore.CmpMpi | bootloader/ATF/mbedtls-2.18.0/library/bignum.c:1114-1144 | -1, 0 or 1 as the signed integers compare, for any number of leading zero limbs and either sign of zero |
| MpiCore.CmpAbs | bootloader/ATF/mbedtls-2.18.0/library/bignum.c:1082-1109 | the same for absolute values |
| MpiBits.Bitlen | bootloader/ATF/mbedtls-2.18.0/library/bignum.c:414-428 | r with 2^(r-1) <= abs(X) < 2^r, and 0 for 0 |
| MpiBits.Lsb | bootloader/ATF/mbedtls-2.18.0/library/bignum.c:380-391 | abs(X) is 2^count times an odd number |
| MpiBits.ShiftL | bootloader/ATF/mbedtls-2.18.0/library/bignum.c:987-1033 | abs(X) times 2^count; a limb is added only if it is needed |
| MpiBits.ShiftR | bootloader/ATF/mbedtls-2.18.0/library/bignum.c:1038-1077 | abs(X) divided by 2^count and floored, sign kept unless everything is shifted out |
| MpiArith.AddAbs | bootloader/ATF/mbedtls-2.18.0/library/bignum.c:1166-1220 | the sum of the absolute values, carry out of the top included, also when X is A or B or both |
| MpiArith.SubAbs | bootloader/ATF/mbedtls-2.18.0/library/bignum.c:1246-1287 | their difference, or NEGATIVE_VALUE with X untouched |
| MpiArith.AddMpi | bootloader/ATF/mbedtls-2.18.0/library/bignum.c:1292-1322 | the integer sum for every sign combination and every aliasing of X, A and B |
| MpiArith.SubMpi | bootloader/ATF/mbedtls-2.18.0/library/bignum.c:1327-1357 | the integer difference, likewise |
| MpiArith.MulAddHalves | bootloader/ATF/mbedtls-2.18.0/library/bignum.c:1406-1465 | the limb step computed from half words is the double-width step d + s * b + c, both halves of it |
| MpiArith.MulHlp | bootloader/ATF/mbedtls-2.18.0/library/bignum.c:1406-1465 | d += s * b in place with the carry rippling up; limbs below the offset stay |
| MpiArith.MulMpi | bootloader/ATF/mbedtls-2.18.0/library/bignum.c:1470-1505 | the integer product, also when X is A, B or both |
| WordDiv.IntDivIntWide | bootloader/ATF/mbedtls-2.18.0/library/bignum.c:1545-1562 | the floor quotient and remainder of a two-limb dividend, all ones if it would not fit a limb |
| WordDiv.IntDivIntHalves | bootloader/ATF/mbedtls-2.18.0/library/bignum.c:1545-1617 | the half-word path of Algorithm D returns exactly the quotient and remainder of the double-width path |
| MpiDivision.TestKeepsFeasible | bootloader/ATF/mbedtls-2.18.0/library/bignum.c:1690-1700 | the three-limb test never rejects a digit that is not too large |
| MpiDivision.TestBoundsDigit | bootloader/ATF/mbedtls-2.18.0/library/bignum.c:1690-1700 | a digit that passes the three-limb test is at most one too large |
| MpiDivision.EstimateDigit | bootloader/ATF/mbedtls-2.18.0/library/bignum.c:1677-1700 | the estimate loop ends with the largest digit that passes the three-limb test |
| MpiDivision.DivLoop | bootloader/ATF/mbedtls-2.18.0/library/bignum.c:1675-1713 | every quotient digit keeps X + Z * Y, and X ends below Y |
| MpiDivision.LongDivide | bootloader/ATF/mbedtls-2.18.0/library/bignum.c:1655-1725 | normalising, the top digit and the loop together divide: quotient, and remainder below the divisor |
| MpiDivision.SignsDecide | bootloader/ATF/mbedtls-2.18.0/library/bignum.c:1715-1729 | with Q in the place of an input the identity holds exactly when that input had sign 1, or had nothing to contribute |
| MpiDivision.DivMpi | bootloader/ATF/mbedtls-2.18.0/library/bignum.c:1624-1737 | the truncated quotient and the remainder, either of which may be absent, with any of the four numbers in one object; A = Q * B + R if and only if the signs survive Q being written first; abs(R) < abs(B); B = 0 changes nothing |
| MpiDivision.DivInt | bootloader/ATF/mbedtls-2.18.0/library/bignum.c:1742-1756 | the same for a one-word divisor |
| MpiDivision.ModMpi | bootloader/ATF/mbedtls-2.18.0/library/bignum.c:1761-1782 | the residue in [0, B), also for negative A; errors for B < 0 and B = 0 leave R alone |
| MpiModInt.ModInt | bootloader/ATF/mbedtls-2.18.0/library/bignum.c:1787-1841 | the residue the half-limb loop folds out of A, and A mod b whenever b fits half a word or is a power of two |
| MpiModInt.RightExactlyWhenSafe | bootloader/ATF/mbedtls-2.18.0/library/bignum.c:1814-1826 | the loop gives A mod b for every A if and only if b fits half a word or is a power of two |
| MpiModInt.TrapFolds | bootloader/ATF/mbedtls-2.18.0/library/bignum.c:1814-1826 | the input that fails otherwise: half a word in the second limb folds to 0 for every larger b |
| MpiModInt.FoldedIsRemainder | bootloader/ATF/mbedtls-2.18.0/library/bignum.c:1814-1826 | dropping what leaves the limb is harmless for those divisors |
| Montgomery.MontgInit | bootloader/ATF/mbedtls-2.18.0/library/bignum.c:1846-1858 | N[0] * mm is -1 modulo the limb base, for every odd N and both limb widths |
| Montgomery.MontRow | bootloader/ATF/mbedtls-2.18.0/library/bignum.c:1879-1890 | one row clears the lowest limb and keeps the running total inside T |
| Montgomery.MontMul | bootloader/ATF/mbedtls-2.18.0/library/bignum.c:1863-1901 | A * R is congruent to A0 * B0 modulo N and A < N, nothing leaves the 2(n+1) limbs of T, a short T is refused |
| Montgomery.MontRed | bootloader/ATF/mbedtls-2.18.0/library/bignum.c:1906-1916 | A * R is congruent to A0 modulo N, and A < N |
| MpiExpMod.BuildTable | bootloader/ATF/mbedtls-2.18.0/library/bignum.c:2009-2032 | every window entry holds its power of A in Montgomery form |
| MpiExpMod.AbsorbBit | bootloader/ATF/mbedtls-2.18.0/library/bignum.c:2054-2095 | each exponent bit keeps: X holds A to the bits done, the pending window holds the rest |
| MpiExpMod.MainLoop | bootloader/ATF/mbedtls-2.18.0/library/bignum.c:2034-2096 | after all bits only the pending window is missing |
| MpiExpMod.Tail | bootloader/ATF/mbedtls-2.18.0/library/bignum.c:2101-2109 | the leftover bits complete the exponent |
| MpiExpMod.ExpMod | bootloader/ATF/mbedtls-2.18.0/library/bignum.c:1921-2133 | for odd N > 0, E >= 0, any A and a right or absent cache, X is congruent to A^E modulo N and 0 <= X <= N; X is N itself if and only if A is negative, E odd and N divides the power; errors change nothing; the cache ends as R^2 mod N |
| MpiGcd.GcdStep | bootloader/ATF/mbedtls-2.18.0/library/bignum.c:2166-2178 | one round keeps the gcd of the two numbers and makes their sum smaller |
| MpiGcd.GcdLoop | bootloader/ATF/mbedtls-2.18.0/library/bignum.c:2164-2179 | the binary loop ends with the gcd |
| MpiGcd.GcdMpi | bootloader/ATF/mbedtls-2.18.0/library/bignum.c:2138-2189 | G = gcd(abs(A), abs(B)) if and only if B is not 0 or A is 0 too; with B = 0 it answers 0 |
| MpiGcd.HalveWhileEven | bootloader/ATF/mbedtls-2.18.0/library/bignum.c:2266-2278 | the inner loops make the row odd and keep u1 * TA + u2 * TB = u |
| MpiGcd.InvStep | bootloader/ATF/mbedtls-2.18.0/library/bignum.c:2264-2307 | one round keeps U1 * TA + U2 * TB = TU and V1 * TA + V2 * TB = TV and makes TU + TV smaller |
| MpiGcd.InvMod | bootloader/ATF/mbedtls-2.18.0/library/bignum.c:2231-2324 | BAD_INPUT_DATA for N <= 1, NOT_ACCEPTABLE if and only if gcd(A, N) is not 1, else X in [0, N) with A * X congruent to 1 |
| Numbers.GcdUnique | bootloader/ATF/mbedtls-2.18.0/library/bignum.c:2138-2189 | the gcd used above is the one divisor every common divisor divides |
| MpiText.DigitsAreHex | bootloader/ATF/mbedtls-2.18.0/library/bignum.c:441-453 | the digits are 0 to 9 and A to F; lower case is read as well |
| MpiText.ReadString | bootloader/ATF/mbedtls-2.18.0/library/bignum.c:458-527 | succeeds on exactly the strings of digits of the radix with at most a leading minus, with the integer they spell |
| MpiText.ReadHex | bootloader/ATF/mbedtls-2.18.0/library/bignum.c:484-494 | radix 16 fills limbs from the right and agrees with the positional reading |
| MpiText.WriteHlp | bootloader/ATF/mbedtls-2.18.0/library/bignum.c:532-566 | repeated division spells the number, in no more characters than digits are needed |
| MpiText.WriteHex | bootloader/ATF/mbedtls-2.18.0/library/bignum.c:615-634 | radix 16 spells the number limb by limb, leading zero bytes skipped |
| MpiText.WriteString | bootloader/ATF/mbedtls-2.18.0/library/bignum.c:571-653 | a spelling of X with its sign; refused exactly when the buffer is below the computed size, which is then reported |
| MpiText.NeededCovers | bootloader/ATF/mbedtls-2.18.0/library/bignum.c:585-598 | for radix 2 to 15 the computed size holds all digits, a sign and the terminator |
| MpiText.NeededCoversHex | bootloader/ATF/mbedtls-2.18.0/library/bignum.c:585-598 | the same for radix 16, written in whole bytes |
| MpiText.SpelledParses | bootloader/ATF/mbedtls-2.18.0/library/bignum.c:441-653 | every spelling the writer may produce parses to the same signed integer |
| MpiText.WriteThenRead | bootloader/ATF/mbedtls-2.18.0/library/bignum.c:458-653 | any MPI with a limb, written in any radix from 2 to 16, reads back as itself |
| MpiBytes.ReadBinary | bootloader/ATF/mbedtls-2.18.0/library/bignum.c:860-897 | the big-endian value, in exactly the limbs needed, one for no bytes at all |
| MpiBytes.ByteIs | bootloader/ATF/mbedtls-2.18.0/library/bignum.c:345-346 | byte i of the limbs is byte i of the number |
| MpiBytes.WriteBinary | bootloader/ATF/mbedtls-2.18.0/library/bignum.c:941-982 | the big-endian bytes of X, zero-extended; refused exactly when X does not fit; nothing else in the buffer changes |
| MpiBytes.BytesOfRead | bootloader/ATF/mbedtls-2.18.0/library/bignum.c:860-982 | reading the bytes of a number gives the number |
| Dhm.CheckRange | bootloader/ATF/mbedtls-2.18.0/library/dhm.c:106-125 | 2 <= param <= P - 2 |
| Dhm.BelowIsShifted | bootloader/ATF/mbedtls-2.18.0/library/dhm.c:375-376 | the shifts drop the k low bits for the smallest k that brings the draw below P |
| Dhm.Context.DrawVi | bootloader/ATF/mbedtls-2.18.0/library/dhm.c:369-381 | eleven draws are tried; with none above 1 the call refuses and leaves the twelfth, reduced, as Vi |
| Dhm.Context.SetGroup | bootloader/ATF/mbedtls-2.18.0/library/dhm.c:238-255 | P and G are stored and len is the number of bytes of P; without a cached RP the context is usable, and without a remembered X good |
| Dhm.Context.MakePublic | bootloader/ATF/mbedtls-2.18.0/library/dhm.c:279-324 | the first of eleven draws below P and in [2, P-2] is X, and GX = G^X mod P; each refusal exactly when |
| Dhm.Context.FreshPair | bootloader/ATF/mbedtls-2.18.0/library/dhm.c:365-385 | Vi is what was drawn; refused exactly when no draw will do, Vi has no inverse or P is even, with what Vf is left; else Vi^X * Vf = 1 mod P |
| Dhm.Context.UpdateBlinding | bootloader/ATF/mbedtls-2.18.0/library/dhm.c:332-389 | a successful call is one of three steps: new X with a trivial pair, both squared, or a fresh pair; a call is refused for want of a pair exactly when it needs one and the draws give none, and then leaves a new Vi with the old Vf |
| Dhm.StepKeepsPair | bootloader/ATF/mbedtls-2.18.0/library/dhm.c:332-389 | each step keeps Vi^X * Vf = 1 mod P for the X remembered |
| Dhm.Unblinds | bootloader/ATF/mbedtls-2.18.0/library/dhm.c:414-432 | blinding, exponentiating and unblinding give GY^X mod P |
| Dhm.EveryRunExportsThePower | bootloader/ATF/mbedtls-2.18.0/library/dhm.c:332-445 | over every run of calls, X changing at will and refused calls leaving a root of 1 as Vi, each exported secret is GY^X mod P |
| Dhm.LeftoverGood | bootloader/ATF/mbedtls-2.18.0/library/dhm.c:365-388 | the pair a refused call leaves is good if and only if the leftover Vi is an X-th root of 1 mod P |
| Dhm.ExportIs | bootloader/ATF/mbedtls-2.18.0/library/dhm.c:414-432 | what any pair, good or not, makes a call export, and that it is GY^X mod P if and only if GY^X * (Vi^X * Vf) is GY^X |
| Dhm.NextExportRight | bootloader/ATF/mbedtls-2.18.0/library/dhm.c:350-363 | the call after a refused one squares the leftover; for GY coprime to P its export is right if and only if the leftover is a 2X-th root of 1 |
| Dhm.RetryAfterZeroDraws | bootloader/ATF/mbedtls-2.18.0/library/dhm.c:350-363 | a leftover 0 stays 0 and every later export with the same X is 0 |
| Dhm.CallAfterRefusal | bootloader/ATF/mbedtls-2.18.0/library/dhm.c:332-445 | with useless draws a call is refused and the next succeeds with the square of the last draw for a pair: what it exports |
| Dhm.WrongExportAfterRefusal | bootloader/ATF/mbedtls-2.18.0/library/dhm.c:332-445 | a reachable run with P = 11, X = 2, GY = 2: after the refused call the export is 0 or 5, by the last draw, instead of 4 |
| Dhm.NoPairWithoutInverse | bootloader/ATF/mbedtls-2.18.0/library/dhm.c:383-385 | a Vi with a common factor with P has no matching Vf |
| Dhm.Context.CalcSecret | bootloader/ATF/mbedtls-2.18.0/library/dhm.c:394-445 | each of the four answers exactly when; the exported K is GY^X mod P with or without blinding from a good pair, and the blinded computation with whatever pair there is; without an rng the pair is untouched |
| Dhm.Agreement | bootloader/ATF/mbedtls-2.18.0/library/dhm.c:391-445 | both sides derive the same secret |
| Ecdsa.DeriveMpi | bootloader/ATF/mbedtls-2.18.0/library/ecdsa.c:229-246 | the leftmost bits of the hash modulo n: one subtraction suffices |
| Ecdsa.PickR | bootloader/ATF/mbedtls-2.18.0/library/ecdsa.c:308-329 | k in (0, n) and r = x(kG) mod n, not 0 |
| Ecdsa.ComputeS | bootloader/ATF/mbedtls-2.18.0/library/ecdsa.c:346-363 | s * k is congruent to z + r * d modulo n although k is blinded by t |
| Ecdsa.ZeroTogether | bootloader/ATF/mbedtls-2.18.0/library/ecdsa.c:346-365 | s is 0, and another k is asked for, exactly when z + r * d is 0 modulo n |
| Ecdsa.Sign | bootloader/ATF/mbedtls-2.18.0/library/ecdsa.c:253-379 | INVALID_KEY exactly when d is not in [1, n); success exactly when the supply holds a k that makes neither r nor s zero, and then the signature with that k |
| Ecdsa.RecoverK | bootloader/ATF/mbedtls-2.18.0/library/ecdsa.c:538-549 | u1 + u2 * d is the k the signer drew, modulo n |
| Ecdsa.SamePoint | bootloader/ATF/mbedtls-2.18.0/library/ecdsa.c:557-560 | u1 G + u2 Q is then kG |
| Ecdsa.AcceptsOnlyWith | bootloader/ATF/mbedtls-2.18.0/library/ecdsa.c:523-582 | which inverse of s is used makes no difference |
| Ecdsa.HashIsLeftmost | bootloader/ATF/mbedtls-2.18.0/library/ecdsa.c:229-246 | the scalar of a hash is its leftmost bits, as many as n has, modulo n |
| Ecdsa.AcceptedIsSignature | bootloader/ATF/mbedtls-2.18.0/library/ecdsa.c:489-592 | whatever is accepted for Q = dG has r and s in range and satisfies the signature equation under d |
| Ecdsa.AcceptsExactlySignatures | bootloader/ATF/mbedtls-2.18.0/library/ecdsa.c:489-592 | the verifier's test and the signature equation are equivalent |
| Ecdsa.Verify | bootloader/ATF/mbedtls-2.18.0/library/ecdsa.c:489-592 | for a key pair Q = dG it succeeds if and only if r and s are in [1, n) and r is the x-coordinate mod n of a kG whose k satisfies the signature equation under d; for any other point, if and only if the computed point is not zero and its x-coordinate mod n is r |
| Ecdsa.SignatureVerifies | bootloader/ATF/mbedtls-2.18.0/library/ecdsa.c:229-592 | for any group of prime order, every signature made with d is accepted for Q = dG |
| Ecdsa.SignThenVerify | bootloader/ATF/mbedtls-2.18.0/library/ecdsa.c:253-592 | signing and verifying the same hash agree, and r and s are in [1, n-1] |
| Ehf.HighestIsTop | bootloader/ATF/arm-trusted-firmware-2.3/bl31/ehf.c:80-87 | the lowest set bit is the top of the stack, and no bit means an empty stack |
| Ehf.PushBit | bootloader/ATF/arm-trusted-firmware-2.3/bl31/ehf.c:132-132 | setting a lower bit pushes a level |
| Ehf.PopBit | bootloader/ATF/arm-trusted-firmware-2.3/bl31/ehf.c:193-199 | clearing the lowest bit pops one |
| Ehf.LevelBits | bootloader/ATF/arm-trusted-firmware-2.3/include/bl31/ehf.h:23-25 | for every number of priority bits, bit i of the level is bit i + 7 - bits of the priority, and no other bit is set |
| Ehf.LevelRange | bootloader/ATF/arm-trusted-firmware-2.3/bl31/ehf.c:38-53 | level i is exactly the priorities from IDX_TO_PRI(i) up to the next level |
| Ehf.Pe.HighestActive | bootloader/ATF/arm-trusted-firmware-2.3/bl31/ehf.c:80-87 | the level activated last and still open, or -1 |
| Ehf.Pe.ActivatePriority | bootloader/ATF/arm-trusted-firmware-2.3/bl31/ehf.c:99-154 | panics exactly outside the specification step, otherwise makes that step |
| Ehf.Pe.DeactivatePriority | bootloader/ATF/arm-trusted-firmware-2.3/bl31/ehf.c:166-218 | likewise for deactivation |
| Ehf.Pe.ExitedWorld | bootloader/ATF/arm-trusted-firmware-2.3/bl31/ehf.c:231-261 | likewise when the normal world is left |
| Ehf.Pe.EnteringWorld | bootloader/ATF/arm-trusted-firmware-2.3/bl31/ehf.c:274-313 | likewise when it is entered again |
| Ehf.Pe.AllowPreemption | bootloader/ATF/arm-trusted-firmware-2.3/bl31/ehf.c:326-359 | likewise for allowing preemption |
| Ehf.Pe.IsNsPreemptionAllowed | bootloader/ATF/arm-trusted-firmware-2.3/bl31/ehf.c:365-388 | exactly when the running priority is non-secure, nothing is active and no mask is stashed |
| Ehf.StackIsOutstanding | bootloader/ATF/arm-trusted-firmware-2.3/bl31/ehf.c:99-218 | in every panic-free run the set bits are the outstanding activations, higher priorities on top |
| Ehf.EveryLevelHasAnOpener | bootloader/ATF/arm-trusted-firmware-2.3/bl31/ehf.c:99-218 | each open level was opened by one activation of the run that is still unmatched |
| Ehf.ReleaseIsLifo | bootloader/ATF/arm-trusted-firmware-2.3/bl31/ehf.c:166-218 | a deactivation closes the youngest open activation, of the same level, and leaves what was open before it |
| Ehf.SavedMaskIsKept | bootloader/ATF/arm-trusted-firmware-2.3/bl31/ehf.c:150-151 | while anything is open the saved mask is the one before the outermost activation |
| Ehf.EmptyStackRestoresMask | bootloader/ATF/arm-trusted-firmware-2.3/bl31/ehf.c:99-218 | when the stack empties, the mask is what it was before the first activation |
| Ehf.MaskBackOnlyWhenOutermost | bootloader/ATF/arm-trusted-firmware-2.3/bl31/ehf.c:201-209 | an activation and its release restore the mask if and only if nothing was open; otherwise the mask stays at the level just dropped |
| Ehf.InnerReleaseKeepsDroppedLevel | bootloader/ATF/arm-trusted-firmware-2.3/bl31/ehf.c:206-209 | a concrete nested run after which the mask is still the inner level |
| Ehf.StayKeepsStash | bootloader/ATF/arm-trusted-firmware-2.3/bl31/ehf.c:231-359 | during a stay in the secure world the stash and the mask between them keep the normal-world mask |
| Ehf.WorldSwitchRestoresMask | bootloader/ATF/arm-trusted-firmware-2.3/bl31/ehf.c:231-313 | leaving the normal world, any balanced run and entering it again restores its mask, and does not panic |
| XtsMode.WordsAreTimesX | bootloader/ATF/mbedtls-2.18.0/library/aes.c:1153-1166 | the two 64-bit words with their carry and 0x87 are multiplication by x in GF(2^128) |
| Blocks.BytewiseIsTimesX | bootloader/ATF/mbedtls-2.18.0/library/aes.c:1146-1166 | a byte-wise shift with the polynomial folded in is multiplication by x of polynomials over GF(2) |
| Blocks.TimesXUnique | bootloader/ATF/mbedtls-2.18.0/library/aes.c:1146-1166 | that product is unique |
| XtsMode.GfMulXBle | bootloader/ATF/mbedtls-2.18.0/library/aes.c:1153-1166 | the tweak is multiplied by x, also in place |
| XtsMode.FullBlocks | bootloader/ATF/mbedtls-2.18.0/library/aes.c:1207-1237 | the loop over whole blocks, with the swapped tweaks of the last one in decryption, also in place |
| XtsMode.Steal | bootloader/ATF/mbedtls-2.18.0/library/aes.c:1239-1273 | ciphertext stealing for the leftover bytes; in place it reads the bytes it has just written |
| XtsMode.BlockHasItsTweak | bootloader/ATF/mbedtls-2.18.0/library/aes.c:1207-1237 | block j is whitened before and after with the tweak multiplied j times by x modulo x^128 + x^7 + x^2 + x + 1 |
| XtsMode.StolenTweaks | bootloader/ATF/mbedtls-2.18.0/library/aes.c:1217-1273 | the last block and the stolen one have tweaks m - 1 and m, exchanged for decryption |
| XtsMode.CryptXts | bootloader/ATF/mbedtls-2.18.0/library/aes.c:1171-1275 | the XTS specification for every length from 16 bytes to 2^20 blocks, other lengths refused unchanged; in place with leftover bytes, XTS of the unit whose leftover is the head of the last full block |
| XtsMode.StolenPairUndone | bootloader/ATF/mbedtls-2.18.0/library/aes.c:1239-1273 | the last block and a half round-trip in both directions |
| XtsMode.XtsRoundTrip | bootloader/ATF/mbedtls-2.18.0/library/aes.c:1171-1275 | for any block permutation, tweak and length XTS decryption undoes encryption and the reverse |
| XtsMode.UnitEndsWithHead | bootloader/ATF/mbedtls-2.18.0/library/aes.c:1253-1273 | the last bytes of a unit are the head of the last full block, whatever the leftover bytes were |
| XtsMode.InPlaceRight | bootloader/ATF/mbedtls-2.18.0/library/aes.c:1253-1273 | in place a call is right if and only if there are no leftover bytes or they equal that head |
| XtsMode.InPlaceSpoils | bootloader/ATF/mbedtls-2.18.0/library/aes.c:1253-1273 | for any cipher and tweak, 17 bytes with another last byte come out wrong in place |
| AesField.EveryByteIsAPower | bootloader/ATF/mbedtls-2.18.0/library/aes.c:413-418 | 3 generates all of GF(2^8) without 0, so the log table has no gap |
| AesField.GMulAssoc | bootloader/ATF/mbedtls-2.18.0/library/aes.c:399-400 | the product the tables compute is associative |
| AesField.InvUnique | bootloader/ATF/mbedtls-2.18.0/library/aes.c:437-437 | pow[255 - log] is the one inverse |
| AesSbox.AffineIsAffine | bootloader/ATF/mbedtls-2.18.0/library/aes.c:439-443 | the four rotations are the affine map of FIPS 197, bit by bit |
| AesSbox.SubByteUndone | bootloader/ATF/mbedtls-2.18.0/library/aes.c:432-447 | the reverse S-box undoes the forward one and the reverse |
| AesField.XtimeIsTimesX | bootloader/ATF/mbedtls-2.18.0/library/aes.c:399 | XTIME is the product by x modulo x^8 + x^4 + x^3 + x + 1 |
| AesTables.Powers | bootloader/ATF/mbedtls-2.18.0/library/aes.c:413-418 | pow and log are the powers of 3 and their inverse |
| AesTables.SBoxes | bootloader/ATF/mbedtls-2.18.0/library/aes.c:432-447 | FSb is inversion and the affine map, RSb its inverse |
| AesTables.RconBytes | bootloader/ATF/mbedtls-2.18.0/library/aes.c:423-427 | the round constants are 01 02 04 08 10 20 40 80 1B 36 |
| AesTables.RoundConstants | bootloader/ATF/mbedtls-2.18.0/library/aes.c:423-427 | the loop stores these ten |
| AesTables.GenTables | bootloader/ATF/mbedtls-2.18.0/library/aes.c:404-482 | every table holds what FIPS 197 makes of its index: S-boxes, the ten round constants as numbers, the columns and their rotations |
| AesCode.ForwardSum | bootloader/ATF/mbedtls-2.18.0/library/aes.c:818-840 | four table words and a key word are ShiftRows, SubBytes, MixColumns and AddRoundKey for a column |
| AesCode.ReverseSum | bootloader/ATF/mbedtls-2.18.0/library/aes.c:842-864 | likewise for the inverse round |
| AesCode.EncryptBlock | bootloader/ATF/mbedtls-2.18.0/library/aes.c:870-922 | the T-table code computes the cipher of section 5.1 of FIPS 197 |
| AesCode.DecryptBlock | bootloader/ATF/mbedtls-2.18.0/library/aes.c:938-990 | and the equivalent inverse cipher of section 5.3.5 |
| AesKeys.Expand128 | bootloader/ATF/mbedtls-2.18.0/library/aes.c:603-617 | ten rounds of words are the FIPS 197 key expansion |
| AesKeys.Expand192 | bootloader/ATF/mbedtls-2.18.0/library/aes.c:619-635 | likewise for 192 bits |
| AesKeys.Expand256 | bootloader/ATF/mbedtls-2.18.0/library/aes.c:637-661 | likewise for 256 bits, with the extra substitution |
| AesKeys.ExpansionFirst | bootloader/ATF/mbedtls-2.18.0/library/aes.c:596-661 | KeyExpansion byte by byte where a round constant enters, the constants as numbers |
| AesKeys.ExpansionOther | bootloader/ATF/mbedtls-2.18.0/library/aes.c:596-661 | and everywhere else, with the extra substitution of 256-bit keys |
| AesKeys.ScheduleStarts | bootloader/ATF/mbedtls-2.18.0/library/aes.c:596-599 | the expansion starts with the key, and round key j is its words 4j to 4j + 3 |
| AesKeys.SetKeyEnc | bootloader/ATF/mbedtls-2.18.0/library/aes.c:556-665 | the expansion of the key and its number of rounds; other key lengths are refused |
| AesKeys.MixedWordIs | bootloader/ATF/mbedtls-2.18.0/library/aes.c:721-724 | the S-box looked up through the reverse tables is InvMixColumns |
| AesKeys.SetKeyDec | bootloader/ATF/mbedtls-2.18.0/library/aes.c:672-737 | the reversed schedule with InvMixColumns on all but the outer keys |
| AesCipher.RoundBytes | bootloader/ATF/mbedtls-2.18.0/library/aes.c:818-840 | the first column of a round, byte by byte in the terms of FIPS 197 |
| AesCipher.RoundTurns | bootloader/ATF/mbedtls-2.18.0/library/aes.c:818-840 | a round commutes with turning the columns, so the other columns follow |
| AesCipher.LastRoundBytes | bootloader/ATF/mbedtls-2.18.0/library/aes.c:892-914 | likewise for the last round, which does not mix |
| AesCipher.UnmixColumn | bootloader/ATF/mbedtls-2.18.0/library/aes.c:818-864 | InvMixColumns undoes MixColumns |
| AesCipher.InvMixColumnsAdd | bootloader/ATF/mbedtls-2.18.0/library/aes.c:717-726 | InvMixColumns distributes over key addition |
| AesCipher.RoundsPeel | bootloader/ATF/mbedtls-2.18.0/library/aes.c:952-958 | round n of decryption meets the state encryption had after its round Nr - n |
| AesCipher.DecryptsEncrypted | bootloader/ATF/mbedtls-2.18.0/library/aes.c:870-990 | for any round keys the equivalent inverse cipher undoes the cipher |
| AesCipher.EncryptsDecrypted | bootloader/ATF/mbedtls-2.18.0/library/aes.c:870-990 | and the other way round |
| AesKeys.AesIsAPermutation | bootloader/ATF/mbedtls-2.18.0/library/aes.c:556-990 | for every 128, 192 and 256-bit key, AES is a permutation of blocks and setkey_dec gives its inverse |
| Octets.ValueIs | bootloader/ATF/mbedtls-2.18.0/library/blowfish.c:87-98 | a byte indexes a box by its unsigned value |
| Blowfish.FOfBytes | bootloader/ATF/mbedtls-2.18.0/library/blowfish.c:83-100 | F is ((S0[a] + S1[b]) ^ S2[c]) + S3[d] of the four bytes, most significant first |
| Blowfish.Enc | bootloader/ATF/mbedtls-2.18.0/library/blowfish.c:102-129 | the loop is the 16-round network under P |
| Blowfish.Dec | bootloader/ATF/mbedtls-2.18.0/library/blowfish.c:131-158 | the descending loop is the same network under P reversed |
| Blowfish.Retrace | bootloader/ATF/mbedtls-2.18.0/library/blowfish.c:102-158 | after n rounds of decryption the halves are those of encryption n rounds before its end |
| Blowfish.BackwardUndoes | bootloader/ATF/mbedtls-2.18.0/library/blowfish.c:83-158 | for any P and S decryption undoes encryption |
| Blowfish.CryptEcb | bootloader/ATF/mbedtls-2.18.0/library/blowfish.c:239-267 | the block function on big-endian bytes, also in place |
| Blowfish.BlowfishIsAPermutation | bootloader/ATF/mbedtls-2.18.0/library/blowfish.c:83-267 | both directions, on bytes |
| DesCipher.IpIsInitialPermutation | bootloader/ATF/mbedtls-2.18.0/library/des.c:260-270 | DES_IP is the initial permutation table of FIPS 46-3, bit by bit, with both halves rotated left by one |
| DesCipher.FIsCipherFunction | bootloader/ATF/mbedtls-2.18.0/library/des.c:290-304 | DES_ROUND adds the cipher function of FIPS 46-3: each box sees its six neighbouring bits of the half and its six bits of the subkey |
| DesCipher.FpUndoesIp | bootloader/ATF/mbedtls-2.18.0/library/des.c:260-286 | DES_FP undoes DES_IP |
| DesCipher.IpUndoesFp | bootloader/ATF/mbedtls-2.18.0/library/des.c:260-286 | and the other way round |
| DesCipher.RoundsBack | bootloader/ATF/mbedtls-2.18.0/library/des.c:290-304 | any rounds are undone by the same rounds with the subkeys reversed |
| DesCipher.DesUndone | bootloader/ATF/mbedtls-2.18.0/library/des.c:633-659 | for any boxes and subkeys DES undoes itself with reversed subkeys |
| DesCipher.Des3Undone | bootloader/ATF/mbedtls-2.18.0/library/des.c:720-758 | likewise for 3DES |
| DesCipher.Des3OfOneKey | bootloader/ATF/mbedtls-2.18.0/library/des.c:720-758 | with one key in all three places 3DES is DES |
| DesCipher.Des3IsThreeDes | bootloader/ATF/mbedtls-2.18.0/library/des.c:720-758 | 3DES is DES three times over: the permutations in between cancel |
| DesCipher.DesCryptEcb | bootloader/ATF/mbedtls-2.18.0/library/des.c:633-659 | the code computes that function of the schedule in memory |
| DesCipher.Des3CryptEcb | bootloader/ATF/mbedtls-2.18.0/library/des.c:720-758 | likewise |
| DesCipher.DesSetKeyDec | bootloader/ATF/mbedtls-2.18.0/library/des.c:510-523 | swapping pairs of words reverses the subkeys |
| DesCipher.Set3Key | bootloader/ATF/mbedtls-2.18.0/library/des.c:578-599 | the two schedules are K1, K2 reversed, K3 and their reverse |
| DesCipher.Set2Key | bootloader/ATF/mbedtls-2.18.0/library/des.c:525-548 | likewise with K3 = K1 |
| DesCipher.Des3IsAPermutation | bootloader/ATF/mbedtls-2.18.0/library/des.c:260-758 | the decryption schedule inverts the encryption one, on bytes |
| CamelliaCipher.FIsRfcF | bootloader/ATF/mbedtls-2.18.0/library/camellia.c:303-324 | camellia_feistel adds the F-function of RFC 3713: the eight boxes, then the byte sums of its P-layer |
| CamelliaCipher.FlIsRfcFl | bootloader/ATF/mbedtls-2.18.0/library/camellia.c:274-278 | FL by the equations of RFC 3713 |
| CamelliaCipher.FlUndone | bootloader/ATF/mbedtls-2.18.0/library/camellia.c:274-284 | FL and FLInv undo each other |
| CamelliaCipher.LayerBack | bootloader/ATF/mbedtls-2.18.0/library/camellia.c:548-553 | a layer is undone by the layer with its two keys swapped |
| CamelliaCipher.GroupsBack | bootloader/ATF/mbedtls-2.18.0/library/camellia.c:533-554 | all groups and layers are undone by the reversed keys |
| CamelliaCipher.ReorderedUndoes | bootloader/ATF/mbedtls-2.18.0/library/camellia.c:505-567 | for any round keys the reordered schedule makes the cipher its own inverse |
| CamelliaCipher.ReorderedTwice | bootloader/ATF/mbedtls-2.18.0/library/camellia.c:475-494 | reordering twice changes nothing |
| CamelliaCipher.Reorder | bootloader/ATF/mbedtls-2.18.0/library/camellia.c:475-494 | the pointer walk produces the reordered schedule for both key sizes |
| CamelliaCipher.CryptEcb | bootloader/ATF/mbedtls-2.18.0/library/camellia.c:505-567 | the in-place words compute the specification |
| CamelliaCipher.CamelliaIsAPermutation | bootloader/ATF/mbedtls-2.18.0/library/camellia.c:274-567 | both directions, on bytes |
| AriaCipher.AriaA | bootloader/ATF/mbedtls-2.18.0/library/aria.c:207-229 | the byte swaps and xors are the diffusion matrix of ARIA |
| AriaCipher.DiffuseTwice | bootloader/ATF/mbedtls-2.18.0/library/aria.c:207-229 | the layer is an involution |
| AriaCipher.DiffuseAdd | bootloader/ATF/mbedtls-2.18.0/library/aria.c:207-229 | and linear |
| AriaCipher.SlQuadIs | bootloader/ATF/mbedtls-2.18.0/library/aria.c:239-260 | the substitution layer on words is the one on bytes |
| AriaCipher.SubBack | bootloader/ATF/mbedtls-2.18.0/library/aria.c:239-260 | odd and even substitution layers undo each other |
| AriaCipher.CryptQuad | bootloader/ATF/mbedtls-2.18.0/library/aria.c:561-589 | the loop computes the specification |
| AriaCipher.CryptEcb | bootloader/ATF/mbedtls-2.18.0/library/aria.c:545-597 | the same on sixteen bytes, also in place |
| AriaCipher.TurnKeys | bootloader/ATF/mbedtls-2.18.0/library/aria.c:521-537 | flipping and diffusing the middle keys gives the turned schedule |
| AriaCipher.Peel | bootloader/ATF/mbedtls-2.18.0/library/aria.c:545-597 | round j of decryption meets the state encryption had j rounds before its end |
| AriaCipher.TurnedUndoes | bootloader/ATF/mbedtls-2.18.0/library/aria.c:207-597 | for any round keys the turned schedule decrypts |
| AriaCipher.AriaIsAPermutation | bootloader/ATF/mbedtls-2.18.0/library/aria.c:207-597 | both directions |
| CbcMode.CbcBlocks | bootloader/ATF/mbedtls-2.18.0/library/aes.c:1043-1109 | every block meets the ciphertext block before it, the first one the iv, in both directions |
| CbcMode.IvIsLastCiphertext | bootloader/ATF/mbedtls-2.18.0/library/aes.c:1043-1109 | the next iv is the last ciphertext block, in both directions |
| CbcMode.CryptCbc | bootloader/ATF/mbedtls-2.18.0/library/aes.c:1043-1109 | the CBC chain and the last block as next iv, between distinct buffers or in place; a partial block is refused unchanged |
| CbcMode.CbcConcat | bootloader/ATF/mbedtls-2.18.0/library/aes.c:1043-1109 | two calls in a row are one call on the concatenation |
| CbcMode.CbcRoundTrip | bootloader/ATF/mbedtls-2.18.0/library/aes.c:1043-1109 | for any block permutation decryption undoes encryption |
| Padding.AddPadding | bootloader/ATF/mbedtls-2.18.0/library/cipher.c:768-894 | the four schemes fill the block after the data |
| Padding.GetPkcs | bootloader/ATF/mbedtls-2.18.0/library/cipher.c:778-801 | the branch-free check accepts exactly the blocks with PKCS#7 padding and finds its start |
| Padding.GetOneAndZeros | bootloader/ATF/mbedtls-2.18.0/library/cipher.c:819-840 | likewise for one-and-zeros |
| Padding.GetZerosAndLen | bootloader/ATF/mbedtls-2.18.0/library/cipher.c:858-880 | likewise for zeros-and-length |
| Padding.GetZeros | bootloader/ATF/mbedtls-2.18.0/library/cipher.c:896-914 | zero padding: everything up to the last nonzero byte |
| Padding.PaddingUnique | bootloader/ATF/mbedtls-2.18.0/library/cipher.c:768-932 | a block is padded in at most one way |
| Padding.FillIsWellPadded | bootloader/ATF/mbedtls-2.18.0/library/cipher.c:768-932 | added padding is found again, for zero padding if and only if the data does not end in 0 |
| CipherLayer.UpdateBlocks | bootloader/ATF/mbedtls-2.18.0/library/cipher.c:605-671 | flushing the cache, holding back the tail and passing on whole blocks keep the stream invariant |
| CipherLayer.Context.Update | bootloader/ATF/mbedtls-2.18.0/library/cipher.c:512-674 | every update appends to the output what the stream owes, and nothing else; in place it is refused exactly with a partial block or a cache |
| CipherLayer.StreamHolds | bootloader/ATF/mbedtls-2.18.0/library/cipher.c:583-671 | how much is held back depends only on how much was fed; with padding a whole block is |
| CipherLayer.CutsDoNotShow | bootloader/ATF/mbedtls-2.18.0/library/cipher.c:512-674 | two ways of cutting the same input give the same output, iv and held bytes |
| CipherLayer.Context.FinishEncrypt | bootloader/ATF/mbedtls-2.18.0/library/cipher.c:981-1026 | all output together is CBC of the padded input; without padding a partial block is refused |
| CipherLayer.Context.FinishDecrypt | bootloader/ATF/mbedtls-2.18.0/library/cipher.c:999-1022 | succeeds exactly on what some plaintext opens to, with that plaintext as output |
| CipherLayer.Context.Finish | bootloader/ATF/mbedtls-2.18.0/library/cipher.c:935-1033 | the two together |
| CipherLayer.SealedOpens | bootloader/ATF/mbedtls-2.18.0/library/cipher.c:512-1033 | decrypting an encryption gives exactly its plaintext; with zero padding if and only if it is recoverable |
| Cmac.MultiplyByU | bootloader/ATF/mbedtls-2.18.0/library/cmac.c:83-129 | multiplication by u in GF(2^128) or GF(2^64), big-endian; other sizes refused |
| Cmac.TimesU | bootloader/ATF/mbedtls-2.18.0/library/cmac.c:68-129 | which is the polynomial product by u, read backward |
| Cmac.Subkeys | bootloader/ATF/mbedtls-2.18.0/library/cmac.c:136-164 | K1 and K2 are the cipher of zero doubled once and twice |
| Cmac.CmacPad | bootloader/ATF/mbedtls-2.18.0/library/cmac.c:184-200 | 10* padding |
| Cmac.AbsorbBlocks | bootloader/ATF/mbedtls-2.18.0/library/cmac.c:280-295 | the chain advances over all blocks but the last |
| Cmac.Context.Update | bootloader/ATF/mbedtls-2.18.0/library/cmac.c:242-308 | the context stands for the message fed so far, never having absorbed its last block |
| Cmac.HeldTag | bootloader/ATF/mbedtls-2.18.0/library/cmac.c:310-353 | the held block is what the tag still needs |
| Cmac.SplitLeavesNoTrace | bootloader/ATF/mbedtls-2.18.0/library/cmac.c:242-308 | two ways of feeding the same message leave the same state |
| Cmac.HeadLenUnique | bootloader/ATF/mbedtls-2.18.0/library/cmac.c:258-304 | what is absorbed is determined by the length fed |
| Cmac.TagIsCbcMac | bootloader/ATF/mbedtls-2.18.0/library/cmac.c:310-355 | the tag is the CBC-MAC of the message whose last block is xored with L times u if it is full, and padded and xored with L times u squared if not; L is the cipher of zero |
| Cmac.Context.Finish | bootloader/ATF/mbedtls-2.18.0/library/cmac.c:310-369 | the tag of everything fed, as Cmac.TagIsCbcMac spells it out, and a context ready for the next message |
| Cmac.OneShot | bootloader/ATF/mbedtls-2.18.0/library/cmac.c:390-420 | the one-call form gives the same tag |
| Chacha20.Context.Update | bootloader/ATF/mbedtls-2.18.0/library/chacha20.c:255-318 | the output is the input xored with the keystream at the running position, however it was split |
| Chacha20.CryptedBytes | bootloader/ATF/mbedtls-2.18.0/library/chacha20.c:255-318 | byte i from position pos is xored with byte (pos + i) % 64 of the block with the counter (pos + i) / 64 after the first |
| Chacha20.CryptedConcat | bootloader/ATF/mbedtls-2.18.0/library/chacha20.c:255-318 | splitting a text and carrying the position on changes nothing |
| Chacha20.CryptedTwice | bootloader/ATF/mbedtls-2.18.0/library/chacha20.c:255-318 | encrypting twice restores the text |
| ChachaPoly.Context.Starts | bootloader/ATF/mbedtls-2.18.0/library/chachapoly.c:134-172 | the Poly1305 key is the first half of keystream block 0 and the text starts at block 1 |
| ChachaPoly.Context.UpdateAad | bootloader/ATF/mbedtls-2.18.0/library/chachapoly.c:174-187 | accepted exactly in state AAD, and appended |
| ChachaPoly.Context.Update | bootloader/ATF/mbedtls-2.18.0/library/chachapoly.c:189-238 | accepted exactly in states AAD and CIPHERTEXT; closes the AAD, and the ciphertext is what is authenticated in both modes |
| ChachaPoly.Context.Finish | bootloader/ATF/mbedtls-2.18.0/library/chachapoly.c:240-295 | the tag of AAD, pad, ciphertext, pad and both lengths, however the data was split; refused exactly in state INIT |
| ChachaPoly.MacDataTells | bootloader/ATF/mbedtls-2.18.0/library/chachapoly.c:63-95 | two pairs of AAD and ciphertext with the same authenticated bytes are the same |
| ChachaPoly.GrowBoth | bootloader/ATF/mbedtls-2.18.0/library/chachapoly.c:218-235 | encrypting and decrypting piecewise agree on both texts |
| ChachaPoly.SealedAsInRfc | bootloader/ATF/mbedtls-2.18.0/library/chachapoly.c:134-295 | section 2.8 of RFC 7539: text from block 1 on, and a tag of AAD, zeros, ciphertext, zeros and both little-endian lengths under the first 32 bytes of block 0 |
| ChachaPoly.OpenSealed | bootloader/ATF/mbedtls-2.18.0/library/chachapoly.c:327-386 | the cipher is its own inverse |
| ChachaPoly.SameBytes | bootloader/ATF/mbedtls-2.18.0/library/chachapoly.c:371-379 | the accumulated difference is 0 exactly for equal tags |
| ChachaPoly.Context.EncryptAndTag | bootloader/ATF/mbedtls-2.18.0/library/chachapoly.c:327-346 | the sealed text and tag of section 2.8 of RFC 7539 |
| ChachaPoly.Context.AuthDecrypt | bootloader/ATF/mbedtls-2.18.0/library/chachapoly.c:348-386 | succeeds exactly for the right tag, and otherwise leaves only zeros |
| ChachaPoly.Context.SealThenOpen | bootloader/ATF/mbedtls-2.18.0/library/chachapoly.c:297-386 | what was sealed opens, with its text |
| Base64.MapsAreAlphabet | bootloader/ATF/mbedtls-2.18.0/library/base64.c:44-70 | both maps are the alphabet of RFC 1521, and nothing outside it is a symbol |
| Base64.EncodedBits | bootloader/ATF/mbedtls-2.18.0/library/base64.c:77-139 | the six-bit values of an encoding spell the message filled up with zero bytes, so unused bits are zero |
| Base64.Encode | bootloader/ATF/mbedtls-2.18.0/library/base64.c:77-139 | the encoding, or BUFFER_TOO_SMALL exactly when there is no buffer or it and its terminator do not fit, with the size wanted |
| Base64.FirstPass | bootloader/ATF/mbedtls-2.18.0/library/base64.c:151-187 | accepts exactly the texts of symbols, line breaks and at most two closing pads, and counts them |
| Base64.OutLenIs | bootloader/ATF/mbedtls-2.18.0/library/base64.c:195-200 | the overflow-free length is ceil(6n / 8) minus the pads |
| Base64.SecondPass | bootloader/ATF/mbedtls-2.18.0/library/base64.c:208-223 | the bytes of the symbols, line breaks dropped |
| Base64.DecodedFits | bootloader/ATF/mbedtls-2.18.0/library/base64.c:189-225 | the second pass never writes more than that length |
| Base64.AcceptedIsTidy | bootloader/ATF/mbedtls-2.18.0/library/base64.c:151-187 | in an accepted text no symbol follows a pad |
| Base64.Decode | bootloader/ATF/mbedtls-2.18.0/library/base64.c:144-228 | each of the three results and the length reported with it |
| Base64.RoundTrip | bootloader/ATF/mbedtls-2.18.0/library/base64.c:77-228 | decoding an encoding gives the bytes back |
| Base64.LinesDecode | bootloader/ATF/mbedtls-2.18.0/library/base64.c:144-228 | also after line breaks were put in anywhere |
| Der.ShortestForm | bootloader/ATF/mbedtls-2.18.0/library/asn1write.c:42-104 | the length octets written are the shortest of all that say the same, and the only ones of their size |
| Der.PositiveIsMinimal | bootloader/ATF/mbedtls-2.18.0/library/asn1write.c:150-161 | a positive INTEGER is minimal and keeps its sign bit clear (section 8.3 of X.690) |
| Der.IntContentReads | bootloader/ATF/mbedtls-2.18.0/library/asn1write.c:132-166 | the content octets are worth abs(X) |
| Der.TlvReads | bootloader/ATF/mbedtls-2.18.0/library/asn1parse.c:50-121 | an element written is the element found, whatever follows |
| Asn1Write.WriteLen | bootloader/ATF/mbedtls-2.18.0/library/asn1write.c:42-104 | the octets, the count returned and the pointer moved by it; each error exactly when |
| Asn1Write.WriteMpi | bootloader/ATF/mbedtls-2.18.0/library/asn1write.c:132-166 | likewise for INTEGER; for 0 the byte behind decides whether a zero octet is written |
| Asn1Write.WriteOid | bootloader/ATF/mbedtls-2.18.0/library/asn1write.c:182-194 | likewise for an object identifier |
| Asn1Write.WriteAlgorithm | bootloader/ATF/mbedtls-2.18.0/library/asn1write.c:196-215 | likewise; parameters in place are counted in the result but the pointer does not cross them |
| Asn1Parse.GetLen | bootloader/ATF/mbedtls-2.18.0/library/asn1parse.c:50-106 | accepts exactly a well-formed length with as much data behind it, and which error otherwise |
| Asn1Parse.GetTag | bootloader/ATF/mbedtls-2.18.0/library/asn1parse.c:108-121 | likewise with the tag |
| Asn1Parse.GetMpi | bootloader/ATF/mbedtls-2.18.0/library/asn1parse.c:167-182 | the content as an unsigned number; a refusal leaves X alone |
| Asn1Parse.GetAlg | bootloader/ATF/mbedtls-2.18.0/library/asn1parse.c:287-329 | accepts exactly a SEQUENCE of an OID and at most one more element, and reports where they lie; which error otherwise |
| Asn1Parse.AlgFailsOnce | bootloader/ATF/mbedtls-2.18.0/library/asn1parse.c:287-329 | an input has one error |
| Asn1Parse.GetAlgNull | bootloader/ATF/mbedtls-2.18.0/library/asn1parse.c:331-347 | INVALID_DATA exactly when the parameters are neither absent nor an empty NULL |
| Asn1RoundTrip.LengthThereAndBack | bootloader/ATF/mbedtls-2.18.0/library/asn1write.c:42-104 | every length below 2^32 comes back, and the reader stops where the writer started |
| Asn1RoundTrip.MpiThereAndBack | bootloader/ATF/mbedtls-2.18.0/library/asn1write.c:132-166 | writing succeeds exactly when the element fits, and every MPI comes back as abs(X): unchanged if and only if it is not negative |
| Asn1RoundTrip.AlgorithmThereAndBack | bootloader/ATF/mbedtls-2.18.0/library/asn1write.c:196-215 | every AlgorithmIdentifier comes back, with NULL or with parameters put in place before |
| Asn1RoundTrip.NullAlgorithmThereAndBack | bootloader/ATF/mbedtls-2.18.0/library/asn1write.c:196-215 | without parameters it passes the NULL check |
| Asn1BitString.DropZeros | bootloader/ATF/mbedtls-2.18.0/library/asn1write.c:293-331 | the loop ends at the last set bit |
| Asn1BitString.WriteBitstring | bootloader/ATF/mbedtls-2.18.0/library/asn1write.c:336-367 | the octets with unused bits cleared |
| Asn1BitString.WriteNamed | bootloader/ATF/mbedtls-2.18.0/library/asn1write.c:293-334 | the bit string without trailing zero bits |
| Asn1BitString.PackedBits | bootloader/ATF/mbedtls-2.18.0/library/asn1write.c:351-358 | masking keeps exactly the bits below the count |
| Asn1BitString.GetBitstring | bootloader/ATF/mbedtls-2.18.0/library/asn1parse.c:185-213 | accepts exactly a BIT STRING that fills the data, with at most 7 unused bits; which error otherwise |
| Asn1BitString.NamedThereAndBack | bootloader/ATF/mbedtls-2.18.0/library/asn1write.c:293-367 | a named bit is set in what is read if and only if it was set in what was written; no trailing zero bit |
| Asn1Sequence.GetSequenceOf | bootloader/ATF/mbedtls-2.18.0/library/asn1parse.c:237-285 | accepts exactly a SEQUENCE of elements with the tag and links one cell per element, in order; otherwise the error of the first that is none |
| Asn1Sequence.ListedUnique | bootloader/ATF/mbedtls-2.18.0/library/asn1parse.c:237-285 | there is only one way to split it |
| Asn1Sequence.SequenceComesBack | bootloader/ATF/mbedtls-2.18.0/library/asn1parse.c:237-285 | the concatenation of any elements is split into them |

## Left out

Deliberate limits of single contracts:

- MpiExpMod.ExpMod: requires that A has a limb (without one the source frees the table entry it just grew and then writes to it), that X is neither E nor N, and that a cache passed in is empty or right.
- Dhm.Context.SetGroup: the source keeps a cached RP when the group changes; what a call computes with the RP of another modulus is not described, and everything after it assumes a fixed P.
- Dhm.Context.UpdateBlinding: what Vf a call refused for an even P leaves is said in Dhm.Context.FreshPair only; no later call with that P succeeds.
- Dhm.EveryRunExportsThePower: speaks of X > 0, the only exponents MakePublic draws; Dhm.Context.CalcSecret with X = 0 promises the power only without an rng.
- Ecdsa.Sign: the retry counters advance a pointer instead of the count, so nothing in the source bounds the retries; the model retries as long as the supplied random scalars last.
- Ecdsa.DeriveMpi: the bit length kept in the group is required to be that of n.
- MpiBytes.ReadBinary: bytes are placed one at a time; the source copies them and swaps them limb by limb.
- MpiText.WriteString: the buffer is a sequence built from its front, not memory with a cursor; an MPI without limbs is excluded, for radix 16 would write no digit.
- Base64.Encode: output buffers are sequences; likewise in Base64.Decode.
- XtsMode.CryptXts: input and output are distinct or one buffer; they never overlap partially.
- CbcMode.CryptCbc: input and output are distinct or one place; they never overlap partially.
- CipherLayer.Context.Update: only CBC; ECB, CFB, OFB, CTR, XTS and stream ciphers behind the same interface are not modelled.
- ChachaPoly.Context.EncryptAndTag: ChaCha20's block function and Poly1305 appear as functions of key and data with the sizes they have, nothing else about them is assumed; the 32-bit block counter wraps as in the source, so a keystream beyond 2^38 bytes repeats.
- AesCode.EncryptBlock: the tables are those generated at start; the constant ROM tables and the build with fewer tables are not compared with them.
- DesCipher.Set3Key: the single-DES schedule is any function from keys to 32 words; its permuted choices are not modelled.
- CamelliaCipher.Reorder: starts from any encryption schedule; mbedtls_camellia_setkey_enc is not modelled.
- AriaCipher.TurnKeys: starts from any encryption schedule; mbedtls_aria_setkey_enc is not modelled. That the four S-box tables are mutual inverses is a hypothesis (Boxes.Ok), as is that the boxes of the other table-driven ciphers have their sizes.
- Blowfish.CryptEcb: P and S are arbitrary; mbedtls_blowfish_setkey is not modelled.
- Asn1Write.WriteAlgorithm: buffers are below 2^31 bytes, so the cast of the length to int never changes it; likewise in the other writers.
- Asn1Write.WriteMpi: for 0 there must be a byte behind p, which the source reads.
- Asn1Sequence.GetSequenceOf: the source's last comparison of the pointer with the end cannot fail and has no branch.
- Ehf.Pe.ActivatePriority: a panic, an assertion that fails and a priority level that is not registered all count as refusing the step; the state after a refusal is not described.

Not modelled at all:

- Elliptic-curve arithmetic: the curve is any group of prime order with an x-coordinate function. Restartable ECC contexts and deterministic ECDSA.
- Allocation failure and the limit of 10000 limbs: every allocation succeeds.
- Zeroization and constant execution time: only results are described.
- Random generation, primality tests and prime generation: random values are parameters.
- The rest of the MPI interface: conditional assignment and swap, shrinking, single bits, little-endian import and export, files.
- Assembly versions of the limb step, AES-NI and VIA PadLock.
- DER beyond the elements above: booleans, small integers, strings, octet strings, named-data lists.
- Interrupt controller details, interrupt registration and the EL3 interrupt handler: the running priority is a parameter of each EHF call, the priority mask a field.
- CFB, OFB, CTR, CCM and GCM modes, HMAC_DRBG and CTR_DRBG, HKDF, ARC4, hashes, X.509, TLS.
- The rest of Trusted Firmware-A, U-Boot and the image tools of the repository.
