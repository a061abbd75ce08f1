# Limb arithmetic and bulk modes of the cryptography primitives, modelled in Dafny

The project models four connected parts of the library and proves that they compute what they promise.

**Modular arithmetic (`Words`, `Montgomery`, `Engine`, `ModMethods`, `MontDomain`, `AlmostInverse`, `InverseLoops`,
`Inversion`).** The context of the engine is one flat array of words: modulus, R mod m, R^2 mod m and a last-in-first-out
pool of scratch numbers. Word base, length and offsets are parameters. The word-serial Montgomery multiplication and
reduction, the field operations and the almost inverse in both forms run on that array, in place, and their contracts
speak of the integers held there. `AlmostInverse` holds the number theory of the loop, `InverseLoops` the two loops on
words, `Inversion` the two wrappers that remove the power of two, `MontDomain` what the Montgomery form means.

**Radix-2^52 kernels (`Bits`, `Norm52`, `Amm52`, `Exp52`, `DualExp`).** Carry resolution by one integer addition on
masks, almost Montgomery multiplication with the scalar accumulator that stands in for a stale lane, single and dual
window exponentiation, and the driver that changes the Montgomery domain. Lane count, round count and mask width are
parameters, so that one proof covers 20, 30 (in 32 lanes) and 40 digits. The driver starts from two engines of the first
part.

**AES-GCM (`Gf2`, `Ghash`, `GcmStandard`, `GhashGroups`, `Gcm`).** Polynomials over GF(2) are coded by the bits of a
number. `GcmStandard` states the functions of NIST SP 800-38D, sections 6.2 to 6.5, on their own; the reduction, the
Karatsuba groups and the 16/8/4/2/1 cascade are proved against them. The block cipher is any function on blocks.

**Multi-buffer CFB (`Cfb`).** Masked loads and stores of 64-bit words, 4x4 transposition of blocks and one key per lane,
proved against the one-lane mode of NIST SP 800-38A, section 6.3, together with the plain AES-NI loop.

`NatArith` collects the facts about powers, quotients and congruences that the other modules share.

## Findings

- `gs_mont_div2` reserves one pool element and writes one word past it. The word lies inside the pool exactly when a
  second element is free (`ModMethods.CarryWordIsInPool`), which its contract therefore requires.
- `gs_mont_mul3` reports success and leaves its result untouched when exactly one pool element is free, because its inner
  additions need one more (`ModMethods.MontMul3`).
- `gsMontDualExpWin_BNU_sscm_avx512` reads the size off the first modulus. It relies on R^2 mod m being 2^(2N) mod m, that
  is, on moduli that fill their words (`DualExp.FullEngine`).
- The extra pass of the multi-buffer CFB loop when the longest length is a multiple of eight words stores nothing: all
  masks are zero by then.

## Model

| member | source | states |
|---|---|---|
| Words.AddAbc | sources/ippcp/pcpbnuimpl.h:83-91 | The two wrapped additions lose nothing: sum = word + carry * b, and the carry is at most 1 when the carry in is at most 1 (2 otherwise) |
| Words.Add | sources/ippcp/pcpbnu_arith_add.c:51-61 | The n-word sum and the carry out hold the exact sum of both operands, in place as well; nothing else in memory changes |
| Words.Sub | sources/ippcp/pcpbnu_arith_sub.c:51-61 | The n-word difference and the borrow hold the exact difference, in place as well |
| Words.Halve | sources/ippcp/pcpbnu_lsr.c:46-74 | Shifting right by one bit, in place as well, is integer division by two |
| Words.MaskedReplace | sources/ippcp/pcpmask_ct.h:52-60 | With the mask set the destination takes the value of the source, otherwise no word of memory changes |
| Words.EqualsWord | sources/ippcp/pcpbnumisc.h:197-204 | The or of all words answers exactly whether the number equals the word |
| Words.Compare | sources/ippcp/pcpbnumisc.h:147-181 | The sign from the last borrow and the or of the differences is the sign of x - y |
| Montgomery.MulAddWord | sources/ippcp/gsmodmethodstuff.h:347-353 | Word product plus two words fits in two words: the wrapped high half never overflows |
| Montgomery.QuotientDigit | sources/ippcp/gsmodmethodstuff.h:338-344 | Adding the multiple of the modulus chosen by k0 makes the low word vanish |
| Montgomery.MulRow | sources/ippcp/gsmodmethodstuff.h:333-357 | One row of gs_mont_mul keeps the exact value (t + a*y_i + u*m) / b up to the top word; every two-word accumulation fits |
| Montgomery.MulRound | sources/ippcp/gsmodmethodstuff.h:323-358 | One round moves the identity b^i * T = a*y[0..i) + q*m from weight i to i + 1 and keeps T below a + m |
| Montgomery.MulRounds | sources/ippcp/gsmodmethodstuff.h:315-358 | After all rounds carry * b^n + buffer is (a*y + q*m) / b^n with q below b^n, hence below a + m, for any n-word y (y may exceed m) |
| Montgomery.RedWord | sources/ippcp/gsmodmethodstuff.h:239-242 | Product word plus multiple plus carry, split over MUL_AB and two ADD_AB, fits in two words |
| Montgomery.RedRound | sources/ippcp/gsmodmethodstuff.h:225-245 | One round of gs_mont_red clears its low word and keeps the value, with an inter-row carry of at most 1 |
| Montgomery.RedRounds | sources/ippcp/gsmodmethodstuff.h:222-245 | For every 2n-word product below m * b^n the high half and its carry end as (p + q*m) / b^n, below 2m |
| Montgomery.FinalSubtract | sources/ippcp/gsmodmethodstuff.h:247-249 | The subtraction kept or undone by the mask subtracts m exactly when the value with its carry is at least m |
| Montgomery.RedcFromQuotient | sources/ippcp/gsmodmethodstuff.h:360-361 | A value x with x * R = y + q*m below 2m becomes the canonical representative of y / R by that subtraction |
| Montgomery.RedcUnique | sources/ippcp/gsmodmethodstuff.h:360-361 | Two canonical results for congruent products are equal |
| Engine.FactorStep | sources/ippcp/gsmod_montfactor.c:44-49 | If m0 * y = 1 modulo 2^(i-1), the masked comparison decides exactly whether adding 2^(i-1) is needed for an inverse modulo 2^i |
| Engine.MontFactor | sources/ippcp/gsmod_montfactor.c:37-52 | For every odd word the result k0 satisfies k0 * m0 = -1 modulo the word base |
| Engine.Mod | sources/ippcp/pcpbnuarith.h:197-200 | cpMod_BNU by its integer meaning: remainder in the low words, zeros above |
| Engine.ModEngine.TopBlock | sources/ippcp/gsmodstuff.h:70 | The elements reserved last form one block inside the pool that ends where the free part begins |
| Engine.ModEngine.OperandsAllowed | sources/ippcp/gsmodstuff.h:70 | A number outside the context or in any reserved element may be a result, and the constants may be operands |
| Engine.ModEngine.Keeps | sources/ippcp/gsmodstuff.h:29-49 | A write to a result and to the free pool leaves the constants of the context and every other operand as they were |
| Engine.ModEngine.PoolAlloc | sources/ippcp/gsmodstuff.h:109-119 | Hands out the next elements, or NULL with nothing reserved, exactly when they do not fit |
| Engine.ModEngine.PoolFree | sources/ippcp/gsmodstuff.h:134-139 | Gives back what was asked, and never more than is reserved |
| Engine.ModEngine.Init | sources/ippcp/gsmod_engineinit.c:55-116 | The status for every bad length, even modulus and pool size, success exactly for a pool of at least one element otherwise; on success a context with modulus, R mod m, R^2 mod m and factor, nothing outside it touched, although the set-up writes past R and past R^2 |
| Engine.ModEngine.SetConstants | sources/ippcp/gsmod_engineinit.c:91-110 | The three regions and k0 are right at the same time, whatever the pool held before |
| Engine.ModEngine.SetIdentity | sources/ippcp/gsmod_engineinit.c:101-104 | R mod m, computed through one word of scratch that belongs to the R^2 region |
| Engine.ModEngine.SetConverter | sources/ippcp/gsmod_engineinit.c:107-109 | R^2 mod m, computed through n words of scratch that belong to pool element 0 |
| Engine.SquareOfR | sources/ippcp/gsmod_engineinit.c:107-109 | R * (R mod m) mod m is R^2 mod m |
| ModMethods.MontAdd | sources/ippcp/gsmodmethodstuff.h:40-61 | (a + b) mod m for canonical operands, aliased or not; pool and context as before; failure only without a free element, and then nothing changes |
| ModMethods.MontSub | sources/ippcp/gsmodmethodstuff.h:73-94 | (a - b) mod m, same frame |
| ModMethods.MontNeg | sources/ippcp/gsmodmethodstuff.h:104-124 | -a mod m, canonical also for a = 0 |
| ModMethods.MontDiv2 | sources/ippcp/gsmodmethodstuff.h:135-162 | The canonical half of a modulo m, provided the word after the reserved element belongs to the pool |
| ModMethods.CarryWordIsInPool | sources/ippcp/gsmodmethodstuff.h:143-155 | The carry word of gs_mont_div2 lies inside the pool if and only if a second element is left |
| ModMethods.MontMul2 | sources/ippcp/gsmodmethodstuff.h:172-178 | 2a mod m |
| ModMethods.MontMul3 | sources/ippcp/gsmodmethodstuff.h:188-203 | 3a mod m when two elements are free; with exactly one the call reports success and leaves the memory unchanged |
| ModMethods.MulWords | sources/ippcp/gsmodmethodstuff.h:299-366 | One-pass multiplication on words: the canonical x*y/b^n for x below m and any n-word y |
| ModMethods.MontMul | sources/ippcp/gsmodmethodstuff.h:299-366 | gs_mont_mul of an engine: canonical a*b/R, in place as well, pool and context kept |
| ModMethods.RedWords | sources/ippcp/gsmodmethodstuff.h:213-253 | gs_mont_red: the canonical p/b^n for every 2n-word p below m * b^n |
| ModMethods.MulThenRedWords | sources/ippcp/gsmodmethodstuff.h:371-391 | Product then reduction gives the same canonical value as the one-pass form |
| ModMethods.MontMulTwoPass | sources/ippcp/gsmodmethodstuff.h:371-391 | The two-pass build meets the contract of the one-pass build, with two pool elements |
| ModMethods.MontEncode | sources/ippcp/gsmodmethodstuff.h:481-501 | a * (R^2 mod m) / R, canonical, for every n-word a |
| ModMethods.MontDecode | sources/ippcp/gsmodmethodstuff.h:534-551 | a / R, canonical, for every n-word a |
| MontDomain.BuildsAgree | sources/ippcp/gsmodmethodstuff.h:299-391 | Both builds of gs_mont_mul return the same number for the same operands |
| MontDomain.DecodeEncode | sources/ippcp/gsmodmethodstuff.h:481-551 | decode(encode(a)) = a mod m for every a |
| MontDomain.EncodeDecode | sources/ippcp/gsmodmethodstuff.h:481-551 | encode(decode(x)) = x for every canonical x |
| MontDomain.DecodeLinear | sources/ippcp/gsmodmethodstuff.h:40-203 | Addition, subtraction, negation, doubling and tripling commute with decoding |
| MontDomain.DecodeHalf | sources/ippcp/gsmodmethodstuff.h:135-162 | Halving commutes with decoding |
| MontDomain.DecodeProduct | sources/ippcp/gsmodmethodstuff.h:299-366 | Montgomery multiplication is multiplication of the decoded numbers |
| AlmostInverse.LinearStep | sources/ippcp/gsmod_almmontinv.c:66-88 | Every branch keeps m = u*s + v*t, a*s = v*2^k and a*t = -u*2^k modulo m |
| AlmostInverse.DivisorsStep | sources/ippcp/gsmod_almmontinv.c:66-88 | Every branch keeps the common divisors of u and v, which stay those of m and a |
| AlmostInverse.SizedStep | sources/ippcp/gsmod_almmontinv.c:66-88 | u*v at least halves and u + v at most halves in every branch |
| AlmostInverse.InvIterate | sources/ippcp/gsmod_almmontinv.c:65-90 | The three invariants hold after any number of passes |
| AlmostInverse.StepFits | sources/ippcp/gsmod_almmontinv.c:67-86 | No carry that the code drops can be set: s and s + t stay at most m, t at most m while v > 0, and only the doubling that ends the loop can exceed it |
| AlmostInverse.FinalGcd | sources/ippcp/gsmod_almmontinv.c:93-95 | At the end u = 1 if and only if a and m are coprime |
| AlmostInverse.FinalRange | sources/ippcp/gsmod_almmontinv.c:65-90 | For coprime operands bitlen(m) <= k <= 2*bitlen(m) |
| AlmostInverse.ResultCorrect | sources/ippcp/gsmod_almmontinv.c:59-104 | For odd m > 1 and a < m: k = 0 exactly without an inverse, else 0 < r < m, a*r = 2^k modulo m and bitlen(m) <= k <= 2*bitlen(m) |
| AlmostInverse.RunIsIterate | sources/ippcp/gsmod_almmontinv_ct.c:71-120 | Masked steps that reach v = 0 end where the plain loop ends |
| AlmostInverse.FixedStepsSuffice | sources/ippcp/gsmod_almmontinv_ct.c:71-120 | 2 * modulusBitSize masked steps reach the end state of the plain loop for every odd modulus of that size and every a < m |
| InverseLoops.PlainPass | sources/ippcp/gsmod_almmontinv.c:66-88 | One pass over the four word arrays is one step of the loop, and a carry out of t can only come with v = 0 |
| InverseLoops.PlainLoop | sources/ippcp/gsmod_almmontinv.c:65-90 | The while loop ends, in the state that the step function reaches, with ext 0 or 1 |
| InverseLoops.Finish | sources/ippcp/gsmod_almmontinv.c:98-100 | From t with its carry below 2m the selected subtraction and the last one give m - (t mod m) |
| InverseLoops.PlainInverse | sources/ippcp/gsmod_almmontinv.c:50-101 | The whole routine on words returns k and r of the specification |
| InverseLoops.AlmMontInv | sources/ippcp/gsmod_almmontinv.c:40-105 | alm_mont_inv of an engine: result of the specification, or 0 without four pool elements; pool and context kept |
| InverseLoops.MaskedReduceV | sources/ippcp/gsmod_almmontinv_ct.c:100-109 | The third masked branch, whose mask comes from the borrow, acts exactly when v >= u and neither earlier branch did |
| InverseLoops.MaskedPass | sources/ippcp/gsmod_almmontinv_ct.c:73-119 | One masked pass over the six word arrays is one plain step while v > 0 and changes no number afterwards |
| InverseLoops.MaskedLoop | sources/ippcp/gsmod_almmontinv_ct.c:71-120 | The fixed number of passes reaches the end state of the plain loop |
| InverseLoops.AlmMontInvCt | sources/ippcp/gsmod_almmontinv_ct.c:41-136 | alm_mont_inv_ct returns the same k, and for k > 0 the same r, as alm_mont_inv |
| Inversion.BitPosition | sources/ippcp/gsmod_montinv.c:36-39 | Bit number bit is the word 2^(bit mod w) at word bit / w |
| Inversion.SetBit | sources/ippcp/gsmod_inv.c:65-66 | Clearing and setting one bit makes the number 2^bit |
| Inversion.Pow2Ct | sources/ippcp/gsmod_montinv.c:34-47 | cpPow2_ct makes 2^bit for every bit below len * wordbits, 0 beyond the next word, and in the slot = len case leaves exactly the last word unwritten |
| Inversion.InverseSteps | sources/ippcp/gsmod_inv.c:59-67 | Whichever side of n * wordbits k falls on, the multiplications turn 2^k / a into 1 / a |
| Inversion.MontInverseSteps | sources/ippcp/gsmod_montinv.c:75-83 | Whichever side of n * wordbits k falls on, the multiplications turn 2^k / a into R / a |
| Inversion.FixInverse | sources/ippcp/gsmod_inv.c:59-67 | Those multiplications in an engine, with the exponent of two always in range |
| Inversion.FixMontInverse | sources/ippcp/gsmod_montinv.c:75-83 | Those multiplications in an engine, with the exponent of two always in range |
| Inversion.GsInv | sources/ippcp/gsmod_inv.c:39-73 | gs_inv succeeds exactly when a is invertible, m > 1 and four pool elements are free (six for the fixed-iteration form), and then r < m and a*r = 1 modulo m |
| Inversion.GsMontInv | sources/ippcp/gsmod_montinv.c:55-89 | gs_mont_inv succeeds under the same condition, with a*r = R modulo m |
| Norm52.RippleByAddition | sources/ippcp/ifma_norm52x.h:72-73 | Bit j of (l + 2k + c) xor l is the carry that ripples into digit i + j |
| Norm52.CarryMaskIsRipple | sources/ippcp/ifma_norm52x.h:52-80 | In a word of at least as many bits as digits, bit j of the mask is set exactly when ripple carry enters digit j |
| Norm52.NormalizePrefix | sources/ippcp/ifma_norm52x.h:22-93 | Digit by digit the value is kept, except for what leaves the prefix upwards |
| Norm52.ResolveCarries | sources/ippcp/ifma_norm52x.h:52-92 | The masked subtraction adds each digit its ripple carry modulo the base |
| Norm52.Normalize | sources/ippcp/ifma_norm52x.h:22-317 | NORMALIZE_52x20/30/40: all digits end below 2^52 and the value is kept modulo 2^(52n), for arbitrary digits below 2^64 |
| Amm52.RoundExact | sources/ippcp/ifma_amm52x20.c:75-81 | With k0 * m = -1 modulo 2^52 the digit shifted out is zero |
| Amm52.RoundsIdentity | sources/ippcp/ifma_amm52x20.c:69-110 | After i rounds 2^(52i) * A = a * b[0..i) + q*m with q < 2^(52i) |
| Amm52.AmmCorrect | sources/ippcp/ifma_amm52x20.c:46-123 | The result is a*b/2^L modulo m, below 2m while a*b <= m * 2^L, and at most m when a*b < 2m |
| Amm52.ScalarStage | sources/ippcp/ifma_amm52x20.c:29-81 | mulx, ADD104 and SHRD52 compute the exact 128-bit quotient: no carry is lost |
| Amm52.RoundValue | sources/ippcp/ifma_amm52x20.c:84-108 | What acc0 and lanes 1 and up hold together goes through one integer round; lane 0 is stale |
| Amm52.DigitRound | sources/ippcp/ifma_amm52x20.c:69-110 | One pass of the digit loop is one integer round, and after i passes the lanes are at most 4i * 2^52 and acc0 at most 5i * 2^52 |
| Amm52.Amm | sources/ippcp/ifma_amm52x20.c:46-123 | ifma256_amm52x20, and with 32 lanes and 30 rounds or 40 of both the others: normalised digits of the integer rounds modulo 2^(52 lanes), for any modulus and factor |
| Amm52.Ams | sources/ippcp/ifma_amm52x30.c:124-131 | The squaring is the multiplication with both operands equal |
| Amm52.AmmDual | sources/ippcp/ifma_amm52x20_dual.c:45-179 | The interleaved kernel computes for both operand sets what the single kernel computes |
| Amm52.AmsDual | sources/ippcp/ifma_amm52x20_dual.c:182-189 | The interleaved squarings likewise |
| Amm52.ComputesUnique | sources/ippcp/ifma_amm52x20_dual.c:71-179 | The product is determined digit by digit, so dual and single runs store the same digits |
| Amm52.PaddingIsZero | sources/ippcp/ifma_amm52x30.c:41-43 | A result below 2^(52*30) leaves the padding lanes zero |
| Amm52.AmmMeaning | sources/ippcp/ifma_amm52x20.c:46-123 | From stored digits: a*b/2^L modulo m, below 2m for a*b <= m * 2^L, at most m for a*b < 2m |
| Exp52.FormProduct | sources/ippcp/ifma_exp52x20.c:102-103 | The product of the forms of base^d and base^e is the form of base^(d+e), and stays below 2m |
| Exp52.FormFromRegular | sources/ippcp/ifma_exp52x20.c:97-99 | Multiplying a regular number by R^2 mod m gives its Montgomery form, below 2m |
| Exp52.RegularFromForm | sources/ippcp/ifma_exp52x20.c:157-159 | Multiplying by 1 leaves Montgomery form, with a result of at most m |
| Exp52.ExtractMultiplier | sources/ippcp/ifma_exp52x20.c:37-65 | The masked xor over all 32 rows returns exactly row idx |
| Exp52.WindowBits | sources/ippcp/ifma_exp52x20.c:140-145 | A window that straddles two words is read right: the xor of both shifted words has the bits of the exponent |
| Exp52.WindowIndex | sources/ippcp/ifma_exp52x20.c:137-145 | The index is (E >> bit) mod 32 for every bit position, aligned or not |
| Exp52.FirstIndex | sources/ippcp/ifma_exp52x20.c:111-123 | The short first window needs no mask: its index is E >> bit, below 32 |
| Exp52.NextWindow | sources/ippcp/ifma_exp52x20.c:126-150 | E >> bit continues E >> (bit + 5) by the five bits of the window |
| Exp52.BuildTable | sources/ippcp/ifma_exp52x20.c:97-104 | Row i is the Montgomery form of base^i, below 2m, for all 32 rows |
| Exp52.WindowPass | sources/ippcp/ifma_exp52x20.c:126-150 | After the pass Y is the form of base^(E >> bit) |
| Exp52.Exp | sources/ippcp/ifma_exp52x20.c:69-160 | ifma256_exp52x20: base^E modulo m, at most m, for every exponent |
| Exp52.BuildTableDual | sources/ippcp/ifma_exp52x20_dual.c:95-113 | Both tables hold the powers of their own base |
| Exp52.WindowPassDual | sources/ippcp/ifma_exp52x20_dual.c:145-187 | Both results advance by their own window, although multipliers are extracted before the squarings |
| Exp52.ExpDual | sources/ippcp/ifma_exp52x30_dual.c:76-205 | ifma256_exp52x20/30/40_dual: both results are base^E modulo their own m, at most m, first windows of 4, 1 and 3 bits included |
| DualExp.CoefficientValue | sources/ippcp/ifma_exp52x_dual.c:106-109 | The bit set at digit c / 52, bit c % 52 is the number 2^c |
| DualExp.SizesFit | sources/ippcp/ifma_exp52x_dual.c:74-107 | 1024, 1536 and 2048 bits take 20, 30 and 40 digits in 20, 32 and 40 lanes, with coefficients 2^64, 2^96 and 2^128, and leave two bits of room |
| DualExp.ConverterSteps | sources/ippcp/ifma_exp52x_dual.c:120-140 | Two multiplications turn 2^(2N) modulo m into 2^(2L) modulo m with the coefficient 2^(4(L-N)), for every N <= L |
| DualExp.FactorOfWord | sources/ippcp/ifma_exp52x_dual.c:67-68 | The engine factor modulo 2^64 serves the kernels modulo 2^52 |
| DualExp.KernelReady | sources/ippcp/ifma_exp52x_dual.c:61-77 | An engine whose modulus fills its words meets what the kernels require |
| DualExp.Convert | sources/ippcp/ifma_exp52x_dual.c:129-140 | The loop body computes the converter for the new domain, below 2m |
| DualExp.DualExpWin | sources/ippcp/ifma_exp52x_dual.c:48-153 | For 1024, 1536 and 2048 bits both outputs are X_i^E_i modulo m_i, at most m_i, and the sum of both lengths is returned, starting from two set-up engines; 0 for every other size |
| Ghash.LeftShifts | sources/ippcp/pcpaes_avx2_vaes.h:142-147 | The three packed left shifts keep exactly the low seven bits of the folded lane |
| Ghash.RightShifts | sources/ippcp/pcpaes_avx2_vaes.h:155-160 | The packed right shifts keep exactly the bits above those |
| Ghash.LostBits | sources/ippcp/pcpaes_avx2_vaes.h:149-152 | The first phase does not reach the bits that the packed shifts of the second phase lose |
| Ghash.TimesPoly | sources/ippcp/pcpaes_avx2_vaes.h:135-162 | A multiple of the polynomial, split at w^128 into the two halves that the phases add |
| Ghash.Reduction | sources/ippcp/pcpaes_avx2_vaes.h:135-162 | The xor of both outputs is below w^128 and, times w^128, congruent to hash0 * w^128 + hash1 modulo the polynomial |
| Ghash.ReducedUnique | sources/ippcp/pcpaes_avx2_vaes.h:135-162 | There is exactly one such polynomial |
| Ghash.ReducedXor | sources/ippcp/pcpaes_avx2_vaes.h:135-162 | Reduction is linear, so one reduction may follow a sum of products |
| GcmStandard.MultMeaning | sources/ippcp/pcpaes_avx2_vaes.h:105-112 | The block product of NIST SP 800-38D, Algorithm 1, is x*y/w^127 modulo the polynomial |
| GcmStandard.MultXor | sources/ippcp/pcpaes_avx2_vaes.h:105-112 | The block product is linear |
| GcmStandard.MultAssoc | sources/ippcp/pcpaes_avx2_vaes.h:105-112 | The block product is associative |
| GcmStandard.Horner | sources/ippcp/pcpaes_avx2_vaes.h:165-174 | Folding Y = (Y xor X_i) * H equals the sum of the blocks times descending powers of H |
| GcmStandard.Inc32Meaning | sources/ippcp/pcpaes_avx2_vaes.h:73-84 | In plain arithmetic: the upper bits of the counter stay, the last 32 count on modulo 2^32 |
| GhashGroups.Karatsuba | sources/ippcp/pcpaes_avx2_vaes.h:115-128 | Three carry-less products of halves combine to the whole product |
| GhashGroups.InternalMul | sources/ippcp/pcpaes_avx2_vaes.h:115-128 | The accumulators of both lanes grow by exactly one whole product each |
| GhashGroups.FoldAndReduce | sources/ippcp/pcpaes_avx2_vaes.h:194-211 | The three accumulators of both lanes are combined, added and reduced once |
| GhashGroups.ClmulGroup | sources/ippcp/pcpaes_avx2_vaes.h:175-345 | avx2_clmul_gcm16/8/4/2: the reduced sum of all products, in GH[0] and as the result, other registers kept |
| GhashGroups.ClmulOne | sources/ippcp/pcpaes_avx2_vaes.h:358-387 | avx2_clmul_gcm: the reduced product of lane 0 alone |
| GhashGroups.KeyProduct | sources/ippcp/pcpaes_avx2_vaes.h:105-128 | A product with a stored key w*H^i, reduced, is the block product with H^i |
| GhashGroups.GroupSum | sources/ippcp/pcpaes_avx2_vaes.h:165-212 | A group against the keys in descending order is the expanded hash of its blocks |
| GhashGroups.GroupHash | sources/ippcp/pcpaes_avx2_vaes.h:165-345 | One group with one reduction gives the hash of the block-by-block fold |
| Gcm.GcmState.LoadCounters | sources/ippcp/pcpaes_avx2_vaes_encrypt.c:91-109 | The eight registers hold the counters c to c + 15 in order |
| Gcm.GcmState.ValidWhen | sources/ippcp/pcpaes_avx2_vaes_encrypt.c:111-121 | A state is fit for a call for any 128-bit hash and subkey and any counter, once the stored keys are w times the powers of the subkey |
| Gcm.CountersAdvance | sources/ippcp/pcpaes_avx2_vaes.h:73-76 | A stride added to all registers in use keeps them consecutive from the advanced counter, with 32-bit wraparound |
| Gcm.CryptPairs | sources/ippcp/pcpaes_avx2_vaes_encrypt.c:286-311 | A group of blocks is xored with the cipher of consecutive counters, source and destination may coincide, nothing else is written |
| Gcm.HashPairs | sources/ippcp/pcpaes_avx2_vaes_encrypt.c:313-323 | The running hash takes in the group as the fold would |
| Gcm.DoneStep | sources/ippcp/pcpaes_avx2_vaes_encrypt.c:123-657 | A stage extends what is done so far by its blocks: output, counter and hash together |
| Gcm.GctrBit | sources/ippcp/pcpaes_avx2_vaes_encrypt.c:286-301 | Bit by bit, a block of counter mode is the input plus the cipher of the counter advanced by the block number |
| Gcm.Stage | sources/ippcp/pcpaes_avx2_vaes_encrypt.c:123-602 | Stages of 16, 8, 4 and 2 blocks keep that invariant and leave the registers of the next stage right |
| Gcm.LastBlock | sources/ippcp/pcpaes_avx2_vaes_encrypt.c:604-657 | The single block uses lane 0 and the first key alone and keeps the invariant |
| Gcm.GcmState.MainLoop | sources/ippcp/pcpaes_avx2_vaes_encrypt.c:123-326 | The loop leaves fewer than sixteen blocks and all counter registers valid |
| Gcm.GcmState.Tail | sources/ippcp/pcpaes_avx2_vaes_encrypt.c:328-657 | The four stages after it take every remaining whole block |
| Gcm.GcmState.Encrypt | sources/ippcp/pcpaes_avx2_vaes_encrypt.c:30-698 | For len >= 256: every bit of whole block i is the sum of the input bit and the bit of E(y), where y is the counter with i added to its last 32 bits modulo 2^32; nothing after the last whole block is written; the counter ends len/16 further in the same sense, ECounter is its encryption and the hash is the fold over the ciphertext |
| Gcm.GcmState.Decrypt | sources/ippcp/pcpaes_avx2_vaes_decrypt.c:30-697 | The same bits, counter and ECounter, with the hash over the input |
| Gcm.RoundTrip | sources/ippcp/pcpaes_avx2_vaes_decrypt.c:30-697 | Decrypting the ciphertext from an equal state returns the plaintext and leaves equal hash, counter and ECounter |
| Cfb.CfbConcat | sources/ippcp/aes_cfb_aesni_mb4.c:92-106 | The one-lane mode continues from its last ciphertext block |
| Cfb.Transpose | sources/ippcp/aes_cfb_vaes_mb.h:25-36 | The eight shuffles transpose a 4x4 matrix of blocks |
| Cfb.GroupRound | sources/ippcp/aes_cfb_vaes_mb4.c:141-155 | Four lanes through four chained steps are four one-lane runs with their own keys |
| Cfb.AllGroups | sources/ippcp/aes_cfb_vaes_mb16.c:238-270 | No lane of any group depends on another |
| Cfb.MaskBits | sources/ippcp/aes_cfb_vaes_mb.h:38-44 | The mask for n words left selects exactly the first min(8, max(0, n)) words |
| Cfb.UpdateMask | sources/ippcp/aes_cfb_vaes_mb.h:38-44 | After r rounds the mask is the one for len64 - 8r words left |
| Cfb.LoadRow | sources/ippcp/aes_cfb_vaes_mb16.c:205-236 | A masked load returns exactly the input blocks that are left and reads nothing past the length |
| Cfb.StoreMasked | sources/ippcp/aes_cfb_vaes_mb16.c:272-333 | A masked store writes exactly the words before the length |
| Cfb.LaneStep | sources/ippcp/aes_cfb_vaes_mb4.c:130-173 | A round extends the ciphertext of a lane by its next blocks, in place as well |
| Cfb.LaneWords | sources/ippcp/aes_cfb_aesni_mb4.c:92-106 | Word w of a lane is its input word xored with the same word of the encrypted block before, or of the encrypted IV |
| Cfb.StoreLanes | sources/ippcp/aes_cfb_vaes_mb16.c:272-336 | Storing lane by lane leaves all other lanes as they were, and all masks right |
| Cfb.VaesRound | sources/ippcp/aes_cfb_vaes_mb16.c:204-336 | One pass moves every lane on by up to four blocks, and every mask to the one for eight words less; finished lanes stay as they are |
| Cfb.SetUp | sources/ippcp/aes_cfb_vaes_mb16.c:134-155 | First masks, lengths and the longest length, empty lanes included |
| Cfb.EncVaes | sources/ippcp/aes_cfb_vaes_mb16.c:114-336 | 4, 8 or 16 lanes of arbitrary whole-block lengths: every 64-bit word of a lane is its input word xored with the same word of the encryption of the block before (of the IV in the first block), under the key of the lane; nothing past its length is written |
| Cfb.AesniRound | sources/ippcp/aes_cfb_aesni_mb4.c:92-106 | One block for every lane that has one left |
| Cfb.EncAesni | sources/ippcp/aes_cfb_aesni_mb4.c:53-107 | The plain loop makes the same promise, word by word |
| Cfb.OutputUnique | sources/ippcp/aes_cfb_aesni_mb4.c:53-107 | The promise determines every output word, so all builds store the same bytes |

## Left out

- Amm52.Amm: the kernels, the exponentiations and the driver take digit vectors as values and return them; every store of the kernels follows the last load, so aliasing of `out` with an operand is not modelled. The power tables are arrays of rows.
- Engine.ModEngine.Init: takes the modulus in words of the engine, not in 32-bit halves, and leaves out the method table, the parent pointers and the size query.
- Engine.Mod: division is used by its integer meaning, as is the schoolbook product `Montgomery.MulSchool` in place of the assembly kernel.
- ModMethods.MontDiv2: requires the extra pool word, see Findings.
- Words.Compare: works on whole words, where the code compares 32-bit halves.
- Montgomery.MulAddWord: the word product is taken by its integer meaning, not through the half-word products of MUL_AB.
- DualExp.DualExpWin: `regular_dig52` and `dig52_regular` are used by their integer meaning; their code is not part of this model.
- Inversion.GsInv: both wrappers call the one-pass multiplication; the two-pass build has the same contract with one more pool element.
- Gcm.GcmState.Encrypt: calls of fewer than 256 bytes go to a routine that is not part of this model, and a trailing partial block is left to the caller, as in the code.
- Gcm.GcmState.LoadKeys: the stored keys are assumed to be w times the powers of the hash subkey (such keys exist for every subkey, `GhashGroups.KeyExists`); the key set-up is not part of this model.
- GhashGroups.ClmulGroup: the unrolled products of the four group sizes are one loop over the pairs.
- Gcm.CryptPairs: the unrolled registers of a stage are one loop; source and destination either coincide or are separate arrays, partial overlap is not modelled. Blocks are 128-bit numbers with the first byte most significant, so byte reversal is part of the representation.
- Cfb.EncVaes: the groups of a round run one after the other, where the code interleaves their independent steps; partial overlap of buffers is not modelled.
- AES: the rounds and key schedules are not modelled; the cipher is a function, one per lane in CFB.
- Montgomery squaring, `gsscramble*`, method tables, packing of contexts and dispatching: they would only add easy members.
- Zeroising, alignment, timing and cache behaviour: masks are modelled by the values they select.
