# Verified model of the FN-DSA integer cores and the token refill machinery

The repository signs with FN-DSA (Falcon) and serves precomputed signing tokens. This project models
its integer-only and state-machine parts in Dafny and proves what they are for:

- **NTRU key generation** (`keygen.c`): 31-bit Montgomery arithmetic, the in-place NTT, big integers in
  31-bit words, Chinese remaindering, the batched extended binary GCD, the subtraction of scaled
  products, the norm and lift steps, and the final check. The main results are that the final check
  decides `fG - gF = q` over the integers, that a successful `zint_bezout` returns true Bezout
  coefficients in range, that the lift turns a solution at half the degree into one at the full degree,
  and exactly when both versions of the scaled subtraction leave the same arrays. Section 3.8 of the Falcon specification v1.2 describes the solver.
- **Emulated binary64** (`fpr.c`, `fpr.h`, plain-C branch): add, multiply, divide, square root and the
  conversion from integers return the round-to-nearest-even result of section 4.3.1 of IEEE 754-2019 on
  zeros and normal numbers; the conversions to integers and the comparison decide what the values say.
- **Hash to point and norm test** (`common.c`): the branch-free squeeze gives the same point as the
  rejection loop; the 32-bit saturating norm test decides the unbounded comparison.
- **Codecs** (`codec.c`): decoders accept exactly the encodings; the published maximum signature length
  follows from the norm bound.
- **Refill pipeline** (`soko_falcon_pipeline.c`): two threads interleaved at every access to the shared
  flags; safety over every run, progress, and the exact condition under which a refill is lost.
- **Refill simulator** (`soko_refill_simulator.c`): conservation, throughput, termination and a
  no-starvation guarantee, over exact real time.

## How to read it

Machine words are `u8`, `u16`, `u32`, `u64` subset types with explicit reduction (`W32`, `W64`), so each
place where C would wrap is visible and each place where it must not is a proof obligation. In-place
loops are methods over arrays; each is proved against a function of the old contents, and the lemmas are
about those functions. Most loops carry one named state predicate, with a lemma for its start, its step
and its end. Masks that are all ones or all zeros are written as conditionals, and a bitwise `or` of
disjoint parts as a sum.

| files | part |
|---|---|
| `Words`, `Congruence` | words, powers, congruences |
| `Modp`, `ModpPowers`, `Fermat`, `Twiddle` | `modp_*`, division for prime moduli, powers of the root, tables |
| `Ntt`, `NttLoops`, `LooseNtt`, `Poly`, `PolyRing` | the transform, its loops, its action on unreduced words, Z[X]/(X^N+1) |
| `Zint`, `ZintCrt`, `ZintReduce`, `BinaryGcd`, `ZintBezout` | big integers, CRT, GCD |
| `SubScaled`, `PolySubScaled`, `NormLift`, `FgStep`, `LiftStep`, `SolverStep`, `NtruCheck` | the solver's steps and its final check |
| `Fpr`, `FprAdd`, `FprMul`, `FprDiv`, `FprSqrt`, `FprInt` | emulated binary64 |
| `HashToPoint`, `NormTest` | `common.c` |
| `Bits`, `FixedCodec`, `CompCodec` | `codec.c` |
| `RefillProtocol`, `RefillLoss`, `TokenQueue`, `RefillPipeline` | the refill pipeline |
| `RefillSimulator` | the simulator |

Hypotheses on data outside the functions: the entries of `PRIMES` after the first satisfy `NttPrime`
(p = 1 mod 2048, on 31 bits, g^1024 = -1) and `CrtPrimes` (each `s` is the Montgomery inverse of the
product of the earlier primes); for the first entry this is proved (`NtruCheck.FirstPrime`). `REV10` is
taken to hold the 10-bit reversals. The output of SHAKE256 is an arbitrary byte string, the GPU generator
an arbitrary result code, thread creation an arbitrary success flag.

Points where the code and its comments differ, and the model follows the code:

- The pipeline takes `done` and `in_flight` as two separate flags; a worker that finishes between the two
  looks of `acquire` has its batch overwritten. "Every generated token is served" is false: for every
  configuration, a run that loses a refill exists if and only if the refill threshold is at least 1
  (`RefillLoss.NothingLostIff`), and its tokens stay lost (`RefillLoss.LostForever`).
- With a negative refill threshold `acquire` waits for ever on an empty queue
  (`RefillProtocol.NegativeStarves`); `RefillProtocol.StuckIffNegativeThreshold` shows that this is the only such case.
- `poly_sub_scaled_ntt` is documented for every k[v] above -2^31, and its caller lets such values through, but
  `modp_set` is not made for values below -p. Values from p to 2^31 - 1 do no harm; a lower bound below -p
  on the coefficients of k does not suffice (`PolySubScaled.NttAgreesIff`, `PolySubScaled.FailingInput`).
- `zint_co_reduce` takes factors in the full signed 32-bit range; `zint_co_reduce_mod` needs the joint bound that
  its caller keeps (`ZintReduce.JointBoundNeeded`).
- `fpr_div` returns +0 for a zero dividend whatever the signs, and results below the least normal number
  become zeros.
- `fpr_floor` takes -0 to -1 and `fpr_lt` takes -0 to be below +0; `FprInt.FloorCorrect` and
  `FprInt.LtCorrect` show that these are the only wrong answers.
- `fpr_half` does not handle the least binade of normal numbers, whose halves are subnormal.

## Model

| member | source | states |
|---|---|---|
| Modp.MontyMulSpec | submodules/FN-DSA/keygen.c:722-733 | the Montgomery product is the reduced ab/2^31 mod p, for every odd 31-bit modulus, with no 64-bit overflow |
| Modp.NInv31Spec | submodules/FN-DSA/keygen.c:654-664 | four Newton steps give -1/p mod 2^31 for every odd p |
| Modp.SetSpec | submodules/FN-DSA/keygen.c:631-637 | the sign-mask reduction returns x mod p for -p < x < p |
| Modp.NormalizeSpec | submodules/FN-DSA/keygen.c:644-647 | the signed representative is congruent to its argument and centered |
| ModpPowers.R2Spec | submodules/FN-DSA/keygen.c:738-765 | modp_R2 is 2^62 mod p and represents 2^31 |
| ModpPowers.Rx | submodules/FN-DSA/keygen.c:772-796 | the square-and-multiply loop returns 2^(31x) mod p for every x from 1 on |
| ModpPowers.Div | submodules/FN-DSA/keygen.c:805-835 | the result is a * b^(p-2) in the Montgomery domain |
| ModpPowers.DivInverts | submodules/FN-DSA/keygen.c:800-835 | that result times b is a wherever Fermat's equation holds for b, as for the roots of unity that the tables need |
| Fermat.LittleFermat | submodules/FN-DSA/keygen.c:800-835 | b^(p-1) = 1 modulo p for every prime p and nonzero b |
| Fermat.DivPrime | submodules/FN-DSA/keygen.c:800-835 | for a prime modulus modp_div(a, b) is a/b: times b it is a, for every nonzero b |
| Twiddle.MkGm2 | submodules/FN-DSA/keygen.c:941-968 | gm and igm are the tables of bit-reversed powers of the root and of its inverse; gm is a tree of square roots of -1, and igm holds the inverses of its entries |
| Twiddle.TablePrefix | submodules/FN-DSA/keygen.c:941-968 | the table for half the degree is the first half of the table |
| NttLoops.NTT2Ext | submodules/FN-DSA/keygen.c:979-1011 | the strided in-place loops compute the recursive transform and touch nothing else |
| NttLoops.INTT2Ext | submodules/FN-DSA/keygen.c:1018-1065 | likewise for the inverse transform and the division by n |
| Ntt.RoundTrip | submodules/FN-DSA/keygen.c:970-1065 | the inverse transform undoes the transform exactly, for every degree up to 1024 |
| Ntt.NTTEvaluates | submodules/FN-DSA/keygen.c:970-1011 | slot j of the transform is the value of the polynomial at point j |
| Ntt.PointIsRoot | submodules/FN-DSA/keygen.c:970-1011 | every evaluation point is a root of X^N + 1 modulo p |
| Poly.NegaMulIsSchoolbook | submodules/FN-DSA/keygen.c:2101-2104 | the ring product used in all statements is the quadratic negacyclic product |
| Poly.ProductThroughNTT | submodules/FN-DSA/keygen.c:970-1065 | the inverse transform of the slot-wise product is the negacyclic product modulo p |
| PolyRing.Commute | submodules/FN-DSA/keygen.c:3261-3271 | multiplication modulo X^N + 1 commutes |
| PolyRing.NormIsProduct | submodules/FN-DSA/keygen.c:2530-2535 | the norm f' satisfies f'(X^2) = f(X) * f(-X) over the integers |
| PolyRing.ReductionKeeps | submodules/FN-DSA/keygen.c:3261-3271 | subtracting (k*f, k*g) from (F, G) keeps fG - gF, for every k |
| NormLift.NormColumn | submodules/FN-DSA/keygen.c:2578-2612 | products of consecutive slots give the norm modulo p, in either domain |
| FgStep.RebuildColumns | submodules/FN-DSA/keygen.c:2618-2624 | residue columns become the polynomial over the integers when it fits the primes |
| FgStep.MakeFgStep | submodules/FN-DSA/keygen.c:2536-2668 | from residues of f and g modulo slen primes, plain or in NTT, to those of their norms modulo tlen primes, plain or in NTT, with f and g themselves rebuilt as integers |
| NormLift.LiftKeepsEquation | submodules/FN-DSA/keygen.c:2980-3008 | a solution for the norms at half the degree lifts to a solution at the full degree |
| NormLift.LiftColumn | submodules/FN-DSA/keygen.c:2990-3008 | the slot loop of the lift gives F'(X^2) * g(-X) modulo p |
| LiftStep.LiftSolution | submodules/FN-DSA/keygen.c:2863-3019 | the whole lift: the stored integers F and G are F'(X^2)g(-X) and G'(X^2)f(-X), and they solve the equation at the full degree when F' and G' solve it for the norms |
| SolverStep.ReductionStep | submodules/FN-DSA/keygen.c:3255-3271 | one scaled subtraction on the stored big integers keeps fG - gF for every k, when no word truncation occurs |
| Zint.SubCond | submodules/FN-DSA/keygen.c:1146-1163 | conditional subtraction with the exact borrow; nothing changes when disabled |
| Zint.MulSmall | submodules/FN-DSA/keygen.c:1171-1186 | product with a word, value and carry |
| Zint.ModSmallUnsigned | submodules/FN-DSA/keygen.c:1197-1221 | the residue of a big integer modulo p |
| Zint.ModSmallSigned | submodules/FN-DSA/keygen.c:1227-1240 | the residue of a two's complement big integer |
| Zint.AddMulSmall | submodules/FN-DSA/keygen.c:1246-1264 | x + y*s with one more word |
| ZintCrt.NormZero | submodules/FN-DSA/keygen.c:1272-1318 | x becomes x - p in two's complement exactly when 2x > p |
| ZintCrt.RebuildCRT | submodules/FN-DSA/keygen.c:1333-1390 | each number becomes the integer in [0, prod p) with its residues, or the centered one; tmp ends as the product; gaps are kept |
| ZintCrt.CrtUnique | submodules/FN-DSA/keygen.c:1321-1332 | that integer is the only one |
| ZintReduce.Negate | submodules/FN-DSA/keygen.c:1397-1417 | conditional negation modulo 2^(31 len) |
| ZintReduce.CoReduce | submodules/FN-DSA/keygen.c:1434-1473 | both exact quotients by 2^31 in absolute value, modulo 2^(31 len), and their signs, with no int64 overflow for factors of the full signed 32-bit range; nothing is lost when their sizes sum to at most 2^31 |
| ZintReduce.FinishMod | submodules/FN-DSA/keygen.c:1479-1515 | a value in [-m, 2m) ends in [0, m) |
| ZintReduce.CoReduceMod | submodules/FN-DSA/keygen.c:1522-1567 | both combinations divided by 2^31 modulo m, reduced to [0, m), with no int64 overflow |
| ZintReduce.JointBoundNeeded | submodules/FN-DSA/keygen.c:1555-1567 | with factors of the full signed 32-bit range the quotient can be 2m, outside the range that the final reduction takes |
| ZintBezout.TopWords | submodules/FN-DSA/keygen.c:1750-1795 | the two top words at the highest index where either number is nonzero |
| ZintBezout.Coefficients | submodules/FN-DSA/keygen.c:1796-1870 | after 31 inner steps both combinations are divisible by 2^31 and the factors sum to at most 2^31 |
| ZintBezout.Bezout | submodules/FN-DSA/keygen.c:1582-1894 | a reported GCD of one on odd x, y with y > 1 comes with 0 <= u < y, 0 <= v < x and x*u - y*v = 1; an even operand is never reported; for odd x and y below 2^62 a GCD of one is reported exactly when they are coprime |
| BinaryGcd.StepsEnd | submodules/FN-DSA/keygen.c:1609-1672 | after n steps of the exact algorithm on odd numbers with a product below 2^n, b is zero, and a is one exactly when they are coprime |
| ZintBezout.InnerFollows | submodules/FN-DSA/keygen.c:1804-1868 | with exact top words, each inner step is one step of the exact algorithm, in the top words and in the factors |
| ZintBezout.GreaterBitSpec | submodules/FN-DSA/keygen.c:1820-1825 | the branch-free comparison is right for all unsigned 64-bit operands |
| SubScaled.AddScaledMulSmall | submodules/FN-DSA/keygen.c:1908-1962 | x gains k*y*2^(31*sch+scl) modulo 2^(31*xlen), for signed y of any length |
| SubScaled.SubScaledNumber | submodules/FN-DSA/keygen.c:1969-1999 | x loses y*2^(31*sch+scl) modulo 2^(31*xlen) |
| PolySubScaled.PolySubScaled | submodules/FN-DSA/keygen.c:2107-2136 | the quadratic loops subtract the scaled negacyclic product from every coefficient, and keep the gaps |
| PolySubScaled.RebuildProduct | submodules/FN-DSA/keygen.c:2144-2190 | the NTT columns and the CRT give the one centered polynomial over the integers that has these columns as residues |
| PolySubScaled.PolySubScaledNtt | submodules/FN-DSA/keygen.c:2144-2204 | subtracts that polynomial, scaled; it meets the same specification as the quadratic version when no k[v] is below -p and k*f is below half the product of the primes |
| PolySubScaled.NttAgreesIff | submodules/FN-DSA/keygen.c:2144-2204 | if x bounds the coefficients of k from below, the columns stand for k*f for all such k and all f if and only if x >= -p for every prime p used |
| PolySubScaled.RebuildsUnique | submodules/FN-DSA/keygen.c:2192-2195 | the columns stand for one polynomial only |
| PolySubScaled.FailingInput | submodules/FN-DSA/keygen.c:3244-3256 | k = 1 - 2^31, f = 1 and the first prime: an admitted input whose column is wrong |
| PolySubScaled.DifferentArrays | submodules/FN-DSA/keygen.c:2101-2204 | subtracting two different polynomials cannot leave the same arrays when F is long enough to show the difference |
| LooseNtt.ColumnIff | submodules/FN-DSA/keygen.c:2166-2189 | the same for one prime: the column is right for all k bounded by x, and all f, exactly when x >= -p |
| PolySubScaled.SameArrays | submodules/FN-DSA/keygen.c:2101-2204 | that specification determines every word, so both versions leave equal arrays |
| NtruCheck.FirstPrime | submodules/FN-DSA/keygen.c:101-103 | the first prime has the properties that the tables need |
| NtruCheck.OneWord | submodules/FN-DSA/keygen.c:2005-2012 | the conversion gives the value of the word as a one-word signed big integer |
| NtruCheck.BigToSmall | submodules/FN-DSA/keygen.c:2079-2095 | succeeds exactly when the signed value of every word is within the limit, and stores these values |
| NtruCheck.CheckDecides | submodules/FN-DSA/keygen.c:4036-4087 | the slot-wise test modulo one prime holds if and only if fG - gF = q over the integers |
| NtruCheck.FinishSolve | submodules/FN-DSA/keygen.c:4028-4090 | the end of solve_NTRU returns 1 exactly when the signed values of the words are in range and solve fG - gF = q |
| Fpr.RoundsUnique | submodules/FN-DSA/fpr.h:205-217 | the rounded value of a positive real is unique, so correct rounding fixes each result |
| Fpr.PackRounds | submodules/FN-DSA/fpr.h:175-217 | FPR rounds to nearest even whatever sticky 55-bit mantissa it gets, carries into the exponent, and clamps below the least normal number |
| Fpr.StickyTwice | submodules/FN-DSA/fpr.h:108-114 | dropping bits with a sticky bit twice is dropping them once |
| Fpr.ShiftsArePlain | submodules/FN-DSA/fpr.h:125-159 | the shifts in two parts are the plain shifts for every count from 0 to 63 |
| FprAdd.NormShifts | submodules/FN-DSA/fpr.c:46-79 | the logarithmic normalization shifts any nonzero word until its top bit is set, and corrects the exponent |
| FprAdd.AddCorrect | submodules/FN-DSA/fpr.c:473-579 | fpr_add returns the correctly rounded sum of all zeros and normal numbers in range, also under cancellation and with far exponents, with the signed-zero rule |
| FprAdd.ScaledCorrect | submodules/FN-DSA/fpr.c:175-222 | fpr_scaled returns i * 2^sc correctly rounded |
| FprMul.ProductIs | submodules/FN-DSA/fpr.c:726-757 | the 25-bit limb product is exactly the product shifted down by 50 bits with a sticky bit |
| FprMul.MulCorrect | submodules/FN-DSA/fpr.c:705-799 | fpr_mul is correctly rounded, with the product's sign |
| FprDiv.DivideBits | submodules/FN-DSA/fpr.c:956-972 | after 55 steps 2^55 * X = q * Y + remainder with an even q |
| FprDiv.Div | submodules/FN-DSA/fpr.c:940-1025 | fpr_div is correctly rounded, with the quotient's sign; a zero dividend gives +0 |
| FprSqrt.RootBits | submodules/FN-DSA/fpr.c:1236-1256 | the 54 steps give the integer square root, and the remainder is zero exactly for squares |
| FprSqrt.Sqrt | submodules/FN-DSA/fpr.c:1207-1282 | fpr_sqrt is correctly rounded on nonnegative operands |
| FprInt.RintCorrect | submodules/FN-DSA/fpr.h:273-320 | fpr_rint returns the nearest integer, ties to even, for every number below 2^63 in size |
| FprInt.FloorCorrect | submodules/FN-DSA/fpr.h:322-363 | fpr_floor returns the floor if and only if its argument is not -0 |
| FprInt.TruncCorrect | submodules/FN-DSA/fpr.h:365-395 | fpr_trunc rounds toward zero |
| FprInt.LtCorrect | submodules/FN-DSA/fpr.h:462-481 | fpr_lt holds exactly when the values are in that order, or when -0 meets +0 |
| FprInt.HalfCorrect | submodules/FN-DSA/fpr.h:414-427 | fpr_half is exact wherever the half is zero or normal |
| FprInt.DoubleCorrect | submodules/FN-DSA/fpr.h:429-439 | fpr_double is exact wherever the double is in range |
| HashToPoint.SampleBits | submodules/FN-DSA/common.c:56-58 | a sample has the 16 bits of its two bytes, the most significant first |
| HashToPoint.LimitIs | submodules/FN-DSA/common.c:75-79 | the acceptance bound is the largest multiple of q in 16 bits, so every residue has the same five samples |
| HashToPoint.HashToPointVartime | submodules/FN-DSA/common.c:36-67 | the rejection loop returns the first n accepted values of the stream, in order |
| HashToPoint.StepMove | submodules/FN-DSA/common.c:161-166 | when a value is to move down by p slots, the slot there is free, and the move keeps all other values in place |
| HashToPoint.PassEnd | submodules/FN-DSA/common.c:167-231 | a pass clears one bit of every displacement |
| HashToPoint.HashToPointCt | submodules/FN-DSA/common.c:70-233 | all coefficients are valid exactly when at least n samples are acceptable, and they are then the first n accepted values in order |
| HashToPoint.SamePoint | submodules/FN-DSA/common.c:36-233 | in that case the stream's first n accepted values are the same, so both functions agree |
| NormTest.BoundIsBeta | submodules/FN-DSA/common.c:236-253 | every bound is floor(beta^2) for beta = 1.1 * sigma * sqrt(2n), with the sigma of the signer's table |
| NormTest.IsShort | submodules/FN-DSA/common.c:256-283 | is_short accepts exactly when the unbounded sum of squares is at most the bound, despite 32-bit wraparound |
| NormTest.IsShortHalf | submodules/FN-DSA/common.c:286-306 | is_short_half agrees, from the saturated norm of the first half |
| NormTest.AcceptedFits | submodules/FN-DSA/falcon.h:323-329 | every accepted s2 has a compressed encoding within the published maximum length |
| Bits.PacksUnique | submodules/FN-DSA/codec.c:34-75 | a bit string has only one packed form |
| Bits.PacksExists | submodules/FN-DSA/codec.c:34-75 | every bit string has one |
| FixedCodec.ModqEncode | submodules/FN-DSA/codec.c:35-75 | fails exactly on a value from q up or a short buffer; otherwise writes the packed form |
| FixedCodec.ModqDecode | submodules/FN-DSA/codec.c:78-113 | accepts exactly the packed forms of vectors below q |
| FixedCodec.TrimEncode | submodules/FN-DSA/codec.c:117-159 | fails exactly out of range or on a short buffer; otherwise writes the packed form, for every width |
| FixedCodec.TrimDecode | submodules/FN-DSA/codec.c:162-210 | accepts exactly the packed forms, hence refuses -2^(bits-1) and nonzero padding |
| FixedCodec.RoundTrip | submodules/FN-DSA/codec.c:34-304 | an encoding decodes to its vector only, and an input that decodes starts with the one encoding |
| CompCodec.PushValue | submodules/FN-DSA/codec.c:331-372 | the accumulator never needs more than 31 live bits |
| CompCodec.CompEncode | submodules/FN-DSA/codec.c:308-401 | fails exactly out of -2047..2047 or when the encoding does not fit; otherwise writes it |
| CompCodec.CompDecode | submodules/FN-DSA/codec.c:404-473 | accepts exactly the inputs that start with the encoding of a vector in range, and returns it and its length |
| CompCodec.CompParses | submodules/FN-DSA/codec.c:404-473 | decoding undoes encoding, whatever follows |
| CompCodec.CompShape | submodules/FN-DSA/codec.c:404-473 | only the encoding of x decodes to x: no -0, no long form |
| CompCodec.RoundTrip | submodules/FN-DSA/codec.c:308-473 | the vector and the length decoded from an encoding are the original ones |
| CompCodec.Canonical | submodules/FN-DSA/codec.c:308-473 | re-encoding gives exactly the bytes consumed |
| TokenQueue.RingQueue.Push | src/backends/soko_falcon_pipeline.c:87-96 | appends to the queue's contents unless full |
| TokenQueue.RingQueue.Pop | src/backends/soko_falcon_pipeline.c:98-107 | takes the oldest reference unless empty |
| TokenQueue.RingQueue.EnqueueBankTokens | src/backends/soko_falcon_pipeline.c:109-123 | pushes the references of a bank in order until the queue is full |
| RefillProtocol.ReachableInv | src/backends/soko_falcon_pipeline.c:125-345 | the protocol invariant holds in every interleaving of the two threads |
| RefillProtocol.NoInternalErrors | src/backends/soko_falcon_pipeline.c:183-201 | queue.count is the sum of bank_remaining, the worker's bank has no queued references, -212, -214 and -215 are unreachable |
| RefillProtocol.ServedInOrderOnce | src/backends/soko_falcon_pipeline.c:275-345 | tokens are served in the order their refills were enqueued, each at most once |
| RefillProtocol.HandedOut | src/backends/soko_falcon_pipeline.c:324-342 | the view returned is that of the token just recorded as served, in the only bank that holds its refill |
| RefillProtocol.ServedExactly | src/backends/soko_falcon_pipeline.c:324-342 | a step records a token as served exactly when it hands that token out |
| RefillProtocol.LaunchedExactly | src/backends/soko_falcon_pipeline.c:293-302 | a refill starts exactly when the stock is at or below the threshold, no worker thread runs and a bank is empty, and goes to the first empty bank |
| RefillProtocol.ViewStable | src/backends/soko_falcon_pipeline.c:324-342 | until the next call, the bank of the view handed out is not overwritten |
| RefillProtocol.AcquireProgresses | src/backends/soko_falcon_pipeline.c:275-345 | with a threshold of at least 0, acquire sleeps only while a refill is active, and every other step brings its return nearer |
| RefillProtocol.AcquireReturnsToken | src/backends/soko_falcon_pipeline.c:275-345 | while threads start and generators succeed, acquire can only return a token |
| RefillProtocol.StuckIffNegativeThreshold | src/backends/soko_falcon_pipeline.c:293-322 | acquire can wait with no refill active if and only if the threshold is negative |
| RefillProtocol.NegativeStarves | src/backends/soko_falcon_pipeline.c:293-322 | a call on an empty queue with a negative threshold never returns, in any run |
| RefillLoss.LossHappens | src/backends/soko_falcon_pipeline.c:185-302 | for every configuration with a threshold of at least 1, a reachable state in which a generated refill has been dropped |
| RefillLoss.LostForever | src/backends/soko_falcon_pipeline.c:185-302 | no token of a dropped refill is ever served |
| RefillLoss.NothingLostIff | src/backends/soko_falcon_pipeline.c:185-302 | every generated refill is enqueued or pending in all reachable states if and only if the refill threshold is at most 0 |
| RefillLoss.NothingLostInRun | src/backends/soko_falcon_pipeline.c:185-302 | within one run, exactly when no refill was started over a finished one |
| RefillProtocol.SeedsCollide | src/backends/soko_falcon_pipeline.c:297-298 | in every reachable state, two launches used the same seed exactly when a multiple of 2^32 launches lies between them |
| RefillPipeline.Init | src/backends/soko_falcon_pipeline.c:215-273 | fails exactly with fewer than two banks or no tokens; otherwise the pipeline starts with bank 0 full |
| RefillPipeline.Pipeline.Acquire | src/backends/soko_falcon_pipeline.c:275-345 | the code, under any scheduling of the worker, follows the protocol and returns its outcome; the place handed out is that of the one token that the call adds to the served ones |
| RefillPipeline.Pipeline.FinishCompletedRefill | src/backends/soko_falcon_pipeline.c:183-201 | joins, reports the generator's error, or enqueues the batch, as the protocol does |
| RefillPipeline.Pipeline.StartRefillWorker | src/backends/soko_falcon_pipeline.c:137-169 | refuses while a refill is in flight; otherwise launches the worker with the next seed, or reports that no thread could start |
| RefillPipeline.Pipeline.FindEmptyBank | src/backends/soko_falcon_pipeline.c:203-213 | the first bank with nothing left |
| RefillSimulator.RateBasedThreshold | benchmarks/soko_refill_simulator.c:231-243 | a threshold from 1 to capacity-1: the least that is at least 1.2 times the consumption of a refill, unless clamped |
| RefillSimulator.Conservation | benchmarks/soko_refill_simulator.c:589-618 | capacity + produced = served + queued after any number of arrivals |
| RefillSimulator.After | benchmarks/soko_refill_simulator.c:579-613 | queued plus in flight fit the capacity, and a refill is under way exactly at or below the threshold, in every reachable state |
| RefillSimulator.TimelineOfRun | benchmarks/soko_refill_simulator.c:579-618 | every run follows laws that do not mention its steps: each refill starts at the first moment at or below the threshold with the server idle and fills the free slots up to the batch size, each request is served exactly when the stock is not empty, and none is missing |
| RefillSimulator.ProductionBounded | benchmarks/soko_refill_simulator.c:527-543 | produced * seconds <= batch * elapsed |
| RefillSimulator.NoStarvation | benchmarks/soko_refill_simulator.c:589-613 | with batches of max(1, ceil(rate*seconds)) or more and capacity for two of these, no request starves, also when the threshold is clamped |
| RefillSimulator.RefillState.SettleRefills | benchmarks/soko_refill_simulator.c:527-543 | the settling loop terminates for every duration, also zero, and computes the settled state |
| RefillSimulator.RunSimulationCase | benchmarks/soko_refill_simulator.c:545-640 | every run reaches its target and stops there, and its report is that of the timeline which these laws describe |

## Left out

- ZintBezout.Bezout: for operands from 2^62 on it states soundness only; that every GCD of one is found within the fixed number of rounds rests on an unproved progress claim about approximate top words. The case y = 1 is excluded because u < y would force u = 0. When the low word of x is zero the loop is skipped; what the source leaves in u and v then is not modelled.
- PolySubScaled.PolySubScaled: excludes k[u] = -2^31, whose negation overflows an int32_t; the caller's range check excludes it too.
- PolySubScaled.PolySubScaledNtt: for k with coefficients below -p it says what is subtracted only when all columns come out in reduced words, which the CRT needs.
- ZintReduce.CoReduceMod: requires factors whose sizes sum to at most 2^31, which zint_bezout keeps; beyond that the range in the source's own comment fails.
- LiftStep.LiftSolution: the Babai reduction that follows is not modelled; SolverStep.ReductionStep covers one of its subtractions.
- FprSqrt.Sqrt: the sign of a zero operand is ignored by the code, so the operand is taken as nonnegative.
- Fpr.PackRounds: results at or above 2^1024 after rounding are excluded, as the code leaves them indeterminate.
- HashToPoint.HashToPointCt: takes the oversampling table as given; that it keeps the probability of too few acceptable samples below 2^-256 is not modelled.
- HashToPoint.HashToPointVartime: requires a stream with enough acceptable samples; on any other the loop does not end.
- RefillPipeline.Pipeline.Acquire: requires a threshold of at least 0 or a token in the queue, without which the call does not end.
- RefillPipeline.Pipeline: the overflow of tokens_per_bank * bank_count, allocation failures, null arguments and the `available` flags are not modelled; the leak of the handle of an overwritten worker is not either.
- solve_NTRU before its final part, and the Babai rounding: k is arbitrary throughout.
- The workspace `tmp` that keygen.c shares between its functions: separate arrays here, so overlap is not modelled.
- fpr_expm_p63: a fixed-point polynomial whose accuracy rests on numeric constants.
- fft.c, the native-double, AVX2 and Cortex-M4 branches, and the tables of constants.
- rng.c, shake.c, Gaussian sampling, sign.c, vrfy.c, the CUDA kernel and the DLL loader.
- Command lines, CSV output, certificates, timing, and the rounding of the simulator's clock.
