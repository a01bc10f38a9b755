# A verified model of FHEW/TFHE bootstrapping

This project models the Boolean and functional bootstrapping pipeline of `src/binfhe` in
Dafny, as exact integer and ring arithmetic with an explicit noise term, and proves what
each layer does to the phase `b - <a,s>` of a ciphertext.

The layers, one module per component:

- LWE (`Lwe`, `Encryption`, `ModSwitching`, `KeySwitching`): encryption and decryption with
  word arithmetic, the additive operations, modulus and key switching.
- Gadget (`Gadget`, `RgswParams`, `ExternalProduct`, `RgswKeys`, `Rlwe`): signed digits, the
  parameter tables and the base switch, and the external product in Z_Q[X]/(X^N + 1). `Ring`
  defines that ring by the negacyclic extension of coefficient sequences and proves its laws.
- Blind rotation (`Cggi`, `CggiKeys`, `Dm`, `DmKeys`): key generation and the two accumulators.
- Bootstrapping (`Bootstrapping`, `Gates`, `Circuits`, `BootKeys`): test polynomials, extraction,
  the way back to a small modulus, gates, and whole circuits.
- Functions and large precision (`Functional`, `FunctionEval`, `Flooring`, `Levels`,
  `Runs`, `LargePrecision`, `Decomposition`, `Context`, `EndToEnd`, `Instances`): EvalFunc, EvalFloor,
  EvalSign, EvalDecomp, the key map with its base switching, and whole round trips.

`Near(x, y, m, t)` says that x is within t of y modulo m; noise claims are worst-case. Random
draws are parameters, so a claim about a key or a ciphertext holds for every draw. A missing
key, an unsupported setting or a thrown exception is an `Err` of the corresponding kind. The
hypotheses on parameters can be met: `Circuits.SomeParametersWork` and `Instances.SampleRuns` give
parameters for the circuit theorem, for function evaluation and for large-precision runs.

What the code does that its documentation does not say; the member that states it is named where there is one:

- A periodic table with lut[0] equal to half the modulus is classified as arbitrary
  (`PeriodicTableMissed`), and so is a table that is negacyclic modulo q with two opposite entries both 0
  (`NegacyclicTableMissed`): the result is still right if q <= N, and an error otherwise.
- The DM product starts at row 1; the dropped row leaves the term z*dct[0] in the phase
  (`DmPhase`). Its message reduction is right for negative messages only if q divides 2^64.
- Switching to a gadget base that has no stored power table inserts an empty one, and the
  powers then do not match the base (`ChangeBaseG`).
- EvalSign and EvalDecomp that fail inside the loop leave the base they had reached (`EvalSign`).
- Loading a context re-derives its tables without a power map. With three keys the sign and the digits are
  still right, because no bootstrap reads the powers, but a run that leaves its base returns to it without
  its powers (`RestoredExactly`, `EmptyMapLosesPowers`), so later key generation would go wrong.
- Key generation for the accumulators casts the secret's modulus and entries to 32 bits. A ternary secret
  is read as meant exactly for some moduli (`CastExactly`); CGGI otherwise throws or silently encrypts
  another secret, and DM always does the latter (`CastMisreads`).
- Reducing a ciphertext of even modulus to modulus 2 flips the upper half of the entries (`ByTwoExactly`).
- For the bases that the large-precision loops switch to, a rest of 1 does occur in the signed
  digits when Q is just below 2^54 (`LargeBaseRest`); the noise bounds count it, so the results hold.
- The divisibility guards of Encrypt and Decrypt contain a constant-false factor and never fire,
  so decryption also runs where p does not divide q; `DecodeAnyModulus` gives the errors it tolerates then.

## Model

| member | source | states |
|---|---|---|
| `Circuits.RunCircuit` | src/binfhe/lib/binfhe-base-scheme.cpp:58-173 | Every well-formed circuit of any size over constants, NOT and the eight gates, with either accumulator, on distinct inputs with noise at most v: it fails exactly if a gate is given one wire twice; otherwise every wire carries its Boolean value with noise at most v, given 2v < q/8 (4v < q/8 where fast gates occur) |
| `Circuits.CarriesDecodes` | src/binfhe/lib/lwe-pke.cpp:91-134 | A wire with noise below q/8 decrypts, modulo 4, to its bit |
| `Circuits.NoiselessEmbedding` | src/binfhe/lib/lwe-pke.cpp:287-300 | A constant is embedded without noise |
| `Gates.EvalBinGate` | src/binfhe/lib/binfhe-base-scheme.cpp:58-127 | Over either accumulator: fails exactly on one object given twice or a missing key; otherwise the output carries the truth value with the post-bootstrap noise, whatever the inputs' noise within q/8; the XOR/XNOR recursion terminates and never meets the independence check |
| `Gates.GateLaws` | src/binfhe/lib/binfhe-base-scheme.cpp:65-76 | XOR is OR(AND(x,!y), AND(!x,y)), XNOR, NOR and NAND are negations, AND follows from OR by De Morgan, and the fast gates equal the composite ones |
| `Gates.Bootstrap` | src/binfhe/lib/binfhe-base-scheme.cpp:130-158 | Refreshing keeps the bit and replaces the noise by the post-bootstrap bound |
| `Gates.EvalNOT` | src/binfhe/lib/binfhe-base-scheme.cpp:161-173 | The code's loop computes the negated vector and q/4 - b |
| `Gates.NotCarries` | src/binfhe/lib/binfhe-base-scheme.cpp:161-173 | NOT complements the carried bit and keeps the noise bound |
| `Gates.InRangeExactly` | src/binfhe/lib/binfhe-base-scheme.cpp:491-494 | Both branches (q1 < q2 and q1 >= q2) decide exactly the half circle that starts at q1 |
| `Gates.GateMap` | src/binfhe/include/rgsw-cryptoparameters.h:124-132 | The gate constants realise all six truth tables, for every input error below q/8 |
| `Gates.GateLookup` | src/binfhe/lib/binfhe-base-scheme.cpp:464-495 | For every phase, the rotated test polynomial shows -Q8 on the half circle from q1 and +Q8 elsewhere |
| `Gates.GatePolynomial` | src/binfhe/lib/binfhe-base-scheme.cpp:472-495 | The loop that fills the test polynomial tabulates the stored gate value at every multiple of 2N/q |
| `Gates.BootstrapGateCore` | src/binfhe/lib/binfhe-base-scheme.cpp:451-516 | The front coefficient of the accumulator's phase, CGGI or DM, is the gate value of the input's phase up to the accumulator noise; a missing key is an error |
| `Gates.GateOutput` | src/binfhe/lib/binfhe-base-scheme.cpp:110-126 | Adding Q/8 + 1, extracting and switching back gives the bit in multiples of q/4, up to the post-bootstrap noise |
| `Bootstrapping.Lookup` | src/binfhe/lib/binfhe-base-scheme.cpp:541-544 | Rotating a sparse negacyclic test polynomial of V by u shows V(b-u) in the lower half period of u and -V(b-u+h) in the upper |
| `Bootstrapping.ExtractPhase` | src/binfhe/lib/binfhe-base-scheme.cpp:91-119 | Transposing a and taking b[0] gives an LWE ciphertext whose phase is the constant coefficient of the ring phase |
| `Bootstrapping.SwitchBack` | src/binfhe/lib/binfhe-base-scheme.cpp:119-125 | ModSwitch, KeySwitch, ModSwitch scale the phase from Q to the target modulus with an explicit worst-case bound |
| `Bootstrapping.BootResult` | src/binfhe/lib/binfhe-base-scheme.cpp:561-581 | The noise of a whole bootstrap: accumulator, encoding, key switching and both roundings |
| `Bootstrapping.Accumulate` | src/binfhe/lib/binfhe-base-scheme.cpp:503-515 | Running either accumulator, CGGI or DM as the parameters select, brings the coefficient of the test polynomial at <a,s>*2N/q to the front, up to that accumulator's noise |
| `Functional.FuncLookup` | src/binfhe/lib/binfhe-base-scheme.cpp:521-558 | For every f with f(x) + f(x + h) = 0 modulo F, the lookup is floor(Q/F)*f(phase), plus exactly c*(Q mod F) when <a,s> falls in the upper half, where c*F is that sum |
| `Functional.FuncPolynomial` | src/binfhe/lib/binfhe-base-scheme.cpp:534-544 | The loop that fills the test polynomial of any negacyclic f |
| `Functional.BootstrapFuncCore` | src/binfhe/lib/binfhe-base-scheme.cpp:522-558 | The accumulator shows the lookup value of the input's phase up to the accumulator noise; a missing key is an error |
| `Functional.BootstrapFunc` | src/binfhe/lib/binfhe-base-scheme.cpp:561-581 | The output's phase is f of the input's phase up to the bootstrap noise, whatever the input's noise |
| `FunctionEval.SignQuarterAntiperiodic` | src/binfhe/lib/binfhe-base-scheme.cpp:237-242 | The sign lambdas f0 and f1 are negacyclic |
| `FunctionEval.HalfTableAntiperiodic` | src/binfhe/lib/binfhe-base-scheme.cpp:250-255 | The table lambdas fLUT1 and fLUT2 are negacyclic for every table |
| `FunctionEval.NegacyclicAntiperiodic` | src/binfhe/lib/binfhe-base-scheme.cpp:214-218 | A table that gets verdict 0 gives a negacyclic fLUT |
| `FunctionEval.CheckInputFunction` | src/binfhe/lib/binfhe-base-scheme.cpp:176-200 | Verdict 0 exactly if lut[i] + lut[i + n/2] is the modulus for all i < n/2, 1 exactly if lut[i] = lut[i + n/2] for all of them and 2*lut[0] differs from the modulus, 2 otherwise |
| `FunctionEval.PeriodicTableMissed` | src/binfhe/lib/binfhe-base-scheme.cpp:178-187 | A periodic table that starts with half the modulus is sent to the arbitrary branch |
| `FunctionEval.NegacyclicTableMissed` | src/binfhe/lib/binfhe-base-scheme.cpp:178-187 | A table negacyclic modulo q with opposite entries both 0 is sent to the arbitrary branch |
| `FunctionEval.GenerateLUTviaFunction` | src/binfhe/lib/binfhecontext.cpp:283-305 | Succeeds exactly for a power of two p and a function below p on the cells; the table is f(i/interval, p)*interval |
| `FunctionEval.FoldCell` | src/binfhe/lib/binfhe-base-scheme.cpp:226-247 | Subtracting the bootstrapped sign moves message m of 2H to m or m - H in the lower half circle without leaving its cell |
| `FunctionEval.DoubledMessage` | src/binfhe/lib/binfhe-base-scheme.cpp:231-233 | Reread modulo 2q, a ciphertext of m encrypts m or m + P |
| `FunctionEval.PeriodicMessage` | src/binfhe/lib/binfhe-base-scheme.cpp:260-282 | In a periodic table the function has period P/2 |
| `FunctionEval.EvalFunc` | src/binfhe/lib/binfhe-base-scheme.cpp:204-283 | Fails exactly for an arbitrary table with q > N or without a key; otherwise, whichever branch is taken, the result encrypts g(m) with the noise of one bootstrap |
| `FunctionEval.MessagesPow2` | src/core/include/math/hal/intnat/transformnat-impl.h:561-563 | The transform accepts only power-of-two rings, so with q dividing 2N the number of messages is a power of two, and q divides N when it does not exceed it |
| `FunctionEval.OneMessageValue` | src/binfhe/lib/binfhe-base-scheme.cpp:276-282 | Over the one-message space every lookup of the periodic branch is right |
| `FunctionEval.VerdictOfFunction` | src/binfhe/lib/binfhe-base-scheme.cpp:176-200 | The table of f avoids the arbitrary branch exactly when f(x)+f(x+P/2) = P for all x, or f has period P/2 and 2f(0) differs from P |
| `FunctionEval.EvalFunction` | src/binfhe/lib/binfhecontext.cpp:256-305 | From a function to a decrypted value, q > N included: it succeeds exactly for values below P and f negacyclic, recognised as periodic, or q <= N; then for every m in [0,P) the result decrypts to f(m,P) |
| `FunctionEval.FuncDecodes` | src/binfhe/lib/lwe-pke.cpp:91-134 | A result with noise below beta decrypts to the function value |
| `Flooring.MiddleIdentityAntiperiodic` | src/binfhe/lib/binfhe-base-scheme.cpp:311-318 | The lambda f2 is negacyclic for every modulus of at least q |
| `Flooring.FloorCancels` | src/binfhe/lib/binfhe-base-scheme.cpp:304-320 | The first bootstrap's error enters minuend and looked-up value and cancels; the phase becomes q*floor(x/q) up to the second error only |
| `Flooring.FloorOffset` | src/binfhe/lib/binfhe-base-scheme.cpp:304-320 | Whatever the two errors, the exact result of both bootstraps: the floor, plus a slip when the first error leaves the half circle, minus the second error |
| `Flooring.FloorExactly` | src/binfhe/lib/binfhe-base-scheme.cpp:304-320 | The result is the floor up to the second error if and only if the first error keeps the shifted phase in its half circle |
| `Flooring.EvalFloor` | src/binfhe/lib/binfhe-base-scheme.cpp:286-323 | For every phase clear of the half circles' edges the result's phase is q*floor((phase+beta)/q) up to one bootstrap's noise, with q the parameter's for roundbits = 0 and 2^roundbits*(2*beta) otherwise; then message m with noise below beta becomes floor(m/2^roundbits) in cells of that width |
| `Flooring.FloorMessage` | src/binfhe/lib/binfhe-base-scheme.cpp:286-323 | Flooring message m with noise below beta divides it by the digit size; the shifted phase is clear of the edges |
| `Flooring.RoundedMessage` | src/binfhe/lib/binfhe-base-scheme.cpp:286-323 | Flooring by R cells moves a phase near m*(2*beta) to floor(m/R)*(R*2*beta) |
| `Flooring.FloorDecodes` | src/binfhe/lib/lwe-pke.cpp:91-134 | A floored message decrypts, with P/R messages, to floor(m/R) |
| `Levels.SwitchLevel` | src/binfhe/lib/binfhe-base-scheme.cpp:352-354 | Switching to the next modulus turns q*y into 2*beta*y with noise v/P plus the rounding |
| `Levels.NextModSizes` | src/binfhe/lib/binfhe-base-scheme.cpp:352-352 | Each iteration divides the modulus by q/(2*beta), so it strictly decreases, stays a power of two and keeps two cells |
| `Levels.LevelSizes` | src/binfhe/lib/binfhe-base-scheme.cpp:350-352 | Iteration j is at modulus mod/P^j, which exceeds q exactly for the first k iterations, k the least with P^k >= mod/q |
| `Runs.LeavesExactly` | src/binfhe/lib/binfhe-base-scheme.cpp:356-374 | A run leaves its first base exactly when the map holds three keys and the modulus of some iteration asks for another base |
| `Runs.BaseByModulus` | src/binfhe/lib/binfhe-base-scheme.cpp:356-374 | With three keys, iteration j >= 1 has base 2^27 for a modulus up to 2^17, 2^18 for one above that and up to 2^26, and the base before it for a larger one; otherwise the first base |
| `Runs.SufficeExactly` | src/binfhe/lib/binfhe-base-scheme.cpp:341-374 | Every base of a run has a key exactly when the first has one and, with three keys, 2^18 has one if some later modulus lies in (2^17, 2^26] and 2^27 has one if some later modulus is at most 2^17 |
| `Runs.HeldWithoutSwitching` | src/binfhe/lib/binfhe-base-scheme.cpp:341-347 | Without three keys every visited base has its key exactly when the first one has |
| `Runs.HeldWithSwitching` | src/binfhe/lib/binfhe-base-scheme.cpp:356-374 | With three keys every visited base has its key exactly when the first base and every base asked for have |
| `Runs.CompleteHolds` | src/binfhe/lib/binfhe-base-scheme.cpp:356-374 | If the first base and, with three keys, 2^18 and 2^27 have keys, every base of every run has one |
| `Runs.SwitchTo` | src/binfhe/include/rgsw-cryptoparameters.h:267-273 | A switch leaves the initial powers until the first base change and then the stored ones, and only ever adds empty tables |
| `Runs.RestoredExactly` | src/binfhe/lib/binfhe-base-scheme.cpp:383-383 | The powers on return belong to the base exactly when the run never left it or its table is stored |
| `LargePrecision.DropDigit` | src/binfhe/lib/binfhe-base-scheme.cpp:351-354 | One flooring and switch: the message loses its low digit and the noise is fresh |
| `LargePrecision.NextLevel` | src/binfhe/lib/binfhe-base-scheme.cpp:350-375 | The loop body: the active key is the one stored under the current base, whatever power tables are stored, and a missing key is detected after the base has changed |
| `LargePrecision.KeepMsb` | src/binfhe/lib/binfhe-base-scheme.cpp:350-354 | Dropping the low digit keeps the message in range and keeps its most significant bit |
| `LargePrecision.UniformRoom` | src/binfhe/lib/binfhe-base-scheme.cpp:350-354 | One bound v on the bootstrap noise with t + v < beta and v/P plus the rounding + v < beta restores the noise invariant at every level of every run |
| `LargePrecision.Advance` | src/binfhe/lib/binfhe-base-scheme.cpp:350-375 | One iteration keeps key/base agreement, the base and modulus of the run, the dropped digits and the noise invariant, or stops at the first base without a key |
| `LargePrecision.QuarterSignAntiperiodic` | src/binfhe/lib/binfhe-base-scheme.cpp:379-381 | The lambda f3 is negacyclic |
| `LargePrecision.SignDecides` | src/binfhe/lib/binfhe-base-scheme.cpp:376-384 | The last bootstrap decides the half of the message's level |
| `LargePrecision.FinishSign` | src/binfhe/lib/binfhe-base-scheme.cpp:376-385 | Final bootstrap, return to the first base, and the sign in multiples of q/2 |
| `LargePrecision.FloorToLast` | src/binfhe/lib/binfhe-base-scheme.cpp:349-375 | The loop terminates at the last level with the most significant bit kept, or stops at the first visited base without a key |
| `LargePrecision.EvalSign` | src/binfhe/lib/binfhe-base-scheme.cpp:326-386 | Succeeds exactly when the first base has a key and, with three keys, 2^18 has one if a later modulus lies in (2^17, 2^26] and 2^27 if one is at most 2^17, with or without stored power tables; then the result encrypts whether m is in the upper half, base and digit count are those of the call, and the powers are those of the call or, if the base was left, the stored ones; otherwise the error and the base left behind are those of the first base without a key |
| `LargePrecision.SignDecodes` | src/binfhe/lib/lwe-pke.cpp:91-134 | The sign decrypts modulo 2 when its noise is below q/4 |
| `Decomposition.LowDigit` | src/binfhe/lib/binfhe-base-scheme.cpp:414-416 | The ciphertext reduced modulo q encrypts the low digit of its message |
| `Decomposition.SplitToLast` | src/binfhe/lib/binfhe-base-scheme.cpp:411-445 | The loop of the decomposition, with the digits collected so far and the step of the run as invariants |
| `Decomposition.EvalDecomp` | src/binfhe/lib/binfhe-base-scheme.cpp:389-447 | Returns 1 + (least i with P^i >= mod/q) ciphertexts holding the base-P digits of m, exactly when the bases of the moduli before the last have keys, by the same powers of two as for the sign, and the last one's has an entry; errors and returned parameters as for the sign |
| `Decomposition.DecompKeysExactly` | src/binfhe/lib/binfhe-base-scheme.cpp:424-442 | Keys before the last base and an entry for it are exactly the condition on powers of two |
| `Decomposition.DecompReconstructs` | src/binfhe/lib/binfhe-base-scheme.cpp:389-447 | The decrypted digits reconstruct the message: m = sum(digit_i * P^i) |
| `EndToEnd.SignRoundTrip` | src/binfhe/lib/binfhecontext.cpp:272-276 | Encrypt, EvalSign, Decrypt returns 1 exactly when m is in the upper half; it succeeds exactly when every visited base has a key, so always with a complete map |
| `EndToEnd.DecompRoundTrip` | src/binfhe/lib/binfhecontext.cpp:278-281 | Encrypt, EvalDecomp and decrypting the parts with weights P^i returns m; it succeeds always with a complete map |
| `EndToEnd.FloorRoundTrip` | src/binfhe/lib/binfhecontext.cpp:261-270 | Encrypt, EvalFloor by r >= 1 bits and Decrypt with P/2^r messages returns floor(m/2^r), for every m; it fails exactly without a key |
| `EndToEnd.LargePrecisionRoundTrip` | src/binfhe/lib/binfhecontext.cpp:216-281 | For all draws: from a ternary secret with a castable modulus, BTKeyGen, encryption, sign and decomposition always succeed, decrypt to [m >= P/2] and m, and leave base, digit count and powers as they were |
| `EndToEnd.UniformRuns` | src/binfhe/lib/binfhe-base-scheme.cpp:350-375 | One noise bound for all levels and bases leaves room for every run, whatever the map holds |
| `EndToEnd.CircuitRoundTrip` | src/binfhe/lib/binfhe-base-scheme.cpp:58-173 | Encrypting the inputs, running any circuit and decrypting every wire gives its Boolean values; it fails exactly if a gate is given one wire twice |
| `Instances.SampleSwitches` | src/binfhe/lib/binfhe-base-scheme.cpp:356-374 | With three keys the run 1024, 256, 64 switches from base 2^14 to 2^27 after its first iteration |
| `Instances.EmptyMapLosesPowers` | src/binfhe/include/rgsw-cryptoparameters.h:240-258 | Three keys and no power map, as after loading a context: on return the base is back and its powers are empty |
| `Cggi.CmuxIdentity` | src/binfhe/lib/rgsw-acc-cggi.cpp:136-139 | 1 + s+(X^c - 1) + s-(X^-c - 1) = X^(c*s) for ternary s, on every phase and noise |
| `Cggi.AddToAccCGGI` | src/binfhe/lib/rgsw-acc-cggi.cpp:140-473 | The code's sequence of in-place products computes acc + (X^c-1)*(dct.ek1) + (X^-c-1)*(dct.ek2) with the digits of the accumulator at entry |
| `Cggi.CombineInPlace` | src/binfhe/lib/rgsw-acc-cggi.cpp:449-451 | Multiplying dct[l] in place still gives the inner product of the original digits |
| `Cggi.MonomialIndex` | src/binfhe/lib/rgsw-acc-cggi.cpp:229-240 | The adjusted indices select X^c - 1 and X^-c - 1, the edge case c = 2N included |
| `Cggi.CmuxPhase` | src/binfhe/lib/rgsw-acc-cggi.cpp:334-472 | One step multiplies the phase by X^(c*s) for ternary s and adds an explicit noise polynomial of norm at most 4*k*N*B*E plus 4*(1+N) times the gadget slack |
| `Cggi.CmuxErrorExact` | src/binfhe/lib/rgsw-acc-cggi.cpp:334-472 | With an exact gadget that noise is exactly (X^c-1)*sum(d_l*e1_l) + (X^-c-1)*sum(d_l*e2_l), and the slack is 0 |
| `Cggi.EvalAcc` | src/binfhe/lib/rgsw-acc-cggi.cpp:82-93 | After n steps the phase is the initial one times X^(-<a,s>*2N/q) plus noise of norm at most n*(4*k*N*B*E + 4*(1+N)*slack), for every vector a, ternary s and odd Q; the slack is 0 for an exact gadget |
| `CggiKeys.KeyGenCGGI` | src/binfhe/lib/rgsw-acc-cggi.cpp:96-134 | For all draws the rows encrypt [m > 0] times the gadget, with the drawn errors |
| `CggiKeys.KeyGenAcc` | src/binfhe/lib/rgsw-acc-cggi.cpp:43-80 | The code casts modulus and entries to 32 bits: the pair of keys at each position encrypts the indicators of +1 and -1 of the secret as read, and generation fails exactly when that is not ternary |
| `Lwe.CastExactly` | src/binfhe/lib/rgsw-acc-cggi.cpp:46-58 | The casts keep 0, 1 and -1 if and only if the signed low 32-bit word of the modulus is 0 or at least 3 |
| `Lwe.ReadExactly` | src/binfhe/lib/rgsw-acc-cggi.cpp:46-58 | Any entry is read as the signed 32-bit number congruent to x, or to x - m if the low word of x exceeds half that of m |
| `Lwe.ReadTernary` | src/binfhe/lib/rgsw-acc-cggi.cpp:46-58 | Under such a modulus every ternary secret is read as meant |
| `Lwe.ReadSmall` | src/binfhe/lib/rgsw-acc-cggi.cpp:46-58 | For a modulus below 2^31 the casts change no entry |
| `Lwe.CastMisreads` | src/binfhe/lib/rgsw-acc-cggi.cpp:46-58 | Inputs that fail: modulus 2^31+1 reads 0 as a large number, 2^32+1 reads 1 and -1 as 0, and 2^35 reads 2^32 as 0 |
| `ExternalProduct.ExternalProductPhase` | src/binfhe/lib/rgsw-acc-cggi.cpp:335-337 | sum(d_l*row_l) has phase mu times the represented phase plus sum(d_l*e_l), for every message polynomial mu and the interleaved rows |
| `ExternalProduct.RepresentedUpTo` | src/binfhe/lib/rgsw-acc.cpp:79-103 | For every odd Q the represented phase is the phase minus an explicit missed part |
| `ExternalProduct.PhaseRestBound` | src/binfhe/lib/rgsw-acc.cpp:79-103 | The missed part is at most (1+N) times the distance of B^k from a multiple of Q |
| `ExternalProduct.PhaseRestExact` | src/binfhe/lib/rgsw-acc.cpp:79-103 | With an exact gadget nothing is missed |
| `ExternalProduct.ProductNoiseBound` | src/binfhe/lib/rgsw-acc-cggi.cpp:335-337 | sum(d_l*e_l) is bounded by 2k*N*(B/2)*E |
| `Dm.UnsignedReduction` | src/binfhe/lib/rgsw-acc-dm.cpp:101-102 | The unsigned reduction is right for a negative message exactly when q divides 2^64 |
| `Dm.ExponentExactly` | src/binfhe/lib/rgsw-acc-dm.cpp:101-107 | The exponent of every int64 message: m mod q, or m + 2^64 mod q if negative, times 2N/q |
| `Dm.ExponentCong` | src/binfhe/lib/rgsw-acc-dm.cpp:101-107 | The exponent is m*2N/q modulo 2N, for m >= 0 or q dividing 2^64 |
| `Dm.KeyGenDM` | src/binfhe/lib/rgsw-acc-dm.cpp:87-143 | For all draws and messages the rows encrypt X to the exponent the unsigned reduction gives, both branches included; that is m*2N/q for m >= 0 or q dividing 2^64 |
| `Dm.AddToAccDM` | src/binfhe/lib/rgsw-acc-dm.cpp:146-180 | The two loops, the second in place, compute the product over l >= 1 of the entry digits |
| `Dm.DmPhase` | src/binfhe/lib/rgsw-acc-dm.cpp:171-179 | One step sends the phase P to mu*(P - G + z*dct[0]) + sum over l >= 1 of dct[l]*e_l: z*dct[0] is the dropped row, and G, what the digits miss, is 0 for an exact gadget |
| `Dm.EvalAccDM` | src/binfhe/lib/rgsw-acc-dm.cpp:68-83 | The base-R loops rotate the phase by -<a,s>*2N/q with bounded noise and read only populated cells, for every vector of nonnegative entries, reduced or not |
| `Dm.ColumnExponent` | src/binfhe/lib/rgsw-acc-dm.cpp:76-81 | The base-R digits of -a_i mod q recompose exactly to the rotation of one entry |
| `DmKeys.KeyGenAccDM` | src/binfhe/lib/rgsw-acc-dm.cpp:39-66 | For every secret, nothing is thrown, no cell with j = 0 is filled, and every cell with 1 <= j < R holds a key for the exponent the code computes from the secret as read after its casts; where the entries fit that is s_i*j*R^k*2N/q |
| `DmKeys.KeyGenAP` | src/binfhe/lib/binfhe-base-scheme.cpp:39-55 | With DM, key generation never fails; for a ternary secret with a castable modulus and parameters whose exponents fit their words, the key is ready for gates and circuits |
| `DmKeys.CellFits` | src/binfhe/lib/rgsw-acc-dm.cpp:55-60 | The computed exponent is s*j*R^k*2N/q for zero entries and for those that survive the 32-bit and 64-bit casts and the unsigned reduction |
| `DmKeys.CellExactly` | src/binfhe/lib/rgsw-acc-dm.cpp:55-60 | The exponent of every cell, whatever the casts do, from the signed 32-bit and 64-bit numbers congruent to R^k and to the product |
| `Gadget.VariantsAgree` | src/binfhe/lib/rgsw-acc.cpp:84-93 | Shift form and mask form are the same signed residue, for every value and base 2^g |
| `Gadget.SignedRecompose` | src/binfhe/lib/rgsw-acc.cpp:79-103 | Digits plus rest*B^k equal the number |
| `Gadget.RestExactly` | src/binfhe/lib/rgsw-acc.cpp:79-103 | For odd Q and B^k >= Q the rest is 0 or 1, and 0 exactly when the centred coefficient is at most (B/2-1)(B^k-1)/(B-1) |
| `Gadget.ExactIff` | src/binfhe/lib/rgsw-acc.cpp:79-103 | The rest is 0 on all coefficients if and only if floor(Q/2)-1 <= (B/2-1)(B^k-1)/(B-1) |
| `Instances.LargeBaseRest` | src/binfhe/lib/binfhecontext.cpp:70-93 | For base 2^27 and Q just below 2^54, the digit count is 2, a rest does occur, and it is worth 2^54 - Q |
| `Gadget.SignedDigitDecompose` | src/binfhe/lib/rgsw-acc.cpp:57-104 | The triple loop adds digit l of coefficient k of input j to output[j + 2l][k], negative digits as residues |
| `Gadget.RecomposedWithRest` | src/binfhe/lib/rgsw-acc.cpp:79-103 | For every odd Q the weighted digit polynomials and a bounded rest error recompose the input modulo Q |
| `Gadget.RecomposedExact` | src/binfhe/lib/rgsw-acc.cpp:79-103 | With an exact gadget the weighted digit polynomials recompose the input modulo Q |
| `Encryption.Encrypt` | src/binfhe/lib/lwe-pke.cpp:56-87 | For all keys, draws, messages and moduli the phase is ((m mod 2^64) mod p)*floor(mod/p) plus the drawn error, hence m*floor(mod/p) + e for 0 <= m < p, with word arithmetic |
| `Encryption.EncodeMessage` | src/binfhe/lib/lwe-pke.cpp:68-68 | A message in [0,p) is encoded as itself, a negative one as its residue exactly when p divides 2^64 |
| `Encryption.Decrypt` | src/binfhe/lib/lwe-pke.cpp:91-134 | The result r is the floor of p*y/q, that is r*q <= p*y < (r+1)*q, at y = (phase + floor(q/2p)) mod q, for every p and q, with word arithmetic |
| `Encryption.DecodeExactly` | src/binfhe/lib/lwe-pke.cpp:114-123 | With 2p &#124; q a message is recovered if and only if the centred error lies in [-q/2p, q/2p) |
| `Encryption.DecodeAnyModulus` | src/binfhe/lib/lwe-pke.cpp:114-123 | For every q >= p, message m with centred error e is recovered if and only if m*(q mod p) <= p*(e + floor(q/2p)) < q + m*(q mod p) |
| `Encryption.RoundTrip` | src/binfhe/lib/lwe-pke.cpp:56-134 | For every q >= p, divisible or not: Decrypt(Encrypt(m)) = m exactly when the drawn error d, centred, satisfies m*(q mod p) <= p*(d + floor(q/2p)) < q + m*(q mod p); for q = 2cp that is -c <= d < c |
| `Encryption.SwitchModulus` | src/core/lib/math/hal/intnat/mubintvecnat.cpp:200-221 | A secret moved to another modulus stays congruent to its signed entries |
| `Encryption.AccumulateProducts` | src/binfhe/lib/lwe-pke.cpp:81-84 | The lazily reduced word-sized sum is congruent to the inner product |
| `ModSwitching.ModSwitchPhase` | src/binfhe/lib/lwe-pke.cpp:165-176 | &#124;Q*phase_q - q*phase_Q&#124; <= Q*(1+&#124;&#124;s&#124;&#124;_1)/2 modulo Q*q, for every ciphertext and integer key |
| `ModSwitching.RoundNear` | src/binfhe/lib/lwe-pke.cpp:41-46 | Rounding is within one half, modulo the wrap to [0,q) |
| `ModSwitching.RoundExactly` | src/binfhe/lib/lwe-pke.cpp:41-46 | The rounded value is w mod q for the one integer w with w - 1/2 <= v*q/Q < w + 1/2 |
| `ModSwitching.ModSwitch` | src/binfhe/lib/lwe-pke.cpp:165-176 | The loop rounds every entry |
| `KeySwitching.KeySwitchGen` | src/binfhe/lib/lwe-pke.cpp:179-256 | For all draws, with (n+1)*qKS <= 2^64, row (i,j,k) has phase s_i*j*B^k plus its error |
| `KeySwitching.KeySwitch` | src/binfhe/lib/lwe-pke.cpp:260-282 | The new phase is the old one minus the errors of the selected rows, modulo qKS |
| `KeySwitching.ErrorTotalBound` | src/binfhe/lib/lwe-pke.cpp:271-279 | The selected errors add up to at most N*d times the largest |
| `Lwe.AddPhase` | src/binfhe/lib/lwe-pke.cpp:136-139 | Adding ciphertexts adds phases |
| `Lwe.SubPhase` | src/binfhe/lib/lwe-pke.cpp:145-153 | Subtracting ciphertexts subtracts phases |
| `Lwe.NegPhase` | src/binfhe/lib/binfhe-base-scheme.cpp:161-173 | The negated ciphertext has phase q/4 minus the phase |
| `Lwe.ConstPhase` | src/binfhe/lib/lwe-pke.cpp:141-157 | Adding or subtracting a constant shifts the phase |
| `Lwe.EvalAddEq` | src/binfhe/lib/lwe-pke.cpp:136-139 | In-place sum, or an error on incompatible vectors that leaves the operand unchanged |
| `Lwe.EvalSubEq` | src/binfhe/lib/lwe-pke.cpp:145-148 | In-place difference, same error case |
| `Lwe.EvalSubEq2` | src/binfhe/lib/lwe-pke.cpp:150-153 | ct2 becomes ct1 - ct2, same error case |
| `Lwe.ChangeModulusPhase` | src/core/lib/math/hal/intnat/mubintvecnat.cpp:251-267 | Reducing to a divisor of the modulus other than 2 keeps the phase modulo that divisor |
| `Lwe.SignedModExactly` | src/core/lib/math/hal/intnat/mubintvecnat.cpp:251-267 | Under every new modulus other than 2, a divisor or not, an entry becomes the residue of its centred value |
| `Lwe.ByTwoExactly` | src/core/lib/math/hal/intnat/mubintvecnat.cpp:482-503 | The path for modulus 2 is right for an odd old modulus, and for an even one exactly on the lower half of the residues |
| `Lwe.LWECiphertext.SetModulus` | src/binfhe/include/lwe-ciphertext.h:120-124 | Every entry is reduced, with the separate path for modulus 2, and the modulus recorded |
| `RgswParams.RingGSWCryptoParams.constructor` | src/binfhe/include/rgsw-cryptoparameters.h:71-155 | Fills all tables: power tables for 2^14, 2^18 and 2^27 with signEval and none without, and the gate constants 5, 7, 1, 3, 5, 1 times q/8; the current powers match the base exactly when signEval is off or the base is one of the three |
| `RgswParams.RingGSWCryptoParams.PreCompute` | src/binfhe/lib/rgsw-cryptoparameters.cpp:36-102 | Appends to whatever the tables hold and overwrites the map entries of 2^14, 2^18 and 2^27; on empty tables it derives the same tables as the constructor |
| `RgswParams.SignBasesAre` | src/binfhe/include/rgsw-cryptoparameters.h:101-115 | The bases with stored powers are 2^14, 2^18 and 2^27 |
| `RgswParams.RingGSWCryptoParams.ChangeBaseG` | src/binfhe/include/rgsw-cryptoparameters.h:267-273 | Base, digit count and powers change together; an absent base inserts an empty table, and then the powers do not match |
| `RgswParams.MakeParams` | src/binfhe/include/rgsw-cryptoparameters.h:71-115 | Fails exactly when the gadget base is not a power of two; otherwise the tables are the constructor's |
| `BootKeys.KeyGen` | src/binfhe/lib/binfhe-base-scheme.cpp:39-55 | For all draws, a ternary secret with a castable modulus gives a key valid for the current base; in general the accumulator key is for the secret as read, and it fails exactly when that is not ternary |
| `Context.BinFHEContext.KeysForMap` | src/binfhe/lib/binfhecontext.cpp:221-229 | One key per base of the power map, each stored under the base it was generated for, and valid for it when the secret is read as meant |
| `Context.BinFHEContext.BTKeyGen` | src/binfhe/lib/binfhecontext.cpp:216-238 | From an empty map: fails exactly when the secret as read is not ternary; with time optimization and a nonempty power map the keys are for its bases (so for 2^14, 2^18 and 2^27, three keys, when those have tables), otherwise one key for the current base; the current key is that of the current base, and base and tables are those of the call; for a ternary secret with a castable modulus every key is valid for its base, and with the three bases or none the map is complete |
| `Context.GenerateBinFHEContext` | src/binfhe/lib/binfhecontext.cpp:51-106 | Fails exactly for a method other than GINX, a set other than TOY and STD128, or logQ outside [11,29]; the base is 2^14 for 26 to 29 bits, 2^18 for 17 to 25, 2^27 for 12 to 16, 2^5 for 11, and the three tables are stored exactly with time optimization above 11 bits; the context meets what key generation asks of tables, bases and the cast of qKS |
| `Ring.MulCommutes` | src/binfhe/lib/rgsw-acc-cggi.cpp:129-131 | The negacyclic product commutes |
| `Ring.MulAssoc` | src/binfhe/lib/rgsw-acc-cggi.cpp:129-131 | The negacyclic product is associative |
| `Ring.MulAddLeft` | src/binfhe/lib/rgsw-acc-cggi.cpp:129-131 | The negacyclic product distributes over sums and differences |
| `Ring.MulMonomial` | src/binfhe/lib/rgsw-acc-cggi.cpp:239-240 | Multiplying by X^j rotates negacyclically |

## Left out

- The debug dumps to text files inside EvalBinGate, BootstrapGateCore and AddToAccCGGI: output only.
- Number-theoretic transforms: SetFormat is the identity on the ring element, Transpose is X -> X^(-1), and NativeInteger operations are their modular specifications.
- Samplers and failure probabilities: draws are arbitrary, errors carry stated bounds, and nothing is said about security.
- Floating point: RoundqQ is exact rational rounding, and digit counts are the least k with base^k >= modulus.
- Serialization, shared pointers, exception texts, OpenMP and equality operators.
- The table of named parameter sets, and the search for the ring dimension and the prime in GenerateBinFHEContext, which are parameters here.
- EvalMultConstEq, the encryption wrappers of BinFHEContext that bootstrap after encrypting, and the copy of LWE parameters.
- Functions over the DM accumulator: it works modulo the parameter q only, and the library offers function evaluation for CGGI alone.
- LargePrecision.EvalSign: for power-of-two q, beta and modulus, as the library sets them.
- Flooring.EvalFloor: a signed shift of 1 by roundbits past 30 is not modelled, 2^roundbits is exact.
- Lwe.CastExactly: an int32_t overflow in the subtraction, undefined in C++, is modelled as wrap-around, and a right shift of a negative number as a floor.
- Context.BinFHEContext.BTKeyGen: requires an empty map, because an existing entry would be reused; it visits the bases in any order, where the code visits them in increasing order.
- Encryption.RoundTrip: without overflow in the unreduced sums and the final product, that is (n+2)*q and p*q at most 2^64.
