/** Homomorphic digit decomposition (binfhe-base-scheme.cpp). */
module Decomposition {
  import opened Arith
  import opened Sums
  import opened Native
  import opened RgswParams
  import opened Lwe
  import opened Encryption
  import opened Bootstrapping
  import opened Functional
  import opened FunctionEval
  import opened Levels
  import opened Runs
  import opened LargePrecision

  ghost predicate DigitHeld(p: LweParams, c: Cipher, s: seq<int>, beta: int, d: int) {
    Holds(p, c, s, p.q, d * (2 * beta), beta - 1)
  }

  /** ct modulo q encrypts the low digit of ct's message. */
  lemma LowDigit(p: LweParams, c: Cipher, s: seq<int>, beta: int, M: nat, P: int, t: int)
    requires c.Valid() && |s| == |c.a| == p.n && p.q > 2 && beta > 0 && P > 0 && p.q == P * (2 * beta) &&
             c.modulus == c.modulus / p.q * p.q
    requires 0 <= t < beta && Near(Phase(c, s), M * (2 * beta), c.modulus, t)
    ensures DigitHeld(p, ChangeModulusV(c, p.q), s, beta, M % P)
  {
    hide Phase, ChangeModulusV;
    var q, x, y := p.q, Phase(c, s), Phase(ChangeModulusV(c, p.q), s);
    ChangeModulusPhase(c, q, c.modulus / q, s);
    var e := NearError(x, M * (2 * beta), c.modulus, t);
    CongCoarser(x, M * (2 * beta) + e, c.modulus / q, q);
    CongTrans(y, x, M * (2 * beta) + e, q);
    DivMod(M, P);
    MulDistrib(M / P * P, M % P, 2 * beta);
    MulAssocInt(M / P, P, 2 * beta);
    CongOf(M * (2 * beta) + e, M % P * (2 * beta) + e, M / P, q);
    CongTrans(y, M * (2 * beta) + e, M % P * (2 * beta) + e, q);
    NearFromCong(y, M % P * (2 * beta), e, q, beta - 1);
  }

  /** The ciphertexts collected so far hold the low digits of m. */
  ghost predicate DigitsHeld(p: LweParams, ret: seq<LWECiphertext>, s: seq<int>, beta: int, m: nat, P: nat, good: bool)
    requires P > 0
    reads ret
  {
    forall i :: 0 <= i < |ret| ==> Shaped(p, ret[i].Value(), p.q) &&
                                   (good ==> DigitHeld(p, ret[i].Value(), s, beta, Digit(m, P, i)))
  }

  /** All but the last ciphertext hold a digit of m modulo q; the last holds the remaining quotient. */
  ghost predicate DecompHeld(p: LweParams, ret: seq<LWECiphertext>, s: seq<int>, beta: int, m: nat, P: nat)
    requires P > 0 && beta > 0
    reads ret
  {
    && |ret| > 0 && DigitsHeld(p, ret[..|ret| - 1], s, beta, m, P, true)
    && LastHeld(p, ret[|ret| - 1].Value(), s, beta, Quot(m, P, |ret| - 1), true)
  }

  ghost predicate LastHeld(p: LweParams, c: Cipher, s: seq<int>, beta: int, M: int, good: bool)
    requires beta > 0
  {
    good ==> InLevel(M, c.modulus, beta) && c.modulus == c.modulus / (2 * beta) * (2 * beta) &&
             Holds(p, c, s, c.modulus, M * (2 * beta), beta - 1)
  }

  /** A copy of ct reduced modulo q. */
  method CopyModq(p: LweParams, ct: LWECiphertext, beta: int, keys: Keys, ghost base: nat, ghost o: Owner, ghost M: nat,
                  ghost t: int, ghost good: bool)
    returns (ctq: LWECiphertext)
    requires LargeParams(p, beta) && beta > 0 && AtLevel(p, beta, keys, o, ct.Value(), base, M, t, good) &&
             ct.modulus > p.q && |o.s| == p.n
    ensures fresh(ctq) && Shaped(p, ctq.Value(), p.q) && DigitSize(p.q, beta) > 0
    ensures good ==> DigitHeld(p, ctq.Value(), o.s, beta, M % DigitSize(p.q, beta))
  {
    hide Near, Phase, LargeParams, IsPow2, DigitSize, LevelRoom, ChangeModulusV, DigitHeld, LevelNoise, FloorNoise;
    ctq := new LWECiphertext(ct.Value());
    LevelFacts(p, ct.Value(), beta);
    DigitSizes(p, beta);
    ctq.SetModulus(p.q);
    if good {
      RoomStep(p, beta, keys, o, ct.modulus, base, t);
      LevelNoisePositive(p, ct.modulus, base, o.E, o.Eks);
      LowDigit(p, ct.Value(), o.s, beta, M, DigitSize(p.q, beta), t);
    }
  }

  /** The last level, with its noise below beta. */
  lemma LastLevel(p: LweParams, beta: int, keys: Keys, o: Owner, c: Cipher, base: nat, M: int, t: int, good: bool)
    requires LargeParams(p, beta) && beta > 0 && AtLevel(p, beta, keys, o, c, base, M, t, good) && c.modulus <= p.q
    ensures LastHeld(p, c, o.s, beta, M, good)
  {
    hide Near, Phase, LevelRoom;
    FinalModulus(p, beta, c.modulus);
    if good {
      RoomEnd(p, beta, keys, o, c.modulus, base, t);
      NearWeaken(Phase(c, o.s), M * (2 * beta), c.modulus, t, beta - 1);
    }
  }

  /** The state of the loop: the step of the run, and the digits collected so far. */
  ghost predicate SplitState(p: LweParams, params: RingGSWCryptoParams, run: Run, curEK: BTKey, ct: LWECiphertext,
                             ret: seq<LWECiphertext>,
                             o: Owner, m: nat, e: int, good: bool, en: Entry)
    requires RunOk(p, run, en) && DigitSize(p.q, run.beta) > 0
    reads params, ct, ret
  {
    && AtStep(p, params, run, curEK, ct, o, m, e, good, en, |ret|)
    && DigitsHeld(p, ret, o.s, run.beta, m, DigitSize(p.q, run.beta), good)
  }

  /** One iteration: the low digit is copied out, then dropped. */
  method SplitStep(p: LweParams, params: RingGSWCryptoParams, curEK: BTKey, ct: LWECiphertext, ret: seq<LWECiphertext>,
                   run: Run,
                   ghost o: Owner, ghost m: nat, ghost e: int, ghost good: bool, ghost en: Entry)
    returns (r: Result<LWECiphertext>, ctq: LWECiphertext, ek: BTKey, ghost e2: int, ghost at: nat)
    requires RunOk(p, run, en) && KeysReady(p, run.keys, o) && ct.modulus > p.q && DigitSize(p.q, run.beta) > 0
    requires SplitState(p, params, run, curEK, ct, ret, o, m, e, good, en)
    modifies params`baseG, params`digitsG, params`gpower, params`gpowerMap
    ensures ParamsReady(p, params) && p.q > 0
    ensures r.Err? ==> Stopped(p, params, run, r.error, en, at) &&
                       (at == Iterations(p, run.beta, run.mod) ==> run.Base(at) !in run.keys)
    ensures r.Ok? ==> fresh(ctq) && fresh(r.value) && r.value.modulus == NextMod(ct.modulus, p.q, run.beta) < ct.modulus
    ensures r.Ok? ==> SplitState(p, params, run, ek, r.value, ret + [ctq], o, m, e2, good, en)
  {
    hide LargeParams, IsPow2, DigitSize, DigitCount, DigitHeld, Quot, KeysReady, AtStep, AtLevel, RunOk, ParamsReady,
         Stopped, Shaped, NextMod,
         Run.Valid, Run.Base, Since, Iterations;
    AtStepFacts(p, params, run, curEK, ct, o, m, e, good, en, |ret|);
    DigitSizes(p, run.beta);
    KeysSecret(p, run.keys, o);
    ghost var P := DigitSize(p.q, run.beta);
    ctq := CopyModq(p, ct, run.beta, run.keys, params.baseG, o, Quot(m, P, |ret|), e, good);
    r, ek, e2, at := Advance(p, params, curEK, ct, run, o, m, e, good, en, |ret|);
    IterationOf(run, |ret|, m, P);
  }

  lemma KeysSecret(p: LweParams, keys: Keys, o: Owner)
    requires p.Valid() && KeysReady(p, keys, o)
    ensures |o.s| == p.n
  {
  }

  /** The state of the loop at its end. */
  lemma SplitEnd(p: LweParams, params: RingGSWCryptoParams, run: Run, curEK: BTKey, ct: LWECiphertext,
                 ret: seq<LWECiphertext>,
                 o: Owner, m: nat, e: int, good: bool, en: Entry)
    requires RunOk(p, run, en) && DigitSize(p.q, run.beta) > 0 && ct.modulus <= p.q
    requires SplitState(p, params, run, curEK, ct, ret, o, m, e, good, en)
    ensures |ret| == Iterations(p, run.beta, run.mod) && ct.modulus > 0
    ensures AtStep(p, params, run, curEK, ct, o, m, e, good, en, |ret|)
    ensures good ==> DecompHeld(p, ret + [ct], o.s, run.beta, m, DigitSize(p.q, run.beta))
  {
    hide Near, Phase, LargeParams, IsPow2, DigitSize, LevelRoom, Quot, LastHeld, DigitHeld, DigitCount, Holds, AtStep,
         AtLevel, Iterations;
    AtStepFacts(p, params, run, curEK, ct, o, m, e, good, en, |ret|);
    ShapedPositive(p, ct.Value());
    LastLevel(p, run.beta, run.keys, o, ct.Value(), params.baseG, Quot(m, DigitSize(p.q, run.beta), |ret|), e, good);
    var all := ret + [ct];
    assert all[..|all| - 1] == ret;
  }

  lemma ShapedPositive(p: LweParams, c: Cipher)
    requires Shaped(p, c, c.modulus)
    ensures c.modulus > 0
  {
  }

  /** The loop of EvalDecomp. */
  method SplitToLast(p: LweParams, params: RingGSWCryptoParams, start: LWECiphertext, run: Run,
                     ghost o: Owner, ghost m: nat, ghost t: int, ghost good: bool, ghost en: Entry)
    returns (r: Result<seq<LWECiphertext>>, ghost curEK: BTKey, ghost e: int, ghost at: nat)
    requires RunOk(p, run, en) && KeysReady(p, run.keys, o) && DigitSize(p.q, run.beta) > 0 && start.modulus == run.mod
    requires params.baseG in run.keys && AtStep(p, params, run, run.keys[params.baseG], start, o, m, t, good, en, 0)
    modifies params`baseG, params`digitsG, params`gpower, params`gpowerMap
    ensures ParamsReady(p, params)
    ensures r.Err? ==> Stopped(p, params, run, r.error, en, at) &&
                       (at == Iterations(p, run.beta, run.mod) ==> run.Base(at) !in run.keys)
    ensures r.Ok? ==> |r.value| == 1 + Iterations(p, run.beta, run.mod)
    ensures r.Ok? ==> forall i :: 0 <= i < |r.value| ==> r.value[i] == start || fresh(r.value[i])
    ensures r.Ok? ==> AtStep(p, params, run, curEK, r.value[|r.value| - 1], o, m, e, good, en, |r.value| - 1)
    ensures r.Ok? ==> 0 < r.value[|r.value| - 1].modulus <= p.q
    ensures r.Ok? && good ==> DecompHeld(p, r.value, o.s, run.beta, m, DigitSize(p.q, run.beta))
  {
    hide LargeParams, IsPow2, DigitSize, DigitCount, KeysReady, DecompHeld, NextMod, Run.Valid, Run.Base, ParamsReady,
         Stopped, AtStep, RunOk,
         Iterations, DigitHeld, Shaped;
    AtStepFacts(p, params, run, run.keys[params.baseG], start, o, m, t, good, en, 0);
    var q, beta, mod, cttmp := p.q, run.beta, start.modulus, start;
    var ek := run.keys[params.baseG];
    curEK, e, at := ek, t, 0;
    var ret: seq<LWECiphertext> := [];
    while mod > q
      invariant (cttmp == start || fresh(cttmp)) && cttmp.modulus == mod && ParamsReady(p, params)
      invariant SplitState(p, params, run, ek, cttmp, ret, o, m, e, good, en)
      invariant forall i :: 0 <= i < |ret| ==> fresh(ret[i])
      decreases mod
    {
      var step, ctq, key, e2, i := SplitStep(p, params, ek, cttmp, ret, run, o, m, e, good, en);
      if step.Err? { return Err(step.error), ek, e, i; }
      NextModIs(mod, q, beta);
      ret, cttmp, ek, e := ret + [ctq], step.value, key, e2;
      mod := mod / q * 2 * beta;
    }
    SplitEnd(p, params, run, ek, cttmp, ret, o, m, e, good, en);
    return Ok(ret + [cttmp]), ek, e, at;
  }

  /**
    The outcome of EvalDecomp on a run. Its last iteration does not bootstrap, so the last base
    only has to have an entry in the map.
  */
  ghost predicate DecompOutcome(p: LweParams, params: RingGSWCryptoParams, run: Run, en: Entry,
                                r: Result<seq<LWECiphertext>>)
    requires LargeParams(p, run.beta) && run.Valid()
    reads params
  {
    var k := Iterations(p, run.beta, run.mod);
    if run.HeldBefore(k) && run.Base(k) in run.keys then r.Ok? && Returned(params, en, run.LeavesBy(k))
    else r.Err? && exists i: nat :: Stopped(p, params, run, r.error, en, i)
  }

  /** The keys that a decomposition of k iterations needs; the last base only needs an entry. */
  ghost predicate DecompKeysSuffice(run: Run, k: nat)
    requires run.Valid()
  {
    && k >= 1 && KeysSuffice(run, k - 1)
    && (|run.keys| == 3 ==>
          && (run.Level(k) <= 0x2_0000 ==> 0x800_0000 in run.keys)
          && (0x2_0000 < run.Level(k) <= 0x400_0000 ==> 0x4_0000 in run.keys))
  }

  lemma DecompKeysExactly(p: LweParams, run: Run)
    requires LargeParams(p, run.beta) && run.Valid() && run.q == p.q && IsPow2(run.mod) && run.mod > p.q
    ensures var k := Iterations(p, run.beta, run.mod);
            run.HeldBefore(k) && run.Base(k) in run.keys <==> DecompKeysSuffice(run, k)
  {
    hide Run.Base, Run.Level, Run.HeldBefore, KeysSuffice, Iterations, LargeParams, IsPow2;
    var k := Iterations(p, run.beta, run.mod);
    DigitSizes(p, run.beta);
    LevelSizes(p, run.beta, run.mod, 0);
    BaseByModulus(run, 0);
    SufficeExactly(run, k - 1);
    if run.HeldBefore(k) { LastEntry(run, k); }
  }

  /**
    Splits a message into base-P digits, P = q/(2*beta). It returns one ciphertext per
    iteration, modulo q, and the last level: 1 + the least i with P^i >= mod/q in all. It fails
    when there is nothing to split or where the run stops.
  */
  method EvalDecomp(p: LweParams, params: RingGSWCryptoParams, keys: Keys, ct: LWECiphertext, beta: int,
                    ghost o: Owner, ghost m: nat, ghost t: nat) returns (r: Result<seq<LWECiphertext>>)
    requires Runnable(p, params, keys, beta, o) && beta > 0 && Shaped(p, ct.Value(), ct.modulus) && IsPow2(ct.modulus)
    requires InLevel(m, ct.modulus, beta) && Near(Phase(ct.Value(), o.s), m * (2 * beta), ct.modulus, t)
    modifies params`baseG, params`digitsG, params`gpower, params`gpowerMap
    ensures ParamsReady(p, params) && p.q > 0 && ct.modulus > 0 && old(params.baseG) >= 2 && DigitSize(p.q, beta) >= 2
    ensures ct.modulus <= p.q ==> r == Err(NotImplementedError) && EntryOf(params) == old(EntryOf(params))
    ensures ct.modulus > p.q ==> DecompOutcome(p, params, old(RunFrom(p, params, keys, ct.modulus, beta)),
                                               old(EntryOf(params)), r)
    ensures ct.modulus > p.q ==>
              (r.Ok? <==> DecompKeysSuffice(old(RunFrom(p, params, keys, ct.modulus, beta)),
                                            Iterations(p, beta, ct.modulus)))
    ensures r.Ok? ==> |r.value| == 1 + Iterations(p, beta, ct.modulus) && 0 < r.value[|r.value| - 1].modulus <= p.q
    ensures r.Ok? ==> forall i :: 0 <= i < |r.value| ==> fresh(r.value[i])
    ensures r.Ok? && LevelRoom(p, beta, keys, o, ct.modulus, old(params.baseG), t) ==>
              DecompHeld(p, r.value, o.s, beta, m, DigitSize(p.q, beta))
  {
    hide Near, Phase, LargeParams, IsPow2, KeysReady, DigitSize, LevelRoom, InLevel, DigitCount, GPowers, Iterations,
         Run.Level, Run.Base, Run.LeavesBy, Run.HeldBefore, AtStep, DecompHeld, SameTables, DecompKeysSuffice;
    DigitSizes(p, beta);
    var q, mod, curBase := p.q, ct.modulus, params.baseG;
    if mod <= q { return Err(NotImplementedError); }
    var run := Run(keys, mod, q, beta, curBase);
    DecompKeysExactly(p, run);
    ghost var en := EntryOf(params);
    if curBase !in keys {
      DecompStopsAtOnce(p, params, run);
      return Err(MissingKeyError);
    }
    var cttmp := new LWECiphertext(ct.Value());
    ghost var good := LevelRoom(p, beta, keys, o, mod, curBase, t);
    FirstStep(p, params, run, cttmp, o, m, t, good);
    var parts, curEK, e, at := SplitToLast(p, params, cttmp, run, o, m, t, good, en);
    if parts.Err? {
      DecompStopped(p, params, run, parts.error, en, at);
      return parts;
    }
    ghost var k := Iterations(p, beta, mod);
    AtStepFacts(p, params, run, curEK, parts.value[|parts.value| - 1], o, m, e, good, en, k);
    SwitchTo(params, curBase, en, run.LeavesBy(k));
    return parts;
  }

  lemma DecompStopsAtOnce(p: LweParams, params: RingGSWCryptoParams, run: Run)
    requires RunOk(p, run, EntryOf(params)) && ParamsReady(p, params) && run.base == params.baseG &&
             params.baseG !in run.keys
    ensures Stopped(p, params, run, MissingKeyError, EntryOf(params), 0)
    ensures var k := Iterations(p, run.beta, run.mod); !(run.HeldBefore(k) && run.Base(k) in run.keys)
  {
    hide LargeParams, Iterations;
    StopAtOnce(p, params, run);
    DecompStopped(p, params, run, MissingKeyError, EntryOf(params), 0);
  }

  lemma DecompStopped(p: LweParams, params: RingGSWCryptoParams, run: Run, error: Error, en: Entry, i: nat)
    requires LargeParams(p, run.beta) && run.Valid() && Stopped(p, params, run, error, en, i)
    requires i == Iterations(p, run.beta, run.mod) ==> run.Base(i) !in run.keys
    ensures var k := Iterations(p, run.beta, run.mod); !(run.HeldBefore(k) && run.Base(k) in run.keys)
  {
    hide Iterations, LargeParams;
    assert !run.Held(i);
  }

  /** The decrypted value of a ciphertext whose modulus is a number of cells of width 2*beta. */
  function Decoded(c: Cipher, s: seq<int>, beta: int): int
    requires beta > 0
  {
    if c.modulus / (2 * beta) > 0 && c.modulus > 0
    then Decode(Phase(c, s) % c.modulus, c.modulus / (2 * beta), c.modulus)
    else 0
  }

  function DecodedTerm(cs: seq<Cipher>, s: seq<int>, beta: int, P: nat): int -> int
    requires beta > 0
  {
    i => if 0 <= i < |cs| then Decoded(cs[i], s, beta) * Pow(P, i) else 0
  }

  lemma HeldDecodes(p: LweParams, c: Cipher, s: seq<int>, beta: int, y: int, P: nat)
    requires beta > 0 && c.modulus == P * (2 * beta) && 0 <= y < P &&
             Holds(p, c, s, c.modulus, y * (2 * beta), beta - 1)
    ensures Decoded(c, s, beta) == y
  {
    hide Phase, Decode;
    DivModUnique(c.modulus, P, 0, 2 * beta);
    FuncDecodes(p, c, s, y, beta, P, beta - 1);
  }

  /** The decrypted digits reconstruct the message: m is the sum of digit_i * P^i. */
  lemma DecompReconstructs(p: LweParams, ret: seq<LWECiphertext>, cs: seq<Cipher>, s: seq<int>, beta: int, m: nat,
                           P: nat)
    requires beta > 0 && P >= 2 && p.q == P * (2 * beta) && DecompHeld(p, ret, s, beta, m, P)
    requires |cs| == |ret| && forall i :: 0 <= i < |cs| ==> cs[i] == ret[i].Value()
    ensures forall i :: 0 <= i < |cs| - 1 ==> Decoded(cs[i], s, beta) == Digit(m, P, i)
    ensures Sum(DecodedTerm(cs, s, beta, P), |cs|) == m
  {
    hide Holds, Quot, Decoded, Digit, InLevel, DecodedTerm;
    var k := |cs| - 1;
    forall i | 0 <= i < k ensures Decoded(cs[i], s, beta) == Digit(m, P, i) {
      assert ret[..k][i] == ret[i];
      DigitDecodes(p, cs[i], s, beta, Digit(m, P, i), P);
    }
    LastDecodes(p, cs[k], s, beta, Quot(m, P, k));
    SumOfDigits(cs, s, beta, P, m);
  }

  lemma DigitDecodes(p: LweParams, c: Cipher, s: seq<int>, beta: int, d: int, P: nat)
    requires beta > 0 && p.q == P * (2 * beta) && 0 <= d < P && DigitHeld(p, c, s, beta, d)
    ensures Decoded(c, s, beta) == d
  {
    HeldDecodes(p, c, s, beta, d, P);
  }

  lemma LastDecodes(p: LweParams, c: Cipher, s: seq<int>, beta: int, M: int)
    requires beta > 0 && LastHeld(p, c, s, beta, M, true)
    ensures Decoded(c, s, beta) == M
  {
    HeldDecodes(p, c, s, beta, M, c.modulus / (2 * beta));
  }

  lemma SumOfDigits(cs: seq<Cipher>, s: seq<int>, beta: int, P: nat, m: nat)
    requires beta > 0 && P >= 2 && |cs| > 0 && Decoded(cs[|cs| - 1], s, beta) == Quot(m, P, |cs| - 1)
    requires forall i :: 0 <= i < |cs| - 1 ==> Decoded(cs[i], s, beta) == Digit(m, P, i)
    ensures Sum(DecodedTerm(cs, s, beta, P), |cs|) == m
  {
    hide Decoded, Quot, Digit;
    var k := |cs| - 1;
    SumEq(DecodedTerm(cs, s, beta, P), DigitTerm(m, P), k);
    DigitsRecompose(m, P, k);
  }
}
