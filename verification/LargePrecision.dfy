/**
  Large-precision sign and digit decomposition, which chain floorings and switch the
  gadget base as the modulus shrinks (binfhe-base-scheme.cpp).
*/
module LargePrecision {
  import opened Arith
  import opened Native
  import opened Gadget
  import opened RgswParams
  import opened Lwe
  import opened Encryption
  import opened ModSwitching
  import opened Bootstrapping
  import opened Gates
  import opened Functional
  import opened FunctionEval
  import opened Flooring
  import opened Levels
  import opened Runs

  /** The secrets behind a key map: one LWE key s, error bounds E and Eks, and a ring key per base. */
  datatype Owner = Owner(s: seq<int>, E: nat, Eks: nat, behind: map<nat, Secrets>)

  ghost predicate KeyOf(p: LweParams, key: BTKey, b: nat, o: Owner)
    requires p.Valid()
  {
    && b >= 2 && b in o.behind && o.behind[b].s == o.s && o.behind[b].E == o.E && o.behind[b].Eks == o.Eks
    && Pow2Base(b) && GadgetOk(p.Q, b, DigitCount(p.Q, b))
    && ValidBTKey(key, p, b, DigitCount(p.Q, b), o.behind[b])
  }

  /** Every key present in the map belongs to the base it is stored under. */
  ghost predicate KeysReady(p: LweParams, keys: Keys, o: Owner)
    requires p.Valid()
  {
    && |o.s| == p.n && Ternary(o.s)
    && forall b :: b in keys && keys[b].bs.HasKey? ==> KeyOf(p, keys[b], b, o)
  }

  /** The parameters a bootstrap reads; the stored powers are not among them. */
  predicate ParamsReady(p: LweParams, params: RingGSWCryptoParams)
    reads params
  {
    && params.Valid() && params.kind == GINX && params.TablesReady()
    && params.N == p.N && params.Q == p.Q && params.q == p.q
  }

  lemma ActiveReady(p: LweParams, params: RingGSWCryptoParams, keys: Keys, o: Owner)
    requires p.Valid() && ParamsReady(p, params) && KeysReady(p, keys, o) && params.baseG in keys &&
             keys[params.baseG].bs.HasKey?
    ensures params.baseG in o.behind && o.behind[params.baseG].s == o.s
    ensures o.behind[params.baseG].E == o.E && o.behind[params.baseG].Eks == o.Eks
    ensures Ready(p, params, keys[params.baseG], o.behind[params.baseG])
  {
    hide ValidBTKey, GadgetOk, Pow2Base;
  }

  // ----- noise -----

  function LevelNoise(p: LweParams, mod: int, base: nat, E: nat, Eks: nat): int
    requires p.Valid() && mod > 0 && base >= 2
  {
    FuncNoise(p, mod, base, DigitCount(p.Q, base), E, Eks)
  }

  /** At every level, the noise of the ciphertext and of one bootstrap together stay below beta. */
  ghost predicate LevelRoom(p: LweParams, beta: int, keys: Keys, o: Owner, mod: int, base: nat, t: int)
    requires LargeParams(p, beta) && IsPow2(mod) && base >= 2
    decreases mod
  {
    if mod <= p.q then t < beta
    else
      NextModSizes(p, beta, mod);
      DigitSizes(p, beta);
      var v, next := LevelNoise(p, mod, base, o.E, o.Eks), NextMod(mod, p.q, beta);
      t + v < beta && LevelRoom(p, beta, keys, o, next, NextBase(keys, next, base),
                                FloorNoise(p.n, DigitSize(p.q, beta), v))
  }

  lemma RoomStep(p: LweParams, beta: int, keys: Keys, o: Owner, mod: int, base: nat, t: int)
    requires LargeParams(p, beta) && IsPow2(mod) && base >= 2 && mod > p.q && LevelRoom(p, beta, keys, o, mod, base, t)
    ensures beta > 0 && p.q > 0 && DigitSize(p.q, beta) > 0 && IsPow2(NextMod(mod, p.q, beta)) &&
            NextMod(mod, p.q, beta) > 0
    ensures var v, next := LevelNoise(p, mod, base, o.E, o.Eks), NextMod(mod, p.q, beta);
            t + v < beta && LevelRoom(p, beta, keys, o, next, NextBase(keys, next, base),
                                      FloorNoise(p.n, DigitSize(p.q, beta), v))
  {
    NextModSizes(p, beta, mod);
    DigitSizes(p, beta);
  }

  // ----- one iteration -----

  /** Flooring and switching: the message loses its low digit and the noise is fresh. */
  method DropDigit(p: LweParams, params: RingGSWCryptoParams, EK: BTKey, ct: LWECiphertext, beta: int, ghost w: Secrets,
                   ghost m: int, ghost t: int)
    returns (r: Result<LWECiphertext>)
    requires LargeParams(p, beta) && Shaped(p, ct.Value(), ct.modulus) && IsPow2(ct.modulus) && ct.modulus > p.q
    requires EK.bs.HasKey? ==> Ready(p, params, EK, w) && Ternary(w.s)
    ensures r.Err? <==> EK.bs.NoKey?
    ensures r.Err? ==> r.error == ConfigError
    ensures beta > 0 && p.q > 0 && DigitSize(p.q, beta) > 0
    ensures r.Ok? ==> fresh(r.value) && Shaped(p, r.value.Value(), NextMod(ct.modulus, p.q, beta))
    ensures r.Ok? ==> var v := FuncNoise(p, ct.modulus, params.baseG, params.digitsG, w.E, w.Eks);
              t >= 0 && t + v < beta && Near(Phase(ct.Value(), w.s), m * (2 * beta), ct.modulus, t) ==>
                Near(Phase(r.value.Value(), w.s), m / DigitSize(p.q, beta) * (2 * beta), NextMod(ct.modulus, p.q, beta),
                     FloorNoise(p.n, DigitSize(p.q, beta), v))
  {
    hide Ready, Near, Phase, FuncNoise, SwitchV, FloorNoise, LargeParams, IsPow2, DigitSize, NextMod, ClearOfEdges;
    LevelFacts(p, ct.Value(), beta);
    var fl := EvalFloor(p, params, EK, ct, beta, 0, w, m, t);
    if fl.Err? { return fl; }
    var mod := ct.modulus / p.q * 2 * beta;
    ghost var next, P := NextMod(ct.modulus, p.q, beta), DigitSize(p.q, beta);
    NextModIs(ct.modulus, p.q, beta);
    var out := ModSwitch(mod, fl.value);
    ghost var v := FuncNoise(p, ct.modulus, params.baseG, params.digitsG, w.E, w.Eks);
    if t >= 0 && t + v < beta && Near(Phase(ct.Value(), w.s), m * (2 * beta), ct.modulus, t) {
      FuncNoisePositive(p, ct.modulus, params.baseG, params.digitsG, w.E, w.Eks);
      ReadySecret(p, params, EK, w);
      ghost var x := Phase(ct.Value(), w.s);
      FloorMessage(x, m, beta, P, p.q, ct.modulus / p.q, t, v);
      NearReplace(Phase(fl.value.Value(), w.s), p.q * ((x + beta) / p.q), p.q * (m / P), ct.modulus, v);
      SwitchLevel(fl.value.Value(), next, w.s, m / P, beta, P, v);
    }
    return Ok(out);
  }

  lemma NextModIs(mod: int, q: int, beta: int)
    requires q > 0
    ensures NextMod(mod, q, beta) == mod / q * 2 * beta
  {
  }

  /** Everything an iteration needs to know about its modulus. */
  lemma LevelFacts(p: LweParams, c: Cipher, beta: int)
    requires LargeParams(p, beta) && Shaped(p, c, c.modulus) && IsPow2(c.modulus) && c.modulus > p.q
    ensures p.Valid() && beta > 0 && p.q > 0 && FloorInput(p, c, beta, p.q)
    ensures var P, next := DigitSize(p.q, beta), NextMod(c.modulus, p.q, beta);
            && P >= 2 && P % 2 == 0 && p.q == P * (2 * beta) && c.modulus == P * next && next > 0
            && c.modulus / p.q > 0 && c.modulus == (c.modulus / p.q) * p.q
  {
    DigitSizes(p, beta);
    NextModSizes(p, beta, c.modulus);
    DivMod(c.modulus, p.q);
  }

  /**
    The body of the loop shared by EvalSign and EvalDecomp. Afterwards the active key is the
    one stored under the current base, whether or not the base changed; a missing key is
    detected only after the base has been changed.
  */
  method NextLevel(p: LweParams, params: RingGSWCryptoParams, keys: Keys, curEK: BTKey, ct: LWECiphertext, beta: int,
                   ghost o: Owner, ghost m: int, ghost t: int, ghost en: Entry, ghost away: bool)
    returns (r: Result<LWECiphertext>, ek: BTKey)
    requires LargeParams(p, beta) && Shaped(p, ct.Value(), ct.modulus) && IsPow2(ct.modulus) && ct.modulus > p.q
    requires KeysReady(p, keys, o) && ParamsReady(p, params) && Since(params, en, away)
    requires params.baseG in keys && curEK == keys[params.baseG]
    modifies params`baseG, params`digitsG, params`gpower, params`gpowerMap
    ensures ParamsReady(p, params) && Since(params, en, away || params.baseG != en.base)
    ensures beta > 0 && p.q > 0 && DigitSize(p.q, beta) > 0 && ct.modulus > 0 && NextMod(ct.modulus, p.q, beta) > 0 &&
            old(params.baseG) >= 2
    ensures curEK.bs.NoKey? ==> r == Err(ConfigError) && params.baseG == old(params.baseG)
    ensures curEK.bs.HasKey? ==> params.baseG == NextBase(keys, NextMod(ct.modulus, p.q, beta), old(params.baseG))
    ensures curEK.bs.HasKey? ==> r == Err(MissingKeyError) || r.Ok?
    ensures curEK.bs.HasKey? ==> (r.Ok? <==> params.baseG in keys)
    ensures r.Ok? ==> ek == keys[params.baseG] && fresh(r.value) &&
                      Shaped(p, r.value.Value(), NextMod(ct.modulus, p.q, beta))
    ensures r.Ok? ==> var v := LevelNoise(p, ct.modulus, old(params.baseG), o.E, o.Eks);
              t >= 0 && t + v < beta && Near(Phase(ct.Value(), o.s), m * (2 * beta), ct.modulus, t) ==>
                Near(Phase(r.value.Value(), o.s), m / DigitSize(p.q, beta) * (2 * beta), NextMod(ct.modulus, p.q, beta),
                     FloorNoise(p.n, DigitSize(p.q, beta), v))
  {
    hide Ready, Near, Phase, FuncNoise, FloorNoise, KeyOf, IsPow2, DigitSize, NextMod, LargeParams, DigitCount, Ternary,
         SameTables;
    LevelFacts(p, ct.Value(), beta);
    ek := curEK;
    ghost var w := Secrets(o.s, [], [], 0, 0);
    if curEK.bs.HasKey? {
      ActiveReady(p, params, keys, o);
      w := o.behind[params.baseG];
    }
    r := DropDigit(p, params, curEK, ct, beta, w, m, t);
    if r.Err? { return; }
    var mod := r.value.modulus;
    if |keys| == 3 {
      var base := SwitchedBase(mod);
      if base != 0 {
        SwitchTo(params, base, en, away);
        if base !in keys {
          r := Err(MissingKeyError);
          return;
        }
        ek := keys[base];
      }
    }
  }

  // ----- sign -----

  /** A quarter of Q on the lower half circle, minus a quarter on the upper (f3 in the code). */
  function QuarterSign(): Func { (x, q, Q) => if x < q / 2 then Q / 4 else Q - Q / 4 }

  lemma QuarterSignAntiperiodic(h: nat, F: int)
    requires h > 0 && F > 0
    ensures Antiperiodic(QuarterSign(), h, F)
  {
    StrictAntiperiodic(QuarterSign(), h, F);
  }

  /** A message of a level is in its upper half. */
  predicate Upper(m: int, mod: int, beta: int)
    requires beta > 0
  {
    m >= mod / (2 * beta) / 2
  }

  predicate InLevel(m: int, mod: int, beta: int)
    requires beta > 0
  {
    0 <= m < mod / (2 * beta)
  }

  /** Dropping the low digit keeps the message in range and keeps its most significant bit. */
  lemma KeepMsb(p: LweParams, beta: int, mod: int, m: int)
    requires LargeParams(p, beta) && IsPow2(mod) && mod > p.q && beta > 0 && p.q > 0 && InLevel(m, mod, beta)
    ensures var P, next := DigitSize(p.q, beta), NextMod(mod, p.q, beta);
            P > 0 && InLevel(m / P, next, beta) && (Upper(m / P, next, beta) <==> Upper(m, mod, beta))
  {
    NextModSizes(p, beta, mod);
    DigitSizes(p, beta);
    var P, c, next := DigitSize(p.q, beta), mod / p.q, NextMod(mod, p.q, beta);
    hide LargeParams, IsPow2, DigitSize, NextMod;
    DivModUnique(next, c, 0, 2 * beta);
    MulAssocInt(P, c, 2 * beta);
    DivModUnique(mod, P * c, 0, 2 * beta);
    var g := c / 2;
    DivMod(c, 2);
    MulAssocInt(P, 2, g);
    MulAssocInt(2, P, g);
    MulComm(P, 2);
    DivModUnique(P * c, P * g, 0, 2);
    MulComm(P, c);
    MulComm(P, g);
    CellBelow(m, P, c);
    QuotientAtLeast(m, P, g);
  }

  lemma QuotientAtLeast(m: int, P: int, g: int)
    requires P > 0
    ensures m / P >= g <==> m >= g * P
  {
    DivMod(m, P);
    MulDistrib(m / P, g, P);
    MulAtLeast(m / P - g, P);
    MulAtLeast(m / P - g + 1, P);
    MulDistrib(m / P - g, 1, P);
  }

  /** A modulus of at most q divides 2N. */
  lemma FinalModulus(p: LweParams, beta: int, mod: int)
    requires LargeParams(p, beta) && IsPow2(mod) && beta > 0 && 4 * beta <= mod <= p.q
    ensures var h := mod / 2; h > 0 && mod == 2 * h && p.N % h == 0 && p.Q % p.q != 0
    ensures var c := mod / (2 * beta); c >= 2 && c % 2 == 0 && mod == c * (2 * beta) && mod / 2 == (c / 2) * (2 * beta)
  {
    hide IsPow2, DigitSize;
    DigitSizes(p, beta);
    Pow2Cells(mod, beta);
    Pow2Quotient(mod, p.q);
    HalfDivides(p.N, p.q, mod, p.q / mod);
    OddAndEven(p.Q, p.q);
  }

  lemma OddAndEven(Q: int, q: int)
    requires Q % 2 == 1 && q > 0 && q % 4 == 0
    ensures Q % q != 0
  {
    OddNotMultiple(Q, q, q / 2);
  }

  /** A power of two that holds two cells holds an even number of them. */
  lemma Pow2Cells(mod: int, beta: int)
    requires IsPow2(mod) && IsPow2(beta) && 0 < 4 * beta <= mod
    ensures var c := mod / (2 * beta); c >= 2 && c % 2 == 0 && mod == c * (2 * beta) && mod / 2 == (c / 2) * (2 * beta)
    ensures mod % 2 == 0 && mod > 0
  {
    assert IsPow2(2) by { assert Pow(2, 1) == 2; }
    Pow2Mul(2, beta);
    Pow2Quotient(2 * beta, mod);
    hide IsPow2;
    var c := mod / (2 * beta);
    DivMod(c, 2);
    MulAssocInt(2, c / 2, 2 * beta);
  }

  lemma HalfDivides(N: int, q: int, mod: int, k: int)
    requires mod > 0 && mod % 2 == 0 && q == k * mod && q > 0 && N % (q / 2) == 0
    ensures mod / 2 > 0 && N % (mod / 2) == 0
  {
    var h, j := mod / 2, N / (q / 2);
    MulAssocInt(k, 2, h);
    MulComm(k, 2);
    MulAssocInt(2, k, h);
    MulAtLeast(k, mod);
    DivMod(N, q / 2);
    MulAssocInt(j, k, h);
    DivModUnique(N, j * k, 0, h);
  }

  /** The last bootstrap decides the half of the message's level. */
  lemma SignDecides(x: int, x1: int, p3: int, r: int, m: int, beta: int, c: int, mod: int, q: int, t: int, v: int)
    requires beta > 0 && c >= 2 && c % 2 == 0 && mod == c * (2 * beta) && 0 <= m < c && 0 <= t < beta && q > 0 &&
             q % 4 == 0
    requires Near(x, m * (2 * beta), mod, t) && Cong(x1, x + beta, mod)
    requires Near(p3, QuarterSign()(x1 % mod, mod, q), q, v) && Cong(r, p3 - q / 4, q)
    ensures Near(r, Bit(m >= c / 2) * (q / 2), q, v)
  {
    var e := NearError(x, m * (2 * beta), mod, t);
    CongRefl(beta, mod);
    CongAdd(x, m * (2 * beta) + e, beta, beta, mod);
    CongTrans(x1, x + beta, m * (2 * beta) + e + beta, mod);
    ShiftedCell(x1, m, beta, c, mod, e);
    DivMod(c, 2);
    MulAssocInt(2, c / 2, 2 * beta);
    HalfOfCell(m, beta, e, c / 2, mod / 2);
    NearOf(q / 4, q / 4, 0, q, 0);
    NearAdd(p3, QuarterSign()(x1 % mod, mod, q), q / 4, q / 4, q, v, 0);
    NearFromCong(r, p3 - q / 4, 0, q, 0);
    NearTrans(r, p3 - q / 4, Bit(m >= c / 2) * (q / 2), q, 0, v);
  }

  /** The final bootstrap of EvalSign and the return to the first base. */
  method FinishSign(p: LweParams, params: RingGSWCryptoParams, keys: Keys, curEK: BTKey, ct: LWECiphertext, beta: int,
                    curBase: nat,
                    ghost o: Owner, ghost m: int, ghost t: int, ghost en: Entry,
                    ghost away: bool) returns (r: Result<LWECiphertext>)
    requires LargeParams(p, beta) && beta > 0 && Shaped(p, ct.Value(), ct.modulus) && IsPow2(ct.modulus) &&
             4 * beta <= ct.modulus <= p.q
    requires KeysReady(p, keys, o) && ParamsReady(p, params) && Since(params, en, away)
    requires params.baseG in keys && curEK == keys[params.baseG]
    requires curBase == en.base >= 2 && en.digits == DigitCount(p.Q, en.base)
    modifies ct, params`baseG, params`digitsG, params`gpower, params`gpowerMap
    ensures ParamsReady(p, params)
    ensures curEK.bs.NoKey? <==> r.Err?
    ensures r.Err? ==> r == Err(ConfigError) && params.baseG == old(params.baseG) && Since(params, en, away)
    ensures r.Ok? ==> fresh(r.value) && Returned(params, en, away)
    ensures old(params.baseG) >= 2
    ensures r.Ok? && 0 <= t < beta && InLevel(m, old(ct.modulus), beta) &&
            Near(old(Phase(ct.Value(), o.s)), m * (2 * beta), old(ct.modulus), t) ==>
              Holds(p, r.value.Value(), o.s, p.q, Bit(Upper(m, old(ct.modulus), beta)) * (p.q / 2),
                    LevelNoise(p, p.q, old(params.baseG), o.E, o.Eks))
  {
    hide Ready, Near, Phase, FuncNoise, KeyOf, LargeParams, IsPow2, Antiperiodic, QuarterSign, AddConstV, SubConstV,
         Ternary, DigitCount,
         SameTables;
    DigitSizes(p, beta);
    FinalModulus(p, beta, ct.modulus);
    ghost var c, mod, c0 := ct.modulus / (2 * beta), ct.modulus, ct.Value();
    ghost var h := mod / 2;
    ghost var w := Secrets(o.s, [], [], 0, 0);
    if curEK.bs.HasKey? {
      ActiveReady(p, params, keys, o);
      w := o.behind[params.baseG];
    }
    QuarterSignAntiperiodic(h, p.q);
    EvalAddConstEq(ct, beta);
    r := BootstrapFunc(p, params, curEK, ct, QuarterSign(), p.q, h, w);
    if r.Err? { return; }
    ghost var v, c3 := FuncNoise(p, p.q, params.baseG, params.digitsG, w.E, w.Eks), r.value.Value();
    SwitchTo(params, curBase, en, away);
    EvalSubConstEq(r.value, p.q / 4);
    if 0 <= t < beta && InLevel(m, mod, beta) && Near(Phase(c0, o.s), m * (2 * beta), mod, t) {
      ConstPhase(c0, beta, o.s);
      ConstPhase(c3, p.q / 4, o.s);
      SignDecides(Phase(c0, o.s), Phase(AddConstV(c0, beta), o.s), Phase(c3, o.s), Phase(r.value.Value(), o.s), m, beta,
                  c, mod, p.q, t, v);
    }
  }

  // ----- the loops -----

  /** c encrypts M at its level; if the noise has room, it has room for the rest of the run. */
  ghost predicate AtLevel(p: LweParams, beta: int, keys: Keys, o: Owner, c: Cipher, base: nat, M: int, t: int,
                          good: bool)
    requires LargeParams(p, beta) && beta > 0
  {
    && Shaped(p, c, c.modulus) && IsPow2(c.modulus) && 4 * beta <= c.modulus && base >= 2 && InLevel(M, c.modulus, beta)
    && (good ==>
          && t >= 0 && LevelRoom(p, beta, keys, o, c.modulus, base, t)
          && Near(Phase(c, o.s), M * (2 * beta), c.modulus, t))
  }

  /** The conditions under which the loops run: keys and parameters for the same secret and moduli. */
  ghost predicate Runnable(p: LweParams, params: RingGSWCryptoParams, keys: Keys, beta: int, o: Owner)
    reads params
  {
    LargeParams(p, beta) && KeysReady(p, keys, o) && ParamsReady(p, params)
  }

  function EntryOf(params: RingGSWCryptoParams): Entry
    reads params
  {
    Entry(params.baseG, params.digitsG, params.gpower, params.gpowerMap)
  }

  /** The run from a modulus at the current base. */
  function RunFrom(p: LweParams, params: RingGSWCryptoParams, keys: Keys, mod: nat, beta: int): Run
    reads params
  {
    Run(keys, mod, p.q, beta, params.baseG)
  }

  /**
    The state of a run after j iterations: the active key is the one stored under the current base,
    the base and the modulus are those of iteration j, all earlier bases had keys, and the
    ciphertext encrypts m without its j low digits.
  */
  ghost predicate AtStep(p: LweParams, params: RingGSWCryptoParams, run: Run, curEK: BTKey, ct: LWECiphertext, o: Owner,
                         m: nat, e: int, good: bool, en: Entry, j: nat)
    requires LargeParams(p, run.beta) && run.beta > 0 && run.Valid() && DigitSize(p.q, run.beta) > 0
    reads params, ct
  {
    && ParamsReady(p, params) && params.baseG == run.Base(j)
    && params.baseG in run.keys && curEK == run.keys[params.baseG]
    && Since(params, en, run.LeavesBy(j)) && run.HeldBefore(j)
    && j <= Iterations(p, run.beta, run.mod) && ct.modulus == run.Level(j)
    && AtLevel(p, run.beta, run.keys, o, ct.Value(), params.baseG, Quot(m, DigitSize(p.q, run.beta), j), e, good)
  }

  ghost predicate RunOk(p: LweParams, run: Run, en: Entry) {
    && LargeParams(p, run.beta) && run.beta > 0 && run.Valid() && run.q == p.q
    && IsPow2(run.mod) && run.mod > p.q && en.base == run.base
  }

  /** One iteration carries the state of a run to the next level. */
  lemma LevelStep(p: LweParams, beta: int, keys: Keys, o: Owner, c: Cipher, d: Cipher, base: nat, M: int, t: int,
                  good: bool)
    requires LargeParams(p, beta) && beta > 0 && p.q > 0 && AtLevel(p, beta, keys, o, c, base, M, t, good) &&
             c.modulus > p.q
    requires DigitSize(p.q, beta) > 0 && NextMod(c.modulus, p.q, beta) > 0 &&
             Shaped(p, d, NextMod(c.modulus, p.q, beta))
    requires var v := LevelNoise(p, c.modulus, base, o.E, o.Eks);
             t >= 0 && t + v < beta && Near(Phase(c, o.s), M * (2 * beta), c.modulus, t) ==>
               Near(Phase(d, o.s), M / DigitSize(p.q, beta) * (2 * beta), d.modulus,
                    FloorNoise(p.n, DigitSize(p.q, beta), v))
    ensures var P, v := DigitSize(p.q, beta), LevelNoise(p, c.modulus, base, o.E, o.Eks);
            AtLevel(p, beta, keys, o, d, NextBase(keys, d.modulus, base), M / P, FloorNoise(p.n, P, v), good)
    ensures Upper(M / DigitSize(p.q, beta), d.modulus, beta) <==> Upper(M, c.modulus, beta)
    ensures d.modulus < c.modulus
  {
    hide Near, Phase, LargeParams, IsPow2, DigitSize, NextMod, LevelRoom, FloorNoise, LevelNoise, Upper, InLevel,
         NextBase;
    DigitSizes(p, beta);
    NextModSizes(p, beta, c.modulus);
    KeepMsb(p, beta, c.modulus, M);
    NextBaseAtLeast(keys, d.modulus, base);
    if good {
      RoomStep(p, beta, keys, o, c.modulus, base, t);
      LevelNoisePositive(p, c.modulus, base, o.E, o.Eks);
      FloorNoisePositive(p.n, DigitSize(p.q, beta), LevelNoise(p, c.modulus, base, o.E, o.Eks));
    }
  }

  lemma NextBaseAtLeast(keys: Keys, mod: nat, base: nat)
    requires base >= 2
    ensures NextBase(keys, mod, base) >= 2
  {
  }

  lemma LevelNoisePositive(p: LweParams, mod: int, base: nat, E: nat, Eks: nat)
    requires p.Valid() && mod > 0 && base >= 2
    ensures LevelNoise(p, mod, base, E, Eks) >= 0
  {
    FuncNoisePositive(p, mod, base, DigitCount(p.Q, base), E, Eks);
  }

  lemma FloorNoisePositive(n: nat, P: int, v: int)
    requires P > 0 && v >= 0
    ensures FloorNoise(n, P, v) >= 0
  {
    MulMono(0, 1 + n, P);
    QuotientNonNegative(P * (1 + n) + 2 * v, 2 * P);
  }

  /** The step of a run at iteration j, in terms of the loop's own values. */
  lemma IterationOf(run: Run, j: nat, m: nat, P: nat)
    requires run.Valid() && P > 0
    ensures run.Level(j + 1) == NextMod(run.Level(j), run.q, run.beta)
    ensures run.Base(j + 1) == NextBase(run.keys, run.Level(j + 1), run.Base(j))
    ensures run.HeldBefore(j + 1) <==> run.HeldBefore(j) && run.Held(j)
    ensures run.LeavesBy(j + 1) <==> run.LeavesBy(j) || run.Base(j + 1) != run.base
    ensures Quot(m, P, j + 1) == Quot(m, P, j) / P && Digit(m, P, j) == Quot(m, P, j) % P
  {
    hide NextBase, SwitchedBase, NextMod;
    LeavesStep(run, j);
  }

  /** The start of a run. */
  lemma FirstStep(p: LweParams, params: RingGSWCryptoParams, run: Run, ct: LWECiphertext, o: Owner, m: nat, t: nat,
                  good: bool)
    requires RunOk(p, run, EntryOf(params)) && ParamsReady(p, params) && run.base == params.baseG &&
             params.baseG in run.keys
    requires Shaped(p, ct.Value(), run.mod) && InLevel(m, run.mod, run.beta) &&
             Near(Phase(ct.Value(), o.s), m * (2 * run.beta), run.mod, t)
    requires good == LevelRoom(p, run.beta, run.keys, o, run.mod, run.base, t)
    ensures DigitSize(p.q, run.beta) > 0
    ensures AtStep(p, params, run, run.keys[params.baseG], ct, o, m, t, good, EntryOf(params), 0)
  {
    hide Near, Phase, LevelRoom, DigitCount, GPowers, SwitchedBase;
    DigitSizes(p, run.beta);
    MulMono(2, DigitSize(p.q, run.beta), 2 * run.beta);
    LeavesStep(run, 0);
  }

  /** The run has stopped at iteration i, and what that leaves in the parameters. */
  ghost predicate Stopped(p: LweParams, params: RingGSWCryptoParams, run: Run, error: Error, en: Entry, i: nat)
    requires LargeParams(p, run.beta) && run.Valid()
    reads params
  {
    && i <= Iterations(p, run.beta, run.mod) && StopsAt(run, i, error, params.baseG)
    && Since(params, en, run.LeavesBy(i))
  }

  lemma StepDone(p: LweParams, params: RingGSWCryptoParams, run: Run, ek: BTKey, ct: LWECiphertext, o: Owner,
                 m: nat, e: int, good: bool, en: Entry, j: nat)
    requires RunOk(p, run, en) && DigitSize(p.q, run.beta) > 0 && ParamsReady(p, params) && params.baseG in run.keys
    requires NextMod(run.Level(j), p.q, run.beta) >= 0
    requires params.baseG == NextBase(run.keys, NextMod(run.Level(j), p.q, run.beta), run.Base(j)) &&
             ek == run.keys[params.baseG]
    requires Since(params, en, run.LeavesBy(j) || params.baseG != en.base) && run.HeldBefore(j) && run.Held(j)
    requires j < Iterations(p, run.beta, run.mod) && ct.modulus == NextMod(run.Level(j), p.q, run.beta)
    requires AtLevel(p, run.beta, run.keys, o, ct.Value(), params.baseG,
                     Quot(m, DigitSize(p.q, run.beta), j) / DigitSize(p.q, run.beta), e, good)
    ensures AtStep(p, params, run, ek, ct, o, m, e, good, en, j + 1)
  {
    hide LargeParams, IsPow2, DigitSize, DigitCount, NextBase, Since, AtLevel, Quot, NextMod, ParamsReady,
         Run.HeldBefore, Run.LeavesBy;
    IterationOf(run, j, m, DigitSize(p.q, run.beta));
  }

  lemma StepStopped(p: LweParams, params: RingGSWCryptoParams, run: Run, error: Error, en: Entry, j: nat)
    requires RunOk(p, run, en) && DigitSize(p.q, run.beta) > 0 && run.HeldBefore(j) &&
             j < Iterations(p, run.beta, run.mod)
    requires NextMod(run.Level(j), p.q, run.beta) >= 0
    requires run.Base(j) in run.keys && Since(params, en, run.LeavesBy(j) || params.baseG != en.base)
    ensures !run.Held(j) && params.baseG == run.Base(j) && error == ConfigError &&
            (run.LeavesBy(j) || params.baseG == en.base) ==>
              Stopped(p, params, run, error, en, j)
    ensures run.Held(j) && params.baseG == NextBase(run.keys, NextMod(run.Level(j), p.q, run.beta), run.Base(j)) &&
            params.baseG !in run.keys && error == MissingKeyError ==>
              Stopped(p, params, run, error, en, j + 1)
  {
    hide LargeParams, IsPow2, DigitSize, DigitCount, NextBase, SameTables, Quot, NextMod, Run.HeldBefore, Run.LeavesBy;
    IterationOf(run, j, 0, DigitSize(p.q, run.beta));
  }

  lemma AtStepFacts(p: LweParams, params: RingGSWCryptoParams, run: Run, curEK: BTKey, ct: LWECiphertext, o: Owner,
                    m: nat, e: int, good: bool, en: Entry, j: nat)
    requires RunOk(p, run, en) && DigitSize(p.q, run.beta) > 0 &&
             AtStep(p, params, run, curEK, ct, o, m, e, good, en, j)
    ensures LargeParams(p, run.beta) && run.Valid() && run.q == p.q && run.beta > 0 && p.q > 0 && en.base == run.base
    ensures ParamsReady(p, params) && params.baseG == run.Base(j) && params.baseG in run.keys &&
            curEK == run.keys[params.baseG]
    ensures params.baseG >= 2 && Since(params, en, run.LeavesBy(j)) && run.HeldBefore(j)
    ensures run.Held(j) <==> curEK.bs.HasKey?
    ensures !run.LeavesBy(j) ==> params.baseG == en.base
    ensures j <= Iterations(p, run.beta, run.mod) && (ct.modulus > p.q <==> j < Iterations(p, run.beta, run.mod))
    ensures ct.modulus == run.Level(j) && Shaped(p, ct.Value(), ct.modulus) && IsPow2(ct.modulus)
    ensures AtLevel(p, run.beta, run.keys, o, ct.Value(), params.baseG, Quot(m, DigitSize(p.q, run.beta), j), e, good)
  {
    hide LargeParams, IsPow2, DigitSize, DigitCount, SameTables, Quot, LevelRoom, NextMod, Run.HeldBefore, Run.LeavesBy,
         Near, Phase;
    DigitSizes(p, run.beta);
    LevelSizes(p, run.beta, run.mod, j);
  }

  /** One iteration, from j to j + 1 or to a stop; at the last iteration only an absent entry stops the loop. */
  method Advance(p: LweParams, params: RingGSWCryptoParams, curEK: BTKey, ct: LWECiphertext, run: Run,
                 ghost o: Owner, ghost m: nat, ghost e: int, ghost good: bool, ghost en: Entry, ghost j: nat)
    returns (r: Result<LWECiphertext>, ek: BTKey, ghost e2: int, ghost at: nat)
    requires RunOk(p, run, en) && KeysReady(p, run.keys, o) && ct.modulus > p.q && DigitSize(p.q, run.beta) > 0
    requires AtStep(p, params, run, curEK, ct, o, m, e, good, en, j)
    modifies params`baseG, params`digitsG, params`gpower, params`gpowerMap
    ensures ParamsReady(p, params)
    ensures r.Err? ==> Stopped(p, params, run, r.error, en, at) &&
                       (at == Iterations(p, run.beta, run.mod) ==> run.Base(at) !in run.keys)
    ensures r.Ok? ==> fresh(r.value) && r.value.modulus == NextMod(ct.modulus, p.q, run.beta) < ct.modulus
    ensures r.Ok? ==> AtStep(p, params, run, ek, r.value, o, m, e2, good, en, j + 1)
    ensures r.Ok? ==> (Upper(Quot(m, DigitSize(p.q, run.beta), j + 1), r.value.modulus, run.beta)
                       <==> Upper(Quot(m, DigitSize(p.q, run.beta), j), ct.modulus, run.beta))
  {
    hide Near, Phase, LargeParams, IsPow2, KeysReady, DigitSize, LevelRoom, FloorNoise, LevelNoise, Upper, InLevel,
         DigitCount, GPowers,
         NextBase, Quot, NextMod, Run.Level, Run.Base, Run.LeavesBy, Run.HeldBefore, Run.Held, Run.Valid, ParamsReady,
         Stopped, AtStep,
         AtLevel, Since, RunOk, Shaped;
    var beta, keys := run.beta, run.keys;
    AtStepFacts(p, params, run, curEK, ct, o, m, e, good, en, j);
    DigitSizes(p, beta);
    e2, at := 0, 0;
    ghost var base, P := params.baseG, DigitSize(p.q, beta);
    r, ek := NextLevel(p, params, keys, curEK, ct, beta, o, Quot(m, P, j), e, en, run.LeavesBy(j));
    IterationOf(run, j, m, P);
    if r.Err? {
      at := if curEK.bs.NoKey? then j else j + 1;
      StepStopped(p, params, run, r.error, en, j);
      return;
    }
    ShapedModulus(p, r.value.Value(), NextMod(ct.modulus, p.q, beta));
    LevelStep(p, beta, keys, o, ct.Value(), r.value.Value(), base, Quot(m, P, j), e, good);
    e2 := FloorNoise(p.n, P, LevelNoise(p, ct.modulus, base, o.E, o.Eks));
    StepDone(p, params, run, ek, r.value, o, m, e2, good, en, j);
  }

  lemma ShapedModulus(p: LweParams, c: Cipher, M: int)
    requires Shaped(p, c, M)
    ensures c.modulus == M
  {
  }

  lemma RoomEnd(p: LweParams, beta: int, keys: Keys, o: Owner, mod: int, base: nat, t: int)
    requires LargeParams(p, beta) && IsPow2(mod) && base >= 2 && mod <= p.q
    ensures LevelRoom(p, beta, keys, o, mod, base, t) <==> t < beta
  {
  }

  /** The bases that a run from the given one can visit. */
  predicate Visitable(b: nat, base: nat) { b >= 2 && (b == base || b == 0x4_0000 || b == 0x800_0000) }

  /** Every bootstrap above q, with any base a run can visit, has noise at most v. */
  ghost predicate NoiseAtMost(p: LweParams, o: Owner, mod: int, base: nat, v: int)
    requires p.Valid()
  {
    forall m: int, b: nat :: p.q < m <= mod && IsPow2(m) && Visitable(b, base) ==> LevelNoise(p, m, b, o.E, o.Eks) <= v
  }

  /**
    One bound v on the bootstrap noise of every level is enough: with t + v < beta at the start and
    FloorNoise(n, P, v) + v < beta, the noise invariant is restored at every level of every run.
  */
  lemma {:induction false} UniformRoom(p: LweParams, beta: int, keys: Keys, o: Owner, mod: int, base: nat, t: int,
                                       v: nat)
    requires LargeParams(p, beta) && IsPow2(mod) && base >= 2 && beta > 0 && DigitSize(p.q, beta) > 0
    requires NoiseAtMost(p, o, mod, base, v)
    requires t + v < beta && FloorNoise(p.n, DigitSize(p.q, beta), v) + v < beta
    ensures LevelRoom(p, beta, keys, o, mod, base, t)
    decreases mod
  {
    hide LevelNoise, FloorNoise, SwitchedBase, LargeParams, IsPow2, DigitSize, NextMod;
    DigitSizes(p, beta);
    if mod <= p.q {
      RoomEnd(p, beta, keys, o, mod, base, t);
    } else {
      NextModSizes(p, beta, mod);
      var w, next := LevelNoise(p, mod, base, o.E, o.Eks), NextMod(mod, p.q, beta);
      assert Visitable(base, base);
      FloorNoiseMono(p.n, DigitSize(p.q, beta), w, v);
      SwitchTargets(keys, next, base);
      UniformRoom(p, beta, keys, o, next, NextBase(keys, next, base), FloorNoise(p.n, DigitSize(p.q, beta), w), v);
    }
  }

  lemma {:induction false} BaseVisitable(run: Run, j: nat)
    requires run.Valid()
    ensures Visitable(run.Base(j), run.base)
  {
    hide SwitchedBase;
    if j > 0 {
      BaseVisitable(run, j - 1);
      SwitchTargets(run.keys, run.Level(j), run.Base(j - 1));
    }
  }

  lemma SwitchTargets(keys: Keys, mod: nat, base: nat)
    ensures NextBase(keys, mod, base) == base || NextBase(keys, mod, base) == 0x4_0000 ||
            NextBase(keys, mod, base) == 0x800_0000
  {
  }

  lemma FloorNoiseMono(n: nat, P: int, w: int, v: int)
    requires P > 0 && w <= v
    ensures FloorNoise(n, P, w) <= FloorNoise(n, P, v)
  {
    var x := P * (1 + n) + 2 * w;
    DivMod(x, 2 * P);
    MulComm(2 * P, x / (2 * P));
    FloorBound(x / (2 * P), P * (1 + n) + 2 * v, 2 * P);
  }

  /** The loop of EvalSign: it ends at the last level, or where the run stops. */
  method FloorToLast(p: LweParams, params: RingGSWCryptoParams, start: LWECiphertext, run: Run,
                     ghost o: Owner, ghost m: nat, ghost t: int, ghost good: bool, ghost en: Entry)
    returns (r: Result<LWECiphertext>, curEK: BTKey, ghost e: int, ghost at: nat)
    requires RunOk(p, run, en) && KeysReady(p, run.keys, o) && DigitSize(p.q, run.beta) > 0 && start.modulus == run.mod
    requires params.baseG in run.keys && AtStep(p, params, run, run.keys[params.baseG], start, o, m, t, good, en, 0)
    modifies params`baseG, params`digitsG, params`gpower, params`gpowerMap
    ensures ParamsReady(p, params)
    ensures r.Err? ==> Stopped(p, params, run, r.error, en, at) &&
                       (at == Iterations(p, run.beta, run.mod) ==> run.Base(at) !in run.keys)
    ensures r.Ok? ==> (r.value == start || fresh(r.value)) && r.value.modulus <= p.q
    ensures r.Ok? ==> AtStep(p, params, run, curEK, r.value, o, m, e, good, en, Iterations(p, run.beta, run.mod))
    ensures r.Ok? ==> (Upper(Quot(m, DigitSize(p.q, run.beta), Iterations(p, run.beta, run.mod)), r.value.modulus,
                             run.beta)
                       <==> Upper(m, run.mod, run.beta))
  {
    hide LargeParams, IsPow2, KeysReady, DigitSize, Upper, Quot, NextMod, Run.Level, Run.Base, Run.Valid, ParamsReady,
         Stopped, AtStep, RunOk,
         DigitCount, Iterations;
    AtStepFacts(p, params, run, run.keys[params.baseG], start, o, m, t, good, en, 0);
    DigitSizes(p, run.beta);
    var q, beta, mod, cttmp := p.q, run.beta, start.modulus, start;
    ghost var P, j: nat := DigitSize(p.q, run.beta), 0;
    curEK, e, at := run.keys[params.baseG], t, 0;
    IterationOf(run, 0, m, P);
    QuotStart(m, P);
    while mod > q
      invariant (cttmp == start || fresh(cttmp)) && cttmp.modulus == mod && ParamsReady(p, params)
      invariant AtStep(p, params, run, curEK, cttmp, o, m, e, good, en, j)
      invariant Upper(Quot(m, P, j), mod, beta) == Upper(m, run.mod, beta)
      decreases mod
    {
      var step, ek, e2, i := Advance(p, params, curEK, cttmp, run, o, m, e, good, en, j);
      if step.Err? { return step, curEK, e, i; }
      NextModIs(mod, q, beta);
      mod := mod / q * 2 * beta;
      cttmp, curEK, e, j := step.value, ek, e2, j + 1;
    }
    AtStepFacts(p, params, run, curEK, cttmp, o, m, e, good, en, j);
    r := Ok(cttmp);
  }

  lemma QuotStart(m: nat, P: nat)
    requires P > 0
    ensures Quot(m, P, 0) == m
  {
  }

  /**
    The outcome of EvalSign on a run: it succeeds exactly when every visited base has a key, and
    then the gadget fields have returned to the first base; otherwise it stops at the first base
    without a key and leaves that base behind.
  */
  ghost predicate SignOutcome(p: LweParams, params: RingGSWCryptoParams, run: Run, en: Entry, r: Result<LWECiphertext>)
    requires LargeParams(p, run.beta) && run.Valid()
    reads params
  {
    var k := Iterations(p, run.beta, run.mod);
    if run.HeldBefore(k + 1) then r.Ok? && Returned(params, en, run.LeavesBy(k))
    else r.Err? && exists i: nat :: Stopped(p, params, run, r.error, en, i)
  }

  /**
    The sign of a message with more digits than q holds. It fails when there is nothing to split
    or where the run stops. Otherwise the result encrypts, in multiples of q/2, whether m is in
    the upper half of the plaintext space; no stored power table is needed for that.
  */
  method EvalSign(p: LweParams, params: RingGSWCryptoParams, keys: Keys, ct: LWECiphertext, beta: int,
                  ghost o: Owner, ghost m: nat, ghost t: nat) returns (r: Result<LWECiphertext>)
    requires Runnable(p, params, keys, beta, o) && beta > 0 && Shaped(p, ct.Value(), ct.modulus) && IsPow2(ct.modulus)
    requires InLevel(m, ct.modulus, beta) && Near(Phase(ct.Value(), o.s), m * (2 * beta), ct.modulus, t)
    modifies params`baseG, params`digitsG, params`gpower, params`gpowerMap
    ensures ParamsReady(p, params) && p.q > 0 && ct.modulus > 0 && old(params.baseG) >= 2
    ensures ct.modulus <= p.q ==> r == Err(NotImplementedError) && EntryOf(params) == old(EntryOf(params))
    ensures ct.modulus > p.q ==> SignOutcome(p, params, old(RunFrom(p, params, keys, ct.modulus, beta)),
                                             old(EntryOf(params)), r)
    ensures ct.modulus > p.q ==>
              (r.Ok? <==> KeysSuffice(old(RunFrom(p, params, keys, ct.modulus, beta)), Iterations(p, beta, ct.modulus)))
    ensures r.Ok? ==> fresh(r.value)
    ensures r.Ok? && LevelRoom(p, beta, keys, o, ct.modulus, old(params.baseG), t) ==>
              var run := old(RunFrom(p, params, keys, ct.modulus, beta));
              Holds(p, r.value.Value(), o.s, p.q, Bit(Upper(m, ct.modulus, beta)) * (p.q / 2),
                    LevelNoise(p, p.q, run.Base(Iterations(p, beta, ct.modulus)), o.E, o.Eks))
  {
    hide Near, Phase, LargeParams, IsPow2, KeysReady, DigitSize, LevelRoom, LevelNoise, Upper, InLevel, DigitCount,
         GPowers, Iterations,
         Run.Level, Run.Base, Run.LeavesBy, Run.HeldBefore, AtStep, Holds,
         KeysSuffice;
    DigitSizes(p, beta);
    var q, mod, curBase := p.q, ct.modulus, params.baseG;
    if mod <= q { return Err(NotImplementedError); }
    var run := Run(keys, mod, q, beta, curBase);
    SufficeExactly(run, Iterations(p, beta, mod));
    ghost var en := EntryOf(params);
    if curBase !in keys {
      StopAtOnce(p, params, run);
      return Err(MissingKeyError);
    }
    var cttmp := new LWECiphertext(ct.Value());
    ghost var good := LevelRoom(p, beta, keys, o, mod, curBase, t);
    FirstStep(p, params, run, cttmp, o, m, t, good);
    var last, curEK, e, at := FloorToLast(p, params, cttmp, run, o, m, t, good, en);
    if last.Err? {
      StoppedFacts(p, params, run, last.error, en, at);
      return last;
    }
    r := EndSign(p, params, curEK, last.value, run, curBase, o, m, e, good, en);
  }

  lemma StopAtOnce(p: LweParams, params: RingGSWCryptoParams, run: Run)
    requires RunOk(p, run, EntryOf(params)) && ParamsReady(p, params) && run.base == params.baseG &&
             params.baseG !in run.keys
    ensures Stopped(p, params, run, MissingKeyError, EntryOf(params), 0) &&
            !run.HeldBefore(Iterations(p, run.beta, run.mod) + 1)
  {
    hide DigitCount, GPowers, SwitchedBase, LargeParams;
    LeavesStep(run, 0);
    assert !run.Held(0);
  }

  lemma StoppedFacts(p: LweParams, params: RingGSWCryptoParams, run: Run, error: Error, en: Entry, i: nat)
    requires LargeParams(p, run.beta) && run.Valid() && Stopped(p, params, run, error, en, i)
    ensures !run.HeldBefore(Iterations(p, run.beta, run.mod) + 1)
  {
    hide Iterations;
    assert !run.Held(i);
  }

  /** The end of EvalSign, at the last level of a run. */
  method EndSign(p: LweParams, params: RingGSWCryptoParams, curEK: BTKey, ct: LWECiphertext, run: Run, curBase: nat,
                 ghost o: Owner, ghost m: nat, ghost e: int, ghost good: bool,
                 ghost en: Entry) returns (r: Result<LWECiphertext>)
    requires RunOk(p, run, en) && KeysReady(p, run.keys, o) && DigitSize(p.q, run.beta) > 0 && ct.modulus <= p.q
    requires AtStep(p, params, run, curEK, ct, o, m, e, good, en, Iterations(p, run.beta, run.mod))
    requires Upper(Quot(m, DigitSize(p.q, run.beta), Iterations(p, run.beta, run.mod)), ct.modulus, run.beta) <==>
               Upper(m, run.mod, run.beta)
    requires curBase == en.base && p.Q > 1 && en.digits == DigitCount(p.Q, en.base)
    modifies ct, params`baseG, params`digitsG, params`gpower, params`gpowerMap
    ensures ParamsReady(p, params) && SignOutcome(p, params, run, en, r)
    ensures p.Valid() && run.Base(Iterations(p, run.beta, run.mod)) >= 2
    ensures r.Ok? ==> fresh(r.value)
    ensures r.Ok? && good ==> Holds(p, r.value.Value(), o.s, p.q, Bit(Upper(m, run.mod, run.beta)) * (p.q / 2),
                                    LevelNoise(p, p.q, run.Base(Iterations(p, run.beta, run.mod)), o.E, o.Eks))
  {
    hide Near, Phase, LargeParams, IsPow2, KeysReady, DigitSize, LevelRoom, LevelNoise, Upper, InLevel, DigitCount,
         GPowers, Iterations,
         Run.Level, Run.Base, Run.LeavesBy, Run.HeldBefore, AtStep, Holds, Quot, Since;
    ghost var k, P := Iterations(p, run.beta, run.mod), DigitSize(p.q, run.beta);
    AtStepFacts(p, params, run, curEK, ct, o, m, e, good, en, k);
    DigitSizes(p, run.beta);
    IterationOf(run, k, m, P);
    RoomEnd(p, run.beta, run.keys, o, ct.modulus, params.baseG, e);
    r := FinishSign(p, params, run.keys, curEK, ct, run.beta, curBase, o, Quot(m, P, k), e, en, run.LeavesBy(k));
    if r.Err? {
      assert Stopped(p, params, run, r.error, en, k);
    }
  }

  /** The result of EvalSign decrypts, modulo 2, to the sign when its noise is below q/4. */
  lemma SignDecodes(p: LweParams, c: Cipher, s: seq<int>, x: bool, v: int)
    requires p.q > 0 && p.q % 4 == 0 && v < p.q / 4 && Holds(p, c, s, p.q, Bit(x) * (p.q / 2), v)
    ensures Decode(Phase(c, s) % p.q, 2, p.q) == Bit(x)
  {
    hide Phase, Decode;
    var u := p.q / 4;
    var e := NearError(Phase(c, s), Bit(x) * (p.q / 2), p.q, v);
    assert p.q == (2 * u) * 2 && p.q / 2 == 2 * u;
    DecodeExactly(Phase(c, s), Bit(x), 2, u, e);
  }
}
