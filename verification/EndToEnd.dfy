/** From plaintext to plaintext: encryption, evaluation and decryption. */
module EndToEnd {
  import opened Arith
  import opened Sums
  import opened Native
  import opened Ring
  import opened RgswParams
  import opened Lwe
  import opened Encryption
  import opened Bootstrapping
  import opened Gates
  import opened Circuits
  import opened Functional
  import opened Flooring
  import opened Levels
  import opened Runs
  import opened LargePrecision
  import opened Decomposition
  import opened Context

  // ----- circuits -----

  /** Draws for a fresh encryption of every input bit, with errors of at most v. */
  ghost predicate InputDraws(p: LweParams, inputs: nat, a: seq<seq<int>>, e: seq<int>, v: int) {
    && |a| == |e| == inputs
    && forall i :: 0 <= i < inputs ==>
         |a[i]| == p.n && Residues(a[i], p.q) && 0 <= e[i] < p.q && Abs(SignedError(e[i], p.q)) <= v
  }

  /** A fresh encryption of a bit modulo 4 carries it. */
  lemma EncryptedBit(p: LweParams, c: Cipher, s: seq<int>, x: bool, e: int, v: int)
    requires GateParams(p) && 0 <= e < p.q && Abs(SignedError(e, p.q)) <= v
    requires Cong(Phase(c, s), Bit(x) * (p.q / 4) + e, p.q)
    ensures Carries(p, c, s, x, v)
  {
    var d := SignedError(e, p.q);
    CongOf(Bit(x) * (p.q / 4) + e, Bit(x) * (p.q / 4) + d, if 2 * e >= p.q then 1 else 0, p.q);
    CongTrans(Phase(c, s), Bit(x) * (p.q / 4) + e, Bit(x) * (p.q / 4) + d, p.q);
    NearFromCong(Phase(c, s), Bit(x) * (p.q / 4), d, p.q, v);
  }

  /** Encrypts every input bit. */
  method EncryptBits(p: LweParams, sk: PrivateKey, bits: seq<bool>, a: seq<seq<int>>, e: seq<int>, ghost v: int)
    returns (inputs: seq<LWECiphertext>)
    requires GateParams(p) && sk.Valid() && |sk.elements| == p.n && (p.n + 2) * p.q <= WORD &&
             InputDraws(p, |bits|, a, e, v)
    ensures fresh(set x | x in inputs) && WiresOk(p, inputs, bits, sk.Signed(), v)
  {
    hide Carries, Phase, SignedError;
    inputs := [];
    for i := 0 to |bits|
      invariant fresh(set x | x in inputs) && WiresOk(p, inputs, bits[..i], sk.Signed(), v)
    {
      var ct := Encrypt(sk, if bits[i] then 1 else 0, 4, p.q, a[i], e[i]);
      EncryptedBit(p, ct.Value(), sk.Signed(), bits[i], e[i], v);
      inputs := inputs + [ct];
      assert bits[..i + 1] == bits[..i] + [bits[i]];
    }
    assert bits[..|bits|] == bits;
  }

  /**
    Encrypting the inputs, running any circuit and decrypting every wire gives the circuit's Boolean
    values; it fails exactly if some gate is given one wire twice.
  */
  method CircuitRoundTrip(p: LweParams, params: RingGSWCryptoParams, EK: BTKey, circuit: seq<Step>, sk: PrivateKey,
                          bits: seq<bool>,
                          a: seq<seq<int>>, e: seq<int>, ghost w: Secrets) returns (r: Result<seq<int>>)
    requires GateParams(p) && EK.bs.HasKey? && ReadyEither(p, params, EK, w) && WellFormed(circuit, |bits|)
    requires sk.Valid() && |sk.elements| == p.n && w.s == sk.Signed() && (p.n + 2) * p.q <= WORD && 4 * p.q <= WORD
    requires Room(p, circuit, GateNoise(p, AccNoise(p, params, w.E), w.Eks))
    requires InputDraws(p, |bits|, a, e, GateNoise(p, AccNoise(p, params, w.E), w.Eks))
    ensures r.Err? <==> exists k :: 0 <= k < |circuit| && SelfGate(circuit, k)
    ensures r.Ok? ==> |r.value| == |bits| + |circuit|
    ensures r.Ok? ==> forall k :: 0 <= k < |r.value| ==> r.value[k] == Bit(Values(circuit, bits, |circuit|)[k])
  {
    hide ReadyEither, AccNoise, GateNoise, Values, InputDraws, Carries, SelfGate;
    ghost var v := GateNoise(p, AccNoise(p, params, w.E), w.Eks);
    var inputs := EncryptBits(p, sk, bits, a, e, v);
    var wires := RunCircuit(p, params, EK, circuit, inputs, w, bits);
    if wires.Err? { return Err(wires.error); }
    GateNoisePositive(p, AccNoise(p, params, w.E), w.Eks);
    var out := DecryptBits(p, sk, wires.value, Values(circuit, bits, |circuit|), v);
    return Ok(out);
  }

  method DecryptBits(p: LweParams, sk: PrivateKey, wires: seq<LWECiphertext>, ghost bits: seq<bool>,
                     ghost v: int) returns (out: seq<int>)
    requires GateParams(p) && sk.Valid() && |sk.elements| == p.n && (p.n + 2) * p.q <= WORD && 4 * p.q <= WORD
    requires WiresOk(p, wires, bits, sk.Signed(), v) && v < p.q / 8
    ensures |out| == |wires| && forall k :: 0 <= k < |out| ==> out[k] == Bit(bits[k])
  {
    hide Carries, Decode, Phase;
    MulDistrib(p.n, 2, p.q);
    out := [];
    for i := 0 to |wires|
      invariant |out| == i && forall k :: 0 <= k < i ==> out[k] == Bit(bits[k])
    {
      CarriesDecodes(p, wires[i].Value(), sk.Signed(), bits[i], v);
      var bit := Decrypt(sk, wires[i], 4);
      out := out + [bit];
    }
  }

  // ----- large precision -----

  /** A large-precision message and the room its encryption and decryption need. */
  ghost predicate LargeMessage(p: LweParams, sk: PrivateKey, beta: int, mod: int, m: int, a: seq<int>, e: int, o: Owner,
                               t: nat) {
    && sk.Valid() && o.s == sk.Signed() && |sk.elements| == p.n == |a| && beta > 0 && IsPow2(mod) && mod > p.q
    && InLevel(m, mod, beta) && Residues(a, mod) && 0 <= e < mod && Abs(SignedError(e, mod)) <= t
    && (p.n + 2) * mod <= WORD && p.q * p.q <= WORD
  }

  /** A fresh encryption is at the first level of a run. */
  lemma EncryptedLevel(x: int, m: int, beta: int, mod: int, e: int, t: nat)
    requires beta > 0 && mod == mod / (2 * beta) * (2 * beta) && 0 < mod < WORD && InLevel(m, mod, beta)
    requires 0 <= e < mod && Abs(SignedError(e, mod)) <= t
    requires Cong(x, m * (mod / (mod / (2 * beta))) + e, mod)
    ensures Near(x, m * (2 * beta), mod, t)
  {
    var P, d := mod / (2 * beta), SignedError(e, mod);
    MulMono(1, 2 * beta, P);
    MulComm(P, 2 * beta);
    DivModUnique(mod, 2 * beta, 0, P);
    assert mod / P == 2 * beta;
    CongOf(m * (2 * beta) + e, m * (2 * beta) + d, if 2 * e >= mod then 1 else 0, mod);
    CongTrans(x, m * (2 * beta) + e, m * (2 * beta) + d, mod);
    NearFromCong(x, m * (2 * beta), d, mod, t);
  }

  lemma WordRoom(p: LweParams, beta: int, mod: int, m: int)
    requires LargeParams(p, beta) && beta > 0 && IsPow2(mod) && mod > p.q && (p.n + 2) * mod <= WORD &&
             p.q * p.q <= WORD && InLevel(m, mod, beta)
    ensures var P := mod / (2 * beta); P > 0 && mod == P * (2 * beta) && 0 <= m < P <= WORD
    ensures 0 < mod < WORD && p.q >= 2
  {
    CellsAtMost(mod, beta);
    DigitSizes(p, beta);
    MulMono(2, DigitSize(p.q, beta), 2 * beta);
    Pow2Cells(mod, beta);
    MulMono(2, p.n + 2, mod);
  }

  /** Decrypting a ciphertext of modulus at most q does not overflow a word. */
  lemma DecryptFits(n: nat, q: int, mod: int, c: int, beta: int)
    requires beta > 0 && 2 <= q < mod && (n + 2) * mod <= WORD && q * q <= WORD && 0 < c <= q
    ensures n * c < WORD && (c / (2 * beta)) * c <= WORD && 2 * c <= WORD
  {
    MulDistrib(n, 2, mod);
    MulMono(c, mod, n);
    MulMono(c, q, c);
    MulMono(c, q, q);
    MulMono(2, q, q);
    CellsAtMost(c, beta);
    MulMono(c / (2 * beta), c, c);
  }

  lemma CellsAtMost(c: int, beta: int)
    requires c > 0 && beta > 0
    ensures 0 <= c / (2 * beta) <= c
  {
    DivMod(c, 2 * beta);
    QuotientNonNegative(c, 2 * beta);
    MulMono(1, 2 * beta, c / (2 * beta));
  }

  // ----- flooring -----

  /** Sizes of a flooring by R cells in a space of P messages, from what the caller chooses. */
  lemma FloorRoom(p: LweParams, beta: int, P: int, R: int, mod: int, m: int)
    requires beta > 0 && R >= 2 && R % 2 == 0 && P % R == 0 && 0 <= m < P && mod == P * (2 * beta)
    requires (p.n + 2) * mod <= WORD && p.N % (R * beta) == 0
    ensures var q := R * (2 * beta); q > 2 && q % 4 == 0 && q / 2 == R * beta && mod % q == 0
    ensures beta < mod && mod / (2 * beta) == P && P <= WORD && mod < WORD && p.n * mod < WORD && P / R > 0
  {
    var K := P / R;
    DivMod(P, R);
    MulAtLeast(K, R);
    MulAssocInt(K, R, 2 * beta);
    MulAssocInt(R, 2, beta);
    MulComm(R, 2);
    MulAssocInt(2, R, beta);
    EvenHalf(R, beta);
    MulMono(2, R, 2 * beta);
    DivModUnique(mod, K, 0, R * (2 * beta));
    DivModUnique(mod, P, 0, 2 * beta);
    MulMono(R, P, 2 * beta);
    MulMono(1, 2 * beta, P);
    MulDistrib(p.n, 2, mod);
  }

  lemma EvenHalf(R: int, beta: int)
    requires R >= 2 && R % 2 == 0 && beta > 0
    ensures R * beta >= 2 && (2 * (R * beta)) % 4 == 0
  {
    var h := R / 2;
    MulAssocInt(2, h, beta);
    MulMono(1, h, beta);
    assert 2 * (R * beta) == 4 * (h * beta);
  }

  /**
    Flooring an encryption of m by roundbits bits and decrypting with the smaller plaintext space gives
    floor(m / 2^roundbits). It fails exactly without a bootstrapping key.
  */
  method FloorRoundTrip(p: LweParams, params: RingGSWCryptoParams, EK: BTKey, sk: PrivateKey, m: nat, P: nat, beta: int,
                        roundbits: nat, a: seq<int>, e: int, ghost w: Secrets, ghost t: nat) returns (r: Result<int>)
    requires p.Valid() && p.Q % 2 == 1 && beta > 0 && roundbits >= 1 && m < P && P % Pow(2, roundbits) == 0
    requires p.N % (Pow(2, roundbits) * beta) == 0 && (EK.bs.HasKey? ==> Ready(p, params, EK, w))
    requires sk.Valid() && w.s == sk.Signed() && |sk.elements| == p.n == |a|
    requires var mod := P * (2 * beta); Residues(a, mod) && 0 <= e < mod && Abs(SignedError(e, mod)) <= t
    requires var mod := P * (2 * beta); (p.n + 2) * mod <= WORD && P / Pow(2, roundbits) * mod <= WORD
    requires t + FuncNoise(p, P * (2 * beta), params.baseG, params.digitsG, w.E, w.Eks) < beta
    ensures r.Err? <==> EK.bs.NoKey?
    ensures r.Ok? ==> r.value == m / Pow(2, roundbits)
  {
    hide Near, Phase, Ready, FuncNoise, Decode, Residues, Pow, ClearOfEdges, SignedError;
    EvenPower(roundbits);
    var mod, R := P * (2 * beta), Pow(2, roundbits);
    FloorRoom(p, beta, P, R, mod, m);
    var ct := Encrypt(sk, m, P, mod, a, e);
    EncryptedLevel(Phase(ct.Value(), w.s), m, beta, mod, e, t);
    var floored := EvalFloor(p, params, EK, ct, beta, roundbits, w, m, t);
    if floored.Err? { return Err(floored.error); }
    ghost var v := FuncNoise(p, mod, params.baseG, params.digitsG, w.E, w.Eks);
    MulMono(1, R, beta);
    FloorDecodes(p, floored.value.Value(), w.s, m, beta, P, R, v);
    var message := Decrypt(sk, floored.value, P / R);
    return Ok(message);
  }

  // ----- runs -----

  /** A run has room at every level, and its last bootstrap, with the base it then has, leaves noise below q/4. */
  ghost predicate RunRoom(p: LweParams, o: Owner, run: Run, t: int) {
    && LargeParams(p, run.beta) && IsPow2(run.mod) && run.Valid() && p.q > 0
    && LevelRoom(p, run.beta, run.keys, o, run.mod, run.base, t)
    && LevelNoise(p, p.q, run.Base(Iterations(p, run.beta, run.mod)), o.E, o.Eks) < p.q / 4
  }

  /**
    The large-precision sign of an encryption of m decrypts to whether m is in the upper half of its
    space. It succeeds exactly when every base the run visits has a key, and so always with a complete map.
  */
  method SignRoundTrip(p: LweParams, params: RingGSWCryptoParams, keys: Keys, sk: PrivateKey, m: nat, mod: int,
                       beta: int,
                       a: seq<int>, e: int, ghost o: Owner, ghost t: nat) returns (r: Result<int>)
    requires Runnable(p, params, keys, beta, o) && LargeMessage(p, sk, beta, mod, m, a, e, o, t)
    requires mod > 0 && RunRoom(p, o, RunFrom(p, params, keys, mod, beta), t)
    modifies params`baseG, params`digitsG, params`gpower, params`gpowerMap
    ensures ParamsReady(p, params) && p.q > 0 && mod > 0 && old(params.baseG) >= 2
    ensures r.Ok? <==> old(RunFrom(p, params, keys, mod, beta)).HeldBefore(Iterations(p, beta, mod) + 1)
    ensures Complete(keys, old(params.baseG)) ==> r.Ok?
    ensures r.Ok? ==> r.value == if Upper(m, mod, beta) then 1 else 0
    ensures r.Ok? ==> Returned(params, old(EntryOf(params)),
                               old(RunFrom(p, params, keys, mod, beta)).LeavesBy(Iterations(p, beta, mod)))
  {
    hide Near, Phase, LargeParams, IsPow2, KeysReady, LevelRoom, LevelNoise, Upper, InLevel, Decode, Residues,
         Holds,
         Returned, Stopped, Iterations, Run.HeldBefore, Run.LeavesBy, Run.Base, Complete;
    WordRoom(p, beta, mod, m);
    DigitSizes(p, beta);
    ghost var run, k := RunFrom(p, params, keys, mod, beta), Iterations(p, beta, mod);
    if Complete(keys, params.baseG) { CompleteHolds(run, k + 1); }
    var ct := Encrypt(sk, m, mod / (2 * beta), mod, a, e);
    EncryptedLevel(Phase(ct.Value(), o.s), m, beta, mod, e, t);
    var sign := EvalSign(p, params, keys, ct, beta, o, m, t);
    if sign.Err? { return Err(sign.error); }
    ghost var v := LevelNoise(p, p.q, run.Base(k), o.E, o.Eks);
    HoldsShape(p, sign.value.Value(), o.s, p.q, Bit(Upper(m, mod, beta)) * (p.q / 2), v);
    SignDecodes(p, sign.value.Value(), o.s, Upper(m, mod, beta), v);
    DecryptFits(p.n, p.q, mod, p.q, beta);
    var bit := Decrypt(sk, sign.value, 2);
    return Ok(bit);
  }

  lemma HoldsShape(p: LweParams, c: Cipher, s: seq<int>, F: int, y: int, v: int)
    requires Holds(p, c, s, F, y, v)
    ensures c.Valid() && |c.a| == p.n && c.modulus == F
  {
  }

  /** What can be decrypted of a decomposition: every modulus is at most q and a number of cells. */
  lemma DecompShape(p: LweParams, ret: seq<LWECiphertext>, s: seq<int>, beta: int, m: nat, P: nat, i: nat, end: int)
    requires beta > 0 && P > 0 && p.q == P * (2 * beta) && DecompHeld(p, ret, s, beta, m, P) && i < |ret|
    requires ret[|ret| - 1].modulus == end && 0 < end <= p.q
    ensures var c := ret[i].Value(); c.Valid() && |c.a| == p.n && 0 < c.modulus <= p.q && c.modulus / (2 * beta) > 0
  {
    hide Near, Phase, Quot, Digit;
    if i < |ret| - 1 {
      assert ret[..|ret| - 1][i] == ret[i];
      DivModUnique(p.q, P, 0, 2 * beta);
    }
  }

  /**
    Decomposing an encryption of m and decrypting the digits gives m back, as the sum of digit_i * P^i. It
    succeeds exactly when every base has a key and the last one an entry, and so always with a complete map.
  */
  method DecompRoundTrip(p: LweParams, params: RingGSWCryptoParams, keys: Keys, sk: PrivateKey, m: nat, mod: int,
                         beta: int,
                         a: seq<int>, e: int, ghost o: Owner, ghost t: nat) returns (r: Result<int>)
    requires Runnable(p, params, keys, beta, o) && LargeMessage(p, sk, beta, mod, m, a, e, o, t)
    requires LevelRoom(p, beta, keys, o, mod, params.baseG, t)
    modifies params`baseG, params`digitsG, params`gpower, params`gpowerMap
    ensures ParamsReady(p, params) && p.q > 0 && mod > 0 && old(params.baseG) >= 2
    ensures var run, k := old(RunFrom(p, params, keys, mod, beta)), Iterations(p, beta, mod);
            r.Ok? <==> run.HeldBefore(k) && run.Base(k) in keys
    ensures Complete(keys, old(params.baseG)) ==> r.Ok?
    ensures r.Ok? ==> r.value == m
    ensures r.Ok? ==> Returned(params, old(EntryOf(params)),
                               old(RunFrom(p, params, keys, mod, beta)).LeavesBy(Iterations(p, beta, mod)))
  {
    hide Near, Phase, LargeParams, IsPow2, KeysReady, LevelRoom, InLevel, Decode, Residues, DigitSize,
         DecompHeld, DigitCount,
         Returned, Stopped, Iterations, Run.LeavesBy, Run.Base, Complete;
    WordRoom(p, beta, mod, m);
    DigitSizes(p, beta);
    ghost var run, k := RunFrom(p, params, keys, mod, beta), Iterations(p, beta, mod);
    if Complete(keys, params.baseG) {
      CompleteHolds(run, k + 1);
      assert run.Held(k);
    }
    var ct := Encrypt(sk, m, mod / (2 * beta), mod, a, e);
    EncryptedLevel(Phase(ct.Value(), o.s), m, beta, mod, e, t);
    var parts := EvalDecomp(p, params, keys, ct, beta, o, m, t);
    if parts.Err? { return Err(parts.error); }
    var total := Recombine(p, sk, parts.value, beta, DigitSize(p.q, beta), mod, m);
    return Ok(total);
  }

  ghost function Ciphers(parts: seq<LWECiphertext>): (cs: seq<Cipher>)
    reads parts
    ensures |cs| == |parts| && forall i :: 0 <= i < |cs| ==> cs[i] == parts[i].Value()
  {
    if parts == [] then [] else [parts[0].Value()] + Ciphers(parts[1..])
  }

  lemma RecombineStart(f: int -> int, P: nat)
    ensures Sum(f, 0) == 0 && Pow(P, 0) == 1
  {
  }

  /** Part i adds its decrypted value times P^i. */
  lemma RecombineStep(cs: seq<Cipher>, s: seq<int>, beta: int, P: nat, i: nat, d: int)
    requires beta > 0 && i < |cs| && cs[i].modulus > 0 && cs[i].modulus / (2 * beta) > 0
    requires d == Decode(Phase(cs[i], s) % cs[i].modulus, cs[i].modulus / (2 * beta), cs[i].modulus)
    ensures var f := DecodedTerm(cs, s, beta, P); Sum(f, i + 1) == Sum(f, i) + d * Pow(P, i)
    ensures Pow(P, i + 1) == Pow(P, i) * P
  {
    hide Decode, Phase;
    MulComm(P, Pow(P, i));
  }

  /** Decrypts each part with its own plaintext space and sums them with weights P^i. */
  method Recombine(p: LweParams, sk: PrivateKey, parts: seq<LWECiphertext>, beta: int, P: nat, ghost mod: int,
                   ghost m: nat) returns (total: int)
    requires sk.Valid() && |sk.elements| == p.n && beta > 0 && P >= 2 && p.q == P * (2 * beta)
    requires DecompHeld(p, parts, sk.Signed(), beta, m, P) && |parts| > 0 && 0 < parts[|parts| - 1].modulus <= p.q
    requires 2 <= p.q < mod && (p.n + 2) * mod <= WORD && p.q * p.q <= WORD
    ensures total == m
  {
    hide Near, Phase, Decode, DecompHeld, Sum, Pow, DecodedTerm;
    ghost var cs := Ciphers(parts);
    ghost var f := DecodedTerm(cs, sk.Signed(), beta, P);
    DecompReconstructs(p, parts, cs, sk.Signed(), beta, m, P);
    total := 0;
    var w := 1;
    RecombineStart(f, P);
    for i := 0 to |parts|
      invariant w == Pow(P, i) && total == Sum(f, i)
    {
      DecompShape(p, parts, sk.Signed(), beta, m, P, i, parts[|parts| - 1].modulus);
      DecryptFits(p.n, p.q, mod, parts[i].modulus, beta);
      var d := Decrypt(sk, parts[i], parts[i].modulus / (2 * beta));
      RecombineStep(cs, sk.Signed(), beta, P, i, d);
      total := total + d * w;
      w := w * P;
    }
  }

  /** One noise bound v that covers every level and base, and the last bootstrap of the sign. */
  ghost predicate UniformNoise(p: LweParams, beta: int, o: Owner, mod: int, base: nat, t: nat, v: nat)
    requires p.Valid() && beta > 0 && DigitSize(p.q, beta) > 0
  {
    && NoiseAtMost(p, o, mod, base, v) && t + v < beta && FloorNoise(p.n, DigitSize(p.q, beta), v) + v < beta
    && forall b: nat :: Visitable(b, base) ==> LevelNoise(p, p.q, b, o.E, o.Eks) < p.q / 4
  }

  /** A map with the given bases leaves room for the run from mod, whatever its keys are. */
  ghost predicate RoomForBases(p: LweParams, beta: int, o: Owner, bases: set<nat>, mod: nat, base: nat, t: int) {
    forall keys: Keys :: keys.Keys == bases ==> RunRoom(p, o, Run(keys, mod, p.q, beta, base), t)
  }

  /** One noise bound gives room to every run. */
  lemma UniformRuns(p: LweParams, beta: int, o: Owner, bases: set<nat>, mod: nat, base: nat, t: nat, v: nat)
    requires LargeParams(p, beta) && IsPow2(mod) && base >= 2 && beta > 0 && DigitSize(p.q, beta) > 0
    requires UniformNoise(p, beta, o, mod, base, t, v)
    ensures RoomForBases(p, beta, o, bases, mod, base, t)
  {
    hide LargeParams, IsPow2, LevelRoom, LevelNoise, NoiseAtMost, FloorNoise, DigitSize, Iterations, Visitable,
         Run.Base;
    DigitSizes(p, beta);
    forall keys: Keys | keys.Keys == bases ensures RunRoom(p, o, Run(keys, mod, p.q, beta, base), t) {
      UniformRoom(p, beta, keys, o, mod, base, t, v);
      BaseVisitable(Run(keys, mod, p.q, beta, base), Iterations(p, beta, mod));
    }
  }

  /** The stored tables are those of the three large-precision bases, or none. */
  predicate StandardTables(tables: map<nat, seq<int>>) {
    tables == map[] || tables.Keys == {0x4000, 0x4_0000, 0x800_0000}
  }

  /** The table of the base is stored, or the run never switches: then a return restores the powers. */
  predicate Restorable(params: RingGSWCryptoParams, keys: Keys)
    reads params
  {
    |keys| == 3 ==> params.baseG in params.gpowerMap && params.gpowerMap[params.baseG] == params.gpower
  }

  predicate SameGadget(params: RingGSWCryptoParams, en: Entry)
    reads params
  {
    params.baseG == en.base && params.digitsG == en.digits && params.gpower == en.power
  }

  lemma ReturnRestores(params: RingGSWCryptoParams, run: Run, en: Entry, k: nat)
    requires run.Valid() && en.base == run.base && Returned(params, en, run.LeavesBy(k))
    requires |run.keys| == 3 ==> en.base in en.tables && en.tables[en.base] == en.power
    ensures SameGadget(params, en) && Restorable(params, run.keys)
  {
    hide Run.LeavesBy, Run.Base;
    LeavesExactly(run, k);
    assert PowersOf(params.gpowerMap, en.base) == PowersOf(en.tables, en.base);
  }

  /** Sign and then decomposition, with a complete map. */
  method SignThenDecomp(p: LweParams, params: RingGSWCryptoParams, keys: Keys, sk: PrivateKey, m: nat, mod: int,
                        beta: int,
                        a: seq<int>, e: int, ghost o: Owner, ghost t: nat) returns (r: Result<(int, int)>)
    requires Runnable(p, params, keys, beta, o) && LargeMessage(p, sk, beta, mod, m, a, e, o, t)
    requires Complete(keys, params.baseG) && Restorable(params, keys)
    requires mod > 0 && RunRoom(p, o, RunFrom(p, params, keys, mod, beta), t)
    modifies params`baseG, params`digitsG, params`gpower, params`gpowerMap
    ensures r.Ok? && r.value == (if Upper(m, mod, beta) then 1 else 0, m)
    ensures SameGadget(params, old(EntryOf(params)))
  {
    hide LargeParams, IsPow2, KeysReady, LevelRoom, LevelNoise, Upper, InLevel, Residues, DigitCount, Returned,
         Iterations, Run.LeavesBy, Run.Base, Run.HeldBefore, Complete, ParamsReady, Ternary, SameTables;
    DigitSizes(p, beta);
    ghost var en, run := EntryOf(params), RunFrom(p, params, keys, mod, beta);
    BaseAtLeast(p, params);
    var sign := SignRoundTrip(p, params, keys, sk, m, mod, beta, a, e, o, t);
    ReturnRestores(params, run, en, Iterations(p, beta, mod));
    ghost var en2 := EntryOf(params);
    var whole := DecompRoundTrip(p, params, keys, sk, m, mod, beta, a, e, o, t);
    ReturnRestores(params, run, en2, Iterations(p, beta, mod));
    return Ok((sign.value, whole.value));
  }

  lemma BaseAtLeast(p: LweParams, params: RingGSWCryptoParams)
    requires ParamsReady(p, params)
    ensures params.baseG >= 2
  {
  }

  /**
    The whole large-precision pipeline, for all draws: from a ternary secret whose modulus passes the 32-bit
    cast, key generation, encryption, sign and decomposition always succeed, the sign decrypts to whether m
    is in the upper half, and the digits to m. The gadget base, digit count and powers end as they began.
  */
  method LargePrecisionRoundTrip(ctx: BinFHEContext, sk: PrivateKey, draws: map<nat, Drawn>, m: nat, mod: int,
                                 beta: int, a: seq<int>, e: int,
                                 ghost errs: map<nat, seq<seq<Poly>>>, ghost o: Owner, ghost t: nat)
    returns (r: Result<(int, int)>)
    requires LargeParams(ctx.p, beta) && LargeMessage(ctx.p, sk, beta, mod, m, a, e, o, t)
    requires ctx.TablesAgree() && ctx.btKeyMap == map[] && StandardTables(ctx.params.gpowerMap) &&
             (ctx.p.n + 1) * ctx.p.qKS <= WORD
    requires CastOk(sk.modulus) && Ternary(sk.Signed())
    requires ctx.params.baseG in ctx.Bases() && Usable(ctx.p, ctx.Bases()) &&
             AllDrawn(ctx.p, ctx.Bases(), draws, errs, o)
    requires mod > 0 && RoomForBases(ctx.p, beta, o, ctx.Bases(), mod, ctx.params.baseG, t)
    modifies ctx, ctx.params`baseG, ctx.params`digitsG, ctx.params`gpower, ctx.params`gpowerMap
    ensures r.Ok? && r.value == (if Upper(m, mod, beta) then 1 else 0, m)
    ensures SameGadget(ctx.params, old(EntryOf(ctx.params)))
  {
    hide LargeParams, IsPow2, KeysReady, LevelNoise, Upper, InLevel, Residues, DigitCount, RunRoom,
         Complete, CastOk, Ternary, AllDrawn, Usable, GPowers;
    DigitSizes(ctx.p, beta);
    var gen := ctx.BTKeyGen(sk, draws, errs, o);
    TableStored(ctx.params, ctx.btKeyMap);
    r := SignThenDecomp(ctx.p, ctx.params, ctx.btKeyMap, sk, m, mod, beta, a, e, o, t);
  }

  lemma TableStored(params: RingGSWCryptoParams, keys: Keys)
    requires params.Valid() && params.Consistent() && params.MapConsistent()
    requires keys.Keys == {params.baseG} || (keys.Keys == params.gpowerMap.Keys && params.baseG in keys)
    ensures Restorable(params, keys)
  {
    if keys.Keys == {params.baseG} { assert |keys| == |keys.Keys| == 1; }
  }
}
