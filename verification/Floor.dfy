/** Homomorphic flooring (binfhe-base-scheme.cpp). */
module Flooring {
  import opened Arith
  import opened RgswParams
  import opened Lwe
  import opened Encryption
  import opened Bootstrapping
  import opened Gates
  import opened Functional
  import opened FunctionEval

  /** The function of the second bootstrap: the identity on the middle half circle (f2 in the code). */
  function MiddleIdentity(): Func {
    (x, q, Q) => if x < q / 4 then Q - q / 2 - x else if q / 4 <= x && x < 3 * q / 4 then x else Q + q / 2 - x
  }

  lemma MiddleIdentityAntiperiodic(h: nat, F: int)
    requires h > 0 && h % 2 == 0 && F >= 2 * h
    ensures Antiperiodic(MiddleIdentity(), h, F)
  {
    hide MiddleIdentity;
    var f, g := MiddleIdentity(), h / 2;
    assert h == 2 * g && 2 * h / 2 == h && 2 * h / 4 == g && 3 * (2 * h) / 4 == 3 * g;
    forall x | 0 <= x < h ensures 0 <= f(x, 2 * h, F) <= F && f(x + h, 2 * h, F) == F - f(x, 2 * h, F) {
      MiddleAt(x, h, g, F);
      MiddleAt(x + h, h, g, F);
    }
    StrictAntiperiodic(f, h, F);
  }

  lemma MiddleAt(x: int, h: int, g: int, F: int)
    requires 2 * h / 2 == h && 2 * h / 4 == g && 3 * (2 * h) / 4 == 3 * g
    ensures MiddleIdentity()(x, 2 * h, F) == if x < g then F - h - x else if x < 3 * g then x else F + h - x
  {
  }

  /** The granularity of the floor. */
  function FloorModulus(p: LweParams, beta: int, roundbits: nat): int {
    if roundbits == 0 then p.q else beta * 2 * Pow(2, roundbits)
  }

  /** The shifted phase keeps a distance of v from the two ends of its half circle. */
  predicate ClearOfEdges(x: int, h: int, v: int)
    requires h > 0
  {
    v <= x % h < h - v
  }

  /** How far the result is from the floor, as a function of the first-bootstrap position w in its half circle. */
  function FloorSlip(w: int, h: int): int { if 0 <= w < h then 0 else if w < 0 then 2 * w + 2 * h else 2 * w }

  /**
    What the two bootstraps do to the shifted phase x, whatever their errors e2 and e3: e2 enters
    both the minuend and the looked-up value and cancels, up to a slip when it leaves the half circle.
  */
  lemma FloorOffset(x: int, p2: int, y: int, p3: int, h: int, F: int, c: int, e2: int, e3: int)
    requires h > 0 && h % 2 == 0 && c > 0 && F == c * (2 * h) && -(h / 2) <= e2 <= h / 2
    requires Cong(p2, SignQuarter()(x % (2 * h), 2 * h, F) + e2, F)
    requires Cong(y, x - p2, F)
    requires Cong(p3, MiddleIdentity()(y % (2 * h), 2 * h, F) + e3, F)
    ensures Cong(y - p3, (2 * h) * (x / (2 * h)) + FloorSlip(x % h - e2, h) - e3, F)
  {
    var q, g, w := 2 * h, h / 2, x % h - e2;
    var base, z := q * (x / q), w + g;
    DivMod(x, h);
    FirstBootstrap(x, p2, y, h, g, F, c, e2);
    MiddleAt(z, h, g, F);
    CongAdd(y, base + z, p3, MiddleIdentity()(z, q, F) + e3, F);
    hide MiddleIdentity;
    var m := MiddleIdentity()(z, q, F);
    CongOf(base + z - (m + e3), base + FloorSlip(w, h) - e3, if 0 <= w < h then 0 else -1, F);
    CongTrans(y - p3, base + z - (m + e3), base + FloorSlip(w, h) - e3, F);
  }

  /** After the first subtraction, the phase is a quarter circle above its half-circle position. */
  lemma FirstBootstrap(x: int, p2: int, y: int, h: int, g: int, F: int, c: int, e2: int)
    requires h > 0 && h == 2 * g && c > 0 && F == c * (2 * h) && -g <= e2 <= g
    requires Cong(p2, SignQuarter()(x % (2 * h), 2 * h, F) + e2, F)
    requires Cong(y, x - p2, F)
    ensures Cong(y, (2 * h) * (x / (2 * h)) + (x % h - e2 + g), F) && y % (2 * h) == x % h - e2 + g
  {
    var q, r := 2 * h, x % (2 * h);
    DivMod(x, q);
    HalfResidue(x, h);
    var z, base, f := x % h - e2 + g, q * (x / q), SignQuarter()(r, q, F);
    assert q / 4 == g && q / 2 == h;
    assert f == if r < h then F - g else g;
    MulComm(q, x / q);
    CongRefl(x, F);
    CongAdd(x, x, p2, f + e2, F);
    CongTrans(y, x - p2, x - (f + e2), F);
    CongOf(x - (f + e2), base + z, if r < h then -1 else 0, F);
    CongTrans(y, x - (f + e2), base + z, F);
    CongCoarser(y, base + z, c, q);
    CongOf(base + z, z, x / q, q);
    CongTrans(y, base + z, z, q);
    CongResidue(y, z, q);
  }

  /**
    Exactly when flooring is right: for q below the modulus and a first error of at most q/4, the
    result is the floor up to the second error if and only if the first error keeps the shifted
    phase in its half circle.
  */
  lemma FloorExactly(x: int, p2: int, y: int, p3: int, h: int, F: int, c: int, e2: int, e3: int)
    requires h > 0 && h % 2 == 0 && c >= 2 && F == c * (2 * h) && -(h / 2) <= e2 <= h / 2
    requires Cong(p2, SignQuarter()(x % (2 * h), 2 * h, F) + e2, F)
    requires Cong(y, x - p2, F)
    requires Cong(p3, MiddleIdentity()(y % (2 * h), 2 * h, F) + e3, F)
    ensures Cong(y - p3, (2 * h) * (x / (2 * h)) - e3, F) <==> 0 <= x % h - e2 < h
  {
    hide SignQuarter, MiddleIdentity;
    var base, slip := (2 * h) * (x / (2 * h)), FloorSlip(x % h - e2, h);
    DivMod(x, h);
    MulMono(2, c, 2 * h);
    FloorOffset(x, p2, y, p3, h, F, c, e2, e3);
    if Cong(y - p3, base - e3, F) {
      CongSym(y - p3, base - e3, F);
      CongTrans(base - e3, y - p3, base + slip - e3, F);
      SmallCong(base - e3, slip, F);
    }
  }

  lemma SmallCong(x: int, d: int, F: int)
    requires F > 0 && 0 <= d < F && Cong(x, x + d, F)
    ensures d == 0
  {
    var k := CongWitness(x, x + d, F);
    MulAtLeast(k, F);
    MulAtLeast(k + 1, F);
    MulDistrib(k, 1, F);
  }

  /** With both errors at most v and the phase clear of the edges, only the second error remains. */
  lemma FloorCancels(x: int, p2: int, y: int, p3: int, h: int, F: int, c: int, v: int)
    requires h > 0 && h % 2 == 0 && c > 0 && F == c * (2 * h) && v >= 0 && ClearOfEdges(x, h, v)
    requires Near(p2, SignQuarter()(x % (2 * h), 2 * h, F), F, v)
    requires Cong(y, x - p2, F)
    requires Near(p3, MiddleIdentity()(y % (2 * h), 2 * h, F), F, v)
    ensures Near(y - p3, (2 * h) * (x / (2 * h)), F, v)
  {
    hide SignQuarter, MiddleIdentity;
    var e2 := NearError(p2, SignQuarter()(x % (2 * h), 2 * h, F), F, v);
    var e3 := NearError(p3, MiddleIdentity()(y % (2 * h), 2 * h, F), F, v);
    FloorOffset(x, p2, y, p3, h, F, c, e2, e3);
    NearFromCong(y - p3, (2 * h) * (x / (2 * h)), -e3, F, v);
  }

  lemma HalfResidue(x: int, h: int)
    requires h > 0
    ensures x % h == if x % (2 * h) < h then x % (2 * h) else x % (2 * h) - h
  {
    var r := x % (2 * h);
    DivMod(x, 2 * h);
    MulAssocInt(x / (2 * h), 2, h);
    MulDistrib((x / (2 * h)) * 2, 1, h);
    if r < h { DivModUnique(x, (x / (2 * h)) * 2, r, h); }
    else { DivModUnique(x, (x / (2 * h)) * 2 + 1, r - h, h); }
  }

  // ----- messages -----

  /** Flooring drops the low digit of a message: floor((m*2beta + beta + e)/q) is m/P, modulo the level. */
  lemma FloorMessage(x: int, m: int, beta: int, P: int, q: int, c: int, t: int, v: int)
    requires beta > 0 && P >= 2 && P % 2 == 0 && q == P * (2 * beta) && c > 0 && t >= 0 && v >= 0 && t + v < beta
    requires Near(x, m * (2 * beta), c * q, t)
    ensures q / 2 > 0 && ClearOfEdges(x + beta, q / 2, v)
    ensures Cong(q * ((x + beta) / q), q * (m / P), c * q)
  {
    DivMod(P, 2);
    MulAssocInt(2, P / 2, 2 * beta);
    MulAtLeast(P, 2 * beta);
    MulAtLeast(P / 2, 2 * beta);
    var j := NearWitness(x, m * (2 * beta), c * q, t);
    var e := x - m * (2 * beta) - j * (c * q);
    MulAssocInt(j, c, q);
    FloorEdges(x + beta, m, beta, P / 2, q / 2, j * c, e, v);
    FloorQuotient(x + beta, m, beta, P, q, c, j, e);
  }

  lemma FloorEdges(x: int, m: int, beta: int, H: int, h: int, k: int, e: int, v: int)
    requires beta > 0 && H > 0 && h == H * (2 * beta) && h > 0 && v >= 0 && -beta < e - v && e + v < beta
    requires x == m * (2 * beta) + beta + e + k * (2 * h)
    ensures ClearOfEdges(x, h, v)
  {
    CellDigits(m, H, beta, e);
    MulAssocInt(k, 2, h);
    ShiftDivision(m * (2 * beta) + beta + e, k * 2, h, x);
  }

  lemma FloorQuotient(x: int, m: int, beta: int, P: int, q: int, c: int, j: int, e: int)
    requires beta > 0 && P > 0 && q == P * (2 * beta) && q > 0 && -beta < e < beta
    requires x == m * (2 * beta) + beta + e + (j * c) * q
    ensures Cong(q * (x / q), q * (m / P), c * q)
  {
    CellDigits(m, P, beta, e);
    ShiftDivision(m * (2 * beta) + beta + e, j * c, q, x);
    MulDistrib(m / P, j * c, q);
    MulAssocInt(j, c, q);
    CongOf(q * (x / q), q * (m / P), j, c * q);
  }

  lemma ShiftDivision(y: int, k: int, q: int, x: int)
    requires q > 0 && x == y + k * q
    ensures x / q == y / q + k && x % q == y % q
  {
    DivMod(y, q);
    MulDistrib(y / q, k, q);
    DivModUnique(x, y / q + k, y % q, q);
  }

  /** Dividing a cell's point by P cells: the message's quotient, and a remainder clear of the edges. */
  lemma CellDigits(m: int, P: int, beta: int, e: int)
    requires P > 0 && beta > 0 && -beta < e < beta
    ensures P * (2 * beta) > 0
    ensures (m * (2 * beta) + beta + e) / (P * (2 * beta)) == m / P
    ensures beta + e <= (m * (2 * beta) + beta + e) % (P * (2 * beta)) <= P * (2 * beta) - (beta - e)
  {
    DivMod(m, P);
    var u, v := m / P, m % P;
    CellRange(v, beta, e, P);
    MulDistrib(u * P, v, 2 * beta);
    MulAssocInt(u, P, 2 * beta);
    MulMono(0, v, 2 * beta);
    MulMono(v, P - 1, 2 * beta);
    MulDistrib(P, 1, 2 * beta);
    DivModUnique(m * (2 * beta) + beta + e, u, v * (2 * beta) + beta + e, P * (2 * beta));
  }

  predicate FloorInput(p: LweParams, c: Cipher, beta: int, q: int) {
    && p.Valid() && p.Q % 2 == 1 && Shaped(p, c, c.modulus) && 0 < beta < c.modulus
    && q > 2 && q % 4 == 0 && p.N % (q / 2) == 0 && c.modulus % q == 0
  }

  lemma FloorSizes(p: LweParams, c: Cipher, beta: int, q: int) returns (h: nat, k: int)
    requires FloorInput(p, c, beta, q)
    ensures h > 0 && h % 2 == 0 && q == 2 * h && h == q / 2 && k > 0 && c.modulus == k * q && c.modulus >= q &&
            p.Q % c.modulus != 0
  {
    h, k := q / 2, c.modulus / q;
    DivMod(c.modulus, q);
    MulAtLeast(k, q);
    EvenMultiple(p.Q, c.modulus, k, q, h);
  }

  lemma EvenMultiple(Q: int, m: int, k: int, q: int, h: int)
    requires Q % 2 == 1 && m > 0 && m == k * q && q == 2 * h
    ensures Q % m != 0
  {
    MulAssocInt(k, 2, h);
    MulComm(k, 2);
    MulAssocInt(2, k, h);
    OddNotMultiple(Q, m, k * h);
  }

  datatype Option<+T> = None | Some(value: T)

  /** Reduces a copy of ct1 modulo q, bootstraps it with f to the modulus of ct1, and subtracts the result from ct1. */
  method SubtractBootstrapped(p: LweParams, params: RingGSWCryptoParams, EK: BTKey, ct1: LWECiphertext, f: Func, q: int,
                              ghost h: nat, ghost k: int, ghost w: Secrets)
    returns (error: Option<Error>, ghost d: Cipher)
    requires p.Valid() && Shaped(p, ct1.Value(), ct1.modulus) && q > 2 && q == 2 * h && p.N % h == 0 &&
             ct1.modulus == k * q
    requires Antiperiodic(f, h, ct1.modulus) && p.Q % ct1.modulus != 0
    requires EK.bs.HasKey? ==> Ready(p, params, EK, w)
    modifies ct1
    ensures error == if EK.bs.NoKey? then Some(ConfigError) else None
    ensures error.Some? ==> ct1.Value() == old(ct1.Value())
    ensures error.None? ==> d.Valid() && Compatible(old(ct1.Value()), d) && ct1.Value() == SubV(old(ct1.Value()), d)
    ensures error.None? ==> Near(Phase(d, w.s), f(Phase(ChangeModulusV(old(ct1.Value()), q), w.s) % q, q,
                                                  old(ct1.modulus)), old(ct1.modulus),
                                 FuncNoise(p, old(ct1.modulus), params.baseG, params.digitsG, w.E, w.Eks))
  {
    hide Ready, Near, Phase, Antiperiodic, SubV, ChangeModulusV, FuncNoise;
    d := ct1.Value();
    var ctModq := new LWECiphertext(ct1.Value());
    ctModq.SetModulus(q);
    var r := BootstrapFunc(p, params, EK, ctModq, f, ct1.modulus, h, w);
    if r.Err? { return Some(r.error), d; }
    d := r.value.Value();
    var ok := EvalSubEq(ct1, r.value);
    return None, d;
  }

  /**
    Flooring: the result's phase is q*floor((phase + beta)/q), up to the second bootstrap's
    noise only, for every phase whose shifted value is clear of the half circles' edges. The
    granularity q is the parameter's for roundbits = 0 and 2^roundbits cells otherwise; in that
    case a message m becomes floor(m/2^roundbits), scaled back.
  */
  method EvalFloor(p: LweParams, params: RingGSWCryptoParams, EK: BTKey, ct: LWECiphertext, beta: int, roundbits: nat,
                   ghost w: Secrets, ghost m: int, ghost t: int)
    returns (r: Result<LWECiphertext>)
    requires FloorInput(p, ct.Value(), beta, if roundbits == 0 then p.q else Pow(2, roundbits) * (2 * beta))
    requires EK.bs.HasKey? ==> Ready(p, params, EK, w)
    ensures r.Err? <==> EK.bs.NoKey?
    ensures r.Err? ==> r.error == ConfigError
    ensures r.Ok? ==> fresh(r.value) && Shaped(p, r.value.Value(), ct.modulus)
    ensures r.Ok? ==> var q := if roundbits == 0 then p.q else Pow(2, roundbits) * (2 * beta);
              var x := Phase(ct.Value(), w.s) + beta;
              var v := FuncNoise(p, ct.modulus, params.baseG, params.digitsG, w.E, w.Eks);
              ClearOfEdges(x, q / 2, v) ==> Near(Phase(r.value.Value(), w.s), q * (x / q), ct.modulus, v)
    ensures r.Ok? && roundbits >= 1 ==>
              var v := FuncNoise(p, ct.modulus, params.baseG, params.digitsG, w.E, w.Eks);
              t >= 0 && t + v < beta && Near(Phase(ct.Value(), w.s), m * (2 * beta), ct.modulus, t) ==>
                var R := Pow(2, roundbits);
                Near(Phase(r.value.Value(), w.s), m / R * (R * (2 * beta)), ct.modulus, v)
  {
    hide Ready, Near, Phase, Antiperiodic, SignQuarter, MiddleIdentity, AddConstV, SubV, ChangeModulusV, FuncNoise,
         FloorModulus, ClearOfEdges, Pow;
    Granularity(p, beta, roundbits);
    var q, mod := FloorModulus(p, beta, roundbits), ct.modulus;
    ghost var h, k := FloorSizes(p, ct.Value(), beta, q);
    SignQuarterAntiperiodic(h, mod);
    MiddleIdentityAntiperiodic(h, mod);
    var ct1 := new LWECiphertext(ct.Value());
    EvalAddConstEq(ct1, beta);
    var e2, d2 := SubtractBootstrapped(p, params, EK, ct1, SignQuarter(), q, h, k, w);
    if e2.Some? { return Err(e2.value); }
    var e3, d3 := SubtractBootstrapped(p, params, EK, ct1, MiddleIdentity(), q, h, k, w);
    assert e3.None?;
    FuncNoisePositive(p, mod, params.baseG, params.digitsG, w.E, w.Eks);
    ghost var v := FuncNoise(p, mod, params.baseG, params.digitsG, w.E, w.Eks);
    if ClearOfEdges(Phase(ct.Value(), w.s) + beta, h, v) {
      ReadySecret(p, params, EK, w);
      FloorPhase(ct.Value(), beta, d2, d3, w.s, h, k, v);
    }
    if roundbits >= 1 && t >= 0 && t + v < beta && Near(Phase(ct.Value(), w.s), m * (2 * beta), mod, t) {
      RoundedMessage(Phase(ct.Value(), w.s), Phase(ct1.Value(), w.s), m, beta, Pow(2, roundbits), q, mod, k, t, v);
    }
    return Ok(ct1);
  }

  /** The granularity as the code computes it. */
  lemma Granularity(p: LweParams, beta: int, roundbits: nat)
    ensures FloorModulus(p, beta, roundbits) == if roundbits == 0 then p.q else Pow(2, roundbits) * (2 * beta)
    ensures roundbits >= 1 ==> Pow(2, roundbits) >= 2 && Pow(2, roundbits) % 2 == 0
  {
    hide Pow;
    MulComm(beta * 2, Pow(2, roundbits));
    if roundbits >= 1 { EvenPower(roundbits); }
  }

  lemma EvenPower(e: nat)
    requires e >= 1
    ensures Pow(2, e) >= 2 && Pow(2, e) % 2 == 0
  {
    assert Pow(2, e) == 2 * Pow(2, e - 1);
  }

  /** Flooring a message by R cells divides it by R. */
  lemma RoundedMessage(x: int, y: int, m: int, beta: int, R: int, q: int, mod: int, k: int, t: int, v: int)
    requires beta > 0 && R >= 2 && R % 2 == 0 && q == R * (2 * beta) && k > 0 && mod == k * q && t >= 0 && v >= 0
    requires t + v < beta && Near(x, m * (2 * beta), mod, t) && q / 2 > 0
    requires ClearOfEdges(x + beta, q / 2, v) ==> Near(y, q * ((x + beta) / q), mod, v)
    ensures Near(y, m / R * (R * (2 * beta)), mod, v)
  {
    hide Near, ClearOfEdges;
    FloorMessage(x, m, beta, R, q, k, t, v);
    MulComm(q, m / R);
    NearReplace(y, q * ((x + beta) / q), q * (m / R), mod, v);
  }

  /** What decryption makes of a floored message: floor(m/R), with P/R messages. */
  lemma FloorDecodes(p: LweParams, c: Cipher, s: seq<int>, m: int, beta: int, P: int, R: int, v: int)
    requires beta > 0 && R > 0 && P % R == 0 && 0 <= m < P && c.modulus == P * (2 * beta)
    requires Holds(p, c, s, c.modulus, m / R * (R * (2 * beta)), v) && v < R * beta
    ensures P / R > 0 && c.modulus > 0 && Decode(Phase(c, s) % c.modulus, P / R, c.modulus) == m / R
  {
    hide Phase, Decode;
    var K := P / R;
    DivMod(P, R);
    CellBelow(m, R, K);
    var e := NearError(Phase(c, s), m / R * (R * (2 * beta)), c.modulus, v);
    MulAssocInt(R, 2, beta);
    MulComm(R, 2);
    MulAssocInt(2, R, beta);
    assert R * (2 * beta) == 2 * (R * beta);
    MulAssocInt(K, R, 2 * beta);
    MulComm(K, 2 * (R * beta));
    MulAtLeast(R, beta);
    MulMono(1, K, R * beta);
    DecodeExactly(Phase(c, s), m / R, K, R * beta, e);
  }

  /** The phases along EvalFloor. */
  lemma FloorPhase(c: Cipher, beta: int, d2: Cipher, d3: Cipher, s: seq<int>, h: nat, k: int, v: int)
    requires c.Valid() && 0 < beta < c.modulus && h > 0 && h % 2 == 0 && k > 0 && c.modulus == k * (2 * h) && v >= 0 &&
             |s| == |c.a|
    requires d2.Valid() && d3.Valid() && Compatible(c, d2) && Compatible(c, d3)
    requires ClearOfEdges(Phase(c, s) + beta, h, v)
    requires Near(Phase(d2, s), SignQuarter()(Phase(ChangeModulusV(AddConstV(c, beta), 2 * h), s) % (2 * h), 2 * h,
                                              c.modulus), c.modulus, v)
    requires Near(Phase(d3, s), MiddleIdentity()(Phase(ChangeModulusV(SubV(AddConstV(c, beta), d2), 2 * h),
                                                       s) % (2 * h), 2 * h, c.modulus), c.modulus, v)
    ensures Near(Phase(SubV(SubV(AddConstV(c, beta), d2), d3), s), (2 * h) * ((Phase(c, s) + beta) / (2 * h)),
                 c.modulus, v)
  {
    hide *;
    var F, q, x := c.modulus, 2 * h, Phase(c, s) + beta;
    FloorShapes(c, beta, d2, d3);
    var c1 := AddConstV(c, beta);
    var c2 := SubV(c1, d2);
    var c3 := SubV(c2, d3);
    CongRefl(Phase(c2, s), F);
    ConstPhase(c, beta, s);
    SubPhase(c1, d2, s);
    SubPhase(c2, d3, s);
    ReducedPhase(c1, k, q, s, x);
    CongRefl(Phase(d2, s), F);
    CongAdd(Phase(c1, s), x, Phase(d2, s), Phase(d2, s), F);
    CongTrans(Phase(c2, s), Phase(c1, s) - Phase(d2, s), x - Phase(d2, s), F);
    ReducedPhase(c2, k, q, s, Phase(c2, s));
    FloorCancels(x, Phase(d2, s), Phase(c2, s), Phase(d3, s), h, F, k, v);
    NearFromCong(Phase(c3, s), Phase(c2, s) - Phase(d3, s), 0, F, 0);
    NearTrans(Phase(c3, s), Phase(c2, s) - Phase(d3, s), q * (x / q), F, 0, v);
  }

  lemma FloorShapes(c: Cipher, beta: int, d2: Cipher, d3: Cipher)
    requires c.Valid() && 0 < beta < c.modulus && d2.Valid() && d3.Valid() && Compatible(c, d2) && Compatible(c, d3)
    ensures Compatible(AddConstV(c, beta), d2) && Compatible(SubV(AddConstV(c, beta), d2), d3)
    ensures |AddConstV(c, beta).a| == |c.a| == |SubV(AddConstV(c, beta), d2).a|
    ensures AddConstV(c, beta).modulus == c.modulus == SubV(AddConstV(c, beta), d2).modulus
  {
  }

  lemma ReducedPhase(c: Cipher, k: int, q: int, s: seq<int>, x: int)
    requires c.Valid() && q > 2 && c.modulus == k * q && |s| == |c.a| && Cong(Phase(c, s), x, c.modulus)
    ensures Phase(ChangeModulusV(c, q), s) % q == x % q
  {
    hide Phase, ChangeModulusV;
    ChangeModulusPhase(c, q, k, s);
    CongCoarser(Phase(c, s), x, k, q);
    CongTrans(Phase(ChangeModulusV(c, q), s), Phase(c, s), x, q);
    CongMod(Phase(ChangeModulusV(c, q), s), x, q);
  }
}
