/**
  Bootstrapping that applies a function, and evaluation of arbitrary functions
  (binfhe-base-scheme.cpp, binfhecontext.cpp).
*/
module Functional {
  import opened Arith
  import opened Native
  import opened Ring
  import opened RgswParams
  import opened ExternalProduct
  import opened Rlwe
  import opened Lwe
  import opened KeySwitching
  import opened Cggi
  import opened Bootstrapping
  import opened Gates

  /** A function of a residue x modulo q with values modulo Q. */
  type Func = (int, int, int) -> int

  /** f has values in [0, F] and f(x + h) is -f(x) modulo F: negacyclic. */
  ghost predicate Antiperiodic(f: Func, h: nat, F: int) {
    h > 0 && F > 0 && forall x :: 0 <= x < h ==> Opposite(f(x, 2 * h, F), f(x + h, 2 * h, F), F)
  }

  /** Two values in [0, F] that add up to 0 modulo F. */
  predicate Opposite(y: int, z: int, F: int)
    requires F > 0
  {
    0 <= y <= F && 0 <= z <= F && (y + z) % F == 0
  }

  /** The form in which the functions of the code meet it. */
  lemma StrictAntiperiodic(f: Func, h: nat, F: int)
    requires h > 0 && F > 0
    requires forall x :: 0 <= x < h ==> 0 <= f(x, 2 * h, F) <= F && f(x + h, 2 * h, F) == F - f(x, 2 * h, F)
    ensures Antiperiodic(f, h, F)
  {
    DivModUnique(F, 1, 0, F);
  }

  lemma AntiperiodicAt(f: Func, h: nat, F: int, x: int)
    requires Antiperiodic(f, h, F) && 0 <= x < 2 * h
    ensures Opposite(f(x, 2 * h, F), f((x + h) % (2 * h), 2 * h, F), F)
  {
    if x < h {
      ModSmall(x + h, 2 * h);
    } else {
      DivModUnique(x + h, 1, x - h, 2 * h);
      assert Opposite(f(x - h, 2 * h, F), f((x - h) + h, 2 * h, F), F);
    }
  }

  function FuncTable(f: Func, h: nat, F: int, t: int): int -> int { x => t * f(x, 2 * h, F) }

  /**
    For every phase, the lookup yields floor(Q/F)*f(phase) when <a,s> falls in the lower
    half of its period, and c*(Q mod F) more when it falls in the upper half, where c*F is the
    sum of f at the phase and at the opposite point; c is 1 except where both are 0 or both F.
  */
  lemma FuncLookup(m: Poly, fac: nat, h: nat, f: Func, F: int, Q: int, b: int, u: int)
    requires Antiperiodic(f, h, F) && Q > 0 && Sparse(m, fac, h, Tabulated(FuncTable(f, h, F, Q / F), b, h))
    ensures Cong(Ext(m, fac * u), LookupValue(f, h, F, Q, b - u, u), Q)
  {
    hide *;
    AntiperiodicPositive(f, h, F);
    Lookup(m, fac, h, FuncTable(f, h, F, Q / F), b, u);
    TableAt(f, h, F, Q, b, u);
    TableCase(f, h, F, Q, b - u, u, Ext(m, fac * u));
  }

  lemma TableEntryAt(f: Func, h: nat, F: int, t: int, x: int)
    ensures FuncTable(f, h, F, t)(x) == t * f(x, 2 * h, F)
  {
  }

  /** The two entries that a lookup may show. */
  lemma TableAt(f: Func, h: nat, F: int, Q: int, b: int, u: int)
    requires h > 0 && F > 0
    ensures FuncTable(f, h, F, Q / F)((b - u) % (2 * h)) == Q / F * f((b - u) % (2 * h), 2 * h, F)
    ensures FuncTable(f, h, F, Q / F)((b - u + h) % (2 * h)) == Q / F * f(((b - u) % (2 * h) + h) % (2 * h), 2 * h, F)
  {
    ShiftMod(b - u, h, 2 * h);
    TableEntryAt(f, h, F, Q / F, (b - u) % (2 * h));
    TableEntryAt(f, h, F, Q / F, (b - u + h) % (2 * h));
    hide FuncTable;
  }

  lemma TableCase(f: Func, h: nat, F: int, Q: int, x: int, u: int, e: int)
    requires Antiperiodic(f, h, F) && Q > 0
    requires u % (2 * h) < h ==> e == Q / F * f(x % (2 * h), 2 * h, F)
    requires u % (2 * h) >= h ==> e == -(Q / F * f((x % (2 * h) + h) % (2 * h), 2 * h, F))
    ensures Cong(e, LookupValue(f, h, F, Q, x, u), Q)
  {
    hide Antiperiodic;
    AntiperiodicPositive(f, h, F);
    var y := x % (2 * h);
    DivMod(x, 2 * h);
    AntiperiodicAt(f, h, F, y);
    DivMod(Q, F);
    var z := f((y + h) % (2 * h), 2 * h, F);
    DivMod(f(y, 2 * h, F) + z, F);
    TableUpper(Q / F, F, f(y, 2 * h, F), z, Carry(f, h, F, y), Q, Q % F);
    CongRefl(LookupValue(f, h, F, Q, x, u), Q);
  }

  /** How often F fits in the sum of f at y and at the opposite point. */
  function Carry(f: Func, h: nat, F: int, y: int): int
    requires h > 0 && F > 0
  {
    (f(y, 2 * h, F) + f((y + h) % (2 * h), 2 * h, F)) / F
  }

  /** What the rotated test polynomial shows for a phase x, where u = <a,s>. */
  function LookupValue(f: Func, h: nat, F: int, Q: int, x: int, u: int): int
    requires h > 0 && F > 0
  {
    var y := x % (2 * h);
    (Q / F) * f(y, 2 * h, F) + (if u % (2 * h) < h then 0 else Carry(f, h, F, y)) * (Q % F)
  }

  lemma TableUpper(t: int, F: int, y: int, z: int, c: int, Q: int, r: int)
    requires Q == t * F + r && y + z == c * F
    ensures Cong(-(t * z), t * y + c * r, Q)
  {
    MulDistrib(y, z, t);
    MulAssocInt(t, c, F);
    MulComm(t, c);
    MulAssocInt(c, t, F);
    MulDistrib(t * F, r, c);
    CongOf(-(t * z), t * y + c * r, 0 - c, Q);
  }

  lemma ShiftMod(x: int, h: int, m: int)
    requires m > 0
    ensures (x + h) % m == (x % m + h) % m
  {
    ModCong(x, m);
    CongRefl(h, m);
    CongAdd(x % m, x, h, h, m);
    CongMod(x % m + h, x + h, m);
  }

  /** Noise of a functional bootstrap to modulus F. */
  function FuncNoise(p: LweParams, F: int, base: nat, k: nat, E: nat, Eks: nat): int
    requires p.Valid() && F > 0
  {
    BootNoise(p, F, AccBound(p, base, k, E), Eks, p.Q % F)
  }

  /** The scaled table value is Q*y up to F*(Q mod F), in either half. */
  lemma FuncSlack(Q: int, F: int, y: int, z: int, eps: int)
    requires Q > 0 && F > 0 && 0 <= y <= F && 0 <= z <= F && (eps == 0 || y + z == eps * F)
    ensures -(F * (Q % F)) <= F * ((Q / F) * y + eps * (Q % F)) - Q * y <= F * (Q % F)
  {
    var t, r := Q / F, Q % F;
    DivMod(Q, F);
    SlackTerms(Q, F, y, eps, t, r);
    MulMono(0, y, r);
    MulMono(y, F, r);
    MulMono(0, z, r);
    MulMono(z, F, r);
    MulAssocInt(eps, F, r);
    MulDistrib(y, z, r);
  }

  lemma SlackTerms(Q: int, F: int, y: int, eps: int, t: int, r: int)
    requires Q == t * F + r
    ensures F * (t * y + eps * r) - Q * y == eps * (F * r) - y * r
  {
    MulDistrib(t * y, eps * r, F);
    MulAssocInt(F, t, y);
    MulComm(F, t);
    MulDistrib(t * F, r, y);
    MulAssocInt(F, eps, r);
    MulComm(F, eps);
    MulAssocInt(eps, F, r);
  }

  predicate FuncInput(p: LweParams, ct: Cipher, h: nat) {
    ct.Valid() && |ct.a| == p.n && h > 0 && ct.modulus == 2 * h && p.N % h == 0
  }

  /** The loop that fills the test polynomial of f. */
  method FuncPolynomial(N: nat, ctMod: int, Q: int, b: int, f: Func, F: int, ghost fac: nat,
                        ghost h: nat) returns (m: Poly)
    requires h > 0 && fac > 0 && ctMod == 2 * h && N == fac * h && 0 <= b < ctMod && Antiperiodic(f, h, F)
    requires Q > 0 && Q % F != 0
    ensures |m| == N && Residues(m, Q) && Sparse(m, fac, h, Tabulated(FuncTable(f, h, F, Q / F), b, h))
  {
    var arr := new int[N](_ => 0);
    FactorOf(N, fac, h);
    var factor := 2 * N / ctMod;
    var t := Q / F;
    ghost var v := Tabulated(FuncTable(f, h, F, t), b, h);
    var j := 0;
    while j < ctMod / 2
      invariant 0 <= j <= h && Residues(arr[..], Q)
      invariant SparseSoFar(arr[..], fac, h, v, j)
    {
      var temp := ModSub(b, j, ctMod);
      IndexBelow(j, fac, h);
      var value := t * f(temp, ctMod, F);
      FuncEntry(f, h, F, Q, b, j, temp);
      ghost var before := arr[..];
      SparseStep(before, fac, h, v, j, value);
      arr[j * factor] := value;
      assert arr[..] == before[j * fac := value];
      j := j + 1;
    }
    m := arr[..];
  }

  lemma FuncEntry(f: Func, h: nat, F: int, Q: int, b: int, j: int, temp: int)
    requires Antiperiodic(f, h, F) && temp == (b - j) % (2 * h) && Q > 0 && Q % F != 0
    ensures Q / F * f(temp, 2 * h, F) == Tabulated(FuncTable(f, h, F, Q / F), b, h)(j)
    ensures 0 <= Q / F * f(temp, 2 * h, F) < Q
  {
    DivMod(b - j, 2 * h);
    AntiperiodicAt(f, h, F, temp);
    var t, y := Q / F, f(temp, 2 * h, F);
    DivMod(Q, F);
    QuotientNonNegative(Q, F);
    MulMono(0, y, t);
    MulMono(y, F, t);
  }

  method BootstrapFuncCore(p: LweParams, params: RingGSWCryptoParams, EK: BTKey, ct: LWECiphertext, f: Func, F: int,
                           ghost h: nat, ghost w: Secrets) returns (r: Result<RLWECiphertext>)
    requires p.Valid() && FuncInput(p, ct.Value(), h) && Antiperiodic(f, h, F) && p.Q % F != 0
    requires EK.bs.HasKey? ==> Ready(p, params, EK, w)
    ensures r.Err? <==> EK.bs.NoKey?
    ensures r.Err? ==> r.error == ConfigError
    ensures r.Ok? ==> fresh(r.value) && r.value.Valid(p.N, p.Q) && |w.z| == p.N
    ensures h > 0 && F > 0
    ensures r.Ok? ==> Near(RingPhase(r.value.a, r.value.b, w.z)[0],
                           LookupValue(f, h, F, p.Q, Phase(ct.Value(), w.s), Dot(ct.a, w.s)),
                           p.Q, AccBound(p, params.baseG, params.digitsG, w.E))
  {
    hide Ready, RingPhase, Near, AccBound, Sparse, Residues, Antiperiodic, Dot, LookupValue, Tabulated, FuncTable,
         FuncInput;
    AntiperiodicPositive(f, h, F);
    if EK.bs.NoKey? { return Err(ConfigError); }
    FuncFacts(p, ct.Value(), h);
    ghost var fac := FuncShape(p, h);
    var m := FuncPolynomial(p.N, ct.modulus, p.Q, ct.b, f, F, fac, h);
    ReadySelects(p, params, EK, w);
    var acc := Accumulate(p, params, EK, m, ct.a, ct.modulus, w);
    ghost var u := Dot(ct.a, w.s);
    FuncLookup(m, fac, h, f, F, p.Q, ct.b, u);
    NearReplace(RingPhase(acc.a, acc.b, w.z)[0], Ext(m, fac * u), LookupValue(f, h, F, p.Q, ct.b - u, u),
                p.Q, AccBound(p, params.baseG, params.digitsG, w.E));
    return Ok(acc);
  }

  lemma FuncShape(p: LweParams, h: nat) returns (fac: nat)
    requires p.Valid() && h > 0 && p.N % h == 0
    ensures fac > 0 && p.N == fac * h && 2 * p.N / (2 * h) == fac && (2 * p.N) % (2 * h) == 0
  {
    fac := p.N / h;
    DivMod(p.N, h);
    MulAtLeast(p.N / h, h);
    QuotientNonNegative(p.N, h);
    FactorOf(p.N, p.N / h, h);
  }

  lemma FuncFacts(p: LweParams, c: Cipher, h: nat)
    requires FuncInput(p, c, h)
    ensures h > 0 && c.modulus == 2 * h && |c.a| == p.n && Residues(c.a, 2 * h) && 0 <= c.b < 2 * h && p.N % h == 0
  {
  }

  /** c has dimension n, modulus F, and phase y up to noise v. */
  ghost predicate Holds(p: LweParams, c: Cipher, s: seq<int>, F: int, y: int, v: int) {
    c.Valid() && |c.a| == p.n && c.modulus == F && Near(Phase(c, s), y, F, v)
  }

  /**
    Functional bootstrap: for every antiperiodic f, the output's phase is f of the input's
    phase, up to FuncNoise, whatever the noise of the input.
  */
  method BootstrapFunc(p: LweParams, params: RingGSWCryptoParams, EK: BTKey, ct: LWECiphertext, f: Func, F: int,
                       ghost h: nat, ghost w: Secrets) returns (r: Result<LWECiphertext>)
    requires p.Valid() && FuncInput(p, ct.Value(), h) && Antiperiodic(f, h, F) && p.Q % F != 0
    requires EK.bs.HasKey? ==> Ready(p, params, EK, w)
    ensures r.Err? <==> EK.bs.NoKey?
    ensures r.Err? ==> r.error == ConfigError
    ensures r.Ok? ==> fresh(r.value)
    ensures r.Ok? ==> Holds(p, r.value.Value(), w.s, F, f(Phase(ct.Value(), w.s) % (2 * h), 2 * h, F),
                            FuncNoise(p, F, params.baseG, params.digitsG, w.E, w.Eks))
  {
    hide RingPhase, Near, AccBound, Antiperiodic, Dot, Phase, ValidAccKey, ValidKey, ErrorsBounded, TailBound, Extract,
         FuncInput;
    var res := BootstrapFuncCore(p, params, EK, ct, f, F, h, w);
    if res.Err? { return Err(res.error); }
    var acc := res.value;
    ExtractPhase(acc.a, acc.b, w.z, p.Q);
    ExtractIs(acc.a, acc.b[0], p.Q);
    AntiperiodicPositive(f, h, F);
    var ctExt := new LWECiphertext(Cipher(Reduce(Transpose(acc.a), p.Q), acc.b[0], p.Q));
    var out := SwitchBack(p, EK.ks, ctExt, F, w);
    ghost var x := Phase(ct.Value(), w.s) % (2 * h);
    AntiperiodicResidue(f, h, F, Phase(ct.Value(), w.s));
    FuncResult(p, F, w.Eks, AccBound(p, params.baseG, params.digitsG, w.E), RingPhase(acc.a, acc.b, w.z)[0],
               Phase(ctExt.Value(), w.z), Phase(out.Value(), w.s), f(x, 2 * h, F), f((x + h) % (2 * h), 2 * h, F),
               if Dot(ct.a, w.s) % (2 * h) < h then 0 else Carry(f, h, F, x));
    return Ok(out);
  }

  lemma ExtractIs(a: Poly, b: int, Q: int)
    requires |a| > 0 && Q > 0
    ensures Extract(a, b, Q) == Cipher(Reduce(Transpose(a), Q), b, Q) && |Extract(a, b, Q).a| == |a|
  {
  }

  lemma AntiperiodicPositive(f: Func, h: nat, F: int)
    requires Antiperiodic(f, h, F)
    ensures h > 0 && F > 0
  {
  }

  lemma AntiperiodicResidue(f: Func, h: nat, F: int, x: int)
    requires Antiperiodic(f, h, F)
    ensures h > 0 && F > 0
    ensures var y := x % (2 * h);
            && Opposite(f(y, 2 * h, F), f((y + h) % (2 * h), 2 * h, F), F)
            && f(y, 2 * h, F) + f((y + h) % (2 * h), 2 * h, F) == Carry(f, h, F, y) * F
  {
    var y := x % (2 * h);
    DivMod(x, 2 * h);
    AntiperiodicAt(f, h, F, y);
    DivMod(f(y, 2 * h, F) + f((y + h) % (2 * h), 2 * h, F), F);
  }

  lemma FuncResult(p: LweParams, F: int, Eks: nat, acc: nat, r0: int, p0: int, p3: int, y: int, z: int, eps: int)
    requires p.Valid() && F > 0 && 0 <= y <= F && 0 <= z <= F && (eps == 0 || y + z == eps * F)
    requires Cong(p0, r0, p.Q) && Near(r0, (p.Q / F) * y + eps * (p.Q % F), p.Q, acc)
    requires Near((2 * p.Q * p.qKS) * p3, (2 * F * p.qKS) * p0, (2 * p.Q * p.qKS) * F, TailBound(p, F, Eks))
    ensures Near(p3, y, F, BootNoise(p, F, acc, Eks, p.Q % F))
  {
    hide TailBound, BootNoise;
    var M := (p.Q / F) * y + eps * (p.Q % F);
    DivMod(p.Q, F);
    NearFromCong(p0, r0, 0, p.Q, 0);
    NearTrans(p0, r0, M, p.Q, 0, acc);
    FuncSlack(p.Q, F, y, z, eps);
    BootResult(p, F, Eks, p0, p3, M, y, acc, p.Q % F);
  }
}
