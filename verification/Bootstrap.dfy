/**
  What every bootstrapping operation shares: the test polynomial and its lookup, the
  extraction of an LWE ciphertext from the accumulator, and the way back to a small
  modulus (binfhe-base-scheme.cpp).
*/
module Bootstrapping {
  import opened Arith
  import opened Sums
  import opened Native
  import opened Ring
  import opened Gadget
  import opened RgswParams
  import opened ExternalProduct
  import opened Rlwe
  import opened Lwe
  import opened ModSwitching
  import opened KeySwitching
  import opened Cggi
  import opened Dm

  datatype LweParams = LweParams(n: nat, N: nat, q: int, Q: int, qKS: int, baseKS: nat) {
    predicate Valid() { n > 0 && N > 0 && q > 0 && Q > 1 && qKS > 0 && baseKS >= 2 }

    function DigitsKS(): nat
      requires Valid()
    {
      DigitCount(qKS, baseKS)
    }
  }

  /** The refreshing key of either accumulator. */
  datatype RefreshKey = Ginx(acc: AccKey) | Ap(cells: DmKey)

  datatype BSKey = NoKey | HasKey(key: RefreshKey)

  datatype BTKey = BTKey(bs: BSKey, ks: SwitchingKey)

  /** The secrets and error bounds behind a bootstrapping key; used in specifications only. */
  datatype Secrets = Secrets(s: seq<int>, z: Poly, ksErrors: Errors, E: nat, Eks: nat)

  /** The secrets have their dimensions, and the switching key is valid for them. */
  ghost predicate SwitchReady(ks: SwitchingKey, p: LweParams, w: Secrets) {
    && p.Valid() && |w.s| == p.n && |w.z| == p.N && Ternary(w.s) && Ternary(w.z)
    && ValidKey(ks, w.s, w.z, p.baseKS, p.DigitsKS(), p.qKS, w.ksErrors)
    && ErrorsBounded(w.ksErrors, w.Eks)
  }

  /** EK is a CGGI bootstrapping key for the gadget base of the parameters. */
  ghost predicate ValidBTKey(EK: BTKey, p: LweParams, base: nat, k: nat, w: Secrets) {
    && SwitchReady(EK.ks, p, w) && EK.bs.HasKey? && EK.bs.key.Ginx?
    && ValidAccKey(EK.bs.key.acc, w.s, w.z, base, k, p.Q, w.E)
  }

  // ----- test polynomials -----

  /** m holds v(j) at the multiples j*f, j < h; nothing is said of its other coefficients. */
  ghost predicate Sparse(m: Poly, f: nat, h: nat, v: int -> int) {
    f > 0 && h > 0 && |m| == f * h && forall j :: 0 <= j < h ==> j * f < |m| && m[j * f] == v(j)
  }

  ghost predicate SparseSoFar(m: Poly, f: nat, h: nat, v: int -> int, n: int) {
    f > 0 && h > 0 && |m| == f * h && n <= h && forall j :: 0 <= j < n ==> j * f < |m| && m[j * f] == v(j)
  }

  /** Storing v(n) at index n*f extends the filled part by one. */
  lemma SparseStep(m: Poly, f: nat, h: nat, v: int -> int, n: int, value: int)
    requires SparseSoFar(m, f, h, v, n) && 0 <= n < h && 0 <= n * f < |m| && value == v(n)
    ensures SparseSoFar(m[n * f := value], f, h, v, n + 1)
  {
    var r := m[n * f := value];
    forall j | 0 <= j < n + 1 ensures j * f < |r| && r[j * f] == v(j) {
      if j < n {
        MulAtLeast(n - j, f);
        MulDistrib(n, j, f);
        MulMono(0, j, f);
      }
    }
  }

  lemma SparseIndex(f: nat, h: nat, u: int)
    requires f > 0 && h > 0
    ensures f * h > 0 && (f * u) % (f * h) == (u % h) * f && (f * u) / (f * h) == u / h
  {
    ModScale(u, h, f);
    MulComm(f, u % h);
    DivMod(u, h);
    MulDistrib((u / h) * h, u % h, f);
    MulAssocInt(f, u / h, h);
    MulAssocInt(u / h, f, h);
    MulComm(f, u / h);
    MulMono(u % h, h - 1, f);
    MulDistrib(h, 1, f);
    MulMono(0, u % h, f);
    DivModUnique(f * u, u / h, f * (u % h), f * h);
  }

  /** The coefficient a rotation brings to the front. */
  lemma SparseExt(m: Poly, f: nat, h: nat, v: int -> int, u: int)
    requires Sparse(m, f, h, v)
    ensures Ext(m, f * u) == if (u / h) % 2 == 0 then v(u % h) else -v(u % h)
  {
    SparseIndex(f, h, u);
    DivMod(u, h);
  }

  /** The value V at (b - j) mod 2h, as the test polynomials tabulate it. */
  function Tabulated(V: int -> int, b: int, h: nat): int -> int
    requires h > 0
  {
    j => V((b - j) % (2 * h))
  }

  /**
    Rotating the test polynomial of V by u brings V(b - u) to the front when u falls in
    the lower half of its period, and -V(b - u + h) when it falls in the upper half.
  */
  lemma Lookup(m: Poly, f: nat, h: nat, V: int -> int, b: int, u: int)
    requires h > 0 && Sparse(m, f, h, Tabulated(V, b, h))
    ensures |m| > 0
    ensures Ext(m, f * u) == if u % (2 * h) < h then V((b - u) % (2 * h)) else -V((b - u + h) % (2 * h))
  {
    MulAtLeast(f, h);
    hide Ext, Sparse;
    SparseExt(m, f, h, Tabulated(V, b, h), u);
    HalfPeriod(b, u, h);
  }

  /** Which half of the period 2h the number u falls in. */
  lemma HalfPeriod(b: int, u: int, h: nat)
    requires h > 0
    ensures (u / h) % 2 == 0 ==> u % (2 * h) < h && (b - u % h) % (2 * h) == (b - u) % (2 * h)
    ensures (u / h) % 2 != 0 ==> u % (2 * h) >= h && (b - u % h) % (2 * h) == (b - u + h) % (2 * h)
  {
    var x, y := u / h, u % h;
    DivMod(u, h);
    DivMod(x, 2);
    PeriodArith(u, h, x, y, x / 2, x % 2);
    PeriodCase(b, u, h, y, x / 2, x % 2);
  }

  lemma PeriodCase(b: int, u: int, h: nat, y: int, t: int, c: int)
    requires 0 <= y < h && 0 <= c <= 1 && u == t * (2 * h) + (c * h + y)
    ensures c == 0 ==> u % (2 * h) == y && (b - y) % (2 * h) == (b - u) % (2 * h)
    ensures c == 1 ==> u % (2 * h) == h + y && (b - y) % (2 * h) == (b - u + h) % (2 * h)
  {
    var r := if c == 0 then 0 else h;
    DivModUnique(u, t, r + y, 2 * h);
    CongOf(b - y, b - u + r, t, 2 * h);
    CongMod(b - y, b - u + r, 2 * h);
  }

  lemma PeriodArith(u: int, h: int, x: int, y: int, t: int, c: int)
    requires u == x * h + y && x == t * 2 + c
    ensures u == t * (2 * h) + (c * h + y)
  {
    MulDistrib(t * 2, c, h);
    MulAssocInt(t, 2, h);
  }

  // ----- extraction -----

  /** The constant coefficient of the phase as an LWE ciphertext under the coefficients of z. */
  function Extract(a: Poly, b: int, Q: int): Cipher
    requires |a| > 0 && Q > 0
  {
    Cipher(Reduce(Transpose(a), Q), b, Q)
  }

  lemma TransposeDot(a: Poly, z: Poly)
    requires |a| == |z| > 0
    ensures Dot(Transpose(a), z) == Mul(a, z)[0]
  {
    hide Ext;
    MulCommutes(a, z);
    var f, g := DotTerm(Transpose(a), z), ConvTerm(z, a, 0);
    forall i | 0 <= i < |a| ensures f(i) == g(i) {
      ExtBase(z, i);
      MulComm(Ext(a, -i), z[i]);
      assert 0 - i == -i;
    }
    SumEq(f, g, |a|);
  }

  lemma ExtractPhase(a: Poly, b: Poly, z: Poly, Q: int)
    requires |a| == |b| == |z| > 0 && Q > 0 && Residues(b, Q)
    ensures Extract(a, b[0], Q).Valid()
    ensures Cong(Phase(Extract(a, b[0], Q), z), RingPhase(a, b, z)[0], Q)
  {
    hide Mul, Transpose;
    ReduceCong(Transpose(a), Q);
    DotCong(Transpose(a), Reduce(Transpose(a), Q), z, Q);
    TransposeDot(a, z);
    CongRefl(b[0], Q);
    CongAdd(b[0], b[0], Dot(Reduce(Transpose(a), Q), z), Mul(a, z)[0], Q);
  }

  // ----- back to a small modulus -----

  function KsBound(p: LweParams, Eks: nat): int
    requires p.Valid()
  {
    p.N * (p.DigitsKS() * Eks)
  }

  /** Noise of the three switches, multiplied by 2*Q*qKS. */
  function TailBound(p: LweParams, fmod: int, Eks: nat): int
    requires p.Valid()
  {
    p.Q * (p.qKS * (1 + p.n)) + 2 * (p.Q * (fmod * KsBound(p, Eks))) + fmod * (p.Q * (1 + p.N))
  }

  /** The chain of approximations through ModSwitch, KeySwitch, ModSwitch. */
  lemma TailChain(Q: int, K: int, F: int, p0: int, p1: int, p2: int, p3: int, e: int, tz: int, ts: int, te: nat)
    requires Q > 0 && K > 0 && F > 0 && 0 - te <= e <= te
    requires Near((2 * Q) * p1, (2 * K) * p0, (2 * Q) * K, Q * tz)
    requires Cong(p2, p1 - e, K)
    requires Near((2 * K) * p3, (2 * F) * p2, (2 * K) * F, K * ts)
    ensures Near((2 * Q * K) * p3, (2 * F * K) * p0, (2 * Q * K) * F, Q * (K * ts) + 2 * (Q * (F * te)) + F * (Q * tz))
  {
    var M := (2 * Q * K) * F;
    NearScale((2 * K) * p3, (2 * F) * p2, (2 * K) * F, K * ts, Q);
    NearScale((2 * Q) * p1, (2 * K) * p0, (2 * Q) * K, Q * tz, F);
    var x3, x2, x1, x0 := (2 * Q * K) * p3, (2 * Q * F) * p2, (2 * Q * F) * p1, (2 * F * K) * p0;
    Reassoc(Q, K, F, p3);
    Reassoc(Q, F, K, p2);
    Reassoc(F, Q, K, p1);
    Reassoc(F, K, Q, p0);
    assert Near(x3, x2, M, Q * (K * ts));
    assert Near(x1, x0, M, F * (Q * tz));
    KeySwitchNear(Q, K, F, p1, p2, e, te);
    NearTrans(x3, x2, x1, M, Q * (K * ts), 2 * (Q * (F * te)));
    NearTrans(x3, x1, x0, M, Q * (K * ts) + 2 * (Q * (F * te)), F * (Q * tz));
  }

  /** a*((2b)*x) = (2ab)*x and a*((2b)*c) = (2ab)*c, in the forms used above. */
  lemma Reassoc(a: int, b: int, c: int, x: int)
    ensures a * ((2 * b) * x) == (2 * a * b) * x && a * ((2 * b) * c) == (2 * a * b) * c
    ensures (2 * a * b) * c == (2 * a * c) * b && 2 * a * b == 2 * b * a
  {
    MulAssocInt(a, 2 * b, x);
    MulAssocInt(a, 2 * b, c);
    assert a * (2 * b) == 2 * a * b;
    MulAssocInt(2 * a, b, c);
    MulAssocInt(2 * a, c, b);
    MulComm(b, c);
    MulComm(a, b);
  }

  lemma KeySwitchNear(Q: int, K: int, F: int, p1: int, p2: int, e: int, te: nat)
    requires Q > 0 && K > 0 && F > 0 && 0 - te <= e <= te && Cong(p2, p1 - e, K)
    ensures Near((2 * Q * F) * p2, (2 * Q * F) * p1, (2 * Q * K) * F, 2 * (Q * (F * te)))
  {
    NearFromCong(p2, p1, -e, K, te);
    MulAtLeast(Q, F);
    NearScale(p2, p1, K, te, 2 * Q * F);
    Reassoc(Q, F, K, te);
    Reassoc(Q, K, F, te);
    assert (2 * Q * F) * te == 2 * (Q * (F * te)) by { MulAssocInt(2 * Q, F, te); MulAssocInt(2, Q, F * te); }
  }

  /** ModSwitch to qKS, KeySwitch, ModSwitch to fmod. */
  method SwitchBack(p: LweParams, ks: SwitchingKey, ctExt: LWECiphertext, fmod: int,
                    ghost w: Secrets) returns (ct: LWECiphertext)
    requires p.Valid() && ctExt.Valid() && ctExt.modulus == p.Q && |ctExt.a| == p.N && fmod > 0
    requires |w.s| == p.n && |w.z| == p.N && Ternary(w.s) && Ternary(w.z)
    requires ValidKey(ks, w.s, w.z, p.baseKS, p.DigitsKS(), p.qKS, w.ksErrors) && ErrorsBounded(w.ksErrors, w.Eks)
    ensures fresh(ct) && ct.Valid() && ct.modulus == fmod && |ct.a| == p.n
    ensures Near((2 * p.Q * p.qKS) * Phase(ct.Value(), w.s), (2 * fmod * p.qKS) * Phase(ctExt.Value(), w.z),
                 (2 * p.Q * p.qKS) * fmod, TailBound(p, fmod, w.Eks))
  {
    hide ValidKey, ErrorsBounded, SwitchV, Phase, ErrorTotal, DigitCount;
    var ctMS := ModSwitch(p.qKS, ctExt);
    DigitCountEnough(p);
    var ctKS := KeySwitch(ks, ctMS, p.baseKS, p.DigitsKS(), p.qKS, p.n, w.s, w.z, w.ksErrors);
    ct := ModSwitch(fmod, ctKS);
    ghost var e := Sum(ErrorTotal(w.ksErrors, ctMS.a, p.baseKS, p.DigitsKS()), |ctMS.a|);
    ModSwitchPhase(ctExt.Value(), p.qKS, w.z);
    ModSwitchPhase(ctKS.Value(), fmod, w.s);
    ErrorTotalBound(w.ksErrors, ctMS.a, p.baseKS, p.DigitsKS(), w.Eks);
    TailNear(p, fmod, w, Phase(ctExt.Value(), w.z), Phase(ctMS.Value(), w.z), Phase(ctKS.Value(), w.s),
             Phase(ct.Value(), w.s), e);
  }

  lemma DigitCountEnough(p: LweParams)
    requires p.Valid()
    ensures p.qKS <= Pow(p.baseKS, p.DigitsKS())
  {
  }

  lemma TailNear(p: LweParams, F: int, w: Secrets, p0: int, p1: int, p2: int, p3: int, e: int)
    requires p.Valid() && F > 0 && |w.s| == p.n && |w.z| == p.N && Ternary(w.s) && Ternary(w.z)
    requires Abs(e) <= p.N * (p.DigitsKS() * w.Eks)
    requires Near((2 * p.Q) * p1, (2 * p.qKS) * p0, (2 * p.Q) * p.qKS, p.Q * (1 + Norm1(w.z)))
    requires Cong(p2, p1 - e, p.qKS)
    requires Near((2 * p.qKS) * p3, (2 * F) * p2, (2 * p.qKS) * F, p.qKS * (1 + Norm1(w.s)))
    ensures Near((2 * p.Q * p.qKS) * p3, (2 * F * p.qKS) * p0, (2 * p.Q * p.qKS) * F, TailBound(p, F, w.Eks))
  {
    hide DigitCount, Norm1;
    TernaryNorm(w.s);
    TernaryNorm(w.z);
    MulMono(1 + Norm1(w.z), 1 + p.N, p.Q);
    MulMono(1 + Norm1(w.s), 1 + p.n, p.qKS);
    NearWeaken((2 * p.Q) * p1, (2 * p.qKS) * p0, (2 * p.Q) * p.qKS, p.Q * (1 + Norm1(w.z)), p.Q * (1 + p.N));
    NearWeaken((2 * p.qKS) * p3, (2 * F) * p2, (2 * p.qKS) * F, p.qKS * (1 + Norm1(w.s)), p.qKS * (1 + p.n));
    TailChain(p.Q, p.qKS, F, p0, p1, p2, p3, e, 1 + p.N, 1 + p.n, KsBound(p, w.Eks));
  }

  // ----- the noise of a whole bootstrap -----

  function AccBound(p: LweParams, base: nat, k: nat, E: nat): nat {
    p.n * StepBound(p.N, base, k, E, GadgetSlack(p.Q, base, k))
  }

  /**
    The post-bootstrap noise bound: accumulator noise and encoding slack, key-switching
    errors, and the two roundings, all brought to the output modulus.
  */
  function BootNoise(p: LweParams, fmod: int, acc: nat, Eks: nat, slack: nat): int
    requires p.Valid()
  {
    MulAtLeast(p.Q, p.qKS);
    (TailBound(p, fmod, Eks) + 2 * (fmod * (p.qKS * (acc + slack)))) / (2 * (p.Q * p.qKS))
  }

  lemma BootNoisePositive(p: LweParams, fmod: int, acc: nat, Eks: nat, slack: nat)
    requires p.Valid() && fmod > 0
    ensures BootNoise(p, fmod, acc, Eks, slack) >= 0
  {
    hide DigitCount;
    var K := KsBound(p, Eks);
    MulMono(0, p.DigitsKS(), Eks);
    MulMono(0, p.DigitsKS() * Eks, p.N);
    NonNegative(fmod, K);
    NonNegative(p.Q, fmod * K);
    NonNegative(p.qKS, 1 + p.n);
    NonNegative(p.Q, p.qKS * (1 + p.n));
    NonNegative(p.Q, 1 + p.N);
    NonNegative(fmod, p.Q * (1 + p.N));
    NonNegative(p.qKS, acc + slack);
    NonNegative(fmod, p.qKS * (acc + slack));
    MulAtLeast(p.Q, p.qKS);
    QuotientNonNegative(TailBound(p, fmod, Eks) + 2 * (fmod * (p.qKS * (acc + slack))), 2 * (p.Q * p.qKS));
  }

  lemma NonNegative(x: int, y: int)
    requires x >= 0 && y >= 0
    ensures x * y >= 0
  {
  }

  lemma QuotientNonNegative(x: int, m: int)
    requires x >= 0 && m > 0
    ensures x / m >= 0
  {
    DivMod(x, m);
    MulAtLeast(x / m, m);
  }

  /**
    If the extracted phase is M up to the accumulator noise, and fmod*M is Q*F up to
    fmod*slack, then the output phase is F up to BootNoise.
  */
  lemma BootResult(p: LweParams, fmod: int, Eks: nat, p0: int, p3: int, M: int, F: int, acc: nat, slack: nat)
    requires p.Valid() && fmod > 0
    requires Near((2 * p.Q * p.qKS) * p3, (2 * fmod * p.qKS) * p0, (2 * p.Q * p.qKS) * fmod, TailBound(p, fmod, Eks))
    requires Near(p0, M, p.Q, acc) && -(fmod * slack) <= fmod * M - p.Q * F <= fmod * slack
    ensures Near(p3, F, fmod, BootNoise(p, fmod, acc, Eks, slack))
  {
    hide TailBound;
    var Q, K := p.Q, p.qKS;
    var A, C, m := 2 * Q * K, 2 * fmod * K, (2 * Q * K) * fmod;
    MulAtLeast(Q, K);
    MulAtLeast(fmod, K);
    MulAssocInt(2, Q, K);
    MulAssocInt(2, fmod, K);
    NearScale(p0, M, Q, acc, C);
    assert C * Q == m by { Reassoc(fmod, K, Q, 0); Reassoc(Q, K, fmod, 0); }
    assert C * acc == 2 * (fmod * (K * acc)) by { MulAssocInt(fmod, K, acc); MulAssocInt(2, fmod * K, acc); }
    NearTrans(A * p3, C * p0, C * M, m, TailBound(p, fmod, Eks), C * acc);
    SlackScale(Q, K, fmod, M, F, slack);
    NearTrans(A * p3, C * M, A * F, m, TailBound(p, fmod, Eks) + C * acc, 2 * (fmod * (K * slack)));
    MulDistrib(acc, slack, K);
    MulDistrib(K * acc, K * slack, fmod);
    NearUnscale(p3, F, fmod, TailBound(p, fmod, Eks) + 2 * (fmod * (K * (acc + slack))), A);
  }

  lemma SlackScale(Q: int, K: int, fmod: int, M: int, F: int, slack: nat)
    requires Q > 0 && K > 0 && fmod > 0 && -(fmod * slack) <= fmod * M - Q * F <= fmod * slack
    ensures Near((2 * fmod * K) * M, (2 * Q * K) * F, (2 * Q * K) * fmod, 2 * (fmod * (K * slack)))
  {
    var d := fmod * M - Q * F;
    ScaleBound(d, fmod * slack, 2 * K);
    MulDistrib(fmod * M, Q * F, 2 * K);
    assert (2 * K) * (fmod * M) == (2 * fmod * K) * M by {
      MulAssocInt(2 * K, fmod, M);
      assert 2 * K * fmod == 2 * fmod * K;
    }
    assert (2 * K) * (Q * F) == (2 * Q * K) * F by { MulAssocInt(2 * K, Q, F); assert 2 * K * Q == 2 * Q * K; }
    assert (2 * K) * (fmod * slack) == 2 * (fmod * (K * slack)) by {
      MulAssocInt(2, K, fmod * slack);
      MulAssocInt(K, fmod, slack);
      MulComm(K, fmod);
      MulAssocInt(fmod, K, slack);
    }
    NearOf((2 * fmod * K) * M, (2 * Q * K) * F, 0, (2 * Q * K) * fmod, 2 * (fmod * (K * slack)));
  }

  // ----- running the accumulator -----

  /** Everything a bootstrap needs: matching parameters, enough digits and a key for the current base. */
  ghost predicate Ready(p: LweParams, params: RingGSWCryptoParams, EK: BTKey, w: Secrets)
    reads params
  {
    && p.Valid() && params.Valid() && params.kind == GINX && params.TablesReady() && Pow2Base(params.baseG)
    && params.N == p.N && params.Q == p.Q && params.q == p.q
    && GadgetOk(p.Q, params.baseG, params.digitsG)
    && ValidBTKey(EK, p, params.baseG, params.digitsG, w)
  }

  /** The same for the DM accumulator, which works modulo the parameter q only. */
  ghost predicate ReadyDM(p: LweParams, params: RingGSWCryptoParams, EK: BTKey, w: Secrets)
    reads params
  {
    && SwitchReady(EK.ks, p, w) && DmReady(params) && params.N == p.N && params.Q == p.Q && params.q == p.q
    && EK.bs.HasKey? && EK.bs.key.Ap?
    && ValidDmKey(EK.bs.key.cells, w.s, w.z, params.baseR, DigitCount(params.q, params.baseR),
                  2 * params.N / params.q, params.baseG, params.digitsG, params.Q, w.E)
  }

  ghost predicate ReadyEither(p: LweParams, params: RingGSWCryptoParams, EK: BTKey, w: Secrets)
    reads params
  {
    if params.kind == GINX then Ready(p, params, EK, w) else ReadyDM(p, params, EK, w)
  }

  /** Noise of d DM steps for each of n entries. */
  function DmBound(n: nat, d: nat, step: nat): nat { n * (d * step) }

  /** Noise of the accumulator the parameters select. */
  function AccNoise(p: LweParams, params: RingGSWCryptoParams, E: nat): nat
    reads params
  {
    if params.kind == GINX || !params.Valid() then AccBound(p, params.baseG, params.digitsG, E)
    else DmBound(p.n, DigitCount(params.q, params.baseR), StepNoiseOf(params, E))
  }

  /** What both accumulators' readiness gives. */
  lemma EitherFacts(p: LweParams, params: RingGSWCryptoParams, EK: BTKey, w: Secrets)
    requires ReadyEither(p, params, EK, w)
    ensures EK.bs.HasKey? && SwitchReady(EK.ks, p, w) && |w.s| == p.n && |w.z| == p.N && p.Valid()
    ensures params.Valid() && params.TablesReady() && params.q == p.q && params.N == p.N && params.Q == p.Q
  {
  }

  /** CGGI parameters select the CGGI accumulator and its noise. */
  lemma ReadySelects(p: LweParams, params: RingGSWCryptoParams, EK: BTKey, w: Secrets)
    requires Ready(p, params, EK, w)
    ensures params.kind == GINX && ReadyEither(p, params, EK, w)
    ensures AccNoise(p, params, w.E) == AccBound(p, params.baseG, params.digitsG, w.E)
  {
  }

  lemma ReadySecret(p: LweParams, params: RingGSWCryptoParams, EK: BTKey, w: Secrets)
    requires Ready(p, params, EK, w)
    ensures |w.s| == p.n
  {
  }

  lemma RingPhaseOfMessage(m: Poly, z: Poly)
    requires |m| == |z| > 0
    ensures RingPhase(Zero(|m|), m, z) == m
  {
    hide Mul;
    MulZero(z);
  }

  /** The constant coefficient of a rotated polynomial. */
  lemma RotatedFront(p: Poly, m: Poly, t: int, Q: int, bound: int, err: Poly)
    requires RotatedBy(p, m, -t, Q, bound, err)
    ensures Near(p[0], Ext(m, t), Q, bound)
  {
    hide Ext;
    assert Cong(p[0], Add(Rotate(m, -t), err)[0], Q);
    assert 0 - -t == t;
    NearFromCong(p[0], Ext(m, t), err[0], Q, bound);
  }

  /**
    Runs the accumulator that the parameters select on the test polynomial m. The front coefficient
    of the phase becomes the coefficient of m at <a,s>*2N/q, up to the accumulator noise.
  */
  method Accumulate(p: LweParams, params: RingGSWCryptoParams, EK: BTKey, m: Poly, a: seq<int>, mod: int,
                    ghost w: Secrets)
    returns (acc: RLWECiphertext)
    requires ReadyEither(p, params, EK, w) && |m| == p.N && Residues(m, p.Q) && (params.kind == AP ==> mod == p.q)
    requires |a| == p.n && mod > 0 && Residues(a, mod) && (2 * p.N) % mod == 0
    ensures fresh(acc) && acc.Valid(p.N, p.Q) && |w.z| == p.N
    ensures Near(RingPhase(acc.a, acc.b, w.z)[0], Ext(m, (2 * p.N / mod) * Dot(a, w.s)), p.Q, AccNoise(p, params, w.E))
  {
    hide GadgetOk, GadgetSlack, ValidAccKey, ValidDmKey, ValidKey, RotatedBy, RingPhase, Ext, Pow2Base, DigitCount,
         StepBound, StepNoiseOf, Dot, ErrorsBounded;
    acc := new RLWECiphertext(Zero(p.N), m);
    RingPhaseOfMessage(m, w.z);
    ghost var err: Poly;
    if params.kind == GINX {
      AccKeyShape(EK.bs.key.acc, w.s, w.z, params.baseG, params.digitsG, p.Q, w.E);
      err := EvalAcc(params, EK.bs.key.acc, acc, a, mod, w.s, w.z, w.E);
    } else {
      err := EvalAccDM(params, EK.bs.key.cells, acc, a, w.s, w.z, w.E);
    }
    RotatedFront(RingPhase(acc.a, acc.b, w.z), m, (2 * p.N / mod) * Dot(a, w.s), p.Q, AccNoise(p, params, w.E), err);
  }

  lemma AccKeyShape(ek: AccKey, s: seq<int>, z: Poly, base: nat, k: nat, Q: int, E: nat)
    requires ValidAccKey(ek, s, z, base, k, Q, E)
    ensures |ek.pos| == |ek.neg| == |s|
  {
  }
}
