/**
  The DM accumulator (rgsw-acc-dm.cpp). Its matrix product runs over l = 1, 2, ..., so
  row 0 of every key is dropped; what that does to the phase is stated exactly.
*/
module Dm {
  import opened Arith
  import opened Sums
  import opened Native
  import opened Ring
  import opened Gadget
  import opened RgswParams
  import opened ExternalProduct
  import opened Rlwe
  import opened RgswKeys
  import opened Lwe
  import opened Cggi

  // ----- the message exponent -----

  /** (((m % q) + q) % q) * (2N/q), where m % q is taken on m converted to an unsigned word. */
  function MessageExponent(m: int, q: int, N: nat): (r: int)
    requires q > 0
  {
    ((((m % WORD) % q) + q) % q) * (2 * N / q)
  }

  /** The exponent of every int64 message: a negative one is reduced as m + 2^64. */
  lemma ExponentExactly(m: int, q: int, N: nat)
    requires q > 0 && -WORD <= m < WORD
    ensures MessageExponent(m, q, N) == (if m >= 0 then m % q else (m + WORD) % q) * (2 * N / q)
  {
    UnsignedReduction(m, q);
    if m >= 0 { ModSmall(m, WORD); } else { DivModUnique(m, -1, m + WORD, WORD); }
  }

  /** The unsigned reduction is right for a negative int64 exactly when q divides 2^64. */
  lemma UnsignedReduction(m: int, q: int)
    requires q > 0 && -WORD <= m < WORD
    ensures (((m % WORD) % q) + q) % q == (m % WORD) % q
    ensures (m % WORD) % q == m % q <==> (m >= 0 || WORD % q == 0)
  {
    var x := m % WORD;
    ModCong(x, q);
    DivModUnique(x % q + q, 1, x % q, q);
    if m >= 0 {
      ModSmall(m, WORD);
    } else {
      DivModUnique(m, -1, m + WORD, WORD);
      if WORD % q == 0 {
        DivMod(WORD, q);
        CongOf(m + WORD, m, WORD / q, q);
        CongMod(m + WORD, m, q);
      } else {
        UnsignedMiss(m, q);
      }
    }
  }

  lemma UnsignedMiss(m: int, q: int)
    requires q > 0 && WORD % q != 0
    ensures (m + WORD) % q != m % q
  {
    if (m + WORD) % q == m % q {
      DivMod(m + WORD, q);
      DivMod(m, q);
      MulDistrib((m + WORD) / q, m / q, q);
      DivModUnique(WORD, (m + WORD) / q - m / q, 0, q);
    }
  }

  /** The exponent always lies in [0, 2N). */
  lemma ExponentBelow(m: int, q: int, N: nat)
    requires q > 0 && N > 0
    ensures 0 <= MessageExponent(m, q, N) < 2 * N || (2 * N < q && MessageExponent(m, q, N) == 0)
  {
    var f, y := 2 * N / q, (((m % WORD) % q) + q) % q;
    DivMod(2 * N, q);
    DivMod(((m % WORD) % q) + q, q);
    QuotientPositive(2 * N, q);
    MulMono(0, y, f);
    MulMono(y, q - 1, f);
    MulDistrib(q, 1, f);
    MulComm(f, q);
  }

  lemma QuotientPositive(x: int, q: int)
    requires q > 0 && x >= 0
    ensures x / q >= 0 && (x / q == 0 || x / q >= 1)
  {
    DivMod(x, q);
    MulAtLeast(x / q, q);
  }

  /** The exponent is the message modulo q, scaled to the cyclotomic order. */
  lemma ExponentCong(m: int, q: int, N: nat)
    requires q > 0 && (m >= 0 || WORD % q == 0) && (2 * N) % q == 0 && -WORD <= m < WORD && N > 0
    ensures 0 <= MessageExponent(m, q, N) < 2 * N
    ensures Cong(MessageExponent(m, q, N), m * (2 * N / q), 2 * N)
  {
    var f, y := 2 * N / q, m % q;
    UnsignedReduction(m, q);
    DivMod(2 * N, q);
    ModCong(m, q);
    MulAtLeast(f, q);
    MulMono(0, y, f);
    MulMono(y, q - 1, f);
    MulDistrib(q, 1, f);
    var t := CongWitness(y, m, q);
    MulDistrib(m, t * q, f);
    MulAssocInt(t, q, f);
    CongOf(y * f, m * f, t, 2 * N);
  }

  // ----- key generation -----

  /**
    X^mm for mm < N, and -X^(mm-N) = X^mm for N <= mm < 2N. For every message the rows encrypt the
    exponent that the unsigned reduction gives; that is the message's own where the reduction is right.
  */
  method KeyGenDM(params: RingGSWCryptoParams, skNTT: Poly, m: int, a: seq<Poly>, e: seq<Poly>, ghost errs: seq<Poly>)
    returns (ek: EvalKey)
    requires ParamsOk(params) && |skNTT| == params.N && -WORD <= m < WORD
    requires DrawsOk(a, e, params.N, 2 * params.digitsG, params.Q) && StandsFor(e, errs, params.Q)
    ensures Encrypts(ek, skNTT, Monomial(params.N, MessageExponent(m, params.q, params.N)), params.baseG,
                     params.digitsG, params.Q, errs)
    ensures (m >= 0 || WORD % params.q == 0) && (2 * params.N) % params.q == 0 ==>
              Encrypts(ek, skNTT, Monomial(params.N, m * (2 * params.N / params.q)), params.baseG, params.digitsG,
                       params.Q, errs)
  {
    hide Encrypts, RowsState, StandsFor, Rotate, MessageExponent;
    var N, Q := params.N, params.Q;
    var mm := MessageExponent(m, params.q, N);
    ExponentBelow(m, params.q, N);
    ghost var mu := Monomial(N, mm);
    if (m >= 0 || WORD % params.q == 0) && (2 * N) % params.q == 0 {
      ExponentCong(m, params.q, N);
      MonomialMod(N, mm, m * (2 * N / params.q));
    }
    var isReducedMM := false;
    if mm >= N {
      mm := mm - N;
      isReducedMM := true;
    }
    var result := DrawRows(a, e, mu, params.baseG, Q);
    RowsCount(result, a, e, mu, params.baseG, Q, 0);
    var tempA := a;
    result := AddGadget(result, params.gpower, mm, isReducedMM, N, Q, a, e, params.baseG);
    RowsCount(result, a, e, mu, params.baseG, Q, 2 * params.digitsG);
    ek := FinishRows(result, tempA, skNTT, Q, e, errs, mu, params.baseG, params.digitsG, 2 * params.digitsG);
  }

  lemma MonomialMod(N: nat, x: int, y: int)
    requires N > 0 && Cong(x, y, 2 * N)
    ensures Monomial(N, x) == Monomial(N, y)
  {
    hide Rotate;
    var t := CongWitness(x, y, 2 * N);
    RotatePeriod(One(N), y, t);
  }

  // ----- one accumulation -----

  /** (a', b') is the product of the digits of (a, b) with the key, without row 0. */
  ghost predicate DmDone(a: Poly, b: Poly, a': Poly, b': Poly, ek: EvalKey, d: seq<Poly>, N: nat, Q: int, base: nat,
                         k: nat) {
    && N > 0 && k > 0 && |a| == |b| == N && GoodBase(base)
    && |ek| == |d| == 2 * k && Rows(ek, N) && Polys(d, N)
    && Polys(d[1..], N) && Rows(ek[1..], N) && Polys(ColumnA(ek[1..]), N) && Polys(ColumnB(ek[1..]), N)
    && (forall l :: 0 <= l < 2 * k ==> PCong(d[l], Digits(a, b, Q, base, k)[l], Q))
    && PCong(a', Lin(d[1..], ColumnA(ek[1..]), N, 2 * k - 1), Q)
    && PCong(b', Lin(d[1..], ColumnB(ek[1..]), N, 2 * k - 1), Q)
  }

  /** The product restricted to l >= 1, accumulated from zero. */
  method CombineTail(dct: seq<Poly>, v: seq<Poly>, N: nat, Q: int) returns (acc: Poly)
    requires N > 0 && Q > 0 && |dct| == |v| > 0 && Polys(dct, N) && Polys(v, N)
    ensures |acc| == N && Residues(acc, Q)
    ensures Polys(dct[1..], N) && Polys(v[1..], N) && PCong(acc, Lin(dct[1..], v[1..], N, |v| - 1), Q)
  {
    hide PCong, Mul, Reduce;
    acc := Zero(N);
    PCongRefl(Zero(N), Q);
    var l := 1;
    while l < |v|
      invariant 1 <= l <= |v| && |acc| == N && Residues(acc, Q)
      invariant PCong(acc, Lin(dct[1..], v[1..], N, l - 1), Q)
    {
      assert dct[1..][l - 1] == dct[l] && v[1..][l - 1] == v[l];
      CombineStep(acc, Lin(dct[1..], v[1..], N, l - 1), dct[l], v[l], Q);
      acc := AddMod(acc, MulMod(dct[l], v[l], Q), Q);
      l := l + 1;
    }
  }

  /** The same, multiplying dct[l] in place. */
  method CombineTailInPlace(dct: array<Poly>, v: seq<Poly>, N: nat, Q: int) returns (acc: Poly)
    requires N > 0 && Q > 0 && dct.Length == |v| > 0 && Polys(dct[..], N) && Polys(v, N)
    modifies dct
    ensures |acc| == N && Residues(acc, Q)
    ensures Polys(old(dct[..])[1..], N) && Polys(v[1..], N) && PCong(acc, Lin(old(dct[..])[1..], v[1..], N, |v| - 1), Q)
  {
    hide PCong, Mul, Reduce;
    ghost var d := dct[..];
    acc := Zero(N);
    PCongRefl(Zero(N), Q);
    var l := 1;
    while l < |v|
      invariant 1 <= l <= |v| && |acc| == N && Residues(acc, Q)
      invariant PCong(acc, Lin(d[1..], v[1..], N, l - 1), Q)
      invariant forall x :: l <= x < dct.Length ==> dct[x] == d[x]
    {
      assert d[1..][l - 1] == d[l] && v[1..][l - 1] == v[l];
      CombineStep(acc, Lin(d[1..], v[1..], N, l - 1), dct[l], v[l], Q);
      dct[l] := MulMod(dct[l], v[l], Q);
      acc := AddMod(acc, dct[l], Q);
      l := l + 1;
    }
  }

  method AddToAccDM(params: RingGSWCryptoParams, ek: EvalKey, acc: RLWECiphertext) returns (ghost d: seq<Poly>)
    requires params.Valid() && Pow2Base(params.baseG) && params.digitsG > 0 && acc.Valid(params.N, params.Q)
    requires |ek| == 2 * params.digitsG && Rows(ek, params.N)
    modifies acc
    ensures acc.Valid(params.N, params.Q)
    ensures DmDone(old(acc.a), old(acc.b), acc.a, acc.b, ek, d, params.N, params.Q, params.baseG, params.digitsG)
  {
    hide PCong, Digits, Lin, Pow2Base;
    var N, Q := params.N, params.Q;
    var dct := new Poly[2 * params.digitsG](_ => Zero(N));
    Decompose(params, acc, dct);
    d := dct[..];
    assert ColumnA(ek)[1..] == ColumnA(ek[1..]) && ColumnB(ek)[1..] == ColumnB(ek[1..]);
    var na := CombineTail(dct[..], ColumnA(ek), N, Q);
    var nb := CombineTailInPlace(dct, ColumnB(ek), N, Q);
    acc.a, acc.b := na, nb;
  }

  // ----- the phase after one accumulation -----

  lemma {:induction false} LinSplit(d: seq<Poly>, v: seq<Poly>, N: nat, n: nat)
    requires N > 0 && 1 <= n <= |d| && n <= |v| && Polys(d, N) && Polys(v, N) && Polys(d[1..], N) && Polys(v[1..], N)
    ensures Lin(d, v, N, n) == Add(Mul(d[0], v[0]), Lin(d[1..], v[1..], N, n - 1))
  {
    hide Mul;
    if n == 1 {
      assert Lin(d, v, N, 1) == Add(Zero(N), Mul(d[0], v[0]));
    } else {
      LinSplit(d, v, N, n - 1);
      assert d[1..][n - 2] == d[n - 1] && v[1..][n - 2] == v[n - 1];
    }
  }

  lemma TailPolys(v: seq<Poly>, N: nat)
    requires |v| > 0 && Polys(v, N)
    ensures Polys(v[1..], N)
  {
  }

  /** Without row 0, the weights of the remaining rows carry mu*(R + d0*z). */
  lemma TailWeights(a: Poly, b: Poly, z: Poly, mu: Poly, Q: int, base: int, k: nat)
    requires GoodBase(base) && |a| == |b| == |z| == |mu| > 0 && k > 0
    ensures var D, W := Digits(a, b, Q, base, k)[1..], Weights(mu, z, base, 2 * k)[1..];
            && Polys(D, |z|) && Polys(W, |z|)
            && Lin(D, W, |z|, 2 * k - 1)
            == Mul(mu, Add(RepresentedPhase(a, b, z, Q, base, k), Mul(DigitPoly(a, Q, base, 0), z)))
  {
    hide Mul, Lin, DigitPoly, Weight, Recomposed;
    var N := |z|;
    var D, W, d0 := Digits(a, b, Q, base, k), Weights(mu, z, base, 2 * k), DigitPoly(a, Q, base, 0);
    var R := RepresentedPhase(a, b, z, Q, base, k);
    TailPolys(D, N);
    TailPolys(W, N);
    WeightSum(a, b, z, mu, Q, base, k, k);
    LinSplit(D, W, N, 2 * k);
    assert D[0] == d0;
    WeightPair(d0, d0, z, mu, base, 0);
    MulAddRight(mu, R, Mul(d0, z));
    MulScale(-1, mu, Mul(d0, z));
    assert Pow(base, 0) == 1;
    var x := Mul(mu, Mul(d0, z));
    assert Mul(d0, W[0]) == Scale(-1, x);
    forall i | 0 <= i < N ensures Scale(-1, x)[i] == -x[i] {}
  }

  function TailNoise(a: Poly, b: Poly, Q: int, base: int, k: nat, errs: seq<Poly>): (r: Poly)
    requires GoodBase(base) && |a| == |b| > 0 && |errs| == 2 * k > 0 && Polys(errs, |a|)
    ensures |r| == |a|
  {
    var D := Digits(a, b, Q, base, k);
    TailPolys(D, |a|);
    TailPolys(errs, |a|);
    Lin(D[1..], errs[1..], |a|, 2 * k - 1)
  }

  /**
    One accumulation sends the phase P to mu*(P - G + z*d0) + sum over l >= 1 of d_l*e_l. Here d0
    is the lowest digit polynomial of the first component, whose term is what dropping row 0
    leaves behind, and G is what the digits miss of the phase, which is 0 for an exact gadget.
  */
  lemma DmPhase(a: Poly, b: Poly, a': Poly, b': Poly, z: Poly, mu: Poly, Q: int, base: nat, k: nat,
                ek: EvalKey, errs: seq<Poly>, d: seq<Poly>)
    requires GadgetOk(Q, base, k) && |a| == |b| == |z| > 0 && Residues(a, Q) && Residues(b, Q)
    requires Encrypts(ek, z, mu, base, k, Q, errs) && DmDone(a, b, a', b', ek, d, |z|, Q, base, k)
    ensures |a'| == |b'| == |z|
    ensures PCong(RingPhase(a', b', z),
                  Add(TailNoise(a, b, Q, base, k, errs),
                      Mul(mu, Add(Sub(RingPhase(a, b, z), PhaseRest(a, b, z, Q, base, k)),
                                  Mul(DigitPoly(a, Q, base, 0), z)))), Q)
    ensures ExactGadget(Q, base, k) ==> PhaseRest(a, b, z, Q, base, k) == Zero(|z|)
  {
    GadgetGood(Q, base, k);
    DmTailPhase(a, b, a', b', z, mu, Q, base, k, ek, errs, d);
    EncryptsShape(ek, z, mu, base, k, Q, errs);
    hide *;
    var d0 := DigitPoly(a, Q, base, 0);
    var R, n := RepresentedPhase(a, b, z, Q, base, k), TailNoise(a, b, Q, base, k, errs);
    var P := Sub(RingPhase(a, b, z), PhaseRest(a, b, z, Q, base, k));
    RepresentedUpTo(a, b, z, Q, base, k);
    if ExactGadget(Q, base, k) { PhaseRestExact(a, b, z, Q, base, k); }
    PCongRefl(Mul(d0, z), Q);
    PCongAdd(R, P, Mul(d0, z), Mul(d0, z), Q);
    PCongRefl(mu, Q);
    PCongMul(mu, mu, Add(R, Mul(d0, z)), Add(P, Mul(d0, z)), Q);
    PCongRefl(n, Q);
    PCongAdd(n, n, Mul(mu, Add(R, Mul(d0, z))), Mul(mu, Add(P, Mul(d0, z))), Q);
    PCongTrans(RingPhase(a', b', z), Add(n, Mul(mu, Add(R, Mul(d0, z)))), Add(n, Mul(mu, Add(P, Mul(d0, z)))), Q);
  }

  lemma EncryptsShape(ek: EvalKey, z: Poly, mu: Poly, base: nat, k: nat, Q: int, errs: seq<Poly>)
    requires Encrypts(ek, z, mu, base, k, Q, errs)
    ensures |mu| == |z| > 0 && |ek| == |errs| == 2 * k && Rows(ek, |z|) && Polys(errs, |z|)
  {
  }

  lemma DmTailPhase(a: Poly, b: Poly, a': Poly, b': Poly, z: Poly, mu: Poly, Q: int, base: nat, k: nat,
                    ek: EvalKey, errs: seq<Poly>, d: seq<Poly>)
    requires GoodBase(base) && k > 0 && |a| == |b| == |z| > 0
    requires Encrypts(ek, z, mu, base, k, Q, errs) && DmDone(a, b, a', b', ek, d, |z|, Q, base, k)
    ensures |a'| == |b'| == |z|
    ensures PCong(RingPhase(a', b', z),
                  Add(TailNoise(a, b, Q, base, k, errs),
                      Mul(mu, Add(RepresentedPhase(a, b, z, Q, base, k), Mul(DigitPoly(a, Q, base, 0), z)))), Q)
  {
    hide Mul, Lin, PCong, Digits, Weight, DigitPoly, RepresentedPhase, RowPhase, ColumnA, ColumnB;
    var N, n := |z|, 2 * k - 1;
    var A, B := Lin(d[1..], ColumnA(ek[1..]), N, n), Lin(d[1..], ColumnB(ek[1..]), N, n);
    PCongLength(a', A, Q);
    PCongLength(b', B, Q);
    PhaseCong(a', b', A, B, z, Q);
    LinPhase(d[1..], ek[1..], z, n);
    var D, W := Digits(a, b, Q, base, k), Weights(mu, z, base, 2 * k);
    TailPolys(D, N);
    TailPolys(W, N);
    TailPolys(errs, N);
    var V := seq(n, l requires 0 <= l < n => Add(errs[l + 1], W[l + 1]));
    forall l | 0 <= l < n ensures PCong(d[1..][l], D[1..][l], Q) && PCong(RowPhases(ek[1..], z)[l], V[l], Q) {
      assert PCong(d[l + 1], D[l + 1], Q);
      assert RowPhases(ek[1..], z)[l] == RowPhase(ek[l + 1], z);
    }
    LinCong(d[1..], D[1..], RowPhases(ek[1..], z), V, N, n, Q);
    LinAdd(D[1..], errs[1..], W[1..], V, N, n);
    TailWeights(a, b, z, mu, Q, base, k);
    PCongTrans(RingPhase(a', b', z), RingPhase(A, B, z), Lin(D[1..], V, N, n), Q);
  }

  /** Worst-case noise of one step, for a ternary z: the slack's share, the dropped row's, and the key errors'. */
  function DmStepBound(N: nat, base: nat, k: nat, E: nat, slack: nat): nat {
    var rows := if k == 0 then 0 else 2 * k - 1;
    (1 + N) * slack + N * ((base / 2) * 1) + rows * (N * ((base / 2) * E))
  }

  function StepNoiseOf(params: RingGSWCryptoParams, E: nat): nat
    reads params
  {
    DmStepBound(params.N, params.baseG, params.digitsG, E, GadgetSlack(params.Q, params.baseG, params.digitsG))
  }

  ghost predicate DmKeyFor(ek: EvalKey, z: Poly, t: int, base: nat, k: nat, Q: int, E: nat) {
    |z| > 0 && exists errs :: DmKeyWith(ek, z, t, base, k, Q, E, errs)
  }

  ghost predicate DmKeyWith(ek: EvalKey, z: Poly, t: int, base: nat, k: nat, Q: int, E: nat, errs: seq<Poly>)
    requires |z| > 0
  {
    Encrypts(ek, z, Monomial(|z|, t), base, k, Q, errs) && forall l :: 0 <= l < |errs| ==> Bounded(errs[l], E)
  }

  lemma DmKeyErrors(ek: EvalKey, z: Poly, t: int, base: nat, k: nat, Q: int, E: nat) returns (errs: seq<Poly>)
    requires DmKeyFor(ek, z, t, base, k, Q, E)
    ensures |z| > 0 && Encrypts(ek, z, Monomial(|z|, t), base, k, Q, errs)
    ensures |ek| == |errs| == 2 * k && Rows(ek, |z|) && Polys(errs, |z|)
    ensures forall l :: 0 <= l < 2 * k ==> Bounded(errs[l], E)
  {
    errs :| DmKeyWith(ek, z, t, base, k, Q, E, errs);
  }

  lemma TailNoiseBound(a: Poly, b: Poly, Q: int, base: int, k: nat, errs: seq<Poly>, e: nat)
    requires GoodBase(base) && |a| == |b| > 0 && |errs| == 2 * k > 0 && Polys(errs, |a|)
    requires forall l :: 0 <= l < 2 * k ==> Bounded(errs[l], e)
    ensures Bounded(TailNoise(a, b, Q, base, k, errs), (2 * k - 1) * (|a| * ((base / 2) * e)))
  {
    hide Bounded, DigitPoly, Lin;
    var D := Digits(a, b, Q, base, k);
    TailPolys(D, |a|);
    TailPolys(errs, |a|);
    forall l | 0 <= l < 2 * k - 1 ensures Bounded(D[1..][l], base / 2) && Bounded(errs[1..][l], e) {
      DigitPolyBound(Half(a, b, l + 1), Q, base, (l + 1) / 2);
      assert D[1..][l] == D[l + 1] && errs[1..][l] == errs[l + 1];
    }
    LinBound(D[1..], errs[1..], |a|, 2 * k - 1, base / 2, e);
  }

  /** One accumulation rotates the phase by t, with bounded noise. */
  lemma DmRotates(a: Poly, b: Poly, a': Poly, b': Poly, z: Poly, t: int, Q: int, base: nat, k: nat, E: nat,
                  ek: EvalKey, d: seq<Poly>, start: Poly, r: int, bound: nat, err: Poly) returns (err': Poly)
    requires GadgetOk(Q, base, k) && |a| == |b| == |z| > 0 && Residues(a, Q) && Residues(b, Q) && Bounded(z, 1)
    requires DmKeyFor(ek, z, t, base, k, Q, E) && DmDone(a, b, a', b', ek, d, |z|, Q, base, k)
    requires RotatedBy(RingPhase(a, b, z), start, r, Q, bound, err)
    ensures |a'| == |b'| == |z| && DmStepBound(|z|, base, k, E, GadgetSlack(Q, base, k)) >= 0
    ensures RotatedBy(RingPhase(a', b', z), start, r + t, Q,
                      bound + DmStepBound(|z|, base, k, E, GadgetSlack(Q, base, k)), err')
  {
    hide *;
    GadgetGood(Q, base, k);
    var errs := DmKeyErrors(ek, z, t, base, k, Q, E);
    var N, d0, n := |z|, DigitPoly(a, Q, base, 0), TailNoise(a, b, Q, base, k, errs);
    var P := RingPhase(a, b, z);
    DmPhase(a, b, a', b', z, Monomial(N, t), Q, base, k, ek, errs, d);
    var extra := Sub(Mul(d0, z), PhaseRest(a, b, z, Q, base, k));
    ExtraOrder(P, PhaseRest(a, b, z, Q, base, k), Mul(d0, z));
    MulMonomial(Add(P, extra), t);
    RotateAdd(P, extra, t);
    var noise := Add(Rotate(extra, t), n);
    DmNoiseBound(a, b, z, t, Q, base, k, errs, E);
    NoiseOrder(RingPhase(a', b', z), n, Rotate(P, t), Rotate(extra, t), Q);
    err' := RotatedStep(P, start, r, Q, bound, err, RingPhase(a', b', z), t,
                        DmStepBound(N, base, k, E, GadgetSlack(Q, base, k)), noise);
  }

  lemma ExtraOrder(P: Poly, G: Poly, x: Poly)
    requires |P| == |G| == |x|
    ensures Add(Sub(P, G), x) == Add(P, Sub(x, G))
  {
  }

  lemma NoiseOrder(p: Poly, n: Poly, x: Poly, y: Poly, Q: int)
    requires |n| == |x| == |y| && PCong(p, Add(n, Add(x, y)), Q)
    ensures PCong(p, Add(x, Add(y, n)), Q)
  {
    assert Add(n, Add(x, y)) == Add(x, Add(y, n));
  }

  lemma DmNoiseBound(a: Poly, b: Poly, z: Poly, t: int, Q: int, base: int, k: nat, errs: seq<Poly>, e: nat)
    requires GadgetOk(Q, base, k) && |a| == |b| == |z| > 0 && |errs| == 2 * k > 0 && Polys(errs, |a|) && Bounded(z, 1)
    requires Residues(a, Q) && Residues(b, Q)
    requires forall l :: 0 <= l < 2 * k ==> Bounded(errs[l], e)
    ensures DmStepBound(|z|, base, k, e, GadgetSlack(Q, base, k)) >= 0
    ensures Bounded(Add(Rotate(Sub(Mul(DigitPoly(a, Q, base, 0), z), PhaseRest(a, b, z, Q, base, k)), t),
                        TailNoise(a, b, Q, base, k, errs)),
                    DmStepBound(|z|, base, k, e, GadgetSlack(Q, base, k)))
  {
    hide Bounded, Mul, DigitPoly, Rotate, TailNoise, PhaseRest, GadgetSlack;
    var d0, G, slack := DigitPoly(a, Q, base, 0), PhaseRest(a, b, z, Q, base, k), GadgetSlack(Q, base, k);
    var x, y := |z| * ((base / 2) * 1), (1 + |z|) * slack;
    DigitPolyBound(a, Q, base, 0);
    MulBound(d0, z, base / 2, 1);
    PhaseRestBound(a, b, z, Q, base, k);
    AddBound(Mul(d0, z), G, x, y);
    RotateBound(Sub(Mul(d0, z), G), t, x + y);
    TailNoiseBound(a, b, Q, base, k, errs, e);
    MulMono(0, |z|, (base / 2) * e);
    MulMono(0, 2 * k - 1, |z| * ((base / 2) * e));
    AddBound(Rotate(Sub(Mul(d0, z), G), t), TailNoise(a, b, Q, base, k, errs), x + y,
             (2 * k - 1) * (|z| * ((base / 2) * e)));
  }

  // ----- the whole accumulation -----

  datatype Cell = Unset | Set(key: EvalKey)

  /** Cell [i][j][k] holds the key for X^(s_i * j * R^k * 2N/q); cells with j = 0 are never filled. */
  type DmKey = seq<seq<seq<Cell>>>

  ghost predicate CellFor(c: Cell, z: Poly, t: int, base: nat, k: nat, Q: int, E: nat) {
    c.Set? && DmKeyFor(c.key, z, t, base, k, Q, E)
  }

  ghost predicate DigitCells(cells: seq<Cell>, z: Poly, x: int, R: nat, dR: nat, f: int, base: nat, k: nat, Q: int,
                             E: nat) {
    |cells| == dR && forall l :: 0 <= l < dR ==> CellFor(cells[l], z, x * Pow(R, l) * f, base, k, Q, E)
  }

  ghost predicate ColumnCells(col: seq<seq<Cell>>, z: Poly, s: int, R: nat, dR: nat, f: int, base: nat, k: nat, Q: int,
                              E: nat) {
    |col| == R && forall j :: 1 <= j < R ==> DigitCells(col[j], z, s * j, R, dR, f, base, k, Q, E)
  }

  ghost predicate ValidDmKey(ek: DmKey, s: seq<int>, z: Poly, R: nat, dR: nat, f: int, base: nat, k: nat, Q: int,
                             E: nat) {
    |ek| == |s| && forall i :: 0 <= i < |s| ==> ColumnCells(ek[i], z, s[i], R, dR, f, base, k, Q, E)
  }

  predicate DmReady(params: RingGSWCryptoParams)
    reads params
  {
    && params.Valid() && params.kind == AP && params.TablesReady() && Pow2Base(params.baseG)
    && GadgetOk(params.Q, params.baseG, params.digitsG) && (2 * params.N) % params.q == 0
  }

  /**
    Base-R accumulation: the phase ends up rotated by -<a,s>*2N/q, as for CGGI. Each of
    the n * digits steps adds the key noise and the contribution of the dropped row. The
    modulus is the parameter q, whatever the modulus of the vector a, which need not be reduced.
  */
  method EvalAccDM(params: RingGSWCryptoParams, ek: DmKey, acc: RLWECiphertext, a: seq<int>,
                   ghost s: seq<int>, ghost z: Poly, ghost E: nat) returns (ghost err: Poly)
    requires DmReady(params) && acc.Valid(params.N, params.Q) && |a| == |s| && (forall i :: 0 <= i < |a| ==> a[i] >= 0)
    requires |z| == params.N && Bounded(z, 1)
    requires ValidDmKey(ek, s, z, params.baseR, DigitCount(params.q, params.baseR), 2 * params.N / params.q,
                        params.baseG, params.digitsG, params.Q, E)
    modifies acc
    ensures acc.Valid(params.N, params.Q)
    ensures RotatedBy(RingPhase(acc.a, acc.b, z), RingPhase(old(acc.a), old(acc.b), z),
                      -((2 * params.N / params.q) * Dot(a, s)), params.Q,
                      |a| * (DigitCount(params.q, params.baseR) * StepNoiseOf(params, E)), err)
  {
    hide RotatedBy, RingPhase, ColumnCells, GadgetOk, GadgetSlack, DmStepBound, StepExponent, Pow2Base, Bounded,
         DigitCount;
    ghost var start := RingPhase(acc.a, acc.b, z);
    ghost var N, q := params.N, params.q;
    ghost var step := DigitCount(params.q, params.baseR) * StepNoiseOf(params, E);
    DmStepPositive(params.Q, params.N, params.baseG, params.digitsG, E);
    MulMono(0, StepNoiseOf(params, E), DigitCount(params.q, params.baseR));
    err := RotatedStart(start, params.Q);
    var n := |a|;
    var i := 0;
    while i < n
      invariant 0 <= i <= n && acc.Valid(params.N, params.Q)
      invariant RotatedBy(RingPhase(acc.a, acc.b, z), start, Sum(ExponentTerm(a, s, q, N), i), params.Q, i * step, err)
    {
      MulMono(0, i, step);
      err := EvalAccColumn(params, ek[i], acc, a[i], s[i], z, E, start, Sum(ExponentTerm(a, s, q, N), i), i * step,
                           err);
      MulDistrib(i, 1, step);
      i := i + 1;
    }
    RotationTotal(RingPhase(acc.a, acc.b, z), start, a, s, params.q, N, params.Q, n * step, err);
  }

  lemma DmStepPositive(Q: int, N: nat, base: nat, k: nat, E: nat)
    requires GadgetOk(Q, base, k)
    ensures DmStepBound(N, base, k, E, GadgetSlack(Q, base, k)) >= 0
  {
    MulMono(0, 1 + N, GadgetSlack(Q, base, k));
    MulMono(0, N, (base / 2) * E);
    MulMono(0, 2 * k - 1, N * ((base / 2) * E));
  }

  /** All base-R digits of one entry of a. */
  method EvalAccColumn(params: RingGSWCryptoParams, col: seq<seq<Cell>>, acc: RLWECiphertext, x: int,
                       ghost s: int, ghost z: Poly, ghost E: nat, ghost start: Poly, ghost r: int, ghost bound: nat,
                       ghost err0: Poly)
    returns (ghost err: Poly)
    requires DmReady(params) && acc.Valid(params.N, params.Q) && x >= 0 && |z| == params.N && Bounded(z, 1)
    requires ColumnCells(col, z, s, params.baseR, DigitCount(params.q, params.baseR), 2 * params.N / params.q,
                         params.baseG, params.digitsG, params.Q, E)
    requires RotatedBy(RingPhase(acc.a, acc.b, z), start, r, params.Q, bound, err0)
    modifies acc
    ensures acc.Valid(params.N, params.Q)
    ensures RotatedBy(RingPhase(acc.a, acc.b, z), start, r + StepExponent(x, params.q, params.N) * s, params.Q,
                      bound + DigitCount(params.q, params.baseR) * StepNoiseOf(params, E), err)
  {
    hide RotatedBy, RingPhase, DigitCells, GadgetOk, GadgetSlack, DmStepBound, StepExponent, Pow2Base, Bounded,
         DigitCount, PartialExponent, Multiple;
    var R := params.baseR;
    ghost var f, Q, step := 2 * params.N / params.q, params.Q, StepNoiseOf(params, E);
    DmStepPositive(Q, params.N, params.baseG, params.digitsG, E);
    var y := ModSub(params.q, x, params.q);
    var aI := y;
    err := err0;
    PartialStart(y, R, s, f, step);
    var k, count := 0, |params.digitsR|;
    while k < count
      invariant 0 <= k <= count && acc.Valid(params.N, params.Q) && aI == Quot(y, R, k)
      invariant RotatedBy(RingPhase(acc.a, acc.b, z), start, r + PartialExponent(y, R, k, s, f), Q,
                          bound + Multiple(k, step), err)
    {
      var a0 := aI % R;
      DigitExponent(y, R, k, s, f, step);
      if a0 != 0 {
        err := EvalAccDigit(params, col[a0], acc, k, s * a0, z, E, start, r + PartialExponent(y, R, k, s, f),
                            bound + Multiple(k, step), err);
      } else {
        RotatedWeaken(RingPhase(acc.a, acc.b, z), start, r + PartialExponent(y, R, k, s, f), Q,
                      bound + Multiple(k, step), step, err);
      }
      k, aI := k + 1, aI / R;
    }
    ColumnExponent(x, y, params.q, R, params.N, s, step);
  }

  function PartialExponent(y: nat, R: nat, k: nat, s: int, f: int): int
    requires R > 0
  {
    s * (f * Sum(DigitTerm(y, R), k))
  }

  function Multiple(k: nat, step: nat): nat { k * step }

  lemma PartialStart(y: nat, R: nat, s: int, f: int, step: nat)
    requires R > 0
    ensures PartialExponent(y, R, 0, s, f) == 0 && Multiple(0, step) == 0
  {
  }

  lemma RotatedWeaken(p: Poly, start: Poly, r: int, Q: int, bound: int, more: nat, err: Poly)
    requires RotatedBy(p, start, r, Q, bound, err)
    ensures RotatedBy(p, start, r, Q, bound + more, err)
  {
  }

  /** Digit k contributes s * a0 * R^k * f to the exponent. */
  lemma DigitExponent(y: nat, R: nat, k: nat, s: int, f: int, step: nat)
    requires R > 0
    ensures PartialExponent(y, R, k + 1, s, f) == PartialExponent(y, R, k, s, f) + (s * Digit(y, R, k)) * Pow(R, k) * f
    ensures Digit(y, R, k) == 0 ==> PartialExponent(y, R, k + 1, s, f) == PartialExponent(y, R, k, s, f)
    ensures Multiple(k + 1, step) == Multiple(k, step) + step
  {
    var S, a0, p := Sum(DigitTerm(y, R), k), Digit(y, R, k), Pow(R, k);
    hide Sum, Digit, Pow;
    assert Sum(DigitTerm(y, R), k + 1) == S + a0 * p by { SumUnfold(y, R, k); }
    MulDistrib(S, a0 * p, f);
    MulDistrib(f * S, f * (a0 * p), s);
    MulComm(f, a0 * p);
    MulAssocInt(s, a0 * p, f);
    MulAssocInt(s, a0, p);
    MulDistrib(k, 1, step);
  }

  lemma SumUnfold(y: nat, R: nat, k: nat)
    requires R > 0
    ensures Sum(DigitTerm(y, R), k + 1) == Sum(DigitTerm(y, R), k) + Digit(y, R, k) * Pow(R, k)
  {
  }

  lemma ColumnExponent(x: int, y: nat, q: int, R: nat, N: nat, s: int, step: nat)
    requires q > 0 && R >= 2 && x >= 0 && y == (q - x) % q
    ensures PartialExponent(y, R, DigitCount(q, R), s, 2 * N / q) == StepExponent(x, q, N) * s
    ensures Multiple(DigitCount(q, R), step) == DigitCount(q, R) * step
  {
    CongOf(q - x, -x, 1, q);
    CongMod(q - x, -x, q);
    ModCong(q - x, q);
    DigitsExact(y, R, DigitCount(q, R));
    MulComm(2 * N / q, y);
    MulComm(s, y * (2 * N / q));
  }

  /** One nonzero digit: the cell that is read is populated. */
  method EvalAccDigit(params: RingGSWCryptoParams, cells: seq<Cell>, acc: RLWECiphertext, k: nat,
                      ghost x: int, ghost z: Poly, ghost E: nat, ghost start: Poly, ghost r: int, ghost bound: nat,
                      ghost err0: Poly)
    returns (ghost err: Poly)
    requires DmReady(params) && acc.Valid(params.N, params.Q) && |z| == params.N && Bounded(z, 1) &&
             k < |params.digitsR|
    requires DigitCells(cells, z, x, params.baseR, DigitCount(params.q, params.baseR), 2 * params.N / params.q,
                        params.baseG, params.digitsG, params.Q, E)
    requires RotatedBy(RingPhase(acc.a, acc.b, z), start, r, params.Q, bound, err0)
    modifies acc
    ensures acc.Valid(params.N, params.Q)
    ensures RotatedBy(RingPhase(acc.a, acc.b, z), start, r + x * Pow(params.baseR, k) * (2 * params.N / params.q),
                      params.Q,
                      bound + StepNoiseOf(params, E), err)
  {
    hide RotatedBy, RingPhase, DmKeyFor, GadgetOk, GadgetSlack, DmStepBound, Pow2Base, Bounded, DigitCount, DmDone, Pow,
         Rows;
    ghost var a0, b0, t := acc.a, acc.b, x * Pow(params.baseR, k) * (2 * params.N / params.q);
    ghost var N, Q, base, d := params.N, params.Q, params.baseG, params.digitsG;
    GadgetGood(Q, base, d);
    assert CellFor(cells[k], z, t, base, d, Q, E);
    ghost var errs := DmKeyErrors(cells[k].key, z, t, base, d, Q, E);
    ghost var digits := AddToAccDM(params, cells[k].key, acc);
    err := DmRotates(a0, b0, acc.a, acc.b, z, t, Q, base, d, E, cells[k].key, digits, start, r, bound, err0);
  }
}
