/** The CGGI accumulator: ternary CMUX and blind rotation (rgsw-acc-cggi.cpp). */
module Cggi {
  import opened Arith
  import opened Sums
  import opened Native
  import opened Ring
  import opened Gadget
  import opened RgswParams
  import opened ExternalProduct
  import opened Rlwe
  import opened Lwe

  // ----- the algebra of one step -----

  /** The constant polynomial m. */
  function Constant(N: nat, m: int): (p: Poly)
    ensures |p| == N
  {
    Scale(m, One(N))
  }

  lemma MulConstant(m: int, p: Poly)
    requires |p| > 0
    ensures Mul(Constant(|p|, m), p) == Scale(m, p)
  {
    hide Mul;
    MulScale(m, One(|p|), p);
    MulOne(p);
  }

  /** (X^c - 1)*x + (X^-c - 1)*y. */
  function Spread(x: Poly, y: Poly, c: int): (r: Poly)
    requires |x| == |y| > 0
    ensures |r| == |x|
  {
    Add(Sub(Rotate(x, c), x), Sub(Rotate(y, -c), y))
  }

  lemma SpreadBound(x: Poly, y: Poly, c: int, t: nat)
    requires |x| == |y| > 0 && Bounded(x, t) && Bounded(y, t)
    ensures Bounded(Spread(x, y, c), 4 * t)
  {
    hide Rotate, Bounded;
    RotateBound(x, c, t);
    RotateBound(y, -c, t);
    AddBound(Rotate(x, c), x, t, t);
    AddBound(Rotate(y, -c), y, t, t);
    AddBound(Sub(Rotate(x, c), x), Sub(Rotate(y, -c), y), 2 * t, 2 * t);
  }

  /**
    1 + s+(X^c - 1) + s-(X^-c - 1) = X^(c*s): the CMUX multiplies a phase by X^(c*s),
    for a ternary s given as the pair of its positive and negative indicators.
  */
  lemma CmuxIdentity(P: Poly, x: Poly, y: Poly, c: int, s: int)
    requires |P| == |x| == |y| > 0 && -1 <= s <= 1
    ensures Add(P, Spread(Add(x, Scale(if s == 1 then 1 else 0, P)), Add(y, Scale(if s == -1 then 1 else 0, P)), c))
         == Add(Rotate(P, c * s), Spread(x, y, c))
  {
    hide Rotate, Mul;
    var u, v := Scale(if s == 1 then 1 else 0, P), Scale(if s == -1 then 1 else 0, P);
    RotateAdd(x, u, c);
    RotateAdd(y, v, -c);
    RotateZero(P);
    RotateOfZero(|P|, c);
    RotateOfZero(|P|, -c);
    assert u == if s == 1 then P else Zero(|P|);
    assert v == if s == -1 then P else Zero(|P|);
    assert c * s == if s == 1 then c else if s == 0 then 0 else -c;
  }

  lemma RotateOfZero(N: nat, j: int)
    requires N > 0
    ensures Rotate(Zero(N), j) == Zero(N)
  {
    hide Ext;
    forall k | 0 <= k < N ensures Rotate(Zero(N), j)[k] == 0 { ExtZero(N, k - j); }
  }

  /** Multiplying by the tabulated X^c - 1 spreads a polynomial. */
  lemma MonomialProduct(p: Poly, N: nat, Q: int, c: int)
    requires N > 0 && Q > 0 && |p| == N
    ensures PCong(Mul(p, MonomialMinusOne(N, Q, c)), Sub(Rotate(p, c), p), Q)
  {
    hide Mul, Rotate, PCong, Reduce;
    var m := Sub(Monomial(N, c), One(N));
    ReduceCong(m, Q);
    PCongRefl(p, Q);
    PCongMul(p, p, MonomialMinusOne(N, Q, c), m, Q);
    MulCommutes(p, m);
    MulAddLeft(Monomial(N, c), One(N), p);
    MulMonomial(p, c);
    MulOne(p);
  }

  // ----- keys -----

  datatype AccKey = AccKey(pos: seq<EvalKey>, neg: seq<EvalKey>)

  /** ek encrypts the constant m with row errors of size at most E. */
  ghost predicate KeyFor(ek: EvalKey, z: Poly, m: int, base: nat, k: nat, Q: int, E: nat) {
    |z| > 0 && exists errs :: KeyWith(ek, z, m, base, k, Q, E, errs)
  }

  ghost predicate KeyWith(ek: EvalKey, z: Poly, m: int, base: nat, k: nat, Q: int, E: nat, errs: seq<Poly>)
    requires |z| > 0
  {
    Encrypts(ek, z, Constant(|z|, m), base, k, Q, errs) && forall l :: 0 <= l < |errs| ==> Bounded(errs[l], E)
  }

  /** The refreshing key for the ternary secret s: indicators of +1 and -1 in each position. */
  ghost predicate ValidAccKey(ek: AccKey, s: seq<int>, z: Poly, base: nat, k: nat, Q: int, E: nat) {
    && Ternary(s) && |ek.pos| == |ek.neg| == |s|
    && forall i :: 0 <= i < |s| ==>
         && KeyFor(ek.pos[i], z, if s[i] == 1 then 1 else 0, base, k, Q, E)
         && KeyFor(ek.neg[i], z, if s[i] == -1 then 1 else 0, base, k, Q, E)
  }

  // ----- one CMUX -----

  /** The digits of acc as the code stores them are congruent to the signed digits. */
  lemma StoredDigits(dct: seq<Poly>, a: Poly, b: Poly, Q: int, base: int, k: nat)
    requires GoodBase(base) && |a| == |b| && |dct| == 2 * k && Polys(dct, |a|)
    requires forall x, i :: 0 <= x < 2 * k && 0 <= i < |a| ==>
               dct[x][i] == StoredDigit(Half(a, b, x)[i], Q, base, x / 2)
    ensures forall x :: 0 <= x < 2 * k ==> PCong(dct[x], Digits(a, b, Q, base, k)[x], Q)
  {
    hide SignedDigit;
    forall x | 0 <= x < 2 * k ensures PCong(dct[x], Digits(a, b, Q, base, k)[x], Q) {
      forall i | 0 <= i < |a| ensures Cong(dct[x][i], Digits(a, b, Q, base, k)[x][i], Q) {
        var r := SignedDigit(CentreCoef(Half(a, b, x)[i], Q), base, x / 2);
        CongOf(dct[x][i], r, if r < 0 then 1 else 0, Q);
      }
    }
  }

  /** What AddToAccCGGI computes, before reduction, from the digits d. */
  function CmuxValue(old_: Poly, d: seq<Poly>, v1: seq<Poly>, v2: seq<Poly>, N: nat, c: int): (r: Poly)
    requires N > 0 && |old_| == N && |d| == |v1| == |v2| && Polys(d, N) && Polys(v1, N) && Polys(v2, N)
    ensures |r| == N
  {
    Add(old_, Spread(Lin(d, v1, N, |d|), Lin(d, v2, N, |d|), c))
  }

  predicate CmuxReady(params: RingGSWCryptoParams, ek1: EvalKey, ek2: EvalKey, c: int)
    reads params
  {
    && params.Valid() && params.kind == GINX && params.TablesReady() && Pow2Base(params.baseG)
    && |ek1| == |ek2| == 2 * params.digitsG && Rows(ek1, params.N) && Rows(ek2, params.N)
    && 0 <= c <= 2 * params.N
  }

  /** (a', b') is the accumulator (a, b) after a CMUX with the digits d of (a, b). */
  ghost predicate CmuxDone(a: Poly, b: Poly, a': Poly, b': Poly, ek1: EvalKey, ek2: EvalKey, d: seq<Poly>, N: nat,
                           Q: int, base: nat, k: nat, c: int) {
    && N > 0 && |a| == |b| == N && GoodBase(base)
    && |ek1| == |ek2| == |d| == 2 * k && Rows(ek1, N) && Rows(ek2, N) && Polys(d, N)
    && (forall l :: 0 <= l < 2 * k ==> PCong(d[l], Digits(a, b, Q, base, k)[l], Q))
    && PCong(a', CmuxValue(a, d, ColumnA(ek1), ColumnA(ek2), N, c), Q)
    && PCong(b', CmuxValue(b, d, ColumnB(ek1), ColumnB(ek2), N, c), Q)
  }

  /** Fills dct, initially zero, with the digits of the accumulator. */
  method Decompose(params: RingGSWCryptoParams, acc: RLWECiphertext, dct: array<Poly>)
    requires params.Valid() && Pow2Base(params.baseG) && acc.Valid(params.N, params.Q)
    requires dct.Length == 2 * params.digitsG && forall x :: 0 <= x < dct.Length ==> dct[x] == Zero(params.N)
    modifies dct
    ensures GoodBase(params.baseG) && Polys(dct[..], params.N)
    ensures forall x :: 0 <= x < dct.Length ==>
              PCong(dct[x], Digits(acc.a, acc.b, params.Q, params.baseG, params.digitsG)[x], params.Q)
  {
    hide StoredDigit, Digits, PCong;
    var N, Q := params.N, params.Q;
    SignedDigitDecompose(N, Q, GBits(params.baseG), params.digitsG, [acc.a, acc.b], dct);
    StoredDigits(dct[..], acc.a, acc.b, Q, params.baseG, params.digitsG);
  }

  lemma MonomialIndex(N: nat, Q: int, c: int)
    requires N > 0 && Q > 0 && 0 <= c <= 2 * N
    ensures var pos := if c == 2 * N then 0 else c; MonomialTable(N, Q)[pos] == MonomialMinusOne(N, Q, c)
    ensures MonomialTable(N, Q)[(2 * N - c) % (2 * N)] == MonomialMinusOne(N, Q, -c)
  {
    hide Rotate, Reduce;
    var M := 2 * N;
    RotatePeriod(One(N), 0, 1);
    RotatePeriod(One(N), -c, 1);
    if 0 < c {
      ModSmall(M - c, M);
    } else {
      DivModUnique(M - c, 1, 0, M);
    }
  }

  /** As Combine, but multiplying dct[l] in place for l >= 1, as the last use of dct does. */
  method CombineInPlace(dct: array<Poly>, v: seq<Poly>, N: nat, Q: int) returns (temp: Poly)
    requires N > 0 && Q > 0 && dct.Length == |v| > 0 && Polys(dct[..], N) && Polys(v, N)
    modifies dct
    ensures |temp| == N && PCong(temp, Lin(old(dct[..]), v, N, |v|), Q)
  {
    hide PCong, Mul, Reduce;
    ghost var d := dct[..];
    temp := MulMod(dct[0], v[0], Q);
    CombineFirst(dct[0], v[0], Q);
    assert Lin(d, v, N, 1) == Add(Zero(N), Mul(d[0], v[0]));
    var l := 1;
    while l < |v|
      invariant 1 <= l <= |v| && |temp| == N && PCong(temp, Lin(d, v, N, l), Q)
      invariant forall x :: l <= x < dct.Length ==> dct[x] == d[x]
    {
      CombineStep(temp, Lin(d, v, N, l), dct[l], v[l], Q);
      dct[l] := MulMod(dct[l], v[l], Q);
      temp := AddMod(temp, dct[l], Q);
      l := l + 1;
    }
  }

  /** One half of the accumulator after both products, congruent to its CMUX value. */
  lemma CmuxHalf(old_: Poly, t1: Poly, t2: Poly, x: Poly, y: Poly, N: nat, Q: int, c: int)
    requires N > 0 && Q > 0 && |old_| == |t1| == |t2| == N && PCong(t1, x, Q) && PCong(t2, y, Q)
    ensures |x| == |y| == N
    ensures PCong(AddMod(old_, AddMod(MulMod(t1, MonomialMinusOne(N, Q, c), Q),
                                      MulMod(t2, MonomialMinusOne(N, Q, -c), Q), Q), Q),
                  Add(old_, Spread(x, y, c)), Q)
  {
    PCongLength(t1, x, Q);
    PCongLength(t2, y, Q);
    hide Mul, Rotate, PCong, Reduce, MonomialMinusOne, AddMod, MulMod;
    var m, w := MonomialMinusOne(N, Q, c), MonomialMinusOne(N, Q, -c);
    PCongRefl(m, Q);
    PCongRefl(w, Q);
    PCongRefl(old_, Q);
    MulModCong(t1, m, x, m, Q);
    MulModCong(t2, w, y, w, Q);
    MonomialProduct(x, N, Q, c);
    MonomialProduct(y, N, Q, -c);
    PCongTrans(MulMod(t1, m, Q), Mul(x, m), Sub(Rotate(x, c), x), Q);
    PCongTrans(MulMod(t2, w, Q), Mul(y, w), Sub(Rotate(y, -c), y), Q);
    AddModCong(MulMod(t1, m, Q), MulMod(t2, w, Q), Sub(Rotate(x, c), x), Sub(Rotate(y, -c), y), Q);
    AddModCong(old_, AddMod(MulMod(t1, m, Q), MulMod(t2, w, Q), Q), old_, Spread(x, y, c), Q);
  }

  /**
    One CMUX step, with the code's order of in-place updates. The new accumulator is
    congruent to acc + (X^c - 1)*(dct.ek1) + (X^-c - 1)*(dct.ek2), where dct are the
    digits of the accumulator at entry: no in-place product disturbs a later one.
  */
  method AddToAccCGGI(params: RingGSWCryptoParams, ek1: EvalKey, ek2: EvalKey, c: int, acc: RLWECiphertext)
    returns (ghost d: seq<Poly>)
    requires CmuxReady(params, ek1, ek2, c) && acc.Valid(params.N, params.Q) && params.digitsG > 0
    modifies acc
    ensures acc.Valid(params.N, params.Q)
    ensures CmuxDone(old(acc.a), old(acc.b), acc.a, acc.b, ek1, ek2, d, params.N, params.Q, params.baseG,
                     params.digitsG, c)
  {
    hide PCong, Reduce, Digits, Spread, Lin, MonomialMinusOne, AddMod, MulMod;
    var N, Q, digitsG2 := params.N, params.Q, 2 * params.digitsG;
    var dct := new Poly[digitsG2](_ => Zero(N));
    Decompose(params, acc, dct);
    d := dct[..];

    var M := 2 * N;
    var indexPos, indexNeg := c, ModSub(M, c, M);
    if indexPos == M { indexPos := 0; }
    if indexNeg == M { indexNeg := 0; }
    var monomial, monomialNeg := params.monomials[indexPos], params.monomials[indexNeg];
    MonomialIndex(N, Q, c);

    var temp1 := Combine(dct[..], ColumnA(ek1), N, Q);
    ghost var t1 := temp1;
    temp1 := MulMod(temp1, monomial, Q);
    var accIncA := temp1;
    temp1 := Combine(dct[..], ColumnB(ek1), N, Q);
    ghost var u1 := temp1;
    temp1 := MulMod(temp1, monomial, Q);
    var accIncB := temp1;

    var temp2 := Combine(dct[..], ColumnA(ek2), N, Q);
    CmuxHalf(acc.a, t1, temp2, Lin(d, ColumnA(ek1), N, |d|), Lin(d, ColumnA(ek2), N, |d|), N, Q, c);
    temp2 := MulMod(temp2, monomialNeg, Q);
    accIncA := AddMod(accIncA, temp2, Q);
    temp2 := CombineInPlace(dct, ColumnB(ek2), N, Q);
    CmuxHalf(acc.b, u1, temp2, Lin(d, ColumnB(ek1), N, |d|), Lin(d, ColumnB(ek2), N, |d|), N, Q, c);
    temp2 := MulMod(temp2, monomialNeg, Q);
    accIncB := AddMod(accIncB, temp2, Q);

    acc.a := AddMod(acc.a, accIncA, Q);
    acc.b := AddMod(acc.b, accIncB, Q);
  }

  // ----- the phase after one CMUX -----

  lemma SpreadCong(x: Poly, y: Poly, u: Poly, v: Poly, c: int, Q: int)
    requires PCong(x, u, Q) && PCong(y, v, Q) && |x| == |y| > 0
    ensures PCong(Spread(x, y, c), Spread(u, v, c), Q)
  {
    PCongLength(x, u, Q);
    PCongLength(y, v, Q);
    hide PCong, Rotate;
    PCongRotate(x, u, Q, c);
    PCongRotate(y, v, Q, -c);
    PCongAdd(Rotate(x, c), Rotate(u, c), x, u, Q);
    PCongAdd(Rotate(y, -c), Rotate(v, -c), y, v, Q);
    PCongAdd(Sub(Rotate(x, c), x), Sub(Rotate(u, c), u), Sub(Rotate(y, -c), y), Sub(Rotate(v, -c), v), Q);
  }

  /** Spreading both components spreads the phase. */
  lemma SpreadPhase(a: Poly, b: Poly, a1: Poly, b1: Poly, a2: Poly, b2: Poly, z: Poly, c: int)
    requires |a| == |b| == |a1| == |b1| == |a2| == |b2| == |z| > 0
    ensures RingPhase(Add(a, Spread(a1, a2, c)), Add(b, Spread(b1, b2, c)), z)
         == Add(RingPhase(a, b, z), Spread(RingPhase(a1, b1, z), RingPhase(a2, b2, z), c))
  {
    hide Mul, Rotate;
    MulAddLeft(a, Spread(a1, a2, c), z);
    MulAddLeft(Sub(Rotate(a1, c), a1), Sub(Rotate(a2, -c), a2), z);
    MulAddLeft(Rotate(a1, c), a1, z);
    MulAddLeft(Rotate(a2, -c), a2, z);
    MulRotate(a1, z, c);
    MulRotate(a2, z, -c);
    RotateAdd(b1, Mul(a1, z), c);
    RotateAdd(b2, Mul(a2, z), -c);
  }

  lemma GadgetGood(Q: int, base: int, k: nat)
    requires GadgetOk(Q, base, k)
    ensures GoodBase(base) && k >= 1 && Q > 0
  {
  }

  lemma KeyShape(ek: EvalKey, z: Poly, m: int, base: nat, k: nat, Q: int, E: nat, errs: seq<Poly>)
    requires |z| > 0 && KeyWith(ek, z, m, base, k, Q, E, errs)
    ensures |ek| == |errs| == 2 * k && Rows(ek, |z|) && Polys(errs, |z|) && Polys(ColumnA(ek), |z|) &&
            Polys(ColumnB(ek), |z|)
    ensures Encrypts(ek, z, Constant(|z|, m), base, k, Q, errs)
    ensures forall l :: 0 <= l < 2 * k ==> Bounded(errs[l], E)
  {
  }

  /** The noise of a product with a key for m: the row errors, and m times what the digits miss of the phase. */
  function MissedNoise(a: Poly, b: Poly, z: Poly, m: int, Q: int, base: int, k: nat, errs: seq<Poly>): (r: Poly)
    requires GoodBase(base) && |a| == |b| == |z| > 0 && |errs| == 2 * k && Polys(errs, |a|)
    ensures |r| == |z|
  {
    Sub(ProductNoise(a, b, Q, base, k, errs), Scale(m, PhaseRest(a, b, z, Q, base, k)))
  }

  /** The external product with a key for the constant m multiplies the phase by m and adds noise. */
  lemma ConstantProduct(a: Poly, b: Poly, z: Poly, m: int, Q: int, base: int, k: nat, E: nat, ek: EvalKey,
                        errs: seq<Poly>, d: seq<Poly>)
    requires GadgetOk(Q, base, k) && |a| == |b| == |z| > 0 && Residues(a, Q) && Residues(b, Q)
    requires KeyWith(ek, z, m, base, k, Q, E, errs)
    requires |d| == 2 * k && Polys(d, |z|) && forall l :: 0 <= l < 2 * k ==> PCong(d[l], Digits(a, b, Q, base, k)[l], Q)
    ensures |ek| == 2 * k && Rows(ek, |z|) && Polys(ColumnA(ek), |z|) && Polys(ColumnB(ek), |z|)
    ensures PCong(RingPhase(Lin(d, ColumnA(ek), |z|, 2 * k), Lin(d, ColumnB(ek), |z|, 2 * k), z),
                  Add(MissedNoise(a, b, z, m, Q, base, k, errs), Scale(m, RingPhase(a, b, z))), Q)
  {
    hide *;
    GadgetGood(Q, base, k);
    KeyShape(ek, z, m, base, k, Q, E, errs);
    var R, n, G := RepresentedPhase(a, b, z, Q, base, k), ProductNoise(a, b, Q, base, k, errs),
        PhaseRest(a, b, z, Q, base, k);
    var P := Sub(RingPhase(a, b, z), G);
    var mu := Constant(|z|, m);
    ExternalProductPhase(a, b, z, mu, Q, base, k, ek, errs, d);
    RepresentedUpTo(a, b, z, Q, base, k);
    PCongRefl(mu, Q);
    PCongMul(mu, mu, R, P, Q);
    MulConstant(m, P);
    PCongRefl(n, Q);
    PCongAdd(n, n, Mul(mu, R), Scale(m, P), Q);
    PCongTrans(RingPhase(Lin(d, ColumnA(ek), |z|, 2 * k), Lin(d, ColumnB(ek), |z|, 2 * k), z),
               Add(n, Mul(mu, R)), Add(n, Scale(m, P)), Q);
    MissedOrder(a, b, z, m, Q, base, k, errs);
  }

  lemma MissedOrder(a: Poly, b: Poly, z: Poly, m: int, Q: int, base: int, k: nat, errs: seq<Poly>)
    requires GoodBase(base) && |a| == |b| == |z| > 0 && |errs| == 2 * k && Polys(errs, |a|)
    ensures Add(ProductNoise(a, b, Q, base, k, errs), Scale(m, Sub(RingPhase(a, b, z), PhaseRest(a, b, z, Q, base, k))))
         == Add(MissedNoise(a, b, z, m, Q, base, k, errs), Scale(m, RingPhase(a, b, z)))
  {
    hide ProductNoise, PhaseRest, RingPhase;
    var n, P, G := ProductNoise(a, b, Q, base, k, errs), RingPhase(a, b, z), PhaseRest(a, b, z, Q, base, k);
    forall i | 0 <= i < |z| ensures n[i] + m * (P[i] - G[i]) == n[i] - m * G[i] + m * P[i] {
      MulDistrib(P[i], G[i], m);
    }
    assert Add(n, Scale(m, Sub(P, G))) == Add(Sub(n, Scale(m, G)), Scale(m, P));
  }

  /** Worst-case noise of one CMUX: 4 * k * N * base * E for an even base and an exact gadget, and the slack's share. */
  function StepBound(N: nat, base: nat, k: nat, E: nat, slack: nat): nat {
    4 * ((2 * k) * (N * ((base / 2) * E)) + (1 + N) * slack)
  }

  /** The noise of one CMUX. */
  function CmuxError(a: Poly, b: Poly, z: Poly, s: int, c: int, Q: int, base: int, k: nat, e1: seq<Poly>,
                     e2: seq<Poly>): (r: Poly)
    requires GoodBase(base) && |a| == |b| == |z| > 0 && |e1| == |e2| == 2 * k && Polys(e1, |a|) && Polys(e2, |a|)
    ensures |r| == |z|
  {
    Spread(MissedNoise(a, b, z, if s == 1 then 1 else 0, Q, base, k, e1),
           MissedNoise(a, b, z, if s == -1 then 1 else 0, Q, base, k, e2), c)
  }

  /** With an exact gadget the noise is exactly (X^c - 1)*sum(d_l*e1_l) + (X^-c - 1)*sum(d_l*e2_l). */
  lemma CmuxErrorExact(a: Poly, b: Poly, z: Poly, s: int, c: int, Q: int, base: int, k: nat, e1: seq<Poly>,
                       e2: seq<Poly>)
    requires ExactGadget(Q, base, k) && |a| == |b| == |z| > 0 && |e1| == |e2| == 2 * k && Polys(e1, |a|) &&
             Polys(e2, |a|)
    ensures CmuxError(a, b, z, s, c, Q, base, k, e1, e2) == Spread(ProductNoise(a, b, Q, base, k, e1),
                                                                   ProductNoise(a, b, Q, base, k, e2), c)
    ensures GadgetSlack(Q, base, k) == 0
  {
    hide ProductNoise, PhaseRest, Spread, RestUnit;
    PhaseRestExact(a, b, z, Q, base, k);
    RestUnitZero(Q, base, k);
    var n1, n2, N := ProductNoise(a, b, Q, base, k, e1), ProductNoise(a, b, Q, base, k, e2), |z|;
    assert Sub(n1, Scale(1, Zero(N))) == n1 && Sub(n1, Scale(0, Zero(N))) == n1;
    assert Sub(n2, Scale(1, Zero(N))) == n2 && Sub(n2, Scale(0, Zero(N))) == n2;
  }

  /**
    One CMUX step multiplies the accumulator's phase by X^(c*s) and adds CmuxError: the row
    errors times X^c - 1 and X^-c - 1, and what the digits miss of the phase.
  */
  lemma CmuxPhase(a: Poly, b: Poly, a': Poly, b': Poly, z: Poly, s: int, c: int, Q: int, base: nat, k: nat, E: nat,
                  ek1: EvalKey, ek2: EvalKey, e1: seq<Poly>, e2: seq<Poly>, d: seq<Poly>)
    requires GadgetOk(Q, base, k) && |a| == |b| == |z| > 0 && Residues(a, Q) && Residues(b, Q) && -1 <= s <= 1 &&
             Bounded(z, 1)
    requires KeyWith(ek1, z, if s == 1 then 1 else 0, base, k, Q, E, e1)
    requires KeyWith(ek2, z, if s == -1 then 1 else 0, base, k, Q, E, e2)
    requires CmuxDone(a, b, a', b', ek1, ek2, d, |z|, Q, base, k, c)
    ensures |a'| == |b'| == |z|
    ensures var noise := CmuxError(a, b, z, s, c, Q, base, k, e1, e2);
            && PCong(RingPhase(a', b', z), Add(Rotate(RingPhase(a, b, z), c * s), noise), Q)
            && Bounded(noise, StepBound(|z|, base, k, E, GadgetSlack(Q, base, k)))
  {
    KeyShape(ek1, z, if s == 1 then 1 else 0, base, k, Q, E, e1);
    KeyShape(ek2, z, if s == -1 then 1 else 0, base, k, Q, E, e2);
    CmuxShape(a, b, a', b', ek1, ek2, d, |z|, Q, base, k, c);
    hide *;
    var N := |z|;
    CmuxExpand(a, b, a', b', z, c, Q, base, k, ek1, ek2, d);
    var A1, B1, A2, B2 := Lin(d, ColumnA(ek1), N, 2 * k), Lin(d, ColumnB(ek1), N, 2 * k),
        Lin(d, ColumnA(ek2), N, 2 * k), Lin(d, ColumnB(ek2), N, 2 * k);
    var P := RingPhase(a, b, z);
    var n1, n2 := MissedNoise(a, b, z, if s == 1 then 1 else 0, Q, base, k, e1),
        MissedNoise(a, b, z, if s == -1 then 1 else 0, Q, base, k, e2);
    ConstantProduct(a, b, z, if s == 1 then 1 else 0, Q, base, k, E, ek1, e1, d);
    ConstantProduct(a, b, z, if s == -1 then 1 else 0, Q, base, k, E, ek2, e2, d);
    CmuxCombine(RingPhase(a', b', z), P, RingPhase(A1, B1, z), RingPhase(A2, B2, z), n1, n2, c, s, Q);
    CmuxNoise(a, b, z, s, c, Q, base, k, e1, e2, E);
  }

  lemma CmuxShape(a: Poly, b: Poly, a': Poly, b': Poly, ek1: EvalKey, ek2: EvalKey, d: seq<Poly>, N: nat, Q: int,
                  base: nat, k: nat, c: int)
    requires CmuxDone(a, b, a', b', ek1, ek2, d, N, Q, base, k, c)
    ensures N > 0 && |a| == |b| == N && GoodBase(base)
    ensures |ek1| == |ek2| == |d| == 2 * k && Rows(ek1, N) && Rows(ek2, N) && Polys(d, N)
    ensures Polys(ColumnA(ek1), N) && Polys(ColumnB(ek1), N) && Polys(ColumnA(ek2), N) && Polys(ColumnB(ek2), N)
    ensures forall l :: 0 <= l < 2 * k ==> PCong(d[l], Digits(a, b, Q, base, k)[l], Q)
    ensures PCong(a', CmuxValue(a, d, ColumnA(ek1), ColumnA(ek2), N, c), Q)
    ensures PCong(b', CmuxValue(b, d, ColumnB(ek1), ColumnB(ek2), N, c), Q)
  {
  }

  lemma CmuxNoise(a: Poly, b: Poly, z: Poly, s: int, c: int, Q: int, base: nat, k: nat, e1: seq<Poly>, e2: seq<Poly>,
                  E: nat)
    requires GadgetOk(Q, base, k) && |a| == |b| == |z| > 0 && Residues(a, Q) && Residues(b, Q) && Bounded(z, 1)
    requires |e1| == |e2| == 2 * k && Polys(e1, |a|) && Polys(e2, |a|)
    requires forall l :: 0 <= l < 2 * k ==> Bounded(e1[l], E) && Bounded(e2[l], E)
    ensures Bounded(CmuxError(a, b, z, s, c, Q, base, k, e1, e2), StepBound(|z|, base, k, E, GadgetSlack(Q, base, k)))
  {
    hide Bounded, Spread, MissedNoise, GadgetSlack, GadgetOk;
    GadgetGood(Q, base, k);
    var m1, m2 := if s == 1 then 1 else 0, if s == -1 then 1 else 0;
    MissedBound(a, b, z, m1, Q, base, k, e1, E);
    MissedBound(a, b, z, m2, Q, base, k, e2, E);
    SpreadBound(MissedNoise(a, b, z, m1, Q, base, k, e1), MissedNoise(a, b, z, m2, Q, base, k, e2), c,
                (2 * k) * (|z| * ((base / 2) * E)) + (1 + |z|) * GadgetSlack(Q, base, k));
  }

  lemma MissedBound(a: Poly, b: Poly, z: Poly, m: int, Q: int, base: nat, k: nat, errs: seq<Poly>, E: nat)
    requires GadgetOk(Q, base, k) && |a| == |b| == |z| > 0 && Residues(a, Q) && Residues(b, Q) && Bounded(z, 1) &&
             0 <= m <= 1
    requires |errs| == 2 * k && Polys(errs, |a|) && forall l :: 0 <= l < 2 * k ==> Bounded(errs[l], E)
    ensures Bounded(MissedNoise(a, b, z, m, Q, base, k, errs),
                    (2 * k) * (|z| * ((base / 2) * E)) + (1 + |z|) * GadgetSlack(Q, base, k))
  {
    hide ProductNoise, PhaseRest, GadgetSlack;
    var n, G, u := ProductNoise(a, b, Q, base, k, errs), PhaseRest(a, b, z, Q, base, k),
        (1 + |z|) * GadgetSlack(Q, base, k);
    ProductNoiseBound(a, b, Q, base, k, errs, E);
    PhaseRestBound(a, b, z, Q, base, k);
    forall i | 0 <= i < |z| ensures -u <= Scale(m, G)[i] <= u { assert m * G[i] == if m == 0 then 0 else G[i]; }
    AddBound(n, Scale(m, G), (2 * k) * (|z| * ((base / 2) * E)), u);
  }

  lemma CmuxExpand(a: Poly, b: Poly, a': Poly, b': Poly, z: Poly, c: int, Q: int, base: nat, k: nat,
                   ek1: EvalKey, ek2: EvalKey, d: seq<Poly>)
    requires |a| == |b| == |z| > 0 && CmuxDone(a, b, a', b', ek1, ek2, d, |z|, Q, base, k, c)
    ensures |a'| == |b'| == |z|
    ensures Polys(ColumnA(ek1), |z|) && Polys(ColumnB(ek1), |z|) && Polys(ColumnA(ek2), |z|) && Polys(ColumnB(ek2), |z|)
    ensures var N := |z|;
            var ph1 := RingPhase(Lin(d, ColumnA(ek1), N, 2 * k), Lin(d, ColumnB(ek1), N, 2 * k), z);
            var ph2 := RingPhase(Lin(d, ColumnA(ek2), N, 2 * k), Lin(d, ColumnB(ek2), N, 2 * k), z);
            PCong(RingPhase(a', b', z), Add(RingPhase(a, b, z), Spread(ph1, ph2, c)), Q)
  {
    CmuxShape(a, b, a', b', ek1, ek2, d, |z|, Q, base, k, c);
    hide Mul, PCong, Digits, Lin, Spread, ColumnA, ColumnB, Add, Sub, CmuxDone;
    var N := |z|;
    var A, B := CmuxValue(a, d, ColumnA(ek1), ColumnA(ek2), N, c), CmuxValue(b, d, ColumnB(ek1), ColumnB(ek2), N, c);
    PCongLength(a', A, Q);
    PCongLength(b', B, Q);
    PhaseCong(a', b', A, B, z, Q);
    SpreadPhase(a, b, Lin(d, ColumnA(ek1), N, |d|), Lin(d, ColumnB(ek1), N, |d|),
                Lin(d, ColumnA(ek2), N, |d|), Lin(d, ColumnB(ek2), N, |d|), z, c);
  }

  lemma CmuxCombine(p: Poly, P: Poly, ph1: Poly, ph2: Poly, n1: Poly, n2: Poly, c: int, s: int, Q: int)
    requires |P| == |ph1| == |ph2| == |n1| == |n2| > 0 && -1 <= s <= 1
    requires PCong(p, Add(P, Spread(ph1, ph2, c)), Q)
    requires PCong(ph1, Add(n1, Scale(if s == 1 then 1 else 0, P)), Q)
    requires PCong(ph2, Add(n2, Scale(if s == -1 then 1 else 0, P)), Q)
    ensures PCong(p, Add(Rotate(P, c * s), Spread(n1, n2, c)), Q)
  {
    hide PCong, Spread, Rotate;
    var x, y := Add(n1, Scale(if s == 1 then 1 else 0, P)), Add(n2, Scale(if s == -1 then 1 else 0, P));
    SpreadCong(ph1, ph2, x, y, c, Q);
    PCongRefl(P, Q);
    PCongAdd(P, P, Spread(ph1, ph2, c), Spread(x, y, c), Q);
    CmuxIdentity(P, n1, n2, c, s);
    PCongTrans(p, Add(P, Spread(ph1, ph2, c)), Add(P, Spread(x, y, c)), Q);
  }

  lemma PhaseCong(a: Poly, b: Poly, c: Poly, d: Poly, z: Poly, Q: int)
    requires |a| == |b| == |z| > 0 && PCong(a, c, Q) && PCong(b, d, Q)
    ensures |c| == |d| == |z| && PCong(RingPhase(a, b, z), RingPhase(c, d, z), Q)
  {
    PCongLength(a, c, Q);
    PCongLength(b, d, Q);
    hide Mul, PCong;
    PCongRefl(z, Q);
    PCongMul(a, c, z, z, Q);
    PCongAdd(b, d, Mul(a, z), Mul(c, z), Q);
  }

  // ----- blind rotation -----

  /** (-a_i mod q) * (2N/q): the exponent used in step i. */
  function StepExponent(x: int, mod: int, N: nat): int
    requires mod > 0
  {
    ((-x) % mod) * (2 * N / mod)
  }

  function ExponentTerm(a: seq<int>, s: seq<int>, mod: int, N: nat): int -> int
    requires mod > 0
  {
    i => StepExponent(At(a, i), mod, N) * At(s, i)
  }

  ghost predicate RotatedBy(acc: Poly, start: Poly, r: int, Q: int, bound: int, err: Poly) {
    |acc| == |start| == |err| > 0 && Bounded(err, bound) && PCong(acc, Add(Rotate(start, r), err), Q)
  }

  /** Composing a rotation with noise by one more CMUX. */
  lemma RotatedStep(p: Poly, start: Poly, r: int, Q: int, bound: nat, err: Poly, p': Poly, t: int, step: nat,
                    noise: Poly)
    returns (err': Poly)
    requires RotatedBy(p, start, r, Q, bound, err)
    requires |p'| == |noise| == |p| && Bounded(noise, step) && PCong(p', Add(Rotate(p, t), noise), Q)
    ensures RotatedBy(p', start, r + t, Q, bound + step, err')
  {
    hide Rotate, PCong, Bounded;
    err' := Add(Rotate(err, t), noise);
    RotateBound(err, t, bound);
    AddBound(Rotate(err, t), noise, bound, step);
    PCongRotate(p, Add(Rotate(start, r), err), Q, t);
    RotateAdd(Rotate(start, r), err, t);
    RotateRotate(start, r, t);
    PCongRefl(noise, Q);
    PCongAdd(Rotate(p, t), Add(Rotate(start, r + t), Rotate(err, t)), noise, noise, Q);
    PCongTrans(p', Add(Rotate(p, t), noise), Add(Add(Rotate(start, r + t), Rotate(err, t)), noise), Q);
    assert Add(Add(Rotate(start, r + t), Rotate(err, t)), noise) == Add(Rotate(start, r + t), err');
  }

  /** The exponents add up to -<a, s> * 2N/q modulo 2N. */
  lemma {:induction false} ExponentSum(a: seq<int>, s: seq<int>, mod: int, N: nat, f: nat, n: nat)
    requires mod > 0 && 2 * N == f * mod
    ensures 2 * N / mod == f
    ensures Cong(Sum(ExponentTerm(a, s, mod, N), n), -(f * Sum(DotTerm(a, s), n)), 2 * N)
  {
    DivModUnique(2 * N, f, 0, mod);
    if n == 0 {
      CongRefl(0, 2 * N);
    } else {
      var i := n - 1;
      var S, x, t := Sum(DotTerm(a, s), i), At(a, i), At(s, i);
      ExponentSum(a, s, mod, N, f, i);
      ExponentOne(x, t, mod, f);
      assert Cong(StepExponent(x, mod, N) * t, -(f * (x * t)), 2 * N);
      hide At, StepExponent;
      assert ExponentTerm(a, s, mod, N)(i) == StepExponent(x, mod, N) * t;
      CongAdd(Sum(ExponentTerm(a, s, mod, N), i), -(f * S), StepExponent(x, mod, N) * t, -(f * (x * t)), 2 * N);
      MulDistrib(S, x * t, f);
    }
  }

  lemma ExponentOne(x: int, t: int, mod: int, f: nat)
    requires mod > 0
    ensures Cong(((-x) % mod) * f * t, -(f * (x * t)), f * mod)
  {
    ModCong(-x, mod);
    var k := CongWitness((-x) % mod, -x, mod);
    MulDistrib(-x, k * mod, f * t);
    MulAssocInt((-x) % mod, f, t);
    MulAssocInt(-x, f, t);
    MulAssocInt(k, mod, f * t);
    assert (k * (mod * (f * t))) == (k * t) * (f * mod) by {
      MulAssocInt(mod, f, t);
      MulComm(mod, f);
      MulComm(f * mod, t);
      MulAssocInt(k, t, f * mod);
    }
    assert (-x) * (f * t) == -(f * (x * t)) by {
      MulAssocInt(f, x, t);
      MulComm(f, x);
      MulAssocInt(x, f, t);
    }
    CongOf(((-x) % mod) * f * t, -(f * (x * t)), k * t, f * mod);
  }

  predicate AccReady(params: RingGSWCryptoParams, ek: AccKey, a: seq<int>, mod: int)
    reads params
  {
    && params.Valid() && params.kind == GINX && params.TablesReady() && Pow2Base(params.baseG)
    && GadgetOk(params.Q, params.baseG, params.digitsG)
    && |ek.pos| == |ek.neg| == |a| && mod > 0 && Residues(a, mod) && (2 * params.N) % mod == 0
  }

  lemma ExponentRange(x: int, mod: int, N: nat)
    requires mod > 0 && (2 * N) % mod == 0
    ensures 0 <= StepExponent(x, mod, N) <= 2 * N
  {
    var f, y := 2 * N / mod, (-x) % mod;
    DivMod(2 * N, mod);
    ModCong(-x, mod);
    MulAtLeast(f, mod);
    MulMono(0, y, f);
    MulMono(y, mod, f);
    MulComm(f, mod);
  }

  /**
    Blind rotation: after all n steps the accumulator's phase is the initial phase
    times X^(-<a,s>*2N/q), plus noise of size at most n * 4 * k * N * base * E, and the slack's share
    when the gadget is not exact.
  */
  method EvalAcc(params: RingGSWCryptoParams, ek: AccKey, acc: RLWECiphertext, a: seq<int>, mod: int,
                 ghost s: seq<int>, ghost z: Poly, ghost E: nat) returns (ghost err: Poly)
    requires AccReady(params, ek, a, mod) && acc.Valid(params.N, params.Q)
    requires |z| == params.N && Bounded(z, 1) && ValidAccKey(ek, s, z, params.baseG, params.digitsG, params.Q, E)
    modifies acc
    ensures acc.Valid(params.N, params.Q)
    ensures RotatedBy(RingPhase(acc.a, acc.b, z), RingPhase(old(acc.a), old(acc.b), z),
                      -((2 * params.N / mod) * Dot(a, s)), params.Q,
                      |a| * StepBound(params.N, params.baseG, params.digitsG, E,
                                      GadgetSlack(params.Q, params.baseG, params.digitsG)), err)
  {
    hide RotatedBy, RingPhase, KeyFor, GadgetOk, GadgetSlack, StepBound, StepExponent, Pow2Base, DigitCount;
    ghost var start := RingPhase(acc.a, acc.b, z);
    ghost var N, Q, base, k := params.N, params.Q, params.baseG, params.digitsG;
    ghost var step := StepBound(N, base, k, E, GadgetSlack(Q, base, k));
    err := RotatedStart(start, Q);
    var n := |a|;
    var i := 0;
    while i < n
      invariant 0 <= i <= n && acc.Valid(params.N, params.Q)
      invariant RotatedBy(RingPhase(acc.a, acc.b, z), start, Sum(ExponentTerm(a, s, mod, N), i), Q, i * step, err)
    {
      err := EvalAccOne(params, ek.pos[i], ek.neg[i], acc, a[i], mod, s[i], z, E, start,
                        Sum(ExponentTerm(a, s, mod, N), i), i * step, err);
      MulDistrib(i, 1, step);
      i := i + 1;
    }
    RotationTotal(RingPhase(acc.a, acc.b, z), start, a, s, mod, N, Q, n * step, err);
  }

  /** The body of the loop of EvalAcc. */
  method EvalAccOne(params: RingGSWCryptoParams, ek1: EvalKey, ek2: EvalKey, acc: RLWECiphertext, x: int, mod: int,
                    ghost s: int, ghost z: Poly, ghost E: nat, ghost start: Poly, ghost r: int, ghost bound: nat,
                    ghost err0: Poly)
    returns (ghost err: Poly)
    requires params.Valid() && params.kind == GINX && params.TablesReady() && Pow2Base(params.baseG)
    requires GadgetOk(params.Q, params.baseG, params.digitsG) && mod > 0 && 0 <= x < mod && (2 * params.N) % mod == 0
    requires acc.Valid(params.N, params.Q) && |z| == params.N && Bounded(z, 1) && -1 <= s <= 1
    requires KeyFor(ek1, z, if s == 1 then 1 else 0, params.baseG, params.digitsG, params.Q, E)
    requires KeyFor(ek2, z, if s == -1 then 1 else 0, params.baseG, params.digitsG, params.Q, E)
    requires RotatedBy(RingPhase(acc.a, acc.b, z), start, r, params.Q, bound, err0)
    modifies acc
    ensures acc.Valid(params.N, params.Q)
    ensures RotatedBy(RingPhase(acc.a, acc.b, z), start, r + StepExponent(x, mod, params.N) * s, params.Q,
                      bound + StepBound(params.N, params.baseG, params.digitsG, E,
                                        GadgetSlack(params.Q, params.baseG, params.digitsG)), err)
  {
    hide RotatedBy, RingPhase, CmuxDone, KeyFor, KeyWith, GadgetOk, GadgetSlack, StepBound, StepExponent, Pow2Base,
         DigitCount, Rows, Polys;
    ghost var N, Q, base, k := params.N, params.Q, params.baseG, params.digitsG;
    ghost var a0, b0 := acc.a, acc.b;
    GadgetGood(Q, base, k);
    ExponentRange(x, mod, N);
    ghost var e1 := KeyErrors(ek1, z, if s == 1 then 1 else 0, base, k, Q, E);
    ghost var e2 := KeyErrors(ek2, z, if s == -1 then 1 else 0, base, k, Q, E);
    var c := ExponentOf(mod, x, params.N);
    ghost var d := AddToAccCGGI(params, ek1, ek2, c, acc);
    err := EvalAccStep(a0, b0, acc.a, acc.b, z, s, c, Q, base, k, E, ek1, ek2, d, start, r, bound, err0);
  }

  /** The code's expression for the exponent: mod.ModSub(a[i], mod) * (M / mod). */
  function ExponentOf(mod: int, x: int, N: nat): (c: int)
    requires mod > 0 && 0 <= x < mod
    ensures c == StepExponent(x, mod, N)
  {
    CongOf(mod - x, -x, 1, mod);
    CongMod(mod - x, -x, mod);
    ModSub(mod, x, mod) * (2 * N / mod)
  }

  lemma RotatedStart(p: Poly, Q: int) returns (err: Poly)
    requires |p| > 0
    ensures RotatedBy(p, p, 0, Q, 0, err)
  {
    err := Zero(|p|);
    RotateZero(p);
    assert Add(p, err) == p;
    PCongRefl(p, Q);
  }

  lemma KeyErrors(ek: EvalKey, z: Poly, m: int, base: nat, k: nat, Q: int, E: nat) returns (errs: seq<Poly>)
    requires KeyFor(ek, z, m, base, k, Q, E)
    ensures |z| > 0 && KeyWith(ek, z, m, base, k, Q, E, errs)
    ensures |ek| == |errs| == 2 * k && Rows(ek, |z|) && Polys(errs, |z|)
  {
    errs :| KeyWith(ek, z, m, base, k, Q, E, errs);
  }

  lemma EvalAccStep(a: Poly, b: Poly, a': Poly, b': Poly, z: Poly, s: int, c: int, Q: int, base: nat, k: nat, E: nat,
                    ek1: EvalKey, ek2: EvalKey, d: seq<Poly>,
                    start: Poly, r: int, bound: nat, err: Poly) returns (err': Poly)
    requires GadgetOk(Q, base, k) && |a| == |b| == |z| > 0 && Residues(a, Q) && Residues(b, Q) && -1 <= s <= 1 &&
             Bounded(z, 1)
    requires KeyFor(ek1, z, if s == 1 then 1 else 0, base, k, Q, E)
    requires KeyFor(ek2, z, if s == -1 then 1 else 0, base, k, Q, E)
    requires CmuxDone(a, b, a', b', ek1, ek2, d, |z|, Q, base, k, c)
    requires RotatedBy(RingPhase(a, b, z), start, r, Q, bound, err)
    ensures |a'| == |b'| == |z|
    ensures RotatedBy(RingPhase(a', b', z), start, r + c * s, Q,
                      bound + StepBound(|z|, base, k, E, GadgetSlack(Q, base, k)), err')
  {
    hide *;
    GadgetGood(Q, base, k);
    var e1 := KeyErrors(ek1, z, if s == 1 then 1 else 0, base, k, Q, E);
    var e2 := KeyErrors(ek2, z, if s == -1 then 1 else 0, base, k, Q, E);
    CmuxPhase(a, b, a', b', z, s, c, Q, base, k, E, ek1, ek2, e1, e2, d);
    err' := RotatedStep(RingPhase(a, b, z), start, r, Q, bound, err, RingPhase(a', b', z), c * s,
                        StepBound(|z|, base, k, E, GadgetSlack(Q, base, k)),
                        CmuxError(a, b, z, s, c, Q, base, k, e1, e2));
  }

  lemma RotationTotal(p: Poly, start: Poly, a: seq<int>, s: seq<int>, mod: int, N: nat, Q: int, bound: int, err: Poly)
    requires mod > 0 && (2 * N) % mod == 0 && |start| == N > 0
    requires RotatedBy(p, start, Sum(ExponentTerm(a, s, mod, N), |a|), Q, bound, err)
    ensures RotatedBy(p, start, -((2 * N / mod) * Dot(a, s)), Q, bound, err)
  {
    hide RotatedBy, ExponentTerm, Sum;
    var f := 2 * N / mod;
    DivMod(2 * N, mod);
    ExponentSum(a, s, mod, N, f, |a|);
    RotatedMod(p, start, Sum(ExponentTerm(a, s, mod, N), |a|), -(f * Dot(a, s)), Q, bound, err);
  }

  /** Only the exponent modulo 2N matters. */
  lemma RotatedMod(p: Poly, start: Poly, r: int, x: int, Q: int, bound: int, err: Poly)
    requires |start| > 0 && Cong(r, x, 2 * |start|) && RotatedBy(p, start, r, Q, bound, err)
    ensures RotatedBy(p, start, x, Q, bound, err)
  {
    hide Rotate;
    var t := CongWitness(r, x, 2 * |start|);
    RotatePeriod(start, x, t);
  }
}
