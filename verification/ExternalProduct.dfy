/** RingGSW keys and the external product shared by the two accumulators. */
module ExternalProduct {
  import opened Arith
  import opened Ring
  import opened Gadget

  datatype Row = Row(a: Poly, b: Poly)

  type EvalKey = seq<Row>

  predicate Polys(v: seq<Poly>, N: nat) { forall i :: 0 <= i < |v| ==> |v[i]| == N }

  predicate Rows(k: EvalKey, N: nat) { forall i :: 0 <= i < |k| ==> |k[i].a| == |k[i].b| == N }

  function ColumnA(k: EvalKey): (r: seq<Poly>)
    ensures |r| == |k|
  {
    seq(|k|, i requires 0 <= i < |k| => k[i].a)
  }

  function ColumnB(k: EvalKey): (r: seq<Poly>)
    ensures |r| == |k|
  {
    seq(|k|, i requires 0 <= i < |k| => k[i].b)
  }

  /** d[0]*v[0] + ... + d[n-1]*v[n-1]. */
  function Lin(d: seq<Poly>, v: seq<Poly>, N: nat, n: nat): (r: Poly)
    requires N > 0 && n <= |d| && n <= |v| && Polys(d, N) && Polys(v, N)
    ensures |r| == N
  {
    if n == 0 then Zero(N) else Add(Lin(d, v, N, n - 1), Mul(d[n - 1], v[n - 1]))
  }

  lemma {:induction false} LinCong(d: seq<Poly>, e: seq<Poly>, v: seq<Poly>, w: seq<Poly>, N: nat, n: nat, Q: int)
    requires N > 0 && n <= |d| == |e| && n <= |v| == |w| && Polys(d, N) && Polys(e, N) && Polys(v, N) && Polys(w, N)
    requires forall i :: 0 <= i < n ==> PCong(d[i], e[i], Q) && PCong(v[i], w[i], Q)
    ensures PCong(Lin(d, v, N, n), Lin(e, w, N, n), Q)
  {
    hide Mul, PCong;
    if n == 0 {
      PCongRefl(Zero(N), Q);
    } else {
      LinCong(d, e, v, w, N, n - 1, Q);
      PCongMul(d[n - 1], e[n - 1], v[n - 1], w[n - 1], Q);
      PCongAdd(Lin(d, v, N, n - 1), Lin(e, w, N, n - 1), Mul(d[n - 1], v[n - 1]), Mul(e[n - 1], w[n - 1]), Q);
    }
  }

  lemma {:induction false} LinAdd(d: seq<Poly>, u: seq<Poly>, v: seq<Poly>, w: seq<Poly>, N: nat, n: nat)
    requires N > 0 && n <= |d| && n <= |u| && n <= |v| && n <= |w|
    requires Polys(d, N) && Polys(u, N) && Polys(v, N) && Polys(w, N)
    requires forall i :: 0 <= i < n ==> w[i] == Add(u[i], v[i])
    ensures Lin(d, w, N, n) == Add(Lin(d, u, N, n), Lin(d, v, N, n))
  {
    hide Mul;
    if n > 0 {
      LinAdd(d, u, v, w, N, n - 1);
      MulAddRight(d[n - 1], u[n - 1], v[n - 1]);
    }
  }

  /** The phase of one row: b - a*z. */
  function RowPhase(r: Row, z: Poly): (p: Poly)
    requires |r.a| == |r.b| == |z| > 0
    ensures |p| == |z|
  {
    Sub(r.b, Mul(r.a, z))
  }

  function RowPhases(k: EvalKey, z: Poly): (v: seq<Poly>)
    requires |z| > 0 && Rows(k, |z|)
    ensures |v| == |k| && Polys(v, |z|)
  {
    seq(|k|, i requires 0 <= i < |k| => RowPhase(k[i], z))
  }

  /** The phase of a combination of rows is the combination of their phases. */
  lemma {:induction false} LinPhase(d: seq<Poly>, k: EvalKey, z: Poly, n: nat)
    requires |z| > 0 && n <= |d| && n <= |k| && Polys(d, |z|) && Rows(k, |z|)
    ensures Sub(Lin(d, ColumnB(k), |z|, n), Mul(Lin(d, ColumnA(k), |z|, n), z)) == Lin(d, RowPhases(k, z), |z|, n)
  {
    hide Mul;
    var N := |z|;
    var A, B := Lin(d, ColumnA(k), N, n), Lin(d, ColumnB(k), N, n);
    if n == 0 {
      MulZero(z);
    } else {
      var x, r := d[n - 1], k[n - 1];
      var A', B' := Lin(d, ColumnA(k), N, n - 1), Lin(d, ColumnB(k), N, n - 1);
      LinPhase(d, k, z, n - 1);
      MulAddLeft(A', Mul(x, r.a), z);
      MulAssoc(x, r.a, z);
      MulAddRight(x, r.b, Mul(r.a, z));
    }
  }

  lemma {:induction false} LinBound(d: seq<Poly>, v: seq<Poly>, N: nat, n: nat, c: nat, e: nat)
    requires N > 0 && n <= |d| && n <= |v| && Polys(d, N) && Polys(v, N)
    requires forall i :: 0 <= i < n ==> Bounded(d[i], c) && Bounded(v[i], e)
    ensures Bounded(Lin(d, v, N, n), n * (N * (c * e)))
  {
    hide Mul;
    if n > 0 {
      LinBound(d, v, N, n - 1, c, e);
      MulBound(d[n - 1], v[n - 1], c, e);
      AddBound(Lin(d, v, N, n - 1), Mul(d[n - 1], v[n - 1]), (n - 1) * (N * (c * e)), N * (c * e));
      MulDistrib(n - 1, 1, N * (c * e));
    }
  }

  // ----- what a key row encrypts -----

  /** The part of row l that carries the message: interleaved multiples of the gadget powers. */
  function Weight(mu: Poly, z: Poly, base: nat, l: nat): (w: Poly)
    requires |mu| == |z| > 0
    ensures |w| == |z|
  {
    if l % 2 == 0 then Scale(0 - Pow(base, l / 2), Mul(mu, z)) else Scale(Pow(base, l / 2), mu)
  }

  function Weights(mu: Poly, z: Poly, base: nat, n: nat): (w: seq<Poly>)
    requires |mu| == |z| > 0
    ensures |w| == n && Polys(w, |z|)
  {
    seq(n, l requires l >= 0 => Weight(mu, z, base, l))
  }

  /** ek is a RingGSW encryption of mu under z in the given gadget base, with row errors errs. */
  ghost predicate Encrypts(ek: EvalKey, z: Poly, mu: Poly, base: nat, k: nat, Q: int, errs: seq<Poly>) {
    && |mu| == |z| > 0 && |ek| == |errs| == 2 * k && Rows(ek, |z|) && Polys(errs, |z|)
    && forall l :: 0 <= l < 2 * k ==> PCong(RowPhase(ek[l], z), Add(errs[l], Weight(mu, z, base, l)), Q)
  }

  // ----- decomposition of an accumulator -----

  function Half(a: Poly, b: Poly, l: nat): Poly { if l % 2 == 0 then a else b }

  /** The 2k digit polynomials of the pair (a, b), in the code's interleaved order. */
  function Digits(a: Poly, b: Poly, Q: int, base: int, k: nat): (d: seq<Poly>)
    requires GoodBase(base) && |a| == |b|
    ensures |d| == 2 * k && Polys(d, |a|)
  {
    seq(2 * k, l requires l >= 0 => DigitPoly(Half(a, b, l), Q, base, l / 2))
  }

  lemma {:induction false} WeightSum(a: Poly, b: Poly, z: Poly, mu: Poly, Q: int, base: nat, k: nat, i: nat)
    requires GoodBase(base) && |a| == |b| == |z| == |mu| > 0 && i <= k
    ensures Lin(Digits(a, b, Q, base, k), Weights(mu, z, base, 2 * k), |z|, 2 * i)
         == Mul(mu, Sub(Recomposed(b, Q, base, i), Mul(Recomposed(a, Q, base, i), z)))
  {
    hide *;
    var N := |z|;
    var D, W := Digits(a, b, Q, base, k), Weights(mu, z, base, 2 * k);
    if i == 0 {
      WeightSumZero(a, b, z, mu, Q, base, D, W);
    } else {
      var l := 2 * i - 2;
      WeightSum(a, b, z, mu, Q, base, k, i - 1);
      var x, y := DigitPoly(a, Q, base, i - 1), DigitPoly(b, Q, base, i - 1);
      DigitPair(a, b, z, mu, Q, base, k, i - 1);
      WeightPair(x, y, z, mu, base, i - 1);
      LinTwo(D, W, N, l);
      RecomposedStep(a, Q, base, i);
      RecomposedStep(b, Q, base, i);
      WeightStep(Recomposed(a, Q, base, i - 1), Recomposed(b, Q, base, i - 1), x, y, z, mu, Pow(base, i - 1));
    }
  }

  lemma WeightSumZero(a: Poly, b: Poly, z: Poly, mu: Poly, Q: int, base: int, D: seq<Poly>, W: seq<Poly>)
    requires GoodBase(base) && |a| == |b| == |z| == |mu| > 0 && Polys(D, |z|) && Polys(W, |z|)
    ensures Lin(D, W, |z|, 0) == Mul(mu, Sub(Recomposed(b, Q, base, 0), Mul(Recomposed(a, Q, base, 0), z)))
  {
    hide Mul;
    MulZero(z);
    assert Sub(Zero(|z|), Zero(|z|)) == Zero(|z|);
    MulZero(mu);
  }

  lemma DigitPair(a: Poly, b: Poly, z: Poly, mu: Poly, Q: int, base: int, k: nat, i: nat)
    requires GoodBase(base) && |a| == |b| == |z| == |mu| > 0 && i < k
    ensures Digits(a, b, Q, base, k)[2 * i] == DigitPoly(a, Q, base, i)
    ensures Digits(a, b, Q, base, k)[2 * i + 1] == DigitPoly(b, Q, base, i)
    ensures Weights(mu, z, base, 2 * k)[2 * i] == Weight(mu, z, base, 2 * i)
    ensures Weights(mu, z, base, 2 * k)[2 * i + 1] == Weight(mu, z, base, 2 * i + 1)
  {
    hide DigitPoly, Weight;
    DivModUnique(2 * i, i, 0, 2);
    DivModUnique(2 * i + 1, i, 1, 2);
  }

  lemma LinTwo(d: seq<Poly>, v: seq<Poly>, N: nat, l: nat)
    requires N > 0 && l + 2 <= |d| && l + 2 <= |v| && Polys(d, N) && Polys(v, N)
    ensures Lin(d, v, N, l + 2) == Add(Add(Lin(d, v, N, l), Mul(d[l], v[l])), Mul(d[l + 1], v[l + 1]))
  {
    hide Mul, Add;
    assert Lin(d, v, N, l + 1) == Add(Lin(d, v, N, l), Mul(d[l], v[l]));
  }

  lemma RecomposedStep(p: Poly, Q: int, base: int, k: nat)
    requires GoodBase(base) && k > 0
    ensures Recomposed(p, Q, base, k) == Add(Recomposed(p, Q, base, k - 1),
                                             Scale(Pow(base, k - 1), DigitPoly(p, Q, base, k - 1)))
  {
  }

  /** What digits x and y of the two halves contribute. */
  lemma WeightPair(x: Poly, y: Poly, z: Poly, mu: Poly, base: nat, i: nat)
    requires |x| == |y| == |z| == |mu| > 0
    ensures Mul(x, Weight(mu, z, base, 2 * i)) == Mul(mu, Scale(0 - Pow(base, i), Mul(x, z)))
    ensures Mul(y, Weight(mu, z, base, 2 * i + 1)) == Mul(mu, Scale(Pow(base, i), y))
  {
    hide Mul, Pow;
    var g: int := Pow(base, i);
    DivModUnique(2 * i, i, 0, 2);
    DivModUnique(2 * i + 1, i, 1, 2);
    MulScale(-g, x, Mul(mu, z));
    MulScale(-g, mu, Mul(x, z));
    MulAssoc(x, mu, z);
    MulCommutes(x, mu);
    MulAssoc(mu, x, z);
    MulScale(g, y, mu);
    MulScale(g, mu, y);
    MulCommutes(y, mu);
  }

  lemma WeightStep(A: Poly, B: Poly, x: Poly, y: Poly, z: Poly, mu: Poly, g: int)
    requires |A| == |B| == |x| == |y| == |z| == |mu| > 0
    ensures Add(Add(Mul(mu, Sub(B, Mul(A, z))), Mul(mu, Scale(-g, Mul(x, z)))), Mul(mu, Scale(g, y)))
         == Mul(mu, Sub(Add(B, Scale(g, y)), Mul(Add(A, Scale(g, x)), z)))
  {
    hide Mul;
    MulAddLeft(A, Scale(g, x), z);
    MulScale(g, x, z);
    MulAddRight(mu, Sub(B, Mul(A, z)), Scale(-g, Mul(x, z)));
    MulAddRight(mu, Add(Sub(B, Mul(A, z)), Scale(-g, Mul(x, z))), Scale(g, y));
    var P, R := Mul(A, z), Mul(x, z);
    forall i | 0 <= i < |z| ensures Scale(-g, R)[i] == -Scale(g, R)[i] { assert (-g) * R[i] == -(g * R[i]); }
    assert Add(Add(Sub(B, P), Scale(-g, R)), Scale(g, y)) == Sub(Add(B, Scale(g, y)), Add(P, Scale(g, R)));
  }

  /** The phase of a RingLWE pair under z: b - a*z. */
  function RingPhase(a: Poly, b: Poly, z: Poly): (p: Poly)
    requires |a| == |b| == |z| > 0
    ensures |p| == |z|
  {
    Sub(b, Mul(a, z))
  }

  /** The noise an external product adds: the digits times the row errors. */
  function ProductNoise(a: Poly, b: Poly, Q: int, base: int, k: nat, errs: seq<Poly>): (r: Poly)
    requires GoodBase(base) && |a| == |b| > 0 && |errs| == 2 * k && Polys(errs, |a|)
    ensures |r| == |a|
  {
    Lin(Digits(a, b, Q, base, k), errs, |a|, 2 * k)
  }

  /** The part of the phase that the digits do represent. */
  function RepresentedPhase(a: Poly, b: Poly, z: Poly, Q: int, base: int, k: nat): (r: Poly)
    requires GoodBase(base) && |a| == |b| == |z| > 0
    ensures |r| == |z|
  {
    Sub(Recomposed(b, Q, base, k), Mul(Recomposed(a, Q, base, k), z))
  }

  /**
    The external product of any accumulator with an encryption of mu has phase
    mu * (represented phase) + noise. No exactness is assumed here.
  */
  lemma ExternalProductPhase(a: Poly, b: Poly, z: Poly, mu: Poly, Q: int, base: int, k: nat, ek: EvalKey,
                             errs: seq<Poly>, d: seq<Poly>)
    requires GoodBase(base) && |a| == |b| == |z| && Encrypts(ek, z, mu, base, k, Q, errs)
    requires |d| == 2 * k && Polys(d, |z|) && forall l :: 0 <= l < 2 * k ==> PCong(d[l], Digits(a, b, Q, base, k)[l], Q)
    ensures PCong(RingPhase(Lin(d, ColumnA(ek), |z|, 2 * k), Lin(d, ColumnB(ek), |z|, 2 * k), z),
                  Add(ProductNoise(a, b, Q, base, k, errs), Mul(mu, RepresentedPhase(a, b, z, Q, base, k))), Q)
  {
    hide Mul, Digits, Weight, PCong, RowPhase, Recomposed;
    var N, D := |z|, Digits(a, b, Q, base, k);
    var W := Weights(mu, z, base, 2 * k);
    var V := seq(2 * k, l requires 0 <= l < 2 * k => Add(errs[l], W[l]));
    LinPhase(d, ek, z, 2 * k);
    LinCong(d, D, RowPhases(ek, z), V, N, 2 * k, Q);
    LinAdd(D, errs, W, V, N, 2 * k);
    WeightSum(a, b, z, mu, Q, base, k, k);
  }

  /** The part of the phase that the digits miss. */
  function PhaseRest(a: Poly, b: Poly, z: Poly, Q: int, base: int, k: nat): (r: Poly)
    requires GoodBase(base) && |a| == |b| == |z| > 0
    ensures |r| == |z|
  {
    Sub(RestError(b, Q, base, k), Mul(RestError(a, Q, base, k), z))
  }

  /** The represented phase and the missed part make up the accumulator's phase. */
  lemma RepresentedUpTo(a: Poly, b: Poly, z: Poly, Q: int, base: int, k: nat)
    requires GadgetOk(Q, base, k) && |a| == |b| == |z| > 0 && Residues(a, Q) && Residues(b, Q)
    ensures PCong(RepresentedPhase(a, b, z, Q, base, k), Sub(RingPhase(a, b, z), PhaseRest(a, b, z, Q, base, k)), Q)
  {
    hide Mul, PCong, Recomposed, RestError;
    var A, B, x, y := Recomposed(a, Q, base, k), Recomposed(b, Q, base, k), RestError(a, Q, base, k),
        RestError(b, Q, base, k);
    RecomposedWithRest(a, Q, base, k);
    RecomposedWithRest(b, Q, base, k);
    PCongRefl(z, Q);
    PCongMul(Add(A, x), a, z, z, Q);
    MulAddLeft(A, x, z);
    PCongAdd(Add(B, y), b, Add(Mul(A, z), Mul(x, z)), Mul(a, z), Q);
    var G := PhaseRest(a, b, z, Q, base, k);
    PCongRefl(G, Q);
    PCongAdd(Sub(Add(B, y), Add(Mul(A, z), Mul(x, z))), RingPhase(a, b, z), G, G, Q);
    assert Sub(Sub(Add(B, y), Add(Mul(A, z), Mul(x, z))), G) == RepresentedPhase(a, b, z, Q, base, k);
  }

  /** For a ternary z the missed part is at most (1 + N) times the slack. */
  lemma PhaseRestBound(a: Poly, b: Poly, z: Poly, Q: int, base: int, k: nat)
    requires GadgetOk(Q, base, k) && |a| == |b| == |z| > 0 && Residues(a, Q) && Residues(b, Q) && Bounded(z, 1)
    ensures Bounded(PhaseRest(a, b, z, Q, base, k), (1 + |z|) * GadgetSlack(Q, base, k))
  {
    hide Mul, Bounded, RestError, GadgetSlack;
    var s := GadgetSlack(Q, base, k);
    RecomposedWithRest(a, Q, base, k);
    RecomposedWithRest(b, Q, base, k);
    MulBound(RestError(a, Q, base, k), z, s, 1);
    AddBound(RestError(b, Q, base, k), Mul(RestError(a, Q, base, k), z), s, |z| * (s * 1));
    MulDistrib(1, |z|, s);
  }

  /** With an exact gadget nothing is missed. */
  lemma PhaseRestExact(a: Poly, b: Poly, z: Poly, Q: int, base: int, k: nat)
    requires ExactGadget(Q, base, k) && |a| == |b| == |z| > 0
    ensures PhaseRest(a, b, z, Q, base, k) == Zero(|z|)
  {
    hide Mul, RestPoly, RestUnit;
    RestUnitZero(Q, base, k);
    assert RestError(a, Q, base, k) == Zero(|z|) && RestError(b, Q, base, k) == Zero(|z|);
    MulZero(z);
  }

  lemma ProductNoiseBound(a: Poly, b: Poly, Q: int, base: int, k: nat, errs: seq<Poly>, e: nat)
    requires GoodBase(base) && |a| == |b| > 0 && |errs| == 2 * k && Polys(errs, |a|)
    requires forall l :: 0 <= l < 2 * k ==> Bounded(errs[l], e)
    ensures Bounded(ProductNoise(a, b, Q, base, k, errs), (2 * k) * (|a| * ((base / 2) * e)))
  {
    hide Bounded, DigitPoly;
    forall l | 0 <= l < 2 * k ensures Bounded(Digits(a, b, Q, base, k)[l], base / 2) {
      DigitPolyBound(Half(a, b, l), Q, base, l / 2);
    }
    LinBound(Digits(a, b, Q, base, k), errs, |a|, 2 * k, base / 2, e);
  }
}
