/** Generation of a bootstrapping key (BinFHEScheme::KeyGen, binfhe-base-scheme.cpp). */
module BootKeys {
  import opened Arith
  import opened Native
  import opened Ring
  import opened RgswParams
  import opened ExternalProduct
  import opened RgswKeys
  import opened Lwe
  import opened KeySwitching
  import opened Cggi
  import opened CggiKeys
  import opened Bootstrapping

  lemma WeightCong(mu: Poly, z: Poly, y: Poly, base: nat, l: nat, Q: int)
    requires |mu| == |z| == |y| > 0 && PCong(z, y, Q)
    ensures PCong(Weight(mu, z, base, l), Weight(mu, y, base, l), Q)
  {
    hide PCong, Mul, Pow;
    PCongRefl(Weight(mu, y, base, l), Q);
    if l % 2 == 0 {
      PCongRefl(mu, Q);
      PCongMul(mu, mu, z, y, Q);
      PCongScale(0 - Pow(base, l / 2), Mul(mu, z), Mul(mu, y), Q);
    }
  }

  lemma PCongScale(c: int, a: Poly, b: Poly, Q: int)
    requires PCong(a, b, Q)
    ensures PCong(Scale(c, a), Scale(c, b), Q)
  {
    forall i | 0 <= i < |a| ensures Cong(Scale(c, a)[i], Scale(c, b)[i], Q) { CongScale(a[i], b[i], c, Q); }
  }

  /** A key under z is a key under any secret congruent to z. */
  lemma EncryptsTransfer(ek: EvalKey, z: Poly, y: Poly, mu: Poly, base: nat, k: nat, Q: int, errs: seq<Poly>)
    requires Encrypts(ek, z, mu, base, k, Q, errs) && PCong(z, y, Q) && |z| == |y|
    ensures Encrypts(ek, y, mu, base, k, Q, errs)
  {
    hide PCong, Mul, Weight;
    forall l | 0 <= l < 2 * k ensures PCong(RowPhase(ek[l], y), Add(errs[l], Weight(mu, y, base, l)), Q) {
      WeightCong(mu, z, y, base, l, Q);
      PCongRefl(ek[l].a, Q);
      PCongRefl(ek[l].b, Q);
      PCongRefl(errs[l], Q);
      PCongSym(z, y, Q);
      PCongMul(ek[l].a, ek[l].a, y, z, Q);
      PCongAdd(ek[l].b, ek[l].b, Mul(ek[l].a, y), Mul(ek[l].a, z), Q);
      PCongTrans(RowPhase(ek[l], y), RowPhase(ek[l], z), Add(errs[l], Weight(mu, z, base, l)), Q);
      PCongAdd(errs[l], errs[l], Weight(mu, z, base, l), Weight(mu, y, base, l), Q);
      PCongTrans(RowPhase(ek[l], y), Add(errs[l], Weight(mu, z, base, l)), Add(errs[l], Weight(mu, y, base, l)), Q);
    }
  }

  lemma KeyForTransfer(ek: EvalKey, z: Poly, y: Poly, m: int, base: nat, k: nat, Q: int, E: nat)
    requires KeyFor(ek, z, m, base, k, Q, E) && PCong(z, y, Q) && |z| == |y|
    ensures KeyFor(ek, y, m, base, k, Q, E)
  {
    hide Encrypts, PCong, Bounded;
    var errs :| KeyWith(ek, z, m, base, k, Q, E, errs);
    EncryptsTransfer(ek, z, y, Constant(|z|, m), base, k, Q, errs);
    assert KeyWith(ek, y, m, base, k, Q, E, errs);
  }

  lemma AccKeyTransfer(ek: AccKey, s: seq<int>, z: Poly, y: Poly, base: nat, k: nat, Q: int, E: nat)
    requires ValidAccKey(ek, s, z, base, k, Q, E) && PCong(z, y, Q) && |z| == |y|
    ensures ValidAccKey(ek, s, y, base, k, Q, E)
  {
    hide KeyFor, PCong;
    forall i | 0 <= i < |s|
      ensures KeyFor(ek.pos[i], y, if s[i] == 1 then 1 else 0, base, k, Q, E)
      ensures KeyFor(ek.neg[i], y, if s[i] == -1 then 1 else 0, base, k, Q, E)
    {
      KeyForTransfer(ek.pos[i], z, y, if s[i] == 1 then 1 else 0, base, k, Q, E);
      KeyForTransfer(ek.neg[i], z, y, if s[i] == -1 then 1 else 0, base, k, Q, E);
    }
  }

  /** A stored secret is congruent to its signed form. */
  lemma SignedCong(sk: PrivateKey)
    ensures PCong(sk.elements, sk.Signed(), sk.modulus)
  {
    forall i | 0 <= i < |sk.elements| ensures Cong(sk.elements[i], sk.Signed()[i], sk.modulus) {
      CongOf(sk.elements[i], sk.Signed()[i], if sk.elements[i] > sk.modulus / 2 then 1 else 0, sk.modulus);
    }
  }

  ghost predicate AccDraws(params: RingGSWCryptoParams, n: nat, a: seq<seq<Poly>>, e: seq<seq<Poly>>,
                           errs: seq<seq<Poly>>, E: nat)
    reads params
  {
    && |a| == |e| == |errs| == 2 * n
    && (forall i :: 0 <= i < |a| ==> DrawsOk(a[i], e[i], params.N, 2 * params.digitsG, params.Q))
    && (forall i :: 0 <= i < |a| ==> StandsFor(e[i], errs[i], params.Q))
    && forall i, l :: 0 <= i < |errs| && 0 <= l < |errs[i]| ==> Bounded(errs[i][l], E)
  }

  ghost predicate SameColumn(e: seq<seq<int>>, f: seq<seq<int>>, q: int) {
    |e| == |f| && forall j :: 0 <= j < |e| ==> PCong(e[j], f[j], q)
  }

  /** The residues e stand for the signed errors errs. */
  ghost predicate SameErrors(e: Errors, errs: Errors, q: int) {
    |e| == |errs| && forall i :: 0 <= i < |e| ==> SameColumn(e[i], errs[i], q)
  }

  /** Key-switching rows do not depend on the residue class chosen for their errors. */
  lemma KsErrorsTransfer(K: SwitchingKey, s: seq<int>, sN: seq<int>, base: nat, d: nat, q: int, e: Errors, errs: Errors)
    requires ValidKey(K, s, sN, base, d, q, e) && SameErrors(e, errs, q)
    ensures ValidKey(K, s, sN, base, d, q, errs)
  {
    hide Phase, Pow;
    forall i | 0 <= i < |sN| ensures ColumnValid(K.A[i], K.B[i], s, sN[i], base, d, q, errs[i]) {
      assert ColumnValid(K.A[i], K.B[i], s, sN[i], base, d, q, e[i]) && SameColumn(e[i], errs[i], q);
      forall j | 0 <= j < base ensures DigitValid(K.A[i][j], K.B[i][j], s, sN[i], j, base, d, q, errs[i][j]) {
        DigitTransfer(K.A[i][j], K.B[i][j], s, sN[i], j, base, d, q, e[i][j], errs[i][j]);
      }
    }
  }

  lemma DigitTransfer(A: seq<seq<int>>, B: seq<int>, s: seq<int>, y: int, j: int, base: nat, d: nat, q: int,
                      e: seq<int>, f: seq<int>)
    requires DigitValid(A, B, s, y, j, base, d, q, e) && PCong(e, f, q)
    ensures DigitValid(A, B, s, y, j, base, d, q, f)
  {
    hide Phase, Pow;
    forall k | 0 <= k < d ensures RowValid(Cipher(A[k], B[k], q), s, y * (j * Pow(base, k)), f[k], q) {
      var c, t := Cipher(A[k], B[k], q), y * (j * Pow(base, k));
      assert RowValid(c, s, t, e[k], q);
      CongRefl(t, q);
      CongAdd(t, t, e[k], f[k], q);
      CongTrans(Phase(c, s), t + e[k], t + f[k], q);
    }
  }

  /**
    For all draws, the generated key is valid for the current gadget base, with the drawn errors,
    whenever the LWE secret is ternary and its modulus passes the 32-bit cast. In general the
    accumulator key is for the secret as read, and generation fails exactly when that is not ternary.
  */
  method KeyGen(p: LweParams, params: RingGSWCryptoParams, sk: PrivateKey, skN: PrivateKey,
                ksA: seq<seq<seq<seq<int>>>>, ksE: Errors, a: seq<seq<Poly>>, e: seq<seq<Poly>>,
                ghost errs: seq<seq<Poly>>, ghost w: Secrets) returns (r: Result<BTKey>)
    requires p.Valid() && ParamsOk(params) && params.N == p.N && params.Q == p.Q
    requires sk.Valid() && skN.Valid() && |sk.elements| == p.n && |skN.elements| == p.N && skN.modulus == p.Q
    requires Ternary(skN.Signed()) && (p.n + 1) * p.qKS <= WORD
    requires Draws(ksA, ksE, p.n, p.N, p.baseKS, p.DigitsKS(), p.qKS)
    requires AccDraws(params, p.n, a, e, errs, w.E)
    requires w.s == sk.Signed() && w.z == skN.Signed() && SameErrors(ksE, w.ksErrors, p.qKS) &&
             ErrorsBounded(w.ksErrors, w.Eks)
    ensures r.Ok? <==> Ternary(sk.Read())
    ensures r.Err? ==> r.error == NotImplementedError
    ensures r.Ok? ==> r.value.bs.HasKey? && r.value.bs.key.Ginx? &&
                      ValidAccKey(r.value.bs.key.acc, sk.Read(), w.z, params.baseG, params.digitsG, p.Q, w.E)
    ensures r.Ok? ==> ValidKey(r.value.ks, w.s, w.z, p.baseKS, p.DigitsKS(), p.qKS, w.ksErrors)
    ensures r.Ok? && sk.Read() == sk.Signed() ==> ValidBTKey(r.value, p, params.baseG, params.digitsG, w)
    ensures CastOk(sk.modulus) && Ternary(sk.Signed()) ==> r.Ok? &&
                                                           ValidBTKey(r.value, p, params.baseG, params.digitsG, w)
  {
    hide CastOk, Draws, ValidKey, ValidAccKey, DrawsOk, StandsFor, Bounded, Residues, ErrorsBounded, SameErrors, PCong;
    var ks := KeySwitchGen(sk, skN, p.baseKS, p.qKS, ksA, ksE);
    KsErrorsTransfer(ks, w.s, w.z, p.baseKS, p.DigitsKS(), p.qKS, ksE, w.ksErrors);
    var skNPoly := skN.elements;
    var bs := KeyGenAcc(params, skNPoly, sk, w.E, a, e, errs);
    if CastOk(sk.modulus) && Ternary(sk.Signed()) { ReadTernary(sk); }
    if bs.Err? { return Err(bs.error); }
    SignedCong(skN);
    AccKeyTransfer(bs.value, sk.Read(), skNPoly, w.z, params.baseG, params.digitsG, p.Q, w.E);
    return Ok(BTKey(HasKey(Ginx(bs.value)), ks));
  }
}
