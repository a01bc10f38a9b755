/** Generation of the DM refreshing key (rgsw-acc-dm.cpp). Random draws are functions of the cell. */
module DmKeys {
  import opened Arith
  import opened Native
  import opened Ring
  import opened Gadget
  import opened RgswParams
  import opened ExternalProduct
  import opened RgswKeys
  import opened Lwe
  import opened Dm
  import opened KeySwitching
  import opened Bootstrapping
  import opened BootKeys

  type CellDraw = (int, int, int) -> seq<Poly>

  ghost predicate CellDraws(params: RingGSWCryptoParams, a: CellDraw, e: CellDraw, errs: CellDraw, E: nat)
    reads params
  {
    forall i, j, k :: CellDrawn(params.N, params.digitsG, params.Q, a(i, j, k), e(i, j, k), errs(i, j, k), E)
  }

  ghost predicate CellDrawn(N: nat, d: nat, Q: int, a: seq<Poly>, e: seq<Poly>, errs: seq<Poly>, E: nat) {
    DrawsOk(a, e, N, 2 * d, Q) && StandsFor(e, errs, Q) && forall l :: 0 <= l < |errs| ==> Bounded(errs[l], E)
  }

  predicate DmParams(params: RingGSWCryptoParams)
    reads params
  {
    ParamsOk(params) && params.kind == AP && params.TablesReady()
  }

  /** The exponent of a cell as the code computes it: R^k cast to 32 bits, the product to 64, then the reduction. */
  function CellExponent(s: int, j: int, R: nat, k: nat, q: int, N: nat): int
    requires q > 0
  {
    MessageExponent(ToInt64(s * j * ToInt32(Pow(R, k))), q, N)
  }

  /**
    The secret entries for which every cell gets its own exponent: zero, or such that s * j * R^k fits a
    signed word, R^k a signed 32-bit integer, and a negative message survives the unsigned reduction.
  */
  predicate FitsWord(s: int, R: nat, q: int) {
    s == 0 || (Abs(s) * (R * q) < WORD / 2 && 0 < q <= 0x8000_0000 && (s > 0 || WORD % q == 0))
  }

  /** For such entries the exponent is s * j * R^k * 2N/q. */
  lemma CellFits(s: int, j: int, R: nat, k: nat, q: int, N: nat)
    requires R >= 2 && q > 0 && N > 0 && (2 * N) % q == 0
    requires FitsWord(s, R, q) && 1 <= j < R && k < DigitCount(q, R)
    ensures Cong(CellExponent(s, j, R, k, q, N), s * j * Pow(R, k) * (2 * N / q), 2 * N)
  {
    hide DigitCount, ToInt32, ToInt64, MessageExponent, FitsWord;
    CellProduct(s, j, R, k, q);
    var m := s * j * Pow(R, k);
    SmallInt64(m);
    ExponentCong(m, q, N);
  }

  lemma SmallInt64(m: int)
    requires -(WORD / 2) <= m < WORD / 2
    ensures ToInt64(m) == m
  {
    ModSmall(m + WORD / 2, WORD);
  }

  lemma Int64Range(x: int)
    ensures -(WORD / 2) <= ToInt64(x) < WORD / 2 && Cong(ToInt64(x), x, WORD)
  {
    DivMod(x + WORD / 2, WORD);
    CongOf(ToInt64(x), x, 0 - (x + WORD / 2) / WORD, WORD);
  }

  /** A residue within half the word on either side is the only one of its class. */
  lemma OneRepresentative(x: int, y: int, W: int)
    requires W > 0 && W % 2 == 0 && Cong(x, y, W) && -(W / 2) <= x < W / 2 && -(W / 2) <= y < W / 2
    ensures x == y
  {
    var k := CongWitness(x, y, W);
    MulAtLeast(k, W);
    MulAtLeast(k + 1, W);
    MulAtLeast(k - 1, W);
    MulDistrib(k, 1, W);
  }

  /**
    The exponent of every cell, whatever the sizes: with c the signed 32-bit number congruent to R^k and
    m the signed 64-bit number congruent to s*j*c, it is m, or m + 2^64 if m is negative, modulo q, times 2N/q.
  */
  lemma CellExactly(s: int, j: int, R: nat, k: nat, q: int, N: nat, c: int, m: int)
    requires q > 0
    requires -0x8000_0000 <= c < 0x8000_0000 && Cong(c, Pow(R, k), 0x1_0000_0000)
    requires -(WORD / 2) <= m < WORD / 2 && Cong(m, s * j * c, WORD)
    ensures CellExponent(s, j, R, k, q, N) == (if m >= 0 then m % q else (m + WORD) % q) * (2 * N / q)
  {
    hide ToInt32, ToInt64, MessageExponent;
    var w := ToInt32(Pow(R, k));
    LowWordCong(Pow(R, k));
    CongSym(w, Pow(R, k), 0x1_0000_0000);
    CongTrans(c, Pow(R, k), w, 0x1_0000_0000);
    OneRepresentative(c, w, 0x1_0000_0000);
    Int64Range(s * j * c);
    CongSym(ToInt64(s * j * c), s * j * c, WORD);
    CongTrans(m, s * j * c, ToInt64(s * j * c), WORD);
    OneRepresentative(m, ToInt64(s * j * c), WORD);
    ExponentExactly(m, q, N);
  }

  lemma CellProduct(s: int, j: int, R: nat, k: nat, q: int)
    requires R >= 2 && q > 0 && FitsWord(s, R, q) && 1 <= j < R && k < DigitCount(q, R)
    ensures -(WORD / 2) <= s * j * Pow(R, k) < WORD / 2 && s * j * ToInt32(Pow(R, k)) == s * j * Pow(R, k)
    ensures s * j * Pow(R, k) >= 0 || WORD % q == 0
  {
    hide DigitCount, ToInt32;
    var w := Pow(R, k);
    if s == 0 { ZeroProduct(j, w); ZeroProduct(j, ToInt32(w)); return; }
    PowMono(R, k, DigitCount(q, R) - 1);
    ToInt32Of(w, w, 0);
    MulMono(j, R, w);
    MulMono(w, q, R);
    MulMono(0, j, w);
    MulAssocInt(s, j, w);
    ScaleAbs(s, j * w, R * q);
    if s > 0 { MulMono(0, j * w, s); }
  }

  lemma ZeroProduct(j: int, w: int)
    ensures 0 * j * w == 0
  {
  }

  lemma ScaleAbs(s: int, x: int, y: int)
    requires 0 <= x <= y
    ensures 0 - Abs(s) * y <= s * x <= Abs(s) * y
  {
    MulMono(x, y, Abs(s));
    MulMono(0, x, Abs(s));
    assert s * x == Abs(s) * x || s * x == -(Abs(s) * x);
  }

  lemma CellTransfer(ek: EvalKey, z: Poly, y: Poly, t: int, base: nat, k: nat, Q: int, E: nat, errs: seq<Poly>)
    requires |z| == |y| > 0 && PCong(z, y, Q) && Encrypts(ek, z, Monomial(|z|, t), base, k, Q, errs)
    requires forall l :: 0 <= l < |errs| ==> Bounded(errs[l], E)
    ensures CellFor(Set(ek), y, t, base, k, Q, E)
  {
    hide Encrypts, Bounded, PCong, Monomial;
    EncryptsTransfer(ek, z, y, Monomial(|z|, t), base, k, Q, errs);
    assert DmKeyWith(ek, y, t, base, k, Q, E, errs);
  }

  /** Only the exponent modulo 2N matters. */
  lemma CellMod(c: Cell, z: Poly, t: int, u: int, base: nat, k: nat, Q: int, E: nat)
    requires CellFor(c, z, t, base, k, Q, E) && Cong(t, u, 2 * |z|)
    ensures CellFor(c, z, u, base, k, Q, E)
  {
    hide Encrypts, Bounded;
    MonomialMod(|z|, t, u);
    var errs :| DmKeyWith(c.key, z, t, base, k, Q, E, errs);
    assert DmKeyWith(c.key, z, u, base, k, Q, E, errs);
  }

  /** The cells of one digit j, one column and the whole key, with the exponents the code computes. */
  ghost predicate DigitFilled(params: RingGSWCryptoParams, cells: seq<Cell>, y: Poly, s: int, j: int, E: nat)
    requires params.Valid()
    reads params
  {
    && |cells| == DigitCount(params.q, params.baseR)
    && forall l :: 0 <= l < |cells| ==>
         CellFor(cells[l], y, CellExponent(s, j, params.baseR, l, params.q, params.N),
                 params.baseG, params.digitsG, params.Q, E)
  }

  ghost predicate ColumnFilled(params: RingGSWCryptoParams, col: seq<seq<Cell>>, y: Poly, s: int, E: nat)
    requires params.Valid()
    reads params
  {
    && |col| == params.baseR && (forall c :: c in col[0] ==> c.Unset?)
    && forall j :: 1 <= j < |col| ==> DigitFilled(params, col[j], y, s, j, E)
  }

  ghost predicate KeyFilled(params: RingGSWCryptoParams, ek: DmKey, y: Poly, s: seq<int>, E: nat)
    requires params.Valid()
    reads params
  {
    |ek| == |s| && forall i :: 0 <= i < |ek| ==> ColumnFilled(params, ek[i], y, s[i], E)
  }

  /** Where the entries fit, a filled column is the one the accumulator needs. */
  lemma FilledColumnValid(params: RingGSWCryptoParams, col: seq<seq<Cell>>, y: Poly, s: int, E: nat)
    requires params.Valid() && ColumnFilled(params, col, y, s, E) && |y| == params.N && (2 * params.N) % params.q == 0
    requires FitsWord(s, params.baseR, params.q)
    ensures ColumnCells(col, y, s, params.baseR, DigitCount(params.q, params.baseR), 2 * params.N / params.q,
                        params.baseG, params.digitsG, params.Q, E)
  {
    hide CellFor, DigitCount, FitsWord, CellExponent;
    var R, dR, f := params.baseR, DigitCount(params.q, params.baseR), 2 * params.N / params.q;
    forall j | 1 <= j < R
      ensures DigitCells(col[j], y, s * j, R, dR, f, params.baseG, params.digitsG, params.Q, E)
    {
      forall l | 0 <= l < dR
        ensures CellFor(col[j][l], y, s * j * Pow(R, l) * f, params.baseG, params.digitsG, params.Q, E)
      {
        assert DigitFilled(params, col[j], y, s, j, E);
        CellFits(s, j, R, l, params.q, params.N);
        CellMod(col[j][l], y, CellExponent(s, j, R, l, params.q, params.N), s * j * Pow(R, l) * f,
                params.baseG, params.digitsG, params.Q, E);
      }
    }
  }

  /**
    Fills every cell [i][j][k] with 1 <= j < R, and none with j = 0, by a key for the exponent the code
    computes from the secret as read after the 32-bit casts; nothing is ever thrown. Where the entries
    fit, that exponent is s_i * j * R^k * 2N/q, and for a ternary secret whose modulus passes the cast
    the secret as read is the secret meant. y is the signed form of the ring secret.
  */
  method KeyGenAccDM(params: RingGSWCryptoParams, skNTT: Poly, sk: PrivateKey, a: CellDraw, e: CellDraw,
                     ghost errs: CellDraw, ghost E: nat, ghost y: Poly) returns (ek: DmKey)
    requires DmParams(params) && |skNTT| == |y| == params.N && PCong(skNTT, y, params.Q) && sk.Valid()
    requires CellDraws(params, a, e, errs, E)
    ensures KeyFilled(params, ek, y, sk.Read(), E)
    ensures CastOk(sk.modulus) && Ternary(sk.Signed()) ==> sk.Read() == sk.Signed()
    ensures (forall i :: 0 <= i < |sk.elements| ==> FitsWord(sk.Read()[i], params.baseR, params.q)) &&
            (2 * params.N) % params.q == 0 ==>
              ValidDmKey(ek, sk.Read(), y, params.baseR, DigitCount(params.q, params.baseR), 2 * params.N / params.q,
                         params.baseG, params.digitsG, params.Q, E)
  {
    hide ColumnCells, CellDrawn, PCong, DigitCount, FitsWord, ToInt32, ColumnFilled, Pow2Base;
    var mod, n := ToInt32(sk.modulus), |sk.elements|;
    var modHalf := mod / 2;
    if CastOk(sk.modulus) && Ternary(sk.Signed()) { ReadTernary(sk); }
    ek := [];
    for i := 0 to n
      invariant |ek| == i
      invariant forall x :: 0 <= x < i ==> ColumnFilled(params, ek[x], y, sk.Read()[x], E)
    {
      var s := ToInt32(sk.elements[i]);
      if s > modHalf { s := ToInt32(s - mod); }
      assert s == sk.Read()[i];
      var col := FillColumn(params, skNTT, s, i, a, e, errs, E, y);
      ek := ek + [col];
    }
    if (forall i :: 0 <= i < n ==> FitsWord(sk.Read()[i], params.baseR, params.q)) && (2 * params.N) % params.q == 0 {
      forall i | 0 <= i < n
        ensures ColumnCells(ek[i], y, sk.Read()[i], params.baseR, DigitCount(params.q, params.baseR),
                            2 * params.N / params.q, params.baseG, params.digitsG, params.Q, E)
      {
        FilledColumnValid(params, ek[i], y, sk.Read()[i], E);
      }
    }
  }

  method FillColumn(params: RingGSWCryptoParams, skNTT: Poly, s: int, i: int, a: CellDraw, e: CellDraw,
                    ghost errs: CellDraw, ghost E: nat, ghost y: Poly) returns (col: seq<seq<Cell>>)
    requires DmParams(params) && |skNTT| == |y| == params.N && PCong(skNTT, y, params.Q)
    requires CellDraws(params, a, e, errs, E)
    ensures ColumnFilled(params, col, y, s, E)
  {
    hide DigitFilled, CellDrawn, PCong, DigitCount;
    col := [seq(|params.digitsR|, _ => Unset)];
    for j := 1 to params.baseR
      invariant |col| == j && forall c :: c in col[0] ==> c.Unset?
      invariant forall x :: 1 <= x < j ==> DigitFilled(params, col[x], y, s, x, E)
    {
      var cells := FillDigit(params, skNTT, s, i, j, a, e, errs, E, y);
      col := col + [cells];
    }
  }

  method FillDigit(params: RingGSWCryptoParams, skNTT: Poly, s: int, i: int, j: int, a: CellDraw, e: CellDraw,
                   ghost errs: CellDraw, ghost E: nat, ghost y: Poly) returns (cells: seq<Cell>)
    requires DmParams(params) && |skNTT| == |y| == params.N && PCong(skNTT, y, params.Q)
    requires CellDraws(params, a, e, errs, E)
    ensures DigitFilled(params, cells, y, s, j, E)
  {
    hide CellFor, PCong, DigitCount, Encrypts, Bounded, Monomial, DrawsOk, StandsFor, ToInt32, ToInt64,
         MessageExponent;
    cells := [];
    for k := 0 to |params.digitsR|
      invariant |cells| == k
      invariant forall l :: 0 <= l < k ==>
                  CellFor(cells[l], y, CellExponent(s, j, params.baseR, l, params.q, params.N),
                          params.baseG, params.digitsG, params.Q, E)
    {
      assert CellDrawn(params.N, params.digitsG, params.Q, a(i, j, k), e(i, j, k), errs(i, j, k), E);
      var m := ToInt64(s * j * ToInt32(params.digitsR[k]));
      Int64Range(s * j * ToInt32(params.digitsR[k]));
      var key := KeyGenDM(params, skNTT, m, a(i, j, k), e(i, j, k), errs(i, j, k));
      CellTransfer(key, skNTT, y, CellExponent(s, j, params.baseR, k, params.q, params.N), params.baseG,
                   params.digitsG, params.Q, E, errs(i, j, k));
      cells := cells + [Set(key)];
    }
  }

  /** The parameters for which every ternary entry fits. */
  predicate TernaryFits(R: nat, q: int) { 0 < q <= 0x8000_0000 && R * q < WORD / 2 && WORD % q == 0 }

  lemma TernaryEntryFits(s: int, R: nat, q: int)
    requires TernaryFits(R, q) && -1 <= s <= 1
    ensures FitsWord(s, R, q)
  {
    assert s != 0 ==> Abs(s) * (R * q) == R * q;
  }

  /**
    Generation of a DM bootstrapping key. It never fails; for a ternary secret whose modulus passes the
    cast, and parameters whose exponents fit their words, the key is ready for the gates.
  */
  method KeyGenAP(p: LweParams, params: RingGSWCryptoParams, sk: PrivateKey, skN: PrivateKey,
                  ksA: seq<seq<seq<seq<int>>>>, ksE: Errors, a: CellDraw, e: CellDraw,
                  ghost errs: CellDraw, ghost w: Secrets) returns (EK: BTKey)
    requires p.Valid() && DmParams(params) && params.N == p.N && params.Q == p.Q && params.q == p.q
    requires sk.Valid() && skN.Valid() && |sk.elements| == p.n && |skN.elements| == p.N && skN.modulus == p.Q
    requires Ternary(skN.Signed()) && (p.n + 1) * p.qKS <= WORD
    requires Draws(ksA, ksE, p.n, p.N, p.baseKS, p.DigitsKS(), p.qKS) && CellDraws(params, a, e, errs, w.E)
    requires w.s == sk.Signed() && w.z == skN.Signed()
    requires SameErrors(ksE, w.ksErrors, p.qKS) && ErrorsBounded(w.ksErrors, w.Eks)
    ensures EK.bs.HasKey? && EK.bs.key.Ap? && KeyFilled(params, EK.bs.key.cells, w.z, sk.Read(), w.E)
    ensures CastOk(sk.modulus) && Ternary(sk.Signed()) && TernaryFits(params.baseR, params.q) &&
            Pow2Base(params.baseG) && GadgetOk(p.Q, params.baseG, params.digitsG) && (2 * p.N) % p.q == 0 ==>
              ReadyDM(p, params, EK, w)
  {
    hide Draws, ValidKey, ValidDmKey, CellDraws, ErrorsBounded, SameErrors, PCong, KeyFilled, CastOk, FitsWord,
         Pow2Base, GadgetOk, DigitCount, Ternary, TernaryFits;
    var ks := KeySwitchGen(sk, skN, p.baseKS, p.qKS, ksA, ksE);
    KsErrorsTransfer(ks, w.s, w.z, p.baseKS, p.DigitsKS(), p.qKS, ksE, w.ksErrors);
    SignedCong(skN);
    var cells := KeyGenAccDM(params, skN.elements, sk, a, e, errs, w.E, w.z);
    if Ternary(sk.Signed()) && TernaryFits(params.baseR, params.q) {
      TernarySecretFits(sk.Signed(), params.baseR, params.q);
    }
    EK := BTKey(HasKey(Ap(cells)), ks);
  }

  lemma TernarySecretFits(s: seq<int>, R: nat, q: int)
    requires Ternary(s) && TernaryFits(R, q)
    ensures forall i :: 0 <= i < |s| ==> FitsWord(s[i], R, q)
  {
    forall i | 0 <= i < |s| ensures FitsWord(s[i], R, q) { TernaryEntryFits(s[i], R, q); }
  }
}
