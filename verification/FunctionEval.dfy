/** Lookup tables and evaluation of arbitrary functions (binfhe-base-scheme.cpp, binfhecontext.cpp). */
module FunctionEval {
  import opened Arith
  import opened Gadget
  import opened RgswParams
  import opened Lwe
  import opened Encryption
  import opened Bootstrapping
  import opened Gates
  import opened Functional

  // ----- the functions the code bootstraps with -----

  /** -q/4 or q/4 by the half of the circle (f0 and f1 in the code). */
  function SignQuarter(): Func { (x, q, Q) => if x < q / 2 then Q - q / 4 else q / 4 }

  function TableLookup(lut: seq<int>): Func { (x, q, Q) => At(lut, x) }

  /** The table on the lower half, negated on the upper half (fLUT1 and fLUT2 in the code). */
  function HalfTable(lut: seq<int>): Func { (x, q, Q) => if x < q / 2 then At(lut, x) else Q - At(lut, x - q / 2) }

  lemma SignQuarterAntiperiodic(h: nat, F: int)
    requires h > 0 && F >= 2 * h
    ensures Antiperiodic(SignQuarter(), h, F)
  {
    StrictAntiperiodic(SignQuarter(), h, F);
  }

  predicate TableIn(lut: seq<int>, F: int) { forall x :: 0 <= x < |lut| ==> 0 <= lut[x] <= F }

  lemma HalfTableAntiperiodic(lut: seq<int>, h: nat, F: int)
    requires h > 0 && F > 0 && TableIn(lut, F)
    ensures Antiperiodic(HalfTable(lut), h, F)
  {
    var f := HalfTable(lut);
    forall x | 0 <= x < h ensures 0 <= f(x, 2 * h, F) <= F && f(x + h, 2 * h, F) == F - f(x, 2 * h, F) {
      assert 2 * h / 2 == h;
    }
    StrictAntiperiodic(f, h, F);
  }

  // ----- classification of a table -----

  predicate NegacyclicTable(lut: seq<int>, mod: int) {
    var h := |lut| / 2; forall i :: 0 <= i < h ==> lut[i] == mod - lut[h + i]
  }

  predicate PeriodicTable(lut: seq<int>) {
    var h := |lut| / 2; forall i :: 0 <= i < h ==> lut[i] == lut[h + i]
  }

  /** What checkInputFunction answers. A periodic table that starts with mod/2 is classified as arbitrary. */
  function Verdict(lut: seq<int>, mod: int): nat
    requires |lut| >= 2
  {
    if NegacyclicTable(lut, mod) then 0 else if PeriodicTable(lut) && 2 * lut[0] != mod then 1 else 2
  }

  method CheckInputFunction(lut: seq<int>, mod: int) returns (ret: nat)
    requires |lut| >= 2
    ensures ret == Verdict(lut, mod) && ret <= 2
    ensures ret == 0 <==> forall i :: 0 <= i < |lut| / 2 ==> lut[i] + lut[|lut| / 2 + i] == mod
    ensures ret == 1 <==> 2 * lut[0] != mod && forall i :: 0 <= i < |lut| / 2 ==> lut[i] == lut[|lut| / 2 + i]
  {
    var h := |lut| / 2;
    ret := 0;
    if lut[0] == mod - lut[h] {
      var i := 1;
      while i < h
        invariant 1 <= i <= h && forall k :: 0 <= k < i ==> lut[k] == mod - lut[h + k]
      {
        if lut[i] != mod - lut[h + i] {
          ret := 2;
          assert lut[0] == lut[h + 0] ==> 2 * lut[0] == mod;
          return;
        }
        i := i + 1;
      }
    } else if lut[0] == lut[h] {
      ret := 1;
      assert lut[0] != mod - lut[h + 0];
      var i := 1;
      while i < h
        invariant 1 <= i <= h && forall k :: 0 <= k < i ==> lut[k] == lut[h + k]
      {
        if lut[i] != lut[h + i] {
          ret := 2;
          return;
        }
        i := i + 1;
      }
    } else {
      assert lut[0] != mod - lut[h + 0] && lut[0] != lut[h + 0];
      ret := 2;
    }
  }

  /** The gap in the classification: this table is periodic and is nevertheless sent to the arbitrary branch. */
  lemma PeriodicTableMissed()
    ensures PeriodicTable([4, 2, 4, 2]) && Verdict([4, 2, 4, 2], 8) == 2
  {
    assert [4, 2, 4, 2][1] != 8 - [4, 2, 4, 2][2 + 1];
  }

  /** Another gap: a table that is negacyclic only modulo 8, because two opposite entries are both 0. */
  lemma NegacyclicTableMissed()
    ensures Opposite(0, 0, 8) && Opposite(2, 6, 8) && Verdict([0, 2, 0, 6], 8) == 2
  {
    assert [0, 2, 0, 6][0] != 8 - [0, 2, 0, 6][2 + 0] && [0, 2, 0, 6][1] != [0, 2, 0, 6][2 + 1];
  }

  lemma NegacyclicAntiperiodic(lut: seq<int>, h: nat, F: int)
    requires h > 0 && F > 0 && |lut| == 2 * h && TableIn(lut, F) && NegacyclicTable(lut, F)
    ensures Antiperiodic(TableLookup(lut), h, F)
  {
    var f := TableLookup(lut);
    forall x | 0 <= x < h ensures 0 <= f(x, 2 * h, F) <= F && f(x + h, 2 * h, F) == F - f(x, 2 * h, F) {
      assert lut[x] == F - lut[|lut| / 2 + x];
    }
    StrictAntiperiodic(f, h, F);
  }

  // ----- tables from functions -----

  /** The table of g: constant on cells of the given width. */
  predicate StepTable(lut: seq<int>, g: int -> int, width: int) {
    width > 0 && forall x :: 0 <= x < |lut| ==> lut[x] == g(x / width) * width
  }

  /** Every tabulated value is below p. */
  predicate CellsBelow(f: (int, int) -> nat, p: nat, q: int, width: int)
    requires width > 0
  {
    forall i :: 0 <= i < q ==> f(i / width, p) < p
  }

  /**
    Tabulates f(., p) over cells of width q/p. Fails exactly when p is not a power of two
    or some tabulated value is not below p.
  */
  method GenerateLUTviaFunction(f: (int, int) -> nat, p: nat, q: nat) returns (r: Result<seq<int>>)
    requires 1 <= p <= q && p < 0x1_0000_0000
    ensures q / p > 0
    ensures r.Ok? <==> IsPow2(p) && CellsBelow(f, p, q, q / p)
    ensures r.Err? ==> r.error == NotImplementedError
    ensures r.Ok? ==> |r.value| == q && StepTable(r.value, x => f(x, p), q / p) && TableIn(r.value, q)
  {
    hide IsPow2, Pow, GBits, TableIn;
    DivMod(q, p);
    QuotientNonNegative(q, p);
    var interval := q / p;
    assert interval > 0;
    PowerOfTwoTest(p);
    if p > 1 && Pow(2, GBits(p)) != p { return Err(NotImplementedError); }
    var vec: seq<int> := [];
    EmptyTable(q);
    var i := 0;
    while i < q
      invariant 0 <= i <= q && |vec| == i && TableIn(vec, q)
      invariant forall k :: 0 <= k < i ==> f(k / interval, p) < p && vec[k] == f(k / interval, p) * interval
    {
      var temp := f(i / interval, p);
      if temp >= p { return Err(NotImplementedError); }
      TableGrows(vec, temp, interval, p, q);
      vec := vec + [temp * interval];
      i := i + 1;
    }
    return Ok(vec);
  }

  lemma PowerOfTwoTest(p: nat)
    requires 1 <= p < 0x1_0000_0000
    ensures IsPow2(p) <==> p == 1 || Pow(2, GBits(p)) == p
  {
    if p == 1 { assert Pow(2, 0) == 1; } else { PowerOfTwoBits(p); }
  }

  lemma EmptyTable(q: int)
    ensures TableIn([], q)
  {
  }

  lemma TableGrows(vec: seq<int>, temp: int, interval: int, p: int, q: int)
    requires TableIn(vec, q) && 0 <= temp < p && interval > 0 && interval * p <= q
    ensures TableIn(vec + [temp * interval], q)
  {
    MulMono(0, temp, interval);
    MulMono(temp, p, interval);
    MulComm(p, interval);
  }

  // ----- evaluation -----

  /** The cell of a shifted phase: half a cell plus an error smaller than that. */
  lemma CellOf(m: int, beta: int, d: int)
    requires beta > 0 && -beta < d < beta
    ensures (m * (2 * beta) + beta + d) / (2 * beta) == m
  {
    DivModUnique(m * (2 * beta) + beta + d, m, beta + d, 2 * beta);
  }

  lemma CellRange(m: int, beta: int, d: int, P: int)
    requires beta > 0 && -beta < d < beta && 0 <= m < P
    ensures 0 < m * (2 * beta) + beta + d < P * (2 * beta)
  {
    MulMono(0, m, 2 * beta);
    MulMono(m + 1, P, 2 * beta);
    MulDistrib(m, 1, 2 * beta);
  }

  /**
    The plaintext space P, the cell 2*beta and the modulus q = 2*beta*P that EvalFunc is defined for.
    The ring's transform accepts only power-of-two dimensions, and q divides 2N.
  */
  ghost predicate FuncParams(p: LweParams, q: int, beta: int, P: int) {
    && p.Valid() && IsPow2(p.N) && p.Q % 2 == 1 && beta > 0 && P > 0 && q == P * (2 * beta)
    && p.N % (q / 2) == 0
  }

  /** So the number of messages is a power of two, and q divides N when it does not exceed it. */
  lemma MessagesPow2(p: LweParams, q: int, beta: int, P: int)
    requires FuncParams(p, q, beta, P)
    ensures IsPow2(P) && (P == 1 || P % 2 == 0) && (q <= p.N ==> p.N % q == 0)
  {
    var e: nat :| Pow(2, e) == p.N;
    var h, k := q / 2, p.N / (q / 2);
    MulAssocInt(P, 2, beta);
    MulComm(P, 2);
    MulAssocInt(2, P, beta);
    MulAtLeast(P, beta);
    assert h == P * beta && q == 2 * h;
    DivMod(p.N, h);
    MulAtLeast(k, h);
    MulComm(k, h);
    Pow2Divisor(h, k, e);
    MulAssocInt(P, beta, k);
    MulAtLeast(beta, k);
    Pow2Divisor(P, beta * k, e);
    PowerOfTwoParity(P);
    if q <= p.N {
      assert Pow(2, 1) == 2;
      Pow2Mul(2, h);
      Pow2Quotient(q, p.N);
    }
  }

  lemma FuncParamsFacts(p: LweParams, q: int, beta: int, P: int)
    requires q == P * (2 * beta) && beta > 0 && P > 0 && p.Q % 2 == 1
    ensures q / 2 > 0 && q == 2 * (q / 2) && 0 < beta < q && (P > 1 ==> q > 2)
    ensures P % 2 == 0 ==> q / 2 == (P / 2) * (2 * beta)
    ensures p.Q % q != 0 && p.Q % (2 * q) != 0
  {
    MulAssocInt(P, 2, beta);
    MulComm(P, 2);
    MulAssocInt(2, P, beta);
    MulAtLeast(P, 2 * beta);
    if P > 1 { MulMono(2, P, 2 * beta); }
    if P % 2 == 0 { MulAssocInt(2, P / 2, 2 * beta); }
    OddNotMultiple(p.Q, q, q / 2);
    OddNotMultiple(p.Q, 2 * q, q);
  }

  lemma OddNotMultiple(Q: int, m: int, h: int)
    requires Q % 2 == 1 && m > 0 && m == 2 * h
    ensures Q % m != 0
  {
    DivMod(Q, m);
    MulAssocInt(Q / m, 2, h);
    MulComm(Q / m, 2);
    MulAssocInt(2, Q / m, h);
  }

  /** The phase of message m, shifted by beta, lies in m's cell. */
  lemma ShiftedCell(x: int, m: int, beta: int, P: int, q: int, e: int)
    requires beta > 0 && q == P * (2 * beta) && 0 <= m < P && -beta < e < beta && Cong(x, m * (2 * beta) + beta + e, q)
    ensures x % q == m * (2 * beta) + beta + e && (x % q) / (2 * beta) == m
  {
    CellRange(m, beta, e, P);
    CellOf(m, beta, e);
    CongResidue(x, m * (2 * beta) + beta + e, q);
  }

  /**
    Subtracting the half circle's sign moves every phase to the lower half without leaving its
    cell: message m of 2H becomes m or m - H, and the bootstrap's own error p2 is all that is added.
  */
  lemma FoldCell(x: int, x1: int, p2: int, y: int, m: int, beta: int, H: int, h: int, t: int, v: int)
    requires beta > 0 && H > 0 && h == H * (2 * beta) && 0 <= m < 2 * H && t >= 0 && v >= 0 && t + v < beta
    requires Near(x, m * (2 * beta), 2 * h, t) && Cong(x1, x + beta, 2 * h)
    requires Near(p2, SignQuarter()(x1 % (2 * h), 2 * h, 2 * h), 2 * h, v)
    requires Cong(y, x - p2 + beta - 2 * h / 4, 2 * h)
    ensures 0 <= y % (2 * h) < h && (y % (2 * h)) / (2 * beta) == if m < H then m else m - H
  {
    var M := 2 * h;
    MulAssocInt(2, H, 2 * beta);
    MulAtLeast(H, 2 * beta);
    var e := NearError(x, m * (2 * beta), M, t);
    var e2 := NearError(p2, SignQuarter()(x1 % M, M, M), M, v);
    CongRefl(beta, M);
    CongAdd(x, m * (2 * beta) + e, beta, beta, M);
    CongTrans(x1, x + beta, m * (2 * beta) + e + beta, M);
    ShiftedCell(x1, m, beta, 2 * H, M, e);
    HalfOfCell(m, beta, e, H, h);
    QuarterOf(h, H, beta);
    var k, f := (if m < H then m else m - H), SignQuarter()(x1 % M, M, M);
    CongAdd(x, m * (2 * beta) + e, p2, f + e2, M);
    CongRefl(beta - 2 * h / 4, M);
    CongAdd(x - p2, m * (2 * beta) + e - (f + e2), beta - 2 * h / 4, beta - 2 * h / 4, M);
    CongTrans(y, x - p2 + (beta - 2 * h / 4), m * (2 * beta) + e - (f + e2) + (beta - 2 * h / 4), M);
    MulDistrib(m, H, 2 * beta);
    CongOf(m * (2 * beta) + e - (f + e2) + (beta - 2 * h / 4), k * (2 * beta) + beta + (e - e2),
           if m < H then -1 else 0, M);
    CongTrans(y, m * (2 * beta) + e - (f + e2) + (beta - 2 * h / 4), k * (2 * beta) + beta + (e - e2), M);
    ShiftedCell(y, k, beta, 2 * H, M, e - e2);
    CellRange(k, beta, e - e2, H);
  }

  lemma HalfOfCell(m: int, beta: int, e: int, H: int, h: int)
    requires beta > 0 && -beta < e < beta && h == H * (2 * beta)
    ensures m * (2 * beta) + beta + e < h <==> m < H
  {
    MulDistrib(m, H, 2 * beta);
    MulAtLeast(m - H, 2 * beta);
  }

  lemma QuarterOf(h: int, H: int, beta: int)
    requires h == H * (2 * beta)
    ensures 2 * h / 2 == h && 2 * (2 * h / 4) == h
  {
    MulAssocInt(H, 2, beta);
    MulComm(H, 2);
    MulAssocInt(2, H, beta);
  }

  /** The table entry at a phase in the cell of m is g(m) times the cell width. */
  lemma TableEntry(lut: seq<int>, g: int -> int, beta: int, y: int, m: int)
    requires StepTable(lut, g, 2 * beta) && 0 <= y < |lut| && y / (2 * beta) == m
    ensures At(lut, y) == g(m) * (2 * beta)
  {
  }

  predicate Shaped(p: LweParams, c: Cipher, M: int) { c.Valid() && |c.a| == p.n && c.modulus == M }

  /** The conditions under which folding keeps a message of 2H cells of width 2*beta in its cell. */
  ghost predicate Foldable(lut: seq<int>, g: int -> int, beta: int, H: nat, h: nat, m: int, x: int, t: nat, v: int) {
    && H > 0 && h == H * (2 * beta) && h <= |lut| && StepTable(lut, g, 2 * beta)
    && 0 <= m < 2 * H && Near(x, m * (2 * beta), 2 * h, t) && t + v < beta
  }

  /**
    Folds the phase into the lower half circle and looks it up there: both the periodic and
    the arbitrary branch of EvalFunc. The first bootstrap's error only has to stay inside the cell.
    In any case the result is the value of the half table at some point y.
  */
  method EvalFolded(p: LweParams, params: RingGSWCryptoParams, EK: BTKey, ct: LWECiphertext, lut: seq<int>, beta: int,
                    ghost H: nat, ghost h: nat, ghost g: int -> int, ghost m: int, ghost t: nat, ghost w: Secrets)
    returns (r: Result<LWECiphertext>, ghost y: int)
    requires p.Valid() && FuncInput(p, ct.Value(), h) && p.Q % (2 * h) != 0 && 0 < beta < 2 * h
    requires TableIn(lut, 2 * h)
    requires EK.bs.HasKey? ==> Ready(p, params, EK, w)
    ensures r.Err? <==> EK.bs.NoKey?
    ensures r.Err? ==> r.error == ConfigError
    ensures r.Ok? ==> fresh(r.value) && Shaped(p, r.value.Value(), 2 * h)
    ensures r.Ok? ==> 0 <= y < 2 * h && Holds(p, r.value.Value(), w.s, 2 * h, HalfTable(lut)(y, 2 * h, 2 * h),
                                              FuncNoise(p, 2 * h, params.baseG, params.digitsG, w.E, w.Eks))
    ensures r.Ok? ==> var v := FuncNoise(p, 2 * h, params.baseG, params.digitsG, w.E, w.Eks);
              Foldable(lut, g, beta, H, h, m, Phase(ct.Value(), w.s), t, v) ==>
                Holds(p, r.value.Value(), w.s, 2 * h, g(if m < H then m else m - H) * (2 * beta), v)
  {
    hide Ready, Near, Phase, StepTable, TableIn, Antiperiodic, SignQuarter, HalfTable, FuncNoise, Foldable;
    y := 0;
    HalfTableAntiperiodic(lut, h, ct.modulus);
    var folded, x1, p2 := Fold(p, params, EK, ct, beta, h, w);
    if folded.Err? { return folded, 0; }
    var ct2 := folded.value;
    r := BootstrapFunc(p, params, EK, ct2, HalfTable(lut), ct.modulus, h, w);
    if r.Err? { return; }
    ghost var z := Phase(ct2.Value(), w.s);
    y := z % (2 * h);
    DivMod(z, 2 * h);
    ghost var v := FuncNoise(p, 2 * h, params.baseG, params.digitsG, w.E, w.Eks);
    if Foldable(lut, g, beta, H, h, m, Phase(ct.Value(), w.s), t, v) {
      FuncNoisePositive(p, 2 * h, params.baseG, params.digitsG, w.E, w.Eks);
      FoldedEntry(lut, g, Phase(ct.Value(), w.s), x1, p2, z, m, beta, H, h, t, v);
    }
  }

  /** Subtracts the bootstrapped sign of the shifted phase, and centres: ct - sign + beta - M/4. */
  method Fold(p: LweParams, params: RingGSWCryptoParams, EK: BTKey, ct: LWECiphertext, beta: int, ghost h: nat,
              ghost w: Secrets)
    returns (r: Result<LWECiphertext>, ghost x1: int, ghost p2: int)
    requires p.Valid() && FuncInput(p, ct.Value(), h) && p.Q % (2 * h) != 0 && 0 < beta < 2 * h
    requires EK.bs.HasKey? ==> Ready(p, params, EK, w)
    ensures r.Err? <==> EK.bs.NoKey?
    ensures r.Err? ==> r.error == ConfigError
    ensures r.Ok? ==> fresh(r.value) && FuncInput(p, r.value.Value(), h) && h > 0
    ensures r.Ok? ==> Cong(x1, Phase(ct.Value(), w.s) + beta, 2 * h)
    ensures r.Ok? ==> Near(p2, SignQuarter()(x1 % (2 * h), 2 * h, 2 * h), 2 * h,
                           FuncNoise(p, 2 * h, params.baseG, params.digitsG, w.E, w.Eks))
    ensures r.Ok? ==> Cong(Phase(r.value.Value(), w.s), Phase(ct.Value(), w.s) - p2 + beta - 2 * h / 4, 2 * h)
  {
    hide Ready, Near, Phase, Antiperiodic, SignQuarter, AddConstV, SubConstV, SubV, FuncNoise;
    var M := ct.modulus;
    x1, p2 := 0, 0;
    SignQuarterAntiperiodic(h, M);
    var ct1 := new LWECiphertext(ct.Value());
    EvalAddConstEq(ct1, beta);
    var r2 := BootstrapFunc(p, params, EK, ct1, SignQuarter(), M, h, w);
    if r2.Err? { return r2, 0, 0; }
    ReadySecret(p, params, EK, w);
    var ct2 := r2.value;
    ghost var c2 := ct2.Value();
    x1, p2 := Phase(ct1.Value(), w.s), Phase(c2, w.s);
    var ok := EvalSubEq2(ct, ct2);
    EvalAddConstEq(ct2, beta);
    EvalSubConstEq(ct2, M / 4);
    ConstPhase(ct.Value(), beta, w.s);
    FoldPhase(ct.Value(), c2, beta, w.s, M);
    r := Ok(ct2);
  }

  lemma FuncNoisePositive(p: LweParams, F: int, base: nat, k: nat, E: nat, Eks: nat)
    requires p.Valid() && F > 0
    ensures FuncNoise(p, F, base, k, E, Eks) >= 0
  {
    BootNoisePositive(p, F, AccBound(p, base, k, E), Eks, p.Q % F);
  }

  /** The phase of (c - d) + beta - M/4. */
  lemma FoldPhase(c: Cipher, d: Cipher, beta: int, s: seq<int>, M: int)
    requires c.Valid() && d.Valid() && Compatible(c, d) && |s| == |c.a| && M == c.modulus && 0 <= beta < M
    ensures Cong(Phase(SubConstV(AddConstV(SubV(c, d), beta), M / 4), s), Phase(c, s) - Phase(d, s) + beta - M / 4, M)
  {
    hide Phase, SubV, AddConstV, SubConstV;
    var c1 := SubV(c, d);
    var c2 := AddConstV(c1, beta);
    SubPhase(c, d, s);
    ConstPhase(c1, beta, s);
    ConstPhase(c2, M / 4, s);
    CongRefl(beta, M);
    CongRefl(M / 4, M);
    CongAdd(Phase(c1, s), Phase(c, s) - Phase(d, s), beta, beta, M);
    CongTrans(Phase(c2, s), Phase(c1, s) + beta, Phase(c, s) - Phase(d, s) + beta, M);
    CongAdd(Phase(c2, s), Phase(c, s) - Phase(d, s) + beta, M / 4, M / 4, M);
    CongTrans(Phase(SubConstV(c2, M / 4), s), Phase(c2, s) - M / 4, Phase(c, s) - Phase(d, s) + beta - M / 4, M);
  }

  lemma FoldedEntry(lut: seq<int>, g: int -> int, x: int, x1: int, p2: int, y: int, m: int, beta: int, H: nat, h: nat,
                    t: nat, v: int)
    requires beta > 0 && v >= 0 && h > 0 && Foldable(lut, g, beta, H, h, m, x, t, v) && Cong(x1, x + beta, 2 * h)
    requires Near(p2, SignQuarter()(x1 % (2 * h), 2 * h, 2 * h), 2 * h, v)
    requires Cong(y, x - p2 + beta - 2 * h / 4, 2 * h)
    ensures HalfTable(lut)(y % (2 * h), 2 * h, 2 * h) == g(if m < H then m else m - H) * (2 * beta)
  {
    hide StepTable, Near, SignQuarter, HalfTable;
    FoldCell(x, x1, p2, y, m, beta, H, h, t, v);
    HalfTableEntry(lut, g, beta, y % (2 * h), if m < H then m else m - H, h);
  }

  lemma HalfTableEntry(lut: seq<int>, g: int -> int, beta: int, y: int, m: int, h: nat)
    requires StepTable(lut, g, 2 * beta) && 0 <= y < h <= |lut| && y / (2 * beta) == m
    ensures HalfTable(lut)(y, 2 * h, 2 * h) == g(m) * (2 * beta)
  {
    TableEntry(lut, g, beta, y, m);
  }

  /** In a periodic table, g has period P/2. */
  lemma PeriodicMessage(lut: seq<int>, g: int -> int, beta: int, P: int, m: int)
    requires beta > 0 && P > 0 && P % 2 == 0 && |lut| == P * (2 * beta) && StepTable(lut, g, 2 * beta) &&
             PeriodicTable(lut)
    requires 0 <= m < P / 2
    ensures g(m) == g(m + P / 2)
  {
    var y, h := m * (2 * beta), (P / 2) * (2 * beta);
    DivMod(P, 2);
    MulAssocInt(2, P / 2, 2 * beta);
    MulMono(0, m, 2 * beta);
    MulMono(m + 1, P / 2, 2 * beta);
    MulDistrib(m, 1, 2 * beta);
    MulDistrib(m, P / 2, 2 * beta);
    DivModUnique(y, m, 0, 2 * beta);
    DivModUnique(y + h, m + P / 2, 0, 2 * beta);
    assert |lut| / 2 == h && lut[y] == lut[h + y];
    CancelScale(g(m), g(m + P / 2), 2 * beta);
  }

  lemma CancelScale(x: int, y: int, c: int)
    requires c > 0 && x * c == y * c
    ensures x == y
  {
    MulDistrib(x, y, c);
    MulAtLeast(x - y, c);
  }

  /** Noise of the branch that a table takes, and the room it needs. */
  ghost function BranchNoise(p: LweParams, verdict: nat, q: int, base: nat, k: nat, w: Secrets): int
    requires p.Valid() && q > 0
  {
    FuncNoise(p, if verdict == 2 then 2 * q else q, base, k, w.E, w.Eks)
  }

  /**
    Evaluates a table of g on a ciphertext of m. It fails exactly for an arbitrary table with
    q > N, or without a key. Otherwise the result encrypts g(m) with the noise of a fresh
    bootstrap, whichever branch the table takes, provided the input's noise t stays in its cell,
    together with one bootstrap's noise when the branch bootstraps twice.
  */
  method EvalFunc(p: LweParams, params: RingGSWCryptoParams, EK: BTKey, ct: LWECiphertext, lut: seq<int>, beta: int,
                  ghost P: nat, ghost g: int -> int, ghost m: int, ghost t: nat, ghost w: Secrets)
    returns (r: Result<LWECiphertext>)
    requires FuncParams(p, ct.modulus, beta, P) && Shaped(p, ct.Value(), ct.modulus)
    requires |lut| == ct.modulus && TableIn(lut, ct.modulus) && StepTable(lut, g, 2 * beta)
    requires EK.bs.HasKey? ==> Ready(p, params, EK, w)
    requires 0 <= m < P && Near(Phase(ct.Value(), w.s), m * (2 * beta), ct.modulus, t)
    ensures |lut| >= 2
    ensures r.Err? <==> (Verdict(lut, ct.modulus) == 2 && ct.modulus > p.N) || EK.bs.NoKey?
    ensures r.Err? ==>
              r.error == if Verdict(lut, ct.modulus) == 2 && ct.modulus > p.N then NotImplementedError else ConfigError
    ensures r.Ok? ==> fresh(r.value)
    ensures r.Ok? ==>
              var v := BranchNoise(p, Verdict(lut, ct.modulus), ct.modulus, params.baseG, params.digitsG, w);
              t + (if Verdict(lut, ct.modulus) == 0 then 0 else v) < beta ==>
                Holds(p, r.value.Value(), w.s, ct.modulus, g(m) * (2 * beta), v)
  {
    hide Ready, Near, Phase, StepTable, TableIn, Antiperiodic, HalfTable, AddConstV, FuncNoise;
    var q := ct.modulus;
    FuncParamsFacts(p, q, beta, P);
    MessagesPow2(p, q, beta, P);
    if P == 1 { OneMessage(lut, g, beta); }
    var functionProperty := CheckInputFunction(lut, q);
    if functionProperty == 0 {
      r := EvalDirect(p, params, EK, ct, lut, beta, P, g, m, t, w);
    } else if functionProperty == 2 {
      if q > p.N { return Err(NotImplementedError); }
      r := EvalDoubled(p, params, EK, ct, lut, beta, P, g, m, t, w);
    } else {
      ghost var h, y := q / 2, 0;
      r, y := EvalFolded(p, params, EK, ct, lut, beta, P / 2, h, g, m, t, w);
      if r.Ok? && P == 1 {
        OneMessageValue(lut, g, beta, y);
        HoldsCong(p, r.value.Value(), w.s, q, HalfTable(lut)(y, q, q), g(0) * (2 * beta),
                  FuncNoise(p, q, params.baseG, params.digitsG, w.E, w.Eks));
      } else if P % 2 == 0 && m >= P / 2 {
        PeriodicMessage(lut, g, beta, P, m - P / 2);
      }
    }
  }

  /** The one-message space: its table is classified as periodic. */
  lemma OneMessage(lut: seq<int>, g: int -> int, beta: int)
    requires beta > 0 && |lut| == 2 * beta && StepTable(lut, g, 2 * beta)
    ensures Verdict(lut, |lut|) == 1
  {
    var c := g(0) * (2 * beta);
    forall x | 0 <= x < |lut| ensures lut[x] == c { ModSmall(x, 2 * beta); }
    MulAssocInt(2, g(0), 2 * beta);
    MulDistrib(2 * g(0), 1, 2 * beta);
    MulAtLeast(2 * g(0) - 1, 2 * beta);
    assert lut[0] != |lut| - lut[|lut| / 2 + 0];
  }

  /** Over the one-message space every value of the half table is 0 modulo q, as is the only message's. */
  lemma OneMessageValue(lut: seq<int>, g: int -> int, beta: int, y: int)
    requires beta > 0 && |lut| == 2 * beta && StepTable(lut, g, 2 * beta) && 0 <= y < 2 * beta
    ensures Cong(HalfTable(lut)(y, 2 * beta, 2 * beta), g(0) * (2 * beta), 2 * beta)
  {
    var q, x := 2 * beta, if y < beta then y else y - beta;
    ModSmall(x, q);
    assert q / 2 == beta && At(lut, x) == g(0) * q;
    MulDistrib(g(0), g(0), q);
    CongOf(HalfTable(lut)(y, q, q), g(0) * q, if y < beta then 0 else 1 - 2 * g(0), q);
  }

  lemma HoldsCong(p: LweParams, c: Cipher, s: seq<int>, F: int, x: int, y: int, v: int)
    requires Holds(p, c, s, F, x, v) && Cong(x, y, F)
    ensures Holds(p, c, s, F, y, v)
  {
    NearReplace(Phase(c, s), x, y, F, v);
  }

  /** The negacyclic branch: one bootstrap. */
  method EvalDirect(p: LweParams, params: RingGSWCryptoParams, EK: BTKey, ct: LWECiphertext, lut: seq<int>, beta: int,
                    ghost P: nat, ghost g: int -> int, ghost m: int, ghost t: nat, ghost w: Secrets)
    returns (r: Result<LWECiphertext>)
    requires FuncParams(p, ct.modulus, beta, P) && Shaped(p, ct.Value(), ct.modulus)
    requires |lut| == ct.modulus && TableIn(lut, ct.modulus) && StepTable(lut, g, 2 * beta) &&
             NegacyclicTable(lut, ct.modulus)
    requires EK.bs.HasKey? ==> Ready(p, params, EK, w)
    requires 0 <= m < P && Near(Phase(ct.Value(), w.s), m * (2 * beta), ct.modulus, t)
    ensures r.Err? <==> EK.bs.NoKey?
    ensures r.Err? ==> r.error == ConfigError
    ensures r.Ok? ==> fresh(r.value)
    ensures r.Ok? && t < beta ==> Holds(p, r.value.Value(), w.s, ct.modulus, g(m) * (2 * beta),
                                        FuncNoise(p, ct.modulus, params.baseG, params.digitsG, w.E, w.Eks))
  {
    hide Ready, Near, Phase, StepTable, TableIn, Antiperiodic, AddConstV, FuncNoise, NegacyclicTable;
    var q := ct.modulus;
    FuncParamsFacts(p, q, beta, P);
    ghost var h := q / 2;
    NegacyclicAntiperiodic(lut, h, q);
    var ct1 := new LWECiphertext(ct.Value());
    EvalAddConstEq(ct1, beta);
    r := BootstrapFunc(p, params, EK, ct1, TableLookup(lut), q, h, w);
    if r.Ok? && t < beta {
      ReadySecret(p, params, EK, w);
      ConstPhase(ct.Value(), beta, w.s);
      NearCell(Phase(ct.Value(), w.s), Phase(ct1.Value(), w.s), m, beta, P, q, t);
      TableEntry(lut, g, beta, Phase(ct1.Value(), w.s) % q, m);
    }
  }

  lemma NearCell(x: int, x1: int, m: int, beta: int, P: int, q: int, t: nat)
    requires beta > 0 && q == P * (2 * beta) && 0 <= m < P && t < beta
    requires Near(x, m * (2 * beta), q, t) && Cong(x1, x + beta, q)
    ensures q > 0 && 0 <= x1 % q < q && (x1 % q) / (2 * beta) == m
  {
    var e := NearError(x, m * (2 * beta), q, t);
    CongRefl(beta, q);
    CongAdd(x, m * (2 * beta) + e, beta, beta, q);
    CongTrans(x1, x + beta, m * (2 * beta) + e + beta, q);
    MulAtLeast(P, 2 * beta);
    ShiftedCell(x1, m, beta, P, q, e);
    DivMod(x1, q);
  }

  /** The arbitrary branch: the ciphertext is reread modulo 2q and the table repeated. */
  method EvalDoubled(p: LweParams, params: RingGSWCryptoParams, EK: BTKey, ct: LWECiphertext, lut: seq<int>, beta: int,
                     ghost P: nat, ghost g: int -> int, ghost m: int, ghost t: nat, ghost w: Secrets)
    returns (r: Result<LWECiphertext>)
    requires FuncParams(p, ct.modulus, beta, P) && Shaped(p, ct.Value(), ct.modulus) && ct.modulus <= p.N && P > 1
    requires |lut| == ct.modulus && TableIn(lut, ct.modulus) && StepTable(lut, g, 2 * beta)
    requires EK.bs.HasKey? ==> Ready(p, params, EK, w)
    requires 0 <= m < P && Near(Phase(ct.Value(), w.s), m * (2 * beta), ct.modulus, t)
    ensures r.Err? <==> EK.bs.NoKey?
    ensures r.Err? ==> r.error == ConfigError
    ensures r.Ok? ==> fresh(r.value)
    ensures r.Ok? ==> var v := FuncNoise(p, 2 * ct.modulus, params.baseG, params.digitsG, w.E, w.Eks);
              t + v < beta ==> Holds(p, r.value.Value(), w.s, ct.modulus, g(m) * (2 * beta), v)
  {
    hide Ready, Near, FuncNoise, StepTable, TableIn, ChangeModulusV, Foldable, HalfTable, RepeatedFunction, Dot;
    var q := ct.modulus;
    FuncParamsFacts(p, q, beta, P);
    MessagesPow2(p, q, beta, P);
    var lut2 := lut + lut;
    var dq := 2 * q;
    var ct1 := new LWECiphertext(ct.Value());
    ct1.modulus := dq;
    ghost var x := Phase(ct.Value(), w.s);
    ghost var k := DoubledMessage(x, m, beta, P, q, t);
    RereadShape(p, ct.Value());
    RepeatedTable(lut, g, beta, P, m);
    ghost var g2, y := RepeatedFunction(g, P), 0;
    r, y := EvalFolded(p, params, EK, ct1, lut2, beta, P, q, g2, k, t, w);
    if r.Err? { return; }
    ghost var c := r.value.Value();
    r.value.SetModulus(q);
    ghost var v := FuncNoise(p, dq, params.baseG, params.digitsG, w.E, w.Eks);
    if t + v < beta {
      DoubledFoldable(lut2, g, g2, beta, P, q, m, k, x, t, v);
      ReadySecret(p, params, EK, w);
      ChangeModulusNear(c, q, w.s, g(m) * (2 * beta), v);
    }
  }

  lemma DoubledFoldable(lut2: seq<int>, g: int -> int, g2: int -> int, beta: int, P: nat, q: nat, m: int, k: int,
                        x: int, t: nat, v: int)
    requires P > 0 && beta > 0 && q == P * (2 * beta) && q <= |lut2| && StepTable(lut2, g2, 2 * beta) &&
             g2 == RepeatedFunction(g, P)
    requires 0 <= m < P && (k == m || k == m + P) && Near(x, k * (2 * beta), 2 * q, t) && t + v < beta
    ensures Foldable(lut2, g2, beta, P, q, k, x, t, v) && g2(if k < P then k else k - P) == g(m)
  {
    hide StepTable, Near;
  }

  function RepeatedFunction(g: int -> int, P: nat): int -> int { x => if x < P then g(x) else g(x - P) }

  lemma RereadShape(p: LweParams, c: Cipher)
    requires c.Valid()
    ensures c.(modulus := 2 * c.modulus).Valid()
  {
  }

  lemma ChangeModulusNear(c: Cipher, q: int, s: seq<int>, y: int, v: int)
    requires c.Valid() && q > 2 && c.modulus == 2 * q && |s| == |c.a| && Near(Phase(c, s), y, 2 * q, v)
    ensures Near(Phase(ChangeModulusV(c, q), s), y, q, v)
  {
    ChangeModulusPhase(c, q, 2, s);
    var e := NearError(Phase(c, s), y, 2 * q, v);
    CongCoarser(Phase(c, s), y + e, 2, q);
    CongTrans(Phase(ChangeModulusV(c, q), s), Phase(c, s), y + e, q);
    NearFromCong(Phase(ChangeModulusV(c, q), s), y, e, q, v);
  }

  /** Read modulo 2q, a ciphertext of m encrypts m or m + P. */
  lemma DoubledMessage(x: int, m: int, beta: int, P: int, q: int, t: nat) returns (k: int)
    requires q == P * (2 * beta) && Near(x, m * (2 * beta), q, t)
    ensures (k == m || k == m + P) && Near(x, k * (2 * beta), 2 * q, t)
  {
    var j := NearWitness(x, m * (2 * beta), q, t);
    var i, r := j / 2, j % 2;
    DivMod(j, 2);
    HalveTurns(j, q, i, r);
    if r == 0 {
      k := m;
      NearOf(x, m * (2 * beta), i, 2 * q, t);
    } else {
      k := m + P;
      MulDistrib(m, P, 2 * beta);
      assert r == 1 && r * q == q;
      var y := m * (2 * beta) + q;
      NearOf(x, y, i, 2 * q, t);
    }
  }

  lemma HalveTurns(j: int, q: int, i: int, r: int)
    requires j == i * 2 + r
    ensures j * q == i * (2 * q) + r * q
  {
    MulDistrib(i * 2, r, q);
    MulAssocInt(i, 2, q);
  }

  lemma RepeatedTable(lut: seq<int>, g: int -> int, beta: int, P: nat, m: int)
    requires beta > 0 && |lut| == P * (2 * beta) && StepTable(lut, g, 2 * beta) && TableIn(lut, |lut|)
    ensures StepTable(lut + lut, RepeatedFunction(g, P), 2 * beta) && TableIn(lut + lut, 2 * |lut|)
  {
    var lut2, g2, q := lut + lut, RepeatedFunction(g, P), |lut|;
    forall x | 0 <= x < |lut2| ensures lut2[x] == g2(x / (2 * beta)) * (2 * beta) {
      var y := if x < q then x else x - q;
      assert lut2[x] == lut[y];
      DivMod(y, 2 * beta);
      CellBelow(y, 2 * beta, P);
      MulDistrib(y / (2 * beta), P, 2 * beta);
      if x >= q { DivModUnique(x, y / (2 * beta) + P, y % (2 * beta), 2 * beta); }
    }
  }

  lemma CellBelow(y: int, c: int, P: int)
    requires c > 0 && 0 <= y < P * c
    ensures 0 <= y / c < P
  {
    DivMod(y, c);
    MulDistrib(y / c, P, c);
    MulAtLeast(y / c - P, c);
    MulAtLeast(y / c, c);
    if y / c >= P { MulMono(P, y / c, c); }
  }

  /** The result of EvalFunc decrypts to g(m), with plaintext modulus P, when the noise is below beta. */
  lemma FuncDecodes(p: LweParams, c: Cipher, s: seq<int>, y: int, beta: int, P: nat, v: int)
    requires beta > 0 && P > 0 && 0 <= y < P && v < beta && Holds(p, c, s, P * (2 * beta), y * (2 * beta), v)
    ensures c.modulus > 0 && Decode(Phase(c, s) % c.modulus, P, c.modulus) == y
  {
    hide Phase, Decode;
    MulComm(P, 2 * beta);
    var e := NearError(Phase(c, s), y * (2 * beta), P * (2 * beta), v);
    MulMono(1, P, beta);
    DecodeExactly(Phase(c, s), y, P, beta, e);
  }

  predicate NegacyclicFunction(f: (int, int) -> nat, P: nat) {
    forall x :: 0 <= x < P / 2 ==> f(x, P) + f(x + P / 2, P) == P
  }

  predicate PeriodicFunction(f: (int, int) -> nat, P: nat) {
    forall x :: 0 <= x < P / 2 ==> f(x, P) == f(x + P / 2, P)
  }

  /** The functions that need only moduli up to q: negacyclic ones, and periodic ones recognised as such. */
  predicate WithinModulus(f: (int, int) -> nat, P: nat) {
    NegacyclicFunction(f, P) || (PeriodicFunction(f, P) && 2 * f(0, P) != P)
  }

  /** The cells of i and i + q/2, for an even number of messages. */
  lemma OppositeCell(i: int, beta: int, P: nat)
    requires beta > 0 && P % 2 == 0 && 0 <= i < (P / 2) * (2 * beta)
    ensures 0 <= i / (2 * beta) < P / 2 && (i + (P / 2) * (2 * beta)) / (2 * beta) == i / (2 * beta) + P / 2
  {
    CellBelow(i, 2 * beta, P / 2);
    DivMod(i, 2 * beta);
    MulDistrib(i / (2 * beta), P / 2, 2 * beta);
    DivModUnique(i + (P / 2) * (2 * beta), i / (2 * beta) + P / 2, i % (2 * beta), 2 * beta);
  }

  /** The table of f gets verdict 2 exactly when f is not within the modulus. */
  lemma VerdictOfFunction(lut: seq<int>, f: (int, int) -> nat, beta: int, P: nat)
    requires beta > 0 && P > 0 && (P == 1 || P % 2 == 0) && |lut| == P * (2 * beta) &&
             StepTable(lut, x => f(x, P), 2 * beta)
    ensures |lut| >= 2 && (Verdict(lut, |lut|) != 2 <==> WithinModulus(f, P))
  {
    MulAtLeast(P, 2 * beta);
    if P == 1 {
      OneMessage(lut, x => f(x, P), beta);
      assert NegacyclicFunction(f, P);
    } else {
      TableOfFunction(lut, f, beta, P);
    }
  }

  /** The entries of opposite cells. */
  lemma CellPair(lut: seq<int>, f: (int, int) -> nat, beta: int, P: nat, i: int)
    requires beta > 0 && P > 0 && P % 2 == 0 && |lut| == P * (2 * beta) && StepTable(lut, x => f(x, P), 2 * beta)
    requires 0 <= i < |lut| / 2
    ensures var x, h := i / (2 * beta), |lut| / 2;
            && 0 <= x < P / 2
            && (lut[i] == |lut| - lut[h + i] <==> f(x, P) + f(x + P / 2, P) == P)
            && (lut[i] == lut[h + i] <==> f(x, P) == f(x + P / 2, P))
  {
    var c, h := 2 * beta, |lut| / 2;
    MulAssocInt(2, P / 2, c);
    assert h == (P / 2) * c;
    OppositeCell(i, beta, P);
    assert lut[i] == f(i / c, P) * c && lut[h + i] == f(i / c + P / 2, P) * c;
    hide StepTable;
    ScaledSum(f(i / c, P), f(i / c + P / 2, P), P, c);
  }

  /** The first point of cell x. */
  lemma CellStart(beta: int, P: nat, x: int, q: int)
    requires beta > 0 && P % 2 == 0 && 0 <= x < P / 2 && q == P * (2 * beta)
    ensures 0 <= x * (2 * beta) < q / 2 && x * (2 * beta) / (2 * beta) == x
  {
    var c := 2 * beta;
    MulAssocInt(2, P / 2, c);
    MulMono(0, x, c);
    MulMono(x + 1, P / 2, c);
    MulDistrib(x, 1, c);
    DivModUnique(x * c, x, 0, c);
  }

  lemma TableOfFunction(lut: seq<int>, f: (int, int) -> nat, beta: int, P: nat)
    requires beta > 0 && P > 0 && P % 2 == 0 && |lut| == P * (2 * beta) && StepTable(lut, x => f(x, P), 2 * beta)
    ensures NegacyclicTable(lut, |lut|) <==> NegacyclicFunction(f, P)
    ensures PeriodicTable(lut) <==> PeriodicFunction(f, P)
    ensures |lut| > 0 && (2 * lut[0] == |lut| <==> 2 * f(0, P) == P)
  {
    FirstEntry(lut, f, beta, P);
    hide StepTable;
    var h := |lut| / 2;
    if NegacyclicFunction(f, P) {
      forall i | 0 <= i < h ensures lut[i] == |lut| - lut[h + i] { CellPair(lut, f, beta, P, i); }
    }
    if PeriodicFunction(f, P) {
      forall i | 0 <= i < h ensures lut[i] == lut[h + i] { CellPair(lut, f, beta, P, i); }
    }
    TableToFunction(lut, f, beta, P);
  }

  lemma FirstEntry(lut: seq<int>, f: (int, int) -> nat, beta: int, P: nat)
    requires beta > 0 && P > 0 && |lut| == P * (2 * beta) && StepTable(lut, x => f(x, P), 2 * beta)
    ensures |lut| > 0 && (2 * lut[0] == |lut| <==> 2 * f(0, P) == P)
  {
    MulAtLeast(P, 2 * beta);
    ModSmall(0, 2 * beta);
    ScaledSum(f(0, P), f(0, P), P, 2 * beta);
  }

  lemma TableToFunction(lut: seq<int>, f: (int, int) -> nat, beta: int, P: nat)
    requires beta > 0 && P > 0 && P % 2 == 0 && |lut| == P * (2 * beta) && StepTable(lut, x => f(x, P), 2 * beta)
    ensures NegacyclicTable(lut, |lut|) ==> NegacyclicFunction(f, P)
    ensures PeriodicTable(lut) ==> PeriodicFunction(f, P)
  {
    hide StepTable;
    forall x | 0 <= x < P / 2
      ensures NegacyclicTable(lut, |lut|) ==> f(x, P) + f(x + P / 2, P) == P
      ensures PeriodicTable(lut) ==> f(x, P) == f(x + P / 2, P)
    {
      CellStart(beta, P, x, |lut|);
      CellPair(lut, f, beta, P, x * (2 * beta));
    }
  }

  lemma ScaledSum(x: int, y: int, P: int, c: int)
    requires c > 0
    ensures x * c == P * c - y * c <==> x + y == P
    ensures x * c == y * c <==> x == y
  {
    MulDistrib(x + y, P, c);
    MulDistrib(x, y, c);
    MulAtLeast(x + y - P, c);
    MulAtLeast(x - y, c);
  }

  predicate ValuesBelow(f: (int, int) -> nat, P: nat) { forall x :: 0 <= x < P ==> f(x, P) < P }

  /** EvalFunc on the table of f. */
  method EvalTabulated(p: LweParams, params: RingGSWCryptoParams, EK: BTKey, ct: LWECiphertext, lut: seq<int>,
                       beta: int,
                       ghost f: (int, int) -> nat, ghost P: nat, ghost m: int, ghost t: nat, ghost w: Secrets)
    returns (r: Result<LWECiphertext>)
    requires FuncParams(p, ct.modulus, beta, P) && Shaped(p, ct.Value(), ct.modulus) && ct.modulus == p.q
    requires EK.bs.HasKey? && Ready(p, params, EK, w)
    requires |lut| == p.q && TableIn(lut, p.q) && StepTable(lut, x => f(x, P), 2 * beta)
    requires 0 <= m < P && f(m, P) < P && Near(Phase(ct.Value(), w.s), m * (2 * beta), p.q, t)
    requires t + FuncNoise(p, p.q, params.baseG, params.digitsG, w.E, w.Eks) < beta
    requires p.q <= p.N && !WithinModulus(f, P) ==>
               t + FuncNoise(p, 2 * p.q, params.baseG, params.digitsG, w.E, w.Eks) < beta
    ensures r.Ok? <==> WithinModulus(f, P) || p.q <= p.N
    ensures r.Err? ==> r.error == NotImplementedError
    ensures r.Ok? ==> fresh(r.value) && Decode(Phase(r.value.Value(), w.s) % p.q, P, p.q) == f(m, P)
  {
    hide Ready, Near, Phase, StepTable, TableIn, FuncNoise, Decode, WithinModulus, Verdict, Shaped, Holds;
    FuncParamsFacts(p, p.q, beta, P);
    MessagesPow2(p, p.q, beta, P);
    VerdictOfFunction(lut, f, beta, P);
    ghost var g: int -> int := x => f(x, P);
    r := EvalFunc(p, params, EK, ct, lut, beta, P, g, m, t, w);
    if r.Err? { return; }
    FuncNoisePositive(p, p.q, params.baseG, params.digitsG, w.E, w.Eks);
    FuncNoisePositive(p, 2 * p.q, params.baseG, params.digitsG, w.E, w.Eks);
    ghost var v := BranchNoise(p, Verdict(lut, p.q), p.q, params.baseG, params.digitsG, w);
    FuncDecodes(p, r.value.Value(), w.s, f(m, P), beta, P, v);
    HoldsModulus(p, r.value.Value(), w.s, p.q, g(m) * (2 * beta), v);
  }

  lemma HoldsModulus(p: LweParams, c: Cipher, s: seq<int>, F: int, y: int, v: int)
    requires Holds(p, c, s, F, y, v)
    ensures c.modulus == F
  {
  }

  /**
    From a function to its value under encryption: it succeeds exactly for values below P and a
    function within the modulus or q <= N (P is always a power of two); and then, for every message m and whichever
    branch the table of f takes, the result decrypts to f(m, P).
  */
  method EvalFunction(p: LweParams, params: RingGSWCryptoParams, EK: BTKey, ct: LWECiphertext, f: (int, int) -> nat,
                      beta: int, P: nat,
                      ghost m: int, ghost t: nat, ghost w: Secrets) returns (r: Result<LWECiphertext>)
    requires FuncParams(p, ct.modulus, beta, P) && Shaped(p, ct.Value(), ct.modulus) && ct.modulus == p.q &&
             P < 0x1_0000_0000
    requires EK.bs.HasKey? && Ready(p, params, EK, w)
    requires 0 <= m < P && Near(Phase(ct.Value(), w.s), m * (2 * beta), p.q, t)
    requires t + FuncNoise(p, p.q, params.baseG, params.digitsG, w.E, w.Eks) < beta
    requires p.q <= p.N && !WithinModulus(f, P) ==>
               t + FuncNoise(p, 2 * p.q, params.baseG, params.digitsG, w.E, w.Eks) < beta
    ensures r.Ok? <==> ValuesBelow(f, P) && (WithinModulus(f, P) || p.q <= p.N)
    ensures r.Err? ==> r.error == NotImplementedError
    ensures r.Ok? ==> Decode(Phase(r.value.Value(), w.s) % p.q, P, p.q) == f(m, P)
  {
    hide Ready, Near, Phase, StepTable, TableIn, FuncNoise, Decode, WithinModulus, IsPow2, Shaped, CellsBelow;
    FuncParamsFacts(p, p.q, beta, P);
    DivModUnique(p.q, 2 * beta, 0, P);
    AllCells(f, P, beta, p.q);
    MulMono(1, 2 * beta, P);
    MulComm(P, 2 * beta);
    var lut := GenerateLUTviaFunction(f, P, p.q);
    MessagesPow2(p, p.q, beta, P);
    if lut.Err? { return Err(lut.error); }
    r := EvalTabulated(p, params, EK, ct, lut.value, beta, f, P, m, t, w);
  }

  lemma PowerOfTwoParity(P: nat)
    requires IsPow2(P)
    ensures P == 1 || P % 2 == 0
  {
    var e: nat :| Pow(2, e) == P;
    if e > 0 { assert Pow(2, e) == 2 * Pow(2, e - 1); }
  }

  lemma AllCells(f: (int, int) -> nat, P: nat, beta: int, q: int)
    requires beta > 0 && P > 0 && q == P * (2 * beta)
    ensures CellsBelow(f, P, q, 2 * beta) <==> ValuesBelow(f, P)
  {
    forall i | 0 <= i < q ensures 0 <= i / (2 * beta) < P { CellBelow(i, 2 * beta, P); }
    forall x | 0 <= x < P ensures 0 <= x * (2 * beta) < q && x * (2 * beta) / (2 * beta) == x {
      MulMono(0, x, 2 * beta);
      MulMono(x, P - 1, 2 * beta);
      MulDistrib(P, 1, 2 * beta);
      DivModUnique(x * (2 * beta), x, 0, 2 * beta);
    }
    if forall i :: 0 <= i < q ==> f(i / (2 * beta), P) < P {
      forall x | 0 <= x < P ensures f(x, P) < P { assert f(x * (2 * beta) / (2 * beta), P) < P; }
    }
  }
}
