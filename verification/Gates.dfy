/** Boolean gates by bootstrapping (binfhe-base-scheme.cpp). */
module Gates {
  import opened Arith
  import opened Native
  import opened Ring
  import opened RgswParams
  import opened ExternalProduct
  import opened Rlwe
  import opened Lwe
  import opened KeySwitching
  import opened Bootstrapping

  datatype Gate = OR | AND | NOR | NAND | XOR_FAST | XNOR_FAST | XOR | XNOR

  function Truth(g: Gate, x: bool, y: bool): bool {
    match g
    case OR => x || y
    case AND => x && y
    case NOR => !(x || y)
    case NAND => !(x && y)
    case XOR_FAST | XOR => x != y
    case XNOR_FAST | XNOR => x == y
  }

  /** The laws that tie the gates to each other and to the two constants. */
  lemma GateLaws(x: bool, y: bool)
    ensures Truth(OR, x, false) == x && Truth(OR, x, true)
    ensures Truth(AND, x, y) == !Truth(OR, !x, !y)
    ensures Truth(NOR, x, y) == !Truth(OR, x, y) && Truth(NAND, x, y) == !Truth(AND, x, y)
    ensures Truth(XOR, x, y) == Truth(OR, Truth(AND, x, !y), Truth(AND, !x, y))
    ensures Truth(XNOR, x, y) == !Truth(XOR, x, y)
    ensures Truth(XOR_FAST, x, y) == Truth(XOR, x, y) && Truth(XNOR_FAST, x, y) == Truth(XNOR, x, y)
  {
  }

  predicate IsFast(g: Gate) { g == XOR_FAST || g == XNOR_FAST }

  predicate IsComposite(g: Gate) { g == XOR || g == XNOR }

  function GateIndex(g: Gate): nat {
    match g
    case OR => 0 case AND => 1 case NOR => 2 case NAND => 3
    case XOR_FAST => 4 case XNOR_FAST => 5 case XOR => 6 case XNOR => 7
  }

  // ----- the mapping interval -----

  /** The code's test, with its two branches, for t in [q1, q2) on the circle of length q. */
  predicate InRange(t: int, q1: int, q2: int) {
    if q1 < q2 then t >= q1 && t < q2 else !(t >= q2 && t < q1)
  }

  /** Both branches decide the half circle that starts at q1. */
  lemma InRangeExactly(t: int, q1: int, h: int)
    requires h > 0 && 0 <= t < 2 * h && 0 <= q1 < 2 * h
    ensures InRange(t, q1, (q1 + h) % (2 * h)) <==> (t - q1) % (2 * h) < h
  {
    var q := 2 * h;
    if q1 + h < q { ModSmall(q1 + h, q); } else { DivModUnique(q1 + h, 1, q1 + h - q, q); }
    if t >= q1 { ModSmall(t - q1, q); } else { DivModUnique(t - q1, -1, t - q1 + q, q); }
  }

  /** The tabulated value: -Q8 on the half circle from q1, +Q8 elsewhere. */
  function GateValue(q1: int, h: nat, Q8: int): int -> int
    requires h > 0
  {
    t => if (t - q1) % (2 * h) < h then -Q8 else Q8
  }

  lemma GateValueAntiperiodic(q1: int, h: nat, Q8: int, x: int)
    requires h > 0
    ensures GateValue(q1, h, Q8)(x + h) == -GateValue(q1, h, Q8)(x)
  {
    var q, y := 2 * h, x - q1;
    DivMod(y, q);
    if y % q < h { DivModUnique(y + h, y / q, y % q + h, q); }
    else {
      MulDistrib(y / q, 1, q);
      DivModUnique(y + h, y / q + 1, y % q - h, q);
    }
  }

  lemma GateValueMod(q1: int, h: nat, Q8: int, x: int)
    requires h > 0
    ensures GateValue(q1, h, Q8)(x % (2 * h)) == GateValue(q1, h, Q8)(x)
  {
    ModCong(x, 2 * h);
    CongRefl(q1, 2 * h);
    CongAdd(x % (2 * h), x, q1, q1, 2 * h);
    CongMod(x % (2 * h) - q1, x - q1, 2 * h);
  }

  /** The stored residue of a gate value. */
  function StoredValue(q1: int, h: nat, Q8: int, Q: int): int -> int
    requires h > 0
  {
    t => if (t - q1) % (2 * h) < h then Q - Q8 else Q8
  }

  /** For every phase, the lookup yields exactly the gate value of that phase. */
  lemma GateLookup(m: Poly, f: nat, h: nat, q1: int, Q8: int, Q: int, b: int, u: int)
    requires h > 0 && Sparse(m, f, h, Tabulated(StoredValue(q1, h, Q8, Q), b, h))
    ensures Cong(Ext(m, f * u), GateValue(q1, h, Q8)(b - u), Q)
  {
    hide Ext, Sparse, GateValue;
    Lookup(m, f, h, StoredValue(q1, h, Q8, Q), b, u);
    var x := if u % (2 * h) < h then (b - u) % (2 * h) else (b - u + h) % (2 * h);
    StoredCong(q1, h, Q8, Q, x);
    CongScale(StoredValue(q1, h, Q8, Q)(x), GateValue(q1, h, Q8)(x), -1, Q);
    GateValueMod(q1, h, Q8, b - u);
    GateValueMod(q1, h, Q8, b - u + h);
    GateValueAntiperiodic(q1, h, Q8, b - u);
  }

  lemma StoredCong(q1: int, h: nat, Q8: int, Q: int, t: int)
    requires h > 0
    ensures Cong(StoredValue(q1, h, Q8, Q)(t), GateValue(q1, h, Q8)(t), Q)
  {
    CongOf(StoredValue(q1, h, Q8, Q)(t), GateValue(q1, h, Q8)(t), if (t - q1) % (2 * h) < h then 1 else 0, Q);
  }

  // ----- gate constants realise the truth tables -----

  function Bit(x: bool): int { if x then 1 else 0 }

  /** What the additive step makes of two encoded bits, in units of q/4. */
  function Combined(g: Gate, x: bool, y: bool): int {
    if IsFast(g) then 2 * (Bit(x) - Bit(y)) else Bit(x) + Bit(y)
  }

  /**
    With q = 8u, every combined phase with error below q/8 falls in the half circle of
    the gate's constant exactly when the gate's output is false.
  */
  lemma GateMap(g: Gate, x: bool, y: bool, u: int, e: int)
    requires u > 0 && !IsComposite(g) && -u < e < u
    ensures (Combined(g, x, y) * (2 * u) + e - GateConstants(8 * u)[GateIndex(g)]) % (8 * u) < 4 * u <==>
              !Truth(g, x, y)
  {
    hide Combined, Truth, GateConstants, GateIndex;
    OctantTruth(g, x, y);
    var k := GateOctant(g, u);
    OctantMap(Combined(g, x, y), k, u, e);
  }

  /** The gate's constant, in units of q/8. */
  lemma GateOctant(g: Gate, u: int) returns (k: int)
    requires u > 0 && !IsComposite(g)
    ensures GateIndex(g) < 6 && k == [5, 7, 1, 3, 5, 1][GateIndex(g)] && GateConstants(8 * u)[GateIndex(g)] == k * u
  {
    DivModUnique(8 * u, u, 0, 8);
    k := [5, 7, 1, 3, 5, 1][GateIndex(g)];
  }

  lemma OctantMap(c: int, k: int, u: int, e: int)
    requires u > 0 && -u < e < u && (2 * c - k) % 8 % 2 == 1
    ensures (c * (2 * u) + e - k * u) % (8 * u) < 4 * u <==> (2 * c - k) % 8 < 4
  {
    var y8 := 2 * c - k;
    OctantArgument(c, k, u);
    DivMod(y8, 8);
    OctantSplit(y8, u, y8 / 8, y8 % 8);
    OctantAt(y8 * u, u, e, y8 / 8, y8 % 8);
  }

  lemma OctantArgument(c: int, k: int, u: int)
    ensures c * (2 * u) - k * u == (2 * c - k) * u
  {
    MulAssocInt(c, 2, u);
    MulDistrib(c * 2, k, u);
  }

  lemma OctantTruth(g: Gate, x: bool, y: bool)
    requires !IsComposite(g)
    ensures var r := (2 * Combined(g, x, y) - [5, 7, 1, 3, 5, 1][GateIndex(g)]) % 8;
            r % 2 == 1 && (r < 4 <==> !Truth(g, x, y))
  {
  }

  /** An odd multiple of q/8 plus a smaller error lies in the lower half circle as its octant does. */
  lemma OctantAt(x: int, u: int, e: int, t: int, r: int)
    requires u > 0 && -u < e < u && 0 <= r < 8 && r % 2 == 1 && x == t * (8 * u) + r * u
    ensures (x + e) % (8 * u) < 4 * u <==> r < 4
  {
    OddOctant(r, u, e);
    DivModUnique(x + e, t, r * u + e, 8 * u);
  }

  lemma OctantSplit(y: int, u: int, t: int, r: int)
    requires y == t * 8 + r
    ensures y * u == t * (8 * u) + r * u
  {
    MulDistrib(t * 8, r, u);
    MulAssocInt(t, 8, u);
  }

  lemma OddOctant(r: int, u: int, e: int)
    requires u > 0 && -u < e < u && 0 <= r < 8 && r % 2 == 1
    ensures 0 <= r * u + e < 8 * u && (r * u + e < 4 * u <==> r < 4)
  {
    if r == 1 { assert r * u == u; }
    else if r == 3 { assert r * u == 3 * u; }
    else if r == 5 { assert r * u == 5 * u; }
    else { assert r == 7 && r * u == 7 * u; }
  }

  // ----- the bootstrap of a gate -----

  predicate Small(p: LweParams, ct: Cipher) {
    ct.Valid() && ct.modulus == p.q && |ct.a| == p.n
  }

  /** The parameters the gates are defined for: 8 | q and q | 2N. */
  predicate GateParams(p: LweParams) { p.Valid() && p.q % 8 == 0 && (2 * p.N) % p.q == 0 && p.Q >= 8 }

  /** The loop that fills the test polynomial of a gate. */
  method GatePolynomial(N: nat, q: int, Q: int, q1: int, b: int, ghost f: nat, ghost h: nat) returns (m: Poly)
    requires h > 0 && f > 0 && q == 2 * h && N == f * h && Q >= 8 && 0 <= b < q && 0 <= q1 < q
    ensures |m| == N && Residues(m, Q) && Sparse(m, f, h, Tabulated(StoredValue(q1, h, Q / 8 + 1, Q), b, h))
  {
    var qHalf := q / 2;
    var q2 := ModAddFast(q1, qHalf, q);
    var Q8 := Q / 8 + 1;
    var Q8Neg := Q - Q8;
    var arr := new int[N](_ => 0);
    FactorOf(N, f, h);
    var factor := 2 * N / q;
    ghost var v := Tabulated(StoredValue(q1, h, Q8, Q), b, h);
    hide Tabulated, StoredValue, InRange;
    var j := 0;
    while j < qHalf
      invariant 0 <= j <= qHalf && Residues(arr[..], Q)
      invariant SparseSoFar(arr[..], f, h, v, j)
    {
      var temp := ModSub(b, j, q);
      GateEntry(q1, h, Q8, Q, b, j, temp);
      IndexBelow(j, f, h);
      var value: int;
      if q1 < q2 {
        value := if temp >= q1 && temp < q2 then Q8Neg else Q8;
      } else {
        value := if temp >= q2 && temp < q1 then Q8 else Q8Neg;
      }
      ghost var before := arr[..];
      SparseStep(before, f, h, v, j, value);
      arr[j * factor] := value;
      assert arr[..] == before[j * f := value];
      j := j + 1;
    }
    m := arr[..];
  }

  /** Each branch of the test stores the gate value of its argument. */
  lemma GateEntry(q1: int, h: nat, Q8: int, Q: int, b: int, j: int, temp: int)
    requires h > 0 && temp == (b - j) % (2 * h) && 0 <= q1 < 2 * h
    ensures var q2 := (q1 + h) % (2 * h);
            (if q1 < q2 then if temp >= q1 && temp < q2 then Q - Q8 else Q8
             else if temp >= q2 && temp < q1 then Q8 else Q - Q8)
            == Tabulated(StoredValue(q1, h, Q8, Q), b, h)(j)
  {
    DivMod(b - j, 2 * h);
    InRangeExactly(temp, q1, h);
  }

  lemma FactorOf(N: nat, f: nat, h: nat)
    requires h > 0 && N == f * h
    ensures 2 * N / (2 * h) == f && (2 * N) % (2 * h) == 0
  {
    MulAssocInt(2, f, h);
    MulAssocInt(f, 2, h);
    DivModUnique(2 * N, f, 0, 2 * h);
  }

  lemma IndexBelow(j: int, f: nat, h: nat)
    requires 0 <= j < h && f > 0
    ensures 0 <= j * f < f * h
  {
    MulMono(0, j, f);
    MulMono(j, h - 1, f);
    MulDistrib(h, 1, f);
    MulComm(f, h);
  }

  /** The test polynomial of the gate, rotated by the ciphertext. */
  method BootstrapGateCore(p: LweParams, params: RingGSWCryptoParams, gate: Gate, EK: BTKey, ct: LWECiphertext,
                           ghost w: Secrets)
    returns (r: Result<RLWECiphertext>)
    requires GateParams(p) && Small(p, ct.Value()) && !IsComposite(gate)
    requires EK.bs.HasKey? ==> ReadyEither(p, params, EK, w)
    ensures r.Err? <==> EK.bs.NoKey?
    ensures r.Err? ==> r.error == ConfigError
    ensures r.Ok? ==> fresh(r.value) && r.value.Valid(p.N, p.Q) && |w.z| == p.N && p.q / 2 > 0
    ensures r.Ok? ==> Near(RingPhase(r.value.a, r.value.b, w.z)[0],
                           GateValue(GateConstants(p.q)[GateIndex(gate)], p.q / 2, p.Q / 8 + 1)(Phase(ct.Value(), w.s)),
                           p.Q, AccNoise(p, params, w.E))
  {
    hide ReadyEither, RingPhase, GateValue, Near, AccNoise, Sparse, Residues, SwitchReady;
    if EK.bs.NoKey? { return Err(ConfigError); }
    EitherFacts(p, params, EK, w);
    ghost var h, f := p.q / 2, 2 * p.N / p.q;
    GateShape(p);
    var q1 := params.gateConst[GateIndex(gate)];
    GateConstantRange(p.q, gate);
    var m := GatePolynomial(p.N, p.q, p.Q, q1, ct.b, f, h);
    SmallShape(p, ct.Value());
    var acc := Accumulate(p, params, EK, m, ct.a, p.q, w);
    GateLookup(m, f, h, q1, p.Q / 8 + 1, p.Q, ct.b, Dot(ct.a, w.s));
    NearReplace(RingPhase(acc.a, acc.b, w.z)[0], Ext(m, f * Dot(ct.a, w.s)),
                GateValue(q1, h, p.Q / 8 + 1)(ct.b - Dot(ct.a, w.s)), p.Q,
                AccNoise(p, params, w.E));
    return Ok(acc);
  }

  lemma SmallShape(p: LweParams, c: Cipher)
    requires Small(p, c)
    ensures c.modulus == p.q && |c.a| == p.n && Residues(c.a, p.q) && 0 <= c.b < p.q
  {
  }

  lemma NearReplace(x: int, y: int, y': int, m: int, t: int)
    requires Near(x, y, m, t) && Cong(y, y', m)
    ensures Near(x, y', m, t)
  {
    NearFromCong(y, y', 0, m, 0);
    NearTrans(x, y, y', m, t, 0);
  }

  lemma GateShape(p: LweParams)
    requires GateParams(p)
    ensures var h, f := p.q / 2, 2 * p.N / p.q;
            h > 0 && f > 0 && p.q == 2 * h && p.N == f * h && p.q == 8 * (p.q / 8)
  {
    var h, f := p.q / 2, 2 * p.N / p.q;
    DivMod(p.q, 8);
    DivMod(2 * p.N, p.q);
    assert p.q == 2 * h;
    MulAssocInt(f, 2, h);
    MulAssocInt(2, f, h);
    MulComm(f, 2);
    MulAtLeast(f, p.q);
  }

  lemma GateConstantRange(q: int, gate: Gate)
    requires q > 0 && q % 8 == 0 && !IsComposite(gate)
    ensures GateIndex(gate) < |GateConstants(q)| && 0 <= GateConstants(q)[GateIndex(gate)] < q
  {
    DivMod(q, 8);
  }

  /** Noise of a gate's output, in units of 1/q. */
  function GateNoise(p: LweParams, acc: nat, Eks: nat): int
    requires p.Valid()
  {
    BootNoise(p, p.q, acc, Eks, 2)
  }

  /** Adds Q/8 + 1 to map back to multiples of Q/4, extracts, and switches back to q. */
  method GateOutput(p: LweParams, EK: BTKey, acc: RLWECiphertext, ghost noise: nat, ghost w: Secrets,
                    ghost v: int, ghost out: bool)
    returns (ct: LWECiphertext)
    requires GateParams(p) && SwitchReady(EK.ks, p, w) && acc.Valid(p.N, p.Q)
    requires Near(RingPhase(acc.a, acc.b, w.z)[0], v, p.Q, noise)
    requires v == if out then p.Q / 8 + 1 else -(p.Q / 8 + 1)
    ensures fresh(ct) && Small(p, ct.Value())
    ensures Near(Phase(ct.Value(), w.s), Bit(out) * (p.q / 4), p.q, GateNoise(p, noise, w.Eks))
  {
    hide RingPhase, ValidKey, ErrorsBounded, TailBound, Near, Extract;
    var Q8 := p.Q / 8 + 1;
    var b := ModAddFast(Q8, acc.b[0], p.Q);
    ghost var c := Extract(acc.a, acc.b[0], p.Q);
    ExtractShape(acc.a, acc.b, w.z, p.Q, b);
    var ctExt := new LWECiphertext(Cipher(Reduce(Transpose(acc.a), p.Q), b, p.Q));
    ct := SwitchBack(p, EK.ks, ctExt, p.q, w);
    ExtractPhase(acc.a, acc.b, w.z, p.Q);
    GateResult(p, w.Eks, noise, RingPhase(acc.a, acc.b, w.z)[0], Phase(c, w.z),
               Phase(ctExt.Value(), w.z), Phase(ct.Value(), w.s), v, out);
  }

  lemma ExtractShape(a: Poly, b: Poly, z: Poly, Q: int, b': int)
    requires |a| == |b| == |z| > 0 && Q >= 8 && Residues(b, Q) && b' == (Q / 8 + 1 + b[0]) % Q
    ensures Cipher(Reduce(Transpose(a), Q), b', Q).Valid()
    ensures Cong(Phase(Cipher(Reduce(Transpose(a), Q), b', Q), z), Phase(Extract(a, b[0], Q), z) + (Q / 8 + 1), Q)
  {
    hide Transpose, Dot, Reduce;
    ModCong(Q / 8 + 1 + b[0], Q);
    var D := Dot(Reduce(Transpose(a), Q), z);
    CongRefl(D, Q);
    CongAdd(b', Q / 8 + 1 + b[0], D, D, Q);
  }

  lemma GateResult(p: LweParams, Eks: nat, acc: nat, r0: int, c0: int, p0: int, p3: int, v: int, out: bool)
    requires GateParams(p) && Near(r0, v, p.Q, acc) && Cong(c0, r0, p.Q) && Cong(p0, c0 + (p.Q / 8 + 1), p.Q)
    requires v == if out then p.Q / 8 + 1 else -(p.Q / 8 + 1)
    requires Near((2 * p.Q * p.qKS) * p3, (2 * p.q * p.qKS) * p0, (2 * p.Q * p.qKS) * p.q, TailBound(p, p.q, Eks))
    ensures Near(p3, Bit(out) * (p.q / 4), p.q, BootNoise(p, p.q, acc, Eks, 2))
  {
    hide TailBound, BootNoise;
    var Q8 := p.Q / 8 + 1;
    NearFromCong(c0, r0, 0, p.Q, 0);
    NearTrans(c0, r0, v, p.Q, 0, acc);
    NearFromCong(p0, c0 + Q8, 0, p.Q, 0);
    NearOf(Q8, Q8, 0, p.Q, 0);
    NearAdd(c0, v, Q8, Q8, p.Q, acc, 0);
    NearTrans(p0, c0 + Q8, v + Q8, p.Q, 0, acc);
    QuarterSlack(p.q, p.Q, out);
    BootResult(p, p.q, Eks, p0, p3, v + Q8, Bit(out) * (p.q / 4), acc, 2);
  }

  /** 2*(Q/8 + 1) is Q/4 up to 2. */
  lemma QuarterSlack(q: int, Q: int, out: bool)
    requires q > 0 && q % 8 == 0 && Q > 0
    ensures var M := if out then 2 * (Q / 8 + 1) else 0;
            -(q * 2) <= q * M - Q * (Bit(out) * (q / 4)) <= q * 2
  {
    var h, t, r := q / 4, Q / 8, Q % 8;
    DivMod(q, 8);
    assert q == 4 * h;
    DivMod(Q, 8);
    if out {
      SlackArith(q, Q, h, t, r);
      MulMono(0, 8 - r, h);
      MulMono(8 - r, 8, h);
    }
  }

  lemma SlackArith(q: int, Q: int, h: int, t: int, r: int)
    requires q == 4 * h && Q == t * 8 + r
    ensures q * (2 * (t + 1)) - Q * h == (8 - r) * h
  {
    MulAssocInt(2 * (t + 1), 4, h);
    MulComm(q, 2 * (t + 1));
    MulDistrib(2 * (t + 1) * 4, Q, h);
  }

  /** NOT needs no key: it negates the vector and takes b from a quarter of the modulus. */
  method EvalNOT(ct: LWECiphertext) returns (r: LWECiphertext)
    requires ct.Valid() && ct.modulus >= 4
    ensures fresh(r) && r.Value() == NegV(ct.Value())
  {
    var q, n := ct.modulus, |ct.a|;
    var a: seq<int> := [];
    for i := 0 to n
      invariant |a| == i && forall k :: 0 <= k < i ==> a[k] == NegV(ct.Value()).a[k]
    {
      a := a + [if ct.a[i] == 0 then 0 else q - ct.a[i]];
    }
    r := new LWECiphertext(Cipher(a, ModSubFast(q / 4, ct.b, q), q));
  }

  /** c encrypts the bit x with noise at most t. */
  ghost predicate Carries(p: LweParams, c: Cipher, s: seq<int>, x: bool, t: int) {
    Near(Phase(c, s), Bit(x) * (p.q / 4), p.q, t)
  }

  lemma NotCarries(p: LweParams, c: Cipher, s: seq<int>, x: bool, t: int)
    requires GateParams(p) && Small(p, c) && |s| == p.n && Carries(p, c, s, x, t)
    ensures c.modulus >= 4 && Small(p, NegV(c)) && Carries(p, NegV(c), s, !x, t)
  {
    hide Phase;
    DivMod(p.q, 8);
    NegPhase(c, s);
    var e := NearError(Phase(c, s), Bit(x) * (p.q / 4), p.q, t);
    CongRefl(p.q / 4, p.q);
    CongAdd(p.q / 4, p.q / 4, Phase(c, s), Bit(x) * (p.q / 4) + e, p.q);
    CongTrans(Phase(NegV(c), s), p.q / 4 - Phase(c, s), p.q / 4 - (Bit(x) * (p.q / 4) + e), p.q);
    assert p.q / 4 - (Bit(x) * (p.q / 4) + e) == Bit(!x) * (p.q / 4) + -e;
    NearFromCong(Phase(NegV(c), s), Bit(!x) * (p.q / 4), -e, p.q, t);
  }

  /** The gate value of a phase that carries the combined bits with error below q/8. */
  lemma GateDecides(p: LweParams, g: Gate, x: bool, y: bool, phase: int, t: int)
    requires GateParams(p) && !IsComposite(g) && t < p.q / 8
    requires Near(phase, Combined(g, x, y) * (p.q / 4), p.q, t)
    ensures p.q / 2 > 0 && GateIndex(g) < |GateConstants(p.q)|
    ensures GateValue(GateConstants(p.q)[GateIndex(g)], p.q / 2, p.Q / 8 + 1)(phase)
         == if Truth(g, x, y) then p.Q / 8 + 1 else -(p.Q / 8 + 1)
  {
    hide Combined, GateConstants, Truth, GateIndex, Near;
    GateConstantRange(p.q, g);
    var u, q1 := p.q / 8, GateConstants(p.q)[GateIndex(g)];
    DivMod(p.q, 8);
    assert p.q == 8 * u && p.q / 4 == 2 * u && p.q / 2 == 4 * u;
    var e := NearError(phase, Combined(g, x, y) * (2 * u), p.q, t);
    CongRefl(q1, p.q);
    CongAdd(phase, Combined(g, x, y) * (2 * u) + e, q1, q1, p.q);
    CongMod(phase - q1, Combined(g, x, y) * (2 * u) + e - q1, p.q);
    GateMap(g, x, y, u, e);
  }

  /** Noise of the combined ciphertext. */
  function CombinedNoise(g: Gate, t1: int, t2: int): int { if IsFast(g) then 2 * (t1 + t2) else t1 + t2 }

  lemma SumCarries(p: LweParams, c: Cipher, d: Cipher, s: seq<int>, x: bool, y: bool, t1: int, t2: int)
    requires GateParams(p) && Small(p, c) && Small(p, d) && |s| == p.n && Carries(p, c, s, x, t1) &&
             Carries(p, d, s, y, t2)
    ensures Small(p, AddV(c, d)) && Near(Phase(AddV(c, d), s), (Bit(x) + Bit(y)) * (p.q / 4), p.q, t1 + t2)
    ensures Small(p, SubV(c, d)) && Near(Phase(SubV(c, d), s), (Bit(x) - Bit(y)) * (p.q / 4), p.q, t1 + t2)
  {
    hide Phase, AddV, SubV;
    var h := p.q / 4;
    AddPhase(c, d, s);
    SubPhase(c, d, s);
    NearAdd(Phase(c, s), Bit(x) * h, Phase(d, s), Bit(y) * h, p.q, t1, t2);
    MulDistrib(Bit(x), Bit(y), h);
    NearFromCong(Phase(AddV(c, d), s), Phase(c, s) + Phase(d, s), 0, p.q, 0);
    NearFromCong(Phase(SubV(c, d), s), Phase(c, s) - Phase(d, s), 0, p.q, 0);
    NearTrans(Phase(AddV(c, d), s), Phase(c, s) + Phase(d, s), (Bit(x) + Bit(y)) * h, p.q, 0, t1 + t2);
    NearTrans(Phase(SubV(c, d), s), Phase(c, s) - Phase(d, s), (Bit(x) - Bit(y)) * h, p.q, 0, t1 + t2);
  }

  lemma DoubleCarries(p: LweParams, c: Cipher, s: seq<int>, k: int, t: int)
    requires GateParams(p) && Small(p, c) && |s| == p.n && Near(Phase(c, s), k * (p.q / 4), p.q, t)
    ensures Small(p, AddV(c, c)) && Near(Phase(AddV(c, c), s), (2 * k) * (p.q / 4), p.q, 2 * t)
  {
    hide Phase, AddV;
    var h := p.q / 4;
    AddPhase(c, c, s);
    NearAdd(Phase(c, s), k * h, Phase(c, s), k * h, p.q, t, t);
    MulDistrib(k, k, h);
    NearFromCong(Phase(AddV(c, c), s), Phase(c, s) + Phase(c, s), 0, p.q, 0);
    NearTrans(Phase(AddV(c, c), s), Phase(c, s) + Phase(c, s), (2 * k) * h, p.q, 0, 2 * t);
  }

  /** The additive homomorphic step before the bootstrap. */
  method PrepareGate(p: LweParams, gate: Gate, ct1: LWECiphertext, ct2: LWECiphertext,
                     ghost s: seq<int>, ghost x: bool, ghost y: bool, ghost t1: int,
                     ghost t2: int) returns (ctprep: LWECiphertext)
    requires GateParams(p) && Small(p, ct1.Value()) && Small(p, ct2.Value()) && |s| == p.n && !IsComposite(gate)
    requires Carries(p, ct1.Value(), s, x, t1) && Carries(p, ct2.Value(), s, y, t2)
    ensures fresh(ctprep) && Small(p, ctprep.Value())
    ensures Near(Phase(ctprep.Value(), s), Combined(gate, x, y) * (p.q / 4), p.q, CombinedNoise(gate, t1, t2))
  {
    hide Phase, AddV, SubV, Near;
    ctprep := new LWECiphertext(ct1.Value());
    SumCarries(p, ct1.Value(), ct2.Value(), s, x, y, t1, t2);
    if gate == XOR_FAST || gate == XNOR_FAST {
      var ok := EvalSubEq(ctprep, ct2);
      DoubleCarries(p, ctprep.Value(), s, Bit(x) - Bit(y), t1 + t2);
      ok := EvalAddEq(ctprep, ctprep);
    } else {
      var ok := EvalAddEq(ctprep, ct2);
    }
  }

  /** The inputs' noise leaves room for the gate; composite gates also need it for their inner outputs. */
  predicate Margin(p: LweParams, g: Gate, t1: int, t2: int, v: int) {
    CombinedNoise(g, t1, t2) < p.q / 8 && (IsComposite(g) ==> 2 * v < p.q / 8)
  }

  /**
    A gate fails exactly when it is given one object twice or no key. Otherwise, when the
    inputs carry x and y with enough margin, the output carries the gate's truth value
    with the post-bootstrap noise, whatever the inputs' noise was.
  */
  method EvalBinGate(p: LweParams, params: RingGSWCryptoParams, gate: Gate, EK: BTKey, ct1: LWECiphertext,
                     ct2: LWECiphertext,
                     ghost w: Secrets, ghost x: bool, ghost y: bool, ghost t1: int,
                     ghost t2: int) returns (r: Result<LWECiphertext>)
    requires GateParams(p) && Small(p, ct1.Value()) && Small(p, ct2.Value()) && |w.s| == p.n
    requires EK.bs.HasKey? ==> ReadyEither(p, params, EK, w)
    requires Carries(p, ct1.Value(), w.s, x, t1) && Carries(p, ct2.Value(), w.s, y, t2)
    ensures r.Err? <==> ct1 == ct2 || EK.bs.NoKey?
    ensures r.Err? ==> r.error == ConfigError
    ensures r.Ok? ==> fresh(r.value) && Small(p, r.value.Value())
    ensures r.Ok? && Margin(p, gate, t1, t2, GateNoise(p, AccNoise(p, params, w.E), w.Eks)) ==>
              Carries(p, r.value.Value(), w.s, Truth(gate, x, y),
                      GateNoise(p, AccNoise(p, params, w.E), w.Eks))
    decreases IsComposite(gate)
  {
    hide ReadyEither, AccNoise, Near, Phase, NegV, GateNoise;
    if ct1 == ct2 { return Err(ConfigError); }
    ghost var v := GateNoise(p, AccNoise(p, params, w.E), w.Eks);
    if gate == XOR || gate == XNOR {
      NotCarries(p, ct1.Value(), w.s, x, t1);
      NotCarries(p, ct2.Value(), w.s, y, t2);
      var ct1NOT := EvalNOT(ct1);
      var ct2NOT := EvalNOT(ct2);
      var r1 := EvalBinGate(p, params, AND, EK, ct1, ct2NOT, w, x, !y, t1, t2);
      if r1.Err? { return r1; }
      var r2 := EvalBinGate(p, params, AND, EK, ct1NOT, ct2, w, !x, y, t1, t2);
      if r2.Err? { return r2; }
      ghost var good := Margin(p, gate, t1, t2, v);
      CarriesSomething(p, r1.value.Value(), w.s, x && !y);
      CarriesSomething(p, r2.value.Value(), w.s, !x && y);
      var ctOR := EvalBinGate(p, params, OR, EK, r1.value, r2.value, w, x && !y, !x && y,
                              if good then v else p.q, if good then v else p.q);
      if ctOR.Err? || gate == XOR { return ctOR; }
      var ctNOT := NegateResult(p, ctOR.value, w.s, x != y, v);
      return Ok(ctNOT);
    } else {
      r := BootstrapGate(p, params, gate, EK, ct1, ct2, w, x, y, t1, t2);
    }
  }

  /** Every phase is within q of every bit's encoding, so carrying with noise q says nothing. */
  lemma CarriesSomething(p: LweParams, c: Cipher, s: seq<int>, x: bool)
    requires p.Valid()
    ensures Carries(p, c, s, x, p.q)
  {
    var d := Phase(c, s) - Bit(x) * (p.q / 4);
    DivMod(d, p.q);
    NearOf(Phase(c, s), Bit(x) * (p.q / 4), d / p.q, p.q, p.q);
  }

  method NegateResult(p: LweParams, ct: LWECiphertext, ghost s: seq<int>, ghost x: bool,
                      ghost v: int) returns (r: LWECiphertext)
    requires GateParams(p) && Small(p, ct.Value()) && |s| == p.n
    ensures fresh(r) && Small(p, r.Value())
    ensures Carries(p, ct.Value(), s, x, v) ==> Carries(p, r.Value(), s, !x, v)
  {
    hide Near, Phase, NegV;
    CarriesSomething(p, ct.Value(), s, x);
    NotCarries(p, ct.Value(), s, x, p.q);
    r := EvalNOT(ct);
    if Carries(p, ct.Value(), s, x, v) { NotCarries(p, ct.Value(), s, x, v); }
  }

  /** The branch of EvalBinGate that bootstraps. */
  method BootstrapGate(p: LweParams, params: RingGSWCryptoParams, gate: Gate, EK: BTKey, ct1: LWECiphertext,
                       ct2: LWECiphertext,
                       ghost w: Secrets, ghost x: bool, ghost y: bool, ghost t1: int,
                       ghost t2: int) returns (r: Result<LWECiphertext>)
    requires GateParams(p) && Small(p, ct1.Value()) && Small(p, ct2.Value()) && |w.s| == p.n && !IsComposite(gate)
    requires EK.bs.HasKey? ==> ReadyEither(p, params, EK, w)
    requires Carries(p, ct1.Value(), w.s, x, t1) && Carries(p, ct2.Value(), w.s, y, t2)
    ensures r.Err? <==> EK.bs.NoKey?
    ensures r.Err? ==> r.error == ConfigError
    ensures r.Ok? ==> fresh(r.value) && Small(p, r.value.Value())
    ensures r.Ok? && CombinedNoise(gate, t1, t2) < p.q / 8 ==>
              Carries(p, r.value.Value(), w.s, Truth(gate, x, y),
                      GateNoise(p, AccNoise(p, params, w.E), w.Eks))
  {
    hide ReadyEither, AccNoise, Near, Phase, GateNoise, GateValue, RingPhase;
    var ctprep := PrepareGate(p, gate, ct1, ct2, w.s, x, y, t1, t2);
    r := FinishGate(p, params, gate, EK, ctprep, w);
    if r.Ok? && CombinedNoise(gate, t1, t2) < p.q / 8 {
      GateDecides(p, gate, x, y, Phase(ctprep.Value(), w.s), CombinedNoise(gate, t1, t2));
    }
  }

  predicate Decided(p: LweParams, g: Gate, phase: int, out: bool)
    requires GateParams(p) && !IsComposite(g)
  {
    GateConstantRange(p.q, g);
    p.q / 2 > 0 &&
    GateValue(GateConstants(p.q)[GateIndex(g)], p.q / 2, p.Q / 8 + 1)(phase) ==
      if out then p.Q / 8 + 1 else -(p.Q / 8 + 1)
  }

  /** Rotate and switch back. The output bit is decided by the half circle the phase falls in. */
  method FinishGate(p: LweParams, params: RingGSWCryptoParams, gate: Gate, EK: BTKey, ct: LWECiphertext,
                    ghost w: Secrets)
    returns (r: Result<LWECiphertext>)
    requires GateParams(p) && Small(p, ct.Value()) && |w.s| == p.n && !IsComposite(gate)
    requires EK.bs.HasKey? ==> ReadyEither(p, params, EK, w)
    ensures r.Err? <==> EK.bs.NoKey?
    ensures r.Err? ==> r.error == ConfigError
    ensures r.Ok? ==> fresh(r.value) && Small(p, r.value.Value())
    ensures r.Ok? ==> forall out :: Decided(p, gate, Phase(ct.Value(), w.s), out) ==>
              Carries(p, r.value.Value(), w.s, out, GateNoise(p, AccNoise(p, params, w.E), w.Eks))
  {
    hide Near, Phase, GateNoise, GateValue, RingPhase, AccNoise, ReadyEither, SwitchReady, Small;
    var acc := BootstrapGateCore(p, params, gate, EK, ct, w);
    if acc.Err? { return Err(acc.error); }
    EitherFacts(p, params, EK, w);
    GateConstantRange(p.q, gate);
    ghost var v := GateValue(GateConstants(p.q)[GateIndex(gate)], p.q / 2, p.Q / 8 + 1)(Phase(ct.Value(), w.s));
    GateValueSign(GateConstants(p.q)[GateIndex(gate)], p.q / 2, p.Q / 8 + 1, Phase(ct.Value(), w.s));
    var res := GateOutput(p, EK, acc.value, AccNoise(p, params, w.E), w, v, v > 0);
    return Ok(res);
  }

  lemma GateValueSign(q1: int, h: nat, Q8: int, x: int)
    requires h > 0 && Q8 > 0
    ensures var v := GateValue(q1, h, Q8)(x); v == if v > 0 then Q8 else -Q8
  {
  }

  /** Refreshing one ciphertext: a quarter of the modulus is added and the AND polynomial applied. */
  method Bootstrap(p: LweParams, params: RingGSWCryptoParams, EK: BTKey, ct: LWECiphertext, ghost w: Secrets,
                   ghost x: bool, ghost t: int)
    returns (r: Result<LWECiphertext>)
    requires GateParams(p) && Small(p, ct.Value()) && |w.s| == p.n
    requires EK.bs.HasKey? ==> ReadyEither(p, params, EK, w)
    requires Carries(p, ct.Value(), w.s, x, t)
    ensures r.Err? <==> EK.bs.NoKey?
    ensures r.Err? ==> r.error == ConfigError
    ensures r.Ok? ==> fresh(r.value) && Small(p, r.value.Value())
    ensures r.Ok? && t < p.q / 8 ==> Carries(p, r.value.Value(), w.s, x,
                                             GateNoise(p, AccNoise(p, params, w.E), w.Eks))
  {
    hide ReadyEither, AccNoise, Near, Phase, GateNoise, GateValue, AddConstV;
    var ctprep := new LWECiphertext(ct.Value());
    QuarterAdded(p, ct.Value(), w.s, x, t);
    EvalAddConstEq(ctprep, ct.modulus / 4);
    r := FinishGate(p, params, AND, EK, ctprep, w);
    if r.Ok? && t < p.q / 8 {
      GateDecides(p, AND, x, true, Phase(ctprep.Value(), w.s), t);
    }
  }

  lemma QuarterAdded(p: LweParams, c: Cipher, s: seq<int>, x: bool, t: int)
    requires GateParams(p) && Small(p, c) && |s| == p.n && Carries(p, c, s, x, t)
    ensures 0 <= c.modulus / 4 < c.modulus && Small(p, AddConstV(c, c.modulus / 4))
    ensures Near(Phase(AddConstV(c, c.modulus / 4), s), Combined(AND, x, true) * (p.q / 4), p.q, t)
  {
    hide Phase;
    var h := p.q / 4;
    DivMod(p.q, 8);
    ConstPhase(c, h, s);
    NearOf(h, h, 0, p.q, 0);
    NearAdd(Phase(c, s), Bit(x) * h, h, h, p.q, t, 0);
    MulDistrib(Bit(x), 1, h);
    NearFromCong(Phase(AddConstV(c, h), s), Phase(c, s) + h, 0, p.q, 0);
    NearTrans(Phase(AddConstV(c, h), s), Phase(c, s) + h, (Bit(x) + 1) * h, p.q, 0, t);
  }
}
