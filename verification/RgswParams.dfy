/** Parameters of the RingGSW accumulator and their tables (rgsw-cryptoparameters.h, .cpp). */
module RgswParams {
  import opened Arith
  import opened Native
  import opened Ring
  import opened Gadget

  datatype Method = AP | GINX

  datatype Error = ConfigError | NotImplementedError | MissingKeyError

  datatype Result<+T> = Ok(value: T) | Err(error: Error)

  /** base^i modulo Q, for i < k. */
  function GPowers(base: nat, k: nat, Q: int): (r: seq<int>)
    requires Q > 0
  {
    seq(k, i requires i >= 0 => Pow(base, i) % Q)
  }

  function RPowers(base: nat, k: nat): (r: seq<int>) { seq(k, i requires i >= 0 => Pow(base, i)) }

  /** X^c - 1 modulo Q, for c < 2N. */
  function MonomialMinusOne(N: nat, Q: int, c: int): (r: Poly)
    requires N > 0 && Q > 0
    ensures |r| == N
  {
    Reduce(Sub(Monomial(N, c), One(N)), Q)
  }

  function MonomialTable(N: nat, Q: int): seq<Poly>
    requires N > 0 && Q > 0
  {
    seq(2 * N, c => MonomialMinusOne(N, Q, c))
  }

  lemma MonomialAt(N: nat, i: int, k: nat)
    requires 0 <= i < N && k < N
    ensures Monomial(N, i)[k] == if k == i then 1 else 0
    ensures Monomial(N, N + i)[k] == if k == i then -1 else 0
  {
    hide Ext;
    var one := One(N);
    if k >= i { ExtBase(one, k - i); } else { ExtBase(one, k - i + N); }
    ExtStep(one, k - i);
    ExtStep(one, k - (N + i));
  }

  /** The map with the entries of the given bases overwritten by their powers. */
  predicate MapFilled(after: map<nat, seq<int>>, before: map<nat, seq<int>>, bases: set<nat>, Q: int) {
    && Q > 1 && after.Keys == before.Keys + bases
    && forall b :: b in after ==> if b in bases then b >= 2 &&
                                  after[b] == GPowers(b, DigitCount(Q, b), Q) else after[b] == before[b]
  }

  lemma MapFilledStart(before: map<nat, seq<int>>, Q: int)
    requires Q > 1
    ensures MapFilled(before, before, {}, Q)
  {
  }

  lemma MapFilledStep(after: map<nat, seq<int>>, before: map<nat, seq<int>>, bases: set<nat>, base: nat, Q: int)
    requires MapFilled(after, before, bases, Q) && base >= 2
    ensures Q > 1 && MapFilled(after[base := GPowers(base, DigitCount(Q, base), Q)], before, bases + {base}, Q)
  {
    hide DigitCount, GPowers;
  }

  const SIGN_BASES: seq<nat> := [0x4000, 0x4_0000, 0x800_0000]

  function SignBases(): set<nat> { set b | b in SIGN_BASES }

  /** The bases with stored powers are 2^14, 2^18 and 2^27. */
  lemma SignBasesAre()
    ensures SignBases() == {0x4000, 0x4_0000, 0x800_0000}
    ensures forall b :: b in SIGN_BASES <==> b == 0x4000 || b == 0x4_0000 || b == 0x800_0000
  {
    assert SIGN_BASES[0] == 0x4000 && SIGN_BASES[1] == 0x4_0000 && SIGN_BASES[2] == 0x800_0000;
  }

  class RingGSWCryptoParams {
    const N: nat
    const Q: int
    const q: int
    const baseR: nat
    const kind: Method
    var baseG: nat
    var digitsG: nat
    var digitsR: seq<int>
    var gpower: seq<int>
    var gpowerMap: map<nat, seq<int>>
    var gateConst: seq<int>
    var monomials: seq<Poly>

    predicate Valid()
      reads this
    {
      && N > 0 && Q > 1 && q > 0 && baseG >= 2 && baseR >= 2
      && digitsG == DigitCount(Q, baseG)
      && (forall b :: b in gpowerMap ==> b >= 2)
    }

    /** The stored powers are those of the current base. */
    predicate Consistent()
      requires Valid()
      reads this
    {
      gpower == GPowers(baseG, digitsG, Q)
    }

    /** Every stored power table belongs to its base. */
    predicate MapConsistent()
      requires Valid()
      reads this
    {
      forall b :: b in gpowerMap ==> gpowerMap[b] == GPowers(b, DigitCount(Q, b), Q)
    }

    predicate TablesReady()
      requires Valid()
      reads this
    {
      && (kind == AP ==> digitsR == RPowers(baseR, DigitCount(q, baseR)))
      && (kind == GINX ==> monomials == MonomialTable(N, Q))
      && gateConst == GateConstants(q)
    }

    /** The tables are filled as PreCompute fills them; the gadget powers depend on signEval and the base. */
    constructor (N: nat, Q: int, q: int, baseG: nat, baseR: nat, kind: Method, signEval: bool)
      requires N > 0 && Q > 1 && q > 0 && baseG >= 2 && baseR >= 2
      ensures Valid() && TablesReady() && MapConsistent()
      ensures this.N == N && this.Q == Q && this.q == q && this.baseG == baseG && this.baseR == baseR &&
              this.kind == kind
      ensures gpowerMap.Keys == if signEval then {0x4000, 0x4_0000, 0x800_0000} else {}
      ensures Consistent() <==> !signEval || baseG == 0x4000 || baseG == 0x4_0000 || baseG == 0x800_0000
      ensures gateConst == [5 * (q / 8), 7 * (q / 8), q / 8, 3 * (q / 8), 5 * (q / 8), q / 8]
    {
      this.N, this.Q, this.q, this.baseG, this.baseR, this.kind := N, Q, q, baseG, baseR, kind;
      digitsG := DigitCount(Q, baseG);
      digitsR, gpower, gpowerMap, gateConst, monomials := [], [], map[], [], [];
      new;
      SignBasesAre();
      PreCompute(signEval);
    }

    /**
      Appends to the tables for R, the powers of the base and the monomials, whatever they hold, and
      overwrites the map entries of the three bases; on empty tables it derives exactly the constructor's.
    */
    method PreCompute(signEval: bool)
      requires Valid()
      modifies this`digitsR, this`gpower, this`gpowerMap, this`gateConst, this`monomials
      ensures Valid() && gateConst == [5 * (q / 8), 7 * (q / 8), q / 8, 3 * (q / 8), 5 * (q / 8), q / 8]
      ensures digitsR == old(digitsR) + if kind == AP then RPowers(baseR, DigitCount(q, baseR)) else []
      ensures monomials == old(monomials) + if kind == GINX then MonomialTable(N, Q) else []
      ensures !signEval ==> gpower == old(gpower) + GPowers(baseG, digitsG, Q) && gpowerMap == old(gpowerMap)
      ensures signEval ==> MapFilled(gpowerMap, old(gpowerMap), {0x4000, 0x4_0000, 0x800_0000}, Q)
      ensures signEval ==> gpower == if baseG == 0x4000 || baseG == 0x4_0000 || baseG == 0x800_0000
                                     then GPowers(baseG, digitsG, Q) else old(gpower)
      ensures old(digitsR == [] && gpower == [] && gpowerMap == map[] && monomials == []) ==>
                && TablesReady() && MapConsistent()
                && (Consistent() <==> !signEval || baseG == 0x4000 || baseG == 0x4_0000 || baseG == 0x800_0000)
    {
      hide DigitCount, MonomialMinusOne;
      SignBasesAre();
      if kind == AP {
        FillDigitsR();
      }
      if signEval {
        FillPowerMap();
      } else {
        var powers := FillPowers(baseG, digitsG);
        gpower := gpower + powers;
      }
      gateConst := [5 * (q / 8), 7 * (q / 8), 1 * (q / 8), 3 * (q / 8), 5 * (q / 8), 1 * (q / 8)];
      if kind == GINX {
        FillMonomials();
      }
      DigitsNeeded(Q, baseG);
      assert |GPowers(baseG, digitsG, Q)| == digitsG > 0;
    }

    method FillDigitsR()
      requires Valid()
      modifies this`digitsR
      ensures digitsR == old(digitsR) + RPowers(baseR, DigitCount(q, baseR))
    {
      var count, value := DigitCount(q, baseR), 1;
      for i := 0 to count
        invariant value == Pow(baseR, i) && digitsR == old(digitsR) + RPowers(baseR, i)
      {
        digitsR := digitsR + [value];
        value := value * baseR;
        MulComm(baseR, Pow(baseR, i));
      }
    }

    method FillPowers(base: nat, count: nat) returns (r: seq<int>)
      requires Q > 1
      ensures r == GPowers(base, count, Q)
    {
      var vTemp := 1;
      r := [];
      ModSmall(1, Q);
      for i := 0 to count
        invariant vTemp == Pow(base, i) % Q && r == GPowers(base, i, Q)
      {
        r := r + [vTemp];
        ModCong(Pow(base, i), Q);
        CongScale(Pow(base, i) % Q, Pow(base, i), base, Q);
        CongMod((Pow(base, i) % Q) * base, Pow(base, i) * base, Q);
        MulComm(Pow(base, i), base);
        vTemp := (vTemp * base) % Q;
      }
    }

    method FillPowerMap()
      requires Valid()
      modifies this`gpower, this`gpowerMap
      ensures Valid() && MapFilled(gpowerMap, old(gpowerMap), SignBases(), Q)
      ensures gpower == if baseG in SIGN_BASES then GPowers(baseG, digitsG, Q) else old(gpower)
    {
      hide DigitCount, GPowers, MapFilled;
      var j := 0;
      MapFilledStart(gpowerMap, Q);
      ghost var done: set<nat> := {};
      while j < 3
        invariant 0 <= j <= 3 && Valid() && done == (set b | b in SIGN_BASES[..j]) &&
                  MapFilled(gpowerMap, old(gpowerMap), done, Q)
        invariant gpower == if baseG in SIGN_BASES[..j] then GPowers(baseG, digitsG, Q) else old(gpower)
      {
        var base := SIGN_BASES[j];
        var tempvec := FillPowers(base, DigitCount(Q, base));
        MapFilledStep(gpowerMap, old(gpowerMap), done, base, Q);
        gpowerMap := gpowerMap[base := tempvec];
        if baseG == base { gpower := tempvec; }
        assert SIGN_BASES[..j + 1] == SIGN_BASES[..j] + [base];
        done := done + {base};
        j := j + 1;
      }
      assert SIGN_BASES[..3] == SIGN_BASES;
      assert done == SignBases();
    }

    method FillMonomials()
      requires Valid()
      modifies this`monomials
      ensures monomials == old(monomials) + MonomialTable(N, Q)
    {
      hide Ext, Monomial;
      for i := 0 to N
        invariant monomials == old(monomials) + MonomialTable(N, Q)[..i]
      {
        var p := Zero(N);
        p := p[i := (p[i] + 1) % Q];
        p := p[0 := ModSub(p[0], 1, Q)];
        forall k | 0 <= k < N ensures p[k] == MonomialMinusOne(N, Q,
                                                               i)[k] { MonomialAt(N, i, k); ModSmall(0, Q); ModSmall(1,
                                                                                          Q); }
        assert p == MonomialMinusOne(N, Q, i);
        monomials := monomials + [p];
      }
      for i := 0 to N
        invariant monomials == old(monomials) + MonomialTable(N, Q)[..N + i]
      {
        var p := Zero(N);
        p := p[i := ModSub(p[i], 1, Q)];
        p := p[0 := ModSub(p[0], 1, Q)];
        forall k | 0 <= k < N ensures p[k] == MonomialMinusOne(N, Q, N + i)[k] {
          MonomialAt(N, i, k);
          ModSmall(0, Q);
          ModCong(-1, Q);
          CongRefl(1, Q);
          CongAdd((-1) % Q, -1, 1, 1, Q);
          CongMod((-1) % Q - 1, -1 - 1, Q);
        }
        assert p == MonomialMinusOne(N, Q, N + i);
        monomials := monomials + [p];
      }
    }

    /**
      Switches the gadget base. Looking up a base that is absent from the map inserts
      an empty table for it, so the powers then do not match the base.
    */
    method ChangeBaseG(base: nat)
      requires Valid() && base >= 2
      modifies this`baseG, this`digitsG, this`gpower, this`gpowerMap
      ensures Valid() && baseG == base
      ensures old(baseG) == base ==> digitsG == old(digitsG) && gpower == old(gpower) && gpowerMap == old(gpowerMap)
      ensures old(baseG) != base && base in old(gpowerMap) ==>
                gpower == old(gpowerMap)[base] && gpowerMap == old(gpowerMap)
      ensures old(baseG) != base && base !in old(gpowerMap) ==> gpower == [] && gpowerMap == old(gpowerMap)[base := []]
      ensures old(MapConsistent()) && base in old(gpowerMap) ==> MapConsistent()
      ensures old(MapConsistent()) && old(baseG) != base ==> (Consistent() <==> base in old(gpowerMap))
    {
      if baseG != base {
        baseG := base;
        if base !in gpowerMap { gpowerMap := gpowerMap[base := []]; }
        gpower := gpowerMap[base];
        digitsG := DigitCount(Q, base);
        assert |GPowers(base, digitsG, Q)| == digitsG > 0;
      }
    }
  }

  lemma DigitsNeeded(Q: int, base: nat)
    requires Q > 1 && base >= 2
    ensures DigitCount(Q, base) > 0
  {
    assert Pow(base, 0) == 1;
  }

  function GateConstants(q: int): seq<int> {
    [5 * (q / 8), 7 * (q / 8), q / 8, 3 * (q / 8), 5 * (q / 8), q / 8]
  }

  /** The constructor's guard: the gadget base must be a power of two. */
  method MakeParams(N: nat, Q: int, q: int, baseG: nat, baseR: nat, kind: Method, signEval: bool)
    returns (r: Result<RingGSWCryptoParams>)
    requires N > 0 && Q > 1 && q > 0 && 2 <= baseG < 0x1_0000_0000 && baseR >= 2
    ensures r.Ok? <==> IsPow2(baseG)
    ensures r.Err? ==> r.error == ConfigError
    ensures r.Ok? ==> fresh(r.value) && r.value.Valid() && r.value.TablesReady() && Pow2Base(baseG) &&
                      r.value.baseG == baseG
    ensures r.Ok? ==> r.value.N == N && r.value.Q == Q && r.value.q == q && r.value.kind == kind
    ensures r.Ok? ==> r.value.MapConsistent()
    ensures r.Ok? ==> r.value.gpowerMap.Keys == if signEval then {0x4000, 0x4_0000, 0x800_0000} else {}
    ensures r.Ok? ==> (r.value.Consistent() <==>
                         !signEval || baseG == 0x4000 || baseG == 0x4_0000 || baseG == 0x800_0000)
  {
    PowerOfTwoBits(baseG);
    if Pow(2, GBits(baseG)) != baseG { return Err(ConfigError); }
    var p := new RingGSWCryptoParams(N, Q, q, baseG, baseR, kind, signEval);
    return Ok(p);
  }

  lemma PowerOfTwoBits(x: nat)
    requires 2 <= x < 0x1_0000_0000
    ensures 1 <= GBits(x) <= 64
    ensures Pow(2, GBits(x)) == x <==> IsPow2(x)
  {
    var k := GBits(x);
    Pow64();
    if k > 64 { PowMono(2, 64, k - 1); }
    if IsPow2(x) {
      var g: nat :| Pow(2, g) == x;
      if g > 64 { PowMono(2, 64, g); }
      if g > k { PowMono(2, k, g); }
      if g < k { PowMono(2, g, k - 1); }
    }
  }
}
