/** Generation of the map of bootstrapping keys, one per gadget base (binfhecontext.cpp). */
module Context {
  import opened Arith
  import opened Native
  import opened Ring
  import opened Gadget
  import opened RgswParams
  import opened RgswKeys
  import opened Lwe
  import opened KeySwitching
  import opened Bootstrapping
  import opened BootKeys
  import opened Runs
  import opened LargePrecision

  /** The randomness of one call of KeyGen: a ring secret, and vectors and errors of both keys. */
  datatype Drawn = Drawn(skN: PrivateKey, ksA: seq<seq<seq<seq<int>>>>, ksE: Errors, a: seq<seq<Poly>>,
                         e: seq<seq<Poly>>)

  /** The draws for one base stand for signed errors bounded by the owner's bounds. */
  ghost predicate DrawnFor(p: LweParams, d: Drawn, base: nat, errs: seq<seq<Poly>>, w: Secrets, o: Owner)
    requires p.Valid()
  {
    && base >= 2 && d.skN.Valid() && |d.skN.elements| == p.N && d.skN.modulus == p.Q && Ternary(d.skN.Signed())
    && Draws(d.ksA, d.ksE, p.n, p.N, p.baseKS, p.DigitsKS(), p.qKS)
    && AccDrawsFor(p, base, d.a, d.e, errs, o.E)
    && w.s == o.s && w.E == o.E && w.Eks == o.Eks && w.z == d.skN.Signed()
    && SameErrors(d.ksE, w.ksErrors, p.qKS) && ErrorsBounded(w.ksErrors, w.Eks)
  }

  ghost predicate AccDrawsFor(p: LweParams, base: nat, a: seq<seq<Poly>>, e: seq<seq<Poly>>, errs: seq<seq<Poly>>,
                              E: nat)
    requires p.Valid() && base >= 2
  {
    && |a| == |e| == |errs| == 2 * p.n
    && (forall i :: 0 <= i < |a| ==> DrawsOk(a[i], e[i], p.N, 2 * DigitCount(p.Q, base), p.Q))
    && (forall i :: 0 <= i < |a| ==> StandsFor(e[i], errs[i], p.Q))
    && forall i, l :: 0 <= i < |errs| && 0 <= l < |errs[i]| ==> Bounded(errs[i][l], E)
  }

  /** Draws, errors and secrets for every base of a set. */
  ghost predicate AllDrawn(p: LweParams, bases: set<nat>, draws: map<nat, Drawn>, errs: map<nat, seq<seq<Poly>>>,
                           o: Owner)
    requires p.Valid()
  {
    forall b :: b in bases ==> b in draws && b in errs && b in o.behind &&
                               DrawnFor(p, draws[b], b, errs[b], o.behind[b], o)
  }

  ghost predicate Usable(p: LweParams, bases: set<nat>)
    requires p.Valid()
  {
    forall b :: b in bases ==> b >= 2 && Pow2Base(b) && GadgetOk(p.Q, b, DigitCount(p.Q, b))
  }

  class BinFHEContext {
    const p: LweParams
    const params: RingGSWCryptoParams
    const timeOptimization: bool
    var btKey: BTKey
    var btKeyMap: Keys

    constructor (p: LweParams, params: RingGSWCryptoParams, timeOptimization: bool)
      ensures this.p == p && this.params == params && this.timeOptimization == timeOptimization && btKeyMap == map[]
    {
      this.p, this.params, this.timeOptimization := p, params, timeOptimization;
      btKey, btKeyMap := BTKey(NoKey, SwitchingKey([], [])), map[];
    }

    /** The bases for which keys are generated. */
    ghost function Bases(): set<nat>
      reads this, params
    {
      if timeOptimization && params.gpowerMap != map[] then params.gpowerMap.Keys else {params.baseG}
    }

    /** The tables agree with each other, with the current base and with the moduli. */
    predicate TablesAgree()
      reads params
    {
      ParamsReady(p, params) && params.Consistent() && params.MapConsistent()
    }

    /** A key per base; they are valid if the secret was read as meant. */
    ghost predicate Generated(done: set<nat>, o: Owner, same: bool)
      requires p.Valid()
      reads this
    {
      && btKeyMap.Keys == done
      && forall b :: b in done ==> btKeyMap[b].bs.HasKey? && (same ==> KeyOf(p, btKeyMap[b], b, o))
    }

    /** One key for the current base. */
    method KeyForBase(sk: PrivateKey, d: Drawn, ghost errs: seq<seq<Poly>>, ghost o: Owner) returns (r: Result<BTKey>)
      requires p.Valid() && TablesAgree() && (p.n + 1) * p.qKS <= WORD
      requires sk.Valid() && |sk.elements| == p.n && o.s == sk.Signed()
      requires params.baseG in o.behind && DrawnFor(p, d, params.baseG, errs, o.behind[params.baseG], o)
      requires Usable(p, {params.baseG})
      ensures r.Ok? <==> Ternary(sk.Read())
      ensures r.Err? ==> r.error == NotImplementedError
      ensures r.Ok? ==> r.value.bs.HasKey?
      ensures r.Ok? && sk.Read() == sk.Signed() ==> KeyOf(p, r.value, params.baseG, o)
    {
      hide Draws, DrawsOk, StandsFor, Bounded, SameErrors, ErrorsBounded, DigitCount, Ternary, ValidBTKey, GadgetOk,
           Pow2Base;
      r := KeyGen(p, params, sk, d.skN, d.ksA, d.ksE, d.a, d.e, errs, o.behind[params.baseG]);
    }

    /** Switching to a base of the power map keeps the tables in agreement. */
    method SwitchBase(base: nat)
      requires TablesAgree() && base >= 2
      requires base == params.baseG || base in params.gpowerMap
      modifies params`baseG, params`digitsG, params`gpower, params`gpowerMap
      ensures TablesAgree() && params.gpowerMap == old(params.gpowerMap) && params.baseG == base
    {
      hide DigitCount, GPowers, MonomialTable;
      params.ChangeBaseG(base);
    }

    /** One key per base of the power map, switching the base for each. */
    method KeysForMap(sk: PrivateKey, draws: map<nat, Drawn>, ghost errs: map<nat, seq<seq<Poly>>>,
                      ghost o: Owner) returns (r: Result<()>)
      requires p.Valid() && TablesAgree() && btKeyMap == map[]
      requires sk.Valid() && |sk.elements| == p.n && (p.n + 1) * p.qKS <= WORD && o.s == sk.Signed()
      requires Usable(p, params.gpowerMap.Keys) && AllDrawn(p, params.gpowerMap.Keys, draws, errs, o)
      modifies this, params`baseG, params`digitsG, params`gpower, params`gpowerMap
      ensures params.gpowerMap == old(params.gpowerMap) && TablesAgree()
      ensures params.gpowerMap == map[] ==> r.Ok? && params.baseG == old(params.baseG)
      ensures params.gpowerMap != map[] ==> (r.Ok? <==> Ternary(sk.Read()))
      ensures r.Err? ==> r.error == NotImplementedError
      ensures r.Ok? ==> Generated(params.gpowerMap.Keys, o, sk.Read() == sk.Signed())
    {
      hide DrawnFor, DigitCount, KeyOf, Usable, GPowers, Ternary, TablesAgree;
      var todo := params.gpowerMap.Keys;
      ghost var all := todo;
      while todo != {}
        invariant todo <= all && Generated(all - todo, o, sk.Read() == sk.Signed())
        invariant TablesAgree() && params.gpowerMap == old(params.gpowerMap)
        invariant todo == all ==> params.baseG == old(params.baseG)
        invariant todo != all ==> Ternary(sk.Read())
        decreases todo
      {
        var b :| b in todo;
        UsableAt(p, all, b);
        SwitchBase(b);
        var key := KeyForBase(sk, draws[b], errs[b], o);
        if key.Err? { return Err(key.error); }
        btKeyMap := btKeyMap[b := key.value];
        todo := todo - {b};
        assert b in all && b !in todo;
      }
      return Ok(());
    }

    /**
      From an empty map: with time optimization, one key per base of the power map, switching
      the base for each; otherwise one key for the current base. It fails exactly when the secret
      as read is not ternary. On success the current key is the one of the current base, and the
      base and its tables are those of the call. For a ternary secret whose modulus passes the
      32-bit cast every key is valid for the base it is stored under, and with the three bases
      of the large-precision loops (or none) the map is complete for their runs.
    */
    method BTKeyGen(sk: PrivateKey, draws: map<nat, Drawn>, ghost errs: map<nat, seq<seq<Poly>>>,
                    ghost o: Owner) returns (r: Result<()>)
      requires p.Valid() && TablesAgree() && btKeyMap == map[]
      requires sk.Valid() && |sk.elements| == p.n && (p.n + 1) * p.qKS <= WORD && o.s == sk.Signed()
      requires params.baseG in Bases() && Usable(p, Bases()) && AllDrawn(p, Bases(), draws, errs, o)
      modifies this, params`baseG, params`digitsG, params`gpower, params`gpowerMap
      ensures params.gpowerMap == old(params.gpowerMap)
      ensures r.Ok? <==> Ternary(sk.Read())
      ensures CastOk(sk.modulus) && Ternary(sk.Signed()) ==> r.Ok? && KeysReady(p, btKeyMap, o)
      ensures r.Err? ==> r.error == NotImplementedError
      ensures r.Ok? ==> EntryOf(params) == old(EntryOf(params)) && TablesAgree()
      ensures r.Ok? ==> btKeyMap.Keys == old(Bases()) && btKey == btKeyMap[params.baseG] && btKey.bs.HasKey?
      ensures r.Ok? && timeOptimization && params.gpowerMap != map[] ==> btKeyMap.Keys == params.gpowerMap.Keys
      ensures r.Ok? && timeOptimization && params.gpowerMap.Keys == {0x4000, 0x4_0000, 0x800_0000} ==>
                btKeyMap.Keys == {0x4000, 0x4_0000, 0x800_0000} && |btKeyMap| == 3
      ensures r.Ok? && (!timeOptimization || params.gpowerMap == map[]) ==> btKeyMap.Keys == {params.baseG}
      ensures r.Ok? && (params.gpowerMap == map[] || params.gpowerMap.Keys == {0x4000, 0x4_0000, 0x800_0000}) ==>
                Complete(btKeyMap, params.baseG)
    {
      hide DrawnFor, DigitCount, KeyOf, GPowers, Ternary, AllDrawn, Usable, KeysReady, CastOk, TablesAgree,
           Complete;
      AgreeFields();
      if CastOk(sk.modulus) && Ternary(sk.Signed()) { ReadTernary(sk); }
      var temp := params.baseG;
      UsableAt(p, Bases(), temp);
      if timeOptimization {
        NoBases(p, params.gpowerMap.Keys, draws, errs, o);
        r := KeysForMap(sk, draws, errs, o);
        if r.Err? { return; }
        SwitchBase(temp);
      }
      if |btKeyMap| != 0 {
        btKey := btKeyMap[temp];
      } else {
        DrawnAt(p, old(Bases()), draws, errs, o, temp);
        var key := KeyForBase(sk, draws[temp], errs[temp], o);
        if key.Err? { return Err(key.error); }
        btKey := key.value;
        btKeyMap := btKeyMap[temp := btKey];
      }
      if CastOk(sk.modulus) && Ternary(sk.Signed()) { GeneratedReady(btKeyMap.Keys, o); }
      GeneratedComplete(btKeyMap, temp, params.gpowerMap);
      AgreeFields();
      return Ok(());
    }

    lemma AgreeFields()
      requires TablesAgree()
      ensures params.baseG >= 2 && params.Q > 1
      ensures params.digitsG == DigitCount(params.Q, params.baseG) &&
              params.gpower == GPowers(params.baseG, params.digitsG, params.Q)
    {
    }

    lemma GeneratedReady(done: set<nat>, o: Owner)
      requires p.Valid() && Generated(done, o, true) && |o.s| == p.n && Ternary(o.s)
      ensures KeysReady(p, btKeyMap, o)
    {
    }
  }

  // ----- contexts for large precision -----

  /** The parameter sets; only the first two are accepted with a modulus size. */
  datatype ParamSet = TOY | STD128 | OtherSet

  /** The gadget base for a modulus of logQ bits. */
  function BaseForLogQ(logQ: nat): nat {
    if logQ > 25 then 0x4000 else if logQ > 16 then 0x4_0000 else if logQ > 11 then 0x800_0000 else 0x20
  }

  /** The four bases as powers of two. */
  lemma BasePowers()
    ensures Pow2Base(0x20) && Pow2Base(0x4000) && Pow2Base(0x4_0000) && Pow2Base(0x800_0000)
    ensures IsPow2(0x20) && IsPow2(0x4000) && IsPow2(0x4_0000) && IsPow2(0x800_0000)
  {
    hide Pow2Base;
    Pow8();
    assert Pow(2, 5) == 0x20;
    assert Pow(2, 6) == 0x40;
    PowAdd(2, 8, 6);
    PowAdd(2, 14, 4);
    PowAdd(2, 18, 8);
    assert Pow(2, 27) == 2 * Pow(2, 26);
    Pow2BaseOf(5);
    Pow2BaseOf(14);
    Pow2BaseOf(18);
    Pow2BaseOf(27);
  }

  /** Every power-of-two base decomposes an odd modulus. */
  lemma UsableBases(p: LweParams, bases: set<nat>)
    requires p.Valid() && p.Q % 2 == 1 && bases <= {0x20, 0x4000, 0x4_0000, 0x800_0000}
    ensures Usable(p, bases)
  {
    hide Pow2Base, DigitCount;
    BasePowers();
    forall b | b in bases ensures b >= 2 && Pow2Base(b) && GadgetOk(p.Q, b, DigitCount(p.Q, b)) {
      DigitsNeeded(p.Q, b);
    }
  }

  /** A power of two from 2^32 on has a zero low word, which passes the cast. */
  lemma CastOfKeyModulus()
    ensures CastOk(0x8_0000_0000)
  {
    ToInt32Of(0x8_0000_0000, 0, 8);
  }

  /** The context has the moduli asked for; ring dimension and prime are found elsewhere. */
  predicate ContextFor(ctx: BinFHEContext, toy: bool, arbFunc: bool, ringDim: nat, Q: int) {
    var q := if arbFunc then ringDim else 2 * ringDim;
    ctx.p == LweParams(if toy then 32 else 1305, ringDim, q, Q, 0x8_0000_0000, 32)
  }

  /**
    A context for large precision. It fails exactly for another method than GINX, another set than
    the two, or logQ outside [11, 29]. The base is 2^14 above 25 bits, 2^18 above 16, 2^27 above 11 and 2^5 for 11;
    the three tables are stored exactly with time optimization and more than 11 bits, and the base is
    then one of theirs. Such a context meets what key generation asks of its tables, bases and moduli.
  */
  method GenerateBinFHEContext(set_: ParamSet, arbFunc: bool, logQ: nat, kind: Method, timeOptimization: bool,
                               ringDim: nat, Q: int) returns (r: Result<BinFHEContext>)
    requires ringDim > 0 && Q > 1 && Q % 2 == 1
    ensures r.Ok? <==> kind == GINX && set_ != OtherSet && 11 <= logQ <= 29
    ensures r.Err? ==> r.error == NotImplementedError
    ensures r.Ok? ==> fresh(r.value) && fresh(r.value.params) && r.value.btKeyMap == map[]
    ensures r.Ok? ==> ContextFor(r.value, set_ == TOY, arbFunc, ringDim, Q) && CastOk(r.value.p.qKS)
    ensures r.Ok? ==> r.value.timeOptimization == timeOptimization && r.value.TablesAgree()
    ensures r.Ok? ==> var base := r.value.params.baseG;
              && (26 <= logQ <= 29 ==> base == 0x4000) && (17 <= logQ <= 25 ==> base == 0x4_0000)
              && (12 <= logQ <= 16 ==> base == 0x800_0000) && (logQ == 11 ==> base == 0x20)
    ensures r.Ok? ==> r.value.params.gpowerMap.Keys ==
                      if timeOptimization && logQ > 11 then {0x4000, 0x4_0000, 0x800_0000} else {}
    ensures r.Ok? ==> r.value.params.baseG in r.value.Bases() && Usable(r.value.p, r.value.Bases())
  {
    hide Usable, DigitCount, GPowers, CastOk, IsPow2, Pow2Base, MonomialTable;
    if kind != GINX || set_ == OtherSet || logQ > 29 || logQ < 11 { return Err(NotImplementedError); }
    var baseG := BaseForLogQ(logQ);
    var q := if arbFunc then ringDim else 2 * ringDim;
    var p := LweParams(if set_ == TOY then 32 else 1305, ringDim, q, Q, 0x8_0000_0000, 32);
    BasePowers();
    var params := MakeParams(ringDim, Q, q, baseG, 23, kind, logQ != 11 && timeOptimization);
    var ctx := new BinFHEContext(p, params.value, timeOptimization);
    CastOfKeyModulus();
    UsableBases(p, ctx.Bases());
    return Ok(ctx);
  }

  /** One key, or a key for each of the three bases. */
  lemma GeneratedComplete(keys: Keys, base: nat, tables: map<nat, seq<int>>)
    requires base in keys && forall b :: b in keys ==> keys[b].bs.HasKey?
    requires keys.Keys == tables.Keys || keys.Keys == {base}
    ensures tables == map[] || tables.Keys == {0x4000, 0x4_0000, 0x800_0000} ==> Complete(keys, base)
    ensures keys.Keys == {0x4000, 0x4_0000, 0x800_0000} ==> |keys| == 3
  {
    assert |keys| == |keys.Keys|;
  }

  lemma NoBases(p: LweParams, bases: set<nat>, draws: map<nat, Drawn>, errs: map<nat, seq<seq<Poly>>>, o: Owner)
    requires p.Valid()
    ensures bases == {} ==> Usable(p, bases) && AllDrawn(p, bases, draws, errs, o)
  {
  }

  lemma DrawnAt(p: LweParams, bases: set<nat>, draws: map<nat, Drawn>, errs: map<nat, seq<seq<Poly>>>, o: Owner, b: nat)
    requires p.Valid() && b in bases && AllDrawn(p, bases, draws, errs, o)
    ensures b in draws && b in errs && b in o.behind && DrawnFor(p, draws[b], b, errs[b], o.behind[b], o)
  {
  }

  lemma UsableAt(p: LweParams, bases: set<nat>, b: nat)
    requires p.Valid() && Usable(p, bases) && b in bases
    ensures Usable(p, {b}) && b >= 2
  {
  }
}
