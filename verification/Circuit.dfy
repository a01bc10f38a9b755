/** Circuits of gates, evaluated on ciphertexts. */
module Circuits {
  import opened Arith
  import opened Native
  import opened Ring
  import opened Gadget
  import opened RgswParams
  import opened Lwe
  import opened Encryption
  import opened Dm
  import opened Bootstrapping
  import opened Gates

  /** One step of a circuit; operands are indices of earlier wires. */
  datatype Step = Literal(value: bool) | Not(i: nat) | Apply(g: Gate, i: nat, j: nat)

  predicate StepOk(st: Step, wires: nat) {
    match st
    case Literal(_) => true
    case Not(i) => i < wires
    case Apply(_, i, j) => i < wires && j < wires
  }

  /** Every operand refers to an input or an earlier step. */
  predicate WellFormed(circuit: seq<Step>, inputs: nat) {
    forall k :: 0 <= k < |circuit| ==> StepOk(circuit[k], inputs + k)
  }

  function StepValue(st: Step, w: seq<bool>): bool
    requires StepOk(st, |w|)
  {
    match st
    case Literal(b) => b
    case Not(i) => !w[i]
    case Apply(g, i, j) => Truth(g, w[i], w[j])
  }

  /** The Boolean value of every wire after the first n steps. */
  function Values(circuit: seq<Step>, inputs: seq<bool>, n: nat): (w: seq<bool>)
    requires WellFormed(circuit, |inputs|) && n <= |circuit|
    ensures |w| == |inputs| + n
  {
    if n == 0 then inputs
    else var w := Values(circuit, inputs, n - 1); w + [StepValue(circuit[n - 1], w)]
  }

  /** Step k feeds one wire to both operands of a gate. */
  predicate SelfGate(circuit: seq<Step>, k: int)
    requires 0 <= k < |circuit|
  {
    circuit[k].Apply? && circuit[k].i == circuit[k].j
  }

  /** Room for every gate of the circuit: 2v < q/8, and 4v < q/8 if it uses the fast gates. */
  predicate Room(p: LweParams, circuit: seq<Step>, v: int) {
    && 2 * v < p.q / 8
    && forall k :: 0 <= k < |circuit| ==> (circuit[k].Apply? && IsFast(circuit[k].g) ==> 4 * v < p.q / 8)
  }

  /** A noiseless ciphertext of a constant. */
  method NoiselessEmbedding(p: LweParams, value: bool, ghost s: seq<int>, ghost v: nat) returns (ct: LWECiphertext)
    requires GateParams(p) && |s| == p.n
    ensures fresh(ct) && Small(p, ct.Value()) && Carries(p, ct.Value(), s, value, v)
  {
    var a: seq<int> := [];
    for i := 0 to p.n
      invariant a == Zero(i)
    {
      a := a + [0];
    }
    ct := new LWECiphertext(Cipher(a, (if value then 1 else 0) * (p.q / 4), p.q));
    DotZeros(p.n, s);
    NearOf(ct.b, ct.b, 0, p.q, v);
  }

  ghost predicate WiresOk(p: LweParams, wires: seq<LWECiphertext>, bits: seq<bool>, s: seq<int>, v: int)
    reads wires
  {
    && |wires| == |bits|
    && (forall k :: 0 <= k < |wires| ==> Small(p, wires[k].Value()) && Carries(p, wires[k].Value(), s, bits[k], v))
    && forall k, l :: 0 <= k < l < |wires| ==> wires[k] != wires[l]
  }

  /**
    Any well-formed circuit, of any size and depth, run on distinct input ciphertexts
    with noise at most v: it fails exactly if some gate is given one wire twice, and
    otherwise every wire carries its Boolean value with noise at most v.
  */
  method RunCircuit(p: LweParams, params: RingGSWCryptoParams, EK: BTKey, circuit: seq<Step>,
                    inputs: seq<LWECiphertext>,
                    ghost w: Secrets, ghost bits: seq<bool>) returns (r: Result<seq<LWECiphertext>>)
    requires GateParams(p) && EK.bs.HasKey? && ReadyEither(p, params, EK, w)
    requires WellFormed(circuit, |inputs|) && |bits| == |inputs|
    requires Room(p, circuit, GateNoise(p, AccNoise(p, params, w.E), w.Eks))
    requires WiresOk(p, inputs, bits, w.s, GateNoise(p, AccNoise(p, params, w.E), w.Eks))
    ensures r.Err? <==> exists k :: 0 <= k < |circuit| && SelfGate(circuit, k)
    ensures r.Ok? ==> inputs <= r.value
    ensures r.Ok? ==> WiresOk(p, r.value, Values(circuit, bits, |circuit|), w.s,
                              GateNoise(p, AccNoise(p, params, w.E), w.Eks))
  {
    hide Carries, Small, ReadyEither, AccNoise, GateNoise, StepValue, Truth;
    EitherFacts(p, params, EK, w);
    GateNoisePositive(p, AccNoise(p, params, w.E), w.Eks);
    ghost var v := GateNoise(p, AccNoise(p, params, w.E), w.Eks);
    var wires := inputs;
    var k := 0;
    while k < |circuit|
      invariant 0 <= k <= |circuit| && inputs <= wires
      invariant WiresOk(p, wires, Values(circuit, bits, k), w.s, v)
      invariant forall i :: 0 <= i < k ==> !SelfGate(circuit, i)
    {
      ghost var now := Values(circuit, bits, k);
      var st := circuit[k];
      assert StepOk(st, |wires|);
      if st.Apply? && st.i == st.j {
        assert SelfGate(circuit, k);
      }
      var next := RunStep(p, params, EK, st, wires, w, now, v);
      if next.Err? { return Err(next.error); }
      wires := wires + [next.value];
      k := k + 1;
    }
    return Ok(wires);
  }

  lemma GateNoisePositive(p: LweParams, acc: nat, Eks: nat)
    requires p.Valid()
    ensures GateNoise(p, acc, Eks) >= 0
  {
    BootNoisePositive(p, p.q, acc, Eks, 2);
  }

  method RunStep(p: LweParams, params: RingGSWCryptoParams, EK: BTKey, st: Step, wires: seq<LWECiphertext>,
                 ghost w: Secrets, ghost bits: seq<bool>, ghost v: int) returns (r: Result<LWECiphertext>)
    requires GateParams(p) && EK.bs.HasKey? && ReadyEither(p, params, EK, w) && |w.s| == p.n && StepOk(st, |wires|)
    requires v == GateNoise(p, AccNoise(p, params, w.E), w.Eks) >= 0 && 2 * v < p.q / 8
    requires st.Apply? && IsFast(st.g) ==> 4 * v < p.q / 8
    requires WiresOk(p, wires, bits, w.s, v)
    ensures r.Err? <==> st.Apply? && st.i == st.j
    ensures r.Ok? ==> fresh(r.value) && Small(p, r.value.Value()) &&
                      Carries(p, r.value.Value(), w.s, StepValue(st, bits), v)
  {
    hide Carries, Small, ReadyEither, AccNoise, GateNoise;
    match st
    case Literal(b) =>
      var ct := NoiselessEmbedding(p, b, w.s, v);
      return Ok(ct);
    case Not(i) =>
      NotCarries(p, wires[i].Value(), w.s, bits[i], v);
      SmallValid(p, wires[i].Value());
      var ct := EvalNOT(wires[i]);
      return Ok(ct);
    case Apply(g, i, j) =>
      assert i != j ==> wires[i] != wires[j];
      r := EvalBinGate(p, params, g, EK, wires[i], wires[j], w, bits[i], bits[j], v, v);
  }

  lemma SmallValid(p: LweParams, c: Cipher)
    requires Small(p, c)
    ensures c.Valid()
  {
  }

  /** A wire with noise below q/8 decrypts, modulo 4, to its bit. */
  lemma CarriesDecodes(p: LweParams, c: Cipher, s: seq<int>, x: bool, v: int)
    requires GateParams(p) && Small(p, c) && Carries(p, c, s, x, v) && v < p.q / 8
    ensures Decode(Phase(c, s) % p.q, 4, p.q) == Bit(x)
  {
    hide Phase, Decode;
    var u := p.q / 8;
    DivMod(p.q, 8);
    var e := NearError(Phase(c, s), Bit(x) * (p.q / 4), p.q, v);
    assert p.q == (2 * u) * 4 && p.q / 4 == 2 * u;
    DecodeExactly(Phase(c, s), Bit(x), 4, u, e);
  }

  /** Parameters that meet every hypothesis, fast gates included, for CGGI and for DM with base 32. */
  lemma SomeParametersWork()
    ensures var p := LweParams(1, 32, 64, 0x200_0000_0001, 0x10_0000, 0x10_0000);
            && GateParams(p) && Pow2Base(0x4000) && DigitCount(p.Q, 0x4000) == 3 && ExactGadget(p.Q, 0x4000, 3)
            && 0 <= 4 * GateNoise(p, AccBound(p, 0x4000, 3, 1), 1) < p.q / 8
            && DigitCount(p.q, 32) == 2
            && 0 <= 4 * GateNoise(p, DmBound(p.n, 2, DmStepBound(p.N, 0x4000, 3, 1, 0)), 1) < p.q / 8
  {
    SmallBase();
    SomeGadget();
    SomeNoise();
    SomeNoiseDM();
  }

  lemma SomeGadget()
    ensures DigitCount(0x200_0000_0001, 0x4000) == 3 && ExactGadget(0x200_0000_0001, 0x4000, 3)
  {
    var B := 0x4000;
    assert Pow(B, 1) == B && Pow(B, 2) == 0x1000_0000 && Pow(B, 3) == 0x400_0000_0000;
    assert Geometric(B, 3) == 1 + B + 0x1000_0000;
  }

  lemma SomeNoise()
    ensures var p := LweParams(1, 32, 64, 0x200_0000_0001, 0x10_0000, 0x10_0000);
            p.Valid() && 0 <= GateNoise(p, AccBound(p, 0x4000, 3, 1), 1) <= 1
  {
    var p := LweParams(1, 32, 64, 0x200_0000_0001, 0x10_0000, 0x10_0000);
    assert DigitCount(p.qKS, p.baseKS) == 1 by { assert Pow(p.baseKS, 1) == p.baseKS; }
    assert AccBound(p, 0x4000, 3, 1) == 6291456;
  }

  lemma SomeNoiseDM()
    ensures var p := LweParams(1, 32, 64, 0x200_0000_0001, 0x10_0000, 0x10_0000);
            && p.Valid() && DigitCount(p.q, 32) == 2
            && 0 <= GateNoise(p, DmBound(p.n, 2, DmStepBound(p.N, 0x4000, 3, 1, 0)), 1) <= 1
  {
    var p := LweParams(1, 32, 64, 0x200_0000_0001, 0x10_0000, 0x10_0000);
    assert DigitCount(p.qKS, p.baseKS) == 1 by { assert Pow(p.baseKS, 1) == p.baseKS; }
    assert Pow(32, 1) == 32 && Pow(32, 2) == 1024;
    assert DmBound(p.n, 2, DmStepBound(p.N, 0x4000, 3, 1, 0)) == 3145728;
  }

  lemma SmallBase()
    ensures Pow2Base(0x4000)
  {
    Pow8();
    PowAdd(2, 8, 6);
    assert Pow(2, 6) == 64;
    Pow2BaseOf(14);
  }
}
