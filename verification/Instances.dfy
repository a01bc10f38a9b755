/** Parameters that meet the hypotheses of the functional and large-precision results. */
module Instances {
  import opened Arith
  import opened Native
  import opened Gadget
  import opened RgswParams
  import opened Bootstrapping
  import opened Functional
  import opened FunctionEval
  import opened Levels
  import opened Runs
  import opened LargePrecision
  import opened EndToEnd

  /** A prime just below 2^54 with the library's key-switching modulus and base, and a small ring. */
  const SAMPLE: LweParams := LweParams(1, 128, 64, 0x3F_FFFF_FFFF_FF01, 0x8_0000_0000, 32)

  lemma SampleDigits()
    ensures DigitCount(SAMPLE.qKS, SAMPLE.baseKS) == 7
    ensures DigitCount(SAMPLE.Q, 0x4000) == 4 && DigitCount(SAMPLE.Q, 0x4_0000) == 3 &&
            DigitCount(SAMPLE.Q, 0x800_0000) == 2
  {
    var A, B, C := 0x4000, 0x4_0000, 0x800_0000;
    assert Pow(32, 2) == 0x400 && Pow(32, 4) == 0x10_0000 by { PowAdd(32, 2, 2); }
    PowAdd(32, 2, 4);
    assert Pow(32, 6) == 0x4000_0000 && Pow(32, 7) == 32 * Pow(32, 6);
    DigitCountUnique(SAMPLE.qKS, 32, 7);
    assert Pow(A, 2) == 0x1000_0000 && Pow(A, 3) == 0x400_0000_0000 && Pow(A, 4) == 0x100_0000_0000_0000;
    DigitCountUnique(SAMPLE.Q, A, 4);
    assert Pow(B, 2) == 0x10_0000_0000 && Pow(B, 3) == 0x40_0000_0000_0000;
    DigitCountUnique(SAMPLE.Q, B, 3);
    assert Pow(C, 1) == C && Pow(C, 2) == 0x40_0000_0000_0000;
    DigitCountUnique(SAMPLE.Q, C, 2);
  }

  /** For the two larger bases the gadget is not exact and the slack is 2^54 - Q; for 2^14 it is exact. */
  lemma SampleSlack()
    ensures GadgetSlack(SAMPLE.Q, 0x4000, 4) == 0
    ensures GadgetSlack(SAMPLE.Q, 0x4_0000, 3) == 255 && GadgetSlack(SAMPLE.Q, 0x800_0000, 2) == 255
  {
    var A, B, C, Q := 0x4000, 0x4_0000, 0x800_0000, SAMPLE.Q;
    assert Pow(A, 1) == A && Pow(A, 2) == 0x1000_0000 && Pow(A, 3) == 0x400_0000_0000;
    assert Geometric(A, 4) == 1 + A + 0x1000_0000 + 0x400_0000_0000;
    assert Pow(B, 1) == B && Pow(B, 2) == 0x10_0000_0000 && Pow(B, 3) == 0x40_0000_0000_0000;
    assert Geometric(B, 3) == 1 + B + 0x10_0000_0000;
    assert Pow(C, 1) == C && Pow(C, 2) == 0x40_0000_0000_0000 && Geometric(C, 2) == 1 + C;
    DivModUnique(0x40_0000_0000_0000, 1, 255, Q);
  }

  /** With errors of at most 20, a bootstrap to any modulus of at most 1024 has noise at most 1, for all three bases. */
  lemma SampleNoise(F: int, base: nat)
    requires 0 < F <= 1024 && (base == 0x4000 || base == 0x4_0000 || base == 0x800_0000)
    ensures LevelNoise(SAMPLE, F, base, 20, 20) <= 1
  {
    hide DigitCount, GadgetSlack;
    SampleDigits();
    SampleSlack();
    var k := DigitCount(SAMPLE.Q, base);
    var acc := AccBound(SAMPLE, base, k, 20);
    assert acc <= 0x400_0000_0000;
    NoiseOne(F, acc, SAMPLE.Q % F);
  }

  lemma NoiseOne(F: int, acc: nat, slack: nat)
    requires 0 < F <= 1024 && acc <= 0x400_0000_0000 && slack < 1024 && DigitCount(SAMPLE.qKS, SAMPLE.baseKS) == 7
    ensures BootNoise(SAMPLE, F, acc, 20, slack) <= 1
  {
    hide DigitCount;
    var Q, K := SAMPLE.Q, SAMPLE.qKS;
    MulMono(F, 1024, K * (acc + slack));
    MulMono(acc + slack, 0x400_0000_0400, K);
    var x := TailBound(SAMPLE, F, 20) + 2 * (F * (K * (acc + slack)));
    assert KsBound(SAMPLE, 20) == 17920;
    assert x < 2 * (2 * (Q * K));
    DivMod(x, 2 * (Q * K));
    MulAtLeast(x / (2 * (Q * K)) - 2, 2 * (Q * K));
    MulDistrib(x / (2 * (Q * K)), 2, 2 * (Q * K));
  }

  lemma SamplePowers()
    ensures LargeParams(SAMPLE, 8) && IsPow2(64) && IsPow2(128) && IsPow2(256) && IsPow2(1024)
  {
    Pow8();
    assert Pow(2, 7) == 128;
    assert Pow(2, 3) == 8;
    PowAdd(2, 3, 3);
    assert Pow(2, 6) == 64;
    PowAdd(2, 8, 2);
    assert Pow(2, 2) == 4 && Pow(2, 10) == 1024;
  }

  /** One bound covers all levels and all bases: the pipeline has room for messages with errors up to 1. */
  lemma SampleUniform(o: Owner)
    requires o.E == 20 && o.Eks == 20
    ensures LargeParams(SAMPLE, 8) && IsPow2(1024) && DigitSize(SAMPLE.q, 8) == 4
    ensures UniformNoise(SAMPLE, 8, o, 1024, 0x4000, 1, 1)
    ensures forall bases: set<nat> :: RoomForBases(SAMPLE, 8, o, bases, 1024, 0x4000, 1)
  {
    hide LevelNoise, IsPow2, NoiseAtMost, LargeParams, FloorNoise, RoomForBases;
    SamplePowers();
    SampleLevels(o);
    SampleLast(o);
    assert FloorNoise(1, 4, 1) == 1 by { SampleFloor(); }
    forall bases: set<nat> ensures RoomForBases(SAMPLE, 8, o, bases, 1024, 0x4000, 1) {
      UniformRuns(SAMPLE, 8, o, bases, 1024, 0x4000, 1, 1);
    }
  }

  lemma SampleFloor()
    ensures FloorNoise(1, 4, 1) == 1
  {
  }

  lemma SampleLast(o: Owner)
    requires o.E == 20 && o.Eks == 20
    ensures forall b: nat :: Visitable(b, 0x4000) ==> LevelNoise(SAMPLE, SAMPLE.q, b, o.E, o.Eks) < SAMPLE.q / 4
  {
    hide LevelNoise;
    forall b: nat | Visitable(b, 0x4000) ensures LevelNoise(SAMPLE, SAMPLE.q, b, o.E, o.Eks) < SAMPLE.q / 4 {
      SampleNoise(SAMPLE.q, b);
    }
  }

  lemma SampleLevels(o: Owner)
    requires o.E == 20 && o.Eks == 20
    ensures NoiseAtMost(SAMPLE, o, 1024, 0x4000, 1)
  {
    hide LevelNoise, IsPow2;
    forall m: int, b: nat | SAMPLE.q < m <= 1024 && IsPow2(m) && Visitable(b, 0x4000)
      ensures LevelNoise(SAMPLE, m, b, o.E, o.Eks) <= 1
    {
      SampleNoise(m, b);
    }
  }

  /** For every map of keys there is room for a run from 1024, and tables over four messages have room as well. */
  lemma SampleRuns(keys: Keys, o: Owner)
    requires o.E == 20 && o.Eks == 20
    ensures FuncParams(SAMPLE, 64, 8, 4) && LargeParams(SAMPLE, 8) && IsPow2(1024)
    ensures 1 + FuncNoise(SAMPLE, 64, 0x4000, DigitCount(SAMPLE.Q, 0x4000), 20, 20) < 8
    ensures 1 + FuncNoise(SAMPLE, 128, 0x4000, DigitCount(SAMPLE.Q, 0x4000), 20, 20) < 8
    ensures LevelRoom(SAMPLE, 8, keys, o, 1024, 0x4000, 1)
  {
    hide FuncNoise, NoiseAtMost, LevelRoom, DigitCount;
    SamplePowers();
    SampleNoise(64, 0x4000);
    SampleNoise(128, 0x4000);
    SampleUniform(o);
    UniformRoom(SAMPLE, 8, keys, o, 1024, 0x4000, 1, 1);
  }

  /** The run from 1024 with three keys: 1024, 256, 64, switching from base 2^14 to 2^27 after the first iteration. */
  lemma SampleSwitches(keys: Keys)
    requires |keys| == 3
    ensures LargeParams(SAMPLE, 8) && Iterations(SAMPLE, 8, 1024) == 2
    ensures var run := Run(keys, 1024, 64, 8, 0x4000);
            && run.Level(1) == 256 && run.Level(2) == 64
            && run.Base(0) == 0x4000 && run.Base(1) == 0x800_0000 && run.Base(2) == 0x800_0000 && run.LeavesBy(2)
  {
    SamplePowers();
    var run := Run(keys, 1024, 64, 8, 0x4000);
    assert Pow(4, 1) == 4 && Pow(4, 2) == 16;
    DigitCountUnique(16, 4, 2);
    assert run.Level(0) == 1024;
    assert run.Level(1) == 256 && run.Level(2) == 64;
    Pow8();
    assert Pow(2, 7) == 128 && Pow(2, 6) == 64 && Pow(2, 5) == 32;
    DigitCountUnique(256, 2, 8);
    DigitCountUnique(64, 2, 6);
    hide DigitCount;
    assert run.Base(1) == NextBase(keys, 256, 0x4000) == 0x800_0000;
    assert run.Base(2) == NextBase(keys, 64, 0x800_0000) == 0x800_0000;
  }

  /**
    The deserialised context: three keys and no power map. The run from 1024 leaves its base, so on return
    the base is back and its powers are gone, although the sign and the digits do not depend on them.
  */
  lemma EmptyMapLosesPowers(params: RingGSWCryptoParams, keys: Keys, en: Entry)
    requires params.Valid() && |keys| == 3 && en.base == 0x4000 && en.tables == map[]
    requires en.power == GPowers(en.base, params.digitsG, params.Q)
    requires Returned(params, en, Run(keys, 1024, 64, 8, 0x4000).LeavesBy(2))
    ensures params.baseG == en.base && params.gpower == [] && params.gpower != en.power && !params.Consistent()
  {
    SampleSwitches(keys);
    hide Run.LeavesBy, DigitCount;
    RestoredExactly(params, en, true);
  }

  /**
    The bases that the large-precision loops switch to are not exact for a modulus just below
    2^54: with base 2^27 a rest does occur, and it is worth 2^54 - Q, which the noise bounds count.
  */
  lemma LargeBaseRest(Q: int)
    requires 0x40_0000_0000_0000 - 0x7FF_FFFF < Q < 0x40_0000_0000_0000 && Q % 2 == 1
    ensures DigitCount(Q, 0x800_0000) == 2 && GadgetOk(Q, 0x800_0000, 2) && !ExactGadget(Q, 0x800_0000, 2)
    ensures GadgetSlack(Q, 0x800_0000, 2) == 0x40_0000_0000_0000 - Q
  {
    var B := 0x800_0000;
    assert Pow(B, 1) == B && Pow(B, 2) == 0x40_0000_0000_0000 && Geometric(B, 2) == 1 + B;
    DigitCountUnique(Q, B, 2);
    DivModUnique(Pow(B, 2), 1, Pow(B, 2) - Q, Q);
    assert Top(B, 2) == 0x1F_FFFF_FBFF_FFFF;
  }
}
