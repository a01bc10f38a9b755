/**
  Which gadget bases a run of EvalSign or EvalDecomp visits, whether it finds their keys,
  and what it leaves in the shared parameters (binfhe-base-scheme.cpp).
*/
module Runs {
  import opened Arith
  import opened Native
  import opened Gadget
  import opened RgswParams
  import opened Bootstrapping
  import opened Levels

  type Keys = map<nat, BTKey>

  /** The base for a modulus of at most 17 bits, or at most 26 bits; 0 keeps the current one. */
  function SwitchedBase(mod: nat): nat {
    var binLog := DigitCount(mod, 2);
    if binLog <= 17 then 0x800_0000 else if binLog <= 26 then 0x4_0000 else 0
  }

  /** Bases change only when the map holds three keys. */
  function NextBase(keys: Keys, mod: nat, base: nat): (r: nat)
    ensures base >= 2 ==> r >= 2
  {
    if |keys| == 3 && SwitchedBase(mod) != 0 then SwitchedBase(mod) else base
  }

  /** A modulus has at most 17 (26) bits exactly when it is at most 2^17 (2^26). */
  lemma BitLengths(mod: nat)
    ensures DigitCount(mod, 2) <= 17 <==> mod <= 0x2_0000
    ensures DigitCount(mod, 2) <= 26 <==> mod <= 0x400_0000
  {
    hide DigitCount;
    SmallPowers();
    DigitCountBelow(mod, 2, 17);
    DigitCountBelow(mod, 2, 26);
  }

  lemma SmallPowers()
    ensures Pow(2, 17) == 0x2_0000 && Pow(2, 26) == 0x400_0000
  {
    Pow8();
    PowAdd(2, 8, 8);
    assert Pow(2, 17) == 2 * Pow(2, 16);
    PowAdd(2, 17, 8);
    assert Pow(2, 26) == 2 * Pow(2, 25);
  }

  predicate HasKeyFor(keys: Keys, b: nat) { b in keys && keys[b].bs.HasKey? }

  // ----- the bases of a run -----

  /** A run with the given keys, from a modulus and a base. */
  datatype Run = Run(keys: Keys, mod: nat, q: int, beta: int, base: nat) {
    predicate Valid() { q > 0 && beta >= 0 && base >= 2 }

    /** The modulus at iteration j. */
    function Level(j: nat): nat
      requires Valid()
    {
      LevelAt(mod, q, beta, j)
    }

    /** The base at iteration j. */
    function Base(j: nat): (b: nat)
      requires Valid()
      ensures b >= 2
    {
      if j == 0 then base else NextBase(keys, Level(j), Base(j - 1))
    }

    /** The base that the modulus of iteration j >= 1 asks for. */
    predicate Asks(j: nat, b: nat)
      requires Valid()
    {
      j >= 1 && b != 0 && SwitchedBase(Level(j)) == b
    }

    predicate Held(j: nat)
      requires Valid()
    {
      HasKeyFor(keys, Base(j))
    }

    predicate HeldBefore(j: nat)
      requires Valid()
    {
      forall i: nat :: i < j ==> Held(i)
    }

    /** Some base up to iteration j differs from the first one. */
    ghost predicate LeavesBy(j: nat)
      requires Valid()
    {
      exists i: nat :: i <= j && Base(i) != base
    }
  }

  lemma LeavesStep(run: Run, j: nat)
    requires run.Valid()
    ensures !run.LeavesBy(0)
    ensures run.LeavesBy(j + 1) <==> run.LeavesBy(j) || run.Base(j + 1) != run.base
  {
    hide NextBase;
    if run.LeavesBy(j + 1) {
      var i: nat :| i <= j + 1 && run.Base(i) != run.base;
      assert i <= j ==> run.LeavesBy(j);
    }
  }

  /** Without three keys the base never changes. */
  lemma {:induction false} BaseStays(run: Run, j: nat)
    requires run.Valid() && |run.keys| != 3
    ensures run.Base(j) == run.base
  {
    if j > 0 { BaseStays(run, j - 1); }
  }

  /** With three keys, the base is the first one until a modulus asks for another, then the last one asked for. */
  lemma {:induction false} BaseAsked(run: Run, j: nat)
    requires run.Valid() && |run.keys| == 3
    ensures (forall i: nat, b: nat :: i <= j ==> !run.Asks(i, b)) ==> run.Base(j) == run.base
    ensures run.Base(j) == run.base || exists i: nat :: i <= j && run.Asks(i, run.Base(j))
    ensures forall b: nat :: run.Asks(j, b) ==> run.Base(j) == b
  {
    hide SwitchedBase;
    if j > 0 {
      BaseAsked(run, j - 1);
      if SwitchedBase(run.Level(j)) != 0 {
        assert run.Asks(j, run.Base(j));
      }
    }
  }

  /**
    The base of every iteration, in powers of two only. With three keys, a modulus of at most 2^17 takes base 2^27,
    one above that and at most 2^26 takes base 2^18, and a larger one keeps the base of the iteration before.
  */
  lemma BaseByModulus(run: Run, j: nat)
    requires run.Valid()
    ensures run.Base(0) == run.base && run.Level(0) == run.mod
    ensures |run.keys| != 3 ==> run.Base(j) == run.base
    ensures |run.keys| == 3 && j >= 1 && run.Level(j) <= 0x2_0000 ==> run.Base(j) == 0x800_0000
    ensures |run.keys| == 3 && j >= 1 && 0x2_0000 < run.Level(j) <= 0x400_0000 ==> run.Base(j) == 0x4_0000
    ensures |run.keys| == 3 && j >= 1 && 0x400_0000 < run.Level(j) ==> run.Base(j) == run.Base(j - 1)
  {
    hide DigitCount;
    BitLengths(run.Level(j));
    if |run.keys| != 3 { BaseStays(run, j); }
  }

  /** Some modulus after the first, up to iteration k, takes base 2^18 (2^27). */
  ghost predicate MiddleLevel(run: Run, k: nat)
    requires run.Valid()
  {
    exists j: nat :: 1 <= j <= k && 0x2_0000 < run.Level(j) <= 0x400_0000
  }

  ghost predicate LowLevel(run: Run, k: nat)
    requires run.Valid()
  {
    exists j: nat :: 1 <= j <= k && run.Level(j) <= 0x2_0000
  }

  /** The keys that the iterations up to k need: the first base's, and with three keys those the moduli call for. */
  ghost predicate KeysSuffice(run: Run, k: nat)
    requires run.Valid()
  {
    && HasKeyFor(run.keys, run.base)
    && (|run.keys| == 3 && MiddleLevel(run, k) ==> HasKeyFor(run.keys, 0x4_0000))
    && (|run.keys| == 3 && LowLevel(run, k) ==> HasKeyFor(run.keys, 0x800_0000))
  }

  /** Every visited base has its key exactly when the keys suffice. */
  lemma {:induction false} SufficeExactly(run: Run, k: nat)
    requires run.Valid()
    ensures run.HeldBefore(k + 1) <==> KeysSuffice(run, k)
  {
    hide Run.Base, Run.Level;
    BaseByModulus(run, k);
    if k == 0 {
      assert run.HeldBefore(1) <==> run.Held(0);
    } else {
      SufficeExactly(run, k - 1);
      assert run.HeldBefore(k + 1) <==> run.HeldBefore(k) && run.Held(k);
      SufficeStep(run, k);
    }
  }

  lemma SufficeStep(run: Run, k: nat)
    requires run.Valid() && k >= 1
    ensures MiddleLevel(run, k) <==> MiddleLevel(run, k - 1) || 0x2_0000 < run.Level(k) <= 0x400_0000
    ensures LowLevel(run, k) <==> LowLevel(run, k - 1) || run.Level(k) <= 0x2_0000
    ensures run.HeldBefore(k) ==> run.Held(k - 1)
  {
    hide Run.Base, Run.Level;
    if j: nat :| 1 <= j <= k && 0x2_0000 < run.Level(j) <= 0x400_0000 { assert j < k ==> MiddleLevel(run, k - 1); }
    if j: nat :| 1 <= j <= k && run.Level(j) <= 0x2_0000 { assert j < k ==> LowLevel(run, k - 1); }
  }

  /** The last base of a run has an entry in the map, where all earlier ones have keys. */
  lemma LastEntry(run: Run, k: nat)
    requires run.Valid() && k >= 1 && run.HeldBefore(k)
    ensures run.Base(k) in run.keys <==>
              (|run.keys| == 3 ==>
                 && (run.Level(k) <= 0x2_0000 ==> 0x800_0000 in run.keys)
                 && (0x2_0000 < run.Level(k) <= 0x400_0000 ==> 0x4_0000 in run.keys))
  {
    hide Run.Base, Run.Level;
    BaseByModulus(run, k);
    assert run.Held(k - 1) && run.Held(0);
    BaseByModulus(run, 0);
  }

  /** A run stays at its first base exactly when no modulus asks for another. */
  lemma LeavesExactly(run: Run, j: nat)
    requires run.Valid()
    ensures run.LeavesBy(j) <==> |run.keys| == 3 && exists i: nat, b: nat :: i <= j && run.Asks(i, b) && b != run.base
  {
    if |run.keys| != 3 {
      forall i: nat | i <= j ensures run.Base(i) == run.base { BaseStays(run, i); }
    } else {
      forall i: nat | i <= j
        ensures run.Base(i) == run.base || exists h: nat :: h <= i && run.Asks(h, run.Base(i))
        ensures forall b: nat :: run.Asks(i, b) ==> run.Base(i) == b
      {
        BaseAsked(run, i);
      }
      if run.LeavesBy(j) {
        var i: nat :| i <= j && run.Base(i) != run.base;
        var h: nat :| h <= i && run.Asks(h, run.Base(i));
        assert h <= j && run.Asks(h, run.Base(i)) && run.Base(i) != run.base;
      }
      if i: nat, b: nat :| i <= j && run.Asks(i, b) && b != run.base {
        assert run.Base(i) == b;
      }
    }
  }

  /** Without three keys, every visited base has its key exactly when the first one has. */
  lemma HeldWithoutSwitching(run: Run, k: nat)
    requires run.Valid() && |run.keys| != 3
    ensures run.HeldBefore(k + 1) <==> HasKeyFor(run.keys, run.base)
  {
    forall i: nat | i <= k ensures run.Base(i) == run.base { BaseStays(run, i); }
    if run.HeldBefore(k + 1) { assert run.Held(0); }
  }

  /** With three keys, every visited base has its key exactly when the first and every base asked for have. */
  lemma HeldWithSwitching(run: Run, k: nat)
    requires run.Valid() && |run.keys| == 3
    ensures run.HeldBefore(k + 1) <==>
              && HasKeyFor(run.keys, run.base)
              && forall i: nat, b: nat :: i <= k && run.Asks(i, b) ==> HasKeyFor(run.keys, b)
  {
    forall i: nat | i <= k
      ensures run.Base(i) == run.base || exists h: nat :: h <= i && run.Asks(h, run.Base(i))
      ensures forall b: nat :: run.Asks(i, b) ==> run.Base(i) == b
    {
      BaseAsked(run, i);
    }
    if run.HeldBefore(k + 1) {
      assert run.Held(0);
      forall i: nat, b: nat | i <= k && run.Asks(i, b) ensures HasKeyFor(run.keys, b) { assert run.Held(i); }
    }
  }

  /** The first base has a key and, if the map makes runs switch, so have both bases they switch to. */
  predicate Complete(keys: Keys, base: nat) {
    HasKeyFor(keys, base) && (|keys| == 3 ==> HasKeyFor(keys, 0x800_0000) && HasKeyFor(keys, 0x4_0000))
  }

  /** With a complete map every visited base has its key, whatever the modulus. */
  lemma CompleteHolds(run: Run, k: nat)
    requires run.Valid() && Complete(run.keys, run.base)
    ensures run.HeldBefore(k)
  {
    hide DigitCount;
    forall i: nat | i < k ensures run.Held(i) {
      if |run.keys| == 3 { BaseAsked(run, i); } else { BaseStays(run, i); }
    }
  }

  /** The run stops at iteration j: all earlier bases had keys, this one has none, and its base stays behind. */
  ghost predicate StopsAt(run: Run, j: nat, error: Error, left: nat)
    requires run.Valid()
  {
    && run.HeldBefore(j) && !run.Held(j) && left == run.Base(j)
    && error == if run.Base(j) in run.keys then ConfigError else MissingKeyError
  }

  // ----- the shared parameters -----

  /** The stored powers of a base, or none. */
  function PowersOf(tables: map<nat, seq<int>>, b: nat): seq<int> { if b in tables then tables[b] else [] }

  /** Switching bases only ever adds empty tables. */
  ghost predicate SameTables(before: map<nat, seq<int>>, after: map<nat, seq<int>>) {
    before.Keys <= after.Keys && forall b: nat :: PowersOf(after, b) == PowersOf(before, b)
  }

  /** The gadget fields at the start of a run. */
  datatype Entry = Entry(base: nat, digits: nat, power: seq<int>, tables: map<nat, seq<int>>)

  /** The gadget fields during a run: the initial ones before the first switch, then those stored for the base. */
  ghost predicate Since(params: RingGSWCryptoParams, en: Entry, away: bool)
    reads params
  {
    && SameTables(en.tables, params.gpowerMap)
    && (away ==> params.gpower == PowersOf(en.tables, params.baseG))
    && (!away ==> params.baseG == en.base && params.gpower == en.power)
  }

  /** The gadget fields after a run that returned to its first base. */
  ghost predicate Returned(params: RingGSWCryptoParams, en: Entry, away: bool)
    reads params
  {
    && params.baseG == en.base && params.digitsG == en.digits && SameTables(en.tables, params.gpowerMap)
    && params.gpower == if away then PowersOf(en.tables, en.base) else en.power
  }

  /** Change_BaseG, as a step of a run. */
  method SwitchTo(params: RingGSWCryptoParams, base: nat, ghost en: Entry, ghost away: bool)
    requires params.Valid() && base >= 2 && Since(params, en, away)
    modifies params`baseG, params`digitsG, params`gpower, params`gpowerMap
    ensures params.Valid() && params.baseG == base && Since(params, en, away || base != en.base)
  {
    hide DigitCount;
    params.ChangeBaseG(base);
  }

  /**
    When the powers at entry belong to the base and the stored tables to theirs, the powers on
    return belong to the base exactly when the run never left it or its table is stored.
  */
  lemma RestoredExactly(params: RingGSWCryptoParams, en: Entry, away: bool)
    requires params.Valid() && Returned(params, en, away)
    requires en.power == GPowers(en.base, params.digitsG, params.Q)
    requires en.base in en.tables ==> en.tables[en.base] == en.power
    ensures params.gpower == en.power <==> !away || en.base in en.tables
    ensures params.Consistent() <==> !away || en.base in en.tables
  {
    hide DigitCount;
    DigitsNeeded(params.Q, params.baseG);
    assert |GPowers(en.base, params.digitsG, params.Q)| == params.digitsG > 0;
  }
}
