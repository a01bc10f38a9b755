/**
  The moduli, messages and noise along the loops of EvalSign and EvalDecomp
  (binfhe-base-scheme.cpp): every iteration drops the low plaintext digit.
*/
module Levels {
  import opened Arith
  import opened Native
  import opened Lwe
  import opened ModSwitching
  import opened Bootstrapping

  /** Powers of two q and beta, at least two cells of width 2*beta per q, and q | 2N. */
  ghost predicate LargeParams(p: LweParams, beta: int) {
    p.Valid() && p.Q % 2 == 1 && IsPow2(p.q) && IsPow2(beta) && 2 * beta < p.q && p.N % (p.q / 2) == 0
  }

  /** How many messages one digit has. */
  function DigitSize(q: int, beta: int): int
    requires beta > 0
  {
    q / (2 * beta)
  }

  /** The modulus after one iteration. */
  function NextMod(mod: int, q: int, beta: int): int
    requires q > 0
  {
    mod / q * 2 * beta
  }

  lemma DigitSizes(p: LweParams, beta: int)
    requires LargeParams(p, beta)
    ensures p.Valid() && beta > 0 && p.q > 2 && p.q % 4 == 0
    ensures var P := DigitSize(p.q, beta); P >= 2 && P % 2 == 0 && IsPow2(P) && p.q == P * (2 * beta)
  {
    assert Pow(2, 1) == 2;
    Pow2Quotient(1, beta) by { assert Pow(2, 0) == 1; PositivePow2(beta); }
    Pow2Mul(2, beta);
    Pow2Quotient(2 * beta, p.q);
    var P := p.q / (2 * beta);
    DivMod(P, 2);
    QuarterModulus(P / 2, beta, p.q);
  }

  lemma QuarterModulus(g: int, beta: int, q: int)
    requires q == (g * 2) * (2 * beta)
    ensures q % 4 == 0
  {
    MulAssocInt(g, 2, 2 * beta);
    MulAssocInt(2, 2, beta);
    MulAssocInt(g, 4, beta);
    MulComm(g, 4);
    MulAssocInt(4, g, beta);
    DivModUnique(q, g * beta, 0, 4);
  }

  /** One iteration divides the modulus by the digit size; it keeps at least two cells. */
  lemma NextModSizes(p: LweParams, beta: int, mod: int)
    requires LargeParams(p, beta) && IsPow2(mod) && mod > p.q
    ensures beta > 0 && p.q > 0 && mod % p.q == 0
    ensures var n, P := NextMod(mod, p.q, beta), DigitSize(p.q, beta);
            && IsPow2(n) && 4 * beta <= n < mod && mod == P * n && n == (mod / p.q) * (2 * beta)
            && mod / p.q >= 2 && (mod / p.q) % 2 == 0
  {
    DigitSizes(p, beta);
    Pow2Quotient(p.q, mod);
    assert IsPow2(2) by { assert Pow(2, 1) == 2; }
    Pow2Mul(2, beta);
    var c, P := mod / p.q, DigitSize(p.q, beta);
    Pow2Mul(c, 2 * beta);
    MulAssocInt(c, 2, beta);
    MulAssocInt(c, P, 2 * beta);
    MulComm(c, P);
    MulAssocInt(P, c, 2 * beta);
    MulMono(2, c, 2 * beta);
    MulMono(2, P, c * (2 * beta));
  }

  // ----- how many iterations -----

  /** The digit count is determined by its defining property. */
  lemma DigitCountUnique(m: nat, base: nat, k: nat)
    requires base >= 2 && Pow(base, k) >= m && (k > 0 ==> Pow(base, k - 1) < m)
    ensures k == DigitCount(m, base)
  {
    var d := DigitCount(m, base);
    if d < k { PowMono(base, d, k - 1); }
    if k < d { PowMono(base, k, d - 1); }
  }

  lemma DigitCountBelow(m: nat, base: nat, j: nat)
    requires base >= 2
    ensures Pow(base, j) < m <==> j < DigitCount(m, base)
  {
    var d := DigitCount(m, base);
    if j < d { PowMono(base, j, d - 1); } else { PowMono(base, d, j); }
  }

  /** The modulus after j iterations. */
  function LevelAt(mod: nat, q: int, beta: int, j: nat): (r: nat)
    requires q > 0 && beta >= 0
  {
    if j == 0 then mod
    else
      var m := LevelAt(mod, q, beta, j - 1);
      NextModNonNegative(m, q, beta);
      NextMod(m, q, beta)
  }

  lemma NextModNonNegative(mod: int, q: int, beta: int)
    requires q > 0 && mod >= 0 && beta >= 0
    ensures NextMod(mod, q, beta) >= 0
  {
    QuotientNonNegative(mod, q);
    MulMono(0, mod / q * 2, beta);
  }

  /** The number of iterations from a modulus: the least k with P^k >= mod/q. */
  ghost function Iterations(p: LweParams, beta: int, mod: nat): nat
    requires LargeParams(p, beta)
  {
    DigitSizes(p, beta);
    QuotientNonNegative(mod, p.q);
    DigitCount(mod / p.q, DigitSize(p.q, beta))
  }

  /** After j divisions by P, the modulus exceeds q exactly while P^j is below the initial mod/q. */
  lemma LevelExceeds(mod: int, m0: int, q: int, c: int, P: nat, j: nat)
    requires q > 0 && P > 0 && m0 == mod * Pow(P, j) && m0 == c * q
    ensures mod > q <==> Pow(P, j) < c
  {
    var w := Pow(P, j);
    MulDistrib(w, c, q);
    MulDistrib(mod, q, w);
    MulComm(w, q);
    MulAtLeast(mod - q, w);
    MulAtLeast(w - c, q);
    if mod <= q { MulMono(mod, q, w); }
    if w >= c { MulMono(c, w, q); }
  }

  /** Iteration j is at modulus mod/P^j, which exceeds q exactly before the last iteration. */
  lemma {:induction false} LevelSizes(p: LweParams, beta: int, mod: nat, j: nat)
    requires LargeParams(p, beta) && IsPow2(mod) && mod > p.q && j <= Iterations(p, beta, mod)
    ensures beta > 0 && p.q > 0 && DigitSize(p.q, beta) > 0
    ensures var m := LevelAt(mod, p.q, beta, j);
            && IsPow2(m) && 4 * beta <= m && mod == m * Pow(DigitSize(p.q, beta), j)
            && (m > p.q <==> j < Iterations(p, beta, mod))
  {
    hide LargeParams, IsPow2, DigitSize, NextMod, DigitCount;
    DigitSizes(p, beta);
    Pow2Quotient(p.q, mod) by { LargeQ(p, beta); }
    var P, m, c := DigitSize(p.q, beta), LevelAt(mod, p.q, beta, j), mod / p.q;
    DigitCountBelow(c, P, j);
    if j == 0 {
      MulMono(2, P, 2 * beta);
    } else {
      LevelSizes(p, beta, mod, j - 1);
      var n := LevelAt(mod, p.q, beta, j - 1);
      NextModSizes(p, beta, n);
      MulComm(P, m);
      MulAssocInt(m, P, Pow(P, j - 1));
    }
    LevelExceeds(m, mod, p.q, c, P, j);
  }

  lemma LargeQ(p: LweParams, beta: int)
    requires LargeParams(p, beta)
    ensures IsPow2(p.q)
  {
  }

  // ----- noise -----

  /** Noise after one flooring with noise v and the switch to the next modulus: v/P plus the rounding. */
  function FloorNoise(n: nat, P: int, v: int): int
    requires P > 0
  {
    (P * (1 + n) + 2 * v) / (2 * P)
  }

  /** Switching from P*next to next turns q*y into 2*beta*y. */
  lemma SwitchLevel(c: Cipher, next: int, s: seq<int>, y: int, beta: int, P: int, v: int)
    requires c.Valid() && next > 0 && P > 0 && c.modulus == P * next && |s| == |c.a| && Ternary(s)
    requires Near(Phase(c, s), (P * (2 * beta)) * y, c.modulus, v)
    ensures Near(Phase(SwitchV(next, c), s), y * (2 * beta), next, FloorNoise(|s|, P, v))
  {
    hide Phase, SwitchV, Norm1;
    var x, x' := Phase(c, s), Phase(SwitchV(next, c), s);
    ModSwitchPhase(c, next, s);
    TernaryNorm(s);
    SwitchUnits(x, x', next, P, Norm1(s), |s|);
    NearScale(x, (P * (2 * beta)) * y, P * next, v, 2);
    assert 2 * ((P * (2 * beta)) * y) == (2 * P) * (y * (2 * beta)) &&
           2 * (P * next) == (2 * P) * next by { UnitsArith(P, beta, y, next); }
    NearTrans((2 * P) * x', 2 * x, (2 * P) * (y * (2 * beta)), (2 * P) * next, P * (1 + |s|), 2 * v);
    NearUnscale(x', y * (2 * beta), next, P * (1 + |s|) + 2 * v, 2 * P);
  }

  lemma UnitsArith(P: int, beta: int, y: int, next: int)
    ensures 2 * ((P * (2 * beta)) * y) == (2 * P) * (y * (2 * beta)) && 2 * (P * next) == (2 * P) * next
  {
    MulAssocInt(P, 2 * beta, y);
    MulComm(2 * beta, y);
    MulAssocInt(2, P, y * (2 * beta));
    MulAssocInt(2, P, next);
  }

  /** The modulus-switching bound with the common factor next divided out. */
  lemma SwitchUnits(x: int, x': int, next: int, P: int, norm: int, n: nat)
    requires next > 0 && P > 0 && 0 <= norm <= n
    requires Near((2 * (P * next)) * x', (2 * next) * x, (2 * (P * next)) * next, (P * next) * (1 + norm))
    ensures Near((2 * P) * x', 2 * x, (2 * P) * next, P * (1 + n))
  {
    MulMono(1 + norm, 1 + n, P);
    SwitchFactor(x, x', next, P, norm);
    NearUnscale((2 * P) * x', 2 * x, (2 * P) * next, next * (P * (1 + norm)), next);
    DivModUnique(next * (P * (1 + norm)), P * (1 + norm), 0, next);
    NearWeaken((2 * P) * x', 2 * x, (2 * P) * next, P * (1 + norm), P * (1 + n));
  }

  lemma SwitchFactor(x: int, x': int, next: int, P: int, norm: int)
    ensures (2 * (P * next)) * x' == next * ((2 * P) * x') && (2 * next) * x == next * (2 * x)
    ensures (2 * (P * next)) * next == next * ((2 * P) * next) && (P * next) * (1 + norm) == next * (P * (1 + norm))
  {
    MulAssocInt(2, P, next);
    MulComm(2 * P, next);
    MulAssocInt(next, 2 * P, x');
    MulAssocInt(next, 2 * P, next);
    MulComm(P, next);
    MulAssocInt(next, P, 1 + norm);
    MulAssocInt(next, 2, x);
  }
}
