/** Signed digit decomposition (rgsw-acc.cpp). */
module Gadget {
  import opened Arith
  import opened Sums
  import opened Native
  import opened Ring

  // ----- one digit -----

  /** The residue of d modulo an even base in [-base/2, base/2). */
  function SignedResidue(d: int, base: int): (r: int)
    requires base >= 2 && base % 2 == 0
    ensures -(base / 2) <= r < base / 2
  {
    (d + base / 2) % base - base / 2
  }

  /** Two's-complement reinterpretation of an integer in 64 bits. */
  function ToInt64(x: int): int { (x + WORD / 2) % WORD - WORD / 2 }

  /** Variant A: shift left by 64 - g bits and back with an arithmetic shift. */
  function DigitByShift(d: int, g: nat): int
    requires g <= 64
  {
    ToInt64(d * Pow(2, 64 - g)) / Pow(2, 64 - g)
  }

  /** Variant B: mask the low g bits and fold the upper half down. */
  function DigitByMask(d: int, g: nat): int
    requires 1 <= g
  {
    var r := d % Pow(2, g);
    if r > Pow(2, g) / 2 - 1 then r - Pow(2, g) else r
  }

  lemma Pow2Even(g: nat)
    requires g >= 1
    ensures Pow(2, g) >= 2 && Pow(2, g) % 2 == 0
  {
    DivModUnique(Pow(2, g), Pow(2, g - 1), 0, 2);
  }

  lemma Pow8()
    ensures Pow(2, 8) == 256
  {
    assert Pow(2, 4) == 16;
  }

  lemma Pow64()
    ensures Pow(2, 64) == WORD
  {
    hide Pow;
    Pow8();
    PowAdd(2, 8, 8);
    PowAdd(2, 16, 16);
    PowAdd(2, 32, 32);
  }

  /** (c*x) mod (c*m) = c * (x mod m). */
  lemma ModScale(x: int, m: int, c: int)
    requires m > 0 && c > 0
    ensures c * m > 0 && (c * x) % (c * m) == c * (x % m)
  {
    var u, v := x / m, x % m;
    DivMod(x, m);
    MulAtLeast(c, m);
    MulDistrib(u * m, v, c);
    MulAssocInt(c, u, m);
    MulAssocInt(u, c, m);
    MulComm(c, u);
    MulMono(0, v, c);
    MulMono(v, m - 1, c);
    MulDistrib(m, 1, c);
    DivModUnique(c * x, u, c * v, c * m);
  }

  /** On every 64-bit value, and for every base 2^g, both variants are the signed residue. */
  lemma VariantsAgree(d: int, g: nat)
    requires 1 <= g <= 64
    ensures Pow(2, g) >= 2 && Pow(2, g) % 2 == 0
    ensures DigitByShift(d, g) == SignedResidue(d, Pow(2, g)) == DigitByMask(d, g)
  {
    var base, c := Pow(2, g), Pow(2, 64 - g);
    Pow2Even(g);
    ShiftIsResidue(d, g);
    MaskIsResidue(d, base);
  }

  lemma ShiftIsResidue(d: int, g: nat)
    requires 1 <= g <= 64 && Pow(2, g) >= 2 && Pow(2, g) % 2 == 0
    ensures DigitByShift(d, g) == SignedResidue(d, Pow(2, g))
  {
    hide Pow;
    var base, c := Pow(2, g), Pow(2, 64 - g);
    PowAdd(2, 64 - g, g);
    Pow64();
    var h, r := base / 2, SignedResidue(d, base);
    assert base == 2 * h;
    assert WORD / 2 == c * h by { MulAssocInt(c, 2, h); MulComm(c, 2); MulAssocInt(2, c, h); }
    MulDistrib(d, h, c);
    ModScale(d + h, base, c);
    MulDistrib((d + h) % base, h, c);
    MulComm(c, d);
    assert ToInt64(d * c) == c * r;
    MulComm(c, r);
    DivModUnique(c * r, r, 0, c);
  }

  lemma MaskIsResidue(d: int, base: int)
    requires base >= 2 && base % 2 == 0
    ensures var r := d % base; (if r > base / 2 - 1 then r - base else r) == SignedResidue(d, base)
  {
    var u, r, h := d / base, d % base, base / 2;
    DivMod(d, base);
    if r > h - 1 {
      MulDistrib(u, 1, base);
      DivModUnique(d + h, u + 1, r - h, base);
    } else {
      DivModUnique(d + h, u, r + h, base);
    }
  }

  // ----- power-of-two bases -----

  /** log2 of a power of two. */
  function GBits(base: nat): nat { DigitCount(base, 2) }

  predicate Pow2Base(base: nat) { 1 <= GBits(base) <= 64 && Pow(2, GBits(base)) == base }

  lemma Pow2BaseOf(g: nat)
    requires 1 <= g <= 64
    ensures Pow2Base(Pow(2, g)) && GBits(Pow(2, g)) == g
  {
    hide DigitCount, Pow;
    var k := GBits(Pow(2, g));
    if k > g { PowMono(2, g, k - 1); }
    if k < g { PowStrict(k, g); }
  }

  lemma PowStrict(d: nat, e: nat)
    requires d < e
    ensures Pow(2, d) < Pow(2, e)
  {
    PowMono(2, d + 1, e);
    assert Pow(2, d + 1) == 2 * Pow(2, d);
  }

  // ----- all digits -----

  predicate GoodBase(base: int) { base >= 2 && base % 2 == 0 }

  /** What is left of d after l digits. */
  function Rest(d: int, base: int, l: nat): int
    requires GoodBase(base)
  {
    if l == 0 then d
    else var x := Rest(d, base, l - 1); (x - SignedResidue(x, base)) / base
  }

  function SignedDigit(d: int, base: int, l: nat): (r: int)
    requires GoodBase(base)
    ensures -(base / 2) <= r < base / 2
  {
    SignedResidue(Rest(d, base, l), base)
  }

  lemma RestStep(x: int, base: int)
    requires GoodBase(base)
    ensures x == SignedResidue(x, base) + base * ((x - SignedResidue(x, base)) / base)
  {
    var u, h := (x + base / 2) / base, base / 2;
    DivMod(x + h, base);
    DivModUnique(x - SignedResidue(x, base), u, 0, base);
    MulComm(base, u);
  }

  function SignedTerm(d: int, base: int): int -> int
    requires GoodBase(base)
  {
    l => if l < 0 then 0 else SignedDigit(d, base, l) * Pow(base, l)
  }

  /** The digits and the rest recompose the number exactly. */
  lemma {:induction false} SignedRecompose(d: int, base: int, k: nat)
    requires GoodBase(base)
    ensures d == Sum(SignedTerm(d, base), k) + Rest(d, base, k) * Pow(base, k)
  {
    if k > 0 {
      hide SignedResidue;
      SignedRecompose(d, base, k - 1);
      var x, p, r, y := Rest(d, base, k - 1), Pow(base, k - 1), SignedDigit(d, base, k - 1), Rest(d, base, k);
      RestStep(x, base);
      MulDistrib(r, base * y, p);
      MulComm(base, y);
      MulAssocInt(y, base, p);
    }
  }

  /** 1 + base + ... + base^(k-1). */
  function Geometric(base: nat, k: nat): nat
  {
    if k == 0 then 0 else Geometric(base, k - 1) + Pow(base, k - 1)
  }

  lemma {:induction false} GeometricClosed(base: nat, k: nat)
    requires base >= 1
    ensures (base - 1) * Geometric(base, k) + 1 == Pow(base, k)
  {
    if k > 0 {
      GeometricClosed(base, k - 1);
      MulDistrib(Geometric(base, k - 1), Pow(base, k - 1), base - 1);
      MulDistrib(base, 1, Pow(base, k - 1));
    }
  }

  lemma {:induction false} SignedSumRange(d: int, base: int, k: nat)
    requires GoodBase(base)
    ensures -((base / 2) * Geometric(base, k)) <= Sum(SignedTerm(d, base), k) <= (base / 2 - 1) * Geometric(base, k)
  {
    if k > 0 {
      hide SignedDigit, Pow;
      SignedSumRange(d, base, k - 1);
      RangeStep(base / 2, SignedDigit(d, base, k - 1), Pow(base, k - 1), Geometric(base, k - 1));
    }
  }

  lemma RangeStep(h: int, r: int, p: nat, G: int)
    requires -h <= r <= h - 1
    ensures -(h * (G + p)) <= -(h * G) + r * p && (h - 1) * G + r * p <= (h - 1) * (G + p)
  {
    MulMono(-h, r, p);
    MulMono(r, h - 1, p);
    MulDistrib(G, p, h);
    MulDistrib(G, p, h - 1);
  }

  /** The largest number that k signed digits can represent. */
  function Top(base: nat, k: nat): int { (base / 2 - 1) * Geometric(base, k) }

  /** The coefficient t, in [0, Q), as the code centres it. */
  function CentreCoef(t: int, Q: int): int { if t < Q / 2 then t else t - Q }

  /**
    For odd Q and base^k >= Q the rest after k digits is 0 or 1, and it is 0 exactly
    when the centred coefficient does not exceed Top.
  */
  lemma RestExactly(t: int, Q: int, base: int, k: nat)
    requires GoodBase(base) && k >= 1 && Q % 2 == 1 && 0 <= t < Q <= Pow(base, k)
    ensures 0 <= Rest(CentreCoef(t, Q), base, k) <= 1
    ensures Rest(CentreCoef(t, Q), base, k) == 0 <==> CentreCoef(t, Q) <= Top(base, k)
  {
    var d := CentreCoef(t, Q);
    SignedRecompose(d, base, k);
    SignedSumRange(d, base, k);
    GeometricClosed(base, k);
    PowEven(base, k);
    RestArith(d, Sum(SignedTerm(d, base), k), Rest(d, base, k), Pow(base, k), base / 2, Geometric(base, k), Q);
  }

  lemma PowEven(base: int, k: nat)
    requires GoodBase(base) && k >= 1
    ensures Pow(base, k) % 2 == 0
  {
    var h := base / 2;
    MulAssocInt(2, h, Pow(base, k - 1));
    assert Pow(base, k) == 2 * (h * Pow(base, k - 1));
  }

  lemma RestArith(d: int, S: int, rho: int, P: int, h: int, G: int, Q: int)
    requires h >= 1 && G >= 0 && P > 0 && d == S + rho * P && -(h * G) <= S <= (h - 1) * G
    requires (2 * h - 1) * G + 1 == P && Q + 1 <= P && -(Q + 1) <= 2 * d <= Q - 3
    ensures 0 <= rho <= 1
    ensures rho == 0 <==> d <= (h - 1) * G
  {
    MulDistrib(h, 1, G);
    MulDistrib(2 * h, 1, G);
    MulAssocInt(2, h, G);
    MulMono(1, h, G);
    MulAtLeast(rho + 1, P);
    MulAtLeast(rho, P);
    MulAtLeast(rho - 1, P);
    MulAtLeast(rho - 2, P);
    MulDistrib(rho, 1, P);
    MulDistrib(rho, 2, P);
    assert rho * P >= 0 - P + 1 by { assert 2 * (h * G) == (2 * h) * G; }
    assert rho * P < 2 * P;
  }

  /** An odd modulus with enough digits for it. */
  predicate GadgetOk(Q: int, base: int, k: nat) { GoodBase(base) && k >= 1 && Q % 2 == 1 && 3 <= Q <= Pow(base, k) }

  /** The parameters under which every coefficient decomposes without a rest. */
  predicate ExactGadget(Q: int, base: int, k: nat) { GadgetOk(Q, base, k) && Q / 2 - 1 <= Top(base, k) }

  /** The rest is 0 on all coefficients if and only if floor(Q/2) - 1 <= Top. */
  lemma ExactIff(Q: int, base: int, k: nat)
    requires GadgetOk(Q, base, k)
    ensures ExactGadget(Q, base, k) <==>
            forall t :: 0 <= t < Q ==> Rest(CentreCoef(t, Q), base, k) == 0
  {
    forall t | 0 <= t < Q
      ensures Rest(CentreCoef(t, Q), base, k) == 0 <==> CentreCoef(t, Q) <= Top(base, k)
    {
      RestExactly(t, Q, base, k);
    }
    var t := Q / 2 - 1;
    assert 0 <= t < Q && CentreCoef(t, Q) == t;
    assert forall u :: 0 <= u < Q ==> CentreCoef(u, Q) <= t;
  }

  // ----- polynomials -----

  /** Digit l of every coefficient, as a signed number. */
  function DigitPoly(p: Poly, Q: int, base: int, l: nat): (r: Poly)
    requires GoodBase(base)
    ensures |r| == |p|
  {
    seq(|p|, i requires 0 <= i < |p| => SignedDigit(CentreCoef(p[i], Q), base, l))
  }

  lemma DigitPolyBound(p: Poly, Q: int, base: int, l: nat)
    requires GoodBase(base)
    ensures Bounded(DigitPoly(p, Q, base, l), base / 2)
  {
  }

  function RestPoly(p: Poly, Q: int, base: int, k: nat): (r: Poly)
    requires GoodBase(base)
    ensures |r| == |p|
  {
    seq(|p|, i requires 0 <= i < |p| => Rest(CentreCoef(p[i], Q), base, k))
  }

  /** The sum of base^l times digit polynomial l, over l < k. */
  function Recomposed(p: Poly, Q: int, base: int, k: nat): (r: Poly)
    requires GoodBase(base)
    ensures |r| == |p|
  {
    if k == 0 then Zero(|p|)
    else Add(Recomposed(p, Q, base, k - 1), Scale(Pow(base, k - 1), DigitPoly(p, Q, base, k - 1)))
  }

  lemma {:induction false} RecomposedAt(p: Poly, Q: int, base: int, k: nat, i: nat)
    requires GoodBase(base) && i < |p|
    ensures Recomposed(p, Q, base, k)[i] == Sum(SignedTerm(CentreCoef(p[i], Q), base), k)
  {
    hide SignedDigit;
    if k > 0 {
      RecomposedAt(p, Q, base, k - 1, i);
      MulComm(Pow(base, k - 1), SignedDigit(CentreCoef(p[i], Q), base, k - 1));
    }
  }

  /** Digits recompose to the polynomial, up to base^k times the rest. */
  lemma RecomposedCong(p: Poly, Q: int, base: int, k: nat)
    requires GoodBase(base)
    ensures PCong(Add(Recomposed(p, Q, base, k), Scale(Pow(base, k), RestPoly(p, Q, base, k))), p, Q)
  {
    hide Rest, Pow, SignedTerm, Sum;
    var x := Add(Recomposed(p, Q, base, k), Scale(Pow(base, k), RestPoly(p, Q, base, k)));
    forall i | 0 <= i < |p| ensures Cong(x[i], p[i], Q) {
      var d := CentreCoef(p[i], Q);
      RecomposedAt(p, Q, base, k, i);
      SignedRecompose(d, base, k);
      MulComm(Pow(base, k), Rest(d, base, k));
      CongOf(d, p[i], if p[i] < Q / 2 then 0 else -1, Q);
    }
  }

  lemma RecomposedExact(p: Poly, Q: int, base: int, k: nat)
    requires ExactGadget(Q, base, k) && Residues(p, Q)
    ensures PCong(Recomposed(p, Q, base, k), p, Q)
  {
    hide Rest, Pow, Top, Recomposed;
    forall i | 0 <= i < |p| ensures RestPoly(p, Q, base, k)[i] == 0 {
      RestExactly(p[i], Q, base, k);
    }
    RecomposedCong(p, Q, base, k);
    assert Add(Recomposed(p, Q, base, k), Scale(Pow(base, k), RestPoly(p, Q, base, k))) == Recomposed(p, Q, base, k);
  }

  /** What one unit of rest is worth modulo Q: base^k as a centred residue, or 0 when no rest occurs. */
  function RestUnit(Q: int, base: nat, k: nat): int {
    if Q <= 0 || Q / 2 - 1 <= Top(base, k) then 0
    else var r := Pow(base, k) % Q; if 2 * r <= Q then r else r - Q
  }

  /** The distance of base^k from the nearest multiple of Q, or 0 for an exact gadget. */
  function GadgetSlack(Q: int, base: nat, k: nat): nat { Abs(RestUnit(Q, base, k)) }

  /** The part of a polynomial that its digits miss. */
  function RestError(p: Poly, Q: int, base: int, k: nat): (r: Poly)
    requires GoodBase(base)
    ensures |r| == |p|
  {
    Scale(RestUnit(Q, base, k), RestPoly(p, Q, base, k))
  }

  lemma RestUnitCong(Q: int, base: nat, k: nat)
    requires Q > 0 && !(Q / 2 - 1 <= Top(base, k))
    ensures Cong(RestUnit(Q, base, k), Pow(base, k), Q)
  {
    var r := Pow(base, k) % Q;
    ModCong(Pow(base, k), Q);
    CongOf(RestUnit(Q, base, k), r, if 2 * r <= Q then 0 else -1, Q);
    CongTrans(RestUnit(Q, base, k), r, Pow(base, k), Q);
  }

  /** For every odd Q, the digits and a rest error of at most the slack recompose the polynomial. */
  lemma RecomposedWithRest(p: Poly, Q: int, base: int, k: nat)
    requires GadgetOk(Q, base, k) && Residues(p, Q)
    ensures PCong(Add(Recomposed(p, Q, base, k), RestError(p, Q, base, k)), p, Q)
    ensures Bounded(RestError(p, Q, base, k), GadgetSlack(Q, base, k))
  {
    hide Rest, Pow, Top, Recomposed, RestUnit;
    var u, R, G := RestUnit(Q, base, k), Recomposed(p, Q, base, k), RestPoly(p, Q, base, k);
    forall i | 0 <= i < |p| ensures 0 - Abs(u) <= u * G[i] <= Abs(u) {
      RestExactly(p[i], Q, base, k);
      if G[i] == 0 { assert u * G[i] == 0; } else { assert u * G[i] == u; }
    }
    if Q / 2 - 1 <= Top(base, k) {
      RecomposedExact(p, Q, base, k);
      RestUnitZero(Q, base, k);
      assert Add(R, RestError(p, Q, base, k)) == R;
    } else {
      RecomposedCong(p, Q, base, k);
      RestUnitCong(Q, base, k);
      var x, y := Add(R, Scale(u, G)), Add(R, Scale(Pow(base, k), G));
      forall i | 0 <= i < |p| ensures Cong(x[i], y[i], Q) {
        CongScale(u, Pow(base, k), G[i], Q);
        CongRefl(R[i], Q);
        CongAdd(R[i], R[i], u * G[i], Pow(base, k) * G[i], Q);
      }
      assert PCong(x, y, Q);
      PCongTrans(x, y, p, Q);
    }
  }

  lemma RestUnitZero(Q: int, base: nat, k: nat)
    requires Q / 2 - 1 <= Top(base, k)
    ensures RestUnit(Q, base, k) == 0 && GadgetSlack(Q, base, k) == 0
  {
  }

  /** A digit as the code stores it: negative digits become residues modulo Q. */
  function StoredDigit(t: int, Q: int, base: int, l: nat): int
    requires GoodBase(base)
  {
    var r := SignedDigit(CentreCoef(t, Q), base, l);
    if r < 0 then r + Q else r
  }

  /**
    Adds digit l of coefficient k of input[j] to output[j + 2l][k]. The inner loop is
    the code's: variant A for the digit, then an arithmetic shift of what is left.
  */
  method SignedDigitDecompose(N: nat, Q: int, g: nat, digitsG: nat, input: seq<Poly>, output: array<Poly>)
    requires 1 <= g <= 64 && |input| == 2 && |input[0]| == |input[1]| == N
    requires output.Length == 2 * digitsG && forall x :: 0 <= x < output.Length ==> |output[x]| == N
    modifies output
    ensures GoodBase(Pow(2, g))
    ensures forall x :: 0 <= x < output.Length ==> |output[x]| == N
    ensures forall x, k :: 0 <= x < output.Length && 0 <= k < N ==>
              output[x][k] == old(output[x])[k] + StoredDigit(input[x % 2][k], Q, Pow(2, g), x / 2)
  {
    Pow2Even(g);
    var j := 0;
    while j < 2
      invariant 0 <= j <= 2 && Filled(output, old(output[..]), N)
      invariant Decomposed(output[..], old(output[..]), input, N, Q, Pow(2, g), digitsG, j, 0)
    {
      var k := 0;
      while k < N
        invariant 0 <= k <= N && Filled(output, old(output[..]), N)
        invariant Decomposed(output[..], old(output[..]), input, N, Q, Pow(2, g), digitsG, j, k)
      {
        DecomposeCoefficient(N, Q, g, digitsG, input, output, j, k);
        k := k + 1;
      }
      j := j + 1;
    }
  }

  ghost predicate Filled(output: array<Poly>, before: seq<Poly>, N: nat)
    reads output
  {
    |before| == output.Length && forall x :: 0 <= x < output.Length ==> |output[x]| == N == |before[x]|
  }

  /** Coefficients before (j, k) in the code's order have had their digits added; the others are untouched. */
  ghost predicate Decomposed(now: seq<Poly>, before: seq<Poly>, input: seq<Poly>, N: nat, Q: int, base: int,
                             digitsG: nat, j: int, k: int)
    requires GoodBase(base) && |input| == 2 && |input[0]| == |input[1]| == N
    requires |now| == |before| == 2 * digitsG && forall x :: 0 <= x < |now| ==> |now[x]| == N == |before[x]|
  {
    forall x, i :: 0 <= x < |now| && 0 <= i < N ==>
      now[x][i] == before[x][i] +
                   (if x % 2 < j || (x % 2 == j && i < k) then StoredDigit(input[x % 2][i], Q, base, x / 2) else 0)
  }

  method DecomposeCoefficient(N: nat, Q: int, g: nat, digitsG: nat, input: seq<Poly>, output: array<Poly>, j: nat,
                              k: nat)
    requires 1 <= g <= 64 && |input| == 2 && |input[0]| == |input[1]| == N && j < 2 && k < N && GoodBase(Pow(2, g))
    requires output.Length == 2 * digitsG && forall x :: 0 <= x < output.Length ==> |output[x]| == N
    modifies output
    ensures forall x :: 0 <= x < output.Length ==> |output[x]| == N
    ensures forall x, i :: 0 <= x < output.Length && 0 <= i < N ==>
      output[x][i] == old(output[x])[i] +
                      (if x % 2 == j && i == k then StoredDigit(input[j][k], Q, Pow(2, g), x / 2) else 0)
  {
    hide SignedResidue, DigitByShift, Pow, StoredDigit, Rest;
    var base := Pow(2, g);
    var t := input[j][k];
    var d := if t < Q / 2 then t else t - Q;
    RestStart(d, base);
    var l := 0;
    while l < digitsG
      invariant 0 <= l <= digitsG && d == Rest(CentreCoef(t, Q), base, l)
      invariant forall x :: 0 <= x < output.Length ==> |output[x]| == N
      invariant forall x, i :: 0 <= x < output.Length && 0 <= i < N ==>
        output[x][i] == old(output[x])[i] +
                        (if x % 2 == j && i == k && x / 2 < l then StoredDigit(t, Q, base, x / 2) else 0)
    {
      var r := DigitByShift(d, g);
      NextDigit(t, Q, g, l, d, r);
      d := d - r;
      d := d / base;
      if r < 0 { r := r + Q; }
      var x := j + 2 * l;
      output[x] := output[x][k := output[x][k] + r];
      l := l + 1;
    }
  }

  lemma RestStart(d: int, base: int)
    requires GoodBase(base)
    ensures Rest(d, base, 0) == d
  {
  }

  /** The digit the loop extracts, and what it leaves. */
  lemma NextDigit(t: int, Q: int, g: nat, l: nat, d: int, r: int)
    requires 1 <= g <= 64 && GoodBase(Pow(2, g)) && d == Rest(CentreCoef(t, Q), Pow(2, g), l) && r == DigitByShift(d, g)
    ensures (if r < 0 then r + Q else r) == StoredDigit(t, Q, Pow(2, g), l)
    ensures (d - r) / Pow(2, g) == Rest(CentreCoef(t, Q), Pow(2, g), l + 1)
  {
    hide SignedResidue, DigitByShift, Pow;
    VariantsAgree(d, g);
  }
}
