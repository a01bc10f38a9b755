/** Word-size modular operations (src/core ubintnat.h, mubintvecnat.cpp) and mixed-radix digits. */
module Native {
  import opened Arith
  import opened Sums

  const WORD: int := 0x1_0000_0000_0000_0000

  function ModAddFast(x: int, y: int, m: int): (r: int)
    requires 0 <= x < m && 0 <= y < m
    ensures r == (x + y) % m && 0 <= r < m
  {
    var t := x + y;
    if t >= m then DivModUnique(t, 1, t - m, m); t - m else ModSmall(t, m); t
  }

  function ModSubFast(x: int, y: int, m: int): (r: int)
    requires 0 <= x < m && 0 <= y < m
    ensures r == (x - y) % m && 0 <= r < m
  {
    if x >= y then ModSmall(x - y, m); x - y
    else DivModUnique(x - y, -1, x + (m - y), m); x + (m - y)
  }

  /** ModSub accepts operands that are not reduced. */
  function ModSub(x: nat, y: nat, m: int): (r: int)
    requires m > 0
    ensures r == (x - y) % m && 0 <= r < m
  {
    ModCong(x, m);
    ModCong(y, m);
    CongAdd(x % m, x, y % m, y, m);
    CongMod(x % m - y % m, x - y, m);
    ModSubFast(x % m, y % m, m)
  }

  // ----- base-b digits, by repeated division -----

  function Quot(x: nat, base: nat, j: nat): (r: nat)
    requires base > 0
  {
    if j == 0 then x else Quot(x, base, j - 1) / base
  }

  function Digit(x: nat, base: nat, j: nat): (r: nat)
    requires base > 0
    ensures r < base
  {
    Quot(x, base, j) % base
  }

  function DigitTerm(x: nat, base: nat): int -> int
    requires base > 0
  {
    j => if j < 0 then 0 else Digit(x, base, j) * Pow(base, j)
  }

  lemma RadixStep(q: int, base: int, p: int)
    requires base > 0
    ensures q * p == (q / base) * (base * p) + (q % base) * p
  {
    var u, v := q / base, q % base;
    DivMod(q, base);
    MulAssocInt(u, base, p);
    MulDistrib(u * base, v, p);
  }

  /** The first d digits and the remaining quotient recompose the number. */
  lemma {:induction false} DigitsRecompose(x: nat, base: nat, d: nat)
    requires base > 0
    ensures x == Sum(DigitTerm(x, base), d) + Quot(x, base, d) * Pow(base, d)
  {
    if d > 0 {
      DigitsRecompose(x, base, d - 1);
      RadixStep(Quot(x, base, d - 1), base, Pow(base, d - 1));
    }
  }

  /** A number below base^d is the sum of its first d digits. */
  lemma DigitsExact(x: nat, base: nat, d: nat)
    requires base > 0 && x < Pow(base, d)
    ensures x == Sum(DigitTerm(x, base), d)
  {
    DigitsRecompose(x, base, d);
    DigitSumNonNegative(x, base, d);
    var q := Quot(x, base, d);
    MulAtLeast(q, Pow(base, d));
  }

  lemma {:induction false} DigitSumNonNegative(x: nat, base: nat, d: nat)
    requires base > 0
    ensures Sum(DigitTerm(x, base), d) >= 0
  {
    if d > 0 {
      DigitSumNonNegative(x, base, d - 1);
      MulMono(0, Digit(x, base, d - 1), Pow(base, d - 1));
    }
  }

  /** The number of base-b digits of a residue modulo m: the least k with b^k >= m. */
  function DigitCount(m: nat, base: nat): (k: nat)
    requires base >= 2
    ensures Pow(base, k) >= m
    ensures k > 0 ==> Pow(base, k - 1) < m
  {
    DigitCountFrom(m, base, 0)
  }

  function DigitCountFrom(m: nat, base: nat, k: nat): (r: nat)
    requires base >= 2 && (k > 0 ==> Pow(base, k - 1) < m)
    ensures Pow(base, r) >= m
    ensures r > 0 ==> Pow(base, r - 1) < m
    decreases m - Pow(base, k)
  {
    if Pow(base, k) >= m then k
    else
      assert Pow(base, k + 1) > Pow(base, k) by { MulMono(2, base, Pow(base, k)); }
      DigitCountFrom(m, base, k + 1)
  }
}
