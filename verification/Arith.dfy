/**
  Integer congruences, approximate congruences, division and powers: the
  vocabulary in which every claim about a phase is stated.
*/
module Arith {

  predicate Differ(x: int, y: int, k: int, m: int) { x == y + k * m }

  /** x and y are congruent modulo m. */
  ghost predicate Cong(x: int, y: int, m: int) { exists k :: Differ(x, y, k, m) }

  predicate Within(x: int, y: int, k: int, m: int, t: int) { -t <= x - y - k * m <= t }

  /** x lies within t of y modulo m. */
  ghost predicate Near(x: int, y: int, m: int, t: int) { exists k :: Within(x, y, k, m, t) }

  function Abs(x: int): (r: nat)
    ensures r == x || r == -x
  {
    if x < 0 then -x else x
  }

  // ----- congruences -----

  lemma CongOf(x: int, y: int, k: int, m: int)
    requires x == y + k * m
    ensures Cong(x, y, m)
  {
    assert Differ(x, y, k, m);
  }

  lemma CongWitness(x: int, y: int, m: int) returns (k: int)
    requires Cong(x, y, m)
    ensures x == y + k * m
  {
    k :| Differ(x, y, k, m);
  }

  lemma CongRefl(x: int, m: int)
    ensures Cong(x, x, m)
  {
    CongOf(x, x, 0, m);
  }

  lemma CongSym(x: int, y: int, m: int)
    requires Cong(x, y, m)
    ensures Cong(y, x, m)
  {
    var k := CongWitness(x, y, m);
    CongOf(y, x, -k, m);
  }

  lemma CongTrans(x: int, y: int, z: int, m: int)
    requires Cong(x, y, m) && Cong(y, z, m)
    ensures Cong(x, z, m)
  {
    var k := CongWitness(x, y, m);
    var l := CongWitness(y, z, m);
    assert (k + l) * m == k * m + l * m;
    CongOf(x, z, k + l, m);
  }

  lemma CongAdd(x: int, y: int, u: int, v: int, m: int)
    requires Cong(x, y, m) && Cong(u, v, m)
    ensures Cong(x + u, y + v, m)
    ensures Cong(x - u, y - v, m)
  {
    var k := CongWitness(x, y, m);
    var l := CongWitness(u, v, m);
    assert (k + l) * m == k * m + l * m;
    assert (k - l) * m == k * m - l * m;
    CongOf(x + u, y + v, k + l, m);
    CongOf(x - u, y - v, k - l, m);
  }

  lemma CongScale(x: int, y: int, c: int, m: int)
    requires Cong(x, y, m)
    ensures Cong(c * x, c * y, m) && Cong(x * c, y * c, m)
  {
    var k := CongWitness(x, y, m);
    assert c * (k * m) == (c * k) * m;
    assert c * x == c * y + c * (k * m);
    CongOf(c * x, c * y, c * k, m);
  }

  lemma CongMul(x: int, y: int, u: int, v: int, m: int)
    requires Cong(x, y, m) && Cong(u, v, m)
    ensures Cong(x * u, y * v, m)
  {
    CongScale(x, y, u, m);
    CongScale(u, v, y, m);
    CongTrans(x * u, y * u, y * v, m);
  }

  /** A congruence modulo a multiple of m is a congruence modulo m. */
  lemma CongCoarser(x: int, y: int, c: int, m: int)
    requires Cong(x, y, c * m)
    ensures Cong(x, y, m)
  {
    var k := CongWitness(x, y, c * m);
    assert k * (c * m) == (k * c) * m;
    CongOf(x, y, k * c, m);
  }

  // ----- division -----

  lemma DivMod(x: int, m: int)
    requires m > 0
    ensures x == (x / m) * m + x % m && 0 <= x % m < m
  {
  }

  lemma MulAtLeast(d: int, m: int)
    requires m > 0
    ensures d >= 1 ==> d * m >= m
    ensures d <= -1 ==> d * m <= -m
  {
  }

  /** Quotient and remainder are determined by their defining property. */
  lemma DivModUnique(x: int, q: int, r: int, m: int)
    requires m > 0 && 0 <= r < m && x == q * m + r
    ensures x / m == q && x % m == r
  {
    DivMod(x, m);
    var d := x / m - q;
    assert d * m == (x / m) * m - q * m;
    MulAtLeast(d, m);
  }

  lemma ModCong(x: int, m: int)
    requires m > 0
    ensures Cong(x % m, x, m) && 0 <= x % m < m
  {
    DivMod(x, m);
    assert (-(x / m)) * m == -((x / m) * m);
    CongOf(x % m, x, -(x / m), m);
  }

  lemma CongMod(x: int, y: int, m: int)
    requires m > 0 && Cong(x, y, m)
    ensures x % m == y % m
  {
    var k := CongWitness(x, y, m);
    DivMod(y, m);
    assert (y / m + k) * m == (y / m) * m + k * m;
    DivModUnique(x, y / m + k, y % m, m);
  }

  lemma ModSmall(x: int, m: int)
    requires 0 <= x < m
    ensures x % m == x && x / m == 0
  {
    DivModUnique(x, 0, x, m);
  }

  /** The residue in [0, m) of a number congruent to y is y when y is in range. */
  lemma CongResidue(x: int, y: int, m: int)
    requires 0 <= y < m && Cong(x, y, m)
    ensures x % m == y
  {
    CongMod(x, y, m);
    ModSmall(y, m);
  }

  // ----- approximate congruences -----

  lemma NearOf(x: int, y: int, k: int, m: int, t: int)
    requires -t <= x - y - k * m <= t
    ensures Near(x, y, m, t)
  {
    assert Within(x, y, k, m, t);
  }

  lemma NearWitness(x: int, y: int, m: int, t: int) returns (k: int)
    requires Near(x, y, m, t)
    ensures -t <= x - y - k * m <= t
  {
    k :| Within(x, y, k, m, t);
  }

  /** The error of an approximate congruence, as an integer of bounded size. */
  lemma NearError(x: int, y: int, m: int, t: int) returns (e: int)
    requires Near(x, y, m, t)
    ensures -t <= e <= t && Cong(x, y + e, m)
  {
    var k := NearWitness(x, y, m, t);
    e := x - y - k * m;
    CongOf(x, y + e, k, m);
  }

  lemma NearFromCong(x: int, y: int, e: int, m: int, t: int)
    requires Cong(x, y + e, m) && -t <= e <= t
    ensures Near(x, y, m, t)
  {
    var k := CongWitness(x, y + e, m);
    NearOf(x, y, k, m, t);
  }

  lemma NearTrans(x: int, y: int, z: int, m: int, t: int, u: int)
    requires Near(x, y, m, t) && Near(y, z, m, u)
    ensures Near(x, z, m, t + u)
  {
    var k := NearWitness(x, y, m, t);
    var l := NearWitness(y, z, m, u);
    assert (k + l) * m == k * m + l * m;
    NearOf(x, z, k + l, m, t + u);
  }

  lemma ErrorScale(x: int, y: int, k: int, m: int, c: int)
    ensures c * (x - y - k * m) == c * x - c * y - k * (c * m)
  {
    MulAssocInt(c, k, m);
    MulAssocInt(k, c, m);
    MulComm(c, k);
    MulDistrib(x - y, k * m, c);
    MulDistrib(x, y, c);
  }

  lemma NearScale(x: int, y: int, m: int, t: int, c: nat)
    requires Near(x, y, m, t)
    ensures Near(c * x, c * y, c * m, c * t)
  {
    var k := NearWitness(x, y, m, t);
    ErrorScale(x, y, k, m, c);
    ScaleBound(x - y - k * m, t, c);
    NearOf(c * x, c * y, k, c * m, c * t);
  }

  lemma ScaleBound(d: int, t: int, c: nat)
    requires -t <= d <= t
    ensures -(c * t) <= c * d <= c * t
  {
    MulMono(-t, d, c);
    MulMono(d, t, c);
  }

  lemma MulAssocInt(x: int, y: int, z: int)
    ensures x * (y * z) == (x * y) * z
  {
  }

  lemma MulDistrib(x: int, y: int, z: int)
    ensures (x + y) * z == x * z + y * z && z * (x + y) == z * x + z * y
    ensures (x - y) * z == x * z - y * z && z * (x - y) == z * x - z * y
  {
  }

  lemma MulComm(x: int, y: int)
    ensures x * y == y * x
  {
  }

  lemma MulMono(x: int, y: int, c: nat)
    requires x <= y
    ensures x * c <= y * c && c * x <= c * y
  {
  }

  /** Dividing out a positive common factor keeps the integer part of the error. */
  lemma NearUnscale(x: int, y: int, m: int, t: int, c: int)
    requires c > 0 && Near(c * x, c * y, c * m, t)
    ensures Near(x, y, m, t / c)
  {
    var k := NearWitness(c * x, c * y, c * m, t);
    var d := x - y - k * m;
    ErrorScale(x, y, k, m, c);
    FloorBound(d, t, c);
    FloorBound(-d, t, c);
    NearOf(x, y, k, m, t / c);
  }

  lemma FloorBound(d: int, t: int, c: int)
    requires c > 0 && c * d <= t
    ensures d <= t / c
  {
    DivMod(t, c);
    var g := d - t / c;
    assert g * c == c * d - (t / c) * c;
    MulAtLeast(g, c);
  }

  lemma NearTimes(x: int, y: int, m: int, t: nat, c: int)
    requires Near(x, y, m, t)
    ensures Near(x * c, y * c, m, t * Abs(c))
  {
    var k := NearWitness(x, y, m, t);
    var d := x - y - k * m;
    MulDistrib(x - y, k * m, c);
    MulDistrib(x, y, c);
    MulAssocInt(k, m, c);
    MulAssocInt(k, c, m);
    MulComm(m, c);
    ScaleBound(d, t, Abs(c));
    assert c * d == Abs(c) * d || c * d == -(Abs(c) * d);
    MulComm(c, d);
    MulComm(t, Abs(c));
    NearOf(x * c, y * c, k * c, m, t * Abs(c));
  }

  lemma NearAdd(x: int, y: int, u: int, v: int, m: int, t: int, w: int)
    requires Near(x, y, m, t) && Near(u, v, m, w)
    ensures Near(x + u, y + v, m, t + w)
    ensures Near(x - u, y - v, m, t + w)
  {
    var k := NearWitness(x, y, m, t);
    var l := NearWitness(u, v, m, w);
    MulDistrib(k, l, m);
    NearOf(x + u, y + v, k + l, m, t + w);
    NearOf(x - u, y - v, k - l, m, t + w);
  }

  lemma NearWeaken(x: int, y: int, m: int, t: int, u: int)
    requires Near(x, y, m, t) && t <= u
    ensures Near(x, y, m, u)
  {
    var k := NearWitness(x, y, m, t);
    NearOf(x, y, k, m, u);
  }

  // ----- powers -----

  function Pow(b: nat, e: nat): (r: nat)
    ensures b > 0 ==> r > 0
    decreases e
  {
    if e == 0 then 1 else b * Pow(b, e - 1)
  }

  lemma {:induction false} PowAdd(b: nat, d: nat, e: nat)
    ensures Pow(b, d + e) == Pow(b, d) * Pow(b, e)
  {
    if d > 0 {
      var x, y := Pow(b, d - 1), Pow(b, e);
      PowAdd(b, d - 1, e);
      assert Pow(b, d + e) == b * Pow(b, d - 1 + e);
      MulAssocInt(b, x, y);
      assert Pow(b, d) == b * x;
    }
  }

  lemma {:induction false} PowMono(b: nat, d: nat, e: nat)
    requires b >= 1 && d <= e
    ensures Pow(b, d) <= Pow(b, e)
  {
    if d < e {
      PowMono(b, d, e - 1);
      assert b * Pow(b, e - 1) >= Pow(b, e - 1);
    }
  }

  ghost predicate IsPow2(x: int) { exists e: nat :: Pow(2, e) == x }

  lemma {:induction false} PowOrder(d: nat, e: nat)
    requires Pow(2, d) <= Pow(2, e)
    ensures d <= e
  {
    if e < d { PowMono(2, e, d - 1); }
  }

  /** A power of two divides every larger one, and the quotient is a power of two. */
  lemma Pow2Quotient(x: int, y: int)
    requires IsPow2(x) && IsPow2(y) && x <= y
    ensures x > 0 && y % x == 0 && y == (y / x) * x && IsPow2(y / x)
    ensures x < y ==> (y / x) % 2 == 0 && y / x >= 2
  {
    var d: nat :| Pow(2, d) == x;
    var e: nat :| Pow(2, e) == y;
    PowOrder(d, e);
    PowAdd(2, e - d, d);
    var c := Pow(2, e - d);
    PowParity(e - d);
    hide Pow;
    DivModUnique(y, c, 0, x);
  }

  lemma PowParity(k: nat)
    ensures Pow(2, k) == 1 || (Pow(2, k) % 2 == 0 && Pow(2, k) >= 2)
  {
    if k > 0 { assert Pow(2, k) == 2 * Pow(2, k - 1); }
  }

  lemma Pow2Mul(x: int, y: int)
    requires IsPow2(x) && IsPow2(y)
    ensures IsPow2(x * y)
  {
    var d: nat :| Pow(2, d) == x;
    var e: nat :| Pow(2, e) == y;
    PowAdd(2, d, e);
  }

  lemma PositivePow2(x: int)
    requires IsPow2(x)
    ensures x >= 1
  {
  }

  /** A divisor of a power of two is a power of two. */
  lemma {:induction false} Pow2Divisor(x: int, y: int, e: nat)
    requires x > 0 && y > 0 && x * y == Pow(2, e)
    ensures IsPow2(x)
  {
    if e == 0 {
      MulAtLeast(y, x);
      MulComm(x, y);
      assert x == 1 && Pow(2, 0) == 1;
    } else if x % 2 == 0 {
      MulAssocInt(2, x / 2, y);
      Pow2Divisor(x / 2, y, e - 1);
      var d: nat :| Pow(2, d) == x / 2;
      assert Pow(2, d + 1) == x;
    } else {
      OddFactor(x, y, Pow(2, e - 1));
      MulAssocInt(2, x, y / 2);
      MulAssocInt(x, 2, y / 2);
      MulComm(x, 2);
      Pow2Divisor(x, y / 2, e - 1);
    }
  }

  /** If an odd number times y is even, then y is even. */
  lemma OddFactor(x: int, y: int, z: int)
    requires x % 2 == 1 && x * y == 2 * z
    ensures y % 2 == 0
  {
    var u := x / 2;
    MulDistrib(2 * u, 1, y);
    MulAssocInt(2, u, y);
  }
}
