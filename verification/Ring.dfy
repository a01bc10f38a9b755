/**
  The ring Z[X]/(X^N + 1). An element is the sequence of its N coefficients; its
  negacyclic extension Ext assigns a coefficient to every integer exponent, with
  X^N = -1. Elements modulo Q are handled through coefficientwise congruence.
*/
module Ring {
  import opened Arith
  import opened Sums

  type Poly = seq<int>

  /** The coefficient of X^j, for any integer j, given that X^N = -1. */
  function Ext(p: Poly, j: int): int
    requires |p| > 0
  {
    if (j / |p|) % 2 == 0 then p[j % |p|] else -p[j % |p|]
  }

  function Zero(n: nat): Poly { seq(n, _ => 0) }

  function Add(a: Poly, b: Poly): (r: Poly)
    requires |a| == |b|
    ensures |r| == |a|
  {
    seq(|a|, i requires 0 <= i < |a| => a[i] + b[i])
  }

  function Sub(a: Poly, b: Poly): (r: Poly)
    requires |a| == |b|
    ensures |r| == |a|
  {
    seq(|a|, i requires 0 <= i < |a| => a[i] - b[i])
  }

  function Scale(c: int, a: Poly): (r: Poly)
    ensures |r| == |a|
  {
    seq(|a|, i requires 0 <= i < |a| => c * a[i])
  }

  function ConvTerm(a: Poly, b: Poly, k: int): int -> int
    requires |a| == |b| > 0
  {
    i => Ext(a, i) * Ext(b, k - i)
  }

  /** Coefficient k of the product, for any integer k. */
  function Conv(a: Poly, b: Poly, k: int): int
    requires |a| == |b| > 0
  {
    Sum(ConvTerm(a, b, k), |a|)
  }

  function Mul(a: Poly, b: Poly): (r: Poly)
    requires |a| == |b| > 0
    ensures |r| == |a|
  {
    seq(|a|, k => Conv(a, b, k))
  }

  /** X^j * p. */
  function Rotate(p: Poly, j: int): (r: Poly)
    requires |p| > 0
    ensures |r| == |p|
  {
    seq(|p|, k => Ext(p, k - j))
  }

  function One(n: nat): Poly { seq(n, i => if i == 0 then 1 else 0) }

  /** The monomial X^j, for any integer j. */
  function Monomial(n: nat, j: int): (r: Poly)
    requires n > 0
    ensures |r| == n
  {
    Rotate(One(n), j)
  }

  /** The image of p under X -> X^(-1). */
  function Transpose(p: Poly): (r: Poly)
    requires |p| > 0
    ensures |r| == |p|
  {
    seq(|p|, k => Ext(p, -k))
  }

  // ----- the extension -----

  lemma ExtBase(p: Poly, j: int)
    requires 0 <= j < |p|
    ensures Ext(p, j) == p[j]
  {
    ModSmall(j, |p|);
  }

  lemma ExtStep(p: Poly, j: int)
    requires |p| > 0
    ensures Ext(p, j + |p|) == -Ext(p, j)
  {
    var n := |p|;
    DivMod(j, n);
    assert (j / n + 1) * n == (j / n) * n + n;
    DivModUnique(j + n, j / n + 1, j % n, n);
  }

  ghost predicate Negacyclic(f: int -> int, n: nat) {
    forall j :: f(j + n) == -f(j)
  }

  /** Two negacyclic functions that agree on one period agree everywhere. */
  lemma {:induction false} NegacyclicEq(f: int -> int, g: int -> int, n: nat, j: int)
    requires n > 0 && Negacyclic(f, n) && Negacyclic(g, n)
    requires forall i :: 0 <= i < n ==> f(i) == g(i)
    ensures f(j) == g(j)
    decreases if j < 0 then n - j else j
  {
    if j < 0 {
      NegacyclicEq(f, g, n, j + n);
    } else if j >= n {
      NegacyclicEq(f, g, n, j - n);
      assert f((j - n) + n) == -f(j - n) && g((j - n) + n) == -g(j - n);
    }
  }

  function ExtFn(p: Poly): int -> int
    requires |p| > 0
  {
    j => Ext(p, j)
  }

  lemma ExtNegacyclic(p: Poly)
    requires |p| > 0
    ensures Negacyclic(ExtFn(p), |p|)
  {
    forall j ensures ExtFn(p)(j + |p|) == -ExtFn(p)(j) { ExtStep(p, j); }
  }

  /** A negacyclic function that lists the coefficients of p is its extension. */
  lemma ExtIs(p: Poly, f: int -> int, j: int)
    requires |p| > 0 && Negacyclic(f, |p|)
    requires forall i :: 0 <= i < |p| ==> f(i) == p[i]
    ensures Ext(p, j) == f(j)
  {
    ExtNegacyclic(p);
    forall i | 0 <= i < |p| ensures ExtFn(p)(i) == f(i) { ExtBase(p, i); }
    NegacyclicEq(ExtFn(p), f, |p|, j);
  }

  lemma ExtBound(p: Poly, j: int, c: int)
    requires |p| > 0 && Bounded(p, c)
    ensures -c <= Ext(p, j) <= c
  {
    DivMod(j, |p|);
  }

  ghost predicate Bounded(p: Poly, c: int) {
    forall i :: 0 <= i < |p| ==> -c <= p[i] <= c
  }

  // ----- linearity of the extension -----

  lemma ExtAdd(a: Poly, b: Poly, j: int)
    requires |a| == |b| > 0
    ensures Ext(Add(a, b), j) == Ext(a, j) + Ext(b, j)
    ensures Ext(Sub(a, b), j) == Ext(a, j) - Ext(b, j)
  {
    DivMod(j, |a|);
  }

  lemma ExtScale(c: int, a: Poly, j: int)
    requires |a| > 0
    ensures Ext(Scale(c, a), j) == c * Ext(a, j)
  {
    DivMod(j, |a|);
  }

  lemma ExtZero(n: nat, j: int)
    requires n > 0
    ensures Ext(Zero(n), j) == 0
  {
    DivMod(j, n);
  }

  // ----- the product -----

  function ConvFn(a: Poly, b: Poly): int -> int
    requires |a| == |b| > 0
  {
    k => Conv(a, b, k)
  }

  lemma ConvNegacyclic(a: Poly, b: Poly)
    requires |a| == |b| > 0
    ensures Negacyclic(ConvFn(a, b), |a|)
  {
    hide Ext;
    forall k ensures ConvFn(a, b)(k + |a|) == -ConvFn(a, b)(k) {
      var f, g := ConvTerm(a, b, k), ConvTerm(a, b, k + |a|);
      forall i ensures g(i) == (-1) * f(i) {
        ExtStep(b, k - i);
        assert k - i + |a| == k + |a| - i;
      }
      SumScale(f, g, -1, |a|);
    }
  }

  /** The convolution formula gives the extension of the product at every exponent. */
  lemma ExtMul(a: Poly, b: Poly, k: int)
    requires |a| == |b| > 0
    ensures Ext(Mul(a, b), k) == Conv(a, b, k)
  {
    ConvNegacyclic(a, b);
    ExtIs(Mul(a, b), ConvFn(a, b), k);
  }

  lemma ConvTermPeriodic(a: Poly, b: Poly, k: int)
    requires |a| == |b| > 0
    ensures Periodic(ConvTerm(a, b, k), |a|)
  {
    hide Ext;
    var f := ConvTerm(a, b, k);
    forall i ensures f(i + |a|) == f(i) {
      ExtStep(a, i);
      ExtStep(b, k - (i + |a|));
      assert k - (i + |a|) + |a| == k - i;
    }
  }

  lemma ConvCommutes(a: Poly, b: Poly, k: int)
    requires |a| == |b| > 0
    ensures Conv(a, b, k) == Conv(b, a, k)
  {
    hide Ext;
    var n := |a|;
    var f, g := ConvTerm(a, b, k), ConvTerm(b, a, k);
    ConvTermPeriodic(a, b, k);
    var h := Shifted(f, k - n + 1);
    SumShift(f, k - n + 1, n);
    forall i | 0 <= i < n ensures g(i) == h(n - 1 - i) {
      assert (n - 1 - i) + (k - n + 1) == k - i;
    }
    SumReverse(h, g, n);
  }

  lemma MulCommutes(a: Poly, b: Poly)
    requires |a| == |b| > 0
    ensures Mul(a, b) == Mul(b, a)
  {
    forall k | 0 <= k < |a| ensures Mul(a, b)[k] == Mul(b, a)[k] { ConvCommutes(a, b, k); }
  }

  function TripleTerm(a: Poly, b: Poly, c: Poly, k: int): (int, int) -> int
    requires |a| == |b| == |c| > 0
  {
    (i, j) => Ext(a, j) * Ext(b, i - j) * Ext(c, k - i)
  }

  lemma ConvTermAt(a: Poly, b: Poly, k: int, i: int)
    requires |a| == |b| > 0
    ensures ConvTerm(a, b, k)(i) == Ext(a, i) * Ext(b, k - i)
  {
  }

  lemma TripleTermAt(a: Poly, b: Poly, c: Poly, k: int, i: int, j: int)
    requires |a| == |b| == |c| > 0
    ensures TripleTerm(a, b, c, k)(i, j) == Ext(c, k - i) * (Ext(a, j) * Ext(b, i - j))
    ensures TripleTerm(a, b, c, k)(i, j) == Ext(a, j) * (Ext(b, i - j) * Ext(c, k - i))
  {
    hide Ext;
    MulComm(Ext(a, j) * Ext(b, i - j), Ext(c, k - i));
    MulAssocInt(Ext(a, j), Ext(b, i - j), Ext(c, k - i));
  }

  /** Row i of the triple sum is term i of (a*b)*c. */
  lemma AssocRow(a: Poly, b: Poly, c: Poly, k: int, i: int)
    requires |a| == |b| == |c| > 0
    ensures ConvTerm(Mul(a, b), c, k)(i) == Sum(RowOf(TripleTerm(a, b, c, k), i), |a|)
  {
    hide Ext, Sum, Mul, ConvTerm, TripleTerm;
    var f, g, t := ConvTerm(a, b, i), RowOf(TripleTerm(a, b, c, k), i), Ext(c, k - i);
    forall j | 0 <= j < |a| ensures g(j) == t * f(j) {
      TripleTermAt(a, b, c, k, i, j);
      ConvTermAt(a, b, i, j);
    }
    SumScale(f, g, t, |a|);
    ConvTermAt(Mul(a, b), c, k, i);
    ExtMul(a, b, i);
    MulComm(Sum(f, |a|), t);
  }

  /** Column j of the triple sum is term j of a*(b*c). */
  lemma AssocColumn(a: Poly, b: Poly, c: Poly, k: int, j: int)
    requires |a| == |b| == |c| > 0
    ensures ConvTerm(a, Mul(b, c), k)(j) == Sum(Column(TripleTerm(a, b, c, k), j), |a|)
  {
    hide Ext, Sum, Mul, ConvTerm, TripleTerm;
    var n := |a|;
    var f := ConvTerm(b, c, k - j);
    ConvTermPeriodic(b, c, k - j);
    SumShift(f, -j, n);
    var g := Shifted(f, -j);
    var h := Column(TripleTerm(a, b, c, k), j);
    forall i | 0 <= i < n ensures h(i) == Ext(a, j) * g(i) {
      TripleTermAt(a, b, c, k, i, j);
      ConvTermAt(b, c, k - j, i - j);
      assert (k - j) - (i - j) == k - i;
    }
    SumScale(g, h, Ext(a, j), n);
    ConvTermAt(a, Mul(b, c), k, j);
    ExtMul(b, c, k - j);
  }

  lemma MulAssoc(a: Poly, b: Poly, c: Poly)
    requires |a| == |b| == |c| > 0
    ensures Mul(Mul(a, b), c) == Mul(a, Mul(b, c))
  {
    hide Ext;
    var n := |a|;
    forall k | 0 <= k < n ensures Mul(Mul(a, b), c)[k] == Mul(a, Mul(b, c))[k] {
      forall i | 0 <= i < n
        ensures ConvTerm(Mul(a, b), c, k)(i) == Sum(RowOf(TripleTerm(a, b, c, k), i), n)
      { AssocRow(a, b, c, k, i); }
      forall j | 0 <= j < n
        ensures ConvTerm(a, Mul(b, c), k)(j) == Sum(Column(TripleTerm(a, b, c, k), j), n)
      { AssocColumn(a, b, c, k, j); }
      SumSwap(TripleTerm(a, b, c, k), ConvTerm(Mul(a, b), c, k), ConvTerm(a, Mul(b, c), k), n, n);
    }
  }

  lemma ConvAddRight(a: Poly, b: Poly, c: Poly, k: int)
    requires |a| == |b| == |c| > 0
    ensures Conv(a, Add(b, c), k) == Conv(a, b, k) + Conv(a, c, k)
    ensures Conv(a, Sub(b, c), k) == Conv(a, b, k) - Conv(a, c, k)
  {
    hide Ext, Sum, Add, Sub, ConvTerm;
    var f, g := ConvTerm(a, b, k), ConvTerm(a, c, k);
    var h, d := ConvTerm(a, Add(b, c), k), ConvTerm(a, Sub(b, c), k);
    forall i | 0 <= i < |a| ensures h(i) == f(i) + g(i) && f(i) == d(i) + g(i) {
      var x, y, z := Ext(a, i), Ext(b, k - i), Ext(c, k - i);
      ExtAdd(b, c, k - i);
      ConvTermAt(a, b, k, i);
      ConvTermAt(a, c, k, i);
      ConvTermAt(a, Add(b, c), k, i);
      ConvTermAt(a, Sub(b, c), k, i);
      MulDistrib(y, z, x);
    }
    SumAdd(f, g, h, |a|);
    SumAdd(d, g, f, |a|);
  }

  lemma MulAddRight(a: Poly, b: Poly, c: Poly)
    requires |a| == |b| == |c| > 0
    ensures Mul(a, Add(b, c)) == Add(Mul(a, b), Mul(a, c))
    ensures Mul(a, Sub(b, c)) == Sub(Mul(a, b), Mul(a, c))
  {
    hide Conv;
    forall k | 0 <= k < |a|
      ensures Conv(a, Add(b, c), k) == Conv(a, b, k) + Conv(a, c, k)
      ensures Conv(a, Sub(b, c), k) == Conv(a, b, k) - Conv(a, c, k)
    { ConvAddRight(a, b, c, k); }
  }

  lemma MulAddLeft(a: Poly, b: Poly, c: Poly)
    requires |a| == |b| == |c| > 0
    ensures Mul(Add(a, b), c) == Add(Mul(a, c), Mul(b, c))
    ensures Mul(Sub(a, b), c) == Sub(Mul(a, c), Mul(b, c))
  {
    MulCommutes(Add(a, b), c);
    MulCommutes(Sub(a, b), c);
    MulCommutes(a, c);
    MulCommutes(b, c);
    MulAddRight(c, a, b);
  }

  lemma MulScale(t: int, a: Poly, b: Poly)
    requires |a| == |b| > 0
    ensures Mul(Scale(t, a), b) == Scale(t, Mul(a, b)) == Mul(a, Scale(t, b))
  {
    hide Ext;
    var n := |a|;
    forall k | 0 <= k < n
      ensures Conv(Scale(t, a), b, k) == t * Conv(a, b, k)
      ensures Conv(a, Scale(t, b), k) == t * Conv(a, b, k)
    {
      var f := ConvTerm(a, b, k);
      var g, h := ConvTerm(Scale(t, a), b, k), ConvTerm(a, Scale(t, b), k);
      forall i | 0 <= i < n ensures g(i) == t * f(i) && h(i) == t * f(i) {
        var x, y := Ext(a, i), Ext(b, k - i);
        ExtScale(t, a, i);
        ExtScale(t, b, k - i);
        MulAssocInt(t, x, y);
        MulAssocInt(x, t, y);
        MulComm(x, t);
      }
      SumScale(f, g, t, n);
      SumScale(f, h, t, n);
    }
  }

  lemma MulZero(a: Poly)
    requires |a| > 0
    ensures Mul(Zero(|a|), a) == Zero(|a|) == Mul(a, Zero(|a|))
  {
    MulScale(0, a, a);
    assert Scale(0, a) == Zero(|a|) == Scale(0, Mul(a, a));
  }

  // ----- rotations -----

  function RotFn(p: Poly, j: int): int -> int
    requires |p| > 0
  {
    k => Ext(p, k - j)
  }

  lemma ExtRotate(p: Poly, j: int, k: int)
    requires |p| > 0
    ensures Ext(Rotate(p, j), k) == Ext(p, k - j)
  {
    hide Ext;
    forall i ensures RotFn(p, j)(i + |p|) == -RotFn(p, j)(i) {
      ExtStep(p, i - j);
      assert i - j + |p| == i + |p| - j;
    }
    ExtIs(Rotate(p, j), RotFn(p, j), k);
  }

  lemma RotateRotate(p: Poly, i: int, j: int)
    requires |p| > 0
    ensures Rotate(Rotate(p, i), j) == Rotate(p, i + j)
  {
    hide Ext;
    forall k | 0 <= k < |p| ensures Rotate(Rotate(p, i), j)[k] == Rotate(p, i + j)[k] {
      ExtRotate(p, i, k - j);
    }
  }

  lemma RotateZero(p: Poly)
    requires |p| > 0
    ensures Rotate(p, 0) == p
  {
    forall k | 0 <= k < |p| ensures Rotate(p, 0)[k] == p[k] { ExtBase(p, k); }
  }

  lemma RotatePeriod(p: Poly, j: int, t: int)
    requires |p| > 0
    ensures Rotate(p, j + t * (2 * |p|)) == Rotate(p, j)
    decreases Abs(t)
  {
    var n := |p|;
    if t > 0 {
      assert j + t * (2 * n) == (j + (t - 1) * (2 * n)) + 2 * n;
      RotateTwice(p, j + (t - 1) * (2 * n));
      RotatePeriod(p, j, t - 1);
    } else if t < 0 {
      assert j + (t + 1) * (2 * n) == (j + t * (2 * n)) + 2 * n;
      RotateTwice(p, j + t * (2 * n));
      RotatePeriod(p, j, t + 1);
    }
  }

  lemma RotateTwice(p: Poly, j: int)
    requires |p| > 0
    ensures Rotate(p, j + 2 * |p|) == Rotate(p, j)
  {
    var n := |p|;
    forall k | 0 <= k < n ensures Rotate(p, j + 2 * n)[k] == Rotate(p, j)[k] {
      ExtStep(p, k - (j + 2 * n));
      ExtStep(p, k - (j + 2 * n) + n);
    }
  }

  lemma MulOne(p: Poly)
    requires |p| > 0
    ensures Mul(One(|p|), p) == p
  {
    hide Ext;
    var n := |p|;
    forall k | 0 <= k < n ensures Mul(One(n), p)[k] == p[k] {
      var f := ConvTerm(One(n), p, k);
      forall i | 0 <= i < n ensures f(i) == if i == 0 then p[k] else 0 {
        ExtBase(One(n), i);
        ExtBase(p, k);
      }
      var g := i => f(i + 1);
      SumFront(f, g, n - 1);
      SumZero(g, n - 1);
    }
  }

  /** Rotating either factor rotates the product. */
  lemma MulRotate(a: Poly, b: Poly, j: int)
    requires |a| == |b| > 0
    ensures Mul(a, Rotate(b, j)) == Rotate(Mul(a, b), j) == Mul(Rotate(a, j), b)
  {
    hide Ext;
    MulRotateRight(a, b, j);
    MulRotateRight(b, a, j);
    MulCommutes(a, b);
    MulCommutes(Rotate(a, j), b);
  }

  lemma MulRotateRight(a: Poly, b: Poly, j: int)
    requires |a| == |b| > 0
    ensures Mul(a, Rotate(b, j)) == Rotate(Mul(a, b), j)
  {
    hide Ext;
    var n := |a|;
    forall k | 0 <= k < n ensures Mul(a, Rotate(b, j))[k] == Rotate(Mul(a, b), j)[k] {
      ExtMul(a, b, k - j);
      var f, g := ConvTerm(a, Rotate(b, j), k), ConvTerm(a, b, k - j);
      forall i | 0 <= i < n ensures f(i) == g(i) {
        ExtRotate(b, j, k - i);
        assert k - i - j == k - j - i;
      }
      SumEq(f, g, n);
    }
  }

  /** Multiplying by the monomial X^j is rotating by j. */
  lemma MulMonomial(p: Poly, j: int)
    requires |p| > 0
    ensures Mul(Monomial(|p|, j), p) == Rotate(p, j)
  {
    MulRotate(One(|p|), p, j);
    MulOne(p);
  }

  lemma RotateAdd(a: Poly, b: Poly, j: int)
    requires |a| == |b| > 0
    ensures Rotate(Add(a, b), j) == Add(Rotate(a, j), Rotate(b, j))
    ensures Rotate(Sub(a, b), j) == Sub(Rotate(a, j), Rotate(b, j))
  {
    forall k | 0 <= k < |a|
      ensures Rotate(Add(a, b), j)[k] == Rotate(a, j)[k] + Rotate(b, j)[k]
      ensures Rotate(Sub(a, b), j)[k] == Rotate(a, j)[k] - Rotate(b, j)[k]
    { ExtAdd(a, b, k - j); }
  }

  // ----- size of coefficients -----

  lemma RotateBound(p: Poly, j: int, c: int)
    requires |p| > 0 && Bounded(p, c)
    ensures Bounded(Rotate(p, j), c)
  {
    forall k | 0 <= k < |p| ensures -c <= Rotate(p, j)[k] <= c { ExtBound(p, k - j, c); }
  }

  lemma MulBound(a: Poly, b: Poly, c: nat, d: nat)
    requires |a| == |b| > 0 && Bounded(a, c) && Bounded(b, d)
    ensures Bounded(Mul(a, b), |a| * (c * d))
  {
    hide Ext;
    forall k | 0 <= k < |a| ensures -(|a| * (c * d)) <= Mul(a, b)[k] <= |a| * (c * d) {
      var f := ConvTerm(a, b, k);
      forall i | 0 <= i < |a| ensures -(c * d) <= f(i) <= c * d {
        ExtBound(a, i, c);
        ExtBound(b, k - i, d);
        ProductBound(Ext(a, i), Ext(b, k - i), c, d);
      }
      SumBound(f, |a|, c * d);
    }
  }

  lemma ProductBound(x: int, y: int, c: nat, d: nat)
    requires 0 - c <= x <= c && 0 - d <= y <= d
    ensures -(c * d) <= x * y <= c * d
  {
    MulMono(Abs(x), c, Abs(y));
    MulMono(Abs(y), d, c);
    assert x * y == Abs(x) * Abs(y) || x * y == -(Abs(x) * Abs(y));
  }

  lemma AddBound(a: Poly, b: Poly, c: int, d: int)
    requires |a| == |b| && Bounded(a, c) && Bounded(b, d)
    ensures Bounded(Add(a, b), c + d) && Bounded(Sub(a, b), c + d)
  {
  }

  // ----- elements modulo Q -----

  ghost predicate PCong(a: Poly, b: Poly, m: int) {
    |a| == |b| && forall i :: 0 <= i < |a| ==> Cong(a[i], b[i], m)
  }

  function Reduce(p: Poly, m: int): (r: Poly)
    requires m > 0
    ensures |r| == |p| && Residues(r, m)
  {
    seq(|p|, i requires 0 <= i < |p| => p[i] % m)
  }

  predicate Residues(p: Poly, m: int) {
    forall i :: 0 <= i < |p| ==> 0 <= p[i] < m
  }

  lemma ReduceCong(p: Poly, m: int)
    requires m > 0
    ensures PCong(Reduce(p, m), p, m)
  {
    forall i | 0 <= i < |p| ensures Cong(Reduce(p, m)[i], p[i], m) { ModCong(p[i], m); }
  }

  lemma PCongRefl(a: Poly, m: int)
    ensures PCong(a, a, m)
  {
    forall i | 0 <= i < |a| ensures Cong(a[i], a[i], m) { CongRefl(a[i], m); }
  }

  lemma PCongSym(a: Poly, b: Poly, m: int)
    requires PCong(a, b, m)
    ensures PCong(b, a, m)
  {
    forall i | 0 <= i < |a| ensures Cong(b[i], a[i], m) { CongSym(a[i], b[i], m); }
  }

  lemma PCongTrans(a: Poly, b: Poly, c: Poly, m: int)
    requires PCong(a, b, m) && PCong(b, c, m)
    ensures PCong(a, c, m)
  {
    forall i | 0 <= i < |a| ensures Cong(a[i], c[i], m) { CongTrans(a[i], b[i], c[i], m); }
  }

  lemma PCongAdd(a: Poly, b: Poly, c: Poly, d: Poly, m: int)
    requires PCong(a, b, m) && PCong(c, d, m) && |a| == |c|
    ensures PCong(Add(a, c), Add(b, d), m)
    ensures PCong(Sub(a, c), Sub(b, d), m)
  {
    forall i | 0 <= i < |a|
      ensures Cong(Add(a, c)[i], Add(b, d)[i], m) && Cong(Sub(a, c)[i], Sub(b, d)[i], m)
    { CongAdd(a[i], b[i], c[i], d[i], m); }
  }

  lemma ExtCong(a: Poly, b: Poly, m: int, j: int)
    requires PCong(a, b, m) && |a| > 0
    ensures Cong(Ext(a, j), Ext(b, j), m)
  {
    DivMod(j, |a|);
    var r := j % |a|;
    assert Cong(a[r], b[r], m);
    CongScale(a[r], b[r], -1, m);
  }

  lemma PCongMul(a: Poly, b: Poly, c: Poly, d: Poly, m: int)
    requires PCong(a, b, m) && PCong(c, d, m) && |a| == |c| > 0
    ensures PCong(Mul(a, c), Mul(b, d), m)
  {
    hide Ext;
    var n := |a|;
    forall k | 0 <= k < n ensures Cong(Mul(a, c)[k], Mul(b, d)[k], m) {
      var f, g := ConvTerm(a, c, k), ConvTerm(b, d, k);
      forall i | 0 <= i < n ensures Cong(f(i), g(i), m) {
        ExtCong(a, b, m, i);
        ExtCong(c, d, m, k - i);
        CongMul(Ext(a, i), Ext(b, i), Ext(c, k - i), Ext(d, k - i), m);
      }
      SumCong(f, g, n, m);
    }
  }

  lemma PCongRotate(a: Poly, b: Poly, m: int, j: int)
    requires PCong(a, b, m) && |a| > 0
    ensures PCong(Rotate(a, j), Rotate(b, j), m)
  {
    forall k | 0 <= k < |a| ensures Cong(Rotate(a, j)[k], Rotate(b, j)[k], m) {
      ExtCong(a, b, m, k - j);
    }
  }
}
