/** Finite sums of integer functions over an initial segment. */
module Sums {
  import opened Arith

  function Sum(f: int -> int, n: nat): int
  {
    if n == 0 then 0 else Sum(f, n - 1) + f(n - 1)
  }

  lemma {:induction false} SumEq(f: int -> int, g: int -> int, n: nat)
    requires forall i :: 0 <= i < n ==> f(i) == g(i)
    ensures Sum(f, n) == Sum(g, n)
  {
    if n > 0 { SumEq(f, g, n - 1); }
  }

  lemma {:induction false} SumZero(f: int -> int, n: nat)
    requires forall i :: 0 <= i < n ==> f(i) == 0
    ensures Sum(f, n) == 0
  {
    if n > 0 { SumZero(f, n - 1); }
  }

  lemma {:induction false} SumAdd(f: int -> int, g: int -> int, h: int -> int, n: nat)
    requires forall i :: 0 <= i < n ==> h(i) == f(i) + g(i)
    ensures Sum(h, n) == Sum(f, n) + Sum(g, n)
  {
    if n > 0 { SumAdd(f, g, h, n - 1); }
  }

  lemma {:induction false} SumScale(f: int -> int, g: int -> int, c: int, n: nat)
    requires forall i :: 0 <= i < n ==> g(i) == c * f(i)
    ensures Sum(g, n) == c * Sum(f, n)
  {
    if n > 0 {
      SumScale(f, g, c, n - 1);
      assert c * (Sum(f, n - 1) + f(n - 1)) == c * Sum(f, n - 1) + c * f(n - 1);
    }
  }

  lemma {:induction false} SumCong(f: int -> int, g: int -> int, n: nat, m: int)
    requires forall i :: 0 <= i < n ==> Cong(f(i), g(i), m)
    ensures Cong(Sum(f, n), Sum(g, n), m)
  {
    if n == 0 {
      CongRefl(0, m);
    } else {
      SumCong(f, g, n - 1, m);
      CongAdd(Sum(f, n - 1), Sum(g, n - 1), f(n - 1), g(n - 1), m);
    }
  }

  lemma {:induction false} SumBound(f: int -> int, n: nat, c: int)
    requires forall i :: 0 <= i < n ==> -c <= f(i) <= c
    ensures -(n * c) <= Sum(f, n) <= n * c
  {
    if n > 0 {
      SumBound(f, n - 1, c);
      assert n * c == (n - 1) * c + c;
    }
  }

  /** Splitting off the front of a sum. */
  lemma {:induction false} SumFront(f: int -> int, g: int -> int, n: nat)
    requires forall i :: 0 <= i < n ==> g(i) == f(i + 1)
    ensures Sum(f, n + 1) == f(0) + Sum(g, n)
  {
    if n > 0 { SumFront(f, g, n - 1); }
  }

  lemma {:induction false} SumReverse(f: int -> int, g: int -> int, n: nat)
    requires forall i :: 0 <= i < n ==> g(i) == f(n - 1 - i)
    ensures Sum(g, n) == Sum(f, n)
  {
    if n > 0 {
      var g1 := i => g(i + 1);
      SumReverse(f, g1, n - 1);
      SumFront(g, g1, n - 1);
    }
  }

  function Shifted(f: int -> int, t: int): int -> int { i => f(i + t) }

  ghost predicate Periodic(f: int -> int, n: nat) {
    forall i :: f(i + n) == f(i)
  }

  lemma SumShiftOne(f: int -> int, n: nat)
    requires n > 0 && Periodic(f, n)
    ensures Sum(Shifted(f, 1), n) == Sum(f, n)
  {
    SumFront(f, Shifted(f, 1), n - 1);
    assert f(0 + n) == f(0);
  }

  /** A sum over one period does not depend on where the period starts. */
  lemma {:induction false} SumShift(f: int -> int, t: int, n: nat)
    requires n > 0 && Periodic(f, n)
    ensures Sum(Shifted(f, t), n) == Sum(f, n)
    decreases Abs(t)
  {
    if t == 0 {
      SumEq(Shifted(f, 0), f, n);
    } else if t > 0 {
      var g := Shifted(f, t - 1);
      SumShift(f, t - 1, n);
      PeriodicShift(f, t - 1, n);
      SumShiftOne(g, n);
      SumEq(Shifted(g, 1), Shifted(f, t), n);
    } else {
      var g := Shifted(f, t);
      SumShift(f, t + 1, n);
      PeriodicShift(f, t, n);
      SumShiftOne(g, n);
      SumEq(Shifted(g, 1), Shifted(f, t + 1), n);
    }
  }

  lemma PeriodicShift(f: int -> int, t: int, n: nat)
    requires Periodic(f, n)
    ensures Periodic(Shifted(f, t), n)
  {
    forall i ensures Shifted(f, t)(i + n) == Shifted(f, t)(i) {
      assert f((i + t) + n) == f(i + t);
      assert (i + t) + n == (i + n) + t;
    }
  }

  function RowOf(f: (int, int) -> int, i: int): int -> int { j => f(i, j) }

  function Column(f: (int, int) -> int, j: int): int -> int { i => f(i, j) }

  /** The order of summation of a double sum is immaterial. */
  lemma {:induction false} SumSwap(f: (int, int) -> int, r: int -> int, c: int -> int, n: nat, m: nat)
    requires forall i :: 0 <= i < n ==> r(i) == Sum(RowOf(f, i), m)
    requires forall j :: 0 <= j < m ==> c(j) == Sum(Column(f, j), n)
    ensures Sum(r, n) == Sum(c, m)
  {
    if n == 0 {
      SumZero(c, m);
    } else {
      var c' := j => Sum(Column(f, j), n - 1);
      SumSwap(f, r, c', n - 1, m);
      SumAdd(c', RowOf(f, n - 1), c, m);
    }
  }
}
