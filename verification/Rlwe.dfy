/** RingLWE ciphertexts (rlwe-ciphertext.h) and ring arithmetic modulo Q. */
module Rlwe {
  import opened Ring
  import opened ExternalProduct

  class RLWECiphertext {
    var a: Poly
    var b: Poly

    constructor (a: Poly, b: Poly)
      ensures this.a == a && this.b == b
    {
      this.a, this.b := a, b;
    }

    predicate Valid(N: nat, Q: int)
      reads this
    {
      N > 0 && Q > 0 && |a| == |b| == N && Residues(a, Q) && Residues(b, Q)
    }
  }

  function AddMod(a: Poly, b: Poly, Q: int): (r: Poly)
    requires |a| == |b| && Q > 0
    ensures |r| == |a| && Residues(r, Q)
  {
    Reduce(Add(a, b), Q)
  }

  function MulMod(a: Poly, b: Poly, Q: int): (r: Poly)
    requires |a| == |b| > 0 && Q > 0
    ensures |r| == |a| && Residues(r, Q)
  {
    Reduce(Mul(a, b), Q)
  }

  lemma PCongLength(a: Poly, b: Poly, Q: int)
    requires PCong(a, b, Q)
    ensures |a| == |b|
  {
  }

  lemma AddModCong(a: Poly, b: Poly, c: Poly, d: Poly, Q: int)
    requires Q > 0 && PCong(a, c, Q) && PCong(b, d, Q) && |a| == |b|
    ensures PCong(AddMod(a, b, Q), Add(c, d), Q)
  {
    PCongLength(a, c, Q);
    PCongLength(b, d, Q);
    hide PCong, Reduce;
    PCongAdd(a, c, b, d, Q);
    ReduceCong(Add(a, b), Q);
    PCongTrans(AddMod(a, b, Q), Add(a, b), Add(c, d), Q);
  }

  lemma MulModCong(a: Poly, b: Poly, c: Poly, d: Poly, Q: int)
    requires Q > 0 && PCong(a, c, Q) && PCong(b, d, Q) && |a| == |b| > 0
    ensures PCong(MulMod(a, b, Q), Mul(c, d), Q)
  {
    PCongLength(a, c, Q);
    PCongLength(b, d, Q);
    hide PCong, Reduce, Mul;
    PCongMul(a, c, b, d, Q);
    ReduceCong(Mul(a, b), Q);
    PCongTrans(MulMod(a, b, Q), Mul(a, b), Mul(c, d), Q);
  }

  /** The sum of dct[l] * v[l] over all l, accumulated term by term modulo Q. */
  method Combine(dct: seq<Poly>, v: seq<Poly>, N: nat, Q: int) returns (temp: Poly)
    requires N > 0 && Q > 0 && |dct| == |v| > 0 && Polys(dct, N) && Polys(v, N)
    ensures |temp| == N && PCong(temp, Lin(dct, v, N, |v|), Q)
  {
    hide PCong, Mul, Reduce;
    temp := MulMod(dct[0], v[0], Q);
    CombineFirst(dct[0], v[0], Q);
    assert Lin(dct, v, N, 1) == Add(Zero(N), Mul(dct[0], v[0]));
    var l := 1;
    while l < |v|
      invariant 1 <= l <= |v| && |temp| == N && PCong(temp, Lin(dct, v, N, l), Q)
    {
      CombineStep(temp, Lin(dct, v, N, l), dct[l], v[l], Q);
      temp := AddMod(temp, MulMod(dct[l], v[l], Q), Q);
      l := l + 1;
    }
  }

  lemma CombineFirst(d: Poly, v: Poly, Q: int)
    requires Q > 0 && |d| == |v| > 0
    ensures PCong(MulMod(d, v, Q), Add(Zero(|d|), Mul(d, v)), Q)
  {
    hide PCong, Mul, Reduce;
    ReduceCong(Mul(d, v), Q);
    assert Add(Zero(|d|), Mul(d, v)) == Mul(d, v);
  }

  lemma CombineStep(t: Poly, x: Poly, d: Poly, v: Poly, Q: int)
    requires Q > 0 && |t| == |d| == |v| > 0 && PCong(t, x, Q)
    ensures PCong(AddMod(t, MulMod(d, v, Q), Q), Add(x, Mul(d, v)), Q)
  {
    hide Mul, Reduce;
    ReduceCong(Mul(d, v), Q);
    AddModCong(t, MulMod(d, v, Q), x, Mul(d, v), Q);
  }
}
