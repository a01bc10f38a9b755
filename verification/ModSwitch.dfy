/** Modulus switching by scaling and rounding (lwe-pke.cpp). */
module ModSwitching {
  import opened Arith
  import opened Sums
  import opened Lwe

  /** floor(1/2 + v*q/Q), reduced modulo q. */
  function RoundqQ(v: int, q: int, Q: int): (r: int)
    requires q > 0 && Q > 0
    ensures 0 <= r < q
  {
    ((2 * v * q + Q) / (2 * Q)) % q
  }

  /** The result is w mod q for the one integer w with w - 1/2 <= v*q/Q < w + 1/2: halves round up. */
  lemma RoundExactly(v: int, q: int, Q: int, w: int)
    requires q > 0 && Q > 0 && (2 * w - 1) * Q <= 2 * (v * q) < (2 * w + 1) * Q
    ensures RoundqQ(v, q, Q) == w % q
  {
    MulAssocInt(2, v, q);
    MulAssocInt(2, w, Q);
    MulDistrib(2 * w, 1, Q);
    MulComm(w, 2 * Q);
    MulAssocInt(2, Q, w);
    MulComm(w, Q);
    DivModUnique(2 * v * q + Q, w, 2 * v * q + Q - w * (2 * Q), 2 * Q);
  }

  lemma RoundNear(v: int, q: int, Q: int)
    requires q > 0 && Q > 0
    ensures Near((2 * Q) * RoundqQ(v, q, Q), (2 * q) * v, (2 * Q) * q, Q)
  {
    var x := 2 * v * q + Q;
    var w := x / (2 * Q);
    DivMod(x, 2 * Q);
    DivMod(w, q);
    var k := w / q;
    var r := w % q;
    assert RoundqQ(v, q, Q) == r;
    RoundArith(v, q, Q, w, k, r, x % (2 * Q));
    NearOf((2 * Q) * r, (2 * q) * v, -k, (2 * Q) * q, Q);
  }

  lemma RoundArith(v: int, q: int, Q: int, w: int, k: int, r: int, t: int)
    requires 2 * v * q + Q == w * (2 * Q) + t && w == k * q + r
    ensures (2 * Q) * r - (2 * q) * v - (-k) * ((2 * Q) * q) == Q - t
  {
    MulDistrib(k * q, r, 2 * Q);
    MulAssocInt(k, q, 2 * Q);
    MulComm(q, 2 * Q);
    MulComm(r, 2 * Q);
    assert 2 * v * q == (2 * q) * v;
  }

  function SwitchV(q: int, c: Cipher): (r: Cipher)
    requires q > 0 && c.modulus > 0
    ensures r.Valid() && |r.a| == |c.a| && r.modulus == q
  {
    Cipher(seq(|c.a|, i requires 0 <= i < |c.a| => RoundqQ(c.a[i], q, c.modulus)), RoundqQ(c.b, q, c.modulus), q)
  }

  function AbsTerm(s: seq<int>): int -> int { i => Abs(At(s, i)) }

  function Norm1(s: seq<int>): int { Sum(AbsTerm(s), |s|) }

  lemma {:induction false} DotNear(c: Cipher, q: int, s: seq<int>, n: nat)
    requires c.Valid() && q > 0 && n <= |c.a| == |s|
    ensures Near((2 * c.modulus) * Sum(DotTerm(SwitchV(q, c).a, s), n), (2 * q) * Sum(DotTerm(c.a, s), n),
                 (2 * c.modulus) * q, c.modulus * Sum(AbsTerm(s), n))
  {
    hide RoundqQ;
    var Q, M := c.modulus, (2 * c.modulus) * q;
    var f, g, h := DotTerm(SwitchV(q, c).a, s), DotTerm(c.a, s), AbsTerm(s);
    if n == 0 {
      NearOf(0, 0, 0, M, 0);
    } else {
      var i := n - 1;
      DotNear(c, q, s, i);
      RoundNear(c.a[i], q, Q);
      var x, y := SwitchV(q, c).a[i], c.a[i];
      NearTimes((2 * Q) * x, (2 * q) * y, M, Q, s[i]);
      MulAssocInt(2 * Q, x, s[i]);
      MulAssocInt(2 * q, y, s[i]);
      NearAdd((2 * Q) * Sum(f, i), (2 * q) * Sum(g, i), (2 * Q) * f(i), (2 * q) * g(i), M, Q * Sum(h, i), Q * h(i));
      MulDistrib(Sum(f, i), f(i), 2 * Q);
      MulDistrib(Sum(g, i), g(i), 2 * q);
      MulDistrib(Sum(h, i), h(i), Q);
    }
  }

  /**
    Switching from modulus Q to q scales the phase by q/Q up to (1 + ||s||_1)/2, for
    every ciphertext and every integer key. Both sides are multiplied by 2Q.
  */
  lemma ModSwitchPhase(c: Cipher, q: int, s: seq<int>)
    requires c.Valid() && q > 0 && |s| == |c.a|
    ensures Near((2 * c.modulus) * Phase(SwitchV(q, c), s), (2 * q) * Phase(c, s),
                 (2 * c.modulus) * q, c.modulus * (1 + Norm1(s)))
  {
    hide RoundqQ;
    var Q, M := c.modulus, (2 * c.modulus) * q;
    var d := SwitchV(q, c);
    DotNear(c, q, s, |s|);
    RoundNear(c.b, q, Q);
    NearAdd((2 * Q) * d.b, (2 * q) * c.b, (2 * Q) * Dot(d.a, s), (2 * q) * Dot(c.a, s), M, Q, Q * Norm1(s));
    MulDistrib(d.b, Dot(d.a, s), 2 * Q);
    MulDistrib(c.b, Dot(c.a, s), 2 * q);
    MulDistrib(1, Norm1(s), Q);
  }

  lemma TernaryNorm(s: seq<int>)
    requires Ternary(s)
    ensures 0 <= Norm1(s) <= |s|
  {
    TernaryNormPrefix(s, |s|);
  }

  lemma {:induction false} TernaryNormPrefix(s: seq<int>, n: nat)
    requires Ternary(s) && n <= |s|
    ensures 0 <= Sum(AbsTerm(s), n) <= n
  {
    if n > 0 { TernaryNormPrefix(s, n - 1); }
  }

  method ModSwitch(q: int, ctQ: LWECiphertext) returns (ct: LWECiphertext)
    requires ctQ.Valid() && q > 0
    ensures fresh(ct) && ct.Value() == SwitchV(q, ctQ.Value())
  {
    var n, Q := |ctQ.a|, ctQ.modulus;
    var a: seq<int> := [];
    for i := 0 to n
      invariant |a| == i
      invariant forall k :: 0 <= k < i ==> a[k] == RoundqQ(ctQ.a[k], q, Q)
    {
      a := a + [RoundqQ(ctQ.a[i], q, Q)];
    }
    ct := new LWECiphertext(Cipher(a, RoundqQ(ctQ.b, q, Q), q));
  }
}
