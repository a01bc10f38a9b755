/**
  LWE ciphertexts, their phase, and the additive operations on them
  (lwe-ciphertext.h, lwe-pke.cpp).
*/
module Lwe {
  import opened Arith
  import opened Sums
  import opened Native
  import opened Ring

  /** The contents of a ciphertext object. */
  datatype Cipher = Cipher(a: seq<int>, b: int, modulus: int) {
    predicate Valid() { modulus > 0 && Residues(a, modulus) && 0 <= b < modulus }
  }

  /** The secret vector, stored as residues of its signed entries. */
  datatype PrivateKey = PrivateKey(elements: seq<int>, modulus: int) {
    predicate Valid() { modulus > 2 && Residues(elements, modulus) }

    function Signed(): (r: seq<int>)
      ensures |r| == |elements|
    {
      seq(|elements|, i requires 0 <= i < |elements| => Centre(elements[i], modulus))
    }

    /** The entries as the accumulators' key generation reads them. */
    function Read(): (r: seq<int>)
      ensures |r| == |elements|
    {
      seq(|elements|, i requires 0 <= i < |elements| => Read32(elements[i], modulus))
    }
  }

  function Centre(x: int, m: int): int { if x > m / 2 then x - m else x }

  /** Two's-complement reinterpretation in 32 bits. */
  function ToInt32(x: int): (r: int)
    ensures -0x8000_0000 <= r < 0x8000_0000
  {
    (x + 0x8000_0000) % 0x1_0000_0000 - 0x8000_0000
  }

  /** An entry x modulo m, with both cast to a signed 32-bit integer before centring. */
  function Read32(x: int, m: int): int {
    var mod, s := ToInt32(m), ToInt32(x);
    var modHalf := mod / 2;
    if s > modHalf then ToInt32(s - mod) else s
  }

  /** The moduli for which the casts keep 0, 1 and -1. */
  predicate CastOk(m: int) { var w := ToInt32(m); w == 0 || w >= 3 }

  lemma ToInt32Of(x: int, y: int, k: int)
    requires x == y + k * 0x1_0000_0000 && -0x8000_0000 <= y < 0x8000_0000
    ensures ToInt32(x) == y
  {
    DivModUnique(x + 0x8000_0000, k, y + 0x8000_0000, 0x1_0000_0000);
  }

  /** The casts keep 0, 1 and -1 if and only if the signed low word of the modulus is 0 or at least 3. */
  lemma CastExactly(m: int)
    requires m > 2
    ensures CastOk(m) <==> Read32(0, m) == 0 && Read32(1, m) == 1 && Read32(m - 1, m) == -1
  {
    hide ToInt32;
    var w, k := ToInt32(m), (m + 0x8000_0000) / 0x1_0000_0000;
    LowWord(m);
    ToInt32Of(0, 0, 0);
    ToInt32Of(1, 1, 0);
    if w > -0x8000_0000 { ToInt32Of(m - 1, w - 1, k); } else { ToInt32Of(m - 1, 0x7FFF_FFFF, k - 1); }
    ToInt32Of(-1, -1, 0);
    if w > -0x8000_0000 { ToInt32Of(0 - w, 0 - w, 0); } else { ToInt32Of(0 - w, w, 1); }
    if w == 1 { ToInt32Of(1 - w, 0, 0); }
  }

  lemma LowWord(m: int)
    ensures m == ToInt32(m) + (m + 0x8000_0000) / 0x1_0000_0000 * 0x1_0000_0000
  {
    DivMod(m + 0x8000_0000, 0x1_0000_0000);
  }

  /**
    What is read of any entry under any modulus: the signed 32-bit number with the low word of x, or of x - m if
    the low word of x, as a signed number, exceeds half that of m.
  */
  lemma ReadExactly(x: int, m: int)
    ensures -0x8000_0000 <= Read32(x, m) < 0x8000_0000
    ensures Cong(Read32(x, m), if ToInt32(x) > ToInt32(m) / 2 then x - m else x, 0x1_0000_0000)
    ensures Cong(ToInt32(x), x, 0x1_0000_0000)
  {
    hide ToInt32;
    var W := 0x1_0000_0000;
    LowWordCong(x);
    LowWordCong(m);
    if ToInt32(x) > ToInt32(m) / 2 {
      var d := ToInt32(x) - ToInt32(m);
      LowWordCong(d);
      CongAdd(ToInt32(x), x, ToInt32(m), m, W);
      CongTrans(ToInt32(d), d, x - m, W);
    }
  }

  lemma LowWordCong(x: int)
    ensures Cong(ToInt32(x), x, 0x1_0000_0000)
  {
    LowWord(x);
    CongOf(ToInt32(x), x, 0 - (x + 0x8000_0000) / 0x1_0000_0000, 0x1_0000_0000);
  }

  /** For a modulus that fits a signed word, the casts change nothing. */
  lemma ReadSmall(x: int, m: int)
    requires 0 <= x < m < 0x8000_0000
    ensures Read32(x, m) == Centre(x, m)
  {
    hide ToInt32;
    ToInt32Of(x, x, 0);
    ToInt32Of(m, m, 0);
    ToInt32Of(x - m, x - m, 0);
  }

  /** A ternary secret is read correctly under every modulus that passes the cast. */
  lemma ReadTernary(sk: PrivateKey)
    requires sk.Valid() && CastOk(sk.modulus) && Ternary(sk.Signed())
    ensures sk.Read() == sk.Signed()
  {
    hide Read32, CastOk;
    CastExactly(sk.modulus);
    forall i | 0 <= i < |sk.elements| ensures sk.Read()[i] == sk.Signed()[i] {
      var x := sk.elements[i];
      assert -1 <= sk.Signed()[i] <= 1 && 0 <= x < sk.modulus;
      assert x == 0 || x == 1 || x == sk.modulus - 1;
    }
  }

  /**
    Moduli that fail the cast: under 2^31 + 1 the entry 0 is read as a large number, under
    2^32 + 1 both 1 and -1 are read as 0; and under 2^35, which passes, 2^32 is read as 0.
  */
  lemma CastMisreads()
    ensures Read32(0, 0x8000_0001) == 0x7FFF_FFFF
    ensures Read32(1, 0x1_0000_0001) == 0 && Read32(0x1_0000_0000, 0x1_0000_0001) == 0
    ensures CastOk(0x8_0000_0000) && Read32(0x1_0000_0000, 0x8_0000_0000) == 0
  {
  }

  predicate Ternary(s: seq<int>) { forall i :: 0 <= i < |s| ==> -1 <= s[i] <= 1 }

  // ----- inner products and phases -----

  function At(v: seq<int>, i: int): int { if 0 <= i < |v| then v[i] else 0 }

  function DotTerm(a: seq<int>, s: seq<int>): int -> int { i => At(a, i) * At(s, i) }

  function Dot(a: seq<int>, s: seq<int>): int { Sum(DotTerm(a, s), |a|) }

  /** What a ciphertext carries under the key s: b - <a, s>. */
  function Phase(c: Cipher, s: seq<int>): int { c.b - Dot(c.a, s) }

  lemma TermLinear(x: int, y: int, z: int, t: int, c: int, m: int)
    requires Cong(z, x + c * y, m)
    ensures Cong(z * t, x * t + c * (y * t), m)
  {
    CongScale(z, x + c * y, t, m);
    MulDistrib(x, c * y, t);
    MulAssocInt(c, y, t);
  }

  lemma DotLinear(x: seq<int>, y: seq<int>, z: seq<int>, s: seq<int>, c: int, m: int)
    requires |x| == |y| == |z| == |s|
    requires forall i :: 0 <= i < |x| ==> Cong(z[i], x[i] + c * y[i], m)
    ensures Cong(Dot(z, s), Dot(x, s) + c * Dot(y, s), m)
  {
    var f, g, h := DotTerm(x, s), DotTerm(y, s), DotTerm(z, s);
    var cg := i => c * g(i);
    var sum := i => f(i) + cg(i);
    forall i | 0 <= i < |x| ensures Cong(h(i), sum(i), m) {
      TermLinear(x[i], y[i], z[i], s[i], c, m);
    }
    SumCong(h, sum, |x|, m);
    SumAdd(f, cg, sum, |x|);
    SumScale(g, cg, c, |x|);
  }

  lemma DotCong(x: seq<int>, z: seq<int>, s: seq<int>, m: int)
    requires |x| == |z| == |s|
    requires PCong(z, x, m)
    ensures Cong(Dot(z, s), Dot(x, s), m)
  {
    var f, h := DotTerm(x, s), DotTerm(z, s);
    forall i | 0 <= i < |x| ensures Cong(h(i), f(i), m) {
      assert Cong(z[i], x[i], m);
      CongScale(z[i], x[i], s[i], m);
    }
    SumCong(h, f, |x|, m);
  }

  lemma DotZeros(n: nat, s: seq<int>)
    ensures Dot(Zero(n), s) == 0
  {
    SumZero(DotTerm(Zero(n), s), n);
  }

  // ----- the additive operations -----

  predicate Compatible(c: Cipher, d: Cipher) { |c.a| == |d.a| && c.modulus == d.modulus }

  function AddV(c: Cipher, d: Cipher): (r: Cipher)
    requires c.Valid() && d.Valid() && Compatible(c, d)
    ensures r.Valid() && Compatible(r, c)
  {
    var m := c.modulus;
    Cipher(seq(|c.a|, i requires 0 <= i < |c.a| => ModAddFast(c.a[i], d.a[i], m)), ModAddFast(c.b, d.b, m), m)
  }

  function SubV(c: Cipher, d: Cipher): (r: Cipher)
    requires c.Valid() && d.Valid() && Compatible(c, d)
    ensures r.Valid() && Compatible(r, c)
  {
    var m := c.modulus;
    Cipher(seq(|c.a|, i requires 0 <= i < |c.a| => ModSubFast(c.a[i], d.a[i], m)), ModSubFast(c.b, d.b, m), m)
  }

  function NegV(c: Cipher): (r: Cipher)
    requires c.Valid() && c.modulus >= 4
    ensures r.Valid() && Compatible(r, c)
  {
    var q := c.modulus;
    Cipher(seq(|c.a|, i requires 0 <= i < |c.a| => if c.a[i] == 0 then 0 else q - c.a[i]), ModSubFast(q / 4, c.b, q), q)
  }

  lemma AddPhase(c: Cipher, d: Cipher, s: seq<int>)
    requires c.Valid() && d.Valid() && Compatible(c, d) && |s| == |c.a|
    ensures Cong(Phase(AddV(c, d), s), Phase(c, s) + Phase(d, s), c.modulus)
  {
    var m, r := c.modulus, AddV(c, d);
    forall i | 0 <= i < |c.a| ensures Cong(r.a[i], c.a[i] + 1 * d.a[i], m) { ModCong(c.a[i] + d.a[i], m); }
    DotLinear(c.a, d.a, r.a, s, 1, m);
    ModCong(c.b + d.b, m);
    CongAdd(r.b, c.b + d.b, Dot(r.a, s), Dot(c.a, s) + Dot(d.a, s), m);
  }

  lemma SubPhase(c: Cipher, d: Cipher, s: seq<int>)
    requires c.Valid() && d.Valid() && Compatible(c, d) && |s| == |c.a|
    ensures Cong(Phase(SubV(c, d), s), Phase(c, s) - Phase(d, s), c.modulus)
  {
    var m, r := c.modulus, SubV(c, d);
    forall i | 0 <= i < |c.a| ensures Cong(r.a[i], c.a[i] + -1 * d.a[i], m) { ModCong(c.a[i] - d.a[i], m); }
    DotLinear(c.a, d.a, r.a, s, -1, m);
    ModCong(c.b - d.b, m);
    CongAdd(r.b, c.b - d.b, Dot(r.a, s), Dot(c.a, s) - Dot(d.a, s), m);
  }

  /** Negating a ciphertext and adding a quarter of the modulus complements the encrypted bit. */
  lemma NegPhase(c: Cipher, s: seq<int>)
    requires c.Valid() && c.modulus >= 4 && |s| == |c.a|
    ensures Cong(Phase(NegV(c), s), c.modulus / 4 - Phase(c, s), c.modulus)
  {
    var m, r, z := c.modulus, NegV(c), Zero(|c.a|);
    forall i | 0 <= i < |c.a| ensures Cong(r.a[i], z[i] + -1 * c.a[i], m) {
      CongOf(r.a[i], -c.a[i], if c.a[i] == 0 then 0 else 1, m);
    }
    DotLinear(z, c.a, r.a, s, -1, m);
    DotZeros(|c.a|, s);
    ModCong(m / 4 - c.b, m);
    CongAdd(r.b, m / 4 - c.b, Dot(r.a, s), -Dot(c.a, s), m);
  }

  function AddConstV(c: Cipher, t: int): (r: Cipher)
    requires c.Valid() && 0 <= t < c.modulus
    ensures r.Valid() && Compatible(r, c)
  {
    c.(b := ModAddFast(c.b, t, c.modulus))
  }

  function SubConstV(c: Cipher, t: int): (r: Cipher)
    requires c.Valid() && 0 <= t < c.modulus
    ensures r.Valid() && Compatible(r, c)
  {
    c.(b := ModSubFast(c.b, t, c.modulus))
  }

  lemma ConstPhase(c: Cipher, t: int, s: seq<int>)
    requires c.Valid() && 0 <= t < c.modulus && |s| == |c.a|
    ensures Cong(Phase(AddConstV(c, t), s), Phase(c, s) + t, c.modulus)
    ensures Cong(Phase(SubConstV(c, t), s), Phase(c, s) - t, c.modulus)
  {
    var m := c.modulus;
    CongRefl(Dot(c.a, s), m);
    ModCong(c.b + t, m);
    CongAdd(AddConstV(c, t).b, c.b + t, Dot(c.a, s), Dot(c.a, s), m);
    ModCong(c.b - t, m);
    CongAdd(SubConstV(c, t).b, c.b - t, Dot(c.a, s), Dot(c.a, s), m);
  }

  // ----- changing the modulus by reduction -----

  /** One entry under NativeVector::ModEq: the entry is taken as a centred residue; modulus 2 has a path of its own. */
  function SignedMod(x: int, old_: int, mod: int): (r: int)
    requires 0 <= x < old_ && mod > 0
    ensures 0 <= r < mod
  {
    if mod == 2 then if x > old_ / 2 then 1 - x % 2 else x % 2
    else if x > old_ / 2 then ModSub(x, old_, mod)
    else x % mod
  }

  /**
    The path for modulus 2 flips the parity of the upper half. That is the centred residue's parity for an
    odd old modulus; for an even one, the entry keeps its residue exactly when it is in the lower half.
  */
  lemma ByTwoExactly(x: int, old_: int)
    requires 0 <= x < old_
    ensures old_ % 2 == 1 ==> Cong(SignedMod(x, old_, 2), Centre(x, old_), 2)
    ensures old_ % 2 == 0 ==> (Cong(SignedMod(x, old_, 2), x, 2) <==> x <= old_ / 2)
  {
    var r := SignedMod(x, old_, 2);
    if old_ % 2 == 1 {
      CongOf(r, Centre(x, old_), (r - Centre(x, old_)) / 2, 2);
    } else if x <= old_ / 2 {
      ModCong(x, 2);
    } else if Cong(r, x, 2) {
      CongMod(r, x, 2);
    }
  }

  /** On every other modulus, a divisor of the old one or not, the entry becomes its centred value's residue. */
  lemma SignedModExactly(x: int, old_: int, mod: int)
    requires 0 <= x < old_ && mod > 0 && mod != 2
    ensures SignedMod(x, old_, mod) == Centre(x, old_) % mod
    ensures Cong(SignedMod(x, old_, mod), Centre(x, old_), mod)
  {
    ModCong(Centre(x, old_), mod);
  }

  function ChangeModulusV(c: Cipher, mod: int): (r: Cipher)
    requires c.Valid() && mod > 0
    ensures r.Valid() && |r.a| == |c.a| && r.modulus == mod
  {
    Cipher(seq(|c.a|, i requires 0 <= i < |c.a| => SignedMod(c.a[i], c.modulus, mod)), c.b % mod, mod)
  }

  /** Reducing to a divisor of the modulus keeps the phase modulo that divisor. */
  lemma ChangeModulusPhase(c: Cipher, mod: int, k: int, s: seq<int>)
    requires c.Valid() && mod > 0 && mod != 2 && c.modulus == k * mod && |s| == |c.a|
    ensures Cong(Phase(ChangeModulusV(c, mod), s), Phase(c, s), mod)
  {
    var r := ChangeModulusV(c, mod);
    forall i | 0 <= i < |c.a| ensures Cong(r.a[i], c.a[i], mod) {
      var x := c.a[i];
      ModCong(x, mod);
      ModCong(x - c.modulus, mod);
      CongOf(x - c.modulus, x, -k, mod);
      CongTrans((x - c.modulus) % mod, x - c.modulus, x, mod);
    }
    DotCong(c.a, r.a, s, mod);
    ModCong(c.b, mod);
    CongAdd(r.b, c.b, Dot(r.a, s), Dot(c.a, s), mod);
  }

  // ----- ciphertext objects -----

  class LWECiphertext {
    var a: seq<int>
    var modulus: int
    var b: int

    function Value(): Cipher
      reads this
    {
      Cipher(a, b, modulus)
    }

    predicate Valid()
      reads this
    {
      Value().Valid()
    }

    constructor (c: Cipher)
      ensures Value() == c
    {
      a, modulus, b := c.a, c.modulus, c.b;
    }

    /** Reduces every entry and records the new modulus. */
    method SetModulus(mod: int)
      requires Valid() && mod > 0
      modifies this
      ensures Value() == ChangeModulusV(old(Value()), mod)
    {
      var i, v := 0, a;
      while i < |a|
        invariant 0 <= i <= |a| == |v| && a == old(a) && modulus == old(modulus) && b == old(b)
        invariant forall k :: 0 <= k < i ==> v[k] == SignedMod(a[k], modulus, mod)
        invariant forall k :: i <= k < |a| ==> v[k] == a[k]
      {
        if mod == 2 {
          v := v[i := if v[i] > modulus / 2 then if v[i] % 2 == 1 then 0 else 1 else if v[i] % 2 == 1 then 1 else 0];
        } else {
          v := v[i := if v[i] > modulus / 2 then ModSub(v[i], modulus, mod) else v[i] % mod];
        }
        i := i + 1;
      }
      a, modulus, b := v, mod, b % mod;
    }
  }

  /** The vector operation throws when the operands' lengths or moduli differ. */
  method EvalAddEq(ct1: LWECiphertext, ct2: LWECiphertext) returns (ok: bool)
    requires ct1.Valid() && ct2.Valid()
    modifies ct1
    ensures ok <==> old(Compatible(ct1.Value(), ct2.Value()))
    ensures ok ==> ct1.Value() == AddV(old(ct1.Value()), old(ct2.Value()))
    ensures !ok ==> ct1.Value() == old(ct1.Value())
  {
    if |ct1.a| != |ct2.a| || ct1.modulus != ct2.modulus { return false; }
    var c, d := ct1.Value(), ct2.Value();
    var v, i := c.a, 0;
    while i < |c.a|
      invariant 0 <= i <= |c.a| == |v|
      invariant forall k :: 0 <= k < i ==> v[k] == AddV(c, d).a[k]
      invariant forall k :: i <= k < |c.a| ==> v[k] == c.a[k]
    {
      v := v[i := ModAddFast(v[i], d.a[i], c.modulus)];
      i := i + 1;
    }
    ct1.a, ct1.b := v, ModAddFast(ct1.b, ct2.b, ct1.modulus);
    return true;
  }

  method EvalSubEq(ct1: LWECiphertext, ct2: LWECiphertext) returns (ok: bool)
    requires ct1.Valid() && ct2.Valid()
    modifies ct1
    ensures ok <==> old(Compatible(ct1.Value(), ct2.Value()))
    ensures ok ==> ct1.Value() == SubV(old(ct1.Value()), old(ct2.Value()))
    ensures !ok ==> ct1.Value() == old(ct1.Value())
  {
    if |ct1.a| != |ct2.a| || ct1.modulus != ct2.modulus { return false; }
    var c, d := ct1.Value(), ct2.Value();
    var v, i := c.a, 0;
    while i < |c.a|
      invariant 0 <= i <= |c.a| == |v|
      invariant forall k :: 0 <= k < i ==> v[k] == SubV(c, d).a[k]
      invariant forall k :: i <= k < |c.a| ==> v[k] == c.a[k]
    {
      v := v[i := ModSubFast(v[i], d.a[i], c.modulus)];
      i := i + 1;
    }
    ct1.a, ct1.b := v, ModSubFast(ct1.b, ct2.b, ct1.modulus);
    return true;
  }

  /** ct2 := ct1 - ct2. */
  method EvalSubEq2(ct1: LWECiphertext, ct2: LWECiphertext) returns (ok: bool)
    requires ct1.Valid() && ct2.Valid()
    modifies ct2
    ensures ok <==> old(Compatible(ct1.Value(), ct2.Value()))
    ensures ok ==> ct2.Value() == SubV(old(ct1.Value()), old(ct2.Value()))
    ensures !ok ==> ct2.Value() == old(ct2.Value())
  {
    if |ct1.a| != |ct2.a| || ct1.modulus != ct2.modulus { return false; }
    var d := SubV(ct1.Value(), ct2.Value());
    ct2.a, ct2.b := d.a, d.b;
    return true;
  }

  method EvalAddConstEq(ct: LWECiphertext, cnst: int)
    requires ct.Valid() && 0 <= cnst < ct.modulus
    modifies ct
    ensures ct.Value() == AddConstV(old(ct.Value()), cnst)
  {
    ct.b := ModAddFast(ct.b, cnst, ct.modulus);
  }

  method EvalSubConstEq(ct: LWECiphertext, cnst: int)
    requires ct.Valid() && 0 <= cnst < ct.modulus
    modifies ct
    ensures ct.Value() == SubConstV(old(ct.Value()), cnst)
  {
    ct.b := ModSubFast(ct.b, cnst, ct.modulus);
  }
}
