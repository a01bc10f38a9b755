/** LWE encryption and decryption (lwe-pke.cpp). Random draws are parameters. */
module Encryption {
  import opened Arith
  import opened Sums
  import opened Native
  import opened Ring
  import opened Lwe

  // ----- moving a secret to another modulus (NativeVector::SwitchModulus) -----

  function SwitchEntry(x: int, old_: int, mod: int): (r: int)
    requires 0 <= x < old_ && mod > 0
    ensures 0 <= r < mod
  {
    if mod > old_ then if x > old_ / 2 then x + (mod - old_) else x
    else ModSub(x, if x > old_ / 2 then old_ - mod else 0, mod)
  }

  lemma SwitchEntryCong(x: int, old_: int, mod: int)
    requires 0 <= x < old_ && mod > 0
    ensures Cong(SwitchEntry(x, old_, mod), Centre(x, old_), mod)
  {
    if mod > old_ {
      CongOf(SwitchEntry(x, old_, mod), Centre(x, old_), if x > old_ / 2 then 1 else 0, mod);
    } else {
      var y := x - (if x > old_ / 2 then old_ - mod else 0);
      ModCong(y, mod);
      CongOf(y, Centre(x, old_), if x > old_ / 2 then 1 else 0, mod);
      CongTrans(y % mod, y, Centre(x, old_), mod);
    }
  }

  method SwitchModulus(sk: PrivateKey, mod: int) returns (s: seq<int>)
    requires sk.Valid() && mod > 0
    ensures Residues(s, mod) && PCong(s, sk.Signed(), mod)
  {
    s := sk.elements;
    for i := 0 to |s|
      invariant |s| == |sk.elements|
      invariant forall k :: i <= k < |s| ==> s[k] == sk.elements[k]
      invariant forall k :: 0 <= k < i ==> 0 <= s[k] < mod && Cong(s[k], sk.Signed()[k], mod)
    {
      SwitchEntryCong(s[i], sk.modulus, mod);
      s := s[i := SwitchEntry(s[i], sk.modulus, mod)];
    }
  }

  // ----- lazily reduced inner products -----

  function LazyTerm(a: seq<int>, s: seq<int>, m: int): int -> int
    requires m > 0
  {
    i => (At(a, i) * At(s, i)) % m
  }

  /** The unreduced sum of reduced products is congruent to the inner product and bounded. */
  lemma {:induction false} LazyDot(a: seq<int>, s: seq<int>, m: int, n: nat)
    requires m > 0
    ensures Cong(Sum(LazyTerm(a, s, m), n), Sum(DotTerm(a, s), n), m)
    ensures 0 <= Sum(LazyTerm(a, s, m), n) <= n * (m - 1)
  {
    if n == 0 {
      CongRefl(0, m);
    } else {
      var i := n - 1;
      LazyDot(a, s, m, i);
      ModCong(At(a, i) * At(s, i), m);
      CongAdd(Sum(LazyTerm(a, s, m), i), Sum(DotTerm(a, s), i), LazyTerm(a, s, m)(i), DotTerm(a, s)(i), m);
      MulDistrib(i, 1, m - 1);
    }
  }

  /** The word-sized accumulation loop shared by Encrypt, Decrypt and KeySwitchGen. */
  method AccumulateProducts(start: nat, a: seq<int>, s: seq<int>, mod: int) returns (acc: nat)
    requires mod > 0 && |a| == |s| && start + |a| * (mod - 1) < WORD
    ensures acc == start + Sum(LazyTerm(a, s, mod), |a|)
    ensures Cong(acc, start + Dot(a, s), mod)
  {
    acc := start;
    for i := 0 to |a|
      invariant acc == start + Sum(LazyTerm(a, s, mod), i)
    {
      LazyDot(a, s, mod, i + 1);
      MulMono(i + 1, |a|, mod - 1);
      ModSmall(acc + (a[i] * s[i]) % mod, WORD);
      acc := (acc + (a[i] * s[i]) % mod) % WORD;
    }
    LazyDot(a, s, mod, |a|);
    CongRefl(start, mod);
    CongAdd(start, start, Sum(LazyTerm(a, s, mod), |a|), Dot(a, s), mod);
  }

  /** The plaintext as the code encodes it: an int64 taken as an unsigned word, modulo p, scaled. */
  function Encode(m: int, p: int, mod: int): (r: int)
    requires p > 0 && mod > 0
    ensures 0 <= r <= mod
  {
    var x := (m % WORD) % p;
    MulMono(x, p, mod / p);
    MulMono(0, x, mod / p);
    DivMod(mod, p);
    x * (mod / p)
  }

  /** A message in [0, p) is encoded as itself; a negative one as its residue only if p divides 2^64. */
  lemma EncodeMessage(m: int, p: int)
    requires p > 0
    ensures 0 <= m < p <= WORD ==> (m % WORD) % p == m
    ensures -WORD <= m < 0 ==> ((m % WORD) % p == m % p <==> WORD % p == 0)
  {
    if 0 <= m < p <= WORD { ModSmall(m, WORD); ModSmall(m, p); }
    if -WORD <= m < 0 {
      DivModUnique(m, -1, m + WORD, WORD);
      ShiftKeeps(m, WORD, p);
    }
  }

  /** Adding w keeps the residue modulo p exactly when p divides w. */
  lemma ShiftKeeps(m: int, w: int, p: int)
    requires p > 0
    ensures (m + w) % p == m % p <==> w % p == 0
  {
    DivMod(m + w, p);
    DivMod(m, p);
    DivMod(w, p);
    if (m + w) % p == m % p {
      MulDistrib((m + w) / p, m / p, p);
      DivModUnique(w, (m + w) / p - m / p, 0, p);
    }
    if w % p == 0 {
      MulDistrib(m / p, w / p, p);
      DivModUnique(m + w, m / p + w / p, m % p, p);
    }
  }

  method Encrypt(sk: PrivateKey, m: int, p: int, mod: int, a: seq<int>, e: int) returns (ct: LWECiphertext)
    requires sk.Valid() && p > 0 && mod > 0
    requires |a| == |sk.elements| && Residues(a, mod) && 0 <= e < mod
    requires (|a| + 2) * mod <= WORD
    ensures fresh(ct) && ct.Valid() && ct.a == a && ct.modulus == mod
    ensures Cong(Phase(ct.Value(), sk.Signed()), (m % WORD) % p * (mod / p) + e, mod)
    ensures 0 <= m < p <= WORD ==> Cong(Phase(ct.Value(), sk.Signed()), m * (mod / p) + e, mod)
  {
    EncodeMessage(m, p);
    var s := SwitchModulus(sk, mod);
    var b := Encode(m, p, mod) + e;
    EncryptRoom(b, |a|, mod);
    var acc := AccumulateProducts(b, a, s, mod);
    ct := new LWECiphertext(Cipher(a, acc % mod, mod));
    DotSwap(a, s, sk.Signed(), mod);
    CongRefl(b, mod);
    CongAdd(b, b, Dot(a, s), Dot(a, sk.Signed()), mod);
    ModCong(acc, mod);
    CongTrans(acc % mod, acc, b + Dot(a, s), mod);
    CongTrans(acc % mod, b + Dot(a, s), b + Dot(a, sk.Signed()), mod);
    CongRefl(Dot(a, sk.Signed()), mod);
    CongAdd(acc % mod, b + Dot(a, sk.Signed()), Dot(a, sk.Signed()), Dot(a, sk.Signed()), mod);
  }

  lemma EncryptRoom(b: int, n: nat, mod: int)
    requires mod > 0 && b < 2 * mod && (n + 2) * mod <= WORD
    ensures b + n * (mod - 1) < WORD
  {
    MulDistrib(n, 2, mod);
    MulDistrib(mod, 1, n);
  }

  /** Replacing the key by a congruent one keeps the inner product. */
  lemma DotSwap(a: seq<int>, s: seq<int>, t: seq<int>, m: int)
    requires |a| == |s| == |t| && PCong(s, t, m)
    ensures Cong(Dot(a, s), Dot(a, t), m)
  {
    var f, g := DotTerm(a, s), DotTerm(a, t);
    forall i | 0 <= i < |a| ensures Cong(f(i), g(i), m) {
      assert Cong(s[i], t[i], m);
      CongScale(s[i], t[i], a[i], m);
    }
    SumCong(f, g, |a|, m);
  }

  /** What decryption makes of a reduced phase x. */
  function Decode(x: int, p: int, q: int): int
    requires p > 0 && q > 0
  {
    (p * ((x + q / (2 * p)) % q)) / q
  }

  /** Decoding is the floor of p*y/q at the phase y shifted by half a step, for every q and p. */
  lemma DecodeFloor(x: int, p: int, q: int)
    requires p > 0 && q > 0
    ensures var r, y := Decode(x % q, p, q), (x + q / (2 * p)) % q; r * q <= p * y < r * q + q
  {
    var h := q / (2 * p);
    ModCong(x, q);
    CongRefl(h, q);
    CongAdd(x % q, x, h, h, q);
    CongMod(x % q + h, x + h, q);
    DivMod(p * ((x + h) % q), q);
  }

  method Decrypt(sk: PrivateKey, ct: LWECiphertext, p: int) returns (result: int)
    requires sk.Valid() && ct.Valid() && p > 0 && |ct.a| == |sk.elements|
    requires |ct.a| * ct.modulus < WORD && p * ct.modulus <= WORD
    ensures result == Decode(Phase(ct.Value(), sk.Signed()) % ct.modulus, p, ct.modulus)
    ensures var q := ct.modulus; var y := (Phase(ct.Value(), sk.Signed()) + q / (2 * p)) % q;
            result * q <= p * y < result * q + q
  {
    hide Dot, Residues, PCong, LazyTerm, Sum, Decode;
    DecodeFloor(Phase(ct.Value(), sk.Signed()), p, ct.modulus);
    var mod, a := ct.modulus, ct.a;
    var s := SwitchModulus(sk, mod);
    MulMono(mod - 1, mod, |a|);
    var inner := AccumulateProducts(0, a, s, mod);
    CipherFacts(ct.Value());
    ModCong(inner, mod);
    DecryptResidue(ct.Value(), s, sk.Signed(), inner);
    hide Phase;
    var r := ModSubFast(ct.b, inner % mod, mod);
    result := RoundResidue(r, p, mod);
  }

  /** floor(p * (r + mod/2p) / mod) on words. */
  method RoundResidue(r0: int, p: int, mod: int) returns (result: int)
    requires p > 0 && 0 <= r0 < mod && p * mod <= WORD
    ensures result == Decode(r0, p, mod)
  {
    HalfStep(mod, p);
    var r := ModAddFast(r0, mod / (p * 2), mod);
    DecryptRoom(p, r, mod);
    result := ((p * r) % WORD) / mod;
  }

  lemma CipherFacts(c: Cipher)
    requires c.Valid()
    ensures c.modulus > 0 && 0 <= c.b < c.modulus
  {
  }

  /** The reduced difference b - inner is the phase under the signed key. */
  lemma DecryptResidue(c: Cipher, s: seq<int>, t: seq<int>, inner: int)
    requires c.Valid() && |c.a| == |s| == |t| && PCong(s, t, c.modulus)
    requires Cong(inner, Dot(c.a, s), c.modulus)
    ensures (c.b - inner % c.modulus) % c.modulus == Phase(c, t) % c.modulus
  {
    var mod := c.modulus;
    DotSwap(c.a, s, t, mod);
    ModCong(inner, mod);
    CongTrans(inner % mod, inner, Dot(c.a, s), mod);
    CongTrans(inner % mod, Dot(c.a, s), Dot(c.a, t), mod);
    CongRefl(c.b, mod);
    CongAdd(c.b, c.b, inner % mod, Dot(c.a, t), mod);
    CongMod(c.b - inner % mod, Phase(c, t), mod);
  }

  lemma DecryptRoom(p: int, r: int, mod: int)
    requires p > 0 && 0 <= r < mod && p * mod <= WORD
    ensures (p * r) % WORD == p * r
  {
    MulMono(r, mod - 1, p);
    MulDistrib(mod, 1, p);
    MulMono(0, r, p);
    ModSmall(p * r, WORD);
  }

  lemma HalfStep(q: int, p: int)
    requires q > 0 && p > 0
    ensures 0 <= q / (p * 2) < q
  {
    var h := q / (p * 2);
    DivMod(q, p * 2);
    MulMono(2, p * 2, Abs(h));
    MulAtLeast(h, p * 2);
  }

  /**
    Exactly which errors decryption tolerates: with 2p | q, a message m in [0, p) with
    centred error e is recovered if and only if -q/2p <= e < q/2p.
  */
  lemma DecodeExactly(x: int, m: int, p: int, c: int, e: int)
    requires p > 0 && c > 0 && 0 <= m < p
    requires Cong(x, m * (2 * c) + e, (2 * c) * p) && -(c * p) <= e < c * p
    ensures Decode(x % ((2 * c) * p), p, (2 * c) * p) == m <==> -c <= e < c
  {
    var q := (2 * c) * p;
    MulComm(2 * c, p);
    assert q == c * (2 * p) by { MulAssocInt(2, c, p); MulAssocInt(c, 2, p); }
    DivModUnique(q, c, 0, 2 * p);
    var r := (x % q + c) % q;
    ModCong(x, q);
    CongTrans(x % q, x, m * (2 * c) + e, q);
    CongRefl(c, q);
    CongAdd(x % q, m * (2 * c) + e, c, c, q);
    CongMod(x % q + c, m * (2 * c) + e + c, q);
    DivMod(r, 2 * c);
    DivideByScale(p, r, 2 * c);
    SlotExactly(m, p, c, e, r);
  }

  lemma DivideByScale(p: int, r: int, d: int)
    requires p > 0 && d > 0
    ensures d * p > 0 && (p * r) / (d * p) == r / d
  {
    MulAtLeast(d, p);
    var u, v := r / d, r % d;
    DivMod(r, d);
    MulDistrib(u * d, v, p);
    MulAssocInt(u, d, p);
    MulMono(0, v, p);
    MulMono(v, d - 1, p);
    MulDistrib(d, 1, p);
    DivModUnique(p * r, u, p * v, d * p);
  }

  /** r, the shifted phase modulo 2cp, lies in slot m exactly when the error fits. */
  lemma SlotExactly(m: int, p: int, c: int, e: int, r: int)
    requires p > 0 && c > 0 && 0 <= m < p && -(c * p) <= e < c * p
    requires (2 * c) * p > 0 && r == (m * (2 * c) + e + c) % ((2 * c) * p)
    ensures r / (2 * c) == m <==> -c <= e < c
  {
    var d, q := 2 * c, (2 * c) * p;
    var y := m * d + e + c;
    MulMono(0, m, d);
    MulMono(m, p - 1, d);
    MulDistrib(p, 1, d);
    MulComm(d, p);
    assert q == 2 * (c * p) by { MulAssocInt(2, c, p); }
    ModCong(y, q);
    if -c <= e < c {
      ModSmall(y, q);
      DivModUnique(y, m, e + c, d);
    } else {
      DivMod(r, d);
      DivMod(y, q);
      SlotMiss(m, c, e, r, q, y / q, r / d);
    }
  }

  /** Outside the window no wrap-around brings the shifted phase back into slot m. */
  lemma SlotMiss(m: int, c: int, e: int, r: int, q: int, k: int, u: int)
    requires c > 0 && q > 0 && !(-c <= e < c) && -q <= 2 * e < q
    requires m * (2 * c) + e + c == k * q + r && 0 <= r - u * (2 * c) < 2 * c
    ensures u != m
  {
    MulAtLeast(k, q);
    MulAtLeast(k + 1, q);
    MulAtLeast(k - 1, q);
    MulDistrib(k, 1, q);
  }

  /** The residue e as a signed error in [-q/2, q/2). */
  function SignedError(e: int, q: int): int { if 2 * e >= q then e - q else e }

  // ----- any modulus -----

  /**
    Exactly which errors decryption tolerates, for every q and every p <= q: the message m with centred
    error e is recovered if and only if m*(q mod p) <= p*(e + floor(q/2p)) < q + m*(q mod p).
  */
  lemma DecodeAnyModulus(x: int, m: int, p: int, q: int, e: int)
    requires 0 <= m < p <= q && -q <= 2 * e < q && Cong(x, m * (q / p) + e, q)
    ensures Decode(x % q, p, q) == m <==> m * (q % p) <= p * (e + q / (2 * p)) < q + m * (q % p)
  {
    hide Decode;
    var s, rho, h := q / p, q % p, q / (2 * p);
    DivMod(q, p);
    DivMod(q, 2 * p);
    var y := m * s + e + h;
    CongRefl(h, q);
    CongAdd(x, m * s + e, h, h, q);
    CongMod(x + h, y, q);
    DecodeFloor(x, p, q);
    DivMod(y, q);
    FloorIs(Decode(x % q, p, q), m, p * (y % q), q);
    ShiftedProduct(m, p, q, s, rho, e, h, y);
    ShiftedRange(m, p, q, s, rho, e, h, y);
    QuotientRange(y, q);
    WindowCases(m, p, q, s, rho, e, h, q % (2 * p), y, y / q, y % q);
  }

  /** A floor equals m exactly when m bounds the quotient. */
  lemma FloorIs(r: int, m: int, z: int, q: int)
    requires q > 0 && r * q <= z < r * q + q
    ensures r == m <==> m * q <= z < m * q + q
  {
    MulDistrib(r, m, q);
    MulAtLeast(r - m, q);
  }

  lemma ShiftedProduct(m: int, p: int, q: int, s: int, rho: int, e: int, h: int, y: int)
    requires q == s * p + rho && y == m * s + e + h
    ensures p * y == m * q - m * rho + p * (e + h)
  {
    MulDistrib(m * s, e + h, p);
    MulAssocInt(m, s, p);
    MulComm(p, m * s);
    MulDistrib(s * p, rho, m);
  }

  lemma ShiftedRange(m: int, p: int, q: int, s: int, rho: int, e: int, h: int, y: int)
    requires 0 <= m < p <= q && q == s * p + rho && 0 <= rho < p && -q <= 2 * e < q && 0 <= h && h * (2 * p) <= q
    requires y == m * s + e + h
    ensures -q < y < 2 * q
  {
    MulAtLeast(s, p);
    SlotBelow(m, p, q, s, rho);
    MulMono(2, 2 * p, h);
  }

  lemma SlotBelow(m: int, p: int, q: int, s: int, rho: int)
    requires 0 <= m < p <= q && q == s * p + rho && 0 <= rho < p
    ensures 0 <= m * s < q
  {
    MulAtLeast(s, p);
    MulAtLeast(s - 1, p);
    MulDistrib(s, 1, p);
    assert s >= 1;
    MulMono(0, m, s);
    MulMono(m, p - 1, s);
    MulDistrib(p, 1, s);
    MulComm(p, s);
  }

  lemma QuotientRange(y: int, q: int)
    requires q > 0 && -q < y < 2 * q
    ensures -1 <= y / q <= 1
  {
    DivMod(y, q);
    MulAtLeast(y / q + 1, q);
    MulAtLeast(y / q - 1, q);
    MulDistrib(y / q, 1, q);
  }

  lemma WindowCases(m: int, p: int, q: int, s: int, rho: int, e: int, h: int, tau: int, y: int, k: int, r: int)
    requires 0 <= m < p <= q && q == s * p + rho && 0 <= rho < p && -q <= 2 * e < q
    requires h >= 0 && q == h * (2 * p) + tau && 0 <= tau < 2 * p && y == m * s + e + h
    requires -1 <= k <= 1 && y == k * q + r && 0 <= r < q && p * y == m * q - m * rho + p * (e + h)
    ensures m * q <= p * r < m * q + q <==> m * rho <= p * (e + h) < q + m * rho
  {
    if k == -1 {
      assert r == y + q;
      NegativeProduct(p, y);
      MulMono(0, m, q);
      LowerWrap(m, p, q, s, rho, e, h, tau, y);
    } else if k == 1 {
      assert r == y - q;
      MulMono(q, y, p);
      MulMono(m + 1, p, q);
      MulDistrib(m, 1, q);
      MulComm(p, q);
      UpperWrap(m, p, q, s, rho, e, h, y);
    } else {
      assert r == y;
    }
  }

  lemma NegativeProduct(p: int, y: int)
    requires p > 0 && y < 0
    ensures p * y < 0
  {
    MulMono(y, -1, p);
  }

  /** No wrap-around from above brings the phase back to m. */
  lemma UpperWrap(m: int, p: int, q: int, s: int, rho: int, e: int, h: int, y: int)
    requires 0 <= m < p <= q && q == s * p + rho && 0 <= rho && 2 * e < q && h * (2 * p) <= q && y == m * s + e + h
    ensures p * (y - q) < m * q
  {
    ShiftedProduct(m, p, q, s, rho, e, h, y);
    MulDistrib(y, q, p);
    MulDistrib(e, h, p);
    MulMono(2 * e, q - 1, p);
    MulDistrib(q, 1, p);
    MulAssocInt(p, 2, e);
    MulComm(p, 2);
    MulAssocInt(2, p, e);
    MulComm(h, 2 * p);
    MulAssocInt(2, p, h);
    MulMono(0, m, rho);
    MulMono(1, p, q);
  }

  /** Nor from below. */
  lemma LowerWrap(m: int, p: int, q: int, s: int, rho: int, e: int, h: int, tau: int, y: int)
    requires 0 <= m < p <= q && q == s * p + rho && 0 <= rho < p && -q <= 2 * e
    requires h >= 0 && q == h * (2 * p) + tau && 0 <= tau < 2 * p && y == m * s + e + h && y < 0
    ensures p * (y + q) >= m * q + q
  {
    HalvesOf(p, q, s, rho, h, tau);
    LargePlaintext(m, p, q, s, e, h, tau, y);
    LowerSlots(m, p, q, s, rho, h, tau);
    ShiftedProduct(m, p, q, s, rho, e, h, y);
    MulDistrib(y, q, p);
    MulDistrib(e, h, p);
    TwiceAtLeast(p, q, e);
  }

  lemma TwiceAtLeast(p: int, q: int, e: int)
    requires p > 0 && -q <= 2 * e
    ensures 2 * (p * e) >= -(p * q)
  {
    MulMono(0 - q, 2 * e, p);
    MulAssocInt(p, 2, e);
    MulComm(p, 2);
    MulAssocInt(2, p, e);
    assert p * (0 - q) == -(p * q);
  }

  /** With a single message the shifted phase is never negative. */
  lemma LargePlaintext(m: int, p: int, q: int, s: int, e: int, h: int, tau: int, y: int)
    requires 0 <= m < p && q == h * (2 * p) + tau && 0 <= tau < 2 * p && -q <= 2 * e && y == m * s + e + h && y < 0
    ensures p >= 2
  {
  }

  lemma HalvesOf(p: int, q: int, s: int, rho: int, h: int, tau: int)
    requires p > 0 && q == s * p + rho && 0 <= rho < p && q == h * (2 * p) + tau && 0 <= tau < 2 * p
    ensures tau < p ==> s == 2 * h && rho == tau
    ensures tau >= p ==> s == 2 * h + 1 && rho == tau - p
  {
    MulAssocInt(h, 2, p);
    MulComm(h, 2);
    DivModUnique(q, s, rho, p);
    if tau < p {
      DivModUnique(q, 2 * h, tau, p);
    } else {
      MulDistrib(2 * h, 1, p);
      DivModUnique(q, 2 * h + 1, tau - p, p);
    }
  }

  /** A phase that wraps from below is too far from its own slot. */
  lemma LowerSlots(m: int, p: int, q: int, s: int, rho: int, h: int, tau: int)
    requires 0 <= m < p <= q && p >= 2 && 0 <= rho < p && h >= 0 && q == h * (2 * p) + tau
    requires (tau == rho && s == 2 * h) || (tau == rho + p && s == 2 * h + 1)
    requires 2 * (m * s) + 2 * h <= q - 2
    ensures p * q + 2 * (p * h) >= 2 * q + 2 * (m * rho)
  {
    var n := 2 * m + 1;
    MulComm(h, 2 * p);
    MulAssocInt(2, p, h);
    assert 2 * (p * h) == q - tau;
    MulAssocInt(2, m, rho);
    MulDistrib(2 * m, 1, rho);
    MulDistrib(p, 1, q);
    MulAssocInt(2, m, s);
    MulDistrib(2 * m, 1, s);
    if tau == rho && s == 2 * h { EvenSlots(n, p, q, rho, h); } else { OddSlots(m, p, q, rho, h); }
  }

  lemma EvenSlots(n: int, p: int, q: int, rho: int, h: int)
    requires n >= 1 && 0 <= rho < p <= q && h >= 0 && q == h * (2 * p) + rho && n * (2 * h) < q
    ensures n * rho <= (p - 1) * q
  {
    assert h > 0;
    MulMono(1, 2 * h, n);
    MulMono(rho, p - 1, n);
    MulMono(n, q, p - 1);
    MulComm(n, p - 1);
    MulComm(q, p - 1);
  }

  lemma OddSlots(m: int, p: int, q: int, rho: int, h: int)
    requires m >= 0 && 2 <= p <= q && 0 <= rho < p && h >= 0 && q == h * (2 * p) + rho + p
    requires (2 * m + 1) * (2 * h + 1) < q
    ensures (2 * m + 1) * rho + p <= (p - 1) * q
  {
    var n := 2 * m + 1;
    MulMono(1, 2 * h + 1, n);
    if rho <= p - 2 {
      NarrowRest(n, p, q, rho);
    } else if h == 0 {
      WideRest(n, p, q);
    } else {
      MulMono(3, 2 * h + 1, n);
      MulMono(1, h, 2 * p);
      WideRest(n, p, q);
    }
  }

  lemma NarrowRest(n: int, p: int, q: int, rho: int)
    requires 1 <= n <= q - 1 && 2 <= p <= q && 0 <= rho <= p - 2
    ensures n * rho + p <= (p - 1) * q
  {
    MulMono(rho, p - 2, n);
    MulMono(n, q - 1, p - 2);
    MulDistrib(q, 1, p - 2);
    MulDistrib(p - 2, 1, q);
  }

  lemma WideRest(n: int, p: int, q: int)
    requires 1 <= n && 2 <= p <= q && n <= q - 2
    ensures n * (p - 1) + p <= (p - 1) * q
  {
    MulMono(n, q - 2, p - 1);
    MulDistrib(q, 2, p - 1);
    MulComm(q, p - 1);
  }

  /** The window of errors for the message m: the general one, for q = 2cp the interval [-c, c). */
  predicate Tolerated(m: int, p: int, q: int, e: int)
    requires p > 0
  {
    m * (q % p) <= p * (e + q / (2 * p)) < q + m * (q % p)
  }

  lemma ToleratedWindow(m: int, p: int, c: int, e: int)
    requires p > 0 && c > 0
    ensures Tolerated(m, p, (2 * c) * p, e) <==> -c <= e < c
  {
    var q := (2 * c) * p;
    DivModUnique(q, 2 * c, 0, p);
    assert q == c * (2 * p) by { MulAssocInt(2, c, p); MulAssocInt(c, 2, p); MulComm(2 * c, p); }
    DivModUnique(q, c, 0, 2 * p);
    assert m * 0 == 0;
    MulComm(2 * c, p);
    MulDistrib(e + c, 2 * c, p);
    MulAtLeast(e + c, p);
    MulAtLeast(e + c - 2 * c, p);
    MulComm(p, e + c);
    MulComm(e + c - 2 * c, p);
  }

  /**
    Encrypting and then decrypting, for every modulus q >= p: the message comes back exactly when the
    drawn error, as a signed number, is tolerated; for q = 2cp these are the errors in [-c, c).
  */
  method RoundTrip(sk: PrivateKey, m: int, p: int, q: int, a: seq<int>, e: int) returns (r: int)
    requires sk.Valid() && 0 <= m < p <= q
    requires |a| == |sk.elements| && Residues(a, q) && 0 <= e < q
    requires (|a| + 2) * q <= WORD && p * q <= WORD
    ensures var d := SignedError(e, q);
            r == m <==> m * (q % p) <= p * (d + q / (2 * p)) < q + m * (q % p)
    ensures forall c :: c > 0 && q == (2 * c) * p ==> (r == m <==> -c <= SignedError(e, q) < c)
  {
    hide Decode, Phase;
    MulMono(2, |a| + 2, q);
    MulDistrib(|a|, 2, q);
    var ct := Encrypt(sk, m, p, q, a, e);
    r := Decrypt(sk, ct, p);
    var x, d := Phase(ct.Value(), sk.Signed()), SignedError(e, q);
    CongOf(m * (q / p) + e, m * (q / p) + d, if 2 * e >= q then 1 else 0, q);
    CongTrans(x, m * (q / p) + e, m * (q / p) + d, q);
    DecodeAnyModulus(x, m, p, q, d);
    forall c | c > 0 && q == (2 * c) * p ensures Tolerated(m, p, q, d) <==> -c <= d < c {
      ToleratedWindow(m, p, c, d);
    }
  }
}
