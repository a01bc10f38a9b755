/** Key switching (lwe-pke.cpp). Random draws are parameters. */
module KeySwitching {
  import opened Arith
  import opened Sums
  import opened Native
  import opened Ring
  import opened Lwe
  import opened Encryption

  /** Row [i][j][k] encrypts j * base^k * sN[i]. */
  datatype SwitchingKey = SwitchingKey(A: seq<seq<seq<seq<int>>>>, B: seq<seq<seq<int>>>)

  type Errors = seq<seq<seq<int>>>

  ghost predicate RowValid(c: Cipher, s: seq<int>, t: int, e: int, q: int) {
    c.Valid() && |c.a| == |s| && c.modulus == q && Cong(Phase(c, s), t + e, q)
  }

  /** The d rows for one secret entry y and one digit value j. */
  ghost predicate DigitValid(A: seq<seq<int>>, B: seq<int>, s: seq<int>, y: int, j: int, base: nat, d: nat, q: int,
                             e: seq<int>) {
    && |A| == |B| == |e| == d
    && forall k :: 0 <= k < d ==> RowValid(Cipher(A[k], B[k], q), s, y * (j * Pow(base, k)), e[k], q)
  }

  ghost predicate ColumnValid(A: seq<seq<seq<int>>>, B: seq<seq<int>>, s: seq<int>, y: int, base: nat, d: nat, q: int,
                              e: seq<seq<int>>) {
    && |A| == |B| == |e| == base
    && forall j :: 0 <= j < base ==> DigitValid(A[j], B[j], s, y, j, base, d, q, e[j])
  }

  /** K is a switching key from sN to s with row errors errs. */
  ghost predicate ValidKey(K: SwitchingKey, s: seq<int>, sN: seq<int>, base: nat, d: nat, q: int, errs: Errors) {
    && q > 0 && |K.A| == |K.B| == |errs| == |sN|
    && forall i :: 0 <= i < |sN| ==> ColumnValid(K.A[i], K.B[i], s, sN[i], base, d, q, errs[i])
  }

  // ----- generation -----

  /** One row: an encryption of svN * (j * base^k) under the error e. */
  method SwitchRow(sk: PrivateKey, sv: seq<int>, x: int, w: nat, a: seq<int>, e: int, q: int) returns (b: int)
    requires sk.Valid() && q > 0 && |sv| == |a| == |sk.elements| && Residues(a, q) && 0 <= e < q
    requires PCong(sv, sk.Signed(), q) && 0 <= x < q
    requires (|a| + 1) * q <= WORD
    ensures RowValid(Cipher(a, b, q), sk.Signed(), x * w, e, q)
  {
    var start := ModAddFast(e, (x * w) % q, q);
    MulDistrib(|a|, 1, q);
    MulDistrib(q, 1, |a|);
    var acc := AccumulateProducts(start, a, sv, q);
    b := acc % q;
    SwitchRowPhase(sv, sk.Signed(), x * w, a, e, q, acc);
  }

  lemma SwitchRowPhase(sv: seq<int>, s: seq<int>, t: int, a: seq<int>, e: int, q: int, acc: int)
    requires q > 0 && |sv| == |a| == |s| && PCong(sv, s, q)
    requires Cong(acc, (e + t % q) % q + Dot(a, sv), q)
    ensures Cong(acc % q - Dot(a, s), t + e, q)
  {
    DotSwap(a, sv, s, q);
    ModCong(t, q);
    CongRefl(e, q);
    CongAdd(e, e, t % q, t, q);
    ModCong(e + t % q, q);
    CongTrans((e + t % q) % q, e + t % q, e + t, q);
    CongAdd((e + t % q) % q, e + t, Dot(a, sv), Dot(a, s), q);
    ModCong(acc, q);
    CongTrans(acc % q, acc, (e + t % q) % q + Dot(a, sv), q);
    CongTrans(acc % q, (e + t % q) % q + Dot(a, sv), e + t + Dot(a, s), q);
    CongRefl(Dot(a, s), q);
    CongAdd(acc % q, e + t + Dot(a, s), Dot(a, s), Dot(a, s), q);
  }

  ghost predicate DigitDraws(a: seq<seq<int>>, e: seq<int>, n: nat, d: nat, q: int) {
    |a| == |e| == d && forall k :: 0 <= k < d ==> |a[k]| == n && Residues(a[k], q) && 0 <= e[k] < q
  }

  ghost predicate ColumnDraws(a: seq<seq<seq<int>>>, e: seq<seq<int>>, n: nat, base: nat, d: nat, q: int) {
    |a| == |e| == base && forall j :: 0 <= j < base ==> DigitDraws(a[j], e[j], n, d, q)
  }

  ghost predicate Draws(a: seq<seq<seq<seq<int>>>>, e: Errors, n: nat, N: nat, base: nat, d: nat, q: int) {
    |a| == |e| == N && forall i :: 0 <= i < N ==> ColumnDraws(a[i], e[i], n, base, d, q)
  }

  ghost predicate KeyReady(sk: PrivateKey, sv: seq<int>, q: int) {
    sk.Valid() && q > 0 && |sv| == |sk.elements| && PCong(sv, sk.Signed(), q) && (|sv| + 1) * q <= WORD
  }

  /** The rows for one entry x of skN, with signed value y, and one digit value j. */
  method SwitchDigits(sk: PrivateKey, sv: seq<int>, x: int, ghost y: int, j: nat, base: nat, d: nat, q: int,
                      a: seq<seq<int>>, e: seq<int>) returns (A: seq<seq<int>>, B: seq<int>)
    requires KeyReady(sk, sv, q) && 0 <= x < q && Cong(x, y, q) && base > 0
    requires DigitDraws(a, e, |sv|, d, q)
    ensures DigitValid(A, B, sk.Signed(), y, j, base, d, q, e)
  {
    hide RowValid, Residues, PCong, Pow;
    A, B := [], [];
    for k := 0 to d
      invariant A == a[..k] && |B| == k
      invariant forall l :: 0 <= l < k ==>
                  RowValid(Cipher(a[l], B[l], q), sk.Signed(), y * (j * Pow(base, l)), e[l], q)
    {
      var b := SwitchRow(sk, sv, x, j * Pow(base, k), a[k], e[k], q);
      RowForKey(Cipher(a[k], b, q), sk.Signed(), x, y, j * Pow(base, k), e[k], q);
      A, B := A + [a[k]], B + [b];
    }
  }

  method SwitchColumn(sk: PrivateKey, sv: seq<int>, x: int, ghost y: int, base: nat, d: nat, q: int,
                      a: seq<seq<seq<int>>>, e: seq<seq<int>>) returns (A: seq<seq<seq<int>>>, B: seq<seq<int>>)
    requires KeyReady(sk, sv, q) && 0 <= x < q && Cong(x, y, q) && base > 0
    requires ColumnDraws(a, e, |sv|, base, d, q)
    ensures ColumnValid(A, B, sk.Signed(), y, base, d, q, e)
  {
    hide KeyReady, DigitDraws, DigitValid;
    A, B := [], [];
    for j := 0 to base
      invariant |A| == |B| == j
      invariant forall l :: 0 <= l < j ==> DigitValid(A[l], B[l], sk.Signed(), y, l, base, d, q, e[l])
    {
      var A2, B2 := SwitchDigits(sk, sv, x, y, j, base, d, q, a[j], e[j]);
      A, B := A + [A2], B + [B2];
    }
  }

  lemma RowForKey(c: Cipher, s: seq<int>, x: int, y: int, w: int, e: int, q: int)
    requires RowValid(c, s, x * w, e, q) && Cong(x, y, q)
    ensures RowValid(c, s, y * w, e, q)
  {
    CongScale(x, y, w, q);
    CongRefl(e, q);
    CongAdd(x * w, y * w, e, e, q);
    CongTrans(Phase(c, s), x * w + e, y * w + e, q);
  }

  /** A switching key generated from any draws is valid, with the drawn errors as its row errors. */
  method KeySwitchGen(sk: PrivateKey, skN: PrivateKey, base: nat, q: int, a: seq<seq<seq<seq<int>>>>, e: Errors)
    returns (K: SwitchingKey)
    requires sk.Valid() && skN.Valid() && base >= 2 && q > 0 && (|sk.elements| + 1) * q <= WORD
    requires Draws(a, e, |sk.elements|, |skN.elements|, base, DigitCount(q, base), q)
    ensures ValidKey(K, sk.Signed(), skN.Signed(), base, DigitCount(q, base), q, e)
  {
    hide ColumnDraws, ColumnValid;
    var d, N := DigitCount(q, base), |skN.elements|;
    var sv := SwitchModulus(sk, q);
    var svN := SwitchModulus(skN, q);
    var A: seq<seq<seq<seq<int>>>>, B: Errors := [], [];
    for i := 0 to N
      invariant |A| == |B| == i
      invariant forall r :: 0 <= r < i ==> ColumnValid(A[r], B[r], sk.Signed(), skN.Signed()[r], base, d, q, e[r])
    {
      var A1, B1 := SwitchColumn(sk, sv, svN[i], skN.Signed()[i], base, d, q, a[i], e[i]);
      A, B := A + [A1], B + [B1];
    }
    K := SwitchingKey(A, B);
  }

  // ----- switching -----

  predicate RowsOk(rows: seq<Cipher>, n: nat, q: int) {
    forall k :: 0 <= k < |rows| ==> rows[k].Valid() && |rows[k].a| == n && rows[k].modulus == q
  }

  function SubtractAll(acc: Cipher, rows: seq<Cipher>): (r: Cipher)
    requires acc.Valid() && RowsOk(rows, |acc.a|, acc.modulus)
    ensures r.Valid() && Compatible(r, acc)
  {
    if rows == [] then acc else SubV(SubtractAll(acc, rows[..|rows| - 1]), rows[|rows| - 1])
  }

  function PhaseFn(rows: seq<Cipher>, s: seq<int>): int -> int {
    k => if 0 <= k < |rows| then Phase(rows[k], s) else 0
  }

  lemma {:induction false} SubtractPhase(acc: Cipher, rows: seq<Cipher>, s: seq<int>)
    requires acc.Valid() && |s| == |acc.a| && RowsOk(rows, |acc.a|, acc.modulus)
    ensures Cong(Phase(SubtractAll(acc, rows), s), Phase(acc, s) - Sum(PhaseFn(rows, s), |rows|), acc.modulus)
  {
    hide Phase;
    var q, n := acc.modulus, |rows|;
    if n == 0 {
      CongRefl(Phase(acc, s), q);
    } else {
      var front, last := rows[..n - 1], rows[n - 1];
      SubtractPhase(acc, front, s);
      SumEq(PhaseFn(front, s), PhaseFn(rows, s), n - 1);
      var prev := SubtractAll(acc, front);
      SubPhase(prev, last, s);
      CongRefl(Phase(last, s), q);
      CongAdd(Phase(prev, s), Phase(acc, s) - Sum(PhaseFn(rows, s), n - 1), Phase(last, s), Phase(last, s), q);
      CongTrans(Phase(SubV(prev, last), s), Phase(prev, s) - Phase(last, s),
                Phase(acc, s) - Sum(PhaseFn(rows, s), n - 1) - Phase(last, s), q);
    }
  }

  /** The rows that the first d digits of x select in column i of the key. */
  function SelectRows(K: SwitchingKey, q: int, i: nat, x: nat, base: nat, d: nat): (rows: seq<Cipher>)
    requires base > 0 && i < |K.A| == |K.B| && ColumnShaped(K.A[i], K.B[i], base, d)
    ensures |rows| == d
  {
    seq(d, k requires 0 <= k < d =>
          var j := Digit(x, base, k); Cipher(K.A[i][j][k], K.B[i][j][k], q))
  }

  predicate ColumnShaped(A: seq<seq<seq<int>>>, B: seq<seq<int>>, base: nat, d: nat) {
    |A| == |B| == base && forall j :: 0 <= j < base ==> |A[j]| == |B[j]| == d
  }

  function SelectedError(errs: Errors, i: nat, x: nat, base: nat): int -> int
    requires base > 0
  {
    k => if i < |errs| && 0 <= k then
           (var j := Digit(x, base, k); if j < |errs[i]| && k < |errs[i][j]| then errs[i][j][k] else 0)
         else 0
  }

  lemma SelectedRow(K: SwitchingKey, s: seq<int>, sN: seq<int>, base: nat, d: nat, q: int, errs: Errors,
                    i: nat, x: nat, k: nat)
    requires base > 0 && ValidKey(K, s, sN, base, d, q, errs) && i < |sN| && k < d
    ensures ColumnShaped(K.A[i], K.B[i], base, d)
    ensures var row := SelectRows(K, q, i, x, base, d)[k];
            && row.Valid() && |row.a| == |s| && row.modulus == q
            && Cong(Phase(row, s), sN[i] * DigitTerm(x, base)(k) + SelectedError(errs, i, x, base)(k), q)
  {
    var j := Digit(x, base, k);
    SwitchingKeyShape(K, s, sN, base, d, q, errs, i);
    assert DigitValid(K.A[i][j], K.B[i][j], s, sN[i], j, base, d, q, errs[i][j]);
    assert RowValid(Cipher(K.A[i][j][k], K.B[i][j][k], q), s, sN[i] * (j * Pow(base, k)), errs[i][j][k], q);
  }

  lemma SwitchingKeyShape(K: SwitchingKey, s: seq<int>, sN: seq<int>, base: nat, d: nat, q: int, errs: Errors, i: nat)
    requires ValidKey(K, s, sN, base, d, q, errs) && i < |sN|
    ensures ColumnShaped(K.A[i], K.B[i], base, d)
  {
    hide RowValid;
    assert ColumnValid(K.A[i], K.B[i], s, sN[i], base, d, q, errs[i]);
    forall j | 0 <= j < base ensures |K.A[i][j]| == |K.B[i][j]| == d {
      assert DigitValid(K.A[i][j], K.B[i][j], s, sN[i], j, base, d, q, errs[i][j]);
    }
  }

  /** The rows selected by all digits of x carry sN[i] * x and their errors. */
  lemma SelectedPhase(K: SwitchingKey, s: seq<int>, sN: seq<int>, base: nat, d: nat, q: int, errs: Errors, i: nat,
                      x: nat)
    requires base > 0 && ValidKey(K, s, sN, base, d, q, errs) && i < |sN| && x < Pow(base, d)
    ensures ColumnShaped(K.A[i], K.B[i], base, d) && RowsOk(SelectRows(K, q, i, x, base, d), |s|, q)
    ensures Cong(Sum(PhaseFn(SelectRows(K, q, i, x, base, d), s), d),
                 sN[i] * x + Sum(SelectedError(errs, i, x, base), d), q)
  {
    hide Phase, SelectRows, SelectedError, DigitTerm, Sum, Digit, ColumnValid, ColumnShaped;
    SwitchingKeyShape(K, s, sN, base, d, q, errs, i);
    var f := PhaseFn(SelectRows(K, q, i, x, base, d), s);
    var g, e := DigitTerm(x, base), SelectedError(errs, i, x, base);
    var sg := k => sN[i] * g(k);
    var h := k => sg(k) + e(k);
    forall k | 0 <= k < d
      ensures Cong(f(k), h(k), q)
      ensures var row := SelectRows(K, q, i, x, base, d)[k]; row.Valid() && |row.a| == |s| && row.modulus == q
    {
      SelectedRow(K, s, sN, base, d, q, errs, i, x, k);
    }
    SumCong(f, h, d, q);
    SumAdd(sg, e, h, d);
    SumScale(g, sg, sN[i], d);
    DigitsExact(x, base, d);
  }

  /** The sum of the errors of the rows that key switching selects for entry i of a. */
  function ErrorTotal(errs: Errors, a: seq<int>, base: nat, d: nat): int -> int
    requires base > 0
  {
    i => if 0 <= i && At(a, i) >= 0 then Sum(SelectedError(errs, i, At(a, i), base), d) else 0
  }

  ghost predicate Switchable(K: SwitchingKey, c: Cipher, s: seq<int>, sN: seq<int>, base: nat, d: nat, q: int,
                             errs: Errors) {
    && base > 0 && ValidKey(K, s, sN, base, d, q, errs)
    && c.Valid() && c.modulus == q && |c.a| == |sN| && q <= Pow(base, d)
  }

  /** One outer iteration: all d digits of a[i]. */
  lemma EntryPhase(K: SwitchingKey, c: Cipher, s: seq<int>, sN: seq<int>, base: nat, d: nat, q: int, errs: Errors,
                   acc: Cipher, i: nat)
    requires Switchable(K, c, s, sN, base, d, q, errs) && i < |sN|
    requires acc.Valid() && |acc.a| == |s| && acc.modulus == q
    requires Cong(Phase(acc, s), c.b - Sum(DotTerm(c.a, sN), i) - Sum(ErrorTotal(errs, c.a, base, d), i), q)
    ensures ColumnShaped(K.A[i], K.B[i], base, d) && RowsOk(SelectRows(K, q, i, c.a[i], base, d), |s|, q)
    ensures Cong(Phase(SubtractAll(acc, SelectRows(K, q, i, c.a[i], base, d)), s),
                 c.b - Sum(DotTerm(c.a, sN), i + 1) - Sum(ErrorTotal(errs, c.a, base, d), i + 1), q)
  {
    hide SubtractAll, SelectedError, Phase, PhaseFn, SelectRows, Pow, RowsOk, ColumnValid, ColumnShaped;
    var x := c.a[i];
    SelectedPhase(K, s, sN, base, d, q, errs, i, x);
    var rows := SelectRows(K, q, i, x, base, d);
    SubtractPhase(acc, rows, s);
    MulComm(sN[i], x);
    var E := Sum(SelectedError(errs, i, x, base), d);
    var y := c.b - Sum(DotTerm(c.a, sN), i) - Sum(ErrorTotal(errs, c.a, base, d), i);
    CongAdd(Phase(acc, s), y, Sum(PhaseFn(rows, s), d), x * sN[i] + E, q);
    CongTrans(Phase(SubtractAll(acc, rows), s), Phase(acc, s) - Sum(PhaseFn(rows, s), d), y - (x * sN[i] + E), q);
    assert DotTerm(c.a, sN)(i) == x * sN[i] && ErrorTotal(errs, c.a, base, d)(i) == E;
  }

  /**
    Key switching: the new phase is the old one minus the errors of the selected rows,
    for every ciphertext under the N-dimensional key.
  */
  method KeySwitch(K: SwitchingKey, ctQN: LWECiphertext, base: nat, d: nat, q: int, n: nat,
                   ghost s: seq<int>, ghost sN: seq<int>, ghost errs: Errors) returns (ct: LWECiphertext)
    requires ctQN.Valid() && |s| == n && Switchable(K, ctQN.Value(), s, sN, base, d, q, errs)
    ensures fresh(ct) && ct.Valid() && |ct.a| == n && ct.modulus == q
    ensures Cong(Phase(ct.Value(), s),
                 Phase(ctQN.Value(), sN) - Sum(ErrorTotal(errs, ctQN.a, base, d), |ctQN.a|), q)
  {
    hide SubtractAll, SelectedError, PhaseFn, SelectRows, Pow, RowsOk, Progress, ColumnValid, ColumnShaped;
    var N := |ctQN.a|;
    ghost var c := ctQN.Value();
    var a, b := Zero(n), ctQN.b;
    ProgressStart(c, s, sN, base, d, errs);
    var i := 0;
    while i < N
      invariant 0 <= i <= N && Cipher(a, b, q).Valid() && |a| == n
      invariant Progress(Cipher(a, b, q), c, s, sN, base, d, errs, i)
    {
      ProgressStep(K, c, s, sN, base, d, q, errs, Cipher(a, b, q), i);
      a, b := SubtractRows(K, i, ctQN.a[i], base, d, a, b, q);
      i := i + 1;
    }
    ct := new LWECiphertext(Cipher(a, b, q));
    ProgressEnd(ct.Value(), c, s, sN, base, d, errs);
  }

  /** The phase after the first i entries of a have been switched. */
  ghost predicate Progress(acc: Cipher, c: Cipher, s: seq<int>, sN: seq<int>, base: nat, d: nat, errs: Errors, i: nat)
    requires base > 0
  {
    Cong(Phase(acc, s), c.b - Sum(DotTerm(c.a, sN), i) - Sum(ErrorTotal(errs, c.a, base, d), i), c.modulus)
  }

  lemma ProgressStart(c: Cipher, s: seq<int>, sN: seq<int>, base: nat, d: nat, errs: Errors)
    requires base > 0
    ensures Progress(Cipher(Zero(|s|), c.b, c.modulus), c, s, sN, base, d, errs, 0)
  {
    DotZeros(|s|, s);
    CongRefl(c.b, c.modulus);
  }

  lemma ProgressStep(K: SwitchingKey, c: Cipher, s: seq<int>, sN: seq<int>, base: nat, d: nat, q: int, errs: Errors,
                     acc: Cipher, i: nat)
    requires Switchable(K, c, s, sN, base, d, q, errs) && i < |sN|
    requires acc.Valid() && |acc.a| == |s| && acc.modulus == q && Progress(acc, c, s, sN, base, d, errs, i)
    ensures ColumnShaped(K.A[i], K.B[i], base, d) && RowsOk(SelectRows(K, q, i, c.a[i], base, d), |s|, q)
    ensures Progress(SubtractAll(acc, SelectRows(K, q, i, c.a[i], base, d)), c, s, sN, base, d, errs, i + 1)
  {
    hide SubtractAll, Phase, SelectRows, RowsOk, ColumnShaped, Sum;
    EntryPhase(K, c, s, sN, base, d, q, errs, acc, i);
  }

  lemma ProgressEnd(acc: Cipher, c: Cipher, s: seq<int>, sN: seq<int>, base: nat, d: nat, errs: Errors)
    requires base > 0 && Progress(acc, c, s, sN, base, d, errs, |c.a|)
    ensures Cong(Phase(acc, s), Phase(c, sN) - Sum(ErrorTotal(errs, c.a, base, d), |c.a|), c.modulus)
  {
  }

  /** The digit loop and the coordinate loop of KeySwitch. */
  method SubtractRows(K: SwitchingKey, i: nat, x: nat, base: nat, d: nat, a0: seq<int>, b0: int, q: int)
    returns (a: seq<int>, b: int)
    requires base > 0 && i < |K.A| == |K.B| && ColumnShaped(K.A[i], K.B[i], base, d)
    requires Cipher(a0, b0, q).Valid() && RowsOk(SelectRows(K, q, i, x, base, d), |a0|, q)
    ensures Cipher(a, b, q) == SubtractAll(Cipher(a0, b0, q), SelectRows(K, q, i, x, base, d))
  {
    ghost var start, rows := Cipher(a0, b0, q), SelectRows(K, q, i, x, base, d);
    a, b := a0, b0;
    var j, atmp := 0, x;
    while j < d
      invariant 0 <= j <= d && atmp == Quot(x, base, j)
      invariant Cipher(a, b, q) == SubtractAll(start, rows[..j])
    {
      var a1 := atmp % base;
      ghost var prev, row := Cipher(a, b, q), rows[j];
      assert row == Cipher(K.A[i][a1][j], K.B[i][a1][j], q);
      var k := 0;
      while k < |a|
        invariant 0 <= k <= |a| == |prev.a|
        invariant forall r :: 0 <= r < k ==> a[r] == SubV(prev, row).a[r]
        invariant forall r :: k <= r < |a| ==> a[r] == prev.a[r]
      {
        a := a[k := ModSubFast(a[k], K.A[i][a1][j][k], q)];
        k := k + 1;
      }
      b := ModSubFast(b, K.B[i][a1][j], q);
      assert Cipher(a, b, q) == SubV(prev, row);
      assert rows[..j + 1][..j] == rows[..j];
      j, atmp := j + 1, atmp / base;
    }
    assert rows[..d] == rows;
  }

  ghost predicate ErrorsBounded(errs: Errors, c: int) {
    forall i, j, k :: 0 <= i < |errs| && 0 <= j < |errs[i]| && 0 <= k < |errs[i][j]| ==> -c <= errs[i][j][k] <= c
  }

  /** The selected errors add up to at most N * d * c. */
  lemma ErrorTotalBound(errs: Errors, a: seq<int>, base: nat, d: nat, c: nat)
    requires base > 0 && ErrorsBounded(errs, c)
    ensures Abs(Sum(ErrorTotal(errs, a, base, d), |a|)) <= |a| * (d * c)
  {
    var f := ErrorTotal(errs, a, base, d);
    forall i | 0 <= i < |a| ensures -(d * c) <= f(i) <= d * c {
      MulMono(0, d, c);
      if a[i] >= 0 { SumBound(SelectedError(errs, i, a[i], base), d, c); }
    }
    SumBound(f, |a|, d * c);
  }
}
