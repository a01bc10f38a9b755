/** Row-level generation of RingGSW keys, common to both accumulators. Random draws are parameters. */
module RgswKeys {
  import opened Arith
  import opened Ring
  import opened RgswParams
  import opened ExternalProduct
  import opened Rlwe

  /** X^i times g, for 0 <= i < 2N, changes one coefficient by +g or -g. */
  lemma ScaledMonomialAt(N: nat, i: nat, k: nat, g: int)
    requires i < N && k < N
    ensures Scale(g, Monomial(N, i))[k] == if k == i then g else 0
    ensures Scale(g, Monomial(N, N + i))[k] == if k == i then -g else 0
  {
    hide Monomial;
    MonomialAt(N, i, k);
    assert g * 1 == g && g * -1 == -g;
  }

  /** Adding (or subtracting) the stored power at coefficient i adds g*X^i (or g*X^(N+i)). */
  lemma BumpCong(p: Poly, i: nat, gp: int, g: int, Q: int)
    requires i < |p| && Q > 0 && Cong(gp, g, Q)
    ensures PCong(p[i := (p[i] + gp) % Q], Add(p, Scale(g, Monomial(|p|, i))), Q)
    ensures PCong(p[i := (p[i] - gp) % Q], Add(p, Scale(g, Monomial(|p|, |p| + i))), Q)
  {
    hide Scale, Monomial;
    var N := |p|;
    var up, down := p[i := (p[i] + gp) % Q], p[i := (p[i] - gp) % Q];
    var x, y := Add(p, Scale(g, Monomial(N, i))), Add(p, Scale(g, Monomial(N, N + i)));
    forall k | 0 <= k < N ensures Cong(up[k], x[k], Q) && Cong(down[k], y[k], Q) {
      ScaledMonomialAt(N, i, k, g);
      CongRefl(p[k], Q);
      if k == i {
        CongAdd(p[i], p[i], gp, g, Q);
        ModCong(p[i] + gp, Q);
        CongTrans((p[i] + gp) % Q, p[i] + gp, p[i] + g, Q);
        ModCong(p[i] - gp, Q);
        CongTrans((p[i] - gp) % Q, p[i] - gp, p[i] - g, Q);
      }
    }
    assert PCong(up, x, Q) && PCong(down, y, Q);
  }

  predicate DrawsOk(a: seq<Poly>, e: seq<Poly>, N: nat, n: nat, Q: int) {
    |a| == |e| == n && Polys(a, N) && Polys(e, N) && forall i :: 0 <= i < n ==> Residues(a[i], Q) && Residues(e[i], Q)
  }

  /** The drawn residues e stand for the signed errors errs. */
  ghost predicate StandsFor(e: seq<Poly>, errs: seq<Poly>, Q: int) {
    |e| == |errs| && forall i :: 0 <= i < |e| ==> |e[i]| == |errs[i]| && PCong(e[i], errs[i], Q)
  }

  predicate ParamsOk(params: RingGSWCryptoParams)
    reads params
  {
    params.Valid() && params.Consistent()
  }

  /** A row before tempA*z is added: the message part is present if done, and zero otherwise. */
  ghost predicate RowState(r: Row, a: Poly, e: Poly, mu: Poly, base: nat, l: nat, Q: int, done: bool)
    requires |a| == |e| == |mu|
  {
    var G := Scale(Pow(base, l / 2), mu);
    && PCong(r.a, if done && l % 2 == 0 then Add(a, G) else a, Q)
    && PCong(r.b, if done && l % 2 == 1 then Add(e, G) else e, Q)
  }

  /** Adding a*z to the second component completes the row; without the message part, mu must be zero. */
  lemma FinishRow(r: Row, a: Poly, e: Poly, err: Poly, z: Poly, mu: Poly, base: nat, l: nat, Q: int, done: bool)
    requires Q > 0 && |r.a| == |r.b| == |a| == |e| == |mu| == |z| > 0 && PCong(e, err, Q)
    requires RowState(r, a, e, mu, base, l, Q, done) && (!done ==> mu == Zero(|z|))
    ensures |err| == |z|
    ensures PCong(RowPhase(r.(b := AddMod(r.b, MulMod(a, z, Q), Q)), z), Add(err, Weight(mu, z, base, l)), Q)
  {
    PCongLength(e, err, Q);
    var G := Scale(Pow(base, l / 2), mu);
    FinishHalves(r, a, e, mu, base, l, Q, done);
    hide PCong, Mul, Reduce, Pow;
    var x, y := if l % 2 == 0 then Add(a, G) else a, if l % 2 == 1 then Add(err, G) else err;
    RowValue(r, a, e, err, G, z, l, Q);
    assert RowPhase(Row(x, Add(y, Mul(a, z))), z) == Add(err, Weight(mu, z, base, l)) by {
      RowWeight(a, err, z, mu, base, l);
    }
  }

  lemma FinishHalves(r: Row, a: Poly, e: Poly, mu: Poly, base: nat, l: nat, Q: int, done: bool)
    requires |r.a| == |r.b| == |a| == |e| == |mu| > 0
    requires RowState(r, a, e, mu, base, l, Q, done) && (!done ==> mu == Zero(|a|))
    ensures RowState(r, a, e, mu, base, l, Q, true)
  {
    hide PCong, Pow;
    var G := Scale(Pow(base, l / 2), mu);
    if !done {
      assert Add(a, G) == a && Add(e, G) == e;
    }
  }

  /** The completed row is congruent to the row over the integers. */
  lemma RowValue(r: Row, a: Poly, e: Poly, err: Poly, G: Poly, z: Poly, l: nat, Q: int)
    requires Q > 0 && |r.a| == |r.b| == |a| == |e| == |err| == |G| == |z| > 0 && PCong(e, err, Q)
    requires PCong(r.a, if l % 2 == 0 then Add(a, G) else a, Q)
    requires PCong(r.b, if l % 2 == 1 then Add(e, G) else e, Q)
    ensures var x, y := if l % 2 == 0 then Add(a, G) else a, if l % 2 == 1 then Add(err, G) else err;
            PCong(RowPhase(r.(b := AddMod(r.b, MulMod(a, z, Q), Q)), z), RowPhase(Row(x, Add(y, Mul(a, z))), z), Q)
  {
    hide PCong, Mul, Reduce, AddMod, MulMod;
    var x, y := if l % 2 == 0 then Add(a, G) else a, if l % 2 == 1 then Add(err, G) else err;
    PCongRefl(G, Q);
    PCongAdd(e, err, G, G, Q);
    PCongTrans(r.b, if l % 2 == 1 then Add(e, G) else e, y, Q);
    PCongRefl(a, Q);
    PCongRefl(z, Q);
    MulModCong(a, z, a, z, Q);
    AddModCong(r.b, MulMod(a, z, Q), y, Mul(a, z), Q);
    PCongMul(r.a, x, z, z, Q);
    PCongAdd(AddMod(r.b, MulMod(a, z, Q), Q), Add(y, Mul(a, z)), Mul(r.a, z), Mul(x, z), Q);
  }

  /** Over the integers, the phase of row l is its error plus its weight. */
  lemma RowWeight(a: Poly, err: Poly, z: Poly, mu: Poly, base: nat, l: nat)
    requires |a| == |err| == |z| == |mu| > 0
    ensures var G := Scale(Pow(base, l / 2), mu);
            var x, y := if l % 2 == 0 then Add(a, G) else a, if l % 2 == 1 then Add(err, G) else err;
            RowPhase(Row(x, Add(y, Mul(a, z))), z) == Add(err, Weight(mu, z, base, l))
  {
    hide Mul, Pow;
    var g: int := Pow(base, l / 2);
    var G := Scale(g, mu);
    if l % 2 == 0 {
      MulAddLeft(a, G, z);
      MulScale(g, mu, z);
      var p := Mul(mu, z);
      forall i | 0 <= i < |z| ensures Scale(0 - g, p)[i] == -Scale(g, p)[i] { assert (0 - g) * p[i] == -(g * p[i]); }
    }
  }

  ghost predicate RowsState(rows: seq<Row>, a: seq<Poly>, e: seq<Poly>, mu: Poly, base: nat, Q: int, done: nat) {
    && |rows| == |a| == |e| && Rows(rows, |mu|) && Polys(a, |mu|) && Polys(e, |mu|)
    && forall x :: 0 <= x < |rows| ==> RowState(rows[x], a[x], e[x], mu, base, x, Q, x < done)
  }

  lemma RowsCount(rows: seq<Row>, a: seq<Poly>, e: seq<Poly>, mu: Poly, base: nat, Q: int, done: nat)
    requires RowsState(rows, a, e, mu, base, Q, done)
    ensures |rows| == |a|
  {
  }

  /** The rows [a_i, e_i] before anything is added. */
  method DrawRows(a: seq<Poly>, e: seq<Poly>, ghost mu: Poly, ghost base: nat, ghost Q: int)
    returns (rows: seq<Row>)
    requires |a| == |e| && Polys(a, |mu|) && Polys(e, |mu|)
    ensures RowsState(rows, a, e, mu, base, Q, 0)
  {
    hide PCong, Pow;
    rows := [];
    for i := 0 to |a|
      invariant |rows| == i && forall x :: 0 <= x < i ==> rows[x] == Row(a[x], e[x])
    {
      rows := rows + [Row(a[i], e[i])];
    }
    forall x | 0 <= x < |a| ensures RowState(rows[x], a[x], e[x], mu, base, x, Q, false) {
      PCongRefl(a[x], Q);
      PCongRefl(e[x], Q);
    }
  }

  function Bump(p: Poly, i: nat, gp: int, Q: int, negative: bool): (r: Poly)
    requires i < |p| && Q > 0
    ensures |r| == |p|
  {
    if negative then p[i := (p[i] - gp) % Q] else p[i := (p[i] + gp) % Q]
  }

  /** Adds (or subtracts) the gadget powers at coefficient mm of the interleaved components. */
  method AddGadget(rows0: seq<Row>, gpower: seq<int>, mm: nat, negative: bool, N: nat, Q: int,
                   ghost a: seq<Poly>, ghost e: seq<Poly>, ghost base: nat) returns (rows: seq<Row>)
    requires Q > 0 && mm < N && |rows0| == 2 * |gpower| && gpower == GPowers(base, |gpower|, Q)
    requires RowsState(rows0, a, e, Monomial(N, if negative then N + mm else mm), base, Q, 0)
    ensures RowsState(rows, a, e, Monomial(N, if negative then N + mm else mm), base, Q, |rows0|)
  {
    hide RowState, Bump, Pow, Monomial;
    ghost var mu := Monomial(N, if negative then N + mm else mm);
    rows := rows0;
    var i := 0;
    while i < |gpower|
      invariant 0 <= i <= |gpower| && RowsState(rows, a, e, mu, base, Q, 2 * i)
    {
      BumpPair(rows[2 * i], rows[2 * i + 1], a[2 * i], e[2 * i], a[2 * i + 1], e[2 * i + 1], gpower[i], base, i, mm,
               negative, N, Q);
      rows := rows[2 * i := rows[2 * i].(a := Bump(rows[2 * i].a, mm, gpower[i], Q, negative))]
                  [2 * i + 1 := rows[2 * i + 1].(b := Bump(rows[2 * i + 1].b, mm, gpower[i], Q, negative))];
      i := i + 1;
    }
  }

  lemma BumpPair(r: Row, t: Row, a: Poly, e: Poly, a2: Poly, e2: Poly, gp: int, base: nat, i: nat, mm: nat,
                 negative: bool, N: nat, Q: int)
    requires Q > 0 && mm < N && |r.a| == |r.b| == |t.a| == |t.b| == |a| == |e| == |a2| == |e2| == N
    requires gp == Pow(base, i) % Q
    requires RowState(r, a, e, Monomial(N, if negative then N + mm else mm), base, 2 * i, Q, false)
    requires RowState(t, a2, e2, Monomial(N, if negative then N + mm else mm), base, 2 * i + 1, Q, false)
    ensures RowState(r.(a := Bump(r.a, mm, gp, Q, negative)), a, e, Monomial(N, if negative then N + mm else mm), base,
                     2 * i, Q, true)
    ensures RowState(t.(b := Bump(t.b, mm, gp, Q, negative)), a2, e2, Monomial(N, if negative then N + mm else mm),
                     base, 2 * i + 1, Q, true)
  {
    hide PCong, Pow, Monomial, Add;
    var g := Pow(base, i);
    var mu := Monomial(N, if negative then N + mm else mm);
    ModCong(g, Q);
    DivModUnique(2 * i, i, 0, 2);
    DivModUnique(2 * i + 1, i, 1, 2);
    BumpCong(r.a, mm, gp, g, Q);
    BumpCong(t.b, mm, gp, g, Q);
    var G := Scale(g, mu);
    PCongRefl(G, Q);
    PCongAdd(r.a, a, G, G, Q);
    PCongAdd(t.b, e2, G, G, Q);
    PCongTrans(Bump(r.a, mm, gp, Q, negative), Add(r.a, G), Add(a, G), Q);
    PCongTrans(Bump(t.b, mm, gp, Q, negative), Add(t.b, G), Add(e2, G), Q);
  }

  /** Adds tempA*z to every second component, which completes the key. */
  method FinishRows(rows: seq<Row>, tempA: seq<Poly>, z: Poly, Q: int, ghost e: seq<Poly>, ghost errs: seq<Poly>,
                    ghost mu: Poly, ghost base: nat, ghost k: nat, ghost done: nat) returns (ek: EvalKey)
    requires Q > 0 && |z| == |mu| > 0 && |rows| == 2 * k && RowsState(rows, tempA, e, mu, base, Q, done)
    requires StandsFor(e, errs, Q) && ((done == 0 && mu == Zero(|z|)) || done == 2 * k)
    ensures Encrypts(ek, z, mu, base, k, Q, errs)
  {
    hide PCong, RowState, Pow, Weight, RowPhase, AddMod, MulMod;
    ek := rows;
    var i := 0;
    while i < |rows|
      invariant 0 <= i <= |rows| == |ek| && Rows(ek, |z|)
      invariant forall x :: i <= x < |ek| ==> ek[x] == rows[x]
      invariant forall x :: 0 <= x < i ==> PCong(RowPhase(ek[x], z), Add(errs[x], Weight(mu, z, base, x)), Q)
    {
      FinishRow(rows[i], tempA[i], e[i], errs[i], z, mu, base, i, Q, i < done);
      ek := ek[i := ek[i].(b := AddMod(ek[i].b, MulMod(tempA[i], z, Q), Q))];
      i := i + 1;
    }
  }
}
