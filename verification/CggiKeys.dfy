/** Generation of the CGGI refreshing key (rgsw-acc-cggi.cpp). */
module CggiKeys {
  import opened Ring
  import opened RgswParams
  import opened ExternalProduct
  import opened RgswKeys
  import opened Lwe
  import opened Cggi

  /**
    A key row is [a_i, a_i*z + e_i] with the gadget power added to the first component
    of even rows and the second of odd rows; the product uses the a_i drawn before that.
  */
  method KeyGenCGGI(params: RingGSWCryptoParams, skNTT: Poly, m: int, a: seq<Poly>, e: seq<Poly>, ghost errs: seq<Poly>)
    returns (ek: EvalKey)
    requires ParamsOk(params) && |skNTT| == params.N
    requires DrawsOk(a, e, params.N, 2 * params.digitsG, params.Q) && StandsFor(e, errs, params.Q)
    ensures Encrypts(ek, skNTT, Constant(params.N, if m > 0 then 1 else 0), params.baseG, params.digitsG, params.Q,
                     errs)
  {
    hide Encrypts, RowsState, StandsFor, Monomial;
    var N, Q := params.N, params.Q;
    ghost var mu := Constant(N, if m > 0 then 1 else 0);
    ConstantIs(N, if m > 0 then 1 else 0);
    var result := DrawRows(a, e, mu, params.baseG, Q);
    var tempA := a;
    RowsCount(result, a, e, mu, params.baseG, Q, 0);
    if m > 0 {
      result := AddGadget(result, params.gpower, 0, false, N, Q, a, e, params.baseG);
      RowsCount(result, a, e, mu, params.baseG, Q, 2 * params.digitsG);
    }
    ek := FinishRows(result, tempA, skNTT, Q, e, errs, mu, params.baseG, params.digitsG,
                     if m > 0 then 2 * params.digitsG else 0);
  }

  lemma ConstantIs(N: nat, m: int)
    requires N > 0
    ensures m == 1 ==> Constant(N, m) == Monomial(N, 0)
    ensures m == 0 ==> Constant(N, m) == Zero(N)
  {
    RotateZero(One(N));
    assert Scale(1, One(N)) == One(N) && Scale(0, One(N)) == Zero(N);
  }

  /**
    The +1 or -1 key for each position. The code casts modulus and entries to 32 bits, so what counts
    is the secret as read: the key is for that, and generation fails exactly when that is not ternary.
  */
  method KeyGenAcc(params: RingGSWCryptoParams, skNTT: Poly, sk: PrivateKey, ghost E: nat,
                   a: seq<seq<Poly>>, e: seq<seq<Poly>>, ghost errs: seq<seq<Poly>>) returns (r: Result<AccKey>)
    requires ParamsOk(params) && |skNTT| == params.N && sk.Valid()
    requires |a| == |e| == |errs| == 2 * |sk.elements|
    requires forall i :: 0 <= i < |a| ==> DrawsOk(a[i], e[i], params.N, 2 * params.digitsG, params.Q)
    requires forall i :: 0 <= i < |a| ==> StandsFor(e[i], errs[i], params.Q)
    requires forall i, l :: 0 <= i < |errs| && 0 <= l < |errs[i]| ==> Bounded(errs[i][l], E)
    ensures r.Ok? <==> Ternary(sk.Read())
    ensures r.Err? ==> r.error == NotImplementedError
    ensures r.Ok? ==> ValidAccKey(r.value, sk.Read(), skNTT, params.baseG, params.digitsG, params.Q, E)
  {
    hide Encrypts, Bounded, DrawsOk, StandsFor, ToInt32;
    var n, mod := |sk.elements|, ToInt32(sk.modulus);
    var modHalf := mod / 2;
    var pos: seq<EvalKey>, neg: seq<EvalKey> := [], [];
    for i := 0 to n
      invariant |pos| == |neg| == i
      invariant forall x :: 0 <= x < i ==> -1 <= sk.Read()[x] <= 1
      invariant forall x :: 0 <= x < i ==>
                  && KeyFor(pos[x], skNTT, if sk.Read()[x] == 1 then 1 else 0, params.baseG, params.digitsG, params.Q,
                            E)
                  && KeyFor(neg[x], skNTT, if sk.Read()[x] == -1 then 1 else 0, params.baseG, params.digitsG, params.Q,
                            E)
    {
      var s := ToInt32(sk.elements[i]);
      if s > modHalf { s := ToInt32(s - mod); }
      assert s == sk.Read()[i];
      if s != 0 && s != 1 && s != -1 {
        return Err(NotImplementedError);
      }
      var k1 := KeyGenCGGI(params, skNTT, if s == 1 then 1 else 0, a[2 * i], e[2 * i], errs[2 * i]);
      var k2 := KeyGenCGGI(params, skNTT, if s == -1 then 1 else 0, a[2 * i + 1], e[2 * i + 1], errs[2 * i + 1]);
      assert KeyWith(k1, skNTT, if s == 1 then 1 else 0, params.baseG, params.digitsG, params.Q, E, errs[2 * i]);
      assert KeyWith(k2, skNTT, if s == -1 then 1 else 0, params.baseG, params.digitsG, params.Q, E, errs[2 * i + 1]);
      pos, neg := pos + [k1], neg + [k2];
    }
    return Ok(AccKey(pos, neg));
  }
}
