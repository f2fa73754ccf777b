/**
`mulGLV_CT` of `mcl/src/glv.hpp` with each of its splits: for every scalar y the routine returns y * P,
and the window buffers are large enough. The curve enters by its order and by the factor of its
endomorphism, which is the eigenvalue of the split modulo the order.
*/
module GlvProduct {
  import opened Limbs
  import opened Bint
  import opened MulVec
  import opened GlvMul
  import L = GlvLattice
  import Glv

  /** The windows that `vTbl` has room for: two per byte of a 32-byte scalar, and one. */
  const CAP: nat := 65

  lemma Room(n: nat)
    requires n < L.K256
    ensures n < Pow(16, CAP)
  {
    hide Pow;
    L.ShiftSecp();
    SixteenIsPower();
    PowPow(2, 4, CAP);
    PowMono(2, 256, Mul(4, CAP));
  }

  lemma PartsHaveRoom(u: seq<int>, m: int)
    requires forall i :: 0 <= i < |u| ==> -m <= u[i] <= m
    requires m < L.K256
    ensures PartsFit(u, CAP)
  {
    hide Pow;
    forall i | 0 <= i < |u| ensures AbsOf(u[i]) < Pow(16, CAP) {
      Room(AbsOf(u[i]));
    }
  }

  /** The scalar is reduced before it is split; that changes the point by nothing. */
  lemma ReducedScalar<G(!new)>(c: Curve<G>, y: nat, P: G)
    requires c.g.IsAbelian() && Sound(c)
    ensures c.r > 0 && c.g.Times(Rem(y, c.r), P) == c.g.Times(y, P)
  {
    hide Sound, Group<G>.IsAbelian, Mul, Quo, Rem;
    Facts(c, P);
    QuoRem(y, c.r);
    TimesModOrder(c, Rem(y, c.r), Quo(y, c.r), P);
  }

  lemma TwoParts(a: int, b: int, l: nat)
    ensures Recomposed([a, b], l) == a + b * l
  {
    assert [a, b][..1] == [a];
    assert Recomposed([a], l) == a;
    PowSmall(l);
  }

  // ----- secp256k1 -----

  lemma Negated(r: int, k: int)
    ensures r * -k == -(r * k)
  {
  }

  method MulSecp<G(!new)>(c: Curve<G>, P: G, y: nat) returns (Q: G)
    requires c.g.IsAbelian() && Sound(c) && c.r == L.N256 && c.l == L.LambdaSecp
    ensures Q == c.g.Times(y, P)
  {
    hide Sound, Group<G>.IsAbelian, Group<G>.Times, Recomposed, PartsFit, L.SplitSecp, Rem, Quo, Pow;
    ReducedScalar(c, y, P);
    var x := Rem(y, c.r);
    var h := L.SplitSecp(x);
    L.SplitSecpIsShort(x);
    ghost var k :| h.a + h.b * L.LambdaSecp == x - L.N256 * k;
    TwoParts(h.a, h.b, c.l);
    Negated(c.r, k);
    PartsHaveRoom([h.a, h.b], 2 * L.BasisSecp.b10 - 2 * L.BasisSecp.b01);
    var ok: bool;
    Q, ok := MulGlvCT(c, P, [h.a, h.b], CAP, x, -k);
  }

  // ----- powers of an eigenvalue modulo the order -----

  /** l and z are congruent modulo r. */
  ghost predicate Congruent(l: int, z: int, r: int) {
    exists m :: l == z + r * m
  }

  lemma {:induction false} PowerModOrder(l: nat, z: int, r: int, m: int, j: nat) returns (k: int)
    requires l == z + r * m
    ensures Pow(l, j) == L.Power(z, j) + r * k
  {
    if j == 0 {
      k := 0;
    } else {
      var i := PowerModOrder(l, z, r, m, j - 1);
      k := z * i + m * L.Power(z, j - 1) + r * m * i;
      PowerAlgebra(l, z, r, m, i, L.Power(z, j - 1), Pow(l, j - 1));
    }
  }

  lemma PowerAlgebra(l: nat, z: int, r: int, m: int, i: int, p: int, q: nat)
    requires l == z + r * m && q == p + r * i
    ensures Mul(l, q) == z * p + r * (z * i + m * p + r * m * i)
  {
    calc {
      l * q;
      (z + r * m) * (p + r * i);
      z * p + z * (r * i) + r * m * p + r * m * (r * i);
      == { assert z * (r * i) == r * (z * i) && r * m * p == r * (m * p) && r * m * (r * i) == r * (r * m * i); }
      z * p + r * (z * i) + r * (m * p) + r * (r * m * i);
      z * p + r * (z * i + m * p + r * m * i);
    }
  }

  lemma {:induction false} RecomposedModOrder(u: seq<int>, l: nat, z: int, r: int, m: int) returns (k: int)
    requires l == z + r * m
    ensures Recomposed(u, l) == L.DigitSum(u, z) + r * k
  {
    hide Pow, L.Power;
    if |u| == 0 {
      k := 0;
    } else {
      var n := |u| - 1;
      var i := RecomposedModOrder(u[..n], l, z, r, m);
      var j := PowerModOrder(l, z, r, m, n);
      k := i + u[n] * j;
      DigitShift(u[n], L.Power(z, n), r, i, j);
    }
  }

  lemma DigitShift(d: int, p: int, r: int, i: int, j: int)
    ensures r * i + d * (p + r * j) == d * p + r * (i + d * j)
  {
    assert d * (p + r * j) == d * p + r * (d * j);
  }

  // ----- GLV2 on BLS12 curves -----

  /** For every curve parameter whose size the buffers hold. */
  method MulBLS12<G(!new)>(c: Curve<G>, P: G, z: int, y: nat) returns (Q: G)
    requires c.g.IsAbelian() && Sound(c) && 2 <= L.Abs(z) < L.K256
    requires c.r == L.Power(z, 4) - L.Power(z, 2) + 1 && Congruent(c.l, z, c.r)
    ensures Q == c.g.Times(y, P)
  {
    hide Sound, Group<G>.IsAbelian, Group<G>.Times, Recomposed, PartsFit, L.Power, L.DigitSum, Rem, Pow;
    ReducedScalar(c, y, P);
    var x := Rem(y, c.r);
    L.OrderBLS12InRange(z);
    var u := L.SplitBLS12(z, x);
    ghost var m :| c.l == z + c.r * m;
    ghost var k := RecomposedModOrder(u, c.l, z, c.r, m);
    PartsHaveRoom(u, L.Abs(z));
    var ok: bool;
    Q, ok := MulGlvCT(c, P, u, CAP, x, k);
  }

  // ----- GLV2 on BN curves -----

  lemma DigitsOfQuad(q: L.Quad, l: int)
    ensures L.DigitSum([q.c0, q.c1, q.c2, q.c3], l) == L.Eval(q, l)
  {
    hide L.Power;
    var u := [q.c0, q.c1, q.c2, q.c3];
    assert u[..3][..2] == u[..2] && u[..2][..1] == u[..1] && u[..1][..0] == [];
    SmallPowers(l);
    assert L.DigitSum(u[..1], l) == q.c0;
    assert L.DigitSum(u[..2], l) == q.c0 + q.c1 * l;
    assert L.DigitSum(u[..3], l) == q.c0 + q.c1 * l + q.c2 * (l * l);
    Horner(q, l);
  }

  lemma SmallPowers(l: int)
    ensures L.Power(l, 0) == 1 && L.Power(l, 1) == l && L.Power(l, 2) == l * l && L.Power(l, 3) == l * (l * l)
  {
    assert L.Power(l, 1) == l * L.Power(l, 0);
    assert L.Power(l, 2) == l * L.Power(l, 1);
  }

  lemma Horner(q: L.Quad, l: int)
    ensures L.Eval(q, l) == q.c0 + q.c1 * l + q.c2 * (l * l) + q.c3 * (l * (l * l))
  {
    assert l * (q.c2 + l * q.c3) == q.c2 * l + q.c3 * (l * l);
    assert l * (q.c2 * l + q.c3 * (l * l)) == q.c2 * (l * l) + q.c3 * (l * (l * l));
  }

  /** For every curve parameter and every rounding of the table. */
  method MulBN<G(!new)>(c: Curve<G>, P: G, z: int, v: L.Quad, s: nat, y: nat) returns (Q: G)
    requires c.g.IsAbelian() && Sound(c) && 16 * L.Abs(z) + 8 < L.K256
    requires c.r == L.OrderBN(z) && c.r <= Pow(2, s) && L.IsTableBN(z, v, Pow(2, s)) && Congruent(c.l, 6 * z * z, c.r)
    ensures Q == c.g.Times(y, P)
  {
    hide Sound, Group<G>.IsAbelian, Group<G>.Times, Recomposed, PartsFit;
    hide L.OrderBN, L.IsTableBN, L.Split4, L.Eval, L.DigitSum, Rem, Pow;
    ReducedScalar(c, y, P);
    var x := Rem(y, c.r);
    var q := L.Split4(z, v, s, x);
    var u := [q.c0, q.c1, q.c2, q.c3];
    L.Split4IsShort(z, v, s, x);
    L.Split4Recomposes(z, v, s, x);
    ghost var n :| L.Eval(q, 6 * z * z) == x - L.OrderBN(z) * n;
    ghost var m :| c.l == 6 * z * z + c.r * m;
    ghost var k := RecomposedModOrder(u, c.l, 6 * z * z, c.r, m);
    DigitsOfQuad(q, 6 * z * z);
    Difference(c.r, k, n);
    PartsHaveRoom(u, 16 * L.Abs(z) + 8);
    var ok: bool;
    Q, ok := MulGlvCT(c, P, u, CAP, x, k - n);
  }

  lemma Difference(r: int, k: int, n: int)
    ensures r * k - r * n == r * (k - n)
  {
  }

  // ----- GLV1 on BLS12-381 and BLS12-377: the splits on machine words -----

  method Words128(v: nat) returns (a: array<nat>)
    requires v < Glv.H
    ensures fresh(a) && Glv.Holds128(a, v)
  {
    hide Pow, Val, ToLimbs;
    Glv.Words();
    var s := ToLimbs(Glv.B, 2, v);
    ToLimbsVal(Glv.B, 2, v);
    a := new nat[2](i requires 0 <= i < 2 => s[i]);
    assert a[0..2] == s;
  }

  method WordsOf(v: nat, n: nat) returns (a: array<nat>)
    requires v < Pow(Glv.B, n)
    ensures fresh(a) && a.Length == n && Buf(Glv.B, a, 0, n) && Val(Glv.B, a[0..n]) == v
  {
    hide Pow, Val, ToLimbs;
    var s := ToLimbs(Glv.B, n, v);
    ToLimbsVal(Glv.B, n, v);
    a := new nat[n](i requires 0 <= i < n => s[i]);
    assert a[0..n] == s;
  }

  lemma FourWords()
    ensures Pow(Glv.B, 4) == L.K256
  {
    hide Pow;
    Glv.Words();
    PowAdd(Glv.B, 2, 2);
  }

  /** With the split for BLS12-381, whose eigenvalue is L. */
  method MulBLS381<G(!new)>(c: Curve<G>, P: G, y: nat) returns (Q: G)
    requires c.g.IsAbelian() && Sound(c) && c.r == Glv.R381 && c.l == Glv.L381
    ensures Q == c.g.Times(y, P)
  {
    hide Sound, Group<G>.IsAbelian, Group<G>.Times, Recomposed, PartsFit, Rem, Pow, Val;
    ReducedScalar(c, y, P);
    FourWords();
    var x := WordsOf(Rem(y, c.r), 4);
    var q := Words128(Glv.Q381);
    var l := Words128(Glv.L381);
    var one := Words128(1);
    var a, b := new nat[2], new nat[2];
    Glv.SplitRaw381(a, b, x, q, l, one);
    Q := MulHalves(c, P, a, b, Rem(y, c.r), Glv.L381 + 1);
  }

  /** With the split for BLS12-377. */
  method MulBLS377<G(!new)>(c: Curve<G>, P: G, y: nat) returns (Q: G)
    requires c.g.IsAbelian() && Sound(c) && c.r == Glv.R377 && c.l == Glv.L377
    ensures Q == c.g.Times(y, P)
  {
    hide Sound, Group<G>.IsAbelian, Group<G>.Times, Recomposed, PartsFit, Rem, Pow, Val;
    ReducedScalar(c, y, P);
    FourWords();
    var x := WordsOf(Rem(y, c.r), 4);
    var q := Words128(Glv.Q377);
    var l := Words128(Glv.L377);
    var one := Words128(1);
    var a, b := new nat[2], new nat[2];
    Glv.SplitRaw377(a, b, x, q, l, one);
    Q := MulHalves(c, P, a, b, Rem(y, c.r), Glv.L377 + 1);
  }

  /** The two halves as numbers (`gmp::setArray`), and the product. */
  method MulHalves<G(!new)>(c: Curve<G>, P: G, a: array<nat>, b: array<nat>, ghost x: nat, ghost m: nat) returns (Q: G)
    requires c.g.IsAbelian() && Sound(c) && a.Length == b.Length == 2 && m < L.K256
    requires Val(Glv.B, a[0..2]) + Val(Glv.B, b[0..2]) * c.l == x
    requires Val(Glv.B, a[0..2]) <= m && Val(Glv.B, b[0..2]) <= m
    ensures Q == c.g.Times(x, P)
  {
    hide Sound, Group<G>.IsAbelian, Group<G>.Times, Recomposed, PartsFit, Val;
    var u := [Val(Glv.B, a[0..2]), Val(Glv.B, b[0..2])];
    TwoParts(u[0], u[1], c.l);
    PartsHaveRoom(u, m);
    var ok: bool;
    Q, ok := MulGlvCT(c, P, u, CAP, x, 0);
  }
}
