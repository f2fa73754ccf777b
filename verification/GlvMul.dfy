/**
Constant-time scalar multiplication over split scalars (`mulGLV_CT` of `mcl/src/glv.hpp`): tables of
small multiples of P, lambda P, lambda^2 P ..., negated where the part of the scalar is negative, and
one pass over the four-bit windows of all parts.
*/
module GlvMul {
  import opened Limbs
  import opened MulVec

  /** A group of order r with negation and an endomorphism that multiplies by l. */
  datatype Curve<!G(!new)> = Curve(g: Group<G>, neg: G -> G, lam: G -> G, r: nat, l: nat)

  ghost predicate Sound<G(!new)>(c: Curve<G>) {
    && c.r > 0
    && (forall a :: c.g.add(c.neg(a), a) == c.g.zero)
    && (forall a :: c.lam(a) == c.g.Times(c.l, a))
    && (forall a :: c.g.Times(c.r, a) == c.g.zero)
  }

  lemma Facts<G(!new)>(c: Curve<G>, a: G)
    requires c.g.IsAbelian() && Sound(c)
    ensures c.r > 0 && c.g.Times(c.r, a) == c.g.zero
  {
  }

  lemma NegFact<G(!new)>(c: Curve<G>, a: G)
    requires c.g.IsAbelian() && Sound(c)
    ensures c.g.add(c.neg(a), a) == c.g.zero
  {
  }

  lemma LamFact<G(!new)>(c: Curve<G>, a: G)
    requires c.g.IsAbelian() && Sound(c)
    ensures c.lam(a) == c.g.Times(c.l, a)
  {
  }

  lemma InverseUnique<G(!new)>(c: Curve<G>, a: G, b: G)
    requires c.g.IsAbelian() && Sound(c) && c.g.add(a, b) == c.g.zero
    ensures a == c.neg(b)
  {
    hide *;
    Facts(c, b);
    NegFact(c, b);
    c.g.Laws(c.neg(b), b, a);
    c.g.Laws(a, b, a);
    c.g.Laws(c.neg(b), a, a);
  }

  lemma LastTime<G(!new)>(g: Group<G>, n: nat, a: G)
    requires n > 0
    ensures g.Times(n, a) == g.add(g.Times(n - 1, a), a)
  {
  }

  /** In a group of order r the inverse is a multiple. */
  lemma NegIsMultiple<G(!new)>(c: Curve<G>, a: G)
    requires c.g.IsAbelian() && Sound(c)
    ensures c.r > 0 && c.neg(a) == c.g.Times(c.r - 1, a)
  {
    hide *;
    Facts(c, a);
    LastTime(c.g, c.r, a);
    InverseUnique(c, c.g.Times(c.r - 1, a), a);
  }

  /** Multiples of r vanish. */
  lemma TimesModOrder<G(!new)>(c: Curve<G>, a: nat, k: nat, P: G)
    requires c.g.IsAbelian() && Sound(c)
    ensures c.g.Times(a + Mul(k, c.r), P) == c.g.Times(a, P)
  {
    hide *;
    Facts(c, P);
    c.g.TimesAdd(a, Mul(k, c.r), P);
    c.g.TimesTimes(k, c.r, P);
    c.g.TimesZero(k);
    c.g.Laws(c.g.Times(a, P), c.g.zero, c.g.zero);
  }

  // ----- the parts of the scalar -----

  function AbsOf(u: int): nat {
    if u < 0 then -u else u
  }

  /** u[0] + u[1] l + u[2] l^2 + ... */
  ghost function Recomposed(u: seq<int>, l: nat): int {
    if |u| == 0 then 0 else Recomposed(u[..|u| - 1], l) + u[|u| - 1] * Pow(l, |u| - 1)
  }

  /** The factor of P that a table stands for: l^i, or (r - 1) l^i if the part is negative. */
  ghost function Factor(u: int, l: nat, r: nat, i: nat): nat
    requires r > 0
  {
    if u < 0 then Mul(r - 1, Pow(l, i)) else Pow(l, i)
  }

  /** The same sum with non-negative terms. */
  ghost function Total(u: seq<int>, l: nat, r: nat): nat
    requires r > 0
  {
    if |u| == 0 then 0
    else Total(u[..|u| - 1], l, r) + Mul(AbsOf(u[|u| - 1]), Factor(u[|u| - 1], l, r, |u| - 1))
  }

  /** How often r has to be added to make the terms non-negative. */
  ghost function Wraps(u: seq<int>, l: nat): nat {
    if |u| == 0 then 0
    else Wraps(u[..|u| - 1], l) + (if u[|u| - 1] < 0 then Mul(AbsOf(u[|u| - 1]), Pow(l, |u| - 1)) else 0)
  }

  lemma NegativeTerm(a: nat, r: nat, p: nat)
    requires r > 0
    ensures Mul(a, Mul(r - 1, p)) == (0 - a) * p + Mul(Mul(a, p), r)
  {
    assert a * ((r - 1) * p) == (a * p) * r - a * p;
  }

  lemma PositiveTerm(a: nat, p: nat)
    ensures Mul(a, p) == a * p
  {
  }

  lemma {:induction false} TotalIsRecomposed(u: seq<int>, l: nat, r: nat)
    requires r > 0
    ensures Total(u, l, r) == Recomposed(u, l) + Mul(Wraps(u, l), r)
  {
    hide Mul, Pow;
    if |u| == 0 {
      MulUnits(r);
    } else {
      var n := |u| - 1;
      TotalIsRecomposed(u[..n], l, r);
      var p := Pow(l, n);
      if u[n] < 0 {
        NegativeTerm(-u[n], r, p);
        MulAdd(Wraps(u[..n], l), Mul(-u[n], p), r);
      } else {
        PositiveTerm(u[n], p);
      }
    }
  }

  // ----- tables -----

  /** What table i stands for: entry j is j times this point. */
  ghost function Base<G(!new)>(c: Curve<G>, P: G, u: seq<int>, i: nat): G
    requires i < |u| && c.r > 0
  {
    c.g.Times(Factor(u[i], c.l, c.r, i), P)
  }

  ghost function Bases<G(!new)>(c: Curve<G>, P: G, u: seq<int>): seq<G>
    requires c.r > 0
  {
    seq(|u|, i requires 0 <= i < |u| => Base(c, P, u, i))
  }

  ghost predicate IsTable<G(!new)>(c: Curve<G>, row: seq<G>, B: G) {
    |row| == 16 && forall j :: 0 <= j < 16 ==> row[j] == c.g.Times(j, B)
  }

  /** tbl[0]: 0, P, 2P, ..., 15P. */
  method FirstRow<G(!new)>(c: Curve<G>, P: G) returns (row: seq<G>)
    requires c.g.IsAbelian() && Sound(c)
    ensures IsTable(c, row, P)
  {
    hide Sound, Group<G>.IsAbelian;
    Facts(c, P);
    c.g.Laws(P, P, P);
    OneTime(c.g, P);
    row := [c.g.zero, P];
    for j := 2 to 16
      invariant |row| == j && forall k :: 0 <= k < j ==> row[k] == c.g.Times(k, P)
    {
      row := row + [c.g.add(row[j - 1], P)];
    }
  }

  /** tbl[i] from tbl[i - 1]: the endomorphism applied to every entry but the cleared first one. */
  method LambdaRow<G(!new)>(c: Curve<G>, prior: seq<G>, ghost B: G) returns (row: seq<G>)
    requires c.g.IsAbelian() && Sound(c) && IsTable(c, prior, B)
    ensures IsTable(c, row, c.g.Times(c.l, B))
  {
    hide Sound, Group<G>.IsAbelian, Mul;
    row := [c.g.zero];
    for j := 1 to 16
      invariant |row| == j && forall k :: 0 <= k < j ==> row[k] == c.g.Times(k, c.g.Times(c.l, B))
    {
      LamFact(c, prior[j]);
      c.g.TimesTimes(c.l, j, B);
      c.g.TimesTimes(j, c.l, B);
      MulComm(c.l, j);
      row := row + [c.lam(prior[j])];
    }
  }

  /** Negating a whole table. */
  method NegRow<G(!new)>(c: Curve<G>, prior: seq<G>, ghost B: G) returns (row: seq<G>)
    requires c.g.IsAbelian() && Sound(c) && IsTable(c, prior, B)
    ensures c.r > 0 && IsTable(c, row, c.g.Times(c.r - 1, B))
  {
    hide Sound, Group<G>.IsAbelian, Mul;
    Facts(c, B);
    row := [];
    for j := 0 to 16
      invariant |row| == j && forall k :: 0 <= k < j ==> row[k] == c.g.Times(k, c.g.Times(c.r - 1, B))
    {
      NegIsMultiple(c, prior[j]);
      c.g.TimesTimes(c.r - 1, j, B);
      c.g.TimesTimes(j, c.r - 1, B);
      MulComm(c.r - 1, j);
      row := row + [c.neg(prior[j])];
    }
  }

  /** All tables, first without signs, then negated where the part is negative. */
  method Tables<G(!new)>(c: Curve<G>, P: G, u: seq<int>) returns (tbl: seq<seq<G>>)
    requires c.g.IsAbelian() && Sound(c) && |u| >= 1
    ensures c.r > 0 && |tbl| == |u| && forall i :: 0 <= i < |u| ==> IsTable(c, tbl[i], Base(c, P, u, i))
  {
    hide Sound, Group<G>.IsAbelian, Mul, Pow, IsTable;
    Facts(c, P);
    c.g.Laws(P, P, P);
    OneTime(c.g, P);
    PowSmall(c.l);
    var row := FirstRow(c, P);
    var plain := [row];
    for i := 1 to |u|
      invariant |plain| == i && forall k :: 0 <= k < i ==> IsTable(c, plain[k], c.g.Times(Pow(c.l, k), P))
    {
      var next := LambdaRow(c, plain[i - 1], c.g.Times(Pow(c.l, i - 1), P));
      c.g.TimesTimes(c.l, Pow(c.l, i - 1), P);
      PowStep(c.l, i - 1);
      plain := plain + [next];
    }
    tbl := [];
    for i := 0 to |u|
      invariant |tbl| == i && forall k :: 0 <= k < i ==> IsTable(c, tbl[k], Base(c, P, u, k))
    {
      if u[i] < 0 {
        var negated := NegRow(c, plain[i], c.g.Times(Pow(c.l, i), P));
        c.g.TimesTimes(c.r - 1, Pow(c.l, i), P);
        tbl := tbl + [negated];
      } else {
        tbl := tbl + [plain[i]];
      }
    }
  }

  // ----- windows -----

  /** The number of bits bounds the number. */
  lemma {:induction false} BitsBound(n: nat)
    ensures n < Pow(2, Ilog2(n))
  {
    if n > 0 {
      BitsBound(n / 2);
      HalfBelow(n, Pow(2, Ilog2(n / 2)));
    }
  }

  lemma HalfBelow(n: nat, p: nat)
    requires n / 2 < p
    ensures n < Mul(2, p)
  {
  }

  /** And no smaller number of bits does. */
  lemma {:induction false} BitsMinimal(n: nat, m: nat)
    requires n < Pow(2, m)
    ensures Ilog2(n) <= m
  {
    if n > 0 {
      PowSmall(2);
      HalfOf(n, Pow(2, m - 1));
      BitsMinimal(n / 2, m - 1);
    }
  }

  lemma HalfOf(n: nat, p: nat)
    requires n < Mul(2, p)
    ensures n / 2 < p
  {
  }

  /** The least number of four-bit windows that all parts fit into. */
  method WindowCount4(us: seq<nat>, ghost cap: nat) returns (loopN: nat)
    ensures forall i :: 0 <= i < |us| ==> us[i] < Pow(16, loopN)
    ensures (forall i :: 0 <= i < |us| ==> us[i] < Pow(16, cap)) ==> loopN <= cap
  {
    hide Pow;
    PowPow(2, 4, cap);
    SixteenIsPower();
    var maxBitSize: nat := 0;
    for i := 0 to |us|
      invariant forall k :: 0 <= k < i ==> us[k] < Pow(2, maxBitSize)
      invariant (forall k :: 0 <= k < |us| ==> us[k] < Pow(16, cap)) ==> maxBitSize <= Mul(4, cap)
    {
      var bitSize := Ilog2(us[i]);
      BitsBound(us[i]);
      if us[i] < Pow(16, cap) {
        BitsMinimal(us[i], Mul(4, cap));
      }
      if bitSize > maxBitSize {
        PowMono(2, maxBitSize, bitSize);
        maxBitSize := bitSize;
      } else {
        PowMono(2, bitSize, maxBitSize);
      }
    }
    loopN := (maxBitSize + 3) / 4;
    PowMono(2, maxBitSize, Mul(4, loopN));
    PowPow(2, 4, loopN);
  }

  lemma SixteenIsPower()
    ensures Pow(2, 4) == 16
  {
    PowSmall(2);
    PowStep(2, 1);
    PowStep(2, 2);
    PowStep(2, 3);
  }

  /** The windows of one part, most significant first. */
  method WindowsOf(u: nat, loopN: nat) returns (v: seq<nat>)
    ensures |v| == loopN && forall k :: 0 <= k < loopN ==> v[k] == Rem(Quo(u, Pow(16, loopN - 1 - k)), 16)
  {
    hide Pow, Quo, Rem, Mul;
    v := [];
    PowSmall(16);
    QuoRem(u, 1);
    MulUnits(Quo(u, 1));
    var rest := u;
    for j := 0 to loopN
      invariant |v| == j && rest == Quo(u, Pow(16, j))
      invariant forall k :: 0 <= k < j ==> v[k] == Rem(Quo(u, Pow(16, j - 1 - k)), 16)
    {
      v := [Rem(rest, 16)] + v;
      rest := Quo(rest, 16);
      QuoQuo(u, Pow(16, j), 16);
      PowStep(16, j);
    }
  }

  /** The parts shifted down by e windows. */
  ghost function Highs(us: seq<nat>, e: nat): (h: seq<nat>)
    ensures |h| == |us|
  {
    seq(|us|, i requires 0 <= i < |us| => Quo(us[i], Pow(16, e)))
  }

  ghost function Lows(us: seq<nat>, e: nat): seq<nat> {
    seq(|us|, i requires 0 <= i < |us| => Rem(Quo(us[i], Pow(16, e)), 16))
  }

  /** One more window: the sum so far times 16, plus the entries that the windows select. */
  lemma NextWindow4<G(!new)>(c: Curve<G>, bases: seq<G>, us: seq<nat>, e: nat)
    requires c.g.IsAbelian() && Sound(c) && |bases| == |us|
    ensures c.g.Dot(bases, Highs(us, e))
         == c.g.add(c.g.Times(16, c.g.Dot(bases, Highs(us, e + 1))), c.g.Dot(bases, Lows(us, e)))
  {
    hide Sound, Group<G>.IsAbelian, Mul, Pow, Quo, Rem;
    forall i | 0 <= i < |us|
      ensures Highs(us, e)[i] == Mul(16, Highs(us, e + 1)[i]) + Lows(us, e)[i]
    {
      QuoQuo(us[i], Pow(16, e), 16);
      PowStep(16, e);
      QuoRem(Quo(us[i], Pow(16, e)), 16);
      MulComm(16, Quo(us[i], Pow(16, e + 1)));
    }
    c.g.DotSplit(bases, Highs(us, e), Highs(us, e + 1), Lows(us, e), 16);
  }

  /** Q += tbl[i][v_i] for every part. */
  method AddEntries<G(!new)>(c: Curve<G>, Q0: G, tbl: seq<seq<G>>, v: seq<nat>, ghost bases: seq<G>) returns (Q: G)
    requires c.g.IsAbelian() && Sound(c) && |tbl| == |v| == |bases| && forall i :: 0 <= i < |v| ==> v[i] < 16
    requires forall i :: 0 <= i < |tbl| ==> IsTable(c, tbl[i], bases[i])
    ensures Q == c.g.add(Q0, c.g.Dot(bases, v))
  {
    hide Sound, Group<G>.IsAbelian;
    Facts(c, Q0);
    c.g.Laws(Q0, Q0, Q0);
    Q := Q0;
    for i := 0 to |v|
      invariant Q == c.g.add(Q0, c.g.Dot(bases[..i], v[..i]))
    {
      assert bases[..i + 1] == bases[..i] + [bases[i]] && v[..i + 1] == v[..i] + [v[i]];
      c.g.DotSnoc(bases[..i], v[..i], bases[i], v[i]);
      c.g.Laws(Q0, c.g.Dot(bases[..i], v[..i]), c.g.Times(v[i], bases[i]));
      Q := c.g.add(Q, tbl[i][v[i]]);
    }
    assert bases[..|v|] == bases && v[..|v|] == v;
  }

  /** The weighted sum of the bases is a multiple of P. */
  lemma {:induction false} DotOfBases<G(!new)>(c: Curve<G>, P: G, u: seq<int>)
    requires c.g.IsAbelian() && Sound(c)
    ensures c.r > 0
    ensures c.g.Dot(Bases(c, P, u), seq(|u|, i requires 0 <= i < |u| => AbsOf(u[i]))) == c.g.Times(Total(u, c.l, c.r), P)
  {
    hide Sound, Group<G>.IsAbelian, Mul, Pow, Factor;
    Facts(c, P);
    if |u| > 0 {
      var n := |u| - 1;
      DotOfBases(c, P, u[..n]);
      var bs, us := Bases(c, P, u), seq(|u|, i requires 0 <= i < |u| => AbsOf(u[i]));
      assert bs[..n] == Bases(c, P, u[..n]);
      assert us[..n] == seq(n, i requires 0 <= i < n => AbsOf(u[..n][i]));
      c.g.TimesTimes(AbsOf(u[n]), Factor(u[n], c.l, c.r, n), P);
      c.g.TimesAdd(Total(u[..n], c.l, c.r), Mul(AbsOf(u[n]), Factor(u[n], c.l, c.r, n)), P);
    }
  }

  lemma SignedMultiple(r: nat, k: int)
    ensures r * k == if k >= 0 then Mul(k, r) else 0 - Mul(-k, r)
  {
  }

  /** Scalars that differ by a multiple of the order give the same point. */
  lemma SameResidue<G(!new)>(c: Curve<G>, a: nat, b: nat, k: int, P: G)
    requires c.g.IsAbelian() && Sound(c) && a == b + c.r * k
    ensures c.g.Times(a, P) == c.g.Times(b, P)
  {
    hide *;
    SignedMultiple(c.r, k);
    if k >= 0 {
      TimesModOrder(c, b, k, P);
    } else {
      TimesModOrder(c, a, -k, P);
    }
  }

  lemma CollectOrder(r: int, k: int, w: nat)
    requires r >= 0
    ensures r * k + Mul(w, r) == r * (k + w)
  {
  }

  /** The parts fit a buffer of `cap` windows each. */
  predicate PartsFit(u: seq<int>, cap: nat) {
    forall i :: 0 <= i < |u| ==> AbsOf(u[i]) < Pow(16, cap)
  }

  /**
  Q == y * P, for any parts u that recompose to y modulo the order. The buffers for the windows have
  room for `cap` windows; `ok` tells whether they can be resized, and the model stops if not.
  */
  method MulGlvCT<G(!new)>(c: Curve<G>, P: G, u: seq<int>, cap: nat, ghost y: nat, ghost k: int) returns (Q: G, ok: bool)
    requires c.g.IsAbelian() && Sound(c) && |u| >= 1 && Recomposed(u, c.l) == y + c.r * k
    ensures ok <==> PartsFit(u, cap)
    ensures ok ==> Q == c.g.Times(y, P)
  {
    hide Sound, Group<G>.IsAbelian, Mul, Pow, Quo, Rem, Total, Recomposed, Wraps;
    Facts(c, P);
    var us := seq(|u|, i requires 0 <= i < |u| => AbsOf(u[i]));
    var tbl := Tables(c, P, u);
    ghost var bases := Bases(c, P, u);
    var loopN := WindowCount4(us, cap);
    ok := loopN <= cap;
    if ok {
      PowMono(16, loopN, cap);
    }
    assert ok <==> PartsFit(u, cap) by {
      assert forall i :: 0 <= i < |u| ==> us[i] == AbsOf(u[i]);
    }
    if !ok {
      return P, false;
    }
    var vTbl: seq<seq<nat>> := [];
    for i := 0 to |u|
      invariant |vTbl| == i && forall j :: 0 <= j < i ==> |vTbl[j]| == loopN
      invariant forall j, m :: 0 <= j < i && 0 <= m < loopN ==> vTbl[j][m] == Rem(Quo(us[j], Pow(16, loopN - 1 - m)), 16)
    {
      var v := WindowsOf(us[i], loopN);
      vTbl := vTbl + [v];
    }
    Q := SumWindows(c, tbl, vTbl, loopN, bases, us);
    DotOfBases(c, P, u);
    TotalIsRecomposed(u, c.l, c.r);
    CollectOrder(c.r, k, Wraps(u, c.l));
    SameResidue(c, Total(u, c.l, c.r), y, k + Wraps(u, c.l), P);
  }

  lemma AllHigh<G(!new)>(c: Curve<G>, bases: seq<G>, us: seq<nat>, e: nat)
    requires c.g.IsAbelian() && Sound(c) && |bases| == |us| && forall i :: 0 <= i < |us| ==> us[i] < Pow(16, e)
    ensures c.g.Dot(bases, Highs(us, e)) == c.g.zero
  {
    hide Sound, Group<G>.IsAbelian, Pow;
    Facts(c, c.g.zero);
    ZeroDot(c.g, bases, Highs(us, e));
  }

  lemma {:induction false} ZeroDot<G(!new)>(g: Group<G>, bases: seq<G>, ks: seq<nat>)
    requires g.IsAbelian() && |bases| == |ks| && forall i :: 0 <= i < |ks| ==> ks[i] == 0
    ensures g.Dot(bases, ks) == g.zero
  {
    hide Group<G>.IsAbelian;
    g.Laws(g.zero, g.zero, g.zero);
    if |ks| > 0 {
      ZeroDot(g, bases[..|ks| - 1], ks[..|ks| - 1]);
    }
  }

  /** The main loop: four doublings and one table entry for every part, per window. */
  method SumWindows<G(!new)>(c: Curve<G>, tbl: seq<seq<G>>, vTbl: seq<seq<nat>>, loopN: nat,
                             ghost bases: seq<G>, ghost us: seq<nat>) returns (Q: G)
    requires c.g.IsAbelian() && Sound(c) && |tbl| == |vTbl| == |bases| == |us|
    requires forall i :: 0 <= i < |us| ==> us[i] < Pow(16, loopN) && |vTbl[i]| == loopN
    requires forall i, m :: 0 <= i < |us| && 0 <= m < loopN ==> vTbl[i][m] == Rem(Quo(us[i], Pow(16, loopN - 1 - m)), 16)
    requires forall i :: 0 <= i < |tbl| ==> IsTable(c, tbl[i], bases[i])
    ensures Q == c.g.Dot(bases, us)
  {
    hide Sound, Group<G>.IsAbelian, Group<G>.Dot, Group<G>.Times, Mul, Pow, Quo, Rem, IsTable, Highs;
    Q := c.g.zero;
    Facts(c, Q);
    AllHigh(c, bases, us, loopN);
    SixteenIsPower();
    for k := 0 to loopN
      invariant Q == c.g.Dot(bases, Highs(us, loopN - k))
    {
      Q := DoubleTimes(c.g, Q, 4);
      var v := seq(|vTbl|, i requires 0 <= i < |vTbl| => vTbl[i][k]);
      assert v == Lows(us, loopN - 1 - k);
      NextWindow4(c, bases, us, loopN - 1 - k);
      Q := AddEntries(c, Q, tbl, v, bases);
    }
    NoShift16(us);
  }

  lemma NoShift16(us: seq<nat>)
    ensures Highs(us, 0) == us
  {
    forall i | 0 <= i < |us| ensures Quo(us[i], Pow(16, 0)) == us[i] {
      QuoRem(us[i], 1);
    }
  }
}
