/**
Montgomery multiplication and reduction as emitted by `mcl/src/gen.cpp` (`gen_mcl_fp_mont`,
`gen_mcl_fp_montRed`), for primes that use every bit of their limbs and for primes that leave
the top bit free ("NF"). An operand of the emitted code is a natural below its declared width,
a power of the word radix `B`; every addition and subtraction is done modulo that width.
*/
module Montgomery {
  import opened Limbs
  import opened Bint
  import opened Modular

  /** The word that makes the low word of `a + p * q` vanish: rp * p == -1 modulo B. */
  ghost predicate IsMontCoeff(B: nat, p: nat, rp: nat) {
    B > 0 && rp < B && Rem(Mul(rp, p) + 1, B) == 0
  }

  lemma QuotientWord(B: nat, p: nat, rp: nat, a: nat)
    requires IsMontCoeff(B, p, rp)
    ensures var q := Rem(Mul(Rem(a, B), rp), B); Rem(a + Mul(p, q), B) == 0
  {
    hide Mul, Rem, Quo;
    var a0 := Rem(a, B);
    var q := Rem(Mul(a0, rp), B);
    QuoRem(a, B);
    QuoRem(Mul(a0, rp), B);
    QuoRem(Mul(rp, p) + 1, B);
    MulUnits(a0);
    var j := Quo(Mul(rp, p) + 1, B);
    // p * q + B * (p * c) == p * a0 * rp, and a0 * (rp * p + 1) == a0 * (j * B)
    var c := Quo(Mul(a0, rp), B);
    MulAdd(Mul(c, B), q, p);
    MulComm(q, p);
    SwapFactors(c, B, p);
    MulAssoc(a0, rp, p);
    MulAdd(Mul(rp, p), 1, a0);
    MulAssoc(a0, j, B);
    MulAdd(Quo(a, B), Mul(a0, j), B);
    MultipleOnly(B, a + Mul(p, q), Mul(c, p), Quo(a, B) + Mul(a0, j));
  }

  lemma MultipleOnly(B: nat, v: nat, m: nat, n: nat)
    requires B > 0 && v + Mul(m, B) == Mul(n, B)
    ensures Rem(v, B) == 0
  {
    hide Mul, Rem, Quo;
    MulCancelLe(m, n, B);
    MulSub(n, m, B);
    QuoRemUnique(v, B, n - m, 0);
  }

  /** One round: q clears the low word, which is then shifted out exactly. */
  lemma RoundExact(B: nat, p: nat, rp: nat, a: nat)
    requires IsMontCoeff(B, p, rp)
    ensures var q := Rem(Mul(Rem(a, B), rp), B);
      q < B && Mul(Quo(a + Mul(p, q), B), B) == a + Mul(p, q)
  {
    hide Mul, Rem, Quo;
    var q := Rem(Mul(Rem(a, B), rp), B);
    QuotientWord(B, p, rp, a);
    QuoRem(a + Mul(p, q), B);
  }

  /** The running value stays below x + p. */
  lemma RoundBound(B: nat, p: nat, x: nat, s: nat, y: nat, q: nat, s': nat)
    requires B > 0 && y < B && q < B && (s < x + p || s == 0) && p > 0 && Mul(s', B) == s + Mul(x, y) + Mul(p, q)
    ensures s' < x + p
    ensures s + Mul(x, y) + Mul(p, q) < Mul(x + p, B)
  {
    hide Mul;
    MulMono(y, B - 1, x);
    MulMono(q, B - 1, p);
    MulSub(B, 1, x);
    MulSub(B, 1, p);
    MulUnits(x);
    MulUnits(p);
    MulAdd(x, p, B);
    MulCancelLt(s', x + p, B);
  }

  lemma RoundAlgebra(B: nat, P: nat, p: nat, x: nat, yv: nat, y: nat, s: nat, s': nat, q: nat, Q: nat)
    requires Mul(s, P) == Mul(x, yv) + Mul(Q, p) && Mul(s', B) == s + Mul(x, y) + Mul(p, q)
    ensures Mul(s', Mul(B, P)) == Mul(x, yv + Mul(y, P)) + Mul(Q + Mul(q, P), p)
  {
    calc {
      s' * (B * P);
      (s' * B) * P;
      (s + x * y + p * q) * P;
      s * P + x * (y * P) + q * P * p;
      x * yv + Q * p + x * (y * P) + q * P * p;
      x * (yv + y * P) + (Q + q * P) * p;
    }
  }

  /** s * B^i is x times the first i limbs of y, up to the multiple Q of p. */
  ghost predicate Rounds(B: nat, p: nat, x: nat, ys: seq<nat>, i: nat, s: nat, Q: nat)
    requires i <= |ys|
  {
    Mul(s, Pow(B, i)) == Mul(x, Val(B, ys[..i])) + Mul(Q, p)
  }

  lemma NextRound(B: nat, p: nat, rp: nat, x: nat, ys: seq<nat>, i: nat, s: nat, Q: nat)
    requires i < |ys| && IsMontCoeff(B, p, rp) && IsLimbs(B, ys) && p > 0
    requires Rounds(B, p, x, ys, i, s, Q) && (s < x + p || s == 0)
    ensures var a := s + Mul(x, ys[i]);
      var q := Rem(Mul(Rem(a, B), rp), B);
      && Rounds(B, p, x, ys, i + 1, Quo(a + Mul(p, q), B), Q + Mul(q, Pow(B, i)))
      && Quo(a + Mul(p, q), B) < x + p && a + Mul(p, q) < Mul(x + p, B)
  {
    hide Mul, Rem, Quo, Pow, Val;
    var a := s + Mul(x, ys[i]);
    var q := Rem(Mul(Rem(a, B), rp), B);
    RoundExact(B, p, rp, a);
    var s' := Quo(a + Mul(p, q), B);
    RoundBound(B, p, x, s, ys[i], q, s');
    PowStep(B, i);
    assert ys[..i + 1] == ys[..i] + [ys[i]];
    ValSnoc(B, ys[..i], ys[i]);
    RoundAlgebra(B, Pow(B, i), p, x, Val(B, ys[..i]), ys[i], s, s', q, Q);
  }

  /** What the multiplication routines are called with. */
  ghost predicate MontArgs(B: nat, N: nat, p: nat, rp: nat, x: nat, ys: seq<nat>) {
    && B >= 2 && B % 2 == 0 && N >= 1 && x < p < Pow(B, N) && IsMontCoeff(B, p, rp)
    && |ys| == N && IsLimbs(B, ys)
  }

  /** The result: reduced, and equal to x * y / B^N modulo p. */
  ghost predicate IsMontProduct(B: nat, N: nat, p: nat, xy: nat, z: nat) {
    p > 0 && z < p && Cong(p, Mul(z, Pow(B, N)), xy)
  }

  lemma FinalSubtraction(B: nat, N: nat, p: nat, xy: nat, s: nat, Q: nat)
    requires 0 < p && s < 2 * p && Mul(s, Pow(B, N)) == xy + Mul(Q, p)
    ensures IsMontProduct(B, N, p, xy, if s < p then s else s - p)
  {
    hide Mul, Rem, Quo, Pow, Cong;
    var P := Pow(B, N);
    MulUnits(p);
    if s < p {
      CongIntro(p, Mul(s, P), xy, 0, Q);
    } else {
      MulSub(s, p, P);
      MulComm(p, P);
      CongIntro(p, Mul(s - p, P), xy, P, Q);
    }
  }

  lemma WidthsOfRound(B: nat, N: nat, p: nat, x: nat)
    requires B >= 2 && x < p < Pow(B, N)
    ensures Pow(B, N + 1) == Mul(B, Pow(B, N)) && Mul(x + p, B) <= Pow(B, N + 2)
    ensures 2 * p <= Pow(B, N) ==> Mul(x + p, B) <= Pow(B, N + 1)
    ensures x + p < Pow(B, N + 1) && 2 * Pow(B, N) <= Pow(B, N + 1) && 2 * Pow(B, N + 1) <= Pow(B, N + 2)
  {
    hide Mul, Pow;
    var P := Pow(B, N);
    PowStep(B, N);
    PowStep(B, N + 1);
    MulMono(2, B, P);
    MulMono(2, B, Mul(B, P));
    Two(P);
    Two(Mul(B, P));
    MulMono(x + p, Mul(B, P), B);
    MulComm(Mul(B, P), B);
    MulMono(x + p, if 2 * p <= P then P else x + p, B);
    MulComm(P, B);
  }

  lemma Two(a: nat)
    ensures Mul(2, a) == 2 * a
  {
  }

  // ----- the borrow of the last subtraction -----

  /** The bit of weight `e`, shifted down and truncated. */
  function BitOf(v: nat, e: nat): nat
    requires e > 0
  {
    Rem(Quo(v, e), 2)
  }

  lemma OddIsOne(v: nat)
    ensures Rem(v, 2) == v % 2
  {
    QuoRemAreDivMod(v, 2);
  }

  /** With a spare word, the bit above the limbs is the borrow. */
  lemma SpareBitIsBorrow(B: nat, N: nat, s: nat, p: nat)
    requires B >= 2 && B % 2 == 0 && p < Pow(B, N) && s < 2 * p
    ensures var vc := WrapSub(Pow(B, N + 1), s, p); BitOf(vc, Pow(B, N)) == if s < p then 1 else 0
    ensures s >= p ==> WrapSub(Pow(B, N + 1), s, p) == s - p
  {
    hide Mul, Pow, Quo, Rem;
    var P := Pow(B, N);
    PowStep(B, N);
    if s < p {
      MulSub(B, 1, P);
      MulUnits(P);
      MulPos(B, P);
      QuoRemUnique(Mul(B, P) + s - p, P, B - 1, P + s - p);
      OddIsOne(B - 1);
    }
  }

  lemma Halves(P: nat, h: nat)
    requires P == Mul(2, h)
    ensures P == 2 * h
  {
  }

  /** Half of an even power. */
  lemma TopBit(B: nat, N: nat)
    requires B >= 2 && B % 2 == 0 && N >= 1
    ensures Pow(B, N) == 2 * Mul(B / 2, Pow(B, N - 1)) && Mul(B / 2, Pow(B, N - 1)) > 0
  {
    hide Mul, Pow;
    PowStep(B, N - 1);
    MulPos(B / 2, Pow(B, N - 1));
    MulAssoc(2, B / 2, Pow(B, N - 1));
    Halves(Mul(2, Mul(B / 2, Pow(B, N - 1))), Mul(B / 2, Pow(B, N - 1)));
    Doubled(B);
  }

  /** A word of w bits has an even radix. */
  lemma EvenRadix(w: nat)
    requires w >= 1
    ensures Pow(2, w) % 2 == 0
  {
    hide Pow;
    PowStep(2, w - 1);
    Two(Pow(2, w - 1));
  }

  lemma Doubled(B: nat)
    requires B % 2 == 0
    ensures Mul(2, B / 2) == B
  {
  }

  /** For p below half the limb range, the top bit of the limbs is the borrow. */
  lemma TopBitIsBorrow(P: nat, half: nat, s: nat, p: nat)
    requires P == 2 * half && half > 0 && 2 * p <= P && s < 2 * p
    ensures BitOf(WrapSub(P, s, p), half) == if s < p then 1 else 0
    ensures s >= p ==> WrapSub(P, s, p) == s - p
  {
    hide Mul, Quo, Rem;
    MulUnits(half);
    var vc := WrapSub(P, s, p);
    if s < p {
      QuoRemUnique(vc, half, 1, vc - half);
    } else {
      QuoRemUnique(vc, half, 0, vc);
    }
    OddIsOne(Quo(vc, half));
  }

  /** Full-bit multiplication: the accumulator has two spare words. */
  method FpMont(B: nat, N: nat, p: nat, rp: nat, x: nat, ys: seq<nat>) returns (z: nat)
    requires MontArgs(B, N, p, rp, x, ys)
    ensures IsMontProduct(B, N, p, Mul(x, Val(B, ys)), z)
  {
    hide Mul, Rem, Quo, Pow, Val, IsMontCoeff;
    var bit, bu, bu2 := Pow(B, N), Pow(B, N + 1), Pow(B, N + 2);
    WidthsOfRound(B, N, p, x);
    var s: nat := 0;
    ghost var Q: nat := 0;
    FirstRound(B, p, x, ys);
    for i := 0 to N
      invariant (s < x + p || s == 0) && s < bu2 && Rounds(B, p, x, ys, i, s, Q)
    {
      NextRound(B, p, rp, x, ys, i, s, Q);
      var xy := Mul(x, ys[i]);
      var a := WrapAdd(bu2, s, xy);
      var q := Rem(Mul(Rem(a, B), rp), B);
      var t := WrapAdd(bu2, a, Mul(p, q));
      s := Quo(t, B);
      Q := Q + Mul(q, Pow(B, i));
    }
    assert ys[..N] == ys;
    var vc := WrapSub(bu, s, p);
    SpareBitIsBorrow(B, N, s, p);
    z := Rem(if BitOf(vc, bit) != 0 then s else vc, bit);
    FinalSubtraction(B, N, p, Mul(x, Val(B, ys)), s, Q);
  }

  lemma FirstRound(B: nat, p: nat, x: nat, ys: seq<nat>)
    ensures Rounds(B, p, x, ys, 0, 0, 0)
  {
    assert ys[..0] == [];
    ValEmpty(B);
  }

  /** Multiplication for p below half the limb range: one spare word suffices. */
  method FpMontNF(B: nat, N: nat, p: nat, rp: nat, x: nat, ys: seq<nat>) returns (z: nat)
    requires MontArgs(B, N, p, rp, x, ys) && 2 * p <= Pow(B, N)
    ensures IsMontProduct(B, N, p, Mul(x, Val(B, ys)), z)
  {
    hide Mul, Rem, Quo, Pow, Val, IsMontCoeff;
    var bit, bu := Pow(B, N), Pow(B, N + 1);
    WidthsOfRound(B, N, p, x);
    var t: nat := 0;
    ghost var Q: nat := 0;
    FirstRound(B, p, x, ys);
    for i := 0 to N
      invariant (t < x + p || t == 0) && t < bu && Rounds(B, p, x, ys, i, t, Q)
    {
      NextRound(B, p, rp, x, ys, i, t, Q);
      t := WrapAdd(bu, t, Mul(x, ys[i]));
      var q := Rem(Mul(Rem(t, B), rp), B);
      t := WrapAdd(bu, t, Mul(p, q));
      t := Quo(t, B);
      Q := Q + Mul(q, Pow(B, i));
    }
    assert ys[..N] == ys;
    t := Rem(t, bit);
    var vc := WrapSub(bit, t, p);
    var half := Mul(B / 2, Pow(B, N - 1));
    TopBit(B, N);
    TopBitIsBorrow(bit, half, t, p);
    z := if BitOf(vc, half) != 0 then t else vc;
    FinalSubtraction(B, N, p, Mul(x, Val(B, ys)), t, Q);
  }

  // ----- reduction of a double-length number -----

  /**
  After i rounds, T (the limbs `t` with the carry `H` above them) together with the words of xy
  not yet taken in is the original number plus Q * p, divided by B^i.
  */
  ghost predicate RedRounds(B: nat, N: nat, p: nat, xys: seq<nat>, i: nat, T: nat, Q: nat)
    requires N + i <= |xys|
  {
    && Mul(T, Pow(B, i)) == Val(B, xys[..N + i]) + Mul(Q, p)
    && Q < Pow(B, i)
  }

  lemma RedAlgebra(B: nat, P: nat, R: nat, p: nat, T: nat, T': nat, v: nat, next: nat, q: nat, Q: nat)
    requires Mul(T, P) == v + Mul(Q, p) && Mul(T', B) == T + Mul(next, R) + Mul(p, q)
    ensures Mul(T', Mul(B, P)) == v + Mul(next, Mul(R, P)) + Mul(Q + Mul(q, P), p)
  {
    calc {
      T' * (B * P);
      (T' * B) * P;
      (T + next * R + p * q) * P;
      T * P + next * (R * P) + q * P * p;
      v + next * (R * P) + (Q + q * P) * p;
    }
  }

  lemma NextRed(B: nat, N: nat, p: nat, rp: nat, xys: seq<nat>, i: nat, T: nat, Q: nat)
    requires N + i < |xys| && IsMontCoeff(B, p, rp) && IsLimbs(B, xys) && p > 0
    requires RedRounds(B, N, p, xys, i, T, Q)
    ensures var a := T + Mul(xys[N + i], Pow(B, N));
      var q := Rem(Mul(Rem(a, B), rp), B);
      q < B && RedRounds(B, N, p, xys, i + 1, Quo(a + Mul(p, q), B), Q + Mul(q, Pow(B, i)))
  {
    hide Mul, Rem, Quo, Pow, Val;
    var a := T + Mul(xys[N + i], Pow(B, N));
    var q := Rem(Mul(Rem(a, B), rp), B);
    RoundExact(B, p, rp, a);
    PowStep(B, i);
    PowAdd(B, N, i);
    assert xys[..N + i + 1] == xys[..N + i] + [xys[N + i]];
    ValSnoc(B, xys[..N + i], xys[N + i]);
    RedAlgebra(B, Pow(B, i), Pow(B, N), p, T, Quo(a + Mul(p, q), B), Val(B, xys[..N + i]), xys[N + i], q, Q);
    TopAlgebra(B, Pow(B, i), q, Q);
  }

  /** Widths in one round: the sum fits two words above the limbs, and the shifted value one bit. */
  lemma RedWidths(B: nat, R: nat, p: nat, T: nat, next: nat, q: nat)
    requires B >= 2 && p < R && T < 2 * R && next < B && q < B
    ensures Mul(p, q) + R < Mul(B, R)
    ensures T + Mul(next, R) + Mul(p, q) < Mul(2 * R, B)
    ensures Quo(T + Mul(next, R) + Mul(p, q), B) < 2 * R
    ensures Mul(next, R) + R <= Mul(B, R)
  {
    hide Mul, Rem, Quo;
    MulLe(p, q, R - 1, B - 1);
    MulSub(R, 1, B - 1);
    MulUnits(B - 1);
    MulComm(R, B - 1);
    MulStrict(next, B, R);
    MulSub(B, 1, R);
    MulUnits(R);
    Two(R);
    MulAssoc(2, R, B);
    Two(Mul(R, B));
    MulComm(R, B);
    QuoBound(T + Mul(next, R) + Mul(p, q), B, 2 * R);
  }

  /** What the reduction is called with: a double-length number below p * B^N. */
  ghost predicate RedArgs(B: nat, N: nat, p: nat, rp: nat, xys: seq<nat>) {
    && B >= 2 && B % 2 == 0 && N >= 1 && 0 < p < Pow(B, N) && IsMontCoeff(B, p, rp)
    && |xys| == 2 * N && IsLimbs(B, xys) && Val(B, xys) < Mul(p, Pow(B, N))
  }

  /** Low word of the sum does not depend on the limbs above it. */
  lemma LowWord(B: nat, N: nat, t: nat, h: nat)
    requires B >= 1 && N >= 1
    ensures Rem(t + Mul(h, Pow(B, N)), B) == Rem(t, B)
  {
    hide Mul, Rem, Quo, Pow;
    PowStep(B, N - 1);
    MulAssoc(h, B, Pow(B, N - 1));
    MulComm(h, B);
    MulAssoc(B, h, Pow(B, N - 1));
    MulComm(B, Mul(h, Pow(B, N - 1)));
    MulUnits(B);
    CongIntro(B, t + Mul(h, Pow(B, N)), t, 0, Mul(h, Pow(B, N - 1)));
  }

  /** The loop shared by both variants; returns the limbs and the carry word above them. */
  method RedLoop(B: nat, N: nat, p: nat, rp: nat, xys: seq<nat>) returns (t: nat, H: nat, ghost Q: nat)
    requires RedArgs(B, N, p, rp, xys)
    ensures t < Pow(B, N) && H <= 1 && t + Mul(H, Pow(B, N)) < 2 * p
    ensures Mul(t + Mul(H, Pow(B, N)), Pow(B, N)) == Val(B, xys) + Mul(Q, p)
  {
    hide Mul, Rem, Quo, Pow, Val, IsMontCoeff;
    var R, bu, bu2 := Pow(B, N), Pow(B, N + 1), Pow(B, N + 2);
    WidthsOfRound(B, N, p, 0);
    t, H, Q := LowHalf(B, N, xys), 0, 0;
    MulUnits(R);
    FirstRed(B, N, p, xys, t);
    for i := 0 to N
      invariant t < R && H <= 1 && RedRounds(B, N, p, xys, i, t + Mul(H, R), Q)
    {
      var T := t + Mul(H, R);
      var next := xys[N + i];
      NextRed(B, N, p, rp, xys, i, T, Q);
      LowWord(B, N, t, H);
      LowWord(B, N, T, next);
      MulUnits(R);
      var q := Rem(Mul(Rem(t, B), rp), B);
      RedWidths(B, R, p, T, next, q);
      var pq := WrapAdd(bu, Mul(p, q), Mul(H, R));
      var u := WrapAdd(bu2, t + Mul(next, R), pq);
      var s := Quo(u, B);
      assert s == Quo(T + Mul(next, R) + Mul(p, q), B);
      QuoRem(s, R);
      Two(R);
      QuoBound(s, R, 2);
      t, H := Rem(s, R), Quo(s, R);
      Q := Q + Mul(q, Pow(B, i));
    }
    assert xys[..2 * N] == xys;
    RedBound(B, N, p, Val(B, xys), t + Mul(H, R), Q);
  }

  lemma RedBound(B: nat, N: nat, p: nat, v: nat, T: nat, Q: nat)
    requires p > 0 && B > 0 && Mul(T, Pow(B, N)) == v + Mul(Q, p) && Q < Pow(B, N) && v < Mul(p, Pow(B, N))
    ensures T < 2 * p
  {
    hide Mul, Pow;
    var R := Pow(B, N);
    MulStrict(Q, R, p);
    MulComm(R, p);
    MulAdd(p, p, R);
    MulCancelLt(T, 2 * p, R);
  }

  function LowHalf(B: nat, N: nat, xys: seq<nat>): nat
    requires |xys| == 2 * N
  {
    Val(B, xys[..N])
  }

  lemma FirstRed(B: nat, N: nat, p: nat, xys: seq<nat>, t: nat)
    requires |xys| == 2 * N && IsLimbs(B, xys) && B > 0 && t == LowHalf(B, N, xys)
    ensures t < Pow(B, N) && RedRounds(B, N, p, xys, 0, t, 0)
  {
    hide Mul, Val;
    ValBound(B, xys[..N]);
    MulUnits(p);
    MulUnits(t);
  }

  /** Full-bit reduction. */
  method FpMontRed(B: nat, N: nat, p: nat, rp: nat, xys: seq<nat>) returns (z: nat)
    requires RedArgs(B, N, p, rp, xys)
    ensures IsMontProduct(B, N, p, Val(B, xys), z)
  {
    hide Mul, Rem, Quo, Pow, Val;
    var bit, bu := Pow(B, N), Pow(B, N + 1);
    WidthsOfRound(B, N, p, 0);
    var t, H; ghost var Q;
    t, H, Q := RedLoop(B, N, p, rp, xys);
    MulUnits(bit);
    t := t + Mul(H, bit);
    var vc := WrapSub(bu, t, p);
    SpareBitIsBorrow(B, N, t, p);
    z := Rem(if BitOf(vc, bit) != 0 then t else vc, bit);
    FinalSubtraction(B, N, p, Val(B, xys), t, Q);
  }

  /** Reduction for p below half the limb range: the carry word is ignored. */
  method FpMontRedNF(B: nat, N: nat, p: nat, rp: nat, xys: seq<nat>) returns (z: nat)
    requires RedArgs(B, N, p, rp, xys) && 2 * p <= Pow(B, N)
    ensures IsMontProduct(B, N, p, Val(B, xys), z)
  {
    hide Mul, Rem, Quo, Pow, Val;
    var bit := Pow(B, N);
    var t, H; ghost var Q;
    t, H, Q := RedLoop(B, N, p, rp, xys);
    MulUnits(bit);
    var vc := WrapSub(bit, t, p);
    var half := Mul(B / 2, Pow(B, N - 1));
    TopBit(B, N);
    TopBitIsBorrow(bit, half, t, p);
    z := if BitOf(vc, half) != 0 then t else vc;
    FinalSubtraction(B, N, p, Val(B, xys), t, Q);
  }

  // ----- what the result determines -----

  /** For an odd prime and a word of w bits there is exactly one Montgomery product. */
  lemma MontProductUnique(w: nat, N: nat, p: nat, xy: nat, z: nat, z': nat)
    requires p % 2 == 1 && IsMontProduct(Pow(2, w), N, p, xy, z) && IsMontProduct(Pow(2, w), N, p, xy, z')
    ensures z == z'
  {
    hide Mul, Rem, Quo, Pow;
    PowPow(2, w, N);
    CongCancelPow2(p, Mul(w, N), z, z');
  }

  /** On Montgomery representatives a * B^N the routines compute the representative of the product. */
  lemma RepresentativesMultiply(w: nat, N: nat, p: nat, a: nat, b: nat, x: nat, y: nat, z: nat)
    requires p % 2 == 1 && IsMontProduct(Pow(2, w), N, p, Mul(x, y), z)
    requires x == Rem(Mul(a, Pow(Pow(2, w), N)), p) && y == Rem(Mul(b, Pow(Pow(2, w), N)), p)
    ensures z == Rem(Mul(Mul(a, b), Pow(Pow(2, w), N)), p)
  {
    hide Mul, Rem, Quo, Pow;
    var R := Pow(Pow(2, w), N);
    PowPow(2, w, N);
    CongRem(p, Mul(a, R));
    CongRem(p, Mul(b, R));
    CongMul(p, x, Mul(a, R), y);
    CongMul(p, y, Mul(b, R), Mul(a, R));
    RegroupFactors(a, b, R);
    CongCancelPow2(p, Mul(w, N), z, Mul(Mul(a, b), R));
    CongRem(p, Mul(Mul(a, b), R));
    CongReduced(p, z, Rem(Mul(Mul(a, b), R), p));
  }

  lemma RegroupFactors(a: nat, b: nat, R: nat)
    ensures Mul(Mul(a, R), Mul(b, R)) == Mul(Mul(Mul(a, b), R), R)
  {
    assert (a * R) * (b * R) == ((a * b) * R) * R;
  }
}
