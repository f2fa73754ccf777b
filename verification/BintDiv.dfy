/**
Multi-word division of `mcl/src/bint_impl.hpp`: `div1`, `divSmall`, `divFullBit` and `div`.
Each of them is Euclidean division of the numbers the limb arrays stand for: the remainder is
left in `x[0..r)` and the quotient, when a buffer for it is given, in `q[0..qn)`.
*/
module BintDiv {
  import opened Limbs
  import opened Bint
  import Words

  /** The quotient buffer is absent, or holds the number `v` in its first `qn` limbs. */
  ghost predicate Holds(B: nat, q: array?<nat>, qn: nat, v: nat)
    reads q
  {
    q == null || (qn <= q.Length && IsLimbs(B, q[0..qn]) && Val(B, q[0..qn]) == v)
  }

  /** What a caller of every division routine provides. */
  ghost predicate Operands(w: nat, q: array?<nat>, qn: nat, x: array<nat>, xn: nat, y: array<nat>, yn: nat)
    reads x, y
  {
    && w >= 2 && w % 2 == 0 && xn >= 1 && yn >= 1
    && Buf(Pow(2, w), x, 0, xn) && Buf(Pow(2, w), y, 0, yn) && y[yn - 1] != 0
    && x != y && (q == null || (q != x && q != y && qn <= q.Length))
  }

  /** The number that the divisor's limbs stand for. */
  ghost function Divisor(w: nat, ys: seq<nat>, yn: nat): nat
    requires yn <= |ys|
  {
    Val(Pow(2, w), ys[0..yn])
  }

  lemma DivisorIsPositive(w: nat, ys: seq<nat>, yn: nat)
    requires 1 <= yn <= |ys| && IsLimbs(Pow(2, w), ys[0..yn]) && ys[yn - 1] != 0
    ensures Divisor(w, ys, yn) > 0
  {
    hide Mul, Pow, Val;
    ValTop(Pow(2, w), ys[0..yn]);
    MulPos(ys[yn - 1], Pow(Pow(2, w), yn - 1));
  }

  /** The outcome of dividing X by Y: remainder in x[0..r), quotient in q[0..qn) when asked for. */
  ghost predicate Divided(w: nat, q: array?<nat>, qn: nat, x: array<nat>, r: nat, X: nat, Y: nat)
    requires Y > 0
    reads q, x
  {
    && r >= 1 && Buf(Pow(2, w), x, 0, r)
    && Val(Pow(2, w), x[0..r]) == Rem(X, Y)
    && Holds(Pow(2, w), q, qn, Quo(X, Y))
  }

  // ----- one-word divisor -----

  /** Division by a single word; the quotient buffer must have room for all limbs of x. */
  method Div1(w: nat, q: array?<nat>, qn: nat, x: array<nat>, xn: nat, y: array<nat>) returns (r: nat)
    requires Operands(w, q, qn, x, xn, y, 1) && (q != null ==> xn <= qn)
    modifies x, q
    ensures r == 1 && Buf(Pow(2, w), x, 0, 1) && Val(Pow(2, w), x[0..1]) < y[0]
    ensures Val(Pow(2, w), x[0..1]) == Rem(old(Val(Pow(2, w), x[0..xn])), y[0])
    ensures Holds(Pow(2, w), q, qn, Quo(old(Val(Pow(2, w), x[0..xn])), y[0]))
    ensures y[..] == old(y[..])
  {
    hide Mul, Pow, Val, Quo, Rem;
    var B := Pow(2, w);
    ghost var X := Val(B, x[0..xn]);
    var n := GetRealSize(B, x, xn);
    assert x[..n] == x[0..n] && x[..xn] == x[0..xn];
    var t;
    if q != null {
      if qn > n {
        ClearN(q, n, qn - n);
      }
      t := DivUnit(B, q, x, n, y[0]);
      QuoRemUnique(X, y[0], Val(B, q[0..n]), t);
      assert q[0..qn] == q[0..n] + q[n..qn];
      ValConcat(B, q[0..n], q[n..qn]);
      ValZeros(B, q[n..qn]);
      MulUnits(Pow(B, n));
    } else {
      t := ModUnit(B, x, n, y[0]);
    }
    x[0] := t;
    ClearN(x, 1, n - 1);
    assert x[0..1] == [t];
    ValOne(B, t);
    return 1;
  }

  // ----- divSmall: at most as many limbs as the divisor -----

  /** The guess from the top limbs is never too large, and at most one too small. */
  lemma GuessIsClose(B: nat, H: nat, p: nat, X: nat, Y: nat, xTop: nat, yTop: nat)
    requires H >= 1 && B == Mul(H, H) && H <= yTop < B && xTop < B && p > 0
    requires X < Mul(xTop + 1, p) && Mul(xTop, p) <= X && Mul(yTop, p) <= Y < Mul(yTop + 1, p)
    ensures var v := Quo(xTop, yTop + 1); Mul(v, Y) <= X < Mul(v + 2, Y)
  {
    hide *;
    var v := Quo(xTop, yTop + 1);
    QuoRem(xTop, yTop + 1);
    // v * Y <= v * (yTop + 1) * p <= xTop * p <= X
    MulMono(Y, Mul(yTop + 1, p), v);
    MulAssoc(v, yTop + 1, p);
    MulMono(Mul(v, yTop + 1), xTop, p);
    // v < H, because xTop < H * H
    MulAdd(H, 1, H);
    MulUnits(H);
    MulComm(H, yTop + 1);
    MulMono(H, yTop + 1, H);
    QuoBound(xTop, yTop + 1, H);
    // hence xTop + 1 <= (v + 2) * yTop
    MulAdd(yTop, 1, v);
    MulUnits(v);
    MulAdd(v, 2, yTop);
    MulAdd(1, 1, yTop);
    MulUnits(yTop);
    MulMono(xTop + 1, Mul(v + 2, yTop), p);
    MulAssoc(v + 2, yTop, p);
    MulMono(Mul(yTop, p), Y, v + 2);
  }

  /** Operands of one length: the leading limbs bracket both numbers for the guess. */
  lemma GuessForLimbs(B: nat, H: nat, xs: seq<nat>, ys: seq<nat>)
    requires |xs| == |ys| >= 1 && IsLimbs(B, xs) && IsLimbs(B, ys)
    requires H >= 1 && B == Mul(H, H) && H <= ys[|ys| - 1]
    ensures var v := Quo(xs[|xs| - 1], ys[|ys| - 1] + 1);
      v < B && Mul(Val(B, ys), v) <= Val(B, xs) && Val(B, xs) - Mul(Val(B, ys), v) < 2 * Val(B, ys)
  {
    hide Mul, Pow, Val, Quo, Rem;
    var n := |xs| - 1;
    ValTop(B, xs);
    ValTop(B, ys);
    GuessIsClose(B, H, Pow(B, n), Val(B, xs), Val(B, ys), xs[n], ys[n]);
    var v := Quo(xs[n], ys[n] + 1);
    MulComm(Val(B, ys), v);
    MulAdd(v, 2, Val(B, ys));
    MulAdd(1, 1, Val(B, ys));
    MulUnits(Val(B, ys));
  }

  /** x -= y, when y is not the larger number: no borrow is left. */
  method SubLe(B: nat, x: array<nat>, y: array<nat>, n: nat)
    requires B >= 2 && Buf(B, x, 0, n) && Buf(B, y, 0, n) && x != y
    requires Val(B, y[0..n]) <= Val(B, x[0..n])
    modifies x
    ensures Buf(B, x, 0, n) && OnlyIn(x, old(x[..]), 0, n)
    ensures Val(B, x[0..n]) + Val(B, y[0..n]) == old(Val(B, x[0..n]))
  {
    hide Mul, Pow, Val;
    var c := SubT(B, x, 0, x, 0, y, 0, n);
    ValBound(B, x[0..n]);
    MulUnits(Pow(B, n));
  }

  /** x -= y * v, when that does not go below zero. */
  method SubMultiple(B: nat, x: array<nat>, y: array<nat>, n: nat, v: nat)
    requires B >= 2 && v < B && Buf(B, x, 0, n) && Buf(B, y, 0, n) && x != y
    requires Mul(Val(B, y[0..n]), v) <= Val(B, x[0..n])
    modifies x
    ensures Buf(B, x, 0, n) && OnlyIn(x, old(x[..]), 0, n)
    ensures Val(B, x[0..n]) + Mul(Val(B, y[0..n]), v) == old(Val(B, x[0..n]))
  {
    hide Mul, Pow, Val;
    var t := new nat[n];
    var top := MulUnitT(B, t, 0, y, 0, v, n);
    ValBound(B, x[0..n]);
    MulUnits(Pow(B, n));
    if top > 0 {
      MulPos(top, Pow(B, n));
    }
    SubLe(B, x, t, n);
  }

  lemma OneMore(v: nat, Y: nat)
    ensures Mul(v + 1, Y) == Mul(v, Y) + Y
  {
    MulAdd(v, 1, Y);
    MulUnits(Y);
  }

  /** The branch of `divSmall` for a large leading limb: guess, then correct at most once. */
  method DivByGuess(w: nat, x: array<nat>, y: array<nat>, n: nat) returns (qv: nat, ghost rounds: nat)
    requires Operands(w, null, 0, x, n, y, n) && Pow(2, w / 2) <= y[n - 1]
    requires Val(Pow(2, w), y[0..n]) < Val(Pow(2, w), x[0..n])
    modifies x
    ensures Buf(Pow(2, w), x, 0, n) && OnlyIn(x, old(x[..]), 0, n) && rounds <= 1
    ensures old(Val(Pow(2, w), x[0..n])) == Mul(qv, Val(Pow(2, w), y[0..n])) + Val(Pow(2, w), x[0..n])
    ensures Val(Pow(2, w), x[0..n]) < Val(Pow(2, w), y[0..n])
  {
    hide Mul, Pow, Val, Quo, Rem;
    var B, yTop := Pow(2, w), y[n - 1];
    ghost var X, Y, ys := Val(B, x[0..n]), Val(B, y[0..n]), y[0..n];
    WordIsSquare(w);
    GuessForLimbs(B, Pow(2, w / 2), x[0..n], ys);
    if yTop == B - 1 {
      AllOnesTop(B, x[0..n], ys);
      SubLe(B, x, y, n);
      qv := 1;
      MulUnits(Y);
    } else {
      qv := Quo(x[n - 1], yTop + 1);
      SubMultiple(B, x, y, n, qv);
      MulComm(Y, qv);
    }
    rounds := 0;
    var ge := CmpGeN(B, x, 0, y, 0, n);
    while ge
      invariant Buf(B, x, 0, n) && OnlyIn(x, old(x[..]), 0, n) && rounds <= 1
      invariant X == Mul(qv, Y) + Val(B, x[0..n])
      invariant ge <==> Val(B, x[0..n]) >= Y
      invariant rounds == 0 ==> Val(B, x[0..n]) < 2 * Y
      invariant rounds == 1 ==> !ge
      decreases 1 - rounds
    {
      SubLe(B, x, y, n);
      OneMore(qv, Y);
      qv := qv + 1;
      rounds := rounds + 1;
      ge := CmpGeN(B, x, 0, y, 0, n);
    }
  }

  lemma WordIsSquare(w: nat)
    requires w % 2 == 0
    ensures Pow(2, w) == Mul(Pow(2, w / 2), Pow(2, w / 2))
  {
    PowAdd(2, w / 2, w / 2);
  }

  /** A divisor with all ones on top fits at most once into a number of its length. */
  lemma AllOnesTop(B: nat, xs: seq<nat>, ys: seq<nat>)
    requires |xs| == |ys| >= 1 && IsLimbs(B, xs) && IsLimbs(B, ys) && B >= 2
    requires ys[|ys| - 1] == B - 1
    ensures Val(B, xs) < 2 * Val(B, ys)
  {
    hide Mul, Pow, Val;
    var n := |xs| - 1;
    ValBound(B, xs);
    ValTop(B, ys);
    PowStep(B, n);
    MulSub(B, 1, Pow(B, n));
    MulUnits(Pow(B, n));
    MulMono(2, B, Pow(B, n));
    MulAdd(1, 1, Pow(B, n));
  }

  /**
  The quotient buffer of a one-word quotient. The word is stored whether or not the buffer has one:
  `stray` tells a store outside it, where the model stops.
  */
  method StoreSmall(B: nat, q: array?<nat>, qn: nat, qv: nat) returns (stray: bool)
    requires q != null ==> qn <= q.Length
    requires qv < B
    modifies q
    ensures stray <==> q != null && qn == 0
    ensures !stray ==> Holds(B, q, qn, qv)
  {
    hide Mul, Pow, Val;
    stray := q != null && qn == 0;
    if q != null && !stray {
      q[0] := qv;
      ClearN(q, 1, qn - 1);
      assert q[0..qn] == [qv] + q[1..qn];
      ValCons(B, qv, q[1..qn]);
      ValZeros(B, q[1..qn]);
      MulUnits(B);
    }
  }

  lemma ShorterIsSmaller(B: nat, xs: seq<nat>, ys: seq<nat>)
    requires B >= 2 && |xs| < |ys| && IsLimbs(B, xs) && IsLimbs(B, ys) && ys[|ys| - 1] != 0
    ensures Val(B, xs) < Val(B, ys)
  {
    hide Mul, Pow, Val;
    ValBound(B, xs);
    PowMono(B, |xs|, |ys| - 1);
    ValTop(B, ys);
    MulMono(1, ys[|ys| - 1], Pow(B, |ys| - 1));
    MulUnits(Pow(B, |ys| - 1));
  }

  /** A quotient of numbers of one length is a single word. */
  lemma SmallQuotient(B: nat, xs: seq<nat>, ys: seq<nat>, v: nat)
    requires B >= 2 && |xs| == |ys| >= 1 && IsLimbs(B, xs) && IsLimbs(B, ys) && ys[|ys| - 1] != 0
    requires Mul(v, Val(B, ys)) <= Val(B, xs)
    ensures v < B
  {
    hide Mul, Pow, Val;
    var n := |ys| - 1;
    ValBound(B, xs);
    ValTop(B, ys);
    MulMono(1, ys[n], Pow(B, n));
    MulUnits(Pow(B, n));
    MulMono(Pow(B, n), Val(B, ys), v);
    PowStep(B, n);
    MulCancelLt(v, B, Pow(B, n));
  }

  /**
  The shortcut for a dividend no longer than the divisor. A result of 0 means that it did not
  apply: then nothing has changed and the dividend is longer or larger than the divisor.
  */
  method DivSmall(w: nat, q: array?<nat>, qn: nat, x: array<nat>, xn: nat, y: array<nat>, yn: nat)
    returns (r: nat, stray: bool)
    requires Operands(w, q, qn, x, xn, y, yn)
    modifies x, q
    ensures y[..] == old(y[..])
    ensures stray <==> r > 0 && q != null && qn == 0
    ensures r == 0 ==> x[..] == old(x[..]) && yn <= xn
    ensures r > 0 && !stray ==> r <= xn && Divided(w, q, qn, x, r, old(Val(Pow(2, w), x[0..xn])), Divisor(w, y[..], yn))
  {
    hide Mul, Pow, Val, Quo, Rem;
    if xn > yn {
      return 0, false;
    }
    var B, yTop := Pow(2, w), y[yn - 1];
    DivisorIsPositive(w, y[..], yn);
    assert y[..][0..yn] == y[0..yn];
    ghost var X, Y, xs, ys := Val(B, x[0..xn]), Val(B, y[0..yn]), x[0..xn], y[0..yn];
    MulUnits(Y);
    PowMono(2, 1, w);
    PowSmall(2);
    var qv, ret := 0, -1;
    if xn < yn {
      ShorterIsSmaller(B, xs, ys);
    } else {
      ret := CmpN(B, x, 0, y, 0, yn);
    }
    if ret < 0 {
    } else if ret == 0 {
      ClearN(x, 0, xn);
      ValZeros(B, x[0..xn]);
      qv := 1;
    } else if yTop >= Pow(2, w / 2) {
      ghost var rounds;
      qv, rounds := DivByGuess(w, x, y, yn);
      SmallQuotient(B, xs, ys, qv);
    } else {
      return 0, false;
    }
    QuoRemUnique(X, Y, qv, Val(B, x[0..xn]));
    stray := StoreSmall(B, q, qn, qv);
    r := GetRealSize(B, x, xn);
    assert x[0..xn] == x[..xn] && x[0..r] == x[..r];
  }


  // ----- divFullBit: the divisor's top bit is set -----

  /** Multiplying by the precomputed reciprocal of `yTop + 1` underestimates the next digit. */
  lemma ReciprocalDigit(B: nat, half: nat, xTop: nat, d: nat, rev: nat, v: nat)
    requires B == Mul(2, half) && half >= 1 && B > 0 && d > half && xTop < d
    requires rev == Quo(Mul(half, B), d) && v == Quo(Mul(2, Mul(xTop, rev)), B)
    ensures Mul(v, d) <= Mul(xTop, B) && v < B
  {
    hide *;
    MulPos(2, half);
    QuoRem(Mul(half, B), d);
    QuoRem(Mul(2, Mul(xTop, rev)), B);
    // v * B * d <= 2 * xTop * rev * d <= xTop * (2 * half) * B
    MulMono(Mul(v, B), Mul(2, Mul(xTop, rev)), d);
    MulAssoc(2, Mul(xTop, rev), d);
    MulAssoc(xTop, rev, d);
    MulMono(Mul(rev, d), Mul(half, B), xTop);
    MulMono(Mul(xTop, Mul(rev, d)), Mul(xTop, Mul(half, B)), 2);
    MulAssoc(xTop, half, B);
    MulAssoc(2, Mul(xTop, half), B);
    MulComm(xTop, half);
    MulAssoc(2, half, xTop);
    MulComm(B, xTop);
    // cancel B
    MulComm(Mul(v, B), d);
    MulAssoc(d, v, B);
    MulComm(d, v);
    MulCancelLe(Mul(v, d), Mul(xTop, B), B);
    // v * d <= xTop * B < d * B
    MulStrict(xTop, d, B);
    MulComm(d, B);
    MulCancelLt(v, B, d);
  }

  /** Shifting the two-word product left by one and keeping its high word loses no bit. */
  lemma DoubledHighWord(B: nat, half: nat, P: nat)
    requires B == Mul(2, half) && half >= 1 && B > 0 && Quo(Mul(2, P), B) < B
    ensures Mul(2, Quo(P, B)) < B
    ensures Words.Or(Rem(Mul(2, Quo(P, B)), B), Quo(Rem(P, B), half)) == Quo(Mul(2, P), B)
  {
    hide Mul, Quo, Rem;
    MulPos(2, half);
    QuoRem(P, B);
    var hi, lo := Quo(P, B), Rem(P, B);
    QuoRem(lo, half);
    QuoBound(lo, half, 2);
    var top := Quo(lo, half);
    // 2 * P == (2 * hi + top) * B + 2 * (lo - top * half)
    MulAdd(Mul(hi, B), lo, 2);
    MulAssoc(2, hi, B);
    MulAdd(Mul(top, half), Rem(lo, half), 2);
    MulComm(top, half);
    MulAssoc(2, half, top);
    MulComm(B, top);
    MulAdd(Mul(2, hi), top, B);
    MulStrict(Rem(lo, half), half, 2);
    MulComm(Rem(lo, half), 2);
    MulComm(half, 2);
    QuoRemUnique(Mul(2, P), B, Mul(2, hi) + top, Mul(2, Rem(lo, half)));
    PowSmall(2);
    MulComm(hi, 2);
    Words.OrDisjoint(hi, top, 1);
  }

  /** The estimate of the next quotient digit. */
  method NextDigit(w: nat, xTop: nat, yTop: nat, rev: nat) returns (v: nat)
    requires w >= 1 && 1 <= xTop <= yTop < Pow(2, w) && Pow(2, w - 1) <= yTop
    requires yTop != Pow(2, w) - 1 ==> rev == Quo(Mul(Pow(2, w - 1), Pow(2, w)), yTop + 1)
    ensures 1 <= v < Pow(2, w)
    ensures v == 1 || Mul(v, yTop + 1) <= Mul(xTop, Pow(2, w))
  {
    hide Mul, Pow, Quo, Rem;
    var B, half := Pow(2, w), Pow(2, w - 1);
    PowStep(2, w - 1);
    if yTop == B - 1 {
      v := xTop;
    } else {
      var P := Mul(xTop, rev);
      var L := Rem(P, B);
      v := Quo(P, B);
      ReciprocalDigit(B, half, xTop, yTop + 1, rev, Quo(Mul(2, P), B));
      DoubledHighWord(B, half, P);
      v := Words.Or(Rem(Mul(2, v), B), Quo(L, half));
      if v == 0 {
        v := 1;
      }
    }
  }

  /** A digit that respects the bound of `NextDigit` never overshoots the window it is subtracted from. */
  lemma DigitFits(B: nat, p: nat, Y: nat, yTop: nat, v: nat, W: nat, xTop: nat)
    requires Y < Mul(yTop + 1, p) && yTop < B && xTop >= 1 && W >= Mul(xTop, Mul(B, p))
    requires v == 1 || Mul(v, yTop + 1) <= Mul(xTop, B)
    ensures Mul(Y, v) <= W
  {
    hide *;
    MulComm(Y, v);
    if v == 1 {
      MulUnits(Y);
      MulMono(yTop + 1, B, p);
      MulMono(1, xTop, Mul(B, p));
      MulUnits(Mul(B, p));
    } else {
      MulMono(Y, Mul(yTop + 1, p), v);
      MulAssoc(v, yTop + 1, p);
      MulMono(Mul(v, yTop + 1), Mul(xTop, B), p);
      MulAssoc(xTop, B, p);
    }
  }

  /** A window of x, its value and the weight of that window in the whole number. */
  lemma WindowChanges(B: nat, xs: seq<nat>, xs': seq<nat>, d: nat, delta: nat)
    requires d <= |xs| == |xs'| && xs[..d] == xs'[..d] && Val(B, xs'[d..]) + delta == Val(B, xs[d..])
    ensures Val(B, xs') + Mul(delta, Pow(B, d)) == Val(B, xs)
  {
    hide *;
    ValSplit(B, xs, d);
    ValSplit(B, xs', d);
    var p, u, u' := Pow(B, d), Val(B, xs[d..]), Val(B, xs'[d..]);
    assert u == u' + delta;
    MulAdd(u', delta, p);
    MulComm(delta, p);
  }

  /** x[d..xn) -= y, when that window is not below y. */
  method SubWindow(B: nat, x: array<nat>, xn: nat, y: array<nat>, yn: nat)
    requires B >= 2 && yn <= xn && Buf(B, x, 0, xn) && Buf(B, y, 0, yn) && x != y
    requires Val(B, y[0..yn]) <= Val(B, x[xn - yn..xn])
    modifies x
    ensures Buf(B, x, 0, xn) && OnlyIn(x, old(x[..]), 0, xn)
    ensures Val(B, x[0..xn]) + Mul(Val(B, y[0..yn]), Pow(B, xn - yn)) == old(Val(B, x[0..xn]))
    ensures Val(B, x[xn - yn..xn]) + Val(B, y[0..yn]) == old(Val(B, x[xn - yn..xn]))
  {
    hide Mul, Pow, Val;
    var d := xn - yn;
    ghost var xs := x[0..xn];
    assert xs[d..] == x[d..xn];
    var c := SubT(B, x, d, x, d, y, 0, yn);
    ValBound(B, x[d..xn]);
    MulUnits(Pow(B, yn));
    ghost var xs' := x[0..xn];
    assert xs'[d..] == x[d..xn] && xs'[..d] == xs[..d];
    LimbsConcat(B, xs'[..d], xs'[d..]);
    assert xs' == xs'[..d] + xs'[d..];
    WindowChanges(B, xs, xs', d, Val(B, y[0..yn]));
  }

  lemma LimbsConcat(B: nat, s: seq<nat>, t: seq<nat>)
    requires IsLimbs(B, s) && IsLimbs(B, t)
    ensures IsLimbs(B, s + t)
  {
  }

  lemma TopWordAlgebra(p: nat, W: nat, W': nat, T: nat, top: nat, h: nat, c: nat, vY: nat)
    requires T + Mul(h, p) == vY && W' + T == W + Mul(c, p) && vY <= W + Mul(top, p) && W' < p
    ensures h + c <= top && W' + Mul(top - (h + c), p) + vY == W + Mul(top, p)
  {
    hide *;
    MulAdd(h, c, p);
    if h + c > top {
      MulStrict(top, h + c, p);
    } else {
      MulSub(top, h + c, p);
    }
  }

  /** x[d..xn) -= y * v over yn + 1 limbs, when that does not go below zero. */
  method SubDigit(B: nat, x: array<nat>, xn: nat, y: array<nat>, yn: nat, v: nat)
    requires B >= 2 && v < B && yn < xn && Buf(B, x, 0, xn) && Buf(B, y, 0, yn) && x != y
    requires Mul(Val(B, y[0..yn]), v) <= Val(B, x[xn - yn - 1..xn])
    modifies x
    ensures Buf(B, x, 0, xn) && OnlyIn(x, old(x[..]), 0, xn)
    ensures Val(B, x[0..xn]) + Mul(Mul(Val(B, y[0..yn]), v), Pow(B, xn - yn - 1)) == old(Val(B, x[0..xn]))
  {
    hide Mul, Pow, Val;
    ghost var xs, d, top := x[0..xn], xn - yn - 1, x[xn - 1];
    var t := new nat[yn];
    var ret := MulUnitT(B, t, 0, y, 0, v, yn);
    ghost var h, T, W := ret, Val(B, t[0..yn]), Val(B, x[d..xn - 1]);
    assert xs[d..] == x[d..xn - 1] + [top];
    assert x[xn - yn - 1..xn] == xs[d..];
    ValSnoc(B, x[d..xn - 1], top);
    var c := SubT(B, x, xn - yn - 1, x, xn - yn - 1, t, 0, yn);
    ret := ret + c;
    ValBound(B, x[d..xn - 1]);
    TopWordAlgebra(Pow(B, yn), W, Val(B, x[d..xn - 1]), T, top, h, c, Mul(Val(B, y[0..yn]), v));
    assert x[xn - 1] == top;
    x[xn - 1] := x[xn - 1] - ret;
    ghost var xs' := x[0..xn];
    assert xs'[d..] == x[d..xn - 1] + [x[xn - 1]] && xs'[..d] == xs[..d];
    ValSnoc(B, x[d..xn - 1], x[xn - 1]);
    LimbsConcat(B, x[d..xn - 1], [x[xn - 1]]);
    LimbsConcat(B, xs'[..d], xs'[d..]);
    assert xs' == xs'[..d] + xs'[d..];
    WindowChanges(B, xs, xs', d, Mul(Val(B, y[0..yn]), v));
  }

  /** q += v * B^d without leaving the buffer. */
  method AddToQuotient(B: nat, q: array?<nat>, qn: nat, d: nat, v: nat, ghost qv: nat)
    requires B >= 2 && v < B && Holds(B, q, qn, qv)
    requires q != null ==> d < qn && qv + Mul(v, Pow(B, d)) < Pow(B, qn)
    modifies q
    ensures Holds(B, q, qn, qv + Mul(v, Pow(B, d)))
  {
    hide Mul, Pow, Val;
    if q != null {
      ghost var qs := q[0..qn];
      assert qs[d..] == q[d..qn] && qs[..d] == q[0..d];
      LimbsSplit(B, qs[..d], qs[d..]);
      assert qs == qs[..d] + qs[d..];
      var c := AddUnit(B, q, d, qn - d, v);
      ghost var qs' := q[0..qn];
      assert qs'[d..] == q[d..qn] && qs'[..d] == qs[..d];
      NoCarryOut(B, qs, qs', d, v, c);
      LimbsConcat(B, qs'[..d], qs'[d..]);
      assert qs' == qs'[..d] + qs'[d..];
    }
  }

  lemma NoCarryOut(B: nat, qs: seq<nat>, qs': seq<nat>, d: nat, v: nat, c: nat)
    requires d <= |qs| == |qs'| && qs[..d] == qs'[..d] && c <= 1
    requires Val(B, qs'[d..]) + Mul(c, Pow(B, |qs| - d)) == Val(B, qs[d..]) + v
    requires Val(B, qs) + Mul(v, Pow(B, d)) < Pow(B, |qs|)
    ensures Val(B, qs') == Val(B, qs) + Mul(v, Pow(B, d))
  {
    hide *;
    var n := |qs| - d;
    ValSplit(B, qs, d);
    ValSplit(B, qs', d);
    MulAdd(Val(B, qs[d..]), v, Pow(B, d));
    MulComm(v, Pow(B, d));
    PowAdd(B, d, n);
    MulUnits(Pow(B, n));
    if c == 1 {
      MulMono(Pow(B, n), Val(B, qs[d..]) + v, Pow(B, d));
    }
  }

  /** How far the loop of `divFullBit` has come: X == qv * Y + x[0..xn), and q holds qv. */
  ghost predicate Progress(B: nat, q: array?<nat>, qn: nat, x: array<nat>, xn: nat, X: nat, Y: nat, qv: nat)
    reads q, x
  {
    && Buf(B, x, 0, xn) && Holds(B, q, qn, qv)
    && X == Mul(qv, Y) + Val(B, x[0..xn])
    && (q != null ==> X < Mul(Pow(B, qn), Y))
  }

  /** What remains to be divided leaves room in q for the digit v at position d. */
  lemma RoomForDigit(B: nat, qn: nat, X: nat, Y: nat, qv: nat, rest: nat, v: nat, d: nat)
    requires B >= 2 && Y > 0 && v >= 1 && X == Mul(qv, Y) + rest
    requires Mul(Mul(v, Pow(B, d)), Y) <= rest
    ensures X < Mul(Pow(B, qn), Y) ==> d < qn && qv + Mul(v, Pow(B, d)) < Pow(B, qn)
    ensures X == Mul(qv + Mul(v, Pow(B, d)), Y) + (rest - Mul(Mul(v, Pow(B, d)), Y))
  {
    hide *;
    var e := Mul(v, Pow(B, d));
    MulAdd(qv, e, Y);
    if X < Mul(Pow(B, qn), Y) {
      MulCancelLt(qv + e, Pow(B, qn), Y);
      MulMono(1, v, Pow(B, d));
      MulUnits(Pow(B, d));
      if d >= qn {
        PowMono(B, qn, d);
      }
    }
  }

  /** Dropping a zero top limb changes no value. */
  lemma DropTopZero(B: nat, x: array<nat>, xn: nat)
    requires 1 <= xn && Buf(B, x, 0, xn) && x[xn - 1] == 0
    ensures Buf(B, x, 0, xn - 1) && Val(B, x[0..xn - 1]) == Val(B, x[0..xn])
  {
    hide Mul, Pow, Val;
    assert x[0..xn] == x[0..xn - 1] + [0];
    ValSnoc(B, x[0..xn - 1], 0);
    MulUnits(Pow(B, xn - 1));
  }

  /** First kind of step: the leading window is not below y, so subtract y once there. */
  method StepSubtract(B: nat, q: array?<nat>, qn: nat, x: array<nat>, xn: nat, y: array<nat>, yn: nat,
                      ghost X: nat, ghost qv: nat) returns (ghost qv': nat)
    requires B >= 2 && 1 <= yn <= xn && Buf(B, y, 0, yn) && Val(B, y[0..yn]) > 0
    requires x != y && q != x && q != y && Progress(B, q, qn, x, xn, X, Val(B, y[0..yn]), qv)
    requires Val(B, y[0..yn]) <= Val(B, x[xn - yn..xn])
    modifies x, q
    ensures Progress(B, q, qn, x, xn, X, Val(B, y[0..yn]), qv') && OnlyIn(x, old(x[..]), 0, xn)
    ensures Val(B, x[0..xn]) < old(Val(B, x[0..xn]))
    ensures Val(B, x[xn - yn..xn]) + Val(B, y[0..yn]) == old(Val(B, x[xn - yn..xn]))
    ensures y[..] == old(y[..])
  {
    hide Mul, Pow, Val;
    ghost var d, Y, rest := xn - yn, Val(B, y[0..yn]), Val(B, x[0..xn]);
    SubWindow(B, x, xn, y, yn);
    MulComm(Y, Pow(B, d));
    MulUnits(Pow(B, d));
    MulPos(Pow(B, d), Y);
    RoomForDigit(B, qn, X, Y, qv, rest, 1, d);
    AddToQuotient(B, q, qn, xn - yn, 1, qv);
    qv' := qv + Mul(1, Pow(B, d));
  }

  /** Second kind of step: subtract an estimated digit one position further down. */
  method StepDigit(w: nat, q: array?<nat>, qn: nat, x: array<nat>, xn: nat, y: array<nat>, yn: nat, rev: nat,
                   ghost X: nat, ghost qv: nat) returns (ghost qv': nat)
    requires w >= 1 && 1 <= yn < xn && Buf(Pow(2, w), y, 0, yn) && Pow(2, w - 1) <= y[yn - 1]
    requires x != y && q != x && q != y && Progress(Pow(2, w), q, qn, x, xn, X, Val(Pow(2, w), y[0..yn]), qv)
    requires x[xn - 1] != 0 && Val(Pow(2, w), x[xn - yn..xn]) < Val(Pow(2, w), y[0..yn])
    requires y[yn - 1] != Pow(2, w) - 1 ==> rev == Quo(Mul(Pow(2, w - 1), Pow(2, w)), y[yn - 1] + 1)
    modifies x, q
    ensures Progress(Pow(2, w), q, qn, x, xn, X, Val(Pow(2, w), y[0..yn]), qv') && OnlyIn(x, old(x[..]), 0, xn)
    ensures Val(Pow(2, w), x[0..xn]) < old(Val(Pow(2, w), x[0..xn]))
    ensures y[..] == old(y[..])
  {
    hide Mul, Pow, Val, Quo;
    var B, d := Pow(2, w), xn - yn - 1;
    ghost var Y, rest := Val(B, y[0..yn]), Val(B, x[0..xn]);
    PowStep(2, w - 1);
    TopsOfWindow(B, x[xn - yn..xn], y[0..yn]);
    var v := NextDigit(w, x[xn - 1], y[yn - 1], rev);
    DigitBelowWindow(B, x[d..xn], y[0..yn], v);
    assert x[0..xn][d..] == x[d..xn];
    ValSplit(B, x[0..xn], d);
    MulMono(Mul(Y, v), Val(B, x[d..xn]), Pow(B, d));
    SubDigit(B, x, xn, y, yn, v);
    DigitWeight(Y, v, Pow(B, d));
    RoomForDigit(B, qn, X, Y, qv, rest, v, d);
    AddToQuotient(B, q, qn, d, v, qv);
    qv' := qv + Mul(v, Pow(B, d));
  }

  lemma DigitWeight(Y: nat, v: nat, p: nat)
    requires Y > 0 && v > 0 && p > 0
    ensures Mul(Mul(Y, v), p) == Mul(Mul(v, p), Y) && Mul(p, Mul(Y, v)) == Mul(Mul(v, p), Y) > 0
  {
    hide *;
    MulComm(Y, v);
    MulAssoc(v, Y, p);
    MulComm(Y, p);
    MulAssoc(v, p, Y);
    MulComm(p, Mul(Y, v));
    MulPos(v, p);
    MulPos(Mul(v, p), Y);
  }

  lemma TopsOfWindow(B: nat, xs: seq<nat>, ys: seq<nat>)
    requires |xs| == |ys| >= 1 && B > 0 && IsLimbs(B, xs) && IsLimbs(B, ys) && Val(B, xs) < Val(B, ys)
    ensures xs[|xs| - 1] <= ys[|ys| - 1]
  {
    hide Mul, Pow, Val;
    ValTop(B, xs);
    ValTop(B, ys);
    MulCancelLt(xs[|xs| - 1], ys[|ys| - 1] + 1, Pow(B, |xs| - 1));
  }

  lemma DigitBelowWindow(B: nat, xs: seq<nat>, ys: seq<nat>, v: nat)
    requires |xs| == |ys| + 1 && |ys| >= 1 && B > 0 && IsLimbs(B, xs) && IsLimbs(B, ys) && xs[|ys|] >= 1
    requires v == 1 || Mul(v, ys[|ys| - 1] + 1) <= Mul(xs[|ys|], B)
    ensures Mul(Val(B, ys), v) <= Val(B, xs)
  {
    hide Mul, Pow, Val;
    ValTop(B, xs);
    ValTop(B, ys);
    PowStep(B, |ys| - 1);
    DigitFits(B, Pow(B, |ys| - 1), Val(B, ys), ys[|ys| - 1], v, Val(B, xs), xs[|ys|]);
  }

  /** A full window with the divisor's top bit set holds the divisor at most once. */
  lemma FitsOnce(B: nat, half: nat, xs: seq<nat>, ys: seq<nat>)
    requires |xs| == |ys| >= 1 && IsLimbs(B, xs) && IsLimbs(B, ys) && B == Mul(2, half) && B > 0
    requires half <= ys[|ys| - 1]
    ensures Val(B, xs) < 2 * Val(B, ys)
  {
    hide Mul, Pow, Val;
    var n := |xs| - 1;
    ValBound(B, xs);
    ValTop(B, ys);
    PowStep(B, n);
    MulMono(half, ys[n], Pow(B, n));
    MulAssoc(2, half, Pow(B, n));
    MulAdd(1, 1, Mul(half, Pow(B, n)));
    MulUnits(Mul(half, Pow(B, n)));
  }

  /** One pass of the loop: drop a zero limb, subtract once, or subtract an estimated digit. */
  method Pass(w: nat, q: array?<nat>, qn: nat, x: array<nat>, xn: nat, y: array<nat>, yn: nat, rev: nat,
              ghost X: nat, ghost qv: nat) returns (xn': nat, done: bool, ghost qv': nat)
    requires w >= 1 && 2 <= yn <= xn && Buf(Pow(2, w), y, 0, yn) && Pow(2, w - 1) <= y[yn - 1]
    requires Val(Pow(2, w), y[0..yn]) > 0
    requires x != y && q != x && q != y && Progress(Pow(2, w), q, qn, x, xn, X, Val(Pow(2, w), y[0..yn]), qv)
    requires y[yn - 1] != Pow(2, w) - 1 ==> rev == Quo(Mul(Pow(2, w - 1), Pow(2, w)), y[yn - 1] + 1)
    modifies x, q
    ensures xn - 1 <= xn' <= xn && OnlyIn(x, old(x[..]), 0, xn) && y[..] == old(y[..])
    ensures Progress(Pow(2, w), q, qn, x, xn', X, Val(Pow(2, w), y[0..yn]), qv')
    ensures done ==> xn' == yn && Val(Pow(2, w), x[0..xn']) < Val(Pow(2, w), y[0..yn])
    ensures done || Val(Pow(2, w), x[0..xn']) < old(Val(Pow(2, w), x[0..xn]))
                 || (Val(Pow(2, w), x[0..xn']) == old(Val(Pow(2, w), x[0..xn])) && xn' < xn)
  {
    hide Mul, Pow, Val, Quo;
    var B := Pow(2, w);
    PowStep(2, w - 1);
    xn', done, qv' := xn, false, qv;
    if x[xn - 1] == 0 {
      DropTopZero(B, x, xn);
      xn' := xn - 1;
      return;
    }
    var d := xn - yn;
    var ge := CmpGeN(B, x, d, y, 0, yn);
    if ge {
      FitsOnce(B, Pow(2, w - 1), x[d..xn], y[0..yn]);
      qv' := StepSubtract(B, q, qn, x, xn, y, yn, X, qv);
      done := d == 0;
    } else if d == 0 {
      done := true;
    } else {
      qv' := StepDigit(w, q, qn, x, xn, y, yn, rev, X, qv);
    }
  }

  /** A dividend that is below the divisor is the remainder. */
  method Finish(w: nat, q: array?<nat>, qn: nat, x: array<nat>, xn: nat, ghost X: nat, ghost Y: nat, ghost qv: nat)
    returns (r: nat)
    requires xn >= 1 && Progress(Pow(2, w), q, qn, x, xn, X, Y, qv) && Val(Pow(2, w), x[0..xn]) < Y
    ensures r <= xn && Divided(w, q, qn, x, r, X, Y)
  {
    hide Mul, Pow, Val, Quo, Rem;
    QuoRemUnique(X, Y, qv, Val(Pow(2, w), x[0..xn]));
    r := GetRealSize(Pow(2, w), x, xn);
    assert x[0..xn] == x[..xn] && x[0..r] == x[..r];
  }

  /** Division by a divisor whose top bit is set. */
  method DivFullBit(w: nat, q: array?<nat>, qn: nat, x: array<nat>, xn0: nat, y: array<nat>, yn: nat) returns (r: nat)
    requires Operands(w, q, qn, x, xn0, y, yn) && yn >= 2 && Pow(2, w - 1) <= y[yn - 1]
    requires Divisor(w, y[..], yn) > 0
    requires q != null ==> Val(Pow(2, w), x[0..xn0]) < Mul(Pow(Pow(2, w), qn), Divisor(w, y[..], yn))
    modifies x, q
    ensures yn <= xn0 ==> r <= yn
    ensures r <= xn0 && y[..] == old(y[..]) && OnlyIn(x, old(x[..]), 0, xn0)
    ensures Divided(w, q, qn, x, r, old(Val(Pow(2, w), x[0..xn0])), Divisor(w, y[..], yn))
  {
    hide Mul, Pow, Val, Quo, Rem, Divided;
    var B, yTop, xn := Pow(2, w), y[yn - 1], xn0;
    ghost var X, Y, qv := Val(B, x[0..xn]), Divisor(w, y[..], yn), 0;
    assert y[..][0..yn] == y[0..yn];
    PowStep(2, w - 1);
    if q != null {
      ClearN(q, 0, qn);
      ValZeros(B, q[0..qn]);
    }
    MulUnits(Y);
    var rev := 0;
    if yTop != B - 1 {
      rev := Quo(Mul(Pow(2, w - 1), B), yTop + 1);
    }
    var done := false;
    while !done && xn >= yn
      invariant yn - 1 <= xn <= xn0 || xn == xn0 < yn
      invariant y[..] == old(y[..]) && OnlyIn(x, old(x[..]), 0, xn0)
      invariant Progress(B, q, qn, x, xn, X, Y, qv)
      invariant done ==> xn == yn && Val(B, x[0..xn]) < Y
      decreases !done, Val(B, x[0..xn]), xn
    {
      assert y[0..yn] == y[..][0..yn];
      xn, done, qv := Pass(w, q, qn, x, xn, y, yn, rev, X, qv);
    }
    assert y[0..yn] == y[..][0..yn];
    if xn < yn {
      ShorterIsSmaller(B, x[0..xn], y[0..yn]);
    }
    r := Finish(w, q, qn, x, xn, X, Y, qv);
  }

  // ----- div: normalise the divisor, then divide -----

  /** The position of the highest set bit of a non-zero word. */
  method Bsr(w: nat, v: nat) returns (k: nat)
    requires 0 < v < Pow(2, w)
    ensures k < w && Pow(2, k) <= v < Pow(2, k + 1)
  {
    PowSmall(2);
    k := 0;
    while v >= Pow(2, k + 1)
      invariant k < w && Pow(2, k) <= v
      decreases w - k
    {
      if k + 1 >= w {
        PowMono(2, w, k + 1);
      }
      k := k + 1;
    }
  }

  /** Scaling both operands scales the remainder and keeps the quotient. */
  lemma ScaledDivision(X: nat, Y: nat, S: nat)
    requires Y > 0 && S > 0
    ensures Mul(Y, S) > 0 && Quo(Mul(X, S), Mul(Y, S)) == Quo(X, Y)
    ensures Quo(Rem(Mul(X, S), Mul(Y, S)), S) == Rem(X, Y)
  {
    hide *;
    var q, r := Quo(X, Y), Rem(X, Y);
    QuoRem(X, Y);
    MulPos(Y, S);
    MulAdd(Mul(q, Y), r, S);
    MulAssoc(q, Y, S);
    MulStrict(r, Y, S);
    QuoRemUnique(Mul(X, S), Mul(Y, S), q, Mul(r, S));
    QuoRemUnique(Mul(r, S), S, r, 0);
  }

  /** Shifting the divisor's top bit up to the word's top bit loses nothing. */
  lemma NormalisedTop(w: nat, k: nat, ys: seq<nat>, zs: seq<nat>, out: nat)
    requires k < w && |ys| == |zs| >= 1 && IsLimbs(Pow(2, w), ys) && IsLimbs(Pow(2, w), zs)
    requires Pow(2, k) <= ys[|ys| - 1] < Pow(2, k + 1)
    requires Val(Pow(2, w), zs) + Mul(out, Pow(Pow(2, w), |ys|)) == Mul(Val(Pow(2, w), ys), Pow(2, w - 1 - k))
    ensures out == 0 && Pow(2, w - 1) <= zs[|zs| - 1]
  {
    hide Mul, Pow, Val;
    var n, B, S := |ys| - 1, Pow(2, w), Pow(2, w - 1 - k);
    var p, Y := Pow(B, n), Val(B, ys);
    ValTop(B, ys);
    ValTop(B, zs);
    PowAdd(2, k, w - 1 - k);
    PowAdd(2, k + 1, w - 1 - k);
    PowStep(B, n);
    // Y < 2^(k+1) * p, so Y * S < 2^w * p
    MulMono(ys[n] + 1, Pow(2, k + 1), p);
    MulStrict(Y, Mul(Pow(2, k + 1), p), S);
    MulAssoc(Pow(2, k + 1), p, S);
    MulComm(p, S);
    MulAssoc(Pow(2, k + 1), S, p);
    MulUnits(Mul(B, p));
    if out > 0 {
      MulMono(1, out, Mul(B, p));
    }
    MulUnits(Pow(B, n + 1));
    // 2^k * p <= Y, so 2^(w-1) * p <= Y * S < (top + 1) * p
    MulMono(Pow(2, k), ys[n], p);
    MulMono(Mul(Pow(2, k), p), Y, S);
    MulAssoc(Pow(2, k), p, S);
    MulAssoc(Pow(2, k), S, p);
    MulCancelLt(Pow(2, w - 1), zs[n] + 1, p);
  }

  /** A quotient buffer of xn - yn + 1 limbs is large enough. */
  lemma QuotientRoom(B: nat, qn: nat, xs: seq<nat>, ys: seq<nat>)
    requires B >= 2 && IsLimbs(B, xs) && IsLimbs(B, ys) && |ys| >= 1 && ys[|ys| - 1] != 0
    requires |ys| <= |xs| && |xs| - |ys| + 1 <= qn
    ensures Val(B, xs) < Mul(Pow(B, qn), Val(B, ys))
  {
    hide Mul, Pow, Val;
    var n := |ys| - 1;
    ValBound(B, xs);
    ValTop(B, ys);
    MulMono(1, ys[n], Pow(B, n));
    MulUnits(Pow(B, n));
    PowMono(B, |xs| - n, qn);
    MulLe(Pow(B, |xs| - n), Pow(B, n), Pow(B, qn), Val(B, ys));
    PowAdd(B, |xs| - n, n);
  }

  /** x << shift in a fresh buffer, with one more limb when bits are shifted out. */
  method ShiftedCopy(w: nat, x: array<nat>, xn: nat, shift: nat) returns (xx: array<nat>, n: nat)
    requires 0 < shift < w && xn >= 1 && Buf(Pow(2, w), x, 0, xn)
    ensures fresh(xx) && xx.Length == xn + 1 && xn <= n <= xn + 1 && Buf(Pow(2, w), xx, 0, n)
    ensures Val(Pow(2, w), xx[0..n]) == Mul(Val(Pow(2, w), x[0..xn]), Pow(2, shift))
  {
    hide Mul, Pow, Val;
    xx := new nat[xn + 1];
    n := xn;
    var v := ShlN(w, xx, 0, x, 0, shift, xn);
    PowMono(2, shift, w);
    MulUnits(Pow(Pow(2, w), xn));
    if v != 0 {
      xx[xn] := v;
      n := n + 1;
      assert xx[0..n] == xx[0..xn] + [v];
      ValSnoc(Pow(2, w), xx[0..xn], v);
    }
  }

  /** The divisor shifted until its top bit is set. */
  method NormalisedDivisor(w: nat, y: array<nat>, yn: nat, k: nat) returns (yy: array<nat>)
    requires k + 1 < w && yn >= 1 && Buf(Pow(2, w), y, 0, yn) && Pow(2, k) <= y[yn - 1] < Pow(2, k + 1)
    ensures fresh(yy) && yy.Length == yn && Buf(Pow(2, w), yy, 0, yn) && Pow(2, w - 1) <= yy[yn - 1]
    ensures Val(Pow(2, w), yy[0..yn]) == Mul(Val(Pow(2, w), y[0..yn]), Pow(2, w - 1 - k))
  {
    hide Mul, Pow, Val;
    yy := new nat[yn];
    var out := ShlN(w, yy, 0, y, 0, w - 1 - k, yn);
    NormalisedTop(w, k, y[0..yn], yy[0..yn], out);
    MulUnits(Pow(Pow(2, w), yn));
  }

  /** The path of `div` that shifts both operands, divides, and shifts the remainder back. */
  method DivShifted(w: nat, q: array?<nat>, qn: nat, x: array<nat>, xn: nat, y: array<nat>, yn: nat, k: nat)
    returns (r: nat)
    requires Operands(w, q, qn, x, xn, y, yn) && 2 <= yn <= xn && (q != null ==> xn - yn + 1 <= qn)
    requires k + 1 < w && Pow(2, k) <= y[yn - 1] < Pow(2, k + 1) && Divisor(w, y[..], yn) > 0
    modifies x, q
    ensures r <= yn && y[..] == old(y[..])
    ensures Divided(w, q, qn, x, r, old(Val(Pow(2, w), x[0..xn])), Divisor(w, y[..], yn))
  {
    hide Mul, Pow, Val, Quo, Rem;
    ghost var B, X, Y, S := Pow(2, w), Val(Pow(2, w), x[0..xn]), Divisor(w, y[..], yn), Pow(2, w - 1 - k);
    assert y[..][0..yn] == y[0..yn];
    var shift := w - 1 - k;
    var yy := NormalisedDivisor(w, y, yn, k);
    var xx, n := ShiftedCopy(w, x, xn, shift);
    assert yy[..][0..yn] == yy[0..yn];
    ScaledDivision(X, Y, S);
    QuotientRoom(B, xn - yn + 1, x[0..xn], y[0..yn]);
    ScaledRoom(B, xn - yn + 1, qn, X, Y, S);
    ghost var was := y[..];
    assert Operands(w, q, qn, xx, n, yy, yn) by {
      PowSmall(2);
      PowMono(2, 0, w - 1);
    }
    r := DivFullBit(w, q, qn, xx, n, yy, yn);
    ShrN(w, x, 0, xx, 0, shift, r);
    assert y[..] == was;
  }

  lemma ScaledRoom(B: nat, n: nat, qn: nat, X: nat, Y: nat, S: nat)
    requires B >= 2 && S > 0 && X < Mul(Pow(B, n), Y)
    ensures n <= qn ==> Mul(X, S) < Mul(Pow(B, qn), Mul(Y, S))
  {
    hide *;
    MulStrict(X, Mul(Pow(B, n), Y), S);
    MulAssoc(Pow(B, n), Y, S);
    if n <= qn {
      PowMono(B, n, qn);
      MulMono(Pow(B, n), Pow(B, qn), Mul(Y, S));
    }
  }

  /** The same outcome with the language's own division. */
  ghost predicate IsDivision(w: nat, q: array?<nat>, qn: nat, x: array<nat>, r: nat, X: nat, Y: nat)
    requires Y > 0
    reads q, x
  {
    && r >= 1 && Buf(Pow(2, w), x, 0, r)
    && Val(Pow(2, w), x[0..r]) == X % Y
    && Holds(Pow(2, w), q, qn, X / Y)
  }

  /**
  q = x / y and x = x % y, for a divisor of any length with a non-zero top limb. Only the first
  `r` limbs of x are the remainder; limbs above them may be stale. An empty quotient buffer, which is
  admitted for a dividend with fewer limbs than the divisor, is written past its end.
  */
  method Div(w: nat, q: array?<nat>, qn: nat, x: array<nat>, xn0: nat, y: array<nat>, yn: nat)
    returns (r: nat, stray: bool)
    requires Operands(w, q, qn, x, xn0, y, yn)
    requires q != null ==> xn0 < yn || (if yn == 1 then xn0 <= qn else xn0 - yn + 1 <= qn)
    modifies x, q
    ensures stray <==> q != null && qn == 0
    ensures y[..] == old(y[..]) && Divisor(w, y[..], yn) > 0
    ensures !stray ==> r <= xn0 && IsDivision(w, q, qn, x, r, old(Val(Pow(2, w), x[0..xn0])), Divisor(w, y[..], yn))
  {
    hide Mul, Pow, Val, Quo, Rem;
    ghost var B, X, Y := Pow(2, w), Val(Pow(2, w), x[0..xn0]), Divisor(w, y[..], yn);
    assert y[..][0..yn] == y[0..yn];
    DivisorIsPositive(w, y[..], yn);
    QuoRemAreDivMod(X, Y);
    if yn == 1 {
      assert y[0..1] == [y[0]];
      ValOne(B, y[0]);
      r := Div1(w, q, qn, x, xn0, y);
      return r, false;
    }
    var xn := GetRealSize(B, x, xn0);
    assert x[0..xn0] == x[..xn0] && x[0..xn] == x[..xn];
    r, stray := DivSmall(w, q, qn, x, xn, y, yn);
    if r > 0 {
      return;
    }
    assert x[0..xn] == old(x[..])[0..xn] && y[0..yn] == old(y[..])[0..yn];
    var yTopBit := Bsr(w, y[yn - 1]);
    if yTopBit + 1 < w {
      r := DivShifted(w, q, qn, x, xn, y, yn, yTopBit);
    } else {
      if q != null {
        QuotientRoom(B, qn, x[0..xn], y[0..yn]);
      }
      r := DivFullBit(w, q, qn, x, xn, y, yn);
    }
  }

  /** 1 / 2^64 with an empty quotient buffer: its first word is stored outside it. */
  method DivOverrun() returns (stray: bool)
    ensures stray
  {
    hide Pow, Val;
    PowMono(2, 1, 64);
    PowSmall(2);
    var q, x, y := new nat[0], new nat[1], new nat[2];
    x[0] := 1;
    y[0], y[1] := 0, 1;
    var r: nat;
    r, stray := Div(64, q, 0, x, 1, y, 2);
  }
}
