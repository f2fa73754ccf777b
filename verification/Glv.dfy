/**
Scalar decomposition of `mcl/src/glv.hpp` on machine words: the 128-bit splits for BLS12-381 and
BLS12-377 by a truncated reciprocal and one correction. Word size 64.
*/
module Glv {
  import opened Limbs
  import opened Bint

  const B: nat := 0x1_0000_0000_0000_0000
  const H: nat := 0x1_0000_0000_0000_0000_0000_0000_0000_0000

  lemma Words()
    ensures Pow(2, 64) == B && Pow(B, 2) == H && Pow(B, 1) == B
    ensures Mul(2, Pow(2, 63)) == B && Mul(4, Pow(2, 62)) == B
  {
    PowSmall(2);
    PowAdd(2, 1, 1);
    PowAdd(2, 2, 2);
    PowAdd(2, 4, 4);
    PowAdd(2, 8, 8);
    PowAdd(2, 16, 16);
    PowAdd(2, 32, 32);
    PowSmall(B);
    PowAdd(B, 1, 1);
    PowStep(2, 63);
    PowStep(2, 62);
    MulAssoc(2, 2, Pow(2, 62));
  }

  /** Two limbs hold a number below 2^128. */
  ghost predicate Holds128(a: array<nat>, v: nat)
    reads a
  {
    a.Length >= 2 && Buf(B, a, 0, 2) && Val(B, a[0..2]) == v
  }

  /** Dropping the lowest limb and then `bit` bits divides by B * 2^bit. */
  lemma ShiftedHigh(x0: nat, hi: nat, S: nat)
    requires S > 0 && x0 < B
    ensures Quo(hi, S) == Quo(x0 + Mul(B, hi), Mul(B, S))
  {
    hide Mul, Rem, Quo;
    MulPos(B, S);
    QuoRem(hi, S);
    var q, r := Quo(hi, S), Rem(hi, S);
    MulAdd(Mul(q, S), r, B);
    MulComm(B, S);
    MulAssoc(q, S, B);
    MulComm(B, Mul(q, S));
    MulComm(B, r);
    MulStrict(r, S, B);
    QuoRemUnique(x0 + Mul(B, hi), Mul(B, S), q, Mul(B, r) + x0);
  }

  /** xH = x >> (64 + bit), in two limbs. */
  method HighPart(xH: array<nat>, x: array<nat>, bit: nat)
    requires xH.Length == 3 && x.Length >= 4 && xH != x && Buf(B, x, 0, 4) && 0 < bit < 64
    requires Val(B, x[0..4]) < Mul(H, Mul(B, Pow(2, bit)))
    modifies xH
    ensures Holds128(xH, Quo(Val(B, x[0..4]), Mul(B, Pow(2, bit))))
  {
    hide Mul, Pow, Val, Quo, Rem;
    Words();
    assert x[0..4] == [x[0]] + x[1..4];
    ValCons(B, x[0], x[1..4]);
    ShrN(64, xH, 0, x, 1, bit, 3);
    MulPos(B, Pow(2, bit));
    ghost var v := Quo(Val(B, x[0..4]), Mul(B, Pow(2, bit)));
    ShiftedHigh(x[0], Val(B, x[1..4]), Pow(2, bit));
    QuoBound(Val(B, x[0..4]), Mul(B, Pow(2, bit)), H);
    assert xH[0..3] == xH[0..2] + [xH[2]];
    ValSnoc(B, xH[0..2], xH[2]);
    if xH[2] > 0 {
      MulPos(xH[2], Pow(B, 2));
    }
    MulUnits(Pow(B, 2));
  }

  /**
  The part that both splits share: b = (x >> (64 + bit)) * q >> 128, t = x - b * L, and
  a = t - L modulo 2^128 with its borrow d.
  */
  method SplitEstimate(a: array<nat>, b: array<nat>, x: array<nat>, q: array<nat>, L: array<nat>, bit: nat,
                       ghost qv: nat, ghost Lv: nat) returns (t: array<nat>, d: nat)
    requires a.Length >= 2 && b.Length >= 2 && x.Length >= 4 && a != b && a != x && b != x && 0 < bit < 64
    requires a != q && a != L && b != q && b != L && Holds128(q, qv) && Holds128(L, Lv) && Buf(B, x, 0, 4)
    requires Val(B, x[0..4]) < Mul(H, Mul(B, Pow(2, bit)))
    requires Mul(Quo(Mul(Quo(Val(B, x[0..4]), Mul(B, Pow(2, bit))), qv), H), Lv) <= Val(B, x[0..4])
    modifies a, b
    ensures fresh(t) && t.Length == 4 && Buf(B, t, 0, 4) && d <= 1
    ensures var bv := Quo(Mul(Quo(Val(B, x[0..4]), Mul(B, Pow(2, bit))), qv), H);
      && Holds128(b, bv) && Val(B, t[0..4]) + Mul(bv, Lv) == Val(B, x[0..4])
      && Buf(B, a, 0, 2) && Val(B, a[0..2]) + Lv == Val(B, t[0..2]) + Mul(d, H)
  {
    hide Mul, Pow, Val, Quo, Rem;
    Words();
    ghost var X := Val(B, x[0..4]);
    var xH := new nat[3];
    HighPart(xH, x, bit);
    t := new nat[4];
    MulT(B, t, 0, xH, 0, q, 0, 2);
    assert t[0..4] == t[0..2] + t[2..4];
    ValConcat(B, t[0..2], t[2..4]);
    LimbsSplit(B, t[0..2], t[2..4]);
    ValBound(B, t[0..2]);
    MulComm(H, Val(B, t[2..4]));
    QuoRemUnique(Val(B, t[0..4]), H, Val(B, t[2..4]), Val(B, t[0..2]));
    CopyN(b, 0, t, 2, 2);
    ghost var bv := Val(B, b[0..2]);
    MulT(B, t, 0, b, 0, L, 0, 2);
    assert Val(B, x[0..4]) == X;
    var c := SubT(B, t, 0, x, 0, t, 0, 4);
    ValBound(B, t[0..4]);
    MulUnits(Pow(B, 4));
    assert t[0..4] == t[0..2] + t[2..4];
    LimbsSplit(B, t[0..2], t[2..4]);
    d := SubT(B, a, 0, t, 0, L, 0, 2);
  }

  /** The borrow test that compares a three-limb number below twice L with L. */
  lemma BorrowTest(ts: seq<nat>, Lv: nat, av: nat, d: nat)
    requires |ts| == 4 && IsLimbs(B, ts) && d <= 1 && Val(B, ts) < 2 * Lv && Lv < H && av < H
    requires av + Lv == Val(B, ts[0..2]) + Mul(d, H)
    ensures ts[2] <= 1 && Val(B, ts) == Val(B, ts[0..2]) + ts[2] * H
    ensures WrapSub(B, ts[2], d) == 0 <==> Val(B, ts) >= Lv
    ensures 2 * Lv <= H ==> (d == 0 <==> Val(B, ts) >= Lv)
    ensures Val(B, ts) >= Lv ==> av == Val(B, ts) - Lv
    ensures Val(B, ts) < Lv ==> Val(B, ts[0..2]) == Val(B, ts)
  {
    hide Mul, Pow, Val, WrapSub;
    Words();
    assert ts == ts[0..2] + [ts[2]] + [ts[3]];
    ValSnoc(B, ts[0..2] + [ts[2]], ts[3]);
    ValSnoc(B, ts[0..2], ts[2]);
    PowStep(B, 2);
    MulUnits(H);
    MulUnits(Mul(B, H));
    if ts[3] > 0 {
      MulPos(ts[3], Mul(B, H));
      MulMono(2, B, H);
      TwiceH();
    }
    if ts[2] >= 2 {
      MulMono(2, ts[2], H);
      TwiceH();
    }
    ValBound(B, ts[0..2]);
    WrapZero(ts[2], d);
  }

  lemma TwiceH()
    ensures Mul(2, H) == 2 * H
  {
  }

  lemma WrapZero(a: nat, d: nat)
    requires a <= 1 && d <= 1
    ensures WrapSub(B, a, d) == 0 <==> a == d
  {
  }

  // ----- BLS12-381 -----

  const L381: nat := 0xac45a4010001a40200000000ffffffff
  const Q381: nat := 0xbe35f678f00fd56eb1fb72917b67f718
  /** The group order, L^2 + L + 1. */
  const R381: nat := 0x73eda753299d7d483339d80809a1d80553bda402fffe5bfeffffffff00000001

  lemma Constants381()
    ensures R381 == L381 * L381 + L381 + 1
    ensures Q381 == ((H / 2) * H) / L381
  {
  }

  /** The truncated estimate is low by at most one. */
  lemma Estimate381(x: nat, xH: nat, xl: nat, b: nat, e: nat)
    requires x < R381 && x == xH * (H / 2) + xl && xl < H / 2 && xH * Q381 == b * H + e && e < H
    ensures b * L381 <= x < b * L381 + 2 * L381
    ensures xH < H
  {
  }

  /** The estimate in terms of the quotients that the code computes. */
  lemma EstimateWords381(x: nat)
    requires x < R381
    ensures var bv := Quo(Mul(Quo(x, Mul(B, Pow(2, 63))), Q381), H);
      bv * L381 <= x < bv * L381 + 2 * L381 && x < Mul(H, Mul(B, Pow(2, 63)))
  {
    hide Mul, Rem, Quo, Pow;
    Words();
    MulAssoc(2, Pow(2, 63), B);
    MulComm(B, Pow(2, 63));
    HalfWord(Pow(2, 63));
    var xH := Quo(x, Mul(B, Pow(2, 63)));
    QuoRem(x, H / 2);
    QuoRem(Mul(xH, Q381), H);
    Constant(xH, H / 2);
    Constant(xH, Q381);
    Constant(Quo(Mul(xH, Q381), H), H);
    Constant(H, H / 2);
    Estimate381(x, xH, Rem(x, H / 2), Quo(Mul(xH, Q381), H), Rem(Mul(xH, Q381), H));
  }

  lemma HalfWord(p: nat)
    requires Mul(2, p) == B
    ensures Mul(B, p) == H / 2
  {
  }

  lemma Constant(a: nat, b: nat)
    ensures Mul(a, b) == a * b
  {
  }

  /** a + b * L == x with 0 <= a < L and 0 <= b <= L + 1, for every x below the group order. */
  method SplitRaw381(a: array<nat>, b: array<nat>, x: array<nat>, q: array<nat>, L: array<nat>, one: array<nat>)
    requires a.Length >= 2 && b.Length >= 2 && x.Length >= 4 && a != b && a != x && b != x
    requires a != q && a != L && b != q && b != L && a != one && b != one
    requires Holds128(q, Q381) && Holds128(L, L381) && Holds128(one, 1) && Buf(B, x, 0, 4) && Val(B, x[0..4]) < R381
    modifies a, b
    ensures Buf(B, a, 0, 2) && Buf(B, b, 0, 2)
    ensures Val(B, a[0..2]) + Val(B, b[0..2]) * L381 == Val(B, x[0..4])
    ensures Val(B, a[0..2]) < L381 && Val(B, b[0..2]) <= L381 + 1
  {
    hide Mul, Pow, Val, Quo, Rem;
    ghost var X := Val(B, x[0..4]);
    Words();
    EstimateWords381(X);
    MulPos(B, Pow(2, 63));
    ghost var bv := Quo(Mul(Quo(X, Mul(B, Pow(2, 63))), Q381), H);
    Constant(bv, L381);
    var t, d := SplitEstimate(a, b, x, q, L, 63, Q381, L381);
    ValBound(B, a[0..2]);
    assert t[0..4][0..2] == t[0..2];
    BorrowTest(t[0..4], L381, Val(B, a[0..2]), d);
    MulUnits(H);
    Range381(X, bv);
    if WrapSub(B, t[2], d) == 0 {
      var c := AddT(B, b, 0, b, 0, one, 0, 2);
    } else {
      CopyN(a, 0, t, 0, 2);
    }
  }

  lemma Range381(X: nat, bv: nat)
    requires X < R381 && bv * L381 <= X
    ensures bv <= L381 + 1
    ensures (bv + 1) * L381 <= X ==> bv + 1 <= L381 + 1
  {
    Constants381();
  }

  // ----- BLS12-377 -----

  const L377: nat := 0x452217cc900000010a11800000000000
  const Q377: nat := 0xecfdeaa5a7f4dc581fdcbb4cabe4060b
  /** The group order, L^2 + L + 1. */
  const R377: nat := 0x12ab655e9a2ca55660b44d1e5c37b00159aa76fed00000010a11800000000001

  lemma Constants377()
    ensures R377 == L377 * L377 + L377 + 1
    ensures Q377 == ((H / 4) * H) / L377
  {
  }

  /** The truncated estimate is low by at most one. */
  lemma Estimate377(x: nat, xH: nat, xl: nat, b: nat, e: nat)
    requires x < R377 && x == xH * (H / 4) + xl && xl < H / 4 && xH * Q377 == b * H + e && e < H
    ensures b * L377 <= x < b * L377 + 2 * L377
    ensures xH < H
  {
  }

  /** The estimate in terms of the quotients that the code computes. */
  lemma EstimateWords377(x: nat)
    requires x < R377
    ensures var bv := Quo(Mul(Quo(x, Mul(B, Pow(2, 62))), Q377), H);
      bv * L377 <= x < bv * L377 + 2 * L377 && x < Mul(H, Mul(B, Pow(2, 62)))
  {
    hide Mul, Rem, Quo, Pow;
    Words();
    MulAssoc(4, Pow(2, 62), B);
    MulComm(B, Pow(2, 62));
    QuarterWord(Pow(2, 62));
    var xH := Quo(x, Mul(B, Pow(2, 62)));
    QuoRem(x, H / 4);
    QuoRem(Mul(xH, Q377), H);
    Constant(xH, H / 4);
    Constant(xH, Q377);
    Constant(Quo(Mul(xH, Q377), H), H);
    Constant(H, H / 4);
    Estimate377(x, xH, Rem(x, H / 4), Quo(Mul(xH, Q377), H), Rem(Mul(xH, Q377), H));
  }

  lemma QuarterWord(p: nat)
    requires Mul(4, p) == B
    ensures Mul(B, p) == H / 4
  {
  }

  /** a + b * L == x with 0 <= a < L and 0 <= b <= L + 1, for every x below the group order. */
  method SplitRaw377(a: array<nat>, b: array<nat>, x: array<nat>, q: array<nat>, L: array<nat>, one: array<nat>)
    requires a.Length >= 2 && b.Length >= 2 && x.Length >= 4 && a != b && a != x && b != x
    requires a != q && a != L && b != q && b != L && a != one && b != one
    requires Holds128(q, Q377) && Holds128(L, L377) && Holds128(one, 1) && Buf(B, x, 0, 4) && Val(B, x[0..4]) < R377
    modifies a, b
    ensures Buf(B, a, 0, 2) && Buf(B, b, 0, 2)
    ensures Val(B, a[0..2]) + Val(B, b[0..2]) * L377 == Val(B, x[0..4])
    ensures Val(B, a[0..2]) < L377 && Val(B, b[0..2]) <= L377 + 1
  {
    hide Mul, Pow, Val, Quo, Rem;
    ghost var X := Val(B, x[0..4]);
    Words();
    EstimateWords377(X);
    MulPos(B, Pow(2, 62));
    ghost var bv := Quo(Mul(Quo(X, Mul(B, Pow(2, 62))), Q377), H);
    Constant(bv, L377);
    var t, d := SplitEstimate(a, b, x, q, L, 62, Q377, L377);
    ValBound(B, a[0..2]);
    assert t[0..4][0..2] == t[0..2];
    BorrowTest(t[0..4], L377, Val(B, a[0..2]), d);
    MulUnits(H);
    Range377(X, bv);
    if d == 0 {
      var c := AddT(B, b, 0, b, 0, one, 0, 2);
    } else {
      CopyN(a, 0, t, 0, 2);
    }
  }

  lemma Range377(X: nat, bv: nat)
    requires X < R377 && bv * L377 <= X
    ensures bv <= L377 + 1
    ensures (bv + 1) * L377 <= X ==> bv + 1 <= L377 + 1
  {
    Constants377();
  }
}
