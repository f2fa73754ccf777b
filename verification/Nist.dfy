/**
Reduction modulo the NIST primes P-192 and P-521 (FIPS 186-4, appendices D.2.1 and D.2.5), as the
instruction sequences emitted by `mcl/src/gen.cpp` compute it. Every intermediate is a natural
below its declared width, and arithmetic that could leave the width wraps around.
*/
module Nist {
  import opened Limbs
  import W = Words

  // ----- P-192 -----

  const P192: nat := 0xffffffff_ffffffff_ffffffff_fffffffe_ffffffff_ffffffff

  /** The three 64-bit words of a 192-bit number, and what multiplying it by 2^64 gives. */
  lemma HighWords(D: nat, h: nat, h2: nat, h10: nat)
    requires h == Mul(h2, Mul(D, D)) + h10 && h10 < Mul(D, D)
    ensures Mul(h, D) == Mul(h2, Mul(D, Mul(D, D))) + Mul(h10, D)
  {
    MulAdd(Mul(h2, Mul(D, D)), h10, D);
    assert (h2 * (D * D)) * D == h2 * (D * (D * D));
  }

  /** 2^192 is 2^64 + 1 modulo the prime, so the high half folds onto the low one. */
  lemma FoldAlgebra(D: nat, C: nat, l: nat, h: nat, h2: nat, h10D: nat, p: nat)
    requires C == p + D + 1 && Mul(h, D) == Mul(h2, C) + h10D
    ensures l + Mul(h, C) == (l + h + h10D + h2 + Mul(h2, D)) + Mul(h + h2, p)
  {
    calc {
      l + h * C;
      l + h * p + h * D + h;
      l + h * p + (h2 * C + h10D) + h;
      l + h + h10D + h2 + h2 * D + (h + h2) * p;
    }
  }

  /** Folding the two bits above 2^192 once more. */
  lemma SecondFoldAlgebra(D: nat, C: nat, e: nat, r: nat, p: nat)
    requires C == p + D + 1
    ensures r + Mul(e, C) == r + e + Mul(e, D) + Mul(e, p)
  {
    assert e * C == e * p + e * D + e;
  }

  lemma SubtractOnce(z: nat, p: nat)
    requires p > 0 && z < 2 * p
    ensures Rem(z, p) == if z < p then z else z - p
  {
    hide *;
    MulUnits(p);
    QuoRemUnique(z, p, if z < p then 0 else 1, if z < p then z else z - p);
  }

  /** Bit 192 of a 256-bit difference is the borrow. */
  lemma BorrowBit(C: nat, X: nat, M: nat, z: nat, p: nat)
    requires C > 0 && X >= 2 && X % 2 == 0 && M == Mul(X, C) && z < 2 * p && p < C
    ensures var zp := W.Sub(M, z, p); W.Trunc(2, W.Lshr(zp, C)) == (if z < p then 1 else 0)
    ensures z >= p ==> W.Sub(M, z, p) == z - p
  {
    hide Mul, Rem, Quo;
    MulPos(X, C);
    if z < p {
      MulSub(X, 1, C);
      MulUnits(C);
      QuoRemUnique(M + z - p, C, X - 1, C + z - p);
      OddRest(X - 1);
    }
  }

  lemma OddRest(v: nat)
    ensures Rem(v, 2) == v % 2
  {
    QuoRemAreDivMod(v, 2);
  }

  /** The widths: D == 2^64, C == 2^192, M == 2^256. */
  lemma Widths192()
    ensures Pow(2, 192) == P192 + Pow(2, 64) + 1 && Pow(2, 64) == 0x1_0000_0000_0000_0000
    ensures Pow(2, 128) == Mul(Pow(2, 64), Pow(2, 64)) && Pow(2, 192) == Mul(Pow(2, 64), Pow(2, 128))
    ensures Pow(2, 256) == Mul(Pow(2, 64), Pow(2, 192)) && Pow(2, 128) == 0x1_00000000_00000000_00000000_00000000
  {
    PowerOf64();
    hide Pow;
    PowAdd(2, 64, 64);
    PowAdd(2, 64, 128);
    PowAdd(2, 64, 192);
  }

  lemma PowerOf64()
    ensures Pow(2, 64) == 0x1_0000_0000_0000_0000
  {
    hide Pow, Mul;
    PowSmall(2);
    PowAdd(2, 1, 1);
    PowAdd(2, 2, 2);
    PowAdd(2, 4, 4);
    PowAdd(2, 8, 8);
    PowAdd(2, 16, 16);
    PowAdd(2, 32, 32);
    SquareNumeral(2);
    SquareNumeral(4);
    SquareNumeral(16);
    SquareNumeral(256);
    SquareNumeral(65536);
    SquareNumeral(0x1_0000_0000);
  }

  lemma SquareNumeral(v: nat)
    ensures Mul(v, v) == v * v
  {
  }

  /** The words of the high half as the code rearranges them: [H1:H0:0], H2 and [H1:H0:H2]. */
  lemma Rearranged(D: nat, D2: nat, C: nat, h: nat)
    requires D == Pow(2, 64) && D2 == Mul(D, D) && C == Mul(D, D2) && D > 0 && h < C
    ensures D2 > 0 && C > 0
    ensures var h2 := W.Trunc(D, W.Lshr(h, D2));
      var h10 := W.Shl(C, h, D);
      && Mul(h, D) == Mul(h2, C) + h10
      && h10 + D <= C && h2 == Quo(h, D2) && W.Or(h10, h2) == h10 + h2
  {
    hide Mul, Rem, Quo, Pow, W.Or;
    MulPos(D, D);
    MulPos(D, D2);
    QuoRem(h, D2);
    QuoBound(h, D2, D);
    var h2, low := Quo(h, D2), Rem(h, D2);
    HighWords(D, h, h2, low);
    MulStrict(low, D2, D);
    MulComm(D2, D);
    QuoRemUnique(Mul(h, D), C, h2, Mul(low, D));
    W.OrDisjoint(low, h2, 64);
  }

  /** L + H + [H1:H0:H2] + [H2:0], with the two folds written as one equation. */
  method FoldP192(x: nat) returns (z: nat)
    requires x < Pow(2, 384)
    ensures z < 2 * P192 && Rem(z, P192) == Rem(x, P192)
  {
    hide Mul, Rem, Quo, Pow, W.Or;
    Widths192();
    PowAdd(2, 192, 192);
    var D, D2, C, M := Pow(2, 64), Pow(2, 128), Pow(2, 192), Pow(2, 256);
    QuoRem(x, C);
    QuoBound(x, C, C);
    var L := W.Trunc(C, x);
    var H := W.Lshr(x, C);
    Rearranged(D, D2, C, H);
    var H10 := W.Shl(C, H, D);
    var H2 := W.Trunc(D, W.Lshr(H, D2));
    var H102 := W.Or(H10, H2);
    MulStrict(H2, D, D);
    MulMono(4, D, C);
    FourTimes(C);
    var H20 := W.Shl(M, H2, D);
    var t := W.Add(M, L, H);
    t := W.Add(M, t, H102);
    t := W.Add(M, t, H20);
    FoldAlgebra(D, C, L, H, H2, H10, P192);
    RemAddMultiple(t, H + H2, P192);

    QuoRem(t, C);
    QuoBound(t, C, 4);
    var e := W.Trunc(D, W.Lshr(t, C));
    MulStrict(e, 4, D);
    FourTimes(D);
    var e1 := W.Shl(M, e, D);
    W.OrDisjoint(e, e, 64);
    W.OrComm(e, e1);
    var e2 := W.Or(e, e1);
    SecondFoldAlgebra(D, C, e, W.Trunc(C, t), P192);
    z := W.Add(M, W.Trunc(C, t), e2);
    RemAddMultiple(z, e, P192);
  }

  lemma FourTimes(v: nat)
    ensures Mul(4, v) == 4 * v
  {
  }

  /** The reduction: x % p for every 384-bit x. */
  method ModP192(x: nat) returns (z: nat)
    requires x < Pow(2, 384)
    ensures z == x % P192
  {
    hide Mul, Rem, Quo, Pow;
    Widths192();
    var C, M := Pow(2, 192), Pow(2, 256);
    z := FoldP192(x);
    MulPos(Pow(2, 64), C);
    BorrowBit(C, Pow(2, 64), M, z, P192);
    SubtractOnce(z, P192);
    QuoRemAreDivMod(x, P192);
    var zp := W.Sub(M, z, P192);
    var c := W.Trunc(2, W.Lshr(zp, C));
    z := W.Trunc(C, if c != 0 then z else zp);
  }

  // ----- P-521: D == 2^64, E == 2^521, the prime is E - 1 -----

  /** Word `i` of a number. */
  function Word(D: nat, v: nat, i: nat): nat
    requires D > 0
  {
    W.Trunc(D, W.Lshr(v, Pow(D, i)))
  }

  ghost function WordsOf(D: nat, v: nat, n: nat): seq<nat>
    requires D > 0
  {
    seq(n, i requires 0 <= i < n => Word(D, v, i))
  }

  lemma {:induction false} WordsVal(D: nat, v: nat, n: nat)
    requires D > 0
    ensures Val(D, WordsOf(D, v, n)) + Mul(Quo(v, Pow(D, n)), Pow(D, n)) == v
  {
    hide Mul, Rem, Quo, Pow, Val;
    if n == 0 {
      assert WordsOf(D, v, 0) == [];
      ValEmpty(D);
      PowSmall(D);
      QuoRem(v, 1);
    } else {
      var P := Pow(D, n - 1);
      WordsVal(D, v, n - 1);
      assert WordsOf(D, v, n) == WordsOf(D, v, n - 1) + [Word(D, v, n - 1)];
      ValSnoc(D, WordsOf(D, v, n - 1), Word(D, v, n - 1));
      PowStep(D, n - 1);
      QuoRem(v, P);
      QuoRem(Quo(v, P), D);
      QuoQuo(v, P, D);
      var q := Quo(Quo(v, P), D);
      MulAdd(Mul(q, D), Rem(Quo(v, P), D), P);
      MulAssoc(q, D, P);
    }
  }

  lemma {:induction false} OnesVal(D: nat, s: seq<nat>)
    requires D > 0 && forall i :: 0 <= i < |s| ==> s[i] == D - 1
    ensures Val(D, s) + 1 == Pow(D, |s|)
  {
    hide Mul, Pow, Val;
    if |s| == 0 {
      assert s == [];
      ValEmpty(D);
      PowSmall(D);
    } else {
      var n := |s| - 1;
      OnesVal(D, s[..n]);
      assert s == s[..n] + [D - 1];
      ValSnoc(D, s[..n], D - 1);
      PowStep(D, n);
      MulSub(D, 1, Pow(D, n));
      MulUnits(Pow(D, n));
    }
  }

  /** All words set, the last one up to T, says exactly that the number is T * D^n - 1. */
  lemma AllBitsSet(D: nat, v: nat, n: nat, T: nat)
    requires D > 0 && 0 < T <= D && v < Mul(T, Pow(D, n))
    ensures v + 1 == Mul(T, Pow(D, n)) <==> Word(D, v, n) == T - 1 && forall i :: 0 <= i < n ==> Word(D, v, i) == D - 1
  {
    hide Mul, Rem, Quo, Pow, Val;
    var P := Pow(D, n);
    WordsVal(D, v, n);
    QuoRem(v, P);
    QuoBound(v, P, T);
    var ws := WordsOf(D, v, n);
    var ones := seq(n, i => D - 1);
    OnesVal(D, ones);
    ValBound(D, ws);
    EuclidUnique(P, Quo(v, P), Val(D, ws), Quo(v, P), Rem(v, P));
    MulSub(T, 1, P);
    MulUnits(P);
    if v + 1 == Mul(T, P) {
      EuclidUnique(P, Quo(v, P), Val(D, ws), T - 1, P - 1);
      ValInjective(D, ws, ones);
      forall i | 0 <= i < n ensures Word(D, v, i) == D - 1 {
        assert ws[i] == ones[i];
      }
    }
    if Word(D, v, n) == T - 1 && forall i :: 0 <= i < n ==> Word(D, v, i) == D - 1 {
      assert ws == ones;
    }
  }

  lemma Widths521()
    ensures Pow(2, 521) == Mul(Pow(2, 9), Pow(Pow(2, 64), 8)) && Pow(2, 64) == Mul(Pow(2, 55), Pow(2, 9))
    ensures Pow(2, 576) == Mul(Pow(2, 55), Pow(2, 521)) && Pow(2, 1042) == Mul(Pow(2, 521), Pow(2, 521))
    ensures Pow(2, 576) == Pow(Pow(2, 64), 9) && Pow(2, 9) == 512 && Pow(2, 55) >= 2
    ensures Pow(2, 9) < Pow(2, 64)
  {
    hide Pow, Mul;
    PowerOf64();
    PowAdd(2, 9, 512);
    PowAdd(2, 55, 9);
    PowAdd(2, 55, 521);
    PowAdd(2, 521, 521);
    PowPow(2, 64, 8);
    PowPow(2, 64, 9);
    Eight64();
    NinthPower();
    PowMono(2, 1, 55);
    PowSmall(2);
  }

  lemma Eight64()
    ensures Mul(64, 8) == 512 && Mul(64, 9) == 576
  {
  }

  lemma NinthPower()
    ensures Pow(2, 9) == 512
  {
    hide Pow, Mul;
    PowSmall(2);
    PowAdd(2, 1, 1);
    PowAdd(2, 2, 2);
    PowAdd(2, 4, 4);
    PowStep(2, 8);
    SquareNumeral(2);
    SquareNumeral(4);
    SquareNumeral(16);
    Twice(256);
  }

  lemma Twice(v: nat)
    ensures Mul(2, v) == 2 * v
  {
  }

  /** The test that the emitted code makes on the words of z0: are all 521 bits set? */
  method AllOnes521(z0: nat) returns (c: bool)
    requires z0 < Pow(2, 521)
    ensures c <==> z0 == Pow(2, 521) - 1
  {
    hide Mul, Rem, Quo, Pow, W.Or, W.And;
    Widths521();
    var D := Pow(2, 64);
    AllBitsSet(D, z0, 8, 512);
    QuoBound(z0, Pow(D, 8), 512);
    var mask := D - 512;
    var top := Word(D, z0, 8);
    MulSub(Pow(2, 55), 1, 512);
    MulUnits(512);
    W.OrDisjoint(Pow(2, 55) - 1, top, 9);
    W.OrComm(top, mask);
    var m := W.Or(top, mask);
    for i := 0 to 8
      invariant m < D
      invariant m == D - 1 <==> top == 511 && forall j :: 0 <= j < i ==> Word(D, z0, j) == D - 1
    {
      var s := Word(D, z0, i);
      W.AndAllOnes(D, m, s);
      W.AndBound(m, s);
      m := W.And(m, s);
    }
    c := m == D - 1;
  }

  /** Adding the two halves and the bit that comes out at the top. */
  lemma FoldP521(E: nat, x: nat, l: nat, h: nat)
    requires E >= 2 && x == l + Mul(h, E) && l < E && h < E
    ensures var t := l + h;
      var z := Rem(t + Quo(t, E) % 2, E);
      Quo(t, E) < 2 && Rem(x, E - 1) == (if z == E - 1 then 0 else z)
  {
    hide Mul, Rem, Quo;
    var p, t := E - 1, l + h;
    MulSub(E, 1, h);
    MulUnits(h);
    MulComm(h, E);
    MulComm(h, p);
    RemAddMultiple(t, h, p);
    MulUnits(E);
    QuoRemUnique(t, E, if t < E then 0 else 1, if t < E then t else t - E);
    var z := if t < E then t else t - p;
    MulUnits(p);
    QuoRemUnique(t + Quo(t, E) % 2, E, if t < E then 0 else 1, z);
    if t >= E {
      RemAddMultiple(z, 1, p);
    }
    SubtractOnce(z, p);
  }

  /** The reduction, stored as nine words: x % p for every x below 2^1042. */
  method ModP521(x: nat, y: array<nat>)
    requires x < Pow(2, 1042) && y.Length >= 9
    modifies y
    ensures Pow(2, 521) > 1 && Val(Pow(2, 64), y[0..9]) == x % (Pow(2, 521) - 1)
    ensures IsLimbs(Pow(2, 64), y[0..9]) && forall i :: 9 <= i < y.Length ==> y[i] == old(y[i])
  {
    hide Mul, Rem, Quo, Pow, Val, W.Or, W.And;
    Widths521();
    var D, E, R := Pow(2, 64), Pow(2, 521), Pow(2, 576);
    WideEnough(E, R);
    QuoRem(x, E);
    QuoBound(x, E, E);
    var L := W.Trunc(E, x);
    var H := W.Trunc(R, W.Lshr(x, E));
    FoldP521(E, x, L, H);
    QuoRemAreDivMod(x, E - 1);
    var t := W.Add(R, L, H);
    W.AndOne(W.Lshr(t, E));
    var t0 := W.And(W.Lshr(t, E), 1);
    t := W.Add(R, t, t0);
    var z0 := W.Trunc(E, t);
    var c := AllOnes521(z0);
    if c {
      for i := 0 to 9
        invariant forall j :: 0 <= j < i ==> y[j] == 0
        invariant forall j :: i <= j < y.Length ==> y[j] == old(y[j])
      {
        y[i] := 0;
      }
      ValZeros(D, y[0..9]);
    } else {
      for i := 0 to 9
        invariant forall j :: 0 <= j < i ==> y[j] == Word(D, z0, j)
        invariant forall j :: i <= j < y.Length ==> y[j] == old(y[j])
      {
        y[i] := Word(D, z0, i);
      }
      assert y[0..9] == WordsOf(D, z0, 9);
      WordsVal(D, z0, 9);
      MulUnits(R);
    }
  }

  lemma WideEnough(E: nat, R: nat)
    requires E == Pow(2, 521) && R == Mul(Pow(2, 55), E) && Pow(2, 55) >= 2
    ensures 2 <= E && 2 * E <= R
  {
    hide Mul, Pow;
    MulMono(2, Pow(2, 55), E);
    Twice(E);
    PowMono(2, 1, 521);
    PowSmall(2);
  }
}
