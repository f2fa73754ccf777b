/**
The multiplication routines emitted by `mcl/src/gen.cpp` (`generic_fpDbl_mul`) and
`mcl/src/gen_bint.cpp` (`gen_mul_inner`): row by row for small or odd sizes, and by halves with split
carries (Karatsuba) for even sizes above 8. The value of an emitted operand is a natural below its
declared width; additions wrap at that width.
*/
module Karatsuba {
  import opened Limbs
  import opened Bint
  import W = Words

  // ----- loads and stores of several words -----

  method LoadN(B: nat, a: array<nat>, o: nat, n: nat) returns (v: nat)
    requires B > 0 && Buf(B, a, o, n)
    ensures v == Val(B, a[o..o + n]) && v < Pow(B, n)
  {
    hide Mul, Pow, Val;
    ghost var s := a[o..o + n];
    v := 0;
    var p := 1;
    ValEmpty(B);
    PowSmall(B);
    for i := 0 to n
      invariant v == Val(B, s[..i]) && p == Pow(B, i)
    {
      assert s[..i + 1] == s[..i] + [a[o + i]];
      ValSnoc(B, s[..i], a[o + i]);
      PowStep(B, i);
      v := v + Mul(a[o + i], p);
      p := Mul(B, p);
    }
    assert s[..n] == s;
    ValBound(B, s);
  }

  method StoreN(B: nat, v: nat, a: array<nat>, o: nat, n: nat)
    requires B > 0 && v < Pow(B, n) && o + n <= a.Length
    modifies a
    ensures Buf(B, a, o, n) && Val(B, a[o..o + n]) == v && OnlyIn(a, old(a[..]), o, o + n)
  {
    hide Mul, Pow, Val, Quo, Rem, ToLimbs;
    var s := ToLimbs(B, n, v);
    ToLimbsVal(B, n, v);
    for i := 0 to n
      invariant forall j :: 0 <= j < i ==> a[o + j] == s[j]
      invariant OnlyIn(a, old(a[..]), o, o + i)
    {
      a[o + i] := s[i];
    }
    assert a[o..o + n] == s;
  }

  // ----- Karatsuba: the two halves and the carries of their sums -----

  /** The product of two sums below 2 * S from the product of their low parts and the carries. */
  lemma CarryAlgebra(S: nat, t1: nat, t2: nat, l1: nat, l2: nat, k1: nat, k2: nat)
    requires t1 == l1 + Mul(k1, S) && t2 == l2 + Mul(k2, S) && k1 < 2 && k2 < 2
    ensures Mul(t1, t2) == Mul(l1, l2) + Mul(if k1 == 1 && k2 == 1 then 1 else 0, Mul(S, S))
                           + Mul(if k1 == 1 then l2 else 0, S) + Mul(if k2 == 1 then l1 else 0, S)
  {
    assert (l1 + S) * l2 == l1 * l2 + l2 * S;
    assert l1 * (l2 + S) == l1 * l2 + l1 * S;
    assert (l1 + S) * (l2 + S) == l1 * l2 + l2 * S + l1 * S + S * S;
  }

  lemma HalvesAlgebra(S: nat, a: nat, b: nat, c: nat, d: nat)
    ensures Mul(a + b, c + d) == Mul(a, c) + Mul(b, d) + Mul(a, d) + Mul(b, c)
    ensures Mul(b + Mul(S, a), d + Mul(S, c))
         == Mul(b, d) + Mul(S, Mul(a, d) + Mul(b, c)) + Mul(Mul(S, S), Mul(a, c))
  {
    assert (a + b) * (c + d) == a * c + b * d + a * d + b * c;
    assert (b + S * a) * (d + S * c) == b * d + S * (a * d + b * c) + (S * S) * (a * c);
  }

  /** A sum of two halves fits one more word. */
  lemma SumFits(S: nat, B: nat, a: nat, b: nat)
    requires a < S && b < S && B >= 4
    ensures a + b < Mul(S, B)
  {
    hide Mul;
    MulMono(4, B, S);
    MulComm(B, S);
    FourTimes(S);
  }

  lemma FourTimes(v: nat)
    ensures Mul(4, v) == v + v + v + v
  {
  }

  /** (a + b)(c + d) fits the width `bit + unit`. */
  lemma MiddleFits(S: nat, B: nat, t1: nat, t2: nat)
    requires t1 < S + S && t2 < S + S && B >= 4
    ensures Mul(t1, t2) < Mul(Mul(S, S), B)
  {
    hide Mul;
    MulAdd(S, S, S);
    MulAdd(S, S, S + S);
    MulMono(4, B, Mul(S, S));
    MulComm(B, Mul(S, S));
    FourTimes(Mul(S, S));
    MulLe(t1, t2, S + S, S + S);
    if Mul(t1, t2) == Mul(S + S, S + S) {
      MulLe(t1, t2, S + S - 1, S + S - 1);
      MulStrict(S + S - 1, S + S, S + S);
      MulMono(S + S - 1, S + S, S + S - 1);
    }
  }

  lemma WidthOfHalf(w: nat, N: nat, H: nat)
    requires N == H + H
    ensures Pow(Pow(2, w), H) == Pow(2, Mul(w, H))
    ensures Pow(Pow(2, w), N) == Pow(2, Mul(w, N)) && Pow(Pow(2, w), N) == Mul(Pow(Pow(2, w), H), Pow(Pow(2, w), H))
  {
    hide Pow, Mul;
    PowPow(2, w, H);
    PowPow(2, w, N);
    PowAdd(Pow(2, w), H, H);
  }

  /** The 0/1 carries joined by `and`. */
  lemma AndOfBits(k1: nat, k2: nat)
    requires k1 < 2 && k2 < 2
    ensures W.And(k1, k2) == if k1 == 1 && k2 == 1 then 1 else 0
  {
    W.AndBound(k1, k2);
    W.AndSelf(1);
  }

  /**
  The instructions between the three half-size products: ad + bc out of (a + b)(c + d), where the
  low parts l1 and l2 of the two sums have been multiplied to `low`.
  */
  method MiddleTerm(w: nat, N: nat, low: nat, t1: nat, t2: nat, bd: nat, ac: nat) returns (t: nat)
    requires w >= 2 && N % 2 == 0
    requires t1 < 2 * Pow(Pow(2, w), N / 2) && t2 < 2 * Pow(Pow(2, w), N / 2)
    requires low == Mul(W.Trunc(Pow(Pow(2, w), N / 2), t1), W.Trunc(Pow(Pow(2, w), N / 2), t2))
    requires bd + ac <= Mul(t1, t2) && bd < Pow(Pow(2, w), N) && ac < Pow(Pow(2, w), N)
    ensures t == Mul(t1, t2) - bd - ac
  {
    hide Mul, Pow, Quo, Rem, W.Or, W.And;
    var H := N / 2;
    var B, S := Pow(2, w), Pow(Pow(2, w), H);
    PowMono(2, 2, w);
    PowStep(2, 1);
    PowSmall(2);
    FourIsTwoTwos();
    WidthOfHalf(w, N, H);
    var S2 := Mul(S, S);
    var M := Mul(S2, B);
    MulPos(S2, B);
    SplitBelowTwo(S, t1);
    SplitBelowTwo(S, t2);
    var l1, l2 := W.Trunc(S, t1), W.Trunc(S, t2);
    var k1, k2 := W.Trunc(2, W.Lshr(t1, S)), W.Trunc(2, W.Lshr(t2, S));
    CarryAlgebra(S, t1, t2, l1, l2, k1, k2);
    MiddleFits(S, B, t1, t2);
    AndOfBits(k1, k2);
    var c0 := W.And(k1, k2);
    var c1 := if k1 != 0 then l2 else 0;
    var c2 := if k2 != 0 then l1 else 0;
    t := low;
    MulStrict(l1, S, S);
    MulMono(l2, S, l1);
    W.OrDisjoint(c0, low, Mul(w, N));
    W.OrComm(low, W.Shl(M, c0, S2));
    t := W.Or(t, W.Shl(M, c0, S2));
    t := W.Add(M, t, W.Shl(M, c1, S));
    t := W.Add(M, t, W.Shl(M, c2, S));
    t := W.Sub(M, t, bd);
    t := W.Sub(M, t, ac);
  }

  lemma FourIsTwoTwos()
    ensures Mul(2, 2) == 4
  {
  }

  lemma SplitBelowTwo(S: nat, t: nat)
    requires S > 0 && t < S + S
    ensures W.Trunc(2, W.Lshr(t, S)) < 2 && t == W.Trunc(S, t) + Mul(W.Trunc(2, W.Lshr(t, S)), S)
  {
    hide Mul, Quo, Rem;
    MulUnits(S);
    QuoRemUnique(t, S, if t < S then 0 else 1, if t < S then t else t - S);
  }

  // ----- multiplication -----

  /** Adding the row x * d to what is left of the rows above fits one word more than x. */
  lemma RowFits(B: nat, P: nat, X: nat, d: nat, t: nat)
    requires B > 0 && X < P && d < B && t < P
    ensures t + Mul(X, d) < Mul(B, P)
  {
    hide Mul;
    MulMono(d, B - 1, X);
    MulMono(X, P - 1, B - 1);
    MulSub(B, 1, P - 1);
    MulSub(P, 1, B);
    MulUnits(P - 1);
    MulUnits(B);
    MulComm(X, d);
    MulComm(B - 1, X);
    MulComm(P - 1, B - 1);
    MulComm(B, P);
    MulComm(P - 1, B);
  }

  lemma NextRow(B: nat, p: nat, lo: nat, t: nat, X: nat, yv: nat, d: nat, u: nat, q: nat, r: nat)
    requires lo + Mul(t, p) == Mul(X, yv) && u == t + Mul(X, d) && u == Mul(q, B) + r
    ensures lo + Mul(u, p) == Mul(X, yv + Mul(d, p))
    ensures lo + Mul(r, p) + Mul(q, Mul(B, p)) == Mul(X, yv + Mul(d, p))
  {
    calc {
      lo + u * p;
      lo + t * p + X * (d * p);
      X * yv + X * (d * p);
      X * (yv + d * p);
    }
    assert u * p == r * p + q * (B * p);
  }

  /** The last row is stored whole, as N + 1 words. */
  method LastRow(B: nat, N: nat, z: array<nat>, zo: nat, t: nat, X: nat, ghost yv: nat, d: nat)
    requires B >= 2 && N >= 1 && Buf(B, z, zo, N - 1) && zo + 2 * N <= z.Length
    requires X < Pow(B, N) && t < Pow(B, N) && d < B
    requires Val(B, z[zo..zo + N - 1]) + Mul(t, Pow(B, N - 1)) == Mul(X, yv)
    modifies z
    ensures Buf(B, z, zo, 2 * N) && OnlyIn(z, old(z[..]), zo, zo + 2 * N)
    ensures Val(B, z[zo..zo + 2 * N]) == Mul(X, yv + Mul(d, Pow(B, N - 1)))
  {
    hide Mul, Pow, Val, Quo, Rem;
    ghost var lo := z[zo..zo + N - 1];
    PowStep(B, N);
    RowFits(B, Pow(B, N), X, d, t);
    var u := W.Add(Pow(B, N + 1), t, Mul(X, d));
    QuoRem(u, B);
    NextRow(B, Pow(B, N - 1), Val(B, lo), t, X, yv, d, u, Quo(u, B), Rem(u, B));
    StoreN(B, u, z, zo + N - 1, N + 1);
    MulComm(u, Pow(B, N - 1));
    assert z[zo..zo + N - 1] == lo;
    assert z[zo..zo + 2 * N] == lo + z[zo + N - 1..zo + 2 * N];
    ValConcat(B, lo, z[zo + N - 1..zo + 2 * N]);
  }

  /** Row by row: after row i the low i + 1 words of z are final and t holds the rest. */
  method MulByRows(B: nat, N: nat, z: array<nat>, zo: nat, x: array<nat>, xo: nat, y: array<nat>, yo: nat)
    requires B >= 2 && N >= 1 && Buf(B, x, xo, N) && Buf(B, y, yo, N) && zo + 2 * N <= z.Length
    requires z != x && z != y
    modifies z
    ensures Buf(B, z, zo, 2 * N) && OnlyIn(z, old(z[..]), zo, zo + 2 * N)
    ensures Val(B, z[zo..zo + 2 * N]) == Mul(Val(B, x[xo..xo + N]), Val(B, y[yo..yo + N]))
  {
    hide Mul, Pow, Val, Quo, Rem;
    ghost var ys := y[yo..yo + N];
    var P := Pow(B, N);
    var M := Pow(B, N + 1);
    PowStep(B, N);
    var X := LoadN(B, x, xo, N);
    var t := 0;
    PowSmall(B);
    ValEmpty(B);
    MulUnits(X);
    MulUnits(Pow(B, 0));
    assert ys[..0] == [] && z[zo..zo] == [] && IsLimbs(B, ys);
    for i := 0 to N - 1
      invariant t < P && IsLimbs(B, z[zo..zo + i]) && OnlyIn(z, old(z[..]), zo, zo + i)
      invariant Val(B, z[zo..zo + i]) + Mul(t, Pow(B, i)) == Mul(X, Val(B, ys[..i]))
    {
      ghost var lo := z[zo..zo + i];
      var d := y[yo + i];
      assert d == ys[i];
      RowFits(B, P, X, d, t);
      var u := W.Add(M, t, Mul(X, d));
      z[zo + i] := W.Trunc(B, u);
      ghost var yv := Val(B, ys[..i]);
      QuoRem(u, B);
      MulComm(B, P);
      QuoBound(u, B, P);
      NextRow(B, Pow(B, i), Val(B, lo), t, X, yv, d, u, Quo(u, B), Rem(u, B));
      t := W.Lshr(u, B);
      PowStep(B, i);
      assert z[zo..zo + i + 1] == lo + [z[zo + i]] && ys[..i + 1] == ys[..i] + [d];
      ValSnoc(B, lo, z[zo + i]);
      ValSnoc(B, ys[..i], d);
    }
    var d := y[yo + N - 1];
    assert d == ys[N - 1];
    LastRow(B, N, z, zo, t, X, Val(B, ys[..N - 1]), d);
    assert ys == ys[..N - 1] + [d];
    ValSnoc(B, ys[..N - 1], d);
  }

  lemma WholeProductFits(S: nat, q: nat, low: nat, X: nat, Y: nat)
    requires X < Mul(S, S) && Y < Mul(S, S) && Mul(X, Y) == low + Mul(S, q)
    ensures q < Mul(S, Mul(S, S))
  {
    hide Mul;
    MulLe(X, Y, Mul(S, S), Mul(S, S));
    MulAssoc(S, S, Mul(S, S));
    if Y > 0 {
      MulStrict(X, Mul(S, S), Y);
      MulMono(Y, Mul(S, S), Mul(S, S));
    } else {
      MulUnits(X);
      MulPos(Mul(S, S), Mul(S, S));
    }
    MulComm(S, q);
    MulComm(S, Mul(S, Mul(S, S)));
    MulCancelLt(q, Mul(S, Mul(S, S)), S);
  }

  /** The middle term goes in at word H; the sum still fits 3H words. */
  lemma PlaceMiddle(S: nat, a: nat, b: nat, c: nat, d: nat, low: nat, hi: nat, X: nat, Y: nat)
    requires X == b + Mul(S, a) && Y == d + Mul(S, c) && a < S && b < S && c < S && d < S
    requires low + Mul(S, hi) == Mul(b, d) + Mul(Mul(S, S), Mul(a, c))
    ensures Mul(a + b, c + d) >= Mul(b, d) + Mul(a, c)
    ensures var mid := Mul(a + b, c + d) - Mul(b, d) - Mul(a, c);
      mid + hi < Mul(S, Mul(S, S)) && low + Mul(S, mid + hi) == Mul(X, Y)
  {
    hide Mul;
    HalvesAlgebra(S, a, b, c, d);
    var mid := Mul(a, d) + Mul(b, c);
    MulAdd(mid, hi, S);
    HalfPair(S, a, b);
    HalfPair(S, c, d);
    WholeProductFits(S, mid + hi, low, X, Y);
  }

  lemma HalfPair(S: nat, a: nat, b: nat)
    requires a < S && b < S
    ensures b + Mul(S, a) < Mul(S, S)
  {
    hide Mul;
    MulStrict(a, S, S);
    MulComm(S, a);
  }

  /** A buffer of 2N words seen as its low H words and the N + H words above them. */
  lemma LowAndRest(B: nat, z: array<nat>, zo: nat, H: nat, n: nat)
    requires Buf(B, z, zo, H + n)
    ensures Buf(B, z, zo, H) && Buf(B, z, zo + H, n)
    ensures Val(B, z[zo..zo + (H + n)]) == Val(B, z[zo..zo + H]) + Mul(Pow(B, H), Val(B, z[zo + H..zo + H + n]))
  {
    hide Mul, Pow, Val;
    assert z[zo..zo + (H + n)] == z[zo..zo + H] + z[zo + H..zo + H + n];
    LimbsSplit(B, z[zo..zo + H], z[zo + H..zo + H + n]);
    ValConcat(B, z[zo..zo + H], z[zo + H..zo + H + n]);
  }

  /** The last step of both Karatsuba routines: add the middle term to the words from H on. */
  method AddAtWord(B: nat, H: nat, n: nat, z: array<nat>, zo: nat, mid: nat)
    requires B > 0 && Buf(B, z, zo, H + n) && mid + Val(B, z[zo + H..zo + H + n]) < Pow(B, n)
    modifies z
    ensures Buf(B, z, zo, H + n) && OnlyIn(z, old(z[..]), zo, zo + (H + n))
    ensures Val(B, z[zo..zo + (H + n)])
         == old(Val(B, z[zo..zo + H])) + Mul(Pow(B, H), mid + old(Val(B, z[zo + H..zo + H + n])))
  {
    hide Mul, Pow, Val;
    ghost var lo := z[zo..zo + H];
    LowAndRest(B, z, zo, H, n);
    assert IsLimbs(B, lo);
    var t := LoadN(B, z, zo + H, n);
    t := W.Add(Pow(B, n), mid, t);
    StoreN(B, t, z, zo + H, n);
    assert z[zo..zo + H] == lo;
    assert z[zo..zo + (H + n)] == lo + z[zo + H..zo + H + n];
    ValConcat(B, lo, z[zo + H..zo + H + n]);
  }

  /** ad + bc between bd and ac. */
  method AddMiddle(w: nat, N: nat, z: array<nat>, zo: nat, low: nat, t1: nat, t2: nat, bd: nat, ac: nat,
                   ghost a: nat, ghost b: nat, ghost c: nat, ghost d: nat)
    requires w >= 2 && N > 8 && N % 2 == 0 && Buf(Pow(2, w), z, zo, 2 * N)
    requires var S := Pow(Pow(2, w), N / 2); a < S && b < S && c < S && d < S
    requires t1 == a + b && t2 == c + d && bd == Mul(b, d) && ac == Mul(a, c)
    requires low == Mul(W.Trunc(Pow(Pow(2, w), N / 2), t1), W.Trunc(Pow(Pow(2, w), N / 2), t2))
    requires Val(Pow(2, w), z[zo..zo + 2 * N]) == bd + Mul(Pow(Pow(2, w), N), ac)
    modifies z
    ensures Buf(Pow(2, w), z, zo, 2 * N) && OnlyIn(z, old(z[..]), zo, zo + 2 * N)
    ensures Val(Pow(2, w), z[zo..zo + 2 * N])
         == Mul(b + Mul(Pow(Pow(2, w), N / 2), a), d + Mul(Pow(Pow(2, w), N / 2), c))
  {
    hide Mul, Pow, Val, Quo, Rem, IsLimbs;
    var H := N / 2;
    var B, S := Pow(2, w), Pow(Pow(2, w), H);
    WidthOfHalf(w, N, H);
    PowAdd(B, H, N);
    PartProduct(S, b, d);
    PartProduct(S, a, c);
    assert 2 * N == H + (N + H);
    LowAndRest(B, z, zo, H, N + H);
    ghost var lo, hi := Val(B, z[zo..zo + H]), Val(B, z[zo + H..zo + H + (N + H)]);
    PlaceMiddle(S, a, b, c, d, lo, hi, b + Mul(S, a), d + Mul(S, c));
    var t := MiddleTerm(w, N, low, t1, t2, bd, ac);
    AddAtWord(B, H, N + H, z, zo, t);
  }

  lemma PartProduct(S: nat, a: nat, c: nat)
    requires a < S && c < S
    ensures Mul(a, c) < Mul(S, S)
  {
    hide Mul;
    MulMono(c, S, a);
    MulStrict(a, S, S);
  }

  /** bd into the low half of z and ac into its high half. */
  method OuterProducts(w: nat, H: nat, z: array<nat>, zo: nat, x: array<nat>, xo: nat, y: array<nat>, yo: nat)
    requires w >= 2 && H >= 1
    requires Buf(Pow(2, w), x, xo, H) && Buf(Pow(2, w), x, xo + H, H)
    requires Buf(Pow(2, w), y, yo, H) && Buf(Pow(2, w), y, yo + H, H)
    requires z != x && z != y && zo + 4 * H <= z.Length
    modifies z
    ensures Buf(Pow(2, w), z, zo, 4 * H) && OnlyIn(z, old(z[..]), zo, zo + 4 * H)
    ensures Buf(Pow(2, w), z, zo, 2 * H) && Buf(Pow(2, w), z, zo + 2 * H, 2 * H)
    ensures Val(Pow(2, w), z[zo..zo + 2 * H])
         == Mul(Val(Pow(2, w), x[xo..xo + H]), Val(Pow(2, w), y[yo..yo + H]))
    ensures Val(Pow(2, w), z[zo + 2 * H..zo + 2 * H + 2 * H])
         == Mul(Val(Pow(2, w), x[xo + H..xo + H + H]), Val(Pow(2, w), y[yo + H..yo + H + H]))
    decreases H, 2
  {
    hide Mul, Pow, Val;
    MulPre(w, H, z, zo, x, xo, y, yo);
    ghost var lo := z[zo..zo + 2 * H];
    MulPre(w, H, z, zo + 2 * H, x, xo + H, y, yo + H);
    assert z[zo..zo + 2 * H] == lo;
    assert z[zo..zo + 4 * H] == lo + z[zo + 2 * H..zo + 2 * H + 2 * H];
  }

  /** The product of the low halves of the two sums, computed in scratch buffers. */
  method SumProduct(w: nat, H: nat, l1: nat, l2: nat) returns (low: nat)
    requires w >= 2 && H >= 1 && l1 < Pow(Pow(2, w), H) && l2 < Pow(Pow(2, w), H)
    ensures low == Mul(l1, l2)
    decreases H, 2
  {
    hide Mul, Pow, Val;
    var B := Pow(2, w);
    var buf, buf1, buf2 := new nat[2 * H], new nat[H], new nat[H];
    StoreN(B, l1, buf1, 0, H);
    StoreN(B, l2, buf2, 0, H);
    MulPre(w, H, buf, 0, buf1, 0, buf2, 0);
    low := LoadN(B, buf, 0, 2 * H);
  }

  /** An operand as its two halves. */
  lemma Halves(B: nat, x: array<nat>, xo: nat, H: nat)
    requires Buf(B, x, xo, H + H)
    ensures Buf(B, x, xo, H) && Buf(B, x, xo + H, H)
    ensures Val(B, x[xo..xo + (H + H)]) == Val(B, x[xo..xo + H]) + Mul(Pow(B, H), Val(B, x[xo + H..xo + H + H]))
  {
    hide Mul, Pow, Val;
    assert x[xo..xo + (H + H)] == x[xo..xo + H] + x[xo + H..xo + H + H];
    LimbsSplit(B, x[xo..xo + H], x[xo + H..xo + H + H]);
    ValConcat(B, x[xo..xo + H], x[xo + H..xo + H + H]);
  }

  /** Karatsuba: three products of half the size. */
  method MulByHalves(w: nat, N: nat, z: array<nat>, zo: nat, x: array<nat>, xo: nat, y: array<nat>, yo: nat)
    requires w >= 2 && N > 8 && N % 2 == 0
    requires Buf(Pow(2, w), x, xo, N) && Buf(Pow(2, w), y, yo, N) && zo + 2 * N <= z.Length
    requires z != x && z != y
    modifies z
    ensures Buf(Pow(2, w), z, zo, 2 * N) && OnlyIn(z, old(z[..]), zo, zo + 2 * N)
    ensures Val(Pow(2, w), z[zo..zo + 2 * N]) == Mul(Val(Pow(2, w), x[xo..xo + N]), Val(Pow(2, w), y[yo..yo + N]))
    decreases N, 0
  {
    hide Mul, Pow, Val, Quo, Rem, IsLimbs;
    var H := N / 2;
    var B, S := Pow(2, w), Pow(Pow(2, w), H);
    RadixAtLeastFour(w);
    assert N == H + H;
    Halves(B, x, xo, H);
    Halves(B, y, yo, H);
    OuterProducts(w, H, z, zo, x, xo, y, yo);
    var a := LoadN(B, x, xo + H, H);
    var b := LoadN(B, x, xo, H);
    var c := LoadN(B, y, yo + H, H);
    var d := LoadN(B, y, yo, H);
    SumFits(S, B, a, b);
    SumFits(S, B, c, d);
    var t1 := W.Add(Mul(S, B), a, b);
    var t2 := W.Add(Mul(S, B), c, d);
    var low := SumProduct(w, H, W.Trunc(S, t1), W.Trunc(S, t2));
    var bd := LoadN(B, z, zo, N);
    var ac := LoadN(B, z, zo + N, N);
    Halves(B, z, zo, N);
    AddMiddle(w, N, z, zo, low, t1, t2, bd, ac, a, b, c, d);
  }

  lemma RadixAtLeastFour(w: nat)
    requires w >= 2
    ensures Pow(2, w) >= 4
  {
    PowMono(2, 2, w);
    PowStep(2, 1);
    PowSmall(2);
  }

  /** z[2N] = x[N] * y[N], with the branches of `generic_fpDbl_mul` and `gen_mul_inner`. */
  method MulPre(w: nat, N: nat, z: array<nat>, zo: nat, x: array<nat>, xo: nat, y: array<nat>, yo: nat)
    requires w >= 2 && N >= 1
    requires Buf(Pow(2, w), x, xo, N) && Buf(Pow(2, w), y, yo, N) && zo + 2 * N <= z.Length
    requires z != x && z != y
    modifies z
    ensures Buf(Pow(2, w), z, zo, 2 * N) && OnlyIn(z, old(z[..]), zo, zo + 2 * N)
    ensures Val(Pow(2, w), z[zo..zo + 2 * N]) == Mul(Val(Pow(2, w), x[xo..xo + N]), Val(Pow(2, w), y[yo..yo + N]))
    decreases N, 1
  {
    hide Mul, Pow, Val;
    var B := Pow(2, w);
    if N == 1 {
      PowSmall(B);
      PowStep(B, 1);
      ValOne(B, x[xo]);
      ValOne(B, y[yo]);
      assert x[xo..xo + 1] == [x[xo]] && y[yo..yo + 1] == [y[yo]];
      PartProduct(B, x[xo], y[yo]);
      StoreN(B, Mul(x[xo], y[yo]), z, zo, 2);
    } else if N > 8 && N % 2 == 0 {
      MulByHalves(w, N, z, zo, x, xo, y, yo);
    } else {
      PowMono(2, 1, w);
      PowSmall(2);
      MulByRows(B, N, z, zo, x, xo, y, yo);
    }
  }
}
