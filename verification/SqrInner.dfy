/**
The squaring routine emitted by `mcl/src/gen_bint.cpp` (`gen_sqr_inner`): Karatsuba for even sizes
above 8, otherwise a column accumulator that grows by one diagonal of products at a time.
*/
module SqrInner {
  import opened Limbs
  import opened Bint
  import opened Squares
  import opened Karatsuba
  import W = Words

  // ----- one line: the products at distance d, two words apart -----

  ghost function Line(B: nat, xs: seq<nat>, d: nat, n: nat): nat
    requires d + n <= |xs|
  {
    if n == 0 then 0 else Line(B, xs, d, n - 1) + Mul(Mul(xs[n - 1], xs[d + n - 1]), Pow(B, 2 * (n - 1)))
  }

  lemma TermShift(x: nat, y: nat, p: nat, q: nat, l: nat)
    ensures Mul(p, l + Mul(Mul(x, y), q)) == Mul(p, l) + Mul(Mul(y, x), Mul(p, q))
  {
    assert p * (l + (x * y) * q) == p * l + (y * x) * (p * q);
  }

  /** A line is the diagonal of the square at its distance, shifted down to word 0. */
  lemma {:induction false} LineIsDiagonal(B: nat, xs: seq<nat>, d: nat, n: nat)
    requires d + n <= |xs|
    ensures Mul(Pow(B, d), Line(B, xs, d, n)) == Diagonal(B, xs, d, d + n)
  {
    hide Mul, Pow;
    if n == 0 {
      MulUnits(Pow(B, d));
    } else {
      LineIsDiagonal(B, xs, d, n - 1);
      PowAdd(B, d, 2 * (n - 1));
      TermShift(xs[n - 1], xs[d + n - 1], Pow(B, d), Pow(B, 2 * (n - 1)), Line(B, xs, d, n - 1));
    }
  }

  lemma LineBoundAlgebra(B: nat, P: nat, L: nat, xy: nat)
    requires B >= 2 && Mul(B + 1, L) + (B - 1) <= Mul(B - 1, P) && xy <= Mul(B - 1, B - 1)
    ensures Mul(B + 1, L + Mul(xy, P)) + (B - 1) <= Mul(B - 1, Mul(B, Mul(B, P)))
  {
    hide Mul;
    MulMono(xy, Mul(B - 1, B - 1), P);
    MulMono(Mul(xy, P), Mul(Mul(B - 1, B - 1), P), B + 1);
    MulAdd(L, Mul(xy, P), B + 1);
    SquareMinusOne(B, P);
  }

  lemma SquareMinusOne(B: nat, P: nat)
    requires B >= 2
    ensures Mul(B + 1, Mul(Mul(B - 1, B - 1), P)) + Mul(B - 1, P) == Mul(B - 1, Mul(B, Mul(B, P)))
  {
    var c := B - 1;
    calc {
      (c + 2) * ((c * c) * P) + c * P;
      (c * c * c + 2 * (c * c) + c) * P;
      (c * ((c + 1) * (c + 1))) * P;
      c * ((c + 1) * ((c + 1) * P));
    }
  }

  lemma WordProduct(B: nat, x: nat, y: nat)
    requires x < B && y < B
    ensures Mul(x, y) <= Mul(B - 1, B - 1) && Mul(x, y) < Mul(B, B)
  {
    hide Mul;
    MulLe(x, y, B - 1, B - 1);
    MulLe(x, y, B - 1, B);
    MulStrict(B - 1, B, B);
    MulMono(B - 1, B, B - 1);
  }

  /** A line of n products leaves room at the top: it is at most (B - 1)(B^2n - 1) / (B + 1). */
  lemma {:induction false} LineBound(B: nat, xs: seq<nat>, d: nat, n: nat)
    requires B >= 2 && IsLimbs(B, xs) && d + n <= |xs|
    ensures Mul(B + 1, Line(B, xs, d, n)) + (B - 1) <= Mul(B - 1, Pow(B, 2 * n))
    ensures Line(B, xs, d, n) < Pow(B, 2 * n)
  {
    hide Mul, Pow;
    var P := Pow(B, 2 * n);
    if n == 0 {
      PowSmall(B);
      MulUnits(B + 1);
      MulUnits(B - 1);
    } else {
      LineBound(B, xs, d, n - 1);
      WordProduct(B, xs[n - 1], xs[d + n - 1]);
      var Q := Pow(B, 2 * (n - 1));
      PowStep(B, 2 * n - 2);
      PowStep(B, 2 * n - 1);
      LineBoundAlgebra(B, Q, Line(B, xs, d, n - 1), Mul(xs[n - 1], xs[d + n - 1]));
    }
    MulMono(B - 1, B + 1, P);
    MulComm(B + 1, P);
    MulComm(B + 1, Line(B, xs, d, n));
    MulCancelLt(Line(B, xs, d, n), P, B + 1);
  }

  /** One line as emitted: each product is placed above the previous ones with a bitwise or. */
  method LineOf(w: nat, x: array<nat>, xo: nat, N: nat, i: nat) returns (line: nat)
    requires w >= 1 && 1 <= i <= N && Buf(Pow(2, w), x, xo, N)
    ensures line == Line(Pow(2, w), x[xo..xo + N], N - i, i)
  {
    hide Mul, Pow, W.Or;
    ghost var xs := x[xo..xo + N];
    var B := Pow(2, w);
    PowMono(2, 1, w);
    PowSmall(2);
    PowSmall(B);
    line := Mul(x[xo], x[xo + N - i]);
    MulUnits(line);
    for j := 1 to i
      invariant line == Line(B, xs, N - i, j)
    {
      LineBound(B, xs, N - i, j);
      LineBound(B, xs, N - i, j + 1);
      var t1 := Mul(x[xo + j], x[xo + N - i + j]);
      PowPow(2, w, 2 * j);
      W.OrDisjoint(t1, line, Mul(w, 2 * j));
      W.OrComm(line, Mul(t1, Pow(B, 2 * j)));
      line := W.Or(line, W.Shl(Pow(B, 2 * (j + 1)), t1, Pow(B, 2 * j)));
    }
  }

  // ----- the accumulated lines -----

  lemma SumBoundAlgebra(B: nat, P: nat, s: nat, l: nat)
    requires B >= 2 && Mul(B + 1, s) + (B - 1) <= Mul(B, P) && Mul(B + 1, l) + (B - 1) <= Mul(B - 1, Mul(B, Mul(B, P)))
    ensures Mul(B + 1, Mul(s, B) + l) + (B - 1) <= Mul(B, Mul(B, Mul(B, P)))
  {
    hide Mul;
    var Q := Mul(B, Mul(B, P));
    MulAdd(Mul(s, B), l, B + 1);
    MulAssoc(B + 1, s, B);
    MulMono(Mul(B + 1, s), Mul(B, P) - (B - 1), B);
    MulSub(Mul(B, P), B - 1, B);
    MulComm(Mul(B, P), B);
    MulMono(1, B, B - 1);
    MulComm(B - 1, B);
    MulUnits(B - 1);
    MulAdd(B - 1, 1, Q);
    MulUnits(Q);
  }

  /** The accumulator before and after doubling the shift: it never outgrows the current line. */
  lemma SumFits(B: nat, s: nat, i: nat)
    requires B >= 2 && Mul(B + 1, s) + (B - 1) <= Pow(B, 2 * i + 1)
    ensures s < Pow(B, 2 * i) && Mul(s, B) < Pow(B, 2 * i + 1)
  {
    hide Mul, Pow;
    var P := Pow(B, 2 * i);
    PowStep(B, 2 * i);
    MulAdd(B, 1, s);
    MulUnits(s);
    MulComm(B, s);
    MulComm(B, P);
    MulCancelLt(s, P, B);
  }

  lemma NextSum(B: nat, p: nat, s: nat, l: nat, rest: nat, diag: nat, all: nat)
    requires Mul(Mul(B, p), s) + (rest + diag) == all && Mul(p, l) == diag
    ensures Mul(p, Mul(s, B) + l) + rest == all
  {
    calc {
      p * (s * B + l) + rest;
      (B * p) * s + p * l + rest;
    }
  }

  /** All products of different words, weighted from word 1 on. */
  method SumOfLines(w: nat, x: array<nat>, xo: nat, N: nat) returns (sum: nat)
    requires w >= 1 && N >= 2 && Buf(Pow(2, w), x, xo, N)
    ensures Mul(Pow(2, w), sum) == Diagonals(Pow(2, w), x[xo..xo + N], N - 1, N)
  {
    hide Mul, Pow, Line;
    ghost var xs := x[xo..xo + N];
    var B := Pow(2, w);
    PowMono(2, 1, w);
    PowSmall(2);
    FirstLine(B, xs);
    sum := Mul(x[xo], x[xo + N - 1]);
    ghost var all := Diagonals(B, xs, N - 1, N);
    for i := 2 to N
      invariant Mul(Pow(B, N - i + 1), sum) + Diagonals(B, xs, N - i, N) == all
      invariant Mul(B + 1, sum) + (B - 1) <= Pow(B, 2 * (i - 1) + 1)
    {
      var line := LineOf(w, x, xo, N, i);
      SumFits(B, sum, i - 1);
      PowMono(B, 2 * (i - 1) + 1, 2 * i);
      LineBound(B, xs, N - i, i);
      LineIsDiagonal(B, xs, N - i, i);
      PowStep(B, 2 * (i - 1));
      PowStep(B, 2 * (i - 1) + 1);
      PowStep(B, 2 * (i - 1) + 2);
      PowStep(B, N - i);
      SumBoundAlgebra(B, Pow(B, 2 * (i - 1)), sum, line);
      NextSum(B, Pow(B, N - i), sum, line, Diagonals(B, xs, N - i - 1, N), Diagonal(B, xs, N - i, N), all);
      SumFits(B, Mul(sum, B) + line, i);
      sum := W.Add(Pow(B, 2 * i), W.Shl(Pow(B, 2 * i), sum, B), line);
    }
    PowSmall(B);
  }

  lemma FirstLine(B: nat, xs: seq<nat>)
    requires B >= 2 && |xs| >= 2 && IsLimbs(B, xs)
    ensures var N := |xs|;
      var s := Mul(xs[0], xs[N - 1]);
      && Mul(Pow(B, N - 1), s) + Diagonals(B, xs, N - 2, N) == Diagonals(B, xs, N - 1, N)
      && Mul(B + 1, s) + (B - 1) <= Pow(B, 3)
  {
    hide Mul, Pow;
    var N := |xs|;
    LineIsDiagonal(B, xs, N - 1, 1);
    LineBound(B, xs, N - 1, 1);
    PowSmall(B);
    MulUnits(Mul(xs[0], xs[N - 1]));
    assert Line(B, xs, N - 1, 1) == Line(B, xs, N - 1, 0) + Mul(Mul(xs[0], xs[N - 1]), Pow(B, 0));
    PowStep(B, 2);
    MulMono(B - 1, B, Pow(B, 2));
  }

  // ----- the squares of the words, and the whole -----

  lemma {:induction false} SquareTermsBound(B: nat, xs: seq<nat>, n: nat)
    requires B >= 2 && IsLimbs(B, xs) && n <= |xs|
    ensures SquareTerms(B, xs, n) < Pow(B, 2 * n)
  {
    hide Mul, Pow;
    if n == 0 {
      PowSmall(B);
    } else {
      SquareTermsBound(B, xs, n - 1);
      WordProduct(B, xs[n - 1], xs[n - 1]);
      PowStep(B, 2 * (n - 1));
      PowStep(B, 2 * (n - 1) + 1);
      var P := Pow(B, 2 * (n - 1));
      MulAssoc(B, B, P);
      MulStrict(Mul(xs[n - 1], xs[n - 1]), Mul(B, B), P);
    }
  }

  lemma PlaceSquare(B: nat, low: nat, tt: nat, sq: nat, p: nat, all: nat)
    requires low + Mul(B, tt) == all
    ensures low + Mul(B, Mul(sq, p) + tt) == all + Mul(sq, Mul(B, p))
  {
    assert B * (sq * p + tt) == sq * (B * p) + B * tt;
  }

  /** The squares of words 1 .. N - 1 joined above the high word of the first square. */
  method JoinSquares(w: nat, x: array<nat>, xo: nat, N: nat, tt0: nat) returns (tt: nat)
    requires w >= 1 && N >= 2 && Buf(Pow(2, w), x, xo, N) && tt0 == Quo(Mul(x[xo], x[xo]), Pow(2, w))
    ensures Rem(Mul(x[xo], x[xo]), Pow(2, w)) + Mul(Pow(2, w), tt) == SquareTerms(Pow(2, w), x[xo..xo + N], N)
  {
    hide Mul, Pow, W.Or, Quo, Rem;
    ghost var xs := x[xo..xo + N];
    var B := Pow(2, w);
    PowMono(2, 1, w);
    PowSmall(2);
    PowSmall(B);
    var bit2 := Pow(B, 2 * N - 1);
    ghost var low := Rem(Mul(x[xo], x[xo]), B);
    QuoRem(Mul(x[xo], x[xo]), B);
    MulComm(B, tt0);
    MulUnits(Mul(x[xo], x[xo]));
    OneSquare(B, xs);
    tt := tt0;
    for i := 1 to N
      invariant low + Mul(B, tt) == SquareTerms(B, xs, i)
    {
      SquareTermsBound(B, xs, i);
      SquareTermsBound(B, xs, i + 1);
      PowStep(B, 2 * i - 1);
      MulComm(B, tt);
      MulComm(B, Pow(B, 2 * i - 1));
      MulCancelLt(tt, Pow(B, 2 * i - 1), B);
      var t1 := Mul(x[xo + i], x[xo + i]);
      PlaceSquare(B, low, tt, t1, Pow(B, 2 * i - 1), SquareTerms(B, xs, i));
      PowStep(B, 2 * i + 1);
      PowMono(B, 2 * i + 1, 2 * N - 1);
      BelowAfterShift(B, Mul(t1, Pow(B, 2 * i - 1)) + tt, Pow(B, 2 * i + 1));
      PowPow(2, w, 2 * i - 1);
      W.OrDisjoint(t1, tt, Mul(w, 2 * i - 1));
      W.OrComm(tt, Mul(t1, Pow(B, 2 * i - 1)));
      tt := W.Or(tt, W.Shl(bit2, t1, Pow(B, 2 * i - 1)));
    }
  }

  lemma OneSquare(B: nat, xs: seq<nat>)
    requires |xs| >= 1
    ensures SquareTerms(B, xs, 1) == Mul(xs[0], xs[0])
  {
    assert SquareTerms(B, xs, 1) == SquareTerms(B, xs, 0) + Term(B, xs, 0, 0);
  }

  lemma BelowAfterShift(B: nat, v: nat, P: nat)
    requires B > 0 && Mul(B, v) < Mul(B, P)
    ensures v < P
  {
    hide Mul;
    MulComm(B, v);
    MulComm(B, P);
    MulCancelLt(v, P, B);
  }

  lemma TotalFits(B: nat, low: nat, tt: nat, sum: nat, V: nat, P: nat)
    requires low + Mul(B, tt) + 2 * Mul(B, sum) == Mul(V, V) && V < P && B > 0
    ensures low + Mul(B, tt + 2 * sum) == Mul(V, V)
    ensures Mul(B, tt + 2 * sum) < Mul(P, P)
  {
    hide Mul;
    MulAdd(tt, 2 * sum, B);
    MulAdd(sum, sum, B);
    PartProduct(P, V, V);
  }

  /** Squaring by diagonals. */
  method SqrByDiagonals(w: nat, N: nat, y: array<nat>, yo: nat, x: array<nat>, xo: nat)
    requires w >= 1 && N >= 2 && Buf(Pow(2, w), x, xo, N) && yo + 2 * N <= y.Length && x != y
    modifies y
    ensures Buf(Pow(2, w), y, yo, 2 * N) && OnlyIn(y, old(y[..]), yo, yo + 2 * N)
    ensures Val(Pow(2, w), y[yo..yo + 2 * N]) == Mul(Val(Pow(2, w), x[xo..xo + N]), Val(Pow(2, w), x[xo..xo + N]))
  {
    hide Mul, Pow, Val, Quo, Rem, Diagonals, SquareTerms;
    ghost var xs := x[xo..xo + N];
    var B := Pow(2, w);
    var tt := Mul(x[xo], x[xo]);
    y[yo] := W.Trunc(B, tt);
    tt := W.Lshr(tt, B);
    var sum := SumOfLines(w, x, xo, N);
    tt := JoinSquares(w, x, xo, N, tt);
    assert xs[..N] == xs;
    SquareByDiagonals(B, xs, N);
    ValBound(B, xs);
    ghost var low := y[yo];
    ghost var V := Val(B, xs);
    TotalFits(B, low, tt, sum, V, Pow(B, N));
    PowAdd(B, N, N);
    PowStep(B, 2 * N - 1);
    var M := Pow(B, 2 * N - 1);
    BelowAfterShift(B, tt + 2 * sum, M);
    sum := W.Add(M, sum, sum);
    tt := W.Add(M, tt, sum);
    StoreN(B, tt, y, yo + 1, 2 * N - 1);
    assert y[yo..yo + 2 * N] == [low] + y[yo + 1..yo + 1 + (2 * N - 1)];
    ValCons(B, low, y[yo + 1..yo + 1 + (2 * N - 1)]);
  }

  lemma SquareMiddle(S: nat, a: nat, b: nat)
    ensures Mul(a + b, a + b) - Mul(b, b) - Mul(a, a) == Mul(b, a) + Mul(b, a)
  {
    assert (a + b) * (a + b) == a * a + b * b + b * a + b * a;
  }

  /** b^2 and a^2 around 2ab, which goes in at word H. */
  method AddDoubled(w: nat, N: nat, y: array<nat>, yo: nat, ab: nat, ghost a: nat, ghost b: nat)
    requires w >= 2 && N > 8 && N % 2 == 0 && Buf(Pow(2, w), y, yo, 2 * N)
    requires a < Pow(Pow(2, w), N / 2) && b < Pow(Pow(2, w), N / 2) && ab == Mul(b, a)
    requires Val(Pow(2, w), y[yo..yo + 2 * N]) == Mul(b, b) + Mul(Pow(Pow(2, w), N), Mul(a, a))
    modifies y
    ensures Buf(Pow(2, w), y, yo, 2 * N) && OnlyIn(y, old(y[..]), yo, yo + 2 * N)
    ensures Val(Pow(2, w), y[yo..yo + 2 * N])
         == Mul(b + Mul(Pow(Pow(2, w), N / 2), a), b + Mul(Pow(Pow(2, w), N / 2), a))
  {
    hide Mul, Pow, Val, Quo, Rem, IsLimbs;
    var H := N / 2;
    var B, S := Pow(2, w), Pow(Pow(2, w), H);
    WidthOfHalf(w, N, H);
    PowAdd(B, H, N);
    DoubledFits(w, N, ab, a, b);
    assert 2 * N == H + (N + H);
    LowAndRest(B, y, yo, H, N + H);
    ghost var lo, hi := Val(B, y[yo..yo + H]), Val(B, y[yo + H..yo + H + (N + H)]);
    PlaceMiddle(S, a, b, a, b, lo, hi, b + Mul(S, a), b + Mul(S, a));
    SquareMiddle(S, a, b);
    AddAtWord(B, H, N + H, y, yo, W.Add(Pow(B, N + 1), ab, ab));
  }

  /** Twice the product of the halves fits one more word. */
  lemma DoubledFits(w: nat, N: nat, ab: nat, a: nat, b: nat)
    requires w >= 2 && N % 2 == 0 && ab == Mul(b, a)
    requires a < Pow(Pow(2, w), N / 2) && b < Pow(Pow(2, w), N / 2)
    ensures ab + ab < Pow(Pow(2, w), N + 1)
  {
    hide Mul, Pow;
    var B, S := Pow(2, w), Pow(Pow(2, w), N / 2);
    WidthOfHalf(w, N, N / 2);
    RadixAtLeastFour(w);
    PartProduct(S, b, a);
    FourTimes(Mul(S, S));
    MulMono(4, B, Mul(S, S));
    PowStep(B, N);
  }

  /** The two squares of the halves. */
  method OuterSquares(w: nat, H: nat, y: array<nat>, yo: nat, x: array<nat>, xo: nat)
    requires w >= 2 && H >= 1 && Buf(Pow(2, w), x, xo, H) && Buf(Pow(2, w), x, xo + H, H)
    requires x != y && yo + 4 * H <= y.Length
    modifies y
    ensures Buf(Pow(2, w), y, yo, 4 * H) && OnlyIn(y, old(y[..]), yo, yo + 4 * H)
    ensures Buf(Pow(2, w), y, yo, 2 * H) && Buf(Pow(2, w), y, yo + 2 * H, 2 * H)
    ensures var b := Val(Pow(2, w), x[xo..xo + H]); Val(Pow(2, w), y[yo..yo + 2 * H]) == Mul(b, b)
    ensures var a := Val(Pow(2, w), x[xo + H..xo + H + H]);
      Val(Pow(2, w), y[yo + 2 * H..yo + 2 * H + 2 * H]) == Mul(a, a)
    decreases H, 2
  {
    hide Mul, Pow, Val;
    Sqr(w, H, y, yo, x, xo);
    ghost var lo := y[yo..yo + 2 * H];
    Sqr(w, H, y, yo + 2 * H, x, xo + H);
    assert y[yo..yo + 2 * H] == lo;
    assert y[yo..yo + 4 * H] == lo + y[yo + 2 * H..yo + 2 * H + 2 * H];
  }

  /** Karatsuba squaring: (aS + b)^2 == a^2 S^2 + 2ab S + b^2. */
  method SqrByHalves(w: nat, N: nat, y: array<nat>, yo: nat, x: array<nat>, xo: nat)
    requires w >= 2 && N > 8 && N % 2 == 0 && Buf(Pow(2, w), x, xo, N) && yo + 2 * N <= y.Length && x != y
    modifies y
    ensures Buf(Pow(2, w), y, yo, 2 * N) && OnlyIn(y, old(y[..]), yo, yo + 2 * N)
    ensures Val(Pow(2, w), y[yo..yo + 2 * N]) == Mul(Val(Pow(2, w), x[xo..xo + N]), Val(Pow(2, w), x[xo..xo + N]))
    decreases N, 0
  {
    hide Mul, Pow, Val, Quo, Rem, IsLimbs;
    var H := N / 2;
    var B := Pow(2, w);
    assert N == H + H;
    Halves(B, x, xo, H);
    var abBuf := new nat[N];
    MulPre(w, H, abBuf, 0, x, xo, x, xo + H);
    OuterSquares(w, H, y, yo, x, xo);
    var ab := LoadN(B, abBuf, 0, N);
    Halves(B, y, yo, N);
    ghost var a, b := Val(B, x[xo + H..xo + H + H]), Val(B, x[xo..xo + H]);
    HalfBounds(B, x, xo, H);
    AddDoubled(w, N, y, yo, ab, a, b);
  }

  lemma HalfBounds(B: nat, x: array<nat>, xo: nat, H: nat)
    requires B > 0 && Buf(B, x, xo, H) && Buf(B, x, xo + H, H)
    ensures Val(B, x[xo + H..xo + H + H]) < Pow(B, H) && Val(B, x[xo..xo + H]) < Pow(B, H)
  {
    ValBound(B, x[xo + H..xo + H + H]);
    ValBound(B, x[xo..xo + H]);
  }

  /** y[2N] = x[N]^2, with the branches of `gen_sqr_inner`. */
  method Sqr(w: nat, N: nat, y: array<nat>, yo: nat, x: array<nat>, xo: nat)
    requires w >= 2 && N >= 1 && Buf(Pow(2, w), x, xo, N) && yo + 2 * N <= y.Length && x != y
    modifies y
    ensures Buf(Pow(2, w), y, yo, 2 * N) && OnlyIn(y, old(y[..]), yo, yo + 2 * N)
    ensures Val(Pow(2, w), y[yo..yo + 2 * N]) == Mul(Val(Pow(2, w), x[xo..xo + N]), Val(Pow(2, w), x[xo..xo + N]))
    decreases N, 1
  {
    hide Mul, Pow, Val;
    var B := Pow(2, w);
    if N == 1 {
      PowSmall(B);
      PowStep(B, 1);
      ValOne(B, x[xo]);
      assert x[xo..xo + 1] == [x[xo]];
      PartProduct(B, x[xo], x[xo]);
      StoreN(B, Mul(x[xo], x[xo]), y, yo, 2);
    } else if N > 8 && N % 2 == 0 {
      SqrByHalves(w, N, y, yo, x, xo);
    } else {
      SqrByDiagonals(w, N, y, yo, x, xo);
    }
  }
}
