/**
Montgomery squaring on 52-bit limbs in 64-bit lanes, as emitted by `gen_vsqr` of
`mcl/src/gen_bint_x64.py`: the products of distinct limbs are summed by distance and doubled,
the squares are added, and the double-length accumulator is reduced in place.
*/
module IfmaSquare {
  import opened Limbs
  import opened Bint
  import opened Modular
  import opened Montgomery
  import opened Ifma52
  import opened Squares

  // ----- the square -----

  /** Adding the two-limb product a * b at lanes k and k + 1. */
  method AddProduct(M: nat, C: nat, t: array<nat>, k: nat, a: nat, b: nat)
    requires M > 0 && a < M && b < M && k + 1 < t.Length && t[k] + M <= C && t[k + 1] + M <= C
    modifies t
    ensures Val(M, t[..]) == old(Val(M, t[..])) + Mul(Mul(a, b), Pow(M, k))
    ensures forall i :: 0 <= i < t.Length && i != k && i != k + 1 ==> t[i] == old(t[i])
    ensures old(t[k]) <= t[k] < old(t[k]) + M && old(t[k + 1]) <= t[k + 1] < old(t[k + 1]) + M
  {
    hide Mul, Pow, Val, MaddLo, MaddHi;
    ghost var ts := t[..];
    MaddOfLimbs(M, C, t[k], t[k + 1], a, b);
    t[k] := MaddLo(M, C, t[k], a, b);
    t[k + 1] := MaddHi(M, C, t[k + 1], a, b);
    ProductLanes(M, ts, t[..], k, a, b);
  }

  /** Enough lanes width for 2N limb products, doubled, and the reduction on top. */
  ghost predicate SqrArgs(M: nat, C: nat, N: nat, x: seq<nat>, p: seq<nat>, rp: nat) {
    && RoomInLanes(M, C, N) && N >= 2 && |x| == |p| == N && IsLimbs(M, x) && IsLimbs(M, p)
    && Val(M, x) < Val(M, p) && IsMontCoeff(M, Val(M, p), rp)
  }

  /** Lane 0 and the cross products so far. */
  ghost predicate Crossed(M: nat, x: seq<nat>, t: seq<nat>, low: nat, sum: nat, bound: nat) {
    && |t| == 2 * |x| && |x| >= 2 && t[0] == low && Val(M, t) == low + sum && t[|t| - 1] == 0
    && forall j :: 0 <= j < |t| ==> t[j] < bound
  }

  /** The products at distance i, added to lanes 2j - i and 2j - i + 1. */
  method AddDiagonal(M: nat, C: nat, N: nat, x: seq<nat>, t: array<nat>, i: nat, ghost low: nat)
    requires M > 0 && 1 <= i < N == |x| && IsLimbs(M, x) && Mul(i + 1, M) <= C
    requires Crossed(M, x, t[..], low, Diagonals(M, x, i - 1, N), Mul(i, M))
    modifies t
    ensures Crossed(M, x, t[..], low, Diagonals(M, x, i, N), Mul(i + 1, M))
  {
    hide Mul, Pow, Val;
    ghost var b := Mul(i, M);
    MulAdd(i, 1, M);
    MulUnits(M);
    assert t[..][0] == t[0] && t[..][2 * N - 1] == t[2 * N - 1];
    assert forall l :: 0 <= l < 2 * N ==> t[..][l] == t[l];
    assert Diagonal(M, x, i, i) == 0;
    for j := i to N
      invariant t[0] == low && t[2 * N - 1] == 0
      invariant Val(M, t[..]) == low + Diagonals(M, x, i - 1, N) + Diagonal(M, x, i, j)
      invariant forall l :: 0 <= l < 2 * j - i ==> t[l] < b + M
      invariant forall l :: 2 * j - i <= l < 2 * N ==> t[l] < b
    {
      AddProduct(M, C, t, 2 * j - i, x[j], x[j - i]);
    }
  }

  /** t[2i] += low limb, t[2i + 1] += high limb of every squared limb. */
  lemma SquareHalves(M: nat, xi: nat, lo: nat, hi: nat, p: nat)
    requires lo + Mul(M, hi) == Mul(xi, xi)
    ensures Mul(lo, p) + Mul(hi, Mul(M, p)) == Mul(Mul(xi, xi), p)
  {
    assert hi * (M * p) == (M * hi) * p;
    assert (lo + M * hi) * p == lo * p + (M * hi) * p;
  }

  ghost function DoubledSeq(s: seq<nat>): (d: seq<nat>)
    ensures |d| == |s| && forall j :: 0 <= j < |s| ==> d[j] == 2 * s[j]
  {
    seq(|s|, j requires 0 <= j < |s| => 2 * s[j])
  }

  lemma {:induction false} DoubledVal(M: nat, s: seq<nat>)
    ensures Val(M, DoubledSeq(s)) == 2 * Val(M, s)
  {
    hide Mul, Pow, Val;
    if |s| == 0 {
      assert s == [] && DoubledSeq(s) == [];
      ValEmpty(M);
    } else {
      var n := |s| - 1;
      DoubledVal(M, s[..n]);
      assert s == s[..n] + [s[n]] && DoubledSeq(s) == DoubledSeq(s[..n]) + [2 * s[n]];
      ValSnoc(M, s[..n], s[n]);
      ValSnoc(M, DoubledSeq(s[..n]), 2 * s[n]);
      MulAdd(s[n], s[n], Pow(M, n));
    }
  }

  /** All lanes but the first are doubled. */
  lemma DoubledTail(M: nat, t: seq<nat>, t': seq<nat>)
    requires |t| == |t'| >= 1 && t'[0] == t[0] && forall j :: 1 <= j < |t| ==> t'[j] == 2 * t[j]
    ensures Val(M, t') + t[0] == 2 * Val(M, t)
  {
    hide Mul, Pow, Val;
    assert t == [t[0]] + t[1..] && t' == [t[0]] + DoubledSeq(t[1..]);
    ValCons(M, t[0], t[1..]);
    ValCons(M, t[0], DoubledSeq(t[1..]));
    DoubledVal(M, t[1..]);
    MulAdd(Val(M, t[1..]), Val(M, t[1..]), M);
  }

  /** The doubling loop; the last lane is still empty. */
  method DoubleLanes(M: nat, C: nat, N: nat, t: array<nat>, ghost bound: nat)
    requires N >= 2 && t.Length == 2 * N && t[2 * N - 1] == 0 && 2 * bound <= C
    requires forall j :: 0 <= j < 2 * N ==> t[j] < bound
    modifies t
    ensures Val(M, t[..]) + t[0] == 2 * old(Val(M, t[..])) && t[0] == old(t[0]) && t[2 * N - 1] == 0
    ensures forall j :: 0 <= j < 2 * N ==> t[j] < 2 * bound
  {
    ghost var ts := t[..];
    for i := 1 to 2 * N - 1
      invariant forall j :: 1 <= j < i ==> t[j] == 2 * ts[j]
      invariant forall j :: i <= j < 2 * N ==> t[j] == ts[j]
      invariant t[0] == ts[0]
    {
      t[i] := WrapAdd(C, t[i], t[i]);
    }
    DoubledTail(M, ts, t[..]);
  }

  /** One half of a squared limb goes to one lane. */
  lemma AddLane(M: nat, C: nat, z: nat, a: nat)
    requires M > 0 && a < M && z + M <= C
    ensures MaddLo(M, C, z, a, a) == z + Rem(Mul(a, a), M) < z + M
    ensures MaddHi(M, C, z, a, a) == z + Quo(Mul(a, a), M) < z + M
  {
    hide Mul, Quo, Rem;
    HighIsWord(M, a, a, 0);
    QuoRem(Mul(a, a), M);
  }

  /** Adds the squares of the limbs; lane 0 already holds the low half of the first one. */
  method AddSquares(M: nat, C: nat, N: nat, x: seq<nat>, t: array<nat>, ghost cross: nat, ghost bound: nat)
    requires M > 0 && N >= 2 && |x| == N && IsLimbs(M, x) && t.Length == 2 * N && bound + M <= C
    requires forall j :: 0 <= j < 2 * N ==> t[j] < bound
    requires t[2 * N - 1] == 0 && Val(M, t[..]) == cross + Rem(Mul(x[0], x[0]), M)
    modifies t
    ensures Val(M, t[..]) == cross + SquareTerms(M, x, N)
    ensures forall j :: 0 <= j < 2 * N ==> t[j] < bound + M
  {
    hide Mul, Pow, Val, Quo, Rem, MaddLo, MaddHi;
    PowSmall(M);
    MulUnits(Rem(Mul(x[0], x[0]), M));
    assert SquareTerms(M, x, 0) == 0;
    for i := 1 to N
      invariant forall j :: 0 <= j < 2 * i - 1 ==> t[j] < bound + M
      invariant forall j :: 2 * i - 1 <= j < 2 * N ==> t[j] < bound
      invariant t[2 * N - 1] == 0
      invariant Val(M, t[..]) == cross + SquareTerms(M, x, i - 1)
                                 + Mul(Rem(Mul(x[i - 1], x[i - 1]), M), Pow(M, 2 * (i - 1)))
    {
      ghost var ts := t[..];
      AddLane(M, C, t[2 * i - 1], x[i - 1]);
      AddLane(M, C, t[2 * i], x[i]);
      t[2 * i - 1] := MaddHi(M, C, t[2 * i - 1], x[i - 1], x[i - 1]);
      ghost var mid := t[..];
      OneLane(M, ts, mid, 2 * i - 1, Quo(Mul(x[i - 1], x[i - 1]), M));
      t[2 * i] := MaddLo(M, C, t[2 * i], x[i], x[i]);
      OneLane(M, mid, t[..], 2 * i, Rem(Mul(x[i], x[i]), M));
      NextSquare(M, x, i - 1);
    }
    ghost var ts := t[..];
    AddLane(M, C, 0, x[N - 1]);
    t[2 * N - 1] := 0;
    t[2 * N - 1] := MaddHi(M, C, t[2 * N - 1], x[N - 1], x[N - 1]);
    OneLane(M, ts, t[..], 2 * N - 1, Quo(Mul(x[N - 1], x[N - 1]), M));
    NextSquare(M, x, N - 1);
  }

  lemma NextSquare(M: nat, x: seq<nat>, i: nat)
    requires M > 0 && i < |x|
    ensures Mul(Rem(Mul(x[i], x[i]), M), Pow(M, 2 * i)) + Mul(Quo(Mul(x[i], x[i]), M), Pow(M, 2 * i + 1))
            + SquareTerms(M, x, i) == SquareTerms(M, x, i + 1)
  {
    hide Mul, Pow, Quo, Rem;
    var v := Mul(x[i], x[i]);
    QuoRem(v, M);
    MulComm(M, Quo(v, M));
    PowStep(M, 2 * i);
    SquareHalves(M, x[i], Rem(v, M), Quo(v, M), Pow(M, 2 * i));
  }

  /** The double-length accumulator holds x * x, with room left in every lane. */
  method SquareLanes(M: nat, C: nat, N: nat, x: seq<nat>) returns (t: array<nat>)
    requires RoomInLanes(M, C, N) && N >= 2 && |x| == N && IsLimbs(M, x)
    ensures fresh(t) && t.Length == 2 * N && Val(M, t[..]) == Mul(Val(M, x), Val(M, x))
    ensures forall j :: 0 <= j < 2 * N ==> t[j] < Mul(2 * N + 1, M)
  {
    hide Mul, Pow, Val, Quo, Rem, MaddLo;
    MulUnits(M);
    SquareRoom(M, C, N);
    t := new nat[2 * N];
    ClearN(t, 0, 2 * N);
    ValZeros(M, t[..]);
    AddLane(M, C, 0, x[0]);
    ghost var low := Rem(Mul(x[0], x[0]), M);
    t[0] := MaddLo(M, C, t[0], x[0], x[0]);
    PowSmall(M);
    MulUnits(low);
    OneLane(M, seq(2 * N, _ => 0), t[..], 0, low);
    ValZeros(M, seq(2 * N, _ => 0));
    for i := 1 to N
      invariant Crossed(M, x, t[..], low, Diagonals(M, x, i - 1, N), Mul(i, M))
    {
      MulMono(i + 1, N, M);
      AddDiagonal(M, C, N, x, t, i, low);
    }
    assert forall j :: 0 <= j < 2 * N ==> t[..][j] == t[j];
    DoubleLanes(M, C, N, t, Mul(N, M));
    AddSquares(M, C, N, x, t, 2 * Diagonals(M, x, N - 1, N), 2 * Mul(N, M));
    SquareByDiagonals(M, x, N);
    assert x[..N] == x;
  }

  lemma SquareRoom(M: nat, C: nat, N: nat)
    requires RoomInLanes(M, C, N)
    ensures Mul(N, M) <= C && 2 * Mul(N, M) + M == Mul(2 * N + 1, M) <= C
    ensures Mul(2 * N + 1, M) + Mul(2 * N + 1, M) + 2 * M <= C && M <= C
  {
    hide Mul, Rem;
    MulAdd(N, N, M);
    MulAdd(2 * N, 1, M);
    MulUnits(M);
    MulAdd(4 * N + 2, 2, M);
    MulAdd(2 * N + 1, 2 * N + 1, M);
    Two(M);
  }

  // ----- the reduction -----

  /** What lane i - 1 still owes to lane i. */
  ghost function Owed(M: nat, t: seq<nat>, i: nat): nat
    requires M > 0 && i <= |t|
  {
    if i == 0 then 0 else Quo(t[i - 1], M)
  }

  /** Before reduction step i: the lanes from i upward, with what is owed to them, stand for s. */
  ghost predicate Reducing(M: nat, N: nat, pv: nat, X: nat, i: nat, t: seq<nat>, s: nat, Q: nat) {
    && M > 0 && i <= N && |t| == 2 * N && Val(M, t[i..]) + Owed(M, t, i) == s
    && (i > 0 ==> Rem(t[i - 1], M) == 0 && t[i - 1] < Mul(2 * N + 2 * i + 2, M))
    && Mul(s, Pow(M, i)) == X + Mul(Q, pv) && Q < Pow(M, i)
    && forall j :: i <= j < 2 * N ==> t[j] < Mul(2 * N + 1 + 2 * i, M)
  }

  /** A change of the lanes from i upward, seen from the whole accumulator. */
  lemma SuffixChange(M: nat, t: seq<nat>, t': seq<nat>, i: nat, d: nat)
    requires M > 0 && |t| == |t'| && i <= |t| && t[..i] == t'[..i] && Val(M, t') == Val(M, t) + Mul(d, Pow(M, i))
    ensures Val(M, t'[i..]) == Val(M, t[i..]) + d
  {
    hide *;
    ValSplit(M, t, i);
    ValSplit(M, t', i);
    MulAdd(Val(M, t[i..]), d, Pow(M, i));
    MulComm(d, Pow(M, i));
    MulComm(Val(M, t'[i..]), Pow(M, i));
    MulComm(Val(M, t[i..]) + d, Pow(M, i));
    PowIsPositive(M, i);
    MulCancelEq(Val(M, t'[i..]), Val(M, t[i..]) + d, Pow(M, i));
  }

  lemma PowIsPositive(M: nat, i: nat)
    requires M > 0
    ensures Pow(M, i) > 0
  {
  }

  /** Once the lowest lane is a multiple of M, dropping it leaves its quotient owed. */
  lemma DropLane(M: nat, t: seq<nat>, i: nat, s': nat)
    requires M > 0 && i < |t| && Val(M, t[i..]) == Mul(s', M) && Rem(t[i], M) == 0
    ensures Val(M, t[i + 1..]) + Owed(M, t, i + 1) == s'
  {
    hide Mul, Pow, Val, Rem, Quo;
    assert t[i..] == [t[i]] + t[i + 1..];
    ValCons(M, t[i], t[i + 1..]);
    QuoRem(t[i], M);
    MulComm(M, Val(M, t[i + 1..]));
    MulAdd(Quo(t[i], M), Val(M, t[i + 1..]), M);
    MulCancelEq(Val(M, t[i + 1..]) + Quo(t[i], M), s', M);
  }

  lemma NextMultiple(M: nat, pv: nat, X: nat, i: nat, s: nat, Q: nat, q: nat, s': nat)
    requires M > 0 && Mul(s, Pow(M, i)) == X + Mul(Q, pv) && Q < Pow(M, i) && q < M
    requires Mul(s', M) == s + Mul(pv, q)
    ensures Mul(s', Pow(M, i + 1)) == X + Mul(Q + Mul(q, Pow(M, i)), pv)
    ensures Q + Mul(q, Pow(M, i)) < Pow(M, i + 1)
  {
    hide Mul, Pow;
    PowStep(M, i);
    MulUnits(1);
    MulUnits(Mul(1, Pow(M, i)));
    RedAlgebra(M, Pow(M, i), 1, pv, s, s', X, 0, q, Q);
    TopAlgebra(M, Pow(M, i), q, Q);
  }

  /** The bounds that one step needs. */
  lemma StepRoom(M: nat, C: nat, N: nat, i: nat)
    requires RoomInLanes(M, C, N) && i < N
    ensures Mul(2 * N + 1 + 2 * i, M) + 3 * M <= C
    ensures Mul(2 * N + 1 + 2 * i, M) + 3 * M == Mul(2 * N + 2 * (i + 1) + 2, M)
    ensures Mul(2 * N + 1 + 2 * i, M) + 2 * M == Mul(2 * N + 1 + 2 * (i + 1), M)
    ensures 2 * N + 2 * i + 2 <= M && M <= C
  {
    hide Mul, Rem;
    Small(M);
    MulAdd(2 * N + 1 + 2 * i, 3, M);
    MulAdd(2 * N + 1 + 2 * i, 2, M);
    MulMono(2 * N + 4 + 2 * i, 4 * (N + 1), M);
  }

  lemma Small(M: nat)
    ensures Mul(2, M) == 2 * M && Mul(3, M) == 3 * M
  {
  }

  /** One reduction step: take in what is owed, choose q, add p * q. */
  method ReduceLane(M: nat, C: nat, N: nat, p: seq<nat>, rp: nat, t: array<nat>, i: nat,
                    ghost X: nat, ghost s: nat, ghost Q: nat) returns (ghost s': nat, ghost Q': nat)
    requires RoomInLanes(M, C, N) && |p| == N && IsLimbs(M, p) && IsMontCoeff(M, Val(M, p), rp)
    requires i < N && t.Length == 2 * N && Reducing(M, N, Val(M, p), X, i, t[..], s, Q)
    modifies t
    ensures Reducing(M, N, Val(M, p), X, i + 1, t[..], s', Q')
  {
    hide Mul, Pow, Val, Rem, Quo, MaddLo, IsMontCoeff;
    ghost var pv, b := Val(M, p), Mul(2 * N + 1 + 2 * i, M);
    StepRoom(M, C, N, i);
    assert forall j :: 0 <= j < 2 * N ==> t[..][j] == t[j];
    if i > 0 {
      ghost var ts, owed := t[..], Quo(t[i - 1], M);
      QuoBound(t[i - 1], M, 2 * N + 2 * i + 2);
      t[i] := WrapAdd(C, t[i], Quo(t[i - 1], M));
      OneLane(M, ts, t[..], i, owed);
      assert ts[..i] == t[..][..i];
      SuffixChange(M, ts, t[..], i, owed);
    }
    ghost var mid := t[..];
    assert mid[i..][0] == t[i];
    CoeffIsLimb(M, pv, rp);
    QuotientLimb(M, C, mid[i..], rp);
    var q := MaddLo(M, C, 0, t[i], rp);
    RoundExact(M, pv, rp, s);
    QuotientWord(M, pv, rp, s);
    s' := Quo(s + Mul(pv, q), M);
    Q' := Q + Mul(q, Pow(M, i));
    MulUnitAdd(M, C, t, i, p, q, N, b + M);
    assert mid[..i] == t[..][..i];
    SuffixChange(M, mid, t[..], i, Mul(pv, q));
    LowLane(M, t[..][i..]);
    assert t[..][i..][0] == t[i] == t[..][i];
    DropLane(M, t[..], i, s');
    NextMultiple(M, pv, X, i, s, Q, q, s');
    assert forall j :: 0 <= j < 2 * N ==> t[..][j] == t[j];
  }

  /** z = x * x / M^N modulo p, fully reduced. */
  method VSqr(M: nat, C: nat, N: nat, x: seq<nat>, p: seq<nat>, rp: nat) returns (z: array<nat>)
    requires SqrArgs(M, C, N, x, p, rp) && 2 * Val(M, p) <= Pow(M, N)
    ensures fresh(z) && z.Length == N && IsLimbs(M, z[..])
    ensures IsMontProduct(M, N, Val(M, p), Mul(Val(M, x), Val(M, x)), Val(M, z[..]))
  {
    hide Mul, Pow, Val, Rem, Quo, IsMontCoeff;
    var t := SquareLanes(M, C, N, x);
    ghost var X, pv := Mul(Val(M, x), Val(M, x)), Val(M, p);
    ghost var s: nat, Q: nat := X, 0;
    StartReduction(M, C, N, pv, X, t[..]);
    for i := 0 to N
      invariant Reducing(M, N, pv, X, i, t[..], s, Q)
    {
      s, Q := ReduceLane(M, C, N, p, rp, t, i, X, s, Q);
    }
    ValBound(M, p);
    MulLe(Val(M, x), Val(M, x), pv, pv);
    SquareBelow(Val(M, x), pv, Pow(M, N));
    RedBound(M, N, pv, X, s, Q);
    z := ConcludeSquare(M, C, N, p, t, X, s, Q);
  }

  lemma SquareBelow(x: nat, p: nat, R: nat)
    requires x < p < R
    ensures Mul(x, x) < Mul(p, R)
  {
    hide Mul;
    MulMono(x, p, x);
    MulStrict(x, p, p);
    MulMono(p, R, p);
    MulComm(p, x);
  }

  lemma StartReduction(M: nat, C: nat, N: nat, pv: nat, X: nat, t: seq<nat>)
    requires RoomInLanes(M, C, N) && |t| == 2 * N && Val(M, t) == X
    requires forall j :: 0 <= j < 2 * N ==> t[j] < Mul(2 * N + 1, M)
    ensures Reducing(M, N, pv, X, 0, t, X, 0)
  {
    hide Mul, Val, Rem;
    assert t[0..] == t;
    MulUnits(X);
    MulUnits(pv);
  }

  /** The code after the reduction loop. */
  method ConcludeSquare(M: nat, C: nat, N: nat, p: seq<nat>, t: array<nat>, ghost X: nat, ghost s: nat, ghost Q: nat)
    returns (z: array<nat>)
    requires RoomInLanes(M, C, N) && |p| == N && IsLimbs(M, p) && t.Length == 2 * N
    requires Val(M, p) > 0 && 2 * Val(M, p) <= Pow(M, N) && s < 2 * Val(M, p)
    requires Reducing(M, N, Val(M, p), X, N, t[..], s, Q)
    modifies t
    ensures fresh(z) && z.Length == N && IsLimbs(M, z[..])
    ensures IsMontProduct(M, N, Val(M, p), X, Val(M, z[..]))
  {
    hide Mul, Pow, Val, Rem, Quo;
    ghost var ts, b := t[..], Mul(4 * N + 2, M);
    assert forall j :: 0 <= j < 2 * N ==> ts[j] == t[j];
    MulMono(4 * N + 1, 4 * N + 2, M);
    MulMono(4 * N + 2, 4 * (N + 1), M);
    Normalize(M, C, t, N - 1, 2 * N - 1, b);
    ghost var ts' := t[..];
    assert ts'[..N - 1] == ts[..N - 1];
    MulUnits(Pow(M, N - 1));
    SuffixChange(M, ts, ts', N - 1, 0);
    assert ts[N - 1..] == [ts[N - 1]] + ts[N..] && ts'[N - 1..] == [0] + ts'[N..];
    ValCons(M, ts[N - 1], ts[N..]);
    ValCons(M, 0, ts'[N..]);
    QuoRem(ts[N - 1], M);
    MulComm(M, Val(M, ts[N..]));
    MulComm(M, Val(M, ts'[N..]));
    MulAdd(Val(M, ts[N..]), Quo(ts[N - 1], M), M);
    MulCancelEq(Val(M, ts'[N..]), s, M);
    assert ts'[N..] == t[N..];
    TopLane(M, N, t[N..]);
    Few(M);
    MulMono(4, 4 * (N + 1), M);
    z := SubPIfPossible(M, C, N, t[N..], p);
    FinalSubtraction(M, N, Val(M, p), X, s, Q);
  }
}
