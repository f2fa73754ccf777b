/**
Montgomery multiplication on 52-bit limbs in 64-bit lanes, as emitted by `gen_vmul` of
`mcl/src/gen_bint_x64.py` with the integer fused multiply-add instructions. `M` is the limb
radix (2^52) and `C` the lane modulus (2^64); one lane of the eight-way vector is modelled.
Limbs are not normalized while products are accumulated, so the lanes are numbers below `C`
whose weighted sum `Val(M, t)` is the value of the accumulator.
*/
module Ifma52 {
  import opened Limbs
  import opened Bint
  import opened Modular
  import opened Montgomery

  /** The products of one round add at most this much to a lane. */
  ghost predicate RoomInLanes(M: nat, C: nat, N: nat) {
    M >= 2 && N >= 1 && 4 * (N + 1) <= M && 2 * Mul(4 * (N + 1), M) <= C && Rem(C, M) == 0
  }

  /** `vpmadd52luq`: add the low limb of the product of the low 52 bits of the operands. */
  function MaddLo(M: nat, C: nat, z: nat, a: nat, b: nat): nat
    requires M > 0 && C > 0
  {
    Rem(z + Rem(Mul(Rem(a, M), Rem(b, M)), M), C)
  }

  /** `vpmadd52huq`: add the high limb of that product. */
  function MaddHi(M: nat, C: nat, z: nat, a: nat, b: nat): nat
    requires M > 0 && C > 0
  {
    Rem(z + Quo(Mul(Rem(a, M), Rem(b, M)), M), C)
  }

  lemma MaddOfLimbs(M: nat, C: nat, z: nat, z': nat, a: nat, b: nat)
    requires M > 0 && a < M && b < M && z + M <= C && z' + M <= C
    ensures MaddLo(M, C, z, a, b) + Mul(M, MaddHi(M, C, z', a, b)) == z + Mul(M, z') + Mul(a, b)
    ensures z <= MaddLo(M, C, z, a, b) < z + M && z' <= MaddHi(M, C, z', a, b) < z' + M
  {
    hide Mul, Rem, Quo;
    HighIsWord(M, a, b, 0);
    QuoRem(Mul(a, b), M);
    MulAdd(z', Quo(Mul(a, b), M), M);
    MulComm(M, Quo(Mul(a, b), M));
  }

  /** Adding `d` to lane `j` and `e` to lane j + 1. */
  lemma {:induction false} TwoLanes(M: nat, t: seq<nat>, t': seq<nat>, j: nat, d: nat, e: nat)
    requires |t| == |t'| && j + 1 < |t|
    requires t'[j] == t[j] + d && t'[j + 1] == t[j + 1] + e
    requires forall i :: 0 <= i < |t| && i != j && i != j + 1 ==> t'[i] == t[i]
    ensures Val(M, t') == Val(M, t) + Mul(d + Mul(M, e), Pow(M, j))
  {
    hide Mul, Pow, Val;
    OneLane(M, t, t[j := t[j] + d], j, d);
    OneLane(M, t[j := t[j] + d], t', j + 1, e);
    PowStep(M, j);
    MulAdd(d, Mul(M, e), Pow(M, j));
    MulComm(M, e);
    MulAssoc(e, M, Pow(M, j));
  }

  lemma OneLane(M: nat, t: seq<nat>, t': seq<nat>, j: nat, d: nat)
    requires |t| == |t'| && j < |t| && t'[j] == t[j] + d
    requires forall i :: 0 <= i < |t| && i != j ==> t'[i] == t[i]
    ensures Val(M, t') == Val(M, t) + Mul(d, Pow(M, j))
  {
    hide Mul, Pow, Val;
    assert t[..j] == t'[..j] && t[j + 1..] == t'[j + 1..];
    assert t == t[..j] + [t[j]] + t[j + 1..];
    assert t' == t[..j] + [t[j] + d] + t[j + 1..];
    MiddleLane(M, t[..j], t[j], d, t[j + 1..]);
  }

  lemma MiddleLane(M: nat, a: seq<nat>, u: nat, d: nat, b: seq<nat>)
    ensures Val(M, a + [u + d] + b) == Val(M, a + [u] + b) + Mul(d, Pow(M, |a|))
  {
    hide *;
    ValConcat(M, a + [u + d], b);
    ValConcat(M, a + [u], b);
    ValSnoc(M, a, u + d);
    ValSnoc(M, a, u);
    MulAdd(u, d, Pow(M, |a|));
  }

  /** t += x * y for one limb y, lane by lane from `lo`, without an overflow. */
  method MulUnitAdd(M: nat, C: nat, t: array<nat>, lo: nat, x: seq<nat>, y: nat, N: nat, ghost bound: nat)
    requires M > 0 && y < M && |x| == N && IsLimbs(M, x) && lo + N + 1 <= t.Length
    requires bound + 2 * M <= C && forall j :: lo <= j <= lo + N ==> t[j] < bound
    modifies t
    ensures Val(M, t[..]) == old(Val(M, t[..])) + Mul(Mul(Val(M, x), y), Pow(M, lo))
    ensures forall j :: 0 <= j < t.Length && !(lo <= j <= lo + N) ==> t[j] == old(t[j])
    ensures forall j :: lo <= j <= lo + N ==> old(t[j]) <= t[j] < old(t[j]) + 2 * M
  {
    hide Mul, Pow, Val, Rem, Quo, MaddLo, MaddHi;
    assert x[..0] == [];
    ValEmpty(M);
    MulUnits(y);
    MulUnits(Pow(M, lo));
    for j := 0 to N
      invariant Val(M, t[..]) == old(Val(M, t[..])) + Mul(Mul(Val(M, x[..j]), y), Pow(M, lo))
      invariant forall i :: 0 <= i < t.Length && !(lo <= i <= lo + j) ==> t[i] == old(t[i])
      invariant forall i :: lo <= i < lo + j ==> old(t[i]) <= t[i] < old(t[i]) + 2 * M
      invariant old(t[lo + j]) <= t[lo + j] < old(t[lo + j]) + M
    {
      ghost var ts := t[..];
      MaddOfLimbs(M, C, t[lo + j], t[lo + j + 1], x[j], y);
      t[lo + j] := MaddLo(M, C, t[lo + j], x[j], y);
      t[lo + j + 1] := MaddHi(M, C, t[lo + j + 1], x[j], y);
      ProductLanes(M, ts, t[..], lo + j, x[j], y);
      assert x[..j + 1] == x[..j] + [x[j]];
      ValSnoc(M, x[..j], x[j]);
      PowAdd(M, j, lo);
      UnitAlgebra(Val(M, x[..j]), x[j], y, Pow(M, j), Pow(M, lo));
    }
    assert x[..N] == x;
  }

  lemma ProductLanes(M: nat, t: seq<nat>, t': seq<nat>, j: nat, a: nat, b: nat)
    requires |t| == |t'| && j + 1 < |t| && t[j] <= t'[j] && t[j + 1] <= t'[j + 1]
    requires t'[j] + Mul(M, t'[j + 1]) == t[j] + Mul(M, t[j + 1]) + Mul(a, b)
    requires forall i :: 0 <= i < |t| && i != j && i != j + 1 ==> t'[i] == t[i]
    ensures Val(M, t') == Val(M, t) + Mul(Mul(a, b), Pow(M, j))
  {
    hide Mul, Pow, Val;
    var d, e := t'[j] - t[j], t'[j + 1] - t[j + 1];
    MulAdd(t[j + 1], e, M);
    TwoLanes(M, t, t', j, d, e);
  }

  lemma UnitAlgebra(v: nat, xj: nat, y: nat, p: nat, q: nat)
    ensures Mul(Mul(v + Mul(xj, p), y), q) == Mul(Mul(v, y), q) + Mul(Mul(xj, y), Mul(p, q))
  {
    calc {
      (v + xj * p) * y * q;
      v * y * q + (xj * p) * y * q;
      { assert (xj * p) * y == (xj * y) * p; }
      v * y * q + ((xj * y) * p) * q;
      { assert ((xj * y) * p) * q == (xj * y) * (p * q); }
      v * y * q + (xj * y) * (p * q);
    }
  }

  // ----- the rounds -----

  /** What `gen_vmul` is given: limbs of x, y and p, and the coefficient of p. */
  ghost predicate VArgs(M: nat, C: nat, N: nat, x: seq<nat>, y: seq<nat>, p: seq<nat>, rp: nat) {
    && RoomInLanes(M, C, N) && |x| == |y| == |p| == N
    && IsLimbs(M, x) && IsLimbs(M, y) && IsLimbs(M, p)
    && Val(M, x) < Val(M, p) && IsMontCoeff(M, Val(M, p), rp)
  }

  const M52: nat := 0x10_0000_0000_0000
  const C64: nat := 0x1_0000_0000_0000_0000

  /** 64-bit lanes have room for up to 511 limbs of 52 bits; the emitted code has eight. */
  lemma EmittedLanesHaveRoom(N: nat)
    ensures RoomInLanes(M52, C64, N) <==> 1 <= N <= 511
  {
    hide Quo, Rem;
    assert Mul(4096, M52) + 0 == C64;
    QuoRemUnique(C64, M52, 4096, 0);
  }

  /** So every pair of numbers below a modulus of so many limbs may be multiplied. */
  lemma EmittedArguments(N: nat, x: nat, y: nat, p: nat, rp: nat)
    requires 1 <= N <= 511 && x < p < Pow(M52, N) && y < Pow(M52, N) && IsMontCoeff(M52, p, rp)
    ensures VArgs(M52, C64, N, ToLimbs(M52, N, x), ToLimbs(M52, N, y), ToLimbs(M52, N, p), rp)
  {
    hide Mul, Pow, Val, Rem, ToLimbs, RoomInLanes;
    EmittedLanesHaveRoom(N);
    ToLimbsVal(M52, N, x);
    ToLimbsVal(M52, N, y);
    ToLimbsVal(M52, N, p);
  }

  /** The lanes after i rounds: small enough, and standing for M * s with s as in `Montgomery.Rounds`. */
  ghost predicate Accumulated(M: nat, N: nat, x: seq<nat>, y: seq<nat>, p: seq<nat>, i: nat, t: seq<nat>, s: nat, Q: nat)
    requires i <= |y|
  {
    && |t| == N + 1 && Val(M, t) == Mul(s, M) && Rounds(M, Val(M, p), Val(M, x), y, i, s, Q)
    && (s < Val(M, x) + Val(M, p) || s == 0)
    && M > 0 && Rem(t[0], M) == 0
    && t[0] < Mul(4 * i + 1, M) && forall j :: 1 <= j <= N ==> t[j] < Mul(4 * i, M) || t[j] == 0
  }

  /** `shift`: lane 0 is kept in H, the others move down by one. */
  method Shift(t: array<nat>) returns (H: nat)
    requires t.Length >= 1
    modifies t
    ensures H == old(t[0]) && t[..] == old(t[1..]) + [0]
  {
    H := t[0];
    for i := 1 to t.Length
      invariant forall j :: 0 <= j < i - 1 ==> t[j] == old(t[j + 1])
      invariant forall j :: i - 1 <= j < t.Length ==> t[j] == old(t[j])
    {
      t[i - 1] := t[i];
    }
    t[t.Length - 1] := 0;
  }

  lemma ShiftValue(M: nat, t: seq<nat>, s: nat)
    requires M > 0 && |t| >= 1 && Val(M, t) == Mul(s, M) && Rem(t[0], M) == 0
    ensures Val(M, t[1..] + [0]) + Quo(t[0], M) == s
  {
    hide Mul, Pow, Val, Rem, Quo;
    assert t == [t[0]] + t[1..];
    ValCons(M, t[0], t[1..]);
    ValSnoc(M, t[1..], 0);
    MulUnits(Pow(M, |t| - 1));
    QuoRem(t[0], M);
    MulComm(M, Val(M, t[1..]));
    MulAdd(Quo(t[0], M), Val(M, t[1..]), M);
    MulCancelEq(Val(M, t[1..]) + Quo(t[0], M), s, M);
  }

  /** Lane 0 alone decides the value modulo M. */
  lemma LowLane(M: nat, t: seq<nat>)
    requires M > 0 && |t| >= 1
    ensures Rem(Val(M, t), M) == Rem(t[0], M)
  {
    hide Mul, Pow, Val, Rem, Quo;
    assert t == [t[0]] + t[1..];
    ValCons(M, t[0], t[1..]);
    MulComm(M, Val(M, t[1..]));
    MulUnits(M);
    CongIntro(M, Val(M, t), t[0], 0, Val(M, t[1..]));
  }

  /** `vmulL(q, t[0], rp)` on a cleared register: the quotient limb. */
  lemma QuotientLimb(M: nat, C: nat, t: seq<nat>, rp: nat)
    requires M > 0 && M <= C && |t| >= 1 && rp < M
    ensures MaddLo(M, C, 0, t[0], rp) == Rem(Mul(Rem(Val(M, t), M), rp), M)
  {
    hide Mul, Val, Quo;
    LowLane(M, t);
  }

  /** After p * q has been added, the accumulator is a multiple of M again. */
  lemma RoundDone(M: nat, pv: nat, rp: nat, xv: nat, y: seq<nat>, i: nat, s: nat, Q: nat, a: nat, t: seq<nat>)
    requires i < |y| && IsLimbs(M, y) && IsMontCoeff(M, pv, rp) && pv > 0
    requires Rounds(M, pv, xv, y, i, s, Q) && (s < xv + pv || s == 0) && |t| >= 1
    requires a == s + Mul(xv, y[i]) && Val(M, t) == a + Mul(pv, Rem(Mul(Rem(a, M), rp), M))
    ensures var q := Rem(Mul(Rem(a, M), rp), M);
      var s' := Quo(a + Mul(pv, q), M);
      && Val(M, t) == Mul(s', M) && Rem(t[0], M) == 0 && s' < xv + pv
      && Rounds(M, pv, xv, y, i + 1, s', Q + Mul(q, Pow(M, i)))
  {
    hide Mul, Pow, Val, Rem, Quo;
    NextRound(M, pv, rp, xv, y, i, s, Q);
    RoundExact(M, pv, rp, a);
    QuotientWord(M, pv, rp, a);
    LowLane(M, t);
  }

  /** The multiply-and-reduce part of a round, on an accumulator that already has been shifted. */
  method AddProducts(M: nat, C: nat, N: nat, x: seq<nat>, y: seq<nat>, p: seq<nat>, rp: nat, t: array<nat>, i: nat,
                     carry: nat, ghost s: nat, ghost Q: nat) returns (ghost s': nat, ghost Q': nat)
    requires VArgs(M, C, N, x, y, p, rp) && i < N && t.Length == N + 1
    requires Rounds(M, Val(M, p), Val(M, x), y, i, s, Q) && (s < Val(M, x) + Val(M, p) || s == 0)
    requires Val(M, t[..]) + carry == s && carry < M
    requires forall j :: 0 <= j <= N ==> t[j] < Mul(4 * i, M) || t[j] == 0
    modifies t
    ensures Accumulated(M, N, x, y, p, i + 1, t[..], s', Q')
  {
    hide Mul, Pow, Val, Rem, Quo, MaddLo, Rounds, IsMontCoeff;
    ghost var b, pv, xv := Mul(4 * i, M), Val(M, p), Val(M, x);
    LaneRoom(M, C, N, i);
    PowSmall(M);
    MulUnits(Mul(xv, y[i]));
    MulUnits(carry);
    MulUnitAdd(M, C, t, 0, x, y[i], N, b + 1);
    ghost var ts := t[..];
    t[0] := WrapAdd(C, t[0], carry);
    OneLane(M, ts, t[..], 0, carry);
    ghost var a := Val(M, t[..]);
    CoeffIsLimb(M, pv, rp);
    QuotientLimb(M, C, t[..], rp);
    var q := MaddLo(M, C, 0, t[0], rp);
    MulUnits(Mul(pv, q));
    MulUnitAdd(M, C, t, 0, p, q, N, b + 3 * M);
    RoundDone(M, pv, rp, xv, y, i, s, Q, a, t[..]);
    s', Q' := Quo(a + Mul(pv, q), M), Q + Mul(q, Pow(M, i));
    assert t[..][0] == t[0];
  }

  lemma CoeffIsLimb(M: nat, p: nat, rp: nat)
    requires IsMontCoeff(M, p, rp)
    ensures rp < M
  {
  }

  lemma LaneRoom(M: nat, C: nat, N: nat, i: nat)
    requires RoomInLanes(M, C, N) && i < N
    ensures Mul(4 * i, M) + 5 * M <= C && Mul(4 * i, M) + 4 * M == Mul(4 * (i + 1), M)
    ensures Mul(4 * (i + 1) + 1, M) == Mul(4 * i, M) + 5 * M && M <= C
  {
    hide Mul;
    MulAdd(4 * i, 4, M);
    MulAdd(4 * i, 5, M);
    Few(M);
    MulMono(4 * i + 5, 4 * (N + 1), M);
  }

  lemma Few(M: nat)
    ensures Mul(4, M) == 4 * M && Mul(5, M) == 5 * M
  {
  }

  /** One turn of the loop: shift, add x * y[i], propagate the shifted-out carry, add p * q. */
  method Round(M: nat, C: nat, N: nat, x: seq<nat>, y: seq<nat>, p: seq<nat>, rp: nat, t: array<nat>, i: nat,
               ghost s: nat, ghost Q: nat) returns (ghost s': nat, ghost Q': nat)
    requires VArgs(M, C, N, x, y, p, rp) && i < N && Accumulated(M, N, x, y, p, i, t[..], s, Q) && t.Length == N + 1
    modifies t
    ensures Accumulated(M, N, x, y, p, i + 1, t[..], s', Q')
  {
    hide Mul, Pow, Val, Rem, Quo, Rounds, IsMontCoeff;
    assert t[..][0] == t[0];
    ShiftValue(M, t[..], s);
    assert t[..][1..] == t[1..];
    QuoBound(t[0], M, 4 * i + 1);
    assert forall j :: 1 <= j <= N ==> t[..][j] == t[j];
    var H := Shift(t);
    s', Q' := AddProducts(M, C, N, x, y, p, rp, t, i, Quo(H, M), s, Q);
  }

  // ----- normalization and the final conditional subtraction -----

  /** Moving the excess of lane j - 1 up to lane j keeps the value. */
  lemma CarryUp(M: nat, t: seq<nat>, t': seq<nat>, j: nat)
    requires M > 0 && |t| == |t'| && 1 <= j < |t|
    requires t'[j - 1] == Rem(t[j - 1], M) && t'[j] == t[j] + Quo(t[j - 1], M)
    requires forall i :: 0 <= i < |t| && i != j && i != j - 1 ==> t'[i] == t[i]
    ensures Val(M, t') == Val(M, t)
  {
    hide Mul, Pow, Val, Rem, Quo;
    var q := Quo(t[j - 1], M);
    QuoRem(t[j - 1], M);
    OneLane(M, t', t'[j - 1 := t[j - 1]], j - 1, Mul(q, M));
    OneLane(M, t, t'[j - 1 := t[j - 1]], j, q);
    PowStep(M, j - 1);
    MulAssoc(q, M, Pow(M, j - 1));
  }

  /** Carries lanes lo .. hi - 1 upward and masks them. */
  method Normalize(M: nat, C: nat, t: array<nat>, lo: nat, hi: nat, ghost bound: nat)
    requires M >= 2 && lo < hi < t.Length && 2 * bound <= C
    requires forall j :: lo <= j <= hi ==> t[j] < bound
    modifies t
    ensures Val(M, t[..]) == old(Val(M, t[..])) && t[lo] == Rem(old(t[lo]), M)
    ensures forall j :: lo <= j < hi ==> t[j] < M
    ensures forall j :: 0 <= j < t.Length && !(lo <= j <= hi) ==> t[j] == old(t[j])
    ensures t[hi] < C
  {
    hide Mul, Pow, Val, Rem, Quo;
    for i := lo + 1 to hi + 1
      invariant Val(M, t[..]) == old(Val(M, t[..])) && (i == lo + 1 ==> t[lo] == old(t[lo]))
      invariant i > lo + 1 ==> t[lo] == Rem(old(t[lo]), M)
      invariant forall j :: lo <= j < i - 1 ==> t[j] < M
      invariant forall j :: i <= j <= hi ==> t[j] < bound
      invariant t[i - 1] < 2 * bound
      invariant forall j :: 0 <= j < t.Length && !(lo <= j <= hi) ==> t[j] == old(t[j])
    {
      ghost var ts := t[..];
      var q := Quo(t[i - 1], M);
      HalfOrLess(t[i - 1], M);
      t[i] := WrapAdd(C, t[i], q);
      t[i - 1] := Rem(t[i - 1], M);
      CarryUp(M, ts, t[..], i);
    }
  }

  lemma HalfOrLess(v: nat, M: nat)
    requires M >= 2
    ensures 2 * Quo(v, M) <= v
  {
    hide Mul, Rem, Quo;
    QuoRem(v, M);
    MulMono(2, M, Quo(v, M));
    MulComm(2, Quo(v, M));
    Two(Quo(v, M));
  }

  /** A lane difference below zero wraps to a number whose sign bit is set and whose low limb is right. */
  lemma WrappedLane(M: nat, C: nat, t: nat, p: nat, c: nat)
    requires M >= 2 && Rem(C, M) == 0 && 8 * M <= C && t < M && p < M && c <= 1
    ensures var s := WrapSub(C, WrapSub(C, t, p), c);
      (2 * s >= C <==> t < p + c) && Rem(s, M) == t + (if t < p + c then M else 0) - p - c
  {
    hide Mul, Rem, Quo;
    var s := WrapSub(C, WrapSub(C, t, p), c);
    if t < p + c {
      QuoRem(C, M);
      MulUnits(M);
      MulCancelLt(0, Quo(C, M), M);
      MulSub(Quo(C, M), 1, M);
      QuoRemUnique(s, M, Quo(C, M) - 1, t + M - p - c);
    }
  }

  /** t >= p ? t - p : t on normalized limbs, with the sign bit of the last lane as the condition. */
  method SubPIfPossible(M: nat, C: nat, N: nat, t: seq<nat>, p: seq<nat>) returns (z: array<nat>)
    requires M >= 2 && Rem(C, M) == 0 && 8 * M <= C && |t| == |p| == N && IsLimbs(M, t) && IsLimbs(M, p)
    ensures fresh(z) && z.Length == N && IsLimbs(M, z[..])
    ensures Val(M, z[..]) == if Val(M, t) < Val(M, p) then Val(M, t) else Val(M, t) - Val(M, p)
  {
    hide Mul, Pow, Val, Rem, Quo, WrapSub;
    z := new nat[N];
    var s := new nat[N];
    var c := 0;
    for i := 0 to N
      invariant c == BorrowIn(M, t, p, i)
      invariant forall j :: 0 <= j < i ==> Rem(s[j], M) == DiffLimb(M, t, p, j)
    {
      WrappedLane(M, C, t[i], p[i], c);
      s[i] := WrapSub(C, WrapSub(C, t[i], p[i]), c);
      c := Bit(2 * s[i] >= C);
    }
    for i := 0 to N
      invariant forall j :: 0 <= j < N ==> Rem(s[j], M) == DiffLimb(M, t, p, j)
      invariant forall j :: 0 <= j < i ==> z[j] == if c == 0 then Rem(s[j], M) else t[j]
    {
      z[i] := if c == 0 then Rem(s[i], M) else t[i];
    }
    SelectValue(M, t, p, z[..], c);
  }

  lemma SelectValue(M: nat, t: seq<nat>, p: seq<nat>, z: seq<nat>, c: nat)
    requires M >= 2 && |t| == |p| == |z| && IsLimbs(M, t) && IsLimbs(M, p) && c == BorrowIn(M, t, p, |t|)
    requires forall j :: 0 <= j < |z| ==> z[j] == if c == 0 then DiffLimb(M, t, p, j) else t[j]
    ensures IsLimbs(M, z)
    ensures Val(M, z) == if Val(M, t) < Val(M, p) then Val(M, t) else Val(M, t) - Val(M, p)
  {
    hide Mul, Pow, Val;
    var d := DiffSeq(M, t, p, |t|);
    DiffLimbs(M, t, p, d);
    assert t[..|t|] == t && p[..|t|] == p;
    ValBound(M, d);
    MulUnits(Pow(M, |t|));
    if c == 0 {
      assert z == d;
    } else {
      assert z == t;
    }
  }

  /** The first n columns of a limb-wise difference. */
  ghost function DiffSeq(M: nat, t: seq<nat>, p: seq<nat>, n: nat): (d: seq<nat>)
    requires n <= |t| == |p| && IsLimbs(M, t) && IsLimbs(M, p)
    ensures |d| == n && forall j :: 0 <= j < n ==> d[j] == DiffLimb(M, t, p, j)
  {
    if n == 0 then [] else DiffSeq(M, t, p, n - 1) + [DiffLimb(M, t, p, n - 1)]
  }

  /** A sum of limbs whose value is below M^N leaves the top lane below M. */
  lemma TopLane(M: nat, N: nat, t: seq<nat>)
    requires N >= 1 && |t| == N && M >= 2 && Val(M, t) < Pow(M, N) && forall j :: 0 <= j < N - 1 ==> t[j] < M
    ensures IsLimbs(M, t)
  {
    hide Mul, Pow, Val;
    assert t == t[..N - 1] + [t[N - 1]];
    ValSnoc(M, t[..N - 1], t[N - 1]);
    PowStep(M, N - 1);
    MulCancelLt(t[N - 1], M, Pow(M, N - 1));
  }

  /**
  z = x * y / M^N modulo p, fully reduced, for x below p and any limbs of y, whenever twice p
  leaves the top limb room.
  */
  method VMul(M: nat, C: nat, N: nat, x: seq<nat>, y: seq<nat>, p: seq<nat>, rp: nat) returns (z: array<nat>)
    requires VArgs(M, C, N, x, y, p, rp) && 2 * Val(M, p) <= Pow(M, N)
    ensures fresh(z) && z.Length == N && IsLimbs(M, z[..])
    ensures IsMontProduct(M, N, Val(M, p), Mul(Val(M, x), Val(M, y)), Val(M, z[..]))
  {
    hide Mul, Pow, Val, Rem, Quo, Rounds, IsMontCoeff;
    var t := new nat[N + 1];
    ClearN(t, 0, N + 1);
    ghost var s: nat, Q: nat := 0, 0;
    StartLanes(M, C, N, x, y, p, t[..]);
    for i := 0 to N
      invariant Accumulated(M, N, x, y, p, i, t[..], s, Q)
    {
      s, Q := Round(M, C, N, x, y, p, rp, t, i, s, Q);
    }
    z := Conclude(M, C, N, x, y, p, rp, t, s, Q);
  }

  lemma StartLanes(M: nat, C: nat, N: nat, x: seq<nat>, y: seq<nat>, p: seq<nat>, t: seq<nat>)
    requires M >= 2 && |t| == N + 1 && forall j :: 0 <= j <= N ==> t[j] == 0
    ensures Accumulated(M, N, x, y, p, 0, t, 0, 0)
  {
    hide Mul, Pow, Val;
    ValZeros(M, t);
    MulUnits(M);
    FirstRound(M, Val(M, p), Val(M, x), y);
  }

  /** The code after the loop. */
  method Conclude(M: nat, C: nat, N: nat, x: seq<nat>, y: seq<nat>, p: seq<nat>, rp: nat, t: array<nat>,
                  ghost s: nat, ghost Q: nat) returns (z: array<nat>)
    requires VArgs(M, C, N, x, y, p, rp) && 2 * Val(M, p) <= Pow(M, N) && t.Length == N + 1
    requires Accumulated(M, N, x, y, p, N, t[..], s, Q)
    modifies t
    ensures fresh(z) && z.Length == N && IsLimbs(M, z[..])
    ensures IsMontProduct(M, N, Val(M, p), Mul(Val(M, x), Val(M, y)), Val(M, z[..]))
  {
    hide Mul, Pow, Val, Rem, Quo, IsMontCoeff;
    LaneRoom(M, C, N, N - 1);
    ghost var b := Mul(4 * N + 1, M);
    assert forall j :: 0 <= j <= N ==> t[..][j] == t[j];
    MulMono(4 * N + 1, 4 * (N + 1), M);
    MulMono(4 * N, 4 * N + 1, M);
    MulPos(4 * N + 1, M);
    Normalize(M, C, t, 0, N, b);
    assert t[..] == [0] + t[1..];
    ValCons(M, 0, t[1..]);
    MulComm(M, s);
    MulComm(M, Val(M, t[1..]));
    MulCancelEq(Val(M, t[1..]), s, M);
    TopLane(M, N, t[1..]);
    z := SubPIfPossible(M, C, N, t[1..], p);
    assert y[..N] == y;
    FinalSubtraction(M, N, Val(M, p), Mul(Val(M, x), Val(M, y)), s, Q);
  }

  /** The routine on numbers: split into 52-bit limbs, multiplied in 64-bit lanes, joined again. */
  method MulNumbers(N: nat, x: nat, y: nat, p: nat, rp: nat) returns (z: nat)
    requires 1 <= N <= 511 && x < p && 2 * p <= Pow(M52, N) && y < Pow(M52, N) && IsMontCoeff(M52, p, rp)
    ensures IsMontProduct(M52, N, p, Mul(x, y), z)
  {
    hide Mul, Pow, Val, Rem, ToLimbs, RoomInLanes, IsMontCoeff, IsMontProduct;
    EmittedArguments(N, x, y, p, rp);
    ToLimbsVal(M52, N, x);
    ToLimbsVal(M52, N, y);
    ToLimbsVal(M52, N, p);
    var t := VMul(M52, C64, N, ToLimbs(M52, N, x), ToLimbs(M52, N, y), ToLimbs(M52, N, p), rp);
    z := Val(M52, t[..]);
  }
}
