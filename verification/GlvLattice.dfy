/**
Scalar decomposition over big integers (`mcl/src/glv.hpp`): the two-dimensional lattice split of
`GLV1T`, the four-dimensional one of `GLV2` for BN curves, and the base-|z| digits of `GLV2` for
BLS12 curves. Here numbers are signed and `>> k` rounds toward minus infinity, as `/` by a
positive number does.
*/
module GlvLattice {
  import opened Limbs

  // ----- GLV1T -----

  datatype Basis = Basis(b00: int, b01: int, b10: int, b11: int)

  datatype Halves = Halves(a: int, b: int)

  /** The last step of `GLV1T::split`: x minus t times the first row and b times the second. */
  function Combine2(B: Basis, t: int, b: int, x: int): Halves {
    Halves(x - (t * B.b00 + b * B.b10), -(t * B.b01 + b * B.b11))
  }

  /** `GLV1T::split`, with x already reduced. */
  function Split2(B: Basis, v0: int, v1: int, k: nat, x: int): Halves {
    Combine2(B, (x * v0) / Pow(2, k), (x * v1) / Pow(2, k), x)
  }

  /** Both rows of the basis vanish at lambda modulo r; m and n are the cofactors. */
  ghost predicate InLattice(B: Basis, lambda: int, r: int, m: int, n: int) {
    B.b00 + B.b01 * lambda == r * m && B.b10 + B.b11 * lambda == r * n
  }

  /** Whatever multiples of the rows are subtracted, the halves recompose to x modulo r. */
  lemma Recompose(B: Basis, t: int, b: int, x: int, lambda: int, r: int, m: int, n: int)
    requires InLattice(B, lambda, r, m, n)
    ensures Combine2(B, t, b, x).a + Combine2(B, t, b, x).b * lambda == x - r * (t * m + b * n)
  {
    calc {
      (x - (t * B.b00 + b * B.b10)) + (-(t * B.b01 + b * B.b11)) * lambda;
      x - t * (B.b00 + B.b01 * lambda) - b * (B.b10 + B.b11 * lambda);
      x - t * (r * m) - b * (r * n);
      x - r * (t * m + b * n);
    }
  }

  /** So `GLV1T::split` is right for any table and shift; those only decide how short the halves are. */
  lemma Split2Recomposes(B: Basis, v0: int, v1: int, k: nat, x: int, lambda: int, r: int, m: int, n: int)
    requires InLattice(B, lambda, r, m, n)
    ensures exists c :: Split2(B, v0, v1, k, x).a + Split2(B, v0, v1, k, x).b * lambda == x - r * c
  {
    hide InLattice, Combine2, Pow;
    var t, b := (x * v0) / Pow(2, k), (x * v1) / Pow(2, k);
    Recompose(B, t, b, x, lambda, r, m, n);
  }

  /** BN curves: the order and the eigenvalue as polynomials of the curve parameter. */
  function OrderBN(z: int): int {
    36 * z * z * z * z + 36 * z * z * z + 18 * z * z + 6 * z + 1
  }

  function BasisBN(z: int): Basis {
    Basis(6 * z * z + 2 * z, -2 * z - 1, -2 * z - 1, -6 * z * z - 4 * z - 1)
  }

  /** For every z the rows that `init` stores lie in the lattice of lambda = 36 z^4 - 1. */
  lemma BasisBNInLattice(z: int)
    ensures InLattice(BasisBN(z), 36 * z * z * z * z - 1, OrderBN(z), 1 - 2 * z, 2 * z - 6 * z * z)
  {
  }

  // ----- secp256k1 -----

  const N256: int := 0xFFFFFFFF_FFFFFFFF_FFFFFFFF_FFFFFFFE_BAAEDCE6_AF48A03B_BFD25E8C_D0364141
  const BasisSecp: Basis := Basis(0x3086d221a7d46bcde86c90e49284eb15, -0xe4437ed6010e88286f547fa90abfe4c3,
                                  0x114ca50f7a8e2f3f657c1108d9d44cfd8, 0x3086d221a7d46bcde86c90e49284eb15)

  lemma SecpDeterminant()
    ensures BasisSecp.b00 * BasisSecp.b11 - BasisSecp.b01 * BasisSecp.b10 == N256
  {
  }

  /** The eigenvalue modulo the order: a cube root of one at which both rows vanish. */
  const LambdaSecp: int := 0x5363ad4c_c05c30e0_a5261c02_8812645a_122e22ea_20816678_df02967c_1b23bd72

  lemma BasisSecpInLattice()
    ensures InLattice(BasisSecp, LambdaSecp, N256, -0x4a5ac2bf7b5f37f9f1db10d7a2a9c981, 0xfce9b1dd4eb7dd2718a2906787061b2)
    ensures LambdaSecp * LambdaSecp + LambdaSecp + 1
         == N256 * 0x1b29c92f436961feda2d80bf0132192d742f75b6e07a478c03a79ce97fce2f77
  {
  }

  /**
  Multiplying by the precomputed c * K / r and shifting underestimates x * c / r by less than 5/4,
  when the division left no more than a quarter of K.
  */
  lemma Rounding(x: nat, c: nat, r: nat, K: nat)
    requires 0 < r && x < r <= K && 4 * Rem(Mul(c, K), r) <= K
    ensures var t := Quo(Mul(x, Quo(Mul(c, K), r)), K); Mul(r, t) <= Mul(x, c) && 4 * Mul(x, c) < 4 * Mul(r, t) + 5 * r
  {
    hide *;
    var v := Quo(Mul(c, K), r);
    var t := Quo(Mul(x, v), K);
    QuoRem(Mul(c, K), r);
    QuoRem(Mul(x, v), K);
    var e, f := Rem(Mul(c, K), r), Rem(Mul(x, v), K);
    // K * (x * c) == K * (r * t) + x * e + r * f
    MulAdd(Mul(v, r), e, x);
    MulAssoc(x, v, r);
    MulAdd(Mul(t, K), f, r);
    MulComm(Mul(x, v), r);
    Regroup(x, c, K, r, t);
    // 4 * (x * e) <= K * r and r * f < K * r
    MulLe(x, e, r, e);
    FourTimes(e, K, r);
    MulComm(r, e);
    MulStrict(f, K, r);
    MulComm(f, r);
    FourTimes(Mul(x, c), 4 * Mul(x, c), K);
    FourTimes(Mul(r, t), 4 * Mul(r, t), K);
    FiveTimes(r, K);
    MulAdd(4 * Mul(r, t), 5 * r, K);
    MulCancelLt(4 * Mul(x, c), 4 * Mul(r, t) + 5 * r, K);
    MulCancelLe(Mul(r, t), Mul(x, c), K);
  }

  lemma FourTimes(a: nat, b: nat, c: nat)
    requires 4 * a <= b
    ensures 4 * Mul(a, c) == Mul(4 * a, c) <= Mul(b, c)
  {
    MulMono(4 * a, b, c);
    assert 4 * (a * c) == 4 * a * c;
  }

  lemma FiveTimes(r: nat, K: nat)
    ensures Mul(5 * r, K) == 5 * Mul(K, r)
  {
    assert 5 * r * K == 5 * (K * r);
  }

  lemma Regroup(x: nat, c: nat, K: nat, r: nat, t: nat)
    ensures Mul(x, Mul(c, K)) == Mul(Mul(x, c), K) && Mul(r, Mul(t, K)) == Mul(Mul(r, t), K)
  {
    hide *;
    MulAssoc(x, c, K);
    MulAssoc(r, t, K);
  }

  /** v = (c << k) / r. */
  function Reciprocal(c: nat, k: nat, r: nat): nat
    requires r > 0
  {
    Quo(Mul(c, Pow(2, k)), r)
  }

  /** (x * v) >> k. */
  function Shifted(x: nat, v: nat, k: nat): nat {
    Quo(Mul(x, v), Pow(2, k))
  }

  lemma ShiftedIsFloor(x: nat, v: nat, k: nat)
    ensures Shifted(x, v, k) == (x * v) / Pow(2, k)
  {
    hide Pow;
    QuoRemAreDivMod(Mul(x, v), Pow(2, k));
  }

  /** `GLV1T::split` with the constants of `initForSecp256k1` and its 256-bit shift. */
  function SplitSecp(x: nat): Halves {
    Combine2(BasisSecp, Shifted(x, Reciprocal(BasisSecp.b11, 256, N256), 256),
             Shifted(x, Reciprocal(-BasisSecp.b01, 256, N256), 256), x)
  }

  /**
  The halves of every scalar below the order recompose to it modulo the order, and they are short:
  the first lies between 0 and 1.6 * 2^128, the second between -1.2 * 2^128 and 0.3 * 2^128.
  */
  lemma SplitSecpIsShort(x: nat)
    requires x < N256
    ensures exists k :: SplitSecp(x).a + SplitSecp(x).b * LambdaSecp == x - N256 * k
    ensures 0 <= 4 * SplitSecp(x).a < 5 * (BasisSecp.b00 + BasisSecp.b10)
    ensures 5 * BasisSecp.b01 < 4 * SplitSecp(x).b < 5 * BasisSecp.b11
  {
    hide Mul, Pow, Quo, Rem, InLattice, Combine2;
    ShiftSecp();
    SmallRemainders();
    Rounding(x, BasisSecp.b11, N256, Pow(2, 256));
    Rounding(x, -BasisSecp.b01, N256, Pow(2, 256));
    var t, b := Shifted(x, Reciprocal(BasisSecp.b11, 256, N256), 256),
                Shifted(x, Reciprocal(-BasisSecp.b01, 256, N256), 256);
    SplitSecpIsSplit2(x);
    BasisSecpInLattice();
    Split2Recomposes(BasisSecp, Reciprocal(BasisSecp.b11, 256, N256), Reciprocal(-BasisSecp.b01, 256, N256), 256, x,
                     LambdaSecp, N256, -0x4a5ac2bf7b5f37f9f1db10d7a2a9c981, 0xfce9b1dd4eb7dd2718a2906787061b2);
    ShortHalves(x, t, b);
  }

  /** The secp256k1 split is the general one with its constants. */
  lemma SplitSecpIsSplit2(x: nat)
    ensures SplitSecp(x)
         == Split2(BasisSecp, Reciprocal(BasisSecp.b11, 256, N256), Reciprocal(-BasisSecp.b01, 256, N256), 256, x)
  {
    hide Pow, Mul, Quo, Combine2, Reciprocal;
    ShiftedIsFloor(x, Reciprocal(BasisSecp.b11, 256, N256), 256);
    ShiftedIsFloor(x, Reciprocal(-BasisSecp.b01, 256, N256), 256);
  }

  const K256: nat := 0x1_0000000000000000_0000000000000000_0000000000000000_0000000000000000

  lemma ShiftSecp()
    ensures Pow(2, 256) == K256 >= N256
  {
    hide Pow;
    PowSmall(2);
    PowAdd(2, 1, 1);
    PowAdd(2, 2, 2);
    PowAdd(2, 4, 4);
    PowAdd(2, 8, 8);
    PowAdd(2, 16, 16);
    PowAdd(2, 32, 32);
    PowAdd(2, 64, 64);
    PowAdd(2, 128, 128);
  }

  /** The two precomputed divisions leave less than a quarter of 2^256. */
  lemma SmallRemainders()
    ensures 4 * Rem(Mul(BasisSecp.b11, K256), N256) <= K256 && 4 * Rem(Mul(-BasisSecp.b01, K256), N256) <= K256
  {
    hide Quo, Rem;
    QuoRemUnique(Mul(BasisSecp.b11, K256), N256, 0x3086d221a7d46bcde86c90e49284eb15,
                 0x3daa8a1471e8ca7fe893209a45dbb0309c244f20bb8e4702b326003c6621faab);
    QuoRemUnique(Mul(-BasisSecp.b01, K256), N256, 0xe4437ed6010e88286f547fa90abfe4c4,
                 0x221208ac9df506c61571b4ae8ac47f711b1c8205faa6ed42c50468d00ad9263c);
  }

  /** The rounding errors, weighted by the basis, are the halves themselves. */
  lemma ShortHalves(x: nat, t: nat, b: nat)
    requires Mul(N256, t) <= Mul(x, BasisSecp.b11) && 4 * Mul(x, BasisSecp.b11) < 4 * Mul(N256, t) + 5 * N256
    requires Mul(N256, b) <= Mul(x, -BasisSecp.b01) && 4 * Mul(x, -BasisSecp.b01) < 4 * Mul(N256, b) + 5 * N256
    ensures 0 <= 4 * Combine2(BasisSecp, t, b, x).a < 5 * (BasisSecp.b00 + BasisSecp.b10)
    ensures 5 * BasisSecp.b01 < 4 * Combine2(BasisSecp, t, b, x).b < 5 * BasisSecp.b11
  {
    SecpDeterminant();
  }

  // ----- GLV2 on BN curves -----

  /** Four coefficients of 1, l, l^2 and l^3. */
  datatype Quad = Quad(c0: int, c1: int, c2: int, c3: int)

  /** a + l * b. */
  function Step(a: int, l: int, b: int): int {
    a + l * b
  }

  function Eval(q: Quad, l: int): int {
    Step(q.c0, l, Step(q.c1, l, Step(q.c2, l, q.c3)))
  }

  /** Row j of the matrix that `GLV2::init` stores. */
  function RowBN(z: int, j: nat): Quad
    requires j < 4
  {
    match j
    case 0 => Quad(z + 1, z, z, -2 * z)
    case 1 => Quad(2 * z + 1, -z, -(z + 1), -z)
    case 2 => Quad(2 * z, 2 * z + 1, 2 * z + 1, 2 * z + 1)
    case _ => Quad(z - 1, 2 * (2 * z + 1), -2 * z + 1, z - 1)
  }

  /** The cofactor of row j: its value at lambda = 6 z^2 divided by the order. */
  function CofactorBN(z: int, j: nat): int
    requires j < 4
  {
    match j
    case 0 => 1 + z * (-5 + z * (12 + z * -12))
    case 1 => 1 + z * (-4 + z * (6 + z * -6))
    case 2 => z * (2 + z * (-6 + z * 12))
    case _ => -1 + z * (7 + z * (-12 + z * 6))
  }

  /** For every z each row vanishes at lambda = 6 z^2 modulo the order. */
  lemma RowBNInLattice(z: int, j: nat)
    requires j < 4
    ensures Eval(RowBN(z, j), 6 * z * z) == OrderBN(z) * CofactorBN(z, j)
  {
    hide Eval, OrderBN, CofactorBN, RowBN;
    if j == 0 {
      Row0(z);
    } else if j == 1 {
      Row1(z);
    } else if j == 2 {
      Row2(z);
    } else {
      Row3(z);
    }
  }

  lemma Row0(z: int)
    ensures Eval(RowBN(z, 0), 6 * z * z) == OrderBN(z) * CofactorBN(z, 0)
  {
  }

  lemma Row1(z: int)
    ensures Eval(RowBN(z, 1), 6 * z * z) == OrderBN(z) * CofactorBN(z, 1)
  {
  }

  lemma Row2(z: int)
    ensures Eval(RowBN(z, 2), 6 * z * z) == OrderBN(z) * CofactorBN(z, 2)
  {
  }

  lemma Row3(z: int)
    ensures Eval(RowBN(z, 3), 6 * z * z) == OrderBN(z) * CofactorBN(z, 3)
  {
  }

  /** u -= t * row. */
  function Minus(u: Quad, t: int, row: Quad): Quad {
    Quad(Step(u.c0, -t, row.c0), Step(u.c1, -t, row.c1), Step(u.c2, -t, row.c2), Step(u.c3, -t, row.c3))
  }

  /** Evaluation is linear in the coefficients. */
  lemma EvalMinus(u: Quad, t: int, row: Quad, l: int)
    ensures Eval(Minus(u, t, row), l) == Step(Eval(u, l), -t, Eval(row, l))
  {
    hide Step;
    var u2, r2 := Step(u.c2, l, u.c3), Step(row.c2, l, row.c3);
    LinearStep(u.c2, -t, row.c2, u.c3, row.c3, l);
    LinearStep(u.c1, -t, row.c1, u2, r2, l);
    LinearStep(u.c0, -t, row.c0, Step(u.c1, l, u2), Step(row.c1, l, r2), l);
  }

  lemma LinearStep(a: int, t: int, b: int, c: int, d: int, l: int)
    ensures Step(Step(a, t, b), l, Step(c, t, d)) == Step(Step(a, l, c), t, Step(b, l, d))
  {
    calc {
      (a + t * b) + l * (c + t * d);
      (a + l * c) + t * (b + l * d);
    }
  }

  /** x in the first place, minus t0 .. t3 times the rows. */
  function Combine4(z: int, t: Quad, x: int): Quad {
    Minus(Minus(Minus(Minus(Quad(x, 0, 0, 0), t.c0, RowBN(z, 0)), t.c1, RowBN(z, 1)), t.c2, RowBN(z, 2)),
          t.c3, RowBN(z, 3))
  }

  /** `GLV2::split` for BN curves with the table v. */
  function Split4(z: int, v: Quad, k: nat, x: int): Quad {
    var K := Pow(2, k);
    Combine4(z, Quad((x * v.c0) / K, (x * v.c1) / K, (x * v.c2) / K, (x * v.c3) / K), x)
  }

  /** The multiple of the order by which the recomposed digits differ from x. */
  function OrderMultiple(z: int, t: Quad): int {
    t.c0 * CofactorBN(z, 0) + t.c1 * CofactorBN(z, 1) + t.c2 * CofactorBN(z, 2) + t.c3 * CofactorBN(z, 3)
  }

  lemma Combine4Recomposes(z: int, t: Quad, x: int, l: int)
    requires l == 6 * z * z
    ensures Eval(Combine4(z, t, x), l) == x - OrderBN(z) * OrderMultiple(z, t)
  {
    assert Eval(Quad(x, 0, 0, 0), l) == x;
    RowBNInLattice(z, 0);
    RowBNInLattice(z, 1);
    RowBNInLattice(z, 2);
    RowBNInLattice(z, 3);
    hide Eval, OrderBN, CofactorBN, RowBN, Minus, Step;
    var u0 := Minus(Quad(x, 0, 0, 0), t.c0, RowBN(z, 0));
    var u1 := Minus(u0, t.c1, RowBN(z, 1));
    EvalMinus(Quad(x, 0, 0, 0), t.c0, RowBN(z, 0), l);
    EvalMinus(u0, t.c1, RowBN(z, 1), l);
    EvalMinus(u1, t.c2, RowBN(z, 2), l);
    EvalMinus(Minus(u1, t.c2, RowBN(z, 2)), t.c3, RowBN(z, 3), l);
    CommonFactor(x, OrderBN(z), t, CofactorBN(z, 0), CofactorBN(z, 1), CofactorBN(z, 2), CofactorBN(z, 3));
  }

  /** The four digits recompose to x modulo the order, for every curve parameter, table and shift. */
  lemma Split4Recomposes(z: int, v: Quad, k: nat, x: int)
    ensures exists c :: Eval(Split4(z, v, k, x), 6 * z * z) == x - OrderBN(z) * c
  {
    var K := Pow(2, k);
    var t := Quad((x * v.c0) / K, (x * v.c1) / K, (x * v.c2) / K, (x * v.c3) / K);
    hide Eval, OrderBN, OrderMultiple, Pow, Combine4;
    Combine4Recomposes(z, t, x, 6 * z * z);
  }

  lemma CommonFactor(x: int, r: int, t: Quad, f0: int, f1: int, f2: int, f3: int)
    ensures Step(Step(Step(Step(x, -t.c0, r * f0), -t.c1, r * f1), -t.c2, r * f2), -t.c3, r * f3)
         == x - r * (t.c0 * f0 + t.c1 * f1 + t.c2 * f2 + t.c3 * f3)
  {
  }

  /** r times the first row of the inverse matrix: what `GLV2::init` scales and divides by r. */
  function InverseBN(z: int): Quad {
    Quad(1 + z * (3 + z * 2), z * (1 + z * (8 + z * 12)), z * (1 + z * (4 + z * 6)), -(z * (1 + z * 2)))
  }

  function Column(z: int, i: nat): Quad
    requires i < 4
  {
    match i
    case 0 => Quad(RowBN(z, 0).c0, RowBN(z, 1).c0, RowBN(z, 2).c0, RowBN(z, 3).c0)
    case 1 => Quad(RowBN(z, 0).c1, RowBN(z, 1).c1, RowBN(z, 2).c1, RowBN(z, 3).c1)
    case 2 => Quad(RowBN(z, 0).c2, RowBN(z, 1).c2, RowBN(z, 2).c2, RowBN(z, 3).c2)
    case _ => Quad(RowBN(z, 0).c3, RowBN(z, 1).c3, RowBN(z, 2).c3, RowBN(z, 3).c3)
  }

  function Dot4(a: Quad, b: Quad): int {
    a.c0 * b.c0 + a.c1 * b.c1 + a.c2 * b.c2 + a.c3 * b.c3
  }

  lemma InverseIsRight(z: int)
    ensures Dot4(InverseBN(z), Column(z, 0)) == OrderBN(z)
    ensures Dot4(InverseBN(z), Column(z, 1)) == 0
    ensures Dot4(InverseBN(z), Column(z, 2)) == 0
    ensures Dot4(InverseBN(z), Column(z, 3)) == 0
  {
  }

  /** v is a * K / r, rounded in either direction. */
  predicate Rounded(v: int, a: int, r: int, K: int) {
    -r <= v * r - a * K <= r
  }

  predicate IsTableBN(z: int, v: Quad, K: int) {
    var a, r := InverseBN(z), OrderBN(z);
    Rounded(v.c0, a.c0, r, K) && Rounded(v.c1, a.c1, r, K) && Rounded(v.c2, a.c2, r, K) && Rounded(v.c3, a.c3, r, K)
  }

  /** Division that truncates toward zero. */
  function Truncated(a: int, b: int): int
    requires b > 0
  {
    if a >= 0 then a / b else -(-a / b)
  }

  lemma TruncatedIsRounded(a: int, K: int, r: int)
    requires r > 0
    ensures Rounded(Truncated(a * K, r), a, r, K)
  {
    var n := a * K;
    assert n >= 0 ==> n == (n / r) * r + n % r;
    assert n < 0 ==> -n == (-n / r) * r + -n % r;
  }

  lemma OrderBNPositive(z: int)
    ensures OrderBN(z) > 0
  {
    hide OrderBN;
    OrderBNSquares(z);
    SquaresPositive(6 * z * z + 3 * z, 3 * z + 1);
  }

  lemma SquaresPositive(a: int, b: int)
    requires b != 0
    ensures a * a + b * b > 0
  {
    assert a * a >= 0;
    assert b * b > 0;
  }

  lemma OrderBNSquares(z: int)
    ensures OrderBN(z) == (6 * z * z + 3 * z) * (6 * z * z + 3 * z) + (3 * z + 1) * (3 * z + 1)
  {
  }

  /** The table that `init` computes. */
  lemma ComputedTable(z: int, K: int)
    ensures OrderBN(z) > 0
    ensures var a, r := InverseBN(z), OrderBN(z);
      IsTableBN(z, Quad(Truncated(a.c0 * K, r), Truncated(a.c1 * K, r), Truncated(a.c2 * K, r), Truncated(a.c3 * K, r)), K)
  {
    hide InverseBN, OrderBN, Truncated, Rounded;
    OrderBNPositive(z);
    var a, r := InverseBN(z), OrderBN(z);
    TruncatedIsRounded(a.c0, K, r);
    TruncatedIsRounded(a.c1, K, r);
    TruncatedIsRounded(a.c2, K, r);
    TruncatedIsRounded(a.c3, K, r);
  }

  const ZBN254: int := -0x4080000000000001
  const TableBN254: Quad := Quad(0xe00a8e7f56e007e5b09fe7fdf43ba998, -0x152aff56a8054abf9da75db2da3d6885101e5fd3997d41cb1,
                                 -0xa957fab5402a55fced3aed96d1eb44295f40f136ee84e09b, -0xe00a8e7f56e007e929d7b2667ea6f29c)

  /** The literal table of BN254 is right. */
  lemma LiteralTable()
    ensures IsTableBN(ZBN254, TableBN254, K256) && OrderBN(ZBN254) <= K256
  {
  }

  /** The digit estimate misses x * a / r by less than 2. */
  lemma EstimateError(x: int, v: int, a: int, r: int, K: int, t: int)
    requires 0 <= x < r <= K && Rounded(v, a, r, K) && t == (x * v) / K
    ensures -2 * r < x * a - r * t < 2 * r
  {
    var e, f := v * r - a * K, x * v - t * K;
    assert x * v == t * K + (x * v) % K;
    assert 0 <= f < K;
    assert K * (x * a - r * t) == r * f - x * e by {
      ErrorAlgebra(x, v, a, r, K, t);
    }
    TimesWithin(x, e, r);
    TimesWithin(r, f, K);
    ProductsBelow(x, r, K);
    CancelWithin(K, x * a - r * t, 2 * r);
  }

  lemma ErrorAlgebra(x: int, v: int, a: int, r: int, K: int, t: int)
    ensures K * (x * a - r * t) == r * (x * v - t * K) - x * (v * r - a * K)
  {
    calc {
      r * (x * v - t * K) - x * (v * r - a * K);
      r * (x * v) - r * (t * K) - x * (v * r) + x * (a * K);
      == { assert r * (x * v) == x * (v * r); }
      x * (a * K) - r * (t * K);
      == { assert x * (a * K) == K * (x * a) && r * (t * K) == K * (r * t); }
      K * (x * a) - K * (r * t);
    }
  }

  lemma TimesWithin(m: int, e: int, r: int)
    requires m >= 0 && -r <= e <= r
    ensures -(m * r) <= m * e <= m * r
  {
  }

  lemma ProductsBelow(x: int, r: int, K: int)
    requires 0 <= x < r <= K
    ensures x * r < r * K && K * (2 * r) == r * K + r * K
  {
  }

  lemma CancelWithin(K: int, u: int, m: int)
    requires K > 0 && -(K * m) < K * u < K * m
    ensures -m < u < m
  {
    if u >= m {
      ScaledOrder(K, m, u);
    } else if u <= -m {
      ScaledOrder(K, u, -m);
    }
  }

  lemma ScaledOrder(K: int, a: int, b: int)
    requires K > 0 && a <= b
    ensures K * a <= K * b
  {
  }

  function Size(q: Quad): int {
    Abs(q.c0) + Abs(q.c1) + Abs(q.c2) + Abs(q.c3)
  }

  /** One digit of the split: its multiple by r is a small combination of the errors. */
  lemma DigitWithin(r: int, x: int, w: int, a: Quad, m: Quad, t: Quad)
    requires r > 0 && r * w == x * Dot4(a, m)
    requires -2 * r < x * a.c0 - r * t.c0 < 2 * r && -2 * r < x * a.c1 - r * t.c1 < 2 * r
    requires -2 * r < x * a.c2 - r * t.c2 < 2 * r && -2 * r < x * a.c3 - r * t.c3 < 2 * r
    ensures -2 * Size(m) <= w - Dot4(t, m) <= 2 * Size(m)
  {
    hide Size, Dot4, Abs;
    ColumnAlgebra(r, x, w, a, m, t);
    ErrorTerm(x * a.c0 - r * t.c0, m.c0, r);
    ErrorTerm(x * a.c1 - r * t.c1, m.c1, r);
    ErrorTerm(x * a.c2 - r * t.c2, m.c2, r);
    ErrorTerm(x * a.c3 - r * t.c3, m.c3, r);
    SizeAlgebra(r, m);
    WithinSize(r, w - Dot4(t, m), Size(m));
  }

  lemma WithinSize(r: int, u: int, size: int)
    requires r > 0 && -(2 * r * size) <= r * u <= 2 * r * size
    ensures -2 * size <= u <= 2 * size
  {
    assert r * (2 * size + 1) == 2 * r * size + r;
    CancelWithin(r, u, 2 * size + 1);
  }

  lemma ColumnAlgebra(r: int, x: int, w: int, a: Quad, m: Quad, t: Quad)
    requires r * w == x * Dot4(a, m)
    ensures r * (w - Dot4(t, m)) == (x * a.c0 - r * t.c0) * m.c0 + (x * a.c1 - r * t.c1) * m.c1
                                  + (x * a.c2 - r * t.c2) * m.c2 + (x * a.c3 - r * t.c3) * m.c3
  {
  }

  lemma ErrorTerm(e: int, m: int, r: int)
    requires -2 * r < e < 2 * r
    ensures -(2 * r * Abs(m)) <= e * m <= 2 * r * Abs(m)
  {
    if m >= 0 {
      TimesWithin(m, e, 2 * r);
      assert m * e == e * m;
    } else {
      TimesWithin(-m, e, 2 * r);
      assert -m * e == -(e * m);
    }
  }

  lemma SizeAlgebra(r: int, m: Quad)
    ensures 2 * r * Size(m) == 2 * r * Abs(m.c0) + 2 * r * Abs(m.c1) + 2 * r * Abs(m.c2) + 2 * r * Abs(m.c3)
  {
  }

  lemma ColumnSize(z: int, i: nat)
    requires i < 4
    ensures Size(Column(z, i)) <= 8 * Abs(z) + 4
  {
  }

  predicate Within(u: Quad, m: int) {
    -m <= u.c0 <= m && -m <= u.c1 <= m && -m <= u.c2 <= m && -m <= u.c3 <= m
  }

  /** The four digits of every reduced scalar are no larger than 16 |z| + 8, for every curve parameter. */
  lemma Split4IsShort(z: int, v: Quad, k: nat, x: int)
    requires 0 <= x < OrderBN(z) <= Pow(2, k) && IsTableBN(z, v, Pow(2, k))
    ensures Within(Split4(z, v, k, x), 16 * Abs(z) + 8)
  {
    hide OrderBN, InverseBN, Pow, Rounded, Abs, Size, RowBN, Column;
    var r, K, a := OrderBN(z), Pow(2, k), InverseBN(z);
    var t := Quad((x * v.c0) / K, (x * v.c1) / K, (x * v.c2) / K, (x * v.c3) / K);
    EstimateError(x, v.c0, a.c0, r, K, t.c0);
    EstimateError(x, v.c1, a.c1, r, K, t.c1);
    EstimateError(x, v.c2, a.c2, r, K, t.c2);
    EstimateError(x, v.c3, a.c3, r, K, t.c3);
    InverseIsRight(z);
    ShortByColumns(z, r, x, a, t);
  }

  lemma ShortByColumns(z: int, r: int, x: int, a: Quad, t: Quad)
    requires r > 0 && Dot4(a, Column(z, 0)) == r
    requires Dot4(a, Column(z, 1)) == 0 && Dot4(a, Column(z, 2)) == 0 && Dot4(a, Column(z, 3)) == 0
    requires -2 * r < x * a.c0 - r * t.c0 < 2 * r && -2 * r < x * a.c1 - r * t.c1 < 2 * r
    requires -2 * r < x * a.c2 - r * t.c2 < 2 * r && -2 * r < x * a.c3 - r * t.c3 < 2 * r
    ensures Within(Combine4(z, t, x), 16 * Abs(z) + 8)
  {
    hide Dot4, Size, Abs, Column, Combine4;
    DigitWithin(r, x, x, a, Column(z, 0), t);
    DigitWithin(r, x, 0, a, Column(z, 1), t);
    DigitWithin(r, x, 0, a, Column(z, 2), t);
    DigitWithin(r, x, 0, a, Column(z, 3), t);
    ColumnSize(z, 0);
    ColumnSize(z, 1);
    ColumnSize(z, 2);
    ColumnSize(z, 3);
    CombineByColumns(z, t, x);
  }

  lemma CombineByColumns(z: int, t: Quad, x: int)
    ensures Combine4(z, t, x) == Quad(x - Dot4(t, Column(z, 0)), 0 - Dot4(t, Column(z, 1)),
                                      0 - Dot4(t, Column(z, 2)), 0 - Dot4(t, Column(z, 3)))
  {
    hide RowBN;
  }

  // ----- GLV2 on BLS12 curves: digits to the base |z| -----

  function Abs(z: int): (a: int)
    ensures a >= 0
  {
    if z < 0 then -z else z
  }

  /** z^j. */
  function Power(z: int, j: nat): int {
    if j == 0 then 1 else z * Power(z, j - 1)
  }

  /** The digits weighted with the powers of z. */
  function DigitSum(u: seq<int>, z: int): int {
    if |u| == 0 then 0 else DigitSum(u[..|u| - 1], z) + u[|u| - 1] * Power(z, |u| - 1)
  }

  lemma {:induction false} PowerOfAbs(z: int, j: nat)
    ensures Power(z, j) == if z < 0 && j % 2 == 1 then -Power(Abs(z), j) else Power(Abs(z), j)
    ensures Power(Abs(z), j) >= 0
  {
    if j > 0 {
      PowerOfAbs(z, j - 1);
      var p := Power(Abs(z), j - 1);
      assert z * p == if z < 0 then -(Abs(z) * p) else Abs(z) * p;
      assert z * -p == -(z * p);
    }
  }

  lemma DigitAlgebra(sum: int, t: int, q: int, d: int, A: int, p: int)
    requires t == q * A + d
    ensures sum + t * p == sum + d * p + q * (A * p)
  {
    assert (q * A + d) * p == q * (A * p) + d * p;
  }

  /** A number below p leaves no multiple of p. */
  lemma NothingLeft(p: int, t: int, x: int, sum: int)
    requires t >= 0 && 0 <= x < p && x == sum + t * p && sum >= 0
    ensures t == 0
  {
    if t >= 1 {
      TimesAtLeast(t, p);
    }
  }

  lemma TimesAtLeast(t: int, p: int)
    requires t >= 1 && p >= 0
    ensures t * p >= p
  {
  }

  /** `GLV2::split` for BLS12: divide by |z| four times, and give odd digits the sign of z. */
  method SplitBLS12(z: int, x: int) returns (u: seq<int>)
    requires z != 0 && Abs(x) < Power(Abs(z), 4)
    ensures |u| == 4 && DigitSum(u, z) == x
    ensures forall i :: 0 <= i < 4 ==> -Abs(z) < u[i] < Abs(z)
  {
    hide Power, DigitSum, Abs;
    var isNeg, t, A := false, x, if z < 0 then -z else z;
    AbsIsAbs(z);
    AbsIsAbs(x);
    if t < 0 {
      t := -t;
      isNeg := true;
    }
    ghost var sum: int := 0;
    u := [];
    EmptySum(z);
    for i := 0 to 4
      invariant |u| == i && t >= 0 && sum >= 0 && Abs(x) == sum + t * Power(A, i)
      invariant DigitSum(u, z) == if isNeg then -sum else sum
      invariant forall j :: 0 <= j < i ==> -A < u[j] < A
    {
      var q, d := t / A, t % A;
      DigitAlgebra(sum, t, q, d, A, Power(A, i));
      var v := if (z < 0 && i % 2 == 1) != isNeg then -d else d;
      AppendDigit(u, z, v, d, isNeg, sum);
      u := u + [v];
      sum := sum + d * Power(A, i);
      t := q;
      QuotientSign(A);
    }
    NothingLeft(Power(A, 4), t, Abs(x), sum);
  }

  lemma AbsIsAbs(z: int)
    ensures Abs(z) == if z < 0 then -z else z
  {
  }

  lemma QuotientSign(A: nat)
    requires A > 0
    ensures forall t: int :: t >= 0 ==> t / A >= 0
  {
  }

  lemma EmptySum(z: int)
    ensures DigitSum([], z) == 0 && Power(Abs(z), 0) == 1
  {
  }

  lemma AppendDigit(u: seq<int>, z: int, v: int, d: int, isNeg: bool, sum: int)
    requires d >= 0 && v == if (z < 0 && |u| % 2 == 1) != isNeg then -d else d
    requires DigitSum(u, z) == if isNeg then -sum else sum
    ensures DigitSum(u + [v], z) == (if isNeg then -(sum + d * Power(Abs(z), |u|)) else sum + d * Power(Abs(z), |u|))
    ensures Power(Abs(z), |u| + 1) == Abs(z) * Power(Abs(z), |u|) && d * Power(Abs(z), |u|) >= 0
  {
    PowerOfAbs(z, |u|);
    assert (u + [v])[..|u|] == u;
    SignedTerm(d, Power(Abs(z), |u|), z < 0 && |u| % 2 == 1, isNeg);
  }

  lemma SignedTerm(d: int, p: int, odd: bool, isNeg: bool)
    requires d >= 0 && p >= 0
    ensures (if odd != isNeg then -d else d) * (if odd then -p else p) == if isNeg then -(d * p) else d * p
    ensures d * p >= 0
  {
  }

  /** Every reduced scalar is in range: the order z^4 - z^2 + 1 is below z^4. */
  lemma OrderBLS12InRange(z: int)
    requires Abs(z) >= 2
    ensures 0 < Power(z, 4) - Power(z, 2) + 1 < Power(Abs(z), 4)
  {
    PowerOfAbs(z, 4);
    var s := z * z;
    SmallPowers(z);
    SquareAtLeast4(z);
    SquareGrows(s);
  }

  lemma SmallPowers(z: int)
    ensures Power(z, 2) == z * z && Power(z, 4) == (z * z) * (z * z)
  {
    var s := z * z;
    assert Power(z, 1) == z * Power(z, 0);
    assert Power(z, 2) == z * Power(z, 1);
    assert Power(z, 3) == z * Power(z, 2);
    assert Power(z, 4) == z * Power(z, 3);
    assert z * (z * s) == s * s;
  }

  lemma SquareAtLeast4(z: int)
    requires z >= 2 || z <= -2
    ensures z * z >= 4
  {
  }

  lemma SquareGrows(s: int)
    requires s >= 4
    ensures s * s >= 4 * s
  {
  }
}
