/**
Kaliski's almost-inverse as emitted by `gen_preInv` (`mcl/src/fp_generator.hpp`), the table of
powers of two built by `initInvTbl` and the Montgomery inverse `invOpForMontC` that combines
them (`mcl/src/fp.cpp`). Register packs are naturals below `W == B^N`; `cn` counts the limbs of
u and v that are still in use.
*/
module AlmostInverse {
  import opened Limbs
  import opened Bint
  import opened Modular
  import opened Montgomery

  /**
  The relations between the four registers and the inputs. `m` and `n` witness
  x * s == v * 2^k and x * r == -u * 2^k modulo p.
  */
  ghost predicate Related(p: nat, x: nat, u: nat, v: nat, r: nat, s: nat, K: nat, m: nat, n: nat) {
    && Mul(u, s) + Mul(v, r) == p
    && Mul(x, s) == Mul(v, K) + Mul(p, m)
    && Mul(x, r) + Mul(u, K) == Mul(p, n)
  }

  lemma HalveV(p: nat, x: nat, u: nat, v: nat, r: nat, s: nat, K: nat, m: nat, n: nat)
    requires Related(p, x, u, 2 * v, r, s, K, m, n)
    ensures Related(p, x, u, v, 2 * r, s, 2 * K, m, 2 * n)
  {
    Twice(v, r);
    Twice(v, K);
    Twice(x, r);
    Twice(u, K);
    Twice(p, n);
    hide Mul;
  }

  lemma HalveU(p: nat, x: nat, u: nat, v: nat, r: nat, s: nat, K: nat, m: nat, n: nat)
    requires Related(p, x, 2 * u, v, r, s, K, m, n)
    ensures Related(p, x, u, v, r, 2 * s, 2 * K, 2 * m, n)
  {
    hide Mul;
    Twice(u, s);
    Twice(u, K);
    Twice(x, s);
    Twice(v, K);
    Twice(p, m);
  }

  lemma Twice(a: nat, b: nat)
    ensures Mul(a, 2 * b) == 2 * Mul(a, b) == Mul(2 * a, b)
  {
    assert a * (2 * b) == 2 * (a * b);
  }

  lemma SubtractU(p: nat, x: nat, u: nat, v: nat, r: nat, s: nat, K: nat, m: nat, n: nat)
    requires v >= u && Related(p, x, u, v, r, s, K, m, n)
    ensures Related(p, x, u, v - u, r, s + r, K, m + n, n)
  {
    hide Mul;
    MulAdd(s, r, u);
    MulSub(v, u, r);
    MulAdd(s, r, x);
    MulSub(v, u, K);
    MulAdd(m, n, p);
  }

  lemma SubtractV(p: nat, x: nat, u: nat, v: nat, r: nat, s: nat, K: nat, m: nat, n: nat)
    requires u >= v && Related(p, x, u, v, r, s, K, m, n)
    ensures Related(p, x, u - v, v, r + s, s, K, m, m + n)
  {
    hide Mul;
    MulAdd(r, s, v);
    MulSub(u, v, s);
    MulAdd(r, s, x);
    MulSub(u, v, K);
    MulAdd(m, n, p);
  }

  /** While v is not zero both coefficients stay at most p, and doubling the right one stays at most p too. */
  lemma CoefficientBounds(p: nat, u: nat, v: nat, r: nat, s: nat)
    requires Mul(u, s) + Mul(v, r) == p && u >= 1 && v >= 1 && s >= 1
    ensures r < p && s <= p && r + s <= p
    ensures u >= 2 ==> 2 * s <= p
    ensures v >= 2 ==> 2 * r < p
    ensures u > v ==> 2 * s <= p || u < 2
  {
    hide Mul;
    MulMono(1, u, s);
    MulMono(1, v, r);
    MulUnits(s);
    MulUnits(r);
    Doubled(s);
    Doubled(r);
    if u >= 2 {
      MulMono(2, u, s);
    }
    if v >= 2 {
      MulMono(2, v, r);
    }
  }

  lemma Doubled(a: nat)
    ensures Mul(2, a) == 2 * a
  {
  }

  /** The two inputs share no factor but one. */
  ghost predicate Coprime(x: nat, p: nat) {
    forall d: nat, a: nat, b: nat :: Mul(d, a) == x && Mul(d, b) == p ==> d == 1
  }

  /** When v has reached zero, u divides both inputs, so it is one. */
  lemma GcdReached(p: nat, x: nat, u: nat, r: nat, s: nat, K: nat, m: nat, n: nat)
    requires p > 0 && s >= 1 && Coprime(x, p) && Related(p, x, u, 0, r, s, K, m, n)
    ensures u == 1 && s == p && Mul(x, r) + K == Mul(p, n)
  {
    hide Mul;
    MulUnits(r);
    MulUnits(K);
    MulUnits(s);
    // x * s == p * m == u * s * m, so x == u * m
    MulAssoc(u, s, m);
    MulComm(s, m);
    MulAssoc(u, m, s);
    MulCancelEq(x, Mul(u, m), s);
    assert Mul(u, m) == x && Mul(u, s) == p;
  }

  /** Bits that are left: u < 2^a and v < 2^b, and every turn of the loop uses up one of them. */
  ghost predicate BitsLeft(u: nat, v: nat, a: nat, b: nat) {
    u < Pow(2, a) && v < Pow(2, b)
  }

  lemma HalfBits(v: nat, b: nat)
    requires 1 <= v < Pow(2, b)
    ensures b >= 1 && v / 2 < Pow(2, b - 1)
  {
    if b > 0 {
      PowStep(2, b - 1);
    }
  }

  /** What the loop has established, with the true value of r including the overflow word. */
  ghost predicate State(W: nat, bits: nat, p: nat, x: nat, u: nat, v: nat, rr: nat, rTop: bool, ss: nat, k: nat,
                        m: nat, n: nat, a: nat, b: nat)
  {
    && Related(p, x, u, v, rr + Bit(rTop) * W, ss, Pow(2, k), m, n)
    && 1 <= u <= p && v <= p && 1 <= ss <= p && rr < W && rr + Bit(rTop) * W < 2 * p
    && (v != 0 ==> !rTop)
    && BitsLeft(u, v, a, b) && a + b + k == 2 * bits
  }

  /** The register width holds p, and twice p when there is no overflow word. */
  ghost predicate Fits(W: nat, isFullBit: bool, p: nat) {
    p < W && (!isFullBit ==> 2 * p <= W)
  }

  /** Block `_u_even`: u >>= 1, s <<= 1; s has room for the shift. */
  lemma UEven(W: nat, isFullBit: bool, bits: nat, p: nat, x: nat, u: nat, v: nat, rr: nat, ss: nat, k: nat,
              m: nat, n: nat, a: nat, b: nat)
    requires Fits(W, isFullBit, p) && State(W, bits, p, x, u, v, rr, false, ss, k, m, n, a, b)
    requires v != 0 && u % 2 == 0
    ensures a >= 1 && ss < W
    ensures State(W, bits, p, x, u / 2, v, rr, false, WrapAdd(W, ss, ss), k + 1, 2 * m, n, a - 1, b)
  {
    hide Mul, Pow;
    CoefficientBounds(p, u, v, rr, ss);
    HalveU(p, x, u / 2, v, rr, ss, Pow(2, k), m, n);
    HalfBits(u, a);
    PowStep(2, k);
    Doubled(Pow(2, k));
  }

  /** Block `_v_even`, also the tail of `_v_ge_u`: v >>= 1, r <<= 1, the carry goes to the overflow word. */
  lemma VEven(W: nat, isFullBit: bool, bits: nat, p: nat, x: nat, v: nat, u: nat, rr: nat, ss: nat, k: nat,
              m: nat, n: nat, a: nat, b: nat)
    requires Fits(W, isFullBit, p) && rr < p && 1 <= ss <= p && 1 <= u <= p && v <= p && v % 2 == 0
    requires Related(p, x, u, v, rr, ss, Pow(2, k), m, n) && BitsLeft(u, v, a, b) && b >= 1 && v < Pow(2, b)
    requires v / 2 < Pow(2, b - 1) && a + b + k == 2 * bits && (v != 0 ==> 2 * rr < p)
    ensures rr < W
    ensures State(W, bits, p, x, u, v / 2, WrapAdd(W, rr, rr), isFullBit && rr + rr >= W, ss, k + 1,
                  m, 2 * n, a, b - 1)
  {
    hide Mul, Pow;
    HalveV(p, x, u, v / 2, rr, ss, Pow(2, k), m, n);
    PowStep(2, k);
    Doubled(Pow(2, k));
  }

  lemma VEvenFromState(W: nat, isFullBit: bool, bits: nat, p: nat, x: nat, u: nat, v: nat, rr: nat, ss: nat, k: nat,
                       m: nat, n: nat, a: nat, b: nat)
    requires Fits(W, isFullBit, p) && State(W, bits, p, x, u, v, rr, false, ss, k, m, n, a, b)
    requires v != 0 && v % 2 == 0
    ensures rr < p && 2 * rr < p && 1 <= ss && b >= 1 && v / 2 < Pow(2, b - 1)
    ensures Related(p, x, u, v, rr, ss, Pow(2, k), m, n) && BitsLeft(u, v, a, b) && a + b + k == 2 * bits
  {
    hide Mul, Pow;
    CoefficientBounds(p, u, v, rr, ss);
    HalfBits(v, b);
  }

  /** Block `_v_lt_u`: u -= v, r += s without a carry, then block `_u_even`. */
  lemma VLtU(W: nat, isFullBit: bool, bits: nat, p: nat, x: nat, u: nat, v: nat, rr: nat, ss: nat, k: nat,
             m: nat, n: nat, a: nat, b: nat)
    requires Fits(W, isFullBit, p) && State(W, bits, p, x, u, v, rr, false, ss, k, m, n, a, b)
    requires v != 0 && u % 2 == 1 && v % 2 == 1 && v < u
    ensures ss < W && rr + ss < W
    ensures State(W, bits, p, x, u - v, v, rr + ss, false, ss, k, m, m + n, a, b)
  {
    hide Mul, Pow;
    CoefficientBounds(p, u, v, rr, ss);
    SubtractV(p, x, u, v, rr, ss, Pow(2, k), m, n);
  }

  /** Block `_v_ge_u`: v -= u, s += r without a carry. */
  lemma VGeU(W: nat, isFullBit: bool, bits: nat, p: nat, x: nat, u: nat, v: nat, rr: nat, ss: nat, k: nat,
             m: nat, n: nat, a: nat, b: nat)
    requires Fits(W, isFullBit, p) && State(W, bits, p, x, u, v, rr, false, ss, k, m, n, a, b)
    requires v != 0 && u % 2 == 1 && v % 2 == 1 && v >= u
    ensures ss < W && ss + rr < W && rr < p && b >= 1 && (v - u) / 2 < Pow(2, b - 1)
    ensures Related(p, x, u, v - u, rr, ss + rr, Pow(2, k), m + n, n) && ss + rr <= p
    ensures v - u != 0 ==> 2 * rr < p
  {
    hide Mul, Pow;
    CoefficientBounds(p, u, v, rr, ss);
    SubtractU(p, x, u, v, rr, ss, Pow(2, k), m, n);
    HalfBits(v, b);
  }

  /**
  Top limbs that are zero in both u and v are dropped, as long as one is left: both values stay what
  they were.
  */
  method DropLimbs(B: nat, us: seq<nat>, vs: seq<nat>) returns (cn: nat)
    requires B >= 2 && |us| == |vs| >= 1 && IsLimbs(B, us) && IsLimbs(B, vs)
    ensures 1 <= cn <= |us| && Val(B, us[..cn]) == Val(B, us) && Val(B, vs[..cn]) == Val(B, vs)
    ensures cn == 1 || us[cn - 1] > 0 || vs[cn - 1] > 0
  {
    hide Mul, Pow, Val;
    cn := |us|;
    assert us[..cn] == us && vs[..cn] == vs;
    while cn > 1 && us[cn - 1] == 0 && vs[cn - 1] == 0
      invariant 1 <= cn <= |us| && Val(B, us[..cn]) == Val(B, us) && Val(B, vs[..cn]) == Val(B, vs)
    {
      cn := cn - 1;
      assert us[..cn + 1] == us[..cn] + [0] && vs[..cn + 1] == vs[..cn] + [0];
      ValSnoc(B, us[..cn], 0);
      ValSnoc(B, vs[..cn], 0);
      MulUnits(Pow(B, cn));
    }
  }

  /** The comparison from the top limb down: whether v is less than u. */
  method LimbsBelow(B: nat, vs: seq<nat>, us: seq<nat>, cn: nat) returns (below: bool)
    requires B >= 2 && cn <= |us| && cn <= |vs| && IsLimbs(B, us[..cn]) && IsLimbs(B, vs[..cn])
    ensures below <==> Val(B, vs[..cn]) < Val(B, us[..cn])
  {
    hide Mul, Pow, Val;
    var i: nat := cn;
    while i > 0
      invariant i <= cn
      invariant Val(B, vs[..cn]) < Val(B, us[..cn]) <==> Val(B, vs[..i]) < Val(B, us[..i])
    {
      i := i - 1;
      TopLimbDecides(B, vs[..i], us[..i], vs[i], us[i]);
      assert us[..i + 1] == us[..i] + [us[i]] && vs[..i + 1] == vs[..i] + [vs[i]];
      assert us[i] == us[..cn][i] && vs[i] == vs[..cn][i];
      if vs[i] < us[i] {
        return true;
      }
      if vs[i] != us[i] {
        return false;
      }
    }
    assert vs[..0] == us[..0];
    below := false;
  }

  lemma TopLimbDecides(B: nat, vs: seq<nat>, us: seq<nat>, v: nat, u: nat)
    requires B >= 2 && |us| == |vs| && IsLimbs(B, us) && IsLimbs(B, vs)
    ensures Val(B, vs + [v]) < Val(B, us + [u]) <==> v < u || (v == u && Val(B, vs) < Val(B, us))
  {
    hide Mul, Pow, Val;
    ValSnoc(B, vs, v);
    ValSnoc(B, us, u);
    ValBound(B, vs);
    ValBound(B, us);
    if v < u {
      MulStrict(v, u, Pow(B, |us|));
    } else if u < v {
      MulStrict(u, v, Pow(B, |us|));
    }
  }

  /** The limbs dropped, and the comparison of what is left. */
  method Narrow(B: nat, u: nat, v: nat, cn0: nat) returns (cn: nat, below: bool)
    requires B >= 2 && cn0 >= 1 && u < Pow(B, cn0) && v < Pow(B, cn0)
    ensures 1 <= cn <= cn0 && u < Pow(B, cn) && v < Pow(B, cn)
    ensures below <==> v < u
  {
    hide Mul, Pow, Val, ToLimbs;
    var us, vs := ToLimbs(B, cn0, u), ToLimbs(B, cn0, v);
    ToLimbsVal(B, cn0, u);
    ToLimbsVal(B, cn0, v);
    cn := DropLimbs(B, us, vs);
    ValBound(B, us[..cn]);
    ValBound(B, vs[..cn]);
    below := LimbsBelow(B, vs, us, cn);
  }

  /** What the generated code is entered with. */
  ghost predicate Input(B: nat, N: nat, bits: nat, isFullBit: bool, p: nat, x: nat) {
    && B >= 2 && N >= 1 && p % 2 == 1 && 0 < x < p < Pow(B, N) && p < Pow(2, bits)
    && (!isFullBit ==> 2 * p <= Pow(B, N))
    && Coprime(x, p)
  }

  /**
  The loop: returns x^-1 * 2^k modulo p, reduced, together with k. `bits` is the bit size of p;
  k is always below 2 * bits.
  */
  method PreInv(B: nat, N: nat, ghost bits: nat, isFullBit: bool, p: nat, x: nat) returns (z: nat, k: nat)
    requires Input(B, N, bits, isFullBit, p, x)
    ensures z < p && k < 2 * bits
    ensures Cong(p, Mul(x, z), Pow(2, k))
  {
    hide Mul, Pow, Cong, Coprime, Related, Quo, Rem, Val;
    var W := Pow(B, N);
    var v: nat, u: nat, rr: nat, ss: nat, rTop, cn := x, p, 0, 1, false, N;
    k := 0;
    ghost var m: nat, n: nat, a: nat, b: nat := 0, 1, bits, bits;
    Start(W, bits, p, x);
    while v != 0
      invariant State(W, bits, p, x, u, v, rr, rTop, ss, k, m, n, a, b)
      invariant 1 <= cn <= N && (v != 0 ==> u < Pow(B, cn) && v < Pow(B, cn))
      decreases u + v
    {
      if u % 2 == 0 {
        UEven(W, isFullBit, bits, p, x, u, v, rr, ss, k, m, n, a, b);
        u, ss := u / 2, WrapAdd(W, ss, ss);
        m, a := 2 * m, a - 1;
      } else if v % 2 == 0 {
        VEvenFromState(W, isFullBit, bits, p, x, u, v, rr, ss, k, m, n, a, b);
        VEven(W, isFullBit, bits, p, x, v, u, rr, ss, k, m, n, a, b);
        rTop := isFullBit && rr + rr >= W;
        v, rr := v / 2, WrapAdd(W, rr, rr);
        n, b := 2 * n, b - 1;
      } else {
        var below: bool;
        cn, below := Narrow(B, u, v, cn);
        if below {
          VLtU(W, isFullBit, bits, p, x, u, v, rr, ss, k, m, n, a, b);
          UEven(W, isFullBit, bits, p, x, u - v, v, rr + ss, ss, k, m, m + n, a, b);
          u := WrapSub(Pow(B, cn), u, v);
          rTop := isFullBit && rr + ss >= W;
          rr := WrapAdd(W, rr, ss);
          u, ss := u / 2, WrapAdd(W, ss, ss);
          m, n, a := 2 * m, m + n, a - 1;
        } else {
          VGeU(W, isFullBit, bits, p, x, u, v, rr, ss, k, m, n, a, b);
          VEven(W, isFullBit, bits, p, x, v - u, u, rr, ss + rr, k, m + n, n, a, b);
          v := WrapSub(Pow(B, cn), v, u);
          ss := WrapAdd(W, ss, rr);
          rTop := isFullBit && rr + rr >= W;
          v, rr := v / 2, WrapAdd(W, rr, rr);
          m, n, b := m + n, 2 * n, b - 1;
        }
      }
      k := k + 1;
    }
    LoopDone(W, bits, p, x, u, rr, rTop, ss, k, m, n, a, b);
    z := Negate(W, isFullBit, p, rr, rTop, x, k, n);
  }

  lemma Start(W: nat, bits: nat, p: nat, x: nat)
    requires 0 < x < p < W && p < Pow(2, bits)
    ensures State(W, bits, p, x, p, x, 0, false, 1, 0, 0, 1, bits, bits)
  {
    hide Mul;
    MulUnits(p);
    MulUnits(x);
    PowSmall(2);
  }

  /** A power of two is no multiple of an odd number above one. */
  lemma OddMultiple(p: nat, n: nat, k: nat)
    requires p % 2 == 1 && Mul(p, n) == Pow(2, k)
    ensures p == 1
  {
    hide Mul, Pow;
    MulUnits(Pow(2, k));
    MulUnits(p);
    MulComm(p, n);
    CongIntro(p, Mul(1, Pow(2, k)), Mul(0, Pow(2, k)), 0, n);
    CongCancelPow2(p, k, 1, 0);
  }

  /** What holds when v is zero: u is one, the coefficient r is the negated result, and k is in range. */
  lemma LoopDone(W: nat, bits: nat, p: nat, x: nat, u: nat, rr: nat, rTop: bool, ss: nat, k: nat,
                 m: nat, n: nat, a: nat, b: nat)
    requires p > 1 && p % 2 == 1 && Coprime(x, p) && State(W, bits, p, x, u, 0, rr, rTop, ss, k, m, n, a, b)
    ensures rr + Bit(rTop) * W != 0
    ensures Mul(x, rr + Bit(rTop) * W) + Pow(2, k) == Mul(p, n)
    ensures k < 2 * bits
  {
    hide Mul, Coprime;
    GcdReached(p, x, u, rr + Bit(rTop) * W, ss, Pow(2, k), m, n);
    if rr + Bit(rTop) * W == 0 {
      MulUnits(x);
      OddMultiple(p, n, k);
    }
  }

  /** The exit code: z = -r modulo p, from r below 2p with its overflow word. */
  method Negate(W: nat, isFullBit: bool, p: nat, rr0: nat, rTop: bool, ghost x: nat, ghost k: nat, ghost n: nat)
    returns (z: nat)
    requires 0 < p < W && rr0 < W && rr0 + Bit(rTop) * W < 2 * p && (rTop ==> isFullBit)
    requires rr0 + Bit(rTop) * W != 0
    requires Mul(x, rr0 + Bit(rTop) * W) + Pow(2, k) == Mul(p, n)
    ensures z < p && Cong(p, Mul(x, z), Pow(2, k))
  {
    hide Mul, Pow, Cong;
    var rr := rr0;
    if isFullBit && rTop {
      rr := WrapSub(W, rr, p);
    }
    z := WrapSub(W, p, rr);
    if p < rr {
      z := WrapAdd(W, z, p);
    }
    ghost var r := rr0 + Bit(rTop) * W;
    ghost var t := if r < p then 1 else if rTop || p < r then 2 else 1;
    assert z + r == t * p;
    NegateAlgebra(p, x, z, r, t, Pow(2, k), n);
  }

  lemma NegateAlgebra(p: nat, x: nat, z: nat, r: nat, t: nat, K: nat, n: nat)
    requires p > 0 && z + r == t * p && Mul(x, r) + K == Mul(p, n)
    ensures Cong(p, Mul(x, z), K)
  {
    hide Rem, Quo, Cong;
    // x * z + p * n == x * (t * p) + K
    assert x * (z + r) == x * z + x * r;
    assert x * (t * p) == (x * t) * p;
    MulComm(p, n);
    CongIntro(p, Mul(x, z), K, n, Mul(x, t));
  }

  // ----- the table of powers of two and the Montgomery inverse -----

  /** Modular addition of reduced numbers. */
  function FpAdd(p: nat, a: nat, b: nat): (r: nat)
    requires a < p && b < p
    ensures r < p && Cong(p, r, a + b)
  {
    if a + b < p then a + b
    else
      MulUnits(p);
      CongIntro(p, a + b - p, a + b, 1, 0);
      a + b - p
  }

  /** Entry i is 2^(n - i) in Montgomery form, where n is the number of entries. */
  ghost predicate IsInvTbl(p: nat, W: nat, n: nat, tbl: seq<nat>, lo: nat)
    requires p > 0
  {
    |tbl| == n && forall i :: lo <= i < n ==> tbl[i] < p && Cong(p, tbl[i], Mul(Pow(2, n - i), W))
  }

  /** Fills the table from its last entry downward by doubling. */
  method InitInvTbl(w: nat, N: nat, p: nat) returns (tbl: array<nat>)
    requires w >= 1 && N >= 1 && p > 0
    ensures fresh(tbl) && tbl.Length == 2 * Mul(w, N) && IsInvTbl(p, Pow(2, Mul(w, N)), tbl.Length, tbl[..], 0)
  {
    hide Mul, Pow, Cong, Rem;
    MulPos(w, N);
    var n, W := 2 * Mul(w, N), Pow(2, Mul(w, N));
    tbl := new nat[n];
    tbl[n - 1] := Rem(Mul(2, W), p);
    PowSmall(2);
    CongRem(p, Mul(2, W));
    var i := n - 1;
    while i > 0
      invariant 0 <= i < n && IsInvTbl(p, W, n, tbl[..], i)
    {
      ghost var e := Pow(2, n - i);
      assert tbl[..][i] == tbl[i];
      tbl[i - 1] := FpAdd(p, tbl[i], tbl[i]);
      DoubleEntry(p, tbl[i - 1], tbl[i], e, W);
      PowStep(2, n - i);
      assert n - (i - 1) == n - i + 1;
      i := i - 1;
    }
  }

  lemma DoubleEntry(p: nat, d: nat, t: nat, e: nat, W: nat)
    requires p > 0 && Cong(p, t, Mul(e, W)) && Cong(p, d, t + t)
    ensures Cong(p, d, Mul(Mul(2, e), W))
  {
    hide Mul, Rem;
    CongAdd(p, t, Mul(e, W), t, Mul(e, W));
    MulAdd(e, e, W);
    Doubled(e);
  }

  /** The constants meet: 2^-k from the table undoes the 2^k of the almost-inverse. */
  lemma TableUndoesShift(p: nat, W: nat, k: nat, j: nat, x: nat, y: nat, t: nat, z: nat)
    requires p > 0 && Cong(p, Mul(x, y), Pow(2, k)) && Cong(p, t, Mul(Pow(2, j), W))
    requires Cong(p, Mul(z, W), Mul(y, t)) && Pow(2, k + j) == Mul(W, W)
    ensures Cong(p, Mul(Mul(x, z), W), Mul(Mul(W, W), W))
  {
    hide Mul, Rem, Pow;
    var e := Pow(2, j);
    CongMul(p, Mul(z, W), Mul(y, t), x);
    MulAssoc(x, z, W);
    MulAssoc(x, y, t);
    CongMul(p, Mul(x, y), Pow(2, k), t);
    CongMul(p, t, Mul(e, W), Pow(2, k));
    MulAssoc(Pow(2, k), e, W);
    PowAdd(2, k, j);
  }

  /** x^-1 times the square of the Montgomery radix: the inverse in Montgomery form. */
  method InvOpForMont(w: nat, N: nat, isFullBit: bool, p: nat, rp: nat, x: nat, tbl: array<nat>) returns (z: nat)
    requires w >= 1 && Input(Pow(2, w), N, Mul(w, N), isFullBit, p, x) && IsMontCoeff(Pow(2, w), p, rp)
    requires tbl.Length == 2 * Mul(w, N) && IsInvTbl(p, Pow(2, Mul(w, N)), tbl.Length, tbl[..], 0)
    ensures z < p && Cong(p, Mul(x, z), Mul(Pow(2, Mul(w, N)), Pow(2, Mul(w, N))))
  {
    hide Mul, Pow, Cong, Rem, Quo, Val, IsMontCoeff;
    var B := Pow(2, w);
    ghost var W := Pow(2, Mul(w, N));
    PowPow(2, w, N);
    var y, k := PreInv(B, N, Mul(w, N), isFullBit, p, x);
    assert tbl[..][k] == tbl[k];
    ToLimbsVal(B, N, tbl[k]);
    EvenRadix(w);
    z := FpMont(B, N, p, rp, y, ToLimbs(B, N, tbl[k]));
    PowAdd(2, Mul(w, N), Mul(w, N));
    TableUndoesShift(p, W, k, 2 * Mul(w, N) - k, x, y, tbl[k], z);
    CongCancelPow2(p, Mul(w, N), Mul(x, z), Mul(W, W));
  }

  /** In Montgomery form the product of x and its computed inverse is the representative of one. */
  lemma InverseTimesSelf(w: nat, N: nat, p: nat, x: nat, z: nat, one: nat)
    requires p % 2 == 1 && IsMontProduct(Pow(2, w), N, p, Mul(x, z), one)
    requires Cong(p, Mul(x, z), Mul(Pow(2, Mul(w, N)), Pow(2, Mul(w, N))))
    ensures one == Rem(Pow(Pow(2, w), N), p)
  {
    hide Mul, Pow, Rem, Quo;
    PowPow(2, w, N);
    var W := Pow(Pow(2, w), N);
    CongCancelPow2(p, Mul(w, N), one, W);
    CongRem(p, W);
    CongReduced(p, one, Rem(W, p));
  }
}
