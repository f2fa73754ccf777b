/**
Unsigned machine arithmetic of a fixed width, on naturals below a modulus `M` (two to the width):
the instructions that the code generators emit, and bitwise operations with the facts that turn
them into sums and comparisons.
*/
module Words {
  import opened Limbs

  /** Keep the low part. */
  function Trunc(M: nat, v: nat): (r: nat)
    requires M > 0
    ensures r < M
    ensures v < M ==> r == v
  {
    Rem(v, M)
  }

  function Add(M: nat, a: nat, b: nat): (r: nat)
    requires M > 0
    ensures r < M
    ensures a + b < M ==> r == a + b
  {
    Trunc(M, a + b)
  }

  /** Subtraction wraps around below zero. */
  function Sub(M: nat, a: nat, b: nat): (r: nat)
    requires M > 0 && b <= M
    ensures r < M
    ensures a < M && b <= a ==> r == a - b
    ensures a < b ==> r == M + a - b
  {
    if b <= a then Trunc(M, a - b) else Trunc(M, M + a - b)
  }

  /** Shift left by a factor `S`, which is a power of two. */
  function Shl(M: nat, a: nat, S: nat): (r: nat)
    requires M > 0
    ensures r < M
    ensures Mul(a, S) < M ==> r == Mul(a, S)
  {
    Trunc(M, Mul(a, S))
  }

  /** Shift right by a factor `S`, which is a power of two. */
  function Lshr(a: nat, S: nat): nat
    requires S > 0
  {
    Quo(a, S)
  }

  // ----- bitwise operations -----

  function Or(a: nat, b: nat): (r: nat)
    decreases a + b
  {
    if a == 0 && b == 0 then 0
    else 2 * Or(a / 2, b / 2) + (if a % 2 == 1 || b % 2 == 1 then 1 else 0)
  }

  function And(a: nat, b: nat): (r: nat)
    decreases a + b
  {
    if a == 0 && b == 0 then 0
    else 2 * And(a / 2, b / 2) + (if a % 2 == 1 && b % 2 == 1 then 1 else 0)
  }

  lemma {:induction false} OrZero(a: nat)
    ensures Or(a, 0) == a && Or(0, a) == a
  {
    if a > 0 {
      OrZero(a / 2);
    }
  }

  lemma HalveShifted(m: nat)
    ensures Mul(2, m) / 2 == m && Mul(2, m) % 2 == 0
  {
  }

  /** Operands that share no bit position: one is a multiple of 2^r, the other is below it. */
  lemma {:induction false} OrDisjoint(hi: nat, lo: nat, r: nat)
    requires lo < Pow(2, r)
    ensures Or(Mul(hi, Pow(2, r)), lo) == Mul(hi, Pow(2, r)) + lo
  {
    if r == 0 {
      MulUnits(hi);
      OrZero(hi);
    } else {
      var m := Mul(hi, Pow(2, r - 1));
      SwapTwo(hi, Pow(2, r - 1));
      HalveShifted(m);
      OrStep(m, lo);
      OrDisjoint(hi, lo / 2, r - 1);
    }
  }

  lemma {:induction false} OrComm(a: nat, b: nat)
    ensures Or(a, b) == Or(b, a)
    decreases a + b
  {
    if a > 0 || b > 0 {
      OrComm(a / 2, b / 2);
    }
  }

  lemma SwapTwo(h: nat, p: nat)
    ensures Mul(h, Mul(2, p)) == Mul(2, Mul(h, p))
  {
    assert h * (2 * p) == 2 * (h * p);
  }

  lemma OrStep(m: nat, lo: nat)
    ensures Or(Mul(2, m), lo) == 2 * Or(m, lo / 2) + lo % 2
  {
    HalveShifted(m);
  }

  lemma {:induction false} AndBound(a: nat, b: nat)
    ensures And(a, b) <= a && And(a, b) <= b
    decreases a + b
  {
    if a > 0 || b > 0 {
      AndBound(a / 2, b / 2);
    }
  }

  lemma {:induction false} AndSelf(a: nat)
    ensures And(a, a) == a
  {
    if a > 0 {
      AndSelf(a / 2);
    }
  }

  /** The conjunction of two words has all bits set exactly when both words have. */
  lemma AndAllOnes(M: nat, a: nat, b: nat)
    requires a < M && b < M
    ensures And(a, b) == M - 1 <==> a == M - 1 && b == M - 1
  {
    AndBound(a, b);
    AndSelf(M - 1);
  }

  /** The lowest bit, as `and` with 1. */
  lemma AndOne(a: nat)
    ensures And(a, 1) == a % 2
  {
    AndBound(a / 2, 0);
  }
}
