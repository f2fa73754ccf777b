/** Congruence modulo `p`, stated as equality of remainders. */
module Modular {
  import opened Limbs

  ghost predicate Cong(p: nat, a: nat, b: nat)
    requires p > 0
  {
    Rem(a, p) == Rem(b, p)
  }

  lemma CongIntro(p: nat, a: nat, b: nat, m: nat, n: nat)
    requires p > 0 && a + Mul(m, p) == b + Mul(n, p)
    ensures Cong(p, a, b)
  {
    hide Mul, Rem, Quo;
    var v := a + Mul(m, p);
    QuoRem(a, p);
    QuoRem(b, p);
    MulAdd(Quo(a, p), m, p);
    MulAdd(Quo(b, p), n, p);
    QuoRemUnique(v, p, Quo(a, p) + m, Rem(a, p));
    QuoRemUnique(v, p, Quo(b, p) + n, Rem(b, p));
  }

  lemma CongElim(p: nat, a: nat, b: nat)
    requires p > 0 && Cong(p, a, b)
    ensures a + Mul(Quo(b, p), p) == b + Mul(Quo(a, p), p)
  {
    hide Mul, Rem, Quo;
    QuoRem(a, p);
    QuoRem(b, p);
  }

  lemma CongMul(p: nat, a: nat, b: nat, c: nat)
    requires p > 0 && Cong(p, a, b)
    ensures Cong(p, Mul(a, c), Mul(b, c)) && Cong(p, Mul(c, a), Mul(c, b))
  {
    hide *;
    CongElim(p, a, b);
    var m, n := Quo(b, p), Quo(a, p);
    MulAdd(a, Mul(m, p), c);
    MulAdd(b, Mul(n, p), c);
    SwapFactors(m, p, c);
    SwapFactors(n, p, c);
    CongIntro(p, Mul(a, c), Mul(b, c), Mul(m, c), Mul(n, c));
    MulComm(a, c);
    MulComm(b, c);
  }

  lemma SwapFactors(m: nat, p: nat, c: nat)
    ensures Mul(Mul(m, p), c) == Mul(Mul(m, c), p)
  {
    hide *;
    MulAssoc(m, p, c);
    MulAssoc(m, c, p);
    MulComm(p, c);
  }

  lemma CongAdd(p: nat, a: nat, b: nat, c: nat, d: nat)
    requires p > 0 && Cong(p, a, b) && Cong(p, c, d)
    ensures Cong(p, a + c, b + d)
  {
    hide *;
    CongElim(p, a, b);
    CongElim(p, c, d);
    MulAdd(Quo(b, p), Quo(d, p), p);
    MulAdd(Quo(a, p), Quo(c, p), p);
    CongIntro(p, a + c, b + d, Quo(b, p) + Quo(d, p), Quo(a, p) + Quo(c, p));
  }

  lemma CongRem(p: nat, a: nat)
    requires p > 0
    ensures Cong(p, Rem(a, p), a)
  {
    hide Rem, Quo, Mul;
    MulUnits(p);
    QuoRemUnique(Rem(a, p), p, 0, Rem(a, p));
  }

  lemma CongReduced(p: nat, a: nat, b: nat)
    requires p > 0 && a < p && b < p && Cong(p, a, b)
    ensures a == b
  {
  }

  /** A factor of two cancels modulo an odd number. */
  lemma CongHalve(p: nat, a: nat, b: nat)
    requires p % 2 == 1 && Cong(p, 2 * a, 2 * b)
    ensures Cong(p, a, b)
  {
    hide Rem, Quo, Mul, Cong;
    CongElim(p, 2 * a, 2 * b);
    var m, n := Quo(2 * b, p), Quo(2 * a, p);
    SameParity(p, a, b, m, n);
    if m >= n {
      HalfMultiple(p, m - n);
      MulSub(m, n, p);
      MulUnits(p);
      CongIntro(p, a, b, (m - n) / 2, 0);
    } else {
      HalfMultiple(p, n - m);
      MulSub(n, m, p);
      MulUnits(p);
      CongIntro(p, a, b, 0, (n - m) / 2);
    }
  }

  lemma SameParity(p: nat, a: nat, b: nat, m: nat, n: nat)
    requires p % 2 == 1 && 2 * a + Mul(m, p) == 2 * b + Mul(n, p)
    ensures m % 2 == n % 2
  {
    hide Mul;
    OddTimes(p, m);
    OddTimes(p, n);
  }

  lemma OddTimes(p: nat, m: nat)
    requires p % 2 == 1
    ensures Mul(m, p) % 2 == m % 2
  {
    var h := p / 2;
    assert m * p == 2 * (m * h) + m;
  }

  lemma HalfMultiple(p: nat, m: nat)
    requires m % 2 == 0
    ensures Mul(m, p) == 2 * Mul(m / 2, p)
  {
    var h := m / 2;
    assert (2 * h) * p == 2 * (h * p);
  }

  /** So does any power of two. */
  lemma {:induction false} CongCancelPow2(p: nat, e: nat, a: nat, b: nat)
    requires p % 2 == 1 && Cong(p, Mul(a, Pow(2, e)), Mul(b, Pow(2, e)))
    ensures Cong(p, a, b)
  {
    hide Rem, Quo, Mul, Cong, Pow;
    if e == 0 {
      PowSmall(2);
      MulUnits(a);
      MulUnits(b);
    } else {
      PowStep(2, e - 1);
      DoubleOut(a, Pow(2, e - 1));
      DoubleOut(b, Pow(2, e - 1));
      CongHalve(p, Mul(a, Pow(2, e - 1)), Mul(b, Pow(2, e - 1)));
      CongCancelPow2(p, e - 1, a, b);
    }
  }

  lemma DoubleOut(a: nat, q: nat)
    ensures Mul(a, Mul(2, q)) == 2 * Mul(a, q)
  {
    assert a * (2 * q) == 2 * (a * q);
  }
}
