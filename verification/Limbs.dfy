/**
Products, powers and little-endian limb sequences in a symbolic radix `B`, with the facts that
every limb loop of the library relies on. A product inside a larger statement is written
`Mul(a, b)`, so that a proof may `hide` it and treat it as a plain term.
*/
module Limbs {

  // ----- products -----

  function Mul(a: nat, b: nat): nat {
    a * b
  }

  lemma MulUnits(a: nat)
    ensures Mul(0, a) == 0 && Mul(a, 0) == 0 && Mul(1, a) == a && Mul(a, 1) == a
  {
  }

  lemma MulComm(a: nat, b: nat)
    ensures Mul(a, b) == Mul(b, a)
  {
  }

  lemma MulAdd(a: nat, b: nat, c: nat)
    ensures Mul(a + b, c) == Mul(a, c) + Mul(b, c)
    ensures Mul(c, a + b) == Mul(c, a) + Mul(c, b)
  {
  }

  lemma MulSub(a: nat, b: nat, c: nat)
    requires a >= b
    ensures Mul(a - b, c) == Mul(a, c) - Mul(b, c)
    ensures Mul(c, a - b) == Mul(c, a) - Mul(c, b)
  {
  }

  lemma MulAssoc(a: nat, b: nat, c: nat)
    ensures Mul(Mul(a, b), c) == Mul(a, Mul(b, c))
  {
    assert (a * b) * c == a * (b * c);
  }

  lemma MulMono(a: nat, b: nat, c: nat)
    requires a <= b
    ensures Mul(a, c) <= Mul(b, c) && Mul(c, a) <= Mul(c, b)
  {
    hide *;
    MulSub(b, a, c);
  }

  lemma MulLe(a: nat, b: nat, c: nat, d: nat)
    requires a <= c && b <= d
    ensures Mul(a, b) <= Mul(c, d)
  {
    hide *;
    MulMono(a, c, b);
    MulMono(b, d, c);
  }

  lemma MulPos(a: nat, b: nat)
    requires a > 0 && b > 0
    ensures Mul(a, b) >= a && Mul(a, b) >= b
  {
    hide *;
    MulMono(1, a, b);
    MulMono(1, b, a);
    MulUnits(a);
    MulUnits(b);
  }

  lemma MulCancelLt(a: nat, b: nat, c: nat)
    requires Mul(a, c) < Mul(b, c)
    ensures a < b
  {
    hide *;
    if a >= b {
      MulMono(b, a, c);
    }
  }

  lemma MulStrict(a: nat, b: nat, c: nat)
    requires a < b && c > 0
    ensures Mul(a, c) + c <= Mul(b, c)
  {
    hide *;
    MulMono(a + 1, b, c);
    MulAdd(a, 1, c);
    MulUnits(c);
  }

  lemma MulCancelLe(a: nat, b: nat, c: nat)
    requires c > 0 && Mul(a, c) <= Mul(b, c)
    ensures a <= b
  {
    hide *;
    if a > b {
      MulStrict(b, a, c);
    }
  }

  lemma MulCancelEq(a: nat, b: nat, c: nat)
    requires c > 0 && Mul(a, c) == Mul(b, c)
    ensures a == b
  {
    hide *;
    MulCancelLe(a, b, c);
    MulCancelLe(b, a, c);
  }

  /** Quotient and remainder are determined by their defining equation. */
  lemma EuclidUnique(d: nat, q: nat, r: nat, q': nat, r': nat)
    requires Mul(q, d) + r == Mul(q', d) + r' && r < d && r' < d
    ensures q == q' && r == r'
  {
    hide *;
    if q < q' {
      MulStrict(q, q', d);
    } else if q > q' {
      MulStrict(q', q, d);
    }
  }

  // ----- division by repeated subtraction, so that no `/` or `%` enters a proof context -----

  /** `v % d` for `d > 0`. */
  function Rem(v: nat, d: nat): (r: nat)
    requires d > 0
    ensures r < d
    ensures v < d ==> r == v
  {
    if v < d then v else Rem(v - d, d)
  }

  /** `v / d` for `d > 0`. */
  function Quo(v: nat, d: nat): (q: nat)
    requires d > 0
    ensures q <= v
    ensures v < d ==> q == 0
  {
    if v < d then 0 else 1 + Quo(v - d, d)
  }

  lemma {:induction false} QuoRem(v: nat, d: nat)
    requires d > 0
    ensures v == Mul(Quo(v, d), d) + Rem(v, d)
  {
    if v >= d {
      QuoRem(v - d, d);
      MulAdd(1, Quo(v - d, d), d);
    }
  }

  lemma QuoRemUnique(v: nat, d: nat, q: nat, r: nat)
    requires r < d && v == Mul(q, d) + r
    ensures Quo(v, d) == q && Rem(v, d) == r
  {
    hide *;
    QuoRem(v, d);
    EuclidUnique(d, Quo(v, d), Rem(v, d), q, r);
  }

  lemma QuoRemAreDivMod(v: nat, d: nat)
    requires d > 0
    ensures Quo(v, d) == v / d && Rem(v, d) == v % d
  {
    assert v == (v / d) * d + v % d;
    QuoRemUnique(v, d, v / d, v % d);
  }

  lemma QuoBound(v: nat, d: nat, m: nat)
    requires d > 0 && v < Mul(m, d)
    ensures Quo(v, d) < m
  {
    QuoRem(v, d);
    MulCancelLt(Quo(v, d), m, d);
  }

  lemma RemAddMultiple(v: nat, q: nat, p: nat)
    requires p > 0
    ensures Rem(v + Mul(q, p), p) == Rem(v, p)
  {
    hide *;
    QuoRem(v, p);
    MulAdd(Quo(v, p), q, p);
    QuoRemUnique(v + Mul(q, p), p, Quo(v, p) + q, Rem(v, p));
  }

  lemma QuoQuo(v: nat, a: nat, b: nat)
    requires a > 0 && b > 0
    ensures Mul(b, a) > 0 && Quo(v, Mul(b, a)) == Quo(Quo(v, a), b)
  {
    hide *;
    MulPos(b, a);
    QuoRem(v, a);
    QuoRem(Quo(v, a), b);
    var q, r := Quo(Quo(v, a), b), Rem(Quo(v, a), b);
    MulAdd(Mul(q, b), r, a);
    MulAssoc(q, b, a);
    MulStrict(r, b, a);
    QuoRemUnique(v, Mul(b, a), q, Mul(r, a) + Rem(v, a));
  }

  // ----- powers -----

  function Pow(b: nat, e: nat): (p: nat)
    ensures b > 0 ==> p > 0
  {
    if e == 0 then 1
    else
      var p := Pow(b, e - 1);
      assert b > 0 ==> b * p > 0;
      Mul(b, p)
  }

  lemma PowSmall(b: nat)
    ensures Pow(b, 0) == 1 && Pow(b, 1) == b
  {
  }

  lemma PowStep(b: nat, e: nat)
    ensures Pow(b, e + 1) == Mul(b, Pow(b, e))
  {
  }

  lemma {:induction false} PowAdd(b: nat, e: nat, f: nat)
    ensures Pow(b, e + f) == Mul(Pow(b, e), Pow(b, f))
  {
    hide Mul;
    MulUnits(Pow(b, f));
    if e > 0 {
      PowAdd(b, e - 1, f);
      MulAssoc(b, Pow(b, e - 1), Pow(b, f));
    }
  }

  lemma PowMono(b: nat, e: nat, f: nat)
    requires b > 0 && e <= f
    ensures Pow(b, e) <= Pow(b, f)
  {
    hide *;
    PowAdd(b, f - e, e);
    MulPos(Pow(b, f - e), Pow(b, e));
  }

  lemma {:induction false} PowPow(b: nat, e: nat, f: nat)
    ensures Pow(Pow(b, e), f) == Pow(b, Mul(e, f))
  {
    hide Mul;
    MulUnits(e);
    if f > 0 {
      PowPow(b, e, f - 1);
      MulAdd(f - 1, 1, e);
      PowAdd(b, e, Mul(e, f - 1));
    }
  }

  // ----- limb sequences -----

  /** Every element is one machine word. */
  predicate IsLimbs(B: nat, s: seq<nat>) {
    forall i :: 0 <= i < |s| ==> s[i] < B
  }

  /** The number that the little-endian sequence `s` stands for. */
  function Val(B: nat, s: seq<nat>): nat {
    if |s| == 0 then 0 else Val(B, s[..|s| - 1]) + Mul(s[|s| - 1], Pow(B, |s| - 1))
  }

  lemma ValEmpty(B: nat)
    ensures Val(B, []) == 0
  {
  }

  lemma ValSnoc(B: nat, s: seq<nat>, d: nat)
    ensures Val(B, s + [d]) == Val(B, s) + Mul(d, Pow(B, |s|))
  {
    hide Mul, Pow;
    assert (s + [d])[..|s|] == s;
  }

  lemma ValOne(B: nat, d: nat)
    ensures Val(B, [d]) == d
  {
    hide *;
    ValSnoc(B, [], d);
    PowSmall(B);
    MulUnits(d);
    ValEmpty(B);
    assert [] + [d] == [d];
  }

  lemma TopAlgebra(B: nat, p: nat, d: nat, v: nat)
    requires v < p && d < B
    ensures v + Mul(d, p) < Mul(B, p)
  {
    MulStrict(d, B, p);
  }

  lemma {:induction false} ValBound(B: nat, s: seq<nat>)
    requires B > 0 && IsLimbs(B, s)
    ensures Val(B, s) < Pow(B, |s|)
  {
    hide Mul, Pow;
    if |s| > 0 {
      var n := |s| - 1;
      ValBound(B, s[..n]);
      PowStep(B, n);
      TopAlgebra(B, Pow(B, n), s[n], Val(B, s[..n]));
    }
  }

  lemma ConcatAlgebra(p: nat, q: nat, u: nat, v: nat, d: nat)
    ensures u + Mul(p, v) + Mul(d, Mul(p, q)) == u + Mul(p, v + Mul(d, q))
  {
    assert d * (p * q) == p * (d * q);
    assert p * (v + d * q) == p * v + p * (d * q);
  }

  lemma {:induction false} ValConcat(B: nat, s: seq<nat>, t: seq<nat>)
    ensures Val(B, s + t) == Val(B, s) + Mul(Pow(B, |s|), Val(B, t))
  {
    hide *;
    if |t| == 0 {
      assert s + t == s && t == [];
      ValEmpty(B);
      MulUnits(Pow(B, |s|));
    } else {
      var n := |t| - 1;
      assert s + t == (s + t[..n]) + [t[n]] && t == t[..n] + [t[n]];
      ValSnoc(B, s + t[..n], t[n]);
      ValSnoc(B, t[..n], t[n]);
      ValConcat(B, s, t[..n]);
      PowAdd(B, |s|, n);
      ConcatAlgebra(Pow(B, |s|), Pow(B, n), Val(B, s), Val(B, t[..n]), t[n]);
    }
  }

  lemma ValSplit(B: nat, s: seq<nat>, k: nat)
    requires k <= |s|
    ensures Val(B, s) == Val(B, s[..k]) + Mul(Pow(B, k), Val(B, s[k..]))
  {
    hide *;
    assert s == s[..k] + s[k..];
    ValConcat(B, s[..k], s[k..]);
  }

  lemma ValCons(B: nat, d: nat, s: seq<nat>)
    ensures Val(B, [d] + s) == d + Mul(B, Val(B, s))
  {
    hide *;
    ValConcat(B, [d], s);
    ValOne(B, d);
    PowSmall(B);
  }

  lemma {:induction false} ValZeros(B: nat, s: seq<nat>)
    requires forall i :: 0 <= i < |s| ==> s[i] == 0
    ensures Val(B, s) == 0
  {
    hide Mul, Pow;
    if |s| > 0 {
      ValZeros(B, s[..|s| - 1]);
      MulUnits(Pow(B, |s| - 1));
    }
  }

  /** The most significant limb brackets the value. */
  lemma ValTop(B: nat, s: seq<nat>)
    requires B > 0 && |s| > 0 && IsLimbs(B, s)
    ensures Mul(s[|s| - 1], Pow(B, |s| - 1)) <= Val(B, s) < Mul(s[|s| - 1] + 1, Pow(B, |s| - 1))
  {
    hide Mul, Pow;
    ValBound(B, s[..|s| - 1]);
    MulAdd(s[|s| - 1], 1, Pow(B, |s| - 1));
    MulUnits(Pow(B, |s| - 1));
  }

  /** Two limb sequences of one length stand for one number only if they are equal. */
  lemma {:induction false} ValInjective(B: nat, s: seq<nat>, t: seq<nat>)
    requires B > 0 && IsLimbs(B, s) && IsLimbs(B, t)
    requires |s| == |t| && Val(B, s) == Val(B, t)
    ensures s == t
  {
    hide Mul, Pow, Val;
    if |s| > 0 {
      var n := |s| - 1;
      assert s == s[..n] + [s[n]] && t == t[..n] + [t[n]];
      ValSnoc(B, s[..n], s[n]);
      ValSnoc(B, t[..n], t[n]);
      ValBound(B, s[..n]);
      ValBound(B, t[..n]);
      EuclidUnique(Pow(B, n), s[n], Val(B, s[..n]), t[n], Val(B, t[..n]));
      ValInjective(B, s[..n], t[..n]);
    }
  }

  /** The `n` low limbs of a number. */
  function ToLimbs(B: nat, n: nat, v: nat): (s: seq<nat>)
    requires B > 0
    ensures |s| == n
  {
    if n == 0 then [] else [Rem(v, B)] + ToLimbs(B, n - 1, Quo(v, B))
  }

  lemma {:induction false} ToLimbsVal(B: nat, n: nat, v: nat)
    requires B > 0 && v < Pow(B, n)
    ensures IsLimbs(B, ToLimbs(B, n, v)) && Val(B, ToLimbs(B, n, v)) == v
  {
    hide Mul, Val, Quo, Rem;
    if n == 0 {
      ValEmpty(B);
    } else {
      PowStep(B, n - 1);
      MulComm(B, Pow(B, n - 1));
      QuoBound(v, B, Pow(B, n - 1));
      ToLimbsVal(B, n - 1, Quo(v, B));
      ValCons(B, Rem(v, B), ToLimbs(B, n - 1, Quo(v, B)));
      QuoRem(v, B);
      MulComm(B, Quo(v, B));
    }
  }
}
