/**
The square of a limb sequence by diagonals: twice the products of limbs at each distance, plus
the squares of the limbs. Both squaring routines of the library sum in this order.
*/
module Squares {
  import opened Limbs

  /** The product of limbs j and j - d with its weight. */
  ghost function Term(M: nat, xs: seq<nat>, d: nat, j: nat): nat
    requires d <= j < |xs|
  {
    Mul(Mul(xs[j], xs[j - d]), Pow(M, 2 * j - d))
  }

  /** Products at distance d among the first n limbs. */
  ghost function Diagonal(M: nat, xs: seq<nat>, d: nat, n: nat): nat
    requires n <= |xs|
    decreases n
  {
    if n <= d then 0 else Diagonal(M, xs, d, n - 1) + Term(M, xs, d, n - 1)
  }

  /** Products at distances 1 .. k. */
  ghost function Diagonals(M: nat, xs: seq<nat>, k: nat, n: nat): nat
    requires n <= |xs|
  {
    if k == 0 then 0 else Diagonals(M, xs, k - 1, n) + Diagonal(M, xs, k, n)
  }

  /** Squares of the first n limbs. */
  ghost function SquareTerms(M: nat, xs: seq<nat>, n: nat): nat
    requires n <= |xs|
  {
    if n == 0 then 0 else SquareTerms(M, xs, n - 1) + Term(M, xs, 0, n - 1)
  }

  lemma TermAlgebra(x: nat, y: nat, v: nat, p: nat, q: nat)
    ensures Mul(Mul(x, y), Mul(p, q)) + Mul(Mul(x, p), v) == Mul(Mul(x, p), v + Mul(y, q))
  {
    assert (x * y) * (p * q) == (x * p) * (y * q);
    assert (x * p) * (v + y * q) == (x * p) * v + (x * p) * (y * q);
  }

  /** A new limb x[n] adds, over the distances 1 .. k, its products with the k limbs before it. */
  lemma {:induction false} NewRow(M: nat, xs: seq<nat>, n: nat, k: nat)
    requires k <= n < |xs|
    ensures Diagonals(M, xs, k, n + 1) + Mul(Mul(xs[n], Pow(M, n)), Val(M, xs[..n - k]))
         == Diagonals(M, xs, k, n) + Mul(Mul(xs[n], Pow(M, n)), Val(M, xs[..n]))
  {
    hide Mul, Pow, Val;
    if k > 0 {
      NewRow(M, xs, n, k - 1);
      assert xs[..n - k + 1] == xs[..n - k] + [xs[n - k]];
      ValSnoc(M, xs[..n - k], xs[n - k]);
      PowAdd(M, n, n - k);
      TermAlgebra(xs[n], xs[n - k], Val(M, xs[..n - k]), Pow(M, n), Pow(M, n - k));
    }
  }

  /** Distances beyond the number of limbs contribute nothing. */
  lemma LongDistance(M: nat, xs: seq<nat>, n: nat)
    requires 1 <= n <= |xs|
    ensures Diagonals(M, xs, n, n) == Diagonals(M, xs, n - 1, n)
  {
  }

  lemma BinomialAlgebra(v: nat, x: nat, p: nat)
    ensures Mul(v + Mul(x, p), v + Mul(x, p)) == Mul(v, v) + 2 * Mul(Mul(x, p), v) + Mul(Mul(x, x), Mul(p, p))
  {
    var e := x * p;
    assert (v + e) * (v + e) == v * v + 2 * (e * v) + e * e;
    assert e * e == (x * x) * (p * p);
  }

  /** The diagonals, doubled, and the squared limbs make up the square. */
  lemma {:induction false} SquareByDiagonals(M: nat, xs: seq<nat>, n: nat)
    requires n <= |xs|
    ensures 2 * Diagonals(M, xs, if n == 0 then 0 else n - 1, n) + SquareTerms(M, xs, n)
         == Mul(Val(M, xs[..n]), Val(M, xs[..n]))
  {
    hide Mul, Pow, Val;
    if n == 0 {
      assert xs[..0] == [];
      ValEmpty(M);
      MulUnits(0);
    } else {
      var m := n - 1;
      SquareByDiagonals(M, xs, m);
      NewRow(M, xs, m, m);
      assert xs[..0] == [] && xs[..m + 1] == xs[..m] + [xs[m]];
      ValEmpty(M);
      MulUnits(Mul(xs[m], Pow(M, m)));
      ValSnoc(M, xs[..m], xs[m]);
      if m > 0 {
        LongDistance(M, xs, m);
      }
      PowAdd(M, m, m);
      BinomialAlgebra(Val(M, xs[..m]), xs[m], Pow(M, m));
    }
  }
}
