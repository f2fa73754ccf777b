/**
Bucket multi-scalar multiplication of `mcl/src/glv.hpp` (`mulVecUpdateTable`, `mulVecCore`,
`mulVecLong`) over any commutative group. Scalars are non-negative, so only addition and the
neutral element are used.
*/
module MulVec {
  import opened Limbs
  import opened Bint

  datatype Group<!G(!new)> = Group(zero: G, add: (G, G) -> G) {
    ghost predicate IsAbelian() {
      && (forall a, b :: add(a, b) == add(b, a))
      && (forall a, b, c :: add(add(a, b), c) == add(a, add(b, c)))
      && (forall a :: add(zero, a) == a)
    }

    /** n times P. */
    ghost function Times(n: nat, P: G): G {
      if n == 0 then zero else add(Times(n - 1, P), P)
    }

    /** The sum of ks[i] * xs[i]. */
    ghost function Dot(xs: seq<G>, ks: seq<nat>): G
      requires |xs| == |ks|
    {
      if |xs| == 0 then zero
      else add(Dot(xs[..|xs| - 1], ks[..|xs| - 1]), Times(ks[|xs| - 1], xs[|xs| - 1]))
    }

    lemma Laws(a: G, b: G, c: G)
      requires IsAbelian()
      ensures add(a, b) == add(b, a) && add(add(a, b), c) == add(a, add(b, c))
      ensures add(zero, a) == a && add(a, zero) == a
    {
      assert add(a, zero) == add(zero, a);
    }

    /** (a + b) + c == (a + c) + b. */
    lemma SwapLast(a: G, b: G, c: G)
      requires IsAbelian()
      ensures add(add(a, b), c) == add(add(a, c), b)
    {
      hide IsAbelian;
      Laws(a, b, c);
      Laws(a, c, b);
      Laws(b, c, a);
    }

    lemma Swap4(a: G, b: G, c: G, d: G)
      requires IsAbelian()
      ensures add(add(a, b), add(c, d)) == add(add(a, c), add(b, d))
    {
      hide IsAbelian;
      Laws(a, b, add(c, d));
      Laws(b, c, d);
      Laws(c, b, d);
      Laws(a, c, add(b, d));
    }

    lemma {:induction false} TimesAdd(m: nat, n: nat, P: G)
      requires IsAbelian()
      ensures Times(m + n, P) == add(Times(m, P), Times(n, P))
    {
      hide IsAbelian;
      Laws(Times(m, P), zero, zero);
      if n > 0 {
        TimesAdd(m, n - 1, P);
        assert Times(m + n, P) == add(Times(m + (n - 1), P), P);
        Laws(Times(m, P), Times(n - 1, P), P);
      }
    }

    lemma {:induction false} TimesOfSum(n: nat, P: G, Q: G)
      requires IsAbelian()
      ensures Times(n, add(P, Q)) == add(Times(n, P), Times(n, Q))
    {
      hide IsAbelian;
      Laws(zero, zero, zero);
      if n > 0 {
        TimesOfSum(n - 1, P, Q);
        Swap4(Times(n - 1, P), Times(n - 1, Q), P, Q);
      }
    }

    lemma {:induction false} TimesTimes(m: nat, n: nat, P: G)
      requires IsAbelian()
      ensures Times(m, Times(n, P)) == Times(Mul(m, n), P)
    {
      hide Mul, IsAbelian;
      MulUnits(n);
      if m > 0 {
        TimesTimes(m - 1, n, P);
        MulAdd(m - 1, 1, n);
        TimesAdd(Mul(m - 1, n), n, P);
      }
    }

    lemma {:induction false} TimesZero(n: nat)
      requires IsAbelian()
      ensures Times(n, zero) == zero
    {
      hide IsAbelian;
      Laws(zero, zero, zero);
      if n > 0 {
        TimesZero(n - 1);
      }
    }

    lemma DotSnoc(xs: seq<G>, ks: seq<nat>, x: G, k: nat)
      requires |xs| == |ks|
      ensures Dot(xs + [x], ks + [k]) == add(Dot(xs, ks), Times(k, x))
    {
      assert (xs + [x])[..|xs|] == xs && (ks + [k])[..|xs|] == ks;
    }

    /** Splitting every scalar as 2^b * high + low splits the whole sum. */
    lemma {:induction false} DotSplit(xs: seq<G>, ks: seq<nat>, hs: seq<nat>, ls: seq<nat>, m: nat)
      requires IsAbelian() && |xs| == |ks| == |hs| == |ls|
      requires forall i :: 0 <= i < |xs| ==> ks[i] == Mul(m, hs[i]) + ls[i]
      ensures Dot(xs, ks) == add(Times(m, Dot(xs, hs)), Dot(xs, ls))
    {
      hide Mul, IsAbelian;
      Laws(zero, zero, zero);
      if |xs| == 0 {
        TimesZero(m);
      } else {
        var n := |xs| - 1;
        DotSplit(xs[..n], ks[..n], hs[..n], ls[..n], m);
        TimesAdd(Mul(m, hs[n]), ls[n], xs[n]);
        TimesTimes(m, hs[n], xs[n]);
        TimesOfSum(m, Dot(xs[..n], hs[..n]), Times(hs[n], xs[n]));
        Swap4(Times(m, Dot(xs[..n], hs[..n])), Dot(xs[..n], ls[..n]),
              Times(m, Times(hs[n], xs[n])), Times(ls[n], xs[n]));
      }
    }

    /** The sum over a concatenation. */
    lemma {:induction false} DotConcat(xs: seq<G>, ks: seq<nat>, xs': seq<G>, ks': seq<nat>)
      requires IsAbelian() && |xs| == |ks| && |xs'| == |ks'|
      ensures Dot(xs + xs', ks + ks') == add(Dot(xs, ks), Dot(xs', ks'))
    {
      hide IsAbelian;
      Laws(Dot(xs, ks), zero, zero);
      if |xs'| == 0 {
        assert xs + xs' == xs && ks + ks' == ks;
      } else {
        var n := |xs'| - 1;
        DotConcat(xs, ks, xs'[..n], ks'[..n]);
        assert xs + xs' == (xs + xs'[..n]) + [xs'[n]] && ks + ks' == (ks + ks'[..n]) + [ks'[n]];
        DotSnoc(xs + xs'[..n], ks + ks'[..n], xs'[n], ks'[n]);
        Laws(Dot(xs, ks), Dot(xs'[..n], ks'[..n]), Times(ks'[n], xs'[n]));
      }
    }

    // ----- buckets -----

    /** tbl[k] + ... + tbl[|tbl| - 1]. */
    ghost function Suffix(tbl: seq<G>, k: nat): G
      requires k <= |tbl|
      decreases |tbl| - k
    {
      if k == |tbl| then zero else add(Suffix(tbl, k + 1), tbl[k])
    }

    /** The running total of the suffix sums: weight j - k + 1 for bucket j. */
    ghost function Running(tbl: seq<G>, k: nat): G
      requires k <= |tbl|
      decreases |tbl| - k
    {
      if k == |tbl| then zero else add(Running(tbl, k + 1), Suffix(tbl, k))
    }

    /** Bucket j weighted by j + 1, from bucket k upward. */
    ghost function Weighted(tbl: seq<G>, k: nat): G
      requires k <= |tbl|
      decreases |tbl| - k
    {
      if k == |tbl| then zero else add(Weighted(tbl, k + 1), Times(k + 1, tbl[k]))
    }

    lemma {:induction false} RunningIsWeighted(tbl: seq<G>, k: nat)
      requires IsAbelian() && k <= |tbl|
      ensures Weighted(tbl, k) == add(Times(k, Suffix(tbl, k)), Running(tbl, k))
      decreases |tbl| - k
    {
      hide IsAbelian;
      Laws(zero, zero, zero);
      if k == |tbl| {
        TimesZero(k);
      } else {
        RunningIsWeighted(tbl, k + 1);
        var s, r, t := Suffix(tbl, k + 1), Running(tbl, k + 1), tbl[k];
        // ((k+1) s + r) + (k+1) t == ((k+1) s + (k+1) t) + r == (k (s + t) + (s + t)) + r
        SwapLast(Times(k + 1, s), r, Times(k + 1, t));
        TimesOfSum(k + 1, s, t);
        Laws(Times(k, add(s, t)), add(s, t), r);
        Laws(add(s, t), r, r);
      }
    }

    /** Adding a point to bucket j adds it j + 1 times to the weighted sum. */
    lemma {:induction false} FillBucket(tbl: seq<G>, j: nat, P: G, k: nat)
      requires IsAbelian() && j < |tbl| && k <= |tbl|
      ensures Weighted(tbl[j := add(tbl[j], P)], k) == if k <= j then add(Weighted(tbl, k), Times(j + 1, P)) else Weighted(tbl, k)
      decreases |tbl| - k
    {
      hide IsAbelian;
      if k < |tbl| {
        FillBucket(tbl, j, P, k + 1);
        if k == j {
          TimesOfSum(j + 1, tbl[j], P);
          Laws(Weighted(tbl, k + 1), Times(k + 1, tbl[k]), Times(j + 1, P));
        } else if k < j {
          SwapLast(Weighted(tbl, k + 1), Times(j + 1, P), Times(k + 1, tbl[k]));
        }
      }
    }

    lemma {:induction false} EmptyBuckets(tbl: seq<G>, k: nat)
      requires IsAbelian() && k <= |tbl| && forall j :: 0 <= j < |tbl| ==> tbl[j] == zero
      ensures Weighted(tbl, k) == zero
      decreases |tbl| - k
    {
      hide IsAbelian;
      Laws(zero, zero, zero);
      if k < |tbl| {
        EmptyBuckets(tbl, k + 1);
        TimesZero(k + 1);
      }
    }
  }

  // ----- the windows of a scalar -----

  /** The word at bit position pos: the low w bits of y >> pos. */
  method GetUnitAt(w: nat, y: seq<nat>, pos: nat) returns (v: nat)
    requires |y| >= 1 && IsLimbs(Pow(2, w), y)
    ensures v == Rem(Quo(Val(Pow(2, w), y), Pow(2, pos)), Pow(2, w))
  {
    hide Mul, Pow, Val, Rem, Quo;
    v := Rem(Quo(Val(Pow(2, w), y), Pow(2, pos)), Pow(2, w));
  }

  /** Masking a word with 2^b - 1 keeps the low b bits of the number it was read from. */
  lemma MaskedWord(w: nat, b: nat, v: nat)
    requires b <= w
    ensures Rem(Rem(v, Pow(2, w)), Pow(2, b)) == Rem(v, Pow(2, b))
  {
    hide Mul, Pow, Rem, Quo;
    var B, K := Pow(2, w), Pow(2, b);
    QuoRem(v, B);
    QuoRem(Rem(v, B), K);
    PowAdd(2, w - b, b);
    MulAssoc(Quo(v, B), Pow(2, w - b), K);
    MulAdd(Mul(Quo(v, B), Pow(2, w - b)), Quo(Rem(v, B), K), K);
    QuoRemUnique(v, K, Mul(Quo(v, B), Pow(2, w - b)) + Quo(Rem(v, B), K), Rem(Rem(v, B), K));
  }

  /** y >> e is 2^b times y >> (e + b), plus the b bits at e. */
  lemma WindowSplit(y: nat, e: nat, b: nat)
    ensures Quo(y, Pow(2, e)) == Mul(Pow(2, b), Quo(y, Pow(2, e + b))) + Rem(Quo(y, Pow(2, e)), Pow(2, b))
  {
    hide Mul, Pow, Rem, Quo;
    var E, K := Pow(2, e), Pow(2, b);
    var v := Quo(y, E);
    QuoRem(y, E);
    QuoRem(v, K);
    PowAdd(2, b, e);
    // y == (v / K) * (K * E) + ((v % K) * E + y % E)
    MulAdd(Mul(Quo(v, K), K), Rem(v, K), E);
    MulAssoc(Quo(v, K), K, E);
    MulStrict(Rem(v, K), K, E);
    QuoRemUnique(y, Mul(K, E), Quo(v, K), Mul(Rem(v, K), E) + Rem(y, E));
    MulComm(K, Quo(v, K));
  }

  /** The scalars that the limb vectors stand for. */
  ghost function Scalars(w: nat, ys: seq<seq<nat>>): (ks: seq<nat>)
    ensures |ks| == |ys|
  {
    seq(|ys|, i requires 0 <= i < |ys| => Val(Pow(2, w), ys[i]))
  }

  /** Every scalar shifted right by e bits. */
  ghost function High(ks: seq<nat>, e: nat): (hs: seq<nat>)
    ensures |hs| == |ks| && forall i :: 0 <= i < |ks| ==> hs[i] == Quo(ks[i], Pow(2, e))
  {
    seq(|ks|, i requires 0 <= i < |ks| => Quo(ks[i], Pow(2, e)))
  }

  /** The b bits at position e of every scalar. */
  ghost function Window(ks: seq<nat>, e: nat, b: nat): (vs: seq<nat>)
    ensures |vs| == |ks| && forall i :: 0 <= i < |ks| ==> vs[i] == Rem(Quo(ks[i], Pow(2, e)), Pow(2, b))
  {
    seq(|ks|, i requires 0 <= i < |ks| => Rem(Quo(ks[i], Pow(2, e)), Pow(2, b)))
  }

  /** What every routine is called with: points, their scalars as limb vectors, a window width. */
  ghost predicate Inputs<G(!new)>(g: Group<G>, w: nat, xs: seq<G>, ys: seq<seq<nat>>, len: nat) {
    && g.IsAbelian() && w >= 32 && len >= 1 && |xs| == |ys|
    && forall i :: 0 <= i < |ys| ==> |ys[i]| == len && IsLimbs(Pow(2, w), ys[i])
  }

  // ----- mulVecUpdateTable -----

  lemma EmptyDot<G(!new)>(g: Group<G>, xs: seq<G>, ks: seq<nat>)
    requires |xs| == |ks|
    ensures g.Dot(xs[..0], ks[..0]) == g.zero
  {
  }

  /** Fill the buckets with the points by the window at `pos`. */
  method FillTable<G(!new)>(g: Group<G>, w: nat, tbl: array<G>, b: nat, xs: seq<G>, ys: seq<seq<nat>>, len: nat, pos: nat)
    requires Inputs(g, w, xs, ys, len) && 1 <= b <= w && tbl.Length + 1 == Pow(2, b)
    modifies tbl
    ensures g.Weighted(tbl[..], 0) == g.Dot(xs, Window(Scalars(w, ys), pos, b))
  {
    hide Mul, Pow, Val, Rem, Quo, Group<G>.IsAbelian, Group<G>.Dot, Group<G>.Weighted;
    EmptyDot(g, xs, Window(Scalars(w, ys), pos, b));
    var tblN := tbl.Length;
    for i := 0 to tblN
      invariant forall j :: 0 <= j < i ==> tbl[j] == g.zero
    {
      tbl[i] := g.zero;
    }
    g.EmptyBuckets(tbl[..], 0);
    ghost var vs := Window(Scalars(w, ys), pos, b);
    for i := 0 to |xs|
      invariant g.Weighted(tbl[..], 0) == g.Dot(xs[..i], vs[..i])
    {
      var u := GetUnitAt(w, ys[i], pos);
      MaskedWord(w, b, Quo(Val(Pow(2, w), ys[i]), Pow(2, pos)));
      var v := Rem(u, Pow(2, b));
      assert xs[..i + 1] == xs[..i] + [xs[i]] && vs[..i + 1] == vs[..i] + [vs[i]];
      g.DotSnoc(xs[..i], vs[..i], xs[i], vs[i]);
      g.Laws(g.Weighted(tbl[..], 0), g.zero, g.zero);
      if v != 0 {
        ghost var ts := tbl[..];
        g.FillBucket(ts, v - 1, xs[i], 0);
        tbl[v - 1] := g.add(tbl[v - 1], xs[i]);
        assert tbl[..] == ts[v - 1 := g.add(ts[v - 1], xs[i])];
      }
    }
    assert xs[..|xs|] == xs && vs[..|xs|] == vs;
  }

  /** win, increased by every bucket times its index, with two additions a bucket. */
  method SumTable<G(!new)>(g: Group<G>, tbl: array<G>, first: bool, win0: G) returns (win: G)
    requires g.IsAbelian() && tbl.Length >= 1
    ensures win == if first then g.Weighted(tbl[..], 0) else g.add(win0, g.Weighted(tbl[..], 0))
  {
    hide Mul, Group<G>.IsAbelian;
    ghost var ts := tbl[..];
    var tblN := tbl.Length;
    var sum := tbl[tblN - 1];
    g.Laws(sum, g.zero, g.zero);
    if first {
      win := sum;
    } else {
      win := g.add(win0, sum);
    }
    for i := 1 to tblN
      invariant sum == g.Suffix(ts, tblN - i)
      invariant win == if first then g.Running(ts, tblN - i) else g.add(win0, g.Running(ts, tblN - i))
    {
      sum := g.add(sum, tbl[tblN - 1 - i]);
      g.Laws(win0, g.Running(ts, tblN - i), sum);
      win := g.add(win, sum);
    }
    g.RunningIsWeighted(ts, 0);
    g.Laws(g.Running(ts, 0), g.zero, g.zero);
  }

  /** `mulVecUpdateTable`: add the contribution of one window. */
  method UpdateTable<G(!new)>(g: Group<G>, w: nat, win0: G, tbl: array<G>, b: nat, xs: seq<G>, ys: seq<seq<nat>>,
                              len: nat, pos: nat, first: bool) returns (win: G)
    requires Inputs(g, w, xs, ys, len) && 1 <= b <= w && tbl.Length + 1 == Pow(2, b)
    modifies tbl
    ensures var d := g.Dot(xs, Window(Scalars(w, ys), pos, b)); win == if first then d else g.add(win0, d)
  {
    hide Mul, Pow, Val, Rem, Quo, Group<G>.Dot, Group<G>.Weighted;
    AtLeastOneBucket(b);
    FillTable(g, w, tbl, b, xs, ys, len, pos);
    win := SumTable(g, tbl, first, win0);
  }

  lemma AtLeastOneBucket(b: nat)
    requires b >= 1
    ensures Pow(2, b) >= 2
  {
    PowMono(2, 1, b);
  }

  // ----- mulVecCore -----

  const MaxStackN: nat := 1024

  /** The number of bits of n. */
  function Ilog2(n: nat): nat {
    if n == 0 then 0 else 1 + Ilog2(n / 2)
  }

  const BucketTbl: seq<nat> := [3, 4, 5, 5, 8, 8, 9, 10, 11, 12, 13, 13, 13, 16, 16, 16, 18, 19, 19, 19, 19, 19]

  /** The window width that is chosen for n points. */
  function BucketSize(n: nat): (b: nat)
    ensures 2 <= b <= 19
  {
    if n <= 2 then 2
    else
      var log2n := Ilog2(n);
      if log2n < 8 then 3
      else if log2n >= |BucketTbl| then 19
      else BucketTbl[log2n - 8]
  }

  /** y * P for one point. */
  method MulArray<G(!new)>(g: Group<G>, w: nat, P: G, y: seq<nat>) returns (z: G)
    ensures z == g.Times(Val(Pow(2, w), y), P)
  {
    var k := Val(Pow(2, w), y);
    z := g.zero;
    for i := 0 to k
      invariant z == g.Times(i, P)
    {
      z := g.add(z, P);
    }
  }

  /** Doubling b times multiplies by 2^b. */
  method DoubleTimes<G(!new)>(g: Group<G>, z0: G, b: nat) returns (z: G)
    requires g.IsAbelian()
    ensures z == g.Times(Pow(2, b), z0)
  {
    hide Mul, Pow, Group<G>.IsAbelian;
    z := z0;
    PowSmall(2);
    g.Laws(z0, g.zero, g.zero);
    OneTime(g, z0);
    for i := 0 to b
      invariant z == g.Times(Pow(2, i), z0)
    {
      z := g.add(z, z);
      g.TimesAdd(Pow(2, i), Pow(2, i), z0);
      PowStep(2, i);
      MulAdd(1, 1, Pow(2, i));
      MulUnits(Pow(2, i));
    }
  }

  lemma OneTime<G(!new)>(g: Group<G>, P: G)
    requires g.add(g.zero, P) == P
    ensures g.Times(1, P) == P
  {
    assert g.Times(0, P) == g.zero;
  }

  /** Every scalar fits the bits that the windows cover. */
  lemma TopWindow(w: nat, len: nat, ys: seq<seq<nat>>, e: nat, b: nat)
    requires forall i :: 0 <= i < |ys| ==> |ys[i]| == len && IsLimbs(Pow(2, w), ys[i])
    requires Mul(w, len) <= e + b
    ensures High(Scalars(w, ys), e) == Window(Scalars(w, ys), e, b)
  {
    hide Mul, Pow, Val, Rem, Quo;
    forall i | 0 <= i < |ys|
      ensures Quo(Val(Pow(2, w), ys[i]), Pow(2, e)) == Rem(Quo(Val(Pow(2, w), ys[i]), Pow(2, e)), Pow(2, b))
    {
      var y := Val(Pow(2, w), ys[i]);
      ValBound(Pow(2, w), ys[i]);
      PowPow(2, w, len);
      PowMono(2, Mul(w, len), e + b);
      WindowSplit(y, e, b);
      MulUnits(Pow(2, b));
    }
  }

  /** One more window: shift the sum up by b bits and add the window. */
  lemma NextWindow<G(!new)>(g: Group<G>, xs: seq<G>, ks: seq<nat>, e: nat, b: nat)
    requires g.IsAbelian() && |xs| == |ks|
    ensures g.Dot(xs, High(ks, e)) == g.add(g.Times(Pow(2, b), g.Dot(xs, High(ks, e + b))), g.Dot(xs, Window(ks, e, b)))
  {
    hide Mul, Pow, Rem, Quo, Group<G>.IsAbelian, Group<G>.Dot;
    forall i | 0 <= i < |ks|
      ensures High(ks, e)[i] == Mul(Pow(2, b), High(ks, e + b)[i]) + Window(ks, e, b)[i]
    {
      WindowSplit(ks[i], e, b);
    }
    g.DotSplit(xs, High(ks, e), High(ks, e + b), Window(ks, e, b), Pow(2, b));
  }

  lemma NoShift(ks: seq<nat>)
    ensures High(ks, 0) == ks
  {
    hide Mul, Rem, Quo, Pow;
    PowSmall(2);
    forall i | 0 <= i < |ks| ensures Quo(ks[i], 1) == ks[i] {
      MulUnits(ks[i]);
      QuoRemUnique(ks[i], 1, ks[i], 0);
    }
  }

  /** The windows from the top down (label `main`). */
  method Windows<G(!new)>(g: Group<G>, w: nat, xs: seq<G>, ys: seq<seq<nat>>, len: nat, b: nat) returns (z: G)
    requires Inputs(g, w, xs, ys, len) && 1 <= b <= w
    ensures z == g.Dot(xs, Scalars(w, ys))
  {
    hide Mul, Pow, Val, Rem, Quo, Group<G>.IsAbelian, Group<G>.Dot, High, Window, Scalars;
    ghost var ks := Scalars(w, ys);
    AtLeastOneBucket(b);
    var tblN := Pow(2, b) - 1;
    var tbl := new G[tblN](_ => g.zero);
    var winN := Quo(Mul(w, len) + b - 1, b);
    WindowCount(w, len, b);
    var e := Mul(b, winN - 1);
    MulAdd(winN - 1, 1, b);
    MulUnits(b);
    TopWindow(w, len, ys, e, b);
    z := UpdateTable(g, w, g.zero, tbl, b, xs, ys, len, e, true);
    for i := 1 to winN
      invariant z == g.Dot(xs, High(ks, Mul(b, winN - i)))
    {
      z := DoubleTimes(g, z, b);
      ghost var d := Mul(b, winN - 1 - i);
      MulAdd(winN - 1 - i, 1, b);
      NextWindow(g, xs, ks, d, b);
      z := UpdateTable(g, w, z, tbl, b, xs, ys, len, Mul(b, winN - 1 - i), false);
    }
    NoShift(ks);
  }

  lemma WindowCount(w: nat, len: nat, b: nat)
    requires w >= 1 && len >= 1 && b >= 1
    ensures var n := Quo(Mul(w, len) + b - 1, b); n >= 1 && Mul(w, len) <= Mul(b, n)
  {
    hide Mul, Rem, Quo;
    var v := Mul(w, len) + b - 1;
    QuoRem(v, b);
    MulPos(w, len);
    MulComm(b, Quo(v, b));
    MulUnits(b);
  }

  /**
  The sum over the points that were processed: all of them, or the first 1024 when there are more
  and the table could not be allocated.
  */
  method MulVecCore<G(!new)>(g: Group<G>, w: nat, xs: seq<G>, ys: seq<seq<nat>>, len: nat, b0: nat, mallocOk: bool)
    returns (z: G, done: nat)
    requires Inputs(g, w, xs, ys, len) && b0 <= w
    ensures done <= |xs| && (|xs| > 0 ==> done > 0) && (done < |xs| ==> !mallocOk && done == MaxStackN)
    ensures z == g.Dot(xs[..done], Scalars(w, ys[..done]))
  {
    hide Mul, Pow, Val, Rem, Quo, Group<G>.IsAbelian;
    var n, b := |xs|, b0;
    if n == 0 {
      return g.zero, 0;
    }
    if n == 1 {
      z := MulArray(g, w, xs[0], ys[0]);
      SingleTerm(g, w, xs, ys);
      return z, 1;
    }
    if n > MaxStackN {
      if b == 0 {
        b := BucketSize(n);
      }
      if !mallocOk {
        n := MaxStackN;
      }
    }
    if b == 0 {
      b := BucketSize(n);
    }
    z := Windows(g, w, xs[..n], ys[..n], len, b);
    done := n;
  }

  lemma SingleTerm<G(!new)>(g: Group<G>, w: nat, xs: seq<G>, ys: seq<seq<nat>>)
    requires g.IsAbelian() && |xs| == |ys| == 1
    ensures g.Dot(xs[..1], Scalars(w, ys[..1])) == g.Times(Val(Pow(2, w), ys[0]), xs[0])
  {
    hide Mul, Pow, Val, Group<G>.IsAbelian;
    assert g.Dot(xs[..1][..0], Scalars(w, ys[..1])[..0]) == g.zero;
    g.Laws(g.Times(Val(Pow(2, w), ys[0]), xs[0]), g.zero, g.zero);
  }

  // ----- mulVecLong -----

  /** The whole sum, whatever pattern of allocation failures the repeated calls meet. */
  method MulVecLong<G(!new)>(g: Group<G>, w: nat, xs: seq<G>, ys: seq<seq<nat>>, len: nat, b: nat, mallocs: nat -> bool)
    returns (z: G)
    requires Inputs(g, w, xs, ys, len) && b <= w
    ensures z == g.Dot(xs, Scalars(w, ys))
  {
    hide Mul, Pow, Val, Group<G>.IsAbelian, Group<G>.Dot;
    var done;
    z, done := MulVecCore(g, w, xs, ys, len, b, mallocs(0));
    assert xs[..|xs|] == xs && ys[..|ys|] == ys;
    if done == |xs| {
      return;
    }
    var off, round := 0, 1;
    while true
      invariant 0 <= off && off + done < |xs| && done > 0
      invariant z == g.Dot(xs[..off + done], Scalars(w, ys[..off + done]))
      decreases |xs| - off
    {
      off := off + done;
      var xs', ys' := xs[off..], ys[off..];
      var t;
      t, done := MulVecCore(g, w, xs', ys', len, b, mallocs(round));
      round := round + 1;
      JoinParts(g, w, xs, ys, off, done);
      z := g.add(z, t);
      if done >= |xs'| {
        break;
      }
    }
  }

  lemma JoinParts<G(!new)>(g: Group<G>, w: nat, xs: seq<G>, ys: seq<seq<nat>>, off: nat, done: nat)
    requires g.IsAbelian() && |xs| == |ys| && off + done <= |xs|
    ensures g.Dot(xs[..off + done], Scalars(w, ys[..off + done]))
         == g.add(g.Dot(xs[..off], Scalars(w, ys[..off])), g.Dot(xs[off..][..done], Scalars(w, ys[off..][..done])))
  {
    hide Mul, Pow, Val, Group<G>.IsAbelian, Group<G>.Dot;
    assert xs[..off + done] == xs[..off] + xs[off..][..done];
    assert Scalars(w, ys[..off + done]) == Scalars(w, ys[..off]) + Scalars(w, ys[off..][..done]);
    g.DotConcat(xs[..off], Scalars(w, ys[..off]), xs[off..][..done], Scalars(w, ys[off..][..done]));
  }
}
