/**
The limb loops of `mcl/src/bint_impl.hpp`: addition, subtraction, multiplication by one word,
schoolbook multiplication, bit shifts and single-word addition and division. A C pointer
argument `x + k` is an array together with an offset; the radix `B` is `2^w` for an arbitrary
word width `w`, and unsigned wrap-around is written out.
*/
module Bint {
  import opened Limbs
  import Words

  // ----- machine-word operations -----

  /** Unsigned addition of two words, with its wrap-around. */
  function WrapAdd(B: nat, a: nat, b: nat): (r: nat)
    requires a < B && b < B
    ensures r < B
  {
    if a + b < B then a + b else a + b - B
  }

  /** Unsigned subtraction of two words, with its wrap-around. */
  function WrapSub(B: nat, a: nat, b: nat): (r: nat)
    requires a < B && b < B
    ensures r < B
  {
    if b <= a then a - b else a + B - b
  }

  /** The 0 or 1 that a comparison yields in the original language. */
  function Bit(b: bool): nat {
    if b then 1 else 0
  }

  /** The buffer `x[xo..xo+n)` lies inside the array and holds words. */
  ghost predicate Buf(B: nat, x: array<nat>, xo: nat, n: nat)
    reads x
  {
    xo + n <= x.Length && IsLimbs(B, x[xo..xo + n])
  }

  /** An upward loop may write `z` while it reads `x`. */
  ghost predicate UpSafe(z: array<nat>, zo: nat, x: array<nat>, xo: nat, n: nat) {
    z != x || zo <= xo || xo + n <= zo
  }

  /** A downward loop may write `z` while it reads `x`. */
  ghost predicate DownSafe(z: array<nat>, zo: nat, x: array<nat>, xo: nat, n: nat) {
    z != x || xo <= zo || zo + n <= xo
  }

  /** Nothing outside `a[lo..hi)` differs from `was`. */
  ghost predicate OnlyIn(a: array<nat>, was: seq<nat>, lo: nat, hi: nat)
    reads a
  {
    |was| == a.Length && forall j :: 0 <= j < a.Length && !(lo <= j < hi) ==> a[j] == was[j]
  }

  // ----- memory primitives -----

  method ClearN(x: array<nat>, xo: nat, n: nat)
    requires xo + n <= x.Length
    modifies x
    ensures forall j :: xo <= j < xo + n ==> x[j] == 0
    ensures OnlyIn(x, old(x[..]), xo, xo + n)
  {
    for i := 0 to n
      invariant forall j :: xo <= j < xo + i ==> x[j] == 0
      invariant OnlyIn(x, old(x[..]), xo, xo + i)
    {
      x[xo + i] := 0;
    }
  }

  method CopyN(y: array<nat>, yo: nat, x: array<nat>, xo: nat, n: nat)
    requires xo + n <= x.Length && yo + n <= y.Length && UpSafe(y, yo, x, xo, n)
    modifies y
    ensures y[yo..yo + n] == old(x[xo..xo + n])
    ensures OnlyIn(y, old(y[..]), yo, yo + n)
  {
    ghost var xs := x[xo..xo + n];
    for i := 0 to n
      invariant forall j :: yo <= j < yo + i ==> y[j] == xs[j - yo]
      invariant forall j :: xo + i <= j < xo + n ==> x[j] == xs[j - xo]
      invariant OnlyIn(y, old(y[..]), yo, yo + i)
    {
      y[yo + i] := x[xo + i];
    }
    assert y[yo..yo + n] == xs;
  }

  /** The number of limbs up to the last non-zero one, but at least one. */
  method GetRealSize(ghost B: nat, x: array<nat>, n: nat) returns (r: nat)
    requires 1 <= n && B > 0 && Buf(B, x, 0, n)
    ensures 1 <= r <= n && (r == 1 || x[r - 1] != 0)
    ensures forall j :: r <= j < n ==> x[j] == 0
    ensures Val(B, x[..r]) == Val(B, x[..n])
  {
    hide Mul, Pow, Val;
    r := n;
    while r > 1 && x[r - 1] == 0
      invariant 1 <= r <= n
      invariant forall j :: r <= j < n ==> x[j] == 0
    {
      r := r - 1;
    }
    assert x[..n][..r] == x[..r] && x[..n][r..] == x[r..n];
    ValSplit(B, x[..n], r);
    ValZeros(B, x[r..n]);
    MulUnits(Pow(B, r));
  }

  /** Three-way comparison: the sign says how the two numbers compare. */
  method CmpN(ghost B: nat, x: array<nat>, xo: nat, y: array<nat>, yo: nat, n: nat) returns (c: int)
    requires B > 0 && Buf(B, x, xo, n) && Buf(B, y, yo, n)
    ensures c < 0 <==> Val(B, x[xo..xo + n]) < Val(B, y[yo..yo + n])
    ensures c == 0 <==> Val(B, x[xo..xo + n]) == Val(B, y[yo..yo + n])
  {
    hide Mul, Pow, Val;
    ghost var xs, ys := x[xo..xo + n], y[yo..yo + n];
    c := 0;
    var i := n;
    while i > 0 && c == 0
      invariant 0 <= i <= n
      invariant c == 0 ==> xs[i..] == ys[i..]
      invariant c != 0 ==> 0 <= i < n && xs[i + 1..] == ys[i + 1..]
      invariant c < 0 ==> 0 <= i < n && xs[i] < ys[i]
      invariant c > 0 ==> 0 <= i < n && xs[i] > ys[i]
    {
      i := i - 1;
      if x[xo + i] < y[yo + i] {
        c := -1;
      } else if x[xo + i] > y[yo + i] {
        c := 1;
      }
      assert xs[i] == x[xo + i] && ys[i] == y[yo + i];
      assert xs[i..] == [xs[i]] + xs[i + 1..] && ys[i..] == [ys[i]] + ys[i + 1..];
    }
    if c < 0 {
      TopLimbDecides(B, xs, ys, i);
    } else if c > 0 {
      TopLimbDecides(B, ys, xs, i);
    }
  }

  lemma TopLimbDecides(B: nat, xs: seq<nat>, ys: seq<nat>, i: nat)
    requires B > 0 && IsLimbs(B, xs) && IsLimbs(B, ys) && |xs| == |ys|
    requires i < |xs| && xs[i] < ys[i] && xs[i + 1..] == ys[i + 1..]
    ensures Val(B, xs) < Val(B, ys)
  {
    hide Mul, Pow, Val;
    ValSplit(B, xs, i + 1);
    ValSplit(B, ys, i + 1);
    ValTop(B, xs[..i + 1]);
    ValTop(B, ys[..i + 1]);
    MulMono(xs[i] + 1, ys[i], Pow(B, i));
  }

  method CmpGeN(ghost B: nat, x: array<nat>, xo: nat, y: array<nat>, yo: nat, n: nat) returns (ge: bool)
    requires B > 0 && Buf(B, x, xo, n) && Buf(B, y, yo, n)
    ensures ge <==> Val(B, x[xo..xo + n]) >= Val(B, y[yo..yo + n])
  {
    var c := CmpN(B, x, xo, y, yo, n);
    ge := c >= 0;
  }

  // ----- addition and subtraction -----

  lemma ColumnAlgebra(B: nat, p: nat, z: nat, c: nat, x: nat, y: nat, zi: nat, xi: nat, yi: nat, d: nat)
    requires z + Mul(c, p) == x + y && zi + Mul(d, B) == xi + yi + c
    ensures z + Mul(zi, p) + Mul(d, Mul(B, p)) == x + Mul(xi, p) + (y + Mul(yi, p))
  {
  }

  /** The carry into column `i` of the sum of `xs` and `ys`. */
  function CarryIn(B: nat, xs: seq<nat>, ys: seq<nat>, i: nat): (c: nat)
    requires i <= |xs| == |ys|
    ensures c <= 1
  {
    if i == 0 then 0 else Bit(xs[i - 1] + ys[i - 1] + CarryIn(B, xs, ys, i - 1) >= B)
  }

  /** Column `i` of the sum of `xs` and `ys`. */
  function SumLimb(B: nat, xs: seq<nat>, ys: seq<nat>, i: nat): int
    requires i < |xs| == |ys|
  {
    xs[i] + ys[i] + CarryIn(B, xs, ys, i) - (if CarryIn(B, xs, ys, i + 1) == 1 then B else 0)
  }

  lemma {:induction false} SumLimbs(B: nat, xs: seq<nat>, ys: seq<nat>, zs: seq<nat>)
    requires IsLimbs(B, xs) && IsLimbs(B, ys) && |xs| == |ys| >= |zs|
    requires forall i :: 0 <= i < |zs| ==> zs[i] == SumLimb(B, xs, ys, i)
    ensures IsLimbs(B, zs)
    ensures Val(B, zs) + Mul(CarryIn(B, xs, ys, |zs|), Pow(B, |zs|)) == Val(B, xs[..|zs|]) + Val(B, ys[..|zs|])
  {
    hide Mul, Pow, Val;
    if |zs| == 0 {
      assert zs == [] && xs[..0] == [] && ys[..0] == [];
      ValEmpty(B);
      MulUnits(Pow(B, 0));
    } else {
      var i := |zs| - 1;
      SumLimbs(B, xs, ys, zs[..i]);
      assert xs[..i + 1] == xs[..i] + [xs[i]] && ys[..i + 1] == ys[..i] + [ys[i]] && zs == zs[..i] + [zs[i]];
      ValSnoc(B, zs[..i], zs[i]);
      ValSnoc(B, xs[..i], xs[i]);
      ValSnoc(B, ys[..i], ys[i]);
      PowStep(B, i);
      MulUnits(B);
      ColumnAlgebra(B, Pow(B, i), Val(B, zs[..i]), CarryIn(B, xs, ys, i), Val(B, xs[..i]), Val(B, ys[..i]),
                    zs[i], xs[i], ys[i], CarryIn(B, xs, ys, i + 1));
    }
  }

  /** One column of the sum: two wrapping additions, each of which may carry. */
  method AddColumn(B: nat, xi: nat, yi: nat, carry: nat) returns (zi: nat, c: nat)
    requires B >= 2 && xi < B && yi < B && carry <= 1
    ensures c == Bit(xi + yi + carry >= B) && zi == xi + yi + carry - (if c == 1 then B else 0)
  {
    var xc := WrapAdd(B, xi, carry);
    c := Bit(xc < carry);
    zi := WrapAdd(B, xc, yi);
    c := c + Bit(zi < yi);
  }

  /** z = x + y, returning the carry. */
  method AddT(B: nat, z: array<nat>, zo: nat, x: array<nat>, xo: nat, y: array<nat>, yo: nat, n: nat)
    returns (c: nat)
    requires zo + n <= z.Length && Buf(B, x, xo, n) && Buf(B, y, yo, n)
    requires UpSafe(z, zo, x, xo, n) && UpSafe(z, zo, y, yo, n) && B >= 2
    modifies z
    ensures c <= 1 && Buf(B, z, zo, n) && OnlyIn(z, old(z[..]), zo, zo + n)
    ensures Val(B, z[zo..zo + n]) + Mul(c, Pow(B, n)) == old(Val(B, x[xo..xo + n]) + Val(B, y[yo..yo + n]))
  {
    hide Mul, Pow, Val;
    ghost var xs, ys := x[xo..xo + n], y[yo..yo + n];
    c := 0;
    for i := 0 to n
      invariant c == CarryIn(B, xs, ys, i)
      invariant forall j :: xo + i <= j < xo + n ==> x[j] == xs[j - xo]
      invariant forall j :: yo + i <= j < yo + n ==> y[j] == ys[j - yo]
      invariant forall j :: zo <= j < zo + i ==> z[j] == SumLimb(B, xs, ys, j - zo)
      invariant forall j :: 0 <= j < z.Length && !(zo <= j < zo + i) ==> z[j] == old(z[j])
    {
      assert x[xo + i] == xs[i] && y[yo + i] == ys[i];
      z[zo + i], c := AddColumn(B, x[xo + i], y[yo + i], c);
    }
    assert xs[..n] == xs && ys[..n] == ys;
    SumLimbs(B, xs, ys, z[zo..zo + n]);
  }

  /** The borrow out of the columns below `i` of `xs - ys`. */
  function BorrowIn(B: nat, xs: seq<nat>, ys: seq<nat>, i: nat): (c: nat)
    requires i <= |xs| == |ys|
    ensures c <= 1
  {
    if i == 0 then 0 else Bit(xs[i - 1] < ys[i - 1] + BorrowIn(B, xs, ys, i - 1))
  }

  /** Column `i` of the difference of `xs` and `ys`. */
  function DiffLimb(B: nat, xs: seq<nat>, ys: seq<nat>, i: nat): int
    requires i < |xs| == |ys|
  {
    xs[i] - ys[i] - BorrowIn(B, xs, ys, i) + (if BorrowIn(B, xs, ys, i + 1) == 1 then B else 0)
  }

  lemma {:induction false} DiffLimbs(B: nat, xs: seq<nat>, ys: seq<nat>, zs: seq<nat>)
    requires IsLimbs(B, xs) && IsLimbs(B, ys) && |xs| == |ys| >= |zs|
    requires forall i :: 0 <= i < |zs| ==> zs[i] == DiffLimb(B, xs, ys, i)
    ensures IsLimbs(B, zs)
    ensures Val(B, xs[..|zs|]) + Mul(BorrowIn(B, xs, ys, |zs|), Pow(B, |zs|)) == Val(B, zs) + Val(B, ys[..|zs|])
  {
    hide Mul, Pow, Val;
    if |zs| == 0 {
      assert zs == [] && xs[..0] == [] && ys[..0] == [];
      ValEmpty(B);
      MulUnits(Pow(B, 0));
    } else {
      var i := |zs| - 1;
      DiffLimbs(B, xs, ys, zs[..i]);
      assert xs[..i + 1] == xs[..i] + [xs[i]] && ys[..i + 1] == ys[..i] + [ys[i]] && zs == zs[..i] + [zs[i]];
      ValSnoc(B, zs[..i], zs[i]);
      ValSnoc(B, xs[..i], xs[i]);
      ValSnoc(B, ys[..i], ys[i]);
      PowStep(B, i);
      MulUnits(B);
      ColumnAlgebra(B, Pow(B, i), Val(B, xs[..i]), BorrowIn(B, xs, ys, i), Val(B, zs[..i]), Val(B, ys[..i]),
                    xs[i], zs[i], ys[i], BorrowIn(B, xs, ys, i + 1));
    }
  }

  /** One column of the difference: the borrow is added to the subtrahend first. */
  method SubColumn(B: nat, xi: nat, y: nat, borrow: nat) returns (zi: nat, c: nat)
    requires B >= 2 && xi < B && y < B && borrow <= 1
    ensures c == Bit(xi < y + borrow) && zi == xi - y - borrow + (if c == 1 then B else 0)
  {
    var yi := WrapAdd(B, y, borrow);
    c := Bit(yi < borrow);
    c := c + Bit(xi < yi);
    zi := WrapSub(B, xi, yi);
  }

  /** z = x - y, returning the borrow. */
  method SubT(B: nat, z: array<nat>, zo: nat, x: array<nat>, xo: nat, y: array<nat>, yo: nat, n: nat)
    returns (c: nat)
    requires zo + n <= z.Length && Buf(B, x, xo, n) && Buf(B, y, yo, n)
    requires UpSafe(z, zo, x, xo, n) && UpSafe(z, zo, y, yo, n) && B >= 2
    modifies z
    ensures c <= 1 && Buf(B, z, zo, n) && OnlyIn(z, old(z[..]), zo, zo + n)
    ensures Val(B, z[zo..zo + n]) + old(Val(B, y[yo..yo + n])) == old(Val(B, x[xo..xo + n])) + Mul(c, Pow(B, n))
  {
    hide Mul, Pow, Val;
    ghost var xs, ys := x[xo..xo + n], y[yo..yo + n];
    c := 0;
    for i := 0 to n
      invariant c == BorrowIn(B, xs, ys, i)
      invariant forall j :: xo + i <= j < xo + n ==> x[j] == xs[j - xo]
      invariant forall j :: yo + i <= j < yo + n ==> y[j] == ys[j - yo]
      invariant forall j :: zo <= j < zo + i ==> z[j] == DiffLimb(B, xs, ys, j - zo)
      invariant forall j :: 0 <= j < z.Length && !(zo <= j < zo + i) ==> z[j] == old(z[j])
    {
      assert x[xo + i] == xs[i] && y[yo + i] == ys[i];
      z[zo + i], c := SubColumn(B, x[xo + i], y[yo + i], c);
    }
    assert xs[..n] == xs && ys[..n] == ys;
    DiffLimbs(B, xs, ys, z[zo..zo + n]);
  }

  // ----- multiplication -----

  /** A word times a word plus a word still fits a double word. */
  lemma HighIsWord(B: nat, a: nat, b: nat, c: nat)
    requires a < B && b < B && c < B
    ensures Quo(Mul(a, b) + c, B) < B
  {
    hide *;
    MulLe(a, b, B - 1, B - 1);
    MulSub(B, 1, B - 1);
    MulSub(B, 1, B);
    MulUnits(B);
    MulUnits(B - 1);
    QuoBound(Mul(a, b) + c, B, B);
  }

  /** The word carried into column `i` of `xs * y`. */
  ghost function MulCarry(B: nat, xs: seq<nat>, y: nat, i: nat): nat
    requires B > 0 && i <= |xs|
  {
    if i == 0 then 0 else Quo(Mul(xs[i - 1], y) + MulCarry(B, xs, y, i - 1), B)
  }

  /** Column `i` of `xs * y`. */
  ghost function MulLimb(B: nat, xs: seq<nat>, y: nat, i: nat): nat
    requires B > 0 && i < |xs|
  {
    Rem(Mul(xs[i], y) + MulCarry(B, xs, y, i), B)
  }

  lemma MulColumnAlgebra(B: nat, p: nat, z: nat, c: nat, x: nat, y: nat, zi: nat, xi: nat, d: nat)
    requires z + Mul(c, p) == Mul(x, y) && Mul(xi, y) + c == Mul(d, B) + zi
    ensures z + Mul(zi, p) + Mul(d, Mul(B, p)) == Mul(x + Mul(xi, p), y)
  {
    calc {
      z + zi * p + d * (B * p);
      z + (d * B + zi) * p;
      z + (xi * y + c) * p;
      x * y + xi * y * p;
      (x + xi * p) * y;
    }
  }

  lemma {:induction false} MulLimbs(B: nat, xs: seq<nat>, y: nat, zs: seq<nat>)
    requires B > 0 && y < B && IsLimbs(B, xs) && |zs| <= |xs|
    requires forall i :: 0 <= i < |zs| ==> zs[i] == MulLimb(B, xs, y, i)
    ensures IsLimbs(B, zs) && MulCarry(B, xs, y, |zs|) < B
    ensures Val(B, zs) + Mul(MulCarry(B, xs, y, |zs|), Pow(B, |zs|)) == Mul(Val(B, xs[..|zs|]), y)
  {
    hide Mul, Pow, Val, Quo, Rem;
    if |zs| == 0 {
      assert zs == [] && xs[..0] == [];
      ValEmpty(B);
      MulUnits(Pow(B, 0));
      MulUnits(y);
    } else {
      var i := |zs| - 1;
      MulLimbs(B, xs, y, zs[..i]);
      assert xs[..i + 1] == xs[..i] + [xs[i]] && zs == zs[..i] + [zs[i]];
      ValSnoc(B, zs[..i], zs[i]);
      ValSnoc(B, xs[..i], xs[i]);
      HighIsWord(B, xs[i], y, MulCarry(B, xs, y, i));
      QuoRem(Mul(xs[i], y) + MulCarry(B, xs, y, i), B);
      PowStep(B, i);
      MulColumnAlgebra(B, Pow(B, i), Val(B, zs[..i]), MulCarry(B, xs, y, i), Val(B, xs[..i]), y,
                       zs[i], xs[i], MulCarry(B, xs, y, i + 1));
    }
  }

  /** z = x * y for one word y, returning the top word. */
  method MulUnitT(B: nat, z: array<nat>, zo: nat, x: array<nat>, xo: nat, y: nat, n: nat) returns (H: nat)
    requires B >= 2 && y < B && zo + n <= z.Length && Buf(B, x, xo, n) && UpSafe(z, zo, x, xo, n)
    modifies z
    ensures H < B && Buf(B, z, zo, n) && OnlyIn(z, old(z[..]), zo, zo + n)
    ensures Val(B, z[zo..zo + n]) + Mul(H, Pow(B, n)) == Mul(old(Val(B, x[xo..xo + n])), y)
  {
    hide Mul, Pow, Val, Quo, Rem;
    ghost var xs := x[xo..xo + n];
    H := 0;
    for i := 0 to n
      invariant H == MulCarry(B, xs, y, i)
      invariant forall j :: xo + i <= j < xo + n ==> x[j] == xs[j - xo]
      invariant forall j :: zo <= j < zo + i ==> z[j] == MulLimb(B, xs, y, j - zo)
      invariant forall j :: 0 <= j < z.Length && !(zo <= j < zo + i) ==> z[j] == old(z[j])
    {
      assert x[xo + i] == xs[i];
      var v := Mul(x[xo + i], y) + H;
      z[zo + i] := Rem(v, B);
      H := Quo(v, B);
    }
    assert xs[..n] == xs;
    MulLimbs(B, xs, y, z[zo..zo + n]);
  }

  lemma MulAddAlgebra(B: nat, p: nat, z: nat, z0: nat, xy: nat, x: nat, y: nat, h: nat, c: nat)
    requires xy + Mul(h, p) == Mul(x, y) && z + Mul(c, p) == z0 + xy && x < p && z0 < p && y < B
    ensures z + Mul(h + c, p) == z0 + Mul(x, y)
    ensures h + c < B
  {
    hide *;
    MulAdd(h, c, p);
    MulLe(x, y, p, B - 1);
    MulSub(B, 1, p);
    MulComm(B - 1, p);
    MulUnits(p);
    MulCancelLt(h + c, B, p);
  }

  /** z += x * y for one word y, returning the top word. */
  method MulUnitAddT(B: nat, z: array<nat>, zo: nat, x: array<nat>, xo: nat, y: nat, n: nat) returns (ret: nat)
    requires B >= 2 && y < B && Buf(B, z, zo, n) && Buf(B, x, xo, n)
    modifies z
    ensures ret < B && Buf(B, z, zo, n) && OnlyIn(z, old(z[..]), zo, zo + n)
    ensures Val(B, z[zo..zo + n]) + Mul(ret, Pow(B, n))
         == old(Val(B, z[zo..zo + n])) + Mul(old(Val(B, x[xo..xo + n])), y)
  {
    hide Mul, Pow, Val;
    ghost var x0, z0 := Val(B, x[xo..xo + n]), Val(B, z[zo..zo + n]);
    ValBound(B, x[xo..xo + n]);
    ValBound(B, z[zo..zo + n]);
    var xy := new nat[n];
    ret := MulUnitT(B, xy, 0, x, xo, y, n);
    ghost var h, xyv := ret, Val(B, xy[0..n]);
    var c := AddT(B, z, zo, z, zo, xy, 0, n);
    ret := ret + c;
    MulAddAlgebra(B, Pow(B, n), Val(B, z[zo..zo + n]), z0, xyv, x0, y, h, c);
  }

  lemma MulRowAlgebra(p: nat, pi: nat, lo: nat, mid: nat, mid0: nat, x: nat, y: nat, yi: nat, ret: nat)
    requires lo + Mul(pi, mid0) == Mul(x, y) && mid + Mul(ret, p) == mid0 + Mul(x, yi)
    ensures lo + Mul(pi, mid) + Mul(ret, Mul(p, pi)) == Mul(x, y + Mul(yi, pi))
  {
    calc {
      lo + pi * mid + ret * (p * pi);
      lo + pi * (mid + ret * p);
      lo + pi * (mid0 + x * yi);
      x * y + x * (yi * pi);
    }
  }

  /** The value of a row: low part, the window that the row rewrites, and the new top limb. */
  lemma ValThree(B: nat, lo: seq<nat>, mid: seq<nat>, top: nat)
    ensures Val(B, lo + mid + [top])
         == Val(B, lo) + Mul(Pow(B, |lo|), Val(B, mid)) + Mul(top, Mul(Pow(B, |mid|), Pow(B, |lo|)))
  {
    hide *;
    ValSnoc(B, lo + mid, top);
    ValConcat(B, lo, mid);
    PowAdd(B, |mid|, |lo|);
  }

  lemma LimbsSplit(B: nat, s: seq<nat>, t: seq<nat>)
    requires IsLimbs(B, s + t)
    ensures IsLimbs(B, s) && IsLimbs(B, t)
  {
    assert forall i :: 0 <= i < |s| ==> s[i] == (s + t)[i];
    assert forall i :: 0 <= i < |t| ==> t[i] == (s + t)[|s| + i];
  }

  lemma LimbsThree(B: nat, lo: seq<nat>, mid: seq<nat>, top: nat)
    requires IsLimbs(B, lo) && IsLimbs(B, mid) && top < B
    ensures IsLimbs(B, lo + mid + [top])
  {
  }

  /** Row `i` extends the product with the first `i` limbs of y by one limb. */
  lemma MulRow(B: nat, lo: seq<nat>, mid0: seq<nat>, mid: seq<nat>, ret: nat, xv: nat, yv: nat, yi: nat)
    requires |mid| == |mid0| && Val(B, lo + mid0) == Mul(xv, yv)
    requires Val(B, mid) + Mul(ret, Pow(B, |mid|)) == Val(B, mid0) + Mul(xv, yi)
    ensures Val(B, lo + mid + [ret]) == Mul(xv, yv + Mul(yi, Pow(B, |lo|)))
  {
    hide *;
    ValConcat(B, lo, mid0);
    ValThree(B, lo, mid, ret);
    MulRowAlgebra(Pow(B, |mid|), Pow(B, |lo|), Val(B, lo), Val(B, mid), Val(B, mid0), xv, yv, yi, ret);
  }

  /** One row: z[zo..zo+xn+i) holds x * yv, and afterwards one limb more holds x * (yv + yi * B^i). */
  method MulAddRow(B: nat, z: array<nat>, zo: nat, i: nat, x: array<nat>, xo: nat, xn: nat, yi: nat, ghost yv: nat)
    requires B >= 2 && yi < B && zo + xn + i < z.Length && z != x
    requires Buf(B, z, zo, xn + i) && Buf(B, x, xo, xn)
    requires Val(B, z[zo..zo + xn + i]) == Mul(Val(B, x[xo..xo + xn]), yv)
    modifies z
    ensures Buf(B, z, zo, xn + i + 1) && OnlyIn(z, old(z[..]), zo, zo + xn + i + 1)
    ensures Val(B, z[zo..zo + xn + i + 1]) == Mul(Val(B, x[xo..xo + xn]), yv + Mul(yi, Pow(B, i)))
  {
    hide Mul, Pow, Val;
    ghost var lo, mid := z[zo..zo + i], z[zo + i..zo + i + xn];
    assert z[zo..zo + xn + i] == lo + mid;
    LimbsSplit(B, lo, mid);
    var top := MulUnitAddT(B, z, zo + i, x, xo, yi, xn);
    z[zo + xn + i] := top;
    ghost var mid' := z[zo + i..zo + i + xn];
    assert z[zo..zo + xn + i + 1] == lo + mid' + [top];
    LimbsThree(B, lo, mid', top);
    MulRow(B, lo, mid, mid', top, Val(B, x[xo..xo + xn]), yv, yi);
  }

  /**
  Schoolbook multiplication z = x * y of `xn` by `yn` limbs into a buffer that overlaps
  neither operand: the fixed-length product (xn == yn) and the rows of `mulNM`.
  */
  method MulRows(B: nat, z: array<nat>, zo: nat, x: array<nat>, xo: nat, xn: nat, y: array<nat>, yo: nat, yn: nat)
    requires B >= 2 && xn >= 1 && yn >= 1 && zo + xn + yn <= z.Length
    requires Buf(B, x, xo, xn) && Buf(B, y, yo, yn) && z != x && z != y
    modifies z
    ensures Buf(B, z, zo, xn + yn) && OnlyIn(z, old(z[..]), zo, zo + xn + yn)
    ensures Val(B, z[zo..zo + xn + yn]) == Mul(Val(B, x[xo..xo + xn]), Val(B, y[yo..yo + yn]))
  {
    hide Mul, Pow, Val;
    ghost var ys := y[yo..yo + yn];
    var top := MulUnitT(B, z, zo, x, xo, y[yo], xn);
    z[zo + xn] := top;
    assert ys[..1] == [y[yo]];
    ValOne(B, y[yo]);
    assert z[zo..zo + xn + 1] == z[zo..zo + xn] + [top];
    ValSnoc(B, z[zo..zo + xn], top);
    for i := 1 to yn
      invariant Buf(B, z, zo, xn + i) && OnlyIn(z, old(z[..]), zo, zo + xn + i)
      invariant Val(B, z[zo..zo + xn + i]) == Mul(Val(B, x[xo..xo + xn]), Val(B, ys[..i]))
    {
      assert y[yo + i] == ys[i] && ys[..i + 1] == ys[..i] + [ys[i]];
      ValSnoc(B, ys[..i], ys[i]);
      MulAddRow(B, z, zo, i, x, xo, xn, y[yo + i], Val(B, ys[..i]));
    }
    assert ys[..yn] == ys;
  }

  /** z[2n] = x[n] * y[n]. */
  method MulT(B: nat, z: array<nat>, zo: nat, x: array<nat>, xo: nat, y: array<nat>, yo: nat, n: nat)
    requires B >= 2 && n >= 1 && zo + 2 * n <= z.Length
    requires Buf(B, x, xo, n) && Buf(B, y, yo, n) && z != x && z != y
    modifies z
    ensures Buf(B, z, zo, 2 * n) && OnlyIn(z, old(z[..]), zo, zo + 2 * n)
    ensures Val(B, z[zo..zo + 2 * n]) == Mul(Val(B, x[xo..xo + n]), Val(B, y[yo..yo + n]))
  {
    hide *;
    MulRows(B, z, zo, x, xo, n, y, yo, n);
  }

  /** General product: the longer operand drives the rows, and an operand that is the output is copied first. */
  method MulNM(B: nat, z: array<nat>, x: array<nat>, xn: nat, y: array<nat>, yn: nat)
    requires B >= 2 && Buf(B, x, 0, xn) && Buf(B, y, 0, yn) && xn + yn <= z.Length
    modifies z
    ensures OnlyIn(z, old(z[..]), 0, xn + yn)
    ensures xn == 0 || yn == 0 ==> z[..] == old(z[..])
    ensures xn > 0 && yn > 0 ==>
      Buf(B, z, 0, xn + yn) && Val(B, z[0..xn + yn]) == Mul(old(Val(B, x[0..xn])), old(Val(B, y[0..yn])))
  {
    hide Mul, Pow, Val;
    if xn == 0 || yn == 0 {
      return;
    }
    ghost var xv, yv := Val(B, x[0..xn]), Val(B, y[0..yn]);
    MulComm(xv, yv);
    var xn', yn', x', y' := xn, yn, x, y;
    if yn' > xn' {
      xn', yn', x', y' := yn, xn, y, x;
    }
    x' := Unaliased(B, z, x', xn');
    y' := Unaliased(B, z, y', yn');
    assert Mul(Val(B, x'[0..xn']), Val(B, y'[0..yn'])) == Mul(xv, yv);
    MulRows(B, z, 0, x', 0, xn', y', 0, yn');
  }

  /** The operand itself, or a copy of it when it is also the output. */
  method Unaliased(ghost B: nat, z: array<nat>, x: array<nat>, n: nat) returns (p: array<nat>)
    requires Buf(B, x, 0, n)
    ensures p != z && Buf(B, p, 0, n) && Val(B, p[0..n]) == Val(B, x[0..n])
  {
    p := x;
    if z == x {
      p := new nat[n];
      CopyN(p, 0, x, 0, n);
    }
  }

  // ----- shifts: `w` is the word width, B == 2^w -----

  /**
  For S == 2^e and S * R == B: the left operand is a multiple of S and the right one is below S,
  so joining them with a bitwise or adds them.
  */
  lemma ShiftedPartsAreDisjoint(e: nat, B: nat, S: nat, R: nat, a: nat, b: nat)
    requires S == Pow(2, e) && S > 0 && R > 0 && Mul(S, R) == B && a < B && b < B
    ensures B > 0 && Rem(Mul(a, S), B) == Mul(Rem(a, R), S) && Quo(Mul(a, S), B) == Quo(a, R)
    ensures Quo(b, R) < S
    ensures Words.Or(Rem(Mul(a, S), B), Quo(b, R)) == Rem(Mul(a, S), B) + Quo(b, R)
  {
    hide *;
    MulPos(S, R);
    QuoRem(a, R);
    MulAdd(Mul(Quo(a, R), R), Rem(a, R), S);
    MulAssoc(Quo(a, R), R, S);
    MulComm(R, S);
    MulStrict(Rem(a, R), R, S);
    QuoRemUnique(Mul(a, S), B, Quo(a, R), Mul(Rem(a, R), S));
    QuoBound(b, R, S);
    Words.OrDisjoint(Rem(a, R), Quo(b, R), e);
  }

  /** Limb `i` of `xs << bit`, with S == 2^bit and S * R == B. */
  ghost function ShlLimb(B: nat, S: nat, R: nat, xs: seq<nat>, i: nat): nat
    requires B > 0 && R > 0 && i < |xs|
  {
    Words.Or(Rem(Mul(xs[i], S), B), if i == 0 then 0 else Quo(xs[i - 1], R))
  }

  lemma {:induction false} ShlLimbs(e: nat, B: nat, S: nat, R: nat, xs: seq<nat>, zs: seq<nat>)
    requires S == Pow(2, e) && S > 0 && R > 0 && B > 0 && Mul(S, R) == B && IsLimbs(B, xs) && |zs| <= |xs|
    requires forall i :: 0 <= i < |zs| ==> zs[i] == ShlLimb(B, S, R, xs, i)
    ensures IsLimbs(B, zs)
    ensures Val(B, zs) + Mul(if |zs| == 0 then 0 else Quo(xs[|zs| - 1], R), Pow(B, |zs|)) == Mul(Val(B, xs[..|zs|]), S)
  {
    hide Mul, Pow, Val, Quo, Rem;
    if |zs| == 0 {
      assert zs == [] && xs[..0] == [];
      ValEmpty(B);
      MulUnits(Pow(B, 0));
      MulUnits(S);
    } else {
      var i := |zs| - 1;
      ShlLimbs(e, B, S, R, xs, zs[..i]);
      assert xs[..i + 1] == xs[..i] + [xs[i]] && zs == zs[..i] + [zs[i]];
      ValSnoc(B, zs[..i], zs[i]);
      ValSnoc(B, xs[..i], xs[i]);
      var c := if i == 0 then 0 else Quo(xs[i - 1], R);
      ShiftedPartsAreDisjoint(e, B, S, R, xs[i], if i == 0 then 0 else xs[i - 1]);
      QuoRem(Mul(xs[i], S), B);
      MulStrict(Rem(xs[i], R), R, S);
      MulComm(R, S);
      PowStep(B, i);
      MulColumnAlgebra(B, Pow(B, i), Val(B, zs[..i]), c, Val(B, xs[..i]), S, zs[i], xs[i], Quo(xs[i], R));
    }
  }

  /** All limbs shifted: the number times 2^bit, but for the bits that leave at the top. */
  lemma ShlDone(w: nat, bit: nat, xs: seq<nat>, zs: seq<nat>)
    requires 0 < bit < w && |xs| == |zs| >= 1 && IsLimbs(Pow(2, w), xs)
    requires forall i :: 0 <= i < |zs| ==> zs[i] == ShlLimb(Pow(2, w), Pow(2, bit), Pow(2, w - bit), xs, i)
    ensures var out := Quo(xs[|xs| - 1], Pow(2, w - bit));
      && IsLimbs(Pow(2, w), zs) && out < Pow(2, bit)
      && Val(Pow(2, w), zs) + Mul(out, Pow(Pow(2, w), |xs|)) == Mul(Val(Pow(2, w), xs), Pow(2, bit))
  {
    hide Mul, Pow, Val, Quo, Rem, Words.Or;
    var B, S, R := Pow(2, w), Pow(2, bit), Pow(2, w - bit);
    PowAdd(2, bit, w - bit);
    assert xs[..|xs|] == xs;
    ShlLimbs(bit, B, S, R, xs, zs);
    ShiftedPartsAreDisjoint(bit, B, S, R, xs[|xs| - 1], xs[|xs| - 1]);
  }

  /** z[n] = x[n] << bit with 0 < bit < w, returning the bits shifted out at the top. */
  method ShlN(w: nat, z: array<nat>, zo: nat, x: array<nat>, xo: nat, bit: nat, n: nat) returns (out: nat)
    requires 0 < bit < w && n >= 1 && zo + n <= z.Length
    requires Buf(Pow(2, w), x, xo, n) && DownSafe(z, zo, x, xo, n)
    modifies z
    ensures Buf(Pow(2, w), z, zo, n) && OnlyIn(z, old(z[..]), zo, zo + n) && out < Pow(2, bit)
    ensures Val(Pow(2, w), z[zo..zo + n]) + Mul(out, Pow(Pow(2, w), n))
         == Mul(old(Val(Pow(2, w), x[xo..xo + n])), Pow(2, bit))
  {
    hide Mul, Pow, Val, Quo, Rem, Words.Or;
    ghost var xs := x[xo..xo + n];
    var B, S, R := Pow(2, w), Pow(2, bit), Pow(2, w - bit);
    var prev := x[xo + n - 1];
    var keep := prev;
    var i := n - 1;
    while i > 0
      invariant 0 <= i < n && prev == xs[i]
      invariant forall j :: xo <= j <= xo + i ==> x[j] == xs[j - xo]
      invariant forall j :: zo + i < j < zo + n ==> z[j] == ShlLimb(B, S, R, xs, j - zo)
      invariant forall j :: 0 <= j < z.Length && !(zo + i < j < zo + n) ==> z[j] == old(z[j])
    {
      var t := x[xo + i - 1];
      z[zo + i] := Words.Or(Rem(Mul(prev, S), B), Quo(t, R));
      prev := t;
      i := i - 1;
    }
    z[zo] := Rem(Mul(prev, S), B);
    out := Quo(keep, R);
    Words.OrZero(z[zo]);
    ShlDone(w, bit, xs, z[zo..zo + n]);
  }

  /** Limb `i` of `xs >> bit`, with S == 2^bit and S * R == B. */
  ghost function ShrLimb(B: nat, S: nat, R: nat, xs: seq<nat>, i: nat): nat
    requires B > 0 && S > 0 && i < |xs|
  {
    Words.Or(if i + 1 < |xs| then Rem(Mul(xs[i + 1], R), B) else 0, Quo(xs[i], S))
  }

  lemma ShrColumnAlgebra(B: nat, p: nat, z: nat, c: nat, x: nat, S: nat, zi: nat, xi: nat, d: nat, r: nat)
    requires Mul(z, S) + r == x + Mul(c, p) && Mul(zi, S) + c == xi + Mul(d, B)
    ensures Mul(z + Mul(zi, p), S) + r == x + Mul(xi, p) + Mul(d, Mul(B, p))
  {
    calc {
      (z + zi * p) * S + r;
      z * S + r + (zi * S) * p;
      x + c * p + (xi + d * B - c) * p;
      x + xi * p + d * (B * p);
    }
  }

  /** One right-shifted word: its bits, and the low bits of the next word moved to its top. */
  lemma ShrWord(e: nat, B: nat, S: nat, R: nat, a: nat, b: nat)
    requires R == Pow(2, e) && S > 0 && R > 0 && B > 0 && Mul(S, R) == B && a < B && b < B
    ensures Words.Or(Rem(Mul(b, R), B), Quo(a, S)) < B
    ensures Mul(Words.Or(Rem(Mul(b, R), B), Quo(a, S)), S) + Rem(a, S) == a + Mul(Rem(b, S), B)
  {
    hide Mul, Quo, Rem;
    MulComm(S, R);
    ShiftedPartsAreDisjoint(e, B, R, S, b, a);
    MulAdd(Mul(Rem(b, S), R), Quo(a, S), S);
    MulAssoc(Rem(b, S), R, S);
    QuoRem(a, S);
    MulStrict(Rem(b, S), S, R);
  }

  lemma {:induction false} ShrLimbs(e: nat, B: nat, S: nat, R: nat, xs: seq<nat>, zs: seq<nat>)
    requires R == Pow(2, e) && S > 0 && R > 0 && B > 0 && Mul(S, R) == B
    requires IsLimbs(B, xs) && |xs| > 0 && |zs| <= |xs|
    requires forall i :: 0 <= i < |zs| ==> zs[i] == ShrLimb(B, S, R, xs, i)
    ensures IsLimbs(B, zs)
    ensures Mul(Val(B, zs), S) + Rem(xs[0], S)
         == Val(B, xs[..|zs|]) + Mul(if |zs| < |xs| then Rem(xs[|zs|], S) else 0, Pow(B, |zs|))
  {
    hide Mul, Pow, Val, Quo, Rem;
    MulUnits(S);
    MulUnits(Pow(B, 0));
    MulUnits(R);
    if |zs| == 0 {
      assert zs == [] && xs[..0] == [];
      ValEmpty(B);
      PowSmall(B);
      MulUnits(Rem(xs[0], S));
    } else {
      var i := |zs| - 1;
      ShrLimbs(e, B, S, R, xs, zs[..i]);
      assert xs[..i + 1] == xs[..i] + [xs[i]] && zs == zs[..i] + [zs[i]];
      ValSnoc(B, zs[..i], zs[i]);
      ValSnoc(B, xs[..i], xs[i]);
      var next := if i + 1 < |xs| then xs[i + 1] else 0;
      ShrWord(e, B, S, R, xs[i], next);
      PowStep(B, i);
      MulUnits(B);
      MulUnits(Pow(B, i));
      MulUnits(Pow(B, i + 1));
      ShrColumnAlgebra(B, Pow(B, i), Val(B, zs[..i]), Rem(xs[i], S), Val(B, xs[..i]), S, zs[i], xs[i],
                       Rem(next, S), Rem(xs[0], S));
    }
  }

  /** z[n] = x[n] >> bit with 0 < bit < w. */
  method ShrN(w: nat, z: array<nat>, zo: nat, x: array<nat>, xo: nat, bit: nat, n: nat)
    requires 0 < bit < w && n >= 1 && zo + n <= z.Length
    requires Buf(Pow(2, w), x, xo, n) && UpSafe(z, zo, x, xo, n)
    modifies z
    ensures Buf(Pow(2, w), z, zo, n) && OnlyIn(z, old(z[..]), zo, zo + n)
    ensures Val(Pow(2, w), z[zo..zo + n]) == Quo(old(Val(Pow(2, w), x[xo..xo + n])), Pow(2, bit))
  {
    hide Mul, Pow, Val, Quo, Rem, Words.Or;
    ghost var xs := x[xo..xo + n];
    var bitRev := w - bit;
    var B, S, R := Pow(2, w), Pow(2, bit), Pow(2, bitRev);
    PowAdd(2, bit, bitRev);
    var prev := x[xo];
    for i := 1 to n
      invariant prev == xs[i - 1]
      invariant forall j :: xo + i <= j < xo + n ==> x[j] == xs[j - xo]
      invariant forall j :: zo <= j < zo + i - 1 ==> z[j] == ShrLimb(B, S, R, xs, j - zo)
      invariant forall j :: 0 <= j < z.Length && !(zo <= j < zo + i - 1) ==> z[j] == old(z[j])
    {
      var t := x[xo + i];
      z[zo + i - 1] := Words.Or(Rem(Mul(t, R), B), Quo(prev, S));
      prev := t;
    }
    z[zo + n - 1] := Quo(prev, S);
    assert xs[..n] == xs;
    Words.OrZero(z[zo + n - 1]);
    ShrLimbs(bitRev, B, S, R, xs, z[zo..zo + n]);
    MulUnits(Pow(B, n));
    QuoRemUnique(Val(B, xs), S, Val(B, z[zo..zo + n]), Rem(xs[0], S));
  }

  // ----- shifts by any number of bits -----

  lemma ShiftByWords(w: nat, bit: nat, q: nat, r: nat)
    requires bit == Mul(q, w) + r
    ensures Pow(2, bit) == Mul(Pow(Pow(2, w), q), Pow(2, r))
  {
    hide *;
    MulComm(q, w);
    PowAdd(2, Mul(q, w), r);
    PowPow(2, w, q);
  }

  /** Move words upward, last one first, so that `y` may be `x`. */
  method CopyDown(y: array<nat>, q: nat, x: array<nat>, n: nat)
    requires n <= x.Length && q + n <= y.Length
    modifies y
    ensures y[q..q + n] == old(x[0..n]) && OnlyIn(y, old(y[..]), q, q + n)
  {
    for i := 0 to n
      invariant forall j :: 0 <= j < n - i ==> x[j] == old(x[j])
      invariant forall j :: q + n - i <= j < q + n ==> y[j] == old(x[..])[j - q]
      invariant OnlyIn(y, old(y[..]), q + n - i, q + n)
    {
      y[q + n - 1 - i] := x[n - 1 - i];
    }
  }

  /** The words of x shifted by r bits to y[q..), with the word shifted out on top. */
  method ShiftBits(w: nat, y: array<nat>, q: nat, x: array<nat>, r: nat, xn: nat)
    requires 0 < r < w && xn > 0 && Buf(Pow(2, w), x, 0, xn) && q + xn + 1 <= y.Length
    modifies y
    ensures Buf(Pow(2, w), y, q, xn + 1) && OnlyIn(y, old(y[..]), q, q + xn + 1)
    ensures Val(Pow(2, w), y[q..q + (xn + 1)]) == Mul(old(Val(Pow(2, w), x[0..xn])), Pow(2, r))
  {
    hide Mul, Pow, Val;
    ghost var B := Pow(2, w);
    var top := ShlN(w, y, q, x, 0, r, xn);
    ghost var zs := y[q..q + xn];
    y[q + xn] := top;
    PowMono(2, r, w);
    assert y[q..q + (xn + 1)] == zs + [top];
    ValSnoc(B, zs, top);
  }

  lemma WordsAndBits(P: nat, S: nat, x: nat)
    ensures Mul(P, Mul(x, S)) == Mul(x, Mul(P, S))
  {
    assert P * (x * S) == x * (P * S);
  }

  /** y = x << bit for any bit count; y may be x itself. Returns the number of limbs written. */
  method ShiftLeft(w: nat, y: array<nat>, x: array<nat>, bit: nat, xn: nat) returns (yn: nat)
    requires w >= 1 && xn > 0 && Buf(Pow(2, w), x, 0, xn)
    requires xn + Quo(bit, w) + Bit(Rem(bit, w) != 0) <= y.Length
    modifies y
    ensures yn == xn + Quo(bit, w) + Bit(Rem(bit, w) != 0)
    ensures Buf(Pow(2, w), y, 0, yn) && OnlyIn(y, old(y[..]), 0, yn)
    ensures Val(Pow(2, w), y[0..yn]) == Mul(old(Val(Pow(2, w), x[0..xn])), Pow(2, bit))
  {
    hide Mul, Pow, Val, Quo, Rem;
    var q, r := Quo(bit, w), Rem(bit, w);
    ghost var B, xs := Pow(2, w), x[0..xn];
    QuoRem(bit, w);
    ShiftByWords(w, bit, q, r);
    WordsAndBits(Pow(B, q), Pow(2, r), Val(B, xs));
    yn := xn + q;
    if r == 0 {
      CopyDown(y, q, x, xn);
      PowSmall(2);
      MulUnits(Val(B, xs));
    } else {
      ShiftBits(w, y, q, x, r, xn);
      yn := yn + 1;
    }
    ghost var zs := y[q..yn];
    ClearN(y, 0, q);
    assert y[0..yn] == y[0..q] + zs;
    ValConcat(B, y[0..q], zs);
    ValZeros(B, y[0..q]);
  }

  /** Dropping q words and then r bits divides by 2^bit. */
  lemma WordsThenBits(w: nat, xs: seq<nat>, bit: nat, q: nat, r: nat)
    requires w >= 1 && bit == Mul(q, w) + r && q <= |xs| && IsLimbs(Pow(2, w), xs)
    ensures Quo(Val(Pow(2, w), xs), Pow(2, bit)) == Quo(Val(Pow(2, w), xs[q..]), Pow(2, r))
  {
    hide *;
    ghost var B := Pow(2, w);
    ShiftByWords(w, bit, q, r);
    MulComm(Pow(B, q), Pow(2, r));
    QuoQuo(Val(B, xs), Pow(B, q), Pow(2, r));
    ValSplit(B, xs, q);
    assert xs == xs[..q] + xs[q..];
    LimbsSplit(B, xs[..q], xs[q..]);
    ValBound(B, xs[..q]);
    MulComm(Pow(B, q), Val(B, xs[q..]));
    QuoRemUnique(Val(B, xs), Pow(B, q), Val(B, xs[q..]), Val(B, xs[..q]));
  }

  /** y = x >> bit for any bit count up to the length of x; y may be x itself. */
  method ShiftRight(w: nat, y: array<nat>, x: array<nat>, bit: nat, xn: nat) returns (yn: nat)
    requires w >= 1 && xn > 0 && Buf(Pow(2, w), x, 0, xn) && bit <= Mul(xn, w) && xn <= y.Length
    modifies y
    ensures yn <= xn && yn == xn - Quo(bit, w)
    ensures Buf(Pow(2, w), y, 0, yn) && OnlyIn(y, old(y[..]), 0, yn)
    ensures Val(Pow(2, w), y[0..yn]) == Quo(old(Val(Pow(2, w), x[0..xn])), Pow(2, bit))
  {
    hide Mul, Pow, Val, Quo, Rem;
    var q, r := Quo(bit, w), Rem(bit, w);
    ghost var xs := x[0..xn];
    QuoRem(bit, w);
    if q > xn || (q == xn && r > 0) {
      MulMono(xn, q, w);
      MulStrict(xn, q, w);
    }
    WordsThenBits(w, xs, bit, q, r);
    assert x[q..q + (xn - q)] == xs[q..];
    yn := xn - q;
    if r == 0 {
      CopyN(y, 0, x, q, yn);
      PowSmall(2);
      QuoRem(Val(Pow(2, w), xs[q..]), 1);
      MulUnits(Quo(Val(Pow(2, w), xs[q..]), 1));
    } else {
      ShrN(w, y, 0, x, q, r, yn);
    }
  }

  // ----- adding one word, dividing by one word -----

  lemma CarryAlgebra(B: nat, p: nat, v: nat, u: nat, x: nat, t: nat, d: nat, c: nat)
    requires v + p == u + x && t + Mul(c, B) == d + 1
    ensures v + Mul(t, p) + Mul(c, Mul(B, p)) == u + Mul(d, p) + x
  {
    assert (t + c * B) * p == (d + 1) * p;
    assert c * B * p == c * (B * p);
  }

  /** One limb of the carry chain, on values. */
  lemma CarryLimb(B: nat, vs: seq<nat>, us: seq<nat>, x: nat, t: nat, d: nat, c: nat)
    requires |vs| == |us| && Val(B, vs) + Pow(B, |vs|) == Val(B, us) + x && t + Mul(c, B) == d + 1
    ensures Val(B, vs + [t]) + Mul(c, Pow(B, |vs| + 1)) == Val(B, us + [d]) + x
  {
    hide *;
    ValSnoc(B, vs, t);
    ValSnoc(B, us, d);
    PowStep(B, |vs|);
    CarryAlgebra(B, Pow(B, |vs|), Val(B, vs), Val(B, us), x, t, d, c);
  }

  /** The untouched limbs above a settled prefix carry the equation to the whole number. */
  lemma SettledPrefix(B: nat, vs: seq<nat>, us: seq<nat>, k: nat, x: nat)
    requires |vs| == |us| && k <= |vs| && vs[k..] == us[k..] && Val(B, vs[..k]) == Val(B, us[..k]) + x
    ensures Val(B, vs) == Val(B, us) + x
  {
    hide *;
    ValSplit(B, vs, k);
    ValSplit(B, us, k);
  }

  /** Limbs 1 to k - 1 were all ones and wrapped to zero. */
  ghost predicate Rippled(B: nat, us: seq<nat>, vs: seq<nat>, k: nat)
    requires k <= |us| == |vs|
  {
    forall j :: 1 <= j < k ==> us[j] + 1 == B && vs[j] == 0
  }

  lemma {:induction false} Ripple(B: nat, us: seq<nat>, vs: seq<nat>, x: nat, k: nat)
    requires 1 <= k <= |us| == |vs| && vs[0] + B == us[0] + x && Rippled(B, us, vs, k)
    ensures Val(B, vs[..k]) + Pow(B, k) == Val(B, us[..k]) + x
  {
    hide Mul, Pow, Val;
    if k == 1 {
      assert vs[..1] == [vs[0]] && us[..1] == [us[0]];
      ValOne(B, vs[0]);
      ValOne(B, us[0]);
      PowSmall(B);
    } else {
      Ripple(B, us, vs, x, k - 1);
      MulUnits(B);
      MulUnits(Pow(B, k));
      CarryLimb(B, vs[..k - 1], us[..k - 1], x, 0, us[k - 1], 1);
      assert vs[..k] == vs[..k - 1] + [0] && us[..k] == us[..k - 1] + [us[k - 1]];
    }
  }

  lemma RippleStops(B: nat, us: seq<nat>, vs: seq<nat>, x: nat, k: nat)
    requires 1 <= k < |us| == |vs| && vs[0] + B == us[0] + x && Rippled(B, us, vs, k)
    requires vs[k] == us[k] + 1 && vs[k + 1..] == us[k + 1..]
    ensures Val(B, vs) == Val(B, us) + x
  {
    hide Mul, Pow, Val;
    Ripple(B, us, vs, x, k);
    MulUnits(B);
    MulUnits(Pow(B, k + 1));
    CarryLimb(B, vs[..k], us[..k], x, vs[k], us[k], 0);
    assert vs[..k + 1] == vs[..k] + [vs[k]] && us[..k + 1] == us[..k] + [us[k]];
    SettledPrefix(B, vs, us, k + 1, x);
  }

  /** The limbs from k on are still those of `us`. */
  lemma UpperLimbs(y: array<nat>, yo: nat, n: nat, us: seq<nat>, k: nat)
    requires yo + n <= y.Length && |us| == n && k <= n
    requires forall j :: yo + k <= j < yo + n ==> y[j] == us[j - yo]
    ensures y[yo..yo + n][k..] == us[k..]
  {
  }

  /** The first limb has wrapped: add one to the following limbs until one does not wrap. */
  method PropagateCarry(B: nat, y: array<nat>, yo: nat, n: nat, ghost us: seq<nat>, ghost x: nat) returns (c: nat)
    requires B >= 2 && n >= 1 && yo + n <= y.Length && |us| == n && IsLimbs(B, us) && y[yo] < B
    requires y[yo] + B == us[0] + x && forall j :: yo + 1 <= j < yo + n ==> y[j] == us[j - yo]
    modifies y
    ensures c <= 1 && Buf(B, y, yo, n) && OnlyIn(y, old(y[..]), yo, yo + n)
    ensures Val(B, y[yo..yo + n]) + Mul(c, Pow(B, n)) == Val(B, us) + x
  {
    hide Mul, Pow, Val;
    MulUnits(Pow(B, n));
    for i := 1 to n
      invariant y[yo] + B == us[0] + x && y[yo] < B
      invariant forall j :: 1 <= j < i ==> us[j] + 1 == B
      invariant forall j :: yo + 1 <= j < yo + i ==> y[j] == 0
      invariant forall j :: yo + i <= j < yo + n ==> y[j] == us[j - yo]
      invariant OnlyIn(y, old(y[..]), yo, yo + n)
    {
      var t := WrapAdd(B, y[yo + i], 1);
      y[yo + i] := t;
      if t != 0 {
        ghost var vs := y[yo..yo + n];
        UpperLimbs(y, yo, n, us, i + 1);
        RippleStops(B, us, vs, x, i);
        return 0;
      }
    }
    ghost var vs := y[yo..yo + n];
    Ripple(B, us, vs, x, n);
    assert vs[..n] == vs && us[..n] == us;
    return 1;
  }

  /** y[yo..yo+n) += x with early exit, returning the carry. */
  method AddUnit(B: nat, y: array<nat>, yo: nat, n: nat, x: nat) returns (c: nat)
    requires B >= 2 && x < B && Buf(B, y, yo, n)
    modifies y
    ensures c <= 1 && Buf(B, y, yo, n) && OnlyIn(y, old(y[..]), yo, yo + n)
    ensures n == 0 ==> c == 0
    ensures n > 0 ==> Val(B, y[yo..yo + n]) + Mul(c, Pow(B, n)) == old(Val(B, y[yo..yo + n])) + x
  {
    hide Mul, Pow, Val;
    if n == 0 {
      return 0;
    }
    ghost var us := y[yo..yo + n];
    MulUnits(Pow(B, n));
    var t := WrapAdd(B, y[yo], x);
    y[yo] := t;
    if t >= x {
      ghost var vs := y[yo..yo + n];
      UpperLimbs(y, yo, n, us, 1);
      assert vs[..1] == [t] && us[..1] == [us[0]];
      ValOne(B, t);
      ValOne(B, us[0]);
      SettledPrefix(B, vs, us, 1, x);
      return 0;
    }
    c := PropagateCarry(B, y, yo, n, us, x);
  }

  /** The remainder by `d` of the limbs from `i` upward. */
  function RemFrom(B: nat, xs: seq<nat>, d: nat, i: nat): (r: nat)
    requires d > 0 && i <= |xs|
    ensures r < d
    decreases |xs| - i
  {
    if i == |xs| then 0 else Rem(Mul(RemFrom(B, xs, d, i + 1), B) + xs[i], d)
  }

  /** Limb `i` of the quotient by the single word `d`. */
  ghost function QuoLimb(B: nat, xs: seq<nat>, d: nat, i: nat): nat
    requires d > 0 && i < |xs|
  {
    Quo(Mul(RemFrom(B, xs, d, i + 1), B) + xs[i], d)
  }

  lemma DivColumnAlgebra(B: nat, d: nat, q: nat, r: nat, x: nat, qi: nat, xi: nat, ri: nat)
    requires Mul(q, d) + r == x && Mul(r, B) + xi == Mul(qi, d) + ri
    ensures Mul(qi + Mul(B, q), d) + ri == xi + Mul(B, x)
  {
    calc {
      (qi + B * q) * d + ri;
      qi * d + ri + B * (q * d);
      r * B + xi + B * (x - r);
    }
  }

  /** A double word whose high half is below `d` has a one-word quotient by `d`. */
  lemma DigitIsWord(B: nat, d: nat, r: nat, xi: nat)
    requires r < d && xi < B
    ensures Quo(Mul(r, B) + xi, d) < B
  {
    hide *;
    MulStrict(r, d, B);
    MulComm(d, B);
    QuoBound(Mul(r, B) + xi, d, B);
  }

  lemma {:induction false} QuoLimbs(B: nat, xs: seq<nat>, d: nat, qs: seq<nat>, i: nat)
    requires 0 < d < B && IsLimbs(B, xs) && i <= |xs| && |qs| == |xs| - i
    requires forall j :: 0 <= j < |qs| ==> qs[j] == QuoLimb(B, xs, d, i + j)
    ensures IsLimbs(B, qs)
    ensures Mul(Val(B, qs), d) + RemFrom(B, xs, d, i) == Val(B, xs[i..])
    decreases |xs| - i
  {
    hide Mul, Pow, Val, Quo, Rem;
    if i == |xs| {
      assert qs == [] && xs[i..] == [];
      ValEmpty(B);
      MulUnits(d);
    } else {
      QuoLimbs(B, xs, d, qs[1..], i + 1);
      assert qs == [qs[0]] + qs[1..] && xs[i..] == [xs[i]] + xs[i + 1..];
      ValCons(B, qs[0], qs[1..]);
      ValCons(B, xs[i], xs[i + 1..]);
      var r := RemFrom(B, xs, d, i + 1);
      DigitIsWord(B, d, r, xs[i]);
      QuoRem(Mul(r, B) + xs[i], d);
      assert forall j :: 0 < j < |qs| ==> qs[j] == qs[1..][j - 1];
      DivColumnAlgebra(B, d, Val(B, qs[1..]), r, Val(B, xs[i + 1..]), qs[0], xs[i], RemFrom(B, xs, d, i));
    }
  }

  /** q = x / d for one word d, returning x % d; q may be x. */
  method DivUnit(B: nat, q: array<nat>, x: array<nat>, n: nat, d: nat) returns (r: nat)
    requires 0 < d < B && Buf(B, x, 0, n) && n <= q.Length
    modifies q
    ensures r < d && Buf(B, q, 0, n) && OnlyIn(q, old(q[..]), 0, n)
    ensures Mul(Val(B, q[0..n]), d) + r == old(Val(B, x[0..n]))
  {
    hide Mul, Pow, Val, Quo, Rem;
    ghost var xs := x[0..n];
    r := 0;
    var i := n;
    while i > 0
      invariant 0 <= i <= n && r == RemFrom(B, xs, d, i)
      invariant forall j :: 0 <= j < i ==> x[j] == xs[j]
      invariant forall j :: i <= j < n ==> q[j] == QuoLimb(B, xs, d, j)
      invariant OnlyIn(q, old(q[..]), i, n)
    {
      i := i - 1;
      var v := Mul(r, B) + x[i];
      q[i] := Quo(v, d);
      r := Rem(v, d);
    }
    assert xs[0..] == xs;
    QuoLimbs(B, xs, d, q[0..n], 0);
  }

  /** x % d for one word d. */
  method ModUnit(B: nat, x: array<nat>, n: nat, d: nat) returns (r: nat)
    requires 0 < d < B && Buf(B, x, 0, n)
    ensures r == Rem(Val(B, x[0..n]), d)
  {
    hide Mul, Pow, Val, Quo, Rem;
    ghost var xs := x[0..n];
    r := 0;
    var i := n;
    while i > 0
      invariant 0 <= i <= n && r == RemFrom(B, xs, d, i)
    {
      i := i - 1;
      r := Rem(Mul(r, B) + x[i], d);
    }
    assert xs[0..] == xs;
    ghost var qs := seq(n, j requires 0 <= j < n => QuoLimb(B, xs, d, j));
    QuoLimbs(B, xs, d, qs, 0);
    QuoRemUnique(Val(B, xs), d, Val(B, qs), r);
  }
}
