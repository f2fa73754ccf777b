/**
Reduction modulo the secp256k1 prime (SEC 2, section 2.4.1) by folding the high half, as
`mod_SECP256K1` of `mcl/src/bint_impl.hpp` does on 64-bit words, and the product built on it.
*/
module Secp256k1 {
  import opened Limbs
  import opened Bint

  const B: nat := 0x1_0000_0000_0000_0000
  /** 2^256 modulo the prime. */
  const A: nat := 0x1_0000_03d1
  const P: nat := 0xFFFFFFFF_FFFFFFFF_FFFFFFFF_FFFFFFFF_FFFFFFFF_FFFFFFFF_FFFFFFFE_FFFFFC2F

  /** The radix of the fold: the prime is 2^256 - A. */
  lemma FoldRadix()
    ensures Pow(B, 4) == P + A && Pow(B, 2) > 0
  {
    PowSmall(B);
    PowStep(B, 1);
    PowStep(B, 2);
    PowStep(B, 3);
  }

  /** Folding the part above 2^256 changes nothing modulo the prime. */
  lemma FoldKeepsResidue(h: nat, l: nat)
    ensures Rem(l + Mul(h, P + A), P) == Rem(l + Mul(h, A), P)
  {
    hide Mul, Rem;
    MulAdd(P, A, h);
    RemAddMultiple(l + Mul(h, A), h, P);
  }

  /** After the first fold the part above 2^256 is at most A. */
  lemma FirstFoldBound(M: nat, h: nat, l: nat, t: nat, top: nat)
    requires h < M && l < M && t + Mul(top, M) == Mul(h, A) + l
    ensures top <= A
  {
    hide *;
    MulMono(h, M - 1, A);
    MulSub(M, 1, A);
    MulUnits(A);
    MulAdd(A, 1, M);
    MulUnits(M);
    MulComm(M, A);
    MulCancelLt(top, A + 1, M);
  }

  /** x[8] folded once: buf[0..4) plus buf[4] * 2^256 equals L + H * A. */
  method FirstFold(buf: array<nat>, x: array<nat>)
    requires buf.Length == 5 && buf != x && Buf(B, x, 0, 8)
    modifies buf
    ensures Buf(B, buf, 0, 4) && buf[4] <= A
    ensures Rem(Val(B, buf[0..4]) + Mul(buf[4], P + A), P) == Rem(Val(B, x[0..8]), P)
  {
    hide Mul, Pow, Val, Rem;
    FoldRadix();
    assert x[0..8] == x[0..4] + x[4..8];
    ghost var h, l := Val(B, x[4..8]), Val(B, x[0..4]);
    ValConcat(B, x[0..4], x[4..8]);
    LimbsSplit(B, x[0..4], x[4..8]);
    ValBound(B, x[0..4]);
    ValBound(B, x[4..8]);
    var top := MulUnitT(B, buf, 0, x, 4, A, 4);
    buf[4] := top;
    ghost var t := Val(B, buf[0..4]);
    var c := AddT(B, buf, 0, buf, 0, x, 0, 4);
    buf[4] := buf[4] + c;
    MulAdd(top, c, P + A);
    assert Val(B, buf[0..4]) + Mul(buf[4], P + A) == Mul(h, A) + l;
    FirstFoldBound(P + A, h, l, Val(B, buf[0..4]), buf[4]);
    MulComm(h, P + A);
    FoldKeepsResidue(h, l);
  }

  lemma LowHigh(s: seq<nat>)
    requires |s| == 4
    ensures Val(B, s) == Val(B, s[0..2]) + Mul(Pow(B, 2), Val(B, s[2..4]))
  {
    hide *;
    assert s[..2] == s[0..2] && s[2..] == s[2..4];
    ValSplit(B, s, 2);
  }

  /** Adding a two-limb number to the low half and the carry to the high half adds it to the whole. */
  lemma HalvesAlgebra(q: nat, lo: nat, lo': nat, hi: nat, hi': nat, e: nat, c: nat, c': nat)
    requires lo' + Mul(c, q) == lo + e && hi' + Mul(c', q) == hi + c
    ensures lo' + Mul(q, hi') + Mul(c', Mul(q, q)) == lo + Mul(q, hi) + e
  {
    calc {
      lo' + q * hi' + c' * (q * q);
      lo' + q * (hi' + c' * q);
      lo' + q * (hi + c);
    }
  }

  /** buf[0..4) += e, where the two-limb number e is in x2; returns the carry. */
  method AddTwoLimbs(buf: array<nat>, x2: array<nat>) returns (x3: nat)
    requires buf.Length == 5 && x2.Length == 2 && buf != x2 && Buf(B, buf, 0, 4) && Buf(B, x2, 0, 2)
    modifies buf
    ensures x3 <= 1 && Buf(B, buf, 0, 4)
    ensures Val(B, buf[0..4]) + Mul(x3, P + A) == old(Val(B, buf[0..4])) + Val(B, x2[0..2])
  {
    hide Mul, Pow, Val;
    FoldRadix();
    PowAdd(B, 2, 2);
    ghost var s := buf[0..4];
    assert s[0..2] == buf[0..2] && s[2..4] == buf[2..4] && s == s[0..2] + s[2..4];
    LowHigh(s);
    LimbsSplit(B, s[0..2], s[2..4]);
    x3 := AddT(B, buf, 0, buf, 0, x2, 0, 2);
    ghost var c, lo' := x3, buf[0..2];
    assert buf[2..4] == s[2..4];
    MulUnits(Pow(B, 2));
    if x3 != 0 {
      x3 := AddUnit(B, buf, 2, 2, 1);
    }
    ghost var s' := buf[0..4];
    assert s'[0..2] == lo' && s'[2..4] == buf[2..4] && s' == s'[0..2] + s'[2..4];
    LowHigh(s');
    HalvesAlgebra(Pow(B, 2), Val(B, s[0..2]), Val(B, s'[0..2]), Val(B, s[2..4]), Val(B, s'[2..4]),
                  Val(B, x2[0..2]), c, x3);
  }

  /** The two-limb product of two words. */
  method MulUnit1(B: nat, a: nat, b: nat) returns (lo: nat, hi: nat)
    requires a < B && b < B
    ensures lo < B && hi < B && lo + Mul(B, hi) == Mul(a, b)
  {
    hide *;
    HighIsWord(B, a, b, 0);
    QuoRem(Mul(a, b), B);
    MulComm(Quo(Mul(a, b), B), B);
    lo, hi := Rem(Mul(a, b), B), Quo(Mul(a, b), B);
  }

  /** The second fold leaves a number below 2^256; the carry out of the last addition never occurs. */
  method SecondFold(buf: array<nat>)
    requires buf.Length == 5 && Buf(B, buf, 0, 4) && buf[4] <= A
    modifies buf
    ensures Buf(B, buf, 0, 4)
    ensures Rem(Val(B, buf[0..4]), P) == Rem(old(Val(B, buf[0..4])) + Mul(old(buf[4]), P + A), P)
  {
    hide Mul, Pow, Val, Rem;
    FoldRadix();
    ghost var h, l := buf[4], Val(B, buf[0..4]);
    FoldKeepsResidue(h, l);
    ValBound(B, buf[0..4]);
    var lo, hi := MulUnit1(B, buf[4], A);
    var x2 := new nat[2];
    x2[0], x2[1] := lo, hi;
    assert x2[0..2] == [lo] + [hi];
    ValCons(B, lo, [hi]);
    ValOne(B, hi);
    var x3 := AddTwoLimbs(buf, x2);
    MulUnits(P + A);
    if x3 != 0 {
      ghost var v := Val(B, buf[0..4]);
      x3 := AddUnit(B, buf, 0, 4, A);
      // v + 2^256 == l + h * A <= l + A * A, so v + A stays below 2^256
      MulMono(h, A, A);
      SquareOfA();
      assert x3 == 0;
      MulUnits(A);
      MulUnits(P);
      RemAddMultiple(v + A, 1, P);
    }
  }

  lemma SquareOfA()
    ensures Mul(A, A) + A < P
  {
  }

  /** z = x mod P for every 512-bit x. */
  method ModSecp256k1(z: array<nat>, x: array<nat>, p: array<nat>)
    requires z.Length >= 4 && Buf(B, x, 0, 8) && Buf(B, p, 0, 4) && Val(B, p[0..4]) == P
    modifies z
    ensures Buf(B, z, 0, 4) && Val(B, z[0..4]) == old(Val(B, x[0..8])) % P
    ensures OnlyIn(z, old(z[..]), 0, 4)
  {
    hide Mul, Pow, Val, Rem;
    FoldRadix();
    var buf := new nat[5];
    FirstFold(buf, x);
    SecondFold(buf);
    ghost var v := Val(B, buf[0..4]);
    QuoRemAreDivMod(Val(B, x[0..8]), P);
    ValBound(B, buf[0..4]);
    MulUnits(P);
    MulUnits(Pow(B, 4));
    var ge := CmpGeN(B, buf, 0, p, 0, 4);
    if ge {
      var c := SubT(B, z, 0, buf, 0, p, 0, 4);
      ValBound(B, z[0..4]);
      SquareOfA();
      QuoRemUnique(v, P, 1, v - P);
    } else {
      CopyN(z, 0, buf, 0, 4);
      QuoRemUnique(v, P, 0, v);
    }
  }

  /** z = x * y mod P. */
  method MulSecp256k1(z: array<nat>, x: array<nat>, y: array<nat>, p: array<nat>)
    requires z.Length >= 4 && Buf(B, x, 0, 4) && Buf(B, y, 0, 4) && Buf(B, p, 0, 4) && Val(B, p[0..4]) == P
    modifies z
    ensures Buf(B, z, 0, 4) && OnlyIn(z, old(z[..]), 0, 4)
    ensures Val(B, z[0..4]) == Mul(old(Val(B, x[0..4])), old(Val(B, y[0..4]))) % P
  {
    hide Mul, Pow, Val;
    var xy := new nat[8];
    MulT(B, xy, 0, x, 0, y, 0, 4);
    ModSecp256k1(z, xy, p);
  }
}
