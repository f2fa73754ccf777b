/**
Numbers written with digits: the value of a digit string, the shortest digit string of a number,
and the string of a number padded to a fixed length. Radix conversion is proved against these.
*/
module Text {
  import opened Limbs

  /** The value of a digit character in any radix up to 16; other characters get no digit value. */
  function DigitOf(c: char): nat {
    if '0' <= c <= '9' then c as int - '0' as int
    else if 'a' <= c <= 'f' then c as int - 'a' as int + 10
    else if 'A' <= c <= 'F' then c as int - 'A' as int + 10
    else 16
  }

  function DigitChar(d: nat): (c: char)
    requires d < 16
    ensures DigitOf(c) == d && (c == '0' <==> d == 0)
  {
    if d < 10 then ('0' as int + d) as char else ('a' as int + d - 10) as char
  }

  predicate IsText(R: nat, s: string) {
    forall i :: 0 <= i < |s| ==> DigitOf(s[i]) < R
  }

  function TextVal(R: nat, s: string): nat {
    if |s| == 0 then 0 else Mul(R, TextVal(R, s[..|s| - 1])) + DigitOf(s[|s| - 1])
  }

  lemma QuoShrinks(v: nat, R: nat)
    requires 2 <= R <= v
    ensures Quo(v, R) < v
  {
    QuoRem(v, R);
    MulComm(Quo(v, R), R);
    MulMono(2, R, Quo(v, R));
  }

  /** The digits of a number, without leading zeros. */
  function ToText(R: nat, v: nat): (s: string)
    requires 2 <= R <= 16
    ensures |s| >= 1
  {
    if v < R then [DigitChar(v)]
    else
      QuoShrinks(v, R);
      ToText(R, Quo(v, R)) + [DigitChar(Rem(v, R))]
  }

  /** The `n` low digits of a number. */
  function PadText(R: nat, v: nat, n: nat): (s: string)
    requires 2 <= R <= 16
    ensures |s| == n
  {
    if n == 0 then [] else PadText(R, Quo(v, R), n - 1) + [DigitChar(Rem(v, R))]
  }

  lemma TextValSnoc(R: nat, s: string, c: char)
    ensures TextVal(R, s + [c]) == Mul(R, TextVal(R, s)) + DigitOf(c)
  {
    assert (s + [c])[..|s|] == s;
  }

  lemma AppendAlgebra(R: nat, a: nat, p: nat, b: nat, d: nat)
    ensures Mul(R, Mul(a, p) + b) + d == Mul(a, Mul(R, p)) + (Mul(R, b) + d)
  {
    assert R * (a * p + b) == a * (R * p) + R * b;
  }

  lemma {:induction false} TextValConcat(R: nat, s: string, t: string)
    ensures TextVal(R, s + t) == Mul(TextVal(R, s), Pow(R, |t|)) + TextVal(R, t)
  {
    hide Mul;
    if |t| == 0 {
      assert s + t == s;
      MulUnits(TextVal(R, s));
    } else {
      var n := |t| - 1;
      TextValConcat(R, s, t[..n]);
      assert s + t == (s + t[..n]) + [t[n]];
      TextValSnoc(R, s + t[..n], t[n]);
      AppendAlgebra(R, TextVal(R, s), Pow(R, n), TextVal(R, t[..n]), DigitOf(t[n]));
    }
  }

  lemma {:induction false} TextValBound(R: nat, s: string)
    requires R > 0 && IsText(R, s)
    ensures TextVal(R, s) < Pow(R, |s|)
  {
    hide Mul;
    if |s| > 0 {
      TextValBound(R, s[..|s| - 1]);
      MulStrict(TextVal(R, s[..|s| - 1]), Pow(R, |s| - 1), R);
      MulComm(R, TextVal(R, s[..|s| - 1]));
      MulComm(R, Pow(R, |s| - 1));
    }
  }

  /** A prefix stands for no more than the whole text. */
  lemma PrefixBelow(R: nat, s: string, k: nat)
    requires R > 0 && k <= |s|
    ensures TextVal(R, s[..k]) <= TextVal(R, s)
  {
    hide Mul, Pow, TextVal;
    assert s == s[..k] + s[k..];
    TextValConcat(R, s[..k], s[k..]);
    if TextVal(R, s[..k]) > 0 {
      MulPos(TextVal(R, s[..k]), Pow(R, |s| - k));
    }
  }

  /** Reading the digits of a number gives the number back, and no digit is wasted. */
  lemma {:induction false} ToTextVal(R: nat, v: nat)
    requires 2 <= R <= 16
    ensures IsText(R, ToText(R, v)) && TextVal(R, ToText(R, v)) == v
    ensures |ToText(R, v)| == 1 || ToText(R, v)[0] != '0'
    ensures v > 0 ==> ToText(R, v)[0] != '0'
  {
    hide Mul, Quo, Rem;
    if v < R {
      assert ToText(R, v) == [DigitChar(v)];
      TextValSnoc(R, [], DigitChar(v));
      assert [] + [DigitChar(v)] == [DigitChar(v)];
      MulUnits(R);
    } else {
      QuoShrinks(v, R);
      ToTextVal(R, Quo(v, R));
      QuoRem(v, R);
      MulComm(R, Quo(v, R));
      MulUnits(R);
      TextValSnoc(R, ToText(R, Quo(v, R)), DigitChar(Rem(v, R)));
    }
  }

  /** A high part and n low digits are written side by side. */
  lemma {:induction false} ToTextSplit(R: nat, hi: nat, lo: nat, n: nat)
    requires 2 <= R <= 16 && hi > 0 && lo < Pow(R, n)
    ensures ToText(R, Mul(hi, Pow(R, n)) + lo) == ToText(R, hi) + PadText(R, lo, n)
  {
    hide Mul, Quo, Rem;
    var v := Mul(hi, Pow(R, n)) + lo;
    if n == 0 {
      MulUnits(hi);
    } else {
      var P := Pow(R, n - 1);
      MulComm(R, P);
      QuoBound(lo, R, P);
      QuoRem(lo, R);
      MulAdd(Mul(hi, P), Quo(lo, R), R);
      MulAssoc(hi, P, R);
      QuoRemUnique(v, R, Mul(hi, P) + Quo(lo, R), Rem(lo, R));
      ToTextSplit(R, hi, Quo(lo, R), n - 1);
      MulPos(hi, P);
      MulPos(Mul(hi, P) + Quo(lo, R), R);
      assert ToText(R, v) == ToText(R, Quo(v, R)) + [DigitChar(Rem(v, R))];
    }
  }

  /** The same for a padded text. */
  lemma {:induction false} PadTextSplit(R: nat, hi: nat, m: nat, lo: nat, n: nat)
    requires 2 <= R <= 16 && lo < Pow(R, n)
    ensures PadText(R, Mul(hi, Pow(R, n)) + lo, m + n) == PadText(R, hi, m) + PadText(R, lo, n)
  {
    hide Mul, Quo, Rem;
    var v := Mul(hi, Pow(R, n)) + lo;
    if n == 0 {
      MulUnits(hi);
    } else {
      var P := Pow(R, n - 1);
      MulComm(R, P);
      QuoBound(lo, R, P);
      QuoRem(lo, R);
      MulAdd(Mul(hi, P), Quo(lo, R), R);
      MulAssoc(hi, P, R);
      QuoRemUnique(v, R, Mul(hi, P) + Quo(lo, R), Rem(lo, R));
      PadTextSplit(R, hi, m, Quo(lo, R), n - 1);
    }
  }

  /** The number of digits decides, and is decided by, the size of the number. */
  lemma {:induction false} ToTextLength(R: nat, v: nat, n: nat)
    requires 2 <= R <= 16 && n >= 1
    ensures |ToText(R, v)| <= n <==> v < Pow(R, n)
  {
    hide Mul, Quo, Rem;
    PowSmall(R);
    if v < R {
      PowMono(R, 1, n);
    } else if n > 1 {
      ToTextLength(R, Quo(v, R), n - 1);
      MulComm(R, Pow(R, n - 1));
      QuoRem(v, R);
      if Quo(v, R) < Pow(R, n - 1) {
        MulStrict(Quo(v, R), Pow(R, n - 1), R);
      } else {
        MulMono(Pow(R, n - 1), Quo(v, R), R);
      }
    }
  }

  function Zeros(n: nat): (s: string)
    ensures |s| == n
  {
    seq(n, i => '0')
  }

  lemma {:induction false} ZeroPad(R: nat, n: nat)
    requires 2 <= R <= 16
    ensures PadText(R, 0, n) == Zeros(n)
  {
    if n > 0 {
      ZeroPad(R, n - 1);
    }
  }

  /** Padding is the shortest text behind zeros. */
  lemma {:induction false} PadIsZerosAndText(R: nat, v: nat, n: nat)
    requires 2 <= R <= 16 && |ToText(R, v)| <= n
    ensures PadText(R, v, n) == Zeros(n - |ToText(R, v)|) + ToText(R, v)
  {
    hide Mul, Quo, Rem;
    if v < R {
      MulUnits(R);
      QuoRemUnique(v, R, 0, v);
      ZeroPad(R, n - 1);
    } else {
      QuoShrinks(v, R);
      PadIsZerosAndText(R, Quo(v, R), n - 1);
    }
  }

  lemma PadToOwnLength(R: nat, v: nat)
    requires 2 <= R <= 16
    ensures PadText(R, v, |ToText(R, v)|) == ToText(R, v)
  {
    hide PadText, ToText;
    PadIsZerosAndText(R, v, |ToText(R, v)|);
    assert Zeros(0) + ToText(R, v) == ToText(R, v);
  }

  /** A text without leading zeros is the shortest text of its value, up to the case of letters. */
  lemma {:induction false} ShortestTextUnique(R: nat, s: string)
    requires 2 <= R <= 16 && IsText(R, s) && |s| >= 1 && (|s| == 1 || s[0] != '0')
    requires forall i :: 0 <= i < |s| ==> s[i] == DigitChar(DigitOf(s[i]))
    ensures ToText(R, TextVal(R, s)) == s
  {
    hide Mul, Quo, Rem;
    var n := |s| - 1;
    var d := DigitOf(s[n]);
    assert s == s[..n] + [s[n]];
    TextValSnoc(R, s[..n], s[n]);
    if n == 0 {
      assert s[..0] == [];
      MulUnits(R);
    } else {
      ShortestTextUnique(R, s[..n]);
      ToTextVal(R, TextVal(R, s[..n]));
      var u := TextVal(R, s[..n]);
      MulComm(R, u);
      MulPos(u, R);
      QuoRemUnique(Mul(u, R) + d, R, u, d);
    }
  }
}
