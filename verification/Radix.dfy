/**
Conversion between little-endian limb arrays and digit strings (`mcl/src/conversion_impl.hpp`).
Decimal text goes through chunks of nine digits; binary and hexadecimal text has a whole number of
digits per word, so one routine with radix `R` and `u` digits per word stands for both.
*/
module Radix {
  import opened Limbs
  import opened Bint
  import opened Text

  const CHUNK: nat := 1_000_000_000

  lemma ChunkIsNineDigits()
    ensures Pow(10, 9) == CHUNK
  {
    hide Pow;
    PowSmall(10);
    PowStep(10, 1);
    PowStep(10, 2);
    PowStep(10, 3);
    PowStep(10, 4);
    PowStep(10, 5);
    PowStep(10, 6);
    PowStep(10, 7);
    PowStep(10, 8);
  }

  ghost predicate CharsOnlyIn(a: array<char>, was: seq<char>, lo: int, hi: int)
    reads a
  {
    |was| == a.Length && forall j :: 0 <= j < a.Length && !(lo <= j < hi) ==> a[j] == was[j]
  }

  // ----- decimal output -----

  /** Write a number at the end of buf[..size), or return 0 if it does not fit. */
  method UintToDec(buf: array<char>, size: nat, v: nat) returns (len: nat)
    requires size <= buf.Length
    modifies buf
    ensures len == if |ToText(10, v)| <= size then |ToText(10, v)| else 0
    ensures len > 0 ==> buf[size - len..size] == ToText(10, v)
    ensures CharsOnlyIn(buf, old(buf[..]), size - len, size)
  {
    var s := ToText(10, v);
    if |s| > size {
      return 0;
    }
    len := |s|;
    for j := 0 to len
      invariant forall k :: 0 <= k < j ==> buf[size - len + k] == s[k]
      invariant CharsOnlyIn(buf, old(buf[..]), size - len, size - len + j)
    {
      buf[size - len + j] := s[j];
    }
    assert buf[size - len..size] == s;
  }

  /**
  Zeros filled in front of a short chunk go astray when fewer than nine characters are left, which
  the code does not check. With `room / 9` whole chunks and `room % 9` characters over: the last
  chunk begun still fits those characters, and more digits follow it.
  */
  predicate StrayFill(v: nat, room: nat) {
    var k, r := room / 9, room % 9;
    r > 0 && v >= Pow(10, 9 * k + 9) && Rem(Quo(v, Pow(10, 9 * k)), CHUNK) < Pow(10, r)
  }

  lemma QuoBelow(v: nat, d: nat, m: nat)
    requires d > 0
    ensures Quo(v, d) < m <==> v < Mul(m, d)
  {
    hide *;
    QuoRem(v, d);
    if Quo(v, d) < m {
      MulStrict(Quo(v, d), m, d);
    } else {
      MulMono(m, Quo(v, d), d);
    }
  }

  /** Nothing goes astray in a buffer in which the number fits, nor in one of whole chunks. */
  lemma FittingBufferIsSafe(v: nat, room: nat)
    requires v < Pow(10, room) || room % 9 == 0
    ensures !StrayFill(v, room)
  {
    hide Pow, Quo, Rem;
    PowMono(10, room, 9 * (room / 9) + 9);
  }

  /** The first chunk decides about a buffer shorter than a chunk. */
  lemma StrayFirst(v: nat, room: nat)
    requires room < 9
    ensures StrayFill(v, room) <==> v >= CHUNK && |ToText(10, Rem(v, CHUNK))| <= room
  {
    hide Pow, Mul, Quo, Rem, ToText;
    ChunkIsNineDigits();
    PowSmall(10);
    QuoOne(v);
    if room > 0 {
      ToTextLength(10, Rem(v, CHUNK), room);
    }
  }

  lemma QuoOne(v: nat)
    ensures Quo(v, 1) == v
  {
    hide *;
    MulUnits(v);
    QuoRemUnique(v, 1, v, 0);
  }

  /** After a whole chunk the question is the same for the rest of the number and of the buffer. */
  lemma StrayLater(v: nat, room: nat)
    requires room >= 9
    ensures StrayFill(v, room) <==> StrayFill(Quo(v, CHUNK), room - 9)
  {
    hide Pow, Mul, Quo, Rem;
    var k := room / 9;
    assert (room - 9) / 9 == k - 1 && (room - 9) % 9 == room % 9;
    ChunkIsNineDigits();
    PowAdd(10, 9 * k, 9);
    QuoBelow(v, CHUNK, Pow(10, 9 * k));
    PowAdd(10, 9 * k - 9, 9);
    QuoQuo(v, CHUNK, Pow(10, 9 * k - 9));
  }

  lemma ChunkSplits(v: nat)
    ensures var r, q := Rem(v, CHUNK), Quo(v, CHUNK);
      && |ToText(10, r)| <= 9
      && PadText(10, r, 9) == Zeros(9 - |ToText(10, r)|) + ToText(10, r)
      && (q > 0 ==> ToText(10, v) == ToText(10, q) + PadText(10, r, 9))
      && (q == 0 ==> r == v)
  {
    hide Pow, Mul, Quo, Rem, ToText, PadText;
    ChunkIsNineDigits();
    QuoRem(v, CHUNK);
    MulUnits(CHUNK);
    ToTextLength(10, Rem(v, CHUNK), 9);
    PadIsZerosAndText(10, Rem(v, CHUNK), 9);
    if Quo(v, CHUNK) > 0 {
      ToTextSplit(10, Quo(v, CHUNK), Rem(v, CHUNK), 9);
    }
  }

  /** Drop leading zero words, possibly all. */
  method DropZeros(ghost B: nat, t: array<nat>, xn: nat) returns (n: nat)
    requires B > 0 && Buf(B, t, 0, xn)
    ensures n <= xn && Buf(B, t, 0, n) && Val(B, t[0..n]) == Val(B, t[0..xn])
    ensures n == 0 <==> Val(B, t[0..xn]) == 0
  {
    hide Mul, Pow, Val;
    n := xn;
    ValEmpty(B);
    assert t[0..0] == [];
    while n > 0 && t[n - 1] == 0
      invariant n <= xn && Buf(B, t, 0, n) && Val(B, t[0..n]) == Val(B, t[0..xn])
    {
      assert t[0..n] == t[0..n - 1] + [0];
      ValSnoc(B, t[0..n - 1], 0);
      MulUnits(Pow(B, n - 1));
      n := n - 1;
    }
    if n > 0 {
      MulPos(t[n - 1], Pow(B, n - 1));
      assert t[0..n] == t[0..n - 1] + [t[n - 1]];
      ValSnoc(B, t[0..n - 1], t[n - 1]);
    }
  }

  /**
  Fill zeros in front of a short chunk, so that nine characters stand there. The fill stops at the
  first index outside the buffer and tells it.
  */
  method FillZeros(buf: array<char>, end: nat, len: nat, ghost r: nat) returns (stray: int)
    requires end <= buf.Length && len == |ToText(10, r)| <= 9 && len <= end && buf[end - len..end] == ToText(10, r)
    modifies buf
    ensures stray == if end < 9 then end - 9 else 0
    ensures stray == 0 ==> buf[end - 9..end] == Zeros(9 - |ToText(10, r)|) + ToText(10, r)
    ensures CharsOnlyIn(buf, old(buf[..]), end - 9, end - len)
  {
    hide ToText;
    for j := 0 to 9 - len
      invariant j > 0 ==> end >= 9
      invariant forall k :: 0 <= end - 9 <= k < end - 9 + j ==> buf[k] == '0'
      invariant CharsOnlyIn(buf, old(buf[..]), end - 9, end - 9 + j)
    {
      var at := end - 9 + j;
      if at < 0 {
        return at;
      }
      buf[at] := '0';
    }
    stray := 0;
    assert buf[end - 9..end] == buf[end - 9..end - len] + buf[end - len..end];
    assert buf[end - 9..end - len] == Zeros(9 - len);
    assert buf[end - len..end] == ToText(10, r);
  }

  /** What one chunk says about stray writes for the number still to be written. */
  lemma StrayByChunk(cur: nat, end: nat)
    ensures StrayFill(cur, end)
        <==> if end < 9 then Quo(cur, CHUNK) > 0 && |ToText(10, Rem(cur, CHUNK))| <= end
             else StrayFill(Quo(cur, CHUNK), end - 9)
    ensures Quo(cur, CHUNK) == 0 ==> !StrayFill(cur, end)
  {
    hide Pow, Mul, Quo, Rem, ToText, StrayFill;
    MulUnits(CHUNK);
    QuoBelow(cur, CHUNK, 1);
    if end < 9 {
      StrayFirst(cur, end);
    } else {
      StrayLater(cur, end);
      NothingStraysAtZero(end - 9);
    }
  }

  lemma NothingStraysAtZero(room: nat)
    ensures !StrayFill(0, room)
  {
    hide Quo, Rem;
  }

  /**
  One chunk in front of what stands at buf[end..bufSize): nine characters when more digits follow,
  the rest of the number otherwise.
  */
  method EmitChunk(buf: array<char>, ghost bufSize: nat, end: nat, ghost cur: nat, r: nat, last: bool)
    returns (len: nat, stray: int)
    requires end <= bufSize <= buf.Length && r == Rem(cur, CHUNK) && (last <==> Quo(cur, CHUNK) == 0)
    modifies buf
    ensures CharsOnlyIn(buf, old(buf[..]), 0, end)
    ensures stray == 0 || (stray == end - 9 < 0 && StrayFill(cur, end))
    ensures stray == 0 && (len == 0 || last) ==> !StrayFill(cur, end)
    ensures len == 0 && stray == 0 ==> |ToText(10, cur)| > end
    ensures len > 0 && stray == 0 ==> len <= end && CharsOnlyIn(buf, old(buf[..]), end - len, end)
    ensures len > 0 && stray == 0 && last ==> buf[end - len..bufSize] == ToText(10, cur) + old(buf[end..bufSize])
    ensures len > 0 && stray == 0 && !last ==>
      len == 9 && (StrayFill(cur, end) <==> StrayFill(Quo(cur, CHUNK), end - 9))
    ensures len > 0 && stray == 0 && !last ==>
      ToText(10, Quo(cur, CHUNK)) + buf[end - 9..bufSize] == ToText(10, cur) + old(buf[end..bufSize])
  {
    hide Quo, Rem, ToText, PadText, StrayFill;
    ChunkSplits(cur);
    StrayByChunk(cur, end);
    ghost var out := buf[end..bufSize];
    len := UintToDec(buf, end, r);
    stray := 0;
    if len > 0 && !last {
      stray := FillZeros(buf, end, len, r);
      len := 9;
    }
    assert buf[end..bufSize] == out;
    if len > 0 && stray == 0 {
      assert buf[end - len..bufSize] == buf[end - len..end] + out;
    }
  }

  /** Divide by the chunk in place and drop leading zero words. */
  method TakeChunk(B: nat, t: array<nat>, n: nat) returns (r: nat, m: nat)
    requires CHUNK < B && Buf(B, t, 0, n)
    modifies t
    ensures m <= n && Buf(B, t, 0, m)
    ensures var cur := old(Val(B, t[0..n])); r == Rem(cur, CHUNK) && Val(B, t[0..m]) == Quo(cur, CHUNK)
    ensures m == 0 <==> Val(B, t[0..m]) == 0
  {
    hide Mul, Pow, Val, Quo, Rem;
    ghost var cur := Val(B, t[0..n]);
    r := DivUnit(B, t, t, n, CHUNK);
    QuoRemUnique(cur, CHUNK, Val(B, t[0..n]), r);
    m := DropZeros(B, t, n);
  }

  /**
  Decimal output, right-aligned in buf[..bufSize): the shortest decimal text, or 0 if the buffer
  is too short for it. `stray` is the first index in front of the buffer that the routine writes
  to, where the model stops, or 0.
  */
  method ArrayToDec(B: nat, buf: array<char>, bufSize: nat, x: array<nat>, xn: nat) returns (size: nat, stray: int)
    requires CHUNK < B && Buf(B, x, 0, xn) && bufSize <= buf.Length
    modifies buf
    ensures stray == if StrayFill(Val(B, x[0..xn]), bufSize) then bufSize % 9 - 9 else 0
    ensures var s := ToText(10, Val(B, x[0..xn])); stray == 0 ==>
      && size == (if |s| <= bufSize then |s| else 0)
      && (size > 0 ==> buf[bufSize - size..bufSize] == s && CharsOnlyIn(buf, old(buf[..]), bufSize - size, bufSize))
    ensures CharsOnlyIn(buf, old(buf[..]), 0, bufSize)
  {
    hide Mul, Pow, Val, Quo, Rem, ToText, PadText, StrayFill;
    ghost var V := Val(B, x[0..xn]);
    var t := new nat[xn];
    CopyN(t, 0, x, 0, xn);
    var n: nat := xn;
    var pos: nat := 0;
    while true
      invariant n <= xn && Buf(B, t, 0, n) && pos <= bufSize
      invariant (bufSize - pos) % 9 == bufSize % 9
      invariant ToText(10, V) == ToText(10, Val(B, t[0..n])) + buf[bufSize - pos..bufSize]
      invariant StrayFill(V, bufSize) <==> StrayFill(Val(B, t[0..n]), bufSize - pos)
      invariant CharsOnlyIn(buf, old(buf[..]), bufSize - pos, bufSize)
      decreases bufSize - pos
    {
      ghost var cur := Val(B, t[0..n]);
      var r: nat;
      r, n := TakeChunk(B, t, n);
      var len: nat;
      len, stray := EmitChunk(buf, bufSize, bufSize - pos, cur, r, n == 0);
      if len == 0 || stray < 0 {
        return 0, stray;
      }
      if n == 0 {
        return pos + len, 0;
      }
      pos := pos + len;
    }
  }

  lemma StrayFillExists()
    ensures StrayFill(1_000_000_001, 5)
  {
    hide Pow, Mul, Quo, Rem, ToText, StrayFill;
    MulUnits(CHUNK);
    QuoRemUnique(1_000_000_001, CHUNK, 1, 1);
    PowSmall(10);
    PowMono(10, 1, 5);
    ToTextLength(10, 1, 5);
    StrayFirst(1_000_000_001, 5);
  }

  /** The number 1000000001 in a buffer of five characters: a zero is written four places before it. */
  method StrayWrite(B: nat) returns (stray: int)
    requires B > 1_000_000_001
    ensures stray == -4
  {
    hide Val, StrayFill, ToText;
    var x := new nat[1];
    x[0] := 1_000_000_001;
    assert x[0..1] == [1_000_000_001];
    ValOne(B, 1_000_000_001);
    StrayFillExists();
    var buf := new char[5];
    var size: nat;
    size, stray := ArrayToDec(B, buf, 5, x, 1);
  }

  // ----- decimal input -----

  method DecToU32(p: string) returns (v: nat, ok: bool)
    requires 1 <= |p| <= 9
    ensures ok <==> IsText(10, p)
    ensures ok ==> v == TextVal(10, p) < CHUNK
  {
    hide Mul;
    v := 0;
    for i := 0 to |p|
      invariant IsText(10, p[..i]) && v == TextVal(10, p[..i])
    {
      assert p[..i + 1] == p[..i] + [p[i]];
      if p[i] < '0' || p[i] > '9' {
        assert DigitOf(p[i]) >= 10;
        return 0, false;
      }
      TextValSnoc(10, p[..i], p[i]);
      v := Mul(10, v) + DigitOf(p[i]);
    }
    assert p[..|p|] == p;
    ok := true;
    TextValBound(10, p);
    PowMono(10, |p|, 9);
    ChunkIsNineDigits();
  }

  /** No leading zero word, except that zero takes one word. */
  ghost predicate Shortest(B: nat, x: array<nat>, n: nat)
    requires n <= x.Length
    reads x
  {
    n == 1 || (n > 1 && Val(B, x[0..n]) >= Pow(B, n - 1))
  }

  /** Append a carry word, unless the array is full or there is no carry. */
  method PushCarry(B: nat, x: array<nat>, maxN: nat, n: nat, H: nat) returns (m: nat)
    requires B > 0 && 1 <= n <= maxN <= x.Length && Buf(B, x, 0, n) && H < B
    requires H > 0 || Shortest(B, x, n)
    modifies x
    ensures OnlyIn(x, old(x[..]), 0, maxN) && m <= maxN
    ensures m == 0 <==> old(Val(B, x[0..n])) + Mul(H, Pow(B, n)) >= Pow(B, maxN)
    ensures m > 0 ==> Buf(B, x, 0, m) && Shortest(B, x, m)
                      && Val(B, x[0..m]) == old(Val(B, x[0..n])) + Mul(H, Pow(B, n))
  {
    hide Mul, Pow, Val;
    ValBound(B, x[0..n]);
    MulUnits(Pow(B, n));
    if H > 0 {
      MulPos(H, Pow(B, n));
      if n == maxN {
        return 0;
      }
      ghost var xs := x[0..n];
      x[n] := H;
      m := n + 1;
      assert x[0..m] == xs + [H];
      ValSnoc(B, xs, H);
      ValBound(B, x[0..m]);
    } else {
      m := n;
    }
    PowMono(B, m, maxN);
  }

  lemma ScaledNoSmaller(v: nat, p: nat)
    requires v >= p
    ensures Mul(v, CHUNK) >= p
  {
    MulPos(1, CHUNK);
    MulMono(1, CHUNK, v);
    MulUnits(v);
  }

  /** x = x * 10^9 + v, growing by a word where needed; 0 when the result does not fit maxN words. */
  method ScaleAndAdd(B: nat, x: array<nat>, maxN: nat, n: nat, v: nat) returns (m: nat)
    requires CHUNK < B && v < CHUNK && 1 <= n <= maxN <= x.Length && Buf(B, x, 0, n) && Shortest(B, x, n)
    modifies x
    ensures OnlyIn(x, old(x[..]), 0, maxN) && m <= maxN
    ensures m == 0 <==> Mul(old(Val(B, x[0..n])), CHUNK) + v >= Pow(B, maxN)
    ensures m > 0 ==> Buf(B, x, 0, m) && Shortest(B, x, m)
                      && Val(B, x[0..m]) == Mul(old(Val(B, x[0..n])), CHUNK) + v
  {
    hide Mul, Pow, Val;
    ghost var u := Val(B, x[0..n]);
    ScaledNoSmaller(u, if n == 1 then 0 else Pow(B, n - 1));
    MulUnits(Pow(B, n));
    var H := MulUnitT(B, x, 0, x, 0, CHUNK, n);
    m := PushCarry(B, x, maxN, n, H);
    if m == 0 {
      return;
    }
    MulUnits(Pow(B, m));
    H := AddUnit(B, x, 0, m, v);
    m := PushCarry(B, x, maxN, m, H);
  }

  /** Reading one more chunk of text: nine digits, or the short first chunk on top of zero. */
  lemma NextChunk(s: string, pos: nat, k: nat)
    requires pos + k <= |s| && (pos == 0 || k == 9)
    ensures TextVal(10, s[..pos + k]) == Mul(TextVal(10, s[..pos]), CHUNK) + TextVal(10, s[pos..pos + k])
    ensures IsText(10, s[..pos]) && IsText(10, s[pos..pos + k]) ==> IsText(10, s[..pos + k])
  {
    hide Mul, Pow, TextVal;
    assert s[..pos + k] == s[..pos] + s[pos..pos + k];
    TextValConcat(10, s[..pos], s[pos..pos + k]);
    ChunkIsNineDigits();
    if pos == 0 {
      EmptyText();
      MulUnits(Pow(10, k));
      MulUnits(CHUNK);
    }
  }

  lemma EmptyText()
    ensures TextVal(10, []) == 0
  {
  }

  /** Decimal input: fails exactly on a non-digit or on a value that does not fit maxN words. */
  method DecToArray(B: nat, x: array<nat>, maxN: nat, s: string) returns (n: nat)
    requires CHUNK < B && maxN <= x.Length
    modifies x
    ensures OnlyIn(x, old(x[..]), 0, maxN) && n <= maxN
    ensures n == 0 <==> maxN == 0 || !IsText(10, s) || TextVal(10, s) >= Pow(B, maxN)
    ensures n > 0 ==> Buf(B, x, 0, n) && Shortest(B, x, n) && Val(B, x[0..n]) == TextVal(10, s)
  {
    hide Mul, Pow, Val, TextVal;
    if maxN == 0 {
      return 0;
    }
    n := 1;
    x[0] := 0;
    assert x[0..1] == [0];
    ValOne(B, 0);
    EmptyText();
    var pos: nat := 0;
    while pos < |s|
      invariant pos <= |s| && 1 <= n <= maxN && OnlyIn(x, old(x[..]), 0, maxN)
      invariant pos == 0 || (|s| - pos) % 9 == 0
      invariant IsText(10, s[..pos]) && Buf(B, x, 0, n) && Shortest(B, x, n)
      invariant Val(B, x[0..n]) == TextVal(10, s[..pos])
    {
      var k := (|s| - pos) % 9;
      if k == 0 {
        k := 9;
      }
      var v, ok := DecToU32(s[pos..pos + k]);
      if !ok {
        BadChunk(s, pos, k);
        return 0;
      }
      NextChunk(s, pos, k);
      n := ScaleAndAdd(B, x, maxN, n, v);
      if n == 0 {
        PrefixBelow(10, s, pos + k);
        return;
      }
      pos := pos + k;
    }
    assert s[..|s|] == s;
    ValBound(B, x[0..n]);
    PowMono(B, n, maxN);
  }

  lemma BadChunk(s: string, pos: nat, k: nat)
    requires pos + k <= |s| && !IsText(10, s[pos..pos + k])
    ensures !IsText(10, s)
  {
    var i :| 0 <= i < k && DigitOf(s[pos..pos + k][i]) >= 10;
    assert s[pos + i] == s[pos..pos + k][i];
  }

  /**
  Decimal round trip: what `ArrayToDec` prints for n words passes the test of `DecToArray` for n
  or more words, and words of that value are the words printed.
  */
  lemma DecRoundTrip(B: nat, xs: seq<nat>, maxN: nat, ys: seq<nat>)
    requires B > 1 && IsLimbs(B, xs) && 1 <= |xs| <= maxN
    ensures var s := ToText(10, Val(B, xs));
      && IsText(10, s) && TextVal(10, s) == Val(B, xs) < Pow(B, maxN)
      && (IsLimbs(B, ys) && |ys| <= |xs| && Val(B, ys) == TextVal(10, s) ==> xs == ys + seq(|xs| - |ys|, i => 0))
  {
    hide Pow, Val;
    ToTextVal(10, Val(B, xs));
    ValBound(B, xs);
    PowMono(B, |xs|, maxN);
    SameValueSameWords(B, xs, ys);
  }

  lemma SameValueSameWords(B: nat, xs: seq<nat>, ys: seq<nat>)
    requires B > 0 && IsLimbs(B, xs)
    ensures IsLimbs(B, ys) && |ys| <= |xs| && Val(B, ys) == Val(B, xs) ==> xs == ys + seq(|xs| - |ys|, i => 0)
  {
    hide Mul, Pow, Val;
    if IsLimbs(B, ys) && |ys| <= |xs| && Val(B, ys) == Val(B, xs) {
      var zs := seq(|xs| - |ys|, i => 0);
      ValConcat(B, ys, zs);
      ValZeros(B, zs);
      MulUnits(Pow(B, |ys|));
      ValInjective(B, xs, ys + zs);
    }
  }

  /**
  Print into a buffer of bufSize characters and read the text again into maxN words: the words
  come back when the number fits the buffer, and nothing is read otherwise.
  */
  method DecThereAndBack(B: nat, x: array<nat>, xn: nat, bufSize: nat, maxN: nat) returns (ys: seq<nat>)
    requires CHUNK < B && Buf(B, x, 0, xn) && 1 <= xn <= maxN
    ensures |ToText(10, Val(B, x[0..xn]))| <= bufSize ==>
      1 <= |ys| <= xn && x[0..xn] == ys + seq(xn - |ys|, i => 0)
    ensures |ToText(10, Val(B, x[0..xn]))| > bufSize ==> ys == []
  {
    hide Mul, Pow, Val, Quo, Rem, ToText, TextVal, StrayFill;
    var buf, y := new char[bufSize], new nat[maxN];
    if |ToText(10, Val(B, x[0..xn]))| <= bufSize {
      TextThatFitsIsSafe(Val(B, x[0..xn]), bufSize);
    }
    var size, stray := ArrayToDec(B, buf, bufSize, x, xn);
    if size == 0 || stray < 0 {
      return [];
    }
    DecRoundTrip(B, x[0..xn], maxN, []);
    var n := DecToArray(B, y, maxN, buf[bufSize - size..bufSize]);
    FewerWords(B, x[0..xn], y, n);
    DecRoundTrip(B, x[0..xn], maxN, y[0..n]);
    ys := y[0..n];
  }

  lemma TextThatFitsIsSafe(v: nat, bufSize: nat)
    requires |ToText(10, v)| <= bufSize
    ensures !StrayFill(v, bufSize)
  {
    hide Pow, ToText, StrayFill;
    ToTextLength(10, v, bufSize);
    FittingBufferIsSafe(v, bufSize);
  }

  lemma FewerWords(B: nat, xs: seq<nat>, y: array<nat>, n: nat)
    requires B > 0 && IsLimbs(B, xs) && 1 <= |xs| && n <= y.Length && Shortest(B, y, n) && Val(B, y[0..n]) == Val(B, xs)
    ensures n <= |xs|
  {
    hide Pow, Val;
    ValBound(B, xs);
    if n > |xs| {
      PowMono(B, |xs|, n - 1);
    }
  }

  // ----- hexadecimal and binary: `u` digits per word, B == R^u -----

  /** The words of `xs`, last one first, each written with `u` digits. */
  function Body(R: nat, u: nat, xs: seq<nat>): (s: string)
    requires 2 <= R <= 16
    ensures |s| == Mul(|xs|, u)
  {
    if |xs| == 0 then []
    else
      MulAdd(|xs| - 1, 1, u);
      MulUnits(u);
      Body(R, u, xs[1..]) + PadText(R, xs[0], u)
  }

  lemma {:induction false} BodyIsPadded(R: nat, u: nat, B: nat, xs: seq<nat>)
    requires 2 <= R <= 16 && B == Pow(R, u) && IsLimbs(B, xs)
    ensures Body(R, u, xs) == PadText(R, Val(B, xs), Mul(|xs|, u))
  {
    hide Mul, Pow, Val, PadText, Quo, Rem;
    if |xs| == 0 {
      MulUnits(u);
    } else {
      BodyIsPadded(R, u, B, xs[1..]);
      assert xs == [xs[0]] + xs[1..];
      ValCons(B, xs[0], xs[1..]);
      MulAdd(|xs| - 1, 1, u);
      MulUnits(u);
      MulComm(B, Val(B, xs[1..]));
      PadTextSplit(R, Val(B, xs[1..]), Mul(|xs| - 1, u), xs[0], u);
    }
  }

  /** The top word without leading zeros, the others padded, is the text of the whole number. */
  lemma TextByWords(R: nat, u: nat, B: nat, xs: seq<nat>)
    requires 2 <= R <= 16 && B == Pow(R, u) && IsLimbs(B, xs) && |xs| >= 1
    requires |xs| > 1 ==> xs[|xs| - 1] > 0
    ensures var f := |xs| - 1; ToText(R, Val(B, xs)) == ToText(R, xs[f]) + Body(R, u, xs[..f])
  {
    hide Mul, Pow, Val, ToText, PadText;
    var f := |xs| - 1;
    assert xs == xs[..f] + [xs[f]];
    BodyIsPadded(R, u, B, xs[..f]);
    if f == 0 {
      ValOne(B, xs[0]);
      assert Body(R, u, xs[..0]) == [];
    } else {
      ValSnoc(B, xs[..f], xs[f]);
      ValBound(B, xs[..f]);
      PowPow(R, u, f);
      MulComm(u, f);
      ToTextSplit(R, xs[f], Val(B, xs[..f]), Mul(f, u));
    }
  }

  /** Write `s` at buf[at..). */
  method Put(buf: array<char>, at: nat, s: string)
    requires at + |s| <= buf.Length
    modifies buf
    ensures buf[at..at + |s|] == s && CharsOnlyIn(buf, old(buf[..]), at, at + |s|)
  {
    for j := 0 to |s|
      invariant forall k :: at <= k < at + j ==> buf[k] == s[k - at]
      invariant CharsOnlyIn(buf, old(buf[..]), at, at + j)
    {
      buf[at + j] := s[j];
    }
    assert buf[at..at + |s|] == s;
  }

  /** Write `s` behind what stands at buf[at..pos). */
  method Append(buf: array<char>, ghost at: nat, pos: nat, s: string)
    requires at <= pos <= pos + |s| <= buf.Length
    modifies buf
    ensures buf[at..pos + |s|] == old(buf[at..pos]) + s && CharsOnlyIn(buf, old(buf[..]), pos, pos + |s|)
  {
    ghost var done := buf[at..pos];
    Put(buf, pos, s);
    assert buf[at..pos] == done;
    assert buf[at..pos + |s|] == done + buf[pos..pos + |s|];
  }

  /** The words below the top one, each with all its digits. */
  method PutBody(R: nat, u: nat, buf: array<char>, at: nat, x: array<nat>, f: nat)
    requires 2 <= R <= 16 && f <= x.Length && at + Mul(f, u) <= buf.Length
    modifies buf
    ensures buf[at..at + Mul(f, u)] == Body(R, u, x[0..f])
    ensures CharsOnlyIn(buf, old(buf[..]), at, at + Mul(f, u))
  {
    hide Mul, PadText;
    MulUnits(u);
    var pos := at;
    for i := 0 to f
      invariant pos == at + Mul(i, u) && Mul(i, u) <= Mul(f, u)
      invariant buf[at..pos] == Body(R, u, x[f - i..f])
      invariant CharsOnlyIn(buf, old(buf[..]), at, pos)
    {
      MulAdd(i, 1, u);
      MulUnits(u);
      MulMono(i + 1, f, u);
      Append(buf, at, pos, PadText(R, x[f - 1 - i], u));
      assert x[f - i - 1..f][1..] == x[f - i..f];
      pos := pos + u;
    }
  }

  /** The index of the most significant non-zero word, or 0. */
  method TopWord(ghost B: nat, x: array<nat>, n: nat) returns (f: nat)
    requires B > 0 && n >= 1 && Buf(B, x, 0, n)
    ensures f < n && Buf(B, x, 0, f + 1) && (f > 0 ==> x[f] > 0) && Val(B, x[0..f + 1]) == Val(B, x[0..n])
  {
    hide Mul, Pow, Val;
    f := n - 1;
    while f > 0 && x[f] == 0
      invariant f < n && Buf(B, x, 0, f + 1) && Val(B, x[0..f + 1]) == Val(B, x[0..n])
    {
      assert x[0..f + 1] == x[0..f] + [0];
      ValSnoc(B, x[0..f], 0);
      MulUnits(Pow(B, f));
      f := f - 1;
    }
  }

  /** The top word v and the number f of words below it that the text shows. */
  method SignificantWords(R: nat, u: nat, x: array<nat>, n: nat) returns (f: nat, v: nat)
    requires 2 <= R <= 16 && u >= 1 && Buf(Pow(R, u), x, 0, n)
    ensures f <= n && ToText(R, Val(Pow(R, u), x[0..n])) == ToText(R, v) + Body(R, u, x[0..f])
    ensures |Body(R, u, x[0..f])| == Mul(f, u)
  {
    hide Mul, Pow, Val, ToText, PadText, Body;
    ghost var B := Pow(R, u);
    if n > 0 {
      f := TopWord(B, x, n);
      v := x[f];
      TextByWords(R, u, B, x[0..f + 1]);
      assert x[0..f + 1][..f] == x[0..f];
    } else {
      assert x[0..n] == [];
      ValEmpty(B);
      EmptyBody(R, u);
      f, v := 0, 0;
    }
  }

  /** `arrayToHex` (R == 16, prefix "0x") and `arrayToBin` (R == 2, prefix "0b"), right-aligned. */
  method ArrayToText(R: nat, u: nat, buf: array<char>, bufSize: nat, x: array<nat>, n: nat, prefix: string)
    returns (size: nat)
    requires 2 <= R <= 16 && u >= 1 && Buf(Pow(R, u), x, 0, n) && bufSize <= buf.Length
    modifies buf
    ensures var s := prefix + ToText(R, Val(Pow(R, u), x[0..n]));
      && size == (if |s| <= bufSize then |s| else 0)
      && (size > 0 ==> buf[bufSize - size..bufSize] == s)
    ensures CharsOnlyIn(buf, old(buf[..]), bufSize - size, bufSize)
  {
    hide Mul, Pow, Val, ToText, PadText, Body;
    ghost var V := Val(Pow(R, u), x[0..n]);
    var f, v := SignificantWords(R, u, x, n);
    PadToOwnLength(R, v);
    var topLen := |ToText(R, v)|;
    size := |prefix| + Mul(f, u) + topLen;
    if size > bufSize {
      return 0;
    }
    var top := bufSize - size;
    Put(buf, top, prefix + PadText(R, v, topLen));
    ghost var head := buf[top..top + |prefix| + topLen];
    PutBody(R, u, buf, top + |prefix| + topLen, x, f);
    assert buf[top..top + |prefix| + topLen] == head;
    assert buf[top..bufSize] == head + buf[top + |prefix| + topLen..bufSize];
    assert prefix + ToText(R, V) == head + Body(R, u, x[0..f]);
  }

  lemma EmptyBody(R: nat, u: nat)
    requires 2 <= R <= 16
    ensures Body(R, u, []) == []
  {
  }

  /** One word from its digits. */
  method TextToUint(R: nat, p: string) returns (v: nat, ok: bool)
    requires 2 <= R <= 16
    ensures ok <==> IsText(R, p)
    ensures ok ==> v == TextVal(R, p) < Pow(R, |p|)
  {
    hide Mul, Pow;
    v := 0;
    for i := 0 to |p|
      invariant IsText(R, p[..i]) && v == TextVal(R, p[..i])
    {
      assert p[..i + 1] == p[..i] + [p[i]];
      var d := DigitOf(p[i]);
      if d >= R {
        return 0, false;
      }
      TextValSnoc(R, p[..i], p[i]);
      v := Mul(R, v) + d;
    }
    assert p[..|p|] == p;
    ok := true;
    TextValBound(R, p);
  }

  lemma PrependWord(R: nat, u: nat, s: string, a: nat, b: nat, i: nat)
    requires R > 0 && a <= b <= |s| && |s| - b == Mul(i, u)
    ensures TextVal(R, s[a..]) == Mul(TextVal(R, s[a..b]), Pow(Pow(R, u), i)) + TextVal(R, s[b..])
    ensures IsText(R, s[a..b]) && IsText(R, s[b..]) ==> IsText(R, s[a..])
    ensures !IsText(R, s[a..b]) ==> !IsText(R, s)
  {
    hide Mul, Pow, TextVal;
    assert s[a..] == s[a..b] + s[b..];
    TextValConcat(R, s[a..b], s[b..]);
    PowPow(R, u, i);
    MulComm(i, u);
    if !IsText(R, s[a..b]) {
      var k :| 0 <= k < b - a && DigitOf(s[a..b][k]) >= R;
      assert s[a + k] == s[a..b][k];
    }
  }

  function WordCount(len: nat, u: nat): nat
    requires u >= 1
  {
    Quo(len, u) + if Rem(len, u) > 0 then 1 else 0
  }

  /** The word count is the least that has room for the digits. */
  lemma WordsNeeded(len: nat, u: nat, maxN: nat)
    requires u >= 1
    ensures WordCount(len, u) <= maxN <==> len <= Mul(maxN, u)
  {
    hide Mul, Quo, Rem;
    QuoRem(len, u);
    var q, n := Quo(len, u), WordCount(len, u);
    MulAdd(q, 1, u);
    MulUnits(u);
    if n <= maxN {
      MulMono(n, maxN, u);
    } else {
      MulMono(maxN, q, u);
      if maxN < q {
        MulStrict(maxN, q, u);
      }
    }
  }

  /**
  `hexToArray` and `binToArray`: fail exactly on empty text, a non-digit, or more digits than
  maxN words can have, even when leading zeros would let the value fit.
  */
  method TextToArray(R: nat, u: nat, x: array<nat>, maxN: nat, s: string) returns (n: nat)
    requires 2 <= R <= 16 && u >= 1 && maxN <= x.Length
    modifies x
    ensures OnlyIn(x, old(x[..]), 0, maxN) && n <= maxN
    ensures n == 0 <==> |s| == 0 || !IsText(R, s) || |s| > Mul(maxN, u)
    ensures n > 0 ==> Buf(Pow(R, u), x, 0, n) && Val(Pow(R, u), x[0..n]) == TextVal(R, s)
    ensures n > 0 ==> n == WordCount(|s|, u)
  {
    hide Mul, Pow, Val, TextVal, Quo, Rem;
    ghost var B := Pow(R, u);
    if |s| == 0 {
      return 0;
    }
    var q, r := Quo(|s|, u), Rem(|s|, u);
    n := q + if r > 0 then 1 else 0;
    WordsNeeded(|s|, u, maxN);
    QuoRem(|s|, u);
    MulUnits(u);
    if maxN < n {
      return 0;
    }
    ValEmpty(B);
    NoText(R);
    assert x[0..0] == [] && s[|s|..] == [];
    for i := 0 to q
      invariant OnlyIn(x, old(x[..]), 0, i) && Buf(B, x, 0, i)
      invariant Mul(i, u) <= Mul(q, u)
      invariant IsText(R, s[|s| - Mul(i, u)..]) && Val(B, x[0..i]) == TextVal(R, s[|s| - Mul(i, u)..])
    {
      MulAdd(i, 1, u);
      MulMono(i + 1, q, u);
      var b := |s| - Mul(i, u);
      var v, ok := TextToUint(R, s[b - u..b]);
      PrependWord(R, u, s, b - u, b, i);
      if !ok {
        return 0;
      }
      ghost var xs := x[0..i];
      x[i] := v;
      assert x[0..i + 1] == xs + [v];
      ValSnoc(B, xs, v);
    }
    if r > 0 {
      var v, ok := TextToUint(R, s[0..r]);
      PrependWord(R, u, s, 0, r, q);
      if !ok {
        return 0;
      }
      PowMono(R, r, u);
      ghost var xs := x[0..q];
      x[q] := v;
      assert x[0..q + 1] == xs + [v];
      ValSnoc(B, xs, v);
    }
    assert s[0..] == s;
  }

  lemma NoText(R: nat)
    ensures TextVal(R, []) == 0
  {
  }

  /** Round trip: the printed text of n words is accepted for n or more words, with the same value. */
  lemma TextRoundTrip(R: nat, u: nat, xs: seq<nat>, maxN: nat)
    requires 2 <= R <= 16 && u >= 1 && IsLimbs(Pow(R, u), xs) && 1 <= |xs| <= maxN
    ensures var s := ToText(R, Val(Pow(R, u), xs));
      |s| > 0 && IsText(R, s) && |s| <= Mul(maxN, u) && TextVal(R, s) == Val(Pow(R, u), xs)
  {
    hide Pow, Val, Mul, ToText;
    var V := Val(Pow(R, u), xs);
    ToTextVal(R, V);
    ValBound(Pow(R, u), xs);
    PowPow(R, u, |xs|);
    MulComm(u, |xs|);
    MulPos(|xs|, u);
    ToTextLength(R, V, Mul(|xs|, u));
    MulMono(|xs|, maxN, u);
  }

  /** Print and read again, as for decimal text. */
  method TextThereAndBack(R: nat, u: nat, x: array<nat>, xn: nat, bufSize: nat, maxN: nat, prefix: string)
    returns (ys: seq<nat>)
    requires 2 <= R <= 16 && u >= 1 && Buf(Pow(R, u), x, 0, xn) && 1 <= xn <= maxN
    ensures |prefix + ToText(R, Val(Pow(R, u), x[0..xn]))| <= bufSize ==>
      1 <= |ys| <= xn && x[0..xn] == ys + seq(xn - |ys|, i => 0)
    ensures |prefix + ToText(R, Val(Pow(R, u), x[0..xn]))| > bufSize ==> ys == []
  {
    hide Mul, Pow, Val, ToText, TextVal;
    ghost var B, xs := Pow(R, u), x[0..xn];
    var buf, y := new char[bufSize], new nat[maxN];
    var size := ArrayToText(R, u, buf, bufSize, x, xn, prefix);
    if size == 0 {
      return [];
    }
    var s := buf[bufSize - size + |prefix|..bufSize];
    assert s == buf[bufSize - size..bufSize][|prefix|..] == ToText(R, Val(B, xs));
    TextRoundTrip(R, u, xs, maxN);
    TextRoundTrip(R, u, xs, xn);
    var n := TextToArray(R, u, y, maxN, s);
    WordsNeeded(|s|, u, xn);
    SameValueSameWords(B, xs, y[0..n]);
    ys := y[0..n];
  }
}
