/**
The readers and the writer of the cipher format: the `Writer` and the sticky-failure `Reader` of
`pvac_ffi/pvac_serialize.hpp`, its cipher parser, and the second, early-exit parser of
`pvac_ffi/pvac_stubs.cpp`. Both parsers are proved against the grammar of `CipherFormat`.
*/
module CipherReader {
  import opened Options
  import opened Limbs
  import opened CipherFormat
  import W = Words

  /** A reader that did not fail before has now done what the grammar says, or failed where it fails. */
  ghost predicate Follows<T>(wasFailed: bool, wasPos: nat, spec: Parsed<T>, failed: bool, pos: nat, v: T) {
    if wasFailed then failed && pos == wasPos
    else match spec
      case Ok(x, q) => !failed && pos == q && v == x
      case Bad(q) => failed && pos == q
  }

  /** Bytes joined by shift and or are the little-endian value. */
  lemma ShiftedByte(d: seq<nat>, p: nat, i: nat)
    requires IsLimbs(256, d) && p + i < |d|
    ensures var v := Val(256, d[p..p + i]);
      W.Or(v, Mul(d[p + i], Pow(256, i))) == Val(256, d[p..p + i + 1])
  {
    hide Mul, Pow, Val, W.Or;
    var v := Val(256, d[p..p + i]);
    assert d[p..p + i + 1] == d[p..p + i] + [d[p + i]];
    ValSnoc(256, d[p..p + i], d[p + i]);
    ValBound(256, d[p..p + i]);
    EightBits(i);
    W.OrDisjoint(d[p + i], v, Mul(8, i));
    W.OrComm(v, Mul(d[p + i], Pow(256, i)));
  }

  lemma EightBits(i: nat)
    ensures Pow(256, i) == Pow(2, Mul(8, i))
  {
    hide Mul, Pow;
    PowPow(2, 8, i);
    PowSmall(2);
    PowAdd(2, 1, 1);
    PowAdd(2, 2, 2);
    PowAdd(2, 4, 4);
    SquaresOfTwo();
  }

  lemma SquaresOfTwo()
    ensures Mul(2, 2) == 4 && Mul(4, 4) == 16 && Mul(16, 16) == 256
  {
  }

  /** Once a list has failed, the rest of it reads nothing. */
  lemma {:induction false} BadStays<T>(f: nat -> Parsed<T>, p: nat, i: nat, n: nat)
    requires i <= n && Many(f, p, i).Bad?
    ensures Many(f, p, n) == Bad(Many(f, p, i).pos)
    decreases n
  {
    if i < n {
      BadStays(f, p, i, n - 1);
    }
  }

  class Reader {
    const d: seq<nat>
    const valid: seq<nat> -> bool
    var pos: nat
    var failed: bool

    ghost predicate Valid()
      reads this
    {
      pos <= |d| && IsLimbs(256, d)
    }

    constructor (data: seq<nat>, validPoint: seq<nat> -> bool)
      requires IsLimbs(256, data)
      ensures Valid() && d == data && valid == validPoint && pos == 0 && !failed
    {
      d, valid, pos, failed := data, validPoint, 0, false;
    }

    method Fail()
      requires Valid()
      modifies this`failed
      ensures Valid() && failed
    {
      failed := true;
    }

    method Need(n: nat)
      requires Valid()
      modifies this`failed
      ensures Valid() && (failed <==> old(failed) || n > |d| - pos)
    {
      if failed {
        return;
      }
      if n > |d| - pos {
        Fail();
      }
    }

    /** u8, u16, u32 and u64: an unsigned integer of n bytes, 0 after a failure. */
    method Int(n: nat) returns (v: nat)
      requires Valid()
      modifies this
      ensures Valid() && Follows(old(failed), old(pos), PInt(d, old(pos), n), failed, pos, v)
      ensures failed ==> v == 0
    {
      hide Mul, Pow, Val, W.Or;
      Need(n);
      v := 0;
      if failed {
        return;
      }
      ValEmpty(256);
      assert d[pos..pos] == [];
      for i := 0 to n
        invariant pos == old(pos) && pos + n <= |d| && !failed && v == Val(256, d[pos..pos + i])
      {
        ShiftedByte(d, pos, i);
        v := W.Or(v, Mul(d[pos + i], Pow(256, i)));
      }
      pos := pos + n;
    }

    method Raw(n: nat) returns (b: seq<nat>)
      requires Valid()
      modifies this
      ensures Valid() && Follows(old(failed), old(pos), PRaw(d, old(pos), n), failed, pos, b)
    {
      Need(n);
      if failed {
        return seq(n, i => 0);
      }
      b := d[pos..pos + n];
      pos := pos + n;
    }

    method ReadFp() returns (x: Fp)
      requires Valid()
      modifies this
      ensures Valid() && Follows(old(failed), old(pos), PFp(d, old(pos)), failed, pos, x)
    {
      hide PInt;
      var lo := Int(8);
      var hi := Int(8);
      x := Fp(lo, hi);
      if failed {
        return;
      }
      if !Reduced(x) {
        Fail();
      }
    }

    method RistPoint() returns (b: seq<nat>)
      requires Valid()
      modifies this
      ensures Valid() && Follows(old(failed), old(pos), PPoint(valid, d, old(pos)), failed, pos, b)
    {
      b := Raw(32);
      if !failed && !valid(b) {
        Fail();
      }
    }

    method CheckCount(count: nat, elem: nat)
      requires Valid() && elem > 0
      modifies this`failed
      ensures Valid() && (failed <==> old(failed) || count > Quo(|d| - pos, elem) || count > MAX_COUNT)
    {
      if failed {
        return;
      }
      if count > Quo(|d| - pos, elem) {
        Fail();
      }
      if count > MAX_COUNT {
        Fail();
      }
    }

    /** A length prefix followed by its check, as every list begins. */
    method Count(elem: nat) returns (n: nat)
      requires Valid() && elem > 0
      modifies this
      ensures Valid() && Follows(old(failed), old(pos), PCount(d, old(pos), elem), failed, pos, n)
    {
      hide PInt, Quo;
      n := Int(8);
      CheckCount(n, elem);
    }

    method ReadBitVec() returns (b: BitVec)
      requires Valid()
      modifies this
      ensures Valid() && Follows(old(failed), old(pos), PBitVec(d, old(pos)), failed, pos, b)
    {
      hide PInt, Quo;
      var nbits := Int(8);
      var nw := Int(8);
      b := BitVec(nbits, []);
      if !failed && nbits > MAX_BITVEC_BITS {
        Fail();
      }
      CheckCount(nw, 8);
      if !failed && nw != (nbits + 63) / 64 {
        Fail();
      }
      if failed {
        return;
      }
      ghost var p := pos;
      var w: seq<nat> := [];
      for i := 0 to nw
        invariant Valid() && Follows(false, p, Many(WordAt(d), p, i), failed, pos, w)
      {
        ghost var q := pos;
        ghost var was := failed;
        var v := Int(8);
        assert !was ==> WordAt(d)(q) == PInt(d, q, 8);
        w := w + [v];
      }
      b := BitVec(nbits, w);
    }

    /** Rule, and the seed or the parents; the same in both parsers. */
    method ReadHead() returns (h: Head)
      requires Valid()
      modifies this
      ensures Valid() && Follows(old(failed), old(pos), PHead(d, old(pos)), failed, pos, h)
    {
      hide PInt;
      var rule := Int(1);
      if rule == BASE {
        var ztag := Int(8);
        var lo := Int(8);
        var hi := Int(8);
        h := Head(rule, ztag, lo, hi, 0, 0);
      } else {
        var pa := Int(4);
        var pb := Int(4);
        h := Head(rule, 0, 0, 0, pa, pb);
      }
    }

    method ReadRcom(ver: nat) returns (b: seq<nat>)
      requires Valid()
      modifies this
      ensures Valid()
      ensures Follows(old(failed), old(pos), if ver < 4 then PRaw(d, old(pos), 32) else Ok(ZeroBytes(), old(pos)), failed, pos, b)
    {
      if ver < 4 {
        b := Raw(32);
      } else {
        b := ZeroBytes();
      }
    }

    // ----- the sticky parser: loops run to their end, reading nothing after a failure -----

    method StickyPoints(present: bool) returns (xs: seq<seq<nat>>)
      requires Valid()
      modifies this
      ensures Valid() && Follows(old(failed), old(pos), PPoints(valid, d, old(pos), present), failed, pos, xs)
    {
      hide PCount, PPoint;
      xs := [];
      if !present {
        return;
      }
      var n := Count(32);
      if failed {
        return;
      }
      ghost var p := pos;
      for i := 0 to n
        invariant Valid() && Follows(false, p, Many(PointAt(valid, d), p, i), failed, pos, xs)
      {
        ghost var q := pos;
        var x := RistPoint();
        assert PointAt(valid, d)(q) == PPoint(valid, d, q);
        xs := xs + [x];
      }
    }

    method ReadLayer(ver: nat, slots: nat) returns (l: Layer)
      requires Valid()
      modifies this
      ensures Valid() && Follows(old(failed), old(pos), PLayer(valid, ver, slots, d, old(pos)), failed, pos, l)
    {
      hide PHead, PRaw, PPoints, MarkPublic;
      var head := ReadHead();
      var rcom := ReadRcom(ver);
      l := Layer(head, rcom, [], []);
      var rpc := StickyPoints(ver >= 3 && ver < 4);
      if failed {
        return;
      }
      var pc := StickyPoints(ver >= 2 && ver < 4);
      l := Layer(head, rcom, rpc, pc);
      if failed {
        return;
      }
      if ver >= 4 {
        l := MarkPublic(l, slots);
      }
    }

    method StickyFps() returns (xs: seq<Fp>)
      requires Valid()
      modifies this
      ensures Valid() && Follows(old(failed), old(pos), PList(d, old(pos), 16, FpAt(d)), failed, pos, xs)
    {
      hide PCount, PFp;
      xs := [];
      var n := Count(16);
      if failed {
        return;
      }
      ghost var p := pos;
      for i := 0 to n
        invariant Valid() && Follows(false, p, Many(FpAt(d), p, i), failed, pos, xs)
      {
        ghost var q := pos;
        var x := ReadFp();
        assert FpAt(d)(q) == PFp(d, q);
        xs := xs + [x];
      }
    }

    method ReadEdge() returns (e: Edge)
      requires Valid()
      modifies this
      ensures Valid() && Follows(old(failed), old(pos), PEdge(d, old(pos)), failed, pos, e)
    {
      hide PInt, PList, PBitVec;
      var layerId := Int(4);
      var idx := Int(2);
      var ch := Int(1);
      var w := StickyFps();
      e := Edge(layerId, idx, ch, w, BitVec(0, []));
      if failed {
        return;
      }
      var s := ReadBitVec();
      e := Edge(layerId, idx, ch, w, s);
    }

    method StickyEdges() returns (xs: seq<Edge>)
      requires Valid()
      modifies this
      ensures Valid() && Follows(old(failed), old(pos), PList(d, old(pos), 8, EdgeParser(d)), failed, pos, xs)
    {
      hide PCount, PEdge;
      xs := [];
      var n := Count(8);
      if failed {
        return;
      }
      ghost var p := pos;
      for i := 0 to n
        invariant Valid() && Follows(false, p, Many(EdgeParser(d), p, i), failed, pos, xs)
      {
        ghost var q := pos;
        var x := ReadEdge();
        assert EdgeParser(d)(q) == PEdge(d, q);
        xs := xs + [x];
      }
    }

    /** Returns false, having failed, when the number of slots is not allowed. */
    method ReadCipherSlots(ver: nat, strict: bool, cap: bool) returns (ok: bool, slots: nat)
      requires Valid()
      modifies this
      ensures Valid() && Follows(old(failed), old(pos), PSlots(ver, strict, cap, d, old(pos)), failed, pos, slots)
      ensures ok == !failed
    {
      hide PInt;
      slots := Int(8);
      if failed {
        return false, slots;
      }
      if slots == 0 && (strict || cap) {
        Fail();
        return false, slots;
      }
      if (cap && slots > MAX_CIPHER_SLOTS) || (strict && ver >= 4 && slots > MAX_PUBLIC_CIPHER_SLOTS) {
        Fail();
        return false, slots;
      }
      ok := true;
    }

    method CheckPublicCells(ver: nat, slots: nat, layers: nat, strict: bool, cap: bool) returns (ok: bool)
      requires Valid()
      modifies this`failed
      ensures Valid() && (failed <==> old(failed) || TooManyCells(ver, slots, layers, strict, cap))
    {
      hide Quo;
      if failed || slots == 0 {
        return false;
      }
      if (strict || cap) && ver >= 4 &&
         (slots > MAX_PUBLIC_CIPHER_CELLS || layers > Quo(MAX_PUBLIC_CIPHER_CELLS, slots)) {
        Fail();
        return false;
      }
      ok := true;
    }

    /** The count of layers, checked as both parsers do. */
    method LayerCount(ver: nat, slots: nat, strict: bool, cap: bool) returns (n: nat)
      requires Valid()
      modifies this
      ensures Valid()
      ensures Follows(old(failed), old(pos), PLayerCount(ver, slots, strict, cap, d, old(pos)), failed, pos, n)
    {
      hide PCount, TooManyCells;
      n := Count(8);
      var ok := CheckPublicCells(ver, slots, n, strict, cap);
    }

    method StickyLayers(ver: nat, slots: nat, strict: bool, cap: bool) returns (xs: seq<Layer>)
      requires Valid()
      modifies this
      ensures Valid()
      ensures Follows(old(failed), old(pos), PLayers(valid, ver, slots, strict, cap, d, old(pos)), failed, pos, xs)
    {
      hide PLayerCount, PLayer;
      xs := [];
      var n := LayerCount(ver, slots, strict, cap);
      if failed {
        return;
      }
      ghost var p := pos;
      ghost var f := LayerParser(valid, ver, slots, d);
      for i := 0 to n
        invariant Valid() && Follows(false, p, Many(f, p, i), failed, pos, xs)
      {
        ghost var q := pos;
        var x := ReadLayer(ver, slots);
        assert f(q) == PLayer(valid, ver, slots, d, q);
        xs := xs + [x];
      }
    }

    /** The body, without looking at the failure flag in between. */
    method StickyBody(ver: nat, strict: bool, cap: bool) returns (c: Cipher)
      requires Valid()
      modifies this
      ensures Valid() && Follows(old(failed), old(pos), PBody(valid, ver, strict, cap, d, old(pos)), failed, pos, c)
    {
      hide PSlots, PLayers, PList;
      var ok, slots := ReadCipherSlots(ver, strict, cap);
      var L := StickyLayers(ver, slots, strict, cap);
      var c0 := StickyFps();
      var E := StickyEdges();
      c := Cipher(L, E, c0, slots);
    }

    /** `read_cipher_raw`: a cipher embedded in other data. */
    method ReadCipherRaw(ver: nat, strict: bool, cap: bool) returns (c: Cipher)
      requires Valid()
      modifies this
      ensures Valid() && Follows(old(failed), old(pos), PCipher(valid, ver, strict, cap, d, old(pos)), failed, pos, c)
    {
      hide PBody, Structured;
      c := StickyBody(ver, strict, cap);
      if !failed && !Structured(c) {
        Fail();
      }
    }

    /** Magic, version and tag. */
    method ReadHeader(tag: nat) returns (ver: nat)
      requires Valid()
      modifies this
      ensures Valid() && Follows(old(failed), old(pos), PHeader(d, old(pos), tag), failed, pos, ver)
    {
      hide PRaw, PInt;
      ver := 0;
      var magic := Raw(4);
      if failed {
        return;
      }
      if magic != MAGIC {
        Fail();
        return;
      }
      var v := Int(1);
      if failed {
        return;
      }
      if v != 1 && v != 2 && v != 3 && v != 4 && v != 5 {
        Fail();
        return;
      }
      var t := Int(1);
      if failed {
        return;
      }
      if t != tag {
        Fail();
        return;
      }
      ver := v;
    }

    // ----- the early-exit parser -----

    method SafePoints(present: bool) returns (ok: bool, xs: seq<seq<nat>>)
      requires Valid()
      modifies this
      ensures Valid() && Follows(old(failed), old(pos), PPoints(valid, d, old(pos), present), failed, pos, xs)
      ensures ok == !failed
    {
      hide PCount, PPoint;
      xs := [];
      if !present {
        return !failed, xs;
      }
      var n := Count(32);
      if failed {
        return false, xs;
      }
      ghost var p := pos;
      ghost var f := PointAt(valid, d);
      for i := 0 to n
        invariant Valid() && !failed && Many(f, p, i) == Ok(xs, pos)
      {
        ghost var q := pos;
        var x := RistPoint();
        assert f(q) == PPoint(valid, d, q);
        if failed {
          BadStays(f, p, i + 1, n);
          return false, xs;
        }
        xs := xs + [x];
      }
      ok := true;
    }

    method ReadLayerSafe(ver: nat, slots: nat) returns (ok: bool, l: Layer)
      requires Valid()
      modifies this
      ensures Valid() && Follows(old(failed), old(pos), PLayer(valid, ver, slots, d, old(pos)), failed, pos, l)
      ensures ok == !failed
    {
      hide PHead, PRaw, PPoints, MarkPublic;
      var head := ReadHead();
      var rcom := ReadRcom(ver);
      l := Layer(head, rcom, [], []);
      var okRpc, rpc := SafePoints(ver >= 3 && ver < 4);
      if !okRpc {
        return false, l;
      }
      var okPc, pc := SafePoints(ver >= 2 && ver < 4);
      if !okPc {
        return false, l;
      }
      l := Layer(head, rcom, rpc, pc);
      if ver >= 4 {
        l := MarkPublic(l, slots);
      }
      ok := !failed;
    }

    method SafeLayers(ver: nat, slots: nat, strict: bool, cap: bool) returns (ok: bool, xs: seq<Layer>)
      requires Valid() && !failed
      modifies this
      ensures Valid() && ok == !failed
      ensures Follows(false, old(pos), PLayers(valid, ver, slots, strict, cap, d, old(pos)), failed, pos, xs)
    {
      hide PLayerCount, PLayer;
      xs := [];
      var n := LayerCount(ver, slots, strict, cap);
      if failed {
        return false, xs;
      }
      ghost var p := pos;
      ghost var f := LayerParser(valid, ver, slots, d);
      for i := 0 to n
        invariant Valid() && !failed && Many(f, p, i) == Ok(xs, pos)
      {
        ghost var q := pos;
        var okLayer, x := ReadLayerSafe(ver, slots);
        assert f(q) == PLayer(valid, ver, slots, d, q);
        if !okLayer {
          BadStays(f, p, i + 1, n);
          return false, xs;
        }
        xs := xs + [x];
      }
      ok := true;
    }

    method SafeFps() returns (ok: bool, xs: seq<Fp>)
      requires Valid() && !failed
      modifies this
      ensures Valid() && ok == !failed
      ensures Follows(false, old(pos), PList(d, old(pos), 16, FpAt(d)), failed, pos, xs)
    {
      hide PCount, PFp;
      xs := [];
      var n := Count(16);
      if failed {
        return false, xs;
      }
      ghost var p := pos;
      for i := 0 to n
        invariant Valid() && !failed && Many(FpAt(d), p, i) == Ok(xs, pos)
      {
        ghost var q := pos;
        var x := ReadFp();
        assert FpAt(d)(q) == PFp(d, q);
        if failed {
          BadStays(FpAt(d), p, i + 1, n);
          return false, xs;
        }
        xs := xs + [x];
      }
      ok := true;
    }

    method SafeEdges() returns (ok: bool, xs: seq<Edge>)
      requires Valid() && !failed
      modifies this
      ensures Valid() && ok == !failed
      ensures Follows(false, old(pos), PList(d, old(pos), 8, EdgeParser(d)), failed, pos, xs)
    {
      hide PCount, PEdge;
      xs := [];
      var n := Count(8);
      if failed {
        return false, xs;
      }
      ghost var p := pos;
      for i := 0 to n
        invariant Valid() && !failed && Many(EdgeParser(d), p, i) == Ok(xs, pos)
      {
        ghost var q := pos;
        var x := ReadEdge();
        assert EdgeParser(d)(q) == PEdge(d, q);
        if failed {
          BadStays(EdgeParser(d), p, i + 1, n);
          return false, xs;
        }
        xs := xs + [x];
      }
      ok := true;
    }

    /** `read_cipher_safe`: stops at the first failure; a structure error is reported by the result alone. */
    method ReadCipherSafe(ver: nat, strict: bool, cap: bool) returns (ok: bool, c: Cipher)
      requires Valid()
      modifies this
      ensures Valid() && (ok ==> !failed)
      ensures Follows(old(failed), old(pos), PCipher(valid, ver, strict, cap, d, old(pos)), !ok, pos, c)
    {
      hide PSlots, PLayers, PList, Structured;
      c := Cipher([], [], [], 1);
      var okSlots, slots := ReadCipherSlots(ver, strict, cap);
      if !okSlots {
        return false, c;
      }
      var okL, L := SafeLayers(ver, slots, strict, cap);
      if !okL {
        return false, c;
      }
      var okC, c0 := SafeFps();
      if !okC {
        return false, c;
      }
      var okE, E := SafeEdges();
      if !okE {
        return false, c;
      }
      c := Cipher(L, E, c0, slots);
      ok := Structured(c);
    }
  }

  /** `deserialize_cipher_checked`: the whole input is one cipher of any version. */
  method DeserializeCipherChecked(data: seq<nat>, valid: seq<nat> -> bool, strict: bool, cap: bool)
    returns (r: Option<Cipher>)
    requires IsLimbs(256, data)
    ensures r == match Deserialize(valid, strict, cap, data) case Ok(c, _) => Some(c) case Bad(_) => None
  {
    hide PHeader, PBody, Structured;
    var reader := new Reader(data, valid);
    var ver := reader.ReadHeader(TAG_CIPHER);
    if reader.failed {
      return None;
    }
    var c := reader.StickyBody(ver, strict, cap);
    if reader.failed || reader.pos != |data| || !Structured(c) {
      return None;
    }
    r := Some(c);
  }

  /**
  The two parsers, started at one place of the same input, accept together, build the same cipher
  and stop at the same place, for every version and every choice of limits.
  */
  method ParsersAgree(data: seq<nat>, valid: seq<nat> -> bool, start: nat, ver: nat, strict: bool, cap: bool)
    returns (accepted: bool, sticky: Reader, raw: Cipher, safe: Reader, ok: bool, early: Cipher)
    requires IsLimbs(256, data) && start <= |data|
    ensures accepted == !sticky.failed == ok && sticky.pos == safe.pos
    ensures accepted ==> raw == early
    ensures accepted <==> PCipher(valid, ver, strict, cap, data, start).Ok?
  {
    hide PCipher;
    sticky := new Reader(data, valid);
    sticky.pos := start;
    raw := sticky.ReadCipherRaw(ver, strict, cap);
    safe := new Reader(data, valid);
    safe.pos := start;
    ok, early := safe.ReadCipherSafe(ver, strict, cap);
    accepted := ok;
  }

  // ----- the writer -----

  class Writer {
    var buf: seq<nat>

    constructor ()
      ensures buf == []
    {
      buf := [];
    }

    method Int(n: nat, v: nat)
      modifies this
      ensures buf == old(buf) + Le(n, v)
    {
      hide Le, Quo, Rem, Pow;
      for i := 0 to n
        invariant buf == old(buf) + Le(n, v)[..i]
      {
        ByteOf(n, v, i);
        buf := buf + [Rem(Quo(v, Pow(256, i)), 256)];
      }
      assert Le(n, v)[..n] == Le(n, v);
    }

    method Raw(b: seq<nat>)
      modifies this
      ensures buf == old(buf) + b
    {
      buf := buf + b;
    }

    /** Refuses a field element that is not canonical. */
    method WriteFp(x: Fp) returns (ok: bool)
      modifies this
      ensures ok == Reduced(x) && (ok ==> buf == old(buf) + PrintFp(x))
    {
      hide Le;
      if !Reduced(x) {
        return false;
      }
      Int(8, x.lo);
      Int(8, x.hi);
      ok := true;
    }

    method WriteFps(xs: seq<Fp>) returns (ok: bool)
      modifies this
      ensures (ok <==> forall i :: 0 <= i < |xs| ==> Reduced(xs[i])) && (ok ==> buf == old(buf) + PrintList(PrintFp, xs))
    {
      hide Le, PrintFp, Reduced;
      Int(8, |xs|);
      for i := 0 to |xs|
        invariant buf == old(buf) + Le(8, |xs|) + Concat(PrintFp, xs[..i])
        invariant forall j :: 0 <= j < i ==> Reduced(xs[j])
      {
        ok := WriteFp(xs[i]);
        if !ok {
          return;
        }
        assert xs[..i + 1][..i] == xs[..i];
      }
      assert xs[..|xs|] == xs;
      ok := true;
    }

    method WriteBitVec(b: BitVec)
      modifies this
      ensures buf == old(buf) + PrintBitVec(b)
    {
      hide Le;
      Int(8, b.nbits);
      Int(8, |b.w|);
      for i := 0 to |b.w|
        invariant buf == old(buf) + Le(8, b.nbits) + Le(8, |b.w|) + Concat(PrintWord, b.w[..i])
      {
        Int(8, b.w[i]);
        assert b.w[..i + 1][..i] == b.w[..i];
      }
      assert b.w[..|b.w|] == b.w;
    }

    method WritePoints(xs: seq<seq<nat>>)
      modifies this
      ensures buf == old(buf) + PrintList(PrintPoint, xs)
    {
      hide Le;
      Int(8, |xs|);
      for i := 0 to |xs|
        invariant buf == old(buf) + Le(8, |xs|) + Concat(PrintPoint, xs[..i])
      {
        Raw(xs[i]);
        assert xs[..i + 1][..i] == xs[..i];
      }
      assert xs[..|xs|] == xs;
    }

    method WriteLayer(l: Layer)
      modifies this
      ensures buf == old(buf) + PrintLayer(l)
    {
      hide Le, PrintList;
      Int(1, l.head.rule);
      if l.head.rule == BASE {
        Int(8, l.head.ztag);
        Int(8, l.head.nonceLo);
        Int(8, l.head.nonceHi);
      } else {
        Int(4, l.head.pa);
        Int(4, l.head.pb);
      }
      Raw(l.rcom);
      WritePoints(l.rpc);
      WritePoints(l.pc);
    }

    method WriteEdge(e: Edge) returns (ok: bool)
      modifies this
      ensures (ok <==> forall i :: 0 <= i < |e.w| ==> Reduced(e.w[i])) && (ok ==> buf == old(buf) + PrintEdge(e))
    {
      hide Le, PrintList, PrintBitVec, Reduced;
      Int(4, e.layerId);
      Int(2, e.idx);
      Int(1, e.ch);
      ok := WriteFps(e.w);
      if !ok {
        return;
      }
      WriteBitVec(e.s);
    }
  }

  /** Byte i of a little-endian integer. */
  lemma {:induction false} ByteOf(n: nat, v: nat, i: nat)
    requires i < n
    ensures Pow(256, i) > 0 && Le(n, v)[i] == Rem(Quo(v, Pow(256, i)), 256)
  {
    hide Quo, Rem;
    if i == 0 {
      QuoRem(v, 1);
      MulUnits(v);
      QuoRemUnique(v, 1, v, 0);
    } else {
      ByteOf(n - 1, Quo(v, 256), i - 1);
      QuoQuo(v, 256, Pow(256, i - 1));
      MulComm(256, Pow(256, i - 1));
    }
  }

  /** Every field element of the cipher is canonical. */
  predicate AllReduced(c: Cipher) {
    && (forall i :: 0 <= i < |c.c0| ==> Reduced(c.c0[i]))
    && (forall k :: 0 <= k < |c.E| ==> EdgeReduced(c.E[k]))
  }

  predicate EdgeReduced(e: Edge) {
    forall i :: 0 <= i < |e.w| ==> Reduced(e.w[i])
  }

  method WriteLayers(w: Writer, xs: seq<Layer>)
    modifies w
    ensures w.buf == old(w.buf) + PrintList(PrintLayer, xs)
  {
    hide Le, PrintLayer;
    w.Int(8, |xs|);
    for i := 0 to |xs|
      invariant w.buf == old(w.buf) + Le(8, |xs|) + Concat(PrintLayer, xs[..i])
    {
      w.WriteLayer(xs[i]);
      assert xs[..i + 1][..i] == xs[..i];
    }
    assert xs[..|xs|] == xs;
  }

  method WriteEdges(w: Writer, xs: seq<Edge>) returns (ok: bool)
    modifies w
    ensures (ok <==> forall i :: 0 <= i < |xs| ==> EdgeReduced(xs[i]))
    ensures ok ==> w.buf == old(w.buf) + PrintList(PrintEdge, xs)
  {
    hide Le, PrintEdge;
    w.Int(8, |xs|);
    for i := 0 to |xs|
      invariant w.buf == old(w.buf) + Le(8, |xs|) + Concat(PrintEdge, xs[..i])
      invariant forall j :: 0 <= j < i ==> EdgeReduced(xs[j])
    {
      ok := w.WriteEdge(xs[i]);
      if !ok {
        return;
      }
      assert xs[..i + 1][..i] == xs[..i];
    }
    assert xs[..|xs|] == xs;
    ok := true;
  }

  /** `serialize_cipher`: None stands for the exception thrown on a bad structure or field element. */
  method SerializeCipher(c: Cipher) returns (r: Option<seq<nat>>)
    ensures r == if Structured(c) && AllReduced(c) then Some(Print(c)) else None
  {
    hide Le, PrintList, Structured, EdgeReduced, Reduced;
    if !Structured(c) {
      return None;
    }
    var w := new Writer();
    w.Raw(MAGIC);
    w.Int(1, 3);
    w.Int(1, TAG_CIPHER);
    w.Int(8, c.slots);
    WriteLayers(w, c.L);
    var ok := w.WriteFps(c.c0);
    if !ok {
      return None;
    }
    ok := WriteEdges(w, c.E);
    if !ok {
      return None;
    }
    assert w.buf == Print(c);
    r := Some(w.buf);
  }
}
