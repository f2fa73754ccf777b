/**
The binary cipher format of `pvac_ffi/pvac_serialize.hpp` as a grammar: what the bytes of every
part look like, a reference parser for all five versions that also says where it stops, and the
proof that version 3 is a bijection between well-formed ciphers and accepted byte strings.
*/
module CipherFormat {
  import opened Limbs

  // ----- entities (pvac/include/pvac/core/types.hpp) -----

  datatype Fp = Fp(lo: nat, hi: nat)

  datatype BitVec = BitVec(nbits: nat, w: seq<nat>)

  /** The part of a layer whose use depends on its rule: the seed of a BASE layer, the parents of a PROD one. */
  datatype Head = Head(rule: nat, ztag: nat, nonceLo: nat, nonceHi: nat, pa: nat, pb: nat)

  datatype Layer = Layer(head: Head, rcom: seq<nat>, rpc: seq<seq<nat>>, pc: seq<seq<nat>>)

  datatype Edge = Edge(layerId: nat, idx: nat, ch: nat, w: seq<Fp>, s: BitVec)

  datatype Cipher = Cipher(L: seq<Layer>, E: seq<Edge>, c0: seq<Fp>, slots: nat)

  const BASE: nat := 0
  const PROD: nat := 1
  const SGN_P: nat := 0
  const SGN_M: nat := 1
  const MAX_COUNT: nat := 0x100_0000
  const MAX_BITVEC_BITS: nat := 0x10_0000
  const MAX_CIPHER_SLOTS: nat := 0x1_0000
  const MAX_PUBLIC_CIPHER_SLOTS: nat := 8
  const MAX_PUBLIC_CIPHER_CELLS: nat := 0x1000
  const WORD: nat := 0x1_0000_0000_0000_0000

  /** A field element below 2^127 - 1. */
  predicate Reduced(x: Fp) {
    x.hi < 0x8000_0000_0000_0000 && (x.lo != WORD - 1 || x.hi != 0x7FFF_FFFF_FFFF_FFFF)
  }

  predicate LayerOk(L: seq<Layer>, slots: nat, i: nat)
    requires i < |L|
  {
    var layer := L[i];
    && (layer.head.rule == BASE || layer.head.rule == PROD)
    && (layer.head.rule == PROD ==> layer.head.pa < i && layer.head.pb < i && |layer.pc| == 0 && |layer.rpc| == 0)
    && (|layer.pc| > 0 ==> |layer.pc| == slots)
    && (|layer.rpc| > 0 ==> |layer.rpc| == slots)
  }

  predicate EdgeOk(c: Cipher, e: Edge) {
    e.layerId < |c.L| && (e.ch == SGN_P || e.ch == SGN_M) && |e.w| == c.slots
  }

  /** `cipher_structure_error` finds nothing. */
  predicate Structured(c: Cipher) {
    && c.slots > 0
    && (|c.c0| > 0 ==> |c.c0| == c.slots)
    && (forall i :: 0 <= i < |c.L| ==> LayerOk(c.L, c.slots, i))
    && (forall i :: 0 <= i < |c.E| ==> EdgeOk(c, c.E[i]))
  }

  // ----- results of a parser: a value and the position behind it, or where it gave up -----

  datatype Parsed<T> = Ok(val: T, pos: nat) | Bad(pos: nat)
  {
    predicate IsFailure() {
      Bad?
    }

    function PropagateFailure<U>(): Parsed<U>
      requires Bad?
    {
      Bad(pos)
    }

    function Extract(): (T, nat)
      requires Ok?
    {
      (val, pos)
    }
  }

  /** The bytes `s` stand in `d` at position p. */
  predicate At(d: seq<nat>, p: nat, s: seq<nat>) {
    p + |s| <= |d| && d[p..p + |s|] == s
  }

  lemma AtSplit(d: seq<nat>, p: nat, s: seq<nat>, t: seq<nat>)
    ensures At(d, p, s + t) <==> At(d, p, s) && At(d, p + |s|, t)
  {
    if p + |s| + |t| <= |d| {
      assert d[p..p + |s + t|] == d[p..p + |s|] + d[p + |s|..p + |s| + |t|];
      if d[p..p + |s + t|] == s + t {
        assert d[p..p + |s|] == (s + t)[..|s|] == s;
        assert d[p + |s|..p + |s| + |t|] == (s + t)[|s|..] == t;
      }
    }
  }

  /**
  A parser `f` over the bytes `d` and a printer `pr` are exact for the values that `wf` allows:
  the parser succeeds exactly on printed values.
  */
  ghost predicate Exact<T(!new)>(d: seq<nat>, f: nat -> Parsed<T>, wf: T -> bool, pr: T -> seq<nat>) {
    && (forall p: nat :: f(p).Ok? ==> wf(f(p).val) && At(d, p, pr(f(p).val)) && f(p).pos == p + |pr(f(p).val)|)
    && (forall p: nat, x :: wf(x) && At(d, p, pr(x)) ==> f(p) == Ok(x, p + |pr(x)|))
  }

  // ----- little-endian integers -----

  function Le(n: nat, v: nat): (s: seq<nat>)
    ensures |s| == n
  {
    ToLimbs(256, n, v)
  }

  function PInt(d: seq<nat>, p: nat, n: nat): Parsed<nat> {
    if p + n <= |d| then Ok(Val(256, d[p..p + n]), p + n) else Bad(p)
  }

  function Pow256(n: nat): nat {
    Pow(256, n)
  }

  lemma Powers()
    ensures Pow256(1) == 256 && Pow256(2) == 0x1_0000 && Pow256(4) == 0x1_0000_0000 && Pow256(8) == WORD
  {
    hide Pow;
    PowSmall(256);
    PowAdd(256, 1, 1);
    PowAdd(256, 2, 2);
    PowAdd(256, 4, 4);
  }

  /** Reading n bytes gives v exactly where v is written with n bytes. */
  lemma IntAt(d: seq<nat>, p: nat, n: nat, v: nat)
    requires IsLimbs(256, d)
    ensures PInt(d, p, n) == Ok(v, p + n) <==> v < Pow256(n) && At(d, p, Le(n, v))
    ensures PInt(d, p, n).Ok? ==> PInt(d, p, n).pos == p + n
  {
    hide Val, Pow, ToLimbs;
    if PInt(d, p, n) == Ok(v, p + n) {
      var s := d[p..p + n];
      ValBound(256, s);
      ToLimbsVal(256, n, v);
      ValInjective(256, s, Le(n, v));
    } else if v < Pow256(n) && At(d, p, Le(n, v)) {
      ToLimbsVal(256, n, v);
    }
  }

  function PrintWord(v: nat): seq<nat> {
    Le(8, v)
  }

  predicate WordOk(v: nat) {
    v < Pow256(8)
  }

  function WordAt(d: seq<nat>): nat -> Parsed<nat> {
    (p: nat) => PInt(d, p, 8)
  }

  lemma WordExact(d: seq<nat>)
    requires IsLimbs(256, d)
    ensures Exact(d, WordAt(d), WordOk, PrintWord)
  {
    hide PInt, Pow256, Le;
    forall p: nat | WordAt(d)(p).Ok?
      ensures var r := WordAt(d)(p); WordOk(r.val) && At(d, p, PrintWord(r.val)) && r.pos == p + |PrintWord(r.val)|
    {
      IntAt(d, p, 8, PInt(d, p, 8).val);
    }
    forall p: nat, v: nat | WordOk(v) && At(d, p, PrintWord(v))
      ensures WordAt(d)(p) == Ok(v, p + |PrintWord(v)|)
    {
      IntAt(d, p, 8, v);
    }
  }

  // ----- field elements and points -----

  function PFp(d: seq<nat>, p: nat): Parsed<Fp> {
    var (lo, q) :- PInt(d, p, 8);
    var (hi, q') :- PInt(d, q, 8);
    if Reduced(Fp(lo, hi)) then Ok(Fp(lo, hi), q') else Bad(q')
  }

  function PrintFp(x: Fp): seq<nat> {
    Le(8, x.lo) + Le(8, x.hi)
  }

  predicate FpOk(x: Fp) {
    x.lo < Pow256(8) && x.hi < Pow256(8) && Reduced(x)
  }

  function FpAt(d: seq<nat>): nat -> Parsed<Fp> {
    (p: nat) => PFp(d, p)
  }

  lemma FpExact(d: seq<nat>)
    requires IsLimbs(256, d)
    ensures Exact(d, FpAt(d), FpOk, PrintFp)
  {
    hide PInt, Pow256, Le, At;
    forall p: nat | FpAt(d)(p).Ok?
      ensures var r := FpAt(d)(p); FpOk(r.val) && At(d, p, PrintFp(r.val)) && r.pos == p + |PrintFp(r.val)|
    {
      var x := PFp(d, p).val;
      IntAt(d, p, 8, x.lo);
      IntAt(d, p + 8, 8, x.hi);
      AtSplit(d, p, Le(8, x.lo), Le(8, x.hi));
    }
    forall p: nat, x | FpOk(x) && At(d, p, PrintFp(x))
      ensures FpAt(d)(p) == Ok(x, p + |PrintFp(x)|)
    {
      AtSplit(d, p, Le(8, x.lo), Le(8, x.hi));
      IntAt(d, p, 8, x.lo);
      IntAt(d, p + 8, 8, x.hi);
    }
  }

  function PRaw(d: seq<nat>, p: nat, n: nat): Parsed<seq<nat>> {
    if p + n <= |d| then Ok(d[p..p + n], p + n) else Bad(p)
  }

  /** `valid` says which 32 bytes encode a group element (section 4.3.1 of RFC 9496). */
  function PPoint(valid: seq<nat> -> bool, d: seq<nat>, p: nat): Parsed<seq<nat>> {
    var (b, q) :- PRaw(d, p, 32);
    if valid(b) then Ok(b, q) else Bad(q)
  }

  function PrintPoint(b: seq<nat>): seq<nat> {
    b
  }

  function PointOk(valid: seq<nat> -> bool): seq<nat> -> bool {
    b => |b| == 32 && IsLimbs(256, b) && valid(b)
  }

  function PointAt(valid: seq<nat> -> bool, d: seq<nat>): nat -> Parsed<seq<nat>> {
    (p: nat) => PPoint(valid, d, p)
  }

  lemma PointExact(valid: seq<nat> -> bool, d: seq<nat>)
    requires IsLimbs(256, d)
    ensures Exact(d, PointAt(valid, d), PointOk(valid), PrintPoint)
  {
  }

  // ----- lists: a count, checked against the bytes that are left, then the elements -----

  function Concat<T>(pr: T -> seq<nat>, xs: seq<T>): seq<nat> {
    if |xs| == 0 then [] else Concat(pr, xs[..|xs| - 1]) + pr(xs[|xs| - 1])
  }

  function Many<T>(f: nat -> Parsed<T>, p: nat, n: nat): Parsed<seq<T>> {
    if n == 0 then Ok([], p)
    else
      var (xs, q) :- Many(f, p, n - 1);
      var (x, q') :- f(q);
      Ok(xs + [x], q')
  }

  ghost predicate All<T>(wf: T -> bool, xs: seq<T>) {
    forall i :: 0 <= i < |xs| ==> wf(xs[i])
  }

  lemma ExactReads<T(!new)>(d: seq<nat>, f: nat -> Parsed<T>, wf: T -> bool, pr: T -> seq<nat>, p: nat)
    requires Exact(d, f, wf, pr)
    ensures f(p).Ok? ==> wf(f(p).val) && At(d, p, pr(f(p).val)) && f(p).pos == p + |pr(f(p).val)|
  {
  }

  lemma ExactPrinted<T(!new)>(d: seq<nat>, f: nat -> Parsed<T>, wf: T -> bool, pr: T -> seq<nat>, p: nat, x: T)
    requires Exact(d, f, wf, pr) && wf(x) && At(d, p, pr(x))
    ensures f(p) == Ok(x, p + |pr(x)|)
  {
  }

  lemma OneMore<T>(f: nat -> Parsed<T>, p: nat, n: nat, xs: seq<T>, q: nat, x: T, q': nat)
    requires Many(f, p, n) == Ok(xs, q) && f(q) == Ok(x, q')
    ensures Many(f, p, n + 1) == Ok(xs + [x], q')
  {
  }

  lemma ConcatSnoc<T>(pr: T -> seq<nat>, xs: seq<T>, x: T)
    ensures Concat(pr, xs + [x]) == Concat(pr, xs) + pr(x)
  {
    assert (xs + [x])[..|xs|] == xs;
  }

  lemma LastOne<T>(f: nat -> Parsed<T>, p: nat, n: nat)
    requires Many(f, p, n + 1).Ok?
    ensures Many(f, p, n).Ok?
    ensures var front := Many(f, p, n);
      f(front.pos).Ok? && Many(f, p, n + 1) == Ok(front.val + [f(front.pos).val], f(front.pos).pos)
  {
  }

  lemma NoElements<T>(d: seq<nat>, f: nat -> Parsed<T>, wf: T -> bool, pr: T -> seq<nat>, p: nat)
    requires p <= |d|
    ensures Many(f, p, 0) == Ok([], p) && All(wf, []) && Concat(pr, []) == [] && At(d, p, [])
  {
  }

  /** What has been read of a list, as one fact. */
  ghost predicate Read<T>(d: seq<nat>, wf: T -> bool, pr: T -> seq<nat>, p: nat, n: nat, r: Parsed<seq<T>>) {
    r.Ok? && |r.val| == n && All(wf, r.val) && At(d, p, Concat(pr, r.val)) && r.pos == p + |Concat(pr, r.val)|
  }

  lemma ReadOneMore<T>(d: seq<nat>, wf: T -> bool, pr: T -> seq<nat>, p: nat, n: nat, r: Parsed<seq<T>>, x: T)
    requires Read(d, wf, pr, p, n, r) && wf(x) && At(d, r.pos, pr(x))
    ensures Read(d, wf, pr, p, n + 1, Ok(r.val + [x], r.pos + |pr(x)|))
  {
    hide At, Concat;
    ConcatSnoc(pr, r.val, x);
    AtSplit(d, p, Concat(pr, r.val), pr(x));
  }

  lemma {:induction false} ManyReads<T(!new)>(d: seq<nat>, f: nat -> Parsed<T>, wf: T -> bool, pr: T -> seq<nat>,
                                              p: nat, n: nat)
    requires Exact(d, f, wf, pr) && p <= |d| && Many(f, p, n).Ok?
    ensures Read(d, wf, pr, p, n, Many(f, p, n))
    decreases n
  {
    hide At, Exact, Concat, Many, All;
    if n == 0 {
      NoElements(d, f, wf, pr, p);
    } else {
      hide Read;
      LastOne(f, p, n - 1);
      ManyReads(d, f, wf, pr, p, n - 1);
      var front := Many(f, p, n - 1);
      ExactReads(d, f, wf, pr, front.pos);
      ReadOneMore(d, wf, pr, p, n - 1, front, f(front.pos).val);
    }
  }

  lemma {:induction false} ManyPrinted<T(!new)>(d: seq<nat>, f: nat -> Parsed<T>, wf: T -> bool, pr: T -> seq<nat>,
                                                p: nat, xs: seq<T>)
    requires Exact(d, f, wf, pr) && All(wf, xs) && At(d, p, Concat(pr, xs))
    ensures Many(f, p, |xs|) == Ok(xs, p + |Concat(pr, xs)|)
    decreases |xs|
  {
    if |xs| == 0 {
      assert Many(f, p, 0) == Ok([], p);
    } else {
      hide At, Exact, Many, Concat;
      var n := |xs| - 1;
      var front := xs[..n];
      assert xs == front + [xs[n]];
      ConcatSnoc(pr, front, xs[n]);
      AtSplit(d, p, Concat(pr, front), pr(xs[n]));
      ManyPrinted(d, f, wf, pr, p, front);
      var q := p + |Concat(pr, front)|;
      ExactPrinted(d, f, wf, pr, q, xs[n]);
      OneMore(f, p, n, front, q, xs[n], q + |pr(xs[n])|);
    }
  }

  lemma {:induction false} ManyLength<T(!new)>(f: nat -> Parsed<T>, p: nat, n: nat)
    ensures Many(f, p, n).Ok? ==> |Many(f, p, n).val| == n
    decreases n
  {
    if n > 0 {
      ManyLength(f, p, n - 1);
    }
  }

  lemma {:induction false} ConcatLength<T(!new)>(wf: T -> bool, pr: T -> seq<nat>, xs: seq<T>, elem: nat)
    requires All(wf, xs) && forall x :: wf(x) ==> |pr(x)| >= elem
    ensures |Concat(pr, xs)| >= Mul(|xs|, elem)
  {
    if |xs| > 0 {
      ConcatLength(wf, pr, xs[..|xs| - 1], elem);
      MulAdd(|xs| - 1, 1, elem);
    }
  }

  /** A count that passes `check_count`. */
  function PCount(d: seq<nat>, p: nat, elem: nat): Parsed<nat>
    requires elem > 0
  {
    var (n, q) :- PInt(d, p, 8);
    if q > |d| || n > Quo(|d| - q, elem) || n > MAX_COUNT then Bad(q) else Ok(n, q)
  }

  lemma CountAt(d: seq<nat>, p: nat, elem: nat, n: nat)
    requires IsLimbs(256, d) && elem > 0
    ensures PCount(d, p, elem) == Ok(n, p + 8)
       <==> n <= MAX_COUNT && At(d, p, Le(8, n)) && p + 8 + Mul(n, elem) <= |d|
    ensures PCount(d, p, elem).Ok? ==> PCount(d, p, elem).pos == p + 8
  {
    hide Mul, Quo, Val, Pow256, Le;
    IntAt(d, p, 8, n);
    Powers();
    if p + 8 <= |d| {
      Fits(|d| - (p + 8), elem, n);
    }
  }

  lemma Fits(room: nat, elem: nat, n: nat)
    requires elem > 0
    ensures n <= Quo(room, elem) <==> Mul(n, elem) <= room
  {
    hide *;
    QuoRem(room, elem);
    if n <= Quo(room, elem) {
      MulMono(n, Quo(room, elem), elem);
    } else {
      MulStrict(Quo(room, elem), n, elem);
    }
  }

  function PList<T>(d: seq<nat>, p: nat, elem: nat, f: nat -> Parsed<T>): Parsed<seq<T>>
    requires elem > 0
  {
    var (n, q) :- PCount(d, p, elem);
    Many(f, q, n)
  }

  function PrintList<T>(pr: T -> seq<nat>, xs: seq<T>): seq<nat> {
    Le(8, |xs|) + Concat(pr, xs)
  }

  ghost predicate ListOk<T>(wf: T -> bool, xs: seq<T>) {
    |xs| <= MAX_COUNT && All(wf, xs)
  }

  /** Lists are exact when every element takes at least the number of bytes the count check assumes. */
  lemma ListAt<T(!new)>(d: seq<nat>, p: nat, elem: nat, f: nat -> Parsed<T>, wf: T -> bool, pr: T -> seq<nat>,
                        xs: seq<T>, q: nat)
    requires IsLimbs(256, d) && elem > 0 && Exact(d, f, wf, pr) && forall x :: wf(x) ==> |pr(x)| >= elem
    ensures PList(d, p, elem, f) == Ok(xs, q)
       <==> ListOk(wf, xs) && At(d, p, PrintList(pr, xs)) && q == p + |PrintList(pr, xs)|
  {
    hide PInt, Pow256, Le, At, Mul, Exact, Many, Concat, PCount;
    if PList(d, p, elem, f) == Ok(xs, q) {
      var n := PCount(d, p, elem).val;
      CountAt(d, p, elem, n);
      AtInside(d, p, Le(8, n));
      ManyReads(d, f, wf, pr, p + 8, n);
      AtSplit(d, p, Le(8, n), Concat(pr, xs));
    }
    if ListOk(wf, xs) && At(d, p, PrintList(pr, xs)) && q == p + |PrintList(pr, xs)| {
      AtSplit(d, p, Le(8, |xs|), Concat(pr, xs));
      ConcatLength(wf, pr, xs, elem);
      AtInside(d, p + 8, Concat(pr, xs));
      CountAt(d, p, elem, |xs|);
      ManyPrinted(d, f, wf, pr, p + 8, xs);
    }
  }

  lemma AtInside(d: seq<nat>, p: nat, s: seq<nat>)
    requires At(d, p, s)
    ensures p + |s| <= |d|
  {
  }

  // ----- bit vectors -----

  function PBitVec(d: seq<nat>, p: nat): Parsed<BitVec> {
    var (nbits, q) :- PInt(d, p, 8);
    var (nw, q') :- PInt(d, q, 8);
    if nbits > MAX_BITVEC_BITS || q' > |d| || nw > Quo(|d| - q', 8) || nw > MAX_COUNT || nw != (nbits + 63) / 64
    then Bad(q')
    else
      var (w, q'') :- Many(WordAt(d), q', nw);
      Ok(BitVec(nbits, w), q'')
  }

  function PrintBitVec(b: BitVec): seq<nat> {
    Le(8, b.nbits) + PrintList(PrintWord, b.w)
  }

  ghost predicate BitVecOk(b: BitVec) {
    b.nbits <= MAX_BITVEC_BITS && |b.w| == (b.nbits + 63) / 64 && All(WordOk, b.w)
  }

  /** A bit vector is its length and a list of words whose count the length fixes. */
  lemma BitVecIsLengthAndList(d: seq<nat>, p: nat, b: BitVec, q: nat)
    ensures PBitVec(d, p) == Ok(b, q)
       <==> PInt(d, p, 8) == Ok(b.nbits, p + 8) && PList(d, p + 8, 8, WordAt(d)) == Ok(b.w, q)
            && b.nbits <= MAX_BITVEC_BITS && |b.w| == (b.nbits + 63) / 64
  {
    hide Quo, Val;
    assert PInt(d, p, 8).Ok? ==> PInt(d, p, 8).pos == p + 8;
    var n := PInt(d, p + 8, 8);
    if n.Ok? {
      ManyLength(WordAt(d), n.pos, n.val);
    }
  }

  lemma BitVecAt(d: seq<nat>, p: nat, b: BitVec, q: nat)
    requires IsLimbs(256, d)
    ensures PBitVec(d, p) == Ok(b, q) <==> BitVecOk(b) && At(d, p, PrintBitVec(b)) && q == p + |PrintBitVec(b)|
  {
    hide PInt, Pow256, Le, At, Exact, PList, PrintList, All, PBitVec;
    BitVecIsLengthAndList(d, p, b, q);
    Powers();
    WordExact(d);
    ListAt(d, p + 8, 8, WordAt(d), WordOk, PrintWord, b.w, q);
    IntAt(d, p, 8, b.nbits);
    AtSplit(d, p, Le(8, b.nbits), PrintList(PrintWord, b.w));
  }

  // ----- layers -----

  function ZeroBytes(): (z: seq<nat>)
    ensures |z| == 32
  {
    seq(32, i => 0)
  }

  function PHead(d: seq<nat>, p: nat): Parsed<Head> {
    var (rule, q) :- PInt(d, p, 1);
    if rule == BASE then
      var (ztag, q1) :- PInt(d, q, 8);
      var (lo, q2) :- PInt(d, q1, 8);
      var (hi, q3) :- PInt(d, q2, 8);
      Ok(Head(rule, ztag, lo, hi, 0, 0), q3)
    else
      var (pa, q1) :- PInt(d, q, 4);
      var (pb, q2) :- PInt(d, q1, 4);
      Ok(Head(rule, 0, 0, 0, pa, pb), q2)
  }

  function PrintHead(h: Head): (s: seq<nat>)
    ensures |s| >= 9
  {
    Le(1, h.rule) +
    (if h.rule == BASE then Le(8, h.ztag) + (Le(8, h.nonceLo) + Le(8, h.nonceHi)) else Le(4, h.pa) + Le(4, h.pb))
  }

  predicate HeadOk(h: Head) {
    && h.rule < 256
    && (if h.rule == BASE then
          h.ztag < WORD && h.nonceLo < WORD && h.nonceHi < WORD && h.pa == 0 && h.pb == 0
        else
          h.pa < 0x1_0000_0000 && h.pb < 0x1_0000_0000 && h.ztag == 0 && h.nonceLo == 0 && h.nonceHi == 0)
  }

  lemma HeadAt(d: seq<nat>, p: nat, h: Head, q: nat)
    requires IsLimbs(256, d)
    ensures PHead(d, p) == Ok(h, q) <==> HeadOk(h) && At(d, p, PrintHead(h)) && q == p + |PrintHead(h)|
  {
    hide PInt, Pow256, Le, At;
    Powers();
    IntAt(d, p, 1, h.rule);
    assert PInt(d, p, 1).Ok? ==> PInt(d, p, 1).pos == p + 1;
    if h.rule == BASE {
      IntAt(d, p + 1, 8, h.ztag);
      IntAt(d, p + 9, 8, h.nonceLo);
      IntAt(d, p + 17, 8, h.nonceHi);
      AtSplit(d, p, Le(1, h.rule), Le(8, h.ztag) + (Le(8, h.nonceLo) + Le(8, h.nonceHi)));
      AtSplit(d, p + 1, Le(8, h.ztag), Le(8, h.nonceLo) + Le(8, h.nonceHi));
      AtSplit(d, p + 9, Le(8, h.nonceLo), Le(8, h.nonceHi));
    } else {
      IntAt(d, p + 1, 4, h.pa);
      IntAt(d, p + 5, 4, h.pb);
      AtSplit(d, p, Le(1, h.rule), Le(4, h.pa) + Le(4, h.pb));
      AtSplit(d, p + 1, Le(4, h.pa), Le(4, h.pb));
    }
  }

  /** From version 4 on a base layer carries no points; the reader fills in placeholders. */
  function MarkPublic(l: Layer, slots: nat): Layer {
    if l.head.rule == BASE then Layer(l.head, ZeroBytes(), seq(slots, i => ZeroBytes()), []) else l
  }

  function PPoints(valid: seq<nat> -> bool, d: seq<nat>, p: nat, present: bool): Parsed<seq<seq<nat>>> {
    if present then PList(d, p, 32, PointAt(valid, d)) else Ok([], p)
  }

  function PLayer(valid: seq<nat> -> bool, ver: nat, slots: nat, d: seq<nat>, p: nat): Parsed<Layer> {
    var (head, q) :- PHead(d, p);
    var (rcom, q1) :- if ver < 4 then PRaw(d, q, 32) else Ok(ZeroBytes(), q);
    var (rpc, q2) :- PPoints(valid, d, q1, ver == 3);
    var (pc, q3) :- PPoints(valid, d, q2, 2 <= ver < 4);
    var l := Layer(head, rcom, rpc, pc);
    Ok(if ver >= 4 then MarkPublic(l, slots) else l, q3)
  }

  function PrintLayer(l: Layer): seq<nat> {
    PrintHead(l.head) + (l.rcom + (PrintList(PrintPoint, l.rpc) + PrintList(PrintPoint, l.pc)))
  }

  predicate Bytes32(b: seq<nat>) {
    |b| == 32 && IsLimbs(256, b)
  }

  ghost predicate LayerFits(valid: seq<nat> -> bool, l: Layer) {
    HeadOk(l.head) && Bytes32(l.rcom) && ListOk(PointOk(valid), l.rpc) && ListOk(PointOk(valid), l.pc)
  }

  lemma RawAt(d: seq<nat>, p: nat, b: seq<nat>)
    requires IsLimbs(256, d)
    ensures PRaw(d, p, 32) == Ok(b, p + 32) <==> Bytes32(b) && At(d, p, b)
    ensures PRaw(d, p, 32).Ok? ==> PRaw(d, p, 32).pos == p + 32
  {
  }

  /** A version-3 layer. */
  lemma LayerAt(valid: seq<nat> -> bool, d: seq<nat>, p: nat, l: Layer, q: nat, slots: nat)
    requires IsLimbs(256, d)
    ensures PLayer(valid, 3, slots, d, p) == Ok(l, q)
       <==> LayerFits(valid, l) && At(d, p, PrintLayer(l)) && q == p + |PrintLayer(l)|
  {
    hide PRaw, At, Exact, PList, PrintList, ListOk, PHead, PrintHead, HeadOk, Bytes32;
    var q0 := p + |PrintHead(l.head)|;
    var q1 := q0 + 32;
    var q2 := q1 + |PrintList(PrintPoint, l.rpc)|;
    PointExact(valid, d);
    HeadAt(d, p, l.head, q0);
    RawAt(d, q0, l.rcom);
    ListAt(d, q1, 32, PointAt(valid, d), PointOk(valid), PrintPoint, l.rpc, q2);
    ListAt(d, q2, 32, PointAt(valid, d), PointOk(valid), PrintPoint, l.pc, q);
    LengthOfBytes(l.rcom);
    AtSplit(d, p, PrintHead(l.head), l.rcom + (PrintList(PrintPoint, l.rpc) + PrintList(PrintPoint, l.pc)));
    AtSplit(d, q0, l.rcom, PrintList(PrintPoint, l.rpc) + PrintList(PrintPoint, l.pc));
    AtSplit(d, q1, PrintList(PrintPoint, l.rpc), PrintList(PrintPoint, l.pc));
    if PLayer(valid, 3, slots, d, p) == Ok(l, q) {
      LayerPositions(valid, d, p, l, q, slots, q0, q1, q2);
    }
  }

  lemma LengthOfBytes(b: seq<nat>)
    ensures Bytes32(b) ==> |b| == 32
  {
  }

  /** Where the parts of a parsed layer ended. */
  lemma LayerPositions(valid: seq<nat> -> bool, d: seq<nat>, p: nat, l: Layer, q: nat, slots: nat,
                       q0: nat, q1: nat, q2: nat)
    requires IsLimbs(256, d) && PLayer(valid, 3, slots, d, p) == Ok(l, q)
    requires q0 == p + |PrintHead(l.head)| && q1 == q0 + 32 && q2 == q1 + |PrintList(PrintPoint, l.rpc)|
    ensures PHead(d, p) == Ok(l.head, q0) && PRaw(d, q0, 32) == Ok(l.rcom, q1)
    ensures PList(d, q1, 32, PointAt(valid, d)) == Ok(l.rpc, q2)
  {
    hide PRaw, At, Exact, PList, PrintList, ListOk, PHead, PrintHead, HeadOk, Bytes32;
    var h := PHead(d, p);
    HeadAt(d, p, l.head, h.pos);
    RawAt(d, q0, l.rcom);
    PointExact(valid, d);
    var r := PList(d, q1, 32, PointAt(valid, d));
    ListAt(d, q1, 32, PointAt(valid, d), PointOk(valid), PrintPoint, l.rpc, r.pos);
  }

  function LayerParser(valid: seq<nat> -> bool, ver: nat, slots: nat, d: seq<nat>): nat -> Parsed<Layer> {
    (p: nat) => PLayer(valid, ver, slots, d, p)
  }

  ghost function LayerChecker(valid: seq<nat> -> bool): Layer -> bool {
    l => LayerFits(valid, l)
  }

  lemma LayerExact(valid: seq<nat> -> bool, d: seq<nat>, slots: nat)
    requires IsLimbs(256, d)
    ensures Exact(d, LayerParser(valid, 3, slots, d), LayerChecker(valid), PrintLayer)
  {
    hide PLayer, PrintLayer, LayerFits, At;
    var f := LayerParser(valid, 3, slots, d);
    forall p: nat | f(p).Ok?
      ensures LayerFits(valid, f(p).val) && At(d, p, PrintLayer(f(p).val)) && f(p).pos == p + |PrintLayer(f(p).val)|
    {
      LayerAt(valid, d, p, f(p).val, f(p).pos, slots);
    }
    forall p: nat, l | LayerFits(valid, l) && At(d, p, PrintLayer(l))
      ensures f(p) == Ok(l, p + |PrintLayer(l)|)
    {
      LayerAt(valid, d, p, l, p + |PrintLayer(l)|, slots);
    }
  }

  // ----- edges -----

  function PEdge(d: seq<nat>, p: nat): Parsed<Edge> {
    var (layerId, q1) :- PInt(d, p, 4);
    var (idx, q2) :- PInt(d, q1, 2);
    var (ch, q3) :- PInt(d, q2, 1);
    var (w, q4) :- PList(d, q3, 16, FpAt(d));
    var (s, q5) :- PBitVec(d, q4);
    Ok(Edge(layerId, idx, ch, w, s), q5)
  }

  function PrintEdge(e: Edge): seq<nat> {
    Le(4, e.layerId) + (Le(2, e.idx) + (Le(1, e.ch) + (PrintList(PrintFp, e.w) + PrintBitVec(e.s))))
  }

  ghost predicate EdgeFits(e: Edge) {
    && e.layerId < 0x1_0000_0000 && e.idx < 0x1_0000 && e.ch < 256
    && ListOk(FpOk, e.w) && BitVecOk(e.s)
  }

  lemma EdgeAt(d: seq<nat>, p: nat, e: Edge, q: nat)
    requires IsLimbs(256, d)
    ensures PEdge(d, p) == Ok(e, q) <==> EdgeFits(e) && At(d, p, PrintEdge(e)) && q == p + |PrintEdge(e)|
  {
    hide PInt, Pow256, Le, At, Exact, PList, PrintList, ListOk, PBitVec, PrintBitVec, BitVecOk;
    Powers();
    FpExact(d);
    IntAt(d, p, 4, e.layerId);
    IntAt(d, p + 4, 2, e.idx);
    IntAt(d, p + 6, 1, e.ch);
    var q4 := p + 7 + |PrintList(PrintFp, e.w)|;
    ListAt(d, p + 7, 16, FpAt(d), FpOk, PrintFp, e.w, q4);
    BitVecAt(d, q4, e.s, q);
    var r := PList(d, p + 7, 16, FpAt(d));
    ListAt(d, p + 7, 16, FpAt(d), FpOk, PrintFp, e.w, r.pos);
    AtSplit(d, p, Le(4, e.layerId), Le(2, e.idx) + (Le(1, e.ch) + (PrintList(PrintFp, e.w) + PrintBitVec(e.s))));
    AtSplit(d, p + 4, Le(2, e.idx), Le(1, e.ch) + (PrintList(PrintFp, e.w) + PrintBitVec(e.s)));
    AtSplit(d, p + 6, Le(1, e.ch), PrintList(PrintFp, e.w) + PrintBitVec(e.s));
    AtSplit(d, p + 7, PrintList(PrintFp, e.w), PrintBitVec(e.s));
  }

  function EdgeParser(d: seq<nat>): nat -> Parsed<Edge> {
    (p: nat) => PEdge(d, p)
  }

  ghost function EdgeChecker(): Edge -> bool {
    e => EdgeFits(e)
  }

  lemma EdgeExact(d: seq<nat>)
    requires IsLimbs(256, d)
    ensures Exact(d, EdgeParser(d), EdgeChecker(), PrintEdge)
  {
    hide PEdge, PrintEdge, EdgeFits, At;
    var f := EdgeParser(d);
    forall p: nat | f(p).Ok?
      ensures EdgeFits(f(p).val) && At(d, p, PrintEdge(f(p).val)) && f(p).pos == p + |PrintEdge(f(p).val)|
    {
      EdgeAt(d, p, f(p).val, f(p).pos);
    }
    forall p: nat, e | EdgeFits(e) && At(d, p, PrintEdge(e))
      ensures f(p) == Ok(e, p + |PrintEdge(e)|)
    {
      EdgeAt(d, p, e, p + |PrintEdge(e)|);
    }
  }

  // ----- ciphers -----

  /** The number of slots; `strict` and `cap` switch on the limits. */
  function PSlots(ver: nat, strict: bool, cap: bool, d: seq<nat>, p: nat): Parsed<nat> {
    var (v, q) :- PInt(d, p, 8);
    if (v == 0 && (strict || cap)) || (cap && v > MAX_CIPHER_SLOTS) ||
       (strict && ver >= 4 && v > MAX_PUBLIC_CIPHER_SLOTS)
    then Bad(q)
    else Ok(v, q)
  }

  /** From version 4 on, slots times layers is limited. */
  predicate TooManyCells(ver: nat, slots: nat, layers: nat, strict: bool, cap: bool) {
    slots > 0 && (strict || cap) && ver >= 4 &&
    (slots > MAX_PUBLIC_CIPHER_CELLS || layers > Quo(MAX_PUBLIC_CIPHER_CELLS, slots))
  }

  /** The count of layers with both its checks. */
  function PLayerCount(ver: nat, slots: nat, strict: bool, cap: bool, d: seq<nat>, p: nat): Parsed<nat> {
    var (n, q) :- PCount(d, p, 8);
    if TooManyCells(ver, slots, n, strict, cap) then Bad(q) else Ok(n, q)
  }

  function PLayers(valid: seq<nat> -> bool, ver: nat, slots: nat, strict: bool, cap: bool, d: seq<nat>, p: nat)
    : Parsed<seq<Layer>>
  {
    var (n, q) :- PLayerCount(ver, slots, strict, cap, d, p);
    Many(LayerParser(valid, ver, slots, d), q, n)
  }

  /** Everything behind the header, before the structure check. */
  function PBody(valid: seq<nat> -> bool, ver: nat, strict: bool, cap: bool, d: seq<nat>, p: nat): Parsed<Cipher> {
    var (slots, q1) :- PSlots(ver, strict, cap, d, p);
    var (L, q2) :- PLayers(valid, ver, slots, strict, cap, d, q1);
    var (c0, q3) :- PList(d, q2, 16, FpAt(d));
    var (E, q4) :- PList(d, q3, 8, EdgeParser(d));
    Ok(Cipher(L, E, c0, slots), q4)
  }

  /** A cipher embedded in other data. */
  function PCipher(valid: seq<nat> -> bool, ver: nat, strict: bool, cap: bool, d: seq<nat>, p: nat): Parsed<Cipher> {
    var (c, q) :- PBody(valid, ver, strict, cap, d, p);
    if Structured(c) then Ok(c, q) else Bad(q)
  }

  function PrintBody(c: Cipher): seq<nat> {
    Le(8, c.slots) +
    (PrintList(PrintLayer, c.L) + (PrintList(PrintFp, c.c0) + PrintList(PrintEdge, c.E)))
  }

  /** What version 3 can carry: every number fits its field, every list its cap, every point is valid. */
  ghost predicate CipherFits(valid: seq<nat> -> bool, strict: bool, cap: bool, c: Cipher) {
    && c.slots < WORD && (cap ==> c.slots <= MAX_CIPHER_SLOTS) && (strict || cap ==> c.slots > 0)
    && ListOk(LayerChecker(valid), c.L) && ListOk(FpOk, c.c0) && ListOk(EdgeChecker(), c.E)
  }

  lemma PrintLayerLength(valid: seq<nat> -> bool, l: Layer)
    ensures LayerFits(valid, l) ==> |PrintLayer(l)| >= 8
  {
  }

  lemma SlotsAt(strict: bool, cap: bool, d: seq<nat>, p: nat, v: nat)
    requires IsLimbs(256, d)
    ensures PSlots(3, strict, cap, d, p) == Ok(v, p + 8)
       <==> v < WORD && (cap ==> v <= MAX_CIPHER_SLOTS) && (strict || cap ==> v > 0) && At(d, p, Le(8, v))
    ensures PSlots(3, strict, cap, d, p).Ok? ==> PSlots(3, strict, cap, d, p).pos == p + 8
  {
    hide PInt, Pow256, Le, At;
    Powers();
    IntAt(d, p, 8, v);
  }

  /** For version 3 the layers are an ordinary list. */
  lemma LayersAt(valid: seq<nat> -> bool, slots: nat, strict: bool, cap: bool, d: seq<nat>, p: nat,
                 L: seq<Layer>, q: nat)
    requires IsLimbs(256, d)
    ensures PLayers(valid, 3, slots, strict, cap, d, p) == Ok(L, q)
       <==> ListOk(LayerChecker(valid), L) && At(d, p, PrintList(PrintLayer, L)) && q == p + |PrintList(PrintLayer, L)|
  {
    hide PInt, At, Exact, Many, PLayer, PrintLayer, PrintList, ListOk, PCount, LayerFits;
    LayerExact(valid, d, slots);
    forall l | LayerChecker(valid)(l) ensures |PrintLayer(l)| >= 8 {
      PrintLayerLength(valid, l);
    }
    ListAt(d, p, 8, LayerParser(valid, 3, slots, d), LayerChecker(valid), PrintLayer, L, q);
  }

  lemma EdgesAt(d: seq<nat>, p: nat, E: seq<Edge>, q: nat)
    requires IsLimbs(256, d)
    ensures PList(d, p, 8, EdgeParser(d)) == Ok(E, q)
       <==> ListOk(EdgeChecker(), E) && At(d, p, PrintList(PrintEdge, E)) && q == p + |PrintList(PrintEdge, E)|
  {
    hide At, Exact, PList, PEdge, PrintEdge, PrintList, ListOk, EdgeFits;
    EdgeExact(d);
    forall e | EdgeChecker()(e) ensures |PrintEdge(e)| >= 8 {
      PrintEdgeLength(e);
    }
    ListAt(d, p, 8, EdgeParser(d), EdgeChecker(), PrintEdge, E, q);
  }

  lemma PrintEdgeLength(e: Edge)
    ensures |PrintEdge(e)| >= 8
  {
  }

  /** The body of a version-3 cipher is read exactly where it was printed. */
  lemma BodyAt(valid: seq<nat> -> bool, strict: bool, cap: bool, d: seq<nat>, p: nat, c: Cipher, q: nat)
    requires IsLimbs(256, d)
    ensures PBody(valid, 3, strict, cap, d, p) == Ok(c, q)
       <==> CipherFits(valid, strict, cap, c) && At(d, p, PrintBody(c)) && q == p + |PrintBody(c)|
  {
    hide PInt, At, Exact, PList, PSlots, PLayers, PrintList, ListOk, Le;
    var bl, bc, be := PrintList(PrintLayer, c.L), PrintList(PrintFp, c.c0), PrintList(PrintEdge, c.E);
    var q2 := p + 8 + |bl|;
    var q3 := q2 + |bc|;
    SlotsAt(strict, cap, d, p, c.slots);
    LayersAt(valid, c.slots, strict, cap, d, p + 8, c.L, q2);
    LayersAt(valid, c.slots, strict, cap, d, p + 8, c.L, PLayers(valid, 3, c.slots, strict, cap, d, p + 8).pos);
    FpExact(d);
    ListAt(d, q2, 16, FpAt(d), FpOk, PrintFp, c.c0, q3);
    ListAt(d, q2, 16, FpAt(d), FpOk, PrintFp, c.c0, PList(d, q2, 16, FpAt(d)).pos);
    EdgesAt(d, q3, c.E, q);
    AtSplit(d, p, Le(8, c.slots), bl + (bc + be));
    AtSplit(d, p + 8, bl, bc + be);
    AtSplit(d, q2, bc, be);
  }

  // ----- whole files -----

  const MAGIC: seq<nat> := [80, 86, 65, 67]
  const TAG_CIPHER: nat := 0

  /** Magic, version and type tag; the value is the version. */
  function PHeader(d: seq<nat>, p: nat, tag: nat): Parsed<nat> {
    var (magic, q) :- PRaw(d, p, 4);
    if magic != MAGIC then Bad(q)
    else
      var (ver, q1) :- PInt(d, q, 1);
      if !(1 <= ver <= 5) then Bad(q1)
      else
        var (t, q2) :- PInt(d, q1, 1);
        if t != tag then Bad(q2) else Ok(ver, q2)
  }

  /** The whole file is one cipher. */
  function Deserialize(valid: seq<nat> -> bool, strict: bool, cap: bool, d: seq<nat>): Parsed<Cipher> {
    var (ver, q) :- PHeader(d, 0, TAG_CIPHER);
    var (c, q1) :- PBody(valid, ver, strict, cap, d, q);
    if q1 != |d| || !Structured(c) then Bad(q1) else Ok(c, q1)
  }

  function Header(ver: nat, tag: nat): seq<nat> {
    MAGIC + (Le(1, ver) + Le(1, tag))
  }

  function Print(c: Cipher): seq<nat> {
    Header(3, TAG_CIPHER) + PrintBody(c)
  }

  /** The version byte of an accepted file. */
  predicate IsVersion3(d: seq<nat>) {
    |d| > 4 && d[4] == 3
  }

  lemma HeaderAt(d: seq<nat>)
    requires IsLimbs(256, d)
    ensures PHeader(d, 0, TAG_CIPHER) == Ok(3, 6) <==> At(d, 0, Header(3, TAG_CIPHER))
    ensures PHeader(d, 0, TAG_CIPHER).Ok? ==> PHeader(d, 0, TAG_CIPHER).pos == 6 <= |d|
    ensures PHeader(d, 0, TAG_CIPHER).Ok? && IsVersion3(d) <==> PHeader(d, 0, TAG_CIPHER) == Ok(3, 6)
  {
    hide Pow256, Le, Val;
    Powers();
    AtSplit(d, 0, MAGIC, Le(1, 3) + Le(1, TAG_CIPHER));
    AtSplit(d, 4, Le(1, 3), Le(1, TAG_CIPHER));
    IntAt(d, 4, 1, 3);
    IntAt(d, 5, 1, TAG_CIPHER);
    if |d| > 4 {
      assert d[4..5] == [d[4]];
      ValOne(256, d[4]);
    }
  }

  /**
  Version 3 is a bijection: a file of that version is accepted with cipher `c` exactly when `c` is
  well formed and the file is what `c` prints as.
  */
  lemma AcceptedIsPrinted(valid: seq<nat> -> bool, strict: bool, cap: bool, d: seq<nat>, c: Cipher)
    requires IsLimbs(256, d)
    ensures Deserialize(valid, strict, cap, d) == Ok(c, |d|) && IsVersion3(d)
       <==> CipherFits(valid, strict, cap, c) && Structured(c) && d == Print(c)
  {
    hide PBody, CipherFits, PrintBody, Structured, PHeader, Header, IsVersion3;
    HeaderAt(d);
    BodyAt(valid, strict, cap, d, 6, c, |d|);
    AtSplit(d, 0, Header(3, TAG_CIPHER), PrintBody(c));
    assert |Header(3, TAG_CIPHER)| == 6 by {
      HeaderLength();
    }
    WholeFile(d, Print(c));
  }

  lemma HeaderLength()
    ensures |Header(3, TAG_CIPHER)| == 6
  {
  }

  lemma WholeFile(d: seq<nat>, s: seq<nat>)
    ensures d == s <==> At(d, 0, s) && |s| == |d|
  {
  }

  // ----- consequences -----

  /** What reading keeps of a layer head: the fields that its rule uses. */
  function NormalHead(h: Head): Head {
    if h.rule == BASE then Head(h.rule, h.ztag, h.nonceLo, h.nonceHi, 0, 0) else Head(h.rule, 0, 0, 0, h.pa, h.pb)
  }

  function NormalLayers(L: seq<Layer>): (N: seq<Layer>)
    ensures |N| == |L| && forall i :: 0 <= i < |L| ==> N[i] == L[i].(head := NormalHead(L[i].head))
  {
    if |L| == 0 then [] else
      NormalLayers(L[..|L| - 1]) + [L[|L| - 1].(head := NormalHead(L[|L| - 1].head))]
  }

  function Normal(c: Cipher): Cipher {
    c.(L := NormalLayers(c.L))
  }

  lemma {:induction false} NormalPrintsTheSame(L: seq<Layer>)
    ensures Concat(PrintLayer, NormalLayers(L)) == Concat(PrintLayer, L)
  {
    hide PrintList, Le;
    if |L| > 0 {
      var n := |L| - 1;
      NormalPrintsTheSame(L[..n]);
      assert NormalLayers(L)[..n] == NormalLayers(L[..n]);
    }
  }

  lemma NormalIsStructured(c: Cipher)
    ensures Structured(Normal(c)) <==> Structured(c)
  {
    forall i | 0 <= i < |c.L| ensures LayerOk(Normal(c).L, c.slots, i) <==> LayerOk(c.L, c.slots, i) {
    }
    forall i | 0 <= i < |c.E| ensures EdgeOk(Normal(c), c.E[i]) <==> EdgeOk(c, c.E[i]) {
    }
  }

  lemma LeBytes(n: nat, v: nat)
    ensures IsLimbs(256, Le(n, v))
  {
    if n > 0 {
      LeBytes(n - 1, Quo(v, 256));
    }
  }

  lemma {:induction false} ConcatBytes<T(!new)>(wf: T -> bool, pr: T -> seq<nat>, xs: seq<T>)
    requires All(wf, xs) && forall x :: wf(x) ==> IsLimbs(256, pr(x))
    ensures IsLimbs(256, Concat(pr, xs))
  {
    if |xs| > 0 {
      ConcatBytes(wf, pr, xs[..|xs| - 1]);
    }
  }

  lemma ListBytes<T(!new)>(wf: T -> bool, pr: T -> seq<nat>, xs: seq<T>)
    requires ListOk(wf, xs) && forall x :: wf(x) ==> IsLimbs(256, pr(x))
    ensures IsLimbs(256, PrintList(pr, xs))
  {
    hide Concat, Le;
    ConcatBytes(wf, pr, xs);
    LeBytes(8, |xs|);
  }

  lemma LayerBytes(valid: seq<nat> -> bool, l: Layer)
    requires LayerFits(valid, l)
    ensures IsLimbs(256, PrintLayer(l))
  {
    hide PrintList, ListOk, Le;
    LeBytes(1, l.head.rule);
    LeBytes(8, l.head.ztag);
    LeBytes(8, l.head.nonceLo);
    LeBytes(8, l.head.nonceHi);
    LeBytes(4, l.head.pa);
    LeBytes(4, l.head.pb);
    ListBytes(PointOk(valid), PrintPoint, l.rpc);
    ListBytes(PointOk(valid), PrintPoint, l.pc);
  }

  lemma FpBytes(x: Fp)
    ensures IsLimbs(256, PrintFp(x))
  {
    hide Le;
    LeBytes(8, x.lo);
    LeBytes(8, x.hi);
  }

  lemma EdgeBytes(e: Edge)
    requires EdgeFits(e)
    ensures IsLimbs(256, PrintEdge(e))
  {
    hide PrintList, ListOk, Le, FpOk, WordOk;
    LeBytes(4, e.layerId);
    LeBytes(2, e.idx);
    LeBytes(1, e.ch);
    LeBytes(8, e.s.nbits);
    forall x ensures IsLimbs(256, PrintFp(x)) {
      FpBytes(x);
    }
    ListBytes(FpOk, PrintFp, e.w);
    forall v ensures IsLimbs(256, PrintWord(v)) {
      LeBytes(8, v);
    }
    WordsOk(e.s);
    ListBytes(WordOk, PrintWord, e.s.w);
  }

  lemma WordsOk(b: BitVec)
    requires BitVecOk(b)
    ensures ListOk(WordOk, b.w)
  {
  }

  lemma PrintBytes(valid: seq<nat> -> bool, strict: bool, cap: bool, c: Cipher)
    requires CipherFits(valid, strict, cap, c)
    ensures IsLimbs(256, Print(c))
  {
    hide PrintList, ListOk, Le, FpOk, PrintFp, PrintLayer, PrintEdge, LayerFits, EdgeFits;
    LeBytes(1, 3);
    LeBytes(1, TAG_CIPHER);
    LeBytes(8, c.slots);
    forall l | LayerChecker(valid)(l) ensures IsLimbs(256, PrintLayer(l)) {
      LayerBytes(valid, l);
    }
    forall x ensures IsLimbs(256, PrintFp(x)) {
      FpBytes(x);
    }
    forall e | EdgeChecker()(e) ensures IsLimbs(256, PrintEdge(e)) {
      EdgeBytes(e);
    }
    ListBytes(LayerChecker(valid), PrintLayer, c.L);
    ListBytes(FpOk, PrintFp, c.c0);
    ListBytes(EdgeChecker(), PrintEdge, c.E);
  }

  /** Reading back what was printed gives the cipher, without the fields its layer rules do not use. */
  lemma RoundTrip(valid: seq<nat> -> bool, strict: bool, cap: bool, c: Cipher)
    requires CipherFits(valid, strict, cap, Normal(c)) && Structured(c)
    ensures Deserialize(valid, strict, cap, Print(c)) == Ok(Normal(c), |Print(c)|)
  {
    hide CipherFits, Structured, Deserialize, Le, Concat;
    NormalPrintsTheSame(c.L);
    assert Print(Normal(c)) == Print(c);
    NormalIsStructured(c);
    PrintBytes(valid, strict, cap, Normal(c));
    AcceptedIsPrinted(valid, strict, cap, Print(c), Normal(c));
  }

  /** Printing what was read gives the file back. */
  lemma ReadThenPrint(valid: seq<nat> -> bool, strict: bool, cap: bool, d: seq<nat>)
    requires IsLimbs(256, d) && Deserialize(valid, strict, cap, d).Ok? && IsVersion3(d)
    ensures Print(Deserialize(valid, strict, cap, d).val) == d
  {
    hide PBody, PHeader, Structured, Print;
    AcceptedIsPrinted(valid, strict, cap, d, Deserialize(valid, strict, cap, d).val);
  }
}
