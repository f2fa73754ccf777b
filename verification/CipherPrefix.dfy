/**
Reading does not look ahead: what any parser of the cipher format accepts at the front of a file, it
accepts in the same way when more bytes follow. So accepted files of all five versions are prefix-free.
*/
module CipherPrefix {
  import opened Limbs
  import opened CipherFormat

  /** A result that is not changed by further bytes. */
  predicate Stays<T(==)>(r: Parsed<T>, longer: Parsed<T>) {
    r.Ok? ==> longer == r
  }

  ghost predicate AlwaysStays<T(!new)>(f: nat -> Parsed<T>, g: nat -> Parsed<T>) {
    forall p: nat :: Stays(f(p), g(p))
  }

  lemma IntStays(d: seq<nat>, e: seq<nat>, p: nat, n: nat)
    requires d <= e
    ensures Stays(PInt(d, p, n), PInt(e, p, n)) && Stays(PRaw(d, p, n), PRaw(e, p, n))
    ensures PInt(d, p, n).Ok? ==> PInt(d, p, n).pos <= |d|
  {
    if p + n <= |d| {
      assert e[..|d|] == d;
      assert e[p..p + n] == d[p..p + n];
    }
  }

  lemma FpStays(d: seq<nat>, e: seq<nat>, p: nat)
    requires d <= e
    ensures Stays(PFp(d, p), PFp(e, p))
  {
    hide PInt, Reduced;
    IntStays(d, e, p, 8);
    if PInt(d, p, 8).Ok? {
      IntStays(d, e, PInt(d, p, 8).pos, 8);
    }
  }

  /** A count that fits the bytes left fits when more are left. */
  lemma CountStays(d: seq<nat>, e: seq<nat>, p: nat, elem: nat)
    requires d <= e && elem > 0
    ensures Stays(PCount(d, p, elem), PCount(e, p, elem))
  {
    hide PInt, Mul, Quo;
    IntStays(d, e, p, 8);
    var r := PInt(d, p, 8);
    if r.Ok? {
      Fits(|d| - r.pos, elem, r.val);
      Fits(|e| - r.pos, elem, r.val);
    }
  }

  lemma {:induction false} ManyStays<T(!new)>(f: nat -> Parsed<T>, g: nat -> Parsed<T>, p: nat, n: nat)
    requires AlwaysStays(f, g)
    ensures Stays(Many(f, p, n), Many(g, p, n))
  {
    if n > 0 {
      ManyStays(f, g, p, n - 1);
    }
  }

  lemma ListStays<T(!new)>(d: seq<nat>, e: seq<nat>, p: nat, elem: nat, f: nat -> Parsed<T>, g: nat -> Parsed<T>)
    requires d <= e && elem > 0 && AlwaysStays(f, g)
    ensures Stays(PList(d, p, elem, f), PList(e, p, elem, g))
  {
    hide PCount, AlwaysStays, Many;
    CountStays(d, e, p, elem);
    var r := PCount(d, p, elem);
    if r.Ok? {
      ManyStays(f, g, r.pos, r.val);
    }
  }

  lemma ElementsStay(valid: seq<nat> -> bool, d: seq<nat>, e: seq<nat>)
    requires d <= e
    ensures AlwaysStays(WordAt(d), WordAt(e)) && AlwaysStays(FpAt(d), FpAt(e))
    ensures AlwaysStays(PointAt(valid, d), PointAt(valid, e))
  {
    hide PInt, PFp, PRaw;
    forall p: nat
      ensures Stays(WordAt(d)(p), WordAt(e)(p)) && Stays(FpAt(d)(p), FpAt(e)(p))
      ensures Stays(PointAt(valid, d)(p), PointAt(valid, e)(p))
    {
      IntStays(d, e, p, 8);
      IntStays(d, e, p, 32);
      FpStays(d, e, p);
    }
  }

  lemma BitVecStays(d: seq<nat>, e: seq<nat>, p: nat)
    requires d <= e
    ensures Stays(PBitVec(d, p), PBitVec(e, p))
  {
    hide PInt, Quo, Mul, Many, AlwaysStays;
    ElementsStay(b => true, d, e);
    IntStays(d, e, p, 8);
    var r := PInt(d, p, 8);
    if r.Ok? {
      IntStays(d, e, r.pos, 8);
      var s := PInt(d, r.pos, 8);
      if s.Ok? {
        Fits(|d| - s.pos, 8, s.val);
        Fits(|e| - s.pos, 8, s.val);
        ManyStays(WordAt(d), WordAt(e), s.pos, s.val);
      }
    }
  }

  lemma HeadStays(d: seq<nat>, e: seq<nat>, p: nat)
    requires d <= e
    ensures Stays(PHead(d, p), PHead(e, p))
  {
    hide PInt;
    forall q: nat, n: nat
      ensures Stays(PInt(d, q, n), PInt(e, q, n))
    {
      IntStays(d, e, q, n);
    }
  }

  lemma PointsStay(valid: seq<nat> -> bool, d: seq<nat>, e: seq<nat>, p: nat, present: bool)
    requires d <= e
    ensures Stays(PPoints(valid, d, p, present), PPoints(valid, e, p, present))
  {
    hide PList, AlwaysStays, PointAt;
    ElementsStay(valid, d, e);
    ListStays(d, e, p, 32, PointAt(valid, d), PointAt(valid, e));
  }

  lemma LayerStays(valid: seq<nat> -> bool, ver: nat, slots: nat, d: seq<nat>, e: seq<nat>, p: nat)
    requires d <= e
    ensures Stays(PLayer(valid, ver, slots, d, p), PLayer(valid, ver, slots, e, p))
  {
    hide PHead, PRaw, PPoints, MarkPublic;
    HeadStays(d, e, p);
    var head := PHead(d, p);
    if head.Ok? {
      IntStays(d, e, head.pos, 32);
      var rcom := if ver < 4 then PRaw(d, head.pos, 32) else Ok(ZeroBytes(), head.pos);
      if rcom.Ok? {
        PointsStay(valid, d, e, rcom.pos, ver == 3);
        var rpc := PPoints(valid, d, rcom.pos, ver == 3);
        if rpc.Ok? {
          PointsStay(valid, d, e, rpc.pos, 2 <= ver < 4);
        }
      }
    }
  }

  lemma LayersStay(valid: seq<nat> -> bool, ver: nat, slots: nat, strict: bool, cap: bool, d: seq<nat>, e: seq<nat>,
                   p: nat)
    requires d <= e
    ensures Stays(PLayers(valid, ver, slots, strict, cap, d, p), PLayers(valid, ver, slots, strict, cap, e, p))
  {
    hide PLayer, PCount, Many;
    forall q: nat
      ensures Stays(LayerParser(valid, ver, slots, d)(q), LayerParser(valid, ver, slots, e)(q))
    {
      LayerStays(valid, ver, slots, d, e, q);
    }
    CountStays(d, e, p, 8);
    var r := PCount(d, p, 8);
    if r.Ok? {
      ManyStays(LayerParser(valid, ver, slots, d), LayerParser(valid, ver, slots, e), r.pos, r.val);
    }
  }

  lemma EdgeStays(d: seq<nat>, e: seq<nat>, p: nat)
    requires d <= e
    ensures Stays(PEdge(d, p), PEdge(e, p))
  {
    hide PInt, PList, PBitVec, AlwaysStays, FpAt;
    ElementsStay(b => true, d, e);
    IntStays(d, e, p, 4);
    var r1 := PInt(d, p, 4);
    if r1.Ok? {
      IntStays(d, e, r1.pos, 2);
      var r2 := PInt(d, r1.pos, 2);
      if r2.Ok? {
        IntStays(d, e, r2.pos, 1);
        var r3 := PInt(d, r2.pos, 1);
        if r3.Ok? {
          ListStays(d, e, r3.pos, 16, FpAt(d), FpAt(e));
          var r4 := PList(d, r3.pos, 16, FpAt(d));
          if r4.Ok? {
            BitVecStays(d, e, r4.pos);
          }
        }
      }
    }
  }

  lemma EdgesStay(d: seq<nat>, e: seq<nat>, p: nat)
    requires d <= e
    ensures Stays(PList(d, p, 8, EdgeParser(d)), PList(e, p, 8, EdgeParser(e)))
  {
    hide PEdge, PList;
    forall q: nat
      ensures Stays(EdgeParser(d)(q), EdgeParser(e)(q))
    {
      EdgeStays(d, e, q);
    }
    ListStays(d, e, p, 8, EdgeParser(d), EdgeParser(e));
  }

  /** The body of any version, limits or not. */
  lemma BodyStays(valid: seq<nat> -> bool, ver: nat, strict: bool, cap: bool, d: seq<nat>, e: seq<nat>, p: nat)
    requires d <= e
    ensures Stays(PBody(valid, ver, strict, cap, d, p), PBody(valid, ver, strict, cap, e, p))
  {
    hide PInt, PLayers, PList, AlwaysStays, FpAt, EdgeParser;
    IntStays(d, e, p, 8);
    ElementsStay(valid, d, e);
    forall q: nat, slots: nat
      ensures Stays(PLayers(valid, ver, slots, strict, cap, d, q), PLayers(valid, ver, slots, strict, cap, e, q))
    {
      LayersStay(valid, ver, slots, strict, cap, d, e, q);
    }
    forall q: nat
      ensures Stays(PList(d, q, 16, FpAt(d)), PList(e, q, 16, FpAt(e)))
      ensures Stays(PList(d, q, 8, EdgeParser(d)), PList(e, q, 8, EdgeParser(e)))
    {
      ListStays(d, e, q, 16, FpAt(d), FpAt(e));
      EdgesStay(d, e, q);
    }
  }

  lemma HeaderStays(d: seq<nat>, e: seq<nat>, p: nat, tag: nat)
    requires d <= e
    ensures Stays(PHeader(d, p, tag), PHeader(e, p, tag))
  {
    hide PInt, PRaw;
    forall q: nat, n: nat
      ensures Stays(PInt(d, q, n), PInt(e, q, n)) && Stays(PRaw(d, q, n), PRaw(e, q, n))
    {
      IntStays(d, e, q, n);
    }
  }

  /** No accepted file of any version is a proper prefix of another accepted file. */
  lemma PrefixFree(valid: seq<nat> -> bool, strict: bool, cap: bool, d: seq<nat>, k: nat)
    requires k < |d| && Deserialize(valid, strict, cap, d).Ok?
    ensures Deserialize(valid, strict, cap, d[..k]).Bad?
  {
    hide PHeader, PBody, Structured;
    var e := d[..k];
    HeaderStays(e, d, 0, TAG_CIPHER);
    var r := PHeader(e, 0, TAG_CIPHER);
    if r.Ok? {
      BodyStays(valid, r.val, strict, cap, e, d, r.pos);
    }
  }
}
