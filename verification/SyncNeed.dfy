/**
Recovery obligations (`controls/lib/sync_need.py`): what a recorded need may say, and how several
of them combine into the one guard that a new state must carry.
*/
module SyncNeed {
  import opened Options

  datatype Cause = Root | Journal | Range | Conflict

  datatype Need = Need(chain: string, cause: Cause, epoch: int, head: int, target: Option<int>)

  /** `make` accepts these fields. */
  predicate Valid(n: Need) {
    && n.chain != ""
    && n.head >= 0 && n.epoch == n.head + 1
    && (if n.cause == Range || (n.cause == Root && n.target.Some?) then n.target.Some? && n.target.value > n.head
        else n.target == None)
  }

  /** None stands for the exception. */
  function Make(chain: string, cause: Cause, epoch: int, head: int, target: Option<int>): Option<Need> {
    var n := Need(chain, cause, epoch, head, target);
    if Valid(n) then Some(n) else None
  }

  /** `choose`: a marker wins over a plan; needs of another chain are refused. */
  function Choose(marked: Option<Need>, planned: Option<Need>, chain: string): Option<Option<Need>> {
    if (marked.Some? && marked.value.chain != chain) || (planned.Some? && planned.value.chain != chain) then None
    else Some(if marked.Some? then marked else planned)
  }

  predicate IsGuard(n: Need) {
    n.cause == Root || n.cause == Range
  }

  function Guards(needs: seq<Option<Need>>): (g: seq<Need>)
    ensures forall n :: n in g <==> Some(n) in needs && IsGuard(n)
  {
    if |needs| == 0 then []
    else
      var rest := Guards(needs[..|needs| - 1]);
      var last := needs[|needs| - 1];
      assert forall n :: Some(n) in needs <==> Some(n) in needs[..|needs| - 1] || last == Some(n);
      if last.Some? && IsGuard(last.value) then rest + [last.value] else rest
  }

  function MaxHead(g: seq<Need>): (m: int)
    requires |g| > 0
    ensures (exists n :: n in g && n.head == m) && forall n :: n in g ==> n.head <= m
  {
    var last := g[|g| - 1];
    if |g| == 1 then last.head
    else
      var rest := MaxHead(g[..|g| - 1]);
      assert forall n :: n in g <==> n in g[..|g| - 1] || n == last;
      if last.head > rest then last.head else rest
  }

  predicate AnyTarget(g: seq<Need>) {
    exists n :: n in g && n.target.Some?
  }

  /** The largest of `least` and the recorded targets. */
  function MaxTarget(g: seq<Need>, least: int): (m: int)
    ensures m >= least && forall n :: n in g && n.target.Some? ==> n.target.value <= m
    ensures m == least || exists n :: n in g && n.target == Some(m)
  {
    if |g| == 0 then least
    else
      var rest := MaxTarget(g[..|g| - 1], least);
      var last := g[|g| - 1];
      assert forall n :: n in g <==> n in g[..|g| - 1] || n == last;
      if last.target.Some? && last.target.value > rest then last.target.value else rest
  }

  /** `carry_guard` on any number of needs; None is a refusal, Some(None) means no guard is needed. */
  function CarryGuard(needs: seq<Option<Need>>, chain: string): Option<Option<Need>> {
    if exists n :: n in needs && n.Some? && n.value.chain != chain then None
    else
      var g := Guards(needs);
      if |g| == 0 then Some(None)
      else
        var head := MaxHead(g);
        var target := if AnyTarget(g) then Some(MaxTarget(g, head + 1)) else None;
        var made := Make(chain, if AnyTarget(g) then Range else Root, head + 1, head, target);
        if made == None then None else Some(made)
  }

  ghost predicate Bound(needs: seq<Option<Need>>, chain: string) {
    chain != "" && forall n :: n in needs && n.Some? ==> Valid(n.value) && n.value.chain == chain
  }

  /** `n` is one of the needs that a guard must carry. */
  predicate Has(needs: seq<Option<Need>>, n: Need) {
    Some(n) in needs && IsGuard(n)
  }

  ghost predicate HeadIsMax(head: int, needs: seq<Option<Need>>) {
    (exists n :: Has(needs, n) && n.head == head) && forall n :: Has(needs, n) ==> n.head <= head
  }

  /** The target: none if no need has one, else the largest one, lifted above the head. */
  ghost predicate TargetIsMax(target: Option<int>, head: int, needs: seq<Option<Need>>) {
    && (target.Some? <==> exists n :: Has(needs, n) && n.target.Some?)
    && (target.Some? ==>
          && (forall n :: Has(needs, n) && n.target.Some? ==> n.target.value <= target.value)
          && (target.value == head + 1 || exists n :: Has(needs, n) && n.target == target))
  }

  /**
  What a guard `r` for `needs` says, without reference to the computation: it covers every recorded
  head and target, claims nothing beyond them, and is a range exactly when some need has a target.
  */
  ghost predicate IsJoin(r: Option<Need>, needs: seq<Option<Need>>, chain: string) {
    match r
    case None => forall n :: !Has(needs, n)
    case Some(v) =>
      && Valid(v) && IsGuard(v) && v.chain == chain && (v.cause == Range <==> v.target.Some?)
      && HeadIsMax(v.head, needs) && TargetIsMax(v.target, v.head, needs)
  }

  lemma HeadOfGuards(needs: seq<Option<Need>>)
    requires |Guards(needs)| > 0
    ensures HeadIsMax(MaxHead(Guards(needs)), needs)
  {
    var g := Guards(needs);
    var top :| top in g && top.head == MaxHead(g);
    assert Has(needs, top);
    forall n | Has(needs, n) ensures n in g {
    }
  }

  lemma TargetOfGuards(needs: seq<Option<Need>>, head: int)
    ensures var g := Guards(needs);
      TargetIsMax(if AnyTarget(g) then Some(MaxTarget(g, head + 1)) else None, head, needs)
  {
    var g := Guards(needs);
    assert forall n :: n in g <==> Has(needs, n);
  }

  lemma HeadNotNegative(head: int, needs: seq<Option<Need>>, chain: string)
    requires Bound(needs, chain) && HeadIsMax(head, needs)
    ensures head >= 0
  {
    var n :| Has(needs, n) && n.head == head;
    assert Some(n) in needs;
  }

  lemma GuardsAreHad(needs: seq<Option<Need>>)
    ensures |Guards(needs)| == 0 ==> forall n :: !Has(needs, n)
  {
    assert forall n :: n in Guards(needs) <==> Has(needs, n);
  }

  /** `carry_guard` never refuses valid needs of the chain, and yields their join. */
  lemma CarryIsJoin(needs: seq<Option<Need>>, chain: string)
    requires Bound(needs, chain)
    ensures CarryGuard(needs, chain).Some? && IsJoin(CarryGuard(needs, chain).value, needs, chain)
  {
    hide HeadIsMax, TargetIsMax, MaxHead, MaxTarget, Guards, AnyTarget, Has;
    GuardsAreHad(needs);
    var g := Guards(needs);
    if |g| > 0 {
      HeadOfGuards(needs);
      HeadNotNegative(MaxHead(g), needs, chain);
      TargetOfGuards(needs, MaxHead(g));
    }
  }

  /** There is one join, whatever the order and repetition of the needs. */
  lemma JoinUnique(r: Option<Need>, r': Option<Need>, needs: seq<Option<Need>>, needs': seq<Option<Need>>, chain: string)
    requires IsJoin(r, needs, chain) && IsJoin(r', needs', chain)
    requires forall n :: Has(needs, n) <==> Has(needs', n)
    ensures r == r'
  {
  }

  /** The order in which needs were recorded, and recording one twice, make no difference. */
  lemma CarryOrderFree(needs: seq<Option<Need>>, needs': seq<Option<Need>>, chain: string)
    requires Bound(needs, chain) && Bound(needs', chain)
    requires forall n :: n in needs <==> n in needs'
    ensures CarryGuard(needs, chain) == CarryGuard(needs', chain)
  {
    hide CarryGuard, IsJoin;
    CarryIsJoin(needs, chain);
    CarryIsJoin(needs', chain);
    JoinUnique(CarryGuard(needs, chain).value, CarryGuard(needs', chain).value, needs, needs', chain);
  }

  lemma HeadOfJoins(head: int, a: Option<Need>, b: Option<Need>, xs: seq<Option<Need>>, ys: seq<Option<Need>>, chain: string)
    requires IsJoin(a, xs, chain) && IsJoin(b, ys, chain) && HeadIsMax(head, [a, b])
    ensures HeadIsMax(head, xs + ys)
  {
    hide TargetIsMax;
    assert forall n :: Has(xs + ys, n) <==> Has(xs, n) || Has(ys, n);
    assert a in [a, b] && b in [a, b];
    assert a.Some? ==> Has([a, b], a.value);
    assert b.Some? ==> Has([a, b], b.value);
    var top :| Has([a, b], top) && top.head == head;
  }

  lemma TargetOfJoins(target: Option<int>, head: int, a: Option<Need>, b: Option<Need>,
                      xs: seq<Option<Need>>, ys: seq<Option<Need>>, chain: string)
    requires IsJoin(a, xs, chain) && IsJoin(b, ys, chain)
    requires TargetIsMax(target, head, [a, b]) && HeadIsMax(head, [a, b]) && (target.Some? ==> target.value > head)
    ensures TargetIsMax(target, head, xs + ys)
  {
    assert forall n :: Has(xs + ys, n) <==> Has(xs, n) || Has(ys, n);
    assert a in [a, b] && b in [a, b];
    assert a.Some? ==> Has([a, b], a.value);
    assert b.Some? ==> Has([a, b], b.value);
    if target.Some? {
      var m :| Has([a, b], m) && m.target.Some?;
      if target.value != head + 1 {
        var u :| Has([a, b], u) && u.target == target;
        assert u.head <= head;
      }
    }
  }

  /** A join of joins is the join of everything: carrying a carried guard loses nothing. */
  lemma JoinOfJoins(r: Option<Need>, a: Option<Need>, b: Option<Need>,
                    xs: seq<Option<Need>>, ys: seq<Option<Need>>, chain: string)
    requires IsJoin(a, xs, chain) && IsJoin(b, ys, chain) && IsJoin(r, [a, b], chain)
    ensures IsJoin(r, xs + ys, chain)
  {
    hide HeadIsMax, TargetIsMax;
    if r.Some? {
      HeadOfJoins(r.value.head, a, b, xs, ys, chain);
      TargetOfJoins(r.value.target, r.value.head, a, b, xs, ys, chain);
    } else {
      assert forall n :: Has(xs + ys, n) <==> Has(xs, n) || Has(ys, n);
      assert a in [a, b] && b in [a, b];
      assert forall n :: a == Some(n) && IsGuard(n) ==> Has([a, b], n);
      assert forall n :: b == Some(n) && IsGuard(n) ==> Has([a, b], n);
    }
  }

  /** `carry_guard` is associative: guards may be carried in any grouping. */
  lemma CarryAssociative(xs: seq<Option<Need>>, ys: seq<Option<Need>>, chain: string)
    requires Bound(xs, chain) && Bound(ys, chain)
    ensures CarryGuard(xs, chain).Some? && CarryGuard(ys, chain).Some?
    ensures CarryGuard([CarryGuard(xs, chain).value, CarryGuard(ys, chain).value], chain) == CarryGuard(xs + ys, chain)
  {
    hide CarryGuard, HeadIsMax, TargetIsMax;
    CarryIsJoin(xs, chain);
    CarryIsJoin(ys, chain);
    CarryIsJoin(xs + ys, chain);
    var a, b := CarryGuard(xs, chain).value, CarryGuard(ys, chain).value;
    CarryIsJoin([a, b], chain);
    var r := CarryGuard([a, b], chain).value;
    JoinOfJoins(r, a, b, xs, ys, chain);
    JoinUnique(r, CarryGuard(xs + ys, chain).value, xs + ys, xs + ys, chain);
  }
}
