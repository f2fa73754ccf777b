/**
The decisions of `recover_state` (`controls/lib/validator_recover.py`): what a new state must reach,
and the whole command on a volume.
*/
module RecoverPlan {
  import opened Options
  import opened SyncNeed
  import opened Recover

  /**
  What the command starts from: its arguments, the recorded markers and plan (already decoded, so each
  is valid and of this chain), the head of the present state if it is ready, and the network tip.
  */
  datatype Inputs = Inputs(chain: string, replace: bool, plan: Option<Need>, minEpoch: Option<nat>,
                           conflict: Option<Need>, pending: Option<Need>, saved: Option<Need>,
                           head: Option<int>, checkpoint: nat, limit: int, tip: Option<int>)

  /** `history_limit` lies in this range. */
  const HISTORY_LIMIT: int := 4096

  ghost predicate ValidInputs(i: Inputs) {
    && Bound([i.plan, i.conflict, i.pending, i.saved], i.chain)
    && (i.conflict.Some? ==> i.conflict.value.cause == Conflict)
    && (i.saved.Some? ==> i.saved.value.cause == Range)
    && 1 <= i.limit <= HISTORY_LIMIT
  }

  /** `snapshot_lag`. */
  function Lag(i: Inputs): int {
    if 3000 < i.limit - 1 then 3000 else i.limit - 1
  }

  /** `read_need`. */
  function Marked(i: Inputs): Option<Need> {
    if i.conflict.Some? then i.conflict else i.pending
  }

  function Target(n: Option<Need>): int {
    if n.Some? && n.value.target.Some? then n.value.target.value else 0
  }

  /** The recorded plan replaces the argument when there is none or it reaches further. */
  function WiderPlan(i: Inputs): Option<Need> {
    if i.saved.Some? && (i.plan == None || (i.plan.value.cause == Range && Target(i.saved) > Target(i.plan)))
    then i.saved else i.plan
  }

  /** A plan that the present state can still catch up with is dropped. */
  function LivePlan(i: Inputs): Option<Need> {
    var p := WiderPlan(i);
    if i.head.Some? && p.Some? && p.value.cause == Range && Target(p) - i.head.value <= i.limit then None else p
  }

  function NeedOf(i: Inputs): Option<Need> {
    var n := Choose(Marked(i), LivePlan(i), i.chain);
    if n.Some? then n.value else None
  }

  function GuardOf(i: Inputs): Option<Need> {
    var g := CarryGuard([i.pending, LivePlan(i), i.saved], i.chain);
    if g.Some? then g.value else None
  }

  function Max(a: int, b: int): int {
    if a < b then b else a
  }

  /** `held`: the present state cannot be trusted or cannot catch up. */
  function Held(i: Inputs): bool {
    && i.head.Some? && NeedOf(i).Some?
    && (var n := NeedOf(i).value;
        || n.cause == Conflict
        || ((n.cause == Root || n.cause == Range) &&
            (i.head.value < n.epoch || (n.target.Some? && n.target.value - i.head.value > i.limit)))
        || i.head.value < n.head)
  }

  /** The tip is asked for only when the state may be replaced. */
  function TipUsed(i: Inputs): Option<int> {
    if Held(i) || i.replace || i.head == None then i.tip else None
  }

  /** The epoch a new state must reach. */
  function Floor(i: Inputs): int {
    var f0 := Max(i.checkpoint, if i.minEpoch.Some? then i.minEpoch.value else 0);
    var f1 := if NeedOf(i).Some? then Max(Max(f0, NeedOf(i).value.epoch), Target(NeedOf(i)) - Lag(i)) else f0;
    var f2 := if GuardOf(i).Some? then Max(Max(f1, GuardOf(i).value.epoch), Target(GuardOf(i)) - Lag(i)) else f1;
    var f3 := if LivePlan(i).Some? && LivePlan(i).value.target.Some? then Max(f2, Target(LivePlan(i)) - Lag(i)) else f2;
    var f4 := if i.head.Some? then Max(f3, i.head.value + 1) else f3;
    if TipUsed(i).Some? then Max(f4, TipUsed(i).value - Lag(i)) else f4
  }

  /** `n` is covered by an epoch: its boundary is reached and its target is within the snapshot lag. */
  predicate Covered(i: Inputs, n: Need, epoch: int) {
    IsGuard(n) ==> epoch >= n.epoch && (n.target.Some? ==> n.target.value - Lag(i) <= epoch)
  }

  lemma GuardBound(i: Inputs)
    requires ValidInputs(i)
    ensures var needs := [i.pending, LivePlan(i), i.saved];
      Bound(needs, i.chain) && CarryGuard(needs, i.chain) == Some(GuardOf(i)) && IsJoin(GuardOf(i), needs, i.chain)
  {
    hide CarryGuard, IsJoin;
    var needs := [i.pending, LivePlan(i), i.saved];
    assert forall n :: n in needs ==> n in [i.plan, i.conflict, i.pending, i.saved] || n == None;
    CarryIsJoin(needs, i.chain);
  }

  lemma JoinCovers(i: Inputs, needs: seq<Option<Need>>, n: Need, epoch: int)
    requires IsJoin(GuardOf(i), needs, i.chain) && Bound(needs, i.chain) && Some(n) in needs
    requires GuardOf(i).Some? ==> Covered(i, GuardOf(i).value, epoch)
    ensures Covered(i, n, epoch)
  {
    hide CarryGuard, Lag;
    if IsGuard(n) {
      assert Has(needs, n);
    }
  }

  /**
  A state at the floor lies strictly above the present head, at or above the need, the guard and every
  recorded marker and plan, and within the snapshot lag of every recorded target.
  */
  lemma FloorCovers(i: Inputs)
    requires ValidInputs(i)
    ensures i.head.Some? ==> Floor(i) > i.head.value
    ensures NeedOf(i).Some? ==> Floor(i) >= NeedOf(i).value.epoch && Covered(i, NeedOf(i).value, Floor(i))
    ensures GuardOf(i).Some? ==> Covered(i, GuardOf(i).value, Floor(i))
    ensures i.pending.Some? ==> Covered(i, i.pending.value, Floor(i))
    ensures i.saved.Some? ==> Covered(i, i.saved.value, Floor(i))
    ensures LivePlan(i).Some? ==> Covered(i, LivePlan(i).value, Floor(i))
    ensures Floor(i) >= i.checkpoint && (i.minEpoch.Some? ==> Floor(i) >= i.minEpoch.value)
  {
    hide CarryGuard, IsJoin;
    GuardBound(i);
    var needs := [i.pending, LivePlan(i), i.saved];
    if i.pending.Some? {
      assert i.pending in needs;
      JoinCovers(i, needs, i.pending.value, Floor(i));
    }
    if i.saved.Some? {
      assert i.saved in needs;
      JoinCovers(i, needs, i.saved.value, Floor(i));
    }
    if LivePlan(i).Some? {
      assert LivePlan(i) in needs;
      JoinCovers(i, needs, LivePlan(i).value, Floor(i));
    }
  }

  // ----- the argument plan -----

  /** An argument plan is set aside for a recorded one or because the head can catch up; then it changes nothing. */
  lemma IgnoredPlan(i: Inputs)
    requires ValidInputs(i) && i.plan.Some? && LivePlan(i) != i.plan
    ensures Floor(i) == Floor(i.(plan := None)) && i.plan.value.cause == Range
    ensures || (i.saved.Some? && Target(i.saved) > Target(i.plan))
            || (i.head.Some? && Target(i.plan) - i.head.value <= i.limit && LivePlan(i) == None)
  {
    hide CarryGuard, Floor;
    assert LivePlan(i.(plan := None)) == LivePlan(i);
    FloorByLivePlan(i, i.(plan := None));
  }

  /** The plan enters the floor only as the live plan. */
  lemma FloorByLivePlan(i: Inputs, j: Inputs)
    requires j == i.(plan := j.plan) && LivePlan(j) == LivePlan(i)
    ensures Floor(j) == Floor(i)
  {
    hide CarryGuard, LivePlan, WiderPlan;
    assert NeedOf(j) == NeedOf(i) && GuardOf(j) == GuardOf(i);
    assert Lag(j) == Lag(i) && TipUsed(j) == TipUsed(i);
  }

  /**
  An argument plan is covered exactly if it stays alive or the floor without it covers it. A plan
  without a target always stays alive.
  */
  lemma ArgumentPlanCovered(i: Inputs)
    requires ValidInputs(i) && i.plan.Some?
    ensures Covered(i, i.plan.value, Floor(i))
        <==> LivePlan(i) == i.plan || Covered(i, i.plan.value, Floor(i.(plan := None)))
    ensures i.plan.value.target == None ==> LivePlan(i) == i.plan && Covered(i, i.plan.value, Floor(i))
  {
    hide CarryGuard, Floor;
    FloorCovers(i);
    if LivePlan(i) != i.plan {
      IgnoredPlan(i);
    }
  }

  /**
  A target beyond the snapshot lag needs a present head more than the lag and one epoch behind it and
  a history limit that still reaches it, which limits up to 3001 never do.
  */
  lemma TargetWithinLag(i: Inputs)
    requires ValidInputs(i) && i.plan.Some? && i.plan.value.target.Some?
    requires i.head.Some? ==>
      || i.limit <= 3001
      || Target(i.plan) - i.head.value <= Lag(i) + 1
      || Target(i.plan) - i.head.value > i.limit
    ensures Target(i.plan) - Lag(i) <= Floor(i)
  {
    hide CarryGuard, Floor;
    FloorCovers(i);
    if LivePlan(i) != i.plan {
      IgnoredPlan(i);
    }
  }

  /** Where nothing else was recorded or asked for, that condition is exact. */
  lemma TargetWithinLagExactly(i: Inputs)
    requires ValidInputs(i) && i.plan.Some? && i.plan.value.cause == Range && i.head.Some?
    requires i.conflict == None && i.pending == None && i.saved == None && i.minEpoch == None
    requires i.checkpoint <= i.head.value + 1 && (i.tip.Some? ==> i.tip.value - Lag(i) <= i.head.value + 1)
    ensures Target(i.plan) - Lag(i) <= Floor(i)
        <==> (i.limit <= 3001 || Target(i.plan) - i.head.value <= Lag(i) + 1 || Target(i.plan) - i.head.value > i.limit)
  {
    hide CarryGuard;
    if LivePlan(i) == None {
      assert [i.pending, LivePlan(i), i.saved] == [None, None, None];
      NothingToGuard(i.chain);
      assert Floor(i) == i.head.value + 1;
    } else {
      TargetWithinLag(i);
    }
  }

  lemma NothingToGuard(chain: string)
    ensures CarryGuard([None, None, None], chain) == Some(None)
  {
    var g := Guards([None, None, None]);
    assert forall k :: 0 <= k < |g| ==> g[k] in g;
  }

  /**
  A dropped argument plan need not be within the snapshot lag: with the largest history limit a target
  4096 epochs ahead is dropped although the floor is only one above the head.
  */
  lemma DroppedPlanMayLag(chain: string)
    requires chain != ""
    ensures var p := Need(chain, Range, 1, 0, Some(4096));
      var i := Inputs(chain, true, Some(p), None, None, None, None, Some(0), 0, 4096, None);
      ValidInputs(i) && Floor(i) == 1 && Target(i.plan) - Lag(i) > Floor(i)
  {
    var p := Need(chain, Range, 1, 0, Some(4096));
    var i := Inputs(chain, true, Some(p), None, None, None, None, Some(0), 0, 4096, None);
    assert LivePlan(i) == None;
    NothingToGuard(chain);
  }

  // ----- the whole command -----

  /** What the outside world does meanwhile. */
  datatype World = World(idle: bool,            // no process uses the state, all files and sources check out
                         tipBehind: bool,       // `sync_issue`
                         snapshot: Option<Dir>, // the snapshot the client staged, or None if it failed
                         snapshotValid: bool,   // its checkpoint validates
                         intruder: Option<Dir>, // a directory another process creates at the data path
                         installedValid: bool)  // the installed checkpoint validates

  datatype Result = Refused | Ready | Verify | HeldBack | Restored(epoch: int) | RolledBack | Failed

  /** The guarded part: move the old state away, sync, install, check. */
  method Attempt(disk: Disk, ghost c: Case, preserved: Option<Name>, from: Option<map<string, nat>>, identity: nat,
                 guard: Option<Need>, floor: int, w: World) returns (ok: bool, epoch: int)
    requires AllSafe(c, disk.log) && c.kept.Prior? && c.intruder == w.intruder
    requires identity == c.identity && guard == c.guard
    requires from == if c.orig.Some? then c.orig.value.control else None
    requires preserved.Some? <==> c.orig.Some?
    requires preserved.Some? ==> preserved.value == c.kept && c.kept !in disk.v && OriginalAt(c, disk.v, Data)
    requires preserved == None ==> Data in disk.v ==> disk.v[Data] == EMPTY
    modifies disk
    ensures AllSafe(c, disk.log) && Safe(c, disk.v) && OriginalAt(c, disk.v, c.kept)
    ensures ok ==> Data in disk.v && Carries(c, disk.v[Data]) && disk.v[Data].epoch == epoch >= floor && disk.v[Data].ready
  {
    hide Carries, AllSafe;
    ok, epoch := false, 0;
    if preserved.Some? {
      var raised := disk.Write(c, Moved(disk.v, Data, preserved.value));
      if raised {
        return;
      }
    }
    if w.snapshot == None {
      return;
    }
    var raised := disk.WriteStaged(c, w.snapshot.value);
    if raised {
      return;
    }
    if w.intruder.Some? {
      raised := disk.Write(c, disk.v[Data := w.intruder.value]);
      if raised {
        return;
      }
    }
    if !w.snapshotValid || w.snapshot.value.epoch < floor {
      return;
    }
    var installed := disk.Install(c, from, identity, guard);
    if !installed || !disk.v[Data].ready || !w.installedValid {
      return;
    }
    epoch := disk.v[Data].epoch;
    ok := epoch >= floor;
  }

  /**
  `recover_state`. At every step, and after any exception and the rollback, the original state stands
  intact at the data path or its preserved path, and a new state appears at the data path only carrying
  the control records, the operator wallet and the guard. Success lands at the floor or above.
  */
  method RecoverState(disk: Disk, i: Inputs, identity: nat, w: World) returns (r: Result, ghost c: Case)
    requires ValidInputs(i) && disk.log == [disk.v]
    requires i.head.Some? <==> Data in disk.v && disk.v[Data].ready
    requires i.head.Some? ==> disk.v[Data].epoch == i.head.value
    modifies disk
    ensures AllSafe(c, disk.log) && c.identity == identity && c.guard == GuardOf(i)
    ensures c.orig == if i.head.Some? then Some(old(disk.v)[Data]) else None
    ensures match r
      case Restored(e) => Data in disk.v && Carries(c, disk.v[Data]) && disk.v[Data].epoch == e >= Floor(i)
                          && disk.v[Data].ready && OriginalAt(c, disk.v, c.kept)
      case RolledBack => c.orig.Some? && Data in disk.v && disk.v[Data] == c.orig.value
      case Failed => Safe(c, disk.v)
      case _ => disk.v == old(disk.v)
  {
    hide Carries, Floor, GuardOf, NeedOf, Held, Bound;
    ghost var before := disk.v;
    c := Case(if i.head.Some? then Some(before[Data]) else None, Prior(0, 0), identity, GuardOf(i), w.intruder);
    r := Refused;
    if i.head == None && Data in disk.v && disk.v[Data] != EMPTY {
      c := c.(intruder := Some(before[Data]));
      return;
    }
    if i.head.Some? {
      if disk.v[Data].wallet != Some(identity) {
        return;
      }
      if !i.replace && i.minEpoch.Some? && i.head.value < i.minEpoch.value {
        return;
      }
      if !i.replace {
        return (if NeedOf(i) == None then Ready else if Held(i) then HeldBack else Verify), c;
      }
    } else if exists n :: n in disk.v && n.Prior? {
      return;
    }
    if !w.idle || w.tipBehind {
      return;
    }
    var preserved: Option<Name> := None;
    var from: Option<map<string, nat>> := None;
    if i.head.Some? {
      preserved := FreeName(disk.v, false, i.head.value, 0);
      if preserved == None {
        return;
      }
      from := disk.v[Data].control;
      c := c.(kept := preserved.value);
    }
    var ok, epoch := Attempt(disk, c, preserved, from, identity, GuardOf(i), Floor(i), w);
    if ok {
      r := Restored(epoch);
    } else {
      r := Failed;
      if preserved.Some? && preserved.value in disk.v {
        var restored := disk.Rollback(c, preserved.value, if epoch == 0 then i.head.value else epoch);
        r := if restored then RolledBack else Failed;
      }
    }
  }

  /**
  `restore_prior`: puts a preserved state back. It is never lost: it stands at the data path on success
  and at its preserved path otherwise; a ready state with an identity is never displaced.
  */
  method RestorePrior(disk: Disk, saved: Name, identity: nat, w: World) returns (r: Result, ghost c: Case)
    requires saved.Prior? && saved in disk.v && disk.log == [disk.v]
    modifies disk
    ensures AllSafe(c, disk.log) && c.orig == Some(old(disk.v)[saved]) && c.kept == saved
    ensures match r
      case RolledBack => Data in disk.v && disk.v[Data] == old(disk.v)[saved]
                         && old(disk.v)[saved].ready && old(disk.v)[saved].epoch == saved.epoch
                         && old(disk.v)[saved].wallet == Some(identity)
      case Failed => Safe(c, disk.v)
      case _ => r == Refused && disk.v == old(disk.v)
    ensures Data in old(disk.v) && old(disk.v)[Data].ready && old(disk.v)[Data].wallet.Some? ==> r == Refused
  {
    hide Carries;
    var state := disk.v[saved];
    c := Case(Some(state), saved, identity, None, if Data in disk.v then Some(disk.v[Data]) else None);
    if !w.idle || (Data in disk.v && disk.v[Data].ready && disk.v[Data].wallet.Some?) {
      return Refused, c;
    }
    if !state.ready || !w.installedValid || state.epoch != saved.epoch || state.wallet != Some(identity) {
      return Refused, c;
    }
    var restored := disk.Rollback(c, saved, state.epoch);
    r := if restored then RolledBack else Failed;
  }
}
