/**
Bond scopes over whole runs: `submit_bond` as a command on the control directory, what becomes of
earlier bond scopes in runs with crashes, and how far the rule of `BondScope` carries.
*/
module BondRun {
  import opened Options
  import opened OutboxStore
  import opened Outbox
  import opened BondScope
  import opened OutboxRun

  /** `submit_bond` from its decision on; Refused also stands for the cases in which nothing is submitted. */
  method SubmitBond(dir: Directory, a: Answers, amount: string, renew: bool, env: Env) returns (outcome: Outcome)
    requires dir.Valid()
    modifies dir
    ensures dir.Valid()
    ensures var states := BondStates(dir.cfg, old(dir.store), a, amount, renew, env);
      dir.log == old(dir.log) + states && dir.store == Final(old(dir.store), states)
  {
    hide Decide, BeginBondTrace, SubmitTrace, SafeTrace, OutcomeTells, Directory.Valid;
    var d := Decide(dir.cfg, dir.store, a, amount);
    if !d.Open? {
      return Refused;
    }
    var ok := dir.BeginBond(d.epoch);
    if !ok {
      return Refused;
    }
    outcome := dir.Submit(Scope(Bond, d.epoch), amount, renew, env);
  }

  // ----- where a trace can write -----

  /** Every state keeps all records but those of `scope`, and `last.json` is unchanged or names `scope`. */
  predicate Local(s: Store, scope: Scope, t: Store) {
    && t.records.Keys <= s.records.Keys + {scope}
    && (t.pointer == s.pointer || (t.pointer.Some? && t.pointer.value.scope == scope))
  }

  predicate AllLocal(s: Store, scope: Scope, states: seq<Store>) {
    forall i :: 0 <= i < |states| ==> Local(s, scope, states[i])
  }

  lemma RenewLocal(cfg: Config, s: Store, scope: Scope, saved: Record, env: Env)
    requires scope in s.records
    ensures AllLocal(s, scope, RenewTrace(cfg, s, scope, saved, env).states)
  {
    hide Checked, SavedAttempts;
  }

  lemma SavedLocal(cfg: Config, s0: Store, scope: Scope, amount: string, renew: bool, env: Env)
    requires scope in s0.records
    ensures AllLocal(s0, scope, SavedTrace(cfg, s0, scope, amount, renew, env).states)
  {
    hide Checked, SavedAttempts, UnderWay, RenewTrace;
    var saved := s0.records[scope];
    RenewLocal(cfg, SavePointer(s0, Pointer(scope, Some(saved.hash))), scope, saved, env);
  }

  lemma LocalBehind(s: Store, t: Store, scope: Scope, tr: Trace)
    requires Local(s, scope, t) && AllLocal(t, scope, tr.states)
    ensures AllLocal(s, scope, Prepend(t, tr).states)
  {
  }

  lemma SubmitLocal(cfg: Config, s: Store, scope: Scope, amount: string, renew: bool, env: Env)
    ensures AllLocal(s, scope, SubmitTrace(cfg, s, scope, amount, renew, env).states)
  {
    hide Checked, SavedTrace, Stamp, Prepend, AllLocal;
    if scope in s.records {
      SavedLocal(cfg, s, scope, amount, renew, env);
    } else if env.prepared.Some? {
      var s1 := SaveRecord(s, scope, Stamp(cfg, env.prepared.value, scope));
      SavedLocal(cfg, s1, scope, amount, false, env);
      LocalBehind(s, s1, scope, SavedTrace(cfg, s1, scope, amount, false, env));
    }
    NothingIsLocal(s, scope);
  }

  lemma NothingIsLocal(s: Store, scope: Scope)
    ensures AllLocal(s, scope, [])
  {
  }

  /** Once anything of a bond command is written, `last.json` names the scope it opened. */
  predicate AtBond(s: Store, scope: Scope, t: Store) {
    t.records.Keys <= s.records.Keys + {scope} && t.pointer.Some? && t.pointer.value.scope == scope
  }

  lemma BondLocal(cfg: Config, s: Store, a: Answers, amount: string, renew: bool, env: Env)
    ensures var states := BondStates(cfg, s, a, amount, renew, env);
      && (!Decide(cfg, s, a, amount).Open? ==> states == [])
      && (Decide(cfg, s, a, amount).Open? ==>
            forall i :: 0 <= i < |states| ==> AtBond(s, Scope(Bond, Decide(cfg, s, a, amount).epoch), states[i]))
  {
    hide SubmitTrace, Decide, SavedAttempts;
    var d := Decide(cfg, s, a, amount);
    if d.Open? {
      var begin := BeginBondTrace(cfg, s, d.epoch);
      if begin.Some? {
        SubmitLocal(cfg, Final(s, begin.value), Scope(Bond, d.epoch), amount, renew, env);
      }
    }
  }

  // ----- settled bonds on the ledger -----

  /** Every bond scope other than the one `last.json` names is settled. */
  ghost predicate OthersSettled(sys: System) {
    sys.store.pointer.Some? && sys.store.pointer.value.scope.op == Bond ==>
      forall e :: Earlier(sys.store, sys.store.pointer.value.scope.epoch, e) ==> SettledOn(sys, e)
  }

  /** At most one bond scope is not settled. */
  ghost predicate OneUnsettled(sys: System) {
    forall d, e :: Scope(Bond, d) in sys.store.records && Scope(Bond, e) in sys.store.records && d != e ==>
      SettledOn(sys, d) || SettledOn(sys, e)
  }

  /** A bond is announced before it is saved. */
  ghost predicate BondsAnnounced(s: Store) {
    s.pointer == None ==> forall e: nat :: Scope(Bond, e) !in s.records
  }

  /** The node tells the truth about confirmations and the account nonce; it may leave things out. */
  ghost predicate TrueAnswers(sys: System, a: Answers) {
    && (forall scope, v :: OnDisk(sys.store, scope, v) && a.receipt(v.hash).ConfirmedAt? ==> (scope, v) in sys.confirmed)
    && (a.nonce.Some? ==> a.nonce.value <= sys.nonce)
  }

  /** The commands of the operator tools: bonds by `submit_bond`, exits and withdrawals by `submit_self`. */
  ghost predicate Proper(sys: System, e: Event) {
    match e
    case Command(scope, _, _, _, _) => scope.op != Bond
    case Announce(_, _) => false
    case BondCommand(a, _, _, _, _) => TrueAnswers(sys, a)
    case _ => true
  }

  ghost predicate ProperRun(cfg: Config, sys: System, events: seq<Event>)
    decreases |events|
  {
    |events| == 0 ||
    (ProperRun(cfg, sys, events[..|events| - 1])
     && Proper(Run(cfg, sys, events[..|events| - 1]), events[|events| - 1]))
  }

  ghost predicate RuleKept(sys: System) {
    BondsAnnounced(sys.store) && (sys.hidden || (OthersSettled(sys) && OneUnsettled(sys)))
  }

  lemma SettledStays(sys: System, later: System, e: nat)
    requires Later(sys, later) && SettledOn(sys, e)
    ensures SettledOn(later, e)
  {
    if b: nat :| WithdrawnAfter(sys.store, e, b) && sys.store.records[Scope(Withdraw, b)].tx.pay.nonce <= sys.nonce {
      assert WithdrawnAfter(later.store, e, b);
    } else {
      var v :| (Scope(Bond, e), v) in sys.confirmed;
      assert (Scope(Bond, e), v) in later.confirmed;
    }
  }

  lemma AnsweredIsSettled(sys: System, a: Answers, e: nat)
    requires TrueAnswers(sys, a) && Settled(sys.store, a, e)
    ensures SettledOn(sys, e)
  {
  }

  /**
  When the bonds behind the one that `last.json` names are settled, a scope is opened after every other
  bond is settled on the ledger, if and only if no exit or withdrawal stands in front of an unsettled one.
  */
  lemma OpensAfterSettled(cfg: Config, sys: System, a: Answers, amount: string)
    requires TrueAnswers(sys, a) && BondsAnnounced(sys.store) && OthersSettled(sys)
    requires Decide(cfg, sys.store, a, amount).Open?
    ensures (forall e :: Earlier(sys.store, Decide(cfg, sys.store, a, amount).epoch, e) ==> SettledOn(sys, e))
       <==> !Hides(cfg, sys, a, amount)
  {
    hide Decide, SettledOn, TrueAnswers;
    var epoch := Decide(cfg, sys.store, a, amount).epoch;
    if sys.store.pointer.Some? && sys.store.pointer.value.scope.op == Bond {
      var scope := sys.store.pointer.value.scope;
      if epoch != scope.epoch {
        ConfirmedIsSettled(cfg, sys, a, amount);
      }
      assert forall e :: Earlier(sys.store, epoch, e) && e != scope.epoch ==> Earlier(sys.store, scope.epoch, e);
    }
  }

  lemma ConfirmedIsSettled(cfg: Config, sys: System, a: Answers, amount: string)
    requires TrueAnswers(sys, a) && sys.store.pointer.Some? && sys.store.pointer.value.scope.op == Bond
    requires Decide(cfg, sys.store, a, amount).Open?
    requires Decide(cfg, sys.store, a, amount).epoch != sys.store.pointer.value.scope.epoch
    ensures SettledOn(sys, sys.store.pointer.value.scope.epoch)
  {
    hide Decide;
    NamedBondIsSettled(cfg, sys.store, a, amount);
    var scope := sys.store.pointer.value.scope;
    var v :| OnDisk(sys.store, scope, v) && a.receipt(v.hash).ConfirmedAt?;
    assert (Scope(Bond, scope.epoch), v) in sys.confirmed;
  }

  // ----- each event keeps the rule -----

  /** A directory that only moved to a bond scope whose rivals are settled. */
  lemma AtBondKeepsRule(sys: System, later: System, scope: Scope)
    requires Later(sys, later) && scope.op == Bond && AtBond(sys.store, scope, later.store)
    requires forall e :: Earlier(sys.store, scope.epoch, e) ==> SettledOn(sys, e)
    ensures BondsAnnounced(later.store) && OthersSettled(later) && OneUnsettled(later)
  {
    hide SettledOn, Later;
    forall e | Earlier(later.store, scope.epoch, e) ensures SettledOn(later, e) {
      assert Earlier(sys.store, scope.epoch, e);
      SettledStays(sys, later, e);
    }
  }

  /** A directory in which no bond was touched. */
  lemma NoBondKeepsRule(sys: System, later: System, scope: Scope)
    requires Later(sys, later) && scope.op != Bond && Local(sys.store, scope, later.store)
    requires BondsAnnounced(sys.store) && OthersSettled(sys) && OneUnsettled(sys)
    ensures BondsAnnounced(later.store) && OthersSettled(later) && OneUnsettled(later)
  {
    hide SettledOn;
    assert forall e: nat :: Scope(Bond, e) in later.store.records ==> Scope(Bond, e) in sys.store.records;
    forall e: nat | SettledOn(sys, e) ensures SettledOn(later, e) {
      SettledStays(sys, later, e);
    }
    if later.store.pointer.Some? && later.store.pointer.value.scope.op == Bond {
      forall e | Earlier(later.store, later.store.pointer.value.scope.epoch, e) ensures SettledOn(later, e) {
        assert Earlier(sys.store, sys.store.pointer.value.scope.epoch, e);
      }
    }
  }

  lemma CrashedIsState(s: Store, states: seq<Store>, writes: nat)
    ensures Crashed(s, states, writes) == s
         || exists i :: 0 <= i < |states| && Crashed(s, states, writes) == states[i]
  {
  }

  lemma BondKeepsRule(cfg: Config, sys: System, e: Event)
    requires Good(cfg, sys) && Proper(sys, e) && e.BondCommand? && RuleKept(sys)
    ensures RuleKept(Step(cfg, sys, e))
  {
    hide Decide, BondStates, Crashed, SettledOn, TrueAnswers, Settled, Later, Good, OneUnsettled, OthersSettled;
    var next := Step(cfg, sys, e);
    StepSafe(cfg, sys, e);
    var states := BondStates(cfg, sys.store, e.answers, e.amount, e.renew, e.env);
    BondLocal(cfg, sys.store, e.answers, e.amount, e.renew, e.env);
    CrashedIsState(sys.store, states, e.writes);
    if next.store == sys.store {
      SameStoreKeepsRule(sys, next);
    } else if !next.hidden {
      var scope := Scope(Bond, Decide(cfg, sys.store, e.answers, e.amount).epoch);
      OpensAfterSettled(cfg, sys, e.answers, e.amount);
      AtBondKeepsRule(sys, next, scope);
    }
  }

  lemma SameStoreKeepsRule(sys: System, later: System)
    requires Later(sys, later) && later.store == sys.store && (sys.hidden ==> later.hidden) && RuleKept(sys)
    ensures RuleKept(later)
  {
    hide SettledOn;
    forall e: nat | SettledOn(sys, e) ensures SettledOn(later, e) {
      SettledStays(sys, later, e);
    }
  }

  lemma CommandKeepsRule(cfg: Config, sys: System, e: Event)
    requires Good(cfg, sys) && Proper(sys, e) && e.Command? && RuleKept(sys)
    ensures RuleKept(Step(cfg, sys, e))
  {
    hide SubmitTrace, Crashed, SettledOn, Later, Good, OneUnsettled, OthersSettled;
    var next := Step(cfg, sys, e);
    StepSafe(cfg, sys, e);
    var states := SubmitTrace(cfg, sys.store, e.scope, e.amount, e.renew, e.env).states;
    SubmitLocal(cfg, sys.store, e.scope, e.amount, e.renew, e.env);
    CrashedIsState(sys.store, states, e.writes);
    if next.store == sys.store {
      SameStoreKeepsRule(sys, next);
    } else if !sys.hidden {
      NoBondKeepsRule(sys, next, e.scope);
    }
  }

  lemma StepKeepsRule(cfg: Config, sys: System, e: Event)
    requires Good(cfg, sys) && Proper(sys, e) && RuleKept(sys)
    ensures RuleKept(Step(cfg, sys, e))
  {
    hide SubmitTrace, BondStates, Crashed, RuleKept, Good, Later, TrueAnswers;
    match e
    case BondCommand(_, _, _, _, _) => BondKeepsRule(cfg, sys, e);
    case Command(_, _, _, _, _) => CommandKeepsRule(cfg, sys, e);
    case _ =>
      StepSafe(cfg, sys, e);
      SameStoreKeepsRule(sys, Step(cfg, sys, e));
  }

  /**
  All runs of the operator tools with crashes anywhere, on true answers about confirmations and the
  nonce: unless some bond command met `Hides`, at most one bond scope is unsettled, and while `last.json`
  names a bond it can only be that one.
  */
  lemma {:induction false} BondRule(cfg: Config, n: nat, events: seq<Event>)
    requires ProperRun(cfg, Initial(n), events)
    ensures var sys := Run(cfg, Initial(n), events);
      Good(cfg, sys) && RuleKept(sys)
    decreases |events|
  {
    hide Good, Step, OthersSettled, OneUnsettled;
    InitialGood(cfg, n);
    RunSafe(cfg, Initial(n), events);
    if |events| == 0 {
      InitialKeepsRule(n);
    } else {
      var front := events[..|events| - 1];
      BondRule(cfg, n, front);
      StepKeepsRule(cfg, Run(cfg, Initial(n), front), events[|events| - 1]);
    }
  }

  lemma InitialKeepsRule(n: nat)
    ensures RuleKept(Initial(n))
  {
  }

  // ----- runs in which the node also tells the truth about the bond, and fresh payments take the next nonce -----

  /** A bond whose nonce is consumed: its fate on the ledger is final. */
  predicate Consumed(sys: System, scope: Scope)
    requires scope in sys.store.records
  {
    sys.store.records[scope].tx.pay.nonce <= sys.nonce
  }

  /** `next_nonce`: a new payment is prepared with the nonce after the account's. */
  predicate FreshNonce(sys: System, env: Env) {
    env.prepared.Some? ==> env.prepared.value.tx.pay.nonce == sys.nonce + 1
  }

  ghost predicate Honest(sys: System, e: Event) {
    Proper(sys, e) &&
    match e
    case Command(scope, _, _, env, _) => sys.bonded == Some(scope.epoch) && FreshNonce(sys, env)
    case BondCommand(a, _, _, env, _) =>
      (a.enrollment.Absent? ==> sys.bonded == None) && a.head <= sys.head && FreshNonce(sys, env)
    case _ => true
  }

  ghost predicate HonestRun(cfg: Config, sys: System, events: seq<Event>)
    decreases |events|
  {
    |events| == 0 ||
    (HonestRun(cfg, sys, events[..|events| - 1])
     && Honest(Run(cfg, sys, events[..|events| - 1]), events[|events| - 1]))
  }

  /** No saved payment is ahead of the next nonce. */
  ghost predicate NoncesInReach(sys: System) {
    forall scope :: scope in sys.store.records ==> sys.store.records[scope].tx.pay.nonce <= sys.nonce + 1
  }

  /** While the account is bonded, and while `last.json` names an exit or withdrawal, every bond is consumed. */
  ghost predicate BondedMeansConsumed(sys: System) {
    sys.bonded.Some? || (sys.store.pointer.Some? && sys.store.pointer.value.scope.op != Bond) ==>
      forall e: nat :: Scope(Bond, e) in sys.store.records ==> Consumed(sys, Scope(Bond, e))
  }

  ghost predicate OthersConsumed(sys: System) {
    sys.store.pointer.Some? && sys.store.pointer.value.scope.op == Bond ==>
      forall e :: Earlier(sys.store, sys.store.pointer.value.scope.epoch, e) ==> Consumed(sys, Scope(Bond, e))
  }

  ghost predicate Orderly(sys: System) {
    BondsAnnounced(sys.store) && NoncesInReach(sys) && BondedMeansConsumed(sys) && OthersConsumed(sys)
  }

  /** Every record of a later state is an old payment or the prepared one. */
  predicate OldOrPrepared(s: Store, env: Env, t: Store) {
    forall scope :: scope in t.records ==>
      || (scope in s.records && t.records[scope].tx.pay == s.records[scope].tx.pay)
      || (env.prepared.Some? && t.records[scope].tx.pay == env.prepared.value.tx.pay)
  }

  lemma SubmitPrepares(cfg: Config, s: Store, scope: Scope, amount: string, renew: bool, env: Env)
    requires Inv(cfg, s)
    ensures var states := SubmitTrace(cfg, s, scope, amount, renew, env).states;
      forall i :: 0 <= i < |states| ==> OldOrPrepared(s, env, states[i])
  {
    hide Inv, Checked, SavedTrace;
    SubmitLocal(cfg, s, scope, amount, renew, env);
    SubmitSafe(cfg, s, scope, amount, renew, env);
    if scope !in s.records && NewOutboxAllowed(s, scope) && env.prepared.Some? {
      var v := Stamp(cfg, env.prepared.value, scope);
      if Checked(cfg, v, scope) && v.tx.pay.amount == amount {
        var s1 := SaveRecord(s, scope, v);
        NewRecordSafe(cfg, s, scope, v);
        SavedSafe(cfg, s1, scope, amount, false, env);
      }
    }
  }

  lemma BondPrepares(cfg: Config, s: Store, a: Answers, amount: string, renew: bool, env: Env)
    requires Inv(cfg, s)
    ensures var states := BondStates(cfg, s, a, amount, renew, env);
      forall i :: 0 <= i < |states| ==> OldOrPrepared(s, env, states[i])
  {
    hide Inv, SubmitTrace, Decide, SavedAttempts;
    var d := Decide(cfg, s, a, amount);
    if d.Open? {
      BeginBondSafe(cfg, s, d.epoch);
      var begin := BeginBondTrace(cfg, s, d.epoch);
      if begin.Some? {
        SubmitPrepares(cfg, Final(s, begin.value), Scope(Bond, d.epoch), amount, renew, env);
      }
    }
  }

  /** On true answers every earlier bond is consumed when a bond command opens a scope. */
  lemma OpensAfterConsumed(cfg: Config, sys: System, a: Answers, amount: string)
    requires Good(cfg, sys) && Orderly(sys) && TrueAnswers(sys, a)
    requires Decide(cfg, sys.store, a, amount).Open?
    ensures forall e :: Earlier(sys.store, Decide(cfg, sys.store, a, amount).epoch, e) ==> Consumed(sys, Scope(Bond, e))
  {
    hide Decide, RecordsChecked, ArchivesChecked, ArchivesLimited, PointerNamesAttempt;
    var epoch := Decide(cfg, sys.store, a, amount).epoch;
    if sys.store.pointer.Some? && sys.store.pointer.value.scope.op == Bond {
      var scope := sys.store.pointer.value.scope;
      if epoch != scope.epoch {
        NamedBondIsSettled(cfg, sys.store, a, amount);
        var v :| OnDisk(sys.store, scope, v) && a.receipt(v.hash).ConfirmedAt?;
        assert (scope, v) in sys.confirmed && (scope, v) in sys.store.sent;
      }
      assert forall e :: Earlier(sys.store, epoch, e) && e != scope.epoch ==> Earlier(sys.store, scope.epoch, e);
    }
  }

  /** A step that left the directory alone: consumed stays consumed. */
  lemma SameStoreOrderly(sys: System, later: System)
    requires later.store == sys.store && sys.nonce <= later.nonce && Orderly(sys)
    requires later.bonded.Some? ==> sys.bonded.Some? || later.nonce == sys.nonce + 1
    ensures Orderly(later)
  {
  }

  lemma BondStaysOrderly(cfg: Config, sys: System, e: Event)
    requires Good(cfg, sys) && Honest(sys, e) && e.BondCommand? && Orderly(sys)
    ensures Orderly(Step(cfg, sys, e))
  {
    hide Decide, BondStates, Crashed, Settled, Good, Inv, OnDisk, Checked;
    var next := Step(cfg, sys, e);
    StepSafe(cfg, sys, e);
    var states := BondStates(cfg, sys.store, e.answers, e.amount, e.renew, e.env);
    BondLocal(cfg, sys.store, e.answers, e.amount, e.renew, e.env);
    GoodInv(cfg, sys);
    BondPrepares(cfg, sys.store, e.answers, e.amount, e.renew, e.env);
    CrashedIsState(sys.store, states, e.writes);
    if next.store != sys.store {
      OpensAfterConsumed(cfg, sys, e.answers, e.amount);
      OpenMeansAbsent(cfg, sys.store, e.answers, e.amount);
      AtBondOrderly(sys, next, e.env, Scope(Bond, Decide(cfg, sys.store, e.answers, e.amount).epoch));
    }
  }

  lemma GoodInv(cfg: Config, sys: System)
    requires Good(cfg, sys)
    ensures Inv(cfg, sys.store)
  {
  }

  lemma OpenMeansAbsent(cfg: Config, s: Store, a: Answers, amount: string)
    requires Decide(cfg, s, a, amount).Open?
    ensures a.enrollment.Absent?
  {
  }

  lemma AtBondOrderly(sys: System, later: System, env: Env, scope: Scope)
    requires Later(sys, later) && later.nonce == sys.nonce && later.bonded == sys.bonded && Orderly(sys)
    requires scope.op == Bond && AtBond(sys.store, scope, later.store) && OldOrPrepared(sys.store, env, later.store)
    requires FreshNonce(sys, env) && sys.bonded == None
    requires forall e :: Earlier(sys.store, scope.epoch, e) ==> Consumed(sys, Scope(Bond, e))
    ensures Orderly(later)
  {
    forall e | Earlier(later.store, scope.epoch, e) ensures Consumed(later, Scope(Bond, e)) {
      assert Earlier(sys.store, scope.epoch, e);
    }
  }

  lemma CommandStaysOrderly(cfg: Config, sys: System, e: Event)
    requires Good(cfg, sys) && Honest(sys, e) && e.Command? && Orderly(sys)
    ensures Orderly(Step(cfg, sys, e))
  {
    hide SubmitTrace, Crashed, Good, Inv, Checked;
    var next := Step(cfg, sys, e);
    StepSafe(cfg, sys, e);
    var states := SubmitTrace(cfg, sys.store, e.scope, e.amount, e.renew, e.env).states;
    SubmitLocal(cfg, sys.store, e.scope, e.amount, e.renew, e.env);
    GoodInv(cfg, sys);
    SubmitPrepares(cfg, sys.store, e.scope, e.amount, e.renew, e.env);
    CrashedIsState(sys.store, states, e.writes);
    if next.store != sys.store {
      NoBondOrderly(sys, next, e.env, e.scope);
    }
  }

  lemma NoBondOrderly(sys: System, later: System, env: Env, scope: Scope)
    requires Later(sys, later) && later.nonce == sys.nonce && later.bonded.Some? && sys.bonded.Some? && Orderly(sys)
    requires scope.op != Bond && Local(sys.store, scope, later.store) && OldOrPrepared(sys.store, env, later.store)
    requires FreshNonce(sys, env)
    ensures Orderly(later)
  {
    assert forall e: nat :: Scope(Bond, e) in later.store.records ==> Scope(Bond, e) in sys.store.records;
  }

  lemma StepStaysOrderly(cfg: Config, sys: System, e: Event)
    requires Good(cfg, sys) && Honest(sys, e) && Orderly(sys)
    ensures Orderly(Step(cfg, sys, e))
  {
    hide SubmitTrace, BondStates, Crashed, Good, Orderly, TrueAnswers, Hides;
    match e
    case BondCommand(_, _, _, _, _) => BondStaysOrderly(cfg, sys, e);
    case Command(_, _, _, _, _) => CommandStaysOrderly(cfg, sys, e);
    case _ => SameStoreOrderly(sys, Step(cfg, sys, e));
  }

  /** Two payments that the ledger has not decided carry the same nonce, the next one. */
  ghost predicate OneInFlight(sys: System) {
    forall s, t :: s in sys.store.records && t in sys.store.records && !Consumed(sys, s) && !Consumed(sys, t) ==>
      sys.store.records[s].tx.pay.nonce == sys.store.records[t].tx.pay.nonce == sys.nonce + 1
  }

  /** At most one bond scope is not decided by the ledger. */
  ghost predicate OneBondInFlight(sys: System) {
    forall d, e :: Scope(Bond, d) in sys.store.records && Scope(Bond, e) in sys.store.records && d != e ==>
      Consumed(sys, Scope(Bond, d)) || Consumed(sys, Scope(Bond, e))
  }

  /**
  On true answers, in every run with crashes anywhere and whether or not the uncovered case was met: at
  most one bond is undecided, and all undecided payments share one nonce, so at most one gets paid.
  */
  lemma {:induction false} BondsNeverCompete(cfg: Config, n: nat, events: seq<Event>)
    requires HonestRun(cfg, Initial(n), events)
    ensures var sys := Run(cfg, Initial(n), events);
      Good(cfg, sys) && Orderly(sys) && OneBondInFlight(sys) && OneInFlight(sys)
    decreases |events|
  {
    hide Good, Step, Orderly, OneBondInFlight, OneInFlight;
    InitialGood(cfg, n);
    RunSafe(cfg, Initial(n), events);
    if |events| == 0 {
      InitialOrderly(n);
    } else {
      var front := events[..|events| - 1];
      BondsNeverCompete(cfg, n, front);
      StepStaysOrderly(cfg, Run(cfg, Initial(n), front), events[|events| - 1]);
    }
    OrderlyMeansOne(Run(cfg, Initial(n), events));
  }

  lemma InitialOrderly(n: nat)
    ensures Orderly(Initial(n))
  {
  }

  lemma OrderlyMeansOne(sys: System)
    requires Orderly(sys)
    ensures OneBondInFlight(sys) && OneInFlight(sys)
  {
    forall d, e | Scope(Bond, d) in sys.store.records && Scope(Bond, e) in sys.store.records && d != e
      ensures Consumed(sys, Scope(Bond, d)) || Consumed(sys, Scope(Bond, e))
    {
      if sys.store.pointer.Some? && sys.store.pointer.value.scope.op == Bond {
        var p := sys.store.pointer.value.scope.epoch;
        assert d != p ==> Earlier(sys.store, p, d);
        assert e != p ==> Earlier(sys.store, p, e);
      }
    }
  }

  /**
  When a bond command opens a scope in such a run, the confirmations of every earlier bond are final:
  nothing of it is ever confirmed later.
  */
  lemma OpensWhenEarlierAreFinal(cfg: Config, n: nat, events: seq<Event>, a: Answers, amount: string, e: nat,
                                 later: seq<Event>, c: (Scope, Record))
    requires HonestRun(cfg, Initial(n), events)
    requires var sys := Run(cfg, Initial(n), events);
      && TrueAnswers(sys, a) && Decide(cfg, sys.store, a, amount).Open?
      && Earlier(sys.store, Decide(cfg, sys.store, a, amount).epoch, e)
      && c in Run(cfg, sys, later).confirmed && c.0 == Scope(Bond, e)
    ensures c in Run(cfg, Initial(n), events).confirmed
  {
    hide Good, Step, Orderly, Run, Decide, TrueAnswers, HonestRun;
    var sys := Run(cfg, Initial(n), events);
    BondsNeverCompete(cfg, n, events);
    OpensAfterConsumed(cfg, sys, a, amount);
    ConsumedIsClosed(cfg, sys, Scope(Bond, e), c, later);
  }
}
