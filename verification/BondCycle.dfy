/**
Bonds over repeated cycles of bonding and withdrawing, in runs on true answers: behind a withdrawal no
earlier bond is ever left unsettled, so only an exit can hide one; and after any number of completed
cycles an exit still can.
*/
module BondCycle {
  import opened Options
  import opened OutboxStore
  import opened Outbox
  import opened BondScope
  import opened OutboxRun
  import opened BondRun

  // ----- epochs of saved records -----

  /** Every saved bond came before the enrollment of epoch `b`, and before its withdrawal if one is saved. */
  ghost predicate AfterAllBonds(s: Store, b: nat) {
    forall e: nat :: Scope(Bond, e) in s.records ==>
      e < b && (Scope(Withdraw, b) in s.records ==> WithdrawnAfter(s, e, b))
  }

  ghost predicate BondsTimely(sys: System) {
    forall e: nat :: Scope(Bond, e) in sys.store.records ==> e <= sys.head
  }

  /** No exit or withdrawal is saved for an enrollment still to come. */
  ghost predicate LeavesTimely(sys: System) {
    forall scope :: scope in sys.store.records && scope.op != Bond ==>
      scope.epoch <= if sys.bonded.Some? then sys.bonded.value else sys.head
  }

  ghost predicate Timely(sys: System) {
    && BondsTimely(sys) && LeavesTimely(sys)
    && (sys.bonded.Some? ==> sys.bonded.value <= sys.head + 1 && AfterAllBonds(sys.store, sys.bonded.value))
    && (sys.store.pointer.Some? && sys.store.pointer.value.scope.op == Withdraw ==>
          AfterAllBonds(sys.store, sys.store.pointer.value.scope.epoch))
  }

  lemma OpenEpochSeen(cfg: Config, s: Store, a: Answers, amount: string)
    requires Decide(cfg, s, a, amount).Open?
    ensures Decide(cfg, s, a, amount).epoch <= a.head
  {
    hide SavedAttempts;
  }

  /** A bond command adds at most its bond, at a head already seen, while the account is not bonded. */
  lemma AtBondTimely(sys: System, later: System, scope: Scope)
    requires Timely(sys) && later == sys.(store := later.store, hidden := later.hidden) && sys.bonded == None
    requires scope.op == Bond && scope.epoch <= sys.head && AtBond(sys.store, scope, later.store)
    ensures Timely(later)
  {
  }

  lemma BondStaysTimely(cfg: Config, sys: System, e: Event)
    requires Good(cfg, sys) && Honest(sys, e) && e.BondCommand? && Timely(sys)
    ensures Timely(Step(cfg, sys, e))
  {
    hide Decide, BondStates, Crashed, Good, Hides, Timely, TrueAnswers;
    var next := Step(cfg, sys, e);
    var states := BondStates(cfg, sys.store, e.answers, e.amount, e.renew, e.env);
    BondLocal(cfg, sys.store, e.answers, e.amount, e.renew, e.env);
    CrashedIsState(sys.store, states, e.writes);
    if next.store != sys.store {
      OpenMeansAbsent(cfg, sys.store, e.answers, e.amount);
      OpenEpochSeen(cfg, sys.store, e.answers, e.amount);
      AtBondTimely(sys, next, Scope(Bond, Decide(cfg, sys.store, e.answers, e.amount).epoch));
    } else {
      HiddenTimely(sys, next);
    }
  }

  lemma HiddenTimely(sys: System, later: System)
    requires Timely(sys) && later == sys.(hidden := later.hidden)
    ensures Timely(later)
  {
  }

  /** An exit or withdrawal of the present enrollment is a new payment behind all bonds, or an old record. */
  lemma NoBondTimely(sys: System, later: System, env: Env, scope: Scope)
    requires Timely(sys) && Orderly(sys) && Later(sys, later) && later == sys.(store := later.store)
    requires sys.bonded == Some(scope.epoch) && scope.op != Bond && FreshNonce(sys, env)
    requires Local(sys.store, scope, later.store) && OldOrPrepared(sys.store, env, later.store)
    ensures Timely(later)
  {
    assert forall e: nat :: Scope(Bond, e) in later.store.records ==> Scope(Bond, e) in sys.store.records;
    forall b: nat, e: nat | AfterAllBonds(sys.store, b) && b <= scope.epoch && Scope(Bond, e) in later.store.records
      ensures e < b
      ensures Scope(Withdraw, b) in later.store.records ==>
        b == scope.epoch || Scope(Withdraw, b) in sys.store.records ==> WithdrawnAfter(later.store, e, b)
    {
      assert Consumed(sys, Scope(Bond, e));
    }
  }

  lemma CommandStaysTimely(cfg: Config, sys: System, e: Event)
    requires Good(cfg, sys) && Orderly(sys) && Honest(sys, e) && e.Command? && Timely(sys)
    ensures Timely(Step(cfg, sys, e))
  {
    hide SubmitTrace, Crashed, Good, Inv, Timely, Orderly, Later;
    var next := Step(cfg, sys, e);
    StepSafe(cfg, sys, e);
    var states := SubmitTrace(cfg, sys.store, e.scope, e.amount, e.renew, e.env).states;
    SubmitLocal(cfg, sys.store, e.scope, e.amount, e.renew, e.env);
    GoodInv(cfg, sys);
    SubmitPrepares(cfg, sys.store, e.scope, e.amount, e.renew, e.env);
    CrashedIsState(sys.store, states, e.writes);
    if next.store != sys.store {
      NoBondTimely(sys, next, e.env, e.scope);
    }
  }

  /** An event of the ledger; a new enrollment lies behind everything saved. */
  lemma LedgerStaysTimely(cfg: Config, sys: System, e: Event)
    requires Timely(sys) && (e.Confirm? || e.Spend? || e.BondElsewhere? || e.Leave? || e.Commit?)
    ensures Timely(Step(cfg, sys, e))
  {
  }

  lemma StepStaysTimely(cfg: Config, sys: System, e: Event)
    requires Good(cfg, sys) && Orderly(sys) && Honest(sys, e) && Timely(sys)
    ensures Timely(Step(cfg, sys, e))
  {
    hide Step, Good, Orderly, Timely, TrueAnswers;
    match e
    case BondCommand(_, _, _, _, _) => BondStaysTimely(cfg, sys, e);
    case Command(_, _, _, _, _) => CommandStaysTimely(cfg, sys, e);
    case Announce(_, _) =>
    case _ => LedgerStaysTimely(cfg, sys, e);
  }

  lemma InitialTimely(n: nat)
    ensures Timely(Initial(n))
  {
  }

  lemma {:induction false} RunStaysTimely(cfg: Config, n: nat, events: seq<Event>)
    requires HonestRun(cfg, Initial(n), events)
    ensures Timely(Run(cfg, Initial(n), events))
    decreases |events|
  {
    hide Step, Good, Orderly, Timely, OneInFlight, OneBondInFlight, Honest;
    if |events| == 0 {
      InitialTimely(n);
    } else {
      var front := events[..|events| - 1];
      BondsNeverCompete(cfg, n, front);
      RunStaysTimely(cfg, n, front);
      StepStaysTimely(cfg, Run(cfg, Initial(n), front), events[|events| - 1]);
    }
  }

  // ----- behind a withdrawal every bond is settled -----

  ghost predicate RuleOn(sys: System, epoch: nat) {
    forall e :: Earlier(sys.store, epoch, e) ==> SettledOn(sys, e)
  }

  lemma WithdrawalSettlesAll(cfg: Config, sys: System, a: Answers, amount: string)
    requires Timely(sys) && TrueAnswers(sys, a) && Decide(cfg, sys.store, a, amount).Open?
    requires sys.store.pointer.Some? && sys.store.pointer.value.scope.op == Withdraw
    ensures RuleHolds(sys.store, a, Decide(cfg, sys.store, a, amount).epoch)
    ensures RuleOn(sys, Decide(cfg, sys.store, a, amount).epoch)
  {
    hide Decide, Settled, SettledOn, TrueAnswers;
    var b := sys.store.pointer.value.scope.epoch;
    NamedWithdrawalIsConsumed(cfg, sys.store, a, amount);
    assert sys.store.pointer.value.scope == Scope(Withdraw, b);
    forall e | Earlier(sys.store, Decide(cfg, sys.store, a, amount).epoch, e)
      ensures Settled(sys.store, a, e) && SettledOn(sys, e)
    {
      NamedWithdrawalSettles(cfg, sys.store, a, amount, e);
      AnsweredIsSettled(sys, a, e);
    }
  }

  ghost predicate ExitHides(sys: System, epoch: nat) {
    && sys.store.pointer.Some? && sys.store.pointer.value.scope.op == Exit
    && exists e :: Earlier(sys.store, epoch, e) && !SettledOn(sys, e)
  }

  /**
  The rule in runs on true answers. It always holds behind a withdrawal and in a directory that names
  nothing; until the uncovered case is met for the first time, it holds if and only if `last.json` does
  not name an exit in front of an unsettled bond.
  */
  lemma OnlyAnExitHides(cfg: Config, n: nat, events: seq<Event>, a: Answers, amount: string)
    requires HonestRun(cfg, Initial(n), events)
    requires var sys := Run(cfg, Initial(n), events); TrueAnswers(sys, a) && Decide(cfg, sys.store, a, amount).Open?
    ensures var sys := Run(cfg, Initial(n), events);
      var epoch := Decide(cfg, sys.store, a, amount).epoch;
      && (sys.store.pointer == None || sys.store.pointer.value.scope.op == Withdraw ==> RuleOn(sys, epoch))
      && (Hides(cfg, sys, a, amount) <==> ExitHides(sys, epoch))
      && (!sys.hidden ==> (RuleOn(sys, epoch) <==> !ExitHides(sys, epoch)))
  {
    hide Good, Timely, Decide, TrueAnswers, SettledOn, HonestRun, Run, OthersSettled, OneUnsettled;
    var sys := Run(cfg, Initial(n), events);
    HonestIsProper(cfg, Initial(n), events);
    BondRule(cfg, n, events);
    RunStaysTimely(cfg, n, events);
    if sys.store.pointer.Some? && sys.store.pointer.value.scope.op == Withdraw {
      WithdrawalSettlesAll(cfg, sys, a, amount);
    }
    if !sys.hidden {
      OpensAfterSettled(cfg, sys, a, amount);
    }
  }

  lemma {:induction false} HonestIsProper(cfg: Config, sys: System, events: seq<Event>)
    requires HonestRun(cfg, sys, events)
    ensures ProperRun(cfg, sys, events)
    decreases |events|
  {
    if |events| > 0 {
      HonestIsProper(cfg, sys, events[..|events| - 1]);
    }
  }

  // ----- scripts of events -----

  lemma LastEvent(cfg: Config, sys: System, events: seq<Event>, e: Event)
    ensures Run(cfg, sys, events + [e]) == Step(cfg, Run(cfg, sys, events), e)
    ensures HonestRun(cfg, sys, events + [e]) <==> HonestRun(cfg, sys, events) && Honest(Run(cfg, sys, events), e)
  {
    assert (events + [e])[..|events|] == events;
  }

  /** `states` are what the script goes through, each event honest where it happens. */
  ghost predicate Follows(cfg: Config, script: seq<Event>, states: seq<System>) {
    |states| == |script| + 1 &&
    forall k :: 0 <= k < |script| ==> Honest(states[k], script[k]) && Step(cfg, states[k], script[k]) == states[k + 1]
  }

  ghost predicate Leads(cfg: Config, sys: System, e: Event, next: System) {
    Honest(sys, e) && Step(cfg, sys, e) == next
  }

  lemma StepsFollow(cfg: Config, script: seq<Event>, states: seq<System>)
    requires 4 <= |script| <= 5 && |states| == |script| + 1
    requires Leads(cfg, states[0], script[0], states[1]) && Leads(cfg, states[1], script[1], states[2])
    requires Leads(cfg, states[2], script[2], states[3]) && Leads(cfg, states[3], script[3], states[4])
    requires |script| == 5 ==> Leads(cfg, states[4], script[4], states[5])
    ensures Follows(cfg, script, states)
  {
    hide Step, Honest;
  }

  lemma {:induction false} ScriptRuns(cfg: Config, sys: System, events: seq<Event>, script: seq<Event>,
                                      states: seq<System>)
    requires HonestRun(cfg, sys, events) && Follows(cfg, script, states) && states[0] == Run(cfg, sys, events)
    ensures HonestRun(cfg, sys, events + script) && Run(cfg, sys, events + script) == states[|script|]
    decreases |script|
  {
    hide HonestRun, Run, Step, Honest;
    if |script| == 0 {
      assert events + script == events;
    } else {
      var n := |script| - 1;
      ScriptRuns(cfg, sys, events, script[..n], states[..|script|]);
      assert events + script == (events + script[..n]) + [script[n]];
      LastEvent(cfg, sys, events + script[..n], script[n]);
    }
  }

  // ----- a payment that is new -----

  /** The environment in which a prepared payment goes out: nothing is known of it and its nonce is next. */
  function Sending(v: Record, nonce: nat): Env {
    Env(Some(v), None, h => Unknown, Some(nonce), true)
  }

  /** The directory after a new payment was saved and named in `last.json`. */
  function Signed(s: Store, scope: Scope, v: Record): Store {
    SavePointer(SaveRecord(s, scope, v), Pointer(scope, Some(v.hash)))
  }

  function SentStore(s: Store, scope: Scope, v: Record): Store {
    Send(Signed(s, scope, v), scope, v)
  }

  lemma SentThere(s: Store, scope: Scope, v: Record)
    ensures (scope, v) in SentStore(s, scope, v).sent
  {
  }

  lemma NotThere(s: Store, scope: Scope, v: Record, other: Scope)
    requires other !in s.records && other != scope
    ensures other !in Signed(s, scope, v).records && other !in SentStore(s, scope, v).records
  {
  }

  lemma StampKeeps(cfg: Config, v: Record, scope: Scope)
    requires Checked(cfg, v, scope)
    ensures Stamp(cfg, v, scope) == v
  {
  }

  lemma NeverSaved(cfg: Config, s: Store, scope: Scope)
    requires Inv(cfg, s) && scope !in s.records
    ensures |Archived(s, scope)| == 0
  {
    hide ArchiveChecked;
    assert forall h :: h !in Archived(s, scope);
    assert Archived(s, scope) == map[];
  }

  /** The durable states of a new payment: saved, named, sent. */
  lemma NewPayment(cfg: Config, s: Store, scope: Scope, v: Record, nonce: nat)
    requires Inv(cfg, s) && scope !in s.records && Checked(cfg, v, scope) && v.tx.pay.nonce == nonce + 1
    requires s.pointer.Some? && s.pointer.value.scope == scope ==> s.pointer.value.hash == None
    ensures SubmitTrace(cfg, s, scope, v.tx.pay.amount, false, Sending(v, nonce)).states
         == [SaveRecord(s, scope, v), Signed(s, scope, v), SentStore(s, scope, v)]
  {
    hide Checked, Inv;
    StampKeeps(cfg, v, scope);
    NeverSaved(cfg, s, scope);
    var s1 := SaveRecord(s, scope, v);
    var s2 := Signed(s, scope, v);
    FreshAttempts(cfg, s2, scope, v, nonce);
    var env := Sending(v, nonce);
    assert SavedTrace(cfg, s1, scope, v.tx.pay.amount, false, env) == Prepend(s2, SendTrace(s2, scope, v, env));
  }

  lemma FreshAttempts(cfg: Config, s: Store, scope: Scope, v: Record, nonce: nat)
    requires scope in s.records && s.records[scope] == v && Checked(cfg, v, scope) && |Archived(s, scope)| == 0
    ensures SavedAttempts(cfg, s, scope) == Some(map[v.hash := v])
    ensures UnderWay(map[v.hash := v], Sending(v, nonce).status) == None
  {
    hide Checked;
    assert Archived(s, scope) == map[];
    assert forall state: Status ::
      state != Unknown ==> WithStatus(map[v.hash := v], Sending(v, nonce).status, state) == {};
  }

  // ----- at rest -----

  /** True answers to an operator whose account is not bonded. */
  function Rested(sys: System): Answers {
    Answers(sys.head, Absent, h => NotConfirmed, Some(sys.nonce), false)
  }

  /** The account is not bonded, and a bond command would open a scope: nothing is named, or a withdrawal. */
  ghost predicate AtRest(cfg: Config, sys: System, amount: string) {
    && Good(cfg, sys) && Timely(sys) && BondsAnnounced(sys.store) && sys.bonded == None
    && (sys.store.pointer.Some? ==> sys.store.pointer.value.scope.op == Withdraw)
    && Decide(cfg, sys.store, Rested(sys), amount) == Open(sys.head)
  }

  /** Then no record of this head's bond nor of any later enrollment is saved, and nothing is hidden. */
  lemma RestIsClean(cfg: Config, sys: System, amount: string)
    requires AtRest(cfg, sys, amount)
    ensures Scope(Bond, sys.head) !in sys.store.records
    ensures forall scope :: scope in sys.store.records && scope.op != Bond ==> scope.epoch <= sys.head
    ensures !Hides(cfg, sys, Rested(sys), amount) && PointerReadable(sys.store)
    ensures forall v :: (Scope(Bond, sys.head), v) !in sys.confirmed
  {
    hide Decide, SettledOn, RecordsChecked, ArchivesChecked, ArchivesLimited, PointerNamesAttempt;
    OpenMeansReadable(cfg, sys.store, Rested(sys), amount);
    if sys.store.pointer.Some? {
      WithdrawalSettlesAll(cfg, sys, Rested(sys), amount);
      NamedWithdrawalIsConsumed(cfg, sys.store, Rested(sys), amount);
    }
  }

  lemma OpenMeansReadable(cfg: Config, s: Store, a: Answers, amount: string)
    requires Decide(cfg, s, a, amount).Open?
    ensures PointerReadable(s)
  {
  }

  /** What a bond command at rest writes: the announcement, and the new payment. */
  lemma RestedBond(cfg: Config, sys: System, bond: Record)
    requires AtRest(cfg, sys, bond.tx.pay.amount)
    requires Checked(cfg, bond, Scope(Bond, sys.head)) && bond.tx.pay.nonce == sys.nonce + 1
    ensures var t := Signed(sys.store, Scope(Bond, sys.head), bond);
      var states := BondStates(cfg, sys.store, Rested(sys), bond.tx.pay.amount, false, Sending(bond, sys.nonce));
      |states| == 4 && states[2] == t && states[3] == SentStore(sys.store, Scope(Bond, sys.head), bond)
  {
    hide Checked, Decide, SubmitTrace, Inv, Timely;
    var scope := Scope(Bond, sys.head);
    RestIsClean(cfg, sys, bond.tx.pay.amount);
    var s1 := SavePointer(sys.store, Pointer(scope, None));
    AnnouncedIsSafe(cfg, sys.store, Pointer(scope, None));
    NewPayment(cfg, s1, scope, bond, sys.nonce);
    assert Signed(s1, scope, bond) == Signed(sys.store, scope, bond);
    assert SentStore(s1, scope, bond) == SentStore(sys.store, scope, bond);
  }

  lemma AnnouncedIsSafe(cfg: Config, s: Store, p: Pointer)
    requires Inv(cfg, s) && p.hash == None
    ensures Inv(cfg, SavePointer(s, p))
  {
    PointerSafe(cfg, s, p);
  }

  // ----- the uncovered case is reached again and again -----

  /**
  At rest, a bond is signed and the command stops before sending; other software bonds the account; an
  exit is signed for that enrollment; the account leaves.
  */
  function Detour(sys: System, bond: Record, exit: Record): seq<Event> {
    [BondCommand(Rested(sys), bond.tx.pay.amount, false, Sending(bond, sys.nonce), 3), BondElsewhere,
     Command(Scope(Exit, sys.head + 1), "0", false, Sending(exit, sys.nonce + 1), 2), Commit, Leave]
  }

  function DetourStates(sys: System, bond: Record, exit: Record): (states: seq<System>)
    ensures |states| == 6
  {
    var h := sys.head;
    var t := Signed(sys.store, Scope(Bond, h), bond);
    var u := Signed(t, Scope(Exit, h + 1), exit);
    [sys, sys.(store := t), sys.(store := t, nonce := sys.nonce + 1, bonded := Some(h + 1)),
     sys.(store := u, nonce := sys.nonce + 1, bonded := Some(h + 1)),
     sys.(store := u, nonce := sys.nonce + 1, bonded := Some(h + 1), head := h + 1),
     sys.(store := u, nonce := sys.nonce + 1, head := h + 1)]
  }

  /** The payments of one cycle, prepared one after the other. */
  predicate Prepared(cfg: Config, sys: System, bond: Record, exit: Record) {
    && Checked(cfg, bond, Scope(Bond, sys.head)) && bond.tx.pay.nonce == sys.nonce + 1
    && Checked(cfg, exit, Scope(Exit, sys.head + 1)) && exit.tx.pay.nonce == sys.nonce + 2
  }

  lemma CrashedAt(s: Store, states: seq<Store>, k: nat)
    requires 1 <= k <= |states|
    ensures Crashed(s, states, k) == states[k - 1]
  {
    assert k == |states| ==> states[..k] == states;
  }

  lemma FirstStep(cfg: Config, sys: System, bond: Record, writes: nat)
    requires AtRest(cfg, sys, bond.tx.pay.amount) && 3 <= writes <= 4
    requires Checked(cfg, bond, Scope(Bond, sys.head)) && bond.tx.pay.nonce == sys.nonce + 1
    ensures var e := BondCommand(Rested(sys), bond.tx.pay.amount, false, Sending(bond, sys.nonce), writes);
      var t := Signed(sys.store, Scope(Bond, sys.head), bond);
      && Honest(sys, e)
      && Step(cfg, sys, e)
      == sys.(store := if writes == 3 then t else SentStore(sys.store, Scope(Bond, sys.head), bond))
  {
    hide Checked, Decide, BondStates, Crashed, Hides, Good, Timely, Signed;
    RestedBond(cfg, sys, bond);
    RestIsClean(cfg, sys, bond.tx.pay.amount);
    var states := BondStates(cfg, sys.store, Rested(sys), bond.tx.pay.amount, false, Sending(bond, sys.nonce));
    CrashedAt(sys.store, states, writes);
  }

  /** An exit or withdrawal of the present enrollment, with the next nonce. */
  lemma LeaveStep(cfg: Config, sys: System, scope: Scope, v: Record, writes: nat)
    requires Good(cfg, sys) && scope.op != Bond && scope !in sys.store.records && sys.bonded == Some(scope.epoch)
    requires Checked(cfg, v, scope) && v.tx.pay.nonce == sys.nonce + 1 && 2 <= writes <= 3
    ensures var e := Command(scope, "0", false, Sending(v, sys.nonce), writes);
      var t := Signed(sys.store, scope, v);
      Honest(sys, e) && Step(cfg, sys, e) == sys.(store := if writes == 2 then t else SentStore(sys.store, scope, v))
  {
    hide Checked, SubmitTrace, Crashed, RecordsChecked, ArchivesChecked, ArchivesLimited, Signed;
    PaysNothing(cfg, v, scope);
    NewPayment(cfg, sys.store, scope, v, sys.nonce);
    CrashedAt(sys.store, SubmitTrace(cfg, sys.store, scope, "0", false, Sending(v, sys.nonce)).states, writes);
  }

  lemma PaysNothing(cfg: Config, v: Record, scope: Scope)
    requires Checked(cfg, v, scope) && scope.op != Bond
    ensures v.tx.pay.amount == "0"
  {
  }

  lemma ConfirmStep(cfg: Config, sys: System, scope: Scope, v: Record)
    requires (scope, v) in sys.store.sent && v.tx.pay.nonce == sys.nonce + 1
    ensures var e := Confirm(scope, v);
      && Honest(sys, e)
      && Step(cfg, sys, e) == sys.(nonce := sys.nonce + 1, confirmed := sys.confirmed + {(scope, v)},
                                   bonded := if scope.op == Bond then Enrolled(sys) else sys.bonded)
  {
  }

  /** What the ledger does without a transaction of this directory. */
  lemma QuietStep(cfg: Config, sys: System)
    ensures Honest(sys, BondElsewhere) && Honest(sys, Commit) && Honest(sys, Leave)
    ensures Step(cfg, sys, BondElsewhere) == sys.(nonce := sys.nonce + 1, bonded := Enrolled(sys))
    ensures Step(cfg, sys, Commit) == sys.(head := sys.head + 1)
    ensures sys.bonded.Some? && sys.bonded.value <= sys.head ==> Step(cfg, sys, Leave) == sys.(bonded := None)
  {
  }

  /** A bond sent or not leaves room for the exit and the withdrawal of the next enrollment. */
  lemma BondLeavesRoom(cfg: Config, sys: System, bond: Record, writes: nat, t: Store)
    requires AtRest(cfg, sys, bond.tx.pay.amount) && 3 <= writes <= 4
    requires Checked(cfg, bond, Scope(Bond, sys.head)) && bond.tx.pay.nonce == sys.nonce + 1
    requires t == if writes == 3 then Signed(sys.store, Scope(Bond, sys.head), bond)
                  else SentStore(sys.store, Scope(Bond, sys.head), bond)
    ensures var e := BondCommand(Rested(sys), bond.tx.pay.amount, false, Sending(bond, sys.nonce), writes);
      Leads(cfg, sys, e, sys.(store := t))
    ensures Good(cfg, sys.(store := t))
    ensures Scope(Exit, sys.head + 1) !in t.records && Scope(Withdraw, sys.head + 1) !in t.records
  {
    hide Checked, Decide, Step, Honest, Good, Timely, Signed, SentStore, Later;
    RestIsClean(cfg, sys, bond.tx.pay.amount);
    FirstStep(cfg, sys, bond, writes);
    StepSafe(cfg, sys, BondCommand(Rested(sys), bond.tx.pay.amount, false, Sending(bond, sys.nonce), writes));
    NotThere(sys.store, Scope(Bond, sys.head), bond, Scope(Exit, sys.head + 1));
    NotThere(sys.store, Scope(Bond, sys.head), bond, Scope(Withdraw, sys.head + 1));
  }

  lemma NotBonded(cfg: Config, sys: System, amount: string)
    requires AtRest(cfg, sys, amount)
    ensures sys.bonded == None
  {
  }

  lemma DetourFollows(cfg: Config, sys: System, bond: Record, exit: Record)
    requires AtRest(cfg, sys, bond.tx.pay.amount) && Prepared(cfg, sys, bond, exit)
    ensures Follows(cfg, Detour(sys, bond, exit), DetourStates(sys, bond, exit))
  {
    hide Checked, Decide, Step, Honest, Good, AtRest, Signed, SentStore, Later, Follows, Sending, Rested;
    var h, states := sys.head, DetourStates(sys, bond, exit);
    NotBonded(cfg, sys, bond.tx.pay.amount);
    BondLeavesRoom(cfg, sys, bond, 3, states[1].store);
    StepSafe(cfg, states[1], BondElsewhere);
    QuietStep(cfg, states[1]);
    LeaveStep(cfg, states[2], Scope(Exit, h + 1), exit, 2);
    QuietStep(cfg, states[3]);
    QuietStep(cfg, states[4]);
    StepsFollow(cfg, Detour(sys, bond, exit), states);
  }

  /** At the end of the detour the bond is neither confirmed nor withdrawn, and the exit stands in front of it. */
  lemma DetourHides(cfg: Config, sys: System, bond: Record, exit: Record, amount: string)
    requires AtRest(cfg, sys, bond.tx.pay.amount) && Prepared(cfg, sys, bond, exit)
    ensures var end := DetourStates(sys, bond, exit)[5];
      && Decide(cfg, end.store, Rested(end), amount) == Open(sys.head + 1)
      && Earlier(end.store, sys.head + 1, sys.head) && !SettledOn(end, sys.head)
      && Overlooked(end.store, Rested(end), sys.head + 1)
      && ExitHides(end, sys.head + 1) && Hides(cfg, end, Rested(end), amount)
      && Consumed(end, Scope(Bond, sys.head))
  {
    hide Checked, Good, Timely;
    RestIsClean(cfg, sys, bond.tx.pay.amount);
    var end := DetourStates(sys, bond, exit)[5];
    assert Earlier(end.store, sys.head + 1, sys.head);
    assert forall b: nat :: Scope(Withdraw, b) in end.store.records ==> Scope(Withdraw, b) in sys.store.records;
  }

  /** The bond command at the end of the detour. */
  function NextBond(end: System, amount: string, writes: nat): Event {
    BondCommand(Rested(end), amount, false, Env(None, None, h => Unknown, None, false), writes)
  }

  /** After the detour the next bond scope opens while an exit stands in front of an unsettled bond. */
  ghost predicate DetourMet(cfg: Config, n: nat, events: seq<Event>, sys: System, bond: Record, exit: Record) {
    var longer, end := events + Detour(sys, bond, exit), DetourStates(sys, bond, exit)[5];
    && Run(cfg, Initial(n), longer) == end && ExitHides(end, end.head)
    && HonestRun(cfg, Initial(n), longer + [NextBond(end, bond.tx.pay.amount, 0)])
    && Run(cfg, Initial(n), longer + [NextBond(end, bond.tx.pay.amount, 0)]).hidden
    && Decide(cfg, end.store, Rested(end), bond.tx.pay.amount) == Open(end.head)
  }

  /**
  However many cycles have been completed: whenever, on true answers, a bond command would open a scope
  behind a withdrawal or in an empty directory, a continuation of true answers meets the uncovered case.
  */
  lemma UncoveredCaseRecurs(cfg: Config, n: nat, events: seq<Event>, sys: System, bond: Record, exit: Record)
    requires HonestRun(cfg, Initial(n), events) && sys == Run(cfg, Initial(n), events)
    requires AtRest(cfg, sys, bond.tx.pay.amount) && Prepared(cfg, sys, bond, exit)
    ensures DetourMet(cfg, n, events, sys, bond, exit)
  {
    hide Checked, Run, HonestRun, BondStates, Crashed, Decide, SettledOn, Good, Timely, Follows, Signed, ExitHides;
    var script, states := Detour(sys, bond, exit), DetourStates(sys, bond, exit);
    DetourFollows(cfg, sys, bond, exit);
    ScriptRuns(cfg, Initial(n), events, script, states);
    DetourHides(cfg, sys, bond, exit, bond.tx.pay.amount);
    LastEvent(cfg, Initial(n), events + script, NextBond(states[5], bond.tx.pay.amount, 0));
  }

  // ----- a completed cycle -----

  /** A bond and an exit are sent and confirmed. */
  function Bonding(sys: System, bond: Record, exit: Record): seq<Event> {
    var b, x := Scope(Bond, sys.head), Scope(Exit, sys.head + 1);
    [BondCommand(Rested(sys), bond.tx.pay.amount, false, Sending(bond, sys.nonce), 4), Confirm(b, bond),
     Command(x, "0", false, Sending(exit, sys.nonce + 1), 3), Confirm(x, exit)]
  }

  /** The withdrawal is sent and confirmed, and the account leaves. */
  function Leaving(sys: System, back: Record): seq<Event> {
    var w := Scope(Withdraw, sys.head + 1);
    [Command(w, "0", false, Sending(back, sys.nonce), 3), Confirm(w, back), Commit, Leave, Commit]
  }

  function Cycle(sys: System, bond: Record, exit: Record, back: Record): seq<Event> {
    Bonding(sys, bond, exit) + Leaving(BondedStates(sys, bond, exit)[4], back)
  }

  function CycleEnd(sys: System, bond: Record, exit: Record, back: Record): System {
    LeavingStates(BondedStates(sys, bond, exit)[4], back)[5]
  }

  /** The bond and the exit of the cycle, sent and confirmed. */
  function BondedStates(sys: System, bond: Record, exit: Record): (states: seq<System>)
    ensures |states| == 5
  {
    var b, x := Scope(Bond, sys.head), Scope(Exit, sys.head + 1);
    var s1 := sys.(store := SentStore(sys.store, b, bond));
    var s2 := s1.(nonce := sys.nonce + 1, confirmed := s1.confirmed + {(b, bond)}, bonded := Some(sys.head + 1));
    var s3 := s2.(store := SentStore(s2.store, x, exit));
    [sys, s1, s2, s3, s3.(nonce := sys.nonce + 2, confirmed := s3.confirmed + {(x, exit)})]
  }

  /** From an enrollment at epoch head + 1 on: the withdrawal. */
  function LeavingStates(sys: System, back: Record): (states: seq<System>)
    ensures |states| == 6
  {
    var w := Scope(Withdraw, sys.head + 1);
    var s1 := sys.(store := SentStore(sys.store, w, back));
    var s2 := s1.(nonce := sys.nonce + 1, confirmed := s1.confirmed + {(w, back)});
    var s3 := s2.(head := sys.head + 1);
    var s4 := s3.(bonded := None);
    [sys, s1, s2, s3, s4, s4.(head := sys.head + 2)]
  }

  lemma BondingFollows(cfg: Config, sys: System, bond: Record, exit: Record)
    requires AtRest(cfg, sys, bond.tx.pay.amount) && Prepared(cfg, sys, bond, exit)
    ensures Follows(cfg, Bonding(sys, bond, exit), BondedStates(sys, bond, exit))
    ensures var end := BondedStates(sys, bond, exit)[4];
      Good(cfg, end) && Scope(Withdraw, sys.head + 1) !in end.store.records
  {
    hide Checked, Decide, Step, Honest, Good, AtRest, Signed, SentStore, Later, Follows, Sending, Rested;
    var h, script, states := sys.head, Bonding(sys, bond, exit), BondedStates(sys, bond, exit);
    NotBonded(cfg, sys, bond.tx.pay.amount);
    BondLeavesRoom(cfg, sys, bond, 4, states[1].store);
    SentThere(sys.store, Scope(Bond, h), bond);
    ConfirmStep(cfg, states[1], Scope(Bond, h), bond);
    StepSafe(cfg, states[1], script[1]);
    LeaveStep(cfg, states[2], Scope(Exit, h + 1), exit, 3);
    SentThere(states[2].store, Scope(Exit, h + 1), exit);
    NotThere(states[2].store, Scope(Exit, h + 1), exit, Scope(Withdraw, h + 1));
    StepSafe(cfg, states[2], script[2]);
    ConfirmStep(cfg, states[3], Scope(Exit, h + 1), exit);
    StepSafe(cfg, states[3], script[3]);
    StepsFollow(cfg, script, states);
  }

  lemma LeavingFollows(cfg: Config, sys: System, back: Record)
    requires Good(cfg, sys) && sys.bonded == Some(sys.head + 1) && Scope(Withdraw, sys.head + 1) !in sys.store.records
    requires Checked(cfg, back, Scope(Withdraw, sys.head + 1)) && back.tx.pay.nonce == sys.nonce + 1
    ensures Follows(cfg, Leaving(sys, back), LeavingStates(sys, back))
  {
    hide Checked, Step, Honest, Good, Signed, SentStore, Follows;
    var states, w := LeavingStates(sys, back), Scope(Withdraw, sys.head + 1);
    LeaveStep(cfg, sys, w, back, 3);
    SentThere(sys.store, w, back);
    ConfirmStep(cfg, states[1], w, back);
    QuietStep(cfg, states[2]);
    QuietStep(cfg, states[3]);
    QuietStep(cfg, states[4]);
    StepsFollow(cfg, Leaving(sys, back), states);
  }

  lemma LeavingEndsAtRest(cfg: Config, sys: System, back: Record, amount: string)
    requires Good(cfg, sys) && Scope(Withdraw, sys.head + 1) !in sys.store.records
    requires Checked(cfg, back, Scope(Withdraw, sys.head + 1)) && back.tx.pay.nonce == sys.nonce + 1
    ensures var end := LeavingStates(sys, back)[5]; Decide(cfg, end.store, Rested(end), amount) == Open(end.head)
  {
    hide Checked, Good, SavedAttempts;
    var end, w := LeavingStates(sys, back)[5], Scope(Withdraw, sys.head + 1);
    GoodInv(cfg, sys);
    NeverSaved(cfg, sys.store, w);
    FreshAttempts(cfg, end.store, w, back, 0);
  }

  /** What a completed cycle leaves: its bond confirmed, its withdrawal named and consumed. */
  ghost predicate Completed(sys: System, end: System, bond: Record) {
    && end.nonce == sys.nonce + 3 && end.head == sys.head + 2 && end.hidden == sys.hidden
    && (Scope(Bond, sys.head), bond) in end.confirmed
    && end.store.pointer.Some? && end.store.pointer.value.scope == Scope(Withdraw, sys.head + 1)
    && WithdrawnAfter(end.store, sys.head, sys.head + 1)
    && end.store.records[Scope(Withdraw, sys.head + 1)].tx.pay.nonce == end.nonce
  }

  lemma CycleCompletes(sys: System, bond: Record, exit: Record, back: Record)
    requires bond.tx.pay.nonce == sys.nonce + 1 && back.tx.pay.nonce == sys.nonce + 3
    ensures Completed(sys, CycleEnd(sys, bond, exit, back), bond)
  {
  }

  /** The payments of a whole cycle. */
  predicate CyclePrepared(cfg: Config, sys: System, bond: Record, exit: Record, back: Record) {
    && Prepared(cfg, sys, bond, exit)
    && Checked(cfg, back, Scope(Withdraw, sys.head + 1)) && back.tx.pay.nonce == sys.nonce + 3
  }

  lemma CycleRuns(cfg: Config, n: nat, events: seq<Event>, sys: System, bond: Record, exit: Record, back: Record,
                  amount: string)
    requires HonestRun(cfg, Initial(n), events) && sys == Run(cfg, Initial(n), events)
    requires AtRest(cfg, sys, bond.tx.pay.amount) && CyclePrepared(cfg, sys, bond, exit, back)
    ensures var longer, end := events + Cycle(sys, bond, exit, back), CycleEnd(sys, bond, exit, back);
      && HonestRun(cfg, Initial(n), longer) && Run(cfg, Initial(n), longer) == end
      && Decide(cfg, end.store, Rested(end), amount) == Open(end.head)
  {
    hide Checked, Run, HonestRun, Decide, AtRest, Good, Follows, Bonding, Leaving, SentStore, Rested;
    var script, states := Bonding(sys, bond, exit), BondedStates(sys, bond, exit);
    BondingFollows(cfg, sys, bond, exit);
    assert |script| == 4 by { SizesOf(sys, bond, exit, back); }
    ScriptRuns(cfg, Initial(n), events, script, states);
    var mid := states[4];
    LeavingFollows(cfg, mid, back);
    SizesOf(mid, bond, exit, back);
    ScriptRuns(cfg, Initial(n), events + script, Leaving(mid, back), LeavingStates(mid, back));
    assert events + script + Leaving(mid, back) == events + (script + Leaving(mid, back));
    LeavingEndsAtRest(cfg, mid, back, amount);
  }

  lemma SizesOf(sys: System, bond: Record, exit: Record, back: Record)
    ensures |Bonding(sys, bond, exit)| == 4 && |Leaving(sys, back)| == 5
  {
  }

  /** A completed cycle ends at rest again, so that the next one can follow. */
  lemma CycleReturns(cfg: Config, n: nat, events: seq<Event>, sys: System, bond: Record, exit: Record, back: Record,
                     amount: string)
    requires HonestRun(cfg, Initial(n), events) && sys == Run(cfg, Initial(n), events)
    requires AtRest(cfg, sys, bond.tx.pay.amount) && CyclePrepared(cfg, sys, bond, exit, back)
    ensures var longer, end := events + Cycle(sys, bond, exit, back), CycleEnd(sys, bond, exit, back);
      && HonestRun(cfg, Initial(n), longer) && Run(cfg, Initial(n), longer) == end
      && AtRest(cfg, end, amount) && Completed(sys, end, bond)
  {
    hide Checked, Run, HonestRun, Decide, Good, Timely, Cycle, Orderly, OneInFlight, OneBondInFlight;
    hide Completed, Rested, SentStore;
    var longer, end := events + Cycle(sys, bond, exit, back), CycleEnd(sys, bond, exit, back);
    CycleRuns(cfg, n, events, sys, bond, exit, back, amount);
    CycleCompletes(sys, bond, exit, back);
    BondsNeverCompete(cfg, n, longer);
    RunStaysTimely(cfg, n, longer);
    OrderlyAnnounces(end);
    EndsBehindWithdrawal(sys, bond, exit, back);
  }

  lemma EndsBehindWithdrawal(sys: System, bond: Record, exit: Record, back: Record)
    ensures var end := CycleEnd(sys, bond, exit, back);
      end.bonded == None && end.store.pointer.Some? && end.store.pointer.value.scope.op == Withdraw
  {
  }

  lemma OrderlyAnnounces(sys: System)
    requires Orderly(sys)
    ensures BondsAnnounced(sys.store)
  {
  }

  lemma InitialAtRest(cfg: Config, n: nat, amount: string)
    ensures AtRest(cfg, Initial(n), amount)
  {
  }

  /**
  Two instances from an empty directory: the uncovered case is met at once, and it is met after a
  completed cycle whose bond is confirmed and whose withdrawal has consumed its nonce.
  */
  lemma UncoveredCaseIsReached(cfg: Config, n: nat, bond: Record, exit: Record, back: Record, bond': Record,
                               exit': Record)
    requires CyclePrepared(cfg, Initial(n), bond, exit, back)
    requires Prepared(cfg, CycleEnd(Initial(n), bond, exit, back), bond', exit')
    ensures DetourMet(cfg, n, [], Initial(n), bond, exit)
    ensures var end := CycleEnd(Initial(n), bond, exit, back);
      Completed(Initial(n), end, bond) && DetourMet(cfg, n, Cycle(Initial(n), bond, exit, back), end, bond', exit')
  {
    hide Checked, Run, HonestRun, AtRest, DetourMet, Cycle, CycleEnd, Completed;
    var start, cycle, end := Initial(n), Cycle(Initial(n), bond, exit, back), CycleEnd(Initial(n), bond, exit, back);
    InitialAtRest(cfg, n, bond.tx.pay.amount);
    InitialRun(cfg, start);
    UncoveredCaseRecurs(cfg, n, [], start, bond, exit);
    CycleReturns(cfg, n, [], start, bond, exit, back, bond'.tx.pay.amount);
    assert [] + cycle == cycle;
    UncoveredCaseRecurs(cfg, n, cycle, end, bond', exit');
  }

  lemma InitialRun(cfg: Config, sys: System)
    ensures Run(cfg, sys, []) == sys && HonestRun(cfg, sys, [])
  {
  }
}
