/**
Whole runs of the payment protocol: operator commands that may crash after any durable write, and a
ledger that confirms sent transactions and consumes account nonces one by one. Node answers are
unconstrained: no safety statement here relies on the node telling the truth, except where said.
*/
module OutboxRun {
  import opened Options
  import opened OutboxStore
  import opened Outbox
  import opened BondScope

  /**
  The control directory and the ledger: the account's nonce, what has been confirmed, the epoch at which
  the account was bonded if it is, and the committed head. `hidden` remembers whether a bond command
  ever met `Hides`.
  */
  datatype System = System(store: Store, nonce: nat, confirmed: set<(Scope, Record)>, bonded: Option<nat>, head: nat,
                           hidden: bool)

  /** A crash leaves the directory as it was after the first `writes` durable writes. */
  datatype Event =
    | Command(scope: Scope, amount: string, renew: bool, env: Env, writes: nat)
    | Announce(epoch: nat, writes: nat)
    | BondCommand(answers: Answers, amount: string, renew: bool, env: Env, writes: nat)
    | Confirm(of: Scope, paid: Record) // the ledger includes a transaction that was sent
    | Spend                            // another transaction of the account consumes a nonce
    | BondElsewhere                    // a bond transaction of the account, made by other software, is included
    | Leave                            // the account is no longer bonded
    | Commit                           // the next epoch is committed

  function Crashed(s: Store, states: seq<Store>, writes: nat): Store {
    Final(s, if writes < |states| then states[..writes] else states)
  }

  /** The durable states of `submit_bond`: the scope that `Decide` opens is announced, then submitted. */
  function BondStates(cfg: Config, s: Store, a: Answers, amount: string, renew: bool, env: Env): seq<Store> {
    match Decide(cfg, s, a, amount)
    case Open(epoch) =>
      (match BeginBondTrace(cfg, s, epoch)
       case None => []
       case Some(states) => states + SubmitTrace(cfg, Final(s, states), Scope(Bond, epoch), amount, renew, env).states)
    case _ => []
  }

  /** The rule, on the ledger: the bond is confirmed, or a saved withdrawal that came after it has consumed its nonce. */
  ghost predicate SettledOn(sys: System, e: nat) {
    || (exists v :: (Scope(Bond, e), v) in sys.confirmed)
    || (exists b: nat :: WithdrawnAfter(sys.store, e, b) && sys.store.records[Scope(Withdraw, b)].tx.pay.nonce <= sys.nonce)
  }

  /** The command opens a scope while `last.json` names an exit or withdrawal in front of an unsettled bond. */
  ghost predicate Hides(cfg: Config, sys: System, a: Answers, amount: string) {
    && Decide(cfg, sys.store, a, amount).Open? && sys.store.pointer.Some? && sys.store.pointer.value.scope.op != Bond
    && exists e :: Earlier(sys.store, Decide(cfg, sys.store, a, amount).epoch, e) && !SettledOn(sys, e)
  }

  /** Transactions are included in the epoch in progress, the one after the committed head. */
  function Enrolled(sys: System): Option<nat> {
    if sys.bonded.Some? then sys.bonded else Some(sys.head + 1)
  }

  ghost function Step(cfg: Config, sys: System, e: Event): System {
    match e
    case Command(scope, amount, renew, env, writes) =>
      sys.(store := Crashed(sys.store, SubmitTrace(cfg, sys.store, scope, amount, renew, env).states, writes))
    case Announce(epoch, writes) =>
      (match BeginBondTrace(cfg, sys.store, epoch)
       case None => sys
       case Some(states) => sys.(store := Crashed(sys.store, states, writes)))
    case BondCommand(a, amount, renew, env, writes) =>
      sys.(store := Crashed(sys.store, BondStates(cfg, sys.store, a, amount, renew, env), writes),
           hidden := sys.hidden || Hides(cfg, sys, a, amount))
    case Confirm(scope, v) =>
      if (scope, v) in sys.store.sent && v.tx.pay.nonce == sys.nonce + 1
      then sys.(nonce := sys.nonce + 1, confirmed := sys.confirmed + {(scope, v)},
                bonded := if scope.op == Bond then Enrolled(sys) else sys.bonded)
      else sys
    case Spend => sys.(nonce := sys.nonce + 1)
    case BondElsewhere => sys.(nonce := sys.nonce + 1, bonded := Enrolled(sys))
    case Leave => if sys.bonded.Some? && sys.bonded.value <= sys.head then sys.(bonded := None) else sys
    case Commit => sys.(head := sys.head + 1)
  }

  ghost function Run(cfg: Config, sys: System, events: seq<Event>): System
    decreases |events|
  {
    if |events| == 0 then sys else Step(cfg, Run(cfg, sys, events[..|events| - 1]), events[|events| - 1])
  }

  /** A fresh directory and an account whose nonce is `n`, at head 0. */
  function Initial(n: nat): System {
    System(Store(map[], map[], None, {}), n, {}, None, 0, false)
  }

  // ----- safety of all runs -----

  /** Confirmed transactions were sent, carry consumed nonces, and no two carry the same nonce. */
  ghost predicate LedgerConsistent(sys: System) {
    && sys.confirmed <= sys.store.sent
    && (forall c :: c in sys.confirmed ==> c.1.tx.pay.nonce <= sys.nonce)
    && (forall a, b :: a in sys.confirmed && b in sys.confirmed && a.1.tx.pay.nonce == b.1.tx.pay.nonce ==> a == b)
  }

  ghost predicate Good(cfg: Config, sys: System) {
    Inv(cfg, sys.store) && LedgerConsistent(sys)
  }

  /** What later states keep of earlier ones. */
  ghost predicate Later(sys: System, sys': System) {
    Keeps(sys.store, sys'.store) && sys.nonce <= sys'.nonce && sys.confirmed <= sys'.confirmed
    && sys.head <= sys'.head
  }

  lemma CrashedSafe(cfg: Config, s: Store, states: seq<Store>, writes: nat)
    requires Inv(cfg, s) && SafeTrace(cfg, s, states)
    ensures Inv(cfg, Crashed(s, states, writes)) && Keeps(s, Crashed(s, states, writes))
  {
    hide Inv;
  }

  /** Announcing and submitting one after the other. */
  lemma BondStatesSafe(cfg: Config, s: Store, a: Answers, amount: string, renew: bool, env: Env)
    requires Inv(cfg, s)
    ensures SafeTrace(cfg, s, BondStates(cfg, s, a, amount, renew, env))
  {
    hide Inv, Keeps, SubmitTrace, BeginBondTrace, Decide;
    var d := Decide(cfg, s, a, amount);
    if d.Open? {
      var begin := BeginBondTrace(cfg, s, d.epoch);
      BeginBondSafe(cfg, s, d.epoch);
      if begin.Some? {
        var mid := Final(s, begin.value);
        KeepsSelf(s);
        SubmitSafe(cfg, mid, Scope(Bond, d.epoch), amount, renew, env);
        JoinSafe(cfg, s, begin.value, SubmitTrace(cfg, mid, Scope(Bond, d.epoch), amount, renew, env).states);
      }
    }
  }

  lemma KeepsSelf(s: Store)
    ensures Keeps(s, s)
  {
  }

  lemma JoinSafe(cfg: Config, s: Store, first: seq<Store>, second: seq<Store>)
    requires Inv(cfg, s) && SafeTrace(cfg, s, first) && SafeTrace(cfg, Final(s, first), second) && Keeps(s, s)
    ensures SafeTrace(cfg, s, first + second)
  {
    hide Inv, Keeps;
    forall i | 0 <= i < |first + second| ensures Inv(cfg, (first + second)[i]) && Keeps(s, (first + second)[i]) {
      if i >= |first| {
        KeepsTransitive(s, Final(s, first), second[i - |first|]);
      }
    }
  }

  lemma StepSafe(cfg: Config, sys: System, e: Event)
    requires Good(cfg, sys)
    ensures Good(cfg, Step(cfg, sys, e)) && Later(sys, Step(cfg, sys, e))
  {
    hide Inv, SubmitTrace, BeginBondTrace, BondStates, SafeTrace, Crashed, Hides;
    match e
    case Command(scope, amount, renew, env, writes) =>
      SubmitSafe(cfg, sys.store, scope, amount, renew, env);
      CrashedSafe(cfg, sys.store, SubmitTrace(cfg, sys.store, scope, amount, renew, env).states, writes);
    case Announce(epoch, writes) =>
      BeginBondSafe(cfg, sys.store, epoch);
      if BeginBondTrace(cfg, sys.store, epoch).Some? {
        CrashedSafe(cfg, sys.store, BeginBondTrace(cfg, sys.store, epoch).value, writes);
      }
    case BondCommand(a, amount, renew, env, writes) =>
      BondStatesSafe(cfg, sys.store, a, amount, renew, env);
      CrashedSafe(cfg, sys.store, BondStates(cfg, sys.store, a, amount, renew, env), writes);
    case Confirm(scope, v) =>
    case Spend =>
    case BondElsewhere =>
    case Leave =>
    case Commit =>
  }

  lemma {:induction false} RunSafe(cfg: Config, sys: System, events: seq<Event>)
    requires Good(cfg, sys)
    ensures Good(cfg, Run(cfg, sys, events)) && Later(sys, Run(cfg, sys, events))
    decreases |events|
  {
    hide Good, Step;
    if |events| == 0 {
    } else {
      var front := events[..|events| - 1];
      RunSafe(cfg, sys, front);
      StepSafe(cfg, Run(cfg, sys, front), events[|events| - 1]);
    }
  }

  lemma InitialGood(cfg: Config, n: nat)
    ensures Good(cfg, Initial(n))
  {
  }

  /**
  No double payment: in every run with crashes anywhere, everything ever sent for a scope is still
  saved and is one payment with one nonce, so the ledger confirms at most one transaction of it.
  */
  lemma NoDoublePayment(cfg: Config, n: nat, events: seq<Event>)
    ensures var sys := Run(cfg, Initial(n), events);
      && (forall scope, v :: (scope, v) in sys.store.sent ==> OnDisk(sys.store, scope, v))
      && (forall scope, v, w :: (scope, v) in sys.store.sent && (scope, w) in sys.store.sent ==> v.tx.pay == w.tx.pay)
      && (forall a, b :: a in sys.confirmed && b in sys.confirmed && a.0 == b.0 ==> a == b)
      && PointerNamesAttempt(sys.store)
  {
    hide Run, RecordsChecked, ArchivesChecked, ArchivesLimited, PointerNamesAttempt;
    InitialGood(cfg, n);
    RunSafe(cfg, Initial(n), events);
    var sys := Run(cfg, Initial(n), events);
    forall a, b | a in sys.confirmed && b in sys.confirmed && a.0 == b.0 ensures a == b {
      assert (a.0, a.1) in sys.store.sent && (b.0, b.1) in sys.store.sent;
    }
  }

  // ----- payments whose nonce is consumed -----

  /** A payment whose nonce is consumed cannot be confirmed by the next event. */
  lemma NotConfirmedNext(cfg: Config, sys: System, scope: Scope, c: (Scope, Record), e: Event)
    requires Good(cfg, sys) && scope in sys.store.records && sys.store.records[scope].tx.pay.nonce <= sys.nonce
    requires c in Step(cfg, sys, e).confirmed && c.0 == scope
    ensures c in sys.confirmed
  {
    hide RecordsChecked, ArchivesChecked, ArchivesLimited, PointerNamesAttempt, SubmitTrace, BeginBondTrace, BondStates, OnDisk, Hides;
  }

  /** Nor by any later event: the confirmations of that scope are final. */
  lemma {:induction false} ConsumedIsClosed(cfg: Config, sys: System, scope: Scope, c: (Scope, Record), later: seq<Event>)
    requires Good(cfg, sys) && scope in sys.store.records && sys.store.records[scope].tx.pay.nonce <= sys.nonce
    requires c in Run(cfg, sys, later).confirmed && c.0 == scope
    ensures c in sys.confirmed
    decreases |later|
  {
    hide Good, Step;
    if |later| == 0 {
    } else {
      var front := later[..|later| - 1];
      RunSafe(cfg, sys, front);
      NotConfirmedNext(cfg, Run(cfg, sys, front), scope, c, later[|later| - 1]);
      ConsumedIsClosed(cfg, sys, scope, c, front);
    }
  }

  // ----- resuming duty after a requested exit -----

  /** `allow_resume`: every attempt is rejected and the nonce of the payment has been consumed. */
  function AllowResume(cfg: Config, s: Store, epoch: nat, env: Env): bool {
    var scope := Scope(Exit, epoch);
    if scope !in s.records then NewOutboxAllowed(s, scope)
    else
      var attempts := SavedAttempts(cfg, s, scope);
      && attempts.Some?
      && (forall h :: h in attempts.value ==> env.status(h) == Rejected)
      && env.nonce.Some? && env.nonce.value >= s.records[scope].tx.pay.nonce
  }

  /** The node answers about this account are true at `sys`. */
  ghost predicate Truthful(sys: System, env: Env) {
    && (env.nonce.Some? ==> env.nonce.value <= sys.nonce)
    && (forall c :: c in sys.confirmed ==> env.status(c.1.hash) != Rejected)
  }

  /**
  Once resuming has been allowed for a saved exit, on true answers, no transaction of that exit is
  ever confirmed, whatever happens afterwards.
  */
  lemma ResumeIsFinal(cfg: Config, sys: System, epoch: nat, env: Env, later: seq<Event>)
    requires Good(cfg, sys) && Truthful(sys, env) && AllowResume(cfg, sys.store, epoch, env)
    requires Scope(Exit, epoch) in sys.store.records
    ensures forall c :: c in Run(cfg, sys, later).confirmed ==> c.0 != Scope(Exit, epoch)
  {
    hide Run;
    forall c | c in Run(cfg, sys, later).confirmed ensures c.0 != Scope(Exit, epoch) {
      if c.0 == Scope(Exit, epoch) {
        ConsumedIsClosed(cfg, sys, Scope(Exit, epoch), c, later);
        RejectedNotConfirmed(cfg, sys, epoch, env, c);
        assert false;
      }
    }
  }

  lemma RejectedNotConfirmed(cfg: Config, sys: System, epoch: nat, env: Env, c: (Scope, Record))
    requires Good(cfg, sys) && Truthful(sys, env) && AllowResume(cfg, sys.store, epoch, env)
    requires Scope(Exit, epoch) in sys.store.records && c in sys.confirmed
    ensures c.0 != Scope(Exit, epoch)
  {
    hide RecordsChecked, ArchivesChecked, ArchivesLimited, PointerNamesAttempt, Checked;
    assert (c.0, c.1) in sys.store.sent;
  }
}
