/**
Which outbox scope a bond uses (`submit_bond` of `controls/lib/validator_enroll.py` with
`bond_attempt`, `confirmed_attempt` and `can_rebond` of `controls/lib/validator_exit.py`), and
exactly when a call leaves an earlier bond unsettled. Whole runs are in `BondRun` and `BondCycle`.
*/
module BondScope {
  import opened Options
  import opened OutboxStore
  import opened Outbox

  /** What the node reports of one transaction; a receipt that differs from the saved bytes is an error. */
  datatype Receipt = NotConfirmed | ConfirmedAt(epoch: int) | Differs

  /** Committed enrollment: absent, or bonded at an epoch. */
  datatype Enrollment = Absent | Bonded(epoch: nat)

  datatype Answers = Answers(head: nat, enrollment: Enrollment, receipt: nat -> Receipt, nonce: Option<nat>,
                             resumed: bool) // `resumed`: a bond recorded by an older release is still under way

  /** The bond `last.json` speaks of: its epoch, the saved record, the confirmed attempt. */
  datatype Prior = Prior(epoch: nat, saved: Option<Record>, confirmed: Option<(Record, int)>)

  datatype Decision =
    | Refuse
    | Previously(hash: nat) // nothing is submitted: the bond is already confirmed
    | Resume                // nothing is submitted: a recorded bond is still under way
    | Open(epoch: nat)      // begin_bond and submit with this scope

  // ----- bond_attempt -----

  /** A receipt outside the epochs in which the attempt can be included is an error. */
  predicate ReceiptOk(r: Receipt, first: int, head: int) {
    match r
    case NotConfirmed => true
    case ConfirmedAt(e) => first <= e <= head
    case Differs => false
  }

  function ConfirmedHashes(attempts: map<nat, Record>, receipt: nat -> Receipt): set<nat> {
    set h | h in attempts && receipt(h).ConfirmedAt?
  }

  /** None is a refusal; Some(None) means `last.json` speaks of no bond. */
  function BondAttempt(cfg: Config, s: Store, a: Answers): Option<Option<Prior>> {
    if !PointerReadable(s) then None
    else if s.pointer == None || s.pointer.value.scope.op != Bond then Some(None)
    else
      var scope, hash := s.pointer.value.scope, s.pointer.value.hash;
      if scope.epoch > a.head then None
      else if scope !in s.records then
        if hash.Some? then None else Some(Some(Prior(scope.epoch, None, None)))
      else
        var attempts := SavedAttempts(cfg, s, scope);
        if attempts == None || (hash.Some? && hash.value !in attempts.value) then None
        else if exists h :: h in attempts.value && !ReceiptOk(a.receipt(h), scope.epoch + 1, a.head) then None
        else
          var confirmed := ConfirmedHashes(attempts.value, a.receipt);
          if |confirmed| > 1 then None
          else if confirmed == {} then Some(Some(Prior(scope.epoch, Some(s.records[scope]), None)))
          else
            var h := Least(confirmed);
            Some(Some(Prior(scope.epoch, Some(s.records[scope]), Some((attempts.value[h], a.receipt(h).epoch)))))
  }

  /** `can_rebond`: None is a refusal. */
  function CanRebond(cfg: Config, s: Store, a: Answers): Option<bool> {
    if s.pointer == None || s.pointer.value.scope.op != Withdraw then Some(false)
    else
      var scope, hash := s.pointer.value.scope, s.pointer.value.hash;
      if a.head <= scope.epoch || hash == None || !NamesAttempt(cfg, s, scope, hash.value) then None
      else if a.nonce == None || a.nonce.value < SavedAttempts(cfg, s, scope).value[hash.value].tx.pay.nonce then None
      else Some(true)
  }

  // ----- submit_bond -----

  function Decide(cfg: Config, s: Store, a: Answers, amount: string): Decision {
    var prior := BondAttempt(cfg, s, a);
    if prior == None then Refuse
    else
      var confirmed := if prior.value.Some? then prior.value.value.confirmed else None;
      if a.enrollment.Bonded? then
        if confirmed.Some? && confirmed.value.1 == a.enrollment.epoch && confirmed.value.0.tx.pay.amount == amount
        then Previously(confirmed.value.0.hash)
        else Refuse
      else if prior.value == None then
        var again := CanRebond(cfg, s, a);
        if again == None then Refuse
        else if !again.value && a.resumed then Resume
        else Open(a.head)
      else if confirmed == None then Open(prior.value.value.epoch)
      else if a.head <= confirmed.value.1 then Refuse
      else Open(a.head)
  }

  // ----- the rule: a new scope only after every earlier bond is settled -----

  /**
  The withdrawal of epoch `b` came after the bond of head `e`: it ends an enrollment that began later
  than `e`, and it spends a later nonce.
  */
  predicate WithdrawnAfter(s: Store, e: nat, b: nat) {
    && Scope(Bond, e) in s.records && Scope(Withdraw, b) in s.records && e < b
    && s.records[Scope(Bond, e)].tx.pay.nonce < s.records[Scope(Withdraw, b)].tx.pay.nonce
  }

  /**
  The bond scope `e` is settled on the node's answers: a saved attempt is confirmed at an earlier
  head, or a saved withdrawal that came after it has consumed its nonce.
  */
  ghost predicate Settled(s: Store, a: Answers, e: nat) {
    || (exists v :: OnDisk(s, Scope(Bond, e), v) && a.receipt(v.hash).ConfirmedAt? && a.receipt(v.hash).epoch < a.head)
    || (exists b: nat :: WithdrawnAfter(s, e, b) && b < a.head && a.nonce.Some?
                    && a.nonce.value >= s.records[Scope(Withdraw, b)].tx.pay.nonce)
  }

  /** A bond is saved under another scope than `epoch`. */
  predicate Earlier(s: Store, epoch: nat, e: nat) {
    Scope(Bond, e) in s.records && e != epoch
  }

  ghost predicate RuleHolds(s: Store, a: Answers, epoch: nat) {
    forall e :: Earlier(s, epoch, e) ==> Settled(s, a, e)
  }

  /** The uncovered case: some other saved bond is not settled, and it is not the one that `last.json` names. */
  ghost predicate Overlooked(s: Store, a: Answers, epoch: nat) {
    s.pointer.Some? && exists e :: Earlier(s, epoch, e) && s.pointer.value.scope != Scope(Bond, e) && !Settled(s, a, e)
  }

  lemma AttemptOnDisk(cfg: Config, s: Store, scope: Scope, h: nat)
    requires NamesAttempt(cfg, s, scope, h)
    ensures var v := SavedAttempts(cfg, s, scope).value[h]; v.hash == h && OnDisk(s, scope, v)
  {
    hide Checked;
    var archived := Archived(s, scope);
    if h in archived && h != s.records[scope].hash {
      assert ArchiveChecked(cfg, s, scope, h);
    }
  }

  /** A confirmed bond named by `last.json` is settled. */
  lemma NamedBondIsSettled(cfg: Config, s: Store, a: Answers, amount: string)
    requires s.pointer.Some? && s.pointer.value.scope.op == Bond && Decide(cfg, s, a, amount).Open?
    requires Decide(cfg, s, a, amount).epoch != s.pointer.value.scope.epoch
    ensures Decide(cfg, s, a, amount).epoch == a.head && Settled(s, a, s.pointer.value.scope.epoch)
    ensures exists v :: OnDisk(s, s.pointer.value.scope, v) && a.receipt(v.hash).ConfirmedAt?
  {
    hide Checked, SavedAttempts;
    var scope := s.pointer.value.scope;
    var attempts := SavedAttempts(cfg, s, scope).value;
    var h := Least(ConfirmedHashes(attempts, a.receipt));
    AttemptOnDisk(cfg, s, scope, h);
    assert OnDisk(s, Scope(Bond, scope.epoch), attempts[h]);
  }

  /** A withdrawal named by `last.json` lets a bond open only when its nonce is consumed. */
  lemma NamedWithdrawalIsConsumed(cfg: Config, s: Store, a: Answers, amount: string)
    requires s.pointer.Some? && s.pointer.value.scope.op == Withdraw && Decide(cfg, s, a, amount).Open?
    ensures var scope := s.pointer.value.scope;
      scope in s.records && scope.epoch < a.head && a.nonce.Some? && a.nonce.value >= s.records[scope].tx.pay.nonce
  {
    hide Checked;
    var scope, h := s.pointer.value.scope, s.pointer.value.hash.value;
    if h in Archived(s, scope) && h != s.records[scope].hash {
      assert ArchiveChecked(cfg, s, scope, h);
    }
  }

  /**
  One call: the scope that `submit_bond` opens respects the rule if and only if every other saved bond
  that `last.json` does not name is settled. The bond it names never breaks the rule.
  */
  lemma NewScopeExactly(cfg: Config, s: Store, a: Answers, amount: string)
    requires Decide(cfg, s, a, amount).Open?
    ensures var epoch := Decide(cfg, s, a, amount).epoch;
      RuleHolds(s, a, epoch) <==> !Overlooked(s, a, epoch)
  {
    hide Settled;
    if s.pointer.Some? {
      var scope := s.pointer.value.scope;
      if scope.op == Bond && Decide(cfg, s, a, amount).epoch != scope.epoch {
        NamedBondIsSettled(cfg, s, a, amount);
      }
      assert forall e :: scope == Scope(Bond, e) ==> scope.op == Bond && e == scope.epoch;
    } else {
      assert s.records == map[];
    }
  }

  /** Behind a withdrawal only a bond that did not come before it can be overlooked. */
  lemma NamedWithdrawalSettles(cfg: Config, s: Store, a: Answers, amount: string, e: nat)
    requires s.pointer.Some? && s.pointer.value.scope.op == Withdraw && Decide(cfg, s, a, amount).Open?
    requires WithdrawnAfter(s, e, s.pointer.value.scope.epoch)
    ensures Settled(s, a, e)
  {
    hide Decide;
    NamedWithdrawalIsConsumed(cfg, s, a, amount);
    assert s.pointer.value.scope == Scope(Withdraw, s.pointer.value.scope.epoch);
  }

  /** An undecided bond keeps its scope: its saved transaction is retried, never replaced by another scope. */
  lemma UndecidedBondKeepsScope(cfg: Config, s: Store, a: Answers, amount: string)
    requires s.pointer.Some? && s.pointer.value.scope.op == Bond && Decide(cfg, s, a, amount).Open?
    requires forall v :: OnDisk(s, s.pointer.value.scope, v) ==> !a.receipt(v.hash).ConfirmedAt?
    ensures Decide(cfg, s, a, amount).epoch == s.pointer.value.scope.epoch
  {
    hide Checked, SavedAttempts;
    var scope := s.pointer.value.scope;
    var attempts := SavedAttempts(cfg, s, scope);
    if scope in s.records && attempts.Some? {
      forall h | h in attempts.value ensures !a.receipt(h).ConfirmedAt? {
        AttemptOnDisk(cfg, s, scope, h);
      }
      assert ConfirmedHashes(attempts.value, a.receipt) == {};
    }
  }

  /** A directory whose `last.json` names an exit while a bond of epoch 0 is saved and not confirmed. */
  function ExitAfterBond(bond: Record, exit: Record): Store {
    Store(map[Scope(Bond, 0) := bond, Scope(Exit, 1) := exit], map[],
          Some(Pointer(Scope(Exit, 1), Some(exit.hash))), {})
  }

  /** The case that the promised rule does not cover, with every saved record in order. */
  lemma UncoveredCase(cfg: Config, bond: Record, exit: Record, head: nat)
    requires Checked(cfg, bond, Scope(Bond, 0)) && Checked(cfg, exit, Scope(Exit, 1))
    requires head != 0
    ensures var s := ExitAfterBond(bond, exit);
      var a := Answers(head, Absent, h => NotConfirmed, None, false);
      && Inv(cfg, s) && Decide(cfg, s, a, bond.tx.pay.amount) == Open(head)
      && Overlooked(s, a, head) && !RuleHolds(s, a, head)
  {
    hide Checked;
    assert Earlier(ExitAfterBond(bond, exit), head, 0);
  }
}
