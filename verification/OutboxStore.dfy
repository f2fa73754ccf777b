/**
The durable outbox of `controls/lib/validator_exit.py` as data: the control directory with its
current records, archived attempts and pointer, and the traces of durable states that opening,
renewing and submitting a payment go through. A crash may stop an operation after any of them.
Prepared transactions, node answers and submission results come from the environment.
*/
module OutboxStore {
  import opened Options

  // ----- records -----

  datatype Operation = Bond | Exit | Withdraw

  /** The operation and the epoch that name an outbox file. */
  datatype Scope = Scope(op: Operation, epoch: nat)

  /** The fields a renewal must keep (`PAYMENT_FIELDS`). */
  datatype Payment = Payment(sender: string, target: string, publicKey: string, amount: string, fee: string,
                             opType: Operation, nonce: int, message: string, encrypted: string)

  datatype Tx = Tx(pay: Payment, timestamp: int, signature: string)

  /** A saved transaction; `hash` is its 64-digit hexadecimal hash read as a number. */
  datatype Record = Record(chain: string, headEpoch: Option<int>, bondedEpoch: Option<int>, tx: Tx, hash: nat)

  datatype Pointer = Pointer(scope: Scope, hash: Option<nat>)

  datatype Config = Config(chain: string, address: string, publicKey: string, escrow: string)

  const ATTEMPT_LIMIT: nat := 32

  /**
  The control directory. An archive is named after a hash. `sent` is not on disk: it remembers every
  transaction ever handed to the network.
  */
  datatype Store = Store(records: map<Scope, Record>, archives: map<Scope, map<nat, Record>>,
                         pointer: Option<Pointer>, sent: set<(Scope, Record)>)

  function Archived(s: Store, scope: Scope): map<nat, Record> {
    if scope in s.archives then s.archives[scope] else map[]
  }

  predicate IsDecimal(t: string) {
    |t| > 0 && forall i :: 0 <= i < |t| ==> '0' <= t[i] <= '9'
  }

  /** `check_outbox`. */
  predicate Checked(cfg: Config, v: Record, scope: Scope) {
    && v.chain == cfg.chain
    && (if scope.op.Bond? then v.headEpoch else v.bondedEpoch) == Some(scope.epoch)
    && (scope.op.Bond? ==> v.bondedEpoch == None)
    && v.tx.pay.sender == cfg.address
    && v.tx.pay.target == (if scope.op.Bond? then cfg.escrow else cfg.address)
    && v.tx.pay.publicKey == cfg.publicKey
    && v.tx.pay.opType == scope.op
    && (if scope.op.Bond? then IsDecimal(v.tx.pay.amount) && v.tx.pay.amount[0] != '0' else v.tx.pay.amount == "0")
    && v.tx.pay.nonce >= 1
    && IsDecimal(v.tx.pay.fee) && (|v.tx.pay.fee| > 1 ==> v.tx.pay.fee[0] != '0')
    && v.tx.timestamp >= 0 && |v.tx.signature| > 0
  }

  /** What a prepared transaction becomes when it is saved: the chain and the epoch are stamped on it. */
  function Stamp(cfg: Config, p: Record, scope: Scope): Record {
    if scope.op.Bond? then p.(chain := cfg.chain, headEpoch := Some(scope.epoch))
    else p.(chain := cfg.chain, bondedEpoch := Some(scope.epoch))
  }

  predicate ArchiveChecked(cfg: Config, s: Store, scope: Scope, h: nat)
    requires scope in s.records && h in Archived(s, scope)
  {
    var v := Archived(s, scope)[h];
    v.hash == h && Checked(cfg, v, scope) && v.tx.pay == s.records[scope].tx.pay
  }

  /** `saved_attempts`: the record and its archives by hash, or nothing if any check fails. */
  function SavedAttempts(cfg: Config, s: Store, scope: Scope): Option<map<nat, Record>> {
    if scope !in s.records || !Checked(cfg, s.records[scope], scope) then None
    else
      var saved := s.records[scope];
      var archived := Archived(s, scope);
      if |archived| + 1 > ATTEMPT_LIMIT then None
      else if exists h :: h in archived && !ArchiveChecked(cfg, s, scope, h) then None
      else if saved.hash in archived && archived[saved.hash] != saved then None
      else Some(archived[saved.hash := saved])
  }

  /** `require_new_outbox`: a missing record must never have existed. */
  predicate NewOutboxAllowed(s: Store, scope: Scope) {
    && !(s.pointer.Some? && s.pointer.value.scope == scope && s.pointer.value.hash.Some?)
    && |Archived(s, scope)| == 0
  }

  // ----- single durable writes -----

  function SaveRecord(s: Store, scope: Scope, v: Record): Store {
    s.(records := s.records[scope := v])
  }

  /** Copy the current record to its archive name, unless that file exists. */
  function SaveArchive(s: Store, scope: Scope, v: Record): Store {
    if v.hash in Archived(s, scope) then s
    else s.(archives := s.archives[scope := Archived(s, scope)[v.hash := v]])
  }

  function SavePointer(s: Store, p: Pointer): Store {
    s.(pointer := Some(p))
  }

  /** Hand a transaction to the network. */
  function Send(s: Store, scope: Scope, v: Record): Store {
    s.(sent := s.sent + {(scope, v)})
  }

  // ----- answers of the environment -----

  datatype Status = Confirmed | Pending | Staging | Rejected | Unknown

  /** None stands for a call that failed or an answer that is malformed. */
  datatype Env = Env(prepared: Option<Record>, renewed: Option<Record>, status: nat -> Status,
                     nonce: Option<nat>, acknowledged: bool)

  datatype Outcome =
    | Refused          // nothing was sent by this call
    | Known(hash: nat) // an earlier attempt is confirmed or on its way
    | Unresolved(hash: nat) // sent, but not acknowledged
    | Sent(hash: nat)

  /** The durable states an operation goes through, in order, and how it ends. */
  datatype Trace = Trace(states: seq<Store>, outcome: Outcome)

  function Prepend(s: Store, t: Trace): Trace {
    Trace([s] + t.states, t.outcome)
  }

  // ----- choosing the attempt to report -----

  lemma {:induction false} LeastExists(S: set<nat>, h: nat)
    requires h in S
    ensures exists m :: m in S && forall k :: k in S ==> m <= k
    decreases h
  {
    if k :| k in S && k < h {
      LeastExists(S, k);
    } else {
      assert forall k :: k in S ==> h <= k;
    }
  }

  function Least(S: set<nat>): (m: nat)
    requires S != {}
    ensures m in S && forall k :: k in S ==> m <= k
  {
    assert exists m :: m in S && forall k :: k in S ==> m <= k by {
      var h :| h in S;
      LeastExists(S, h);
    }
    var m :| m in S && forall k :: k in S ==> m <= k;
    m
  }

  function WithStatus(attempts: map<nat, Record>, status: nat -> Status, state: Status): set<nat> {
    set h | h in attempts && status(h) == state
  }

  /** The first attempt in hash order that is confirmed, else pending, else staging. */
  function UnderWay(attempts: map<nat, Record>, status: nat -> Status): Option<nat> {
    if WithStatus(attempts, status, Confirmed) != {} then Some(Least(WithStatus(attempts, status, Confirmed)))
    else if WithStatus(attempts, status, Pending) != {} then Some(Least(WithStatus(attempts, status, Pending)))
    else if WithStatus(attempts, status, Staging) != {} then Some(Least(WithStatus(attempts, status, Staging)))
    else None
  }

  // ----- submit -----

  /** Hand over the saved transaction. */
  function SendTrace(s: Store, scope: Scope, v: Record, env: Env): Trace {
    Trace([Send(s, scope, v)], if env.acknowledged then Sent(v.hash) else Unresolved(v.hash))
  }

  /** `renew_outbox`, `last.json` update behind it, and the submission. */
  function RenewTrace(cfg: Config, s: Store, scope: Scope, saved: Record, env: Env): Trace {
    var attempts := SavedAttempts(cfg, s, scope);
    if attempts == None || |attempts.value| >= ATTEMPT_LIMIT || env.renewed == None then Trace([], Refused)
    else
      var v := Stamp(cfg, env.renewed.value, scope);
      if !Checked(cfg, v, scope) || v.tx.pay != saved.tx.pay then Trace([], Refused)
      else if v.hash == saved.hash then
        if v != saved then Trace([], Refused)
        else
          var s1 := SavePointer(s, Pointer(scope, Some(saved.hash)));
          Prepend(s1, SendTrace(s1, scope, saved, env))
      else
        var s1 := SaveArchive(s, scope, saved);
        var s2 := SaveRecord(s1, scope, v);
        var s3 := SavePointer(s2, Pointer(scope, Some(v.hash)));
        Prepend(s1, Prepend(s2, Prepend(s3, SendTrace(s3, scope, v, env))))
  }

  /** What happens once the record is saved: remember it, ask the node, renew if asked to, send. */
  function SavedTrace(cfg: Config, s0: Store, scope: Scope, amount: string, renew: bool, env: Env): Trace
    requires scope in s0.records
  {
    var saved := s0.records[scope];
    if !Checked(cfg, saved, scope) || saved.tx.pay.amount != amount then Trace([], Refused)
    else
      var s := SavePointer(s0, Pointer(scope, Some(saved.hash)));
      var attempts := SavedAttempts(cfg, s, scope);
      Prepend(s,
        if attempts == None then Trace([], Refused)
        else if UnderWay(attempts.value, env.status).Some? then
          Trace([], Known(UnderWay(attempts.value, env.status).value))
        else if env.status(saved.hash) == Rejected && !renew then Trace([], Refused)
        else if env.nonce == None || env.nonce.value + 1 != saved.tx.pay.nonce then Trace([], Refused)
        else if renew then RenewTrace(cfg, s, scope, saved, env)
        else SendTrace(s, scope, saved, env))
  }

  /** `submit`. */
  function SubmitTrace(cfg: Config, s: Store, scope: Scope, amount: string, renew: bool, env: Env): Trace {
    if scope in s.records then SavedTrace(cfg, s, scope, amount, renew, env)
    else if !NewOutboxAllowed(s, scope) || env.prepared == None then Trace([], Refused)
    else
      var v := Stamp(cfg, env.prepared.value, scope);
      if !Checked(cfg, v, scope) || v.tx.pay.amount != amount then Trace([], Refused)
      else
        var s1 := SaveRecord(s, scope, v);
        Prepend(s1, SavedTrace(cfg, s1, scope, amount, false, env))
  }

  // ----- begin_bond -----

  /** `read_pointer` refuses a directory with records but no pointer. */
  predicate PointerReadable(s: Store) {
    s.pointer.Some? || (|s.records| == 0 && forall scope :: scope in s.archives ==> |s.archives[scope]| == 0)
  }

  predicate NamesAttempt(cfg: Config, s: Store, scope: Scope, h: nat) {
    SavedAttempts(cfg, s, scope).Some? && h in SavedAttempts(cfg, s, scope).value
  }

  /** Announce the bond scope in `last.json` before anything is signed; None is a refusal. */
  function BeginBondTrace(cfg: Config, s: Store, epoch: nat): Option<seq<Store>> {
    var scope := Scope(Bond, epoch);
    if !PointerReadable(s) then None
    else if s.pointer.Some? && s.pointer.value.scope == scope && s.pointer.value.hash.Some? then
      if NamesAttempt(cfg, s, scope, s.pointer.value.hash.value) then Some([]) else None
    else Some([SavePointer(s, Pointer(scope, None))])
  }
}
