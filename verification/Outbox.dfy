/**
The payment protocol of `controls/lib/validator_exit.py`: what holds of the control directory after
every single durable write of one command, hence after a crash anywhere.
*/
module Outbox {
  import opened Options
  import opened OutboxStore

  // ----- the invariant of the control directory -----

  /** `v` is stored as the record or an archive of its scope. */
  predicate OnDisk(s: Store, scope: Scope, v: Record) {
    scope in s.records &&
    (s.records[scope] == v || (v.hash in Archived(s, scope) && Archived(s, scope)[v.hash] == v))
  }

  predicate PointerNamesAttempt(s: Store) {
    s.pointer.Some? && s.pointer.value.hash.Some? ==>
      var (scope, h) := (s.pointer.value.scope, s.pointer.value.hash.value);
      scope in s.records && (s.records[scope].hash == h || h in Archived(s, scope))
  }

  ghost predicate RecordsChecked(cfg: Config, s: Store) {
    forall scope :: scope in s.records ==> Checked(cfg, s.records[scope], scope)
  }

  ghost predicate ArchivesChecked(cfg: Config, s: Store) {
    forall scope, h :: h in Archived(s, scope) ==> scope in s.records && ArchiveChecked(cfg, s, scope, h)
  }

  ghost predicate ArchivesLimited(s: Store) {
    forall scope :: scope in s.archives ==> |s.archives[scope]| < ATTEMPT_LIMIT
  }

  /** Everything ever sent is still stored, and is the same payment as the current record. */
  ghost predicate SentIsSaved(s: Store) {
    forall scope, v :: (scope, v) in s.sent ==>
      OnDisk(s, scope, v) && v.tx.pay == s.records[scope].tx.pay
  }

  ghost predicate Inv(cfg: Config, s: Store) {
    && RecordsChecked(cfg, s) && ArchivesChecked(cfg, s) && ArchivesLimited(s)
    && PointerNamesAttempt(s) && SentIsSaved(s)
  }

  /** Nothing stored or sent is lost between two states, and no scope changes its payment. */
  ghost predicate Keeps(s: Store, t: Store) {
    && s.sent <= t.sent
    && (forall scope, v :: OnDisk(s, scope, v) ==> OnDisk(t, scope, v))
    && (forall scope :: scope in s.records ==> scope in t.records && t.records[scope].tx.pay == s.records[scope].tx.pay)
  }

  lemma KeepsTransitive(s: Store, t: Store, u: Store)
    requires Keeps(s, t) && Keeps(t, u)
    ensures Keeps(s, u)
  {
  }

  // ----- each durable write keeps it -----

  lemma NewRecordSafe(cfg: Config, s: Store, scope: Scope, v: Record)
    requires Inv(cfg, s) && scope !in s.records && Checked(cfg, v, scope)
    ensures Inv(cfg, SaveRecord(s, scope, v)) && Keeps(s, SaveRecord(s, scope, v))
  {
    hide Checked;
    var t := SaveRecord(s, scope, v);
    forall sc, h | h in Archived(t, sc) ensures sc in t.records && ArchiveChecked(cfg, t, sc, h) {
      assert h in Archived(s, sc) && ArchiveChecked(cfg, s, sc, h);
    }
  }

  lemma PointerSafe(cfg: Config, s: Store, p: Pointer)
    requires Inv(cfg, s)
    requires p.hash.Some? ==> p.scope in s.records &&
                              (s.records[p.scope].hash == p.hash.value || p.hash.value in Archived(s, p.scope))
    ensures Inv(cfg, SavePointer(s, p)) && Keeps(s, SavePointer(s, p))
  {
    hide Checked;
    var t := SavePointer(s, p);
    forall sc, h | h in Archived(t, sc) ensures sc in t.records && ArchiveChecked(cfg, t, sc, h) {
      assert h in Archived(s, sc) && ArchiveChecked(cfg, s, sc, h);
    }
  }

  lemma UpdateGrows<K, V>(m: map<K, V>, k: K, v: V)
    ensures |m[k := v]| == if k in m then |m| else |m| + 1
  {
    var n := m[k := v];
    if k in m {
      assert n.Keys == m.Keys;
    } else {
      assert n.Keys == m.Keys + {k};
    }
    assert |n| == |n.Keys| && |m| == |m.Keys|;
  }

  /** Copying the current record to its archive, while fewer attempts than the limit are stored. */
  lemma ArchiveSafe(cfg: Config, s: Store, scope: Scope)
    requires Inv(cfg, s) && SavedAttempts(cfg, s, scope).Some? && |SavedAttempts(cfg, s, scope).value| < ATTEMPT_LIMIT
    ensures var v := s.records[scope];
      var t := SaveArchive(s, scope, v);
      Inv(cfg, t) && Keeps(s, t) && v.hash in Archived(t, scope) && Archived(t, scope)[v.hash] == v
  {
    hide Checked;
    var v := s.records[scope];
    var t := SaveArchive(s, scope, v);
    UpdateGrows(Archived(s, scope), v.hash, v);
    assert Archived(t, scope) == Archived(s, scope)[v.hash := v];
    assert forall sc :: sc != scope ==> Archived(t, sc) == Archived(s, sc);
    forall sc, h | h in Archived(t, sc) ensures sc in t.records && ArchiveChecked(cfg, t, sc, h) {
      if sc != scope || h != v.hash {
        assert h in Archived(s, sc) && ArchiveChecked(cfg, s, sc, h);
      }
    }
    forall sc, u | OnDisk(s, sc, u) ensures OnDisk(t, sc, u) {
    }
  }

  /** Overwriting a record that has been archived with the same payment signed anew. */
  lemma OverwriteSafe(cfg: Config, s: Store, scope: Scope, v: Record)
    requires Inv(cfg, s) && scope in s.records && Checked(cfg, v, scope) && v.tx.pay == s.records[scope].tx.pay
    requires var w := s.records[scope]; w.hash in Archived(s, scope) && Archived(s, scope)[w.hash] == w
    ensures Inv(cfg, SaveRecord(s, scope, v)) && Keeps(s, SaveRecord(s, scope, v))
  {
    hide Checked;
    var t := SaveRecord(s, scope, v);
    forall sc, h | h in Archived(t, sc) ensures sc in t.records && ArchiveChecked(cfg, t, sc, h) {
      assert h in Archived(s, sc) && ArchiveChecked(cfg, s, sc, h);
    }
    forall sc, u | OnDisk(s, sc, u) ensures OnDisk(t, sc, u) {
    }
  }

  lemma SendSafe(cfg: Config, s: Store, scope: Scope)
    requires Inv(cfg, s) && scope in s.records
    ensures Inv(cfg, Send(s, scope, s.records[scope])) && Keeps(s, Send(s, scope, s.records[scope]))
  {
    hide Checked;
    var t := Send(s, scope, s.records[scope]);
    forall sc, h | h in Archived(t, sc) ensures sc in t.records && ArchiveChecked(cfg, t, sc, h) {
      assert h in Archived(s, sc) && ArchiveChecked(cfg, s, sc, h);
    }
    forall sc, u | OnDisk(s, sc, u) ensures OnDisk(t, sc, u) {
    }
    forall sc, u | (sc, u) in t.sent ensures OnDisk(t, sc, u) && u.tx.pay == t.records[sc].tx.pay {
      if (sc, u) in s.sent {
        assert OnDisk(s, sc, u);
      }
    }
  }

  // ----- every state of a trace -----

  /** Every state a trace goes through satisfies the invariant and loses nothing since `s`. */
  ghost predicate SafeTrace(cfg: Config, s: Store, states: seq<Store>) {
    forall i :: 0 <= i < |states| ==> Inv(cfg, states[i]) && Keeps(s, states[i])
  }

  lemma SafePrepend(cfg: Config, s: Store, t: Store, states: seq<Store>)
    requires Inv(cfg, t) && Keeps(s, t) && SafeTrace(cfg, t, states)
    ensures SafeTrace(cfg, s, [t] + states)
  {
    hide Inv, Keeps;
    forall i | 0 <= i < |states| + 1 ensures Inv(cfg, ([t] + states)[i]) && Keeps(s, ([t] + states)[i]) {
      if i > 0 {
        assert ([t] + states)[i] == states[i - 1];
        KeepsTransitive(s, t, states[i - 1]);
      }
    }
  }

  lemma RenewSafe(cfg: Config, s: Store, scope: Scope, env: Env)
    requires Inv(cfg, s) && scope in s.records
    ensures SafeTrace(cfg, s, RenewTrace(cfg, s, scope, s.records[scope], env).states)
  {
    hide Inv, Keeps, Checked, SavedAttempts;
    var saved := s.records[scope];
    var attempts := SavedAttempts(cfg, s, scope);
    if attempts.Some? && |attempts.value| < ATTEMPT_LIMIT && env.renewed.Some? {
      var v := Stamp(cfg, env.renewed.value, scope);
      if Checked(cfg, v, scope) && v.tx.pay == saved.tx.pay {
        if v.hash == saved.hash {
          if v == saved {
            PointerThenSend(cfg, s, scope, env);
          }
        } else {
          var s1 := SaveArchive(s, scope, saved);
          ArchiveSafe(cfg, s, scope);
          var s2 := SaveRecord(s1, scope, v);
          OverwriteSafe(cfg, s1, scope, v);
          PointerThenSend(cfg, s2, scope, env);
          var rest := PointerSendTrace(s2, scope, env);
          SafePrepend(cfg, s1, s2, rest.states);
          SafePrepend(cfg, s, s1, [s2] + rest.states);
        }
      }
    }
  }

  function PointerSendTrace(s: Store, scope: Scope, env: Env): Trace
    requires scope in s.records
  {
    var s1 := SavePointer(s, Pointer(scope, Some(s.records[scope].hash)));
    Prepend(s1, SendTrace(s1, scope, s.records[scope], env))
  }

  lemma PointerThenSend(cfg: Config, s: Store, scope: Scope, env: Env)
    requires Inv(cfg, s) && scope in s.records
    ensures SafeTrace(cfg, s, PointerSendTrace(s, scope, env).states)
  {
    hide Inv, Keeps;
    var s1 := SavePointer(s, Pointer(scope, Some(s.records[scope].hash)));
    PointerSafe(cfg, s, Pointer(scope, Some(s.records[scope].hash)));
    SendSafe(cfg, s1, scope);
    SafePrepend(cfg, s, s1, SendTrace(s1, scope, s.records[scope], env).states);
  }

  lemma SavedSafe(cfg: Config, s0: Store, scope: Scope, amount: string, renew: bool, env: Env)
    requires Inv(cfg, s0) && scope in s0.records
    ensures SafeTrace(cfg, s0, SavedTrace(cfg, s0, scope, amount, renew, env).states)
  {
    hide Inv, Keeps, Checked, SavedAttempts, UnderWay, RenewTrace;
    var saved := s0.records[scope];
    if Checked(cfg, saved, scope) && saved.tx.pay.amount == amount {
      var s := SavePointer(s0, Pointer(scope, Some(saved.hash)));
      PointerSafe(cfg, s0, Pointer(scope, Some(saved.hash)));
      RenewSafe(cfg, s, scope, env);
      SendSafe(cfg, s, scope);
      SafePrepend(cfg, s0, s, []);
      SafePrepend(cfg, s0, s, SendTrace(s, scope, saved, env).states);
      SafePrepend(cfg, s0, s, RenewTrace(cfg, s, scope, saved, env).states);
    }
  }

  /** The main step: after any durable write of `submit` the invariant holds and nothing is lost. */
  lemma SubmitSafe(cfg: Config, s: Store, scope: Scope, amount: string, renew: bool, env: Env)
    requires Inv(cfg, s)
    ensures SafeTrace(cfg, s, SubmitTrace(cfg, s, scope, amount, renew, env).states)
  {
    hide Inv, Keeps, Checked, SavedTrace;
    if scope in s.records {
      SavedSafe(cfg, s, scope, amount, renew, env);
    } else if NewOutboxAllowed(s, scope) && env.prepared.Some? {
      var v := Stamp(cfg, env.prepared.value, scope);
      if Checked(cfg, v, scope) && v.tx.pay.amount == amount {
        var s1 := SaveRecord(s, scope, v);
        NewRecordSafe(cfg, s, scope, v);
        SavedSafe(cfg, s1, scope, amount, false, env);
        SafePrepend(cfg, s, s1, SavedTrace(cfg, s1, scope, amount, false, env).states);
      }
    }
  }

  lemma BeginBondSafe(cfg: Config, s: Store, epoch: nat)
    requires Inv(cfg, s)
    ensures BeginBondTrace(cfg, s, epoch).Some? ==> SafeTrace(cfg, s, BeginBondTrace(cfg, s, epoch).value)
  {
    hide Inv, Keeps, SavedAttempts;
    PointerSafe(cfg, s, Pointer(Scope(Bond, epoch), None));
  }

  // ----- what one call can do -----

  /** The last durable state, or the first one if nothing was written. */
  function Final(s: Store, states: seq<Store>): Store {
    if |states| == 0 then s else states[|states| - 1]
  }

  /** What one call of `submit` adds to the network, told by how it ends. */
  ghost predicate OutcomeTells(cfg: Config, s: Store, scope: Scope, amount: string, env: Env, t: Trace) {
    var e := Final(s, t.states);
    match t.outcome
    case Refused => e.sent == s.sent
    case Known(h) => e.sent == s.sent && NamesAttempt(cfg, e, scope, h)
                     && env.status(h) != Unknown && env.status(h) != Rejected
    case Unresolved(h) => SentCurrent(cfg, s, e, scope, amount, env, h)
    case Sent(h) => SentCurrent(cfg, s, e, scope, amount, env, h)
  }

  /** Exactly the current record was sent; it passed the checks and carries the next account nonce. */
  ghost predicate SentCurrent(cfg: Config, s: Store, e: Store, scope: Scope, amount: string, env: Env, h: nat) {
    && scope in e.records && e.records[scope].hash == h
    && e.sent == s.sent + {(scope, e.records[scope])}
    && e.pointer == Some(Pointer(scope, Some(h)))
    && Checked(cfg, e.records[scope], scope) && e.records[scope].tx.pay.amount == amount
    && env.nonce.Some? && e.records[scope].tx.pay.nonce == env.nonce.value + 1
  }

  lemma UnderWayIsAttempt(attempts: map<nat, Record>, status: nat -> Status)
    ensures UnderWay(attempts, status).Some? ==>
              var h := UnderWay(attempts, status).value; h in attempts && status(h) != Unknown && status(h) != Rejected
  {
  }

  lemma RenewTells(cfg: Config, s: Store, scope: Scope, amount: string, env: Env)
    requires scope in s.records && Checked(cfg, s.records[scope], scope) && s.records[scope].tx.pay.amount == amount
    requires env.nonce.Some? && env.nonce.value + 1 == s.records[scope].tx.pay.nonce
    ensures OutcomeTells(cfg, s, scope, amount, env, RenewTrace(cfg, s, scope, s.records[scope], env))
  {
    hide Checked, SavedAttempts;
  }

  lemma SavedTells(cfg: Config, s0: Store, scope: Scope, amount: string, renew: bool, env: Env)
    requires scope in s0.records
    ensures OutcomeTells(cfg, s0, scope, amount, env, SavedTrace(cfg, s0, scope, amount, renew, env))
  {
    hide Checked, SavedAttempts, UnderWay, RenewTrace;
    var saved := s0.records[scope];
    if Checked(cfg, saved, scope) && saved.tx.pay.amount == amount {
      var s := SavePointer(s0, Pointer(scope, Some(saved.hash)));
      var attempts := SavedAttempts(cfg, s, scope);
      if attempts.Some? {
        UnderWayIsAttempt(attempts.value, env.status);
        if env.nonce.Some? && env.nonce.value + 1 == saved.tx.pay.nonce {
          RenewTells(cfg, s, scope, amount, env);
        }
      }
    }
  }

  lemma SubmitTells(cfg: Config, s: Store, scope: Scope, amount: string, renew: bool, env: Env)
    ensures OutcomeTells(cfg, s, scope, amount, env, SubmitTrace(cfg, s, scope, amount, renew, env))
  {
    hide Checked, SavedTrace;
    if scope in s.records {
      SavedTells(cfg, s, scope, amount, renew, env);
    } else if NewOutboxAllowed(s, scope) && env.prepared.Some? {
      var v := Stamp(cfg, env.prepared.value, scope);
      if Checked(cfg, v, scope) && v.tx.pay.amount == amount {
        SavedTells(cfg, SaveRecord(s, scope, v), scope, amount, false, env);
      }
    }
  }

  /**
  Renewals never push a scope past the attempt limit: its attempts can be listed again, unless a
  renewed transaction came back with the hash of an older one but other bytes.
  */
  lemma AttemptsStayListable(cfg: Config, s: Store, scope: Scope)
    requires Inv(cfg, s) && scope in s.records
    ensures var saved := s.records[scope];
      var clash := saved.hash in Archived(s, scope) && Archived(s, scope)[saved.hash] != saved;
      && (SavedAttempts(cfg, s, scope).Some? <==> !clash)
      && (!clash ==> |SavedAttempts(cfg, s, scope).value| <= ATTEMPT_LIMIT)
  {
    hide Checked;
    UpdateGrows(Archived(s, scope), s.records[scope].hash, s.records[scope]);
    forall h | h in Archived(s, scope) ensures ArchiveChecked(cfg, s, scope, h) {
    }
  }

  // ----- the control directory as an object -----

  ghost predicate AllSafe(cfg: Config, log: seq<Store>) {
    forall i :: 0 <= i < |log| ==> Inv(cfg, log[i])
  }

  lemma StaysSafe(cfg: Config, log: seq<Store>, s: Store, states: seq<Store>)
    requires Inv(cfg, s) && AllSafe(cfg, log) && SafeTrace(cfg, s, states)
    ensures Inv(cfg, Final(s, states)) && AllSafe(cfg, log + states)
  {
    hide Inv, Keeps;
  }

  class Directory {
    const cfg: Config
    var store: Store
    /** Every durable state since the directory was opened: where a crash can leave it. */
    ghost var log: seq<Store>

    ghost predicate Valid()
      reads this
    {
      Inv(cfg, store) && AllSafe(cfg, log)
    }

    constructor (c: Config, s: Store)
      requires Inv(c, s)
      ensures Valid() && cfg == c && store == s && log == [s]
    {
      cfg, store, log := c, s, [s];
    }

    /** One durable write, or the hand-over to the network. */
    method Write(s: Store)
      modifies this
      ensures store == s && log == old(log) + [s]
    {
      store := s;
      log := log + [s];
    }

    /** The renewal, pointer and submission part of `submit`. */
    method Renew(scope: Scope, saved: Record, env: Env) returns (outcome: Outcome)
      requires scope in store.records && store.records[scope] == saved
      modifies this
      ensures var t := RenewTrace(cfg, old(store), scope, saved, env);
        outcome == t.outcome && log == old(log) + t.states && store == Final(old(store), t.states)
    {
      hide SavedAttempts, Checked;
      var attempts := SavedAttempts(cfg, store, scope);
      if attempts == None || |attempts.value| >= ATTEMPT_LIMIT {
        return Refused;
      }
      if env.renewed == None {
        return Refused;
      }
      var value := Stamp(cfg, env.renewed.value, scope);
      if !Checked(cfg, value, scope) || value.tx.pay != saved.tx.pay {
        return Refused;
      }
      var current := saved;
      if value.hash == saved.hash {
        if value != saved {
          return Refused;
        }
      } else {
        Write(SaveArchive(store, scope, saved));
        Write(SaveRecord(store, scope, value));
        current := value;
      }
      Write(SavePointer(store, Pointer(scope, Some(current.hash))));
      outcome := Submitted(scope, current, env);
    }

    method Submitted(scope: Scope, v: Record, env: Env) returns (outcome: Outcome)
      modifies this
      ensures var t := SendTrace(old(store), scope, v, env);
        outcome == t.outcome && log == old(log) + t.states && store == Final(old(store), t.states)
    {
      Write(Send(store, scope, v));
      outcome := if env.acknowledged then Sent(v.hash) else Unresolved(v.hash);
    }

    /** `submit` from the saved record on. */
    method SubmitSaved(scope: Scope, amount: string, renew: bool, env: Env) returns (outcome: Outcome)
      requires scope in store.records
      modifies this
      ensures var t := SavedTrace(cfg, old(store), scope, amount, renew, env);
        outcome == t.outcome && log == old(log) + t.states && store == Final(old(store), t.states)
    {
      hide SavedAttempts, Checked, UnderWay, RenewTrace;
      var saved := store.records[scope];
      if !Checked(cfg, saved, scope) || saved.tx.pay.amount != amount {
        return Refused;
      }
      Write(SavePointer(store, Pointer(scope, Some(saved.hash))));
      var attempts := SavedAttempts(cfg, store, scope);
      if attempts == None {
        return Refused;
      }
      var found := UnderWay(attempts.value, env.status);
      if found.Some? {
        return Known(found.value);
      }
      if env.status(saved.hash) == Rejected && !renew {
        return Refused;
      }
      if env.nonce == None || env.nonce.value + 1 != saved.tx.pay.nonce {
        return Refused;
      }
      if renew {
        outcome := Renew(scope, saved, env);
      } else {
        outcome := Submitted(scope, saved, env);
      }
    }

    /**
    `submit`: every state it leaves on disk, in order, satisfies the invariant, so that a crash after
    any write is safe; nothing stored or sent before is lost.
    */
    method Submit(scope: Scope, amount: string, renew: bool, env: Env) returns (outcome: Outcome)
      requires Valid()
      modifies this
      ensures Valid()
      ensures var t := SubmitTrace(cfg, old(store), scope, amount, renew, env);
        && outcome == t.outcome && log == old(log) + t.states && store == Final(old(store), t.states)
        && SafeTrace(cfg, old(store), t.states) && OutcomeTells(cfg, old(store), scope, amount, env, t)
    {
      hide SavedTrace, Checked, Inv, Keeps, OutcomeTells, AllSafe, SafeTrace;
      SubmitSafe(cfg, store, scope, amount, renew, env);
      StaysSafe(cfg, log, store, SubmitTrace(cfg, store, scope, amount, renew, env).states);
      SubmitTells(cfg, store, scope, amount, renew, env);
      ghost var goal := log + SubmitTrace(cfg, store, scope, amount, renew, env).states;
      if scope in store.records {
        outcome := SubmitSaved(scope, amount, renew, env);
        return;
      }
      if !NewOutboxAllowed(store, scope) || env.prepared == None {
        return Refused;
      }
      var saved := Stamp(cfg, env.prepared.value, scope);
      if !Checked(cfg, saved, scope) || saved.tx.pay.amount != amount {
        return Refused;
      }
      Write(SaveRecord(store, scope, saved));
      outcome := SubmitSaved(scope, amount, false, env);
      assert log == goal;
    }

    /** `begin_bond`: false is a refusal. */
    method BeginBond(epoch: nat) returns (ok: bool)
      requires Valid()
      modifies this
      ensures Valid()
      ensures var t := BeginBondTrace(cfg, old(store), epoch);
        && ok == t.Some?
        && (ok ==> log == old(log) + t.value && store == Final(old(store), t.value) && SafeTrace(cfg, old(store), t.value))
        && (!ok ==> store == old(store) && log == old(log))
    {
      hide Inv, Keeps, SavedAttempts, AllSafe, SafeTrace;
      var scope := Scope(Bond, epoch);
      BeginBondSafe(cfg, store, epoch);
      ghost var t := BeginBondTrace(cfg, store, epoch);
      if t.Some? {
        StaysSafe(cfg, log, store, t.value);
      }
      if !PointerReadable(store) {
        return false;
      }
      if store.pointer.Some? && store.pointer.value.scope == scope && store.pointer.value.hash.Some? {
        return NamesAttempt(cfg, store, scope, store.pointer.value.hash.value);
      }
      Write(SavePointer(store, Pointer(scope, None)));
      ok := true;
    }
  }
}
