/**
Replacing a node's state (`controls/lib/validator_recover.py`, `install_verified_snapshot` of
`controls/lib/validator_config.py`, `restore_control` of `controls/lib/validator_exit.py`) on a
volume whose single changes are atomic and durable. A crash or an exception may come after any change.
*/
module Recover {
  import opened Options
  import opened SyncNeed

  // ----- the volume -----

  /**
  A state directory: its chain data and head epoch, whether it holds a complete checkpoint, the
  control records by file name, the wallet, the recovery marker and the copied sync evidence.
  */
  datatype Dir = Dir(chain: nat, epoch: int, ready: bool, control: Option<map<string, nat>>, wallet: Option<nat>,
                     marker: Option<Need>, evidence: bool)

  const EMPTY: Dir := Dir(0, 0, false, None, None, None, false)

  /** The data path, its siblings for preserved and rejected states, and the staged snapshot. */
  datatype Name = Data | Prior(epoch: int, serial: nat) | Rejected(epoch: int, serial: nat) | Staged

  type Volume = map<Name, Dir>

  function Moved(v: Volume, source: Name, target: Name): Volume
    requires source in v && source != target
  {
    (v - {source})[target := v[source]]
  }

  /** `free_state_path`: the first unused name, within a thousand. */
  function FreeName(v: Volume, rejected: bool, epoch: int, serial: nat): (r: Option<Name>)
    ensures r.Some? ==> r.value !in v && r.value.Prior? == !rejected && r.value.Rejected? == rejected
    decreases 1000 - serial
  {
    var name := if rejected then Rejected(epoch, serial) else Prior(epoch, serial);
    if serial >= 1000 then None
    else if name !in v then Some(name)
    else FreeName(v, rejected, epoch, serial + 1)
  }

  // ----- control records that travel with the operator -----

  predicate EndsWith(s: string, t: string) {
    |s| >= |t| && s[|s| - |t|..] == t
  }

  /** The records that are carried over: all but locks and unfinished writes. */
  function Kept(control: map<string, nat>): map<string, nat> {
    map n | n in control && n != "lock" && n != "exit.next" && !EndsWith(n, ".json.new") :: control[n]
  }

  /** A name that an interrupted copy of `kept` can have left behind. */
  predicate FromCopy(n: string, kept: map<string, nat>) {
    n in kept || (EndsWith(n, ".new") && n[..|n| - 4] in kept)
  }

  /** The names in the staged control directory: nothing that a copy of `from` cannot have left there. */
  predicate NamesMatch(from: Option<map<string, nat>>, staged: Option<map<string, nat>>) {
    match from
    case None => staged == None
    case Some(control) => staged.Some? ==> forall n :: n in staged.value ==> FromCopy(n, Kept(control))
  }

  /** The staged control directory holds nothing that contradicts or exceeds the records to copy. */
  predicate Compatible(from: Option<map<string, nat>>, staged: Option<map<string, nat>>) {
    && NamesMatch(from, staged)
    && (from.Some? && staged.Some? ==>
          forall n :: n in staged.value && n in Kept(from.value) ==> staged.value[n] == Kept(from.value)[n])
  }

  function Records(control: Option<map<string, nat>>): map<string, nat> {
    if control.Some? then control.value else map[]
  }

  /** Records were added, each with its kept value; none was changed or removed. */
  predicate Grown(kept: map<string, nat>, before: map<string, nat>, after: map<string, nat>) {
    && (forall n :: n in before ==> n in after && after[n] == before[n])
    && (forall n :: n in after ==> n in before || (n in kept && after[n] == kept[n]))
  }

  /** All records have been copied and nothing foreign is there. */
  predicate Carried(from: Option<map<string, nat>>, staged: Option<map<string, nat>>) {
    match from
    case None => staged == None
    case Some(control) =>
      && staged.Some? && Compatible(from, staged) && Kept(control).Keys <= staged.value.Keys
  }

  /** Copying one more record keeps a staged directory compatible, so an interrupted copy can be resumed. */
  lemma CopyKeepsCompatible(from: Option<map<string, nat>>, staged: map<string, nat>, n: string)
    requires from.Some? && Compatible(from, Some(staged)) && n in Kept(from.value)
    ensures Compatible(from, Some(staged[n := Kept(from.value)[n]]))
  {
  }

  /**
  After the names were checked the directory is compatible exactly if no record that is copied stands
  there with another value, whichever records have been added already.
  */
  lemma CompatibleByContents(from: Option<map<string, nat>>, before: map<string, nat>, after: map<string, nat>)
    requires from.Some? && NamesMatch(from, Some(before)) && Grown(Kept(from.value), before, after)
    ensures NamesMatch(from, Some(after)) && (Compatible(from, Some(after)) <==> Compatible(from, Some(before)))
  {
    hide Kept, EndsWith;
  }

  lemma NothingGrown(kept: map<string, nat>, records: map<string, nat>)
    ensures Grown(kept, records, records)
  {
  }

  lemma GrowByOne(kept: map<string, nat>, before: map<string, nat>, after: map<string, nat>, n: string)
    requires Grown(kept, before, after) && n in kept && (n in after ==> after[n] == kept[n])
    ensures Grown(kept, before, after[n := kept[n]])
  {
  }

  // ----- what every state of the volume must satisfy -----

  /** One recovery: the state it replaces, where that is preserved, and what the new state must carry. */
  datatype Case = Case(orig: Option<Dir>, kept: Name, identity: nat, guard: Option<Need>, intruder: Option<Dir>)

  /** A new state at the data path is complete in this sense. */
  predicate Carries(c: Case, d: Dir) {
    && Carried(if c.orig.Some? then c.orig.value.control else None, d.control)
    && d.wallet == Some(c.identity) && (c.guard.Some? ==> d.marker == c.guard) && d.evidence
  }

  predicate OriginalAt(c: Case, v: Volume, n: Name) {
    c.orig.Some? ==> n in v && v[n] == c.orig.value
  }

  /**
  The original state is intact at the data path or at its preserved path, and whatever else stands at
  the data path is empty, foreign (placed there by another process), or a complete new state.
  */
  predicate Safe(c: Case, v: Volume) {
    && (OriginalAt(c, v, Data) || OriginalAt(c, v, c.kept))
    && (Data in v ==> Some(v[Data]) == c.orig || v[Data] == EMPTY || Some(v[Data]) == c.intruder || Carries(c, v[Data]))
  }

  predicate AllSafe(c: Case, log: seq<Volume>) {
    forall i :: 0 <= i < |log| ==> Safe(c, log[i])
  }

  /** Changing what is staged does not concern the data path or the preserved state. */
  lemma StagedIsPrivate(c: Case, v: Volume, d: Dir)
    requires Safe(c, v) && c.kept.Prior?
    ensures Safe(c, v[Staged := d])
    ensures OriginalAt(c, v, c.kept) ==> OriginalAt(c, v[Staged := d], c.kept)
  {
    hide Carries;
  }

  /** How copying the control records ends. */
  datatype Copying = Copied | Mismatch | Raised

  predicate OnlyControlDiffers(d: Dir, e: Dir) {
    e == d.(control := e.control)
  }

  class Disk {
    /** Whether an exception is raised after the n-th change. */
    const stop: nat -> bool
    var v: Volume
    var clock: nat
    /** Every state of the volume since the command started. */
    ghost var log: seq<Volume>

    constructor (raises: nat -> bool, initial: Volume)
      ensures v == initial && log == [initial] && stop == raises
    {
      stop, v, clock, log := raises, initial, 0, [initial];
    }

    method Write(ghost c: Case, next: Volume) returns (raised: bool)
      requires Safe(c, next) && AllSafe(c, log)
      modifies this
      ensures v == next && AllSafe(c, log) && log == old(log) + [next]
    {
      v := next;
      log := log + [next];
      clock := clock + 1;
      raised := stop(clock);
    }

    /** `rollback_state`; false when it was blocked or interrupted. */
    method Rollback(ghost c: Case, kept: Name, epoch: int) returns (ok: bool)
      requires c.orig.Some? && kept == c.kept && kept.Prior? && OriginalAt(c, v, kept)
      requires Safe(c, v) && AllSafe(c, log)
      modifies this
      ensures AllSafe(c, log) && Safe(c, v) && |log| >= |old(log)|
      ensures ok ==> Data in v && v[Data] == c.orig.value
    {
      hide Carries;
      if Data in v {
        var rejected := FreeName(v, true, epoch, 0);
        if rejected == None {
          return false;
        }
        var raised := Write(c, Moved(v, Data, rejected.value));
        if raised {
          return false;
        }
      }
      var raised := Write(c, Moved(v, kept, Data));
      ok := true;
    }

    /** Change the staged state only. */
    method WriteStaged(ghost c: Case, d: Dir) returns (raised: bool)
      requires Safe(c, v) && AllSafe(c, log) && c.kept.Prior?
      modifies this
      ensures v == old(v)[Staged := d] && AllSafe(c, log) && Safe(c, v)
      ensures OriginalAt(c, old(v), c.kept) ==> OriginalAt(c, v, c.kept)
    {
      hide Safe, OriginalAt, AllSafe;
      StagedIsPrivate(c, v, d);
      raised := Write(c, v[Staged := d]);
    }

    /** One file: compared if it is there already, then copied. */
    method CopyRecord(ghost c: Case, n: string, value: nat) returns (r: Copying)
      requires Staged in v && v[Staged].control.Some? && Safe(c, v) && AllSafe(c, log) && c.kept.Prior?
      modifies this
      ensures AllSafe(c, log) && Safe(c, v) && (OriginalAt(c, old(v), c.kept) ==> OriginalAt(c, v, c.kept))
      ensures r == Mismatch <==> var was := old(v)[Staged].control.value; n in was && was[n] != value
      ensures v == if r == Mismatch then old(v) else
        var d := old(v)[Staged]; old(v)[Staged := d.(control := Some(d.control.value[n := value]))]
    {
      hide Carries, Safe, AllSafe;
      var staged := v[Staged].control.value;
      if n in staged && staged[n] != value {
        return Mismatch;
      }
      var raised := WriteStaged(c, v[Staged].(control := Some(staged[n := value])));
      r := if raised then Raised else Copied;
    }

    /**
    `restore_control` into the staged snapshot. The names are checked first; the contents are compared
    file by file while copying, so records may have been added when a mismatch is found.
    */
    method RestoreControl(ghost c: Case, from: Option<map<string, nat>>) returns (r: Copying)
      requires Staged in v && Safe(c, v) && AllSafe(c, log) && c.kept.Prior?
      modifies this
      ensures AllSafe(c, log) && Safe(c, v) && (OriginalAt(c, old(v), c.kept) ==> OriginalAt(c, v, c.kept))
      ensures Staged in v && v == old(v)[Staged := v[Staged]] && OnlyControlDiffers(old(v)[Staged], v[Staged])
      ensures from.Some? ==> Grown(Kept(from.value), Records(old(v)[Staged].control), Records(v[Staged].control))
      ensures from == None || !NamesMatch(from, old(v)[Staged].control) ==> v == old(v)
      ensures r == Copied ==> Carried(from, v[Staged].control)
      ensures Compatible(from, old(v)[Staged].control) ==> r != Mismatch && Compatible(from, v[Staged].control)
      ensures !Compatible(from, old(v)[Staged].control) ==> r != Copied && !Compatible(from, v[Staged].control)
    {
      hide Carries, Kept, Safe, AllSafe, FromCopy, OriginalAt, Grown;
      if from == None {
        return if v[Staged].control == None then Copied else Mismatch;
      }
      var kept := Kept(from.value);
      NothingGrown(kept, Records(v[Staged].control));
      if !NamesMatch(from, v[Staged].control) {
        return Mismatch;
      }
      if v[Staged].control == None {
        var raised := WriteStaged(c, v[Staged].(control := Some(map[])));
        if raised {
          return Raised;
        }
      }
      ghost var before := Records(old(v)[Staged].control);
      var todo := kept.Keys;
      while todo != {}
        invariant AllSafe(c, log) && Safe(c, v) && todo <= kept.Keys
        invariant OriginalAt(c, old(v), c.kept) ==> OriginalAt(c, v, c.kept)
        invariant Staged in v && v == old(v)[Staged := v[Staged]] && OnlyControlDiffers(old(v)[Staged], v[Staged])
        invariant v[Staged].control.Some? && Grown(kept, before, v[Staged].control.value)
        invariant forall n :: n in kept && n !in todo ==> n in v[Staged].control.value && v[Staged].control.value[n] == kept[n]
        decreases |todo|
      {
        var n :| n in todo;
        todo := todo - {n};
        ghost var was := v[Staged].control.value;
        r := CopyRecord(c, n, kept[n]);
        if r != Mismatch {
          GrowByOne(kept, before, was, n);
        }
        CompatibleByContents(from, before, v[Staged].control.value);
        if r != Copied {
          return;
        }
      }
      CompatibleByContents(from, before, v[Staged].control.value);
      r := Copied;
    }

    /** Everything the new state must carry, put into the staged directory; false is a refusal or an exception. */
    method Complete(ghost c: Case, from: Option<map<string, nat>>, identity: nat, guard: Option<Need>) returns (ok: bool)
      requires Staged in v && Safe(c, v) && AllSafe(c, log) && c.kept.Prior? && OriginalAt(c, v, c.kept)
      requires identity == c.identity && guard == c.guard
      requires from == if c.orig.Some? then c.orig.value.control else None
      modifies this
      ensures AllSafe(c, log) && Safe(c, v) && OriginalAt(c, v, c.kept) && Staged in v
      ensures v == old(v)[Staged := v[Staged]]
      ensures ok ==> Carries(c, v[Staged]) && v[Staged].chain == old(v[Staged].chain)
                     && v[Staged].epoch == old(v[Staged].epoch) && v[Staged].ready == old(v[Staged].ready)
    {
      hide Carried, Compatible, Safe, AllSafe;
      var copying := RestoreControl(c, from);
      if copying != Copied {
        return false;
      }
      if v[Staged].wallet.Some? && v[Staged].wallet.value != identity {
        return false;
      }
      var raised := WriteStaged(c, v[Staged].(wallet := Some(identity)));
      if raised {
        return false;
      }
      if guard.Some? {
        raised := WriteStaged(c, v[Staged].(marker := guard));
        if raised {
          return false;
        }
      }
      raised := WriteStaged(c, v[Staged].(evidence := true));
      ok := !raised;
    }

    /** `install_verified_snapshot`: the staged state is completed first and becomes visible by one rename. */
    method Install(ghost c: Case, from: Option<map<string, nat>>, identity: nat, guard: Option<Need>) returns (ok: bool)
      requires Staged in v && Safe(c, v) && AllSafe(c, log) && c.kept.Prior? && OriginalAt(c, v, c.kept)
      requires identity == c.identity && guard == c.guard
      requires from == if c.orig.Some? then c.orig.value.control else None
      modifies this
      ensures AllSafe(c, log) && Safe(c, v) && OriginalAt(c, v, c.kept)
      ensures ok ==> Data in v && Carries(c, v[Data]) && v[Data].chain == old(v[Staged].chain)
                     && v[Data].epoch == old(v[Staged].epoch) && v[Data].ready == old(v[Staged].ready)
    {
      hide Carries, AllSafe;
      if Data in v {
        if v[Data] != EMPTY {
          return false;
        }
        var raised := Write(c, v - {Data});
        if raised {
          return false;
        }
      }
      ok := Complete(c, from, identity, guard);
      if !ok {
        return;
      }
      var raised := Write(c, Moved(v, Staged, Data));
      ok := !raised;
    }
  }
}
