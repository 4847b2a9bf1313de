/** All-or-nothing certificate renewal over n profiles (infra/fabric/certificates.ts: atomicWrite, the
    old/new classification of preflightApply, applyRenewal): faults and crashes before or after any
    rename, rollback in reverse, and resuming. SHA-256 is injective, so a hash is the content. */
module CertificateApply {

  newtype byte = x: int | 0 <= x < 256

  type Bytes = seq<byte>

  /** A plan entry with its recorded contents, the staged artifacts as they are now, and whether the
      certificates passed every identity and validity check. */
  datatype Entry = Entry(before: Bytes, after: Bytes, stagedBefore: Bytes, stagedAfter: Bytes, sound: bool)

  datatype PlanStatus = Prepared | Applied

  datatype Disk = Disk(targets: seq<Bytes>, plan: PlanStatus)

  /** What one atomic write, together with the read-back after it, runs into. */
  datatype Fault =
    | Clean
    | ReadbackFails
    | FailsBeforeRename
    | FailsAfterRename
    | CrashesBeforeRename
    | CrashesAfterRename

  datatype Faults = Faults(install: nat -> Fault, plan: Fault, restore: nat -> Fault)

  datatype Code = INVALID_CERTIFICATE | PLAN_DRIFT | TARGET_DRIFT | APPLY_FAILED | ROLLBACK_FAILED

  datatype Result = Done(changed: nat) | Failed(code: Code) | Crashed

  predicate Renames(f: Fault) { !f.FailsBeforeRename? && !f.CrashesBeforeRename? }

  predicate Crashes(f: Fault) { f.CrashesBeforeRename? || f.CrashesAfterRename? }

  /** A renewed certificate expires strictly later, so a sound entry has two different contents. */
  predicate WellPlanned(es: seq<Entry>) {
    forall e :: e in es && e.sound ==> e.before != e.after
  }

  /******* Preflight *******/

  predicate EntryOk(e: Entry, target: Bytes) {
    e.stagedBefore == e.before && e.stagedAfter == e.after && e.sound && (target == e.before || target == e.after)
  }

  function EntryError(e: Entry): Code {
    if e.stagedBefore != e.before || e.stagedAfter != e.after then PLAN_DRIFT
    else if !e.sound then INVALID_CERTIFICATE
    else TARGET_DRIFT
  }

  predicate PreflightOk(d: Disk, es: seq<Entry>) {
    |es| == |d.targets| && forall i :: 0 <= i < |es| ==> EntryOk(es[i], d.targets[i])
  }

  /** Every target is wholly old or wholly new. */
  predicate Mixed(targets: seq<Bytes>, es: seq<Entry>) {
    |targets| == |es| && forall i :: 0 <= i < |es| ==> targets[i] == es[i].before || targets[i] == es[i].after
  }

  /******* The specification *******/

  datatype Ending = Ran | Threw | Died

  datatype Trace = Trace(targets: seq<Bytes>, changed: seq<nat>, ending: Ending)

  function Written(ts: seq<Bytes>, i: nat, bytes: Bytes, f: Fault): (r: seq<Bytes>)
    requires i < |ts|
    ensures |r| == |ts|
  {
    if Renames(f) then ts[i := bytes] else ts
  }

  predicate Profiles(changed: seq<nat>, n: nat) {
    forall j :: 0 <= j < |changed| ==> changed[j] < n
  }

  /** The installing loop from profile i on, with the profiles changed so far. */
  function Forward(ts: seq<Bytes>, es: seq<Entry>, f: Faults, i: nat, changed: seq<nat>): (t: Trace)
    requires |ts| == |es| && i <= |es| && Profiles(changed, i)
    ensures |t.targets| == |es| && Profiles(t.changed, |es|)
    decreases |es| - i
  {
    if i == |es| then Trace(ts, changed, Ran)
    else if ts[i] == es[i].after then Forward(ts, es, f, i + 1, changed)
    else
      var fault := f.install(i);
      var next := Written(ts, i, es[i].stagedAfter, fault);
      if fault.Clean? then Forward(next, es, f, i + 1, changed + [i])
      else Trace(next, changed + [i], if Crashes(fault) then Died else Threw)
  }

  /** The rollback loop over the changed profiles, last first. */
  function Undo(ts: seq<Bytes>, es: seq<Entry>, f: Faults, changed: seq<nat>, failed: bool): (seq<Bytes>, Result)
    requires |ts| == |es| && Profiles(changed, |es|)
    decreases |changed|
  {
    if changed == [] then (ts, Failed(if failed then ROLLBACK_FAILED else APPLY_FAILED))
    else
      var i := changed[|changed| - 1];
      var fault := f.restore(i);
      var next := Written(ts, i, es[i].stagedBefore, fault);
      if Crashes(fault) then (next, Crashed)
      else Undo(next, es, f, changed[..|changed| - 1], failed || !fault.Clean?)
  }

  /** The first profile that fails preflight, or their number. */
  function FirstBad(ts: seq<Bytes>, es: seq<Entry>, i: nat): (k: nat)
    requires |ts| == |es| && i <= |es|
    ensures i <= k <= |es| && (k < |es| ==> !EntryOk(es[k], ts[k])) && forall j :: i <= j < k ==> EntryOk(es[j], ts[j])
    decreases |es| - i
  {
    if i == |es| || !EntryOk(es[i], ts[i]) then i else FirstBad(ts, es, i + 1)
  }

  function Apply(d: Disk, es: seq<Entry>, f: Faults): (Disk, Result)
    requires |d.targets| == |es|
  {
    var bad := FirstBad(d.targets, es, 0);
    if bad < |es| then (d, Failed(EntryError(es[bad])))
    else
      var t := Forward(d.targets, es, f, 0, []);
      var plan := if t.ending.Ran? && Renames(f.plan) then Applied else d.plan;
      if t.ending.Died? || (t.ending.Ran? && Crashes(f.plan)) then (Disk(t.targets, plan), Crashed)
      else if t.ending.Ran? && (f.plan.Clean? || f.plan.ReadbackFails?) then (Disk(t.targets, plan), Done(|t.changed|))
      else
        var (ts, r) := Undo(t.targets, es, f, t.changed, false);
        (Disk(ts, plan), r)
  }

  /******* The files *******/

  class Files {
    var targets: seq<Bytes>
    var plan: PlanStatus

    ghost function OnDisk(): Disk reads this { Disk(targets, plan) }

    constructor (d: Disk)
      ensures OnDisk() == d
    {
      targets, plan := d.targets, d.plan;
    }

    method AtomicWrite(i: nat, bytes: Bytes, f: Fault) returns (ending: Ending)
      requires i < |targets|
      modifies this`targets
      ensures targets == Written(old(targets), i, bytes, f)
      ensures ending == if Crashes(f) then Died else if f.Clean? then Ran else Threw
    {
      if f.FailsBeforeRename? { return Threw; }
      if f.CrashesBeforeRename? { return Died; }
      targets := targets[i := bytes];
      ending := if f.CrashesAfterRename? then Died else if f.Clean? then Ran else Threw;
    }

    method Rollback(es: seq<Entry>, f: Faults, changed: seq<nat>) returns (r: Result)
      requires |targets| == |es| && Profiles(changed, |es|)
      modifies this`targets
      ensures (targets, r) == Undo(old(targets), es, f, changed, false)
    {
      var rollbackFailed := false;
      var n := |changed|;
      assert changed[..n] == changed;
      while n > 0
        invariant 0 <= n <= |changed| && |targets| == |es|
        invariant Undo(targets, es, f, changed[..n], rollbackFailed) == Undo(old(targets), es, f, changed, false)
      {
        var i := changed[n - 1];
        assert changed[..n][..n - 1] == changed[..n - 1];
        var ending := AtomicWrite(i, es[i].stagedBefore, f.restore(i));
        if ending == Died { return Crashed; }
        if ending == Threw { rollbackFailed := true; }
        n := n - 1;
      }
      r := Failed(if rollbackFailed then ROLLBACK_FAILED else APPLY_FAILED);
    }

    method Install(es: seq<Entry>, f: Faults, installed: seq<bool>) returns (ending: Ending, changed: seq<nat>)
      requires |targets| == |es| == |installed|
      requires forall k :: 0 <= k < |es| ==> installed[k] == (targets[k] == es[k].after)
      modifies this`targets
      ensures Trace(targets, changed, ending) == Forward(old(targets), es, f, 0, [])
    {
      changed, ending := [], Ran;
      var i := 0;
      while i < |es| && ending == Ran
        invariant 0 <= i <= |es| && |targets| == |es| && Profiles(changed, i)
        invariant forall k :: i <= k < |es| ==> installed[k] == (targets[k] == es[k].after)
        invariant Forward(old(targets), es, f, 0, []) ==
          if ending == Ran then Forward(targets, es, f, i, changed) else Trace(targets, changed, ending)
      {
        if !installed[i] {
          changed := changed + [i];
          ending := AtomicWrite(i, es[i].stagedAfter, f.install(i));
        }
        i := i + 1;
      }
    }

    /** Every profile is classified before the first write. */
    method Preflight(es: seq<Entry>) returns (r: Result, installed: seq<bool>)
      requires |targets| == |es| && WellPlanned(es)
      ensures var bad := FirstBad(targets, es, 0);
        r == if bad < |es| then Failed(EntryError(es[bad])) else Done(0)
      ensures r.Done? ==>
        |installed| == |es| && forall k :: 0 <= k < |es| ==> installed[k] == (targets[k] == es[k].after)
    {
      installed := [];
      for i := 0 to |es|
        invariant |installed| == i && FirstBad(targets, es, 0) == FirstBad(targets, es, i)
        invariant forall k :: 0 <= k < i ==> installed[k] == (targets[k] == es[k].after)
      {
        var e := es[i];
        if e.stagedBefore != e.before || e.stagedAfter != e.after { return Failed(PLAN_DRIFT), []; }
        if !e.sound { return Failed(INVALID_CERTIFICATE), []; }
        assert e in es;
        if targets[i] == e.before { installed := installed + [false]; }
        else if targets[i] == e.after { installed := installed + [true]; }
        else { return Failed(TARGET_DRIFT), []; }
      }
      r := Done(0);
    }

    method ApplyRenewal(es: seq<Entry>, f: Faults) returns (r: Result)
      requires |targets| == |es| && WellPlanned(es)
      modifies this
      ensures (OnDisk(), r) == Apply(old(OnDisk()), es, f)
    {
      hide Forward, Undo;
      var installed;
      r, installed := Preflight(es);
      if r.Failed? { return; }
      var ending, changed := Install(es, f, installed);
      if ending == Died { return Crashed; }
      if ending == Ran {
        if Renames(f.plan) { plan := Applied; }
        if Crashes(f.plan) { return Crashed; }
        if f.plan.Clean? || f.plan.ReadbackFails? { return Done(|changed|); }
      }
      r := Rollback(es, f, changed);
    }
  }

  /******* Outcomes *******/

  predicate PlanWritten(f: Faults) { f.plan.Clean? || f.plan.ReadbackFails? }

  /** No write that this attempt makes runs into a fault. */
  predicate Unfaulted(d: Disk, es: seq<Entry>, f: Faults)
    requires |d.targets| == |es|
  {
    PlanWritten(f) && forall i :: 0 <= i < |es| && d.targets[i] != es[i].after ==> f.install(i).Clean?
  }

  /** How far the installing loop got: everything before the stop is new, everything behind is as it was. */
  ghost predicate Progress(start: seq<Bytes>, es: seq<Entry>, ts: seq<Bytes>, i: nat, changed: seq<nat>) {
    && |start| == |ts| == |es| && i <= |es| && Profiles(changed, i)
    && (forall k :: 0 <= k < i ==> ts[k] == es[k].after)
    && (forall k :: i <= k < |es| ==> ts[k] == start[k])
    && (forall k :: 0 <= k < i && k !in changed ==> start[k] == es[k].after)
    && (forall j :: 0 <= j < |changed| ==> start[changed[j]] == es[changed[j]].before)
  }

  /** Everything outside the changed profiles is as at the start; those were old at the start. */
  ghost predicate Undoable(start: seq<Bytes>, es: seq<Entry>, ts: seq<Bytes>, changed: seq<nat>) {
    && |start| == |ts| == |es| && Profiles(changed, |es|) && Mixed(ts, es)
    && (forall k :: 0 <= k < |es| && k !in changed ==> ts[k] == start[k])
    && (forall j :: 0 <= j < |changed| ==> start[changed[j]] == es[changed[j]].before)
  }

  lemma InstallProgress(start: seq<Bytes>, es: seq<Entry>, ts: seq<Bytes>, i: nat, changed: seq<nat>, fault: Fault)
    requires Progress(start, es, ts, i, changed) && i < |es| && EntryOk(es[i], start[i]) && ts[i] != es[i].after
    ensures fault.Clean? ==> Progress(start, es, Written(ts, i, es[i].stagedAfter, fault), i + 1, changed + [i])
    ensures start[i] != es[i].after
  {
    assert i in changed + [i] && forall k :: k in changed ==> k in changed + [i];
  }

  lemma StopUndoable(start: seq<Bytes>, es: seq<Entry>, ts: seq<Bytes>, i: nat, changed: seq<nat>, fault: Fault)
    requires PreflightOk(Disk(start, Prepared), es)
    requires Progress(start, es, ts, i, changed) && i < |es| && ts[i] != es[i].after
    ensures Undoable(start, es, Written(ts, i, es[i].stagedAfter, fault), changed + [i])
  {
    assert EntryOk(es[i], start[i]);
    assert i in changed + [i] && forall k :: k in changed ==> k in changed + [i];
    forall k | 0 <= k < |es| ensures EntryOk(es[k], start[k]) {}
  }

  lemma EndUndoable(start: seq<Bytes>, es: seq<Entry>, ts: seq<Bytes>, changed: seq<nat>)
    requires Progress(start, es, ts, |es|, changed)
    ensures Undoable(start, es, ts, changed) && forall k :: 0 <= k < |es| ==> ts[k] == es[k].after
  {
  }

  lemma {:induction false} ForwardOutcome(start: seq<Bytes>, ts: seq<Bytes>, es: seq<Entry>, f: Faults, i: nat,
                                          changed: seq<nat>)
    requires PreflightOk(Disk(start, Prepared), es) && Progress(start, es, ts, i, changed)
    ensures var t := Forward(ts, es, f, i, changed);
      && Undoable(start, es, t.targets, t.changed)
      && (t.ending.Ran? <==> forall k :: i <= k < |es| && start[k] != es[k].after ==> f.install(k).Clean?)
      && (t.ending.Ran? ==> forall k :: 0 <= k < |es| ==> t.targets[k] == es[k].after)
    decreases |es| - i
  {
    hide Undoable, Renames;
    if i == |es| {
      EndUndoable(start, es, ts, changed);
    } else if ts[i] == es[i].after {
      ForwardOutcome(start, ts, es, f, i + 1, changed);
    } else {
      var next := Written(ts, i, es[i].stagedAfter, f.install(i));
      InstallProgress(start, es, ts, i, changed, f.install(i));
      StopUndoable(start, es, ts, i, changed, f.install(i));
      if f.install(i).Clean? { ForwardOutcome(start, next, es, f, i + 1, changed + [i]); }
    }
  }

  lemma {:induction false} UndoOutcome(start: seq<Bytes>, ts: seq<Bytes>, es: seq<Entry>, f: Faults,
                                       changed: seq<nat>, failed: bool)
    requires PreflightOk(Disk(start, Prepared), es)
    requires failed || Undoable(start, es, ts, changed)
    requires Mixed(ts, es) && Profiles(changed, |es|)
    ensures var (end, r) := Undo(ts, es, f, changed, failed);
      && Mixed(end, es) && !r.Done?
      && (r == Failed(APPLY_FAILED) ==> end == start)
      && (r.Failed? ==> r.code == APPLY_FAILED || r.code == ROLLBACK_FAILED)
      && (r == Failed(APPLY_FAILED) <==> !failed && forall k :: k in changed ==> f.restore(k).Clean?)
    decreases |changed|
  {
    if changed != [] {
      var n := |changed| - 1;
      var i := changed[n];
      var next := Written(ts, i, es[i].stagedBefore, f.restore(i));
      assert EntryOk(es[i], start[i]);
      assert forall k :: k in changed <==> k in changed[..n] || k == i;
      if !Crashes(f.restore(i)) { UndoOutcome(start, next, es, f, changed[..n], failed || !f.restore(i).Clean?); }
    }
  }

  lemma ApplyOutcome(d: Disk, es: seq<Entry>, f: Faults)
    requires |d.targets| == |es|
    ensures var (d', r) := Apply(d, es, f);
      && (r.Done? <==> PreflightOk(d, es) && Unfaulted(d, es, f))
      && (r.Done? ==>
            |d'.targets| == |es| && d'.plan == Applied && forall i :: 0 <= i < |es| ==> d'.targets[i] == es[i].after)
      && (r.Failed? && r.code != ROLLBACK_FAILED ==> d'.targets == d.targets)
      && (Mixed(d.targets, es) ==> Mixed(d'.targets, es))
  {
    hide Undoable, Forward, Undo;
    if PreflightOk(d, es) {
      ForwardOutcome(d.targets, d.targets, es, f, 0, []);
      var t := Forward(d.targets, es, f, 0, []);
      UndoableMixed(d.targets, es, t);
      UndoOutcome(d.targets, t.targets, es, f, t.changed, false);
    }
  }

  /** Success is exact: the plan was sound and undrifted, every target old or new, and no write of
      this attempt failed; then every target holds its new bytes and the plan is marked applied. */
  lemma AppliedExactly(d: Disk, es: seq<Entry>, f: Faults)
    requires |d.targets| == |es|
    ensures Apply(d, es, f).1.Done? <==> PreflightOk(d, es) && Unfaulted(d, es, f)
    ensures Apply(d, es, f).1.Done? ==>
      var d' := Apply(d, es, f).0;
      |d'.targets| == |es| && d'.plan == Applied && forall i :: 0 <= i < |es| ==> d'.targets[i] == es[i].after
  {
    hide Apply;
    ApplyOutcome(d, es, f);
  }

  lemma UndoableMixed(start: seq<Bytes>, es: seq<Entry>, t: Trace)
    requires Undoable(start, es, t.targets, t.changed)
    ensures Mixed(t.targets, es) && Profiles(t.changed, |es|)
  {
  }

  /** A reported failure other than ROLLBACK_FAILED leaves every target byte-equal to its start. */
  lemma FailureRestores(d: Disk, es: seq<Entry>, f: Faults)
    requires |d.targets| == |es|
    requires var r := Apply(d, es, f).1; r.Failed? && r.code != ROLLBACK_FAILED
    ensures Apply(d, es, f).0.targets == d.targets
  {
    hide Apply;
    ApplyOutcome(d, es, f);
  }

  /** However an attempt ends, crash or failed rollback included, each target is wholly old or new. */
  lemma NeverTorn(d: Disk, es: seq<Entry>, f: Faults)
    requires Mixed(d.targets, es)
    ensures Mixed(Apply(d, es, f).0.targets, es)
  {
    hide Apply;
    ApplyOutcome(d, es, f);
  }

  /** Any number of attempts, each with its own faults and crashes. */
  function Attempts(d: Disk, es: seq<Entry>, fs: seq<Faults>): (r: Disk)
    requires |d.targets| == |es|
    ensures |r.targets| == |es|
    decreases |fs|
  {
    if fs == [] then d
    else
      SizeStays(d, es, fs[0]);
      Attempts(Apply(d, es, fs[0]).0, es, fs[1..])
  }

  lemma SizeStays(d: Disk, es: seq<Entry>, f: Faults)
    requires |d.targets| == |es|
    ensures |Apply(d, es, f).0.targets| == |es|
  {
    hide Forward, Undo;
    if FirstBad(d.targets, es, 0) == |es| {
      var t := Forward(d.targets, es, f, 0, []);
      UndoSize(t.targets, es, f, t.changed, false);
    }
  }

  lemma {:induction false} UndoSize(ts: seq<Bytes>, es: seq<Entry>, f: Faults, changed: seq<nat>, failed: bool)
    requires |ts| == |es| && Profiles(changed, |es|)
    ensures |Undo(ts, es, f, changed, failed).0| == |es|
    decreases |changed|
  {
    if changed != [] {
      var n := |changed| - 1;
      var next := Written(ts, changed[n], es[changed[n]].stagedBefore, f.restore(changed[n]));
      UndoSize(next, es, f, changed[..n], failed || !f.restore(changed[n]).Clean?);
    }
  }

  lemma {:induction false} AttemptsNeverTorn(d: Disk, es: seq<Entry>, fs: seq<Faults>)
    requires Mixed(d.targets, es)
    ensures Mixed(Attempts(d, es, fs).targets, es)
    decreases |fs|
  {
    if fs != [] {
      hide Apply;
      NeverTorn(d, es, fs[0]);
      AttemptsNeverTorn(Apply(d, es, fs[0]).0, es, fs[1..]);
    }
  }

  /** After any history of crashes and failures the classification accepts every target, and an
      attempt that meets no fault completes the renewal. */
  lemma RerunCompletes(d: Disk, es: seq<Entry>, fs: seq<Faults>, f: Faults)
    requires PreflightOk(d, es) && Unfaulted(Attempts(d, es, fs), es, f)
    ensures var (d', r) := Apply(Attempts(d, es, fs), es, f);
      r.Done? && |d'.targets| == |es| && forall i :: 0 <= i < |es| ==> d'.targets[i] == es[i].after
  {
    hide Apply;
    AttemptsNeverTorn(d, es, fs);
    var last := Attempts(d, es, fs);
    assert PreflightOk(last, es) by {
      forall i | 0 <= i < |es| ensures EntryOk(es[i], last.targets[i]) { assert EntryOk(es[i], d.targets[i]); }
    }
    AppliedExactly(last, es, f);
  }

  /** A failed attempt may leave the plan marked applied over restored targets: exactly when every
      installation went through and the plan file was renamed before its write failed. */
  lemma PlanAheadExactly(d: Disk, es: seq<Entry>, f: Faults)
    requires |d.targets| == |es| && Apply(d, es, f).1 == Failed(APPLY_FAILED)
    ensures Apply(d, es, f).0 == d.(plan := Applied) <==>
      d.plan == Applied || (f.plan.FailsAfterRename? && Unfaulted(d, es, f.(plan := Clean)))
  {
    hide Undoable, Forward, Undo;
    FailureRestores(d, es, f);
    if PreflightOk(d, es) {
      ForwardOutcome(d.targets, d.targets, es, f, 0, []);
    }
  }

  /** An attempt on a prepared, sound and undrifted plan that fails, restores every target, and leaves
      the plan marked applied. */
  predicate PlanRunsAhead(d: Disk, es: seq<Entry>, f: Faults) {
    && |d.targets| == |es| && WellPlanned(es) && PreflightOk(d, es) && d.plan == Prepared
    && Apply(d, es, f) == (d.(plan := Applied), Failed(APPLY_FAILED))
  }

  /** It happens: one sound entry, no fault but in the plan write after its rename. */
  lemma PlanCanRunAhead()
    ensures exists d, es, f :: PlanRunsAhead(d, es, f)
  {
    hide PlanRunsAhead;
    var d, es, f := LatePlanFault();
  }

  lemma LatePlanFault() returns (d: Disk, es: seq<Entry>, f: Faults)
    ensures PlanRunsAhead(d, es, f)
  {
    hide Apply;
    es := [Entry([], [0], [], [0], true)];
    d := Disk([[]], Prepared);
    f := Faults(_ => Clean, FailsAfterRename, _ => Clean);
    OnlyPlanFails(d, es, f);
    PlanAheadExactly(d, es, f);
  }

  lemma OnlyPlanFails(d: Disk, es: seq<Entry>, f: Faults)
    requires |d.targets| == |es| && PreflightOk(d, es)
    requires f.plan.FailsAfterRename? && forall i :: f.install(i).Clean? && f.restore(i).Clean?
    ensures Apply(d, es, f).1 == Failed(APPLY_FAILED) && Unfaulted(d, es, f.(plan := Clean))
  {
    hide Undoable, Forward, Undo;
    ForwardOutcome(d.targets, d.targets, es, f, 0, []);
    var t := Forward(d.targets, es, f, 0, []);
    UndoableMixed(d.targets, es, t);
    UndoOutcome(d.targets, t.targets, es, f, t.changed, false);
  }
}
