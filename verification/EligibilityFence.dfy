/** The fence protocol behind resolve and revalidate (apps/api/service.ts: resolveRun, revalidate,
    storedManifestMismatch) over the ledger's state transitions (packages/domain/index.ts). A history
    is the sequence of commands the ledger committed; a checkpoint is a length of it. */
module EligibilityFence {
  import opened Options
  import opened Eligibility

  const MAX_SAFE_INTEGER := 9007199254740991

  /******* The ledger's transitions *******/

  datatype Command =
    | Publish(revision: Revision)
    | Propose
    | Decide(decision: Decision)
    | Activate(agreement: Agreement)
    | ChangeStatus(id: string, status: Status)
    | Fence(nonce: string)

  function ActiveAgreement(s: State, slot: Slot): Option<Agreement> {
    if slot in s.active && s.active[slot].Some? && s.active[slot].value in s.agreements
    then Some(s.agreements[s.active[slot].value]) else None
  }

  /** An active agreement stops being active: status, pointer and epoch move together. */
  function Deactivate(s: State, a: Agreement, status: Status): State {
    s.(agreements := s.agreements[a.id := a.(status := status)],
       active := s.active[a.binding.slot := None],
       epoch := s.epoch + 1)
  }

  /** One committed command. A command the ledger refuses leaves the state as it is; refusals for
      lack of rights or stale preconditions are not modelled, so more commands take effect here. */
  function Apply(s: State, c: Command): State {
    match c
    case Publish(r) => if r.digest in s.revisions then s else s.(revisions := s.revisions[r.digest := r])
    case Propose => s
    case Decide(d) =>
      if d.id in s.decisions then s
      else
        var s' := s.(decisions := s.decisions[d.id := d]);
        var current := ActiveAgreement(s, d.binding.slot);
        if d.approve || current.None? || current.value.status != Active
           || current.value.binding.proposal != d.binding.proposal || !WellKept(s, current.value)
        then s'
        else if s.epoch + 1 > MAX_SAFE_INTEGER then s
        else Deactivate(s', current.value, Suspended)
    case Activate(a) =>
      if a.id in s.agreements || a.status != Active || s.epoch + 1 > MAX_SAFE_INTEGER then s
      else
        var current := ActiveAgreement(s, a.binding.slot);
        var kept :=
          if current.Some? then s.agreements[current.value.id := current.value.(status := Superseded)]
          else s.agreements;
        s.(agreements := kept[a.id := a], active := s.active[a.binding.slot := Some(a.id)], epoch := s.epoch + 1)
    case ChangeStatus(id, status) =>
      if id !in s.agreements || s.agreements[id].status != Active || status == Active || !WellKept(s, s.agreements[id])
         || s.epoch + 1 > MAX_SAFE_INTEGER
      then s
      else Deactivate(s, s.agreements[id], status)
    case Fence(nonce) => if nonce in s.fences then s else s.(fences := s.fences[nonce := s.epoch])
  }

  /** An agreement is stored under its own id; reads of corrupt records are refused. */
  predicate WellKept(s: State, a: Agreement) {
    a.id in s.agreements && s.agreements[a.id] == a
  }

  function After(start: State, h: seq<Command>): State {
    if h == [] then start else Apply(After(start, h[..|h| - 1]), h[|h| - 1])
  }

  /** The state at a checkpoint. */
  function At(start: State, h: seq<Command>, n: nat): State
    requires n <= |h|
  {
    After(start, h[..n])
  }

  /******* What moves eligibility moves the epoch *******/

  /** Every transition that touches agreements or active slots raises the epoch; the others only
      add revisions, decisions and fences. */
  lemma EpochGuardsEligibility(s: State, c: Command)
    ensures Apply(s, c).config == s.config
    ensures Apply(s, c).epoch == s.epoch + 1 || Grows(s, Apply(s, c))
  {
    if c.Decide? { DecideGuards(s, c.decision); }
  }

  lemma DecideGuards(s: State, d: Decision)
    ensures Apply(s, Decide(d)).config == s.config
    ensures Apply(s, Decide(d)).epoch == s.epoch + 1 || Grows(s, Apply(s, Decide(d)))
  {
    var s' := s.(decisions := s.decisions[d.id := d]);
    assert d.id !in s.decisions ==> Grows(s, s');
    assert Grows(s, s);
    hide Grows, WellKept;
  }

  lemma {:induction false} EpochNeverFalls(start: State, h: seq<Command>, i: nat, j: nat)
    requires i <= j <= |h|
    ensures At(start, h, i).epoch <= At(start, h, j).epoch
    ensures At(start, h, i).config == At(start, h, j).config
    decreases j - i
  {
    if i < j {
      EpochNeverFalls(start, h, i, j - 1);
      assert h[..j][..j - 1] == h[..j - 1];
      EpochGuardsEligibility(At(start, h, j - 1), h[j - 1]);
    }
  }

  /** Between two checkpoints with the same epoch no eligibility changed hands. */
  lemma {:induction false} SameEpochGrows(start: State, h: seq<Command>, i: nat, j: nat)
    requires i <= j <= |h| && At(start, h, i).epoch == At(start, h, j).epoch
    ensures Grows(At(start, h, i), At(start, h, j))
    decreases j - i
  {
    hide Apply;
    if i < j {
      EpochNeverFalls(start, h, i, j - 1);
      EpochNeverFalls(start, h, j - 1, j);
      SameEpochGrows(start, h, i, j - 1);
      assert h[..j][..j - 1] == h[..j - 1];
      EpochGuardsEligibility(At(start, h, j - 1), h[j - 1]);
    }
  }

  /******* What commands do to eligibility *******/

  ghost predicate KeptById(s: State) {
    forall id :: id in s.agreements ==> s.agreements[id].id == id
  }

  /** The active agreements are those that the active slots point to: one to a slot. */
  ghost predicate Pointed(s: State) {
    && KeptById(s)
    && (forall id :: id in s.agreements && s.agreements[id].status == Active ==>
          s.agreements[id].binding.slot in s.active && s.active[s.agreements[id].binding.slot] == Some(id))
    && forall slot :: slot in s.active && s.active[slot].Some? ==>
         var id := s.active[slot].value;
         id in s.agreements && s.agreements[id].status == Active && s.agreements[id].binding.slot == slot
  }

  lemma DeactivateKeepsPointed(s: State, s': State, a: Agreement, status: Status)
    requires Pointed(s) && WellKept(s, a) && status != Active && a.status == Active
    requires s'.agreements == s.agreements && s'.active == s.active
    ensures Pointed(Deactivate(s', a, status))
  {
  }

  /** The active agreement of a slot is the only one there. */
  lemma CurrentIsOnly(s: State, slot: Slot, id: string)
    requires Pointed(s) && id in s.agreements && s.agreements[id].status == Active
    requires s.agreements[id].binding.slot == slot
    ensures ActiveAgreement(s, slot) == Some(s.agreements[id])
  {
  }

  lemma ActivatedStatus(s: State, a: Agreement, id: string)
    requires Pointed(s) && Apply(s, Activate(a)) != s && id in Apply(s, Activate(a)).agreements
    ensures var b := Apply(s, Activate(a)).agreements[id];
      && b.id == id && (id == a.id ==> b == a)
      && (id != a.id ==> id in s.agreements && b.binding == s.agreements[id].binding)
      && (id != a.id && b.status == Active ==>
            s.agreements[id].status == Active && b.binding.slot != a.binding.slot)
      && (id != a.id && s.agreements[id].status == Active && b.binding.slot != a.binding.slot ==> b.status == Active)
  {
    if id != a.id && s.agreements[id].status == Active && s.agreements[id].binding.slot == a.binding.slot {
      CurrentIsOnly(s, a.binding.slot, id);
    }
  }

  lemma ActivateKeepsPointed(s: State, a: Agreement)
    requires Pointed(s)
    ensures Pointed(Apply(s, Activate(a)))
  {
    var s' := Apply(s, Activate(a));
    if s' != s {
      assert s'.active == s.active[a.binding.slot := Some(a.id)];
      assert a.status == Active && a.id in s'.agreements && s.agreements.Keys <= s'.agreements.Keys;
      hide Apply;
      forall id | id in s'.agreements ensures s'.agreements[id].id == id { ActivatedStatus(s, a, id); }
      forall id | id in s'.agreements && s'.agreements[id].status == Active
        ensures s'.agreements[id].binding.slot in s'.active && s'.active[s'.agreements[id].binding.slot] == Some(id)
      {
        ActivatedStatus(s, a, id);
      }
      forall slot | slot in s'.active && s'.active[slot].Some?
        ensures var id := s'.active[slot].value;
          id in s'.agreements && s'.agreements[id].status == Active && s'.agreements[id].binding.slot == slot
      {
        ActivatedStatus(s, a, a.id);
        if slot != a.binding.slot { ActivatedStatus(s, a, s.active[slot].value); }
      }
    }
  }

  lemma ApplyKeepsPointed(s: State, c: Command)
    requires Pointed(s)
    ensures Pointed(Apply(s, c))
  {
    hide Deactivate;
    match c
    case Decide(d) =>
      var current := ActiveAgreement(s, d.binding.slot);
      if current.Some? && current.value.status == Active && WellKept(s, current.value) {
        DeactivateKeepsPointed(s, s.(decisions := s.decisions[d.id := d]), current.value, Suspended);
      }
    case Activate(a) => ActivateKeepsPointed(s, a);
    case ChangeStatus(id, status) =>
      if id in s.agreements && s.agreements[id].status == Active && status != Active && WellKept(s, s.agreements[id]) {
        DeactivateKeepsPointed(s, s, s.agreements[id], status);
      }
    case _ =>
  }

  /** From a ledger without agreements on, a slot never has two active agreements. */
  lemma {:induction false} OneActivePerSlot(start: State, h: seq<Command>, n: nat)
    requires n <= |h| && start.agreements == map[] && start.active == map[]
    ensures Pointed(At(start, h, n))
    ensures forall a, b | a in At(start, h, n).agreements.Values && b in At(start, h, n).agreements.Values ::
      (a.status == Active && b.status == Active && a.binding.slot == b.binding.slot ==> a == b)
    decreases n
  {
    if n > 0 {
      OneActivePerSlot(start, h, n - 1);
      assert h[..n][..n - 1] == h[..n - 1];
      ApplyKeepsPointed(At(start, h, n - 1), h[n - 1]);
    }
    hide Apply, After;
    var s := At(start, h, n);
    forall a, b | a in s.agreements.Values && b in s.agreements.Values
      && a.status == Active && b.status == Active && a.binding.slot == b.binding.slot ensures a == b
    {
      assert a.id in s.agreements && s.agreements[a.id] == a && b.id in s.agreements && s.agreements[b.id] == b;
    }
  }

  /** The command ends what is in force: the agreement's status changes, or one of its
      representatives does not approve its proposal any more. */
  ghost predicate Ends(s: State, a: Agreement, c: Command) {
    && s.epoch < 9007199254740991
    && match c
       case Decide(d) => !d.approve && d.id !in s.decisions && d.binding.slot == a.binding.slot
                         && d.binding.proposal == a.binding.proposal
       case ChangeStatus(id, status) => id == a.id && status != Active
       case _ => false
  }

  /** The command puts another agreement in its place. */
  ghost predicate Replaces(s: State, a: Agreement, c: Command) {
    && c.Activate? && c.agreement.binding.slot == a.binding.slot
    && s.epoch < 9007199254740991 && c.agreement.id !in s.agreements && c.agreement.status == Active
  }

  lemma PointerAfter(s: State, slot: Slot, a: Agreement, c: Command)
    requires Pointed(s) && ActiveAgreement(s, slot) == Some(a)
    ensures ActiveAgreement(Apply(s, c), slot) ==
      if Ends(s, a, c) then None else if Replaces(s, a, c) then Some(c.agreement) else Some(a)
    ensures Ends(s, a, c) || Replaces(s, a, c) ==>
      a.id in Apply(s, c).agreements && Apply(s, c).agreements[a.id].status != Active
  {
  }

  lemma ForceIsActive(s: State, slot: Slot, a: Agreement, r: Revision)
    requires InForce(s, slot, a, r)
    ensures ActiveAgreement(s, slot) == Some(a)
  {
  }

  lemma ForceKept(s: State, c: Command, slot: Slot, a: Agreement, r: Revision)
    requires InForce(s, slot, a, r) && ActiveAgreement(Apply(s, c), slot) == Some(a)
    ensures InForce(Apply(s, c), slot, a, r)
  {
    ApplyAdds(s, c);
    StandingKeeps(s, Apply(s, c), a);
    hide Apply, Standing;
  }

  lemma ApplyAdds(s: State, c: Command)
    ensures Keeps(s, Apply(s, c))
    ensures forall d :: d in s.revisions ==> d in Apply(s, c).revisions && Apply(s, c).revisions[d] == s.revisions[d]
  {
  }

  /** What a command does to a revision in force: it stays so unless the command ends or replaces
      its agreement; then it is in force no more, and after a replacement nothing but the new
      agreement can be. */
  lemma ForceExactly(s: State, slot: Slot, a: Agreement, r: Revision, c: Command)
    requires Pointed(s) && InForce(s, slot, a, r)
    ensures InForce(Apply(s, c), slot, a, r) <==> !Ends(s, a, c) && !Replaces(s, a, c)
    ensures forall b, q :: InForce(Apply(s, c), slot, b, q) && b != a ==> Replaces(s, a, c) && b == c.agreement
    ensures Ends(s, a, c) || Replaces(s, a, c) ==>
      a.id in Apply(s, c).agreements && Apply(s, c).agreements[a.id].status != Active
  {
    var s' := Apply(s, c);
    ForceIsActive(s, slot, a, r);
    PointerAfter(s, slot, a, c);
    hide Apply, InForce, Ends, ActiveAgreement;
    if ActiveAgreement(s', slot) == Some(a) { ForceKept(s, c, slot, a, r); }
    forall b, q | InForce(s', slot, b, q) ensures ActiveAgreement(s', slot) == Some(b) {
      ForceIsActive(s', slot, b, q);
    }
    if Replaces(s, a, c) { AlreadyStored(s, slot, a); }
  }

  /** Over any commands a revision stays in force until one ends or replaces its agreement. */
  lemma {:induction false} InForceUntil(start: State, h: seq<Command>, i: nat, j: nat, slot: Slot, a: Agreement,
                                        r: Revision)
    requires i <= j <= |h| && start.agreements == map[] && start.active == map[]
    requires InForce(At(start, h, i), slot, a, r)
    requires forall k :: i <= k < j ==> !Ends(At(start, h, k), a, h[k]) && !Replaces(At(start, h, k), a, h[k])
    ensures InForce(At(start, h, j), slot, a, r)
    decreases j - i
  {
    hide Apply, InForce, Ends, Replaces, Pointed;
    if i < j {
      InForceUntil(start, h, i, j - 1, slot, a, r);
      OneActivePerSlot(start, h, j - 1);
      assert h[..j][..j - 1] == h[..j - 1];
      ForceExactly(At(start, h, j - 1), slot, a, r, h[j - 1]);
    }
  }

  lemma AlreadyStored(s: State, slot: Slot, a: Agreement)
    requires Pointed(s) && ActiveAgreement(s, slot) == Some(a)
    ensures a.id in s.agreements
  {
  }

  lemma StandingKeeps(s: State, s': State, a: Agreement)
    requires Keeps(s, s')
    requires exists p, order :: Standing(s, a, p, order)
    ensures exists p, order :: Standing(s', a, p, order)
  {
    hide Standing, Approvals;
    ApprovalsExactly(s, a);
    ApprovalsKeep(s, s', a, a);
    ApprovalsExactly(s', a);
  }

  /******* resolveRun *******/

  datatype ApprovalRef = ApprovalRef(id: string, revision: Digest, proposal: string)

  datatype Manifest = Manifest(
    agreementId: string, revision: Digest, policyId: string, policyVersion: nat, membershipEpoch: nat,
    egressVersion: nat, approvals: seq<ApprovalRef>, checkpoint: nat, epoch: nat)

  function Refs(ds: seq<Decision>): seq<ApprovalRef> {
    if ds == [] then [] else [ApprovalRef(ds[0].id, ds[0].binding.revision, ds[0].binding.proposal)] + Refs(ds[1..])
  }

  /** The manifest of an answer; the egress version is a constant of the running service. */
  function ManifestOf(a: Agreement, r: Revision, approvals: seq<Decision>, membershipEpoch: nat, egressVersion: nat,
                      at: nat, epoch: nat): Manifest {
    Manifest(a.id, r.digest, a.binding.policyId, a.binding.policyVersion, membershipEpoch, egressVersion,
             Refs(approvals), at, epoch)
  }

  datatype Answer =
    | Provided(revision: Revision, manifest: Manifest)
    | Withheld(reason: string)
    | Unavailable

  /** One run of resolve. The fence committed as the command before checkpoint at; latest is how
      much of the ledger the service saw after its refresh and final how much at its last check.
      Other actors' commands may lie anywhere, and the service may lag behind the ledger. */
  function ResolveRun(start: State, h: seq<Command>, egress: nat, nonce: string, at: nat, latest: nat, final: nat,
                      slot: Slot): Answer
    requires at <= latest <= final <= |h|
  {
    var fenced := At(start, h, at);
    if nonce !in fenced.fences || at == 0 || h[at - 1] != Fence(nonce) || nonce in At(start, h, at - 1).fences then
      Unavailable
    else
      var resolved := Resolve(fenced, slot);
      var epoch := fenced.fences[nonce];
      if At(start, h, latest).epoch != epoch then Withheld("FENCE_SUPERSEDED")
      else if resolved.Ineligible? then Withheld(resolved.reason)
      else
        var approvals := Approvals(fenced, resolved.agreement);
        if approvals.None? then Unavailable
        else if At(start, h, final).config.membershipEpoch != fenced.config.membershipEpoch
                || At(start, h, final).epoch != At(start, h, latest).epoch
        then Withheld("FENCE_SUPERSEDED")
        else Provided(resolved.revision,
                      ManifestOf(resolved.agreement, resolved.revision, approvals.value,
                                 fenced.config.membershipEpoch, egress, at, epoch))
  }

  lemma FenceRecordsEpoch(start: State, h: seq<Command>, nonce: string, at: nat)
    requires 0 < at <= |h| && h[at - 1] == Fence(nonce) && nonce !in At(start, h, at - 1).fences
    ensures nonce in At(start, h, at).fences && At(start, h, at).fences[nonce] == At(start, h, at).epoch
  {
    assert h[..at][..at - 1] == h[..at - 1];
  }

  /** A provided answer is the resolver's, at every checkpoint from the fence to the final check. */
  lemma ProvidedResolves(start: State, h: seq<Command>, egress: nat, nonce: string, at: nat, latest: nat, final: nat,
                         slot: Slot, c: nat)
    requires at <= latest <= final <= |h| && at <= c <= final
    requires ResolveRun(start, h, egress, nonce, at, latest, final, slot).Provided?
    ensures var answer := ResolveRun(start, h, egress, nonce, at, latest, final, slot);
      var now := Resolve(At(start, h, c), slot);
      && now.Eligible? && now.revision == answer.revision && now.agreement.status == Active
      && Approvals(At(start, h, c), now.agreement).Some?
      && answer.manifest == ManifestOf(now.agreement, now.revision, Approvals(At(start, h, c), now.agreement).value,
                                       At(start, h, c).config.membershipEpoch, egress, at, At(start, h, c).epoch)
  {
    FenceRecordsEpoch(start, h, nonce, at);
    EpochNeverFalls(start, h, at, c);
    EpochNeverFalls(start, h, c, final);
    SameEpochGrows(start, h, at, c);
    ResolveGrows(At(start, h, at), At(start, h, c), slot);
  }

  /** The manifest says which agreement and revision, under what policy, by whose approvals. */
  ghost predicate Attests(s: State, a: Agreement, r: Revision, m: Manifest, egress: nat, at: nat) {
    && m.agreementId == a.id && m.revision == r.digest && m.checkpoint == at && m.epoch == s.epoch
    && m.policyId == a.binding.policyId && m.policyVersion == a.binding.policyVersion
    && m.membershipEpoch == s.config.membershipEpoch && m.egressVersion == egress
    && exists p, order :: Standing(s, a, p, order) && Cites(s, a, order, m.approvals)
  }

  /** The approvals, role after role, each for the agreement's revision and proposal. */
  ghost predicate Cites(s: State, a: Agreement, order: seq<string>, refs: seq<ApprovalRef>) {
    && |refs| == |order|
    && (forall i :: 0 <= i < |refs| ==> order[i] in s.decisions)
    && forall i :: 0 <= i < |refs| ==>
         refs[i] == ApprovalRef(s.decisions[order[i]].id, a.binding.revision, a.binding.proposal)
  }

  lemma {:induction false} RefsCite(s: State, a: Agreement, ds: seq<Decision>, order: seq<string>)
    requires AreDecisions(s, order, ds)
    requires forall i :: 0 <= i < |ds| ==> ds[i].binding == a.binding
    ensures Cites(s, a, order, Refs(ds))
  {
    if ds != [] {
      RefsCite(s, a, ds[1..], order[1..]);
      var rest := Refs(ds[1..]);
      assert forall i :: 0 < i < |Refs(ds)| ==> Refs(ds)[i] == rest[i - 1] && order[i] == order[1..][i - 1];
    }
  }

  lemma ManifestAttests(s: State, a: Agreement, r: Revision, egress: nat, at: nat)
    requires Approvals(s, a).Some?
    ensures Attests(s, a, r, ManifestOf(a, r, Approvals(s, a).value, s.config.membershipEpoch, egress, at, s.epoch),
                    egress, at)
  {
    ApprovalsExactly(s, a);
    var p, order :| Standing(s, a, p, order) && AreDecisions(s, order, Approvals(s, a).value);
    var ds := Approvals(s, a).value;
    forall i | 0 <= i < |ds| ensures ds[i].binding == a.binding {
      assert ApprovedBy(s, a, p, p.roles[i], order[i]);
    }
    hide Approvals;
    RefsCite(s, a, ds, order);
  }

  /** Fence safety: whatever other actors commit and however the service's view advances, an
      answer that provides a revision is right at every checkpoint from the fence up to the head
      of the final check: there the slot may be served with that very revision, and the manifest
      tells why. */
  lemma ProvidedIsEligible(start: State, h: seq<Command>, egress: nat, nonce: string, at: nat, latest: nat, final: nat,
                           slot: Slot, c: nat)
    requires at <= latest <= final <= |h| && at <= c <= final
    requires ResolveRun(start, h, egress, nonce, at, latest, final, slot).Provided?
    ensures var answer := ResolveRun(start, h, egress, nonce, at, latest, final, slot);
      exists a :: Serves(At(start, h, c), slot, a, answer.revision)
               && Attests(At(start, h, c), a, answer.revision, answer.manifest, egress, at)
  {
    hide ResolveRun, Resolve, Serves, Attests, ManifestOf, Approvals;
    ProvidedResolves(start, h, egress, nonce, at, latest, final, slot, c);
    var s := At(start, h, c);
    var a, r := Resolve(s, slot).agreement, Resolve(s, slot).revision;
    EligibleExactly(s, slot);
    ManifestAttests(s, a, r, egress, at);
  }

  /** Exactly when a revision is provided: the fence's command committed under a fresh nonce, the
      slot could be served there, and no command up to the final check moved the epoch. */
  lemma ProvidedExactly(start: State, h: seq<Command>, egress: nat, nonce: string, at: nat, latest: nat, final: nat,
                        slot: Slot)
    requires at <= latest <= final <= |h|
    ensures ResolveRun(start, h, egress, nonce, at, latest, final, slot).Provided? <==>
      && at > 0 && h[at - 1] == Fence(nonce) && nonce !in At(start, h, at - 1).fences
      && (exists a, r :: Serves(At(start, h, at), slot, a, r))
      && forall i :: at <= i < final ==> At(start, h, i + 1).epoch == At(start, h, i).epoch
    ensures ResolveRun(start, h, egress, nonce, at, latest, final, slot).Unavailable? <==>
      !(at > 0 && h[at - 1] == Fence(nonce) && nonce !in At(start, h, at - 1).fences)
  {
    RunProvided(start, h, egress, nonce, at, latest, final, slot);
    EpochSteadyExactly(start, h, at, final);
    EligibleExactly(At(start, h, at), slot);
    hide ResolveRun, Serves, At, Resolve;
  }

  /** Every other answer once the fence is in place: a moved epoch is reported as such, and otherwise
      the slot is refused for the resolver's reason at the fence. */
  lemma WithheldExactly(start: State, h: seq<Command>, egress: nat, nonce: string, at: nat, latest: nat, final: nat,
                        slot: Slot)
    requires 0 < at <= latest <= final <= |h|
    requires h[at - 1] == Fence(nonce) && nonce !in At(start, h, at - 1).fences
    ensures var answer := ResolveRun(start, h, egress, nonce, at, latest, final, slot);
      var epoch, resolved := At(start, h, at).epoch, Resolve(At(start, h, at), slot);
      if At(start, h, latest).epoch != epoch then answer == Withheld("FENCE_SUPERSEDED")
      else if resolved.Ineligible? then answer == Withheld(resolved.reason)
      else if At(start, h, final).epoch != epoch then answer == Withheld("FENCE_SUPERSEDED")
      else answer.Provided? && answer.revision == resolved.revision
  {
    FenceRecordsEpoch(start, h, nonce, at);
    EpochNeverFalls(start, h, at, latest);
    EpochNeverFalls(start, h, latest, final);
    if Resolve(At(start, h, at), slot).Eligible? { EligibleIsApproved(At(start, h, at), slot); }
    hide At, Resolve, Approvals, ManifestOf;
  }

  /** The checks one by one: with the fence in place, provided means eligible and one epoch. */
  lemma RunProvided(start: State, h: seq<Command>, egress: nat, nonce: string, at: nat, latest: nat,
                    final: nat, slot: Slot)
    requires at <= latest <= final <= |h|
    ensures ResolveRun(start, h, egress, nonce, at, latest, final, slot).Provided? <==>
      && at > 0 && h[at - 1] == Fence(nonce) && nonce !in At(start, h, at - 1).fences
      && Resolve(At(start, h, at), slot).Eligible?
      && At(start, h, at).epoch == At(start, h, final).epoch
    ensures ResolveRun(start, h, egress, nonce, at, latest, final, slot).Unavailable? <==>
      !(at > 0 && h[at - 1] == Fence(nonce) && nonce !in At(start, h, at - 1).fences)
  {
    EpochNeverFalls(start, h, at, latest);
    EpochNeverFalls(start, h, latest, final);
    if at > 0 && h[at - 1] == Fence(nonce) && nonce !in At(start, h, at - 1).fences {
      FenceRecordsEpoch(start, h, nonce, at);
      if Resolve(At(start, h, at), slot).Eligible? { EligibleIsApproved(At(start, h, at), slot); }
    }
    hide At, Resolve, Approvals, ManifestOf;
  }

  lemma EligibleIsApproved(s: State, slot: Slot)
    requires Resolve(s, slot).Eligible?
    ensures Approvals(s, Resolve(s, slot).agreement).Some?
  {
  }

  lemma EpochSteadyExactly(start: State, h: seq<Command>, at: nat, final: nat)
    requires at <= final <= |h|
    ensures At(start, h, at).epoch == At(start, h, final).epoch <==>
      forall i :: at <= i < final ==> At(start, h, i + 1).epoch == At(start, h, i).epoch
  {
    hide At;
    if At(start, h, at).epoch == At(start, h, final).epoch {
      forall i | at <= i < final ensures At(start, h, i + 1).epoch == At(start, h, i).epoch {
        EpochNeverFalls(start, h, at, i);
        EpochNeverFalls(start, h, i, i + 1);
        EpochNeverFalls(start, h, i + 1, final);
      }
    }
    if forall i :: at <= i < final ==> At(start, h, i + 1).epoch == At(start, h, i).epoch {
      SteadyEpoch(start, h, at, final);
    }
  }

  lemma {:induction false} SteadyEpoch(start: State, h: seq<Command>, i: nat, j: nat)
    requires i <= j <= |h|
    requires forall k :: i <= k < j ==> At(start, h, k + 1).epoch == At(start, h, k).epoch
    ensures At(start, h, i).epoch == At(start, h, j).epoch
    decreases j - i
  {
    if i < j {
      SteadyEpoch(start, h, i, j - 1);
      assert At(start, h, j - 1 + 1).epoch == At(start, h, j - 1).epoch;
    }
  }

  /******* revalidate *******/

  /** storedManifestMismatch, negated: revision, agreement and bindings must be the same, and the
      approvals the same up to order. */
  predicate ManifestMatches(stored: Manifest, renewed: Manifest) {
    && stored.revision == renewed.revision && stored.agreementId == renewed.agreementId
    && stored.policyId == renewed.policyId && stored.policyVersion == renewed.policyVersion
    && stored.membershipEpoch == renewed.membershipEpoch && stored.egressVersion == renewed.egressVersion
    && multiset(stored.approvals) == multiset(renewed.approvals)
  }

  datatype Verdict = Valid(manifest: Manifest) | NotValid(reason: string)

  function Revalidate(stored: Manifest, renewed: Answer): Verdict {
    match renewed
    case Provided(_, manifest) =>
      if ManifestMatches(stored, manifest) then Valid(manifest) else NotValid("KNOWLEDGE_CHANGED")
    case Withheld(reason) => NotValid(reason)
    case Unavailable => NotValid("FRESHNESS_UNAVAILABLE")
  }

  /** Agreements, revisions and decisions keep their content; an agreement that stopped being
      active never becomes active again. */
  ghost predicate Lasting(s: State, s': State) {
    && Keeps(s, s')
    && (forall d :: d in s.revisions ==> d in s'.revisions && s'.revisions[d] == s.revisions[d])
    && (forall id :: id in s.agreements ==> id in s'.agreements && SameContent(s.agreements[id], s'.agreements[id]))
  }

  ghost predicate SameContent(a: Agreement, a': Agreement) {
    && a'.id == a.id && a'.binding == a.binding && a'.decisions == a.decisions
    && (a'.status == Active ==> a.status == Active)
  }

  lemma DeactivateIsLasting(s: State, s': State, a: Agreement, status: Status)
    requires KeptById(s) && WellKept(s, a) && status != Active
    requires Keeps(s, s') && s'.revisions == s.revisions && s'.agreements == s.agreements
    ensures KeptById(Deactivate(s', a, status)) && Lasting(s, Deactivate(s', a, status))
  {
  }

  lemma ActivateIsLasting(s: State, a: Agreement)
    requires KeptById(s)
    ensures KeptById(Apply(s, Activate(a))) && Lasting(s, Apply(s, Activate(a)))
  {
  }

  lemma DecideIsLasting(s: State, d: Decision)
    requires KeptById(s)
    ensures KeptById(Apply(s, Decide(d))) && Lasting(s, Apply(s, Decide(d)))
  {
    hide Deactivate;
    var current := ActiveAgreement(s, d.binding.slot);
    if current.Some? && WellKept(s, current.value) {
      if d.id !in s.decisions {
        DeactivateIsLasting(s, s.(decisions := s.decisions[d.id := d]), current.value, Suspended);
      }
    }
  }

  lemma StatusIsLasting(s: State, id: string, status: Status)
    requires KeptById(s)
    ensures KeptById(Apply(s, ChangeStatus(id, status))) && Lasting(s, Apply(s, ChangeStatus(id, status)))
  {
    hide Deactivate;
    if id in s.agreements && status != Active && WellKept(s, s.agreements[id]) {
      DeactivateIsLasting(s, s, s.agreements[id], status);
    }
  }

  lemma AddedIsLasting(s: State, c: Command)
    requires KeptById(s) && (c.Publish? || c.Propose? || c.Fence?)
    ensures KeptById(Apply(s, c)) && Lasting(s, Apply(s, c))
  {
  }

  lemma ApplyIsLasting(s: State, c: Command)
    requires KeptById(s)
    ensures KeptById(Apply(s, c)) && Lasting(s, Apply(s, c))
  {
    hide Apply, KeptById, Lasting;
    match c
    case Decide(d) => DecideIsLasting(s, d);
    case Activate(a) => ActivateIsLasting(s, a);
    case ChangeStatus(id, status) => StatusIsLasting(s, id, status);
    case _ => AddedIsLasting(s, c);
  }

  lemma {:induction false} HistoryIsLasting(start: State, h: seq<Command>, i: nat, j: nat)
    requires KeptById(start) && i <= j <= |h|
    ensures KeptById(At(start, h, j)) && Lasting(At(start, h, i), At(start, h, j))
    decreases j
  {
    hide Apply;
    if j == 0 {
      assert h[..0] == [];
    } else {
      HistoryIsLasting(start, h, if i == j then j - 1 else i, j - 1);
      assert h[..j][..j - 1] == h[..j - 1];
      ApplyIsLasting(At(start, h, j - 1), h[j - 1]);
    }
  }

  lemma AgreementOf(s: State, slot: Slot)
    requires Resolve(s, slot).Eligible?
    ensures var a := Resolve(s, slot).agreement;
      KeptById(s) ==> a.id in s.agreements && s.agreements[a.id] == a
    ensures Resolve(s, slot).agreement.binding.revision in s.revisions
    ensures Resolve(s, slot).revision == s.revisions[Resolve(s, slot).agreement.binding.revision]
  {
  }

  ghost predicate Renews(stored: Manifest, m: Manifest) {
    exists approvals :: multiset(approvals) == multiset(stored.approvals)
      && m == stored.(approvals := approvals, checkpoint := m.checkpoint, epoch := m.epoch)
  }

  /** Whatever manifest is stored, a run revalidates only when it is provided again with a manifest
      that differs at most in its checkpoint, its epoch and the order of its approvals. */
  lemma RevalidatesExactly(stored: Manifest, renewed: Answer)
    ensures Revalidate(stored, renewed).Valid? <==> renewed.Provided? && Renews(stored, renewed.manifest)
    ensures Revalidate(stored, renewed).Valid? ==> Revalidate(stored, renewed).manifest == renewed.manifest
    ensures renewed.Provided? && !Revalidate(stored, renewed).Valid? ==>
      Revalidate(stored, renewed) == NotValid("KNOWLEDGE_CHANGED")
    ensures renewed.Withheld? ==> Revalidate(stored, renewed) == NotValid(renewed.reason)
    ensures renewed.Unavailable? ==> Revalidate(stored, renewed) == NotValid("FRESHNESS_UNAVAILABLE")
  {
    if renewed.Provided? && ManifestMatches(stored, renewed.manifest) {
      var approvals := renewed.manifest.approvals;
      assert multiset(approvals) == multiset(stored.approvals);
    }
  }

  /** Revalidation is exact: a run handed out by the same service revalidates precisely when the
      slot is provided again under the same agreement. Everything else the manifest binds follows
      from the agreement's identity. */
  lemma ValidExactly(start: State, h: seq<Command>, egress: nat, n1: string, at1: nat, l1: nat, f1: nat,
                     n2: string, at2: nat, l2: nat, f2: nat, slot: Slot)
    requires KeptById(start) && at1 <= l1 <= f1 <= at2 <= l2 <= f2 <= |h|
    requires ResolveRun(start, h, egress, n1, at1, l1, f1, slot).Provided?
    ensures var first := ResolveRun(start, h, egress, n1, at1, l1, f1, slot);
      var second := ResolveRun(start, h, egress, n2, at2, l2, f2, slot);
      Revalidate(first.manifest, second).Valid? <==>
        second.Provided? && second.manifest.agreementId == first.manifest.agreementId
  {
    var first := ResolveRun(start, h, egress, n1, at1, l1, f1, slot);
    var second := ResolveRun(start, h, egress, n2, at2, l2, f2, slot);
    if second.Provided? && second.manifest.agreementId == first.manifest.agreementId {
      SameAgreementSameManifest(start, h, egress, n1, at1, l1, f1, n2, at2, l2, f2, slot);
    }
  }

  lemma SameAgreementSameManifest(start: State, h: seq<Command>, egress: nat, n1: string, at1: nat, l1: nat, f1: nat,
                                  n2: string, at2: nat, l2: nat, f2: nat, slot: Slot)
    requires KeptById(start) && at1 <= l1 <= f1 <= at2 <= l2 <= f2 <= |h|
    requires ResolveRun(start, h, egress, n1, at1, l1, f1, slot).Provided?
    requires ResolveRun(start, h, egress, n2, at2, l2, f2, slot).Provided?
    requires ResolveRun(start, h, egress, n2, at2, l2, f2, slot).manifest.agreementId
          == ResolveRun(start, h, egress, n1, at1, l1, f1, slot).manifest.agreementId
    ensures ManifestMatches(ResolveRun(start, h, egress, n1, at1, l1, f1, slot).manifest,
                            ResolveRun(start, h, egress, n2, at2, l2, f2, slot).manifest)
  {
    ProvidedResolves(start, h, egress, n1, at1, l1, f1, slot, at1);
    ProvidedResolves(start, h, egress, n2, at2, l2, f2, slot, at2);
    AgreementOf(At(start, h, at1), slot);
    AgreementOf(At(start, h, at2), slot);
    hide Resolve, ResolveRun, Approvals, Refs;
    HistoryIsLasting(start, h, 0, at1);
    HistoryIsLasting(start, h, at1, at2);
    var a, a' := Resolve(At(start, h, at1), slot).agreement, Resolve(At(start, h, at2), slot).agreement;
    assert SameContent(a, a');
    ApprovalsKeep(At(start, h, at1), At(start, h, at2), a, a');
  }

  /** A run that revalidates: the revision handed out first is still the one in force at the new
      head, and its agreement was active at every checkpoint in between. */
  lemma ValidStillInForce(start: State, h: seq<Command>, egress: nat, n1: string, at1: nat, l1: nat, f1: nat,
                          n2: string, at2: nat, l2: nat, f2: nat, slot: Slot, c: nat)
    requires KeptById(start) && at1 <= l1 <= f1 <= at2 <= l2 <= f2 <= |h| && at1 <= c <= f2
    requires ResolveRun(start, h, egress, n1, at1, l1, f1, slot).Provided?
    requires Revalidate(ResolveRun(start, h, egress, n1, at1, l1, f1, slot).manifest,
                        ResolveRun(start, h, egress, n2, at2, l2, f2, slot)).Valid?
    ensures var first := ResolveRun(start, h, egress, n1, at1, l1, f1, slot);
      var s := At(start, h, c);
      && (exists a, r :: Serves(At(start, h, f2), slot, a, r) && r.digest == first.revision.digest)
      && first.manifest.agreementId in s.agreements && s.agreements[first.manifest.agreementId].status == Active
  {
    ProvidedResolves(start, h, egress, n1, at1, l1, f1, slot, at1);
    ProvidedResolves(start, h, egress, n2, at2, l2, f2, slot, f2);
    EligibleExactly(At(start, h, f2), slot);
    hide Serves;
    AgreementOf(At(start, h, at1), slot);
    AgreementOf(At(start, h, f2), slot);
    hide Resolve, ResolveRun, Approvals, Refs;
    HistoryIsLasting(start, h, 0, at1);
    HistoryIsLasting(start, h, at1, c);
    HistoryIsLasting(start, h, c, f2);
    HistoryIsLasting(start, h, 0, f2);
    var id := Resolve(At(start, h, at1), slot).agreement.id;
    assert SameContent(At(start, h, at1).agreements[id], At(start, h, c).agreements[id]);
    assert SameContent(At(start, h, c).agreements[id], At(start, h, f2).agreements[id]);
  }
}
