/** The ledger's resolver (packages/domain/index.ts: resolveInternal, validateAgreementApprovals) and
    what it means that a slot is eligible: an active agreement under the present configuration,
    approved by every role's representative, and the same along every chain of dependencies. */
module Eligibility {
  import opened Options
  import opened Sorting

  const MAX_DEPTH := 8
  const MAX_NODES := 256

  type Digest = string

  datatype Slot = Slot(channel: string, document: string, context: string, scope: string, usage: string)

  datatype Dependency = Dependency(slot: Slot, digest: Digest, requiresActive: bool)

  datatype Revision = Revision(digest: Digest, slot: Slot, dependencies: seq<Dependency>)

  datatype Person = Person(org: string, actor: string)

  datatype Policy =
    Policy(id: string, version: nat, slot: Slot, roles: seq<string>, representatives: map<string, Person>)

  datatype Config =
    Config(channel: string, membershipEpoch: nat, roleVersion: nat, serving: bool, policies: seq<Policy>)

  /** What an approval or an agreement is bound to. */
  datatype Binding = Binding(revision: Digest, proposal: string, slot: Slot, policyId: string, policyVersion: nat,
                             membershipEpoch: nat, roleVersion: nat)

  datatype Decision = Decision(id: string, approve: bool, role: string, person: Person, binding: Binding)

  datatype Status = Active | Superseded | Suspended | Withdrawn

  datatype Agreement = Agreement(id: string, binding: Binding, decisions: seq<string>, status: Status)

  datatype State = State(
    config: Config,
    active: map<Slot, Option<string>>,
    agreements: map<string, Agreement>,
    revisions: map<Digest, Revision>,
    decisions: map<string, Decision>,
    epoch: nat,
    fences: map<string, nat>)

  /******* The resolver *******/

  function FindPolicy(ps: seq<Policy>, id: string, version: nat): Option<Policy> {
    if ps == [] then None
    else if ps[0].id == id && ps[0].version == version then Some(ps[0])
    else FindPolicy(ps[1..], id, version)
  }

  /** The first unselected decision that is the representative's approval for the role. A missing
      decision or a non-approval before it makes the manifest corrupt. */
  function FindApproval(s: State, ids: seq<string>, selected: set<string>, role: string,
                        person: Person): Option<string> {
    if ids == [] then None
    else if ids[0] in selected then FindApproval(s, ids[1..], selected, role, person)
    else if ids[0] !in s.decisions || !s.decisions[ids[0]].approve then None
    else if s.decisions[ids[0]].role == role && s.decisions[ids[0]].person == person then Some(ids[0])
    else FindApproval(s, ids[1..], selected, role, person)
  }

  function CollectApprovals(s: State, a: Agreement, p: Policy, roles: seq<string>,
                            selected: set<string>): Option<seq<Decision>> {
    if roles == [] then (if |selected| == |a.decisions| then Some([]) else None)
    else if roles[0] !in p.representatives then None
    else
      var found := FindApproval(s, a.decisions, selected, roles[0], p.representatives[roles[0]]);
      if found.None? || found.value !in s.decisions || s.decisions[found.value].binding != a.binding then None
      else
        var rest := CollectApprovals(s, a, p, roles[1..], selected + {found.value});
        if rest.None? then None else Some([s.decisions[found.value]] + rest.value)
  }

  /** validateAgreementApprovals: the approvals, or None where it reports corrupt state. */
  function Approvals(s: State, a: Agreement): Option<seq<Decision>> {
    if a.binding.membershipEpoch != s.config.membershipEpoch || a.binding.roleVersion != s.config.roleVersion then None
    else
      var p := FindPolicy(s.config.policies, a.binding.policyId, a.binding.policyVersion);
      if p.None? || p.value.slot != a.binding.slot || |a.decisions| != |p.value.roles| then None
      else CollectApprovals(s, a, p.value, p.value.roles, {})
  }

  datatype Resolution = Eligible(agreement: Agreement, revision: Revision) | Ineligible(reason: string)

  /** The resolver's answer for one slot and the node budget used so far. */
  function ResolveSlot(s: State, slot: Slot, seen: set<Slot>, depth: nat, count: nat): (Resolution, nat)
    decreases MAX_DEPTH + 1 - depth, 1, 0
  {
    if slot.channel != s.config.channel then (Ineligible("SCOPE_MISMATCH"), count)
    else if depth > MAX_DEPTH then (Ineligible("DEPENDENCY_DEPTH"), count)
    else if slot in seen then (Ineligible("DEPENDENCY_CYCLE"), count)
    else if count + 1 > MAX_NODES then (Ineligible("DEPENDENCY_NODE_LIMIT"), count + 1)
    else
      match ActiveRevision(s, slot)
      case Ineligible(reason) => (Ineligible(reason), count + 1)
      case Eligible(a, r) =>
        var (failure, used) := ResolveAll(s, r.dependencies, seen + {slot}, depth, count + 1);
        (if failure.Some? then Ineligible(failure.value) else Eligible(a, r), used)
  }

  function ResolveAll(s: State, ds: seq<Dependency>, seen: set<Slot>, depth: nat, count: nat): (Option<string>, nat)
    requires depth <= MAX_DEPTH
    decreases MAX_DEPTH + 1 - depth, 0, |ds|
  {
    if ds == [] then (None, count)
    else if !ds[0].requiresActive then ResolveAll(s, ds[1..], seen, depth, count)
    else
      var (r, used) := ResolveSlot(s, ds[0].slot, seen, depth + 1, count);
      if r.Ineligible? then (Some("DEPENDENCY_INELIGIBLE:" + r.reason), used)
      else if r.revision.digest != ds[0].digest then (Some("DEPENDENCY_REVISION_MISMATCH"), used)
      else ResolveAll(s, ds[1..], seen, depth, used)
  }

  function NotActive(status: Status): string
    requires status != Active
  {
    if status == Superseded then "AGREEMENT_SUPERSEDED"
    else if status == Suspended then "AGREEMENT_SUSPENDED"
    else "AGREEMENT_WITHDRAWN"
  }

  /** The checks on the slot's own agreement and revision, dependencies left aside. */
  function ActiveRevision(s: State, slot: Slot): Resolution {
    if slot !in s.active || s.active[slot].None? then Ineligible("NO_ACTIVE_AGREEMENT")
    else if s.active[slot].value !in s.agreements then Ineligible("MISSING_AGREEMENT")
    else
      var a := s.agreements[s.active[slot].value];
      if a.status != Active then Ineligible(NotActive(a.status))
      else if a.binding.slot != slot then Ineligible("AGREEMENT_SLOT_MISMATCH")
      else if a.binding.membershipEpoch != s.config.membershipEpoch
           || a.binding.roleVersion != s.config.roleVersion then
        Ineligible("STALE_CONFIGURATION")
      else
        var p := FindPolicy(s.config.policies, a.binding.policyId, a.binding.policyVersion);
        if p.None? || p.value.slot != a.binding.slot then Ineligible("STALE_POLICY")
        else if Approvals(s, a).None? then Ineligible("CORRUPT_APPROVALS")
        else if a.binding.revision !in s.revisions then Ineligible("MISSING_REVISION")
        else
          var r := s.revisions[a.binding.revision];
          if r.digest != a.binding.revision || r.slot != slot then Ineligible("REVISION_SLOT_MISMATCH")
          else Eligible(a, r)
  }

  function Resolve(s: State, slot: Slot): Resolution {
    if !s.config.serving then Ineligible("SERVING_FROZEN") else ResolveSlot(s, slot, {}, 0, 0).0
  }

  /******* What the approvals mean *******/

  predicate Named(a: Agreement, p: Policy) {
    p.id == a.binding.policyId && p.version == a.binding.policyVersion
  }

  /** The policy of an agreement: the first of the configuration under its id and version. */
  ghost predicate Governs(s: State, a: Agreement, p: Policy) {
    exists i :: 0 <= i < |s.config.policies| && s.config.policies[i] == p && Named(a, p)
      && forall j :: 0 <= j < i ==> !Named(a, s.config.policies[j])
  }

  /** The decision is the approval of this very agreement by the representative of the role. */
  ghost predicate ApprovedBy(s: State, a: Agreement, p: Policy, role: string, id: string) {
    && role in p.representatives && id in s.decisions
    && s.decisions[id].approve && s.decisions[id].role == role && s.decisions[id].person == p.representatives[role]
    && s.decisions[id].binding == a.binding
  }

  /** The agreement's decisions, each once, in an order in which they approve for role after role. */
  ghost predicate Approved(s: State, a: Agreement, p: Policy, order: seq<string>) {
    && |order| == |a.decisions| == |p.roles| && Distinct(order)
    && (forall id :: id in order <==> id in a.decisions)
    && forall i :: 0 <= i < |order| ==> ApprovedBy(s, a, p, p.roles[i], order[i])
  }

  /** The agreement stands under the present configuration. */
  ghost predicate Standing(s: State, a: Agreement, p: Policy, order: seq<string>) {
    && a.binding.membershipEpoch == s.config.membershipEpoch && a.binding.roleVersion == s.config.roleVersion
    && Governs(s, a, p) && p.slot == a.binding.slot && Approved(s, a, p, order)
  }

  ghost predicate AreDecisions(s: State, order: seq<string>, ds: seq<Decision>) {
    |ds| == |order| && forall i :: 0 <= i < |order| ==> order[i] in s.decisions && ds[i] == s.decisions[order[i]]
  }

  /** What is still missing once some decisions are selected. */
  ghost predicate Completes(s: State, a: Agreement, p: Policy, roles: seq<string>, selected: set<string>,
                            order: seq<string>) {
    && |order| == |roles| && |selected| + |order| == |a.decisions| && Distinct(order)
    && (forall id :: id in a.decisions <==> id in selected || id in order)
    && (forall id :: id in order ==> id !in selected)
    && forall i :: 0 <= i < |order| ==> ApprovedBy(s, a, p, roles[i], order[i])
  }

  lemma {:induction false} ElementsSize(ids: seq<string>)
    ensures |Elements(ids)| <= |ids|
  {
    if ids != [] {
      ElementsSize(ids[1..]);
      assert ids == [ids[0]] + ids[1..];
      assert Elements(ids) == {ids[0]} + Elements(ids[1..]);
    }
  }

  lemma AllSelected(ids: seq<string>, selected: set<string>)
    requires selected <= Elements(ids) && |selected| == |ids|
    ensures selected == Elements(ids)
  {
    ElementsSize(ids);
    if selected != Elements(ids) { SmallerSubset(selected, Elements(ids)); }
  }

  lemma SmallerSubset(a: set<string>, b: set<string>)
    requires a <= b && a != b
    ensures |a| < |b|
  {
    var x :| x in b && x !in a;
    assert |b| == |a| + |b - a| by { assert b == a + (b - a); }
    assert x in b - a;
  }

  lemma {:induction false} FoundApproval(s: State, ids: seq<string>, selected: set<string>, role: string,
                                         person: Person)
    requires FindApproval(s, ids, selected, role, person).Some?
    ensures var id := FindApproval(s, ids, selected, role, person).value;
      && id in ids && id !in selected && id in s.decisions
      && s.decisions[id].approve && s.decisions[id].role == role && s.decisions[id].person == person
  {
    if ids[0] in selected || s.decisions[ids[0]].role != role || s.decisions[ids[0]].person != person {
      FoundApproval(s, ids[1..], selected, role, person);
    }
  }

  lemma {:induction false} ApprovalIsFound(s: State, ids: seq<string>, selected: set<string>, role: string,
                                           person: Person, id: string)
    requires forall x :: x in ids && x !in selected ==> x in s.decisions && s.decisions[x].approve
    requires id in ids && id !in selected && s.decisions[id].role == role && s.decisions[id].person == person
    ensures FindApproval(s, ids, selected, role, person).Some?
  {
    if ids[0] != id { ApprovalIsFound(s, ids[1..], selected, role, person, id); }
  }

  /** The loop over the roles selects an order of the decisions. */
  lemma {:induction false} CollectedInOrder(s: State, a: Agreement, p: Policy, roles: seq<string>,
                                            selected: set<string>) returns (order: seq<string>)
    requires CollectApprovals(s, a, p, roles, selected).Some? && selected <= Elements(a.decisions)
    ensures Completes(s, a, p, roles, selected, order)
    ensures AreDecisions(s, order, CollectApprovals(s, a, p, roles, selected).value)
    decreases |roles|
  {
    if roles == [] {
      AllSelected(a.decisions, selected);
      order := [];
    } else {
      var person := p.representatives[roles[0]];
      FoundApproval(s, a.decisions, selected, roles[0], person);
      var id := FindApproval(s, a.decisions, selected, roles[0], person).value;
      var rest := CollectedInOrder(s, a, p, roles[1..], selected + {id});
      order := [id] + rest;
    }
  }

  /** Any order of the decisions lets the loop succeed, which may select another one. */
  lemma {:induction false} OrderIsCollected(s: State, a: Agreement, p: Policy, roles: seq<string>,
                                            selected: set<string>, order: seq<string>)
    requires Completes(s, a, p, roles, selected, order)
    ensures CollectApprovals(s, a, p, roles, selected).Some?
    decreases |roles|
  {
    if roles == [] {
      assert order == [];
    } else {
      var person := p.representatives[roles[0]];
      assert ApprovedBy(s, a, p, roles[0], order[0]);
      forall x | x in a.decisions && x !in selected ensures x in s.decisions && s.decisions[x].approve {
        var i :| 0 <= i < |order| && order[i] == x;
        assert ApprovedBy(s, a, p, roles[i], order[i]);
      }
      ApprovalIsFound(s, a.decisions, selected, roles[0], person, order[0]);
      FoundApproval(s, a.decisions, selected, roles[0], person);
      var id := FindApproval(s, a.decisions, selected, roles[0], person).value;
      var rest := WithoutFound(s, a, p, roles, selected, order, id);
      OrderIsCollected(s, a, p, roles[1..], selected + {id}, rest);
    }
  }

  /** The found decision changes places with the one that was to come first. */
  lemma WithoutFound(s: State, a: Agreement, p: Policy, roles: seq<string>, selected: set<string>,
                     order: seq<string>, id: string) returns (rest: seq<string>)
    requires Completes(s, a, p, roles, selected, order) && roles != []
    requires id in a.decisions && id !in selected && id in s.decisions
    requires roles[0] in p.representatives
    requires s.decisions[id].role == roles[0] && s.decisions[id].person == p.representatives[roles[0]]
    ensures s.decisions[id].binding == a.binding
    ensures Completes(s, a, p, roles[1..], selected + {id}, rest)
  {
    var j :| 0 <= j < |order| && order[j] == id;
    assert ApprovedBy(s, a, p, roles[j], order[j]);
    rest := if j == 0 then order[1..] else order[1..][j - 1 := order[0]];
    assert forall i :: 0 <= i < |rest| ==> rest[i] == if i == j - 1 then order[0] else order[i + 1];
    assert ApprovedBy(s, a, p, roles[0], order[0]);
    forall i | 0 <= i < |rest| ensures ApprovedBy(s, a, p, roles[1..][i], rest[i]) {
      assert ApprovedBy(s, a, p, roles[i + 1], order[i + 1]);
    }
    assert forall x :: x in order <==> x == id || x in rest by {
      forall x | x in order ensures x == id || x in rest {
        var i :| 0 <= i < |order| && order[i] == x;
        if i != j { assert rest[if i == 0 then j - 1 else i - 1] == x; }
      }
    }
  }

  lemma {:induction false} FindGoverning(ps: seq<Policy>, a: Agreement)
    ensures var found := FindPolicy(ps, a.binding.policyId, a.binding.policyVersion);
      if found.Some? then
        exists i :: 0 <= i < |ps| && ps[i] == found.value && Named(a, ps[i])
                    && forall j :: 0 <= j < i ==> !Named(a, ps[j])
      else forall i :: 0 <= i < |ps| ==> !Named(a, ps[i])
  {
    if ps != [] && !Named(a, ps[0]) {
      FindGoverning(ps[1..], a);
      var found := FindPolicy(ps[1..], a.binding.policyId, a.binding.policyVersion);
      if found.Some? {
        var i :| 0 <= i < |ps[1..]| && ps[1..][i] == found.value && Named(a, ps[1..][i])
          && forall j :: 0 <= j < i ==> !Named(a, ps[1..][j]);
        assert ps[i + 1] == found.value;
        forall j | 0 <= j < i + 1 ensures !Named(a, ps[j]) { if j > 0 { assert ps[j] == ps[1..][j - 1]; } }
      }
    }
  }

  lemma GovernsExactly(s: State, a: Agreement, p: Policy)
    ensures Governs(s, a, p) <==> FindPolicy(s.config.policies, a.binding.policyId, a.binding.policyVersion) == Some(p)
  {
    FindGoverning(s.config.policies, a);
  }

  /** Approvals are found exactly when the agreement stands: every role's representative approved
      it, once, and it cites nothing else. */
  lemma ApprovalsExactly(s: State, a: Agreement)
    ensures Approvals(s, a).Some? <==> exists p, order :: Standing(s, a, p, order)
    ensures Approvals(s, a).Some? ==>
      exists p, order :: Standing(s, a, p, order) && AreDecisions(s, order, Approvals(s, a).value)
  {
    if Approvals(s, a).Some? {
      var p := FindPolicy(s.config.policies, a.binding.policyId, a.binding.policyVersion).value;
      GovernsExactly(s, a, p);
      var order := CollectedInOrder(s, a, p, p.roles, {});
      assert Standing(s, a, p, order);
    }
    if p, order :| Standing(s, a, p, order) {
      GovernsExactly(s, a, p);
      OrderIsCollected(s, a, p, p.roles, {}, order);
    }
  }

  /******* What eligibility means *******/

  /** The slot's active agreement binds it to the revision and stands. */
  ghost predicate InForce(s: State, slot: Slot, a: Agreement, r: Revision) {
    && slot.channel == s.config.channel
    && slot in s.active && s.active[slot].Some? && s.active[slot].value in s.agreements
    && s.agreements[s.active[slot].value] == a
    && a.status == Active && a.binding.slot == slot
    && a.binding.revision in s.revisions && s.revisions[a.binding.revision] == r
    && r.digest == a.binding.revision && r.slot == slot
    && exists p, order :: Standing(s, a, p, order)
  }

  /** One place in a revision's list of dependencies that names a slot which must be active. */
  datatype Reference = Reference(place: nat, to: Dependency)

  ghost predicate Refers(r: Revision, x: Reference) {
    x.place < |r.dependencies| && r.dependencies[x.place] == x.to && x.to.requiresActive
  }

  /** References from one revision in force to the next, starting at the slot's. */
  ghost predicate IsChain(s: State, slot: Slot, c: seq<Reference>)
    decreases |c|
  {
    c == [] || exists a, r :: InForce(s, slot, a, r) && Refers(r, c[0]) && IsChain(s, c[0].to.slot, c[1..])
  }

  /** The slots that a chain visits. */
  function Stops(slot: Slot, c: seq<Reference>): (stops: seq<Slot>)
    ensures |stops| == |c| + 1
    decreases |c|
  {
    if c == [] then [slot] else [slot] + Stops(c[0].to.slot, c[1..])
  }

  function End(slot: Slot, c: seq<Reference>): Slot {
    if c == [] then slot else c[|c| - 1].to.slot
  }

  /** The slot at the end of a chain has a revision in force: the very one the last reference names. */
  ghost predicate EndsWell(s: State, slot: Slot, c: seq<Reference>) {
    exists a, r :: InForce(s, End(slot, c), a, r) && (c != [] ==> r.digest == c[|c| - 1].to.digest)
  }

  /** The slot of a dependency has the revision that it names in force. */
  ghost predicate Has(s: State, d: Dependency) {
    exists a, r :: InForce(s, d.slot, a, r) && r.digest == d.digest
  }

  /** Below slots already seen, at some depth. */
  ghost predicate ChainOk(s: State, slot: Slot, seen: set<Slot>, depth: nat, c: seq<Reference>) {
    && depth + |c| <= MAX_DEPTH && Distinct(Stops(slot, c)) && (forall x :: x in Stops(slot, c) ==> x !in seen)
    && EndsWell(s, slot, c)
  }

  /** Every chain from the slot is short, repeats no slot, and ends in the revision it names. */
  ghost predicate Supported(s: State, slot: Slot) {
    forall c :: IsChain(s, slot, c) ==>
      |c| <= 8 && Distinct(Stops(slot, c)) && EndsWell(s, slot, c)
  }

  ghost predicate AllChains(s: State, slot: Slot, chains: set<seq<Reference>>) {
    forall c :: c in chains <==> IsChain(s, slot, c)
  }

  /** There are no more chains than the resolver may visit nodes. */
  ghost predicate WithinBudget(s: State, slot: Slot) {
    exists chains :: AllChains(s, slot, chains) && |chains| <= 256
  }

  lemma ActiveExactly(s: State, slot: Slot, a: Agreement, r: Revision)
    ensures InForce(s, slot, a, r) <==> slot.channel == s.config.channel && ActiveRevision(s, slot) == Eligible(a, r)
  {
    if slot in s.active && s.active[slot].Some? && s.active[slot].value in s.agreements {
      var x := s.agreements[s.active[slot].value];
      ApprovalsExactly(s, x);
    }
    hide Standing, CollectApprovals;
  }

  /******* The resolver visits the chains *******/

  ghost function Chains(s: State, slot: Slot, n: nat): set<seq<Reference>>
    decreases n, 1, 0
  {
    {[]} + if slot.channel == s.config.channel && ActiveRevision(s, slot).Eligible?
           then Onward(s, ActiveRevision(s, slot).revision.dependencies, 0, n) else {}
  }

  ghost function Prepended(x: Reference, cs: set<seq<Reference>>): set<seq<Reference>> {
    set c | c in cs :: [x] + c
  }

  ghost function Onward(s: State, ds: seq<Dependency>, place: nat, n: nat): set<seq<Reference>>
    decreases n, 0, |ds|
  {
    if ds == [] || n == 0 then {}
    else
      (if ds[0].requiresActive then Prepended(Reference(place, ds[0]), Chains(s, ds[0].slot, n - 1)) else {})
        + Onward(s, ds[1..], place + 1, n)
  }

  lemma {:induction false} ChainsExact(s: State, slot: Slot, n: nat, c: seq<Reference>)
    ensures c in Chains(s, slot, n) <==> IsChain(s, slot, c) && |c| <= n
    decreases n, 1, 0
  {
    hide ActiveRevision, InForce;
    forall a, r ensures InForce(s, slot, a, r) <==>
      slot.channel == s.config.channel && ActiveRevision(s, slot) == Eligible(a, r)
    {
      ActiveExactly(s, slot, a, r);
    }
    if slot.channel == s.config.channel && ActiveRevision(s, slot).Eligible? {
      OnwardExact(s, ActiveRevision(s, slot).revision.dependencies, 0, n, c);
    }
  }

  lemma {:induction false} OnwardExact(s: State, ds: seq<Dependency>, place: nat, n: nat, c: seq<Reference>)
    ensures c in Onward(s, ds, place, n) <==>
      && c != [] && place <= c[0].place < place + |ds| && ds[c[0].place - place] == c[0].to && c[0].to.requiresActive
      && |c| <= n && IsChain(s, c[0].to.slot, c[1..])
    decreases n, 0, |ds|
  {
    hide IsChain, Chains, Prepended;
    if ds != [] && n > 0 {
      OnwardExact(s, ds[1..], place + 1, n, c);
      if ds[0].requiresActive {
        var x := Reference(place, ds[0]);
        if c != [] { ChainsExact(s, ds[0].slot, n - 1, c[1..]); }
        PrependedExact(x, Chains(s, ds[0].slot, n - 1), c);
      }
    }
  }

  lemma PrependedExact(x: Reference, cs: set<seq<Reference>>, c: seq<Reference>)
    ensures c in Prepended(x, cs) <==> c != [] && c[0] == x && c[1..] in cs
  {
    if c != [] && c[0] == x { assert c == [x] + c[1..]; }
  }

  lemma {:induction false} PrependedSize(x: Reference, cs: set<seq<Reference>>)
    ensures |Prepended(x, cs)| == |cs|
    decreases |cs|
  {
    if cs != {} {
      var c :| c in cs;
      PrependedSize(x, cs - {c});
      assert forall d :: d in cs && [x] + d == [x] + c ==> d == c by {
        forall d | d in cs && [x] + d == [x] + c ensures d == c { assert d == ([x] + d)[1..]; }
      }
      assert Prepended(x, cs) == Prepended(x, cs - {c}) + {[x] + c};
    }
  }

  lemma OnwardSize(s: State, ds: seq<Dependency>, place: nat, n: nat)
    requires ds != [] && n > 0
    ensures |Onward(s, ds, place, n)| ==
      (if ds[0].requiresActive then |Chains(s, ds[0].slot, n - 1)| else 0) + |Onward(s, ds[1..], place + 1, n)|
  {
    var first := if ds[0].requiresActive then Prepended(Reference(place, ds[0]), Chains(s, ds[0].slot, n - 1)) else {};
    var rest := Onward(s, ds[1..], place + 1, n);
    forall c | c in rest ensures c !in first { OnwardExact(s, ds[1..], place + 1, n, c); }
    if ds[0].requiresActive { PrependedSize(Reference(place, ds[0]), Chains(s, ds[0].slot, n - 1)); }
    assert Onward(s, ds, place, n) == first + rest;
    hide Onward;
    assert first !! rest;
  }

  lemma ChainsSize(s: State, slot: Slot, a: Agreement, r: Revision, n: nat)
    requires InForce(s, slot, a, r)
    ensures |Chains(s, slot, n)| == 1 + |Onward(s, r.dependencies, 0, n)|
  {
    ActiveExactly(s, slot, a, r);
    OnwardExact(s, r.dependencies, 0, n, []);
    assert Chains(s, slot, n) == {[]} + Onward(s, r.dependencies, 0, n);
  }

  /** All chains from a slot, below the slots seen. */
  ghost predicate SlotOk(s: State, slot: Slot, seen: set<Slot>, depth: nat) {
    forall c :: IsChain(s, slot, c) ==> ChainOk(s, slot, seen, depth, c)
  }

  /** A dependency is met: its slot is supported and has the revision that it names. */
  ghost predicate DependencyOk(s: State, d: Dependency, seen: set<Slot>, depth: nat) {
    d.requiresActive ==>
      SlotOk(s, d.slot, seen, depth + 1) && Has(s, d)
  }

  lemma StopsTail(slot: Slot, x: Reference, c: seq<Reference>)
    ensures Stops(slot, [x] + c) == [slot] + Stops(x.to.slot, c)
  {
    assert ([x] + c)[1..] == c;
  }

  lemma StopsSplit(slot: Slot, x: Reference, c: seq<Reference>, seen: set<Slot>)
    ensures var stops, tail := Stops(slot, [x] + c), Stops(x.to.slot, c);
      Distinct(stops) && (forall y :: y in stops ==> y !in seen) <==>
      slot !in seen && Distinct(tail) && forall y :: y in tail ==> y !in seen + {slot}
  {
    StopsTail(slot, x, c);
    var stops, tail := Stops(slot, [x] + c), Stops(x.to.slot, c);
    assert forall i :: 0 <= i < |tail| ==> stops[i + 1] == tail[i];
    if Distinct(stops) {
      forall i, j | 0 <= i < j < |tail| ensures tail[i] != tail[j] { assert stops[i + 1] != stops[j + 1]; }
      forall y | y in tail ensures y != slot {
        var i :| 0 <= i < |tail| && tail[i] == y;
        assert stops[0] != stops[i + 1];
      }
    }
    assert stops[0] == slot;
    forall y | y in tail ensures y in stops { var i :| 0 <= i < |tail| && tail[i] == y; assert stops[i + 1] == y; }
    if Distinct(tail) && slot !in tail {
      forall i, j | 0 <= i < j < |stops| ensures stops[i] != stops[j] {
        assert stops[j] == tail[j - 1] && (i > 0 ==> stops[i] == tail[i - 1]);
      }
    }
  }

  /** The chains that begin with a reference are that reference and a chain from its slot. */
  lemma ChainTail(s: State, slot: Slot, a: Agreement, r: Revision, seen: set<Slot>, depth: nat, x: Reference,
                  c: seq<Reference>)
    requires InForce(s, slot, a, r) && Refers(r, x) && slot !in seen
    ensures IsChain(s, slot, [x] + c) <==> IsChain(s, x.to.slot, c)
    ensures ChainOk(s, slot, seen, depth, [x] + c) <==>
      && ChainOk(s, x.to.slot, seen + {slot}, depth + 1, c)
      && (c == [] ==> Has(s, x.to))
  {
    hide InForce, Stops;
    var all := [x] + c;
    assert all[1..] == c && all[0] == x;
    InForceOnce(s, slot);
    StopsSplit(slot, x, c, seen);
    if c == [] {
      assert End(slot, all) == x.to.slot == End(x.to.slot, c);
      assert EndsWell(s, slot, all) <==> Has(s, x.to);
      assert EndsWell(s, slot, all) ==> EndsWell(s, x.to.slot, c);
    } else {
      assert all[|all| - 1] == c[|c| - 1];
      assert End(slot, all) == End(x.to.slot, c);
      assert EndsWell(s, slot, all) <==> EndsWell(s, x.to.slot, c);
    }
  }

  lemma InForceOnce(s: State, slot: Slot)
    ensures forall a, r, b, q :: InForce(s, slot, a, r) && InForce(s, slot, b, q) ==> a == b && r == q
  {
  }

  /** A slot is supported exactly when it has a revision in force and that one's dependencies are met. */
  lemma SlotOkExactly(s: State, slot: Slot, a: Agreement, r: Revision, seen: set<Slot>, depth: nat)
    requires InForce(s, slot, a, r) && slot !in seen && depth <= MAX_DEPTH
    ensures SlotOk(s, slot, seen, depth) <==>
      forall d :: d in r.dependencies ==> DependencyOk(s, d, seen + {slot}, depth)
  {
    hide InForce, ChainOk, IsChain;
    if SlotOk(s, slot, seen, depth) {
      forall d | d in r.dependencies && d.requiresActive ensures DependencyOk(s, d, seen + {slot}, depth) {
        var i :| 0 <= i < |r.dependencies| && r.dependencies[i] == d;
        var x := Reference(i, d);
        forall c | c == [] || IsChain(s, d.slot, c) ensures ChainOk(s, d.slot, seen + {slot}, depth + 1, c) {
          EmptyIsChain(s, d.slot);
          ChainTail(s, slot, a, r, seen, depth, x, c);
        }
        EmptyIsChain(s, d.slot);
        ChainTail(s, slot, a, r, seen, depth, x, []);
      }
    }
    if forall d :: d in r.dependencies ==> DependencyOk(s, d, seen + {slot}, depth) {
      forall c | IsChain(s, slot, c) ensures ChainOk(s, slot, seen, depth, c) {
        MetChain(s, slot, a, r, seen, depth, c);
      }
    }
  }

  lemma EmptyIsChain(s: State, slot: Slot)
    ensures IsChain(s, slot, [])
  {
  }

  lemma MetChain(s: State, slot: Slot, a: Agreement, r: Revision, seen: set<Slot>, depth: nat, c: seq<Reference>)
    requires InForce(s, slot, a, r) && slot !in seen && depth <= MAX_DEPTH && IsChain(s, slot, c)
    requires forall d :: d in r.dependencies ==> DependencyOk(s, d, seen + {slot}, depth)
    ensures ChainOk(s, slot, seen, depth, c)
  {
    hide InForce;
    assert End(slot, []) == slot;
    assert EndsWell(s, slot, []);
    if c == [] {
      assert Stops(slot, c) == [slot];
    } else {
      InForceOnce(s, slot);
      assert Refers(r, c[0]) && IsChain(s, c[0].to.slot, c[1..]);
      assert c == [c[0]] + c[1..];
      assert DependencyOk(s, c[0].to, seen + {slot}, depth);
      hide ChainOk, IsChain;
      ChainTail(s, slot, a, r, seen, depth, c[0], c[1..]);
    }
  }

  lemma {:induction false} ResolveSlotExactly(s: State, slot: Slot, seen: set<Slot>, depth: nat, count: nat)
    requires depth <= MAX_DEPTH
    ensures var (res, used) := ResolveSlot(s, slot, seen, depth, count);
      && (res.Eligible? <==> SlotOk(s, slot, seen, depth) && count + |Chains(s, slot, MAX_DEPTH - depth)| <= MAX_NODES)
      && (res.Eligible? ==> used == count + |Chains(s, slot, MAX_DEPTH - depth)|
                            && InForce(s, slot, res.agreement, res.revision))
    decreases MAX_DEPTH + 1 - depth, 1, 0
  {
    hide InForce, ChainOk, ActiveRevision, Chains, Onward;
    EmptyIsChain(s, slot);
    if SlotOk(s, slot, seen, depth) { EmptyChainOk(s, slot, seen, depth); }
    ChainsExact(s, slot, MAX_DEPTH - depth, []);
    if slot.channel == s.config.channel && ActiveRevision(s, slot).Eligible? {
      var a, r := ActiveRevision(s, slot).agreement, ActiveRevision(s, slot).revision;
      ActiveExactly(s, slot, a, r);
      ChainsSize(s, slot, a, r, MAX_DEPTH - depth);
      if slot !in seen && count + 1 <= MAX_NODES {
        SlotOkExactly(s, slot, a, r, seen, depth);
        ResolveAllExactly(s, r.dependencies, 0, seen + {slot}, depth, count + 1);
        assert ResolveSlot(s, slot, seen, depth, count).0.Eligible? <==>
          ResolveAll(s, r.dependencies, seen + {slot}, depth, count + 1).0.None?;
      }
    } else if SlotOk(s, slot, seen, depth) {
      var a, r :| InForce(s, slot, a, r);
      ActiveExactly(s, slot, a, r);
    }
  }

  lemma EmptyChainOk(s: State, slot: Slot, seen: set<Slot>, depth: nat)
    requires ChainOk(s, slot, seen, depth, [])
    ensures slot !in seen && exists a, r :: InForce(s, slot, a, r)
  {
    assert slot in Stops(slot, []);
  }

  lemma {:induction false} ResolveAllExactly(s: State, ds: seq<Dependency>, place: nat, seen: set<Slot>, depth: nat,
                                             count: nat)
    requires depth <= MAX_DEPTH && count <= MAX_NODES
    ensures var (failure, used) := ResolveAll(s, ds, seen, depth, count);
      && (failure.None? <==> (forall d :: d in ds ==> DependencyOk(s, d, seen, depth))
                             && count + |Onward(s, ds, place, MAX_DEPTH - depth)| <= MAX_NODES)
      && (failure.None? ==> used == count + |Onward(s, ds, place, MAX_DEPTH - depth)|)
    decreases MAX_DEPTH + 1 - depth, 0, |ds|
  {
    hide InForce, ChainOk, IsChain, ActiveRevision, Chains, Onward, ResolveSlot, SlotOk;
    var n := MAX_DEPTH - depth;
    NoneOnward(s, ds, place);
    if ds != [] {
      var d := ds[0];
      assert ds == [d] + ds[1..] && d in ds;
      NoneOnward(s, ds[1..], place + 1);
      if n > 0 { OnwardSize(s, ds, place, n); }
      if !d.requiresActive {
        ResolveAllExactly(s, ds[1..], place + 1, seen, depth, count);
      } else if n == 0 {
        TooDeep(s, d.slot, seen, depth + 1, count);
        assert !DependencyOk(s, d, seen, depth);
      } else {
        ResolveSlotExactly(s, d.slot, seen, depth + 1, count);
        InForceOnce(s, d.slot);
        var (r, used) := ResolveSlot(s, d.slot, seen, depth + 1, count);
        assert Chains(s, d.slot, n - 1) == Chains(s, d.slot, MAX_DEPTH - (depth + 1));
        if r.Eligible? {
          assert Has(s, d) <==> r.revision.digest == d.digest;
          if r.revision.digest == d.digest { ResolveAllExactly(s, ds[1..], place + 1, seen, depth, used); }
        }
      }
    }
  }

  lemma NoneOnward(s: State, ds: seq<Dependency>, place: nat)
    ensures Onward(s, ds, place, 0) == {} && forall n :: Onward(s, [], place, n) == {}
  {
  }

  lemma TooDeep(s: State, slot: Slot, seen: set<Slot>, depth: nat, count: nat)
    requires depth > MAX_DEPTH
    ensures ResolveSlot(s, slot, seen, depth, count).0.Ineligible? && !SlotOk(s, slot, seen, depth)
  {
    EmptyIsChain(s, slot);
    assert !ChainOk(s, slot, seen, depth, []);
  }

  /** The slot may be served with this revision: it is in force, every chain of dependencies is
      supported, and there are at most as many as the budget allows. */
  ghost predicate Serves(s: State, slot: Slot, a: Agreement, r: Revision) {
    s.config.serving && InForce(s, slot, a, r) && Supported(s, slot) && WithinBudget(s, slot)
  }

  /** The resolver calls eligible exactly what may be served. */
  lemma EligibleExactly(s: State, slot: Slot)
    ensures forall a, r :: Resolve(s, slot) == Eligible(a, r) <==> Serves(s, slot, a, r)
  {
    SupportedExactly(s, slot);
    InForceOnce(s, slot);
    EmptyIsChain(s, slot);
    hide InForce, Supported, WithinBudget, ResolveSlot;
  }

  lemma SupportedExactly(s: State, slot: Slot)
    ensures Resolve(s, slot).Eligible? <==> s.config.serving && Supported(s, slot) && WithinBudget(s, slot)
    ensures Resolve(s, slot).Eligible? ==> InForce(s, slot, Resolve(s, slot).agreement, Resolve(s, slot).revision)
  {
    hide InForce, IsChain, Chains;
    ResolveSlotExactly(s, slot, {}, 0, 0);
    assert Supported(s, slot) <==> SlotOk(s, slot, {}, 0);
    if Supported(s, slot) {
      var all := Chains(s, slot, MAX_DEPTH);
      forall c ensures c in all <==> IsChain(s, slot, c) { ChainsExact(s, slot, MAX_DEPTH, c); }
      assert AllChains(s, slot, all);
      if chains :| AllChains(s, slot, chains) && |chains| <= MAX_NODES { assert chains == all; }
    }
  }

  /******* Why a slot is refused *******/

  /** What an own reason says about the slot, its agreement and its revision. */
  ghost predicate OwnFault(s: State, slot: Slot, reason: string) {
    || (reason == "SCOPE_MISMATCH" && slot.channel != s.config.channel)
    || (reason == "NO_ACTIVE_AGREEMENT" && (slot !in s.active || s.active[slot].None?))
    || (slot in s.active && s.active[slot].Some? && AgreementFault(s, slot, s.active[slot].value, reason))
  }

  ghost predicate AgreementFault(s: State, slot: Slot, id: string, reason: string) {
    if id !in s.agreements then reason == "MISSING_AGREEMENT"
    else
      var a := s.agreements[id];
      || (reason == "AGREEMENT_SUPERSEDED" && a.status == Superseded)
      || (reason == "AGREEMENT_SUSPENDED" && a.status == Suspended)
      || (reason == "AGREEMENT_WITHDRAWN" && a.status == Withdrawn)
      || (reason == "AGREEMENT_SLOT_MISMATCH" && a.binding.slot != slot)
      || (reason == "STALE_CONFIGURATION" && (a.binding.membershipEpoch != s.config.membershipEpoch
                                              || a.binding.roleVersion != s.config.roleVersion))
      || (reason == "STALE_POLICY" && forall p :: Governs(s, a, p) ==> p.slot != a.binding.slot)
      || (reason == "CORRUPT_APPROVALS" && forall p, order :: !Standing(s, a, p, order))
      || (reason == "MISSING_REVISION" && a.binding.revision !in s.revisions)
      || (reason == "REVISION_SLOT_MISMATCH" && a.binding.revision in s.revisions
          && (s.revisions[a.binding.revision].digest != a.binding.revision
              || s.revisions[a.binding.revision].slot != slot))
  }

  /** What a reason says about the end of a chain from the slot. */
  ghost predicate Fault(s: State, slot: Slot, seen: set<Slot>, depth: nat, c: seq<Reference>, reason: string) {
    || OwnFault(s, End(slot, c), reason)
    || (reason == "DEPENDENCY_DEPTH" && depth + |c| == 9)
    || (reason == "DEPENDENCY_CYCLE" && (End(slot, c) in seen || !Distinct(Stops(slot, c))))
    || (reason == "DEPENDENCY_REVISION_MISMATCH" && exists a, r, x, b, q ::
          InForce(s, End(slot, c), a, r) && Refers(r, x) && InForce(s, x.to.slot, b, q) && q.digest != x.to.digest)
    || reason == "DEPENDENCY_NODE_LIMIT"
  }

  /** One prefix for every dependency on the way. */
  function Prefixed(n: nat, reason: string): string {
    if n == 0 then reason else "DEPENDENCY_INELIGIBLE:" + Prefixed(n - 1, reason)
  }

  lemma OwnReason(s: State, slot: Slot)
    requires ActiveRevision(s, slot).Ineligible?
    ensures OwnFault(s, slot, ActiveRevision(s, slot).reason)
    ensures ActiveRevision(s, slot).reason != "DEPENDENCY_NODE_LIMIT"
  {
    if slot in s.active && s.active[slot].Some? && s.active[slot].value in s.agreements {
      var a := s.agreements[s.active[slot].value];
      ApprovalsExactly(s, a);
      forall p | Governs(s, a, p)
        ensures FindPolicy(s.config.policies, a.binding.policyId, a.binding.policyVersion) == Some(p)
      {
        GovernsExactly(s, a, p);
      }
    }
    hide Standing, Approvals;
  }

  lemma {:induction false} SlotReason(s: State, slot: Slot, seen: set<Slot>, depth: nat, count: nat)
      returns (c: seq<Reference>, base: string)
    requires depth <= MAX_DEPTH + 1 && ResolveSlot(s, slot, seen, depth, count).0.Ineligible?
    ensures IsChain(s, slot, c) && Fault(s, slot, seen, depth, c, base)
    ensures ResolveSlot(s, slot, seen, depth, count).0.reason == Prefixed(|c|, base)
    ensures base == "DEPENDENCY_NODE_LIMIT" ==> ResolveSlot(s, slot, seen, depth, count).1 > 256
    decreases MAX_DEPTH + 1 - depth, 1, 0
  {
    hide ActiveRevision, InForce, OwnFault;
    c := [];
    base := ResolveSlot(s, slot, seen, depth, count).0.reason;
    if slot.channel != s.config.channel {
      ScopeFault(s, slot);
    } else if depth <= MAX_DEPTH && slot !in seen && count + 1 <= MAX_NODES {
      if ActiveRevision(s, slot).Ineligible? {
        OwnReason(s, slot);
      } else {
        var a, r := ActiveRevision(s, slot).agreement, ActiveRevision(s, slot).revision;
        ActiveExactly(s, slot, a, r);
        c, base := AllReason(s, slot, a, r, 0, seen, depth, count + 1);
      }
    }
  }

  lemma ScopeFault(s: State, slot: Slot)
    requires slot.channel != s.config.channel
    ensures OwnFault(s, slot, "SCOPE_MISMATCH")
  {
  }

  lemma {:induction false} AllReason(s: State, slot: Slot, a: Agreement, r: Revision, place: nat, seen: set<Slot>,
                                     depth: nat, count: nat) returns (c: seq<Reference>, base: string)
    requires InForce(s, slot, a, r) && slot !in seen && depth <= MAX_DEPTH && place <= |r.dependencies|
    requires count <= MAX_NODES && ResolveAll(s, r.dependencies[place..], seen + {slot}, depth, count).0.Some?
    ensures IsChain(s, slot, c) && Fault(s, slot, seen, depth, c, base)
    ensures ResolveAll(s, r.dependencies[place..], seen + {slot}, depth, count).0.value == Prefixed(|c|, base)
    ensures base == "DEPENDENCY_NODE_LIMIT" ==>
      ResolveAll(s, r.dependencies[place..], seen + {slot}, depth, count).1 > 256
    decreases MAX_DEPTH + 1 - depth, 0, |r.dependencies| - place
  {
    hide InForce, OwnFault, ResolveSlot;
    var ds := r.dependencies[place..];
    var d, x := ds[0], Reference(place, ds[0]);
    assert ds[1..] == r.dependencies[place + 1..];
    if !d.requiresActive {
      c, base := AllReason(s, slot, a, r, place + 1, seen, depth, count);
    } else {
      var (q, used) := ResolveSlot(s, d.slot, seen + {slot}, depth + 1, count);
      if q.Ineligible? {
        var tail, inner := SlotReason(s, d.slot, seen + {slot}, depth + 1, count);
        c, base := [x] + tail, inner;
        FaultBehind(s, slot, a, r, seen, depth, x, tail, inner);
      } else {
        SlotEligible(s, d.slot, seen + {slot}, depth + 1, count);
        if q.revision.digest != d.digest {
          c, base := [], "DEPENDENCY_REVISION_MISMATCH";
          assert Refers(r, x) && InForce(s, x.to.slot, q.agreement, q.revision) && End(slot, c) == slot;
        } else {
          c, base := AllReason(s, slot, a, r, place + 1, seen, depth, used);
        }
      }
    }
  }

  lemma SlotEligible(s: State, slot: Slot, seen: set<Slot>, depth: nat, count: nat)
    requires ResolveSlot(s, slot, seen, depth, count).0.Eligible?
    ensures var (q, used) := ResolveSlot(s, slot, seen, depth, count);
      InForce(s, slot, q.agreement, q.revision) && used <= MAX_NODES
  {
    ResolveSlotExactly(s, slot, seen, depth, count);
    hide InForce;
  }

  lemma FaultBehind(s: State, slot: Slot, a: Agreement, r: Revision, seen: set<Slot>, depth: nat, x: Reference,
                    tail: seq<Reference>, reason: string)
    requires InForce(s, slot, a, r) && Refers(r, x) && slot !in seen
    requires IsChain(s, x.to.slot, tail) && Fault(s, x.to.slot, seen + {slot}, depth + 1, tail, reason)
    ensures IsChain(s, slot, [x] + tail) && Fault(s, slot, seen, depth, [x] + tail, reason)
  {
    hide InForce, OwnFault, Refers;
    var all := [x] + tail;
    assert all[0] == x && all[1..] == tail;
    assert End(slot, all) == End(x.to.slot, tail);
    StopsTail(slot, x, tail);
    var stops, rest := Stops(slot, all), Stops(x.to.slot, tail);
    assert forall i :: 0 <= i < |rest| ==> stops[i + 1] == rest[i];
    EndIsStop(x.to.slot, tail);
    if End(slot, all) == slot { assert stops[0] == stops[|rest|]; }
    if Distinct(stops) {
      forall i, j | 0 <= i < j < |rest| ensures rest[i] != rest[j] { assert stops[i + 1] != stops[j + 1]; }
    }
  }

  lemma {:induction false} EndIsStop(slot: Slot, c: seq<Reference>)
    ensures Stops(slot, c)[|c|] == End(slot, c)
    decreases |c|
  {
    if c != [] { EndIsStop(c[0].to.slot, c[1..]); }
  }

  /** Each node the resolver counts is the end of another chain. */
  lemma {:induction false} SlotCounts(s: State, slot: Slot, seen: set<Slot>, depth: nat, count: nat)
    requires depth <= MAX_DEPTH + 1
    ensures ResolveSlot(s, slot, seen, depth, count).1 <= count + |Chains(s, slot, MAX_DEPTH + 1 - depth)|
    decreases MAX_DEPTH + 1 - depth, 1, 0
  {
    hide ActiveRevision, Chains, Onward, InForce, IsChain, ResolveAll;
    EmptyIsChain(s, slot);
    ChainsExact(s, slot, MAX_DEPTH + 1 - depth, []);
    assert Chains(s, slot, MAX_DEPTH + 1 - depth) != {};
    if slot.channel == s.config.channel && depth <= MAX_DEPTH && ActiveRevision(s, slot).Eligible? {
      var a, r := ActiveRevision(s, slot).agreement, ActiveRevision(s, slot).revision;
      ActiveExactly(s, slot, a, r);
      ChainsSize(s, slot, a, r, MAX_DEPTH + 1 - depth);
      AllCounts(s, r.dependencies, 0, seen + {slot}, depth, count + 1);
    }
  }

  lemma {:induction false} AllCounts(s: State, ds: seq<Dependency>, place: nat, seen: set<Slot>, depth: nat, count: nat)
    requires depth <= MAX_DEPTH
    ensures ResolveAll(s, ds, seen, depth, count).1 <= count + |Onward(s, ds, place, MAX_DEPTH + 1 - depth)|
    decreases MAX_DEPTH + 1 - depth, 0, |ds|
  {
    hide ResolveSlot, Chains, Onward;
    if ds != [] {
      OnwardSize(s, ds, place, MAX_DEPTH + 1 - depth);
      if ds[0].requiresActive {
        SlotCounts(s, ds[0].slot, seen, depth + 1, count);
        AllCounts(s, ds[1..], place + 1, seen, depth, ResolveSlot(s, ds[0].slot, seen, depth + 1, count).1);
      } else {
        AllCounts(s, ds[1..], place + 1, seen, depth, count);
      }
    }
  }

  lemma OverBudget(s: State, slot: Slot)
    requires ResolveSlot(s, slot, {}, 0, 0).1 > 256
    ensures !WithinBudget(s, slot)
  {
    hide ResolveSlot, Chains, IsChain;
    SlotCounts(s, slot, {}, 0, 0);
    var some := Chains(s, slot, MAX_DEPTH + 1);
    forall chains | AllChains(s, slot, chains) ensures |chains| > 256 {
      forall c | c in some ensures c in chains { ChainsExact(s, slot, MAX_DEPTH + 1, c); }
      assert some <= chains;
      assert |chains| == |some| + |chains - some| by { assert chains == some + (chains - some); }
    }
  }

  /** A refusal is true: unless serving is off, it names, behind one prefix for each dependency on the
      way, what is wrong at the end of a chain of dependencies. */
  lemma RefusalIsTrue(s: State, slot: Slot) returns (c: seq<Reference>, reason: string)
    requires Resolve(s, slot).Ineligible?
    ensures if !s.config.serving then Resolve(s, slot).reason == "SERVING_FROZEN"
            else Resolve(s, slot).reason == Prefixed(|c|, reason)
                 && IsChain(s, slot, c) && Fault(s, slot, {}, 0, c, reason)
                 && (reason == "DEPENDENCY_NODE_LIMIT" ==> !WithinBudget(s, slot))
  {
    if s.config.serving {
      c, reason := SlotReason(s, slot, {}, 0, 0);
      if reason == "DEPENDENCY_NODE_LIMIT" { OverBudget(s, slot); }
    } else {
      c, reason := [], "";
    }
    hide Fault, IsChain, ResolveSlot;
  }

  /******* Eligibility survives growth *******/

  /** Nothing the resolver reads to call a slot eligible is different in s'. */
  ghost predicate Grows(s: State, s': State) {
    && s'.config == s.config && s'.active == s.active && s'.agreements == s.agreements && s'.epoch == s.epoch
    && (forall d :: d in s.revisions ==> d in s'.revisions && s'.revisions[d] == s.revisions[d])
    && (forall d :: d in s.decisions ==> d in s'.decisions && s'.decisions[d] == s.decisions[d])
  }

  /** Configuration and recorded decisions are still there, unchanged. */
  ghost predicate Keeps(s: State, s': State) {
    && s'.config == s.config
    && (forall d :: d in s.decisions ==> d in s'.decisions && s'.decisions[d] == s.decisions[d])
  }

  lemma {:induction false} FindApprovalKeeps(s: State, s': State, ids: seq<string>, selected: set<string>,
                                             role: string, person: Person)
    requires Keeps(s, s') && FindApproval(s, ids, selected, role, person).Some?
    ensures FindApproval(s', ids, selected, role, person) == FindApproval(s, ids, selected, role, person)
  {
    if ids[0] in selected || !(s.decisions[ids[0]].role == role && s.decisions[ids[0]].person == person) {
      FindApprovalKeeps(s, s', ids[1..], selected, role, person);
    }
  }

  lemma {:induction false} CollectApprovalsKeeps(s: State, s': State, a: Agreement, a': Agreement, p: Policy,
                                                 roles: seq<string>, selected: set<string>)
    requires Keeps(s, s') && a'.decisions == a.decisions && a'.binding == a.binding
    requires CollectApprovals(s, a, p, roles, selected).Some?
    ensures CollectApprovals(s', a', p, roles, selected) == CollectApprovals(s, a, p, roles, selected)
    decreases |roles|
  {
    if roles != [] {
      var person := p.representatives[roles[0]];
      FindApprovalKeeps(s, s', a.decisions, selected, roles[0], person);
      var found := FindApproval(s, a.decisions, selected, roles[0], person).value;
      CollectApprovalsKeeps(s, s', a, a', p, roles[1..], selected + {found});
    }
  }

  /** The approvals behind an agreement stay the same, whatever becomes of its status. */
  lemma ApprovalsKeep(s: State, s': State, a: Agreement, a': Agreement)
    requires Keeps(s, s') && a'.decisions == a.decisions && a'.binding == a.binding && Approvals(s, a).Some?
    ensures Approvals(s', a') == Approvals(s, a)
  {
    var p := FindPolicy(s.config.policies, a.binding.policyId, a.binding.policyVersion).value;
    CollectApprovalsKeeps(s, s', a, a', p, p.roles, {});
  }

  lemma ActiveRevisionGrows(s: State, s': State, slot: Slot)
    requires Grows(s, s') && ActiveRevision(s, slot).Eligible?
    ensures ActiveRevision(s', slot) == ActiveRevision(s, slot)
    ensures Approvals(s', ActiveRevision(s, slot).agreement) == Approvals(s, ActiveRevision(s, slot).agreement)
  {
    var a := s.agreements[s.active[slot].value];
    ApprovalsKeep(s, s', a, a);
  }

  lemma {:induction false} ResolveSlotGrows(s: State, s': State, slot: Slot, seen: set<Slot>, depth: nat, count: nat)
    requires Grows(s, s') && ResolveSlot(s, slot, seen, depth, count).0.Eligible?
    ensures ResolveSlot(s', slot, seen, depth, count) == ResolveSlot(s, slot, seen, depth, count)
    decreases MAX_DEPTH + 1 - depth, 1, 0
  {
    hide ActiveRevision;
    ActiveRevisionGrows(s, s', slot);
    ResolveAllGrows(s, s', ActiveRevision(s, slot).revision.dependencies, seen + {slot}, depth, count + 1);
  }

  lemma {:induction false} ResolveAllGrows(s: State, s': State, ds: seq<Dependency>, seen: set<Slot>,
                                           depth: nat, count: nat)
    requires Grows(s, s') && depth <= MAX_DEPTH && ResolveAll(s, ds, seen, depth, count).0.None?
    ensures ResolveAll(s', ds, seen, depth, count) == ResolveAll(s, ds, seen, depth, count)
    decreases MAX_DEPTH + 1 - depth, 0, |ds|
  {
    hide ActiveRevision;
    if ds != [] {
      if ds[0].requiresActive {
        ResolveSlotGrows(s, s', ds[0].slot, seen, depth + 1, count);
        ResolveAllGrows(s, s', ds[1..], seen, depth, ResolveSlot(s, ds[0].slot, seen, depth + 1, count).1);
      } else {
        ResolveAllGrows(s, s', ds[1..], seen, depth, count);
      }
    }
  }

  lemma ResolveGrows(s: State, s': State, slot: Slot)
    requires Grows(s, s') && Resolve(s, slot).Eligible?
    ensures Resolve(s', slot) == Resolve(s, slot)
    ensures Approvals(s', Resolve(s, slot).agreement) == Approvals(s, Resolve(s, slot).agreement)
  {
    ResolveSlotGrows(s, s', slot, {}, 0, 0);
    ActiveRevisionGrows(s, s', slot);
  }

  /** Growth cannot take eligibility away, nor change what is eligible and why. */
  lemma ServesGrows(s: State, s': State, slot: Slot, a: Agreement, r: Revision)
    requires Grows(s, s') && Serves(s, slot, a, r)
    ensures Serves(s', slot, a, r)
  {
    hide Serves, Resolve, Grows;
    EligibleExactly(s, slot);
    ResolveGrows(s, s', slot);
    EligibleExactly(s', slot);
  }
}
