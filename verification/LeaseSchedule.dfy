/** Source leases and due times of the collection schedule (apps/api/confluence-sync.ts: state, run):
    several processes claim, guard and settle over one vault, with a shared clock, processes that
    read the clock and then wait, crashes and changing bindings. Times are milliseconds. */
module LeaseSchedule {
  import opened Options

  const LATEST := 253402300799999
  const LEASE_MARGIN := 5000
  const MAX_INTERVAL := 86400000
  const MAX_TIMEOUT := 120000

  type Token = nat

  datatype Counts = Counts(imported: int, same: int, skipped: int, removed: int)

  datatype Status = Running | Completed | Failed

  datatype Code = CONFLUENCE_SYNC_CANCELLED | CONFLUENCE_SYNC_UNAVAILABLE | KNOWN_SOURCE_CODE

  datatype Record = Record(
    binding: string,
    nextRunAt: int,
    lastRunAt: Option<int>,
    status: Status,
    leaseToken: Option<Token>,
    leaseUntil: Option<int>,
    lastCode: Option<Code>,
    counts: Option<Counts>)

  /** A vault record belongs to a source id and its owner. */
  datatype Key = Key(source: string, org: string, person: string)

  /** A configured target within the bounds that the constructor checks. */
  datatype TargetBase = Target(key: Key, binding: string, interval: int, timeout: int)

  type Target = t: TargetBase | 1000 <= t.interval <= 86400000 && 10 <= t.timeout <= 120000
    witness Target(Key("", "", ""), "", 1000, 10)

  /******* One record *******/

  predicate CountsOk(c: Option<Counts>) {
    c.Some? ==> c.value.imported >= 0 && c.value.same >= 0 && c.value.skipped >= 0 && c.value.removed >= 0
  }

  predicate SafeTime(n: int) {
    0 <= n < LATEST
  }

  /** The shape check of a stored record; a record that fails it makes every reader throw. */
  predicate ShapeOk(r: Record) {
    && SafeTime(r.nextRunAt)
    && (r.lastRunAt.Some? ==> SafeTime(r.lastRunAt.value))
    && (if r.status.Running? then r.leaseToken.Some? && r.leaseUntil.Some? && SafeTime(r.leaseUntil.value)
        else r.leaseToken.None? && r.leaseUntil.None?)
    && CountsOk(r.counts)
  }

  /** A broken record: a time that is no date, a lease where none belongs or none where one does, or a
      negative count. */
  ghost predicate Broken(r: Record) {
    || r.nextRunAt < 0 || r.nextRunAt >= 253402300799999
    || (r.lastRunAt.Some? && (r.lastRunAt.value < 0 || r.lastRunAt.value >= 253402300799999))
    || (r.status.Running? && (r.leaseToken.None? || r.leaseUntil.None?
                              || r.leaseUntil.value < 0 || r.leaseUntil.value >= 253402300799999))
    || (!r.status.Running? && (r.leaseToken.Some? || r.leaseUntil.Some?))
    || (r.counts.Some? && (r.counts.value.imported < 0 || r.counts.value.same < 0 || r.counts.value.skipped < 0
                           || r.counts.value.removed < 0))
  }

  predicate Blocked(previous: Option<Record>, t: Target, now: int) {
    && previous.Some?
    && ((previous.value.status.Running? && previous.value.leaseUntil.Some? && previous.value.leaseUntil.value > now)
        || (previous.value.binding == t.binding && previous.value.nextRunAt > now))
  }

  function Claimed(t: Target, now: int, token: Token): Record {
    Record(t.binding, now, Some(now), Running, Some(token), Some(now + t.timeout + LEASE_MARGIN), None, None)
  }

  function Settled(claimed: Record, t: Target, now: int, code: Option<Code>, counts: Option<Counts>): Record {
    claimed.(status := if code.Some? then Failed else Completed, leaseToken := None, leaseUntil := None,
             nextRunAt := now + t.interval, lastCode := code, counts := counts)
  }

  /** What one guard decides from the record it read and the clock it read afterwards. */
  predicate Current(seen: Option<Record>, t: Target, claimed: Record, now: int) {
    && seen.Some? && seen.value.binding == t.binding && seen.value.leaseToken == claimed.leaseToken
    && seen.value.leaseUntil.Some? && seen.value.leaseUntil.value > now
  }

  function Find(records: map<Key, Record>, k: Key): Option<Record> {
    if k in records then Some(records[k]) else None
  }

  predicate Readable(records: map<Key, Record>, k: Key) {
    k in records ==> ShapeOk(records[k])
  }

  /******* The vault transactions *******/

  predicate ClaimSucceeds(records: map<Key, Record>, t: Target, now: int) {
    Readable(records, t.key) && !Blocked(Find(records, t.key), t, now)
  }

  function ClaimStep(records: map<Key, Record>, t: Target, now: int, token: Token): map<Key, Record> {
    if ClaimSucceeds(records, t, now) then records[t.key := Claimed(t, now, token)] else records
  }

  predicate SettleApplies(records: map<Key, Record>, t: Target, claimed: Record) {
    Readable(records, t.key) && t.key in records && records[t.key].leaseToken == claimed.leaseToken
  }

  function SettleStep(records: map<Key, Record>, t: Target, claimed: Record, now: int, code: Option<Code>,
                      counts: Option<Counts>): map<Key, Record> {
    if SettleApplies(records, t, claimed) then records[t.key := Settled(claimed, t, now, code, counts)] else records
  }

  class Vault {
    var records: map<Key, Record>

    constructor ()
      ensures records == map[]
    {
      records := map[];
    }

    /** The state reader: absent, well-formed, or an exception. */
    method Read(k: Key) returns (ok: bool, r: Option<Record>)
      ensures ok == Readable(records, k) == (k in records ==> !Broken(records[k]))
      ensures ok ==> r == Find(records, k)
    {
      if k !in records { return true, None; }
      r := Some(records[k]);
      ok := ShapeOk(records[k]);
    }

    method Claim(t: Target, now: int, token: Token) returns (claimed: Option<Record>)
      modifies this
      ensures records == ClaimStep(old(records), t, now, token)
      ensures t.key in old(records) && Broken(old(records)[t.key]) ==> records == old(records)
      ensures claimed == if ClaimSucceeds(old(records), t, now) then Some(Claimed(t, now, token)) else None
    {
      claimed := None;
      var ok, previous := Read(t.key);
      if !ok { return; }
      if previous.Some? && previous.value.status.Running? && previous.value.leaseUntil.value > now { return; }
      if previous.Some? && previous.value.binding == t.binding && previous.value.nextRunAt > now { return; }
      var until := now + t.timeout + LEASE_MARGIN;
      var next := Record(t.binding, now, Some(now), Running, Some(token), Some(until), None, None);
      records := records[t.key := next];
      claimed := Some(next);
    }

    method Settle(t: Target, claimed: Record, now: int, code: Option<Code>, counts: Option<Counts>)
      modifies this
      ensures records == SettleStep(old(records), t, claimed, now, code, counts)
      ensures t.key in old(records) && Broken(old(records)[t.key]) ==> records == old(records)
    {
      var ok, current := Read(t.key);
      if !ok || current.None? || current.value.leaseToken != claimed.leaseToken { return; }
      var status := Completed;
      if code.Some? { status := Failed; }
      records := records[t.key :=
        Record(claimed.binding, now + t.interval, claimed.lastRunAt, status, None, None, code, counts)];
    }
  }

  /******* Several processes *******/

  datatype Worker =
    | Idle
    | Sampled(target: Target, now: int)                                // read the clock, not yet claimed
    | Holding(target: Target, claimed: Record)                         // collecting
    | Guarding(target: Target, claimed: Record, seen: Option<Record>)  // read the record, not yet the clock

  datatype State = State(clock: nat, records: map<Key, Record>, issued: set<Token>, workers: map<nat, Worker>)

  datatype Action =
    | Tick(ms: nat)
    | Sample(w: nat, target: Target)
    | Claim(w: nat, token: Token)
    | Look(w: nat)
    | Check(w: nat)
    | Settle(w: nat, code: Option<Code>, counts: Option<Counts>)
    | Crash(w: nat)

  const INITIAL := State(0, map[], {}, map[])

  function WorkerAt(s: State, w: nat): Worker {
    if w in s.workers then s.workers[w] else Idle
  }

  function SetWorker(s: State, w: nat, worker: Worker): State {
    s.(workers := s.workers[w := worker])
  }

  /** The token is a random UUID, drawn never to repeat. */
  function DoClaim(s: State, w: nat, token: Token): State {
    var worker := WorkerAt(s, w);
    if !worker.Sampled? || token in s.issued then s
    else if !ClaimSucceeds(s.records, worker.target, worker.now) then SetWorker(s, w, Idle)
    else
      SetWorker(s.(records := ClaimStep(s.records, worker.target, worker.now, token), issued := s.issued + {token}),
                w, Holding(worker.target, Claimed(worker.target, worker.now, token)))
  }

  /** A guard that cannot read the record throws before it reads the clock. */
  function DoLook(s: State, w: nat): State {
    var worker := WorkerAt(s, w);
    if !worker.Holding? || !Readable(s.records, worker.target.key) then s
    else SetWorker(s, w, Guarding(worker.target, worker.claimed, Find(s.records, worker.target.key)))
  }

  /** Counts come from the collector, which only counts upwards. */
  function DoSettle(s: State, w: nat, code: Option<Code>, counts: Option<Counts>): State {
    var worker := WorkerAt(s, w);
    if !worker.Holding? then s
    else if !CountsOk(counts) then s
    else SetWorker(s.(records := SettleStep(s.records, worker.target, worker.claimed, s.clock, code, counts)), w, Idle)
  }

  function Step(s: State, a: Action): State {
    match a
    case Tick(ms) => s.(clock := s.clock + ms)
    case Sample(w, t) => if WorkerAt(s, w).Idle? then SetWorker(s, w, Sampled(t, s.clock)) else s
    case Claim(w, token) => DoClaim(s, w, token)
    case Look(w) => DoLook(s, w)
    case Check(w) =>
      var worker := WorkerAt(s, w);
      if worker.Guarding? then SetWorker(s, w, Holding(worker.target, worker.claimed)) else s
    case Settle(w, code, counts) => DoSettle(s, w, code, counts)
    case Crash(w) => SetWorker(s, w, Idle)
  }

  function Run(s: State, actions: seq<Action>): State
    decreases |actions|
  {
    if actions == [] then s else Run(Step(s, actions[0]), actions[1..])
  }

  /** The guard of this worker would pass now. */
  predicate GuardPasses(s: State, w: nat) {
    var worker := WorkerAt(s, w);
    worker.Guarding? && Current(worker.seen, worker.target, worker.claimed, s.clock)
  }

  /******* The invariant *******/

  predicate Works(worker: Worker) {
    worker.Holding? || worker.Guarding?
  }

  /** A well-formed record, except that its times are bounded by the clock rather than by a constant. */
  predicate Timely(clock: nat, r: Record) {
    && 0 <= r.nextRunAt <= clock + MAX_INTERVAL
    && (r.lastRunAt.Some? && 0 <= r.lastRunAt.value <= clock)
    && (if r.status.Running? then
          && r.leaseToken.Some? && r.leaseUntil.Some?
          && r.nextRunAt < r.leaseUntil.value <= clock + MAX_TIMEOUT + LEASE_MARGIN && r.nextRunAt <= clock
        else r.leaseToken.None? && r.leaseUntil.None?)
    && CountsOk(r.counts)
  }

  predicate RecordsTimely(s: State) {
    forall k :: k in s.records ==>
      Timely(s.clock, s.records[k]) && (s.records[k].leaseToken.Some? ==> s.records[k].leaseToken.value in s.issued)
  }

  /** The clock a worker sampled is past, and what it holds is a claim under an issued token. */
  predicate WorkerTimely(s: State, worker: Worker) {
    && (worker.Sampled? ==> 0 <= worker.now <= s.clock)
    && (Works(worker) ==>
          && Timely(s.clock, worker.claimed) && worker.claimed.status.Running?
          && worker.claimed.binding == worker.target.binding && worker.claimed.leaseToken.value in s.issued)
  }

  predicate WorkersTimely(s: State) {
    forall w :: w in s.workers ==> WorkerTimely(s, s.workers[w])
  }

  predicate TokensDistinct(s: State) {
    forall v, w :: v in s.workers && w in s.workers && v != w && Works(s.workers[v]) && Works(s.workers[w]) ==>
      s.workers[v].claimed.leaseToken != s.workers[w].claimed.leaseToken
  }

  /** A stored lease is wherever its holder claimed it, exactly as claimed. */
  predicate LeaseIsClaim(s: State, k: Key, worker: Worker) {
    k in s.records && Works(worker) && s.records[k].leaseToken == worker.claimed.leaseToken ==>
      k == worker.target.key && s.records[k] == worker.claimed
  }

  predicate LeasesAreClaims(s: State) {
    forall k, w :: k in s.records && w in s.workers ==> LeaseIsClaim(s, k, s.workers[w])
  }

  predicate LeasesDistinct(s: State) {
    forall j, k :: j in s.records && k in s.records && j != k && s.records[j].leaseToken.Some? ==>
      s.records[j].leaseToken != s.records[k].leaseToken
  }

  /** What a guard read: a record under the guard's own token and not yet expired is still there. */
  predicate SeenHolds(s: State, worker: Worker) {
    worker.Guarding? && Current(worker.seen, worker.target, worker.claimed, s.clock) ==>
      && worker.target.key in s.records && s.records[worker.target.key] == worker.claimed
      && worker.seen == Some(worker.claimed)
  }

  predicate SeenStillHolds(s: State) {
    forall w :: w in s.workers ==> SeenHolds(s, s.workers[w])
  }

  predicate Inv(s: State) {
    && RecordsTimely(s) && WorkersTimely(s) && TokensDistinct(s)
    && LeasesAreClaims(s) && LeasesDistinct(s) && SeenStillHolds(s)
  }

  lemma ClaimKeepsRecords(s: State, w: nat, token: Token)
    requires Inv(s)
    ensures RecordsTimely(DoClaim(s, w, token)) && WorkersTimely(DoClaim(s, w, token))
  {
    hide TokensDistinct, LeasesAreClaims, LeasesDistinct, SeenStillHolds;
  }

  lemma ClaimKeepsTokens(s: State, w: nat, token: Token)
    requires Inv(s)
    ensures TokensDistinct(DoClaim(s, w, token)) && LeasesDistinct(DoClaim(s, w, token))
  {
    hide LeasesAreClaims, SeenStillHolds, Timely;
  }

  lemma ClaimKeepsLeases(s: State, w: nat, token: Token)
    requires Inv(s)
    ensures var s' := DoClaim(s, w, token); LeasesAreClaims(s') && SeenStillHolds(s')
  {
  }

  lemma ClaimKeeps(s: State, w: nat, token: Token)
    requires Inv(s)
    ensures Inv(DoClaim(s, w, token))
  {
    ClaimKeepsRecords(s, w, token);
    ClaimKeepsTokens(s, w, token);
    ClaimKeepsLeases(s, w, token);
    hide DoClaim, RecordsTimely, WorkersTimely, TokensDistinct, LeasesDistinct, LeasesAreClaims, SeenStillHolds;
  }

  lemma LookKeeps(s: State, w: nat)
    requires Inv(s)
    ensures Inv(DoLook(s, w))
  {
  }

  lemma SettleKeepsRecords(s: State, w: nat, code: Option<Code>, counts: Option<Counts>)
    requires Inv(s)
    ensures var s' := DoSettle(s, w, code, counts);
      RecordsTimely(s') && WorkersTimely(s') && TokensDistinct(s') && LeasesDistinct(s')
  {
  }

  lemma SettleKeepsLeases(s: State, w: nat, code: Option<Code>, counts: Option<Counts>)
    requires Inv(s)
    ensures var s' := DoSettle(s, w, code, counts); LeasesAreClaims(s') && SeenStillHolds(s')
  {
  }

  lemma SettleKeeps(s: State, w: nat, code: Option<Code>, counts: Option<Counts>)
    requires Inv(s)
    ensures Inv(DoSettle(s, w, code, counts))
  {
    SettleKeepsRecords(s, w, code, counts);
    SettleKeepsLeases(s, w, code, counts);
    hide DoSettle, RecordsTimely, WorkersTimely, TokensDistinct, LeasesDistinct, LeasesAreClaims, SeenStillHolds;
  }

  lemma TickKeeps(s: State, ms: nat)
    requires Inv(s)
    ensures Inv(s.(clock := s.clock + ms))
  {
  }

  lemma RestKeeps(s: State, a: Action)
    requires Inv(s) && (a.Sample? || a.Check? || a.Crash?)
    ensures Inv(Step(s, a))
  {
  }

  /** Whatever any process does, and wherever it stops, leases stay exclusive and records well-formed. */
  lemma StepKeeps(s: State, a: Action)
    requires Inv(s)
    ensures Inv(Step(s, a))
  {
    hide Inv;
    match a
    case Tick(ms) => TickKeeps(s, ms);
    case Claim(w, token) => ClaimKeeps(s, w, token);
    case Look(w) => LookKeeps(s, w);
    case Settle(w, code, counts) => SettleKeeps(s, w, code, counts);
    case _ => RestKeeps(s, a);
  }

  lemma {:induction false} RunKeeps(s: State, actions: seq<Action>)
    requires Inv(s)
    ensures Inv(Run(s, actions)) && Run(s, actions).clock >= s.clock
    decreases |actions|
  {
    hide Inv;
    if actions != [] {
      StepKeeps(s, actions[0]);
      RunKeeps(Step(s, actions[0]), actions[1..]);
    }
  }

  /******* What a lease is worth *******/

  /** Until the clock nears the last representable date, every stored record passes the shape check,
      so no reader ever throws. */
  lemma ReachableRecordsReadable(actions: seq<Action>)
    requires Run(INITIAL, actions).clock + 86400000 < 253402300799999
    ensures forall k :: Readable(Run(INITIAL, actions).records, k)
  {
    RunKeeps(INITIAL, actions);
  }

  /** In any run, a settlement that applies leaves a record that readers accept exactly while its due
      time is a representable date. */
  lemma SettledReadableExactly(actions: seq<Action>, w: nat, code: Option<Code>, counts: Option<Counts>)
    requires CountsOk(counts) && WorkerAt(Run(INITIAL, actions), w).Holding?
    requires var s := Run(INITIAL, actions);
      SettleApplies(s.records, WorkerAt(s, w).target, WorkerAt(s, w).claimed)
    ensures var s := Run(INITIAL, actions);
      var t := WorkerAt(s, w).target;
      Readable(Step(s, Settle(w, code, counts)).records, t.key) <==> s.clock + t.interval < 253402300799999
  {
    RunKeeps(INITIAL, actions);
    var s := Run(INITIAL, actions);
    assert LeaseIsClaim(s, s.workers[w].target.key, s.workers[w]);
  }

  /** At most one process holds the current token of a source. */
  lemma OneCurrentHolder(actions: seq<Action>, v: nat, w: nat)
    requires var s := Run(INITIAL, actions);
      && v in s.workers && w in s.workers && v != w && Works(s.workers[v]) && Works(s.workers[w])
    ensures var s := Run(INITIAL, actions);
      !(SettleApplies(s.records, s.workers[v].target, s.workers[v].claimed)
        && SettleApplies(s.records, s.workers[w].target, s.workers[w].claimed)
        && s.workers[v].target.key == s.workers[w].target.key)
  {
    RunKeeps(INITIAL, actions);
  }

  /** A passed guard: at the moment of its last clock read this process alone holds the unexpired
      lease of the source, no other guard on the source passes, and no claim of it succeeds. */
  lemma GuardMeansAlone(actions: seq<Action>, w: nat)
    requires GuardPasses(Run(INITIAL, actions), w)
    ensures var s := Run(INITIAL, actions);
      var me := WorkerAt(s, w);
      var k := me.target.key;
      && k in s.records && s.records[k] == me.claimed
      && me.claimed.leaseUntil.Some? && me.claimed.leaseUntil.value > s.clock
      && (forall v :: v != w && WorkerAt(s, v).Guarding? && WorkerAt(s, v).target.key == k ==> !GuardPasses(s, v))
      && (forall v :: WorkerAt(s, v).Sampled? && WorkerAt(s, v).target.key == k ==>
            !ClaimSucceeds(s.records, WorkerAt(s, v).target, WorkerAt(s, v).now))
  {
    RunKeeps(INITIAL, actions);
    var s := Run(INITIAL, actions);
    var me := WorkerAt(s, w);
    assert SeenHolds(s, me);
    forall v | v != w && WorkerAt(s, v).Guarding? && WorkerAt(s, v).target.key == me.target.key
      ensures !GuardPasses(s, v)
    {
      assert SeenHolds(s, WorkerAt(s, v));
    }
  }

  /** A running lease blocks every claim exactly until it expires, whatever the binding: an
      abandoned lease becomes claimable by anyone at its expiry. */
  lemma LeaseBlocksUntilExpiry(actions: seq<Action>, t: Target, now: nat)
    requires var s := Run(INITIAL, actions);
      t.key in s.records && s.records[t.key].status.Running? && ShapeOk(s.records[t.key])
    ensures var s := Run(INITIAL, actions);
      ClaimSucceeds(s.records, t, now) <==> s.records[t.key].leaseUntil.value <= now
  {
    RunKeeps(INITIAL, actions);
  }

  /** Nothing keeps a process from collecting the source: it was never collected, or its lease has
      expired, or it is due, or it was last collected under another binding. */
  predicate Open(s: State, t: Target) {
    t.key in s.records ==>
      var r := s.records[t.key];
      if r.status.Running? then r.leaseUntil.Some? && r.leaseUntil.value <= s.clock
      else r.binding != t.binding || r.nextRunAt <= s.clock
  }

  /** The process claims the source, works for a while, and reads the record for its guard. */
  function Guarded(s: State, w: nat, t: Target, token: Token, work: nat): State {
    Step(Step(Step(Step(s, Sample(w, t)), Claim(w, token)), Tick(work)), Look(w))
  }

  /** A whole round of an idle process: exactly an open source is claimed, its guard passes exactly
      for the timeout and five seconds from the clock read of the claim, and its settlement leaves the
      outcome, the counts and the next due time. */
  lemma RoundExactly(actions: seq<Action>, w: nat, t: Target, token: Token, work: nat, code: Option<Code>,
                     counts: Option<Counts>)
    requires var s := Run(INITIAL, actions);
      && WorkerAt(s, w).Idle? && token !in s.issued && CountsOk(counts) && s.clock + 86400000 < 253402300799999
    ensures var s := Run(INITIAL, actions);
      var claimed := Step(Step(s, Sample(w, t)), Claim(w, token));
      if !Open(s, t) then claimed.records == s.records && WorkerAt(claimed, w).Idle?
      else
        var guarded := Guarded(s, w, t, token, work);
        var settled := Step(Step(guarded, Check(w)), Settle(w, code, counts));
        && (GuardPasses(guarded, w) <==> work < t.timeout + 5000)
        && settled.records == s.records[t.key := Record(
             t.binding, s.clock + work + t.interval, Some(s.clock), if code.Some? then Failed else Completed,
             None, None, code, counts)]
  {
    RunKeeps(INITIAL, actions);
    var s := Run(INITIAL, actions);
    hide Inv, Open;
    OpenExactly(s, t);
    RoundClaims(s, w, t, token, work);
    var guarded := Guarded(s, w, t, token, work);
    if Open(s, t) { RoundSettles(s.records, guarded, w, t, Claimed(t, s.clock, token), code, counts); }
    hide Guarded, Step;
  }

  lemma RoundClaims(s: State, w: nat, t: Target, token: Token, work: nat)
    requires WorkerAt(s, w).Idle? && token !in s.issued && 0 <= s.clock + 86400000 < 253402300799999
    ensures var claimed, claim := Step(Step(s, Sample(w, t)), Claim(w, token)), Claimed(t, s.clock, token);
      if !ClaimSucceeds(s.records, t, s.clock) then claimed.records == s.records && WorkerAt(claimed, w).Idle?
      else
        var guarded := Guarded(s, w, t, token, work);
        && WorkerAt(guarded, w) == Guarding(t, claim, Some(claim))
        && guarded.clock == s.clock + work && guarded.records == s.records[t.key := claim]
  {
    hide Blocked;
    var sampled := Step(s, Sample(w, t));
    assert sampled.records == s.records && sampled.issued == s.issued && WorkerAt(sampled, w) == Sampled(t, s.clock);
  }

  lemma RoundSettles(before: map<Key, Record>, s: State, w: nat, t: Target, claim: Record, code: Option<Code>,
                     counts: Option<Counts>)
    requires WorkerAt(s, w) == Guarding(t, claim, Some(claim)) && s.records == before[t.key := claim]
    requires claim.binding == t.binding && ShapeOk(claim) && claim.leaseUntil.Some? && CountsOk(counts)
    ensures GuardPasses(s, w) <==> s.clock < claim.leaseUntil.value
    ensures Step(Step(s, Check(w)), Settle(w, code, counts)).records == before[t.key := Record(
      t.binding, s.clock + t.interval, claim.lastRunAt, if code.Some? then Failed else Completed,
      None, None, code, counts)]
  {
  }

  lemma OpenExactly(s: State, t: Target)
    requires Inv(s) && s.clock + 86400000 < 253402300799999
    ensures ClaimSucceeds(s.records, t, s.clock) <==> Open(s, t)
  {
  }

  /******* Over runs *******/

  /** No process settles this very lease; its holder may work, wait or crash. */
  predicate NoSettleOf(s: State, actions: seq<Action>, token: Token)
    decreases |actions|
  {
    actions != [] ==>
      && (actions[0].Settle? && Works(WorkerAt(s, actions[0].w)) ==>
            WorkerAt(s, actions[0].w).claimed.leaseToken != Some(token))
      && NoSettleOf(Step(s, actions[0]), actions[1..], token)
  }

  /** A lease that its holder does not settle keeps its source from everybody else for as long as it
      lasts, over any run. */
  lemma {:induction false} LeaseIsExclusive(s: State, actions: seq<Action>, k: Key)
    requires Inv(s) && k in s.records && s.records[k].status.Running?
    requires s.records[k].leaseUntil.value > Run(s, actions).clock
    requires NoSettleOf(s, actions, s.records[k].leaseToken.value)
    ensures k in Run(s, actions).records && Run(s, actions).records[k] == s.records[k]
    decreases |actions|
  {
    if actions != [] {
      var s' := Step(s, actions[0]);
      StepKeeps(s, actions[0]);
      RunKeeps(s', actions[1..]);
      LeaseUntouched(s, actions[0], k);
      LeaseIsExclusive(s', actions[1..], k);
    }
  }

  lemma LeaseUntouched(s: State, a: Action, k: Key)
    requires Inv(s) && k in s.records && s.records[k].status.Running?
    requires s.records[k].leaseUntil.value > Step(s, a).clock
    requires a.Settle? && Works(WorkerAt(s, a.w)) ==> WorkerAt(s, a.w).claimed.leaseToken != s.records[k].leaseToken
    ensures k in Step(s, a).records && Step(s, a).records[k] == s.records[k]
  {
  }

  /** The token is spent: issued, and in no stored record. */
  predicate Spent(s: State, token: Token) {
    token in s.issued && forall k :: k in s.records ==> s.records[k].leaseToken != Some(token)
  }

  /** A superseded process stays superseded for good: its token never comes back, so whenever it
      settles, nothing changes. */
  lemma {:induction false} SupersededForever(s: State, actions: seq<Action>, token: Token)
    requires Inv(s) && Spent(s, token)
    ensures Spent(Run(s, actions), token)
    ensures forall w ::
      WorkerAt(Run(s, actions), w).Holding? && WorkerAt(Run(s, actions), w).claimed.leaseToken == Some(token) ==>
      var worker := WorkerAt(Run(s, actions), w);
      !SettleApplies(Run(s, actions).records, worker.target, worker.claimed)
    decreases |actions|
  {
    if actions != [] {
      StepKeeps(s, actions[0]);
      SpentStays(s, actions[0], token);
      SupersededForever(Step(s, actions[0]), actions[1..], token);
    }
  }

  lemma SpentStays(s: State, a: Action, token: Token)
    requires Inv(s) && Spent(s, token)
    ensures Spent(Step(s, a), token)
  {
  }

  /** Superseding happens in one step: whoever claims the source after expiry, the old token is spent. */
  lemma ClaimSupersedes(s: State, w: nat, token: Token, former: Token)
    requires Inv(s) && WorkerAt(s, w).Sampled? && token !in s.issued
    requires WorkerAt(s, w).target.key in s.records && s.records[WorkerAt(s, w).target.key].leaseToken == Some(former)
    requires ClaimSucceeds(s.records, WorkerAt(s, w).target, WorkerAt(s, w).now)
    ensures Spent(DoClaim(s, w, token), former)
    ensures s.records[WorkerAt(s, w).target.key].leaseUntil.value <= s.clock
  {
  }

  /** Every claim of the source in the run is made under this binding. */
  predicate SameBinding(s: State, actions: seq<Action>, k: Key, binding: string)
    decreases |actions|
  {
    actions != [] ==>
      && (actions[0].Claim? && WorkerAt(s, actions[0].w).Sampled? && WorkerAt(s, actions[0].w).target.key == k ==>
            WorkerAt(s, actions[0].w).target.binding == binding)
      && SameBinding(Step(s, actions[0]), actions[1..], k, binding)
  }

  /** An unchanged source is never collected before its due time: while the binding stays and the
      clock is short of the due time, no step of any process touches the settled record. */
  lemma {:induction false} NotBeforeDue(s: State, actions: seq<Action>, k: Key)
    requires Inv(s) && k in s.records && !s.records[k].status.Running?
    requires SameBinding(s, actions, k, s.records[k].binding)
    requires Run(s, actions).clock < s.records[k].nextRunAt
    ensures k in Run(s, actions).records && Run(s, actions).records[k] == s.records[k]
    decreases |actions|
  {
    if actions != [] {
      var s' := Step(s, actions[0]);
      StepKeeps(s, actions[0]);
      RunKeeps(s', actions[1..]);
      DueUntouched(s, actions[0], k);
      NotBeforeDue(s', actions[1..], k);
    }
  }

  /** The guard of a claim, read off a settled record. */
  lemma SettledBlocksUntilDue(records: map<Key, Record>, t: Target, now: int)
    requires t.key in records && !records[t.key].status.Running?
    ensures ClaimSucceeds(records, t, now) <==>
      Readable(records, t.key) && (records[t.key].binding != t.binding || records[t.key].nextRunAt <= now)
  {
  }

  lemma DueUntouched(s: State, a: Action, k: Key)
    requires Inv(s) && k in s.records && !s.records[k].status.Running?
    requires a.Claim? && WorkerAt(s, a.w).Sampled? && WorkerAt(s, a.w).target.key == k ==>
      WorkerAt(s, a.w).target.binding == s.records[k].binding
    requires Step(s, a).clock < s.records[k].nextRunAt
    ensures k in Step(s, a).records && Step(s, a).records[k] == s.records[k]
  {
    if a.Claim? && WorkerAt(s, a.w).Sampled? && WorkerAt(s, a.w).target.key == k {
      SettledBlocksUntilDue(s.records, WorkerAt(s, a.w).target, WorkerAt(s, a.w).now);
    }
  }

  /** Two collections of an unchanged source are at least an interval apart: from the moment a
      process settles, whatever all of them do, the settled record stands until the interval is over. */
  lemma IntervalIsKept(s: State, w: nat, code: Option<Code>, counts: Option<Counts>, actions: seq<Action>)
    requires Inv(s) && WorkerAt(s, w).Holding? && CountsOk(counts)
    requires SettleApplies(s.records, WorkerAt(s, w).target, WorkerAt(s, w).claimed)
    requires var t := WorkerAt(s, w).target; SameBinding(DoSettle(s, w, code, counts), actions, t.key, t.binding)
    requires Run(DoSettle(s, w, code, counts), actions).clock < s.clock + WorkerAt(s, w).target.interval
    ensures var t := WorkerAt(s, w).target;
      Find(Run(DoSettle(s, w, code, counts), actions).records, t.key)
        == Some(Settled(WorkerAt(s, w).claimed, t, s.clock, code, counts))
  {
    SettleKeeps(s, w, code, counts);
    NotBeforeDue(DoSettle(s, w, code, counts), actions, WorkerAt(s, w).target.key);
  }
}
