/** The persist-then-execute protocol for ledger commands (apps/api/service.ts: serializeCommand,
    command, committedCommand, executeStoredCommand, describeCommand, retryCommand), as a state
    machine: several API processes over one vault and one ledger, with queued operations, lost
    answers, late commits, lagging projections and crashes as steps. Request and command digests are
    injective, so a digest is what it digests. */
module CommandProtocol {
  import opened Options

  const MAX_QUEUED := 32

  type Id = string

  datatype Actor = Actor(org: string, person: string, kind: string)

  datatype Request = Request(route: string, input: string)

  datatype Command = Command(id: Id, kind: string, input: string)

  datatype Tracking = Pending | Rejected(code: string)

  datatype Stored = Stored(request: Request, command: Command, tracking: Tracking)

  /** Vault records belong to an organisation and a person; the kind of actor is no part of the key. */
  datatype VaultKey = VaultKey(org: string, person: string, id: Id)

  datatype LedgerKey = LedgerKey(org: string, id: Id)

  /** A ledger record and its position in the ledger. */
  datatype Record = Record(actor: Actor, command: Command, result: string, tx: nat)

  /** What a process answered for a committed command. */
  datatype Receipt = Receipt(giver: nat, actor: Actor, id: Id, result: string, tx: nat)

  datatype Operation = Submit(actor: Actor, id: Id, request: Request) | Retry(actor: Actor, id: Id)

  datatype Stage =
    | Idle
    | Built(op: Operation, command: Command)   // read the vault, found nothing, built a command
    | Loaded(op: Operation, stored: Stored)    // about to call the ledger
    | Waiting(op: Operation, stored: Stored)   // called the ledger, no answer yet

  /** One API process: its first-in first-out queue and the operation it is running. */
  datatype Worker = Worker(queue: seq<Operation>, stage: Stage)

  /** One call of ledger.execute, and the operation that made it. */
  datatype Attempt = Attempt(op: Operation, command: Command)

  /** Each process reads its own stored projection of the ledger: the records before a position. */
  datatype State = State(
    vault: map<VaultKey, Stored>,
    ledger: map<LedgerKey, Record>,
    sent: set<Attempt>,
    workers: map<nat, Worker>,
    views: map<nat, nat>,
    receipts: seq<Receipt>)

  /** What ledger.execute came back with. A definitive error is a non-retryable 4xx with a code. */
  datatype Answer = StillPending | Committed | Definitive(code: string) | Transient

  datatype Action =
    | Enqueue(w: nat, op: Operation)
    | Begin(w: nat, kind: string, input: string)
    | Insert(w: nat)
    | Send(w: nat)
    | Commit(attempt: Attempt, result: string)
    | Answered(w: nat, answer: Answer)
    | Refresh(w: nat, height: nat)
    | Crash(w: nat)

  const INITIAL := State(map[], map[], {}, map[], map[], [])

  /******* Reads *******/

  function KeyOf(a: Actor, id: Id): VaultKey { VaultKey(a.org, a.person, id) }

  function WorkerAt(s: State, w: nat): Worker {
    if w in s.workers then s.workers[w] else Worker([], Idle)
  }

  function SetWorker(s: State, w: nat, worker: Worker): State {
    s.(workers := s.workers[w := worker])
  }

  function Finish(s: State, w: nat): State {
    SetWorker(s, w, WorkerAt(s, w).(stage := Idle))
  }

  function ViewOf(s: State, w: nat): nat {
    if w in s.views then s.views[w] else 0
  }

  datatype Lookup = Absent | Mismatch | Match(record: Record)

  /** committedCommand: the record under this command id as far as the process's projection reaches,
      checked against actor and command. */
  function CommittedCommand(s: State, w: nat, a: Actor, c: Command): Lookup {
    var k := LedgerKey(a.org, c.id);
    if k !in s.ledger || s.ledger[k].tx >= ViewOf(s, w) then Absent
    else if s.ledger[k].actor == a && s.ledger[k].command == c then Match(s.ledger[k])
    else Mismatch
  }

  /******* Steps *******/

  /** Admission: the running operation counts among the queued ones. */
  function DoEnqueue(s: State, w: nat, op: Operation): State {
    var worker := WorkerAt(s, w);
    var queued := |worker.queue| + (if worker.stage.Idle? then 0 else 1);
    if queued >= MAX_QUEUED then s else SetWorker(s, w, worker.(queue := worker.queue + [op]))
  }

  /** The head of the queue starts: read the vault, compare request digests, build if absent. */
  function DoBegin(s: State, w: nat, kind: string, input: string): State {
    var worker := WorkerAt(s, w);
    if !worker.stage.Idle? || worker.queue == [] then s
    else
      var op := worker.queue[0];
      var k := KeyOf(op.actor, op.id);
      var stage :=
        if k in s.vault then
          if op.Submit? && s.vault[k].request != op.request then Idle else Loaded(op, s.vault[k])
        else if op.Submit? then Built(op, Command(op.id, kind, input))
        else Idle;
      SetWorker(s, w, Worker(worker.queue[1..], stage))
  }

  /** The insert of a new record; it fails when another process got there first. */
  function DoInsert(s: State, w: nat): State {
    match WorkerAt(s, w).stage
    case Built(op, command) =>
      var k := KeyOf(op.actor, op.id);
      if k in s.vault || !op.Submit? then Finish(s, w)
      else
        var stored := Stored(op.request, command, Pending);
        SetWorker(s, w, WorkerAt(s, w).(stage := Loaded(op, stored))).(vault := s.vault[k := stored])
    case _ => s
  }

  function DoSend(s: State, w: nat): State {
    match WorkerAt(s, w).stage
    case Loaded(op, stored) =>
      SetWorker(s, w, WorkerAt(s, w).(stage := Waiting(op, stored))).(sent := s.sent + {Attempt(op, stored.command)})
    case _ => s
  }

  /** The ledger orders a transaction that was sent, now or much later: the first one under a
      command id writes the record, and no later one changes it. */
  function DoCommit(s: State, t: Attempt, result: string): State {
    var k := LedgerKey(t.op.actor.org, t.command.id);
    if t !in s.sent || k in s.ledger then s
    else s.(ledger := s.ledger[k := Record(t.op.actor, t.command, result, |s.ledger|)])
  }

  /** updateCommand: overwrites the whole record with the process's own copy. */
  function Update(s: State, op: Operation, stored: Stored): State {
    var k := KeyOf(op.actor, op.id);
    if k in s.vault then s.(vault := s.vault[k := stored]) else s
  }

  function Unreject(s: State, op: Operation, stored: Stored): State {
    if stored.tracking.Rejected? then Update(s, op, stored.(tracking := Pending)) else s
  }

  function DoAnswered(s: State, w: nat, answer: Answer): State {
    match WorkerAt(s, w).stage
    case Waiting(op, stored) =>
      var s' := Finish(s, w);
      (match answer
       case StillPending => Update(s', op, stored.(tracking := Pending))
       case Committed =>
         (match CommittedCommand(s, w, op.actor, stored.command)
          case Absent => Unreject(s', op, stored)
          case Mismatch => Update(s', op, stored.(tracking := Rejected("IDEMPOTENCY_CONFLICT")))
          case Match(r) => s'.(receipts := s.receipts + [Receipt(w, op.actor, op.id, r.result, r.tx)]))
       case Definitive(code) => Update(s', op, stored.(tracking := Rejected(code)))
       case Transient => Unreject(s', op, stored))
    case _ => s
  }

  /** A refresh brings in blocks up to the tip it read, now or a while ago, or fails on the way. */
  function DoRefresh(s: State, w: nat, height: nat): State {
    if ViewOf(s, w) <= height <= |s.ledger| then s.(views := s.views[w := height]) else s
  }

  function Step(s: State, a: Action): State {
    match a
    case Enqueue(w, op) => DoEnqueue(s, w, op)
    case Begin(w, kind, input) => DoBegin(s, w, kind, input)
    case Insert(w) => DoInsert(s, w)
    case Send(w) => DoSend(s, w)
    case Commit(t, result) => DoCommit(s, t, result)
    case Answered(w, answer) => DoAnswered(s, w, answer)
    case Refresh(w, height) => DoRefresh(s, w, height)
    case Crash(w) => SetWorker(s, w, Worker([], Idle))
  }

  function Run(actions: seq<Action>): State {
    if actions == [] then INITIAL
    else Step(Run(actions[..|actions| - 1]), actions[|actions| - 1])
  }

  /******* What every step keeps *******/

  /** A process's copy of a record agrees with the vault on request and command, and a submitted
      request only ever drives the record it created or repeated. */
  ghost predicate CopyOk(s: State, op: Operation, stored: Stored) {
    var k := KeyOf(op.actor, op.id);
    && k in s.vault && s.vault[k].request == stored.request && s.vault[k].command == stored.command
    && (op.Submit? ==> op.request == stored.request)
  }

  ghost predicate WorkerOk(s: State, worker: Worker) {
    && |worker.queue| + (if worker.stage.Idle? then 0 else 1) <= 32
    && match worker.stage
       case Idle => true
       case Built(op, command) => command.id == op.id
       case Loaded(op, stored) => CopyOk(s, op, stored)
       case Waiting(op, stored) => CopyOk(s, op, stored) && Attempt(op, stored.command) in s.sent
  }

  ghost predicate SentOk(s: State, t: Attempt) {
    var k := KeyOf(t.op.actor, t.op.id);
    && t.command.id == t.op.id && k in s.vault && s.vault[k].command == t.command
    && (t.op.Submit? ==> s.vault[k].request == t.op.request)
  }

  ghost predicate RecordOk(s: State, k: LedgerKey, r: Record) {
    && k == LedgerKey(r.actor.org, r.command.id) && r.tx < |s.ledger|
    && exists op :: Attempt(op, r.command) in s.sent && op.actor == r.actor
  }

  ghost predicate ReceiptOk(s: State, r: Receipt) {
    var k := LedgerKey(r.actor.org, r.id);
    && k in s.ledger && s.ledger[k].actor == r.actor && s.ledger[k].result == r.result && s.ledger[k].tx == r.tx
    && r.tx < ViewOf(s, r.giver)
  }

  /** Positions are distinct, and a projection is a prefix of the ledger. */
  ghost predicate Ordered(s: State) {
    && (forall j, k :: j in s.ledger && k in s.ledger && j != k ==> s.ledger[j].tx != s.ledger[k].tx)
    && forall w :: w in s.views ==> s.views[w] <= |s.ledger|
  }

  ghost predicate Inv(s: State) {
    && (forall k :: k in s.vault ==> s.vault[k].command.id == k.id)
    && (forall w :: w in s.workers ==> WorkerOk(s, s.workers[w]))
    && (forall t :: t in s.sent ==> SentOk(s, t))
    && (forall k :: k in s.ledger ==> RecordOk(s, k, s.ledger[k]))
    && (forall r :: r in s.receipts ==> ReceiptOk(s, r))
    && Ordered(s)
  }

  /** Nothing recorded is lost or altered: vault entries keep request and command, ledger records
      and receipts stay as they are, projections only grow. */
  ghost predicate Extends(s: State, s': State) {
    && (forall k :: k in s.vault ==>
          k in s'.vault && s'.vault[k].request == s.vault[k].request && s'.vault[k].command == s.vault[k].command)
    && (forall k :: k in s.ledger ==> k in s'.ledger && s'.ledger[k] == s.ledger[k])
    && s.sent <= s'.sent && s.receipts <= s'.receipts
    && |s.ledger| <= |s'.ledger| && forall w :: ViewOf(s, w) <= ViewOf(s', w)
  }

  lemma WorkerKeeps(s: State, s': State, worker: Worker)
    requires WorkerOk(s, worker) && Extends(s, s')
    ensures WorkerOk(s', worker)
  {
  }

  /** When a step extends the state and leaves the ledger alone, only the one worker it moves
      needs looking at. */
  lemma InvByWorker(s: State, s': State, w: nat)
    requires Inv(s) && Extends(s, s') && s'.ledger == s.ledger && s'.views == s.views
    requires forall v :: v in s'.workers && v != w ==> v in s.workers && s'.workers[v] == s.workers[v]
    requires w in s'.workers ==> WorkerOk(s', s'.workers[w])
    requires forall k :: k in s'.vault ==> s'.vault[k].command.id == k.id
    requires forall t :: t in s'.sent && t !in s.sent ==> SentOk(s', t)
    requires forall r :: r in s'.receipts && r !in s.receipts ==> ReceiptOk(s', r)
    ensures Inv(s')
  {
    forall v | v in s'.workers ensures WorkerOk(s', s'.workers[v]) {
      if v != w { WorkerKeeps(s, s', s.workers[v]); }
    }
    forall t | t in s'.sent ensures SentOk(s', t) {
      if t in s.sent { assert SentOk(s, t); }
    }
    forall k | k in s'.ledger ensures RecordOk(s', k, s'.ledger[k]) { assert RecordOk(s, k, s.ledger[k]); }
    forall r | r in s'.receipts ensures ReceiptOk(s', r) {
      if r in s.receipts { assert ReceiptOk(s, r); }
    }
  }

  lemma WorkerAtOk(s: State, w: nat)
    requires Inv(s)
    ensures WorkerOk(s, WorkerAt(s, w))
  {
  }

  /** A step that moves only one process keeps everything else. */
  lemma WorkerMoves(s: State, w: nat, worker: Worker)
    requires Inv(s) && WorkerOk(s, worker)
    ensures Inv(SetWorker(s, w, worker)) && Extends(s, SetWorker(s, w, worker))
  {
    var s' := SetWorker(s, w, worker);
    assert Extends(s, s');
    hide Extends, SentOk, RecordOk, ReceiptOk, Ordered;
    WorkerKeeps(s, s', worker);
    InvByWorker(s, s', w);
  }

  lemma EnqueueOk(s: State, w: nat, op: Operation)
    requires Inv(s)
    ensures DoEnqueue(s, w, op) == s ||
            exists worker :: WorkerOk(s, worker) && DoEnqueue(s, w, op) == SetWorker(s, w, worker)
  {
    WorkerAtOk(s, w);
    hide Inv;
    var worker := WorkerAt(s, w);
    if DoEnqueue(s, w, op) != s {
      assert WorkerOk(s, worker.(queue := worker.queue + [op]));
    }
  }

  lemma EnqueueKeeps(s: State, w: nat, op: Operation)
    requires Inv(s)
    ensures Inv(DoEnqueue(s, w, op)) && Extends(s, DoEnqueue(s, w, op))
  {
    EnqueueOk(s, w, op);
    hide Inv, DoEnqueue, SetWorker, WorkerOk;
    if DoEnqueue(s, w, op) != s {
      hide Extends;
      var worker :| WorkerOk(s, worker) && DoEnqueue(s, w, op) == SetWorker(s, w, worker);
      WorkerMoves(s, w, worker);
    }
  }

  lemma BeginOk(s: State, w: nat, kind: string, input: string)
    requires Inv(s)
    ensures DoBegin(s, w, kind, input) == s ||
            exists worker :: WorkerOk(s, worker) && DoBegin(s, w, kind, input) == SetWorker(s, w, worker)
  {
    WorkerAtOk(s, w);
    var s' := DoBegin(s, w, kind, input);
    if s' != s {
      assert WorkerOk(s, s'.workers[w]);
      assert s' == SetWorker(s, w, s'.workers[w]);
    }
  }

  lemma BeginKeeps(s: State, w: nat, kind: string, input: string)
    requires Inv(s)
    ensures Inv(DoBegin(s, w, kind, input)) && Extends(s, DoBegin(s, w, kind, input))
  {
    BeginOk(s, w, kind, input);
    hide Inv, DoBegin, SetWorker, WorkerOk;
    if DoBegin(s, w, kind, input) != s {
      hide Extends;
      var worker :| WorkerOk(s, worker) && DoBegin(s, w, kind, input) == SetWorker(s, w, worker);
      WorkerMoves(s, w, worker);
    }
  }

  lemma StopKeeps(s: State, w: nat)
    requires Inv(s)
    ensures Inv(Finish(s, w)) && Extends(s, Finish(s, w))
    ensures Inv(Step(s, Crash(w))) && Extends(s, Step(s, Crash(w)))
  {
    WorkerAtOk(s, w);
    hide Inv, Extends;
    WorkerMoves(s, w, WorkerAt(s, w).(stage := Idle));
    WorkerMoves(s, w, Worker([], Idle));
  }

  lemma InsertExtends(s: State, w: nat)
    ensures Extends(s, DoInsert(s, w))
  {
  }

  lemma InsertOk(s: State, w: nat)
    requires Inv(s)
    ensures var s' := DoInsert(s, w);
      && s'.ledger == s.ledger && s'.views == s.views && s'.sent == s.sent && s'.receipts == s.receipts
      && (forall v :: v in s'.workers && v != w ==> v in s.workers && s'.workers[v] == s.workers[v])
      && (w in s'.workers ==> WorkerOk(s', s'.workers[w]))
  {
    WorkerAtOk(s, w);
    hide Inv, Extends, SentOk, RecordOk, ReceiptOk, Ordered;
  }

  lemma InsertNames(s: State, w: nat)
    requires Inv(s)
    ensures forall k :: k in DoInsert(s, w).vault ==> DoInsert(s, w).vault[k].command.id == k.id
  {
    WorkerAtOk(s, w);
    hide Extends, SentOk, RecordOk, ReceiptOk, Ordered;
  }

  lemma InsertKeeps(s: State, w: nat)
    requires Inv(s)
    ensures Inv(DoInsert(s, w)) && Extends(s, DoInsert(s, w))
  {
    InsertExtends(s, w);
    InsertOk(s, w);
    InsertNames(s, w);
    hide DoInsert, Inv, Extends, WorkerOk, SentOk, RecordOk, ReceiptOk;
    InvByWorker(s, DoInsert(s, w), w);
  }

  lemma SendExtends(s: State, w: nat)
    ensures Extends(s, DoSend(s, w))
  {
  }

  lemma SendKeeps(s: State, w: nat)
    requires Inv(s)
    ensures Inv(DoSend(s, w)) && Extends(s, DoSend(s, w))
  {
    SendExtends(s, w);
    WorkerAtOk(s, w);
    hide Extends, RecordOk, ReceiptOk, Ordered;
    InvByWorker(s, DoSend(s, w), w);
  }

  lemma FactsKeep(s: State, s': State)
    requires Inv(s) && Extends(s, s')
    ensures forall t :: t in s.sent ==> SentOk(s', t)
    ensures forall k :: k in s.ledger ==> RecordOk(s', k, s.ledger[k])
    ensures forall r :: r in s.receipts ==> ReceiptOk(s', r)
  {
    hide WorkerOk;
    forall t | t in s.sent ensures SentOk(s', t) { assert SentOk(s, t); }
    forall k | k in s.ledger ensures RecordOk(s', k, s.ledger[k]) { assert RecordOk(s, k, s.ledger[k]); }
    forall r | r in s.receipts ensures ReceiptOk(s', r) { assert ReceiptOk(s, r); }
  }

  /** When a step extends the state and moves no process, only what is new needs looking at. */
  lemma InvByFacts(s: State, s': State)
    requires Inv(s) && Extends(s, s') && s'.workers == s.workers && s'.sent == s.sent
    requires forall k :: k in s'.vault ==> s'.vault[k].command.id == k.id
    requires forall k :: k in s'.ledger && k !in s.ledger ==> RecordOk(s', k, s'.ledger[k])
    requires forall r :: r in s'.receipts && r !in s.receipts ==> ReceiptOk(s', r)
    requires Ordered(s')
    ensures Inv(s')
  {
    hide WorkerOk, SentOk, RecordOk, ReceiptOk, Ordered;
    FactsKeep(s, s');
    assert forall k :: k in s.ledger ==> s'.ledger[k] == s.ledger[k];
    hide Extends;
    forall w | w in s'.workers ensures WorkerOk(s', s'.workers[w]) { WorkerKeeps(s, s', s.workers[w]); }
  }

  lemma NewRecordOk(s: State, t: Attempt, result: string)
    requires Inv(s) && t in s.sent
    ensures var k := LedgerKey(t.op.actor.org, t.command.id);
      k !in s.ledger ==> RecordOk(DoCommit(s, t, result), k, Record(t.op.actor, t.command, result, |s.ledger|))
  {
    hide WorkerOk, ReceiptOk;
    assert Attempt(t.op, t.command) in s.sent;
  }

  lemma CommitExtends(s: State, t: Attempt, result: string)
    ensures Extends(s, DoCommit(s, t, result))
  {
  }

  lemma CommitOrders(s: State, t: Attempt, result: string)
    requires Inv(s)
    ensures Ordered(DoCommit(s, t, result))
  {
    hide WorkerOk, SentOk, ReceiptOk;
    forall k | k in s.ledger ensures s.ledger[k].tx < |s.ledger| { assert RecordOk(s, k, s.ledger[k]); }
  }

  lemma RefreshExtends(s: State, w: nat, height: nat)
    requires Ordered(s)
    ensures Extends(s, DoRefresh(s, w, height)) && Ordered(DoRefresh(s, w, height))
  {
  }

  lemma RefreshKeeps(s: State, w: nat, height: nat)
    requires Inv(s)
    ensures Inv(DoRefresh(s, w, height)) && Extends(s, DoRefresh(s, w, height))
  {
    var s' := DoRefresh(s, w, height);
    RefreshExtends(s, w, height);
    hide Extends, WorkerOk, SentOk, RecordOk, ReceiptOk, Ordered;
    InvByFacts(s, s');
  }

  lemma CommitKeeps(s: State, t: Attempt, result: string)
    requires Inv(s)
    ensures Inv(DoCommit(s, t, result)) && Extends(s, DoCommit(s, t, result))
  {
    var s' := DoCommit(s, t, result);
    CommitExtends(s, t, result);
    CommitOrders(s, t, result);
    hide Extends, WorkerOk, SentOk, RecordOk, ReceiptOk, Ordered;
    if s' != s {
      NewRecordOk(s, t, result);
      InvByFacts(s, s');
    }
  }

  lemma UpdateExtends(s: State, op: Operation, stored: Stored)
    requires Inv(s) && CopyOk(s, op, stored)
    ensures var s' := Update(s, op, stored);
      Extends(s, s') && Ordered(s') && forall k :: k in s'.vault ==> s'.vault[k].command.id == k.id
  {
    hide WorkerOk, SentOk, RecordOk, ReceiptOk;
  }

  lemma UpdateKeeps(s: State, op: Operation, stored: Stored)
    requires Inv(s) && CopyOk(s, op, stored)
    ensures Inv(Update(s, op, stored)) && Extends(s, Update(s, op, stored))
  {
    UpdateExtends(s, op, stored);
    hide Inv, Extends, CopyOk, RecordOk, ReceiptOk, Ordered;
    InvByFacts(s, Update(s, op, stored));
  }

  lemma ReceiptExtends(s: State, r: Receipt)
    requires ReceiptOk(s, r) && Ordered(s)
    ensures var s' := s.(receipts := s.receipts + [r]);
      Extends(s, s') && ReceiptOk(s', r) && Ordered(s')
  {
  }

  lemma ReceiptKeeps(s: State, r: Receipt)
    requires Inv(s) && ReceiptOk(s, r)
    ensures var s' := s.(receipts := s.receipts + [r]);
      Inv(s') && Extends(s, s')
  {
    ReceiptExtends(s, r);
    hide Extends, WorkerOk, SentOk, RecordOk, ReceiptOk, Ordered;
    InvByFacts(s, s.(receipts := s.receipts + [r]));
  }

  lemma ExtendsTransitive(a: State, b: State, c: State)
    requires Extends(a, b) && Extends(b, c)
    ensures Extends(a, c)
  {
  }

  lemma WaitingOk(s: State, w: nat)
    requires Inv(s) && WorkerAt(s, w).stage.Waiting?
    ensures var op, stored := WorkerAt(s, w).stage.op, WorkerAt(s, w).stage.stored;
      && (forall t :: CopyOk(Finish(s, w), op, stored.(tracking := t)))
      && stored.command.id == op.id
  {
    WorkerAtOk(s, w);
  }

  lemma AnsweredKeeps(s: State, w: nat, answer: Answer)
    requires Inv(s)
    ensures Inv(DoAnswered(s, w, answer)) && Extends(s, DoAnswered(s, w, answer))
  {
    hide Inv, Extends, CopyOk;
    match WorkerAt(s, w).stage
    case Waiting(op, stored) =>
      var s1, s2 := Finish(s, w), DoAnswered(s, w, answer);
      WaitingOk(s, w);
      StopKeeps(s, w);
      if answer.Committed? && CommittedCommand(s, w, op.actor, stored.command).Match? {
        var r := CommittedCommand(s, w, op.actor, stored.command).record;
        ReceiptKeeps(s1, Receipt(w, op.actor, op.id, r.result, r.tx));
      } else {
        var tracking := if answer.Definitive? then Rejected(answer.code)
                        else if answer.Committed? && CommittedCommand(s, w, op.actor, stored.command).Mismatch?
                        then Rejected("IDEMPOTENCY_CONFLICT") else Pending;
        UpdateKeeps(s1, op, stored.(tracking := tracking));
        ExtendsReflexive(s1);
      }
      ExtendsTransitive(s, s1, s2);
    case _ => ExtendsReflexive(s);
  }

  lemma ExtendsReflexive(s: State)
    ensures Extends(s, s)
  {
  }

  lemma StepKeeps(s: State, a: Action)
    requires Inv(s)
    ensures Inv(Step(s, a)) && Extends(s, Step(s, a))
  {
    match a
    case Enqueue(w, op) => EnqueueKeeps(s, w, op);
    case Begin(w, kind, input) => BeginKeeps(s, w, kind, input);
    case Insert(w) => InsertKeeps(s, w);
    case Send(w) => SendKeeps(s, w);
    case Commit(t, result) => CommitKeeps(s, t, result);
    case Answered(w, answer) => AnsweredKeeps(s, w, answer);
    case Refresh(w, height) => RefreshKeeps(s, w, height);
    case Crash(w) => StopKeeps(s, w);
  }

  lemma {:induction false} RunKeeps(actions: seq<Action>)
    ensures Inv(Run(actions))
  {
    hide Inv;
    if actions == [] {
      InitialOk();
    } else {
      RunKeeps(actions[..|actions| - 1]);
      StepKeeps(Run(actions[..|actions| - 1]), actions[|actions| - 1]);
    }
  }

  lemma InitialOk()
    ensures Inv(INITIAL)
  {
  }

  lemma {:induction false} RunExtends(actions: seq<Action>, t: nat)
    requires t <= |actions|
    ensures Extends(Run(actions[..t]), Run(actions))
    decreases |actions| - t
  {
    if t == |actions| {
      assert actions[..t] == actions;
    } else {
      var front := actions[..|actions| - 1];
      assert front[..t] == actions[..t];
      RunExtends(front, t);
      RunKeeps(front);
      StepKeeps(Run(front), actions[|actions| - 1]);
    }
  }

  /******* The promises *******/

  /** Once stored, the command and the request it was built for never change, in any run. */
  lemma StoredCommandIsFinal(actions: seq<Action>, t: nat, k: VaultKey)
    requires t <= |actions| && k in Run(actions[..t]).vault
    ensures k in Run(actions).vault
    ensures Run(actions).vault[k].command == Run(actions[..t]).vault[k].command
    ensures Run(actions).vault[k].request == Run(actions[..t]).vault[k].request
  {
    RunExtends(actions, t);
  }

  /** Every attempt for one person and command id sends the very same command: the stored one. */
  lemma EveryAttemptSendsStored(actions: seq<Action>, t: Attempt)
    requires t in Run(actions).sent
    ensures var k := KeyOf(t.op.actor, t.command.id);
      && k in Run(actions).vault && Run(actions).vault[k].command == t.command
      && forall u :: u in Run(actions).sent && KeyOf(u.op.actor, u.command.id) == k ==> u.command == t.command
  {
    RunKeeps(actions);
    var s := Run(actions);
    assert SentOk(s, t);
    forall u | u in s.sent && KeyOf(u.op.actor, u.command.id) == KeyOf(t.op.actor, t.command.id)
      ensures u.command == t.command
    {
      assert SentOk(s, u);
    }
  }

  /** A submission whose request differs from the one stored under its id, at any moment of a run,
      is never sent to the ledger, neither before nor after that moment. */
  lemma OtherRequestNeverExecutes(actions: seq<Action>, moment: nat, op: Operation, c: Command)
    requires moment <= |actions| && op.Submit? && KeyOf(op.actor, op.id) in Run(actions[..moment]).vault
    requires Run(actions[..moment]).vault[KeyOf(op.actor, op.id)].request != op.request
    ensures Attempt(op, c) !in Run(actions).sent
  {
    RunKeeps(actions);
    StoredCommandIsFinal(actions, moment, KeyOf(op.actor, op.id));
    assert forall t :: t in Run(actions).sent ==> SentOk(Run(actions), t);
  }

  /** So every submission that was sent is the request its stored command was built for. */
  lemma SentRequestIsStored(actions: seq<Action>, t: Attempt)
    requires t in Run(actions).sent && t.op.Submit?
    ensures var k := KeyOf(t.op.actor, t.op.id);
      k in Run(actions).vault && Run(actions).vault[k].request == t.op.request
  {
    RunKeeps(actions);
    assert SentOk(Run(actions), t);
  }

  /** All committed receipts for one command id in an organisation name the same transaction and
      result, and the command that took effect is the stored command of the actor on the record. */
  lemma ReceiptsAgree(actions: seq<Action>, i: nat, j: nat)
    requires i < |Run(actions).receipts| && j < |Run(actions).receipts|
    requires Run(actions).receipts[i].actor.org == Run(actions).receipts[j].actor.org
    requires Run(actions).receipts[i].id == Run(actions).receipts[j].id
    ensures var r, q := Run(actions).receipts[i], Run(actions).receipts[j];
      r.actor == q.actor && r.result == q.result && r.tx == q.tx
    ensures var s, r := Run(actions), Run(actions).receipts[i];
      && LedgerKey(r.actor.org, r.id) in s.ledger && KeyOf(r.actor, r.id) in s.vault
      && s.ledger[LedgerKey(r.actor.org, r.id)].command == s.vault[KeyOf(r.actor, r.id)].command
  {
    RunKeeps(actions);
    var s := Run(actions);
    var r := s.receipts[i];
    assert ReceiptOk(s, r) && ReceiptOk(s, s.receipts[j]);
    var k := LedgerKey(r.actor.org, r.id);
    assert RecordOk(s, k, s.ledger[k]);
    var op :| Attempt(op, s.ledger[k].command) in s.sent && op.actor == s.ledger[k].actor;
    assert SentOk(s, Attempt(op, s.ledger[k].command));
  }

  /******* What becomes of an operation *******/

  /** Nothing here moves the process itself: other processes, the ledger and refreshes. */
  ghost predicate Elsewhere(w: nat, actions: seq<Action>) {
    forall a :: a in actions ==> a.Commit? || a.Refresh? || a.w != w
  }

  lemma StepElsewhere(s: State, a: Action, w: nat)
    requires a.Commit? || a.Refresh? || a.w != w
    ensures WorkerAt(Step(s, a), w) == WorkerAt(s, w)
  {
  }

  lemma {:induction false} RunElsewhere(actions: seq<Action>, more: seq<Action>, w: nat)
    requires Elsewhere(w, more)
    ensures WorkerAt(Run(actions + more), w) == WorkerAt(Run(actions), w)
    ensures Extends(Run(actions), Run(actions + more))
    decreases |more|
  {
    hide Step, Extends, Inv;
    if more == [] {
      assert actions + more == actions;
      ExtendsReflexive(Run(actions));
    } else {
      var front, a := more[..|more| - 1], more[|more| - 1];
      RunElsewhere(actions, front, w);
      assert (actions + more)[..|actions + more| - 1] == actions + front;
      RunKeeps(actions + front);
      StepKeeps(Run(actions + front), a);
      StepElsewhere(Run(actions + front), a, w);
      ExtendsTransitive(Run(actions), Run(actions + front), Run(actions + more));
    }
  }

  lemma RunStep(actions: seq<Action>, a: Action)
    ensures Run(actions + [a]) == Step(Run(actions), a)
    ensures Extends(Run(actions), Run(actions + [a]))
  {
    assert (actions + [a])[..|actions|] == actions;
    RunKeeps(actions);
    StepKeeps(Run(actions), a);
  }

  /** The vault holds a command under the operation's id, built for the operation's request. */
  ghost predicate Known(s: State, op: Operation) {
    KeyOf(op.actor, op.id) in s.vault && (op.Submit? ==> s.vault[KeyOf(op.actor, op.id)].request == op.request)
  }

  lemma KnownLasts(s: State, s': State, op: Operation)
    requires Known(s, op) && Extends(s, s')
    ensures Known(s', op)
    ensures s'.vault[KeyOf(op.actor, op.id)].command == s.vault[KeyOf(op.actor, op.id)].command
  {
  }

  /** An idle process admits an operation as long as fewer than 32 wait, behind those waiting. */
  lemma Admitted(s: State, w: nat, op: Operation)
    requires WorkerAt(s, w).stage.Idle? && |WorkerAt(s, w).queue| < 32
    ensures WorkerAt(Step(s, Enqueue(w, op)), w) == Worker(WorkerAt(s, w).queue + [op], Idle)
  {
  }

  lemma KnownIsLoaded(s: State, w: nat, op: Operation, rest: seq<Operation>, kind: string, input: string)
    requires WorkerAt(s, w) == Worker([op] + rest, Idle) && Known(s, op)
    ensures WorkerAt(Step(s, Begin(w, kind, input)), w) == Worker(rest, Loaded(op, s.vault[KeyOf(op.actor, op.id)]))
  {
    assert ([op] + rest)[1..] == rest;
  }

  lemma LoadedIsSent(s: State, w: nat, op: Operation, stored: Stored)
    requires WorkerAt(s, w).stage == Loaded(op, stored)
    ensures WorkerAt(Step(s, Send(w)), w) == WorkerAt(s, w).(stage := Waiting(op, stored))
    ensures Attempt(op, stored.command) in Step(s, Send(w)).sent
  {
  }

  /** The operation at the head of the queue, a submission repeated with its request or a retry of a
      stored command, is executed: the process starts it, sends the stored command and waits, whatever
      others do in between. */
  lemma RepeatIsExecuted(actions: seq<Action>, w: nat, queue: seq<Operation>, op: Operation, m1: seq<Action>,
                         kind: string, input: string, m2: seq<Action>)
    requires WorkerAt(Run(actions), w) == Worker(queue, Idle) && |queue| < 32
    requires Elsewhere(w, m1) && Elsewhere(w, m2) && Known(Run(actions), (queue + [op])[0])
    ensures var head, rest := (queue + [op])[0], (queue + [op])[1..];
      var s, s' := Run(actions), Run(actions + [Enqueue(w, op)] + m1 + [Begin(w, kind, input)] + m2 + [Send(w)]);
      && Attempt(head, s.vault[KeyOf(head.actor, head.id)].command) in s'.sent
      && WorkerAt(s', w).queue == rest && WorkerAt(s', w).stage.Waiting? && WorkerAt(s', w).stage.op == head
  {
    hide Run, Step, Extends, WorkerAt, Known;
    var ops := queue + [op];
    var head, rest := ops[0], ops[1..];
    assert ops == [head] + rest;
    var a1 := actions + [Enqueue(w, op)];
    RunStep(actions, Enqueue(w, op));
    Admitted(Run(actions), w, op);
    RunElsewhere(a1, m1, w);
    KnownLasts(Run(actions), Run(a1), head);
    KnownLasts(Run(a1), Run(a1 + m1), head);
    var a2 := a1 + m1 + [Begin(w, kind, input)];
    RunStep(a1 + m1, Begin(w, kind, input));
    KnownIsLoaded(Run(a1 + m1), w, head, rest, kind, input);
    RunElsewhere(a2, m2, w);
    RunStep(a2 + m2, Send(w));
    LoadedIsSent(Run(a2 + m2), w, head, Run(a1 + m1).vault[KeyOf(head.actor, head.id)]);
  }

  /** A crash loses the queue and the running operation, but a stored command is executed when its
      submission is repeated, or retried, afterwards. */
  lemma CrashIsRecoverable(actions: seq<Action>, w: nat, op: Operation, m1: seq<Action>, kind: string, input: string,
                           m2: seq<Action>)
    requires Known(Run(actions), op) && Elsewhere(w, m1) && Elsewhere(w, m2)
    ensures var all := actions + [Crash(w)] + [Enqueue(w, op)] + m1 + [Begin(w, kind, input)] + m2 + [Send(w)];
      && Attempt(op, Run(actions).vault[KeyOf(op.actor, op.id)].command) in Run(all).sent
      && WorkerAt(Run(all), w).queue == [] && WorkerAt(Run(all), w).stage.Waiting?
  {
    RunStep(actions, Crash(w));
    KnownLasts(Run(actions), Run(actions + [Crash(w)]), op);
    assert WorkerAt(Run(actions + [Crash(w)]), w) == Worker([], Idle);
    assert ([] + [op])[0] == op && ([] + [op])[1..] == [];
    hide Run, Known, Elsewhere, Extends;
    RepeatIsExecuted(actions + [Crash(w)], w, [], op, m1, kind, input, m2);
  }

  /** A submission under a new id: what is built is stored as it is, with its request, unless some
      other process stored a command under the id in the meantime; then nothing is. */
  lemma FirstIsStored(actions: seq<Action>, w: nat, op: Operation, rest: seq<Operation>, kind: string, input: string,
                      m: seq<Action>)
    requires WorkerAt(Run(actions), w) == Worker([op] + rest, Idle) && op.Submit? && Elsewhere(w, m)
    requires KeyOf(op.actor, op.id) !in Run(actions).vault
    ensures var k := KeyOf(op.actor, op.id);
      var before := Run(actions + [Begin(w, kind, input)] + m);
      var s' := Run(actions + [Begin(w, kind, input)] + m + [Insert(w)]);
      if k in before.vault then s'.vault == before.vault && WorkerAt(s', w) == Worker(rest, Idle)
      else
        var stored := Stored(op.request, Command(op.id, kind, input), Pending);
        s'.vault == before.vault[k := stored] && WorkerAt(s', w) == Worker(rest, Loaded(op, stored))
  {
    assert ([op] + rest)[1..] == rest;
    var a1 := actions + [Begin(w, kind, input)];
    RunStep(actions, Begin(w, kind, input));
    RunElsewhere(a1, m, w);
    RunStep(a1 + m, Insert(w));
    hide Run, Extends;
  }

  /** A submission that repeats an id with another request, and a retry of an unknown id, are
      refused: the process turns to the next operation, and nothing is stored, sent or answered. */
  lemma UnknownIsRefused(s: State, w: nat, op: Operation, rest: seq<Operation>, kind: string, input: string)
    requires WorkerAt(s, w) == Worker([op] + rest, Idle) && !Known(s, op)
    requires op.Submit? ==> KeyOf(op.actor, op.id) in s.vault
    ensures Step(s, Begin(w, kind, input)) == s.(workers := s.workers[w := Worker(rest, Idle)])
  {
    assert ([op] + rest)[1..] == rest;
  }

  /** A process that learns of a commit answers with the receipt as soon as its projection holds the
      matching record: the record's result and position, for the operation it was running. */
  lemma CommitIsReceipted(actions: seq<Action>, w: nat, op: Operation, r: Record)
    requires WorkerAt(Run(actions), w).stage.Waiting? && WorkerAt(Run(actions), w).stage.op == op
    requires Recorded(Run(actions), op.actor, op.id, r) && r.tx < ViewOf(Run(actions), w)
    ensures var s, s' := Run(actions), Run(actions + [Answered(w, Committed)]);
      && s'.receipts == s.receipts + [Receipt(w, op.actor, op.id, r.result, r.tx)]
      && s'.vault == s.vault && s'.ledger == s.ledger && s'.sent == s.sent
      && WorkerAt(s', w) == Worker(WorkerAt(s, w).queue, Idle)
  {
    RunKeeps(actions);
    WorkerAtOk(Run(actions), w);
    RunStep(actions, Answered(w, Committed));
    hide Run, Inv, Extends;
  }

  /** The part of the ledger that the process has projected holds a record of another actor or of
      another command under the id. */
  ghost predicate Foreign(s: State, w: nat, a: Actor, id: Id) {
    var k := LedgerKey(a.org, id);
    k in s.ledger && s.ledger[k].tx < ViewOf(s, w) && !Recorded(s, a, id, s.ledger[k])
  }

  /** It holds no record under the id. */
  ghost predicate Unseen(s: State, w: nat, a: Actor, id: Id) {
    var k := LedgerKey(a.org, id);
    k in s.ledger ==> s.ledger[k].tx >= ViewOf(s, w)
  }

  lemma LookupExactly(s: State, w: nat, op: Operation, stored: Stored)
    requires CopyOk(s, op, stored) && stored.command.id == op.id
    ensures var found := CommittedCommand(s, w, op.actor, stored.command);
      (found.Absent? <==> Unseen(s, w, op.actor, op.id)) && (found.Mismatch? <==> Foreign(s, w, op.actor, op.id))
  {
  }

  /** What every other answer leaves behind: only the hint stored under the command's id changes,
      and no receipt is given. A definitive error and a foreign record are stored as rejections; an
      answer that says nothing definite takes back a rejection the process had read. */
  lemma AnswerIsTracked(actions: seq<Action>, w: nat, answer: Answer)
    requires WorkerAt(Run(actions), w).stage.Waiting?
    requires var op := WorkerAt(Run(actions), w).stage.op;
      answer.Committed? ==> Foreign(Run(actions), w, op.actor, op.id) || Unseen(Run(actions), w, op.actor, op.id)
    ensures var s, s' := Run(actions), Run(actions + [Answered(w, answer)]);
      var op, read := WorkerAt(s, w).stage.op, WorkerAt(s, w).stage.stored.tracking;
      var k := KeyOf(op.actor, op.id);
      && s'.vault.Keys == s.vault.Keys && k in s.vault
      && (forall j :: j in s.vault && j != k ==> s'.vault[j] == s.vault[j])
      && s'.vault[k].request == s.vault[k].request && s'.vault[k].command == s.vault[k].command
      && s'.vault[k].tracking == (
           if answer.Definitive? then Rejected(answer.code)
           else if answer.StillPending? then Pending
           else if answer.Committed? && Foreign(s, w, op.actor, op.id) then Rejected("IDEMPOTENCY_CONFLICT")
           else if read.Rejected? then Pending
           else s.vault[k].tracking)
      && s'.receipts == s.receipts && s'.ledger == s.ledger && s'.sent == s.sent
      && WorkerAt(s', w) == Worker(WorkerAt(s, w).queue, Idle)
  {
    RunKeeps(actions);
    var s := Run(actions);
    WorkerAtOk(s, w);
    WaitingOk(s, w);
    RunStep(actions, Answered(w, answer));
    LookupExactly(s, w, WorkerAt(s, w).stage.op, WorkerAt(s, w).stage.stored);
    AnswerTracks(s, w, answer);
    hide Run, Step, Inv, Extends, CommittedCommand, Unseen, Foreign, WorkerOk;
  }

  lemma AnswerTracks(s: State, w: nat, answer: Answer)
    requires Inv(s) && WorkerAt(s, w).stage.Waiting?
    requires var op, stored := WorkerAt(s, w).stage.op, WorkerAt(s, w).stage.stored;
      answer.Committed? ==> !CommittedCommand(s, w, op.actor, stored.command).Match?
    ensures var s' := Step(s, Answered(w, answer));
      var op, stored := WorkerAt(s, w).stage.op, WorkerAt(s, w).stage.stored;
      var k, found := KeyOf(op.actor, op.id), CommittedCommand(s, w, op.actor, stored.command);
      && k in s.vault && s.vault[k].request == stored.request && s.vault[k].command == stored.command
      && s'.vault == s.vault[k := s.vault[k].(tracking :=
           if answer.Definitive? then Rejected(answer.code)
           else if answer.StillPending? then Pending
           else if answer.Committed? && found.Mismatch? then Rejected("IDEMPOTENCY_CONFLICT")
           else if stored.tracking.Rejected? then Pending
           else s.vault[k].tracking)]
      && s'.receipts == s.receipts && s'.ledger == s.ledger && s'.sent == s.sent
      && WorkerAt(s', w) == Worker(WorkerAt(s, w).queue, Idle)
  {
    WorkerAtOk(s, w);
    hide Inv, CommittedCommand;
  }

  /** So a submission repeated after its answer was lost is executed and answered: once the command
      is in the projection, committed before or only by this attempt, the caller gets its receipt. */
  lemma RepeatIsAnswered(actions: seq<Action>, w: nat, op: Operation, m1: seq<Action>, kind: string, input: string,
                         m2: seq<Action>, m3: seq<Action>, r: Record)
    requires WorkerAt(Run(actions), w) == Worker([], Idle) && Known(Run(actions), op)
    requires Elsewhere(w, m1) && Elsewhere(w, m2) && Elsewhere(w, m3)
    requires var asked := actions + [Enqueue(w, op)] + m1 + [Begin(w, kind, input)] + m2 + [Send(w)] + m3;
      Recorded(Run(asked), op.actor, op.id, r) && r.tx < ViewOf(Run(asked), w)
    ensures var asked := actions + [Enqueue(w, op)] + m1 + [Begin(w, kind, input)] + m2 + [Send(w)] + m3;
      Run(asked + [Answered(w, Committed)]).receipts ==
        Run(asked).receipts + [Receipt(w, op.actor, op.id, r.result, r.tx)]
  {
    hide Run, Recorded, Known, Elsewhere;
    var sent := actions + [Enqueue(w, op)] + m1 + [Begin(w, kind, input)] + m2 + [Send(w)];
    assert ([] + [op])[0] == op;
    RepeatIsExecuted(actions, w, [], op, m1, kind, input, m2);
    RunElsewhere(sent, m3, w);
    CommitIsReceipted(sent + m3, w, op, r);
  }

  /******* What a caller is told *******/

  /** What the process's own outbox of attempts says about a command. */
  datatype Observation = ObservedPending | ObservedRejected(code: string) | ObservedCancelled(code: string)

  datatype Status =
    | NotFound
    | Conflict
    | IsCommitted(result: string, tx: nat)
    | IsPending
    | IsRejected(code: string)
    | IsCancelled(code: string)

  /** describeCommand at a process: its projection first, then the outbox, then the stored hint. */
  function Describe(s: State, w: nat, a: Actor, id: Id, observed: Option<Observation>): Status {
    var k := KeyOf(a, id);
    if k !in s.vault then NotFound
    else
      match CommittedCommand(s, w, a, s.vault[k].command)
      case Match(r) => IsCommitted(r.result, r.tx)
      case Mismatch => Conflict
      case Absent =>
        (match observed
         case Some(ObservedPending) => IsPending
         case Some(ObservedRejected(code)) => IsRejected(code)
         case Some(ObservedCancelled(code)) => IsCancelled(code)
         case None => (match s.vault[k].tracking case Pending => IsPending case Rejected(code) => IsRejected(code)))
  }

  /** Every description: what the projected ledger says comes first, then what the process's outbox
      observed, and the stored hint only when there is neither. */
  lemma DescribedExactly(actions: seq<Action>, w: nat, a: Actor, id: Id, observed: Option<Observation>)
    ensures var s, status := Run(actions), Describe(Run(actions), w, a, id, observed);
      if KeyOf(a, id) !in s.vault then status == NotFound
      else if Foreign(s, w, a, id) then status == Conflict
      else if !Unseen(s, w, a, id) then
        exists r :: Recorded(s, a, id, r) && r.tx < ViewOf(s, w) && status == IsCommitted(r.result, r.tx)
      else
        && (observed == Some(ObservedPending) ==> status == IsPending)
        && (forall code :: observed == Some(ObservedRejected(code)) ==> status == IsRejected(code))
        && (forall code :: observed == Some(ObservedCancelled(code)) ==> status == IsCancelled(code))
        && (observed == None && s.vault[KeyOf(a, id)].tracking == Pending ==> status == IsPending)
        && (forall code :: observed == None && s.vault[KeyOf(a, id)].tracking == Rejected(code) ==>
              status == IsRejected(code))
  {
    RunKeeps(actions);
    CommittedExactly(actions, w, a, id, observed);
    var s, k := Run(actions), LedgerKey(a.org, id);
    if KeyOf(a, id) in s.vault && k in s.ledger && s.ledger[k].tx < ViewOf(s, w) && !Foreign(s, w, a, id) {
      assert Recorded(s, a, id, s.ledger[k]);
    }
  }

  /** The ledger holds the record of the stored command. */
  ghost predicate Recorded(s: State, a: Actor, id: Id, r: Record) {
    && KeyOf(a, id) in s.vault && LedgerKey(a.org, id) in s.ledger && s.ledger[LedgerKey(a.org, id)] == r
    && r.actor == a && r.command == s.vault[KeyOf(a, id)].command
  }

  lemma {:induction false} RecordedLasts(actions: seq<Action>, t: nat, a: Actor, id: Id, r: Record)
    requires t <= |actions| && Recorded(Run(actions[..t]), a, id, r)
    ensures Recorded(Run(actions), a, id, r)
  {
    RunExtends(actions, t);
  }

  /** Exactly when a command is described as committed: its record is in the ledger, and in the part
      that the describing process has projected. */
  lemma CommittedExactly(actions: seq<Action>, w: nat, a: Actor, id: Id, observed: Option<Observation>)
    ensures var s := Run(actions);
      Describe(s, w, a, id, observed).IsCommitted? <==>
        exists r :: Recorded(s, a, id, r) && r.tx < ViewOf(s, w)
    ensures forall r :: Recorded(Run(actions), a, id, r) && r.tx < ViewOf(Run(actions), w) ==>
      Describe(Run(actions), w, a, id, observed) == IsCommitted(r.result, r.tx)
  {
    RunKeeps(actions);
    var s := Run(actions);
    var k := LedgerKey(a.org, id);
    if KeyOf(a, id) in s.vault && k in s.ledger && s.ledger[k].actor == a
       && s.ledger[k].command == s.vault[KeyOf(a, id)].command {
      assert Recorded(s, a, id, s.ledger[k]);
    }
  }

  /** A rejection hint never hides a commit that a process has projected: once its projection holds
      the matching record, whatever hints are stored before or after, that process always says
      committed, with the record's result. */
  lemma HintNeverMasksCommit(actions: seq<Action>, t: nat, w: nat, a: Actor, id: Id, r: Record,
                             observed: Option<Observation>)
    requires t <= |actions| && Recorded(Run(actions[..t]), a, id, r) && r.tx < ViewOf(Run(actions[..t]), w)
    ensures Describe(Run(actions), w, a, id, observed) == IsCommitted(r.result, r.tx)
  {
    RecordedLasts(actions, t, a, id, r);
    RunExtends(actions, t);
    CommittedExactly(actions, w, a, id, observed);
  }

  /** Every process says committed from its first refresh on that reached a tip read after the commit.
      The single-command query makes such a refresh itself. */
  lemma RefreshShowsCommit(actions: seq<Action>, t: nat, u: nat, w: nat, height: nat, a: Actor, id: Id, r: Record,
                           observed: Option<Observation>)
    requires t <= u < |actions| && Recorded(Run(actions[..t]), a, id, r)
    requires actions[u] == Refresh(w, height)
    requires |Run(actions[..t]).ledger| <= height <= |Run(actions[..u]).ledger|
    ensures Describe(Run(actions), w, a, id, observed) == IsCommitted(r.result, r.tx)
  {
    hide Recorded, Describe, Run, Step, ViewOf;
    RecordedIsOrdered(actions[..t], a, id, r);
    var after := actions[..u + 1];
    assert after[..|after| - 1] == actions[..u] && after[..t] == actions[..t];
    RecordedLasts(after, t, a, id, r);
    RefreshReaches(after, w, height);
    HintNeverMasksCommit(actions, u + 1, w, a, id, r, observed);
  }

  lemma RefreshReaches(actions: seq<Action>, w: nat, height: nat)
    requires actions != [] && actions[|actions| - 1] == Refresh(w, height)
    requires height <= |Run(actions[..|actions| - 1]).ledger|
    ensures ViewOf(Run(actions), w) >= height
  {
  }

  lemma RecordedIsOrdered(actions: seq<Action>, a: Actor, id: Id, r: Record)
    requires Recorded(Run(actions), a, id, r)
    ensures r.tx < |Run(actions).ledger|
  {
    RunKeeps(actions);
    hide WorkerOk, SentOk, ReceiptOk, Ordered;
    assert RecordOk(Run(actions), LedgerKey(a.org, id), r);
  }

  /** Whoever got a receipt is told the same outcome by every later description of the same process,
      and of every process whose projection has reached the transaction. */
  lemma ReceiptIsLasting(actions: seq<Action>, t: nat, i: nat, w: nat, observed: Option<Observation>)
    requires t <= |actions| && i < |Run(actions[..t]).receipts|
    requires var r := Run(actions[..t]).receipts[i]; w == r.giver || r.tx < ViewOf(Run(actions), w)
    ensures var r := Run(actions[..t]).receipts[i];
      Describe(Run(actions), w, r.actor, r.id, observed) == IsCommitted(r.result, r.tx)
  {
    RunKeeps(actions[..t]);
    RunExtends(actions, t);
    RunKeeps(actions);
    var s, r := Run(actions), Run(actions[..t]).receipts[i];
    assert s.receipts[i] == r;
    ReceiptsAgree(actions, i, i);
    assert ReceiptOk(s, r);
    CommittedExactly(actions, w, r.actor, r.id, observed);
    assert Recorded(s, r.actor, r.id, s.ledger[LedgerKey(r.actor.org, r.id)]);
  }

  /** A process answered a command as committed; it describes it so, and another process, whose
      projection lags, describes it as rejected. */
  ghost predicate Misleads(s: State, a: Actor, id: Id) {
    && (exists r :: r in s.receipts && r.actor == a && r.id == id)
    && KeyOf(a, id) in s.vault && s.vault[KeyOf(a, id)].tracking.Rejected?
    && Describe(s, 0, a, id, None).IsCommitted? && Describe(s, 1, a, id, None).IsRejected?
  }

  /** The stored hint alone is no verdict, and a lagging projection does not correct it: a rejected
      attempt commits late, and a retry reports the commit. */
  lemma HintCanBeWrong(a: Actor, id: Id, request: Request)
    ensures exists actions :: Misleads(Run(actions), a, id)
  {
    hide Misleads;
    var actions := LateCommit(a, id, request);
  }

  lemma LateCommit(a: Actor, id: Id, request: Request) returns (actions: seq<Action>)
    ensures Misleads(Run(actions), a, id)
  {
    var c := Command(id, "propose", "body");
    var rejected := Stored(request, c, Rejected("NOT_READY"));
    hide Run, Step, Misleads;
    var sent := SendFirst(a, id, request, c);
    actions := RejectThenCommit(a, id, request, c, sent);
    actions := ReportCommit(a, id, c, Retry(a, id), rejected, actions, Run(actions));
  }

  /** A submission is stored and sent. */
  lemma SendFirst(a: Actor, id: Id, request: Request, c: Command) returns (actions: seq<Action>)
    requires c == Command(id, "propose", "body")
    ensures var op, pending := Submit(a, id, request), Stored(request, c, Pending);
      Run(actions) == State(map[KeyOf(a, id) := pending], map[], {Attempt(op, c)},
                            map[0 := Worker([], Waiting(op, pending))], map[], [])
  {
    hide Run;
    var op, pending := Submit(a, id, request), Stored(request, c, Pending);
    RunEmpty();
    assert [] + [op] == [op] && [op][1..] == [];
    var s1 := INITIAL.(workers := map[0 := Worker([op], Idle)]);
    actions := Then([], Enqueue(0, op), INITIAL, s1);
    var s2 := s1.(workers := map[0 := Worker([], Built(op, c))]);
    actions := Then(actions, Begin(0, "propose", "body"), s1, s2);
    var s3 := s2.(vault := map[KeyOf(a, id) := pending], workers := map[0 := Worker([], Loaded(op, pending))]);
    actions := Then(actions, Insert(0), s2, s3);
    var s4 := s3.(sent := {Attempt(op, c)}, workers := map[0 := Worker([], Waiting(op, pending))]);
    actions := Then(actions, Send(0), s3, s4);
  }

  /** It is answered with an error, and the ledger orders it afterwards. */
  lemma RejectThenCommit(a: Actor, id: Id, request: Request, c: Command, actions: seq<Action>)
      returns (all: seq<Action>)
    requires var op, pending := Submit(a, id, request), Stored(request, c, Pending);
      Run(actions) == State(map[KeyOf(a, id) := pending], map[], {Attempt(op, c)},
                            map[0 := Worker([], Waiting(op, pending))], map[], [])
    requires c.id == id
    ensures Run(all) == State(map[KeyOf(a, id) := Stored(request, c, Rejected("NOT_READY"))],
                              map[LedgerKey(a.org, id) := Record(a, c, "done", 0)],
                              {Attempt(Submit(a, id, request), c)}, map[0 := Worker([], Idle)], map[], [])
  {
    hide Run;
    var s := Run(actions);
    var rejected := Stored(request, c, Rejected("NOT_READY"));
    var s1 := s.(vault := map[KeyOf(a, id) := rejected], workers := map[0 := Worker([], Idle)]);
    all := Then(actions, Answered(0, Definitive("NOT_READY")), s, s1);
    var s2 := s1.(ledger := map[LedgerKey(a.org, id) := Record(a, c, "done", 0)]);
    all := Then(all, Commit(Attempt(Submit(a, id, request), c), "done"), s1, s2);
  }

  /** From there a retry is sent as well. */
  lemma SendAgain(a: Actor, id: Id, rejected: Stored, actions: seq<Action>, s: State) returns (all: seq<Action>)
    requires Run(actions) == s && KeyOf(a, id) in s.vault && s.vault[KeyOf(a, id)] == rejected
    requires s.workers == map[0 := Worker([], Idle)]
    ensures var again := Retry(a, id);
      Run(all) == s.(sent := s.sent + {Attempt(again, rejected.command)},
                     workers := map[0 := Worker([], Waiting(again, rejected))])
  {
    hide Run;
    var again := Retry(a, id);
    assert [] + [again] == [again] && [again][1..] == [];
    var s1 := s.(workers := map[0 := Worker([again], Idle)]);
    all := Then(actions, Enqueue(0, again), s, s1);
    var s2 := s1.(workers := map[0 := Worker([], Loaded(again, rejected))]);
    all := Then(all, Begin(0, "", ""), s1, s2);
    var s3 := s2.(sent := s.sent + {Attempt(again, rejected.command)},
                  workers := map[0 := Worker([], Waiting(again, rejected))]);
    all := Then(all, Send(0), s2, s3);
  }

  /** It brings in the commit and reports it. */
  lemma ReportCommit(a: Actor, id: Id, c: Command, again: Operation, rejected: Stored, actions: seq<Action>, s: State)
      returns (all: seq<Action>)
    requires Run(actions) == s && again == Retry(a, id) && c.id == id
    requires rejected.command == c && rejected.tracking.Rejected?
    requires s.vault == map[KeyOf(a, id) := rejected] && s.workers == map[0 := Worker([], Idle)] && s.views == map[]
    requires s.ledger == map[LedgerKey(a.org, id) := Record(a, c, "done", 0)] && s.receipts == []
    ensures Misleads(Run(all), a, id)
  {
    hide Run, Misleads;
    var receipt := Receipt(0, a, id, "done", 0);
    assert [] + [receipt] == [receipt];
    all := SendAgain(a, id, rejected, actions, s);
    var s3 := Run(all);
    var s4 := s3.(views := map[0 := 1]);
    all := Then(all, Refresh(0, 1), s3, s4);
    var s5 := s4.(workers := map[0 := Worker([], Idle)], receipts := [receipt]);
    all := Then(all, Answered(0, Committed), s4, s5);
    ReportMisleads(a, id, c, rejected, s5);
  }

  lemma ReportMisleads(a: Actor, id: Id, c: Command, rejected: Stored, s: State)
    requires c.id == id && rejected.command == c && rejected.tracking.Rejected?
    requires s.vault == map[KeyOf(a, id) := rejected] && s.views == map[0 := 1]
    requires s.ledger == map[LedgerKey(a.org, id) := Record(a, c, "done", 0)]
    requires s.receipts == [Receipt(0, a, id, "done", 0)]
    ensures Misleads(s, a, id)
  {
    assert s.receipts[0] in s.receipts;
  }

  lemma RunEmpty()
    ensures Run([]) == INITIAL
  {
  }

  lemma Then(actions: seq<Action>, a: Action, s: State, s': State) returns (r: seq<Action>)
    requires Run(actions) == s && Step(s, a) == s'
    ensures Run(r) == s'
  {
    r := actions + [a];
    assert r[..|actions|] == actions;
  }
}
