/** The signing service's append-only evidence log (infra/fabric/signing-service.ts: openAuditLog and
    the acknowledge order of serveSocket): short writes, failing writes and flushes, torn records,
    reopening, killed processes and power loss. One service process writes a log at a time. */
module AuditLog {

  newtype byte = x: int | 0 <= x < 256

  const NEWLINE: byte := '\n' as byte

  predicate NewlineFree(s: seq<byte>) {
    forall i :: 0 <= i < |s| ==> s[i] != NEWLINE
  }

  /** A record as JSON text, which never holds a raw newline. */
  type Text = s: seq<byte> | NewlineFree(s)

  /** What the operating system answers to one write: a number of bytes, or an error. */
  datatype Write = Wrote(n: nat) | Fails

  datatype Io = Io(writes: seq<Write>, sync: bool)

  /** The file as any reader sees it, and how much of it a power loss cannot take back. */
  datatype Disk = Disk(file: seq<byte>, flushed: nat)

  datatype Memory = Down | Up(closed: bool, torn: bool)

  /******* Lines *******/

  /** The terminated lines of a file, without their newlines. */
  function Records(file: seq<byte>): seq<seq<byte>> {
    if file == [] then []
    else
      var front, last := file[..|file| - 1], file[|file| - 1];
      if last == NEWLINE then Records(front) + [Fragment(front)] else Records(front)
  }

  /** What follows the last newline. */
  function Fragment(file: seq<byte>): seq<byte> {
    if file == [] then []
    else
      var front, last := file[..|file| - 1], file[|file| - 1];
      if last == NEWLINE then [] else Fragment(front) + [last]
  }

  function Lines(records: seq<seq<byte>>): seq<byte> {
    if records == [] then []
    else Lines(records[..|records| - 1]) + records[|records| - 1] + [NEWLINE]
  }

  lemma {:induction false} RecordsRejoin(file: seq<byte>)
    ensures file == Lines(Records(file)) + Fragment(file)
    ensures NewlineFree(Fragment(file)) && forall r :: r in Records(file) ==> NewlineFree(r)
  {
    if file != [] {
      var front, last := file[..|file| - 1], file[|file| - 1];
      RecordsRejoin(front);
      assert file == front + [last];
      if last == NEWLINE {
        assert Records(file)[..|Records(file)| - 1] == Records(front);
      }
    }
  }

  lemma {:induction false} AppendText(file: seq<byte>, s: seq<byte>)
    requires NewlineFree(s)
    ensures Records(file + s) == Records(file) && Fragment(file + s) == Fragment(file) + s
  {
    if s == [] {
      assert file + s == file;
    } else {
      var front := s[..|s| - 1];
      AppendText(file, front);
      assert (file + s)[..|file + s| - 1] == file + front;
      assert Fragment(file) + front + [s[|s| - 1]] == Fragment(file) + s;
    }
  }

  lemma AppendLine(file: seq<byte>, text: Text)
    ensures Records(file + text + [NEWLINE]) == Records(file) + [Fragment(file) + text]
    ensures Fragment(file + text + [NEWLINE]) == []
  {
    AppendText(file, text);
    assert (file + text + [NEWLINE])[..|file| + |text|] == file + text;
  }

  /** Cutting a file keeps its first lines whole; the new fragment begins the next line or was there. */
  lemma {:induction false} CutFile(file: seq<byte>, n: nat)
    requires n <= |file|
    ensures Records(file[..n]) <= Records(file)
    ensures Fragment(file[..n]) == [] || Fragment(file[..n]) <= Fragment(file)
         || exists r :: r in Records(file) && Fragment(file[..n]) <= r
    decreases |file|
  {
    if n == |file| {
      assert file[..n] == file;
    } else {
      var front, last := file[..|file| - 1], file[|file| - 1];
      assert front[..n] == file[..n];
      CutFile(front, n);
      if last == NEWLINE {
        assert Fragment(front) in Records(file);
        assert forall r :: r in Records(front) ==> r in Records(file);
      }
    }
  }

  /** The tail check of the open: an empty file, or one whose last byte is a newline. */
  predicate TailOk(file: seq<byte>) {
    file == [] || file[|file| - 1] == NEWLINE
  }

  /******* One record *******/

  /** How many bytes of a line land, given what the writes answer. */
  function Landed(length: nat, writes: seq<Write>, done: nat): (k: nat)
    requires done <= length
    ensures done <= k <= length
    decreases |writes|
  {
    if done == length || writes == [] || writes[0].Fails? then done
    else
      var n := if writes[0].n <= length - done then writes[0].n else length - done;
      if n == 0 then done else Landed(length, writes[1..], done + n)
  }

  function Append(d: Disk, m: Memory, text: Text, io: Io): (Disk, Memory, bool) {
    if m.Down? || m.closed || m.torn then (d, m, false)
    else
      var line := text + [NEWLINE];
      var k := Landed(|line|, io.writes, 0);
      var file := d.file + line[..k];
      if k < |line| then (Disk(file, d.flushed), m.(torn := k > 0), false)
      else if !io.sync then (Disk(file, d.flushed), m, false)
      else (Disk(file, |file|), m, true)
  }

  class Log {
    var file: seq<byte>
    var flushed: nat
    var closed: bool
    var torn: bool

    ghost function OnDisk(): Disk reads this { Disk(file, flushed) }
    ghost function InMemory(): Memory reads this { Up(closed, torn) }

    constructor (d: Disk)
      requires TailOk(d.file)
      ensures OnDisk() == d && InMemory() == Up(false, false)
    {
      file, flushed, closed, torn := d.file, d.flushed, false, false;
    }

    /** Appends one record; only a flushed complete line is reported as written. */
    method Audit(text: Text, io: Io) returns (ok: bool)
      modifies this
      ensures (OnDisk(), InMemory(), ok) == Append(old(OnDisk()), old(InMemory()), text, io)
    {
      if closed || torn { return false; }
      var line := text + [NEWLINE];
      var written := 0;
      var pending := io.writes;
      ok := true;
      while written < |line|
        invariant 0 <= written <= |line| && flushed == old(flushed) && !closed && !torn
        invariant file == old(file) + line[..written]
        invariant Landed(|line|, pending, written) == Landed(|line|, io.writes, 0)
        decreases |line| - written
      {
        if pending == [] || pending[0].Fails? || pending[0].n == 0 { ok := false; break; }
        var n := if pending[0].n <= |line| - written then pending[0].n else |line| - written;
        file := file + line[written..written + n];
        assert line[..written + n] == line[..written] + line[written..written + n];
        written, pending := written + n, pending[1..];
      }
      if ok && io.sync { flushed := |file|; } else { ok := false; }
      if !ok && 0 < written < |line| { torn := true; }
    }

    method Close()
      modifies this
      ensures InMemory() == Up(true, old(torn)) && OnDisk() == old(OnDisk())
    {
      closed := true;
    }
  }

  method Open(d: Disk) returns (ok: bool, log: Log?)
    ensures ok <==> Fragment(d.file) == []
    ensures ok ==> log != null && fresh(log) && log.OnDisk() == d && log.InMemory() == Up(false, false)
  {
    log := null;
    ok := |d.file| == 0 || d.file[|d.file| - 1] == NEWLINE;
    if ok { log := new Log(d); }
  }

  /******* The service over its whole life *******/

  datatype Response = Success(record: Text) | Rejected

  datatype State = State(disk: Disk, memory: Memory, submitted: seq<Text>, responses: seq<Response>)

  /** A process that dies inside a request is the request with failing i/o, then Kill. */
  datatype Action =
    | Reopen
    | Handle(signed: bool, record: Text, io: Io, failure: Text, failureIo: Io)
    | CloseLog
    | Kill
    | PowerLoss(keep: nat)

  const INITIAL := State(Disk([], 0), Down, [], [])

  /** One request: its record is written first; a failed record is followed by a best-effort failure
      record, and success is answered only after a written record of a signature. */
  function DoHandle(s: State, signed: bool, record: Text, io: Io, failure: Text, failureIo: Io): State {
    if s.memory.Down? then s
    else
      var (d, m, ok) := Append(s.disk, s.memory, record, io);
      if ok then
        State(d, m, s.submitted + [record], s.responses + [if signed then Success(record) else Rejected])
      else
        var (d', m', _) := Append(d, m, failure, failureIo);
        State(d', m', s.submitted + [record, failure], s.responses + [Rejected])
  }

  /** The request handler over the log object: the record comes before the answer. */
  method Handle(log: Log, signed: bool, record: Text, io: Io, failure: Text, failureIo: Io) returns (response: Response)
    modifies log
    ensures var s0 := State(old(log.OnDisk()), old(log.InMemory()), [], []);
      var s := DoHandle(s0, signed, record, io, failure, failureIo);
      s.disk == log.OnDisk() && s.memory == log.InMemory() && s.responses == [response]
  {
    var ok := log.Audit(record, io);
    if ok {
      response := if signed then Success(record) else Rejected;
    } else {
      var _ := log.Audit(failure, failureIo);
      response := Rejected;
    }
  }

  function DoPowerLoss(s: State, keep: nat): State {
    var n := if keep <= |s.disk.file| then keep else |s.disk.file|;
    var kept := if s.disk.flushed <= n then n else s.disk.flushed;
    if kept > |s.disk.file| then s.(memory := Down)
    else s.(memory := Down, disk := Disk(s.disk.file[..kept], s.disk.flushed))
  }

  function Step(s: State, a: Action): State {
    match a
    case Reopen => if s.memory.Down? && TailOk(s.disk.file) then s.(memory := Up(false, false)) else s
    case Handle(signed, record, io, failure, failureIo) => DoHandle(s, signed, record, io, failure, failureIo)
    case CloseLog => if s.memory.Up? then s.(memory := s.memory.(closed := true)) else s
    case Kill => s.(memory := Down)
    case PowerLoss(keep) => DoPowerLoss(s, keep)
  }

  function Run(s: State, actions: seq<Action>): State
    decreases |actions|
  {
    if actions == [] then s else Run(Step(s, actions[0]), actions[1..])
  }

  /** A power loss leaves a prefix that holds what was flushed, and may leave any such prefix. */
  lemma PowerLossExactly(s: State, left: seq<byte>)
    requires s.disk.flushed <= |s.disk.file|
    ensures (exists keep :: Step(s, PowerLoss(keep)).disk.file == left) <==>
      left <= s.disk.file && s.disk.flushed <= |left|
  {
    if left <= s.disk.file && s.disk.flushed <= |left| {
      assert Step(s, PowerLoss(|left|)).disk.file == left;
    }
  }

  /** In order, with gaps. */
  predicate Within(xs: seq<seq<byte>>, ys: seq<seq<byte>>)
    decreases |ys|
  {
    if xs == [] then true
    else if ys == [] then false
    else
      var front := ys[..|ys| - 1];
      Within(xs, front) || (xs[|xs| - 1] == ys[|ys| - 1] && Within(xs[..|xs| - 1], front))
  }

  function Successes(rs: seq<Response>): seq<seq<byte>> {
    if rs == [] then []
    else
      var front, last := rs[..|rs| - 1], rs[|rs| - 1];
      if last.Success? then Successes(front) + [last.record] else Successes(front)
  }

  /** The lines of the file are submitted records, whole and in order; at most one fragment, the
      beginning of a submitted record, follows them. */
  ghost predicate Whole(file: seq<byte>, submitted: seq<Text>) {
    && Within(Records(file), submitted)
    && (Fragment(file) == [] || exists t :: t in submitted && Fragment(file) <= t)
  }

  /** Every success has its own complete record in the part of the file that cannot be lost. */
  predicate Evident(d: Disk, responses: seq<Response>) {
    d.flushed <= |d.file| && Fragment(d.file[..d.flushed]) == []
    && Within(Successes(responses), Records(d.file[..d.flushed]))
  }

  ghost predicate Inv(s: State) {
    && Whole(s.disk.file, s.submitted) && Evident(s.disk, s.responses)
    && (s.memory.Up? && !s.memory.torn ==> Fragment(s.disk.file) == [])
  }

  /******* Within *******/

  lemma {:induction false} WithinMore(xs: seq<seq<byte>>, ys: seq<seq<byte>>, y: seq<byte>)
    requires Within(xs, ys)
    ensures Within(xs, ys + [y]) && Within(xs + [y], ys + [y])
  {
    assert (ys + [y])[..|ys|] == ys;
    assert (xs + [y])[..|xs|] == xs;
  }

  lemma {:induction false} WithinPrefix(xs: seq<seq<byte>>, ys: seq<seq<byte>>, zs: seq<seq<byte>>)
    requires Within(ys, zs) && xs <= ys
    ensures Within(xs, zs)
    decreases |zs|
  {
    if xs == ys || xs == [] {
    } else {
      var front := zs[..|zs| - 1];
      if Within(ys, front) { WithinPrefix(xs, ys, front); } else { WithinPrefix(xs, ys[..|ys| - 1], front); }
    }
  }

  lemma {:induction false} WithinIsIn(xs: seq<seq<byte>>, ys: seq<seq<byte>>, x: seq<byte>)
    requires Within(xs, ys) && x in xs
    ensures x in ys
    decreases |ys|
  {
    var front := ys[..|ys| - 1];
    if Within(xs, front) { WithinIsIn(xs, front, x); }
    else if x != xs[|xs| - 1] {
      var i :| 0 <= i < |xs| && xs[i] == x;
      assert xs[..|xs| - 1][i] == x;
      WithinIsIn(xs[..|xs| - 1], front, x);
    }
  }

  /******* Steps *******/

  lemma AppendKeeps(d: Disk, m: Memory, text: Text, io: Io, submitted: seq<Text>, responses: seq<Response>)
    requires Inv(State(d, m, submitted, responses))
    ensures var (d', m', ok) := Append(d, m, text, io);
      && Inv(State(d', m', submitted + [text], responses))
      && (ok ==> Inv(State(d', m', submitted + [text], responses + [Success(text)])))
  {
    hide Records, Fragment, Within;
    WithinMore(Records(d.file), submitted, text);
    var line: seq<byte> := text + [NEWLINE];
    var k := Landed(|line|, io.writes, 0);
    if m.Up? && !m.closed && !m.torn {
      if k < |line| {
        assert line[..k] == text[..k];
        AppendText(d.file, text[..k]);
      } else {
        assert d.file + line[..k] == d.file + text + [NEWLINE];
        AppendLine(d.file, text);
        assert [] + text == text;
      }
      var d' := Append(d, m, text, io).0;
      assert d'.file[..d.flushed] == d.file[..d.flushed];
      assert d'.file[..|d'.file|] == d'.file;
      if k == |line| && io.sync { FlushedKeeps(d, text, responses); }
    }
    assert text in submitted + [text] && forall t :: t in submitted ==> t in submitted + [text];
    var (d', m', ok) := Append(d, m, text, io);
    assert Whole(d'.file, submitted + [text]);
    assert Evident(d', responses);
    assert m'.Up? && !m'.torn ==> Fragment(d'.file) == [];
  }

  /** After the flush every earlier success is still evident, and so is the new one. */
  lemma FlushedKeeps(d: Disk, text: Text, responses: seq<Response>)
    requires Evident(d, responses) && Fragment(d.file) == []
    ensures var file := d.file + text + [NEWLINE];
      Evident(Disk(file, |file|), responses) && Evident(Disk(file, |file|), responses + [Success(text)])
  {
    var file := d.file + text + [NEWLINE];
    AppendLine(d.file, text);
    CutFile(d.file, d.flushed);
    assert [] + text == text;
    assert file[..|file|] == file;
    WithinLonger(Successes(responses), Records(d.file[..d.flushed]), Records(d.file));
    WithinMore(Successes(responses), Records(d.file), text);
    assert (responses + [Success(text)])[..|responses|] == responses;
  }

  lemma {:induction false} WithinLonger(xs: seq<seq<byte>>, ys: seq<seq<byte>>, zs: seq<seq<byte>>)
    requires Within(xs, ys) && ys <= zs
    ensures Within(xs, zs)
    decreases |zs|
  {
    if ys != zs { WithinLonger(xs, ys, zs[..|zs| - 1]); }
  }

  lemma RejectedKeeps(s: State)
    requires Inv(s)
    ensures Inv(s.(responses := s.responses + [Rejected]))
  {
    assert (s.responses + [Rejected])[..|s.responses|] == s.responses;
  }

  lemma HandleKeeps(s: State, signed: bool, record: Text, io: Io, failure: Text, failureIo: Io)
    requires Inv(s)
    ensures Inv(DoHandle(s, signed, record, io, failure, failureIo))
  {
    hide Inv, Append;
    AppendKeeps(s.disk, s.memory, record, io, s.submitted, s.responses);
    var (d, m, ok) := Append(s.disk, s.memory, record, io);
    var once := State(d, m, s.submitted + [record], s.responses);
    RejectedKeeps(once);
    if !ok {
      AppendKeeps(d, m, failure, failureIo, once.submitted, s.responses);
      var (d', m', _) := Append(d, m, failure, failureIo);
      assert once.submitted + [failure] == s.submitted + [record, failure];
      RejectedKeeps(State(d', m', s.submitted + [record, failure], s.responses));
    }
  }

  lemma PowerLossKeeps(s: State, keep: nat)
    requires Inv(s)
    ensures Inv(DoPowerLoss(s, keep))
  {
    hide Records, Fragment, Within;
    var s' := DoPowerLoss(s, keep);
    var kept := |s'.disk.file|;
    assert s'.disk.file == s.disk.file[..kept];
    assert s'.disk.file[..s.disk.flushed] == s.disk.file[..s.disk.flushed];
    CutFile(s.disk.file, kept);
    WithinPrefix(Records(s'.disk.file), Records(s.disk.file), s.submitted);
    if r :| r in Records(s.disk.file) && Fragment(s'.disk.file) <= r {
      WithinIsIn(Records(s.disk.file), s.submitted, r);
    }
  }

  lemma StepKeeps(s: State, a: Action)
    requires Inv(s)
    ensures Inv(Step(s, a))
  {
    match a
    case Handle(signed, record, io, failure, failureIo) => HandleKeeps(s, signed, record, io, failure, failureIo);
    case PowerLoss(keep) => PowerLossKeeps(s, keep);
    case _ =>
  }

  /** In every run the file is whole submitted records and at most one fragment, and every success
      answered so far has its complete flushed record. */
  lemma {:induction false} RunKeeps(s: State, actions: seq<Action>)
    requires Inv(s)
    ensures Inv(Run(s, actions))
    decreases |actions|
  {
    hide Inv;
    if actions != [] {
      StepKeeps(s, actions[0]);
      RunKeeps(Step(s, actions[0]), actions[1..]);
    }
  }

  lemma {:induction false} RunIsWhole(actions: seq<Action>)
    ensures var s := Run(INITIAL, actions);
      && Whole(s.disk.file, s.submitted) && Evident(s.disk, s.responses)
      && s.disk.file == Lines(Records(s.disk.file)) + Fragment(s.disk.file)
  {
    assert Inv(INITIAL);
    RunKeeps(INITIAL, actions);
    RecordsRejoin(Run(INITIAL, actions).disk.file);
  }

  /** Nothing is ever appended after a fragment. */
  lemma AppendsFollowNewline(actions: seq<Action>, a: Action)
    requires |Step(Run(INITIAL, actions), a).disk.file| > |Run(INITIAL, actions).disk.file|
    ensures Fragment(Run(INITIAL, actions).disk.file) == []
    ensures Run(INITIAL, actions).disk.file <= Step(Run(INITIAL, actions), a).disk.file
  {
    assert Inv(INITIAL);
    RunKeeps(INITIAL, actions);
  }

  /** A torn log stays exactly as it is, over any requests, restarts and kills, until a power loss
      shortens it or an operator repairs it. */
  lemma {:induction false} FragmentIsFinal(s: State, actions: seq<Action>)
    requires Inv(s) && Fragment(s.disk.file) != []
    requires forall i :: 0 <= i < |actions| ==> !actions[i].PowerLoss?
    ensures Run(s, actions).disk == s.disk
    ensures Successes(Run(s, actions).responses) == Successes(s.responses)
    decreases |actions|
  {
    if actions != [] {
      StepKeeps(s, actions[0]);
      FragmentIsFinal(Step(s, actions[0]), actions[1..]);
    }
  }

  /** What was answered stays answered, and its records stay on disk through every later failure. */
  lemma {:induction false} RecordsOutlive(s: State, actions: seq<Action>)
    requires Inv(s)
    ensures Inv(Run(s, actions)) && s.responses <= Run(s, actions).responses
    ensures s.disk.flushed <= |s.disk.file|
    ensures s.disk.flushed <= Run(s, actions).disk.flushed <= |Run(s, actions).disk.file|
    ensures Run(s, actions).disk.file[..s.disk.flushed] == s.disk.file[..s.disk.flushed]
    decreases |actions|
  {
    hide Inv;
    if actions == [] {
      EvidentBound(s);
    } else {
      StepKeeps(s, actions[0]);
      FlushedStays(s, actions[0]);
      RecordsOutlive(Step(s, actions[0]), actions[1..]);
    }
  }

  lemma EvidentBound(s: State)
    requires Inv(s)
    ensures s.disk.flushed <= |s.disk.file|
  {
  }

  lemma AppendFlushed(d: Disk, m: Memory, text: Text, io: Io)
    requires d.flushed <= |d.file|
    ensures var d' := Append(d, m, text, io).0;
      d.flushed <= d'.flushed <= |d'.file| && d'.file[..d.flushed] == d.file[..d.flushed]
  {
    hide Landed;
  }

  lemma FlushedStays(s: State, a: Action)
    requires Inv(s)
    ensures s.disk.flushed <= |s.disk.file|
    ensures var s' := Step(s, a);
      && s.responses <= s'.responses && s.disk.flushed <= s'.disk.flushed <= |s'.disk.file|
      && s'.disk.file[..s.disk.flushed] == s.disk.file[..s.disk.flushed]
  {
    EvidentBound(s);
    hide Inv, Append, TailOk;
    match a
    case Handle(signed, record, io, failure, failureIo) =>
      AppendFlushed(s.disk, s.memory, record, io);
      var (d, m, ok) := Append(s.disk, s.memory, record, io);
      AppendFlushed(d, m, failure, failureIo);
      var d' := Append(d, m, failure, failureIo).0;
      assert d'.file[..d.flushed][..s.disk.flushed] == d'.file[..s.disk.flushed];
      assert d.file[..d.flushed][..s.disk.flushed] == d.file[..s.disk.flushed];
    case _ =>
  }
}
