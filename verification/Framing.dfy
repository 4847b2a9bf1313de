/** Length-prefixed framing over arbitrary chunks and the bounded number of running signatures
    (infra/fabric/signing-service.ts: frame, serveSocket, acquire and release). */
module Framing {

  newtype byte = x: int | 0 <= x < 256

  const MAX_FRAME_BYTES := 32768
  const MAX_CONCURRENCY := 16

  /******* The frame *******/

  /** writeUInt32BE. */
  function Prefix(n: nat): (p: seq<byte>)
    requires n < 0x1_0000_0000
    ensures |p| == 4
  {
    [(n / 0x100_0000) as byte, (n / 0x1_0000 % 0x100) as byte, (n / 0x100 % 0x100) as byte, (n % 0x100) as byte]
  }

  /** readUInt32BE. */
  function ReadPrefix(s: seq<byte>): (n: nat)
    requires |s| >= 4
    ensures n < 0x1_0000_0000
  {
    s[0] as int * 0x100_0000 + s[1] as int * 0x1_0000 + s[2] as int * 0x100 + s[3] as int
  }

  function Frame(body: seq<byte>): seq<byte>
    requires |body| < 0x1_0000_0000
  {
    Prefix(|body|) + body
  }

  predicate Legal(body: seq<byte>) {
    1 <= |body| <= 32768
  }

  lemma PrefixRoundTrip(n: nat, rest: seq<byte>)
    requires n < 0x1_0000_0000
    ensures ReadPrefix(Prefix(n) + rest) == n
  {
    var a, b, c := n / 0x100_0000, n / 0x1_0000, n / 0x100;
    assert b / 0x100 == a && c / 0x100 == b;
    assert b == a * 0x100 + b % 0x100 && c == b * 0x100 + c % 0x100 && n == c * 0x100 + n % 0x100;
  }

  lemma ReadIsPrefix(s: seq<byte>)
    requires |s| >= 4
    ensures Prefix(ReadPrefix(s)) == s[..4]
  {
    var b0, b1, b2, b3 := s[0] as int, s[1] as int, s[2] as int, s[3] as int;
    var n := ReadPrefix(s);
    assert n / 0x100 == b0 * 0x1_0000 + b1 * 0x100 + b2;
    assert n / 0x1_0000 == b0 * 0x100 + b1;
    assert n / 0x100_0000 == b0;
  }

  /******* One connection *******/

  datatype Outcome = Waiting | Decoded(body: seq<byte>) | Refused

  /** What the bytes received so far amount to, however they arrived. */
  function Verdict(input: seq<byte>): Outcome {
    if |input| > MAX_FRAME_BYTES + 4 then Refused
    else if |input| < 4 then Waiting
    else
      var n := ReadPrefix(input);
      if n == 0 || n > MAX_FRAME_BYTES then Refused
      else if |input| < n + 4 then Waiting
      else if |input| != n + 4 then Refused
      else Decoded(input[4..])
  }

  /** The connection decides on the first chunk that makes the bytes so far decisive. */
  function Feed(chunks: seq<seq<byte>>): Outcome {
    if chunks == [] then Waiting
    else
      var before := Feed(chunks[..|chunks| - 1]);
      if before.Waiting? then Verdict(Concat(chunks)) else before
  }

  function Concat(chunks: seq<seq<byte>>): seq<byte> {
    if chunks == [] then [] else Concat(chunks[..|chunks| - 1]) + chunks[|chunks| - 1]
  }

  datatype Length = Unknown | Known(n: nat)

  class Connection {
    var input: seq<byte>
    var length: Length
    var handled: bool
    /** The chunks received, and what the handler was started with or answered. */
    ghost var chunks: seq<seq<byte>>
    var outcome: Outcome

    ghost predicate Valid() reads this {
      && outcome == Feed(chunks)
      && handled == !outcome.Waiting?
      && (!handled ==>
            && input == Concat(chunks) && |input| <= MAX_FRAME_BYTES + 4
            && (length.Known? <==> |input| >= 4)
            && (length.Known? ==> length.n == ReadPrefix(input) && 1 <= length.n <= MAX_FRAME_BYTES))
    }

    constructor ()
      ensures Valid() && chunks == []
    {
      input, length, handled, chunks, outcome := [], Unknown, false, [], Waiting;
    }

    method OnData(chunk: seq<byte>) returns (request: Outcome)
      requires Valid()
      modifies this
      ensures Valid() && chunks == old(chunks) + [chunk]
      ensures outcome == if old(outcome).Waiting? then request else old(outcome)
      ensures !old(outcome).Waiting? ==> request == Waiting
      ensures request.Decoded? <==> old(Feed(chunks)).Waiting? && Feed(chunks).Decoded?
    {
      assert (chunks + [chunk])[..|chunks|] == chunks;
      chunks := chunks + [chunk];
      request := Waiting;
      if handled { return; }
      input := input + chunk;
      if |input| > MAX_FRAME_BYTES + 4 { handled, request, outcome := true, Refused, Refused; return; }
      if length == Unknown && |input| >= 4 {
        length := Known(ReadPrefix(input));
        if length.n == 0 || length.n > MAX_FRAME_BYTES { handled, request, outcome := true, Refused, Refused; return; }
      }
      if length == Unknown || |input| < length.n + 4 { return; }
      if |input| != length.n + 4 { handled, request, outcome := true, Refused, Refused; return; }
      handled, request := true, Decoded(input[4..]);
      outcome := request;
    }
  }

  /******* Which chunks decode *******/

  lemma VerdictDecodedExactly(s: seq<byte>, body: seq<byte>)
    ensures Verdict(s) == Decoded(body) <==> Legal(body) && s == Frame(body)
  {
    if |body| < 0x1_0000_0000 { PrefixRoundTrip(|body|, body); }
    if |s| >= 4 {
      ReadIsPrefix(s);
      assert s == s[..4] + s[4..];
    }
  }

  lemma ProperPrefixWaits(s: seq<byte>, body: seq<byte>)
    requires Legal(body) && s <= Frame(body) && s != Frame(body)
    ensures Verdict(s) == Waiting
  {
    PrefixRoundTrip(|body|, body);
    assert s + Frame(body)[|s|..] == Frame(body);
  }

  lemma {:induction false} ConcatPrefix(chunks: seq<seq<byte>>, n: nat)
    requires n <= |chunks|
    ensures Concat(chunks[..n]) <= Concat(chunks)
    decreases |chunks|
  {
    if n == |chunks| {
      assert chunks[..n] == chunks;
    } else {
      var front := chunks[..|chunks| - 1];
      assert front[..n] == chunks[..n];
      ConcatPrefix(front, n);
    }
  }

  /** The decision is the verdict at the first decisive chunk. */
  lemma {:induction false} FeedIsFirstVerdict(chunks: seq<seq<byte>>) returns (n: nat)
    ensures n <= |chunks| && forall m :: 0 <= m < n ==> Verdict(Concat(chunks[..m])).Waiting?
    ensures Feed(chunks) == Verdict(Concat(chunks[..n]))
    ensures Feed(chunks).Waiting? ==> n == |chunks|
  {
    if chunks == [] {
      n := 0;
    } else {
      var front := chunks[..|chunks| - 1];
      n := FeedIsFirstVerdict(front);
      forall m | 0 <= m <= n ensures chunks[..m] == front[..m] {}
      if Feed(front).Waiting? {
        assert front[..n] == front;
        n := |chunks|;
        assert chunks[..n] == chunks;
      }
    }
  }

  /** A connection decodes a body exactly when some of its first chunks spell out precisely the
      frame of that body, of legal size. */
  lemma DecodedExactly(chunks: seq<seq<byte>>, body: seq<byte>)
    ensures Feed(chunks) == Decoded(body) <==>
      Legal(body) && exists n :: 0 <= n <= |chunks| && Concat(chunks[..n]) == Frame(body)
  {
    hide Feed, Verdict, Concat, Frame;
    var first := FeedIsFirstVerdict(chunks);
    VerdictDecodedExactly(Concat(chunks[..first]), body);
    if Legal(body) && exists n :: 0 <= n <= |chunks| && Concat(chunks[..n]) == Frame(body) {
      var n :| 0 <= n <= |chunks| && Concat(chunks[..n]) == Frame(body);
      VerdictDecodedExactly(Concat(chunks[..n]), body);
      assert first <= n;
      assert chunks[..n][..first] == chunks[..first];
      ConcatPrefix(chunks[..n], first);
      if Concat(chunks[..first]) != Frame(body) {
        ProperPrefixWaits(Concat(chunks[..first]), body);
      }
    }
  }

  /** However one frame of legal size is cut, its body comes out, and nothing before its last byte. */
  lemma AnyChunking(chunks: seq<seq<byte>>, body: seq<byte>)
    requires Legal(body) && Concat(chunks) == Frame(body)
    ensures Feed(chunks) == Decoded(body)
    ensures forall n :: 0 <= n <= |chunks| && Concat(chunks[..n]) != Frame(body) ==> Feed(chunks[..n]) == Waiting
  {
    hide Feed, Verdict, Concat, Frame;
    assert chunks[..|chunks|] == chunks;
    DecodedExactly(chunks, body);
    forall n | 0 <= n <= |chunks| && Concat(chunks[..n]) != Frame(body) ensures Feed(chunks[..n]) == Waiting {
      var m := FeedIsFirstVerdict(chunks[..n]);
      assert chunks[..n][..m] == chunks[..m];
      ConcatPrefix(chunks[..n], m);
      ConcatPrefix(chunks, n);
      ProperPrefixWaits(Concat(chunks[..m]), body);
    }
  }

  /** A length field out of range is refused however its bytes arrive. */
  lemma IllegalLengthRefused(chunks: seq<seq<byte>>)
    requires |Concat(chunks)| >= 4 && !(1 <= ReadPrefix(Concat(chunks)) <= 32768)
    ensures Feed(chunks) == Refused
  {
    hide Feed, Concat;
    var n := FeedIsFirstVerdict(chunks);
    ConcatPrefix(chunks, n);
    var s := Concat(chunks[..n]);
    assert chunks[..|chunks|] == chunks;
    assert s + Concat(chunks)[|s|..] == Concat(chunks);
  }

  /** Bytes after a frame are refused only when they come with its last chunk. */
  lemma OverlongDependsOnChunking(body: seq<byte>, extra: byte)
    requires Legal(body)
    ensures Concat([Frame(body), [extra]]) == Concat([Frame(body) + [extra]])
    ensures Feed([Frame(body), [extra]]) == Decoded(body)
    ensures Feed([Frame(body) + [extra]]) == Refused
  {
    var frame := Frame(body);
    var two, one := [frame, [extra]], [frame + [extra]];
    assert two[..1] == [frame] && [frame][..0] == [] && one[..0] == [];
    assert Concat([frame]) == [] + frame == frame;
    assert Concat(one) == [] + one[0] == one[0];
    VerdictDecodedExactly(frame, body);
    assert Feed([]) == Waiting && Feed([frame]) == Decoded(body);
    PrefixRoundTrip(|body|, body + [extra]);
    assert frame + [extra] == Prefix(|body|) + (body + [extra]);
  }

  /** The outcome does not depend on how a stream is cut. */
  ghost predicate CutFree(s: seq<byte>) {
    forall a, b :: Concat(a) == s && Concat(b) == s ==> Feed(a) == Feed(b)
  }

  /** A legal frame with more bytes behind it. */
  ghost predicate StartsWithFrame(s: seq<byte>, body: seq<byte>) {
    Legal(body) && Frame(body) < s
  }

  /** What is refused stays refused with more bytes, unless a legal frame came first. */
  lemma RefusedExtends(s: seq<byte>, n: nat)
    requires n <= |s| && Verdict(s[..n]) == Refused
    requires forall body :: !StartsWithFrame(s, body)
    ensures Verdict(s) == Refused
  {
    var p := s[..n];
    assert p + s[n..] == s;
    if n >= 4 && 1 <= ReadPrefix(p) <= MAX_FRAME_BYTES && n <= MAX_FRAME_BYTES + 4 {
      var body := p[4..ReadPrefix(p) + 4];
      ReadIsPrefix(p);
      assert Frame(body) == s[..|Frame(body)|];
      assert StartsWithFrame(s, body);
    }
  }

  /** Without a legal frame at its front, every cut of a stream is judged like the whole stream. */
  lemma FeedIsVerdict(chunks: seq<seq<byte>>)
    requires forall body :: !StartsWithFrame(Concat(chunks), body)
    ensures Feed(chunks) == Verdict(Concat(chunks))
  {
    hide Feed, Verdict, Concat, Frame;
    var s := Concat(chunks);
    var n := FeedIsFirstVerdict(chunks);
    var p := Concat(chunks[..n]);
    ConcatPrefix(chunks, n);
    assert p == s[..|p|];
    match Feed(chunks) {
      case Waiting => assert chunks[..n] == chunks;
      case Decoded(body) =>
        VerdictDecodedExactly(p, body);
        assert !StartsWithFrame(s, body);
        assert p <= s && !(p < s);
        assert p == s;
      case Refused => RefusedExtends(s, |p|);
    }
  }

  /** The outcome of a stream depends on its chunking exactly when bytes follow a legal frame. */
  lemma CutFreeExactly(s: seq<byte>)
    ensures CutFree(s) <==> forall body :: !StartsWithFrame(s, body)
  {
    hide Feed, Verdict, Concat, StartsWithFrame;
    if forall body :: !StartsWithFrame(s, body) {
      forall a, b | Concat(a) == s && Concat(b) == s ensures Feed(a) == Feed(b) {
        FeedIsVerdict(a);
        FeedIsVerdict(b);
      }
    }
    if body :| StartsWithFrame(s, body) {
      var a, b := TwoCuts(s, body);
    }
  }

  /** Two cuts of one stream with different outcomes. */
  lemma TwoCuts(s: seq<byte>, body: seq<byte>) returns (two: seq<seq<byte>>, one: seq<seq<byte>>)
    requires StartsWithFrame(s, body)
    ensures Concat(two) == s && Concat(one) == s && Feed(two) != Feed(one)
  {
    var n := |Frame(body)|;
    two, one := [s[..n], s[n..]], [s];
    assert two[..1] == [s[..n]] && one[..0] == [] && two[..1][..0] == [];
    assert Concat(two[..1]) == [] + s[..n] == s[..n] == Frame(body);
    assert Concat(two) == s[..n] + s[n..] == s;
    assert Concat(one) == [] + one[0] == s;
    DecodedExactly(two, body);
    assert Feed([]) == Waiting;
    VerdictDecodedExactly(s, body);
  }

  /** The requests a connection starts. */
  function Requests(chunks: seq<seq<byte>>): seq<seq<byte>> {
    if chunks == [] then []
    else
      var front := chunks[..|chunks| - 1];
      if Feed(front).Waiting? && Feed(chunks).Decoded? then Requests(front) + [Feed(chunks).body] else Requests(front)
  }

  /** A connection starts at most one request, ever. */
  lemma {:induction false} AtMostOneRequest(chunks: seq<seq<byte>>)
    ensures Requests(chunks) == if Feed(chunks).Decoded? then [Feed(chunks).body] else []
  {
    if chunks != [] { AtMostOneRequest(chunks[..|chunks| - 1]); }
  }

  /******* Running signatures *******/

  class Slots {
    var active: int

    constructor ()
      ensures active == 0
    {
      active := 0;
    }

    method Acquire() returns (ok: bool)
      modifies this
      ensures ok == (old(active) < 16)
      ensures active == old(active) + if ok then 1 else 0
    {
      if active >= MAX_CONCURRENCY { return false; }
      active := active + 1;
      return true;
    }

    method Release()
      modifies this
      ensures active == old(active) - 1
    {
      active := active - 1;
    }
  }

  type Id = nat

  /** All connections over the life of the service. */
  datatype Service = Service(active: int, chunks: map<Id, seq<seq<byte>>>, acquired: seq<Id>, released: seq<Id>)

  /** Bytes arrive, the parsed request naming a known key or not; or a handler ends, however it ends. */
  datatype Action = Data(c: Id, chunk: seq<byte>, known: bool) | Finish(c: Id)

  const INITIAL := Service(0, map[], [], [])

  function ChunksOf(s: Service, c: Id): seq<seq<byte>> {
    if c in s.chunks then s.chunks[c] else []
  }

  predicate Running(s: Service, c: Id) {
    c in s.acquired && c !in s.released
  }

  function Step(s: Service, a: Action): Service {
    match a
    case Data(c, chunk, known) =>
      var chunks := ChunksOf(s, c) + [chunk];
      var received := s.(chunks := s.chunks[c := chunks]);
      if Feed(ChunksOf(s, c)).Waiting? && Feed(chunks).Decoded? && known && s.active < MAX_CONCURRENCY then
        received.(active := s.active + 1, acquired := s.acquired + [c])
      else received
    case Finish(c) =>
      if Running(s, c) then s.(active := s.active - 1, released := s.released + [c]) else s
  }

  function Run(s: Service, actions: seq<Action>): Service
    decreases |actions|
  {
    if actions == [] then s else Run(Step(s, actions[0]), actions[1..])
  }

  predicate Once(ids: seq<Id>) {
    forall i, j :: 0 <= i < j < |ids| ==> ids[i] != ids[j]
  }

  /** One slot per running handler, at most one acquire and one release per connection. */
  predicate Inv(s: Service) {
    && Once(s.acquired) && Once(s.released) && (forall c :: c in s.released ==> c in s.acquired)
    && s.active == |s.acquired| - |s.released| && 0 <= s.active <= MAX_CONCURRENCY
    && forall c :: c in s.acquired ==> Feed(ChunksOf(s, c)).Decoded?
  }

  /** Opening a connection changes nothing before its first bytes. */
  lemma FirstBytes(s: Service, c: Id, chunk: seq<byte>, known: bool)
    requires c !in s.chunks
    ensures Step(s.(chunks := s.chunks[c := []]), Data(c, chunk, known)) == Step(s, Data(c, chunk, known))
  {
    assert s.chunks[c := []][c := [] + [chunk]] == s.chunks[c := [] + [chunk]];
  }

  /** The listening service: its connections by id, the slots they share, and what its handlers
      acquired and released. */
  class Server {
    const slots: Slots
    var connections: map<Id, Connection>
    ghost var acquired: seq<Id>
    ghost var released: seq<Id>

    ghost predicate Valid()
      reads this, slots, connections.Values
    {
      && (forall c :: c in connections ==> connections[c].Valid())
      && (forall c, d :: c in connections && d in connections && c != d ==> connections[c] != connections[d])
    }

    ghost function Abstract(): Service
      reads this, slots, connections.Values
    {
      Service(slots.active, map c | c in connections :: connections[c].chunks, acquired, released)
    }

    constructor ()
      ensures Valid() && Abstract() == INITIAL && fresh(slots)
    {
      slots := new Slots();
      connections := map[];
      acquired, released := [], [];
    }

    method Accept(c: Id)
      requires Valid() && c !in connections
      modifies this`connections
      ensures Valid() && c in connections && fresh(connections[c])
      ensures Abstract() == old(Abstract()).(chunks := old(Abstract()).chunks[c := []])
    {
      hide Feed, Concat, Verdict;
      var accepted := new Connection();
      connections := connections[c := accepted];
      assert Abstract().chunks == old(Abstract()).chunks[c := []];
    }

    /** A decoded request with a known key starts its handler if a slot is free. */
    method Deliver(c: Id, chunk: seq<byte>, known: bool) returns (started: bool)
      requires Valid() && c in connections
      modifies this`acquired, slots, connections[c]
      ensures Valid() && Abstract() == Step(old(Abstract()), Data(c, chunk, known))
      ensures started <==> acquired != old(acquired)
    {
      hide Feed, Concat, Verdict;
      var request := connections[c].OnData(chunk);
      started := false;
      if request.Decoded? && known {
        started := slots.Acquire();
        if started { acquired := acquired + [c]; }
      }
      assert Abstract().chunks == old(Abstract().chunks)[c := old(connections[c].chunks) + [chunk]];
    }

    /** Bytes arrive on a connection, a new one when the id is new. */
    method Receive(c: Id, chunk: seq<byte>, known: bool)
      requires Valid()
      modifies this, slots, connections.Values
      ensures Valid() && Abstract() == Step(old(Abstract()), Data(c, chunk, known))
    {
      hide Step, Feed, Concat, Verdict;
      if c !in connections {
        FirstBytes(Abstract(), c, chunk, known);
        Accept(c);
      }
      var _ := Deliver(c, chunk, known);
    }

    /** A handler ends, by return or by exception. */
    method Finish(c: Id)
      requires Valid() && Running(Abstract(), c)
      modifies this, slots
      ensures Valid() && Abstract() == Step(old(Abstract()), Action.Finish(c))
    {
      slots.Release();
      released := released + [c];
    }
  }

  lemma {:induction false} OnceFits(xs: seq<Id>, ys: seq<Id>)
    requires Once(xs) && forall x :: x in xs ==> x in ys
    ensures |xs| <= |ys|
  {
    if xs != [] {
      var n := |xs| - 1;
      assert xs[n] in ys;
      var k :| 0 <= k < |ys| && ys[k] == xs[n];
      var rest := ys[..k] + ys[k + 1..];
      forall x | x in xs[..n] ensures x in rest {
        var i :| 0 <= i < n && xs[i] == x;
        assert x in ys;
        var j :| 0 <= j < |ys| && ys[j] == x;
        assert x == rest[if j < k then j else j - 1];
      }
      OnceFits(xs[..n], rest);
    }
  }

  lemma FeedStays(chunks: seq<seq<byte>>, chunk: seq<byte>)
    requires Feed(chunks).Decoded?
    ensures Feed(chunks + [chunk]) == Feed(chunks)
  {
    assert (chunks + [chunk])[..|chunks|] == chunks;
  }

  lemma StepKeeps(s: Service, a: Action)
    requires Inv(s)
    ensures Inv(Step(s, a))
  {
    hide Feed;
    match a
    case Data(c, chunk, known) =>
      if Feed(ChunksOf(s, c)).Decoded? { FeedStays(ChunksOf(s, c), chunk); }
    case Finish(c) =>
      if Running(s, c) { OnceFits(s.released + [c], s.acquired); }
  }

  lemma {:induction false} RunKeeps(s: Service, actions: seq<Action>)
    requires Inv(s)
    ensures Inv(Run(s, actions))
    decreases |actions|
  {
    hide Inv;
    if actions != [] {
      StepKeeps(s, actions[0]);
      RunKeeps(Step(s, actions[0]), actions[1..]);
    }
  }

  /** In every run the active count is the number of acquired and unreleased slots, between none
      and sixteen; no connection acquires twice, and each release matches its own acquire. */
  lemma SlotsAreAccounted(actions: seq<Action>)
    ensures var s := Run(INITIAL, actions);
      && 0 <= s.active <= 16 && s.active == |s.acquired| - |s.released|
      && Once(s.acquired) && Once(s.released) && forall c :: c in s.released ==> c in s.acquired
  {
    assert Inv(INITIAL);
    RunKeeps(INITIAL, actions);
  }
}
