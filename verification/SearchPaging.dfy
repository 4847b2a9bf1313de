/** Paged search over an append-only ledger with a result cache in between
    (apps/api/service.ts: page, nextCursor, search). A checkpoint is a prefix of the history;
    the digests behind cursors and bindings are injective, so a binding is its contents and a
    cursor is an unforgeable token. */
module SearchPaging {
  import opened Options
  import opened Paging
  import C = SearchMatchCache

  type Digest = string

  datatype Revision = Revision(digest: Digest, context: string, scope: string, usage: string, text: string)

  /** One committed ledger write, as far as the browse index looks at it. */
  datatype Event = Published(revision: Revision) | OtherWrite

  datatype Filter = Filter(query: string, context: Option<string>, scope: Option<string>, usage: Option<string>)

  datatype Binding = Binding(orgId: string, actorId: string, kind: string, filter: Filter)

  datatype Cursor = Cursor(binding: Binding, checkpoint: nat, offset: nat)

  datatype Request = Request(binding: Binding, limit: int, cursor: Option<Cursor>)

  datatype Response =
    | Page(ids: seq<Digest>, total: nat, next: Option<Cursor>, checkpoint: nat)
    | InvalidQuery
    | InvalidCursor

  /** The text rule of the search, the cache key of a binding at a checkpoint, the cache limits. */
  datatype Env = Env(contains: (string, string) -> bool, encode: (Binding, nat) -> string, limits: C.Limits)

  /** Canonical text is injective: different bindings or checkpoints get different keys. */
  ghost predicate Sane(env: Env) {
    forall b, c, b', c' :: env.encode(b, c) == env.encode(b', c') ==> b == b' && c == c'
  }

  /******* Queries at a checkpoint *******/

  predicate Unset(f: Option<string>, value: string) {
    f.None? || f.value == "" || f.value == value
  }

  predicate InScope(r: Revision, f: Filter) {
    Unset(f.context, r.context) && Unset(f.scope, r.scope) && Unset(f.usage, r.usage)
  }

  /** The revisions the browse index lists for a filter at a checkpoint: newest first. */
  function Candidates(h: seq<Event>, f: Filter): seq<Revision> {
    if h == [] then []
    else
      var e := h[|h| - 1];
      var rest := Candidates(h[..|h| - 1], f);
      if e.Published? && InScope(e.revision, f) then [e.revision] + rest else rest
  }

  predicate Hit(env: Env, r: Revision, f: Filter) {
    f.query == "" || env.contains(r.text, f.query)
  }

  function HitOf(env: Env, r: Revision, f: Filter): seq<Digest> {
    if Hit(env, r, f) then [r.digest] else []
  }

  function Hits(env: Env, rs: seq<Revision>, f: Filter): seq<Digest> {
    if rs == [] then [] else HitOf(env, rs[0], f) + Hits(env, rs[1..], f)
  }

  /** One uncached full scan. */
  function Matches(env: Env, h: seq<Event>, f: Filter): seq<Digest> {
    Hits(env, Candidates(h, f), f)
  }

  /******* What a query finds *******/

  ghost predicate Ascending(at: seq<nat>) {
    forall i, j :: 0 <= i < j < |at| ==> at[i] < at[j]
  }

  ghost predicate Descending(at: seq<nat>) {
    forall i, j :: 0 <= i < j < |at| ==> at[i] > at[j]
  }

  /** An empty query finds every text, any other one the texts that contain it. */
  ghost predicate Found(env: Env, r: Revision, f: Filter) {
    f.query != "" ==> env.contains(r.text, f.query)
  }

  /** A filter that is set, to something, is met exactly. */
  ghost predicate Meets(r: Revision, f: Filter) {
    && (forall c :: f.context == Some(c) && c != "" ==> r.context == c)
    && (forall c :: f.scope == Some(c) && c != "" ==> r.scope == c)
    && (forall c :: f.usage == Some(c) && c != "" ==> r.usage == c)
  }

  ghost predicate FoundAt(env: Env, all: seq<Revision>, f: Filter, k: nat) {
    k < |all| && Found(env, all[k], f)
  }

  ghost predicate ListedAt(h: seq<Event>, f: Filter, k: nat) {
    k < |h| && h[k].Published? && Meets(h[k].revision, f)
  }

  /** The digests at exactly the positions of the list that are found, in the order of the list. */
  ghost predicate Collects(env: Env, all: seq<Revision>, f: Filter, at: seq<nat>, ids: seq<Digest>) {
    && Ascending(at) && (forall k: nat :: k in at <==> FoundAt(env, all, f, k))
    && |ids| == |at| && forall i :: 0 <= i < |at| ==> at[i] < |all| && ids[i] == all[at[i]].digest
  }

  /** The published revisions that meet the filter, newest first. */
  ghost predicate Lists(h: seq<Event>, f: Filter, at: seq<nat>, rs: seq<Revision>) {
    && Descending(at) && (forall k: nat :: k in at <==> ListedAt(h, f, k))
    && |rs| == |at| && forall i :: 0 <= i < |at| ==> at[i] < |h| && h[at[i]] == Published(rs[i])
  }

  /** The digests of the published revisions that meet the filter and are found, newest first. */
  ghost predicate Scans(env: Env, h: seq<Event>, f: Filter, at: seq<nat>, ids: seq<Digest>) {
    && Descending(at)
    && (forall k: nat :: k in at <==> ListedAt(h, f, k) && Found(env, h[k].revision, f))
    && |ids| == |at|
    && forall i :: 0 <= i < |at| ==> at[i] < |h| && h[at[i]].Published? && ids[i] == h[at[i]].revision.digest
  }

  ghost predicate IsFullScan(env: Env, h: seq<Event>, f: Filter, ids: seq<Digest>) {
    exists at :: Scans(env, h, f, at, ids)
  }

  function Moved(at: seq<nat>): (r: seq<nat>)
    ensures |r| == |at| && forall i :: 0 <= i < |at| ==> r[i] == at[i] + 1
  {
    seq(|at|, i requires 0 <= i < |at| => at[i] + 1)
  }

  lemma MovedHolds(at: seq<nat>, k: nat)
    ensures k in Moved(at) <==> k > 0 && k - 1 in at
  {
    if k > 0 && k - 1 in at {
      var i :| 0 <= i < |at| && at[i] == k - 1;
      assert Moved(at)[i] == k;
    }
    if k in Moved(at) {
      var i :| 0 <= i < |at| && Moved(at)[i] == k;
      assert at[i] in at;
    }
  }

  lemma FrontCollects(env: Env, all: seq<Revision>, f: Filter, rest: seq<nat>, ids: seq<Digest>)
    requires all != [] && Collects(env, all[1..], f, rest, ids)
    ensures if Found(env, all[0], f) then Collects(env, all, f, [0] + Moved(rest), [all[0].digest] + ids)
            else Collects(env, all, f, Moved(rest), ids)
  {
    hide Found;
    var moved := Moved(rest);
    forall k: nat ensures k in moved <==> k > 0 && FoundAt(env, all, f, k) {
      MovedHolds(rest, k);
      if k > 0 { assert FoundAt(env, all, f, k) <==> FoundAt(env, all[1..], f, k - 1); }
    }
    forall i | 0 <= i < |rest| ensures moved[i] > 0 && all[moved[i]] == all[1..][rest[i]] {}
    assert FoundAt(env, all, f, 0) <==> Found(env, all[0], f);
    hide FoundAt, Moved;
    forall k: nat ensures k in [0] + moved <==> k == 0 || k in moved {}
  }

  lemma {:induction false} HitsExactly(env: Env, all: seq<Revision>, f: Filter) returns (at: seq<nat>)
    ensures Collects(env, all, f, at, Hits(env, all, f))
  {
    if all == [] {
      at := [];
    } else {
      var rest := HitsExactly(env, all[1..], f);
      at := if Found(env, all[0], f) then [0] + Moved(rest) else Moved(rest);
      FrontCollects(env, all, f, rest, Hits(env, all[1..], f));
      hide Collects;
    }
  }

  lemma FrontLists(h: seq<Event>, f: Filter, rest: seq<nat>, rs: seq<Revision>)
    requires h != [] && Lists(h[..|h| - 1], f, rest, rs)
    ensures var n := |h| - 1;
      if h[n].Published? && Meets(h[n].revision, f) then Lists(h, f, [n] + rest, [h[n].revision] + rs)
      else Lists(h, f, rest, rs)
  {
    hide Meets;
    var n: nat := |h| - 1;
    forall k: nat ensures k in rest <==> k != n && ListedAt(h, f, k) {
      assert k in rest <==> ListedAt(h[..n], f, k);
    }
    forall i | 0 <= i < |rest| ensures rest[i] < n && h[rest[i]] == h[..n][rest[i]] { assert rest[i] in rest; }
    assert ListedAt(h, f, n) <==> h[n].Published? && Meets(h[n].revision, f);
    hide ListedAt;
    forall k: nat ensures k in [n] + rest <==> k == n || k in rest {}
  }

  lemma {:induction false} CandidatesExactly(h: seq<Event>, f: Filter) returns (at: seq<nat>)
    ensures Lists(h, f, at, Candidates(h, f))
  {
    if h == [] {
      at := [];
    } else {
      var n := |h| - 1;
      var rest := CandidatesExactly(h[..n], f);
      FrontLists(h, f, rest, Candidates(h[..n], f));
      if h[n].Published? {
        assert InScope(h[n].revision, f) <==> Meets(h[n].revision, f) by { hide Candidates, Lists; }
      }
      hide Lists, Meets, InScope;
      at := if h[n].Published? && InScope(h[n].revision, f) then [n] + rest else rest;
    }
  }

  /** A full scan finds what was published, meets the filter and contains the query, newest first. */
  lemma MatchesExactly(env: Env, h: seq<Event>, f: Filter)
    ensures IsFullScan(env, h, f, Matches(env, h, f))
  {
    hide Hits, Candidates;
    var listed := CandidatesExactly(h, f);
    var chosen := HitsExactly(env, Candidates(h, f), f);
    var at := Composed(env, h, f, listed, Candidates(h, f), chosen, Hits(env, Candidates(h, f), f));
  }

  lemma Composed(env: Env, h: seq<Event>, f: Filter, listed: seq<nat>, rs: seq<Revision>, chosen: seq<nat>,
                 ids: seq<Digest>) returns (at: seq<nat>)
    requires Lists(h, f, listed, rs) && Collects(env, rs, f, chosen, ids)
    ensures Scans(env, h, f, at, ids)
  {
    hide Found, Meets;
    at := seq(|chosen|, i requires 0 <= i < |chosen| => assert chosen[i] in chosen; listed[chosen[i]]);
    forall k: nat ensures k in at <==> ListedAt(h, f, k) && Found(env, h[k].revision, f) {
      if k in at {
        var i :| 0 <= i < |at| && at[i] == k;
        assert FoundAt(env, rs, f, chosen[i]);
        assert listed[chosen[i]] in listed;
      }
      if ListedAt(h, f, k) && Found(env, h[k].revision, f) {
        var j :| 0 <= j < |listed| && listed[j] == k;
        assert FoundAt(env, rs, f, j);
        var i :| 0 <= i < |chosen| && chosen[i] == j;
        assert at[i] == k;
      }
    }
  }

  /******* The batched scan *******/

  lemma {:induction false} HitsConcat(env: Env, a: seq<Revision>, b: seq<Revision>, f: Filter)
    ensures Hits(env, a + b, f) == Hits(env, a, f) + Hits(env, b, f)
  {
    if a == [] {
      assert a + b == b;
    } else {
      hide HitOf;
      var ab, rest := a + b, a[1..];
      HitsConcat(env, rest, b, f);
      assert ab[1..] == rest + b && ab[0] == a[0];
      hide Hits;
      assert HitOf(env, a[0], f) + (Hits(env, rest, f) + Hits(env, b, f))
          == (HitOf(env, a[0], f) + Hits(env, rest, f)) + Hits(env, b, f);
    }
  }

  /** The scan over batches: all matches in order, or an error when the index stops short. */
  method Scan(env: Env, browse: nat -> BrowsePage<Revision>, f: Filter, ghost all: seq<Revision>)
      returns (r: Option<seq<Digest>>)
    requires Honest(browse, all)
    ensures r.Some? ==> r.value == Hits(env, all, f) && exists at :: Collects(env, all, f, at, r.value)
    ensures r.None? ==> StopsShort(browse, all)
  {
    var ids: seq<Digest> := [];
    var offset := 0;
    while true
      invariant 0 <= offset <= |all| && ids == Hits(env, all[..offset], f)
      decreases |all| - offset
    {
      var candidates := browse(offset);
      var items := candidates.items;
      var n := 0;
      while n < |items|
        invariant 0 <= n <= |items|
        invariant ids == Hits(env, all[..offset + n], f)
      {
        assert all[offset + n] == items[n];
        assert all[..offset + n + 1] == all[..offset + n] + [items[n]];
        HitsConcat(env, all[..offset + n], [items[n]], f);
        assert [items[n]][1..] == [];
        if Hit(env, items[n], f) { ids := ids + [items[n].digest]; }
        n := n + 1;
      }
      offset := offset + |items|;
      if offset >= candidates.total { break; }
      if items == [] { return None; }
    }
    assert all[..offset] == all;
    ghost var at := HitsExactly(env, all, f);
    return Some(ids);
  }

  /******* One request *******/

  datatype State = State(history: seq<Event>, cache: C.Pools)

  function NextCursor(b: Binding, checkpoint: nat, offset: nat, limit: nat, total: nat): Option<Cursor> {
    if offset + limit >= total then None else Some(Cursor(b, checkpoint, offset + limit))
  }

  predicate CursorOk(h: seq<Event>, r: Request) {
    r.cursor.Some? ==> r.cursor.value.binding == r.binding && r.cursor.value.checkpoint <= |h|
  }

  function CheckpointOf(h: seq<Event>, r: Request): nat {
    if r.cursor.Some? then r.cursor.value.checkpoint else |h|
  }

  function Serve(env: Env, s: State, r: Request): (Response, State) {
    if !LegalLimit(r.limit) then (InvalidQuery, s)
    else if !CursorOk(s.history, r) then (InvalidCursor, s)
    else
      var c := CheckpointOf(s.history, r);
      var offset := if r.cursor.Some? then r.cursor.value.offset else 0;
      var key := env.encode(r.binding, c);
      var cached := C.Find(s.cache, key);
      var matches := if cached.Some? then cached.value else Matches(env, s.history[..c], r.binding.filter);
      var touched := C.Step(s.cache, C.Get(key), env.limits);
      var cache := if cached.Some? then touched else C.Step(touched, C.Put(key, matches), env.limits);
      (Page(Slice(matches, offset, r.limit), |matches|, NextCursor(r.binding, c, offset, r.limit, |matches|), c),
       s.(cache := cache))
  }

  /** The endpoint against the cache object. The scan's error is the only other outcome. */
  method Search(env: Env, history: seq<Event>, cache: C.Cache, r: Request, browse: (nat, nat) -> BrowsePage<Revision>)
      returns (response: Option<Response>)
    requires cache.Valid() && cache.limits == env.limits
    requires forall c: nat {:trigger history[..c]} :: c <= |history| ==>
      Honest((o: nat) => browse(c, o), Candidates(history[..c], r.binding.filter))
    modifies cache
    ensures cache.Valid()
    ensures response.Some? ==>
      var before := State(history, old(cache.Abstract()));
      (response.value, State(history, cache.Abstract())) == Serve(env, before, r)
    ensures response == Some(InvalidQuery) <==> !(1 <= r.limit <= 50)
    ensures response == Some(InvalidCursor) <==>
      && 1 <= r.limit <= 50 && r.cursor.Some?
      && (r.cursor.value.binding != r.binding || r.cursor.value.checkpoint > |history|)
    ensures response.None? ==> exists c: nat, o: nat :: browse(c, o).items == []
  {
    if !LegalLimit(r.limit) { return Some(InvalidQuery); }
    if !CursorOk(history, r) { return Some(InvalidCursor); }
    var c := CheckpointOf(history, r);
    var offset := if r.cursor.Some? then r.cursor.value.offset else 0;
    var key := env.encode(r.binding, c);
    var matches := cache.Get(key);
    if matches.None? {
      matches := Scan(env, (o: nat) => browse(c, o), r.binding.filter, Candidates(history[..c], r.binding.filter));
      if matches.None? { return None; }
      cache.Put(key, matches.value);
    }
    var ids := matches.value;
    return Some(Page(Slice(ids, offset, r.limit), |ids|, NextCursor(r.binding, c, offset, r.limit, |ids|), c));
  }

  /******* Whole runs *******/

  datatype Action = Commit(event: Event) | Ask(request: Request)

  const INITIAL := State([], C.EMPTY)

  function Next(env: Env, s: State, a: Action): State {
    match a
    case Commit(e) => s.(history := s.history + [e])
    case Ask(r) => Serve(env, s, r).1
  }

  function After(env: Env, actions: seq<Action>): State {
    if actions == [] then INITIAL
    else Next(env, After(env, actions[..|actions| - 1]), actions[|actions| - 1])
  }

  /** What the request at position t of a run is answered. */
  function Reply(env: Env, actions: seq<Action>, t: nat): Response
    requires t < |actions| && actions[t].Ask?
  {
    Serve(env, After(env, actions[..t]), actions[t].request).0
  }

  /** Every cached list is the full scan for its binding at its checkpoint. */
  ghost predicate Sound(env: Env, s: State) {
    && C.WellFormed(s.cache, env.limits)
    && forall b: Binding, c: nat :: C.Find(s.cache, env.encode(b, c)).Some? ==>
         c <= |s.history| && C.Find(s.cache, env.encode(b, c)).value == Matches(env, s.history[..c], b.filter)
  }

  lemma CommitKeepsSound(env: Env, s: State, e: Event)
    requires Sound(env, s)
    ensures Sound(env, Next(env, s, Commit(e)))
  {
    hide Matches, C.WellFormed, C.Find;
    var h := s.history + [e];
    forall c: nat | c <= |s.history| ensures h[..c] == s.history[..c] {}
  }

  lemma AskKeepsSound(env: Env, s: State, r: Request)
    requires Sane(env) && Sound(env, s)
    ensures Sound(env, Next(env, s, Ask(r)))
  {
    hide Matches, C.WellFormed, C.Find, C.Step, C.MakeEntry, C.Accepted;
    if LegalLimit(r.limit) && CursorOk(s.history, r) {
      var at := CheckpointOf(s.history, r);
      var key := env.encode(r.binding, at);
      var matches := Matches(env, s.history[..at], r.binding.filter);
      var touched := C.Step(s.cache, C.Get(key), env.limits);
      var put := C.Step(touched, C.Put(key, matches), env.limits);
      C.StepKeepsWellFormed(s.cache, C.Get(key), env.limits);
      C.StepKeepsWellFormed(touched, C.Put(key, matches), env.limits);
      forall b: Binding, c: nat
        ensures var k := env.encode(b, c);
          && C.Find(touched, k) == C.Find(s.cache, k)
          && (C.Find(put, k).Some? ==>
                C.Find(put, k) == C.Find(s.cache, k) || (b == r.binding && c == at && C.Find(put, k) == Some(matches)))
      {
        var k := env.encode(b, c);
        C.FindAfterStep(s.cache, C.Get(key), k, env.limits);
        C.FindAfterStep(touched, C.Put(key, matches), k, env.limits);
      }
    }
  }

  lemma {:induction false} RunIsSound(env: Env, actions: seq<Action>)
    requires Sane(env)
    ensures Sound(env, After(env, actions))
  {
    hide Sound, Next;
    if actions == [] {
      EmptyIsSound(env);
    } else {
      var before, a := After(env, actions[..|actions| - 1]), actions[|actions| - 1];
      RunIsSound(env, actions[..|actions| - 1]);
      match a
      case Commit(e) => CommitKeepsSound(env, before, e);
      case Ask(r) => AskKeepsSound(env, before, r);
    }
  }

  lemma EmptyIsSound(env: Env)
    ensures Sound(env, INITIAL)
  {
  }

  lemma {:induction false} HistoryGrows(env: Env, actions: seq<Action>, t: nat)
    requires t <= |actions|
    ensures After(env, actions[..t]).history <= After(env, actions).history
    decreases |actions| - t
  {
    if t == |actions| {
      assert actions[..t] == actions;
    } else {
      var front := actions[..|actions| - 1];
      assert front[..t] == actions[..t];
      HistoryGrows(env, front, t);
    }
  }

  /** The cache is transparent: in any run, an answered request shows a slice of the full scan
      at its checkpoint, whatever was cached, evicted or committed before. */
  lemma ReplyIsSlice(env: Env, actions: seq<Action>, t: nat)
    requires Sane(env) && Answered(env, actions, t)
    ensures var r, h := actions[t].request, After(env, actions[..t]).history;
      var c := CheckpointOf(h, r);
      && c <= |h| && (r.cursor.Some? ==> r.cursor.value.binding == r.binding) && 1 <= r.limit <= 50
      && var m := Matches(env, h[..c], r.binding.filter);
      var offset := if r.cursor.Some? then r.cursor.value.offset else 0;
      && IsFullScan(env, h[..c], r.binding.filter, m)
      && Reply(env, actions, t) ==
           Page(Slice(m, offset, r.limit), |m|, NextCursor(r.binding, c, offset, r.limit, |m|), c)
  {
    RunIsSound(env, actions[..t]);
    var r, h := actions[t].request, After(env, actions[..t]).history;
    var c := CheckpointOf(h, r);
    if c <= |h| { MatchesExactly(env, h[..c], r.binding.filter); }
    hide IsFullScan, Matches;
  }

  ghost predicate Answered(env: Env, actions: seq<Action>, t: nat) {
    t < |actions| && actions[t].Ask? && Reply(env, actions, t).Page?
  }

  /** The request at t sends the cursor returned at the earlier position s. */
  ghost predicate Follows(env: Env, actions: seq<Action>, s: nat, t: nat) {
    && s < t && Answered(env, actions, s) && Answered(env, actions, t)
    && Reply(env, actions, s).next.Some? && actions[t].request.cursor == Reply(env, actions, s).next
  }

  /** The requests at the given positions follow cursors from a first page; any page sizes. */
  ghost predicate IsWalk(env: Env, actions: seq<Action>, times: seq<nat>) {
    && |times| >= 1
    && (forall i :: 0 <= i < |times| ==> Answered(env, actions, times[i]))
    && actions[times[0]].request.cursor.None?
    && (forall i, j :: 0 <= i && j == i + 1 < |times| ==> Follows(env, actions, times[i], times[j]))
  }

  ghost function Pages(env: Env, actions: seq<Action>, times: seq<nat>): seq<Digest>
    requires forall i :: 0 <= i < |times| ==> Answered(env, actions, times[i])
  {
    if times == [] then []
    else
      assert Answered(env, actions, times[|times| - 1]);
      Pages(env, actions, times[..|times| - 1]) + Reply(env, actions, times[|times| - 1]).ids
  }

  /** What a walk has shown so far is the front of the full scan at its first checkpoint, and the
      next cursor points just behind it. */
  lemma {:induction false} WalkShowsFront(env: Env, actions: seq<Action>, times: seq<nat>)
    requires Sane(env) && IsWalk(env, actions, times)
    ensures times[0] <= times[|times| - 1]
    ensures var b, h := actions[times[0]].request.binding, After(env, actions[..times[0]]).history;
      var m := Matches(env, h, b.filter);
      var last := Reply(env, actions, times[|times| - 1]);
      && actions[times[|times| - 1]].request.binding == b
      && last.checkpoint == |h| && last.total == |m|
      && (last.next.None? ==> Pages(env, actions, times) == m)
      && (last.next.Some? ==>
            && last.next.value.offset < |m| && last.next.value == Cursor(b, |h|, last.next.value.offset)
            && Pages(env, actions, times) == m[..last.next.value.offset])
    decreases |times|
  {
    hide Serve, Matches, After, Reply, IsFullScan;
    var n := |times| - 1;
    var t := times[n];
    var front := times[..n];
    var h := After(env, actions[..times[0]]).history;
    ReplyIsSlice(env, actions, t);
    if n == 0 {
      assert h[..|h|] == h;
      assert Pages(env, actions, front) == [];
    } else {
      assert front[n - 1] == times[n - 1];
      assert Follows(env, actions, times[n - 1], times[n]);
      WalkShowsFront(env, actions, front);
      assert actions[..t][..times[0]] == actions[..times[0]];
      HistoryGrows(env, actions[..t], times[0]);
      assert After(env, actions[..t]).history[..|h|] == h;
    }
  }

  /** A returned cursor stays good: sent later under its own binding with a legal page size it
      is answered, and every page on the way moves on by at least one match. */
  lemma CursorStaysGood(env: Env, actions: seq<Action>, s: nat, t: nat)
    requires Sane(env) && s < t < |actions| && Answered(env, actions, s) && actions[t].Ask?
    requires Reply(env, actions, s).next.Some?
    requires actions[t].request.cursor == Reply(env, actions, s).next
    requires actions[t].request.binding == actions[s].request.binding && 1 <= actions[t].request.limit <= 50
    ensures Follows(env, actions, s, t)
    ensures Reply(env, actions, t).ids != []
  {
    hide IsFullScan, Matches;
    ReplyIsSlice(env, actions, s);
    assert actions[..t][..s] == actions[..s];
    HistoryGrows(env, actions[..t], s);
    assert Answered(env, actions, t);
    ReplyIsSlice(env, actions, t);
    var h, h' := After(env, actions[..s]).history, After(env, actions[..t]).history;
    var c := CheckpointOf(h, actions[s].request);
    assert h'[..c] == h[..c];
  }

  /** A walk that reaches the end has shown exactly the matches of one uncached full scan at the
      checkpoint of its first page, in order, nothing repeated and nothing lost. */
  lemma WalkIsFullScan(env: Env, actions: seq<Action>, times: seq<nat>)
    requires Sane(env) && IsWalk(env, actions, times)
    requires Reply(env, actions, times[|times| - 1]).next.None?
    ensures var h, f := After(env, actions[..times[0]]).history, actions[times[0]].request.binding.filter;
      Pages(env, actions, times) == Matches(env, h, f) && IsFullScan(env, h, f, Pages(env, actions, times))
  {
    hide IsFullScan, Matches;
    WalkShowsFront(env, actions, times);
    MatchesExactly(env, After(env, actions[..times[0]]).history, actions[times[0]].request.binding.filter);
  }
}
