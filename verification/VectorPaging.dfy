/** Paging of vector search (apps/api/service.ts: vectorSearchInternal, page, nextCursor): the index
    may change between requests, the ledger at a checkpoint does not. A cursor is bound to the actor,
    the filter and the first page's digest list; a hash of a digest list is the list. */
module VectorPaging {
  import opened Options
  import opened Paging
  import opened Sorting
  import opened VectorRanking

  /** Who asks, and for what. */
  datatype Binding = Binding(org: string, person: string, kind: string, input: Input)

  /** Tied to its binding, its checkpoint and the digest list of the first page. */
  datatype Cursor = Cursor(binding: Binding, checkpoint: nat, offset: nat, listed: seq<Digest>)

  /** One request: the ledger and the index as they are at that moment, and the ranked list the
      service computed. */
  datatype Call = Call(history: seq<Entry>, source: Source, limit: int, cursor: Option<Cursor>, ranked: seq<Item>)

  datatype Response = Page(items: seq<Item>, total: nat, next: Option<Cursor>) | InvalidQuery | InvalidCursor

  function CheckpointOf(call: Call): nat {
    if call.cursor.Some? then call.cursor.value.checkpoint else |call.history|
  }

  function Respond(b: Binding, call: Call): Response {
    if !LegalLimit(call.limit) then InvalidQuery
    else if !CursorOk(b, call.history, call.cursor) then InvalidCursor
    else
      var offset := if call.cursor.Some? then call.cursor.value.offset else 0;
      var listed := Digests(call.ranked);
      if call.cursor.Some? && call.cursor.value.listed != listed then InvalidCursor
      else
        Page(Slice(call.ranked, offset, call.limit), |call.ranked|,
             if offset + call.limit >= |call.ranked| then None
             else Some(Cursor(b, CheckpointOf(call), offset + call.limit, listed)))
  }

  /** The call was accepted, on a ranking of the ledger at its checkpoint. */
  ghost predicate Accepted(b: Binding, call: Call) {
    && CheckpointOf(call) <= |call.history|
    && IsRanking(call.history[..CheckpointOf(call)], b.input, call.source, call.ranked)
    && Respond(b, call).Page?
  }

  predicate CursorOk(b: Binding, history: seq<Entry>, cursor: Option<Cursor>) {
    cursor.Some? ==> cursor.value.binding == b && cursor.value.checkpoint <= |history|
  }

  /** The answer is that of the one ranking at the checkpoint of the request. */
  method VectorSearch(b: Binding, history: seq<Entry>, source: Source, limit: int, cursor: Option<Cursor>)
      returns (response: Response)
    requires Unique(history)
    ensures !(1 <= limit <= 50) ==> response == InvalidQuery
    ensures 1 <= limit <= 50 && cursor.Some? && (cursor.value.binding != b || cursor.value.checkpoint > |history|) ==>
      response == InvalidCursor && forall ranked :: response == Respond(b, Call(history, source, limit, cursor, ranked))
    ensures 1 <= limit <= 50 && CursorOk(b, history, cursor) ==>
      exists ranked ::
        var call := Call(history, source, limit, cursor, ranked);
        && IsRanking(history[..CheckpointOf(call)], b.input, source, ranked) && response == Respond(b, call)
        && (response == InvalidCursor <==> cursor.Some? && cursor.value.listed != Digests(ranked))
  {
    hide IsRanking;
    if !LegalLimit(limit) { return InvalidQuery; }
    if !CursorOk(b, history, cursor) { return InvalidCursor; }
    var checkpoint := if cursor.Some? then cursor.value.checkpoint else |history|;
    var offset := if cursor.Some? then cursor.value.offset else 0;
    var ranked := Ranking(history[..checkpoint], b.input, source);
    if cursor.Some? && cursor.value.listed != Digests(ranked) {
      response := InvalidCursor;
    } else {
      response := Page(Slice(ranked, offset, limit), |ranked|,
        if offset + limit >= |ranked| then None
        else Some(Cursor(b, checkpoint, offset + limit, Digests(ranked))));
    }
    ghost var call := Call(history, source, limit, cursor, ranked);
    assert IsRanking(history[..CheckpointOf(call)], b.input, source, ranked) && response == Respond(b, call);
  }

  ghost predicate Follows(b: Binding, earlier: Call, later: Call) {
    && Accepted(b, earlier) && earlier.history <= later.history
    && Respond(b, earlier).next.Some? && later.cursor == Respond(b, earlier).next
  }

  /** Accepted pages following cursors from a first page, over a growing ledger and any index. */
  ghost predicate IsWalk(b: Binding, calls: seq<Call>) {
    && |calls| >= 1 && calls[0].cursor.None?
    && (forall i :: 0 <= i < |calls| ==> Accepted(b, calls[i]))
    && (forall i, j :: 0 <= i && j == i + 1 < |calls| ==> Follows(b, calls[i], calls[j]))
  }

  ghost function Shown(b: Binding, calls: seq<Call>): seq<Item>
    requires forall i :: 0 <= i < |calls| ==> Accepted(b, calls[i])
  {
    if calls == [] then []
    else
      assert Accepted(b, calls[|calls| - 1]);
      Shown(b, calls[..|calls| - 1]) + Respond(b, calls[|calls| - 1]).items
  }

  function Offset(call: Call): nat { if call.cursor.Some? then call.cursor.value.offset else 0 }

  /** Where a walk stands: all its rankings list the same digests over the same checkpoint. */
  ghost predicate Pinned(first: Call, last: Call) {
    && Digests(last.ranked) == Digests(first.ranked) && |last.ranked| == |first.ranked|
    && CheckpointOf(last) == |first.history| && first.history <= last.history
  }

  ghost predicate Reaches(b: Binding, calls: seq<Call>, shown: nat)
    requires IsWalk(b, calls)
  {
    var first, last := calls[0], calls[|calls| - 1];
    var next := Respond(b, last).next;
    && Offset(last) <= shown <= |first.ranked| && |Shown(b, calls)| == shown
    && (if next.Some? then
          next.value == Cursor(b, |first.history|, shown, Digests(first.ranked)) && shown < |first.ranked|
        else shown == |first.ranked|)
  }

  lemma PageShape(b: Binding, call: Call)
    requires Accepted(b, call) && Offset(call) <= |call.ranked|
    ensures var end := if Offset(call) + call.limit < |call.ranked| then Offset(call) + call.limit else |call.ranked|;
      && Offset(call) <= end && Respond(b, call).items == call.ranked[Offset(call)..end]
      && (Offset(call) < |call.ranked| ==> Offset(call) < end)
      && (if end < |call.ranked| then
            Respond(b, call).next == Some(Cursor(b, CheckpointOf(call), end, Digests(call.ranked)))
          else Respond(b, call).next == None)
    ensures call.cursor.Some? ==> call.cursor.value.listed == Digests(call.ranked)
  {
    hide IsRanking, Digests;
  }

  lemma FrontIsWalk(b: Binding, calls: seq<Call>)
    requires IsWalk(b, calls) && |calls| > 1
    ensures IsWalk(b, calls[..|calls| - 1])
  {
    hide Accepted, Respond, Follows;
    var front := calls[..|calls| - 1];
    forall i | 0 <= i < |front| ensures front[i] == calls[i] && Accepted(b, front[i]) {}
    forall i, j | 0 <= i && j == i + 1 < |front| ensures Follows(b, front[i], front[j]) {
      assert Follows(b, calls[i], calls[j]);
    }
  }

  lemma {:induction false} WalkKeeps(b: Binding, calls: seq<Call>) returns (shown: nat)
    requires IsWalk(b, calls)
    ensures Pinned(calls[0], calls[|calls| - 1]) && Reaches(b, calls, shown)
    ensures Respond(b, calls[|calls| - 1]).items == calls[|calls| - 1].ranked[Offset(calls[|calls| - 1])..shown]
    ensures |Shown(b, calls[..|calls| - 1])| == Offset(calls[|calls| - 1])
  {
    hide IsRanking, Digests, Respond;
    var n := |calls| - 1;
    var first, last, front := calls[0], calls[n], calls[..n];
    assert Accepted(b, last);
    if n == 0 {
      assert Shown(b, front) == [];
    } else {
      assert front[n - 1] == calls[n - 1];
      assert Follows(b, calls[n - 1], calls[n]);
      FrontIsWalk(b, calls);
      var before := WalkKeeps(b, front);
      LengthFromDigests(first.ranked, last.ranked, b, last);
    }
    PageShape(b, last);
    shown := if Respond(b, last).next.Some? then Offset(last) + last.limit else |last.ranked|;
  }

  lemma LengthFromDigests(first: seq<Item>, last: seq<Item>, b: Binding, call: Call)
    requires Accepted(b, call) && call.ranked == last && call.cursor.Some? && call.cursor.value.listed == Digests(first)
    ensures |first| == |last|
  {
    assert |Digests(first)| == |first|;
  }

  /** Every page is a stretch of what the walk shows, at the page's offset. */
  lemma {:induction false} PageInWalk(b: Binding, calls: seq<Call>, k: nat)
    requires IsWalk(b, calls) && k < |calls|
    ensures Respond(b, calls[k]).Page?
    ensures var items, o := Respond(b, calls[k]).items, Offset(calls[k]);
      && o + |items| <= |Shown(b, calls)| && Shown(b, calls)[o..o + |items|] == items
      && o + |items| <= |calls[k].ranked| && items == calls[k].ranked[o..o + |items|]
    ensures Pinned(calls[0], calls[k])
    decreases |calls|
  {
    hide IsRanking, Digests, Respond, CheckpointOf;
    var n := |calls| - 1;
    if k < n {
      assert calls[..n][k] == calls[k];
      FrontIsWalk(b, calls);
      PageInWalk(b, calls[..n], k);
    } else {
      var shown := WalkKeeps(b, calls);
    }
  }

  /** Every position of what a walk shows comes from the page that covers it. */
  lemma {:induction false} PageOf(b: Binding, calls: seq<Call>, p: nat) returns (k: nat)
    requires IsWalk(b, calls) && p < |Shown(b, calls)|
    ensures k < |calls| && Offset(calls[k]) <= p < Offset(calls[k]) + |Respond(b, calls[k]).items|
    decreases |calls|
  {
    hide IsRanking, Digests, Respond, CheckpointOf;
    var n := |calls| - 1;
    var shown := WalkKeeps(b, calls);
    if p < Offset(calls[n]) {
      FrontIsWalk(b, calls);
      k := PageOf(b, calls[..n], p);
    } else {
      k := n;
    }
  }

  ghost predicate Complete(b: Binding, calls: seq<Call>) {
    IsWalk(b, calls) && Respond(b, calls[|calls| - 1]).next.None?
  }

  /******* Positions of a walk *******/

  /** Page k is asked for position p. */
  predicate OnPage(calls: seq<Call>, k: nat, p: nat)
    requires k < |calls|
  {
    calls[k].limit >= 1 && Offset(calls[k]) <= p < Offset(calls[k]) + calls[k].limit && p < |calls[0].ranked|
  }

  /** The score that the index behind page k gives to the digest at position p of the first ranking. */
  ghost function ScoreBehind(b: Binding, calls: seq<Call>, k: nat, p: nat): Option<Option<real>>
    requires k < |calls| && p < |calls[0].ranked|
  {
    ScoreOf(calls[0].history, b.input, calls[k].source, calls[0].ranked[p].digest)
  }

  /** What a walk shows at a position: the digest of the first ranking, with the score behind the
      page that covers the position. */
  lemma PositionShown(b: Binding, calls: seq<Call>, k: nat, p: nat)
    requires IsWalk(b, calls) && k < |calls| && OnPage(calls, k, p)
    ensures p < |Shown(b, calls)| && p < |calls[k].ranked| && Shown(b, calls)[p] == calls[k].ranked[p]
    ensures Shown(b, calls)[p].digest == calls[0].ranked[p].digest
    ensures ScoreBehind(b, calls, k, p) == Some(Shown(b, calls)[p].score)
    ensures ScoreBehind(b, calls, 0, p) == Some(calls[0].ranked[p].score)
  {
    hide Respond, ScoreOf, Digests, IsRanking, Entered;
    PageInWalk(b, calls, k);
    assert Accepted(b, calls[0]) && Accepted(b, calls[k]);
    PageShape(b, calls[k]);
    var o := Offset(calls[k]);
    assert Respond(b, calls[k]).items[p - o] == calls[k].ranked[p];
    SameDigests(calls[0].ranked, calls[k].ranked);
    assert calls[0].history[..CheckpointOf(calls[0])] == calls[0].history;
    assert calls[k].history[..CheckpointOf(calls[k])] == calls[0].history;
    ScoreAt(calls[0].history, b.input, calls[0].source, calls[0].ranked, p);
    ScoreAt(calls[0].history, b.input, calls[k].source, calls[k].ranked, p);
  }

  /** A finished walk covers every position of the first ranking. */
  lemma PageAt(b: Binding, calls: seq<Call>, p: nat) returns (k: nat)
    requires Complete(b, calls) && p < |calls[0].ranked|
    ensures |Shown(b, calls)| == |calls[0].ranked|
    ensures k < |calls| && OnPage(calls, k, p)
  {
    hide IsRanking, Digests, Respond;
    var shown := WalkKeeps(b, calls);
    k := PageOf(b, calls, p);
    PageInWalk(b, calls, k);
    assert Accepted(b, calls[k]);
    PageShape(b, calls[k]);
  }

  /** The pages of a walk meet without a gap. */
  lemma PagesMeet(b: Binding, calls: seq<Call>, k: nat)
    requires IsWalk(b, calls) && 0 < k < |calls|
    ensures 0 < Offset(calls[k]) < |calls[0].ranked|
    ensures OnPage(calls, k - 1, Offset(calls[k]) - 1) && OnPage(calls, k, Offset(calls[k]))
  {
    hide IsRanking, Digests, Respond;
    assert Follows(b, calls[k - 1], calls[k]);
    PageInWalk(b, calls, k - 1);
    PageShape(b, calls[k - 1]);
    LimitIsLegal(b, calls[k]);
  }

  lemma LimitIsLegal(b: Binding, call: Call)
    requires Accepted(b, call)
    ensures LegalLimit(call.limit)
  {
    hide IsRanking;
  }

  /** Any walk that reaches the end shows exactly the digests of one ranked list, the first page's:
      nothing repeated or lost, whatever the index and the ledger did in between. Every page was
      ranked over the same verified revisions. */
  lemma WalkIsOneList(b: Binding, calls: seq<Call>)
    requires Complete(b, calls)
    ensures IsRanking(calls[0].history, b.input, calls[0].source, calls[0].ranked)
    ensures Digests(Shown(b, calls)) == Digests(calls[0].ranked)
  {
    hide IsRanking, Respond, Digests;
    var shown := WalkKeeps(b, calls);
    assert Accepted(b, calls[0]);
    assert calls[0].history[..|calls[0].history|] == calls[0].history;
    forall p | 0 <= p < shown ensures Shown(b, calls)[p].digest == calls[0].ranked[p].digest {
      var k := PageAt(b, calls, p);
      PositionShown(b, calls, k, p);
    }
    SameDigests(Shown(b, calls), calls[0].ranked);
  }

  /******* When a walk is one ranked list with its scores *******/

  /** The item that page k has to show at position p. */
  ghost function ItemBehind(b: Binding, calls: seq<Call>, k: nat, p: nat): Item
    requires k < |calls| && p < |calls[0].ranked|
  {
    var score := ScoreBehind(b, calls, k, p);
    Item(calls[0].ranked[p].digest, if score.Some? then score.value else None)
  }

  /** Where page k begins, its first item belongs behind the last item of the page before. */
  ghost predicate SeamInOrder(b: Binding, calls: seq<Call>, required: set<Digest>, k: nat)
    requires 0 < k < |calls|
  {
    var o := Offset(calls[k]);
    0 < o < |calls[0].ranked| ==> Before(required, ItemBehind(b, calls, k - 1, o - 1), ItemBehind(b, calls, k, o))
  }

  ghost predicate SeamsInOrder(b: Binding, calls: seq<Call>, required: set<Digest>) {
    forall k :: 0 < k < |calls| ==> SeamInOrder(b, calls, required, k)
  }

  /** Two neighbours on one page are in order. */
  lemma PageInOrder(b: Binding, calls: seq<Call>, required: set<Digest>, k: nat, p: nat)
    requires IsWalk(b, calls) && IsRequiredSet(calls[0].history, b.input, required)
    requires k < |calls| && OnPage(calls, k, p) && OnPage(calls, k, p + 1)
    ensures p + 1 < |Shown(b, calls)| && Before(required, Shown(b, calls)[p], Shown(b, calls)[p + 1])
  {
    hide Respond, ScoreOf, Digests, IsRanking, Before, IsRequiredSet, Shown;
    PositionShown(b, calls, k, p);
    PositionShown(b, calls, k, p + 1);
    PageInWalk(b, calls, k);
    assert Accepted(b, calls[k]);
    assert calls[k].history[..CheckpointOf(calls[k])] == calls[0].history;
    RankedBefore(calls[0].history, b.input, calls[k].source, calls[k].ranked, required, p, p + 1);
  }

  /** What stands on the two sides of a seam. */
  lemma SeamShown(b: Binding, calls: seq<Call>, required: set<Digest>, k: nat)
    requires IsWalk(b, calls) && 0 < k < |calls|
    ensures 0 < Offset(calls[k]) < |Shown(b, calls)|
    ensures SeamInOrder(b, calls, required, k) <==>
      Before(required, Shown(b, calls)[Offset(calls[k]) - 1], Shown(b, calls)[Offset(calls[k])])
  {
    hide IsWalk, ScoreBehind, Before, Shown;
    PagesMeet(b, calls, k);
    PositionShown(b, calls, k - 1, Offset(calls[k]) - 1);
    PositionShown(b, calls, k, Offset(calls[k]));
  }

  /** The digests of the required references at the walk's checkpoint. */
  function RequiredIn(b: Binding, calls: seq<Call>): (required: set<Digest>)
    requires |calls| >= 1
    ensures IsRequiredSet(calls[0].history, b.input, required)
  {
    RequiredDigests(calls[0].history, b.input)
  }

  /** A finished walk is in comparator order exactly when it is at every seam. */
  lemma SortedExactly(b: Binding, calls: seq<Call>)
    requires Complete(b, calls)
    ensures Sorted(Comparator(RequiredIn(b, calls)), Shown(b, calls)) <==> SeamsInOrder(b, calls, RequiredIn(b, calls))
  {
    var required := RequiredIn(b, calls);
    hide Respond, Digests, Before, Shown, IsRequiredSet, SeamInOrder, Accepted, RequiredIn;
    forall k | 0 < k < |calls|
      ensures 0 < Offset(calls[k]) < |Shown(b, calls)|
      ensures SeamInOrder(b, calls, required, k) <==>
        Comparator(required)(Shown(b, calls)[Offset(calls[k]) - 1], Shown(b, calls)[Offset(calls[k])])
    {
      SeamShown(b, calls, required, k);
    }
    if SeamsInOrder(b, calls, required) {
      NeighboursInOrder(b, calls, required);
      BeforeIsTransitive(required);
      NeighboursSort(Comparator(required), Shown(b, calls));
    }
  }

  lemma BeforeIsTransitive(required: set<Digest>)
    ensures forall x, y, z :: Comparator(required)(x, y) && Comparator(required)(y, z) ==> Comparator(required)(x, z)
  {
  }

  lemma NeighboursInOrder(b: Binding, calls: seq<Call>, required: set<Digest>)
    requires Complete(b, calls) && IsRequiredSet(calls[0].history, b.input, required)
    requires SeamsInOrder(b, calls, required)
    ensures forall i, j :: 0 <= i && j == i + 1 < |Shown(b, calls)| ==>
      Comparator(required)(Shown(b, calls)[i], Shown(b, calls)[j])
  {
    hide Respond, Digests, Before, Shown, IsRequiredSet, SeamInOrder, Accepted;
    forall i, j | 0 <= i && j == i + 1 < |Shown(b, calls)|
      ensures Comparator(required)(Shown(b, calls)[i], Shown(b, calls)[j])
    {
      var shown := WalkKeeps(b, calls);
      var k := PageAt(b, calls, j);
      if Offset(calls[k]) <= i {
        PageInOrder(b, calls, required, k, i);
      } else {
        SeamShown(b, calls, required, k);
      }
    }
  }

  /** The scores shown by a finished walk make it the ranked list of some index, over the verified
      revisions of its checkpoint, exactly when it is in order at every page start: a check that a
      client can make when each page arrives. */
  lemma WalkIsSomeRankedListExactly(b: Binding, calls: seq<Call>)
    requires Complete(b, calls)
    ensures (exists source :: IsRanking(calls[0].history, b.input, source, Shown(b, calls)))
       <==> SeamsInOrder(b, calls, RequiredIn(b, calls))
  {
    var required := RequiredIn(b, calls);
    hide Respond, Digests, Before, Shown, SeamsInOrder, Accepted, Required, ScoreOf, IsRanking, Candidate, RequiredIn;
    SortedExactly(b, calls);
    if source :| IsRanking(calls[0].history, b.input, source, Shown(b, calls)) {
      forall i, j | 0 <= i < j < |Shown(b, calls)|
        ensures Comparator(required)(Shown(b, calls)[i], Shown(b, calls)[j])
      {
        RankedBefore(calls[0].history, b.input, source, Shown(b, calls), required, i, j);
      }
    }
    if SeamsInOrder(b, calls, required) {
      WalkIsOneList(b, calls);
      UnscoredIsRequired(b, calls, required);
      OrderedIsRanking(calls[0].history, b.input, calls[0].source, calls[0].ranked, Shown(b, calls), required);
    }
  }

  /** A walk shows no score exactly for required references. */
  lemma UnscoredIsRequired(b: Binding, calls: seq<Call>, required: set<Digest>)
    requires Complete(b, calls) && IsRequiredSet(calls[0].history, b.input, required)
    ensures forall p :: 0 <= p < |Shown(b, calls)| ==>
      (Shown(b, calls)[p].score.None? <==> Shown(b, calls)[p].digest in required)
  {
    hide Respond, Digests, Shown, Accepted, Required, FirstScore, Budgeted;
    var shown := WalkKeeps(b, calls);
    forall p | 0 <= p < |Shown(b, calls)|
      ensures Shown(b, calls)[p].score.None? <==> Shown(b, calls)[p].digest in required
    {
      var k := PageAt(b, calls, p);
      PositionShown(b, calls, k, p);
    }
  }

  /** Behind page k the digests on it have the scores they had at first. */
  ghost predicate PageHeld(b: Binding, calls: seq<Call>, k: nat)
    requires k < |calls|
  {
    forall p :: 0 <= p < |calls[0].ranked| && OnPage(calls, k, p) ==>
      ScoreBehind(b, calls, k, p) == ScoreBehind(b, calls, 0, p)
  }

  /** In particular it is the first page's list, scores included, exactly when the scores held. */
  lemma WalkIsFirstListExactly(b: Binding, calls: seq<Call>)
    requires Complete(b, calls)
    ensures Shown(b, calls) == calls[0].ranked <==> forall k :: 0 <= k < |calls| ==> PageHeld(b, calls, k)
  {
    hide Respond, Digests, Shown, Accepted, ScoreBehind;
    var shown := WalkKeeps(b, calls);
    forall k: nat, p: nat | k < |calls| && OnPage(calls, k, p)
      ensures p < |Shown(b, calls)| && p < |calls[0].ranked|
      ensures ScoreBehind(b, calls, k, p) == ScoreBehind(b, calls, 0, p) <==> Shown(b, calls)[p] == calls[0].ranked[p]
    {
      PositionShown(b, calls, k, p);
    }
    if forall k :: 0 <= k < |calls| ==> PageHeld(b, calls, k) {
      forall p | 0 <= p < shown ensures Shown(b, calls)[p] == calls[0].ranked[p] {
        var k := PageAt(b, calls, p);
        assert PageHeld(b, calls, k);
      }
    }
  }

  /** Over an index that stays as it is, and so for a derived scan whose embedder is deterministic, a
      walk is the ranked list. */
  lemma StableWalkIsRankedList(b: Binding, calls: seq<Call>)
    requires Complete(b, calls) && forall k :: 0 <= k < |calls| ==> calls[k].source == calls[0].source
    ensures Shown(b, calls) == calls[0].ranked
  {
    hide Respond, ScoreOf, IsRanking;
    WalkIsFirstListExactly(b, calls);
  }

  /** A finished walk that shows a lower score before a higher one, which no ranked list does. */
  ghost predicate ShowsRise(b: Binding, calls: seq<Call>) {
    && Complete(b, calls)
    && (exists i, j :: 0 <= i < j < |Shown(b, calls)| &&
                       Weight(Shown(b, calls)[i].score) < Weight(Shown(b, calls)[j].score))
    && forall source :: !IsRanking(calls[0].history, b.input, source, Shown(b, calls))
  }

  /** An index that changes scores but not the order leads to one. */
  lemma ScoresCanRise()
    ensures exists b, calls :: ShowsRise(b, calls)
  {
    var b, calls := RisingWalk();
    RisingIsNoRanking(calls[0].history, b.input, Shown(b, calls), 0, 1);
    hide Complete, IsRanking;
    assert ShowsRise(b, calls);
  }

  lemma RisingWalk() returns (b: Binding, calls: seq<Call>)
    ensures Complete(b, calls)
    ensures Shown(b, calls) == [Item(0, Some(0.5)), Item(1, Some(0.75))]
  {
    hide IsRanking;
    var slot := Slot("c", "s", "u");
    var ledger := [Entry(0, "a", slot), Entry(1, "b", slot)];
    b := Binding("o", "p", "human", Input("q", [], None, None, None));
    var first, second := [Item(0, Some(0.5)), Item(1, Some(0.25))], [Item(0, Some(1.0)), Item(1, Some(0.75))];
    TwoItemRanking(ledger, b.input, 0.5, 0.25);
    TwoItemRanking(ledger, b.input, 1.0, 0.75);
    var cursor := Cursor(b, 2, 1, [0, 1]);
    assert Digests(first) == [0, 1] == Digests(second);
    calls := [Call(ledger, External([Proposal(0, 0.5), Proposal(1, 0.25)]), 1, None, first),
              Call(ledger, External([Proposal(0, 1.0), Proposal(1, 0.75)]), 1, Some(cursor), second)];
    assert ledger[..2] == ledger;
    assert Respond(b, calls[0]) == Page([first[0]], 2, Some(cursor));
    assert Respond(b, calls[1]) == Page([second[1]], 2, None);
    assert calls[..1] == [calls[0]] && [calls[0]][..0] == [];
    assert Shown(b, []) == [];
    assert Shown(b, [calls[0]]) == [first[0]];
    assert Shown(b, calls) == [first[0], second[1]];
  }

  lemma TwoItemRanking(ledger: seq<Entry>, input: Input, x: real, y: real)
    requires ledger == [Entry(0, "a", Slot("c", "s", "u")), Entry(1, "b", Slot("c", "s", "u"))]
    requires input == Input("q", [], None, None, None) && x > y
    ensures IsRanking(ledger, input, External([Proposal(0, x), Proposal(1, y)]), [Item(0, Some(x)), Item(1, Some(y))])
  {
    var rows := [Proposal(0, x), Proposal(1, y)];
    assert rows[1..] == [Proposal(1, y)] && rows[1..][1..] == [];
    assert Proper(rows[1..]) == rows[1..];
    assert [rows[0]] + rows[1..] == rows;
    assert IsRequiredSet(ledger, input, {});
    assert Sorted(Comparator({}), [Item(0, Some(x)), Item(1, Some(y))]);
    assert ledger[0] in ledger && ledger[1] in ledger;
    var source, ranked := External(rows), [Item(0, Some(x)), Item(1, Some(y))];
    forall item ensures Entered(ledger, input, source, item) <==> item in ranked {
      assert FirstScore(rows, item.digest) == if item.digest == 0 then Some(x) else FirstScore(rows[1..], item.digest);
    }
  }
}
