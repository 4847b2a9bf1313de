/** Vector candidate ranking (apps/api/service.ts: vectorSearchInternal, resolveRequiredReferences,
    addDerivedScanScores, verifyAndRankCandidates, externalCandidates). A digest is its rank in
    localeCompare order. */
module VectorRanking {
  import opened Options
  import opened Sorting

  const CANDIDATE_LIMIT := 200

  type Digest = nat

  datatype Slot = Slot(context: string, scope: string, usage: string)

  /** One verified revision of the ledger. */
  datatype Entry = Entry(digest: Digest, document: string, slot: Slot)

  datatype Input = Input(
    query: string,
    documents: seq<string>,
    context: Option<string>,
    scope: Option<string>,
    usage: Option<string>)

  /** A row proposed by the external index; a malformed one lacks a digest or a finite score. */
  datatype Row = Malformed | Proposal(digest: Digest, score: real)

  datatype Source = External(rows: seq<Row>) | DerivedScan(similarity: Digest -> real)

  datatype Item = Item(digest: Digest, score: Option<real>)

  /******* What is a candidate, and with which score *******/

  predicate Unset(f: Option<string>, value: string) { f.None? || f.value == value }

  predicate InScope(slot: Slot, input: Input) {
    Unset(input.context, slot.context) && Unset(input.scope, slot.scope) && Unset(input.usage, slot.usage)
  }

  /** Malformed rows are dropped before the budget is counted. */
  function Proper(rows: seq<Row>): seq<Row> {
    if rows == [] then []
    else (if rows[0].Proposal? then [rows[0]] else []) + Proper(rows[1..])
  }

  function Budgeted(rows: seq<Row>): seq<Row> {
    if |Proper(rows)| <= CANDIDATE_LIMIT then Proper(rows) else Proper(rows)[..CANDIDATE_LIMIT]
  }

  /** The first proposal of a digest counts. */
  function FirstScore(rows: seq<Row>, d: Digest): Option<real> {
    if rows == [] then None
    else if rows[0].Proposal? && rows[0].digest == d then Some(rows[0].score)
    else FirstScore(rows[1..], d)
  }

  ghost predicate Verified(ledger: seq<Entry>, d: Digest) {
    exists e :: e in ledger && e.digest == d
  }

  ghost predicate Scoped(ledger: seq<Entry>, input: Input, d: Digest) {
    exists e :: e in ledger && e.digest == d && InScope(e.slot, input)
  }

  ghost predicate Required(ledger: seq<Entry>, input: Input, d: Digest) {
    exists e :: e in ledger && e.digest == d && e.document in input.documents
  }

  /** The score a digest enters the ranking with: a required reference has none. */
  ghost function ScoreOf(ledger: seq<Entry>, input: Input, source: Source, d: Digest): Option<Option<real>> {
    if Required(ledger, input, d) then Some(None)
    else match source
      case External(rows) =>
        var s := FirstScore(Budgeted(rows), d);
        if s.Some? then Some(s) else None
      case DerivedScan(similarity) =>
        if Scoped(ledger, input, d) then Some(Some(similarity(d))) else None
  }

  ghost predicate Candidate(ledger: seq<Entry>, input: Input, source: Source, d: Digest) {
    Scoped(ledger, input, d) && ScoreOf(ledger, input, source, d).Some?
  }

  /******* The order *******/

  function Weight(score: Option<real>): real { if score.Some? then score.value else -1.0 }

  /** The comparator of the ranking. */
  predicate Before(required: set<Digest>, a: Item, b: Item) {
    if (a.digest in required) != (b.digest in required) then a.digest in required
    else if Weight(a.score) != Weight(b.score) then Weight(a.score) > Weight(b.score)
    else a.digest < b.digest
  }

  function Comparator(required: set<Digest>): (Item, Item) -> bool {
    (a: Item, b: Item) => Before(required, a, b)
  }

  predicate OnePerDigest(items: set<Item>) {
    forall a, b :: a in items && b in items && a.digest == b.digest ==> a == b
  }

  lemma ComparatorIsStrict(required: set<Digest>, items: set<Item>)
    requires OnePerDigest(items)
    ensures StrictOrder(Comparator(required), items)
  {
  }

  function Digests(items: seq<Item>): (ds: seq<Digest>)
    ensures |ds| == |items|
    ensures forall i :: 0 <= i < |items| ==> ds[i] == items[i].digest
  {
    if items == [] then [] else [items[0].digest] + Digests(items[1..])
  }

  ghost predicate Entered(ledger: seq<Entry>, input: Input, source: Source, item: Item) {
    Candidate(ledger, input, source, item.digest)
    && ScoreOf(ledger, input, source, item.digest) == Some(item.score)
  }

  ghost predicate IsRequiredSet(ledger: seq<Entry>, input: Input, required: set<Digest>) {
    forall d :: d in required <==> Required(ledger, input, d)
  }

  function RequiredDigests(ledger: seq<Entry>, input: Input): (required: set<Digest>)
    ensures IsRequiredSet(ledger, input, required)
  {
    set e | e in ledger && e.document in input.documents :: e.digest
  }

  /** A ranked list: every candidate once, with its score, in comparator order. */
  ghost predicate IsRanking(ledger: seq<Entry>, input: Input, source: Source, ranked: seq<Item>) {
    && (forall item :: item in ranked <==> Entered(ledger, input, source, item))
    && exists required :: IsRequiredSet(ledger, input, required) && Sorted(Comparator(required), ranked)
  }

  lemma RankingIsUnique(ledger: seq<Entry>, input: Input, source: Source, a: seq<Item>, b: seq<Item>)
    requires IsRanking(ledger, input, source, a) && IsRanking(ledger, input, source, b)
    ensures a == b
  {
    var r :| IsRequiredSet(ledger, input, r) && Sorted(Comparator(r), a);
    var r' :| IsRequiredSet(ledger, input, r') && Sorted(Comparator(r'), b);
    assert r == r';
    assert Elements(a) == Elements(b);
    ComparatorIsStrict(r, Elements(a));
    SortedIsUnique(Comparator(r), a, b);
  }

  /** What the order means: required references first, none of them scored; then the scored
      candidates by non-increasing score, equal scores by digest; nothing twice. */
  lemma RankingOrder(ledger: seq<Entry>, input: Input, source: Source, ranked: seq<Item>, i: nat, j: nat)
    requires IsRanking(ledger, input, source, ranked) && i < j < |ranked|
    ensures ranked[i].digest != ranked[j].digest
    ensures ranked[i].score.None? <==> Required(ledger, input, ranked[i].digest)
    ensures Required(ledger, input, ranked[j].digest) ==> Required(ledger, input, ranked[i].digest)
    ensures ranked[i].score.Some? ==> ranked[j].score.Some? && ranked[i].score.value >= ranked[j].score.value
    ensures ranked[i].score == ranked[j].score ==> ranked[i].digest < ranked[j].digest
  {
    var r :| IsRequiredSet(ledger, input, r) && Sorted(Comparator(r), ranked);
    assert Before(r, ranked[i], ranked[j]);
    assert Entered(ledger, input, source, ranked[i]) && Entered(ledger, input, source, ranked[j]);
  }

  /******* What is listed *******/

  /** A filter that is set is met exactly. */
  ghost predicate Meets(slot: Slot, input: Input) {
    && (forall c :: input.context == Some(c) ==> slot.context == c)
    && (forall c :: input.scope == Some(c) ==> slot.scope == c)
    && (forall c :: input.usage == Some(c) ==> slot.usage == c)
  }

  function ProposedBefore(rows: seq<Row>, n: nat): set<nat> {
    set i: nat | i < n && i < |rows| && rows[i].Proposal?
  }

  /** The row counts: well-formed, the first of its digest, among the first 200 well-formed ones. */
  ghost predicate CountsAt(rows: seq<Row>, i: nat, d: Digest, score: real) {
    && i < |rows| && rows[i] == Proposal(d, score) && |ProposedBefore(rows, i)| < 200
    && forall j :: 0 <= j < i && rows[j].Proposal? ==> rows[j].digest != d
  }

  /** What belongs into the list: of the ledger's revisions that meet the filter, a revision of a
      required document without a score, any other one with the score that the index gives it. */
  ghost predicate Belongs(ledger: seq<Entry>, input: Input, source: Source, item: Item) {
    && (exists e :: e in ledger && e.digest == item.digest && Meets(e.slot, input))
    && if exists e :: e in ledger && e.digest == item.digest && e.document in input.documents then item.score == None
       else
         match source
         case External(rows) => item.score.Some? && exists i :: CountsAt(rows, i, item.digest, item.score.value)
         case DerivedScan(similarity) => item.score == Some(similarity(item.digest))
  }

  lemma {:induction false} ProperRow(rows: seq<Row>, n: nat) returns (i: nat)
    requires n < |Proper(rows)|
    ensures i < |rows| && rows[i] == Proper(rows)[n] && rows[i].Proposal? && |ProposedBefore(rows, i)| == n
  {
    if rows[0].Proposal? && n == 0 {
      i := 0;
      assert ProposedBefore(rows, 0) == {};
    } else {
      var first := if rows[0].Proposal? then 1 else 0;
      i := ProperRow(rows[1..], n - first);
      i := i + 1;
      ProposedStep(rows, i);
    }
  }

  lemma ProposedStep(rows: seq<Row>, i: nat)
    requires 0 < i <= |rows|
    ensures |ProposedBefore(rows, i)| == |ProposedBefore(rows[1..], i - 1)| + (if rows[0].Proposal? then 1 else 0)
  {
    var rest := ProposedBefore(rows[1..], i - 1);
    var moved := Moved(rest);
    MovedSize(rest);
    var first: set<nat> := if rows[0].Proposal? then {0} else {};
    assert ProposedBefore(rows, i) == first + moved by {
      forall k: nat ensures k in moved <==> k > 0 && k in ProposedBefore(rows, i) {
        MovedHolds(rest, k);
        if k > 0 { assert k < |rows| ==> rows[k] == rows[1..][k - 1]; }
      }
    }
    assert first !! moved;
  }

  function Moved(ks: set<nat>): set<nat> {
    set k: nat | k in ks :: k + 1
  }

  lemma MovedHolds(ks: set<nat>, k: nat)
    ensures k in Moved(ks) <==> k > 0 && k - 1 in ks
  {
    if k > 0 && k - 1 in ks {
      var j: nat := k - 1;
      assert j in ks && j + 1 == k;
    }
  }

  lemma {:induction false} MovedSize(ks: set<nat>)
    ensures |Moved(ks)| == |ks|
    decreases |ks|
  {
    if ks != {} {
      var k :| k in ks;
      MovedSize(ks - {k});
      forall j: nat ensures j in Moved(ks) <==> j in Moved(ks - {k}) + {k + 1} {
        MovedHolds(ks, j);
        MovedHolds(ks - {k}, j);
      }
      MovedHolds(ks - {k}, k + 1);
      hide Moved;
      assert Moved(ks) == Moved(ks - {k}) + {k + 1};
    }
  }

  /** The rank of a row among the well-formed ones. */
  lemma {:induction false} RowIsProper(rows: seq<Row>, i: nat)
    requires i < |rows| && rows[i].Proposal?
    ensures var n := |ProposedBefore(rows, i)|; n < |Proper(rows)| && Proper(rows)[n] == rows[i]
  {
    if i == 0 {
      assert ProposedBefore(rows, 0) == {};
    } else {
      RowIsProper(rows[1..], i - 1);
      ProposedStep(rows, i);
    }
  }

  lemma RanksAscend(rows: seq<Row>, i: nat, j: nat)
    requires i < j < |rows| && rows[i].Proposal?
    ensures |ProposedBefore(rows, i)| < |ProposedBefore(rows, j)|
  {
    var a, b := ProposedBefore(rows, i), ProposedBefore(rows, j);
    assert a + {i} <= b && i !in a;
    assert b == (a + {i}) + (b - a - {i});
  }

  lemma {:induction false} FirstScoreAt(rows: seq<Row>, d: Digest) returns (n: nat)
    requires FirstScore(rows, d).Some?
    ensures n < |rows| && rows[n] == Proposal(d, FirstScore(rows, d).value)
    ensures forall m :: 0 <= m < n && rows[m].Proposal? ==> rows[m].digest != d
  {
    if rows[0].Proposal? && rows[0].digest == d {
      n := 0;
    } else {
      n := FirstScoreAt(rows[1..], d);
      n := n + 1;
    }
  }

  lemma {:induction false} FirstScoreIs(rows: seq<Row>, n: nat, d: Digest, score: real)
    requires n < |rows| && rows[n] == Proposal(d, score)
    requires forall m :: 0 <= m < n && rows[m].Proposal? ==> rows[m].digest != d
    ensures FirstScore(rows, d) == Some(score)
  {
    if n > 0 {
      assert forall m :: 0 <= m < n - 1 ==> rows[1..][m] == rows[m + 1];
      FirstScoreIs(rows[1..], n - 1, d, score);
    }
  }

  lemma ScoreExactly(rows: seq<Row>, d: Digest, score: real)
    ensures FirstScore(Budgeted(rows), d) == Some(score) <==> exists i :: CountsAt(rows, i, d, score)
  {
    var proper := Proper(rows);
    if FirstScore(Budgeted(rows), d) == Some(score) {
      var n := FirstScoreAt(Budgeted(rows), d);
      var i := ProperRow(rows, n);
      forall j: nat | j < i && rows[j].Proposal? ensures rows[j].digest != d {
        RowIsProper(rows, j);
        RanksAscend(rows, j, i);
        assert Budgeted(rows)[|ProposedBefore(rows, j)|] == rows[j];
      }
      assert CountsAt(rows, i, d, score);
    }
    if i :| CountsAt(rows, i, d, score) {
      RowIsProper(rows, i);
      var n := |ProposedBefore(rows, i)|;
      forall m: nat | m < n ensures Budgeted(rows)[m] == proper[m] && (proper[m].Proposal? ==> proper[m].digest != d) {
        var j := ProperRow(rows, m);
        if j > i { RanksAscend(rows, i, j); }
      }
      FirstScoreIs(Budgeted(rows), n, d, score);
    }
  }

  lemma EnteredExactly(ledger: seq<Entry>, input: Input, source: Source, item: Item)
    ensures Entered(ledger, input, source, item) <==> Belongs(ledger, input, source, item)
  {
    forall e | e in ledger ensures InScope(e.slot, input) <==> Meets(e.slot, input) {}
    assert Scoped(ledger, input, item.digest) <==>
      exists e :: e in ledger && e.digest == item.digest && Meets(e.slot, input);
    if source.External? && item.score.Some? { ScoreExactly(source.rows, item.digest, item.score.value); }
    hide InScope, Meets, CountsAt, FirstScore, Budgeted;
  }

  /** A ranking lists exactly what belongs into it. */
  lemma RankingExactly(ledger: seq<Entry>, input: Input, source: Source, ranked: seq<Item>)
    requires IsRanking(ledger, input, source, ranked)
    ensures forall item :: item in ranked <==> Belongs(ledger, input, source, item)
  {
    forall item ensures Entered(ledger, input, source, item) <==> Belongs(ledger, input, source, item) {
      EnteredExactly(ledger, input, source, item);
    }
    hide Entered, Belongs;
  }

  /** A list in which a score rises is no ranking, for any index. */
  lemma RisingIsNoRanking(ledger: seq<Entry>, input: Input, items: seq<Item>, i: nat, j: nat)
    requires i < j < |items| && items[i].score.Some? && items[j].score.Some?
    requires items[i].score.value < items[j].score.value
    ensures forall source :: !IsRanking(ledger, input, source, items)
  {
    hide IsRanking;
    forall source ensures !IsRanking(ledger, input, source, items) {
      if IsRanking(ledger, input, source, items) { RankingOrder(ledger, input, source, items, i, j); }
    }
  }

  /** The derived scan is complete: it lists every verified revision in scope. */
  lemma DerivedScanIsComplete(ledger: seq<Entry>, input: Input, similarity: Digest -> real, ranked: seq<Item>,
                              d: Digest)
    requires IsRanking(ledger, input, DerivedScan(similarity), ranked)
    ensures d in Digests(ranked) <==> Scoped(ledger, input, d)
  {
    var source := DerivedScan(similarity);
    if Scoped(ledger, input, d) {
      var item := Item(d, ScoreOf(ledger, input, source, d).value);
      assert Entered(ledger, input, source, item);
      var i :| 0 <= i < |ranked| && ranked[i] == item;
      assert Digests(ranked)[i] == d;
    }
    if d in Digests(ranked) {
      var i :| 0 <= i < |ranked| && Digests(ranked)[i] == d;
      assert Entered(ledger, input, source, ranked[i]);
    }
  }

  /******* The service's loops *******/

  method ResolveRequired(ledger: seq<Entry>, input: Input) returns (scores: map<Digest, Option<real>>,
                         required: set<Digest>)
    ensures IsRequiredSet(ledger, input, required)
    ensures scores.Keys == required && forall d :: d in scores ==> scores[d] == None
  {
    scores, required := map[], {};
    for n := 0 to |input.documents|
      invariant forall d :: d in required <==>
        exists e :: e in ledger && e.digest == d && e.document in input.documents[..n]
      invariant scores.Keys == required && forall d :: d in scores ==> scores[d] == None
    {
      var before := required;
      for m := 0 to |ledger|
        invariant forall d :: d in required <==>
          d in before || exists e :: e in ledger[..m] && e.digest == d && e.document == input.documents[n]
        invariant scores.Keys == required && forall d :: d in scores ==> scores[d] == None
      {
        var e := ledger[m];
        assert ledger[..m + 1] == ledger[..m] + [e];
        if e.document == input.documents[n] {
          if e.digest !in scores { scores := scores[e.digest := None]; }
          required := required + {e.digest};
        }
      }
      assert ledger[..|ledger|] == ledger;
      assert input.documents[..n + 1] == input.documents[..n] + [input.documents[n]];
    }
    assert input.documents[..|input.documents|] == input.documents;
  }

  lemma {:induction false} FirstScoreSplit(a: seq<Row>, r: Row, d: Digest)
    ensures FirstScore(a + [r], d) ==
      if FirstScore(a, d).Some? then FirstScore(a, d)
      else if r.Proposal? && r.digest == d then Some(r.score) else None
  {
    if a == [] {
      assert a + [r] == [r];
      assert [r][1..] == [];
    } else {
      assert (a + [r])[1..] == a[1..] + [r];
      FirstScoreSplit(a[1..], r, d);
    }
  }

  method AddExternal(rows: seq<Row>, pinned: map<Digest, Option<real>>) returns (scores: map<Digest, Option<real>>)
    requires forall d :: d in pinned ==> pinned[d] == None
    ensures forall d :: d in scores <==> d in pinned || FirstScore(Budgeted(rows), d).Some?
    ensures forall d :: d in scores ==> scores[d] == if d in pinned then None else FirstScore(Budgeted(rows), d)
  {
    var candidates := Budgeted(rows);
    scores := pinned;
    for n := 0 to |candidates|
      invariant forall d :: d in scores <==> d in pinned || FirstScore(candidates[..n], d).Some?
      invariant forall d :: d in scores ==> scores[d] == if d in pinned then None else FirstScore(candidates[..n], d)
    {
      var c := candidates[n];
      assert candidates[..n + 1] == candidates[..n] + [c];
      forall d: Digest { FirstScoreSplit(candidates[..n], c, d); }
      if c.Proposal? && c.digest !in scores { scores := scores[c.digest := Some(c.score)]; }
    }
    assert candidates[..|candidates|] == candidates;
  }

  method AddDerived(ledger: seq<Entry>, input: Input, similarity: Digest -> real, pinned: map<Digest, Option<real>>,
                    required: set<Digest>) returns (scores: map<Digest, Option<real>>)
    requires pinned.Keys == required && forall d :: d in pinned ==> pinned[d] == None
    ensures forall d :: d in scores <==> d in pinned || Scoped(ledger, input, d)
    ensures forall d :: d in scores ==> scores[d] == if d in pinned then None else Some(similarity(d))
  {
    scores := pinned;
    for n := 0 to |ledger|
      invariant forall d :: d in scores <==> d in pinned || Scoped(ledger[..n], input, d)
      invariant forall d :: d in scores ==> scores[d] == if d in pinned then None else Some(similarity(d))
    {
      var e := ledger[n];
      assert ledger[..n + 1] == ledger[..n] + [e];
      if InScope(e.slot, input) && e.digest !in required { scores := scores[e.digest := Some(similarity(e.digest))]; }
    }
    assert ledger[..|ledger|] == ledger;
  }

  /** One record per digest. */
  predicate Unique(ledger: seq<Entry>) {
    forall a, b :: a in ledger && b in ledger && a.digest == b.digest ==> a == b
  }

  function Annotation(ledger: seq<Entry>, d: Digest): (e: Option<Entry>)
    ensures e.Some? ==> e.value in ledger && e.value.digest == d
    ensures e.None? ==> !Verified(ledger, d)
  {
    if ledger == [] then None
    else if ledger[0].digest == d then Some(ledger[0])
    else Annotation(ledger[1..], d)
  }

  method Rank(ledger: seq<Entry>, input: Input, scores: map<Digest, Option<real>>, required: set<Digest>)
      returns (ranked: seq<Item>)
    requires Unique(ledger)
    ensures forall item :: item in ranked <==>
      item.digest in scores && scores[item.digest] == item.score && Scoped(ledger, input, item.digest)
    ensures Sorted(Comparator(required), ranked)
  {
    var kept: seq<Item> := [];
    var rest := scores.Keys;
    while rest != {}
      invariant rest <= scores.Keys && Distinct(kept)
      invariant forall item :: item in kept <==>
        && item.digest in scores && item.digest !in rest && scores[item.digest] == item.score
        && Scoped(ledger, input, item.digest)
      decreases rest
    {
      var d :| d in rest;
      rest := rest - {d};
      var reference := Annotation(ledger, d);
      if reference.Some? && InScope(reference.value.slot, input) { kept := kept + [Item(d, scores[d])]; }
    }
    ComparatorIsStrict(required, Elements(kept));
    SortSorts(Comparator(required), kept, Elements(kept));
    ranked := Sort(Comparator(required), kept);
    forall item ensures item in ranked <==> item in kept {
      assert item in Elements(ranked) <==> item in Elements(kept);
    }
  }

  method Ranking(ledger: seq<Entry>, input: Input, source: Source) returns (ranked: seq<Item>)
    requires Unique(ledger)
    ensures IsRanking(ledger, input, source, ranked)
    ensures forall d :: Required(ledger, input, d) && Scoped(ledger, input, d) ==> Item(d, None) in ranked
  {
    var scores, required := ResolveRequired(ledger, input);
    match source {
      case External(rows) => scores := AddExternal(rows, scores);
      case DerivedScan(similarity) => scores := AddDerived(ledger, input, similarity, scores, required);
    }
    ranked := Rank(ledger, input, scores, required);
    forall d | Required(ledger, input, d) && Scoped(ledger, input, d) ensures Item(d, None) in ranked {
      assert Entered(ledger, input, source, Item(d, None));
    }
  }

  lemma SameDigests(a: seq<Item>, b: seq<Item>)
    ensures Digests(a) == Digests(b) <==> |a| == |b| && forall i :: 0 <= i < |a| ==> a[i].digest == b[i].digest
  {
  }

  lemma ScoreAt(ledger: seq<Entry>, input: Input, source: Source, ranked: seq<Item>, p: nat)
    requires IsRanking(ledger, input, source, ranked) && p < |ranked|
    ensures ScoreOf(ledger, input, source, ranked[p].digest) == Some(ranked[p].score)
  {
    hide ScoreOf;
    assert ranked[p] in ranked;
    assert Entered(ledger, input, source, ranked[p]);
  }

  /** Two items of a ranking stand in comparator order, for the set of required digests. */
  lemma RankedBefore(ledger: seq<Entry>, input: Input, source: Source, ranked: seq<Item>, required: set<Digest>,
                     i: nat, j: nat)
    requires IsRanking(ledger, input, source, ranked) && IsRequiredSet(ledger, input, required) && i < j < |ranked|
    ensures Before(required, ranked[i], ranked[j])
  {
    hide Required, Before;
    var r :| IsRequiredSet(ledger, input, r) && Sorted(Comparator(r), ranked);
    assert r == required;
    assert Comparator(r)(ranked[i], ranked[j]);
  }

  /******* Other scores for the same candidates *******/

  /** The score that a list gives to a digest. */
  function ListedScore(items: seq<Item>, d: Digest): real {
    if items == [] then 0.0
    else if items[0].digest == d && items[0].score.Some? then items[0].score.value
    else ListedScore(items[1..], d)
  }

  function Rescore(rows: seq<Row>, items: seq<Item>): seq<Row> {
    if rows == [] then []
    else
      [if rows[0].Proposal? then Proposal(rows[0].digest, ListedScore(items, rows[0].digest)) else Malformed]
        + Rescore(rows[1..], items)
  }

  /** An index that proposes the same digests with the scores of a list. */
  function Rescored(source: Source, items: seq<Item>): Source {
    match source
    case External(rows) => External(Rescore(rows, items))
    case DerivedScan(_) => DerivedScan((d: Digest) => ListedScore(items, d))
  }

  lemma {:induction false} ListedScoreOf(items: seq<Item>, p: nat)
    requires p < |items| && items[p].score.Some?
    requires forall i, j :: 0 <= i < j < |items| ==> items[i].digest != items[j].digest
    ensures ListedScore(items, items[p].digest) == items[p].score.value
  {
    if p > 0 {
      assert items[0].digest != items[p].digest;
      ListedScoreOf(items[1..], p - 1);
    }
  }

  lemma {:induction false} RescoredProper(rows: seq<Row>, items: seq<Item>)
    ensures Proper(Rescore(rows, items)) == Rescore(Proper(rows), items)
    ensures |Rescore(rows, items)| == |rows|
  {
    if rows != [] {
      RescoredProper(rows[1..], items);
      if rows[0].Proposal? {
        assert Proper(rows) == [rows[0]] + Proper(rows[1..]);
        assert Proper(rows)[1..] == Proper(rows[1..]);
        var r := Rescore(rows, items);
        assert r[1..] == Rescore(rows[1..], items);
      } else {
        assert Rescore(rows, items)[1..] == Rescore(rows[1..], items);
        assert Proper(rows) == Proper(rows[1..]);
      }
    }
  }

  lemma {:induction false} RescoreTake(rows: seq<Row>, items: seq<Item>, n: nat)
    requires n <= |rows|
    ensures |Rescore(rows, items)| == |rows|
    ensures Rescore(rows, items)[..n] == Rescore(rows[..n], items)
  {
    if rows != [] {
      RescoreTake(rows[1..], items, if n == 0 then 0 else n - 1);
      if n > 0 { assert rows[..n][1..] == rows[1..][..n - 1]; }
    }
  }

  lemma {:induction false} RescoredFirst(rows: seq<Row>, items: seq<Item>, d: Digest)
    ensures FirstScore(Rescore(rows, items), d) ==
      if FirstScore(rows, d).Some? then Some(ListedScore(items, d)) else None
  {
    if rows != [] {
      RescoredFirst(rows[1..], items, d);
      assert Rescore(rows, items)[1..] == Rescore(rows[1..], items);
    }
  }

  /** The same candidates as before, each with its listed score. */
  lemma RescoredScore(ledger: seq<Entry>, input: Input, source: Source, items: seq<Item>, d: Digest)
    ensures ScoreOf(ledger, input, Rescored(source, items), d) ==
      if Required(ledger, input, d) then Some(None)
      else if ScoreOf(ledger, input, source, d).Some? then Some(Some(ListedScore(items, d)))
      else None
  {
    hide Required, Scoped, ListedScore;
    match source {
      case External(rows) =>
        RescoredProper(rows, items);
        RescoredProper(Proper(rows), items);
        if |Proper(rows)| > CANDIDATE_LIMIT { RescoreTake(Proper(rows), items, CANDIDATE_LIMIT); }
        assert Budgeted(Rescore(rows, items)) == Rescore(Budgeted(rows), items);
        RescoredFirst(Budgeted(rows), items, d);
      case DerivedScan(_) =>
    }
  }

  lemma DistinctDigests(ledger: seq<Entry>, input: Input, source: Source, ranked: seq<Item>, items: seq<Item>)
    requires IsRanking(ledger, input, source, ranked) && Digests(items) == Digests(ranked)
    ensures forall i, j :: 0 <= i < j < |items| ==> items[i].digest != items[j].digest
  {
    hide IsRanking, Digests;
    SameDigests(items, ranked);
    forall i, j | 0 <= i < j < |items| ensures items[i].digest != items[j].digest {
      RankingOrder(ledger, input, source, ranked, i, j);
    }
  }

  /** Every listed item enters the rescored ranking. */
  lemma ListedEnters(ledger: seq<Entry>, input: Input, source: Source, ranked: seq<Item>, items: seq<Item>, p: nat)
    requires IsRanking(ledger, input, source, ranked) && Digests(items) == Digests(ranked) && p < |items|
    requires items[p].score.None? <==> Required(ledger, input, items[p].digest)
    ensures Entered(ledger, input, Rescored(source, items), items[p])
  {
    DistinctDigests(ledger, input, source, ranked, items);
    SameDigests(items, ranked);
    assert ranked[p] in ranked;
    assert Entered(ledger, input, source, ranked[p]);
    hide IsRanking, Digests, Required, Scoped, ScoreOf, ListedScore, Rescored;
    RescoredScore(ledger, input, source, items, items[p].digest);
    if items[p].score.Some? { ListedScoreOf(items, p); }
  }

  /** Whatever enters the rescored ranking has its digest in the ranking. */
  lemma EntersAtDigest(ledger: seq<Entry>, input: Input, source: Source, ranked: seq<Item>, items: seq<Item>,
                       item: Item) returns (p: nat)
    requires IsRanking(ledger, input, source, ranked) && Entered(ledger, input, Rescored(source, items), item)
    ensures p < |ranked| && ranked[p].digest == item.digest
  {
    RescoredScore(ledger, input, source, items, item.digest);
    hide Required, Scoped, ListedScore, Rescored, FirstScore, Budgeted;
    var original := Item(item.digest, ScoreOf(ledger, input, source, item.digest).value);
    assert Entered(ledger, input, source, original);
    p :| 0 <= p < |ranked| && ranked[p] == original;
  }

  /** A list with the digests of a ranking, unscored exactly where required, is itself a ranking,
      for an index with its scores, as soon as it is in order. */
  lemma OrderedIsRanking(ledger: seq<Entry>, input: Input, source: Source, ranked: seq<Item>, items: seq<Item>,
                         required: set<Digest>)
    requires IsRanking(ledger, input, source, ranked) && IsRequiredSet(ledger, input, required)
    requires Digests(items) == Digests(ranked)
    requires forall p :: 0 <= p < |items| ==> (items[p].score.None? <==> items[p].digest in required)
    requires Sorted(Comparator(required), items)
    ensures IsRanking(ledger, input, Rescored(source, items), items)
  {
    SameDigests(items, ranked);
    forall p: nat | p < |items| ensures Entered(ledger, input, Rescored(source, items), items[p]) {
      ListedEnters(ledger, input, source, ranked, items, p);
    }
    forall item | Entered(ledger, input, Rescored(source, items), item) ensures item in items {
      var p := EntersAtDigest(ledger, input, source, ranked, items, item);
      assert Entered(ledger, input, Rescored(source, items), items[p]);
      SameEntry(ledger, input, Rescored(source, items), items[p], item);
    }
    hide Required, Entered, Digests, Before;
  }

  lemma SameEntry(ledger: seq<Entry>, input: Input, source: Source, a: Item, b: Item)
    requires Entered(ledger, input, source, a) && Entered(ledger, input, source, b) && a.digest == b.digest
    ensures a == b
  {
    hide ScoreOf, Candidate;
  }
}
