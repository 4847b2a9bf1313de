/** The result cache of the search endpoint (apps/api/search-matches.ts): one insertion-ordered
    map and a side set of keys act as two independent least-recently-used pools. */
module SearchMatchCache {
  import opened Options
  import J = JsonText

  type Key = string
  type Id = string

  datatype Limits = Limits(maxEntries: nat, maxIds: nat, maxBytes: nat, maxOversizedBytes: nat)

  const DEFAULT_LIMITS := Limits(8, 20_000, 2 * 1024 * 1024, 64 * 1024 * 1024)

  datatype Entry = Entry(key: Key, ids: seq<Id>, bytes: nat)

  /******* Sizes *******/

  /** Bytes of a string in UTF-8. */
  function ByteLength(s: string): nat {
    if s == "" then 0
    else
      var c := s[0] as int;
      (if c < 0x80 then 1 else if c < 0x800 then 2 else if c < 0x1_0000 then 3 else 4) + ByteLength(s[1..])
  }

  function IdBytes(ids: seq<Id>): nat {
    if ids == [] then 0 else ByteLength(ids[0]) + IdBytes(ids[1..])
  }

  function MakeEntry(key: Key, ids: seq<Id>): Entry {
    Entry(key, ids, ByteLength(key) + IdBytes(ids))
  }

  function SumIds(es: seq<Entry>): nat {
    if es == [] then 0 else |es[0].ids| + SumIds(es[1..])
  }

  function SumBytes(es: seq<Entry>): nat {
    if es == [] then 0 else es[0].bytes + SumBytes(es[1..])
  }

  /******* One least-recently-used pool, oldest entry first *******/

  ghost predicate Has(es: seq<Entry>, key: Key) {
    exists e :: e in es && e.key == key
  }

  function Without(es: seq<Entry>, key: Key): seq<Entry> {
    if es == [] then []
    else if es[0].key == key then Without(es[1..], key)
    else [es[0]] + Without(es[1..], key)
  }

  function Lookup(es: seq<Entry>, key: Key): Option<Entry> {
    if es == [] then None
    else if es[0].key == key then Some(es[0])
    else Lookup(es[1..], key)
  }

  /** A hit makes the entry the most recent one. */
  function Touch(es: seq<Entry>, key: Key): seq<Entry> {
    match Lookup(es, key)
    case None => es
    case Some(e) => Without(es, key) + [e]
  }

  predicate Big(e: Entry, l: Limits) { |e.ids| > l.maxIds }

  predicate Accepted(e: Entry, l: Limits) {
    e.bytes <= if Big(e, l) then l.maxOversizedBytes else l.maxBytes
  }

  /** The pool, with e added to it, stays within the budgets of e's kind. */
  predicate Fits(pool: seq<Entry>, e: Entry, l: Limits) {
    && |pool| < l.maxEntries
    && (if Big(e, l) then SumBytes(pool) + e.bytes <= l.maxOversizedBytes
        else SumIds(pool) + |e.ids| <= l.maxIds && SumBytes(pool) + e.bytes <= l.maxBytes)
  }

  /** Evicts from the old end until e fits or nothing is left. */
  function Evict(pool: seq<Entry>, e: Entry, l: Limits): seq<Entry> {
    if pool == [] || Fits(pool, e, l) then pool else Evict(pool[1..], e, l)
  }

  function PoolPut(pool: seq<Entry>, e: Entry, l: Limits): seq<Entry> {
    Evict(Without(pool, e.key), e, l) + [e]
  }

  /******* Two pools *******/

  datatype Pools = Pools(normal: seq<Entry>, oversized: seq<Entry>)

  datatype Op = Get(key: Key) | Put(key: Key, ids: seq<Id>)

  /** What one call does to each pool. Neither pool's new state depends on the other pool. */
  function Step(p: Pools, op: Op, l: Limits): Pools {
    match op
    case Get(key) => Pools(Touch(p.normal, key), Touch(p.oversized, key))
    case Put(key, ids) =>
      var e := MakeEntry(key, ids);
      if !Accepted(e, l) then Pools(Without(p.normal, key), Without(p.oversized, key))
      else if Big(e, l) then Pools(Without(p.normal, key), PoolPut(p.oversized, e, l))
      else Pools(PoolPut(p.normal, e, l), Without(p.oversized, key))
  }

  function Find(p: Pools, key: Key): Option<seq<Id>> {
    match Lookup(p.normal, key)
    case Some(e) => Some(e.ids)
    case None =>
      match Lookup(p.oversized, key)
      case Some(e) => Some(e.ids)
      case None => None
  }

  /******* The insertion-ordered map *******/

  ghost predicate UniqueKeys(es: seq<Entry>) {
    forall i, j :: 0 <= i < j < |es| ==> es[i].key != es[j].key
  }

  /** The entries of one kind, in insertion order. */
  function Part(es: seq<Entry>, big: bool, l: Limits): seq<Entry> {
    if es == [] then []
    else if Big(es[0], l) == big then [es[0]] + Part(es[1..], big, l)
    else Part(es[1..], big, l)
  }

  function PartOf(es: seq<Entry>, l: Limits): Pools {
    Pools(Part(es, false, l), Part(es, true, l))
  }

  function KeysOf(es: seq<Entry>): set<Key> {
    set e | e in es :: e.key
  }

  lemma UniqueHead(es: seq<Entry>)
    requires UniqueKeys(es) && es != []
    ensures UniqueKeys(es[1..]) && !Has(es[1..], es[0].key)
    ensures es == [es[0]] + es[1..]
  {
    forall e | e in es[1..] ensures e.key != es[0].key {
      var i :| 0 <= i < |es[1..]| && es[1..][i] == e;
      assert es[i + 1] == e;
    }
  }

  lemma UniqueCons(e: Entry, es: seq<Entry>)
    requires UniqueKeys(es) && !Has(es, e.key)
    ensures UniqueKeys([e] + es)
  {
    forall i | 0 <= i < |es| ensures es[i].key != e.key { assert es[i] in es; }
  }

  lemma {:induction false} WithoutMembers(es: seq<Entry>, key: Key)
    ensures forall e :: e in Without(es, key) <==> e in es && e.key != key
    ensures !Has(es, key) ==> Without(es, key) == es
  {
    if es != [] {
      WithoutMembers(es[1..], key);
      assert es == [es[0]] + es[1..];
      assert es[0] in es;
    }
  }

  lemma {:induction false} WithoutUnique(es: seq<Entry>, key: Key)
    requires UniqueKeys(es)
    ensures UniqueKeys(Without(es, key)) && !Has(Without(es, key), key)
  {
    WithoutMembers(es, key);
    if es != [] {
      UniqueHead(es);
      WithoutUnique(es[1..], key);
      WithoutMembers(es[1..], key);
      if es[0].key != key { UniqueCons(es[0], Without(es[1..], key)); }
    }
  }

  lemma {:induction false} WithoutSums(es: seq<Entry>, key: Key)
    requires UniqueKeys(es)
    ensures match Lookup(es, key)
      case None => !Has(es, key) && Without(es, key) == es
      case Some(e) =>
        && e in es && e.key == key
        && SumIds(Without(es, key)) == SumIds(es) - |e.ids|
        && SumBytes(Without(es, key)) == SumBytes(es) - e.bytes
        && |Without(es, key)| == |es| - 1
  {
    if es != [] {
      UniqueHead(es);
      WithoutSums(es[1..], key);
      WithoutMembers(es[1..], key);
      if es[0].key != key { assert Without(es, key)[1..] == Without(es[1..], key); }
    }
  }

  lemma {:induction false} LookupIs(es: seq<Entry>, e: Entry)
    requires e in es && UniqueKeys(es)
    ensures Lookup(es, e.key) == Some(e)
  {
    UniqueHead(es);
    if es[0] != e { LookupIs(es[1..], e); }
  }

  /** Two entries of a duplicate-free list with the same key are the same entry. */
  lemma SameKey(es: seq<Entry>, a: Entry, b: Entry)
    requires a in es && b in es && UniqueKeys(es) && a.key == b.key
    ensures a == b
  {
    LookupIs(es, a);
    LookupIs(es, b);
  }

  lemma {:induction false} PartMembers(es: seq<Entry>, big: bool, l: Limits)
    ensures forall e :: e in Part(es, big, l) <==> e in es && Big(e, l) == big
  {
    if es != [] {
      PartMembers(es[1..], big, l);
      assert es == [es[0]] + es[1..];
    }
  }

  lemma {:induction false} PartUnique(es: seq<Entry>, big: bool, l: Limits)
    requires UniqueKeys(es)
    ensures UniqueKeys(Part(es, big, l))
  {
    if es != [] {
      UniqueHead(es);
      PartUnique(es[1..], big, l);
      PartMembers(es[1..], big, l);
      if Big(es[0], l) == big { UniqueCons(es[0], Part(es[1..], big, l)); }
    }
  }

  /** The two parts share out the entries and their sums. */
  lemma {:induction false} PartSums(es: seq<Entry>, l: Limits)
    ensures |Part(es, true, l)| + |Part(es, false, l)| == |es|
    ensures SumIds(Part(es, true, l)) + SumIds(Part(es, false, l)) == SumIds(es)
    ensures SumBytes(Part(es, true, l)) + SumBytes(Part(es, false, l)) == SumBytes(es)
  {
    if es != [] {
      PartSums(es[1..], l);
      var own := Part(es, Big(es[0], l), l);
      assert own == [es[0]] + Part(es[1..], Big(es[0], l), l);
      assert own[1..] == Part(es[1..], Big(es[0], l), l);
      assert Part(es, !Big(es[0], l), l) == Part(es[1..], !Big(es[0], l), l);
    }
  }

  lemma {:induction false} PartWithout(es: seq<Entry>, key: Key, big: bool, l: Limits)
    ensures Part(Without(es, key), big, l) == Without(Part(es, big, l), key)
  {
    if es != [] {
      PartWithout(es[1..], key, big, l);
      if es[0].key != key { assert Without(es, key)[1..] == Without(es[1..], key); }
      if Big(es[0], l) == big { assert Part(es, big, l)[1..] == Part(es[1..], big, l); }
    }
  }

  lemma {:induction false} PartAppend(es: seq<Entry>, e: Entry, big: bool, l: Limits)
    ensures Part(es + [e], big, l) == Part(es, big, l) + (if Big(e, l) == big then [e] else [])
  {
    if es == [] {
      assert [e][1..] == [];
      assert [] + [e] == [e];
    } else {
      hide Big;
      var head := if Big(es[0], l) == big then [es[0]] else [];
      var tail := if Big(e, l) == big then [e] else [];
      PartAppend(es[1..], e, big, l);
      assert (es + [e])[1..] == es[1..] + [e] && (es + [e])[0] == es[0];
      assert head + (Part(es[1..], big, l) + tail) == (head + Part(es[1..], big, l)) + tail;
    }
  }

  lemma {:induction false} SumsAppend(es: seq<Entry>, e: Entry)
    ensures SumIds(es + [e]) == SumIds(es) + |e.ids|
    ensures SumBytes(es + [e]) == SumBytes(es) + e.bytes
  {
    if es != [] {
      SumsAppend(es[1..], e);
      assert (es + [e])[1..] == es[1..] + [e];
    }
  }

  lemma {:induction false} UniqueSize(es: seq<Entry>)
    requires UniqueKeys(es)
    ensures |KeysOf(es)| == |es|
  {
    if es != [] {
      UniqueHead(es);
      UniqueSize(es[1..]);
      assert KeysOf(es) == {es[0].key} + KeysOf(es[1..]);
      assert es[0].key !in KeysOf(es[1..]);
    }
  }

  /** Dropping the oldest entry of one kind drops the head of that part and nothing else. */
  lemma DropOldest(es: seq<Entry>, big: bool, l: Limits)
    requires UniqueKeys(es) && Part(es, big, l) != []
    ensures var oldest := Part(es, big, l)[0];
      && oldest in es && Big(oldest, l) == big
      && Part(Without(es, oldest.key), big, l) == Part(es, big, l)[1..]
      && Part(Without(es, oldest.key), !big, l) == Part(es, !big, l)
  {
    var own, other := Part(es, big, l), Part(es, !big, l);
    PartMembers(es, big, l);
    PartMembers(es, !big, l);
    PartUnique(es, big, l);
    assert own[0] in own;
    PartWithout(es, own[0].key, big, l);
    PartWithout(es, own[0].key, !big, l);
    forall e | e in other ensures e.key != own[0].key {
      if e.key == own[0].key { SameKey(es, e, own[0]); }
    }
    WithoutMembers(other, own[0].key);
    UniqueHead(own);
    WithoutMembers(own[1..], own[0].key);
  }

  /** The first key in insertion order that is, or is not, in the side set. */
  function Oldest(es: seq<Entry>, keys: set<Key>, member: bool): Option<Key> {
    if es == [] then None
    else if (es[0].key in keys) == member then Some(es[0].key)
    else Oldest(es[1..], keys, member)
  }

  lemma OldestIsHead(es: seq<Entry>, keys: set<Key>, big: bool, l: Limits)
    requires UniqueKeys(es) && keys == KeysOf(Part(es, true, l))
    ensures Oldest(es, keys, big) ==
      if Part(es, big, l) == [] then None else Some(Part(es, big, l)[0].key)
  {
    PartMembers(es, true, l);
    forall e | e in es ensures e.key in keys <==> Big(e, l) {
      if e.key in keys {
        var x :| x in Part(es, true, l) && x.key == e.key;
        SameKey(es, x, e);
      }
    }
    OldestFrom(es, keys, big, l);
  }

  lemma {:induction false} OldestFrom(es: seq<Entry>, keys: set<Key>, big: bool, l: Limits)
    requires forall e :: e in es ==> (e.key in keys <==> Big(e, l))
    ensures Oldest(es, keys, big) ==
      if Part(es, big, l) == [] then None else Some(Part(es, big, l)[0].key)
  {
    if es != [] {
      assert es[0] in es;
      OldestFrom(es[1..], keys, big, l);
    }
  }

  /******* The budgets *******/

  ghost predicate WithinBudget(p: Pools, l: Limits) {
    var cap := if l.maxEntries == 0 then 1 else l.maxEntries;
    && |p.normal| <= cap && SumIds(p.normal) <= l.maxIds && SumBytes(p.normal) <= l.maxBytes
    && |p.oversized| <= cap && SumBytes(p.oversized) <= l.maxOversizedBytes
  }

  ghost predicate WellFormed(p: Pools, l: Limits) {
    && UniqueKeys(p.normal) && UniqueKeys(p.oversized)
    && (forall a, b :: a in p.normal && b in p.oversized ==> a.key != b.key)
    && (forall e :: e in p.normal ==> !Big(e, l) && e == MakeEntry(e.key, e.ids))
    && (forall e :: e in p.oversized ==> Big(e, l) && e == MakeEntry(e.key, e.ids))
    && WithinBudget(p, l)
  }

  ghost predicate IsSuffix(t: seq<Entry>, es: seq<Entry>) {
    |t| <= |es| && t == es[|es| - |t|..]
  }

  /** Eviction keeps the longest most-recent suffix with which e fits; where at least one entry
      is allowed and e is accepted at all, it always ends with e fitting. */
  lemma {:induction false} EvictIsLongest(pool: seq<Entry>, e: Entry, l: Limits)
    ensures IsSuffix(Evict(pool, e, l), pool)
    ensures forall t :: IsSuffix(t, pool) && |t| > |Evict(pool, e, l)| ==> !Fits(t, e, l)
    ensures l.maxEntries >= 1 && Accepted(e, l) ==> Fits(Evict(pool, e, l), e, l)
    ensures l.maxEntries == 0 ==> Evict(pool, e, l) == []
  {
    if pool != [] && !Fits(pool, e, l) {
      EvictIsLongest(pool[1..], e, l);
      var kept := Evict(pool, e, l);
      assert pool[1..][|pool| - 1 - |kept|..] == pool[|pool| - |kept|..];
      forall t | IsSuffix(t, pool) && |t| > |kept| ensures !Fits(t, e, l) {
        if |t| < |pool| {
          assert pool[1..][|pool| - 1 - |t|..] == pool[|pool| - |t|..];
          assert IsSuffix(t, pool[1..]);
        } else {
          assert t == pool;
        }
      }
    }
  }

  lemma {:induction false} WithoutShrinks(es: seq<Entry>, key: Key)
    ensures SumIds(Without(es, key)) <= SumIds(es) && SumBytes(Without(es, key)) <= SumBytes(es)
    ensures |Without(es, key)| <= |es|
  {
    if es != [] {
      WithoutShrinks(es[1..], key);
      if es[0].key != key { assert Without(es, key)[1..] == Without(es[1..], key); }
    }
  }

  lemma UniqueSnoc(es: seq<Entry>, e: Entry)
    requires UniqueKeys(es) && !Has(es, e.key)
    ensures UniqueKeys(es + [e])
  {
    forall i | 0 <= i < |es| ensures es[i].key != e.key { assert es[i] in es; }
  }

  lemma TouchKeeps(es: seq<Entry>, key: Key)
    requires UniqueKeys(es)
    ensures UniqueKeys(Touch(es, key)) && |Touch(es, key)| == |es|
    ensures SumIds(Touch(es, key)) == SumIds(es) && SumBytes(Touch(es, key)) == SumBytes(es)
    ensures forall e :: e in Touch(es, key) <==> e in es
  {
    WithoutSums(es, key);
    WithoutMembers(es, key);
    WithoutUnique(es, key);
    match Lookup(es, key)
    case None =>
    case Some(e) =>
      SumsAppend(Without(es, key), e);
      UniqueSnoc(Without(es, key), e);
      forall x | x in es ensures x in Touch(es, key) {
        if x.key == key { LookupIs(es, x); }
      }
  }

  lemma SuffixMembers(t: seq<Entry>, es: seq<Entry>)
    requires IsSuffix(t, es)
    ensures forall e :: e in t ==> e in es
    ensures UniqueKeys(es) ==> UniqueKeys(t)
  {
    var d := |es| - |t|;
    assert forall i :: 0 <= i < |t| ==> t[i] == es[d + i];
  }

  /** Putting e into its pool: the pool stays duplicate-free and within its budgets. */
  lemma PoolPutKeeps(pool: seq<Entry>, e: Entry, l: Limits)
    requires UniqueKeys(pool) && Accepted(e, l)
    requires Big(e, l) || SumIds(pool) <= l.maxIds
    ensures var q := PoolPut(pool, e, l);
      && UniqueKeys(q) && (forall x :: x in q ==> x == e || (x in pool && x.key != e.key))
      && |q| <= (if l.maxEntries == 0 then 1 else l.maxEntries)
      && SumBytes(q) <= (if Big(e, l) then l.maxOversizedBytes else l.maxBytes)
      && (!Big(e, l) ==> SumIds(q) <= l.maxIds)
  {
    var rest := Without(pool, e.key);
    var kept := Evict(rest, e, l);
    WithoutMembers(pool, e.key);
    WithoutUnique(pool, e.key);
    EvictIsLongest(rest, e, l);
    SuffixMembers(kept, rest);
    UniqueSnoc(kept, e);
    SumsAppend(kept, e);
  }

  lemma GetKeepsWellFormed(p: Pools, key: Key, l: Limits)
    requires WellFormed(p, l)
    ensures WellFormed(Step(p, Op.Get(key), l), l)
  {
    TouchKeeps(p.normal, key);
    TouchKeeps(p.oversized, key);
  }

  lemma RemoveKeepsWellFormed(p: Pools, key: Key, l: Limits)
    requires WellFormed(p, l)
    ensures WellFormed(Pools(Without(p.normal, key), Without(p.oversized, key)), l)
    ensures forall e :: e in Without(p.normal, key) ==> e in p.normal && e.key != key
    ensures forall e :: e in Without(p.oversized, key) ==> e in p.oversized && e.key != key
  {
    WithoutMembers(p.normal, key);
    WithoutMembers(p.oversized, key);
    WithoutUnique(p.normal, key);
    WithoutUnique(p.oversized, key);
    WithoutShrinks(p.normal, key);
    WithoutShrinks(p.oversized, key);
  }

  lemma PutBigKeepsWellFormed(p: Pools, e: Entry, l: Limits)
    requires WellFormed(p, l) && Accepted(e, l) && Big(e, l) && e == MakeEntry(e.key, e.ids)
    ensures WellFormed(Pools(Without(p.normal, e.key), PoolPut(p.oversized, e, l)), l)
  {
    RemoveKeepsWellFormed(p, e.key, l);
    PoolPutKeeps(p.oversized, e, l);
    hide Without, PoolPut, UniqueKeys, SumIds, SumBytes;
    forall a, b | a in Without(p.normal, e.key) && b in PoolPut(p.oversized, e, l) ensures a.key != b.key {}
  }

  lemma PutNormalKeepsWellFormed(p: Pools, e: Entry, l: Limits)
    requires WellFormed(p, l) && Accepted(e, l) && !Big(e, l) && e == MakeEntry(e.key, e.ids)
    ensures WellFormed(Pools(PoolPut(p.normal, e, l), Without(p.oversized, e.key)), l)
  {
    RemoveKeepsWellFormed(p, e.key, l);
    PoolPutKeeps(p.normal, e, l);
    hide Without, PoolPut, UniqueKeys, SumIds, SumBytes;
    forall a, b | a in PoolPut(p.normal, e, l) && b in Without(p.oversized, e.key) ensures a.key != b.key {}
  }

  /** Every reachable pair of pools is well formed and within budget: one step keeps it. */
  lemma StepKeepsWellFormed(p: Pools, op: Op, l: Limits)
    requires WellFormed(p, l)
    ensures WellFormed(Step(p, op, l), l)
  {
    hide WellFormed, Without, Touch, PoolPut;
    match op
    case Get(key) => GetKeepsWellFormed(p, key, l);
    case Put(key, ids) =>
      var e := MakeEntry(key, ids);
      if !Accepted(e, l) { RemoveKeepsWellFormed(p, key, l); }
      else if Big(e, l) { PutBigKeepsWellFormed(p, e, l); }
      else { PutNormalKeepsWellFormed(p, e, l); }
  }

  lemma {:induction false} LookupAppend(es: seq<Entry>, e: Entry, key: Key)
    ensures Lookup(es + [e], key) ==
      if Lookup(es, key).Some? then Lookup(es, key) else if e.key == key then Some(e) else None
  {
    if es == [] {
      assert [] + [e] == [e];
    } else {
      LookupAppend(es[1..], e, key);
      assert (es + [e])[1..] == es[1..] + [e];
    }
  }

  lemma {:induction false} LookupWithout(es: seq<Entry>, key: Key, other: Key)
    ensures Lookup(Without(es, key), other) == if key == other then None else Lookup(es, other)
  {
    if es != [] {
      LookupWithout(es[1..], key, other);
      if es[0].key != key { assert Without(es, key)[1..] == Without(es[1..], key); }
    }
  }

  lemma {:induction false} LookupEvict(es: seq<Entry>, e: Entry, l: Limits, key: Key)
    requires UniqueKeys(es)
    ensures Lookup(Evict(es, e, l), key).Some? ==> Lookup(Evict(es, e, l), key) == Lookup(es, key)
  {
    if es != [] && !Fits(es, e, l) {
      UniqueHead(es);
      LookupEvict(es[1..], e, l, key);
      var found := Lookup(es[1..], key);
      if found.Some? { WithoutSums(es[1..], key); }
    }
  }

  /** A get changes no key's ids; a put binds its own key to its ids or to nothing, and takes
      nothing but whole entries from the others. */
  lemma FindAfterStep(p: Pools, op: Op, key: Key, l: Limits)
    requires WellFormed(p, l)
    ensures op.Get? ==> Find(Step(p, op, l), key) == Find(p, key)
    ensures op.Put? && op.key == key ==>
      Find(Step(p, op, l), key) == (if Accepted(MakeEntry(key, op.ids), l) then Some(op.ids) else None)
    ensures op.Put? && op.key != key && Find(Step(p, op, l), key).Some? ==>
      Find(Step(p, op, l), key) == Find(p, key)
  {
    FindAfterStepInPool(p.normal, op, key, l);
    FindAfterStepInPool(p.oversized, op, key, l);
    WithoutSums(p.normal, key);
    WithoutSums(p.oversized, key);
  }

  lemma FindAfterStepInPool(es: seq<Entry>, op: Op, key: Key, l: Limits)
    requires UniqueKeys(es)
    ensures Lookup(Touch(es, op.key), key) == Lookup(es, key)
    ensures Lookup(Without(es, op.key), key) == if op.key == key then None else Lookup(es, key)
    ensures op.Put? ==>
      var e := MakeEntry(op.key, op.ids);
      var found := Lookup(PoolPut(es, e, l), key);
      if op.key == key then found == Some(e) else found.Some? ==> found == Lookup(es, key)
  {
    var rest := Without(es, op.key);
    LookupWithout(es, op.key, key);
    WithoutUnique(es, op.key);
    WithoutSums(es, op.key);
    if Lookup(es, op.key).Some? { LookupAppend(rest, Lookup(es, op.key).value, key); }
    if op.Put? {
      var e := MakeEntry(op.key, op.ids);
      LookupEvict(rest, e, l, key);
      LookupAppend(Evict(rest, e, l), e, key);
    }
  }

  /******* Whole runs *******/

  const EMPTY := Pools([], [])

  function Run(ops: seq<Op>, l: Limits): Pools {
    if ops == [] then EMPTY else Step(Run(ops[..|ops| - 1], l), ops[|ops| - 1], l)
  }

  lemma {:induction false} RunWellFormed(ops: seq<Op>, l: Limits)
    ensures WellFormed(Run(ops, l), l)
  {
    if ops != [] {
      RunWellFormed(ops[..|ops| - 1], l);
      StepKeepsWellFormed(Run(ops[..|ops| - 1], l), ops[|ops| - 1], l);
    }
  }

  /** With the service's own limits a run never holds more than eight lists of at most 20,000 ids and
      2 MiB in all, and beside them eight longer ones of 64 MiB. */
  lemma DefaultBudgets(ops: seq<Op>)
    ensures var p := Run(ops, DEFAULT_LIMITS);
      && |p.normal| <= 8 && SumIds(p.normal) <= 20000 && SumBytes(p.normal) <= 2097152
      && |p.oversized| <= 8 && SumBytes(p.oversized) <= 67108864
      && forall e :: e in p.oversized ==> |e.ids| > 20000
  {
    RunWellFormed(ops, DEFAULT_LIMITS);
  }

  function Codes(s: string): J.Text {
    seq(|s|, i requires 0 <= i < |s| => s[i] as int as J.Code)
  }

  function Concat(ids: seq<Id>): string {
    if ids == [] then "" else ids[0] + Concat(ids[1..])
  }

  lemma {:induction false} ByteLengthConcat(s: string, t: string)
    ensures ByteLength(s + t) == ByteLength(s) + ByteLength(t)
  {
    if s == "" {
      assert s + t == t;
    } else {
      assert (s + t)[1..] == s[1..] + t && (s + t)[0] == s[0];
      ByteLengthConcat(s[1..], t);
    }
  }

  lemma {:induction false} ByteLengthIsUtf8(s: string)
    ensures ByteLength(s) == |J.Utf8(Codes(s))|
  {
    if s != "" {
      assert Codes(s)[1..] == Codes(s[1..]);
      ByteLengthIsUtf8(s[1..]);
    }
  }

  lemma {:induction false} IdBytesConcat(ids: seq<Id>)
    ensures IdBytes(ids) == ByteLength(Concat(ids))
  {
    if ids != [] {
      IdBytesConcat(ids[1..]);
      ByteLengthConcat(ids[0], Concat(ids[1..]));
    }
  }

  /** An entry weighs as many bytes as its key and its ids have in UTF-8. */
  lemma EntryWeighs(key: Key, ids: seq<Id>)
    ensures MakeEntry(key, ids) == Entry(key, ids, |J.Utf8(Codes(key + Concat(ids)))|)
  {
    IdBytesConcat(ids);
    ByteLengthConcat(key, Concat(ids));
    ByteLengthIsUtf8(key + Concat(ids));
  }

  /** The ids of the last put under a key. */
  function LastPut(ops: seq<Op>, key: Key): Option<seq<Id>> {
    if ops == [] then None
    else
      var op := ops[|ops| - 1];
      if op.Put? && op.key == key then Some(op.ids) else LastPut(ops[..|ops| - 1], key)
  }

  /** The position after the last call that named a key; 0 if none did. */
  function LastUse(ops: seq<Op>, key: Key): nat {
    if ops == [] then 0
    else if ops[|ops| - 1].key == key then |ops|
    else LastUse(ops[..|ops| - 1], key)
  }

  lemma {:induction false} LastUseBound(ops: seq<Op>, key: Key)
    ensures LastUse(ops, key) <= |ops|
  {
    if ops != [] { LastUseBound(ops[..|ops| - 1], key); }
  }

  /** Oldest first: entries stand in the order in which their keys were last used. */
  ghost predicate ByRecency(es: seq<Entry>, ops: seq<Op>) {
    forall i, j :: 0 <= i < j < |es| ==> LastUse(ops, es[i].key) < LastUse(ops, es[j].key)
  }

  /** Every stored entry is the accepted result of the last put under its key. */
  ghost predicate Current(es: seq<Entry>, ops: seq<Op>, l: Limits) {
    forall e :: e in es ==> Accepted(e, l) && LastPut(ops, e.key) == Some(e.ids)
  }

  /** Two entries that are left stood in the same order before. */
  lemma {:induction false} WithoutPair(es: seq<Entry>, key: Key, j: nat, k: nat) returns (i: nat, n: nat)
    requires j < k < |Without(es, key)|
    ensures i < n < |es| && es[i] == Without(es, key)[j] && es[n] == Without(es, key)[k]
  {
    var rest := es[1..];
    if es[0].key == key {
      i, n := WithoutPair(rest, key, j, k);
      i, n := i + 1, n + 1;
    } else if j == 0 {
      i := 0;
      n := WithoutAt(rest, key, k - 1);
      n := n + 1;
    } else {
      i, n := WithoutPair(rest, key, j - 1, k - 1);
      i, n := i + 1, n + 1;
    }
  }

  lemma {:induction false} WithoutAt(es: seq<Entry>, key: Key, k: nat) returns (n: nat)
    requires k < |Without(es, key)|
    ensures n < |es| && es[n] == Without(es, key)[k]
  {
    if es[0].key != key && k == 0 {
      n := 0;
    } else {
      n := WithoutAt(es[1..], key, if es[0].key == key then k else k - 1);
      n := n + 1;
    }
  }

  lemma WithoutOrder(es: seq<Entry>, key: Key, ops: seq<Op>)
    requires ByRecency(es, ops)
    ensures ByRecency(Without(es, key), ops)
  {
    hide Without, LastUse;
    var w := Without(es, key);
    forall j, k | 0 <= j < k < |w| ensures LastUse(ops, w[j].key) < LastUse(ops, w[k].key) {
      var i, n := WithoutPair(es, key, j, k);
      assert LastUse(ops, es[i].key) < LastUse(ops, es[n].key);
    }
  }

  /** A call changes the last use of its own key only. */
  lemma LaterUse(es: seq<Entry>, ops: seq<Op>, op: Op)
    requires !Has(es, op.key)
    ensures ByRecency(es, ops) <==> ByRecency(es, ops + [op])
    ensures forall e :: e in es ==> LastUse(ops + [op], e.key) <= |ops|
  {
    assert (ops + [op])[..|ops|] == ops;
    forall e | e in es ensures LastUse(ops + [op], e.key) == LastUse(ops, e.key) <= |ops| {
      LastUseBound(ops, e.key);
    }
  }

  lemma AppendOrder(es: seq<Entry>, ops: seq<Op>, e: Entry)
    requires ByRecency(es, ops) && forall i :: 0 <= i < |es| ==> LastUse(ops, es[i].key) < LastUse(ops, e.key)
    ensures ByRecency(es + [e], ops)
  {
    hide LastUse;
  }

  lemma SuffixOrder(t: seq<Entry>, es: seq<Entry>, ops: seq<Op>)
    requires IsSuffix(t, es) && ByRecency(es, ops)
    ensures ByRecency(t, ops)
  {
    var d := |es| - |t|;
    assert forall i :: 0 <= i < |t| ==> t[i] == es[d + i];
  }

  lemma StepPool(es: seq<Entry>, ops: seq<Op>, op: Op, l: Limits)
    requires UniqueKeys(es) && ByRecency(es, ops) && Current(es, ops, l)
    ensures op.Get? ==> ByRecency(Touch(es, op.key), ops + [op]) && Current(Touch(es, op.key), ops + [op], l)
    ensures op.Put? ==> ByRecency(Without(es, op.key), ops + [op]) && Current(Without(es, op.key), ops + [op], l)
    ensures op.Put? && Accepted(MakeEntry(op.key, op.ids), l) ==>
      var q := PoolPut(es, MakeEntry(op.key, op.ids), l);
      ByRecency(q, ops + [op]) && Current(q, ops + [op], l)
  {
    assert (ops + [op])[..|ops|] == ops;
    var rest := Without(es, op.key);
    WithoutOrder(es, op.key, ops);
    WithoutMembers(es, op.key);
    LaterUse(rest, ops, op);
    match op
    case Get(key) =>
      TouchKeeps(es, key);
      WithoutSums(es, key);
      if Lookup(es, key).Some? { AppendOrder(rest, ops + [op], Lookup(es, key).value); }
    case Put(key, ids) =>
      var e := MakeEntry(key, ids);
      EvictIsLongest(rest, e, l);
      SuffixOrder(Evict(rest, e, l), rest, ops + [op]);
      SuffixMembers(Evict(rest, e, l), rest);
      AppendOrder(Evict(rest, e, l), ops + [op], e);
  }

  /** In every run both pools are ordered by last use, and hold only results of last puts. */
  lemma {:induction false} RunIsRecencyOrdered(ops: seq<Op>, l: Limits)
    ensures ByRecency(Run(ops, l).normal, ops) && Current(Run(ops, l).normal, ops, l)
    ensures ByRecency(Run(ops, l).oversized, ops) && Current(Run(ops, l).oversized, ops, l)
  {
    if ops != [] {
      var before, op := ops[..|ops| - 1], ops[|ops| - 1];
      assert ops == before + [op];
      RunIsRecencyOrdered(before, l);
      RunWellFormed(before, l);
      StepPool(Run(before, l).normal, before, op, l);
      StepPool(Run(before, l).oversized, before, op, l);
    }
  }

  /** After any run, a get returns the ids last put under its key or nothing at all, and nothing
      when that last put was rejected. */
  lemma GetReturnsLastPut(ops: seq<Op>, l: Limits, key: Key)
    ensures Find(Run(ops, l), key).Some? ==> Find(Run(ops, l), key) == LastPut(ops, key)
    ensures LastPut(ops, key).Some? && !Accepted(MakeEntry(key, LastPut(ops, key).value), l) ==>
      Find(Run(ops, l), key).None?
  {
    var p := Run(ops, l);
    RunIsRecencyOrdered(ops, l);
    RunWellFormed(ops, l);
    WithoutSums(p.normal, key);
    WithoutSums(p.oversized, key);
  }

  /** A put evicts the longest possible old end of its own pool and nothing of the other pool:
      every other key of the other pool keeps its entry and its place. */
  lemma PutEvictsOwnPoolOnly(p: Pools, key: Key, ids: seq<Id>, l: Limits)
    requires Accepted(MakeEntry(key, ids), l)
    ensures var e, q := MakeEntry(key, ids), Step(p, Put(key, ids), l);
      var own, own' := (if Big(e, l) then p.oversized else p.normal), (if Big(e, l) then q.oversized else q.normal);
      var other, other' := (if Big(e, l) then p.normal else p.oversized), (if Big(e, l) then q.normal else q.oversized);
      && other' == Without(other, key)
      && own' != [] && own'[|own'| - 1] == e
      && IsSuffix(own'[..|own'| - 1], Without(own, key))
      && (forall t :: IsSuffix(t, Without(own, key)) && |t| >= |own'| ==> !Fits(t, e, l))
      && (l.maxEntries >= 1 ==> Fits(own'[..|own'| - 1], e, l))
  {
    var e := MakeEntry(key, ids);
    var own := if Big(e, l) then p.oversized else p.normal;
    EvictIsLongest(Without(own, key), e, l);
    var own' := PoolPut(own, e, l);
    assert own'[..|own'| - 1] == Evict(Without(own, key), e, l);
  }

  /******* The class *******/

  class Cache {
    const limits: Limits
    var entries: seq<Entry>
    var ids: int
    var bytes: int
    var oversizedIds: int
    var oversizedBytes: int
    var oversizedKeys: set<Key>
    var hits: nat
    var misses: nat

    /** Totals, side set and budgets agree with the entries. */
    ghost predicate Valid()
      reads this
    {
      Totals() && WellFormed(Abstract(), limits)
    }

    /** The totals and the side set agree with the entries. */
    ghost predicate Totals()
      reads this
    {
      var big := Part(entries, true, limits);
      && UniqueKeys(entries)
      && ids == SumIds(entries) && bytes == SumBytes(entries)
      && oversizedIds == SumIds(big) && oversizedBytes == SumBytes(big) && oversizedKeys == KeysOf(big)
    }

    ghost function Abstract(): Pools
      reads this
    {
      PartOf(entries, limits)
    }

    constructor (limits: Limits := DEFAULT_LIMITS)
      ensures Valid() && this.limits == limits && Abstract() == EMPTY && hits == misses == 0
    {
      this.limits := limits;
      entries := [];
      ids, bytes, oversizedIds, oversizedBytes := 0, 0, 0, 0;
      oversizedKeys := {};
      hits, misses := 0, 0;
    }

    method Get(key: Key) returns (r: Option<seq<Id>>)
      requires Valid()
      modifies this
      ensures Valid() && Abstract() == Step(old(Abstract()), Op.Get(key), limits)
      ensures r == Find(old(Abstract()), key)
      ensures hits == old(hits) + (if r.Some? then 1 else 0)
      ensures misses == old(misses) + (if r.None? then 1 else 0)
    {
      hide WellFormed, Touch, Step, Find;
      var entry := Lookup(entries, key);
      TouchParts(entries, key, limits);
      TouchTotals(entries, key, limits);
      StepKeepsWellFormed(Abstract(), Op.Get(key), limits);
      if entry.None? { misses := misses + 1; return None; }
      hits := hits + 1;
      entries := Without(entries, key) + [entry.value];
      return Some(entry.value.ids);
    }

    method Remove(key: Key)
      requires Totals()
      modifies this
      ensures Totals() && entries == Without(old(entries), key)
      ensures hits == old(hits) && misses == old(misses)
    {
      var entry := Lookup(entries, key);
      WithoutSums(entries, key);
      if entry.None? { return; }
      var e := entry.value;
      RemovePart(entries, e, limits);
      entries := Without(entries, key);
      ids, bytes := ids - |e.ids|, bytes - e.bytes;
      if key in oversizedKeys {
        oversizedKeys := oversizedKeys - {key};
        oversizedIds, oversizedBytes := oversizedIds - |e.ids|, oversizedBytes - e.bytes;
      }
    }

    method Put(key: Key, newIds: seq<Id>)
      requires Valid()
      modifies this
      ensures Valid() && Abstract() == Step(old(Abstract()), Op.Put(key, newIds), limits)
      ensures hits == old(hits) && misses == old(misses)
    {
      hide WellFormed, Evict, IdBytes, ByteLength, SumIds, SumBytes, Part, Without, UniqueKeys;
      StepKeepsWellFormed(Abstract(), Op.Put(key, newIds), limits);
      PartWithout(entries, key, false, limits);
      PartWithout(entries, key, true, limits);
      WithoutMembers(entries, key);
      Remove(key);
      var e := MakeEntry(key, newIds);
      if |newIds| > limits.maxIds {
        if e.bytes > limits.maxOversizedBytes { return; }
        EvictFor(e);
        Insert(entries, e, limits);
        oversizedKeys := oversizedKeys + {key};
        oversizedIds, oversizedBytes := oversizedIds + |newIds|, oversizedBytes + e.bytes;
      } else if e.bytes > limits.maxBytes {
        return;
      } else {
        EvictFor(e);
        Insert(entries, e, limits);
      }
      entries := entries + [e];
      ids, bytes := ids + |newIds|, bytes + e.bytes;
    }

    /** The eviction loop of the pool that e belongs to. */
    method EvictFor(e: Entry)
      requires Totals() && Accepted(e, limits) && !Has(entries, e.key)
      modifies this
      ensures Totals() && !Has(entries, e.key)
      ensures Part(entries, Big(e, limits), limits) == Evict(old(Part(entries, Big(e, limits), limits)), e, limits)
      ensures Part(entries, !Big(e, limits), limits) == old(Part(entries, !Big(e, limits), limits))
      ensures hits == old(hits) && misses == old(misses)
    {
      var big := Big(e, limits);
      ghost var goal := Evict(Part(entries, big, limits), e, limits);
      while !RoomFor(e)
        invariant Totals() && !Has(entries, e.key)
        invariant Evict(Part(entries, big, limits), e, limits) == goal
        invariant Part(entries, !big, limits) == old(Part(entries, !big, limits))
        invariant hits == old(hits) && misses == old(misses)
        decreases |entries|
      {
        OldestIsHead(entries, oversizedKeys, big, limits);
        var oldest := Oldest(entries, oversizedKeys, big);
        if oldest.None? {
          // Only a cache configured for zero entries gets here.
          assert limits.maxEntries == 0;
          break;
        }
        DropOldest(entries, big, limits);
        WithoutMembers(entries, oldest.value);
        LookupIs(entries, Part(entries, big, limits)[0]);
        WithoutSums(entries, oldest.value);
        Remove(oldest.value);
      }
    }

    /** The negation of the two loop conditions. */
    predicate RoomFor(e: Entry)
      requires Totals()
      reads this
      ensures RoomFor(e) <==> Fits(Part(entries, Big(e, limits), limits), e, limits)
    {
      PartSums(entries, limits);
      PartUnique(entries, true, limits);
      UniqueSize(Part(entries, true, limits));
      if Big(e, limits) then
        |oversizedKeys| < limits.maxEntries && oversizedBytes + e.bytes <= limits.maxOversizedBytes
      else
        && |entries| - |oversizedKeys| < limits.maxEntries
        && ids - oversizedIds + |e.ids| <= limits.maxIds && bytes - oversizedBytes + e.bytes <= limits.maxBytes
    }
  }

  lemma TouchParts(es: seq<Entry>, key: Key, l: Limits)
    requires UniqueKeys(es)
    ensures PartOf(Touch(es, key), l) == Step(PartOf(es, l), Op.Get(key), l)
    ensures Find(PartOf(es, l), key) == (if Lookup(es, key).None? then None else Some(Lookup(es, key).value.ids))
  {
    TouchPart(es, key, false, l);
    TouchPart(es, key, true, l);
  }

  lemma TouchPart(es: seq<Entry>, key: Key, big: bool, l: Limits)
    requires UniqueKeys(es)
    ensures Part(Touch(es, key), big, l) == Touch(Part(es, big, l), key)
    ensures Lookup(Part(es, big, l), key) ==
      if Lookup(es, key).Some? && Big(Lookup(es, key).value, l) == big then Lookup(es, key) else None
  {
    var part := Part(es, big, l);
    PartMembers(es, big, l);
    PartUnique(es, big, l);
    WithoutSums(es, key);
    WithoutSums(part, key);
    PartWithout(es, key, big, l);
    match Lookup(es, key)
    case None =>
    case Some(e) =>
      PartAppend(Without(es, key), e, big, l);
      if Big(e, l) == big {
        LookupIs(part, e);
      } else {
        forall x | x in part ensures x.key != key {
          if x.key == key { SameKey(es, x, e); }
        }
      }
  }

  lemma RemovePart(es: seq<Entry>, e: Entry, l: Limits)
    requires UniqueKeys(es) && e in es
    ensures var big, big' := Part(es, true, l), Part(Without(es, e.key), true, l);
      && UniqueKeys(Without(es, e.key))
      && SumIds(big') == SumIds(big) - (if Big(e, l) then |e.ids| else 0)
      && SumBytes(big') == SumBytes(big) - (if Big(e, l) then e.bytes else 0)
      && KeysOf(big') == KeysOf(big) - {e.key} && (e.key in KeysOf(big) <==> Big(e, l))
  {
    var big := Part(es, true, l);
    PartMembers(es, true, l);
    PartUnique(es, true, l);
    PartWithout(es, e.key, true, l);
    WithoutUnique(es, e.key);
    WithoutMembers(big, e.key);
    WithoutSums(big, e.key);
    forall x | x in big && x.key == e.key ensures x == e { SameKey(es, x, e); }
    if Big(e, l) { LookupIs(big, e); }
  }

  lemma Insert(es: seq<Entry>, e: Entry, l: Limits)
    requires UniqueKeys(es) && !Has(es, e.key)
    ensures UniqueKeys(es + [e])
    ensures SumIds(es + [e]) == SumIds(es) + |e.ids| && SumBytes(es + [e]) == SumBytes(es) + e.bytes
    ensures Part(es + [e], Big(e, l), l) == Part(es, Big(e, l), l) + [e]
    ensures Part(es + [e], !Big(e, l), l) == Part(es, !Big(e, l), l)
    ensures var big, big' := Part(es, true, l), Part(es + [e], true, l);
      && SumIds(big') == SumIds(big) + (if Big(e, l) then |e.ids| else 0)
      && SumBytes(big') == SumBytes(big) + (if Big(e, l) then e.bytes else 0)
      && KeysOf(big') == KeysOf(big) + (if Big(e, l) then {e.key} else {})
  {
    UniqueSnoc(es, e);
    SumsAppend(es, e);
    SumsAppend(Part(es, true, l), e);
    PartAppend(es, e, true, l);
    PartAppend(es, e, false, l);
  }

  lemma TouchTotals(es: seq<Entry>, key: Key, l: Limits)
    requires UniqueKeys(es)
    ensures Touch(es, key) ==
      (if Lookup(es, key).None? then es else Without(es, key) + [Lookup(es, key).value])
    ensures var es' := Touch(es, key);
      var big, big' := Part(es, true, l), Part(es', true, l);
      && UniqueKeys(es') && SumIds(es') == SumIds(es) && SumBytes(es') == SumBytes(es)
      && SumIds(big') == SumIds(big) && SumBytes(big') == SumBytes(big) && KeysOf(big') == KeysOf(big)
  {
    TouchKeeps(es, key);
    TouchPart(es, key, true, l);
    PartUnique(es, true, l);
    TouchKeeps(Part(es, true, l), key);
  }
}
