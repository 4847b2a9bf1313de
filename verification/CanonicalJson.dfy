/** Canonical JSON of the design validator's input subset and its own JSON equality
    (tools/validate_design.py: assert_jcs_values, jcs, json_equal; section 3.2 of RFC 8785). */
module CanonicalJson {
  import opened JsonText
  import opened Sorting

  /** A dictionary holds a key once, at every level. */
  predicate Proper(v: Json)
    decreases v
  {
    match v
    case List(items) => forall i :: 0 <= i < |items| ==> Proper(items[i])
    case Dict(members) =>
      && (forall i, j :: 0 <= i < j < |members| ==> members[i].key != members[j].key)
      && forall i :: 0 <= i < |members| ==> Proper(members[i].value)
    case _ => true
  }

  function Keys(ms: seq<Member>): set<Text> {
    set m | m in ms :: m.key
  }

  /** JSON equality as the validator computes it. */
  predicate JsonEqual(left: Json, right: Json)
    decreases left
  {
    if left.Bool? || right.Bool? then left == right
    else match left
      case List(items) =>
        && right.List? && |items| == |right.items|
        && forall i :: 0 <= i < |items| ==> JsonEqual(items[i], right.items[i])
      case Dict(members) =>
        && right.Dict? && Keys(members) == Keys(right.members)
        && forall i, j :: 0 <= i < |members| && 0 <= j < |right.members| && members[i].key == right.members[j].key ==>
             JsonEqual(members[i].value, right.members[j].value)
      case _ => left == right
  }

  /** Code-point order of property names. */
  predicate Less(a: Text, b: Text) {
    if b == [] then false
    else if a == [] then true
    else if a[0] != b[0] then a[0] < b[0]
    else Less(a[1..], b[1..])
  }

  function KeyOrder(): (Member, Member) -> bool {
    (a: Member, b: Member) => Less(a.key, b.key)
  }

  /** Property names sorted at every level. */
  function Canon(v: Json): Json
    decreases v
  {
    match v
    case List(items) => List(seq(|items|, i requires 0 <= i < |items| => Canon(items[i])))
    case Dict(members) => Dict(Sort(KeyOrder(), CanonMembers(members)))
    case _ => v
  }

  function CanonMembers(ms: seq<Member>): (r: seq<Member>)
    ensures |r| == |ms| && forall i :: 0 <= i < |ms| ==> r[i].key == ms[i].key
    decreases ms
  {
    seq(|ms|, i requires 0 <= i < |ms| => Member(ms[i].key, Canon(ms[i].value)))
  }

  datatype Result = Bytes(bytes: seq<byte>) | Failed

  function Jcs(v: Json): Result {
    if Accepted(v) then Bytes(Utf8(Dump(Canon(v)))) else Failed
  }

  /******* The key order *******/

  lemma {:induction false} LessTotal(a: Text, b: Text)
    ensures a == b || Less(a, b) || Less(b, a)
    ensures !Less(a, a)
  {
    if a != [] && b != [] {
      if a[0] == b[0] {
        LessTotal(a[1..], b[1..]);
        assert a == [a[0]] + a[1..] && b == [b[0]] + b[1..];
      }
      LessTotal(a[1..], a[1..]);
    } else if a != [] {
      LessTotal(a[1..], a[1..]);
    }
  }

  lemma {:induction false} LessTransitive(a: Text, b: Text, c: Text)
    requires Less(a, b) && Less(b, c)
    ensures Less(a, c)
  {
    if a != [] && a[0] == b[0] && b[0] == c[0] { LessTransitive(a[1..], b[1..], c[1..]); }
  }

  predicate OnePerKey(ms: set<Member>) {
    forall a, b :: a in ms && b in ms && a.key == b.key ==> a == b
  }

  lemma KeyOrderIsStrict(ms: set<Member>)
    requires OnePerKey(ms)
    ensures StrictOrder(KeyOrder(), ms)
  {
    hide Less;
    forall a, b | a in ms && b in ms
      ensures !Less(a.key, a.key) && (a != b ==> Less(a.key, b.key) || Less(b.key, a.key))
    {
      LessTotal(a.key, b.key);
    }
    forall a: Member, b: Member, c: Member | Less(a.key, b.key) && Less(b.key, c.key) ensures Less(a.key, c.key) {
      LessTransitive(a.key, b.key, c.key);
    }
  }

  /******* Canonical form and equality *******/

  predicate DistinctKeys(ms: seq<Member>) {
    forall i, j :: 0 <= i < j < |ms| ==> ms[i].key != ms[j].key
  }

  lemma CanonMembersSort(ms: seq<Member>)
    requires DistinctKeys(ms)
    ensures var cs := CanonMembers(ms);
      && Sorted(KeyOrder(), Sort(KeyOrder(), cs)) && Elements(Sort(KeyOrder(), cs)) == Elements(cs)
      && StrictOrder(KeyOrder(), Elements(cs))
  {
    hide Less, Sort;
    var cs := CanonMembers(ms);
    KeyOrderIsStrict(Elements(cs));
    SortSorts(KeyOrder(), cs, Elements(cs));
  }

  /** Canonical members: the same exactly when the members are the same up to order. */
  lemma CanonMembersAgree(ms: seq<Member>, ns: seq<Member>)
    requires DistinctKeys(ms) && DistinctKeys(ns)
    ensures Canon(Dict(ms)) == Canon(Dict(ns)) <==> Elements(CanonMembers(ms)) == Elements(CanonMembers(ns))
  {
    hide Less, Sort, CanonMembers;
    CanonMembersSort(ms);
    CanonMembersSort(ns);
    if Elements(CanonMembers(ms)) == Elements(CanonMembers(ns)) {
      SortedIsUnique(KeyOrder(), Sort(KeyOrder(), CanonMembers(ms)), Sort(KeyOrder(), CanonMembers(ns)));
    }
  }

  lemma {:induction false} CanonExactly(a: Json, b: Json)
    requires Proper(a) && Proper(b)
    ensures Canon(a) == Canon(b) <==> JsonEqual(a, b)
    decreases a
  {
    if a.List? && b.List? {
      forall i | 0 <= i < |a.items| && i < |b.items|
        ensures Canon(a.items[i]) == Canon(b.items[i]) <==> JsonEqual(a.items[i], b.items[i])
      {
        CanonExactly(a.items[i], b.items[i]);
      }
      ListExactly(a.items, b.items);
    } else if a.Dict? && b.Dict? {
      forall i, j | 0 <= i < |a.members| && 0 <= j < |b.members|
        ensures Canon(a.members[i].value) == Canon(b.members[j].value) <==>
                JsonEqual(a.members[i].value, b.members[j].value)
      {
        CanonExactly(a.members[i].value, b.members[j].value);
      }
      DictExactly(a.members, b.members);
    }
  }

  lemma ListExactly(vs: seq<Json>, ws: seq<Json>)
    requires forall i :: 0 <= i < |vs| && i < |ws| ==> (Canon(vs[i]) == Canon(ws[i]) <==> JsonEqual(vs[i], ws[i]))
    ensures Canon(List(vs)) == Canon(List(ws)) <==> JsonEqual(List(vs), List(ws))
  {
    var cs, ds := Canon(List(vs)).items, Canon(List(ws)).items;
    assert |cs| == |vs| && |ds| == |ws|;
    assert forall i :: 0 <= i < |vs| ==> cs[i] == Canon(vs[i]);
    assert forall i :: 0 <= i < |ws| ==> ds[i] == Canon(ws[i]);
  }

  /** The same keys, and the same value under each. */
  predicate Agree(cs: seq<Member>, ds: seq<Member>) {
    && Keys(cs) == Keys(ds)
    && forall i, j :: 0 <= i < |cs| && 0 <= j < |ds| && cs[i].key == ds[j].key ==> cs[i].value == ds[j].value
  }

  lemma ElementsExactly(cs: seq<Member>, ds: seq<Member>)
    requires DistinctKeys(cs) && DistinctKeys(ds)
    ensures Elements(cs) == Elements(ds) <==> Agree(cs, ds)
  {
    if Elements(cs) == Elements(ds) {
      forall m ensures m in cs <==> m in ds { assert m in Elements(cs) <==> m in Elements(ds); }
      forall i, j | 0 <= i < |cs| && 0 <= j < |ds| && cs[i].key == ds[j].key ensures cs[i].value == ds[j].value {
        assert cs[i] in ds;
      }
    }
    if Agree(cs, ds) {
      AgreeWithin(cs, ds);
      AgreeWithin(ds, cs);
    }
  }

  lemma AgreeWithin(cs: seq<Member>, ds: seq<Member>)
    requires Agree(cs, ds)
    ensures Elements(cs) <= Elements(ds)
  {
    forall m | m in cs ensures m in ds {
      assert m.key in Keys(ds);
      var n :| n in ds && n.key == m.key;
    }
  }

  lemma DictExactly(ms: seq<Member>, ns: seq<Member>)
    requires DistinctKeys(ms) && DistinctKeys(ns)
    requires forall i, j :: 0 <= i < |ms| && 0 <= j < |ns| ==>
      (Canon(ms[i].value) == Canon(ns[j].value) <==> JsonEqual(ms[i].value, ns[j].value))
    ensures Canon(Dict(ms)) == Canon(Dict(ns)) <==> JsonEqual(Dict(ms), Dict(ns))
  {
    hide Canon, Less, Sort, Elements, Keys;
    CanonMembersAgree(ms, ns);
    var cs, ds := CanonMembers(ms), CanonMembers(ns);
    ElementsExactly(cs, ds);
    SameKeys(ms, cs);
    SameKeys(ns, ds);
    assert forall i :: 0 <= i < |ms| ==> cs[i] == Member(ms[i].key, Canon(ms[i].value));
    assert forall i :: 0 <= i < |ns| ==> ds[i] == Member(ns[i].key, Canon(ns[i].value));
  }

  lemma SameKeys(ms: seq<Member>, cs: seq<Member>)
    requires |ms| == |cs| && forall i :: 0 <= i < |ms| ==> cs[i].key == ms[i].key
    ensures Keys(ms) == Keys(cs)
  {
    forall k | k in Keys(ms) ensures k in Keys(cs) {
      var i :| 0 <= i < |ms| && ms[i].key == k;
      assert cs[i] in cs;
    }
    forall k | k in Keys(cs) ensures k in Keys(ms) {
      var i :| 0 <= i < |cs| && cs[i].key == k;
      assert ms[i] in ms;
    }
  }

  /******* What is refused *******/

  /** x is v, or lies somewhere inside it. */
  ghost predicate Inside(x: Json, v: Json)
    decreases v
  {
    || x == v
    || (v.List? && exists i :: 0 <= i < |v.items| && Inside(x, v.items[i]))
    || (v.Dict? && exists i :: 0 <= i < |v.members| && Inside(x, v.members[i].value))
  }

  /** A floating point number, a value of another type, an unsafe integer, text with a surrogate, or a
      dictionary with a name outside ASCII. */
  ghost predicate Refused(x: Json) {
    || x.Float? || x.Other?
    || (x.Int? && (x.n < -9007199254740991 || x.n > 9007199254740991))
    || (x.Str? && exists c :: c in x.s && 0xD800 <= c <= 0xDFFF)
    || (x.Dict? && exists m, c :: m in x.members && c in m.key && c > 0x7F)
  }

  /** Canonical bytes are refused exactly when something refused lies inside the value. */
  lemma {:induction false} FailsExactly(v: Json)
    ensures Jcs(v) == Failed <==> exists x :: Inside(x, v) && Refused(x)
    decreases v
  {
    if Refused(v) { assert Inside(v, v); }
    match v {
      case List(items) =>
        forall i | 0 <= i < |items| ensures Accepted(items[i]) <==> forall x :: Inside(x, items[i]) ==> !Refused(x) {
          FailsExactly(items[i]);
        }
        forall i, x | 0 <= i < |items| && Inside(x, items[i]) ensures Inside(x, v) {}
      case Dict(members) =>
        forall i | 0 <= i < |members|
          ensures Accepted(members[i].value) <==> forall x :: Inside(x, members[i].value) ==> !Refused(x)
        {
          FailsExactly(members[i].value);
        }
        forall i, x | 0 <= i < |members| && Inside(x, members[i].value) ensures Inside(x, v) {}
        forall i | 0 <= i < |members| && !Ascii(members[i].key) ensures Refused(v) {
          var k :| 0 <= k < |members[i].key| && members[i].key[k] > 0x7F;
          assert members[i] in members && members[i].key[k] in members[i].key;
        }
      case Str(s) =>
        if i :| 0 <= i < |s| && Surrogate(s[i]) { assert s[i] in s; }
      case _ =>
    }
  }

  /******* The bytes *******/

  lemma {:induction false} CanonAccepted(v: Json)
    requires Accepted(v) && Proper(v)
    ensures Accepted(Canon(v))
    decreases v
  {
    match v {
      case List(items) =>
        forall i | 0 <= i < |items| ensures Accepted(Canon(items[i])) { CanonAccepted(items[i]); }
      case Dict(members) =>
        var cs := CanonMembers(members);
        CanonMembersSort(members);
        forall i | 0 <= i < |members| ensures Accepted(cs[i].value) { CanonAccepted(members[i].value); }
        forall m | m in Sort(KeyOrder(), cs) ensures Ascii(m.key) && Accepted(m.value) {
          assert m in Elements(cs);
        }
      case _ =>
    }
  }

  /** Canonical bytes are faithful: two accepted values have the same bytes exactly when they are
      equal as JSON, whatever the order of their members. */
  lemma JcsExactly(a: Json, b: Json)
    requires Accepted(a) && Accepted(b) && Proper(a) && Proper(b)
    ensures Jcs(a) == Jcs(b) <==> JsonEqual(a, b)
  {
    CanonExactly(a, b);
    CanonAccepted(a);
    CanonAccepted(b);
    if Jcs(a) == Jcs(b) {
      Utf8Reads(Dump(Canon(a)));
      Utf8Reads(Dump(Canon(b)));
      DumpPrefix(Canon(a), Canon(b), [], []);
    }
  }

  /** So the validator's equality is an equivalence relation on accepted values. */
  lemma EqualIsEquivalence(a: Json, b: Json, c: Json)
    requires Accepted(a) && Accepted(b) && Accepted(c) && Proper(a) && Proper(b) && Proper(c)
    ensures JsonEqual(a, a)
    ensures JsonEqual(a, b) ==> JsonEqual(b, a)
    ensures JsonEqual(a, b) && JsonEqual(b, c) ==> JsonEqual(a, c)
  {
    hide Jcs, JsonEqual;
    JcsExactly(a, a);
    JcsExactly(a, b);
    JcsExactly(b, a);
    JcsExactly(b, c);
    JcsExactly(a, c);
  }

  /** Canonical members are in strictly ascending order of their names (section 3.2.3 of RFC 8785). */
  lemma CanonIsSorted(ms: seq<Member>, i: nat, j: nat)
    requires DistinctKeys(ms) && i < j < |ms|
    ensures Canon(Dict(ms)).Dict? && |Canon(Dict(ms)).members| == |ms|
    ensures Less(Canon(Dict(ms)).members[i].key, Canon(Dict(ms)).members[j].key)
  {
    CanonMembersSort(ms);
    SortElements(KeyOrder(), CanonMembers(ms));
    assert KeyOrder()(Canon(Dict(ms)).members[i], Canon(Dict(ms)).members[j]);
  }
}
