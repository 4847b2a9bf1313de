/** What the canonical bytes are (tools/validate_design.py: jcs; section 3.2 of RFC 8785): UTF-8 of the
    one document that is compact, has its names in ascending order at every level, and denotes the
    value. */
module CanonicalForm {
  import opened Options
  import opened Sorting
  import opened JsonText
  import opened CanonicalJson
  import opened JsonReading
  import G = JsonGrammar

  /******* Names in order *******/

  /** Section 3.2.3 of RFC 8785: names are compared unit by unit, and a prefix comes first. */
  ghost predicate Precedes(a: G.Text, b: G.Text) {
    exists k: nat :: k <= |a| && SplitAt(a, b, k)
  }

  ghost predicate SplitAt(a: G.Text, b: G.Text, k: nat)
    requires k <= |a|
  {
    k < |b| && a[..k] == b[..k] && (k < |a| ==> a[k] < b[k])
  }

  ghost predicate Ascend(names: seq<G.Text>) {
    forall i, j :: 0 <= i < j < |names| ==> Precedes(names[i], names[j])
  }

  ghost predicate NamesAscend(w: G.Value)
    requires G.ValueOk(w, false)
  {
    match w
    case Array(es) => ElementsAscend(es)
    case Object(ms) => Ascend(G.Names(ms, false)) && MembersAscend(ms)
    case _ => true
  }

  ghost predicate ElementsAscend(es: G.Elements)
    requires G.ElementsOk(es, false)
  {
    NamesAscend(es.v) && (es.rest.Some? ==> ElementsAscend(es.rest.value))
  }

  ghost predicate MembersAscend(ms: G.Members)
    requires G.MembersOk(ms, false)
  {
    NamesAscend(ms.v) && (ms.rest.Some? ==> MembersAscend(ms.rest.value))
  }

  lemma LowNames(a: Text)
    requires Ascii(a)
    ensures |Utf16(a)| == |a| && forall i :: 0 <= i < |a| ==> Utf16(a)[i] as int == a[i] as int
  {
    Utf16Low(a);
  }

  lemma {:induction false} LessPrecedes(a: Text, b: Text)
    requires Ascii(a) && Ascii(b)
    ensures Less(a, b) <==> Precedes(Utf16(a), Utf16(b))
  {
    LowNames(a);
    LowNames(b);
    var x, y := Utf16(a), Utf16(b);
    if b == [] {
    } else if a == [] {
      assert SplitAt(x, y, 0);
    } else if a[0] != b[0] {
      if a[0] < b[0] { assert SplitAt(x, y, 0); }
      if Precedes(x, y) {
        var k: nat :| k <= |x| && SplitAt(x, y, k);
        if k > 0 { assert x[..k][0] == y[..k][0]; }
      }
    } else {
      LessPrecedes(a[1..], b[1..]);
      LowNames(a[1..]);
      LowNames(b[1..]);
      assert x[1..] == Utf16(a[1..]) && y[1..] == Utf16(b[1..]);
      TailPrecedes(x, y);
    }
  }

  lemma TailPrecedes(x: G.Text, y: G.Text)
    requires x != [] && y != [] && x[0] == y[0]
    ensures Precedes(x, y) <==> Precedes(x[1..], y[1..])
  {
    if k: nat :| k <= |x| && SplitAt(x, y, k) {
      assert k > 0;
      assert x[..k][0] == x[0];
      assert x[..k][1..] == x[1..][..k - 1] && y[..k][1..] == y[1..][..k - 1];
      assert SplitAt(x[1..], y[1..], k - 1);
    }
    if k: nat :| k <= |x[1..]| && SplitAt(x[1..], y[1..], k) {
      assert x[..k + 1] == [x[0]] + x[1..][..k] && y[..k + 1] == [y[0]] + y[1..][..k];
      assert SplitAt(x, y, k + 1);
    }
  }

  /** Members in order at every level. */
  predicate DeepSorted(v: Json)
    decreases v
  {
    match v
    case List(items) => forall i :: 0 <= i < |items| ==> DeepSorted(items[i])
    case Dict(members) =>
      && Sorted(KeyOrder(), members) && forall i :: 0 <= i < |members| ==> DeepSorted(members[i].value)
    case _ => true
  }

  lemma {:induction false} AscendExactly(w: G.Value, v: Json)
    requires Accepted(v) && G.ValueOk(w, false) && Reads(w, v)
    ensures NamesAscend(w) <==> DeepSorted(v)
    decreases w
  {
    match w
    case Array(es) => ElementsAscendExactly(es, v.items);
    case Object(ms) =>
      MembersAscendExactly(ms, v.members);
      KeysAscend(ms, v.members);
    case _ =>
  }

  lemma {:induction false} ElementsAscendExactly(es: G.Elements, vs: seq<Json>)
    requires AllAccepted(vs) && G.ElementsOk(es, false) && ReadsElements(es, vs)
    ensures ElementsAscend(es) <==> forall i :: 0 <= i < |vs| ==> DeepSorted(vs[i])
    decreases es
  {
    AscendExactly(es.v, vs[0]);
    if es.rest.Some? {
      ElementsAscendExactly(es.rest.value, vs[1..]);
      assert forall i :: 1 <= i < |vs| ==> vs[i] == vs[1..][i - 1];
    }
  }

  lemma {:induction false} MembersAscendExactly(ms: G.Members, vs: seq<Member>)
    requires MembersAccepted(vs) && G.MembersOk(ms, false) && ReadsMembers(ms, vs)
    ensures MembersAscend(ms) <==> forall i :: 0 <= i < |vs| ==> DeepSorted(vs[i].value)
    decreases ms
  {
    AscendExactly(ms.v, vs[0].value);
    if ms.rest.Some? {
      MembersAscendExactly(ms.rest.value, vs[1..]);
      assert forall i :: 1 <= i < |vs| ==> vs[i] == vs[1..][i - 1];
    }
  }

  lemma {:induction false} NamesRead(ms: G.Members, vs: seq<Member>)
    requires G.MembersOk(ms, false) && ReadsMembers(ms, vs)
    ensures var names := G.Names(ms, false);
      |names| == |vs| && forall i :: 0 <= i < |vs| ==> names[i] == Utf16(vs[i].key)
    decreases ms
  {
    if ms.rest.Some? { NamesRead(ms.rest.value, vs[1..]); }
  }

  lemma KeysAscend(ms: G.Members, vs: seq<Member>)
    requires MembersAccepted(vs) && G.MembersOk(ms, false) && ReadsMembers(ms, vs)
    ensures Ascend(G.Names(ms, false)) <==> Sorted(KeyOrder(), vs)
  {
    NamesRead(ms, vs);
    hide Precedes, Less, Reads, Accepted;
    forall i, j | 0 <= i < j < |vs|
      ensures Precedes(G.Names(ms, false)[i], G.Names(ms, false)[j]) <==> KeyOrder()(vs[i], vs[j])
    {
      LessPrecedes(vs[i].key, vs[j].key);
    }
  }

  /******* Sorting once is enough *******/

  lemma {:induction false} CanonIsDeepSorted(v: Json)
    requires Proper(v)
    ensures DeepSorted(Canon(v))
    decreases v
  {
    match v
    case List(items) =>
      forall i | 0 <= i < |items| ensures DeepSorted(Canon(items[i])) { CanonIsDeepSorted(items[i]); }
    case Dict(members) =>
      var cs := CanonMembers(members);
      CanonMembersSort(members);
      forall i | 0 <= i < |members| ensures DeepSorted(cs[i].value) { CanonIsDeepSorted(members[i].value); }
      forall m | m in Sort(KeyOrder(), cs) ensures DeepSorted(m.value) { assert m in Elements(cs); }
    case _ =>
  }

  lemma SortedKeysDiffer(ms: seq<Member>)
    requires Sorted(KeyOrder(), ms)
    ensures DistinctKeys(ms)
  {
    hide Less;
    forall i, j | 0 <= i < j < |ms| ensures ms[i].key != ms[j].key {
      assert KeyOrder()(ms[i], ms[j]);
      LessTotal(ms[i].key, ms[j].key);
    }
  }

  lemma {:induction false} SortedIsCanon(v: Json)
    requires DeepSorted(v)
    ensures Proper(v) && Canon(v) == v
    decreases v
  {
    match v
    case List(items) =>
      forall i | 0 <= i < |items| ensures Proper(items[i]) && Canon(items[i]) == items[i] { SortedIsCanon(items[i]); }
      assert Canon(v).items == items;
    case Dict(members) =>
      forall i | 0 <= i < |members| ensures Proper(members[i].value) && Canon(members[i].value) == members[i].value {
        SortedIsCanon(members[i].value);
      }
      SortedKeysDiffer(members);
      var cs := CanonMembers(members);
      assert cs == members;
      CanonMembersSort(members);
      SortedIsUnique(KeyOrder(), Sort(KeyOrder(), cs), members);
    case _ =>
  }

  /** Canonical text of a value: a compact document with ascending names that denotes the value. */
  ghost predicate IsCanonicalOf(w: G.Value, v: Json) {
    exists x :: Accepted(x) && Denotes(w, x) && NamesAscend(w) && JsonEqual(x, v)
  }

  /** The canonical bytes of a value are UTF-8 of its canonical text, and it has just one. */
  lemma JcsIsCanonical(v: Json)
    requires Accepted(v) && Proper(v)
    ensures Jcs(v).Bytes? && ReadUtf8(Jcs(v).bytes).Some?
    ensures var text := Utf16(ReadUtf8(Jcs(v).bytes).value);
      && (exists w :: IsCanonicalOf(w, v) && G.ValueText(w) == text)
      && forall w :: IsCanonicalOf(w, v) ==> G.ValueText(w) == text
  {
    var x := Canon(v);
    CanonAccepted(v);
    CanonIsDeepSorted(v);
    SortedIsCanon(x);
    CanonExactly(x, v);
    Utf8Reads(Dump(x));
    DumpExactly(x);
    var w :| Denotes(w, x) && G.ValueText(w) == Utf16(Dump(x));
    AscendExactly(w, x);
    assert IsCanonicalOf(w, v);
    hide Canon, Reads, Compact, NamesAscend, JsonEqual, Accepted, Proper;
    forall w' | IsCanonicalOf(w', v) ensures G.ValueText(w') == Utf16(Dump(x)) {
      var y :| Accepted(y) && Denotes(w', y) && NamesAscend(w') && JsonEqual(y, v);
      AscendExactly(w', y);
      SortedIsCanon(y);
      CanonExactly(y, v);
    }
  }
}
