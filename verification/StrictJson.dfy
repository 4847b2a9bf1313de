/** The strict JSON ingress (apps/api/json.ts): a recursive scanner with one mutable offset,
    followed by the platform's JSON.parse, which is taken to accept exactly the documents of
    RFC 8259. */
module StrictJson {
  import opened Options
  import opened JsonGrammar
  import opened JsonScan

  /******* The scanner *******/

  class Scanner {
    const source: Text
    var offset: nat

    constructor (source: Text)
      ensures this.source == source && offset == 0
    {
      this.source := source;
      offset := 0;
    }

    method Whitespace()
      requires offset <= |source|
      modifies this
      ensures offset == SkipSpace(source, old(offset))
    {
      while offset < |source| && IsWideSpace(source[offset])
        invariant offset <= |source|
        invariant SkipSpace(source, offset) == SkipSpace(source, old(offset))
      {
        offset := offset + 1;
      }
    }

    method String() returns (key: Option<Text>)
      requires offset <= |source|
      modifies this
      ensures key.None? <==> ScanString(source, old(offset)).None?
      ensures key.Some? ==> ScanString(source, old(offset)) == Some((key.value, offset))
    {
      var start := offset;
      offset := offset + 1;
      if start == |source| || source[start] != QUOTE { return None; }
      while offset < |source|
        invariant start < offset
        invariant FindClose(source, offset) == FindClose(source, start + 1)
        decreases |source| - offset
      {
        var character := source[offset];
        offset := offset + 1;
        if character == BACKSLASH {
          offset := offset + 1;
        } else if character == QUOTE {
          return DecodeFrom(source[start..offset], 1);
        }
      }
      return None;
    }

    method Value(depth: nat) returns (ok: bool)
      requires offset <= |source|
      modifies this
      ensures ok <==> ScanValue(source, old(offset), depth).Some?
      ensures ok ==> ScanValue(source, old(offset), depth) == Some(offset)
      decreases |source| - offset, 1
    {
      hide ScanMembers, ScanMember, ScanElements, ScanString, PrimitiveEnd, SkipSpace;
      if depth > MAX_DEPTH { return false; }
      Whitespace();
      if offset == |source| { return false; }
      var next := source[offset];
      if next == OPEN_BRACE {
        offset := offset + 1;
        Whitespace();
        if offset < |source| && source[offset] == CLOSE_BRACE { offset := offset + 1; return true; }
        ok := ObjectMembers(depth);
      } else if next == OPEN_BRACKET {
        offset := offset + 1;
        Whitespace();
        if offset < |source| && source[offset] == CLOSE_BRACKET { offset := offset + 1; return true; }
        ok := ArrayElements(depth);
      } else if next == QUOTE {
        var key := String();
        ok := key.Some?;
      } else {
        var end := PrimitiveEnd(source, offset);
        if end.None? { return false; }
        offset := end.value;
        ok := true;
      }
    }

    /** The loop over the members of a non-empty object, from its first name on. */
    method ObjectMembers(depth: nat) returns (ok: bool)
      requires offset <= |source|
      modifies this
      ensures ok <==> ScanMembers(source, old(offset), depth, {}).Some?
      ensures ok ==> ScanMembers(source, old(offset), depth, {}) == Some(offset)
      decreases |source| - offset, 3
    {
      hide ScanMember, ScanValue, ScanElements, ScanString, PrimitiveEnd, SkipSpace;
      var keys: set<Text> := {};
      ghost var goal := ScanMembers(source, offset, depth, keys);
      while true
        invariant old(offset) <= offset <= |source|
        invariant ScanMembers(source, offset, depth, keys) == goal
        decreases |source| - offset
      {
        var key := Member(depth, keys);
        if key.None? { return false; }
        Whitespace();
        if offset == |source| { return false; }
        var delimiter := source[offset];
        offset := offset + 1;
        if delimiter == CLOSE_BRACE { return true; }
        if delimiter != COMMA { return false; }
        keys := keys + {key.value};
      }
    }

    /** One pass of that loop up to its delimiter. */
    method Member(depth: nat, keys: set<Text>) returns (key: Option<Text>)
      requires offset <= |source|
      modifies this
      ensures key.None? <==> ScanMember(source, old(offset), depth, keys).None?
      ensures key.Some? ==> ScanMember(source, old(offset), depth, keys) == Some((key.value, offset))
      decreases |source| - offset, 2
    {
      hide ScanMembers, ScanValue, ScanElements, ScanString, PrimitiveEnd, SkipSpace, Forbidden;
      Whitespace();
      key := String();
      if key.None? || key.value in keys || Forbidden(key.value) { return None; }
      Whitespace();
      if offset == |source| || source[offset] != COLON { return None; }
      offset := offset + 1;
      var inner := Value(depth + 1);
      if !inner { return None; }
    }

    /** The loop over the elements of a non-empty array. */
    method ArrayElements(depth: nat) returns (ok: bool)
      requires offset <= |source|
      modifies this
      ensures ok <==> ScanElements(source, old(offset), depth).Some?
      ensures ok ==> ScanElements(source, old(offset), depth) == Some(offset)
      decreases |source| - offset, 2
    {
      hide ScanMember, ScanMembers, ScanValue, ScanString, PrimitiveEnd, SkipSpace;
      ghost var goal := ScanElements(source, offset, depth);
      while true
        invariant old(offset) <= offset <= |source|
        invariant ScanElements(source, offset, depth) == goal
        decreases |source| - offset
      {
        var inner := Value(depth + 1);
        if !inner { return false; }
        Whitespace();
        if offset == |source| { return false; }
        var delimiter := source[offset];
        offset := offset + 1;
        if delimiter == CLOSE_BRACKET { return true; }
        if delimiter != COMMA { return false; }
      }
    }
  }

  /** The scanning stage; the caller goes on to JSON.parse of the whole source when it succeeds. */
  method Scan(source: Text) returns (ok: bool)
    ensures ok <==> ScanAccepts(source)
    ensures ok <==> IsStrictDocument(source, true)
  {
    hide ScanValue;
    ScanAcceptsExactly(source);
    var scanner := new Scanner(source);
    ok := scanner.Value(0);
    if !ok { return; }
    scanner.Whitespace();
    ok := scanner.offset == |source|;
  }

  /** Both stages: the scan, then JSON.parse, which accepts the documents of RFC 8259. */
  ghost predicate Accepts(s: Text) {
    ScanAccepts(s) && IsDocument(s, false)
  }

  /** The ingress accepts a text exactly when it is an RFC 8259 document in which every object's
      decoded names are pairwise distinct and allowed and no value lies deeper than 64. */
  lemma AcceptsExactly(s: Text)
    ensures Accepts(s) <==> IsStrictDocument(s, false)
  {
    hide DocumentText, NamesOk, Depth, ScanAccepts;
    if Accepts(s) {
      var d :| DocumentOk(d, false) && DocumentText(d) == s;
      NarrowIsWide(d.v);
      DocumentScan(s, d);
    }
    if IsStrictDocument(s, false) {
      var d :| DocumentOk(d, false) && DocumentText(d) == s && NamesOk(d.v, false) && Depth(d.v) <= MAX_DEPTH;
      NarrowIsWide(d.v);
      DocumentScan(s, d);
    }
  }

  /** An RFC document is also a document for the wider whitespace, with the same names. */
  lemma {:induction false} NarrowIsWide(v: Value)
    requires ValueOk(v, false)
    ensures ValueOk(v, true) && (NamesOk(v, true) <==> NamesOk(v, false))
  {
    match v
    case Array(es) => NarrowElements(es);
    case Object(ms) => NarrowMembers(ms);
    case _ =>
  }

  lemma {:induction false} NarrowElements(es: Elements)
    requires ElementsOk(es, false)
    ensures ElementsOk(es, true) && (ElementsNamesOk(es, true) <==> ElementsNamesOk(es, false))
  {
    NarrowIsWide(es.v);
    if es.rest.Some? { NarrowElements(es.rest.value); }
  }

  lemma {:induction false} NarrowMembers(ms: Members)
    requires MembersOk(ms, false)
    ensures MembersOk(ms, true) && Names(ms, true) == Names(ms, false)
    ensures MemberValuesOk(ms, true) <==> MemberValuesOk(ms, false)
  {
    NarrowIsWide(ms.v);
    if ms.rest.Some? { NarrowMembers(ms.rest.value); }
  }

  /** An RFC document never starts with whitespace of the wider class only. */
  lemma RfcStart(s: Text)
    requires IsDocument(s, false)
    ensures |s| >= 1 && (IsWideSpace(s[0]) ==> IsRfcSpace(s[0]))
  {
    var d :| DocumentOk(d, false) && DocumentText(d) == s;
    NarrowIsWide(d.v);
    ValueStart(d.v);
    if d.pre == [] {
      assert s[0] == ValueText(d.v)[0];
    } else {
      assert s[0] == d.pre[0] && d.pre[0] in d.pre;
    }
  }

  /** The second stage matters: a no-break space before a value passes the scan only. */
  lemma WideSpaceIsRefused()
    ensures ScanAccepts([0xA0, ZERO]) && !Accepts([0xA0, ZERO])
  {
    var s: Text := [0xA0, ZERO];
    var d := Document([0xA0], Num(Number(false, [ZERO], None, None)), []);
    assert NumberText(d.v.number) == [ZERO];
    assert DocumentText(d) == s;
    DocumentScan(s, d);
    if IsDocument(s, false) { RfcStart(s); }
  }
}
