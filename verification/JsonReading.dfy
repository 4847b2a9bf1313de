/** The compact text of a value is a JSON document that reads back as the value (RFC 8259), and the
    only one in the form that section 3.2.2 of RFC 8785 prescribes. A document is read by the grammar
    alone: its pieces, digits and brackets. */
module JsonReading {
  import opened Options
  import G = JsonGrammar
  import J = JsonText

  /******* UTF-16 *******/

  /** A code point beyond the first plane is a surrogate pair. */
  function Units(c: J.Code): (us: G.Text)
    ensures |us| >= 1
  {
    if c < 0x1_0000 then [c as G.CodeUnit]
    else
      var n := c as int - 0x1_0000;
      [(0xD800 + n / 0x400) as G.CodeUnit, (0xDC00 + n % 0x400) as G.CodeUnit]
  }

  function Utf16(s: J.Text): G.Text {
    if s == [] then [] else Units(s[0]) + Utf16(s[1..])
  }

  lemma {:induction false} Utf16Concat(a: J.Text, b: J.Text)
    ensures Utf16(a + b) == Utf16(a) + Utf16(b)
  {
    if a == [] {
      assert a + b == b;
    } else {
      Utf16Concat(a[1..], b);
      assert (a + b)[1..] == a[1..] + b && (a + b)[0] == a[0];
      assert Units(a[0]) + (Utf16(a[1..]) + Utf16(b)) == Units(a[0]) + Utf16(a[1..]) + Utf16(b);
    }
  }

  lemma {:induction false} Utf16Low(s: J.Text)
    requires forall i :: 0 <= i < |s| ==> s[i] < 0x1_0000
    ensures |Utf16(s)| == |s| && forall i :: 0 <= i < |s| ==> Utf16(s)[i] as int == s[i] as int
  {
    if s != [] { Utf16Low(s[1..]); }
  }

  predicate HighSurrogate(u: G.CodeUnit) { 0xD800 <= u <= 0xDBFF }

  /** Text without surrogates can be told from its units. */
  lemma {:induction false} Utf16Injective(s: J.Text, t: J.Text)
    requires J.Scalar(s) && J.Scalar(t) && Utf16(s) == Utf16(t)
    ensures s == t
  {
    if s != [] && t != [] {
      var us := Utf16(s);
      assert us[0] == Units(s[0])[0] == Units(t[0])[0];
      assert HighSurrogate(us[0]) <==> s[0] >= 0x1_0000;
      assert HighSurrogate(us[0]) <==> t[0] >= 0x1_0000;
      if s[0] >= 0x1_0000 { assert us[1] == Units(s[0])[1] == Units(t[0])[1]; }
      assert s[0] == t[0];
      assert Utf16(s[1..]) == us[|Units(s[0])|..] == Utf16(t[1..]);
      Utf16Injective(s[1..], t[1..]);
      assert s == [s[0]] + s[1..] && t == [t[0]] + t[1..];
    }
  }

  /******* Reading a document *******/

  function DecimalValue(t: G.Text): nat
    requires G.AllDigits(t)
  {
    if t == [] then 0
    else
      assert t[|t| - 1] in t;
      DecimalValue(t[..|t| - 1]) * 10 + (t[|t| - 1] as int - 0x30)
  }

  /** The value that a document denotes: literals, integers, decoded strings, elements and members in
      their order. */
  ghost predicate Reads(w: G.Value, v: J.Json)
    requires G.ValueOk(w, false)
  {
    match w
    case Literal(word) =>
      v == if word == G.TRUE then J.Bool(true) else if word == G.FALSE then J.Bool(false) else J.Null
    case Num(n) =>
      var magnitude: int := DecimalValue(n.integer);
      v == J.Int(if n.minus then -magnitude else magnitude) && n.fraction.None? && n.exponent.None?
    case Str(ps) => v.Str? && Utf16(v.s) == G.Decoded(ps)
    case EmptyArray(_) => v == J.List([])
    case Array(es) => v.List? && ReadsElements(es, v.items)
    case EmptyObject(_) => v == J.Dict([])
    case Object(ms) => v.Dict? && ReadsMembers(ms, v.members)
  }

  ghost predicate ReadsElements(es: G.Elements, vs: seq<J.Json>)
    requires G.ElementsOk(es, false)
  {
    && vs != [] && Reads(es.v, vs[0])
    && if es.rest.None? then |vs| == 1 else ReadsElements(es.rest.value, vs[1..])
  }

  ghost predicate ReadsMembers(ms: G.Members, vs: seq<J.Member>)
    requires G.MembersOk(ms, false)
  {
    && vs != [] && Utf16(vs[0].key) == G.Decoded(ms.name) && Reads(ms.v, vs[0].value)
    && if ms.rest.None? then |vs| == 1 else ReadsMembers(ms.rest.value, vs[1..])
  }

  /******* The prescribed form *******/

  predicate UpperHex(u: G.CodeUnit) { 0x41 <= u <= 0x46 }

  /** Section 3.2.2.2 of RFC 8785: characters stand for themselves; where they may not, the short
      escape is used, and where there is none, four digits in lower case. The solidus is not escaped. */
  predicate PlainestPiece(p: G.Piece)
    requires G.PieceOk(p)
  {
    match p
    case Plain(_) => true
    case Short(c) => c != 0x2F
    case Hex(a, b, c, d) =>
      var u := G.PieceUnit(p);
      && u < 0x20 && u != 0x08 && u != 0x09 && u != 0x0A && u != 0x0C && u != 0x0D
      && !UpperHex(a) && !UpperHex(b) && !UpperHex(c) && !UpperHex(d)
  }

  predicate Plainest(ps: seq<G.Piece>)
    requires G.PiecesOk(ps)
  {
    forall p :: p in ps ==> PlainestPiece(p)
  }

  /** No whitespace, plainest strings, integers without a sign on zero. */
  ghost predicate Compact(w: G.Value)
    requires G.ValueOk(w, false)
  {
    match w
    case Literal(_) => true
    case Num(n) => n.fraction.None? && n.exponent.None? && (n.minus ==> DecimalValue(n.integer) != 0)
    case Str(ps) => Plainest(ps)
    case EmptyArray(inner) => inner == []
    case Array(es) => CompactElements(es)
    case EmptyObject(inner) => inner == []
    case Object(ms) => CompactMembers(ms)
  }

  ghost predicate CompactElements(es: G.Elements)
    requires G.ElementsOk(es, false)
  {
    es.pre == [] && Compact(es.v) && es.post == [] && (es.rest.Some? ==> CompactElements(es.rest.value))
  }

  ghost predicate CompactMembers(ms: G.Members)
    requires G.MembersOk(ms, false)
  {
    && ms.pre == [] && Plainest(ms.name) && ms.mid == [] && ms.vpre == [] && Compact(ms.v) && ms.post == []
    && (ms.rest.Some? ==> CompactMembers(ms.rest.value))
  }

  ghost predicate Denotes(w: G.Value, v: J.Json) {
    G.ValueOk(w, false) && Compact(w) && Reads(w, v)
  }

  /******* The document of a value *******/

  /** How each code point is written. */
  function PiecesOf(c: J.Code): seq<G.Piece> {
    if c == 0x22 || c == 0x5C then [G.Short(c as G.CodeUnit)]
    else if c == 0x08 then [G.Short(0x62)]
    else if c == 0x09 then [G.Short(0x74)]
    else if c == 0x0A then [G.Short(0x6E)]
    else if c == 0x0C then [G.Short(0x66)]
    else if c == 0x0D then [G.Short(0x72)]
    else if c < 0x20 then [G.Hex(0x30, 0x30, LowerHex(c as int / 16), LowerHex(c as int % 16))]
    else if c < 0x1_0000 then [G.Plain(Units(c)[0])]
    else [G.Plain(Units(c)[0]), G.Plain(Units(c)[1])]
  }

  function LowerHex(n: nat): G.CodeUnit
    requires n < 16
  {
    if n < 10 then (0x30 + n) as G.CodeUnit else (0x61 + n - 10) as G.CodeUnit
  }

  function Pieces(s: J.Text): seq<G.Piece> {
    if s == [] then [] else PiecesOf(s[0]) + Pieces(s[1..])
  }

  lemma PiecesOfOk(c: J.Code)
    ensures G.PiecesOk(PiecesOf(c)) && Plainest(PiecesOf(c)) && G.Decoded(PiecesOf(c)) == Units(c)
  {
    var ps := PiecesOf(c);
    if c < 0x20 && ps[0].Hex? { HexDigitsRead(c); }
    PieceIsPlainest(c);
    hide PiecesOf, PlainestPiece;
    if |ps| == 2 {
      assert ps[1..][1..] == [] && G.Decoded(ps[1..][1..]) == [];
      assert ps[1..][0] == ps[1] && G.Decoded(ps[1..]) == [G.PieceUnit(ps[1])];
      assert ps == [ps[0], ps[1]];
    } else {
      assert ps[1..] == [] && ps == [ps[0]];
    }
  }

  lemma PieceIsPlainest(c: J.Code)
    ensures var ps := PiecesOf(c);
      && 1 <= |ps| <= 2 && (forall i :: 0 <= i < |ps| ==> G.PieceOk(ps[i]) && PlainestPiece(ps[i]))
      && |ps| == |Units(c)| && forall i :: 0 <= i < |ps| ==> G.PieceUnit(ps[i]) == Units(c)[i]
  {
    if c < 0x20 && PiecesOf(c)[0].Hex? { HexDigitsRead(c); }
  }

  lemma HexDigitsRead(c: J.Code)
    requires c < 0x20
    ensures var h, l := LowerHex(c as int / 16), LowerHex(c as int % 16);
      && G.IsHex(h) && G.IsHex(l) && G.HexUnit(0x30, 0x30, h, l) as int == c as int
      && !UpperHex(h) && !UpperHex(l)
  {
    var h, l := LowerHex(c as int / 16), LowerHex(c as int % 16);
    assert G.HexValue(h) as int == c as int / 16 && G.HexValue(l) as int == c as int % 16;
  }

  lemma {:induction false} DecodedConcat(ps: seq<G.Piece>, qs: seq<G.Piece>)
    requires G.PiecesOk(ps) && G.PiecesOk(qs)
    ensures G.PiecesOk(ps + qs) && G.Decoded(ps + qs) == G.Decoded(ps) + G.Decoded(qs)
  {
    if ps == [] {
      assert ps + qs == qs;
    } else {
      assert (ps + qs)[1..] == ps[1..] + qs;
      DecodedConcat(ps[1..], qs);
    }
  }

  lemma {:induction false} PiecesRead(s: J.Text)
    ensures G.PiecesOk(Pieces(s)) && Plainest(Pieces(s)) && G.Decoded(Pieces(s)) == Utf16(s)
  {
    if s != [] {
      PiecesOfOk(s[0]);
      PiecesRead(s[1..]);
      DecodedConcat(PiecesOf(s[0]), Pieces(s[1..]));
    }
  }

  function BodyText(ps: seq<G.Piece>): G.Text {
    if ps == [] then [] else G.PieceText(ps[0]) + BodyText(ps[1..])
  }

  lemma {:induction false} PiecesTextConcat(ps: seq<G.Piece>, qs: seq<G.Piece>)
    ensures G.PiecesText(ps + qs) == BodyText(ps) + G.PiecesText(qs)
  {
    if ps == [] {
      assert ps + qs == qs;
    } else {
      assert (ps + qs)[1..] == ps[1..] + qs;
      PiecesTextConcat(ps[1..], qs);
    }
  }

  lemma EscapeText(c: J.Code)
    ensures Utf16(J.Escape(c)) == BodyText(PiecesOf(c))
  {
    var ps := PiecesOf(c);
    if c < 0x1_0000 {
      Utf16Low(J.Escape(c));
      assert ps[1..] == [];
      assert BodyText(ps) == G.PieceText(ps[0]);
    } else {
      assert ps[1..][1..] == [];
      assert J.Escape(c) == [c] && [c][1..] == [];
      assert BodyText(ps[1..]) == G.PieceText(ps[1]);
      assert BodyText(ps) == [Units(c)[0]] + [Units(c)[1]];
    }
  }

  lemma {:induction false} LiteralText(s: J.Text)
    ensures Utf16(J.Literal(s)) == G.PiecesText(Pieces(s))
  {
    if s == [] {
      Utf16Low([34]);
    } else {
      EscapeText(s[0]);
      LiteralText(s[1..]);
      Utf16Concat(J.Escape(s[0]), J.Literal(s[1..]));
      PiecesTextConcat(PiecesOf(s[0]), Pieces(s[1..]));
    }
  }

  lemma StringText(s: J.Text)
    ensures Utf16([34] + J.Literal(s)) == G.StringText(Pieces(s))
  {
    Utf16Low([34]);
    Utf16Concat([34], J.Literal(s));
    LiteralText(s);
  }

  function Magnitude(n: int): nat { if n < 0 then -n else n }

  /** Decimal digits, as units. */
  function DigitUnits(n: nat): G.Text { Utf16(J.Digits(n)) }

  lemma {:induction false} DigitsRead(n: nat)
    ensures var t := DigitUnits(n); G.IntegerOk(t) && (t[0] == 0x30 <==> n == 0) && DecimalValue(t) == n
  {
    J.DigitsValue(n);
    Utf16Low(J.Digits(n));
    var t := DigitUnits(n);
    if n < 10 {
      assert t[..0] == [];
    } else {
      DigitsRead(n / 10);
      J.DigitsValue(n / 10);
      Utf16Low(J.Digits(n / 10));
      assert t[..|t| - 1] == DigitUnits(n / 10);
      assert t[0] == DigitUnits(n / 10)[0];
    }
  }

  function Tree(v: J.Json): G.Value
    requires J.Accepted(v)
    decreases v
  {
    match v
    case Null => G.Literal(G.NULL)
    case Bool(b) => G.Literal(if b then G.TRUE else G.FALSE)
    case Int(n) => G.Num(G.Number(n < 0, DigitUnits(Magnitude(n)), None, None))
    case Str(s) => G.Str(Pieces(s))
    case List(items) => if items == [] then G.EmptyArray([]) else G.Array(TreeElements(items))
    case Dict(members) => if members == [] then G.EmptyObject([]) else G.Object(TreeMembers(members))
  }

  function TreeElements(vs: seq<J.Json>): G.Elements
    requires vs != [] && J.AllAccepted(vs)
    decreases vs
  {
    G.Elements([], Tree(vs[0]), [], if |vs| == 1 then None else Some(TreeElements(vs[1..])))
  }

  function TreeMembers(ms: seq<J.Member>): G.Members
    requires ms != [] && J.MembersAccepted(ms)
    decreases ms
  {
    G.Members([], Pieces(ms[0].key), [], [], Tree(ms[0].value), [],
              if |ms| == 1 then None else Some(TreeMembers(ms[1..])))
  }

  lemma {:induction false} TreeDenotes(v: J.Json)
    requires J.Accepted(v)
    ensures Denotes(Tree(v), v)
    decreases v
  {
    match v
    case Int(n) => DigitsRead(Magnitude(n));
    case Str(s) => PiecesRead(s);
    case List(items) => if items != [] { ElementsDenote(items); }
    case Dict(members) => if members != [] { MembersDenote(members); }
    case _ =>
  }

  lemma {:induction false} ElementsDenote(vs: seq<J.Json>)
    requires vs != [] && J.AllAccepted(vs)
    ensures var es := TreeElements(vs); G.ElementsOk(es, false) && CompactElements(es) && ReadsElements(es, vs)
    decreases vs
  {
    TreeDenotes(vs[0]);
    if |vs| > 1 { ElementsDenote(vs[1..]); }
  }

  lemma {:induction false} MembersDenote(ms: seq<J.Member>)
    requires ms != [] && J.MembersAccepted(ms)
    ensures var t := TreeMembers(ms); G.MembersOk(t, false) && CompactMembers(t) && ReadsMembers(t, ms)
    decreases ms
  {
    PiecesRead(ms[0].key);
    TreeDenotes(ms[0].value);
    if |ms| > 1 { MembersDenote(ms[1..]); }
  }

  /******* The text *******/

  lemma {:induction false} TreeText(v: J.Json)
    requires J.Accepted(v)
    ensures Utf16(J.Dump(v)) == G.ValueText(Tree(v))
    decreases v
  {
    hide J.DumpItems, J.DumpMember, J.DumpMembers, J.Decimal, J.Literal, G.ElementsText, G.MembersText, G.StringText;
    hide G.NumberText, TreeElements, TreeMembers, Pieces, Utf16, DigitUnits;
    match v
    case Null => Utf16Low(J.Dump(v));
    case Bool(_) => Utf16Low(J.Dump(v));
    case Int(n) => NumberText(n);
    case Str(s) => StringText(s);
    case List(items) =>
      if items == [] {
        Utf16Low(J.Dump(v));
      } else {
        ElementsText(items);
        Opened(91, J.Dump(items[0]) + J.DumpItems(items[1..]));
      }
    case Dict(members) =>
      if members == [] {
        Utf16Low(J.Dump(v));
      } else {
        MembersText(members);
        Opened(123, J.DumpMember(members[0]) + J.DumpMembers(members[1..]));
      }
  }

  lemma Opened(c: J.Code, s: J.Text)
    requires c < 0x80
    ensures Utf16([c] + s) == [c as G.CodeUnit] + Utf16(s)
  {
    assert ([c] + s)[1..] == s;
  }

  lemma NumberText(n: int)
    ensures Utf16(J.Decimal(n)) == G.NumberText(G.Number(n < 0, DigitUnits(Magnitude(n)), None, None))
  {
    if n < 0 { Opened(45, J.Digits(-n)); }
  }

  lemma {:induction false} ElementsText(vs: seq<J.Json>)
    requires vs != [] && J.AllAccepted(vs)
    ensures Utf16(J.Dump(vs[0]) + J.DumpItems(vs[1..])) == G.ElementsText(TreeElements(vs))
    decreases vs, 0
  {
    hide J.Dump, J.DumpItems, Utf16, Tree, G.ValueText;
    TreeText(vs[0]);
    ItemsText(vs[1..]);
    Utf16Concat(J.Dump(vs[0]), J.DumpItems(vs[1..]));
    var es := TreeElements(vs);
    assert G.ElementsText(es) == G.ValueText(es.v) + G.ElementsTail(es);
    hide G.ElementsText;
  }

  lemma {:induction false} ItemsText(vs: seq<J.Json>)
    requires J.AllAccepted(vs)
    ensures Utf16(J.DumpItems(vs)) ==
      if vs == [] then [G.CLOSE_BRACKET] else [G.COMMA] + G.ElementsText(TreeElements(vs))
    decreases vs, 1
  {
    hide J.Dump, Utf16, TreeElements, G.ElementsText;
    if vs == [] {
      Utf16Low(J.DumpItems(vs));
    } else {
      ElementsText(vs);
      assert J.DumpItems(vs) == [44] + (J.Dump(vs[0]) + J.DumpItems(vs[1..]));
      Opened(44, J.Dump(vs[0]) + J.DumpItems(vs[1..]));
    }
  }

  lemma {:induction false} MemberText(m: J.Member)
    requires J.Accepted(m.value)
    ensures Utf16(J.DumpMember(m)) == G.StringText(Pieces(m.key)) + [G.COLON] + G.ValueText(Tree(m.value))
    decreases m
  {
    StringText(m.key);
    TreeText(m.value);
    MemberIs(m);
    hide J.Dump, J.DumpMember, J.Literal, Pieces, Tree, Utf16, G.StringText, G.ValueText;
    var name, value := [34] + J.Literal(m.key), J.Dump(m.value);
    Opened(58, value);
    Utf16Concat(name, [58] + value);
    assert Utf16(name) + ([G.COLON] + Utf16(value)) == Utf16(name) + [G.COLON] + Utf16(value);
  }

  lemma MemberIs(m: J.Member)
    ensures J.DumpMember(m) == [34] + J.Literal(m.key) + ([58] + J.Dump(m.value))
  {
    hide J.Dump, J.Literal;
  }

  lemma {:induction false} MembersText(ms: seq<J.Member>)
    requires ms != [] && J.MembersAccepted(ms)
    ensures Utf16(J.DumpMember(ms[0]) + J.DumpMembers(ms[1..])) == G.MembersText(TreeMembers(ms))
    decreases ms, 0
  {
    hide J.DumpMember, J.DumpMembers, Utf16, Tree, Pieces, G.ValueText, G.StringText;
    MemberText(ms[0]);
    RestText(ms[1..]);
    Utf16Concat(J.DumpMember(ms[0]), J.DumpMembers(ms[1..]));
    var t := TreeMembers(ms);
    assert G.MembersText(t) == G.StringText(t.name) + [G.COLON] + G.ValueText(t.v) + G.MembersTail(t);
    hide G.MembersText;
  }

  lemma {:induction false} RestText(ms: seq<J.Member>)
    requires J.MembersAccepted(ms)
    ensures Utf16(J.DumpMembers(ms)) == if ms == [] then [G.CLOSE_BRACE] else [G.COMMA] + G.MembersText(TreeMembers(ms))
    decreases ms, 1
  {
    hide J.DumpMember, Utf16, TreeMembers, G.MembersText;
    if ms == [] {
      Utf16Low(J.DumpMembers(ms));
    } else {
      MembersText(ms);
      assert J.DumpMembers(ms) == [44] + (J.DumpMember(ms[0]) + J.DumpMembers(ms[1..]));
      Opened(44, J.DumpMember(ms[0]) + J.DumpMembers(ms[1..]));
    }
  }

  /******* There is one such document *******/

  lemma HexOnce(a: G.CodeUnit, b: G.CodeUnit, c: G.CodeUnit, d: G.CodeUnit,
                e: G.CodeUnit, f: G.CodeUnit, g: G.CodeUnit, h: G.CodeUnit)
    requires a < 16 && b < 16 && c < 16 && d < 16 && e < 16 && f < 16 && g < 16 && h < 16
    requires ((a * 16 + b) * 16 + c) * 16 + d == ((e * 16 + f) * 16 + g) * 16 + h
    ensures a == e && b == f && c == g && d == h
  {
  }

  lemma LowerOnce(x: G.CodeUnit, y: G.CodeUnit)
    requires G.IsHex(x) && G.IsHex(y) && !UpperHex(x) && !UpperHex(y)
    requires G.HexValue(x) == G.HexValue(y)
    ensures x == y
  {
  }

  lemma PieceOnce(p: G.Piece, q: G.Piece)
    requires G.PieceOk(p) && G.PieceOk(q) && PlainestPiece(p) && PlainestPiece(q)
    requires G.PieceUnit(p) == G.PieceUnit(q)
    ensures p == q
  {
    if p.Hex? && q.Hex? {
      hide PlainestPiece;
      HexOnce(G.HexValue(p.h3), G.HexValue(p.h2), G.HexValue(p.h1), G.HexValue(p.h0),
              G.HexValue(q.h3), G.HexValue(q.h2), G.HexValue(q.h1), G.HexValue(q.h0));
      LowerOnce(p.h3, q.h3);
      LowerOnce(p.h2, q.h2);
      LowerOnce(p.h1, q.h1);
      LowerOnce(p.h0, q.h0);
    } else {
      hide G.HexValue;
    }
  }

  lemma {:induction false} PiecesOnce(ps: seq<G.Piece>, qs: seq<G.Piece>)
    requires G.PiecesOk(ps) && G.PiecesOk(qs) && Plainest(ps) && Plainest(qs) && G.Decoded(ps) == G.Decoded(qs)
    ensures ps == qs
  {
    if ps != [] && qs != [] {
      assert G.Decoded(ps)[0] == G.PieceUnit(ps[0]) && G.Decoded(qs)[0] == G.PieceUnit(qs[0]);
      PieceOnce(ps[0], qs[0]);
      assert G.Decoded(ps)[1..] == G.Decoded(ps[1..]) && G.Decoded(qs)[1..] == G.Decoded(qs[1..]);
      PiecesOnce(ps[1..], qs[1..]);
      assert ps == [ps[0]] + ps[1..] && qs == [qs[0]] + qs[1..];
    }
  }

  lemma {:induction false} PositiveValue(t: G.Text)
    requires G.AllDigits(t) && |t| >= 1 && t[0] != 0x30
    ensures DecimalValue(t) >= 1
  {
    assert t[|t| - 1] in t && t[0] in t;
    if |t| > 1 {
      PositiveValue(t[..|t| - 1]);
    } else {
      assert t[..0] == [];
    }
  }

  lemma {:induction false} DecimalOnce(s: G.Text, t: G.Text)
    requires G.IntegerOk(s) && G.IntegerOk(t) && DecimalValue(s) == DecimalValue(t)
    ensures s == t
  {
    var m, n := |s| - 1, |t| - 1;
    assert (forall c :: c in s[..m] ==> c in s) && forall c :: c in t[..n] ==> c in t;
    assert s == s[..m] + [s[m]] && t == t[..n] + [t[n]];
    assert s[m] in s && t[n] in t;
    if m > 0 { PositiveValue(s[..m]); } else { assert s[..m] == []; }
    if n > 0 { PositiveValue(t[..n]); } else { assert t[..n] == []; }
    if m > 0 && n > 0 { DecimalOnce(s[..m], t[..n]); }
  }

  lemma {:induction false} DenotedOnce(w: G.Value, x: G.Value, v: J.Json)
    requires Denotes(w, v) && Denotes(x, v)
    ensures w == x
    decreases w
  {
    SameShape(w, x, v);
    match w
    case Num(n) => DecimalOnce(n.integer, x.number.integer);
    case Str(ps) => PiecesOnce(ps, x.pieces);
    case Array(es) => ElementsOnce(es, x.elements, v.items);
    case Object(ms) => MembersOnce(ms, x.members, v.members);
    case _ =>
  }

  lemma SameShape(w: G.Value, x: G.Value, v: J.Json)
    requires Denotes(w, v) && Denotes(x, v)
    ensures w.Literal? == x.Literal? && w.Num? == x.Num? && w.Str? == x.Str?
    ensures w.EmptyArray? == x.EmptyArray? && w.Array? == x.Array?
    ensures w.EmptyObject? == x.EmptyObject? && w.Object? == x.Object?
  {
    NotEmpty(w, v);
    NotEmpty(x, v);
  }

  lemma NotEmpty(w: G.Value, v: J.Json)
    requires Denotes(w, v)
    ensures w.Array? ==> v.List? && v.items != []
    ensures w.Object? ==> v.Dict? && v.members != []
  {
    match w
    case Array(es) => assert ReadsElements(es, v.items);
    case Object(ms) => assert ReadsMembers(ms, v.members);
    case _ =>
  }

  lemma {:induction false} ElementsOnce(es: G.Elements, fs: G.Elements, vs: seq<J.Json>)
    requires G.ElementsOk(es, false) && CompactElements(es) && ReadsElements(es, vs)
    requires G.ElementsOk(fs, false) && CompactElements(fs) && ReadsElements(fs, vs)
    ensures es == fs
    decreases es
  {
    DenotedOnce(es.v, fs.v, vs[0]);
    if es.rest.Some? && fs.rest.Some? { ElementsOnce(es.rest.value, fs.rest.value, vs[1..]); }
  }

  lemma {:induction false} MembersOnce(ms: G.Members, ns: G.Members, vs: seq<J.Member>)
    requires G.MembersOk(ms, false) && CompactMembers(ms) && ReadsMembers(ms, vs)
    requires G.MembersOk(ns, false) && CompactMembers(ns) && ReadsMembers(ns, vs)
    ensures ms == ns
    decreases ms
  {
    PiecesOnce(ms.name, ns.name);
    DenotedOnce(ms.v, ns.v, vs[0].value);
    if ms.rest.Some? && ns.rest.Some? { MembersOnce(ms.rest.value, ns.rest.value, vs[1..]); }
  }

  /** The text of an accepted value is the one compact document that denotes the value. */
  lemma DumpExactly(v: J.Json)
    requires J.Accepted(v)
    ensures exists w :: Denotes(w, v) && G.ValueText(w) == Utf16(J.Dump(v))
    ensures forall w :: Denotes(w, v) ==> G.ValueText(w) == Utf16(J.Dump(v))
  {
    TreeDenotes(v);
    TreeText(v);
    hide Denotes;
    forall w | Denotes(w, v) ensures G.ValueText(w) == Utf16(J.Dump(v)) { DenotedOnce(w, Tree(v), v); }
  }

  /** And a document denotes at most one value whose text is free of surrogates. */
  lemma {:induction false} ReadsOnce(w: G.Value, v: J.Json, x: J.Json)
    requires J.Accepted(v) && J.Accepted(x) && G.ValueOk(w, false) && Reads(w, v) && Reads(w, x)
    ensures v == x
    decreases w
  {
    match w
    case Str(_) => Utf16Injective(v.s, x.s);
    case Array(es) => ElementsReadOnce(es, v.items, x.items);
    case Object(ms) => MembersReadOnce(ms, v.members, x.members);
    case _ =>
  }

  lemma {:induction false} ElementsReadOnce(es: G.Elements, vs: seq<J.Json>, xs: seq<J.Json>)
    requires J.AllAccepted(vs) && J.AllAccepted(xs) && G.ElementsOk(es, false)
    requires ReadsElements(es, vs) && ReadsElements(es, xs)
    ensures vs == xs
    decreases es
  {
    ReadsOnce(es.v, vs[0], xs[0]);
    if es.rest.Some? { ElementsReadOnce(es.rest.value, vs[1..], xs[1..]); }
    assert vs == [vs[0]] + vs[1..] && xs == [xs[0]] + xs[1..];
  }

  lemma {:induction false} MembersReadOnce(ms: G.Members, vs: seq<J.Member>, xs: seq<J.Member>)
    requires J.MembersAccepted(vs) && J.MembersAccepted(xs) && G.MembersOk(ms, false)
    requires ReadsMembers(ms, vs) && ReadsMembers(ms, xs)
    ensures vs == xs
    decreases ms
  {
    AsciiIsScalar(vs[0].key);
    AsciiIsScalar(xs[0].key);
    Utf16Injective(vs[0].key, xs[0].key);
    ReadsOnce(ms.v, vs[0].value, xs[0].value);
    if ms.rest.Some? { MembersReadOnce(ms.rest.value, vs[1..], xs[1..]); }
    assert vs == [vs[0]] + vs[1..] && xs == [xs[0]] + xs[1..];
  }

  lemma AsciiIsScalar(s: J.Text)
    requires J.Ascii(s)
    ensures J.Scalar(s)
  {
  }
}
