/** Compact JSON text of a value and its UTF-8 bytes, as json.dumps and encode write them
    (tools/validate_design.py: jcs; section 3.2.2 of RFC 8785), and that both can be read back. */
module JsonText {
  import opened Options

  newtype Code = x: int | 0 <= x < 0x11_0000

  newtype byte = x: int | 0 <= x < 256

  type Text = seq<Code>

  datatype Member = Member(key: Text, value: Json)

  /** A Python value; a dictionary lists its members in insertion order. Anything that is no JSON
      value, a dictionary with keys that are no strings included, is Other. */
  datatype Json =
    | Null
    | Bool(b: bool)
    | Int(n: int)
    | Float(r: real)
    | Str(s: Text)
    | List(items: seq<Json>)
    | Dict(members: seq<Member>)
    | Other

  predicate Surrogate(c: Code) { 0xD800 <= c <= 0xDFFF }

  predicate Scalar(s: Text) { forall i :: 0 <= i < |s| ==> !Surrogate(s[i]) }

  /******* Numbers *******/

  function Digits(n: nat): Text {
    if n < 10 then [(48 + n) as Code] else Digits(n / 10) + [(48 + n % 10) as Code]
  }

  function Decimal(n: int): Text {
    if n < 0 then [45] + Digits(-n) else Digits(n)
  }

  predicate Digit(c: Code) { 48 <= c <= 57 }

  function ValueOf(s: Text): nat
    requires forall i :: 0 <= i < |s| ==> Digit(s[i])
  {
    if s == [] then 0
    else
      assert Digit(s[|s| - 1]);
      ValueOf(s[..|s| - 1]) * 10 + (s[|s| - 1] as int - 48)
  }

  lemma {:induction false} DigitsValue(n: nat)
    ensures |Digits(n)| >= 1 && (forall i :: 0 <= i < |Digits(n)| ==> Digit(Digits(n)[i]))
    ensures ValueOf(Digits(n)) == n
  {
    if n < 10 {
      assert Digits(n)[..0] == [];
    } else {
      DigitsValue(n / 10);
      assert Digits(n)[..|Digits(n)| - 1] == Digits(n / 10);
    }
  }

  /** What follows a value: nothing, or one of the signs that end it. */
  predicate Ends(x: Text) { x == [] || x[0] == 44 || x[0] == 93 || x[0] == 125 }

  /** How many digits a text starts with. */
  function Run(s: Text): nat {
    if s == [] || !Digit(s[0]) then 0 else 1 + Run(s[1..])
  }

  lemma {:induction false} RunLength(a: Text, x: Text)
    requires (forall i :: 0 <= i < |a| ==> Digit(a[i])) && Ends(x)
    ensures Run(a + x) == |a|
  {
    if a == [] {
      assert a + x == x;
    } else {
      RunLength(a[1..], x);
      assert (a + x)[1..] == a[1..] + x;
    }
  }

  lemma DigitsPrefix(m: nat, n: nat, x: Text, y: Text)
    requires Ends(x) && Ends(y) && Digits(m) + x == Digits(n) + y
    ensures m == n && x == y
  {
    DigitsValue(m);
    DigitsValue(n);
    RunLength(Digits(m), x);
    RunLength(Digits(n), y);
    var s, k := Digits(m) + x, |Digits(m)|;
    assert Digits(m) == s[..k] && Digits(n) == s[..k];
    assert x == s[k..] && y == s[k..];
  }

  /******* Strings *******/

  function Hex(n: Code): Code
    requires n < 16
  {
    if n < 10 then 48 + n else 87 + n
  }

  /** The escapes of the encoder that leaves text outside ASCII as it is. */
  function Escape(c: Code): Text {
    if c == 34 then [92, 34]
    else if c == 92 then [92, 92]
    else if c == 8 then [92, 98]
    else if c == 9 then [92, 116]
    else if c == 10 then [92, 110]
    else if c == 12 then [92, 102]
    else if c == 13 then [92, 114]
    else if c < 32 then [92, 117, 48, 48, Hex(c / 16), Hex(c % 16)]
    else [c]
  }

  /** The rest of a string literal: escaped characters and the closing quote. */
  function Literal(s: Text): Text {
    if s == [] then [34] else Escape(s[0]) + Literal(s[1..])
  }

  lemma EscapePrefix(c: Code, d: Code, x: Text, y: Text)
    requires Escape(c) + x == Escape(d) + y
    ensures c == d && x == y
  {
    var s := Escape(c) + x;
    var k, l := |Escape(c)|, |Escape(d)|;
    assert s[..k] == Escape(c) && s[..l] == Escape(d) && s[k..] == x && s[l..] == y;
    assert s[0] == Escape(c)[0] == Escape(d)[0];
    if k >= 2 && l >= 2 {
      assert s[1] == Escape(c)[1] == Escape(d)[1];
      if k == 6 && l == 6 {
        assert s[4] == Escape(c)[4] == Escape(d)[4];
        assert s[5] == Escape(c)[5] == Escape(d)[5];
      }
    }
  }

  lemma LiteralHead(s: Text, x: Text)
    ensures (Literal(s) + x)[0] == 34 <==> s == []
  {
  }

  lemma {:induction false} LiteralPrefix(s: Text, t: Text, x: Text, y: Text)
    requires Literal(s) + x == Literal(t) + y
    ensures s == t && x == y
  {
    LiteralHead(s, x);
    LiteralHead(t, y);
    if s == [] {
      assert x == (Literal(s) + x)[1..] && y == (Literal(t) + y)[1..];
    } else {
      LiteralStep(s, x);
      LiteralStep(t, y);
      EscapePrefix(s[0], t[0], Literal(s[1..]) + x, Literal(t[1..]) + y);
      LiteralPrefix(s[1..], t[1..], x, y);
      assert s == [s[0]] + s[1..] && t == [t[0]] + t[1..];
    }
  }

  lemma LiteralStep(s: Text, x: Text)
    requires s != []
    ensures Literal(s) + x == Escape(s[0]) + (Literal(s[1..]) + x)
  {
  }

  /******* Values *******/

  /** Members and elements in the order given. */
  function Dump(v: Json): Text
    decreases v
  {
    match v
    case Null => [110, 117, 108, 108]
    case Bool(b) => if b then [116, 114, 117, 101] else [102, 97, 108, 115, 101]
    case Int(n) => Decimal(n)
    case Str(s) => [34] + Literal(s)
    case List(items) => [91] + (if items == [] then [93] else Dump(items[0]) + DumpItems(items[1..]))
    case Dict(members) => [123] + (if members == [] then [125] else DumpMember(members[0]) + DumpMembers(members[1..]))
    case _ => []
  }

  function DumpItems(vs: seq<Json>): Text
    decreases vs
  {
    if vs == [] then [93] else [44] + Dump(vs[0]) + DumpItems(vs[1..])
  }

  function DumpMember(m: Member): Text
    decreases m
  {
    [34] + Literal(m.key) + [58] + Dump(m.value)
  }

  function DumpMembers(ms: seq<Member>): Text
    decreases ms
  {
    if ms == [] then [125] else [44] + DumpMember(ms[0]) + DumpMembers(ms[1..])
  }

  /** The input subset: property names in ASCII, no lone surrogates, safe integers, no floats. */
  predicate Accepted(v: Json)
    decreases v
  {
    match v
    case Null => true
    case Bool(_) => true
    case Int(n) => -SAFE_INTEGER <= n <= SAFE_INTEGER
    case Str(s) => Scalar(s)
    case List(items) => forall i :: 0 <= i < |items| ==> Accepted(items[i])
    case Dict(members) => forall i :: 0 <= i < |members| ==> Ascii(members[i].key) && Accepted(members[i].value)
    case _ => false
  }

  const SAFE_INTEGER := 9007199254740991

  predicate Ascii(s: Text) { forall i :: 0 <= i < |s| ==> s[i] <= 0x7F }

  predicate AllAccepted(vs: seq<Json>) { forall i :: 0 <= i < |vs| ==> Accepted(vs[i]) }

  predicate MembersAccepted(ms: seq<Member>) {
    forall i :: 0 <= i < |ms| ==> Ascii(ms[i].key) && Accepted(ms[i].value)
  }

  /** The first character tells the kind of value. */
  function Kind(c: Code): nat {
    if c == 110 then 0 else if c == 116 then 1 else if c == 102 then 2 else if c == 34 then 4
    else if c == 91 then 5 else if c == 123 then 6 else if c == 45 || Digit(c) then 3 else 7
  }

  lemma DumpHead(v: Json)
    requires Accepted(v)
    ensures Dump(v) != [] && Kind(Dump(v)[0]) <= 6
    ensures Kind(Dump(v)[0]) == match v
      case Null => 0
      case Bool(b) => (if b then 1 else 2)
      case Int(_) => 3
      case Str(_) => 4
      case List(_) => 5
      case Dict(_) => 6
      case _ => 7
  {
    if v.Int? { DigitsValue(if v.n < 0 then -v.n else v.n); }
  }

  /** A sign or a digit comes first, and tells the sign. */
  lemma DecimalStep(n: int, x: Text)
    ensures var s := Decimal(n) + x;
      && |s| >= 1 && (n < 0 <==> s[0] == 45)
      && (n < 0 ==> s[1..] == Digits(-n) + x) && (n >= 0 ==> s == Digits(n) + x)
  {
    var d := Digits(if n < 0 then -n else n);
    DigitsValue(if n < 0 then -n else n);
    hide Digits, ValueOf;
    if n < 0 {
      assert [45] + d + x == [45] + (d + x);
    } else {
      assert Digit(d[0]) && (d + x)[0] == d[0];
    }
  }

  lemma DecimalPrefix(m: int, n: int, x: Text, y: Text)
    requires Ends(x) && Ends(y) && Decimal(m) + x == Decimal(n) + y
    ensures m == n && x == y
  {
    hide Decimal, Digits, Ends;
    DecimalStep(m, x);
    DecimalStep(n, y);
    if m < 0 { DigitsPrefix(-m, -n, x, y); } else { DigitsPrefix(m, n, x, y); }
  }

  lemma Regroup(c: Code, a: Text, b: Text, x: Text)
    ensures var s := [c] + a + b + x;
      |s| >= 1 && s[0] == c && s[1..] == a + (b + x)
  {
    assert [c] + a + b + x == [c] + (a + (b + x));
  }

  lemma ItemsStep(vs: seq<Json>, x: Text)
    ensures var s := DumpItems(vs) + x;
      && |s| >= 1 && Ends(s) && s[0] == (if vs == [] then 93 else 44)
      && s[1..] == if vs == [] then x else Dump(vs[0]) + (DumpItems(vs[1..]) + x)
  {
    hide Dump;
    if vs != [] { Regroup(44, Dump(vs[0]), DumpItems(vs[1..]), x); }
  }

  lemma MemberStep(m: Member, x: Text)
    ensures var s := DumpMember(m) + x;
      |s| >= 1 && s[0] == 34 && s[1..] == Literal(m.key) + ([58] + (Dump(m.value) + x))
  {
    hide Literal, Dump;
    Regroup(34, Literal(m.key), [58] + Dump(m.value), x);
    assert [34] + Literal(m.key) + [58] + Dump(m.value) == [34] + Literal(m.key) + ([58] + Dump(m.value));
    assert [58] + Dump(m.value) + x == [58] + (Dump(m.value) + x);
  }

  lemma MembersStep(ms: seq<Member>, x: Text)
    ensures var s := DumpMembers(ms) + x;
      && |s| >= 1 && Ends(s) && s[0] == (if ms == [] then 125 else 44)
      && s[1..] == if ms == [] then x else DumpMember(ms[0]) + (DumpMembers(ms[1..]) + x)
  {
    hide DumpMember;
    if ms != [] { Regroup(44, DumpMember(ms[0]), DumpMembers(ms[1..]), x); }
  }

  predicate SameKind(v: Json, w: Json) {
    match v
    case Null => w.Null?
    case Bool(b) => w == v
    case Int(_) => w.Int?
    case Str(_) => w.Str?
    case List(_) => w.List?
    case Dict(_) => w.Dict?
    case _ => false
  }

  lemma HeadsAgree(v: Json, w: Json, x: Text, y: Text)
    requires Accepted(v) && Accepted(w) && Dump(v) + x == Dump(w) + y
    ensures SameKind(v, w)
  {
    DumpHead(v);
    DumpHead(w);
    hide Dump, Accepted;
    assert (Dump(v) + x)[0] == Dump(v)[0] && (Dump(w) + y)[0] == Dump(w)[0];
  }

  lemma AtomPrefix(v: Json, x: Text, y: Text)
    requires Dump(v) + x == Dump(v) + y
    ensures x == y
  {
    hide Dump;
    var s := Dump(v) + x;
    assert x == s[|Dump(v)|..] == y;
  }

  lemma StrStep(t: Text, x: Text)
    ensures (Dump(Str(t)) + x)[1..] == Literal(t) + x
  {
    hide Literal;
  }

  /** A value can be read back off the front of any text: its end and what follows are determined. */
  lemma {:induction false} DumpPrefix(v: Json, w: Json, x: Text, y: Text)
    requires Accepted(v) && Accepted(w) && Ends(x) && Ends(y) && Dump(v) + x == Dump(w) + y
    ensures v == w && x == y
    decreases v
  {
    HeadsAgree(v, w, x, y);
    match v {
      case Null => AtomPrefix(v, x, y);
      case Bool(_) => AtomPrefix(v, x, y);
      case Int(n) =>
        hide Decimal;
        DecimalPrefix(n, w.n, x, y);
      case Str(t) =>
        hide Dump;
        StrStep(t, x);
        StrStep(w.s, y);
        LiteralPrefix(t, w.s, x, y);
      case List(items) => ListCase(items, w.items, x, y);
      case Dict(members) => DictCase(members, w.members, x, y);
    }
  }

  lemma {:induction false} ListCase(vs: seq<Json>, ws: seq<Json>, x: Text, y: Text)
    requires Accepted(List(vs)) && Accepted(List(ws)) && Dump(List(vs)) + x == Dump(List(ws)) + y
    ensures vs == ws && x == y
    decreases vs, 1
  {
    hide Dump;
    ListPrefix(vs, ws, x, y);
  }

  lemma {:induction false} DictCase(ms: seq<Member>, ns: seq<Member>, x: Text, y: Text)
    requires Accepted(Dict(ms)) && Accepted(Dict(ns)) && Dump(Dict(ms)) + x == Dump(Dict(ns)) + y
    ensures ms == ns && x == y
    decreases ms, 1
  {
    hide Dump;
    DictPrefix(ms, ns, x, y);
  }

  lemma {:induction false} ListPrefix(vs: seq<Json>, ws: seq<Json>, x: Text, y: Text)
    requires AllAccepted(vs) && AllAccepted(ws) && Dump(List(vs)) + x == Dump(List(ws)) + y
    ensures vs == ws && x == y
    decreases vs, 0
  {
    hide Dump, DumpItems, Accepted, Ends;
    if vs != [] { DumpHead(vs[0]); }
    if ws != [] { DumpHead(ws[0]); }
    ListStep(vs, x);
    ListStep(ws, y);
    if vs != [] {
      ItemsStep(vs[1..], x);
      ItemsStep(ws[1..], y);
      DumpPrefix(vs[0], ws[0], DumpItems(vs[1..]) + x, DumpItems(ws[1..]) + y);
      ItemsPrefix(vs[1..], ws[1..], x, y);
      assert vs == [vs[0]] + vs[1..] && ws == [ws[0]] + ws[1..];
    }
  }

  lemma ListStep(vs: seq<Json>, x: Text)
    ensures var s := Dump(List(vs)) + x;
      && |s| >= 2 && (vs != [] ==> s[1..] == Dump(vs[0]) + (DumpItems(vs[1..]) + x))
      && (vs == [] ==> s[1] == 93 && s[2..] == x)
      && (vs != [] && Dump(vs[0]) != [] ==> s[1] == Dump(vs[0])[0])
  {
    if vs != [] {
      var a, b := Dump(vs[0]), DumpItems(vs[1..]);
      assert Dump(List(vs)) == [91] + (a + b) by { hide DumpItems; }
      hide Dump, DumpItems;
      assert [91] + (a + b) + x == [91] + (a + (b + x));
    }
  }

  lemma {:induction false} ItemsPrefix(vs: seq<Json>, ws: seq<Json>, x: Text, y: Text)
    requires AllAccepted(vs) && AllAccepted(ws) && DumpItems(vs) + x == DumpItems(ws) + y
    ensures vs == ws && x == y
    decreases vs
  {
    hide Dump, DumpItems, Accepted, Ends;
    ItemsStep(vs, x);
    ItemsStep(ws, y);
    if vs != [] {
      ItemsStep(vs[1..], x);
      ItemsStep(ws[1..], y);
      DumpPrefix(vs[0], ws[0], DumpItems(vs[1..]) + x, DumpItems(ws[1..]) + y);
      ItemsPrefix(vs[1..], ws[1..], x, y);
      assert vs == [vs[0]] + vs[1..] && ws == [ws[0]] + ws[1..];
    }
  }

  lemma {:induction false} MemberPrefix(m: Member, n: Member, x: Text, y: Text)
    requires Accepted(m.value) && Accepted(n.value) && Ends(x) && Ends(y) && DumpMember(m) + x == DumpMember(n) + y
    ensures m == n && x == y
    decreases m
  {
    hide Dump, DumpMember, Literal, Accepted, Ends;
    MemberStep(m, x);
    MemberStep(n, y);
    LiteralPrefix(m.key, n.key, [58] + (Dump(m.value) + x), [58] + (Dump(n.value) + y));
    assert ([58] + (Dump(m.value) + x))[1..] == Dump(m.value) + x;
    assert ([58] + (Dump(n.value) + y))[1..] == Dump(n.value) + y;
    DumpPrefix(m.value, n.value, x, y);
  }

  lemma {:induction false} DictPrefix(ms: seq<Member>, ns: seq<Member>, x: Text, y: Text)
    requires MembersAccepted(ms) && MembersAccepted(ns) && Dump(Dict(ms)) + x == Dump(Dict(ns)) + y
    ensures ms == ns && x == y
    decreases ms, 0
  {
    hide Dump, DumpMember, DumpMembers, Accepted, Ends;
    DictStep(ms, x);
    DictStep(ns, y);
    if ms != [] {
      MembersStep(ms[1..], x);
      MembersStep(ns[1..], y);
      MemberPrefix(ms[0], ns[0], DumpMembers(ms[1..]) + x, DumpMembers(ns[1..]) + y);
      MembersPrefix(ms[1..], ns[1..], x, y);
      assert ms == [ms[0]] + ms[1..] && ns == [ns[0]] + ns[1..];
    }
  }

  lemma DictStep(ms: seq<Member>, x: Text)
    ensures var s := Dump(Dict(ms)) + x;
      && |s| >= 2 && (ms != [] ==> s[1..] == DumpMember(ms[0]) + (DumpMembers(ms[1..]) + x) && s[1] == 34)
      && (ms == [] ==> s[1] == 125 && s[2..] == x)
  {
    if ms != [] {
      var a, b := DumpMember(ms[0]), DumpMembers(ms[1..]);
      assert Dump(Dict(ms)) == [123] + (a + b) by { hide DumpMember, DumpMembers; }
      MemberStep(ms[0], b + x);
      hide Dump, DumpMember, DumpMembers;
      assert [123] + (a + b) + x == [123] + (a + (b + x));
    }
  }

  lemma {:induction false} MembersPrefix(ms: seq<Member>, ns: seq<Member>, x: Text, y: Text)
    requires MembersAccepted(ms) && MembersAccepted(ns) && DumpMembers(ms) + x == DumpMembers(ns) + y
    ensures ms == ns && x == y
    decreases ms
  {
    hide DumpMember, DumpMembers, Accepted, Ends;
    MembersStep(ms, x);
    MembersStep(ns, y);
    if ms != [] {
      MembersStep(ms[1..], x);
      MembersStep(ns[1..], y);
      MemberPrefix(ms[0], ns[0], DumpMembers(ms[1..]) + x, DumpMembers(ns[1..]) + y);
      MembersPrefix(ms[1..], ns[1..], x, y);
      assert ms == [ms[0]] + ms[1..] && ns == [ns[0]] + ns[1..];
    }
  }

  /******* UTF-8 *******/

  function Utf8Of(c: Code): seq<byte> {
    var n := c as int;
    if n < 0x80 then [n as byte]
    else if n < 0x800 then [(0xC0 + n / 0x40) as byte, (0x80 + n % 0x40) as byte]
    else if n < 0x1_0000 then [(0xE0 + n / 0x1000) as byte, (0x80 + n / 0x40 % 0x40) as byte, (0x80 + n % 0x40) as byte]
    else [(0xF0 + n / 0x4_0000) as byte, (0x80 + n / 0x1000 % 0x40) as byte,
          (0x80 + n / 0x40 % 0x40) as byte, (0x80 + n % 0x40) as byte]
  }

  function Utf8(s: Text): seq<byte> {
    if s == [] then [] else Utf8Of(s[0]) + Utf8(s[1..])
  }

  predicate Continues(b: byte) { 0x80 <= b < 0xC0 }

  /** One code point off the front of a byte sequence, as section 3 of RFC 3629 lays it out: the first
      byte tells the length, the others carry six bits each, and no shorter form would do. */
  function ReadOne(bs: seq<byte>): Option<(Code, nat)> {
    if bs == [] then None
    else if bs[0] < 0x80 then Some((bs[0] as Code, 1))
    else if 0xC0 <= bs[0] < 0xE0 && |bs| >= 2 && Continues(bs[1]) then
      var n := (bs[0] as int - 0xC0) * 0x40 + (bs[1] as int - 0x80);
      if 0x80 <= n then Some((n as Code, 2)) else None
    else if 0xE0 <= bs[0] < 0xF0 && |bs| >= 3 && Continues(bs[1]) && Continues(bs[2]) then
      var n := ((bs[0] as int - 0xE0) * 0x40 + (bs[1] as int - 0x80)) * 0x40 + (bs[2] as int - 0x80);
      if 0x800 <= n then Some((n as Code, 3)) else None
    else if 0xF0 <= bs[0] < 0xF8 && |bs| >= 4 && Continues(bs[1]) && Continues(bs[2]) && Continues(bs[3]) then
      var n := (((bs[0] as int - 0xF0) * 0x40 + (bs[1] as int - 0x80)) * 0x40 + (bs[2] as int - 0x80)) * 0x40
             + (bs[3] as int - 0x80);
      if 0x1_0000 <= n < 0x11_0000 then Some((n as Code, 4)) else None
    else None
  }

  function ReadUtf8(bs: seq<byte>): Option<Text>
    decreases |bs|
  {
    if bs == [] then Some([])
    else
      var one := ReadOne(bs);
      if one.None? || one.value.1 == 0 || one.value.1 > |bs| then None
      else
        var rest := ReadUtf8(bs[one.value.1..]);
        if rest.None? then None else Some([one.value.0] + rest.value)
  }

  lemma Utf8OfReads(c: Code, x: seq<byte>)
    ensures ReadOne(Utf8Of(c) + x) == Some((c, |Utf8Of(c)|))
  {
    var n := c as int;
    assert n / 0x1000 == n / 0x40 / 0x40 && n / 0x4_0000 == n / 0x1000 / 0x40;
    var us := Utf8Of(c);
    assert forall i :: 0 <= i < |us| ==> (us + x)[i] == us[i];
  }

  /** The bytes are read back as the text. */
  lemma {:induction false} Utf8Reads(s: Text)
    ensures ReadUtf8(Utf8(s)) == Some(s)
  {
    if s != [] {
      Utf8OfReads(s[0], Utf8(s[1..]));
      Utf8Reads(s[1..]);
      assert Utf8(s)[|Utf8Of(s[0])|..] == Utf8(s[1..]);
      assert s == [s[0]] + s[1..];
    }
  }
}
