/** Concrete syntax of JSON documents over UTF-16 code units (RFC 8259, sections 2 to 7), with the
    whitespace class as a parameter, and what the ingress promises about an accepted document. */
module JsonGrammar {
  import opened Options

  newtype CodeUnit = c: int | 0 <= c < 0x1_0000
  type Text = seq<CodeUnit>

  const MAX_DEPTH := 64
  const QUOTE: CodeUnit := 0x22
  const BACKSLASH: CodeUnit := 0x5C
  const COMMA: CodeUnit := 0x2C
  const COLON: CodeUnit := 0x3A
  const OPEN_BRACKET: CodeUnit := 0x5B
  const CLOSE_BRACKET: CodeUnit := 0x5D
  const OPEN_BRACE: CodeUnit := 0x7B
  const CLOSE_BRACE: CodeUnit := 0x7D
  const MINUS: CodeUnit := 0x2D
  const PLUS: CodeUnit := 0x2B
  const DOT: CodeUnit := 0x2E
  const ZERO: CodeUnit := 0x30
  const TRUE: Text := [0x74, 0x72, 0x75, 0x65]
  const FALSE: Text := [0x66, 0x61, 0x6C, 0x73, 0x65]
  const NULL: Text := [0x6E, 0x75, 0x6C, 0x6C]

  /** The names __proto__, constructor and prototype. */
  const PROTO: Text := [0x5F, 0x5F, 0x70, 0x72, 0x6F, 0x74, 0x6F, 0x5F, 0x5F]
  const CONSTRUCTOR: Text := [0x63, 0x6F, 0x6E, 0x73, 0x74, 0x72, 0x75, 0x63, 0x74, 0x6F, 0x72]
  const PROTOTYPE: Text := [0x70, 0x72, 0x6F, 0x74, 0x6F, 0x74, 0x79, 0x70, 0x65]

  predicate Forbidden(key: Text) {
    key == PROTO || key == CONSTRUCTOR || key == PROTOTYPE
  }

  /******* Character classes *******/

  /** The whitespace of RFC 8259, section 2. */
  predicate IsRfcSpace(c: CodeUnit) { c == 0x20 || c == 0x09 || c == 0x0A || c == 0x0D }

  /** The class \s of a JavaScript regular expression. */
  predicate IsWideSpace(c: CodeUnit) {
    || 0x09 <= c <= 0x0D || c == 0x20 || c == 0xA0 || c == 0x1680 || 0x2000 <= c <= 0x200A
    || c == 0x2028 || c == 0x2029 || c == 0x202F || c == 0x205F || c == 0x3000 || c == 0xFEFF
  }

  predicate IsSpace(c: CodeUnit, wide: bool) { if wide then IsWideSpace(c) else IsRfcSpace(c) }

  predicate AllSpace(t: Text, wide: bool) { forall c :: c in t ==> IsSpace(c, wide) }

  predicate IsDigit(c: CodeUnit) { 0x30 <= c <= 0x39 }

  predicate IsHex(c: CodeUnit) { IsDigit(c) || 0x41 <= c <= 0x46 || 0x61 <= c <= 0x66 }

  function HexValue(c: CodeUnit): (h: CodeUnit)
    requires IsHex(c)
    ensures h < 16
  {
    if IsDigit(c) then c - 0x30 else if c <= 0x46 then c - 0x41 + 10 else c - 0x61 + 10
  }

  /** The letter after a backslash in a two-character escape, and the unit it stands for. */
  function Unescape(c: CodeUnit): Option<CodeUnit> {
    if c == QUOTE || c == BACKSLASH || c == 0x2F then Some(c)
    else if c == 0x62 then Some(0x08)
    else if c == 0x66 then Some(0x0C)
    else if c == 0x6E then Some(0x0A)
    else if c == 0x72 then Some(0x0D)
    else if c == 0x74 then Some(0x09)
    else None
  }

  predicate Spells(t: Text, s: string) {
    |t| == |s| && forall i :: 0 <= i < |t| ==> t[i] as int == s[i] as int
  }

  /** The words, escapes, spaces and digits against the characters they stand for: sections 2, 3, 6 and
      7 of RFC 8259, and the names the service forbids. */
  lemma CharactersAreStandard(c: CodeUnit, k: nat)
    requires k < 16
    ensures Spells(TRUE, "true") && Spells(FALSE, "false") && Spells(NULL, "null")
    ensures Spells([OPEN_BRACKET, CLOSE_BRACKET, OPEN_BRACE, CLOSE_BRACE, COMMA, COLON], "[]{},:")
    ensures Spells([QUOTE, BACKSLASH, MINUS, PLUS, DOT, ZERO], "\"\\-+.0")
    ensures forall key :: Forbidden(key) <==>
      Spells(key, "__proto__") || Spells(key, "constructor") || Spells(key, "prototype")
    ensures var letters, units := "\"\\/bfnrt", "\"\\/\U{8}\U{C}\n\r\t";
      && (Unescape(c).Some? <==> exists i :: 0 <= i < |letters| && letters[i] as int == c as int)
      && forall i :: 0 <= i < |letters| && letters[i] as int == c as int ==> Unescape(c) == Some(units[i] as CodeUnit)
    ensures IsRfcSpace(c) <==> exists i :: 0 <= i < 4 && " \t\n\r"[i] as int == c as int
    ensures IsRfcSpace(c) ==> IsWideSpace(c)
    ensures IsDigit(c) <==> '0' as int <= c as int <= '9' as int
    ensures IsHex(c) <==>
      IsDigit(c) || 'a' as int <= c as int <= 'f' as int || 'A' as int <= c as int <= 'F' as int
    ensures var lower, upper := "0123456789abcdef"[k] as CodeUnit, "0123456789ABCDEF"[k] as CodeUnit;
      IsHex(lower) && IsHex(upper) && HexValue(lower) as int == k == HexValue(upper) as int
  {
    forall key: Text | Spells(key, "__proto__") ensures key == PROTO {}
    forall key: Text | Spells(key, "constructor") ensures key == CONSTRUCTOR {}
    forall key: Text | Spells(key, "prototype") ensures key == PROTOTYPE {}
    EscapesAreStandard(c);
    HexIsStandard(k);
    hide Unescape, IsRfcSpace, HexValue, Forbidden;
  }

  lemma EscapesAreStandard(c: CodeUnit)
    ensures var letters, units := "\"\\/bfnrt", "\"\\/\U{8}\U{C}\n\r\t";
      && (Unescape(c).Some? <==> exists i :: 0 <= i < |letters| && letters[i] as int == c as int)
      && forall i :: 0 <= i < |letters| && letters[i] as int == c as int ==> Unescape(c) == Some(units[i] as CodeUnit)
    ensures IsRfcSpace(c) <==> exists i :: 0 <= i < 4 && " \t\n\r"[i] as int == c as int
  {
    var letters, spaces := "\"\\/bfnrt", " \t\n\r";
    assert letters[0] == '"' && letters[1] == '\\' && letters[2] == '/' && letters[3] == 'b';
    assert letters[4] == 'f' && letters[5] == 'n' && letters[6] == 'r' && letters[7] == 't';
    assert spaces[0] == ' ' && spaces[1] == '\t' && spaces[2] == '\n' && spaces[3] == '\r';
  }

  lemma HexIsStandard(k: nat)
    requires k < 16
    ensures var lower, upper := "0123456789abcdef"[k] as CodeUnit, "0123456789ABCDEF"[k] as CodeUnit;
      IsHex(lower) && IsHex(upper) && HexValue(lower) as int == k == HexValue(upper) as int
  {
  }

  /******* Concrete syntax: RFC 8259, sections 2 to 7 *******/

  datatype Piece = Plain(c: CodeUnit) | Short(c: CodeUnit) | Hex(h3: CodeUnit, h2: CodeUnit, h1: CodeUnit, h0: CodeUnit)

  datatype Exponent = Exponent(e: CodeUnit, sign: Text, digits: Text)

  datatype Number = Number(minus: bool, integer: Text, fraction: Option<Text>, exponent: Option<Exponent>)

  datatype Value =
    | Literal(word: Text)
    | Num(number: Number)
    | Str(pieces: seq<Piece>)
    | EmptyArray(inner: Text)
    | Array(elements: Elements)
    | EmptyObject(inner: Text)
    | Object(members: Members)

  /** One or more comma-separated values with the whitespace around each. */
  datatype Elements = Elements(pre: Text, v: Value, post: Text, rest: Option<Elements>)

  /** One or more comma-separated name/value pairs with the whitespace around each token. */
  datatype Members = Members(pre: Text, name: seq<Piece>, mid: Text, vpre: Text, v: Value, post: Text,
                             rest: Option<Members>)

  datatype Document = Document(pre: Text, v: Value, post: Text)

  function PieceText(p: Piece): Text {
    match p
    case Plain(c) => [c]
    case Short(c) => [BACKSLASH, c]
    case Hex(a, b, c, d) => [BACKSLASH, 0x75, a, b, c, d]
  }

  predicate PieceOk(p: Piece) {
    match p
    case Plain(c) => c >= 0x20 && c != QUOTE && c != BACKSLASH
    case Short(c) => Unescape(c).Some?
    case Hex(a, b, c, d) => IsHex(a) && IsHex(b) && IsHex(c) && IsHex(d)
  }

  function PieceUnit(p: Piece): CodeUnit
    requires PieceOk(p)
  {
    match p
    case Plain(c) => c
    case Short(c) => Unescape(c).value
    case Hex(a, b, c, d) => HexUnit(a, b, c, d)
  }

  function HexUnit(a: CodeUnit, b: CodeUnit, c: CodeUnit, d: CodeUnit): CodeUnit
    requires IsHex(a) && IsHex(b) && IsHex(c) && IsHex(d)
  {
    ((HexValue(a) * 16 + HexValue(b)) * 16 + HexValue(c)) * 16 + HexValue(d)
  }

  predicate PiecesOk(ps: seq<Piece>) { forall p :: p in ps ==> PieceOk(p) }

  /** The pieces of a string followed by its closing quotation mark. */
  function PiecesText(ps: seq<Piece>): (t: Text)
    ensures |t| >= 1
  {
    if ps == [] then [QUOTE] else PieceText(ps[0]) + PiecesText(ps[1..])
  }

  function StringText(ps: seq<Piece>): (t: Text)
    ensures |t| >= 2
  {
    [QUOTE] + PiecesText(ps)
  }

  function Decoded(ps: seq<Piece>): Text
    requires PiecesOk(ps)
  {
    if ps == [] then [] else [PieceUnit(ps[0])] + Decoded(ps[1..])
  }

  predicate AllDigits(t: Text) { forall c :: c in t ==> IsDigit(c) }

  predicate IntegerOk(t: Text) {
    AllDigits(t) && |t| >= 1 && (t[0] == ZERO ==> |t| == 1)
  }

  predicate FractionOk(f: Option<Text>) {
    f.Some? ==> |f.value| >= 1 && AllDigits(f.value)
  }

  predicate ExponentOk(x: Option<Exponent>) {
    x.Some? ==>
      && (x.value.e == 0x65 || x.value.e == 0x45)
      && (x.value.sign == [] || x.value.sign == [PLUS] || x.value.sign == [MINUS])
      && |x.value.digits| >= 1 && AllDigits(x.value.digits)
  }

  predicate NumberOk(n: Number) {
    IntegerOk(n.integer) && FractionOk(n.fraction) && ExponentOk(n.exponent)
  }

  function FractionText(f: Option<Text>): Text {
    if f.None? then [] else [DOT] + f.value
  }

  function ExponentText(x: Option<Exponent>): Text {
    if x.None? then [] else [x.value.e] + x.value.sign + x.value.digits
  }

  function NumberText(n: Number): Text {
    (if n.minus then [MINUS] else []) + n.integer + FractionText(n.fraction) + ExponentText(n.exponent)
  }

  predicate ValueOk(v: Value, wide: bool) {
    match v
    case Literal(word) => word == TRUE || word == FALSE || word == NULL
    case Num(n) => NumberOk(n)
    case Str(ps) => PiecesOk(ps)
    case EmptyArray(inner) => AllSpace(inner, wide)
    case Array(es) => ElementsOk(es, wide)
    case EmptyObject(inner) => AllSpace(inner, wide)
    case Object(ms) => MembersOk(ms, wide)
  }

  predicate ElementsOk(es: Elements, wide: bool) {
    && AllSpace(es.pre, wide) && ValueOk(es.v, wide) && AllSpace(es.post, wide)
    && (es.rest.Some? ==> ElementsOk(es.rest.value, wide))
  }

  predicate MembersOk(ms: Members, wide: bool) {
    && AllSpace(ms.pre, wide) && PiecesOk(ms.name) && AllSpace(ms.mid, wide) && AllSpace(ms.vpre, wide)
    && ValueOk(ms.v, wide) && AllSpace(ms.post, wide)
    && (ms.rest.Some? ==> MembersOk(ms.rest.value, wide))
  }

  predicate DocumentOk(d: Document, wide: bool) {
    AllSpace(d.pre, wide) && ValueOk(d.v, wide) && AllSpace(d.post, wide)
  }

  function ValueText(v: Value): Text {
    match v
    case Literal(word) => word
    case Num(n) => NumberText(n)
    case Str(ps) => StringText(ps)
    case EmptyArray(inner) => [OPEN_BRACKET] + inner + [CLOSE_BRACKET]
    case Array(es) => [OPEN_BRACKET] + ElementsText(es)
    case EmptyObject(inner) => [OPEN_BRACE] + inner + [CLOSE_BRACE]
    case Object(ms) => [OPEN_BRACE] + MembersText(ms)
  }

  function ElementsText(es: Elements): Text {
    es.pre + ValueText(es.v) + es.post + ElementsTail(es)
  }

  function ElementsTail(es: Elements): Text
    decreases es, 0
  {
    if es.rest.None? then [CLOSE_BRACKET] else [COMMA] + ElementsText(es.rest.value)
  }

  function MembersText(ms: Members): Text {
    ms.pre + StringText(ms.name) + ms.mid + [COLON] + ms.vpre + ValueText(ms.v) + ms.post + MembersTail(ms)
  }

  function MembersTail(ms: Members): Text
    decreases ms, 0
  {
    if ms.rest.None? then [CLOSE_BRACE] else [COMMA] + MembersText(ms.rest.value)
  }

  function DocumentText(d: Document): Text {
    d.pre + ValueText(d.v) + d.post
  }

  /******* What the ingress promises about an accepted document *******/

  /** How far the deepest value lies below this one. */
  function Depth(v: Value): nat {
    match v
    case Array(es) => 1 + ElementsDepth(es)
    case Object(ms) => 1 + MembersDepth(ms)
    case _ => 0
  }

  function ElementsDepth(es: Elements): nat {
    var here := Depth(es.v);
    if es.rest.None? then here
    else var there := ElementsDepth(es.rest.value); if here >= there then here else there
  }

  function MembersDepth(ms: Members): nat {
    var here := Depth(ms.v);
    if ms.rest.None? then here
    else var there := MembersDepth(ms.rest.value); if here >= there then here else there
  }

  function Names(ms: Members, wide: bool): seq<Text>
    requires MembersOk(ms, wide)
  {
    [Decoded(ms.name)] + (if ms.rest.None? then [] else Names(ms.rest.value, wide))
  }

  predicate Distinct(names: seq<Text>) {
    forall i, j :: 0 <= i < j < |names| ==> names[i] != names[j]
  }

  /** In every object the decoded names are pairwise distinct and none is forbidden. */
  predicate NamesOk(v: Value, wide: bool)
    requires ValueOk(v, wide)
  {
    match v
    case Array(es) => ElementsNamesOk(es, wide)
    case Object(ms) =>
      var names := Names(ms, wide);
      Distinct(names) && (forall n :: n in names ==> !Forbidden(n)) && MemberValuesOk(ms, wide)
    case _ => true
  }

  predicate ElementsNamesOk(es: Elements, wide: bool)
    requires ElementsOk(es, wide)
  {
    NamesOk(es.v, wide) && (es.rest.Some? ==> ElementsNamesOk(es.rest.value, wide))
  }

  predicate MemberValuesOk(ms: Members, wide: bool)
    requires MembersOk(ms, wide)
  {
    NamesOk(ms.v, wide) && (ms.rest.Some? ==> MemberValuesOk(ms.rest.value, wide))
  }

  ghost predicate IsDocument(s: Text, wide: bool) {
    exists d :: DocumentOk(d, wide) && DocumentText(d) == s
  }

  ghost predicate IsStrictDocument(s: Text, wide: bool) {
    exists d :: DocumentOk(d, wide) && DocumentText(d) == s && NamesOk(d.v, wide) && Depth(d.v) <= 64
  }
}
