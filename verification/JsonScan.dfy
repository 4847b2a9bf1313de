/** What the scanner of apps/api/json.ts computes, as functions of the source and an offset, and
    the proof that it accepts exactly the documents it promises to accept. */
module JsonScan {
  import opened Options
  import opened JsonGrammar

  /******* What the scanner computes *******/

  function SkipSpace(s: Text, o: nat): (e: nat)
    requires o <= |s|
    ensures o <= e <= |s|
    decreases |s| - o
  {
    if o < |s| && IsWideSpace(s[o]) then SkipSpace(s, o + 1) else o
  }

  /** The offset just after the quotation mark that closes a string whose contents start at i. */
  function FindClose(s: Text, i: nat): (e: Option<nat>)
    ensures e.Some? ==> i < e.value <= |s|
    decreases |s| - i
  {
    if i >= |s| then None
    else if s[i] == BACKSLASH then FindClose(s, i + 2)
    else if s[i] == QUOTE then Some(i + 1)
    else FindClose(s, i + 1)
  }

  /** JSON.parse on the token: contents from i up to a closing quotation mark at the very end. */
  function DecodeFrom(t: Text, i: nat): Option<Text>
    requires i <= |t|
    decreases |t| - i
  {
    if i == |t| then None
    else if t[i] == QUOTE then (if i + 1 == |t| then Some([]) else None)
    else if t[i] == BACKSLASH then
      if i + 1 == |t| then None
      else if Unescape(t[i + 1]).Some? then Prepend(Unescape(t[i + 1]).value, DecodeFrom(t, i + 2))
      else if t[i + 1] == 0x75 && i + 6 <= |t|
           && IsHex(t[i + 2]) && IsHex(t[i + 3]) && IsHex(t[i + 4]) && IsHex(t[i + 5])
      then Prepend(HexUnit(t[i + 2], t[i + 3], t[i + 4], t[i + 5]), DecodeFrom(t, i + 6))
      else None
    else if t[i] < 0x20 then None
    else Prepend(t[i], DecodeFrom(t, i + 1))
  }

  function Prepend(c: CodeUnit, t: Option<Text>): Option<Text> {
    if t.None? then None else Some([c] + t.value)
  }

  /** Decoded contents and end offset of the string token at o. */
  function ScanString(s: Text, o: nat): (r: Option<(Text, nat)>)
    requires o <= |s|
    ensures r.Some? ==> o < r.value.1 <= |s|
  {
    if o == |s| || s[o] != QUOTE then None
    else
      var e := FindClose(s, o + 1);
      if e.None? then None
      else
        var key := DecodeFrom(s[o..e.value], 1);
        if key.None? then None else Some((key.value, e.value))
  }

  function SkipDigits(s: Text, o: nat): (e: nat)
    requires o <= |s|
    ensures o <= e <= |s|
    decreases |s| - o
  {
    if o < |s| && IsDigit(s[o]) then SkipDigits(s, o + 1) else o
  }

  predicate StartsWith(s: Text, o: nat, word: Text) {
    o + |word| <= |s| && s[o..o + |word|] == word
  }

  function IntegerEnd(s: Text, o: nat): (e: Option<nat>)
    requires o <= |s|
    ensures e.Some? ==> o < e.value <= |s|
  {
    if o == |s| || !IsDigit(s[o]) then None
    else if s[o] == ZERO then Some(o + 1)
    else Some(SkipDigits(s, o))
  }

  function FractionEnd(s: Text, o: nat): (e: nat)
    requires o <= |s|
    ensures o <= e <= |s|
  {
    if o + 1 < |s| && s[o] == DOT && IsDigit(s[o + 1]) then SkipDigits(s, o + 1) else o
  }

  function ExponentEnd(s: Text, o: nat): (e: nat)
    requires o <= |s|
    ensures o <= e <= |s|
  {
    if o < |s| && (s[o] == 0x65 || s[o] == 0x45) then
      var d := if o + 1 < |s| && (s[o + 1] == PLUS || s[o + 1] == MINUS) then o + 2 else o + 1;
      if d < |s| && IsDigit(s[d]) then SkipDigits(s, d) else o
    else o
  }

  function NumberEnd(s: Text, o: nat): (e: Option<nat>)
    requires o <= |s|
    ensures e.Some? ==> o < e.value <= |s|
  {
    var i := IntegerEnd(s, if o < |s| && s[o] == MINUS then o + 1 else o);
    if i.None? then None else Some(ExponentEnd(s, FractionEnd(s, i.value)))
  }

  /** The longest match of the scanner's regular expression for primitives at o. */
  function PrimitiveEnd(s: Text, o: nat): (e: Option<nat>)
    requires o <= |s|
    ensures e.Some? ==> o < e.value <= |s|
  {
    if StartsWith(s, o, TRUE) then Some(o + 4)
    else if StartsWith(s, o, FALSE) then Some(o + 5)
    else if StartsWith(s, o, NULL) then Some(o + 4)
    else NumberEnd(s, o)
  }

  /** The offset after one value, or None where the scanner throws. */
  function ScanValue(s: Text, o: nat, depth: nat): (e: Option<nat>)
    requires o <= |s|
    ensures e.Some? ==> o < e.value <= |s|
    decreases |s| - o, 1
  {
    var b := SkipSpace(s, o);
    if depth > MAX_DEPTH || b == |s| then None
    else if s[b] == OPEN_BRACE then
      var i := SkipSpace(s, b + 1);
      if i < |s| && s[i] == CLOSE_BRACE then Some(i + 1) else ScanMembers(s, i, depth, {})
    else if s[b] == OPEN_BRACKET then
      var i := SkipSpace(s, b + 1);
      if i < |s| && s[i] == CLOSE_BRACKET then Some(i + 1) else ScanElements(s, i, depth)
    else if s[b] == QUOTE then
      var t := ScanString(s, b);
      if t.None? then None else Some(t.value.1)
    else PrimitiveEnd(s, b)
  }

  function ScanElements(s: Text, o: nat, depth: nat): (e: Option<nat>)
    requires o <= |s|
    ensures e.Some? ==> o < e.value <= |s|
    decreases |s| - o, 2
  {
    var v := ScanValue(s, o, depth + 1);
    if v.None? then None
    else
      var d := SkipSpace(s, v.value);
      if d == |s| then None
      else if s[d] == CLOSE_BRACKET then Some(d + 1)
      else if s[d] == COMMA then ScanElements(s, d + 1, depth)
      else None
  }

  function ScanMembers(s: Text, o: nat, depth: nat, keys: set<Text>): (e: Option<nat>)
    requires o <= |s|
    ensures e.Some? ==> o < e.value <= |s|
    decreases |s| - o, 3
  {
    var m := ScanMember(s, o, depth, keys);
    if m.None? then None
    else
      var d := SkipSpace(s, m.value.1);
      if d == |s| then None
      else if s[d] == CLOSE_BRACE then Some(d + 1)
      else if s[d] == COMMA then ScanMembers(s, d + 1, depth, keys + {m.value.0})
      else None
  }

  /** One name, colon and value: the decoded name and the offset after the value. */
  function ScanMember(s: Text, o: nat, depth: nat, keys: set<Text>): (r: Option<(Text, nat)>)
    requires o <= |s|
    ensures r.Some? ==> o < r.value.1 <= |s|
    decreases |s| - o, 2
  {
    var t := ScanString(s, SkipSpace(s, o));
    if t.None? || t.value.0 in keys || Forbidden(t.value.0) then None
    else
      var c := SkipSpace(s, t.value.1);
      if c == |s| || s[c] != COLON then None
      else
        var v := ScanValue(s, c + 1, depth + 1);
        if v.None? then None else Some((t.value.0, v.value))
  }

  /** The first stage: one value, trailing whitespace, end of input. */
  predicate ScanAccepts(s: Text) {
    var e := ScanValue(s, 0, 0);
    e.Some? && SkipSpace(s, e.value) == |s|
  }

  /******* Positions *******/

  lemma AtSplit(s: Text, o: nat, a: Text, b: Text)
    ensures StartsWith(s, o, a + b) <==> StartsWith(s, o, a) && StartsWith(s, o + |a|, b)
  {
    if StartsWith(s, o, a + b) {
      var w := s[o..o + |a| + |b|];
      assert w[..|a|] == a && w[|a|..] == b;
      assert w[..|a|] == s[o..o + |a|] && w[|a|..] == s[o + |a|..o + |a| + |b|];
    }
    if StartsWith(s, o, a) && StartsWith(s, o + |a|, b) {
      assert s[o..o + |a| + |b|] == s[o..o + |a|] + s[o + |a|..o + |a| + |b|];
    }
  }

  lemma AtHead(s: Text, o: nat, c: CodeUnit, t: Text)
    ensures StartsWith(s, o, [c] + t) <==> o < |s| && s[o] == c && StartsWith(s, o + 1, t)
  {
    AtSplit(s, o, [c], t);
    if o < |s| { assert s[o..o + 1] == [s[o]]; }
  }

  lemma AtSlice(s: Text, o: nat, e: nat)
    requires o <= e <= |s|
    ensures StartsWith(s, o, s[o..e])
  {
  }

  /******* Whitespace *******/

  lemma {:induction false} SkipSpaceOver(s: Text, o: nat, ws: Text)
    requires StartsWith(s, o, ws) && AllSpace(ws, true)
    ensures SkipSpace(s, o) == SkipSpace(s, o + |ws|)
    decreases |ws|
  {
    if ws != [] {
      assert ws == [ws[0]] + ws[1..] && ws[0] in ws;
      AtHead(s, o, ws[0], ws[1..]);
      SkipSpaceOver(s, o + 1, ws[1..]);
    }
  }

  lemma {:induction false} SkipSpaceSound(s: Text, o: nat)
    requires o <= |s|
    ensures AllSpace(s[o..SkipSpace(s, o)], true)
    ensures SkipSpace(s, o) < |s| ==> !IsWideSpace(s[SkipSpace(s, o)])
    ensures SkipSpace(s, SkipSpace(s, o)) == SkipSpace(s, o)
    decreases |s| - o
  {
    if o < |s| && IsWideSpace(s[o]) {
      SkipSpaceSound(s, o + 1);
      assert s[o..SkipSpace(s, o)] == [s[o]] + s[o + 1..SkipSpace(s, o)];
    }
  }

  /******* Strings *******/

  lemma IndexAt(s: Text, o: nat, t: Text, k: nat)
    requires StartsWith(s, o, t) && k < |t|
    ensures s[o + k] == t[k]
  {
    assert s[o..o + |t|][k] == s[o + k];
  }

  lemma FindClosePlain(s: Text, i: nat)
    requires i < |s| && s[i] != QUOTE && s[i] != BACKSLASH
    ensures FindClose(s, i) == FindClose(s, i + 1)
  {
  }

  lemma FindClosePiece(s: Text, i: nat, p: Piece)
    requires PieceOk(p) && StartsWith(s, i, PieceText(p))
    ensures FindClose(s, i) == FindClose(s, i + |PieceText(p)|)
  {
    var t := PieceText(p);
    IndexAt(s, i, t, 0);
    match p
    case Plain(c) => FindClosePlain(s, i);
    case Short(c) =>
    case Hex(a, b, c, d) =>
      IndexAt(s, i, t, 2);
      FindClosePlain(s, i + 2);
      IndexAt(s, i, t, 3);
      FindClosePlain(s, i + 3);
      IndexAt(s, i, t, 4);
      FindClosePlain(s, i + 4);
      IndexAt(s, i, t, 5);
      FindClosePlain(s, i + 5);
  }

  lemma {:induction false} FindCloseExact(s: Text, i: nat, ps: seq<Piece>)
    requires PiecesOk(ps) && StartsWith(s, i, PiecesText(ps))
    ensures FindClose(s, i) == Some(i + |PiecesText(ps)|)
    decreases |ps|
  {
    if ps == [] {
      IndexAt(s, i, [QUOTE], 0);
    } else {
      var p := ps[0];
      assert p in ps;
      AtSplit(s, i, PieceText(p), PiecesText(ps[1..]));
      FindClosePiece(s, i, p);
      FindCloseExact(s, i + |PieceText(p)|, ps[1..]);
    }
  }

  lemma {:induction false} DecodeExact(t: Text, i: nat, ps: seq<Piece>)
    requires i <= |t| && t[i..] == PiecesText(ps) && PiecesOk(ps)
    ensures DecodeFrom(t, i) == Some(Decoded(ps))
    decreases |ps|
  {
    if ps == [] {
      assert |t| == i + 1 && t[i..][0] == t[i];
    } else {
      var p, rest := ps[0], PiecesText(ps[1..]);
      var w := t[i..];
      assert w[..|PieceText(p)|] == PieceText(p) && w[|PieceText(p)|..] == rest;
      assert t[i + |PieceText(p)|..] == rest;
      DecodeExact(t, i + |PieceText(p)|, ps[1..]);
      assert p in ps;
      match p
      case Plain(c) => assert w[0] == c;
      case Short(c) => assert w[0] == BACKSLASH && w[1] == c;
      case Hex(a, b, c, d) =>
        assert w[0] == BACKSLASH && w[1] == 0x75 && w[2] == a && w[3] == b && w[4] == c && w[5] == d;
    }
  }

  lemma {:induction false} DecodeSound(t: Text, i: nat) returns (ps: seq<Piece>)
    requires i <= |t| && DecodeFrom(t, i).Some?
    ensures PiecesOk(ps) && t[i..] == PiecesText(ps) && DecodeFrom(t, i) == Some(Decoded(ps))
    decreases |t| - i
  {
    if t[i] == QUOTE {
      ps := [];
    } else {
      var p, n := Plain(t[i]), 1;
      if t[i] == BACKSLASH {
        if Unescape(t[i + 1]).Some? { p, n := Short(t[i + 1]), 2; }
        else { p, n := Hex(t[i + 2], t[i + 3], t[i + 4], t[i + 5]), 6; }
      }
      var rest := DecodeSound(t, i + n);
      ps := [p] + rest;
      assert PieceText(p) == t[i..i + n];
      assert t[i..] == t[i..i + n] + t[i + n..];
      assert ps[1..] == rest;
    }
  }

  lemma StringExact(s: Text, o: nat, ps: seq<Piece>)
    requires PiecesOk(ps) && StartsWith(s, o, StringText(ps))
    ensures ScanString(s, o) == Some((Decoded(ps), o + |StringText(ps)|))
  {
    AtHead(s, o, QUOTE, PiecesText(ps));
    FindCloseExact(s, o + 1, ps);
    var t := s[o..o + |StringText(ps)|];
    assert t[1..] == PiecesText(ps);
    DecodeExact(t, 1, ps);
  }

  lemma StringSound(s: Text, o: nat) returns (ps: seq<Piece>)
    requires o <= |s| && ScanString(s, o).Some?
    ensures PiecesOk(ps) && StartsWith(s, o, StringText(ps))
    ensures ScanString(s, o) == Some((Decoded(ps), o + |StringText(ps)|))
  {
    var e := ScanString(s, o).value.1;
    var t := s[o..e];
    ps := DecodeSound(t, 1);
    assert t == [t[0]] + t[1..];
  }

  /******* Numbers and literals *******/

  /** Nothing at e extends a number that ends there. */
  predicate Boundary(s: Text, e: nat) {
    e >= |s| || !(IsDigit(s[e]) || s[e] == DOT || s[e] == 0x65 || s[e] == 0x45)
  }

  lemma {:induction false} SkipDigitsExact(s: Text, o: nat, ds: Text)
    requires AllDigits(ds) && StartsWith(s, o, ds)
    requires o + |ds| == |s| || !IsDigit(s[o + |ds|])
    ensures SkipDigits(s, o) == o + |ds|
    decreases |ds|
  {
    if ds != [] {
      assert ds == [ds[0]] + ds[1..] && ds[0] in ds;
      AtHead(s, o, ds[0], ds[1..]);
      SkipDigitsExact(s, o + 1, ds[1..]);
    }
  }

  lemma {:induction false} SkipDigitsSound(s: Text, o: nat)
    requires o <= |s|
    ensures AllDigits(s[o..SkipDigits(s, o)])
    decreases |s| - o
  {
    if o < |s| && IsDigit(s[o]) {
      SkipDigitsSound(s, o + 1);
      assert s[o..SkipDigits(s, o)] == [s[o]] + s[o + 1..SkipDigits(s, o)];
    }
  }

  lemma FirstAt(s: Text, o: nat, t: Text)
    requires StartsWith(s, o, t) && t != []
    ensures o < |s| && s[o] == t[0]
  {
    assert s[o..o + |t|][0] == s[o];
  }

  lemma NotLiteral(s: Text, o: nat)
    requires o < |s| && (s[o] == MINUS || IsDigit(s[o]))
    ensures !StartsWith(s, o, TRUE) && !StartsWith(s, o, FALSE) && !StartsWith(s, o, NULL)
  {
    if StartsWith(s, o, TRUE) { FirstAt(s, o, TRUE); }
    if StartsWith(s, o, FALSE) { FirstAt(s, o, FALSE); }
    if StartsWith(s, o, NULL) { FirstAt(s, o, NULL); }
  }

  lemma IntegerExact(s: Text, i: nat, ds: Text)
    requires IntegerOk(ds) && StartsWith(s, i, ds)
    requires i + |ds| == |s| || !IsDigit(s[i + |ds|])
    ensures IntegerEnd(s, i) == Some(i + |ds|) && s[i] == ds[0] && IsDigit(s[i])
  {
    FirstAt(s, i, ds);
    assert ds[0] in ds;
    SkipDigitsExact(s, i, ds);
  }

  lemma NumberExact(s: Text, o: nat, n: Number)
    requires NumberOk(n) && StartsWith(s, o, NumberText(n)) && Boundary(s, o + |NumberText(n)|)
    ensures PrimitiveEnd(s, o) == Some(o + |NumberText(n)|)
  {
    var i, e := SplitNumber(s, o, n);
    NumberPartsExact(s, i, n, e);
    NumberEndIs(s, o, i, e);
  }

  lemma NumberEndIs(s: Text, o: nat, i: nat, e: nat)
    requires o <= |s| && o <= i < |s| && IsDigit(s[i])
    requires i == o || (i == o + 1 && s[o] == MINUS)
    requires IntegerEnd(s, i).Some? && ExponentEnd(s, FractionEnd(s, IntegerEnd(s, i).value)) == e
    ensures PrimitiveEnd(s, o) == Some(e)
  {
    NotLiteral(s, o);
  }

  lemma SplitNumber(s: Text, o: nat, n: Number) returns (i: nat, e: nat)
    requires StartsWith(s, o, NumberText(n))
    ensures o <= i && e == o + |NumberText(n)| && (i == o || (i == o + 1 && o < |s| && s[o] == MINUS))
    ensures StartsWith(s, i, n.integer)
    ensures StartsWith(s, i + |n.integer|, FractionText(n.fraction))
    ensures StartsWith(s, i + |n.integer| + |FractionText(n.fraction)|, ExponentText(n.exponent))
    ensures e == i + |n.integer| + |FractionText(n.fraction)| + |ExponentText(n.exponent)|
  {
    var sign := if n.minus then [MINUS] else [];
    var f, x := FractionText(n.fraction), ExponentText(n.exponent);
    AtSplit(s, o, sign + n.integer + f, x);
    AtSplit(s, o, sign + n.integer, f);
    AtSplit(s, o, sign, n.integer);
    if n.minus { FirstAt(s, o, sign); }
    i, e := o + |sign|, o + |NumberText(n)|;
  }

  lemma NumberPartsExact(s: Text, i: nat, n: Number, e: nat)
    requires NumberOk(n) && StartsWith(s, i, n.integer)
    requires StartsWith(s, i + |n.integer|, FractionText(n.fraction))
    requires StartsWith(s, i + |n.integer| + |FractionText(n.fraction)|, ExponentText(n.exponent))
    requires e == i + |n.integer| + |FractionText(n.fraction)| + |ExponentText(n.exponent)| && Boundary(s, e)
    ensures i < |s| && IsDigit(s[i]) && IntegerEnd(s, i).Some?
    ensures ExponentEnd(s, FractionEnd(s, IntegerEnd(s, i).value)) == e
  {
    hide StartsWith, SkipDigits, IntegerEnd, FractionEnd, ExponentEnd, ExponentText, Boundary;
    var p := i + |n.integer|;
    var q := p + |FractionText(n.fraction)|;
    ExponentExact(s, q, n.exponent);
    FractionExact(s, p, n.fraction);
    if n.fraction.Some? { FirstAt(s, p, FractionText(n.fraction)); }
    IntegerExact(s, i, n.integer);
  }

  lemma FractionExact(s: Text, p: nat, f: Option<Text>)
    requires FractionOk(f)
    requires StartsWith(s, p, FractionText(f))
    requires var q := p + |FractionText(f)|;
      q == |s| || (!IsDigit(s[q]) && s[q] != DOT)
    ensures FractionEnd(s, p) == p + |FractionText(f)|
  {
    if f.Some? {
      AtHead(s, p, DOT, f.value);
      FirstAt(s, p + 1, f.value);
      assert f.value[0] in f.value;
      SkipDigitsExact(s, p + 1, f.value);
    }
  }

  lemma ExponentExact(s: Text, q: nat, x: Option<Exponent>)
    requires ExponentOk(x)
    requires StartsWith(s, q, ExponentText(x)) && Boundary(s, q + |ExponentText(x)|)
    ensures ExponentEnd(s, q) == q + |ExponentText(x)|
    ensures q < |s| ==> !IsDigit(s[q]) && s[q] != DOT
  {
    if x.Some? {
      var ds := x.value.digits;
      var d := SplitExponent(s, q, x.value);
      FirstAt(s, d, ds);
      assert ds[0] in ds;
      SkipDigitsExact(s, d, ds);
      ExponentRun(s, q, d);
    }
  }

  /** Behind the sign of an exponent the scanner runs to the end of the digits. */
  lemma ExponentRun(s: Text, q: nat, d: nat)
    requires q < d < |s| && (s[q] == 0x65 || s[q] == 0x45) && IsDigit(s[d])
    requires d == q + 1 || (d == q + 2 && (s[q + 1] == PLUS || s[q + 1] == MINUS))
    ensures ExponentEnd(s, q) == SkipDigits(s, d)
  {
  }

  lemma SplitExponent(s: Text, q: nat, x: Exponent) returns (d: nat)
    requires StartsWith(s, q, ExponentText(Some(x)))
    ensures q < |s| && s[q] == x.e && d == q + 1 + |x.sign| && StartsWith(s, d, x.digits)
    ensures x.sign != [] ==> q + 1 < |s| && s[q + 1] == x.sign[0]
    ensures d + |x.digits| == q + |ExponentText(Some(x))|
  {
    AtSplit(s, q, [x.e] + x.sign, x.digits);
    AtHead(s, q, x.e, x.sign);
    d := q + 1 + |x.sign|;
    if x.sign != [] { FirstAt(s, q + 1, x.sign); }
  }

  lemma LiteralExact(s: Text, o: nat, word: Text)
    requires word == TRUE || word == FALSE || word == NULL
    requires StartsWith(s, o, word)
    ensures PrimitiveEnd(s, o) == Some(o + |word|)
  {
    FirstAt(s, o, word);
    if StartsWith(s, o, TRUE) { FirstAt(s, o, TRUE); }
    if StartsWith(s, o, FALSE) { FirstAt(s, o, FALSE); }
  }

  lemma PrimitiveSound(s: Text, o: nat) returns (v: Value)
    requires o <= |s| && PrimitiveEnd(s, o).Some?
    ensures ValueOk(v, true) && StartsWith(s, o, ValueText(v))
    ensures PrimitiveEnd(s, o) == Some(o + |ValueText(v)|)
  {
    if StartsWith(s, o, TRUE) { v := Literal(TRUE); }
    else if StartsWith(s, o, FALSE) { v := Literal(FALSE); }
    else if StartsWith(s, o, NULL) { v := Literal(NULL); }
    else {
      var minus := o < |s| && s[o] == MINUS;
      var n := NumberSound(s, if minus then o + 1 else o, minus);
      v := Num(n);
      AtSlice(s, o, PrimitiveEnd(s, o).value);
    }
  }

  lemma NumberSound(s: Text, i: nat, minus: bool) returns (n: Number)
    requires i <= |s| && IntegerEnd(s, i).Some? && (minus ==> i > 0 && s[i - 1] == MINUS)
    ensures NumberOk(n)
    ensures NumberText(n) ==
      s[if minus then i - 1 else i..ExponentEnd(s, FractionEnd(s, IntegerEnd(s, i).value))]
  {
    var p := IntegerEnd(s, i).value;
    var q := FractionEnd(s, p);
    IntegerSound(s, i);
    var fraction := FractionSound(s, p);
    var exponent := ExponentSound(s, q);
    n := Number(minus, s[i..p], fraction, exponent);
    JoinSlices(s, i, p, q, ExponentEnd(s, q), minus);
  }

  lemma IntegerSound(s: Text, i: nat)
    requires i <= |s| && IntegerEnd(s, i).Some?
    ensures IntegerOk(s[i..IntegerEnd(s, i).value])
  {
    SkipDigitsSound(s, i);
    var t := s[i..IntegerEnd(s, i).value];
    assert t[0] == s[i];
  }

  lemma JoinSlices(s: Text, i: nat, p: nat, q: nat, e: nat, minus: bool)
    requires i <= p <= q <= e <= |s| && (minus ==> i > 0 && s[i - 1] == MINUS)
    ensures (if minus then [MINUS] else []) + s[i..p] + s[p..q] + s[q..e] == s[if minus then i - 1 else i..e]
  {
  }

  lemma FractionSound(s: Text, p: nat) returns (f: Option<Text>)
    requires p <= |s|
    ensures FractionText(f) == s[p..FractionEnd(s, p)]
    ensures FractionOk(f)
  {
    var q := FractionEnd(s, p);
    f := None;
    if p < q {
      SkipDigitsSound(s, p + 1);
      f := Some(s[p + 1..q]);
    }
  }

  lemma ExponentSound(s: Text, q: nat) returns (x: Option<Exponent>)
    requires q <= |s|
    ensures ExponentText(x) == s[q..ExponentEnd(s, q)]
    ensures ExponentOk(x)
  {
    var e := ExponentEnd(s, q);
    x := None;
    if q < e {
      var d := if q + 1 < |s| && (s[q + 1] == PLUS || s[q + 1] == MINUS) then q + 2 else q + 1;
      SkipDigitsSound(s, d);
      x := Some(Exponent(s[q], s[q + 1..d], s[d..e]));
      assert s[q..e] == [s[q]] + s[q + 1..d] + s[d..e];
    }
  }

  /******* Values *******/

  /** No value, and no name, starts with whitespace or with a closing delimiter. */
  lemma ValueStart(v: Value)
    requires ValueOk(v, true)
    ensures |ValueText(v)| >= 1 && !IsWideSpace(ValueText(v)[0])
    ensures ValueText(v)[0] != CLOSE_BRACKET && ValueText(v)[0] != CLOSE_BRACE
  {
    match v
    case Num(n) =>
      assert n.integer[0] in n.integer;
      assert NumberText(n)[0] == (if n.minus then MINUS else n.integer[0]);
    case _ =>
  }

  /** Whitespace, then a token starting with c: the scanner stops on c. */
  lemma SkipTo(s: Text, o: nat, ws: Text, rest: Text)
    requires AllSpace(ws, true) && StartsWith(s, o, ws) && StartsWith(s, o + |ws|, rest)
    requires rest != [] && !IsWideSpace(rest[0])
    ensures SkipSpace(s, o) == o + |ws| < |s| && s[o + |ws|] == rest[0]
    ensures o < |s| && (s[o] == rest[0] || IsWideSpace(s[o]))
  {
    SkipSpaceOver(s, o, ws);
    FirstAt(s, o + |ws|, rest);
    if ws != [] {
      FirstAt(s, o, ws);
      assert ws[0] in ws;
    }
  }

  lemma SplitElements(s: Text, o: nat, es: Elements) returns (p: nat, t: nat)
    requires StartsWith(s, o, ElementsText(es))
    ensures p == o + |es.pre| + |ValueText(es.v)| && t == p + |es.post|
    ensures t + |ElementsTail(es)| == o + |ElementsText(es)|
    ensures StartsWith(s, o, es.pre) && StartsWith(s, o + |es.pre|, ValueText(es.v))
    ensures StartsWith(s, p, es.post) && StartsWith(s, t, ElementsTail(es))
  {
    var v, tail := ValueText(es.v), ElementsTail(es);
    AtSplit(s, o, es.pre + v + es.post, tail);
    AtSplit(s, o, es.pre + v, es.post);
    AtSplit(s, o, es.pre, v);
    p, t := o + |es.pre| + |v|, o + |es.pre| + |v| + |es.post|;
  }

  lemma SplitMembers(s: Text, o: nat, ms: Members) returns (n: nat, c: nat, p: nat, t: nat)
    requires StartsWith(s, o, MembersText(ms))
    ensures n == o + |ms.pre| + |StringText(ms.name)| && c == n + |ms.mid|
    ensures p == c + 1 + |ms.vpre| + |ValueText(ms.v)| && t == p + |ms.post|
    ensures t + |MembersTail(ms)| == o + |MembersText(ms)|
    ensures StartsWith(s, o, ms.pre) && StartsWith(s, o + |ms.pre|, StringText(ms.name))
    ensures StartsWith(s, n, ms.mid) && StartsWith(s, c, [COLON])
    ensures StartsWith(s, c + 1, ms.vpre) && StartsWith(s, c + 1 + |ms.vpre|, ValueText(ms.v))
    ensures StartsWith(s, p, ms.post) && StartsWith(s, t, MembersTail(ms))
  {
    var name, v, tail := StringText(ms.name), ValueText(ms.v), MembersTail(ms);
    AtSplit(s, o, ms.pre + name + ms.mid + [COLON] + ms.vpre + v + ms.post, tail);
    AtSplit(s, o, ms.pre + name + ms.mid + [COLON] + ms.vpre + v, ms.post);
    AtSplit(s, o, ms.pre + name + ms.mid + [COLON] + ms.vpre, v);
    AtSplit(s, o, ms.pre + name + ms.mid + [COLON], ms.vpre);
    AtSplit(s, o, ms.pre + name + ms.mid, [COLON]);
    AtSplit(s, o, ms.pre + name, ms.mid);
    AtSplit(s, o, ms.pre, name);
    n := o + |ms.pre| + |name|;
    c := n + |ms.mid|;
    p := c + 1 + |ms.vpre| + |v|;
    t := p + |ms.post|;
  }

  /** Where the tokens of an element list lie, and what the scanner meets after the first value. */
  lemma ElementsLayout(s: Text, o: nat, es: Elements) returns (p: nat, t: nat)
    requires ElementsOk(es, true) && StartsWith(s, o, ElementsText(es))
    ensures p == o + |es.pre| + |ValueText(es.v)|
    ensures StartsWith(s, o, es.pre) && StartsWith(s, o + |es.pre|, ValueText(es.v)) && Boundary(s, p)
    ensures p <= t < |s| && SkipSpace(s, p) == t
    ensures es.rest.None? ==> s[t] == CLOSE_BRACKET && t + 1 == o + |ElementsText(es)|
    ensures es.rest.Some? ==>
      && s[t] == COMMA && StartsWith(s, t + 1, ElementsText(es.rest.value))
      && t + 1 + |ElementsText(es.rest.value)| == o + |ElementsText(es)|
  {
    p, t := SplitElements(s, o, es);
    SkipTo(s, p, es.post, ElementsTail(es));
    if es.rest.Some? { AtHead(s, t, COMMA, ElementsText(es.rest.value)); }
  }

  lemma MembersLayout(s: Text, o: nat, ms: Members) returns (n: nat, c: nat, p: nat, t: nat)
    requires MembersOk(ms, true) && StartsWith(s, o, MembersText(ms))
    ensures o <= |s| && ScanString(s, SkipSpace(s, o)) == Some((Decoded(ms.name), n))
    ensures SkipSpace(s, n) == c < |s| && s[c] == COLON
    ensures p == c + 1 + |ms.vpre| + |ValueText(ms.v)|
    ensures StartsWith(s, c + 1, ms.vpre) && StartsWith(s, c + 1 + |ms.vpre|, ValueText(ms.v)) && Boundary(s, p)
    ensures p <= t < |s| && SkipSpace(s, p) == t
    ensures ms.rest.None? ==> s[t] == CLOSE_BRACE && t + 1 == o + |MembersText(ms)|
    ensures ms.rest.Some? ==>
      && s[t] == COMMA && StartsWith(s, t + 1, MembersText(ms.rest.value))
      && t + 1 + |MembersText(ms.rest.value)| == o + |MembersText(ms)|
  {
    hide ValueText, MembersText, MembersTail, StringText, ScanString, Decoded, SkipSpace, StartsWith;
    n, c, p, t := SplitMembers(s, o, ms);
    NameAt(s, o, ms.pre, ms.name);
    SkipTo(s, n, ms.mid, [COLON]);
    DelimiterAt(s, p, ms, t);
  }

  lemma NameAt(s: Text, o: nat, pre: Text, name: seq<Piece>)
    requires AllSpace(pre, true) && PiecesOk(name)
    requires StartsWith(s, o, pre) && StartsWith(s, o + |pre|, StringText(name))
    ensures o <= |s| && SkipSpace(s, o) == o + |pre|
    ensures ScanString(s, SkipSpace(s, o)) == Some((Decoded(name), o + |pre| + |StringText(name)|))
  {
    SkipTo(s, o, pre, StringText(name));
    StringExact(s, o + |pre|, name);
  }

  lemma DelimiterAt(s: Text, p: nat, ms: Members, t: nat)
    requires MembersOk(ms, true) && t == p + |ms.post|
    requires StartsWith(s, p, ms.post) && StartsWith(s, t, MembersTail(ms))
    ensures t < |s| && SkipSpace(s, p) == t && Boundary(s, p)
    ensures ms.rest.None? ==> s[t] == CLOSE_BRACE && |MembersTail(ms)| == 1
    ensures ms.rest.Some? ==>
      && s[t] == COMMA && StartsWith(s, t + 1, MembersText(ms.rest.value))
      && |MembersTail(ms)| == 1 + |MembersText(ms.rest.value)|
  {
    hide MembersText;
    SkipTo(s, p, ms.post, MembersTail(ms));
    if ms.rest.Some? { AtHead(s, t, COMMA, MembersText(ms.rest.value)); }
  }

  /******* The scanner, one step at a time *******/

  lemma ElementsStep(s: Text, o: nat, depth: nat)
    requires o <= |s|
    ensures ScanValue(s, o, depth + 1).None? ==> ScanElements(s, o, depth).None?
    ensures ScanValue(s, o, depth + 1).Some? ==>
      var d := SkipSpace(s, ScanValue(s, o, depth + 1).value);
      && (d < |s| && s[d] == CLOSE_BRACKET ==> ScanElements(s, o, depth) == Some(d + 1))
      && (d < |s| && s[d] == COMMA ==> ScanElements(s, o, depth) == ScanElements(s, d + 1, depth))
      && (d == |s| || (s[d] != CLOSE_BRACKET && s[d] != COMMA) ==> ScanElements(s, o, depth).None?)
  {
  }

  lemma MembersStep(s: Text, o: nat, depth: nat, keys: set<Text>)
    requires o <= |s|
    ensures ScanMember(s, o, depth, keys).None? ==> ScanMembers(s, o, depth, keys).None?
    ensures ScanMember(s, o, depth, keys).Some? ==>
      var m := ScanMember(s, o, depth, keys).value;
      var d := SkipSpace(s, m.1);
      && (d < |s| && s[d] == CLOSE_BRACE ==> ScanMembers(s, o, depth, keys) == Some(d + 1))
      && (d < |s| && s[d] == COMMA ==> ScanMembers(s, o, depth, keys) == ScanMembers(s, d + 1, depth, keys + {m.0}))
      && (d == |s| || (s[d] != CLOSE_BRACE && s[d] != COMMA) ==> ScanMembers(s, o, depth, keys).None?)
  {
  }

  lemma MemberStep(s: Text, o: nat, depth: nat, keys: set<Text>, name: Text, n: nat, c: nat)
    requires o <= |s| && ScanString(s, SkipSpace(s, o)) == Some((name, n))
    requires SkipSpace(s, n) == c < |s| && s[c] == COLON
    ensures ScanMember(s, o, depth, keys) ==
      if name in keys || Forbidden(name) || ScanValue(s, c + 1, depth + 1).None? then None
      else Some((name, ScanValue(s, c + 1, depth + 1).value))
  {
  }

  /** Whitespace before a value or a member list is skipped twice without effect. */
  lemma ScanFromSpace(s: Text, o: nat, depth: nat, keys: set<Text>)
    requires o <= |s|
    ensures ScanElements(s, SkipSpace(s, o), depth) == ScanElements(s, o, depth)
    ensures ScanMembers(s, SkipSpace(s, o), depth, keys) == ScanMembers(s, o, depth, keys)
  {
    ElementsFromSpace(s, o, depth);
    MembersFromSpace(s, o, depth, keys);
  }

  lemma ValueFromSpace(s: Text, o: nat, depth: nat)
    requires o <= |s|
    ensures ScanValue(s, SkipSpace(s, o), depth) == ScanValue(s, o, depth)
  {
    SkipSpaceSound(s, o);
  }

  lemma ElementsFromSpace(s: Text, o: nat, depth: nat)
    requires o <= |s|
    ensures ScanElements(s, SkipSpace(s, o), depth) == ScanElements(s, o, depth)
  {
    hide ScanValue;
    ValueFromSpace(s, o, depth + 1);
  }

  lemma MembersFromSpace(s: Text, o: nat, depth: nat, keys: set<Text>)
    requires o <= |s|
    ensures ScanMembers(s, SkipSpace(s, o), depth, keys) == ScanMembers(s, o, depth, keys)
  {
    hide ScanValue;
    SkipSpaceSound(s, o);
    assert ScanMember(s, SkipSpace(s, o), depth, keys) == ScanMember(s, o, depth, keys);
  }

  /******* What fits below a given depth *******/

  predicate ValueFits(v: Value, depth: nat)
    requires ValueOk(v, true)
  {
    depth + Depth(v) <= MAX_DEPTH && NamesOk(v, true)
  }

  predicate ElementsFit(es: Elements, depth: nat)
    requires ElementsOk(es, true)
  {
    depth + 1 + ElementsDepth(es) <= MAX_DEPTH && ElementsNamesOk(es, true)
  }

  predicate MembersFit(ms: Members, depth: nat, keys: set<Text>)
    requires MembersOk(ms, true)
  {
    var names := Names(ms, true);
    && depth + 1 + MembersDepth(ms) <= MAX_DEPTH && Distinct(names)
    && (forall n :: n in names ==> n !in keys && !Forbidden(n)) && MemberValuesOk(ms, true)
  }

  lemma ElementsFitStep(es: Elements, depth: nat)
    requires ElementsOk(es, true)
    ensures ElementsFit(es, depth) <==>
      ValueFits(es.v, depth + 1) && (es.rest.Some? ==> ElementsFit(es.rest.value, depth))
  {
  }

  lemma MembersFitStep(ms: Members, depth: nat, keys: set<Text>)
    requires MembersOk(ms, true)
    ensures var name := Decoded(ms.name);
      MembersFit(ms, depth, keys) <==>
      && name !in keys && !Forbidden(name) && ValueFits(ms.v, depth + 1)
      && (ms.rest.Some? ==> MembersFit(ms.rest.value, depth, keys + {name}))
  {
    var name, names := Decoded(ms.name), Names(ms, true);
    assert names[0] == name && name in names;
    if ms.rest.Some? {
      var rest := Names(ms.rest.value, true);
      assert names[1..] == rest;
      assert forall i :: 0 <= i < |rest| ==> rest[i] == names[i + 1];
      if MembersFit(ms, depth, keys) {
        forall m | m in rest ensures m in names && m != name {
          var i :| 0 <= i < |rest| && rest[i] == m;
          assert names[i + 1] == m;
        }
      }
      if name !in keys && MembersFit(ms.rest.value, depth, keys + {name}) {
        forall i, j | 0 <= i < j < |names| ensures names[i] != names[j] {
          if i == 0 { assert rest[j - 1] in rest; } else { assert rest[i - 1] != rest[j - 1]; }
        }
      }
    }
  }

  /** The scan of one rendered value: it reaches the end of the rendering exactly when the value
      respects the depth limit and the rules on names. */
  lemma {:induction false} ValueExact(s: Text, o: nat, pre: Text, v: Value, depth: nat)
    requires AllSpace(pre, true) && ValueOk(v, true)
    requires StartsWith(s, o, pre) && StartsWith(s, o + |pre|, ValueText(v))
    requires Boundary(s, o + |pre| + |ValueText(v)|)
    ensures ScanValue(s, o, depth) == if ValueFits(v, depth) then Some(o + |pre| + |ValueText(v)|) else None
    decreases v, 3
  {
    hide ScanValue, ValueText;
    ValueStart(v);
    SkipTo(s, o, pre, ValueText(v));
    SkipSpaceSound(s, o);
    ValueFromSpace(s, o, depth);
    TokenExact(s, o + |pre|, v, depth);
  }

  lemma {:induction false} TokenExact(s: Text, b: nat, v: Value, depth: nat)
    requires ValueOk(v, true) && StartsWith(s, b, ValueText(v)) && Boundary(s, b + |ValueText(v)|)
    requires SkipSpace(s, b) == b
    ensures ScanValue(s, b, depth) == if ValueFits(v, depth) then Some(b + |ValueText(v)|) else None
    decreases v, 2
  {
    hide ScanElements, ScanMembers, ElementsText, MembersText, NumberText;
    ValueStart(v);
    FirstAt(s, b, ValueText(v));
    match v
    case Literal(word) => LiteralExact(s, b, word);
    case Num(n) => NumberToken(s, b, n, depth);
    case Str(ps) => StringExact(s, b, ps);
    case EmptyArray(inner) => EmptyExact(s, b, OPEN_BRACKET, inner, CLOSE_BRACKET);
    case EmptyObject(inner) => EmptyExact(s, b, OPEN_BRACE, inner, CLOSE_BRACE);
    case Array(es) => ArrayExact(s, b, es, depth);
    case Object(ms) => ObjectExact(s, b, ms, depth);
  }

  lemma NumberToken(s: Text, b: nat, n: Number, depth: nat)
    requires NumberOk(n) && StartsWith(s, b, NumberText(n)) && Boundary(s, b + |NumberText(n)|)
    requires SkipSpace(s, b) == b
    ensures ScanValue(s, b, depth) == if depth <= MAX_DEPTH then Some(b + |NumberText(n)|) else None
  {
    NumberExact(s, b, n);
    ValueStart(Num(n));
    FirstAt(s, b, NumberText(n));
    assert n.integer[0] in n.integer;
    assert NumberText(n)[0] == (if n.minus then MINUS else n.integer[0]);
  }

  lemma EmptyExact(s: Text, b: nat, open: CodeUnit, inner: Text, close: CodeUnit)
    requires AllSpace(inner, true) && !IsWideSpace(close)
    requires StartsWith(s, b, [open] + inner + [close])
    ensures b < |s| && s[b] == open
    ensures SkipSpace(s, b + 1) == b + 1 + |inner| < |s| && s[b + 1 + |inner|] == close
  {
    AtSplit(s, b, [open] + inner, [close]);
    assert [open] + inner == [open] + inner;
    AtHead(s, b, open, inner);
    SkipTo(s, b + 1, inner, [close]);
  }

  lemma {:induction false} ArrayExact(s: Text, b: nat, es: Elements, depth: nat)
    requires ElementsOk(es, true) && StartsWith(s, b, [OPEN_BRACKET] + ElementsText(es))
    requires SkipSpace(s, b) == b
    ensures ScanValue(s, b, depth) ==
      if ElementsFit(es, depth) then Some(b + 1 + |ElementsText(es)|) else None
    decreases es, 5
  {
    hide ScanValue, ScanElements, ValueText, ElementsText, ElementsTail, ElementsDepth, ElementsNamesOk;
    AtHead(s, b, OPEN_BRACKET, ElementsText(es));
    ArrayStart(s, b + 1, es);
    ScanFromSpace(s, b + 1, depth, {});
    ElementsExact(s, b + 1, es, depth);
    OpenArray(s, b, depth);
  }

  lemma ArrayStart(s: Text, o: nat, es: Elements)
    requires ElementsOk(es, true) && StartsWith(s, o, ElementsText(es))
    ensures SkipSpace(s, o) < |s| && s[SkipSpace(s, o)] != CLOSE_BRACKET
  {
    var p, t := SplitElements(s, o, es);
    ValueStart(es.v);
    SkipTo(s, o, es.pre, ValueText(es.v));
  }

  lemma OpenArray(s: Text, b: nat, depth: nat)
    requires b < |s| && SkipSpace(s, b) == b && s[b] == OPEN_BRACKET
    requires SkipSpace(s, b + 1) < |s| && s[SkipSpace(s, b + 1)] != CLOSE_BRACKET
    ensures ScanValue(s, b, depth) ==
      if depth > MAX_DEPTH then None else ScanElements(s, SkipSpace(s, b + 1), depth)
  {
  }

  lemma {:induction false} ElementsExact(s: Text, o: nat, es: Elements, depth: nat)
    requires ElementsOk(es, true) && StartsWith(s, o, ElementsText(es))
    ensures ScanElements(s, o, depth) == if ElementsFit(es, depth) then Some(o + |ElementsText(es)|) else None
    decreases es, 4
  {
    hide ScanValue, ScanElements, ValueText, ElementsText, ElementsTail;
    var p, t := ElementsLayout(s, o, es);
    ValueExact(s, o, es.pre, es.v, depth + 1);
    ElementsFitStep(es, depth);
    ElementsStep(s, o, depth);
    if !ValueFits(es.v, depth + 1) {
      assert ScanElements(s, o, depth).None?;
    } else if es.rest.Some? {
      ElementsExact(s, t + 1, es.rest.value, depth);
      assert ScanElements(s, o, depth) == ScanElements(s, t + 1, depth);
    } else {
      assert ScanElements(s, o, depth) == Some(t + 1);
    }
  }

  lemma {:induction false} ObjectExact(s: Text, b: nat, ms: Members, depth: nat)
    requires MembersOk(ms, true) && StartsWith(s, b, [OPEN_BRACE] + MembersText(ms))
    requires SkipSpace(s, b) == b
    ensures ScanValue(s, b, depth) ==
      if MembersFit(ms, depth, {}) then Some(b + 1 + |MembersText(ms)|) else None
    decreases ms, 5
  {
    hide ScanValue, ScanMembers, ScanMember, ValueText, MembersText, MembersTail;
    AtHead(s, b, OPEN_BRACE, MembersText(ms));
    ObjectStart(s, b + 1, ms);
    ScanFromSpace(s, b + 1, depth, {});
    MembersExact(s, b + 1, ms, depth, {});
    OpenObject(s, b, depth);
  }

  lemma ObjectStart(s: Text, o: nat, ms: Members)
    requires MembersOk(ms, true) && StartsWith(s, o, MembersText(ms))
    ensures SkipSpace(s, o) < |s| && s[SkipSpace(s, o)] != CLOSE_BRACE
  {
    var n, c, p, t := SplitMembers(s, o, ms);
    SkipTo(s, o, ms.pre, StringText(ms.name));
  }

  lemma OpenObject(s: Text, b: nat, depth: nat)
    requires b < |s| && SkipSpace(s, b) == b && s[b] == OPEN_BRACE
    requires SkipSpace(s, b + 1) < |s| && s[SkipSpace(s, b + 1)] != CLOSE_BRACE
    ensures ScanValue(s, b, depth) ==
      if depth > MAX_DEPTH then None else ScanMembers(s, SkipSpace(s, b + 1), depth, {})
  {
  }

  lemma {:induction false} MembersExact(s: Text, o: nat, ms: Members, depth: nat, keys: set<Text>)
    requires MembersOk(ms, true) && StartsWith(s, o, MembersText(ms))
    ensures ScanMembers(s, o, depth, keys) ==
      if MembersFit(ms, depth, keys) then Some(o + |MembersText(ms)|) else None
    decreases ms, 4
  {
    hide ScanValue, ScanMembers, ScanMember, ValueText, MembersText, MembersTail, StringText, MembersFit,
      Decoded, SkipSpace, ScanString, StartsWith, ValueFits, Forbidden;
    var n, c, p, t := MembersLayout(s, o, ms);
    ValueExact(s, c + 1, ms.vpre, ms.v, depth + 1);
    MemberStep(s, o, depth, keys, Decoded(ms.name), n, c);
    MembersStep(s, o, depth, keys);
    MembersFitStep(ms, depth, keys);
    if Decoded(ms.name) in keys || Forbidden(Decoded(ms.name)) || !ValueFits(ms.v, depth + 1) {
      assert ScanMembers(s, o, depth, keys).None?;
    } else if ms.rest.Some? {
      MembersExact(s, t + 1, ms.rest.value, depth, keys + {Decoded(ms.name)});
    } else {
      assert ScanMembers(s, o, depth, keys) == Some(t + 1);
    }
  }

  /******* Every successful scan reads a rendering *******/

  lemma ComposeElements(s: Text, o: nat, es: Elements, p: nat, t: nat)
    requires p == o + |es.pre| + |ValueText(es.v)| && t == p + |es.post|
    requires StartsWith(s, o, es.pre) && StartsWith(s, o + |es.pre|, ValueText(es.v))
    requires StartsWith(s, p, es.post) && StartsWith(s, t, ElementsTail(es))
    ensures StartsWith(s, o, ElementsText(es)) && o + |ElementsText(es)| == t + |ElementsTail(es)|
  {
    var v, tail := ValueText(es.v), ElementsTail(es);
    AtSplit(s, o, es.pre, v);
    AtSplit(s, o, es.pre + v, es.post);
    AtSplit(s, o, es.pre + v + es.post, tail);
  }

  lemma AtJoin(s: Text, o: nat, a: Text, b: Text, c: Text, d: Text)
    requires StartsWith(s, o, a) && StartsWith(s, o + |a|, b)
    requires StartsWith(s, o + |a| + |b|, c) && StartsWith(s, o + |a| + |b| + |c|, d)
    ensures StartsWith(s, o, a + b + c + d)
  {
    AtSplit(s, o, a, b);
    AtSplit(s, o, a + b, c);
    AtSplit(s, o, a + b + c, d);
  }

  lemma ElementsTailAt(s: Text, t: nat, es: Elements)
    requires t < |s| && s[t] == (if es.rest.None? then CLOSE_BRACKET else COMMA)
    requires es.rest.Some? ==> StartsWith(s, t + 1, ElementsText(es.rest.value))
    ensures StartsWith(s, t, ElementsTail(es))
    ensures |ElementsTail(es)| == 1 + (if es.rest.None? then 0 else |ElementsText(es.rest.value)|)
  {
    AtHead(s, t, s[t], if es.rest.None? then [] else ElementsText(es.rest.value));
  }

  lemma MembersTailAt(s: Text, t: nat, ms: Members)
    requires t < |s| && s[t] == (if ms.rest.None? then CLOSE_BRACE else COMMA)
    requires ms.rest.Some? ==> StartsWith(s, t + 1, MembersText(ms.rest.value))
    ensures StartsWith(s, t, MembersTail(ms))
    ensures |MembersTail(ms)| == 1 + (if ms.rest.None? then 0 else |MembersText(ms.rest.value)|)
  {
    AtHead(s, t, s[t], if ms.rest.None? then [] else MembersText(ms.rest.value));
  }

  lemma ComposeMembers(s: Text, o: nat, ms: Members, n: nat, c: nat, p: nat, t: nat)
    requires n == o + |ms.pre| + |StringText(ms.name)| && c == n + |ms.mid|
    requires p == c + 1 + |ms.vpre| + |ValueText(ms.v)| && t == p + |ms.post|
    requires StartsWith(s, o, ms.pre) && StartsWith(s, o + |ms.pre|, StringText(ms.name))
    requires StartsWith(s, n, ms.mid) && StartsWith(s, c, [COLON])
    requires StartsWith(s, c + 1, ms.vpre) && StartsWith(s, c + 1 + |ms.vpre|, ValueText(ms.v))
    requires StartsWith(s, p, ms.post) && StartsWith(s, t, MembersTail(ms))
    ensures StartsWith(s, o, MembersText(ms)) && o + |MembersText(ms)| == t + |MembersTail(ms)|
  {
    var name, v, tail := StringText(ms.name), ValueText(ms.v), MembersTail(ms);
    var head := ms.pre + name + ms.mid + [COLON];
    AtJoin(s, o, ms.pre, name, ms.mid, [COLON]);
    AtJoin(s, o, head, ms.vpre, v, ms.post);
    AtSplit(s, o, head + ms.vpre + v + ms.post, tail);
  }

  lemma {:induction false} ValueSound(s: Text, o: nat, depth: nat) returns (pre: Text, v: Value)
    requires o <= |s| && ScanValue(s, o, depth).Some?
    ensures AllSpace(pre, true) && ValueOk(v, true)
    ensures StartsWith(s, o, pre) && StartsWith(s, o + |pre|, ValueText(v))
    ensures ScanValue(s, o, depth) == Some(o + |pre| + |ValueText(v)|)
    decreases |s| - o, 1
  {
    hide ValueText;
    var b := SkipSpace(s, o);
    SkipSpaceSound(s, o);
    pre := s[o..b];
    ValueFromSpace(s, o, depth);
    v := TokenSound(s, b, depth);
  }

  lemma {:induction false} TokenSound(s: Text, b: nat, depth: nat) returns (v: Value)
    requires b <= |s| && ScanValue(s, b, depth).Some? && SkipSpace(s, b) == b
    ensures ValueOk(v, true) && StartsWith(s, b, ValueText(v))
    ensures ScanValue(s, b, depth) == Some(b + |ValueText(v)|)
    decreases |s| - b, 0, 1
  {
    hide ScanElements, ScanMembers, ElementsText, MembersText, PrimitiveEnd, ScanString, SkipSpace, StartsWith;
    hide PiecesOk, StringText;
    if s[b] == OPEN_BRACE || s[b] == OPEN_BRACKET {
      var i := SkipSpace(s, b + 1);
      if i < |s| && s[i] == (if s[b] == OPEN_BRACE then CLOSE_BRACE else CLOSE_BRACKET) {
        v := EmptySound(s, b, i);
      } else if s[b] == OPEN_BRACE {
        MembersFromSpace(s, b + 1, depth, {});
        v := ObjectSound(s, b, depth);
      } else {
        ElementsFromSpace(s, b + 1, depth);
        v := ArraySound(s, b, depth);
      }
    } else if s[b] == QUOTE {
      var ps := StringSound(s, b);
      v := Str(ps);
    } else {
      v := PrimitiveSound(s, b);
    }
  }

  lemma {:induction false} ObjectSound(s: Text, b: nat, depth: nat) returns (v: Value)
    requires b < |s| && s[b] == OPEN_BRACE && ScanMembers(s, b + 1, depth, {}).Some?
    ensures ValueOk(v, true) && StartsWith(s, b, ValueText(v))
    ensures ScanMembers(s, b + 1, depth, {}) == Some(b + |ValueText(v)|)
    decreases |s| - b, 0, 0
  {
    hide ScanMembers, MembersText, StartsWith;
    var ms := MembersSound(s, b + 1, depth, {});
    v := Object(ms);
    AtHead(s, b, OPEN_BRACE, MembersText(ms));
  }

  lemma {:induction false} ArraySound(s: Text, b: nat, depth: nat) returns (v: Value)
    requires b < |s| && s[b] == OPEN_BRACKET && ScanElements(s, b + 1, depth).Some?
    ensures ValueOk(v, true) && StartsWith(s, b, ValueText(v))
    ensures ScanElements(s, b + 1, depth) == Some(b + |ValueText(v)|)
    decreases |s| - b, 0, 0
  {
    hide ScanElements, ElementsText, StartsWith;
    var es := ElementsSound(s, b + 1, depth);
    v := Array(es);
    AtHead(s, b, OPEN_BRACKET, ElementsText(es));
  }

  lemma EmptySound(s: Text, b: nat, i: nat) returns (v: Value)
    requires b < i < |s| && SkipSpace(s, b + 1) == i
    requires (s[b] == OPEN_BRACE && s[i] == CLOSE_BRACE) || (s[b] == OPEN_BRACKET && s[i] == CLOSE_BRACKET)
    ensures ValueOk(v, true) && StartsWith(s, b, ValueText(v)) && |ValueText(v)| == i + 1 - b
  {
    SkipSpaceSound(s, b + 1);
    var inner := s[b + 1..i];
    v := if s[b] == OPEN_BRACE then EmptyObject(inner) else EmptyArray(inner);
    assert s[b..i + 1] == [s[b]] + inner + [s[i]];
  }

  lemma {:induction false} ElementsSound(s: Text, o: nat, depth: nat) returns (es: Elements)
    requires o <= |s| && ScanElements(s, o, depth).Some?
    ensures ElementsOk(es, true) && StartsWith(s, o, ElementsText(es))
    ensures ScanElements(s, o, depth) == Some(o + |ElementsText(es)|)
    decreases |s| - o, 2
  {
    hide ScanValue, ScanElements, ValueText, ElementsText, ElementsTail, ValueOk;
    ElementsStep(s, o, depth);
    var pre, v := ValueSound(s, o, depth + 1);
    var p := ScanValue(s, o, depth + 1).value;
    var t := SkipSpace(s, p);
    SkipSpaceSound(s, p);
    es := Elements(pre, v, s[p..t], None);
    if s[t] == COMMA {
      var rest := ElementsSound(s, t + 1, depth);
      es := es.(rest := Some(rest));
    }
    ElementsTailAt(s, t, es);
    ComposeElements(s, o, es, p, t);
  }

  lemma {:induction false} MembersSound(s: Text, o: nat, depth: nat, keys: set<Text>) returns (ms: Members)
    requires o <= |s| && ScanMembers(s, o, depth, keys).Some?
    ensures MembersOk(ms, true) && StartsWith(s, o, MembersText(ms))
    ensures ScanMembers(s, o, depth, keys) == Some(o + |MembersText(ms)|)
    decreases |s| - o, 3
  {
    hide ScanValue, ScanMembers, ValueText, MembersText, MembersTail, StringText, ScanMember, ValueOk;
    var n, c, p: nat;
    MembersStep(s, o, depth, keys);
    ms, n, c, p := MemberSound(s, o, depth, keys);
    var t := SkipSpace(s, p);
    SkipSpaceSound(s, p);
    ms := ms.(post := s[p..t]);
    if s[t] == COMMA {
      var rest := MembersSound(s, t + 1, depth, keys + {ScanMember(s, o, depth, keys).value.0});
      ms := ms.(rest := Some(rest));
    }
    MembersTailAt(s, t, ms);
    ComposeMembers(s, o, ms, n, c, p, t);
  }

  lemma {:induction false} MemberSound(s: Text, o: nat, depth: nat, keys: set<Text>)
      returns (ms: Members, n: nat, c: nat, p: nat)
    requires o <= |s| && ScanMember(s, o, depth, keys).Some?
    ensures MembersOk(ms, true) && ms.rest.None?
    ensures n == o + |ms.pre| + |StringText(ms.name)| && c == n + |ms.mid| < |s|
    ensures p == c + 1 + |ms.vpre| + |ValueText(ms.v)| && ScanMember(s, o, depth, keys).value.1 == p
    ensures StartsWith(s, o, ms.pre) && StartsWith(s, o + |ms.pre|, StringText(ms.name))
    ensures StartsWith(s, n, ms.mid) && StartsWith(s, c, [COLON])
    ensures StartsWith(s, c + 1, ms.vpre) && StartsWith(s, c + 1 + |ms.vpre|, ValueText(ms.v))
    decreases |s| - o, 2
  {
    hide ScanValue, ValueText, StringText;
    var b := SkipSpace(s, o);
    SkipSpaceSound(s, o);
    var name := StringSound(s, b);
    n := b + |StringText(name)|;
    c := SkipSpace(s, n);
    SkipSpaceSound(s, n);
    var vpre, v := ValueSound(s, c + 1, depth + 1);
    p := ScanValue(s, c + 1, depth + 1).value;
    ms := Members(s[o..b], name, s[n..c], vpre, v, [], None);
    AtHead(s, c, COLON, []);
  }

  /******* The accepted language *******/

  /** The scanner alone accepts exactly the documents, with its wide class of whitespace, that
      keep to the depth limit and to the rules on names. */
  lemma ScanAcceptsExactly(s: Text)
    ensures ScanAccepts(s) <==> IsStrictDocument(s, true)
  {
    hide ScanValue, ValueText, DocumentText, NamesOk, Depth;
    if ScanAccepts(s) {
      var d := DocumentSound(s);
      DocumentScan(s, d);
    }
    if IsStrictDocument(s, true) {
      var d :| DocumentOk(d, true) && DocumentText(d) == s && NamesOk(d.v, true) && Depth(d.v) <= MAX_DEPTH;
      DocumentScan(s, d);
    }
  }

  lemma DocumentSound(s: Text) returns (d: Document)
    requires ScanAccepts(s)
    ensures DocumentOk(d, true) && DocumentText(d) == s
  {
    hide ScanValue, ValueText, ValueOk, SkipSpace, AllSpace;
    var pre, v := ValueSound(s, 0, 0);
    var e := |pre| + |ValueText(v)|;
    SkipSpaceSound(s, e);
    assert s[e..|s|] == s[e..];
    AtSplit(s, 0, pre, ValueText(v));
    d := Document(pre, v, s[e..]);
    assert s == s[..e] + s[e..];
  }

  /** The scan of a rendered document succeeds exactly when the document keeps the promises. */
  lemma DocumentScan(s: Text, d: Document)
    requires DocumentOk(d, true) && DocumentText(d) == s
    ensures ScanAccepts(s) <==> NamesOk(d.v, true) && Depth(d.v) <= MAX_DEPTH
  {
    hide ScanValue, ValueText, NamesOk, Depth, ValueOk;
    var e := |d.pre| + |ValueText(d.v)|;
    DocumentLayout(s, d);
    SkipSpaceOver(s, e, d.post);
    ValueExact(s, 0, d.pre, d.v, 0);
  }

  lemma ThreeParts(s: Text, a: Text, b: Text, c: Text)
    requires s == a + b + c && AllSpace(c, true)
    ensures StartsWith(s, 0, a) && StartsWith(s, |a|, b) && StartsWith(s, |a| + |b|, c)
    ensures Boundary(s, |a| + |b|)
  {
    assert s[0..|a|] == a && s[|a|..|a| + |b|] == b && s[|a| + |b|..|s|] == c;
    if c != [] { assert s[|a| + |b|] == c[0] && c[0] in c; }
  }

  lemma DocumentLayout(s: Text, d: Document)
    requires DocumentOk(d, true) && DocumentText(d) == s
    ensures var e := |d.pre| + |ValueText(d.v)|;
      && StartsWith(s, 0, d.pre) && StartsWith(s, |d.pre|, ValueText(d.v)) && Boundary(s, e)
      && StartsWith(s, e, d.post) && e + |d.post| == |s|
  {
    hide ValueText, ValueOk;
    ThreeParts(s, d.pre, ValueText(d.v), d.post);
  }
}
