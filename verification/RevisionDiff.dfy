/** The line comparison shown between two revisions of a document
    (apps/web/revision-diff.js): line splitting, the table of longest common
    subsequence lengths, and the greedy walk that turns it into an edit script. */
module RevisionDiff {

  const MAX_LCS_CELLS := 20_000

  /** An element of the table's Uint32Array rows. */
  newtype uint32 = x: int | 0 <= x < 0x1_0000_0000

  type Line = string

  datatype Entry =
    | Context(text: Line, beforeLine: nat, afterLine: nat)
    | Removed(text: Line, beforeLine: nat)
    | Added(text: Line, afterLine: nat)

  datatype BodyDiff =
    | Fallback(beforeText: string, afterText: string, lineEndingsChanged: bool,
               beforeLineCount: nat, afterLineCount: nat)
    | Script(lines: seq<Entry>, lineEndingsChanged: bool,
             beforeLineCount: nat, afterLineCount: nat)

  /******* Lines *******/

  /** CRLF and a lone CR both become LF. */
  function Normalize(s: string): string {
    if s == "" then ""
    else if s[0] == '\r' then
      "\n" + Normalize(if |s| > 1 && s[1] == '\n' then s[2..] else s[1..])
    else [s[0]] + Normalize(s[1..])
  }

  function Split(s: string): (r: seq<Line>)
    ensures |r| >= 1
  {
    if s == "" then [""]
    else
      var rest := Split(s[1..]);
      if s[0] == '\n' then [""] + rest else [[s[0]] + rest[0]] + rest[1..]
  }

  function Lines(s: string): seq<Line> {
    Split(Normalize(s))
  }

  function Join(ls: seq<Line>): string
    requires |ls| >= 1
  {
    if |ls| == 1 then ls[0] else ls[0] + "\n" + Join(ls[1..])
  }

  lemma {:induction false} NormalizeHasNoCarriageReturn(s: string)
    ensures '\r' !in Normalize(s)
    ensures '\r' !in s ==> Normalize(s) == s
  {
    if s != "" {
      if s[0] == '\r' {
        NormalizeHasNoCarriageReturn(if |s| > 1 && s[1] == '\n' then s[2..] else s[1..]);
      } else {
        NormalizeHasNoCarriageReturn(s[1..]);
        assert s == [s[0]] + s[1..];
      }
    }
  }

  lemma {:induction false} JoinSplit(s: string)
    ensures Join(Split(s)) == s
    ensures forall l :: l in Split(s) ==> '\n' !in l
  {
    if s != "" {
      JoinSplit(s[1..]);
      var rest := Split(s[1..]);
      assert s == [s[0]] + s[1..];
      if s[0] == '\n' {
        assert Split(s)[1..] == rest;
      } else {
        assert Split(s)[1..] == rest[1..];
        assert rest == [rest[0]] + rest[1..];
      }
    }
  }

  lemma {:induction false} SplitJoin(ls: seq<Line>)
    requires |ls| >= 1
    requires forall l :: l in ls ==> '\n' !in l
    ensures Split(Join(ls)) == ls
    decreases |ls|, |ls[0]|
  {
    var s := Join(ls);
    if ls[0] == "" {
      if |ls| > 1 {
        SplitJoin(ls[1..]);
        assert s[1..] == Join(ls[1..]);
        assert ls == [""] + ls[1..];
      }
    } else {
      var shorter := [ls[0][1..]] + ls[1..];
      assert shorter[1..] == ls[1..];
      assert ls[0] == [ls[0][0]] + ls[0][1..];
      assert ls[0][0] in ls[0];
      forall l | l in shorter ensures '\n' !in l {
        if l == shorter[0] { assert forall c :: c in l ==> c in ls[0]; } else { assert l in ls[1..]; }
      }
      SplitJoin(shorter);
      assert s[1..] == Join(shorter);
      assert ls == [[s[0]] + shorter[0]] + shorter[1..];
    }
  }

  /** Joining the lines of a text gives back the text with its line breaks normalised,
      and two texts have the same lines exactly when they agree after normalisation. */
  lemma JoinLines(x: string, y: string)
    ensures Join(Lines(x)) == Normalize(x)
    ensures '\r' !in Normalize(x)
    ensures Join(Lines(x)) == Join(Lines(y)) <==> Lines(x) == Lines(y)
    ensures Lines(x) == Lines(y) <==> Normalize(x) == Normalize(y)
  {
    NormalizeHasNoCarriageReturn(x);
    JoinSplit(Normalize(x));
    JoinSplit(Normalize(y));
  }

  /******* Line breaks *******/

  datatype Break = LF | CR | CRLF

  function BreakText(b: Break): string {
    match b
    case LF => "\n"
    case CR => "\r"
    case CRLF => "\r\n"
  }

  /** Lines with a break between each and the next. */
  function Woven(ls: seq<Line>, bs: seq<Break>): string
    requires |ls| == |bs| + 1
  {
    if bs == [] then ls[0] else ls[0] + BreakText(bs[0]) + Woven(ls[1..], bs[1..])
  }

  /** A lone CR does not meet an LF. */
  predicate Separate(ls: seq<Line>, bs: seq<Break>)
    requires |ls| == |bs| + 1
  {
    forall i :: 0 <= i < |bs| - 1 && bs[i] == CR && ls[i + 1] == "" ==> bs[i + 1] != LF
  }

  predicate Unbroken(ls: seq<Line>) {
    forall l :: l in ls ==> '\n' !in l && '\r' !in l
  }

  lemma {:induction false} NormalizePlain(x: string, s: string)
    requires '\r' !in x
    ensures Normalize(x + s) == x + Normalize(s)
  {
    if x == "" {
      assert x + s == s;
    } else {
      assert (x + s)[1..] == x[1..] + s && (x + s)[0] == x[0];
      NormalizePlain(x[1..], s);
      assert x == [x[0]] + x[1..];
    }
  }

  lemma NormalizeBreak(b: Break, s: string)
    requires b == CR && s != "" ==> s[0] != '\n'
    ensures Normalize(BreakText(b) + s) == "\n" + Normalize(s)
  {
    var t := BreakText(b) + s;
    if b == CRLF {
      assert t[0] == '\r' && t[1] == '\n' && t[2..] == s;
    } else {
      assert t[1..] == s;
      if b == CR && |t| > 1 { assert t[1] == s[0]; }
    }
  }

  lemma RestStarts(ls: seq<Line>, bs: seq<Break>)
    requires |ls| == |bs| + 1 && bs != [] && Unbroken(ls) && Separate(ls, bs)
    ensures var rest := Woven(ls[1..], bs[1..]);
      bs[0] == CR && rest != "" ==> rest[0] != '\n'
  {
    var rest := Woven(ls[1..], bs[1..]);
    assert ls[1] in ls && ls[1] == ls[1..][0];
    if ls[1] != "" {
      assert rest[0] == ls[1][0];
    } else if |bs| > 1 {
      assert bs[1..][0] == bs[1];
      assert rest == BreakText(bs[1]) + Woven(ls[1..][1..], bs[1..][1..]);
    }
  }

  lemma {:induction false} NormalizeWoven(ls: seq<Line>, bs: seq<Break>)
    requires |ls| == |bs| + 1 && Unbroken(ls) && Separate(ls, bs)
    ensures Normalize(Woven(ls, bs)) == Join(ls)
    decreases |bs|
  {
    if bs == [] {
      NormalizeHasNoCarriageReturn(ls[0]);
    } else {
      var rest := Woven(ls[1..], bs[1..]);
      NormalizeWoven(ls[1..], bs[1..]);
      RestStarts(ls, bs);
      NormalizeBreak(bs[0], rest);
      NormalizePlain(ls[0], BreakText(bs[0]) + rest);
      assert ls[0] + BreakText(bs[0]) + rest == ls[0] + (BreakText(bs[0]) + rest);
    }
  }

  /** The lines of a text are what stands between its line breaks, of whatever kind each is. */
  lemma LinesOfWoven(ls: seq<Line>, bs: seq<Break>)
    requires |ls| == |bs| + 1 && Unbroken(ls) && Separate(ls, bs)
    ensures Lines(Woven(ls, bs)) == ls
  {
    NormalizeWoven(ls, bs);
    SplitJoin(ls);
  }

  ghost predicate WovenOf(s: string, bs: seq<Break>) {
    |Lines(s)| == |bs| + 1 && Unbroken(Lines(s)) && Separate(Lines(s), bs) && Woven(Lines(s), bs) == s
  }

  lemma BreakInFront(b: Break, rest: string, tail: seq<Break>)
    requires WovenOf(rest, tail) && (b == CR && rest != "" ==> rest[0] != '\n')
    ensures WovenOf(BreakText(b) + rest, [b] + tail)
  {
    var s, bs := BreakText(b) + rest, [b] + tail;
    NormalizeBreak(b, rest);
    FirstLine(Normalize(rest));
    var ls := Lines(rest);
    hide Lines, Normalize;
    assert Lines(s) == [""] + ls && bs[1..] == tail && Lines(s)[1..] == ls;
    assert tail != [] ==> rest == ls[0] + BreakText(tail[0]) + Woven(ls[1..], tail[1..]);
    forall i | 0 <= i < |bs| - 1 && bs[i] == CR && Lines(s)[i + 1] == "" ensures bs[i + 1] != LF {
      if i > 0 { assert bs[i] == tail[i - 1] && Lines(s)[i + 1] == ls[i]; }
    }
  }

  lemma CharInFront(c: char, rest: string, bs: seq<Break>)
    requires WovenOf(rest, bs) && c != '\r' && c != '\n'
    ensures WovenOf([c] + rest, bs)
  {
    var ls := Lines(rest);
    NormalizePlain([c], rest);
    assert ([c] + Normalize(rest))[1..] == Normalize(rest);
    assert Lines([c] + rest) == [[c] + ls[0]] + ls[1..];
    hide Lines, Normalize, Split;
    LongerLine(c, ls, bs);
  }

  lemma LongerLine(c: char, ls: seq<Line>, bs: seq<Break>)
    requires |ls| == |bs| + 1 && Unbroken(ls) && Separate(ls, bs) && c != '\r' && c != '\n'
    ensures var all := [[c] + ls[0]] + ls[1..];
      Unbroken(all) && Separate(all, bs) && Woven(all, bs) == [c] + Woven(ls, bs)
  {
    var all := [[c] + ls[0]] + ls[1..];
    assert all[1..] == ls[1..] && ls[0] in ls;
    LongerWoven(c, ls, bs);
    hide Woven;
    assert forall l :: l in all ==> l == [c] + ls[0] || l in ls;
    assert forall i :: 1 <= i < |ls| ==> all[i] == ls[i];
  }

  lemma LongerWoven(c: char, ls: seq<Line>, bs: seq<Break>)
    requires |ls| == |bs| + 1
    ensures Woven([[c] + ls[0]] + ls[1..], bs) == [c] + Woven(ls, bs)
  {
    var all := [[c] + ls[0]] + ls[1..];
    if bs != [] {
      assert all[1..] == ls[1..];
      var rest := BreakText(bs[0]) + Woven(ls[1..], bs[1..]);
      assert Woven(ls, bs) == ls[0] + rest && Woven(all, bs) == [c] + ls[0] + rest;
    }
  }

  /** Every text is its lines with some line breaks between them. */
  lemma {:induction false} TextIsWoven(s: string) returns (bs: seq<Break>)
    ensures WovenOf(s, bs)
    decreases |s|
  {
    hide Woven;
    if s == "" {
      bs := [];
      EmptyIsWoven();
    } else if s[0] == '\r' || s[0] == '\n' {
      var b := if s[0] == '\n' then LF else if |s| > 1 && s[1] == '\n' then CRLF else CR;
      var rest := s[|BreakText(b)|..];
      assert s == BreakText(b) + rest;
      bs := TextIsWoven(rest);
      hide WovenOf;
      BreakInFront(b, rest, bs);
      bs := [b] + bs;
    } else {
      assert s == [s[0]] + s[1..];
      bs := TextIsWoven(s[1..]);
      hide WovenOf;
      CharInFront(s[0], s[1..], bs);
    }
  }

  lemma EmptyIsWoven()
    ensures WovenOf("", [])
  {
  }

  lemma FirstLine(s: string)
    ensures Split("\n" + s) == [""] + Split(s)
  {
    assert ("\n" + s)[1..] == s;
  }

  /******* Longest common subsequences *******/

  /** x can be obtained from y by deleting elements. */
  ghost predicate Subsequence(x: seq<Line>, y: seq<Line>) {
    x == [] ||
    (y != [] && ((x[0] == y[0] && Subsequence(x[1..], y[1..])) || Subsequence(x, y[1..])))
  }

  ghost predicate Common(x: seq<Line>, a: seq<Line>, b: seq<Line>) {
    Subsequence(x, a) && Subsequence(x, b)
  }

  ghost predicate IsLongest(n: int, a: seq<Line>, b: seq<Line>) {
    && (exists x :: Common(x, a, b) && |x| == n)
    && (forall x :: Common(x, a, b) ==> |x| <= n)
  }

  ghost function LcsLength(a: seq<Line>, b: seq<Line>): nat {
    if a == [] || b == [] then 0
    else if a[0] == b[0] then 1 + LcsLength(a[1..], b[1..])
    else
      var down, right := LcsLength(a[1..], b), LcsLength(a, b[1..]);
      if down >= right then down else right
  }

  lemma {:induction false} SubsequenceTail(x: seq<Line>, y: seq<Line>)
    requires x != [] && Subsequence(x, y)
    ensures Subsequence(x[1..], y)
    ensures y != [] && Subsequence(x[1..], y[1..])
  {
    if x[0] == y[0] && Subsequence(x[1..], y[1..]) {
      SubsequenceWeaken(x[1..], y);
    } else {
      SubsequenceTail(x, y[1..]);
      SubsequenceWeaken(x[1..], y);
    }
  }

  lemma SubsequenceWeaken(x: seq<Line>, y: seq<Line>)
    requires y != [] && Subsequence(x, y[1..])
    ensures Subsequence(x, y)
  {
  }

  lemma {:induction false} CommonBound(x: seq<Line>, a: seq<Line>, b: seq<Line>)
    requires Common(x, a, b)
    ensures |x| <= LcsLength(a, b)
    decreases |a| + |b|
  {
    if x != [] {
      if a[0] == b[0] {
        SubsequenceTail(x, a);
        SubsequenceTail(x, b);
        CommonBound(x[1..], a[1..], b[1..]);
      } else if Subsequence(x, a[1..]) {
        CommonBound(x, a[1..], b);
      } else {
        CommonBound(x, a, b[1..]);
      }
    }
  }

  lemma {:induction false} CommonWitness(a: seq<Line>, b: seq<Line>) returns (x: seq<Line>)
    ensures Common(x, a, b) && |x| == LcsLength(a, b)
    decreases |a| + |b|
  {
    if a == [] || b == [] {
      x := [];
    } else if a[0] == b[0] {
      var rest := CommonWitness(a[1..], b[1..]);
      x := [a[0]] + rest;
      assert x[1..] == rest;
    } else if LcsLength(a[1..], b) >= LcsLength(a, b[1..]) {
      x := CommonWitness(a[1..], b);
    } else {
      x := CommonWitness(a, b[1..]);
    }
  }

  lemma LcsLengthIsLongest(a: seq<Line>, b: seq<Line>)
    ensures IsLongest(LcsLength(a, b), a, b)
  {
    var w := CommonWitness(a, b);
    forall x | Common(x, a, b) ensures |x| <= LcsLength(a, b) { CommonBound(x, a, b); }
  }

  lemma {:induction false} LcsLengthBound(a: seq<Line>, b: seq<Line>)
    ensures LcsLength(a, b) <= |a| && LcsLength(a, b) <= |b|
    decreases |a| + |b|
  {
    if a != [] && b != [] {
      if a[0] == b[0] {
        LcsLengthBound(a[1..], b[1..]);
      } else {
        LcsLengthBound(a[1..], b);
        LcsLengthBound(a, b[1..]);
      }
    }
  }

  /** Fills the table backwards from its last row and column: each cell ends up holding the
      length of a longest common subsequence of the two suffixes it stands for. */
  method FillTable(before: seq<Line>, after: seq<Line>) returns (table: array2<uint32>)
    requires |before| * |after| <= MAX_LCS_CELLS && |before| >= 1 && |after| >= 1
    ensures fresh(table) && table.Length0 == |before| + 1 && table.Length1 == |after| + 1
    ensures forall i, j :: 0 <= i <= |before| && 0 <= j <= |after| ==>
      table[i, j] as int == LcsLength(before[i..], after[j..])
    ensures forall i, j :: 0 <= i <= |before| && 0 <= j <= |after| ==>
      IsLongest(table[i, j] as int, before[i..], after[j..])
  {
    var n, m := |before|, |after|;
    CellsBoundLines(n, m);
    table := new uint32[n + 1, m + 1]((i, j) => 0);
    var i := n - 1;
    while i >= 0
      invariant -1 <= i < n
      invariant forall p, q :: 0 <= p <= n && 0 <= q <= m && (i < p || q == m) ==>
        table[p, q] as int == LcsLength(before[p..], after[q..])
    {
      var j := m - 1;
      while j >= 0
        invariant -1 <= j < m
        invariant forall p, q :: 0 <= p <= n && 0 <= q <= m && (i < p || q == m || (p == i && j < q)) ==>
          table[p, q] as int == LcsLength(before[p..], after[q..])
      {
        CellStep(before, after, i, j);
        table[i, j] := if before[i] == after[j] then table[i + 1, j + 1] + 1
                       else if table[i + 1, j] >= table[i, j + 1] then table[i + 1, j]
                       else table[i, j + 1];
        j := j - 1;
      }
      i := i - 1;
    }
    forall p, q | 0 <= p <= n && 0 <= q <= m
      ensures IsLongest(table[p, q] as int, before[p..], after[q..])
    {
      LcsLengthIsLongest(before[p..], after[q..]);
    }
  }

  lemma CellsBoundLines(n: nat, m: nat)
    requires n >= 1 && m >= 1 && n * m <= MAX_LCS_CELLS
    ensures n <= MAX_LCS_CELLS && m <= MAX_LCS_CELLS
  {
    assert n * m >= n by { assert n * m == n + n * (m - 1); }
    assert n * m >= m by { assert n * m == m + (n - 1) * m; }
  }

  lemma CellStep(before: seq<Line>, after: seq<Line>, i: nat, j: nat)
    requires i < |before| && j < |after|
    ensures LcsLength(before[i..], after[j..]) ==
      if before[i] == after[j] then LcsLength(before[i + 1..], after[j + 1..]) + 1
      else if LcsLength(before[i + 1..], after[j..]) >= LcsLength(before[i..], after[j + 1..])
      then LcsLength(before[i + 1..], after[j..]) else LcsLength(before[i..], after[j + 1..])
    ensures LcsLength(before[i + 1..], after[j + 1..]) <= |before|
  {
    assert before[i..][1..] == before[i + 1..] && after[j..][1..] == after[j + 1..];
    LcsLengthBound(before[i + 1..], after[j + 1..]);
  }

  /******* The walk *******/

  /** What the walk emits from position (i, j) on. */
  ghost function EditScript(before: seq<Line>, after: seq<Line>, i: nat, j: nat): seq<Entry>
    requires i <= |before| && j <= |after|
    decreases |before| - i + |after| - j
  {
    if i == |before| && j == |after| then []
    else if i < |before| && j < |after| && before[i] == after[j] then
      [Context(before[i], i + 1, j + 1)] + EditScript(before, after, i + 1, j + 1)
    else if j == |after| || (i < |before| &&
            LcsLength(before[i + 1..], after[j..]) >= LcsLength(before[i..], after[j + 1..])) then
      [Removed(before[i], i + 1)] + EditScript(before, after, i + 1, j)
    else
      [Added(after[j], j + 1)] + EditScript(before, after, i, j + 1)
  }

  lemma Emit(output: seq<Entry>, before: seq<Line>, after: seq<Line>, i: nat, j: nat)
    requires i <= |before| && j <= |after| && (i < |before| || j < |after|)
    ensures var script := EditScript(before, after, i, j);
      script != [] && output + script == (output + [script[0]]) + script[1..]
  {
  }

  method Walk(before: seq<Line>, after: seq<Line>, table: array2<uint32>) returns (output: seq<Entry>)
    requires table.Length0 == |before| + 1 && table.Length1 == |after| + 1
    requires forall i, j :: 0 <= i <= |before| && 0 <= j <= |after| ==>
      table[i, j] as int == LcsLength(before[i..], after[j..])
    ensures output == EditScript(before, after, 0, 0)
  {
    output := [];
    var i, j := 0, 0;
    while i < |before| || j < |after|
      invariant 0 <= i <= |before| && 0 <= j <= |after|
      invariant output + EditScript(before, after, i, j) == EditScript(before, after, 0, 0)
      decreases |before| - i + |after| - j
    {
      if i < |before| && j < |after| && before[i] == after[j] {
        Emit(output, before, after, i, j);
        output := output + [Context(before[i], i + 1, j + 1)];
        i, j := i + 1, j + 1;
      } else if j >= |after| || (i < |before| && table[i + 1, j] >= table[i, j + 1]) {
        Emit(output, before, after, i, j);
        output := output + [Removed(before[i], i + 1)];
        i := i + 1;
      } else {
        Emit(output, before, after, i, j);
        output := output + [Added(after[j], j + 1)];
        j := j + 1;
      }
    }
  }

  /******* Edit scripts *******/

  ghost function OldSide(script: seq<Entry>): seq<Line> {
    if script == [] then []
    else (if script[0].Added? then [] else [script[0].text]) + OldSide(script[1..])
  }

  ghost function NewSide(script: seq<Entry>): seq<Line> {
    if script == [] then []
    else (if script[0].Removed? then [] else [script[0].text]) + NewSide(script[1..])
  }

  ghost function Kept(script: seq<Entry>): seq<Line> {
    if script == [] then []
    else (if script[0].Context? then [script[0].text] else []) + Kept(script[1..])
  }

  ghost predicate IsEditScript(script: seq<Entry>, before: seq<Line>, after: seq<Line>) {
    OldSide(script) == before && NewSide(script) == after
  }

  /** Entries carry consecutive line numbers, i + 1 onwards on the old side and j + 1 on the new. */
  ghost predicate Numbered(script: seq<Entry>, i: nat, j: nat) {
    script == [] ||
    match script[0]
    case Context(_, b, a) => b == i + 1 && a == j + 1 && Numbered(script[1..], i + 1, j + 1)
    case Removed(_, b) => b == i + 1 && Numbered(script[1..], i + 1, j)
    case Added(_, a) => a == j + 1 && Numbered(script[1..], i, j + 1)
  }

  /** Inside a changed block every removal comes before every addition. */
  ghost predicate RemovalsFirst(script: seq<Entry>) {
    forall k :: 0 <= k < |script| - 1 ==> !(script[k].Added? && script[k + 1].Removed?)
  }

  /** The lines a script keeps are common to both sides, and each kept line saves one entry. */
  lemma {:induction false} KeptIsCommon(script: seq<Entry>)
    ensures Common(Kept(script), OldSide(script), NewSide(script))
    ensures |script| + |Kept(script)| == |OldSide(script)| + |NewSide(script)|
  {
    if script != [] {
      KeptIsCommon(script[1..]);
      var k, o, n := Kept(script), OldSide(script), NewSide(script);
      var k', o', n' := Kept(script[1..]), OldSide(script[1..]), NewSide(script[1..]);
      match script[0]
      case Context(t, _, _) => assert k[1..] == k' && o[1..] == o' && n[1..] == n';
      case Removed(t, _) => assert k == k' && o[1..] == o' && n == n';
      case Added(t, _) => assert k == k' && o == o' && n[1..] == n';
    }
  }

  lemma {:induction false} WalkFrom(before: seq<Line>, after: seq<Line>, i: nat, j: nat)
    requires i <= |before| && j <= |after|
    ensures IsEditScript(EditScript(before, after, i, j), before[i..], after[j..])
    ensures Numbered(EditScript(before, after, i, j), i, j)
    ensures |Kept(EditScript(before, after, i, j))| == LcsLength(before[i..], after[j..])
    decreases |before| - i + |after| - j
  {
    var script := EditScript(before, after, i, j);
    if script != [] {
      var rest := script[1..];
      assert script == [script[0]] + rest;
      if i < |before| { assert before[i..] == [before[i]] + before[i + 1..]; }
      if j < |after| { assert after[j..] == [after[j]] + after[j + 1..]; }
      if i < |before| && j < |after| { CellStep(before, after, i, j); }
      match script[0]
      case Context(_, _, _) => WalkFrom(before, after, i + 1, j + 1);
      case Removed(_, _) => WalkFrom(before, after, i + 1, j);
      case Added(_, _) => WalkFrom(before, after, i, j + 1);
    }
  }

  /** The script reads back both texts line for line, numbers both sides from 1, and keeps as
      many lines as a longest common subsequence has. */
  lemma ScriptRoundTrip(before: seq<Line>, after: seq<Line>)
    ensures OldSide(EditScript(before, after, 0, 0)) == before
    ensures NewSide(EditScript(before, after, 0, 0)) == after
    ensures Numbered(EditScript(before, after, 0, 0), 0, 0)
    ensures IsLongest(|Kept(EditScript(before, after, 0, 0))|, before, after)
  {
    WalkFrom(before, after, 0, 0);
    assert before[0..] == before && after[0..] == after;
    LcsLengthIsLongest(before, after);
  }

  /** No edit script between the same two texts is shorter. */
  lemma ScriptIsMinimal(before: seq<Line>, after: seq<Line>, other: seq<Entry>)
    requires IsEditScript(other, before, after)
    ensures |EditScript(before, after, 0, 0)| <= |other|
  {
    ScriptRoundTrip(before, after);
    KeptIsCommon(EditScript(before, after, 0, 0));
    KeptIsCommon(other);
  }

  /** The tie rule of the walk puts the removals of every changed block first. */
  lemma {:induction false} ScriptRemovalsFirst(before: seq<Line>, after: seq<Line>, i: nat, j: nat)
    requires i <= |before| && j <= |after|
    ensures RemovalsFirst(EditScript(before, after, i, j))
    decreases |before| - i + |after| - j
  {
    var script := EditScript(before, after, i, j);
    if script != [] {
      var rest := script[1..];
      assert script == [script[0]] + rest;
      match script[0]
      case Context(_, _, _) => ScriptRemovalsFirst(before, after, i + 1, j + 1);
      case Removed(_, _) => ScriptRemovalsFirst(before, after, i + 1, j);
      case Added(_, _) =>
        ScriptRemovalsFirst(before, after, i, j + 1);
        assert rest == EditScript(before, after, i, j + 1);
        if rest != [] && rest[0].Removed? && j + 1 < |after| {
          CellStep(before, after, i, j + 1);
          LcsLengthMonotone(before[i + 1..], after[j..]);
          assert after[j..][1..] == after[j + 1..];
        }
    }
  }

  lemma {:induction false} LcsLengthMonotone(a: seq<Line>, b: seq<Line>)
    requires b != []
    ensures LcsLength(a, b[1..]) <= LcsLength(a, b)
  {
    var x := CommonWitness(a, b[1..]);
    SubsequenceWeaken(x, b);
    CommonBound(x, a, b);
  }

  lemma {:induction false} IdenticalScript(before: seq<Line>, i: nat)
    requires i <= |before|
    ensures forall e :: e in EditScript(before, before, i, i) ==> e.Context?
    decreases |before| - i
  {
    if i < |before| { IdenticalScript(before, i + 1); }
  }

  lemma {:induction false} ContextOnly(script: seq<Entry>)
    requires forall e :: e in script ==> e.Context?
    ensures OldSide(script) == NewSide(script)
  {
    if script != [] {
      assert script[0] in script;
      ContextOnly(script[1..]);
    }
  }

  /******* The comparison *******/

  predicate LineEndingsChanged(beforeText: string, afterText: string) {
    beforeText != afterText && Join(Lines(beforeText)) == Join(Lines(afterText))
  }

  method LineDiff(beforeText: string, afterText: string) returns (r: BodyDiff)
    ensures r.Fallback? <==> |Lines(beforeText)| * |Lines(afterText)| > 20_000
    ensures r.Fallback? ==> r.beforeText == beforeText && r.afterText == afterText
    ensures r.Script? ==> r.lines == EditScript(Lines(beforeText), Lines(afterText), 0, 0)
    ensures r.Script? ==>
      (r.lineEndingsChanged <==> beforeText != afterText && forall e :: e in r.lines ==> e.Context?)
    ensures r.lineEndingsChanged <==>
      beforeText != afterText && Normalize(beforeText) == Normalize(afterText)
    ensures r.beforeLineCount == |Lines(beforeText)| && r.afterLineCount == |Lines(afterText)|
  {
    var before, after := Lines(beforeText), Lines(afterText);
    JoinLines(beforeText, afterText);
    JoinLines(afterText, beforeText);
    if |before| * |after| > MAX_LCS_CELLS {
      return Fallback(beforeText, afterText, LineEndingsChanged(beforeText, afterText), |before|, |after|);
    }
    var table := FillTable(before, after);
    var output := Walk(before, after, table);
    EndingsMatchScript(beforeText, afterText);
    r := Script(output, LineEndingsChanged(beforeText, afterText), |before|, |after|);
  }

  /** The flag for a change of line endings holds exactly when the raw texts differ while the
      script shows no change; and the script's two sides join to the normalised texts. */
  lemma EndingsMatchScript(beforeText: string, afterText: string)
    ensures var script := EditScript(Lines(beforeText), Lines(afterText), 0, 0);
      && |OldSide(script)| >= 1 && Join(OldSide(script)) == Normalize(beforeText)
      && |NewSide(script)| >= 1 && Join(NewSide(script)) == Normalize(afterText)
      && (LineEndingsChanged(beforeText, afterText) <==>
          beforeText != afterText && forall e :: e in script ==> e.Context?)
  {
    var before, after := Lines(beforeText), Lines(afterText);
    var script := EditScript(before, after, 0, 0);
    JoinLines(beforeText, afterText);
    JoinLines(afterText, beforeText);
    ScriptRoundTrip(before, after);
    if before == after { IdenticalScript(before, 0); }
    if forall e :: e in script ==> e.Context? { ContextOnly(script); }
  }
}
