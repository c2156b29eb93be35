/** The string operations of Python on which the style fixers rest: stripping, tab expansion, and reading a
    text file as lines and writing the lines back. */
module PythonText {

  const TAB_SIZE: nat := 4

  /** The characters that `str.strip` removes. */
  predicate IsSpace(c: char) {
    var n := c as int;
    || 0x09 <= n <= 0x0d || 0x1c <= n <= 0x20 || n == 0x85 || n == 0xa0 || n == 0x1680
    || 0x2000 <= n <= 0x200a || n == 0x2028 || n == 0x2029 || n == 0x202f || n == 0x205f || n == 0x3000
  }

  /** Among the ASCII characters these are the blank, the control characters from tab to carriage return, and the
      four separators. */
  lemma AsciiSpaces(c: char)
    requires c as int < 128
    ensures IsSpace(c) <==> c == ' ' || '\t' <= c <= '\r' || c as int in {28, 29, 30, 31}
  {
  }

  predicate AllSpace(s: string) {
    forall c | c in s :: IsSpace(c)
  }

  function RStrip(s: string): string {
    if s != [] && IsSpace(s[|s| - 1]) then RStrip(s[..|s| - 1]) else s
  }

  function LStrip(s: string): string {
    if s != [] && IsSpace(s[0]) then LStrip(s[1..]) else s
  }

  function Strip(s: string): string {
    RStrip(LStrip(s))
  }

  function Spaces(n: nat): string {
    seq(n, _ => ' ')
  }

  /** The column after a character: a tab fills up to the next multiple of the tab size, and a line break
      starts again at column 0. */
  function NextColumn(col: nat, c: char): nat {
    if c == '\t' then col + TAB_SIZE - col % TAB_SIZE
    else if c == '\n' || c == '\r' then 0
    else col + 1
  }

  /** `str.expandtabs` from a column on. */
  function Expand(col: nat, s: string): string
    decreases |s|
  {
    if s == [] then []
    else (if s[0] == '\t' then Spaces(TAB_SIZE - col % TAB_SIZE) else [s[0]]) + Expand(NextColumn(col, s[0]), s[1..])
  }

  /** The column after the characters of s. */
  function Column(col: nat, s: string): nat
    decreases |s|
  {
    if s == [] then col else Column(NextColumn(col, s[0]), s[1..])
  }

  // ---- Stripping ----

  /** A string is its stripped form with white space after it. */
  lemma {:induction false} RStripSplits(s: string)
    ensures RStrip(s) <= s && AllSpace(s[|RStrip(s)|..])
    ensures RStrip(s) == [] || !IsSpace(RStrip(s)[|RStrip(s)| - 1])
  {
    if s != [] && IsSpace(s[|s| - 1]) {
      var k := |s| - 1;
      RStripSplits(s[..k]);
      var rest := s[..k][|RStrip(s)|..];
      assert s[|RStrip(s)|..] == rest + [s[k]];
    }
  }

  /** Stripping on the right ignores white space appended. */
  lemma {:induction false} RStripAppend(s: string, w: string)
    requires AllSpace(w)
    ensures RStrip(s + w) == RStrip(s)
  {
    if w == [] {
      assert s + w == s;
    } else {
      var k := |w| - 1;
      assert (s + w)[..|s + w| - 1] == s + w[..k];
      assert w[k] in w;
      RStripAppend(s, w[..k]);
    }
  }

  lemma {:induction false} LStripPrepend(w: string, s: string)
    requires AllSpace(w)
    ensures LStrip(w + s) == LStrip(s)
  {
    if w == [] {
      assert w + s == s;
    } else {
      assert w[0] in w;
      assert (w + s)[1..] == w[1..] + s;
      LStripPrepend(w[1..], s);
    }
  }

  lemma {:induction false} LStripSplits(s: string)
    ensures |LStrip(s)| <= |s| && s == s[..|s| - |LStrip(s)|] + LStrip(s) && AllSpace(s[..|s| - |LStrip(s)|])
    ensures LStrip(s) == [] || !IsSpace(LStrip(s)[0])
  {
    if s != [] && IsSpace(s[0]) {
      LStripSplits(s[1..]);
      var n := |s| - |LStrip(s)|;
      assert s[..n] == [s[0]] + s[1..][..n - 1];
    }
  }

  /** A string whose ends are not white space is its own stripped form, whatever white space surrounds it. */
  lemma StripSurrounded(before: string, g: string, after: string)
    requires AllSpace(before) && AllSpace(after)
    requires g != [] && !IsSpace(g[0]) && !IsSpace(g[|g| - 1])
    ensures Strip(before + g + after) == g
  {
    assert before + g + after == before + (g + after);
    LStripPrepend(before, g + after);
    RStripAppend(g, after);
  }

  /** What a string that strips to g looks like: white space around it, and none at its ends. */
  lemma StripSplits(s: string) returns (before: string, after: string)
    ensures s == before + Strip(s) + after && AllSpace(before) && AllSpace(after)
    ensures Strip(s) == [] || (!IsSpace(Strip(s)[0]) && !IsSpace(Strip(s)[|Strip(s)| - 1]))
  {
    hide LStrip, RStrip, IsSpace, AllSpace;
    var l := LStrip(s);
    LStripSplits(s);
    RStripSplits(l);
    before, after := s[..|s| - |l|], l[|RStrip(l)|..];
    assert l == RStrip(l) + after;
    assert before + l == before + RStrip(l) + after;
    assert RStrip(l) != [] ==> RStrip(l)[0] == l[0];
  }

  // ---- Tab expansion ----

  lemma {:induction false} ExpandConcat(col: nat, a: string, b: string)
    ensures Expand(col, a + b) == Expand(col, a) + Expand(Column(col, a), b)
    decreases |a|
  {
    if a == [] {
      assert a + b == b;
    } else {
      assert (a + b)[1..] == a[1..] + b;
      ExpandConcat(NextColumn(col, a[0]), a[1..], b);
    }
  }

  lemma {:induction false} ExpandNoTabs(col: nat, s: string)
    requires '\t' !in s
    ensures Expand(col, s) == s
    decreases |s|
  {
    if s != [] {
      assert s == [s[0]] + s[1..];
      ExpandNoTabs(NextColumn(col, s[0]), s[1..]);
    }
  }

  lemma {:induction false} ExpandLeavesNoTabs(col: nat, s: string)
    ensures '\t' !in Expand(col, s)
    decreases |s|
  {
    if s != [] {
      ExpandLeavesNoTabs(NextColumn(col, s[0]), s[1..]);
    }
  }

  lemma {:induction false} ExpandSpace(col: nat, w: string)
    requires AllSpace(w)
    ensures AllSpace(Expand(col, w))
    decreases |w|
  {
    if w != [] {
      assert w[0] in w;
      ExpandSpace(NextColumn(col, w[0]), w[1..]);
    }
  }

  lemma {:induction false} ColumnConcat(col: nat, a: string, b: string)
    ensures Column(col, a + b) == Column(Column(col, a), b)
    decreases |a|
  {
    if a == [] {
      assert a + b == b;
    } else {
      assert (a + b)[1..] == a[1..] + b;
      ColumnConcat(NextColumn(col, a[0]), a[1..], b);
    }
  }

  lemma {:induction false} ColumnOfSpaces(col: nat, n: nat)
    ensures Column(col, Spaces(n)) == col + n
    decreases n
  {
    if n > 0 {
      assert Spaces(n)[1..] == Spaces(n - 1);
      ColumnOfSpaces(col + 1, n - 1);
    }
  }

  /** What follows a piece of text stands in the same column after the tabs of the piece are expanded. */
  lemma {:induction false} ExpandKeepsColumns(col: nat, s: string)
    ensures Column(col, Expand(col, s)) == Column(col, s)
    decreases |s|
  {
    if s != [] {
      var next := NextColumn(col, s[0]);
      var head := if s[0] == '\t' then Spaces(TAB_SIZE - col % TAB_SIZE) else [s[0]];
      ColumnConcat(col, head, Expand(next, s[1..]));
      if s[0] == '\t' {
        ColumnOfSpaces(col, TAB_SIZE - col % TAB_SIZE);
      } else {
        assert [s[0]][1..] == [];
      }
      ExpandKeepsColumns(next, s[1..]);
    }
  }

  /** In a text without line breaks, the column after a prefix is the length of its expansion. */
  lemma ColumnIsLength(s: string)
    requires '\n' !in s && '\r' !in s
    ensures Column(0, s) == |Expand(0, s)|
  {
    ExpandKeepsColumns(0, s);
    ExpandAddsNoBreaks(0, s);
    ExpandLeavesNoTabs(0, s);
    ColumnNoTabs(0, Expand(0, s));
  }

  lemma {:induction false} ExpandAddsNoBreaks(col: nat, s: string)
    requires '\n' !in s && '\r' !in s
    ensures '\n' !in Expand(col, s) && '\r' !in Expand(col, s)
    decreases |s|
  {
    if s != [] {
      ExpandAddsNoBreaks(NextColumn(col, s[0]), s[1..]);
    }
  }

  lemma {:induction false} ColumnNoTabs(col: nat, s: string)
    requires '\t' !in s && '\n' !in s && '\r' !in s
    ensures Column(col, s) == col + |s|
    decreases |s|
  {
    if s != [] {
      ColumnNoTabs(col + 1, s[1..]);
    }
  }

  /** What stands for one character in the expanded text: each character but a tab is kept, and a tab becomes the
      blanks, at least one and at most four, that lead to the next multiple of four. */
  predicate IsCell(c: char, t: string, from: nat, to: nat) {
    && from < to <= |t|
    && if c == '\t' then to % 4 == 0 && to <= from + 4 && AllBlank(t[from..to]) else t[from..to] == [c]
  }

  /** Where the characters of a line stand in the expanded text. */
  ghost predicate IsTabLayout(l: string, t: string, starts: seq<nat>) {
    && |starts| == |l| + 1 && starts[0] == 0 && starts[|l|] == |t|
    && forall k | 0 <= k < |l| :: IsCell(l[k], t, starts[k], starts[k + 1])
  }

  predicate AllBlank(s: string) {
    forall c | c in s :: c == ' '
  }

  ghost predicate TabsExpanded(l: string, t: string) {
    exists starts :: IsTabLayout(l, t, starts)
  }

  /** The expanded text of a line is laid out with tab stops every four columns. */
  lemma ExpandedLayout(l: string)
    requires l == [] || ('\n' !in l[..|l| - 1] && '\r' !in l[..|l| - 1])
    ensures TabsExpanded(l, Expand(0, l))
  {
    var starts := LayoutOf(l);
  }

  lemma {:induction false} LayoutOf(l: string) returns (starts: seq<nat>)
    requires l == [] || ('\n' !in l[..|l| - 1] && '\r' !in l[..|l| - 1])
    ensures IsTabLayout(l, Expand(0, l), starts)
  {
    if l == [] {
      return [0];
    }
    var k := |l| - 1;
    var before := l[..k];
    assert before == [] || before[..|before| - 1] == l[..|before| - 1];
    var rest := LayoutOf(before);
    ColumnIsLength(before);
    assert l == before + [l[k]];
    ExpandConcat(0, before, [l[k]]);
    var piece := if l[k] == '\t' then Spaces(TAB_SIZE - Column(0, before) % TAB_SIZE) else [l[k]];
    assert Expand(Column(0, before), [l[k]]) == piece by {
      assert [l[k]][1..] == [];
    }
    starts := LayoutAppend(before, l[k], Expand(0, before), piece, rest);
  }

  lemma LayoutAppend(before: string, c: char, text: string, piece: string, rest: seq<nat>) returns (starts: seq<nat>)
    requires IsTabLayout(before, text, rest)
    requires piece == if c == '\t' then Spaces(TAB_SIZE - |text| % TAB_SIZE) else [c]
    ensures IsTabLayout(before + [c], text + piece, starts)
  {
    hide IsCell;
    var l, t := before + [c], text + piece;
    starts := rest + [|t|];
    LastCell(c, text, piece);
    forall k | 0 <= k < |l| ensures IsCell(l[k], t, starts[k], starts[k + 1]) {
      if k < |before| {
        CellKept(before[k], text, piece, rest[k], rest[k + 1]);
      }
    }
  }

  lemma CellKept(c: char, text: string, piece: string, from: nat, to: nat)
    requires IsCell(c, text, from, to)
    ensures IsCell(c, text + piece, from, to)
  {
    assert (text + piece)[from..to] == text[from..to];
  }

  lemma LastCell(c: char, text: string, piece: string)
    requires piece == if c == '\t' then Spaces(TAB_SIZE - |text| % TAB_SIZE) else [c]
    ensures IsCell(c, text + piece, |text|, |text + piece|)
  {
    assert (text + piece)[|text|..|text + piece|] == piece;
  }

  // ---- The text without its white space ----

  function Ink(s: string): string {
    if s == [] then [] else (if IsSpace(s[0]) then [] else [s[0]]) + Ink(s[1..])
  }

  lemma {:induction false} InkConcat(a: string, b: string)
    ensures Ink(a + b) == Ink(a) + Ink(b)
  {
    if a == [] {
      assert a + b == b;
    } else {
      assert (a + b)[1..] == a[1..] + b;
      InkConcat(a[1..], b);
    }
  }

  lemma {:induction false} InkOfSpace(w: string)
    requires AllSpace(w)
    ensures Ink(w) == []
  {
    if w != [] {
      assert w[0] in w;
      InkOfSpace(w[1..]);
    }
  }

  lemma {:induction false} ExpandKeepsInk(col: nat, s: string)
    ensures Ink(Expand(col, s)) == Ink(s)
    decreases |s|
  {
    if s != [] {
      var next := NextColumn(col, s[0]);
      var head := if s[0] == '\t' then Spaces(TAB_SIZE - col % TAB_SIZE) else [s[0]];
      InkConcat(head, Expand(next, s[1..]));
      ExpandKeepsInk(next, s[1..]);
      if s[0] == '\t' {
        InkOfSpace(head);
      } else {
        assert [s[0]][1..] == [];
      }
    }
  }

  lemma {:induction false} TranslateKeepsInk(s: string)
    ensures Ink(Translate(s)) == Ink(s)
    decreases |s|
  {
    if s != [] {
      var rest := if s[0] == '\r' && |s| > 1 && s[1] == '\n' then s[2..] else s[1..];
      TranslateKeepsInk(rest);
      var head := if s[0] == '\r' then '\n' else s[0];
      assert Translate(s) == [head] + Translate(rest) && ([head] + Translate(rest))[1..] == Translate(rest);
      assert s[1..] == if |rest| + 2 == |s| then [s[1]] + rest else rest;
      if |rest| + 2 == |s| {
        assert ([s[1]] + rest)[1..] == rest;
      }
    }
  }

  // ---- Files as lines ----

  /** Universal newlines: a carriage return, with or without a line feed after it, reads as a line feed. */
  function Translate(s: string): string {
    if s == [] then []
    else if s[0] == '\r' then ['\n'] + Translate(if |s| > 1 && s[1] == '\n' then s[2..] else s[1..])
    else [s[0]] + Translate(s[1..])
  }

  /** The position of the first line feed, or the length. */
  function NextBreak(s: string): (n: nat)
    ensures n <= |s| && '\n' !in s[..n] && (n < |s| ==> s[n] == '\n')
  {
    if s == [] || s[0] == '\n' then 0
    else
      var n := 1 + NextBreak(s[1..]);
      assert s[..n] == [s[0]] + s[1..][..n - 1];
      n
  }

  function SplitLines(s: string): seq<string> {
    if s == [] then []
    else
      var n := NextBreak(s);
      if n == |s| then [s] else [s[..n + 1]] + SplitLines(s[n + 1..])
  }

  function ReadLines(content: string): seq<string> {
    SplitLines(Translate(content))
  }

  function Join(lines: seq<string>): string {
    if lines == [] then [] else lines[0] + Join(lines[1..])
  }

  /** A non-empty line whose only line break, if any, is a line feed at its end. */
  predicate IsLine(l: string) {
    l != [] && '\r' !in l && '\n' !in l[..|l| - 1]
  }

  predicate EndsInBreak(l: string) {
    l != [] && l[|l| - 1] == '\n'
  }

  /** Lines as a file gives them: all but the last end in a line feed. */
  predicate AreLines(lines: seq<string>) {
    && (forall l | l in lines :: IsLine(l))
    && forall i | 0 <= i < |lines| - 1 :: EndsInBreak(lines[i])
  }

  lemma {:induction false} TranslateRemovesReturns(s: string)
    ensures '\r' !in Translate(s)
    decreases |s|
  {
    if s != [] {
      TranslateRemovesReturns(if s[0] == '\r' && |s| > 1 && s[1] == '\n' then s[2..] else s[1..]);
    }
  }

  /** A line break as a file may hold it. */
  predicate IsBreak(b: string) {
    b == "\n" || b == "\r" || b == "\r\n"
  }

  /** Each of the three line breaks reads as one line feed. A carriage return and the line feed that follows it
      are one break. */
  lemma {:induction false} BreaksRead(text: string, b: string, rest: string)
    requires '\n' !in text && '\r' !in text && IsBreak(b)
    requires b == "\r" ==> rest == [] || rest[0] != '\n'
    ensures Translate(text + b + rest) == text + "\n" + Translate(rest)
    decreases |text|
  {
    var s := text + b + rest;
    if text == [] {
      assert s == b + rest && s[0] == b[0];
      assert s[|b|..] == rest;
    } else {
      assert s[1..] == text[1..] + b + rest;
      BreaksRead(text[1..], b, rest);
    }
  }

  /** The first line of a file, up to and with its break, and the lines after it. */
  lemma ReadFirstLine(text: string, b: string, rest: string)
    requires '\n' !in text && '\r' !in text && IsBreak(b)
    requires b == "\r" ==> rest == [] || rest[0] != '\n'
    ensures ReadLines(text + b + rest) == [text + "\n"] + ReadLines(rest)
  {
    BreaksRead(text, b, rest);
    var s := text + "\n" + Translate(rest);
    assert s[..|text|] == text && s[..|text| + 1] == text + "\n" && s[|text| + 1..] == Translate(rest);
    BreakIsAt(s, |text|);
  }

  /** A file without a line break is one line, or none when it is empty. */
  lemma ReadLastLine(text: string)
    requires '\n' !in text && '\r' !in text
    ensures ReadLines(text) == if text == [] then [] else [text]
  {
    TranslateKeeps(text);
    assert text[..|text|] == text;
    BreakIsAt(text, |text|);
  }

  lemma {:induction false} TranslateKeeps(s: string)
    requires '\r' !in s
    ensures Translate(s) == s
  {
    if s != [] {
      TranslateKeeps(s[1..]);
      assert s == [s[0]] + s[1..];
    }
  }

  lemma {:induction false} SplitGivesLines(s: string)
    requires '\r' !in s
    ensures AreLines(SplitLines(s))
    decreases |s|
  {
    if s != [] {
      var n := NextBreak(s);
      if n < |s| {
        SplitGivesLines(s[n + 1..]);
        assert s[..n + 1][..n] == s[..n];
      } else {
        assert s[..n] == s;
        assert s[..n - 1] == s[..n][..n - 1];
      }
    }
  }

  lemma {:induction false} JoinSplit(s: string)
    ensures Join(SplitLines(s)) == s
    decreases |s|
  {
    if s != [] {
      var n := NextBreak(s);
      if n < |s| {
        JoinSplit(s[n + 1..]);
        assert SplitLines(s)[1..] == SplitLines(s[n + 1..]);
        assert s == s[..n + 1] + s[n + 1..];
      }
    }
  }

  lemma {:induction false} JoinKeepsInk(a: seq<string>, b: seq<string>)
    requires |a| == |b| && forall i | 0 <= i < |a| :: Ink(a[i]) == Ink(b[i])
    ensures Ink(Join(a)) == Ink(Join(b))
  {
    if a != [] {
      InkConcat(a[0], Join(a[1..]));
      InkConcat(b[0], Join(b[1..]));
      JoinKeepsInk(a[1..], b[1..]);
    }
  }

  lemma ReadKeepsInk(content: string)
    ensures Ink(Join(ReadLines(content))) == Ink(content)
  {
    JoinSplit(Translate(content));
    TranslateKeepsInk(content);
  }

  lemma ReadGivesLines(content: string)
    ensures AreLines(ReadLines(content))
  {
    TranslateRemovesReturns(content);
    SplitGivesLines(Translate(content));
  }

  lemma {:induction false} SplitJoin(lines: seq<string>)
    requires AreLines(lines)
    ensures '\r' !in Join(lines) && SplitLines(Join(lines)) == lines
  {
    if lines != [] {
      var l, rest := lines[0], lines[1..];
      assert l in lines && lines == [l] + rest;
      forall i | 0 <= i < |rest| - 1 ensures EndsInBreak(rest[i]) {
        assert rest[i] == lines[i + 1];
      }
      SplitJoin(rest);
      var text := l + Join(rest);
      assert text[..|l| - 1] == l[..|l| - 1] && text[..|l|] == l && text[|l|..] == Join(rest);
      if EndsInBreak(l) {
        BreakIsAt(text, |l| - 1);
      } else {
        assert l == l[..|l| - 1] + [l[|l| - 1]] && text == l;
        BreakIsAt(text, |l|);
      }
    }
  }

  lemma {:induction false} BreakIsAt(s: string, n: nat)
    requires n <= |s| && '\n' !in s[..n] && (n < |s| ==> s[n] == '\n')
    ensures NextBreak(s) == n
  {
    if n > 0 {
      assert s[..n] == [s[0]] + s[1..][..n - 1];
      BreakIsAt(s[1..], n - 1);
    }
  }

  /** Writing lines and reading the file back gives the same lines. */
  lemma ReadBackWritten(lines: seq<string>)
    requires AreLines(lines)
    ensures ReadLines(Join(lines)) == lines
  {
    SplitJoin(lines);
    TranslateKeeps(Join(lines));
  }
}
