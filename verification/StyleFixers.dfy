/** The trailing-whitespace and tab fixers of utils/check-style-clang-format.py. Files are their decoded text;
    a fixer reads the lines, repairs them in order and, in fix mode, writes them back when one had to change. */
module StyleFixers {
  import opened PythonText

  const GUARD_ON := "// clang-format on"
  const GUARD_OFF := "// clang-format off"

  // ---- Lines ----

  function TrimLine(l: string): string {
    RStrip(l) + "\n"
  }

  function TrimLines(lines: seq<string>): seq<string> {
    seq(|lines|, i requires 0 <= i < |lines| => TrimLine(lines[i]))
  }

  predicate IsGuard(l: string) {
    Strip(l) == GUARD_ON || Strip(l) == GUARD_OFF
  }

  /** Whether formatting is enabled from a line on. */
  function NextEnabled(enabled: bool, l: string): bool {
    if Strip(l) == GUARD_ON then true else if Strip(l) == GUARD_OFF then false else enabled
  }

  /** The guard state when line i is reached. */
  function EnabledAt(lines: seq<string>, i: nat): bool
    requires i <= |lines|
  {
    if i == 0 then true else NextEnabled(EnabledAt(lines, i - 1), lines[i - 1])
  }

  /** Whether the tab fixer looks at line i: guards are looked at, other lines only while enabled. */
  predicate Looked(lines: seq<string>, i: nat)
    requires i < |lines|
  {
    NextEnabled(EnabledAt(lines, i), lines[i]) || IsGuard(lines[i])
  }

  function ExpandLine(lines: seq<string>, i: nat): string
    requires i < |lines|
  {
    if Looked(lines, i) then Expand(0, lines[i]) else lines[i]
  }

  function ExpandLines(lines: seq<string>): seq<string> {
    seq(|lines|, i requires 0 <= i < |lines| => ExpandLine(lines, i))
  }

  /** A line ends in a line feed, and is that alone or has no white space before it. */
  predicate EndsClean(l: string) {
    l != [] && l[|l| - 1] == '\n' && (|l| == 1 || !IsSpace(l[|l| - 2]))
  }

  /** No line has white space at its end, and the last one ends in a line feed. */
  ghost predicate IsTrimmed(lines: seq<string>) {
    forall i | 0 <= i < |lines| :: EndsClean(lines[i])
  }

  /** What trimming makes of a line: a beginning of it, from which only white space was cut, and a line feed. */
  ghost predicate Trims(l: string, t: string) {
    EndsClean(t) && t[..|t| - 1] <= l && AllSpace(l[|t| - 1..])
  }

  /** Formatting is on when a line is reached: every guard that switches it off is followed, before that line, by one
      that switches it on. */
  ghost predicate IsOn(lines: seq<string>, i: nat)
    requires i <= |lines|
  {
    forall j | 0 <= j < i && Strip(lines[j]) == GUARD_OFF :: exists k :: j < k < i && Strip(lines[k]) == GUARD_ON
  }

  /** The lines that must be free of tabs: the guards, and the lines at which formatting is on. */
  ghost predicate MustBeFree(lines: seq<string>, i: nat)
    requires i < |lines|
  {
    IsGuard(lines[i]) || IsOn(lines, i)
  }

  ghost predicate IsTabFree(lines: seq<string>) {
    forall i | 0 <= i < |lines| && MustBeFree(lines, i) :: '\t' !in lines[i]
  }

  /** The lines that must be free of tabs have them expanded, and the others are as they were. */
  ghost predicate Expands(lines: seq<string>, fixedLines: seq<string>) {
    && |fixedLines| == |lines|
    && forall i | 0 <= i < |lines| ::
      if MustBeFree(lines, i) then TabsExpanded(lines[i], fixedLines[i]) else fixedLines[i] == lines[i]
  }

  // ---- The fixers' view of a line and what it means ----

  lemma TrimLineTrims(l: string)
    ensures Trims(l, TrimLine(l))
    ensures TrimLine(l) == l <==> EndsClean(l)
  {
    hide RStrip, IsSpace;
    RStripSplits(l);
    BreakIsSpace();
    var t := TrimLine(l);
    assert t[..|t| - 1] == RStrip(l);
    if EndsClean(l) {
      var r := l[..|l| - 1];
      assert l == r + "\n";
      RStripAppend(r, "\n");
      RStripKeeps(r);
    }
  }

  lemma RStripKeeps(r: string)
    requires r == [] || !IsSpace(r[|r| - 1])
    ensures RStrip(r) == r
  {
  }

  lemma BreakIsSpace()
    ensures AllSpace("\n")
  {
  }

  lemma IsTrimmedIff(lines: seq<string>)
    ensures IsTrimmed(lines) <==> forall i | 0 <= i < |lines| :: TrimLine(lines[i]) == lines[i]
  {
    hide TrimLine, EndsClean;
    forall i | 0 <= i < |lines| ensures TrimLine(lines[i]) == lines[i] <==> EndsClean(lines[i]) {
      TrimLineTrims(lines[i]);
    }
  }

  lemma {:induction false} EnabledIff(lines: seq<string>, i: nat)
    requires i <= |lines|
    ensures EnabledAt(lines, i) <==> IsOn(lines, i)
  {
    hide Strip;
    if i > 0 {
      var k := i - 1;
      EnabledIff(lines, k);
      assert GUARD_ON != GUARD_OFF;
      if Strip(lines[k]) == GUARD_OFF {
        assert !IsOn(lines, i);
      } else if IsOn(lines, k) || Strip(lines[k]) == GUARD_ON {
        forall j | 0 <= j < i && Strip(lines[j]) == GUARD_OFF
          ensures exists h :: j < h < i && Strip(lines[h]) == GUARD_ON
        {
          if Strip(lines[k]) == GUARD_ON {
            assert j < k < i;
          } else {
            var h :| j < h < k && Strip(lines[h]) == GUARD_ON;
            assert h < i;
          }
        }
      } else {
        var j :| 0 <= j < k && Strip(lines[j]) == GUARD_OFF && forall h | j < h < k :: Strip(lines[h]) != GUARD_ON;
        assert forall h | j < h < i :: Strip(lines[h]) != GUARD_ON;
      }
    }
  }

  lemma LookedIff(lines: seq<string>, i: nat)
    requires i < |lines|
    ensures Looked(lines, i) <==> MustBeFree(lines, i)
  {
    hide Strip;
    EnabledIff(lines, i);
  }

  lemma IsTabFreeIff(lines: seq<string>)
    ensures IsTabFree(lines) <==> forall i | 0 <= i < |lines| && Looked(lines, i) :: '\t' !in lines[i]
  {
    hide Looked, MustBeFree;
    forall i | 0 <= i < |lines| ensures Looked(lines, i) <==> MustBeFree(lines, i) {
      LookedIff(lines, i);
    }
  }

  lemma ExpandLineIs(lines: seq<string>, i: nat)
    requires i < |lines|
    ensures Looked(lines, i) <==> NextEnabled(EnabledAt(lines, i), lines[i]) || IsGuard(lines[i])
    ensures ExpandLine(lines, i) == if Looked(lines, i) && '\t' in lines[i] then Expand(0, lines[i]) else lines[i]
  {
    if '\t' !in lines[i] {
      ExpandNoTabs(0, lines[i]);
    }
  }

  /** Expanding the lines that are looked at is what the description asks for. */
  lemma ExpandLinesExpands(lines: seq<string>)
    requires AreLines(lines)
    ensures Expands(lines, ExpandLines(lines))
  {
    hide Looked, MustBeFree, Expand, TabsExpanded;
    forall i | 0 <= i < |lines|
      ensures if MustBeFree(lines, i) then TabsExpanded(lines[i], ExpandLines(lines)[i])
              else ExpandLines(lines)[i] == lines[i]
    {
      LookedIff(lines, i);
      assert lines[i] in lines && '\r' !in lines[i][..|lines[i]| - 1];
      ExpandedLayout(lines[i]);
    }
  }

  // ---- Fixing files ----

  ghost function TrimFile(content: string): string {
    if IsTrimmed(ReadLines(content)) then content else Join(TrimLines(ReadLines(content)))
  }

  ghost function ExpandFile(content: string): string {
    if IsTabFree(ReadLines(content)) then content else Join(ExpandLines(ReadLines(content)))
  }

  /** The file is compliant when no line has white space at its end; in fix mode any other file is written anew with
      the white space cut from each line. */
  method CheckTrailingWhitespaceFile(content: string, fix: bool, verbose: bool)
    returns (written: string, isFileCompliant: bool)
    ensures isFileCompliant <==> IsTrimmed(ReadLines(content))
    ensures !fix || isFileCompliant ==> written == content
    ensures fix && !isFileCompliant ==>
              var lines, fixedLines := ReadLines(content), ReadLines(written);
              && written == Join(fixedLines) && |fixedLines| == |lines|
              && forall i | 0 <= i < |lines| :: Trims(lines[i], fixedLines[i])
    ensures written == if fix then TrimFile(content) else content
  {
    hide ReadLines, TrimLine, Join, Trims, IsTrimmed;
    IsTrimmedIff(ReadLines(content));
    isFileCompliant := true;
    var lines := ReadLines(content);
    var fileLines := lines;
    for i := 0 to |lines|
      invariant |fileLines| == |lines|
      invariant isFileCompliant <==> forall j | 0 <= j < i :: TrimLine(lines[j]) == lines[j]
      invariant forall j | 0 <= j < |lines| :: fileLines[j] == if j < i then TrimLine(lines[j]) else lines[j]
      invariant fix || verbose || isFileCompliant
    {
      var lineFixed := TrimLine(lines[i]);
      if lineFixed == lines[i] {
        continue;
      }
      isFileCompliant := false;
      fileLines := fileLines[i := lineFixed];
      if !fix && !verbose {
        return content, false;
      }
    }
    written := content;
    if fix && !isFileCompliant {
      assert fileLines == TrimLines(lines);
      written := Join(fileLines);
      WrittenTrims(content);
    }
  }

  /** The file is compliant when no line that must be free of tabs holds one; in fix mode any other file is written
      anew with these lines expanded. */
  method CheckTabsFile(content: string, fix: bool, verbose: bool) returns (written: string, isFileCompliant: bool)
    ensures isFileCompliant <==> IsTabFree(ReadLines(content))
    ensures !fix || isFileCompliant ==> written == content
    ensures fix && !isFileCompliant ==>
              written == Join(ReadLines(written)) && Expands(ReadLines(content), ReadLines(written))
    ensures written == if fix then ExpandFile(content) else content
  {
    hide ReadLines, Strip, Expand, Join, IsTabFree, MustBeFree, Expands, ExpandLine, Looked;
    IsTabFreeIff(ReadLines(content));
    isFileCompliant := true;
    var clangFormatEnabled := true;
    var lines := ReadLines(content);
    var fileLines := lines;
    for i := 0 to |lines|
      invariant |fileLines| == |lines|
      invariant clangFormatEnabled == EnabledAt(lines, i)
      invariant isFileCompliant <==> forall j | 0 <= j < i && Looked(lines, j) :: '\t' !in lines[j]
      invariant forall j | 0 <= j < |lines| :: fileLines[j] == if j < i then ExpandLine(lines, j) else lines[j]
      invariant fix || verbose || isFileCompliant
    {
      var lineStripped := Strip(lines[i]);
      if lineStripped == GUARD_ON {
        clangFormatEnabled := true;
      } else if lineStripped == GUARD_OFF {
        clangFormatEnabled := false;
      }
      ExpandLineIs(lines, i);
      if !clangFormatEnabled && lineStripped != GUARD_ON && lineStripped != GUARD_OFF {
        continue;
      }
      if '\t' !in lines[i] {
        continue;
      }
      isFileCompliant := false;
      fileLines := fileLines[i := Expand(0, lines[i])];
      if !fix && !verbose {
        return content, false;
      }
    }
    written := content;
    if fix && !isFileCompliant {
      assert fileLines == ExpandLines(lines);
      written := Join(fileLines);
      WrittenExpands(content);
    }
  }

  // ---- What the fixers keep of a line ----

  lemma TrimLineKeeps(l: string)
    requires IsLine(l)
    ensures IsLine(TrimLine(l)) && EndsInBreak(TrimLine(l))
    ensures Strip(TrimLine(l)) == Strip(l)
    ensures TrimLine(TrimLine(l)) == TrimLine(l)
  {
    hide IsLine, EndsInBreak, TrimLine, Strip;
    TrimIsLine(l);
    TrimKeepsText(l);
  }

  lemma TrimIsLine(l: string)
    requires IsLine(l)
    ensures IsLine(TrimLine(l)) && EndsInBreak(TrimLine(l))
  {
    hide RStrip, AllSpace;
    RStripSplits(l);
    var r := RStrip(l);
    assert IsSpace('\n');
    forall i | 0 <= i < |r| ensures r[i] != '\n' && r[i] != '\r' {
      assert r[i] == l[i];
      if i < |l| - 1 {
        assert l[..|l| - 1][i] == l[i];
      }
    }
    assert TrimLine(l)[..|r|] == r;
  }

  lemma TrimKeepsText(l: string)
    ensures Strip(TrimLine(l)) == Strip(l)
    ensures TrimLine(TrimLine(l)) == TrimLine(l)
  {
    hide RStrip, Strip, IsSpace;
    RStripSplits(l);
    BreakIsSpace();
    var r, w := RStrip(l), l[|RStrip(l)|..];
    assert r + w == l;
    RStripAppend(r, "\n");
    RStripAppend(r, w);
    StripAppend(r, "\n");
    StripAppend(r, w);
  }

  lemma {:induction false} StripAppend(s: string, w: string)
    requires AllSpace(w)
    ensures Strip(s + w) == Strip(s)
  {
    if s == [] {
      assert s + w == w + [];
      LStripPrepend(w, []);
    } else if IsSpace(s[0]) {
      assert (s + w)[1..] == s[1..] + w;
      StripAppend(s[1..], w);
    } else {
      RStripAppend(s, w);
    }
  }

  lemma ExpandKeepsLine(l: string)
    requires IsLine(l)
    ensures IsLine(Expand(0, l)) && (EndsInBreak(l) ==> EndsInBreak(Expand(0, l)))
  {
    var k := |l| - 1;
    assert l == l[..k] + [l[k]];
    ExpandConcat(0, l[..k], [l[k]]);
    ExpandAddsNoBreaks(0, l[..k]);
    var last := Expand(Column(0, l[..k]), [l[k]]);
    assert last == if l[k] == '\t' then Spaces(TAB_SIZE - Column(0, l[..k]) % TAB_SIZE) else [l[k]] by {
      assert [l[k]][1..] == [];
    }
    var all := Expand(0, l[..k]) + last;
    assert all[..|all| - 1] == Expand(0, l[..k]) + last[..|last| - 1];
  }

  lemma ExpandKeepsMiddle(before: string, g: string, after: string)
    requires AllSpace(before) && AllSpace(after)
    requires '\t' !in g && g != [] && !IsSpace(g[0]) && !IsSpace(g[|g| - 1])
    ensures Strip(Expand(0, before + g + after)) == g
  {
    ExpandConcat(0, before + g, after);
    ExpandConcat(0, before, g);
    ExpandNoTabs(Column(0, before), g);
    ExpandSpace(0, before);
    ExpandSpace(Column(0, before + g), after);
    StripSurrounded(Expand(0, before), g, Expand(Column(0, before + g), after));
  }

  lemma GuardText(g: string)
    requires g == GUARD_ON || g == GUARD_OFF
    ensures '\t' !in g && g != [] && !IsSpace(g[0]) && !IsSpace(g[|g| - 1])
  {
  }

  /** A guard line stays the guard it is when its tabs are expanded. */
  lemma ExpandKeepsGuard(l: string)
    requires IsGuard(l)
    ensures Strip(Expand(0, l)) == Strip(l)
  {
    hide Strip, Expand;
    var before, after := StripSplits(l);
    GuardText(Strip(l));
    ExpandKeepsMiddle(before, Strip(l), after);
  }

  // ---- The tab fixer is idempotent ----

  /** Where the first pass was disabled, the second pass is disabled: expansion can make new guards, but only
      among lines that were enabled. */
  lemma {:induction false} DisabledStaysDisabled(lines: seq<string>, i: nat)
    requires i <= |lines|
    ensures EnabledAt(ExpandLines(lines), i) ==> EnabledAt(lines, i)
  {
    hide Strip, Expand;
    if i > 0 {
      DisabledStaysDisabled(lines, i - 1);
      if IsGuard(lines[i - 1]) {
        ExpandKeepsGuard(lines[i - 1]);
      }
      assert GUARD_ON != GUARD_OFF;
    }
  }

  lemma ExpandedIsTabFree(lines: seq<string>)
    ensures IsTabFree(ExpandLines(lines))
  {
    hide Strip, Expand, IsTabFree;
    var t := ExpandLines(lines);
    IsTabFreeIff(t);
    forall i | 0 <= i < |t| && Looked(t, i) ensures '\t' !in t[i] {
      if Looked(lines, i) {
        ExpandLeavesNoTabs(0, lines[i]);
      } else {
        DisabledStaysDisabled(lines, i);
        assert false;
      }
    }
  }

  /** The file is compliant exactly when expansion would change no line. */
  lemma TabFreeIsUnchanged(lines: seq<string>)
    ensures IsTabFree(lines) <==> ExpandLines(lines) == lines
  {
    hide Strip, Expand, IsTabFree;
    var t := ExpandLines(lines);
    IsTabFreeIff(lines);
    if IsTabFree(lines) {
      forall i | 0 <= i < |lines| ensures t[i] == lines[i] {
        if Looked(lines, i) {
          ExpandNoTabs(0, lines[i]);
        }
      }
    } else if t == lines {
      ExpandedIsTabFree(lines);
      assert false;
    }
  }

  lemma TrimmedIsUnchanged(lines: seq<string>)
    ensures IsTrimmed(lines) <==> TrimLines(lines) == lines
  {
    hide TrimLine, IsTrimmed;
    IsTrimmedIff(lines);
    if TrimLines(lines) == lines {
      forall i | 0 <= i < |lines| ensures TrimLine(lines[i]) == lines[i] {
        assert TrimLines(lines)[i] == lines[i];
      }
    }
  }

  lemma ExpandedAreLines(lines: seq<string>)
    requires AreLines(lines)
    ensures AreLines(ExpandLines(lines))
  {
    hide Strip, Expand, IsLine, EndsInBreak;
    forall i | 0 <= i < |lines|
      ensures IsLine(ExpandLine(lines, i)) && (EndsInBreak(lines[i]) ==> EndsInBreak(ExpandLine(lines, i)))
    {
      assert lines[i] in lines;
      ExpandKeepsLine(lines[i]);
    }
  }

  lemma TrimmedAreLines(lines: seq<string>)
    requires AreLines(lines)
    ensures AreLines(TrimLines(lines)) && IsTrimmed(TrimLines(lines))
  {
    hide TrimLine, IsLine, EndsInBreak, IsTrimmed;
    IsTrimmedIff(TrimLines(lines));
    forall i | 0 <= i < |lines|
      ensures IsLine(TrimLine(lines[i])) && EndsInBreak(TrimLine(lines[i]))
      ensures TrimLine(TrimLine(lines[i])) == TrimLine(lines[i])
    {
      assert lines[i] in lines;
      TrimLineKeeps(lines[i]);
    }
  }

  lemma ReadExpanded(content: string)
    ensures ReadLines(ExpandFile(content)) == ExpandLines(ReadLines(content))
    ensures AreLines(ReadLines(content))
  {
    hide IsTabFree, ExpandLines, ReadLines, AreLines;
    ReadGivesLines(content);
    TabFreeIsUnchanged(ReadLines(content));
    ExpandedAreLines(ReadLines(content));
    ReadBackWritten(ExpandLines(ReadLines(content)));
  }

  lemma ReadTrimmed(content: string)
    ensures ReadLines(TrimFile(content)) == TrimLines(ReadLines(content))
    ensures AreLines(ReadLines(content))
  {
    hide ReadLines, AreLines, IsTrimmed;
    ReadGivesLines(content);
    IsTrimmedIff(ReadLines(content));
    TrimmedAreLines(ReadLines(content));
    ReadBackWritten(TrimLines(ReadLines(content)));
  }

  /** What is written for a file that is not compliant. */
  lemma WrittenTrims(content: string)
    requires !IsTrimmed(ReadLines(content))
    ensures var lines, fixedLines := ReadLines(content), ReadLines(TrimFile(content));
            && TrimFile(content) == Join(fixedLines) && |fixedLines| == |lines|
            && forall i | 0 <= i < |lines| :: Trims(lines[i], fixedLines[i])
  {
    hide IsTrimmed, ReadLines, Join, TrimLine, Trims;
    ReadTrimmed(content);
    forall i | 0 <= i < |ReadLines(content)| ensures Trims(ReadLines(content)[i], TrimLine(ReadLines(content)[i])) {
      TrimLineTrims(ReadLines(content)[i]);
    }
  }

  lemma WrittenExpands(content: string)
    requires !IsTabFree(ReadLines(content))
    ensures var fixedLines := ReadLines(ExpandFile(content));
            ExpandFile(content) == Join(fixedLines) && Expands(ReadLines(content), fixedLines)
  {
    hide IsTabFree, ReadLines, Join, ExpandLines, Expands;
    ReadExpanded(content);
    ExpandLinesExpands(ReadLines(content));
  }

  /** A second run of the tab fixer reports the file compliant and leaves it as it is. */
  lemma TabFixerIdempotent(content: string)
    ensures IsTabFree(ReadLines(ExpandFile(content)))
    ensures ExpandFile(ExpandFile(content)) == ExpandFile(content)
  {
    hide IsTabFree, ReadLines, ExpandLines;
    ReadExpanded(content);
    ExpandedIsTabFree(ReadLines(content));
  }

  /** So does a second run of the whitespace fixer. */
  lemma WhitespaceFixerIdempotent(content: string)
    ensures IsTrimmed(ReadLines(TrimFile(content)))
    ensures TrimFile(TrimFile(content)) == TrimFile(content)
  {
    hide IsTrimmed, ReadLines, TrimLines;
    ReadTrimmed(content);
    TrimmedAreLines(ReadLines(content));
  }

  // ---- The two fixers together ----

  /** On one line, trimming and expanding can be exchanged. */
  lemma TrimExpandLine(l: string)
    requires IsLine(l)
    ensures TrimLine(Expand(0, l)) == Expand(0, TrimLine(l))
  {
    hide Expand, RStrip, IsLine;
    RStripSplits(l);
    var r, w := RStrip(l), l[|RStrip(l)|..];
    assert l == r + w;
    ExpandConcat(0, r, w);
    ExpandSpace(Column(0, r), w);
    RStripAppend(Expand(0, r), Expand(Column(0, r), w));
    ExpandConcat(0, r, "\n");
    ExpandNoTabs(Column(0, r), "\n");
    ExpandKeepsEnd(r);
  }

  /** A string that does not end in white space still does not when expanded. */
  lemma ExpandKeepsEnd(r: string)
    requires r == [] || !IsSpace(r[|r| - 1])
    ensures RStrip(Expand(0, r)) == Expand(0, r)
  {
    if r != [] {
      hide Expand, RStrip, IsSpace, Column;
      var before, c := r[..|r| - 1], r[|r| - 1];
      assert r == before + [c];
      TabIsSpace();
      ExpandConcat(0, before, [c]);
      ExpandNoTabs(Column(0, before), [c]);
      NothingToStrip(Expand(0, before), c);
    }
  }

  lemma TabIsSpace()
    ensures IsSpace('\t')
  {
  }

  lemma NothingToStrip(s: string, c: char)
    requires !IsSpace(c)
    ensures RStrip(s + [c]) == s + [c]
  {
  }

  lemma {:induction false} TrimKeepsGuards(lines: seq<string>, i: nat)
    requires AreLines(lines) && i <= |lines|
    ensures EnabledAt(TrimLines(lines), i) == EnabledAt(lines, i)
    ensures i < |lines| ==> Looked(TrimLines(lines), i) == Looked(lines, i)
  {
    hide Strip, TrimLine, IsLine;
    if i > 0 {
      TrimKeepsGuards(lines, i - 1);
      assert lines[i - 1] in lines;
      TrimLineKeeps(lines[i - 1]);
    }
    if i < |lines| {
      assert lines[i] in lines;
      TrimLineKeeps(lines[i]);
    }
  }

  lemma TrimExpandLines(lines: seq<string>)
    requires AreLines(lines)
    ensures TrimLines(ExpandLines(lines)) == ExpandLines(TrimLines(lines))
  {
    hide Looked, TrimLine, IsLine, Expand;
    forall i | 0 <= i < |lines| ensures TrimLines(ExpandLines(lines))[i] == ExpandLines(TrimLines(lines))[i] {
      assert lines[i] in lines;
      TrimKeepsGuards(lines, i);
      TrimExpandLine(lines[i]);
    }
  }

  /** The order of the two fixers does not matter: both orders write the same file. */
  lemma FixersCommute(content: string)
    ensures TrimFile(ExpandFile(content)) == ExpandFile(TrimFile(content))
  {
    hide IsTabFree, IsTrimmed, ReadLines, ExpandLines, TrimLines, AreLines, Join;
    var lines := ReadLines(content);
    ReadExpanded(content);
    ReadTrimmed(content);
    TrimExpandLines(lines);
    TabFreeIsUnchanged(lines);
    TabFreeIsUnchanged(TrimLines(lines));
    ExpandedIsTabFree(TrimLines(lines));
    TrimmedAreLines(lines);
    ExpandedAreLines(lines);
    TrimmedAreLines(ExpandLines(lines));
    TrimmedIsUnchanged(lines);
    TrimmedIsUnchanged(ExpandLines(lines));
  }

  /** Running the whitespace fixer and then the tab fixer reaches a fixed point of both: reading the file
      back, each reports it compliant and changes nothing. */
  lemma FixersReachCommonFixedPoint(content: string)
    ensures var fixed := ExpandFile(TrimFile(content));
            && IsTrimmed(ReadLines(fixed)) && IsTabFree(ReadLines(fixed))
            && TrimFile(fixed) == fixed && ExpandFile(fixed) == fixed
  {
    hide IsTabFree, IsTrimmed, ReadLines;
    TabFixerIdempotent(TrimFile(content));
    WhitespaceFixerIdempotent(ExpandFile(content));
    FixersCommute(content);
  }

  const TABBED_GUARD := "// clang-format\toff"

  lemma GuardTexts()
    ensures Strip("// clang-format off\n") == GUARD_OFF && Strip("// clang-format on\n") == GUARD_ON
    ensures GUARD_OFF != GUARD_ON && '\t' !in GUARD_OFF && '\t' !in GUARD_ON
  {
    hide Strip;
    assert "" + GUARD_OFF + "\n" == "// clang-format off\n" && "" + GUARD_ON + "\n" == "// clang-format on\n";
    StripSurrounded("", GUARD_OFF, "\n");
    StripSurrounded("", GUARD_ON, "\n");
    assert |GUARD_OFF| != |GUARD_ON|;
  }

  lemma TabbedText()
    ensures Strip("\tx;\n") == "x;" && Expand(0, "\tx;\n") == "    x;\n"
    ensures !IsGuard("\tx;\n")
  {
    hide Strip, Expand;
    assert "\t" + "x;" + "\n" == "\tx;\n" && "\t" + "x;\n" == "\tx;\n";
    StripSurrounded("\t", "x;", "\n");
    ExpandConcat(0, "\t", "x;\n");
    ExpandNoTabs(Column(0, "\t"), "x;\n");
    OneTab(0);
    assert |"x;"| != |GUARD_ON| && |"x;"| != |GUARD_OFF|;
  }

  /** A guard that switches formatting on again ends the region: the tab inside it stays and the tab after it is
      expanded. */
  lemma OnGuardEndsRegion()
    ensures var lines := ["// clang-format off\n", "\tx;\n", "// clang-format on\n", "\tx;\n"];
            && !MustBeFree(lines, 1) && MustBeFree(lines, 3)
            && ExpandLine(lines, 1) == "\tx;\n" && ExpandLine(lines, 3) == "    x;\n"
  {
    var lines := ["// clang-format off\n", "\tx;\n", "// clang-format on\n", "\tx;\n"];
    GuardTexts();
    TabbedText();
    hide Strip, Expand;
    assert EnabledAt(lines, 0) && !EnabledAt(lines, 1);
    assert !EnabledAt(lines, 2);
    assert EnabledAt(lines, 3);
    LookedIff(lines, 1);
    LookedIff(lines, 3);
  }

  lemma TabbedGuardIsNoGuard()
    ensures Strip(TABBED_GUARD + "\n") == TABBED_GUARD && TABBED_GUARD != GUARD_ON && TABBED_GUARD != GUARD_OFF
  {
    assert "" + TABBED_GUARD + "\n" == TABBED_GUARD + "\n";
    StripSurrounded("", TABBED_GUARD, "\n");
    assert TABBED_GUARD[15] != GUARD_OFF[15] && TABBED_GUARD[15] != GUARD_ON[15];
  }

  lemma TabbedGuardExpands()
    ensures Expand(0, TABBED_GUARD + "\n") == GUARD_OFF + "\n"
  {
    hide Expand, Column;
    var head, rest := "// clang-format", "off\n";
    assert TABBED_GUARD + "\n" == head + ("\t" + rest);
    ExpandConcat(0, head, "\t" + rest);
    ColumnNoTabs(0, head);
    ExpandNoTabs(0, head);
    ExpandConcat(15, "\t", rest);
    ExpandNoTabs(Column(15, "\t"), rest);
    OneTab(15);
    assert head + (Spaces(1) + rest) == GUARD_OFF + "\n";
  }

  lemma OneTab(col: nat)
    ensures Expand(col, "\t") == Spaces(TAB_SIZE - col % TAB_SIZE)
  {
    assert "\t"[1..] == [];
  }

  lemma TrimLineKeepsInk(l: string)
    ensures Ink(TrimLine(l)) == Ink(l)
  {
    hide RStrip, IsSpace;
    RStripSplits(l);
    BreakIsSpace();
    var r, w := RStrip(l), l[|RStrip(l)|..];
    assert l == r + w;
    InkConcat(r, w);
    InkOfSpace(w);
    InkConcat(r, "\n");
    InkOfSpace("\n");
  }

  /** Neither fixer changes anything but white space: the other characters of the file stay, in order. */
  lemma FixersKeepText(content: string)
    ensures Ink(TrimFile(content)) == Ink(content)
    ensures Ink(ExpandFile(content)) == Ink(content)
  {
    hide TrimLine, Looked, Expand, Ink, ReadLines, Join, IsTabFree, IsTrimmed;
    var lines := ReadLines(content);
    ReadKeepsInk(content);
    forall i | 0 <= i < |lines| ensures Ink(TrimLines(lines)[i]) == Ink(lines[i]) == Ink(ExpandLines(lines)[i]) {
      TrimLineKeepsInk(lines[i]);
      ExpandKeepsInk(0, lines[i]);
    }
    JoinKeepsInk(TrimLines(lines), lines);
    JoinKeepsInk(ExpandLines(lines), lines);
  }

  /** Expansion can make a new guard, after which lines that the first pass looked at are disabled in the
      second. */
  lemma ExpansionCanMakeGuard(rest: seq<string>)
    ensures var lines := [TABBED_GUARD + "\n"] + rest;
            && !IsGuard(lines[0]) && Strip(ExpandLines(lines)[0]) == GUARD_OFF
            && EnabledAt(lines, 1) && !EnabledAt(ExpandLines(lines), 1)
  {
    hide Strip, Expand;
    var lines := [TABBED_GUARD + "\n"] + rest;
    TabbedGuardIsNoGuard();
    TabbedGuardExpands();
    assert "" + GUARD_OFF + "\n" == GUARD_OFF + "\n";
    StripSurrounded("", GUARD_OFF, "\n");
    assert EnabledAt(lines, 0) && EnabledAt(ExpandLines(lines), 0);
    assert GUARD_ON != GUARD_OFF by {
      assert |GUARD_ON| != |GUARD_OFF|;
    }
  }

  // ---- Checking a set of files ----

  /** The four checks, in the order in which they are made. */
  datatype Check = Prefixes | Formatting | Whitespace | Tabs

  /** A file and the checks that its name asks for. */
  datatype File = File(name: string, content: string, checks: set<Check>)

  /** A check that depends on more than the text, such as other files or another program: whether it accepts a
      file, by name and text, and what it makes of one that it does not accept. */
  datatype External = External(accepts: (string, string) -> bool, repair: (string, string) -> string)

  datatype Tools = Tools(prefixes: External, formatting: External)

  ghost predicate Passes(tools: Tools, check: Check, f: File) {
    match check
    case Prefixes => tools.prefixes.accepts(f.name, f.content)
    case Formatting => tools.formatting.accepts(f.name, f.content)
    case Whitespace => IsTrimmed(ReadLines(f.content))
    case Tabs => IsTabFree(ReadLines(f.content))
  }

  ghost function Repaired(tools: Tools, check: Check, f: File): string {
    match check
    case Prefixes => if Passes(tools, check, f) then f.content else tools.prefixes.repair(f.name, f.content)
    case Formatting => if Passes(tools, check, f) then f.content else tools.formatting.repair(f.name, f.content)
    case Whitespace => TrimFile(f.content)
    case Tabs => ExpandFile(f.content)
  }

  /** A file after one check in fix mode, which leaves it alone when its name does not ask for the check. */
  ghost function FixedBy(tools: Tools, check: Check, f: File): File {
    if check in f.checks then f.(content := Repaired(tools, check, f)) else f
  }

  ghost function FixedIf(tools: Tools, enabled: set<Check>, check: Check, f: File): File {
    if check in enabled then FixedBy(tools, check, f) else f
  }

  ghost function Fixed(tools: Tools, enabled: set<Check>, f: File): File {
    var prefixed := FixedIf(tools, enabled, Prefixes, f);
    var formatted := FixedIf(tools, enabled, Formatting, prefixed);
    var trimmed := FixedIf(tools, enabled, Whitespace, formatted);
    FixedIf(tools, enabled, Tabs, trimmed)
  }

  /** One check of one file. */
  method CheckFile(tools: Tools, check: Check, f: File, fix: bool, verbose: bool)
    returns (written: string, isFileCompliant: bool)
    ensures check == Prefixes ==> isFileCompliant == tools.prefixes.accepts(f.name, f.content)
    ensures check == Formatting ==> isFileCompliant == tools.formatting.accepts(f.name, f.content)
    ensures check == Whitespace ==> (isFileCompliant <==> IsTrimmed(ReadLines(f.content)))
    ensures check == Tabs ==> (isFileCompliant <==> IsTabFree(ReadLines(f.content)))
    ensures isFileCompliant <==> Passes(tools, check, f)
    ensures written == if fix then Repaired(tools, check, f) else f.content
  {
    match check
    case Prefixes =>
      isFileCompliant := tools.prefixes.accepts(f.name, f.content);
      written := if fix && !isFileCompliant then tools.prefixes.repair(f.name, f.content) else f.content;
    case Formatting =>
      isFileCompliant := tools.formatting.accepts(f.name, f.content);
      written := if fix && !isFileCompliant then tools.formatting.repair(f.name, f.content) else f.content;
    case Whitespace =>
      written, isFileCompliant := CheckTrailingWhitespaceFile(f.content, fix, verbose);
    case Tabs =>
      written, isFileCompliant := CheckTabsFile(f.content, fix, verbose);
  }

  ghost predicate AllPass(tools: Tools, check: Check, files: seq<File>) {
    forall f | f in files && check in f.checks :: Passes(tools, check, f)
  }

  /** One check of all files that ask for it. The verdict is that every one was compliant, or that they were fixed. */
  method CheckStyleFile(tools: Tools, check: Check, files: seq<File>, fix: bool, verbose: bool)
    returns (written: seq<File>, successful: bool)
    ensures successful <==> fix || AllPass(tools, check, files)
    ensures |written| == |files|
    ensures forall i | 0 <= i < |files| ::
              written[i] == if fix then FixedBy(tools, check, files[i]) else files[i]
  {
    hide Passes, Repaired;
    written := files;
    var nonCompliant := 0;
    for i := 0 to |files|
      invariant |written| == |files|
      invariant forall j | i <= j < |files| :: written[j] == files[j]
      invariant forall j | 0 <= j < i ::
                  written[j] == if fix then FixedBy(tools, check, files[j]) else files[j]
      invariant nonCompliant == 0 <==>
                forall j | 0 <= j < i && check in files[j].checks :: Passes(tools, check, files[j])
    {
      if check in files[i].checks {
        var content, compliant := CheckFile(tools, check, files[i], fix, verbose);
        written := written[i := files[i].(content := content)];
        nonCompliant := nonCompliant + if compliant then 0 else 1;
      }
    }
    successful := nonCompliant == 0 || fix;
  }

  method CheckIfEnabled(tools: Tools, enabled: set<Check>, check: Check, files: seq<File>, fix: bool, verbose: bool)
    returns (written: seq<File>, successful: bool)
    ensures successful <==> fix || (check in enabled ==> AllPass(tools, check, files))
    ensures |written| == |files| && (!fix ==> written == files)
    ensures fix ==> forall i | 0 <= i < |files| :: written[i] == FixedIf(tools, enabled, check, files[i])
  {
    hide FixedBy, AllPass;
    written, successful := files, true;
    if check in enabled {
      written, successful := CheckStyleFile(tools, check, files, fix, verbose);
    }
  }

  /** All enabled checks. In check mode the verdict is that every file passes every enabled check its name asks for,
      and no file changes; in fix mode each file goes through the enabled fixers in order. */
  method CheckStyle(tools: Tools, enabled: set<Check>, files: seq<File>, fix: bool, verbose: bool)
    returns (written: seq<File>, successful: bool)
    ensures successful <==> fix || forall check | check in enabled :: AllPass(tools, check, files)
    ensures |written| == |files|
    ensures forall i | 0 <= i < |files| :: written[i] == if fix then Fixed(tools, enabled, files[i]) else files[i]
  {
    hide FixedIf, AllPass;
    var prefixesSuccessful, formattingSuccessful, whitespaceSuccessful, tabsSuccessful;
    written, prefixesSuccessful := CheckIfEnabled(tools, enabled, Prefixes, files, fix, verbose);
    written, formattingSuccessful := CheckIfEnabled(tools, enabled, Formatting, written, fix, verbose);
    written, whitespaceSuccessful := CheckIfEnabled(tools, enabled, Whitespace, written, fix, verbose);
    written, tabsSuccessful := CheckIfEnabled(tools, enabled, Tabs, written, fix, verbose);
    successful := prefixesSuccessful && formattingSuccessful && whitespaceSuccessful && tabsSuccessful;
    forall check | check in enabled
      ensures successful ==> fix || AllPass(tools, check, files)
    {
      match check
      case Prefixes =>
      case Formatting =>
      case Whitespace =>
      case Tabs =>
    }
  }

  ghost function Cleaned(trims: bool, expands: bool, content: string): string {
    var trimmed := if trims then TrimFile(content) else content;
    if expands then ExpandFile(trimmed) else trimmed
  }

  lemma CleanedIsClean(trims: bool, expands: bool, content: string)
    ensures var cleaned := Cleaned(trims, expands, content);
            && (trims ==> IsTrimmed(ReadLines(cleaned))) && (expands ==> IsTabFree(ReadLines(cleaned)))
            && Cleaned(trims, expands, cleaned) == cleaned
  {
    hide IsTrimmed, IsTabFree, ReadLines, TrimFile, ExpandFile;
    if trims && expands {
      FixersReachCommonFixedPoint(content);
    } else if trims {
      WhitespaceFixerIdempotent(content);
    } else if expands {
      TabFixerIdempotent(content);
    }
  }

  /** What one external fixer makes of a file. */
  function RepairedBy(tool: External, name: string, content: string): string {
    if tool.accepts(name, content) then content else tool.repair(name, content)
  }

  /** The fixers come in this order, each when it is enabled and the file asks for it: the include prefixes, the
      formatting, the white space and the tabs. */
  lemma FixersInOrder(tools: Tools, enabled: set<Check>, f: File)
    ensures var asked := enabled * f.checks;
            var a := if Prefixes in asked then RepairedBy(tools.prefixes, f.name, f.content) else f.content;
            var b := if Formatting in asked then RepairedBy(tools.formatting, f.name, a) else a;
            var c := if Whitespace in asked then TrimFile(b) else b;
            var d := if Tabs in asked then ExpandFile(c) else c;
            Fixed(tools, enabled, f) == f.(content := d)
  {
    hide TrimFile, ExpandFile;
  }

  /** The two line fixers come last, so the fixed text is what they make of some text; without the other two checks
      that is the text itself. */
  lemma FixedIsCleaned(tools: Tools, enabled: set<Check>, f: File) returns (content: string)
    ensures Fixed(tools, enabled, f)
         == f.(content := Cleaned(Whitespace in enabled * f.checks, Tabs in enabled * f.checks, content))
    ensures Prefixes !in enabled && Formatting !in enabled ==> content == f.content
  {
    hide Passes, TrimFile, ExpandFile;
    content := FixedIf(tools, enabled, Formatting, FixedIf(tools, enabled, Prefixes, f)).content;
  }

  /** After a fix run each file passes the whitespace and tab checks that are enabled and asked for, whatever the
      other fixers do to it; with those two checks alone a second fix run changes nothing. */
  lemma FixedIsCompliant(tools: Tools, enabled: set<Check>, f: File)
    ensures forall check | check in {Whitespace, Tabs} * enabled * f.checks ::
              Passes(tools, check, Fixed(tools, enabled, f))
    ensures enabled <= {Whitespace, Tabs} ==>
              Fixed(tools, enabled, Fixed(tools, enabled, f)) == Fixed(tools, enabled, f)
  {
    hide IsTrimmed, IsTabFree, ReadLines, Cleaned, Fixed;
    var fixed := Fixed(tools, enabled, f);
    var content := FixedIsCleaned(tools, enabled, f);
    CleanedIsClean(Whitespace in enabled * f.checks, Tabs in enabled * f.checks, content);
    forall check | check in {Whitespace, Tabs} * enabled * f.checks
      ensures Passes(tools, check, fixed)
    {
      match check
      case Whitespace =>
      case Tabs =>
    }
    if enabled <= {Whitespace, Tabs} {
      assert Prefixes !in {Whitespace, Tabs} && Formatting !in {Whitespace, Tabs};
      var again := FixedIsCleaned(tools, enabled, fixed);
      assert again == fixed.content;
    }
  }
}
