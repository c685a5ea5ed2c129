/** The first insertion of the pointer block: exactly which lines and which characters of the
    README change. */
module PointerInsertion {
  import opened Collections
  import opened Text
  import opened TextLines
  import opened PointerBlock

  /** Every line break of the file is the newline of its convention. */
  ghost predicate Uniform(readme: string) {
    OnlyBreaks(readme, Newline(readme))
  }

  // ---------------------------------------------------------------------------
  // The lines around the seam
  // ---------------------------------------------------------------------------

  function LinesAbove(lines: seq<string>): seq<string> {
    DropLastBlanks(lines[..InsertionIndex(lines)])
  }

  function LinesBelow(lines: seq<string>): seq<string> {
    DropFirstBlanks(lines[InsertionIndex(lines)..])
  }

  lemma {:induction false} LeadingBlanks(lines: seq<string>) returns (right: seq<string>)
    ensures lines == right + DropFirstBlanks(lines) && forall l :: l in right ==> IsBlank(l)
  {
    right := [];
    if lines != [] && IsBlank(lines[0]) {
      var more := LeadingBlanks(lines[1..]);
      right := [lines[0]] + more;
      Assoc([lines[0]], more, DropFirstBlanks(lines[1..]));
      assert lines == [lines[0]] + lines[1..];
    }
  }

  lemma {:induction false} LastBlanks(lines: seq<string>) returns (left: seq<string>)
    ensures lines == DropLastBlanks(lines) + left && forall l :: l in left ==> IsBlank(l)
  {
    left := [];
    if lines != [] && IsBlank(lines[|lines| - 1]) {
      var init, last := lines[..|lines| - 1], lines[|lines| - 1];
      var more := LastBlanks(init);
      left := more + [last];
      Assoc(DropLastBlanks(init), more, [last]);
      assert lines == init + [last];
    }
  }

  lemma FourParts<T>(lines: seq<T>, before: seq<T>, left: seq<T>, right: seq<T>, after: seq<T>, index: nat)
    requires index <= |lines| && lines[..index] == before + left && lines[index..] == right + after
    ensures lines == before + (left + right) + after
  {
    assert lines == lines[..index] + lines[index..];
    Assoc(before, left, right + after);
    Assoc(left, right, after);
    Assoc(before, left + right, after);
  }

  /** The lines around the seam: only blank lines are dropped. */
  lemma OnlyBlanksDropped(lines: seq<string>, index: nat, before: seq<string>, after: seq<string>)
      returns (gap: seq<string>)
    requires index <= |lines|
    requires before == DropLastBlanks(lines[..index]) && after == DropFirstBlanks(lines[index..])
    ensures lines == before + gap + after && forall l :: l in gap ==> IsBlank(l)
    ensures |before| <= index <= |before| + |gap|
    ensures after != [] ==> !IsBlank(after[0])
  {
    var left := LastBlanks(lines[..index]);
    var right := LeadingBlanks(lines[index..]);
    DropFirstBlanksHead(lines[index..]);
    gap := left + right;
    FourParts(lines, before, left, right, after, index);
  }

  /** A list of lines is what stays above, a blank gap at the insertion index, and what stays below. */
  lemma GapOf(lines: seq<string>) returns (gap: seq<string>)
    ensures lines == LinesAbove(lines) + gap + LinesBelow(lines) && forall l :: l in gap ==> IsBlank(l)
    ensures |LinesAbove(lines)| <= InsertionIndex(lines) <= |LinesAbove(lines)| + |gap|
    ensures LinesBelow(lines) != [] ==> !IsBlank(LinesBelow(lines)[0])
    ensures var above := LinesAbove(lines); above != [] ==> !IsBlank(above[|above| - 1])
  {
    DropLastBlanksPrefix(lines[..InsertionIndex(lines)]);
    gap := OnlyBlanksDropped(lines, InsertionIndex(lines), LinesAbove(lines), LinesBelow(lines));
  }

  lemma SomeLines(lines: seq<string>, part: seq<string>)
    requires (forall l :: l in lines ==> OneLine(l)) && forall l :: l in part ==> l in lines
    ensures forall l :: l in part ==> OneLine(l)
  {
  }

  // ---------------------------------------------------------------------------
  // The text below the block
  // ---------------------------------------------------------------------------

  lemma NonBlankChar(after: seq<string>, nl: string) returns (c: char)
    requires after != [] && !IsBlank(after[0]) && IsNewline(nl)
    ensures c !in nl && c in after[0] && c in Join(nl, after) && c in TextOf(after, nl)
  {
    TrimKeepsText(after[0]);
    c :| c in after[0] && !IsSpace(c);
  }

  /** What is written of the lines below the seam, before the trailing run. */
  function WrittenBelow(after: seq<string>, nl: string): string {
    StripEnd(TextOf(after, nl), nl)
  }

  /** Stripping the gap below the block strips exactly what it strips from the lines. */
  lemma BelowStripped(after: seq<string>, nl: string)
    requires after != [] && !IsBlank(after[0]) && IsNewline(nl)
    ensures Below(after, nl) == nl + nl + WrittenBelow(after, nl)
  {
    var c := NonBlankChar(after, nl);
    JoinTerminated(after, nl);
    StripEndIgnores(Join(nl, after), nl, nl);
    StripEndConcat(nl + nl, Join(nl, after), nl);
  }

  /** The written lines below are those of the README without the empty lines at its end. */
  lemma WrittenBelowIs(after: seq<string>, nl: string, init: seq<string>, last: string, e: nat)
    requires IsNewline(nl) && (forall l :: l in after ==> OneLine(l)) && last != ""
    requires after == init + [last] + Blanks(e)
    ensures WrittenBelow(after, nl) == TextOf(init, nl) + last
    ensures WrittenBelow(after, nl) != [] && !IsBreak(WrittenBelow(after, nl)[|WrittenBelow(after, nl)| - 1])
    ensures SplitLines(WrittenBelow(after, nl)) == init + [last]
    ensures OnlyBreaks(WrittenBelow(after, nl), nl)
  {
    assert last in after && forall l :: l in init ==> l in after;
    var x := TextOf(init, nl) + last;
    OpenLast(init, last, nl);
    StripBlanks(x, after, init + [last], e, nl);
    Terminated(x, nl);
    SplitTextOf(init + [last], nl);
    TextOfBreaks(init, nl);
    OneLineBreaks(last, nl);
    OnlyBreaksConcat(TextOf(init, nl), last, nl);
  }

  lemma LastNonEmpty(after: seq<string>) returns (init: seq<string>, last: string, e: nat)
    requires after != [] && !IsBlank(after[0])
    ensures after == init + [last] + Blanks(e) && last != ""
  {
    var core;
    core, e := TrimEmpty(after);
    assert core == [] ==> after == Blanks(e);
    init, last := core[..|core| - 1], core[|core| - 1];
    assert core == init + [last];
  }

  /** The lines below the seam are the same, up to the number of empty lines at the end. */
  ghost predicate SameUpToEnd(after: seq<string>, below: seq<string>) {
    if after == [] then exists k: nat :: below == Blanks(k)
    else exists core, d: nat, e: nat :: IsCoreOf(core, d, after) && below == [""] + core + Blanks(e)
  }

  ghost predicate IsCoreOf(core: seq<string>, d: nat, after: seq<string>) {
    core != [] && after == core + Blanks(d)
  }

  lemma NewlineFirst(nl: string, rest: string)
    requires IsNewline(nl)
    ensures SplitLines(nl + rest) == [""] + SplitLines(rest)
  {
    assert [] + nl + rest == nl + rest;
    SplitStep([], nl, rest, nl + rest);
  }

  lemma EndsWithNewline(x: string, nl: string)
    requires IsNewline(nl)
    ensures (x + nl)[|x + nl| - 1] == '\n'
  {
    LastOf(x, nl);
  }

  /** A block followed by a blank line and `w`. */
  lemma BlockThenLines(filled: string, w: string, nl: string)
    requires filled != [] && !IsBreak(filled[|filled| - 1]) && IsNewline(nl)
    ensures SplitLines(filled + (nl + nl + w)) == SplitLines(filled) + ([""] + SplitLines(w))
  {
    Assoc(nl, nl, w);
    Assoc(filled, nl, nl + w);
    EndsWithNewline(filled, nl);
    SplitConcat(filled + nl, nl + w);
    Terminated(filled, nl);
    NewlineFirst(nl, w);
  }

  /** What stands below the block, read as lines. */
  lemma LinesBelowBlock(filled: string, after: seq<string>, run: string, nl: string) returns (below: seq<string>)
    requires filled != [] && !IsBreak(filled[|filled| - 1]) && IsNewline(nl) && IsRun(run)
    requires (forall l :: l in after ==> OneLine(l)) && (after != [] ==> !IsBlank(after[0]))
    ensures SplitLines(filled + (Below(after, nl) + run)) == SplitLines(filled) + below
    ensures SameUpToEnd(after, below)
    ensures after != [] ==> below == [""] + SplitLines(WrittenBelow(after, nl) + run)
  {
    if after == [] {
      assert Below(after, nl) + run == run;
      var k := SplitRun(filled, run);
      below := Blanks(k);
    } else {
      BelowStripped(after, nl);
      var w := WrittenBelow(after, nl);
      Assoc(nl + nl, w, run);
      BlockThenLines(filled, w + run, nl);
      below := [""] + SplitLines(w + run);
      var init, last, d := LastNonEmpty(after);
      WrittenBelowIs(after, nl, init, last, d);
      var e := SplitRun(w, run);
      assert IsCoreOf(init + [last], d, after);
      Assoc([""], init + [last], Blanks(e));
    }
  }

  // ---------------------------------------------------------------------------
  // The lines of the written file
  // ---------------------------------------------------------------------------

  function Spacer(lines: seq<string>): seq<string> {
    if lines == [] then [] else [""]
  }

  lemma AboveIsText(before: seq<string>, nl: string)
    ensures Above(before, nl) == TextOf(before + Spacer(before), nl)
  {
    if before == [] {
      assert before + Spacer(before) == [];
    } else {
      TextOfLast(before, "", nl);
      assert TextOf(before, nl) + "" == TextOf(before, nl);
    }
  }

  lemma AboveEnds(before: seq<string>, nl: string)
    requires IsNewline(nl)
    ensures var a := Above(before, nl); a != [] ==> a[|a| - 1] == '\n'
  {
    if before != [] {
      EndsWithNewline(TextOf(before, nl), nl);
    }
  }

  lemma LinesAboveBlock(before: seq<string>, z: string, nl: string)
    requires IsNewline(nl) && forall l :: l in before ==> OneLine(l)
    ensures SplitLines(Above(before, nl) + z) == before + Spacer(before) + SplitLines(z)
  {
    AboveIsText(before, nl);
    AboveEnds(before, nl);
    SplitTextOf(before + Spacer(before), nl);
    SplitConcat(Above(before, nl), z);
  }

  /** The written text of a first insertion. */
  lemma WrittenText(mk: Markers, readme: string, block: string)
    requires WellFormed(mk, block) && Locate(mk, readme).Absent?
    ensures Upsert(mk, readme, block).Updated?
    ensures var nl, lines := Newline(readme), SplitLines(readme);
            && Upsert(mk, readme, block).text ==
               Above(LinesAbove(lines), nl) + WithNewlines(block, nl) +
                   (Below(LinesBelow(lines), nl) + Trailing(readme, nl))
            && Newline(Upsert(mk, readme, block).text) == nl
  {
    UpsertIsFramed(mk, readme, block);
    NewlineKept(mk, readme, block);
  }

  lemma BlockEnds(mk: Markers, block: string, nl: string)
    requires WellFormed(mk, block) && IsNewline(nl)
    ensures var filled := WithNewlines(block, nl);
            filled != [] && (OneLine(mk.end) ==> !IsBreak(filled[|filled| - 1])) && filled[|filled| - 1] !in nl
    ensures SplitLines(WithNewlines(block, nl)) == SplitLines(block)
  {
    var body := BlockBody(mk, block);
    FilledShape(mk.start, body, mk.end, nl);
    LastOf(mk.start + WithNewlines(body, nl), mk.end);
    assert mk.end[|mk.end| - 1] in mk.end;
    ReplacedLines(block, nl);
  }

  lemma LinesOfWritten(before: seq<string>, filled: string, after: seq<string>, run: string, nl: string, text: string)
      returns (below: seq<string>)
    requires filled != [] && !IsBreak(filled[|filled| - 1]) && IsNewline(nl) && IsRun(run)
    requires (forall l :: l in before ==> OneLine(l)) && (forall l :: l in after ==> OneLine(l))
    requires (after != [] ==> !IsBlank(after[0])) && text == Above(before, nl) + filled + (Below(after, nl) + run)
    ensures SplitLines(text) == before + Spacer(before) + SplitLines(filled) + below
    ensures SameUpToEnd(after, below)
    ensures after != [] ==> below == [""] + SplitLines(WrittenBelow(after, nl) + run)
  {
    var z := Below(after, nl) + run;
    below := LinesBelowBlock(filled, after, run, nl);
    Assoc(Above(before, nl), filled, z);
    LinesAboveBlock(before, filled + z, nl);
    Assoc(before + Spacer(before), SplitLines(filled), below);
  }

  /** First insertion into any README without markers. Its lines are `before + gap + after` with a
      blank gap at the insertion index; the written file has the same `before`, the block between
      blank lines, and the same `after` up to the number of empty lines at its end, which is the
      same too when the characters below the seam keep the newline convention. */
  lemma InsertionFrame(mk: Markers, readme: string, block: string)
      returns (before: seq<string>, gap: seq<string>, after: seq<string>, below: seq<string>)
    requires WellFormed(mk, block) && OneLine(mk.end) && Locate(mk, readme).Absent?
    ensures Upsert(mk, readme, block).Updated?
    ensures SplitLines(readme) == before + gap + after && before == LinesAbove(SplitLines(readme))
    ensures forall l :: l in gap ==> AllSpace(l)
    ensures (before != [] ==> !AllSpace(before[|before| - 1])) && (after != [] ==> !AllSpace(after[0]))
    ensures |before| <= InsertionIndex(SplitLines(readme)) <= |before| + |gap|
    ensures var text := Upsert(mk, readme, block).text;
            && SplitLines(text) == before + (if before == [] then [] else [""]) + SplitLines(block) + below
            && Newline(text) == Newline(readme)
    ensures SameUpToEnd(after, below)
    ensures OnlyBreaks(BytesBelow(readme), Newline(readme)) && after != [] ==> below == [""] + after
  {
    var nl, lines := Newline(readme), SplitLines(readme);
    before, after := LinesAbove(lines), LinesBelow(lines);
    gap := GapOf(lines);
    forall l ensures IsBlank(l) <==> AllSpace(l) {
      BlankExactly(l);
    }
    SomeLines(lines, before);
    SomeLines(lines, after);
    WrittenText(mk, readme, block);
    BlockEnds(mk, block, nl);
    TrailingIsRun(readme, nl);
    below := LinesOfWritten(before, WithNewlines(block, nl), after, Trailing(readme, nl), nl,
        Upsert(mk, readme, block).text);
    if OnlyBreaks(BytesBelow(readme), nl) && after != [] {
      KeptBelow(readme, nl, after);
    }
  }

  // ---------------------------------------------------------------------------
  // The characters of the written file
  // ---------------------------------------------------------------------------

  /** The characters of the lines above the seam, with their line breaks. */
  ghost function BytesAbove(readme: string): string {
    var lines := SplitLines(readme);
    DropLastBlanksPrefix(lines[..InsertionIndex(lines)]);
    readme[..Cut(readme, |LinesAbove(lines)|)]
  }

  /** The characters from the first line below the seam to the end. */
  ghost function Bottom(readme: string): string {
    readme[Cut(readme, LinesBefore(SplitLines(readme)))..]
  }

  /** How many lines stand above the first one below the seam. */
  ghost function LinesBefore(lines: seq<string>): (n: nat)
    ensures n <= |lines| && lines[n..] == LinesBelow(lines)
  {
    BelowIsDrop(lines, LinesBelow(lines));
    |lines| - |LinesBelow(lines)|
  }

  lemma BelowIsDrop(lines: seq<string>, after: seq<string>)
    requires after == LinesBelow(lines)
    ensures |after| <= |lines| && lines[|lines| - |after|..] == after
  {
    var first := BelowIsSuffix(lines, after);
    assert lines[|first|..] == after;
  }

  /** The characters of the lines below the seam, without the trailing newline run. */
  ghost function BytesBelow(readme: string): string {
    StripEnd(Bottom(readme), Newline(readme))
  }

  lemma AboveHasLines(readme: string, lines: seq<string>)
    requires lines == SplitLines(readme)
    ensures SplitLines(BytesAbove(readme)) == LinesAbove(lines)
  {
    DropLastBlanksPrefix(lines[..InsertionIndex(lines)]);
    FirstLines(readme, lines, LinesAbove(lines));
  }

  lemma FirstLines(s: string, lines: seq<string>, part: seq<string>)
    requires lines == SplitLines(s) && part <= lines
    ensures SplitLines(s[..Cut(s, |part|)]) == part
  {
    assert IsCut(s, Cut(s, |part|), |part|);
  }

  lemma BottomHasLines(readme: string, lines: seq<string>) returns (top: string)
    requires lines == SplitLines(readme)
    ensures SplitLines(Bottom(readme)) == LinesBelow(lines) && readme == top + Bottom(readme)
  {
    top := LastLines(readme, lines, LinesBefore(lines));
  }

  lemma BelowIsSuffix(lines: seq<string>, after: seq<string>) returns (first: seq<string>)
    requires after == LinesBelow(lines)
    ensures lines == first + after
  {
    var gap := GapOf(lines);
    first := LinesAbove(lines) + gap;
  }

  lemma LastLines(s: string, lines: seq<string>, n: nat) returns (top: string)
    requires lines == SplitLines(s) && n <= |lines|
    ensures SplitLines(s[Cut(s, n)..]) == lines[n..] && s == top + s[Cut(s, n)..]
  {
    assert IsCut(s, Cut(s, n), n);
    top := s[..Cut(s, n)];
    TakeDrop(s, Cut(s, n));
  }

  lemma {:induction false} LineIn(s: string, l: string, c: char)
    requires l in SplitLines(s) && c in l
    ensures c in s
    decreases |s|
  {
    if OneLine(s) {
      if s != [] {
        LoneLine(s);
      }
    } else {
      var l', b, rest := FirstLine(s);
      if l != l' {
        LineIn(rest, l, c);
      }
    }
  }

  /** The trailing run of a text that goes on below the seam is the run of what stands there. */
  lemma RunBelow(readme: string, nl: string, top: string, bottom: string, after: seq<string>)
    requires IsNewline(nl) && readme == top + bottom && SplitLines(bottom) == after
    requires after != [] && !IsBlank(after[0])
    ensures StripEnd(bottom, nl) != []
    ensures Trailing(readme, nl) == Trailing(bottom, nl)
  {
    var c := TextBelowSeam(bottom, after, nl);
    StripNonEmpty(bottom, c, nl);
    StripEndConcat(top, bottom, nl);
    RunOfConcat(readme, top, bottom, StripEnd(bottom, nl));
  }

  lemma TextBelowSeam(bottom: string, after: seq<string>, nl: string) returns (c: char)
    requires IsNewline(nl) && SplitLines(bottom) == after && after != [] && !IsBlank(after[0])
    ensures c in bottom && c !in nl
  {
    c := NonBlankChar(after, nl);
    assert after[0] in after;
    LineIn(bottom, after[0], c);
  }

  lemma RunOfConcat(s: string, top: string, bottom: string, y: string)
    requires s == top + bottom && y <= bottom
    ensures |top + y| <= |s| && s[|top + y|..] == bottom[|y|..]
  {
  }

  /** Below the seam, what is written is what stood there if and only if every line break there,
      up to the trailing run, is the newline. */
  lemma BelowKeptExactly(bottom: string, after: seq<string>, nl: string)
    requires IsNewline(nl) && SplitLines(bottom) == after && (after != [] ==> !IsBlank(after[0]))
    ensures WrittenBelow(after, nl) == StripEnd(bottom, nl) <==> OnlyBreaks(StripEnd(bottom, nl), nl)
  {
    if after == [] {
      NoLines(bottom);
    } else {
      var init, last, d := LastNonEmpty(after);
      WrittenBelowIs(after, nl, init, last, d);
      if OnlyBreaks(StripEnd(bottom, nl), nl) {
        RunBelow(bottom, nl, [], bottom, after);
        UniformBelow(bottom, after, nl);
      }
    }
  }

  lemma NoLines(s: string)
    requires SplitLines(s) == []
    ensures s == []
  {
  }

  lemma UniformBelow(bottom: string, after: seq<string>, nl: string)
    requires IsNewline(nl) && SplitLines(bottom) == after
    requires StripEnd(bottom, nl) != [] && OnlyBreaks(StripEnd(bottom, nl), nl)
    ensures WrittenBelow(after, nl) == StripEnd(bottom, nl)
    ensures SplitLines(StripEnd(bottom, nl) + Trailing(bottom, nl)) == after
  {
    var x := StripEnd(bottom, nl);
    var run := RunOf(bottom, x, nl);
    StrippedEnd(x, nl);
    StripsBack(bottom, x, run, after, nl);
    RunRestored(bottom, x, run, after, nl);
  }

  lemma RunOf(bottom: string, x: string, nl: string) returns (run: string)
    requires IsNewline(nl) && x == StripEnd(bottom, nl)
    ensures bottom == x + run && IsRun(run) && Trailing(bottom, nl) == if run == [] then nl else run
    ensures x != [] ==> x[|x| - 1] !in nl
  {
    run := bottom[|x|..];
    TakeDrop(bottom, |x|);
  }

  lemma StripsBack(bottom: string, x: string, run: string, after: seq<string>, nl: string)
    requires IsNewline(nl) && SplitLines(bottom) == after && bottom == x + run && IsRun(run)
    requires x != [] && !IsBreak(x[|x| - 1]) && OnlyBreaks(x, nl)
    ensures WrittenBelow(after, nl) == x
  {
    var k := SplitRun(x, run);
    RejoinsUniform(x, nl);
    StripBlanks(x, after, SplitLines(x), k, nl);
  }

  lemma RunRestored(bottom: string, x: string, run: string, after: seq<string>, nl: string)
    requires IsNewline(nl) && SplitLines(bottom) == after && bottom == x + run
    requires x != [] && !IsBreak(x[|x| - 1])
    ensures SplitLines(x + if run == [] then nl else run) == after
  {
    if run == [] {
      assert bottom == x;
      Terminated(x, nl);
    }
  }

  lemma KeptBelow(readme: string, nl: string, after: seq<string>)
    requires nl == Newline(readme) && after == LinesBelow(SplitLines(readme)) && after != []
    requires OnlyBreaks(BytesBelow(readme), nl)
    ensures SplitLines(WrittenBelow(after, nl) + Trailing(readme, nl)) == after
  {
    var gap := GapOf(SplitLines(readme));
    var top := BottomHasLines(readme, SplitLines(readme));
    RunBelow(readme, nl, top, Bottom(readme), after);
    UniformBelow(Bottom(readme), after, nl);
  }

  /** What is written of the lines above the seam, each ended by the newline. */
  function TextAbove(readme: string): string {
    TextOf(LinesAbove(SplitLines(readme)), Newline(readme))
  }

  /** What is written of the lines below the seam. */
  function TextBelow(readme: string): string {
    WrittenBelow(LinesBelow(SplitLines(readme)), Newline(readme))
  }

  /** The characters above the seam come back, an open last line being ended. */
  ghost predicate KeepsAbove(readme: string) {
    TextAbove(readme) == BytesAbove(readme) || TextAbove(readme) == BytesAbove(readme) + Newline(readme)
  }

  ghost predicate KeepsBelow(readme: string) {
    TextBelow(readme) == BytesBelow(readme)
  }

  function GapAbove(readme: string): string {
    if LinesAbove(SplitLines(readme)) == [] then [] else Newline(readme)
  }

  function GapBelow(readme: string): string {
    if LinesBelow(SplitLines(readme)) == [] then [] else Newline(readme) + Newline(readme)
  }

  /** The written file is what is written of the lines above, the block between newlines, what is
      written of the lines below, and the trailing run; the two outer parts are the characters the
      README had there if and only if every line break in them is its newline. */
  lemma BytesKeptExactly(mk: Markers, readme: string, block: string)
    requires WellFormed(mk, block) && Locate(mk, readme).Absent?
    ensures Upsert(mk, readme, block).Updated?
    ensures Upsert(mk, readme, block).text ==
            (TextAbove(readme) + GapAbove(readme)) + WithNewlines(block, Newline(readme)) +
            (GapBelow(readme) + TextBelow(readme) + Trailing(readme, Newline(readme)))
    ensures KeepsAbove(readme) <==> OnlyBreaks(BytesAbove(readme), Newline(readme))
    ensures KeepsBelow(readme) <==> OnlyBreaks(BytesBelow(readme), Newline(readme))
  {
    WrittenText(mk, readme, block);
    SeamText(readme);
    AboveKeptExactly(readme);
    BelowOfReadme(readme);
  }

  lemma AboveKeptExactly(readme: string)
    ensures KeepsAbove(readme) <==> OnlyBreaks(BytesAbove(readme), Newline(readme))
  {
    AboveHasLines(readme, SplitLines(readme));
    RejoinsExactly(BytesAbove(readme), Newline(readme));
  }

  lemma BelowOfReadme(readme: string)
    ensures KeepsBelow(readme) <==> OnlyBreaks(BytesBelow(readme), Newline(readme))
  {
    var gap := GapOf(SplitLines(readme));
    var top := BottomHasLines(readme, SplitLines(readme));
    BelowKeptExactly(Bottom(readme), LinesBelow(SplitLines(readme)), Newline(readme));
  }

  lemma SeamText(readme: string)
    ensures var lines, nl := SplitLines(readme), Newline(readme);
            && Above(LinesAbove(lines), nl) == TextAbove(readme) + GapAbove(readme)
            && Below(LinesBelow(lines), nl) == GapBelow(readme) + TextBelow(readme)
  {
    var lines, nl := SplitLines(readme), Newline(readme);
    var after := LinesBelow(lines);
    DropFirstBlanksHead(lines[InsertionIndex(lines)..]);
    if after != [] {
      BelowStripped(after, nl);
    }
  }

  // ---------------------------------------------------------------------------
  // The end of the file, and the quickstart block
  // ---------------------------------------------------------------------------

  lemma BelowEnds(after: seq<string>, nl: string)
    requires after != [] && !IsBlank(after[0]) && IsNewline(nl)
    ensures var b := Below(after, nl); b != [] && b[|b| - 1] !in nl
  {
    var c := NonBlankChar(after, nl);
    StripNonEmpty(nl + nl + Join(nl, after), c, nl);
  }

  /** A text that ends in `run` behind a character that is no newline has `run` as its run. */
  lemma RunKept(head: string, below: string, run: string, nl: string, text: string)
    requires text == head + (below + run) && forall c :: c in run ==> c in nl
    requires head != [] && head[|head| - 1] !in nl && (below == [] || below[|below| - 1] !in nl)
    ensures text[|StripEnd(text, nl)|..] == run
  {
    var y := head + below;
    Assoc(head, below, run);
    assert y[|y| - 1] !in nl;
    StripAll(y, run, nl);
    assert (y + run)[|y|..] == run;
  }

  /** The newline run at the end of the written file is the one the README had, or one newline if
      it had none. */
  lemma TrailingRestored(mk: Markers, readme: string, block: string)
    requires WellFormed(mk, block) && Locate(mk, readme).Absent?
    ensures Upsert(mk, readme, block).Updated?
    ensures var nl, text := Newline(readme), Upsert(mk, readme, block).text;
            var run := readme[|StripEnd(readme, nl)|..];
            text[|StripEnd(text, nl)|..] == if run == [] then nl else run
  {
    var nl, lines := Newline(readme), SplitLines(readme);
    var filled, after := WithNewlines(block, nl), LinesBelow(lines);
    WrittenText(mk, readme, block);
    BlockEnds(mk, block, nl);
    var gap := GapOf(lines);
    if after != [] {
      BelowEnds(after, nl);
    }
    TrailingIsRun(readme, nl);
    LastOf(Above(LinesAbove(lines), nl), filled);
    RunKept(Above(LinesAbove(lines), nl) + filled, Below(after, nl), Trailing(readme, nl), nl,
        Upsert(mk, readme, block).text);
  }

  /** In any README, a quickstart block, wherever it starts, ends on a line that stays directly
      above the seam. */
  lemma QuickstartStaysWhole(mk: Markers, readme: string, block: string)
    requires WellFormed(mk, block) && OneLine(mk.end) && Locate(mk, readme).Absent?
    requires HasQuickstart(SplitLines(readme))
    ensures Upsert(mk, readme, block).Updated?
    ensures var lines, result := SplitLines(readme), SplitLines(Upsert(mk, readme, block).text);
            var end := FirstFrom(lines, 0, IsQuickstartEnd);
            end < |lines| && lines[..end + 1] + [""] + SplitLines(block) <= result
  {
    var lines := SplitLines(readme);
    var end := QuickstartAbove(lines);
    var before, gap, after, below := InsertionFrame(mk, readme, block);
    FirstLinesOf(lines[..end + 1], SplitLines(block), below, SplitLines(Upsert(mk, readme, block).text));
  }

  lemma FirstLinesOf(before: seq<string>, block: seq<string>, below: seq<string>, result: seq<string>)
    requires before != [] && result == before + (if before == [] then [] else [""]) + block + below
    ensures before + [""] + block <= result
  {
    var start := before + [""] + block;
    assert start <= start + below;
  }

  /** The lines up to the quickstart end are exactly those that stay above the seam. */
  lemma QuickstartAbove(lines: seq<string>) returns (end: nat)
    requires HasQuickstart(lines)
    ensures end == FirstFrom(lines, 0, IsQuickstartEnd) && end < |lines| && LinesAbove(lines) == lines[..end + 1]
  {
    end := FirstFrom(lines, 0, IsQuickstartEnd);
    QuickstartIs(lines);
    var gap := GapOf(lines);
    EndIsNotBlank(lines[end]);
    NothingDroppedAfter(lines, LinesAbove(lines), gap, LinesBelow(lines), end);
  }

  lemma EndIsNotBlank(l: string)
    requires IsQuickstartEnd(l)
    ensures !IsBlank(l)
  {
    assert |QUICKSTART_END| > 0;
  }

  /** Without a quickstart block, the first section heading below the title is the first line below the
      inserted block, and the line above the seam is the last one with text before it. */
  lemma SectionFollowsBlock(mk: Markers, readme: string, block: string, t: nat, index: nat) returns (rest: seq<string>)
    requires WellFormed(mk, block) && OneLine(mk.end) && Locate(mk, readme).Absent?
    requires var lines := SplitLines(readme);
             !HasQuickstart(lines) && TitleEnds(lines, t) && index < |lines| && AtSection(lines, t, index)
    ensures Upsert(mk, readme, block).Updated?
    ensures var lines := SplitLines(readme);
            var before := LinesAbove(lines);
            && before <= lines[..index] && (forall l :: l in lines[|before|..index] ==> AllSpace(l))
            && SplitLines(Upsert(mk, readme, block).text) ==
               before + (if before == [] then [] else [""]) + SplitLines(block) + [""] + [lines[index]] + rest
  {
    var lines := SplitLines(readme);
    IndexExactly(lines, t);
    SameSection(lines, t, index, InsertionIndex(lines));
    var before, gap, after, below := InsertionFrame(mk, readme, block);
    SectionIsBelow(lines, before, gap, after, index);
    FirstBelow(after, below);
    rest := below[2..];
    LastLinesOf(before + (if before == [] then [] else [""]) + SplitLines(block), below, after[0], rest);
  }

  lemma LastLinesOf(head: seq<string>, below: seq<string>, first: string, rest: seq<string>)
    requires |below| >= 2 && below[0] == "" && below[1] == first && rest == below[2..]
    ensures head + below == head + [""] + [first] + rest
  {
    assert below == [""] + [first] + rest;
  }

  lemma SameSection(lines: seq<string>, t: nat, i: nat, j: nat)
    requires AtSection(lines, t, i) && AtSection(lines, t, j)
    ensures i == j
  {
  }

  lemma FirstBelow(after: seq<string>, below: seq<string>)
    requires after != [] && SameUpToEnd(after, below)
    ensures |below| >= 2 && below[0] == "" && below[1] == after[0]
  {
    var core, d: nat, e: nat :| IsCoreOf(core, d, after) && below == [""] + core + Blanks(e);
  }

  /** A heading is not blank, so it is where the lines below the seam begin. */
  lemma SectionIsBelow(lines: seq<string>, before: seq<string>, gap: seq<string>, after: seq<string>, index: nat)
    requires lines == before + gap + after && |before| <= index <= |before| + |gap| && index < |lines|
    requires (forall l :: l in gap ==> AllSpace(l)) && BeginsSection(lines[index])
    ensures index == |before| + |gap| && after != [] && after[0] == lines[index]
    ensures before <= lines[..index] && forall l :: l in lines[|before|..index] ==> AllSpace(l)
  {
    SectionHasText(lines[index]);
    assert forall i :: |before| <= i < |before| + |gap| ==> lines[i] == gap[i - |before|] && lines[i] in gap;
    assert lines[|before|..|before| + |gap|] == gap;
  }

  lemma SectionHasText(l: string)
    requires BeginsSection(l)
    ensures !AllSpace(l)
  {
    var n :| 2 <= n <= 6 && HashesThenSpace(l, n);
    assert l[0] == '#' && l[0] in l;
  }

  lemma NothingDroppedAfter(lines: seq<string>, before: seq<string>, gap: seq<string>, after: seq<string>, end: nat)
    requires lines == before + gap + after && end < |lines| && !IsBlank(lines[end])
    requires forall l :: l in gap ==> IsBlank(l)
    requires |before| <= end + 1 <= |before| + |gap|
    ensures lines[..end + 1] == before
  {
    assert lines[..|before|] == before;
    assert forall i :: |before| <= i < |before| + |gap| ==> lines[i] == gap[i - |before|];
  }

  // ---------------------------------------------------------------------------
  // Uniform files
  // ---------------------------------------------------------------------------

  lemma StripBreaks(s: string, nl: string)
    requires IsNewline(nl) && OnlyBreaks(s, nl)
    ensures OnlyBreaks(StripEnd(s, nl), nl) && OnlyBreaks(Trailing(s, nl), nl)
  {
    var x := StripEnd(s, nl);
    var run := s[|x|..];
    TakeDrop(s, |x|);
    NewlineBreaks(nl);
    if run != [] {
      assert x == [] || x[|x| - 1] !in nl;
      RunStart(x, run, nl);
      OnlyBreaksBefore(x, run, nl);
      OnlyBreaksAfter(x, run, nl);
    } else {
      assert x == s;
    }
  }

  lemma RunStart(x: string, run: string, nl: string)
    requires IsNewline(nl) && OnlyBreaks(x + run, nl) && run != [] && run[0] in nl
    requires x == [] || x[|x| - 1] !in nl
    ensures nl == "\n" || run[0] != '\n'
    ensures x == [] || x[|x| - 1] != '\r'
  {
    var s, i: nat := x + run, |x|;
    assert s[i] == run[0] && BreakAt(s, i, nl);
    if x != [] {
      var j: nat := i - 1;
      assert s[j] == x[|x| - 1];
      assert !IsBreak(s[j]) || BreakAt(s, j, nl);
    }
  }

  lemma {:induction false} ReplacedBreaks(s: string, nl: string)
    requires IsNewline(nl) && OnlyBreaks(s, "\n")
    ensures OnlyBreaks(WithNewlines(s, nl), nl)
  {
    if s != [] {
      var c := if s[0] == '\n' then nl else [s[0]];
      assert s == s[..1] + s[1..];
      OnlyBreaksAfter(s[..1], s[1..], "\n");
      ReplacedBreaks(s[1..], nl);
      NewlineBreaks(nl);
      assert IsBreak(s[0]) ==> BreakAt(s, 0, "\n");
      OnlyBreaksConcat(c, WithNewlines(s[1..], nl), nl);
    }
  }

  /** A README in one convention keeps all its characters around the gap, and the written file is
      in the same convention, every line ended by its newline. */
  lemma UniformKept(mk: Markers, readme: string, block: string)
    requires WellFormed(mk, block) && OnlyBreaks(block, "\n") && Locate(mk, readme).Absent? && Uniform(readme)
    ensures KeepsAbove(readme) && KeepsBelow(readme)
    ensures Upsert(mk, readme, block).Updated? && Uniform(Upsert(mk, readme, block).text)
    ensures var text := Upsert(mk, readme, block).text; text == TextOf(SplitLines(text), Newline(readme))
  {
    var nl := Newline(readme);
    UniformParts(readme);
    BytesKeptExactly(mk, readme, block);
    WrittenText(mk, readme, block);
    StripBreaks(readme, nl);
    ReplacedBreaks(block, nl);
    SeamBreaks(readme);
    TrailingIsRun(readme, nl);
    var a, z, run := TextAbove(readme) + GapAbove(readme), GapBelow(readme) + TextBelow(readme), Trailing(readme, nl);
    UniformText(a, WithNewlines(block, nl), z, run, nl, Upsert(mk, readme, block).text);
  }

  lemma UniformText(a: string, filled: string, z: string, run: string, nl: string, text: string)
    requires IsNewline(nl) && text == a + filled + (z + run) && run != [] && IsRun(run)
    requires OnlyBreaks(a, nl) && OnlyBreaks(filled, nl) && OnlyBreaks(z, nl) && OnlyBreaks(run, nl)
    ensures OnlyBreaks(text, nl) && text == TextOf(SplitLines(text), nl)
  {
    OnlyBreaksConcat(a, filled, nl);
    OnlyBreaksConcat(z, run, nl);
    OnlyBreaksConcat(a + filled, z + run, nl);
    LastOf(a + filled, z + run);
    LastOf(z, run);
    assert run[|run| - 1] in run;
    RejoinsUniform(text, nl);
  }

  lemma UniformParts(readme: string)
    requires Uniform(readme)
    ensures OnlyBreaks(BytesAbove(readme), Newline(readme)) && OnlyBreaks(BytesBelow(readme), Newline(readme))
  {
    UniformAbove(readme, SplitLines(readme));
    UniformBottom(readme, SplitLines(readme));
    StripBreaks(Bottom(readme), Newline(readme));
  }

  lemma UniformAbove(readme: string, lines: seq<string>)
    requires Uniform(readme) && lines == SplitLines(readme)
    ensures OnlyBreaks(BytesAbove(readme), Newline(readme))
  {
    DropLastBlanksPrefix(lines[..InsertionIndex(lines)]);
    UniformCut(readme, Newline(readme), |LinesAbove(lines)|);
  }

  lemma UniformBottom(readme: string, lines: seq<string>)
    requires Uniform(readme) && lines == SplitLines(readme)
    ensures OnlyBreaks(Bottom(readme), Newline(readme))
  {
    UniformCut(readme, Newline(readme), LinesBefore(lines));
  }

  lemma UniformCut(s: string, nl: string, n: nat)
    requires OnlyBreaks(s, nl) && n <= |SplitLines(s)|
    ensures OnlyBreaks(s[..Cut(s, n)], nl) && OnlyBreaks(s[Cut(s, n)..], nl)
  {
    assert IsCut(s, Cut(s, n), n);
    OnlyBreaksCut(s, Cut(s, n), nl);
  }

  /** What is written around the block is in the convention of the README, whatever it held. */
  lemma SeamBreaks(readme: string)
    ensures OnlyBreaks(TextAbove(readme) + GapAbove(readme), Newline(readme))
    ensures OnlyBreaks(GapBelow(readme) + TextBelow(readme), Newline(readme))
  {
    var nl, lines := Newline(readme), SplitLines(readme);
    var gap := GapOf(lines);
    var above, after := LinesAbove(lines), LinesBelow(lines);
    SomeLines(lines, above);
    SomeLines(lines, after);
    NewlineBreaks(nl);
    OnlyBreaksConcat(nl, nl, nl);
    TextOfBreaks(above, nl);
    OnlyBreaksConcat(TextAbove(readme), GapAbove(readme), nl);
    TextOfBreaks(after, nl);
    StripBreaks(TextOf(after, nl), nl);
    OnlyBreaksConcat(GapBelow(readme), TextBelow(readme), nl);
  }

  // ---------------------------------------------------------------------------
  // A mixed file
  // ---------------------------------------------------------------------------

  lemma LetterLine(l: string)
    requires |l| == 1 && !IsSpace(l[0]) && l[0] != '#'
    ensures !IsBlank(l) && !IsQuickstartEnd(l) && !IsSection(l)
  {
    assert Strip(l) == l;
  }

  lemma {:induction false} NoneFrom(lines: seq<string>, start: nat, p: string -> bool)
    requires start <= |lines| && forall l :: l in lines ==> !p(l)
    ensures FirstFrom(lines, start, p) == |lines|
  {
    assert forall i :: 0 <= i < |lines| ==> lines[i] in lines;
  }

  /** Lines without headings and quickstart all stay above the seam. */
  lemma AllAbove(lines: seq<string>)
    requires lines != [] && forall l :: l in lines ==> !IsBlank(l) && !IsQuickstartEnd(l) && !IsSection(l)
    ensures LinesAbove(lines) == lines
  {
    NoneFrom(lines, 0, IsQuickstartEnd);
    var title := FirstFrom(lines, 0, IsTitle);
    NoneFrom(lines, if title < |lines| then title + 1 else 0, IsSection);
    assert lines[..|lines|] == lines && lines[|lines| - 1] in lines;
  }

  lemma TwoLines(a: string, b: string, s: string)
    requires OneLine(a) && OneLine(b) && s == a + "\n" + (b + "\r\n")
    ensures SplitLines(s) == [a, b]
  {
    SplitStep(a, "\n", b + "\r\n", s);
    assert b + "\r\n" + [] == b + "\r\n";
    SplitStep(b, "\r\n", [], b + "\r\n");
  }

  lemma TwoLinesText(a: string, b: string)
    ensures TextOf([a, b], "\r\n") == a + "\r\n" + (b + "\r\n")
  {
    TextOfCons(a, [b], "\r\n");
    TextOfCons(b, [], "\r\n");
    assert [a] + [b] == [a, b] && [b] + [] == [b];
    assert b + "\r\n" + [] == b + "\r\n";
  }

  lemma TwoBreaksDiffer(a: string, b: string, s: string, text: string)
    requires |a| == 1 && s == a + "\n" + (b + "\r\n") && text == a + "\r\n" + (b + "\r\n")
    ensures |text| == |s| + 1 && s[1] == '\n' && text[1] == '\r'
  {
  }

  /** A file of two one-letter lines, the first ended by a line feed and the second by CRLF: the
      convention is CRLF, and the first line break is rewritten. */
  lemma MixedFileRewritten(a: string, b: string, readme: string)
    requires |a| == 1 && !IsSpace(a[0]) && a[0] != '#' && |b| == 1 && !IsSpace(b[0]) && b[0] != '#'
    requires readme == a + "\n" + (b + "\r\n")
    ensures Newline(readme) == "\r\n" && TextAbove(readme) == a + "\r\n" + (b + "\r\n")
    ensures !KeepsAbove(readme)
  {
    TwoLines(a, b, readme);
    MixedNewline(a, b, readme);
    TwoLetterLines(a, b);
    TwoLinesText(a, b);
    TwoBreaksDiffer(a, b, readme, TextAbove(readme));
  }

  lemma MixedNewline(a: string, b: string, readme: string)
    requires readme == a + "\n" + (b + "\r\n")
    ensures Newline(readme) == "\r\n"
  {
    Assoc(a + "\n", b, "\r\n");
    OccursLater("\r\n", a + "\n" + b, "\r\n");
  }

  lemma TwoLetterLines(a: string, b: string)
    requires |a| == 1 && !IsSpace(a[0]) && a[0] != '#' && |b| == 1 && !IsSpace(b[0]) && b[0] != '#'
    ensures LinesAbove([a, b]) == [a, b]
  {
    LetterLine(a);
    LetterLine(b);
    AllAbove([a, b]);
  }

  /** The file "a", line feed, "b", CRLF is rewritten above the block: what the insertion writes is
      not even a prefix of it. */
  lemma MixedBreaksRewritten(readme: string)
    requires readme == "a\nb\r\n"
    ensures !KeepsAbove(readme) && !OnlyBreaks(BytesAbove(readme), Newline(readme)) && !(TextAbove(readme) <= readme)
  {
    assert readme == "a" + "\n" + ("b" + "\r\n");
    MixedFileRewritten("a", "b", readme);
    AboveKeptExactly(readme);
  }
}
