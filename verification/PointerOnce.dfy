/** When the written README holds the generated block exactly once. */
module PointerOnce {
  import opened Collections
  import opened TextLines
  import opened PointerBlock

  /** Both markers begin with a character that occurs nowhere else in them, and they differ. */
  ghost predicate Separate(mk: Markers) {
    AreSeparate(mk.start, mk.end)
  }

  ghost predicate AreSeparate(start: string, end: string) {
    && start != [] && end != [] && end[0] == start[0]
    && (forall i :: 0 < i < |start| ==> start[i] != start[0])
    && (forall i :: 0 < i < |end| ==> end[i] != start[0])
    && (exists i :: 0 <= i < |start| && i < |end| && start[i] != end[i])
  }

  lemma CoverageMarkersAreSeparate()
    ensures Separate(COVERAGE_POINTER) && OneLine(COVERAGE_POINTER.end)
  {
    CommentText();
    NameText();
    EndText();
    CoverageHead(COMMENT, BLOCK_NAME);
    NamesTheBlock(COMMENT + BLOCK_NAME, "start -->", "end -->", '<');
  }

  lemma CommentText()
    ensures COMMENT[0] == '<' && '<' !in COMMENT[1..] && OneLine(COMMENT)
  {
  }

  lemma NameText()
    ensures '<' !in BLOCK_NAME && OneLine(BLOCK_NAME)
  {
  }

  lemma EndText()
    ensures '<' !in "start -->" && '<' !in "end -->" && OneLine("end -->")
  {
  }

  lemma CoverageHead(comment: string, name: string)
    requires comment != [] && comment[0] == '<' && '<' !in comment[1..] && '<' !in name
    ensures (comment + name)[0] == '<' && '<' !in (comment + name)[1..]
  {
    assert (comment + name)[1..] == comment[1..] + name;
  }

  /** Two markers that share a head and differ in the character behind it. */
  lemma NamesTheBlock(head: string, a: string, b: string, c: char)
    requires head != [] && head[0] == c && c !in head[1..] && c !in a && c !in b
    requires a != [] && b != [] && a[0] != b[0]
    ensures AreSeparate(head + a, head + b)
  {
    var start, end := head + a, head + b;
    OnlyFirst(head, a, c);
    OnlyFirst(head, b, c);
    assert start[|head|] == a[0] && end[|head|] == b[0];
  }

  lemma OnlyFirst(head: string, a: string, c: char)
    requires head != [] && c !in head[1..] && c !in a
    ensures forall i :: 0 < i < |head + a| ==> (head + a)[i] != c
  {
    forall i | 0 < i < |head + a| ensures (head + a)[i] != c {
      if i < |head| {
        assert (head + a)[i] == head[1..][i - 1];
      } else {
        assert (head + a)[i] == a[i - |head|];
      }
    }
  }

  /** A start marker occurs again after the first one. */
  ghost predicate SecondStart(mk: Markers, text: string) {
    OccursTwice(mk.start, text)
  }

  ghost predicate OccursTwice(m: string, text: string) {
    Occurs(m, text) && Occurs(m, text[Find(m, text) + |m|..])
  }

  // ---------------------------------------------------------------------------
  // Occurrences across a boundary
  // ---------------------------------------------------------------------------

  lemma {:induction false} AbsentStartsNowhere(m: string, y: string, t: string)
    requires !Occurs(m, y + t)
    ensures NoneStarts(m, y, t)
  {
    if y != [] {
      assert (y + t)[1..] == y[1..] + t;
      AbsentStartsNowhere(m, y[1..], t);
    }
  }

  lemma {:induction false} StartsNowhereIsAbsent(m: string, y: string, t: string)
    requires NoneStarts(m, y, t) && !Occurs(m, t)
    ensures !Occurs(m, y + t)
  {
    if y == [] {
      assert y + t == t;
    } else {
      assert (y + t)[1..] == y[1..] + t;
      StartsNowhereIsAbsent(m, y[1..], t);
    }
  }

  lemma {:induction false} OtherCharacters(m: string, y: string, t: string)
    requires m != [] && forall c :: c in y ==> c != m[0]
    ensures NoneStarts(m, y, t)
  {
    if y != [] {
      assert (y + t)[0] == y[0] && y[0] in y;
      assert forall c :: c in y[1..] ==> c in y;
      OtherCharacters(m, y[1..], t);
    }
  }

  /** Text that begins like `m` cannot complete an `m` begun before it. */
  lemma {:induction false} NothingStraddles(m: string, y: string, e: string, z: string)
    requires m != [] && forall i :: 0 < i < |m| ==> m[i] != m[0]
    requires e != [] && e[0] == m[0] && NoneStarts(m, y, e)
    ensures NoneStarts(m, y, e + z)
  {
    if y != [] {
      NothingStraddles(m, y[1..], e, z);
      if m <= y + (e + z) {
        PrefixStopsAt(m, y, e, z);
      }
    }
  }

  lemma PrefixStopsAt(m: string, y: string, e: string, z: string)
    requires m != [] && (forall i :: 0 < i < |m| ==> m[i] != m[0])
    requires e != [] && e[0] == m[0] && y != [] && m <= y + (e + z)
    ensures m <= y + e
  {
    var s := y + (e + z);
    assert s[|y|] == m[0];
    assert forall i :: 0 <= i < |m| ==> m[i] == s[i];
  }

  lemma EndStartsNothing(start: string, end: string, t: string)
    requires start != [] && end != []
    requires forall i :: 0 < i < |end| ==> end[i] != start[0]
    requires exists i :: 0 <= i < |start| && i < |end| && start[i] != end[i]
    ensures NoneStarts(start, end, t)
  {
    OtherCharacters(start, end[1..], t);
    var i :| 0 <= i < |start| && i < |end| && start[i] != end[i];
    assert (end + t)[i] == end[i];
  }

  /** Behind the first start marker only the text after the block can hold another. */
  lemma OnlyAfterBlock(start: string, end: string, body: string, after: string)
    requires AreSeparate(start, end) && NoneStarts(start, body, end)
    ensures Occurs(start, body + end + after) <==> Occurs(start, after)
  {
    NothingStraddles(start, body, end, after);
    EndStartsNothing(start, end, after);
    NoneStartsConcat(start, body, end, after);
    if Occurs(start, after) {
      OccursLater(start, body + end, after);
    } else {
      StartsNowhereIsAbsent(start, body + end, after);
    }
  }

  // ---------------------------------------------------------------------------
  // A first insertion leaves no marker behind the block
  // ---------------------------------------------------------------------------

  lemma {:induction false} BeforeNewlines(m: string, x: string, run: string)
    requires Inline(m) && !Occurs(m, x) && IsRun(run)
    ensures NoneStarts(m, x, run)
  {
    if x != [] {
      BeforeNewlines(m, x[1..], run);
      if m <= x + run {
        PrefixBeforeNewlines(m, x, run);
      }
    }
  }

  lemma PrefixBeforeNewlines(m: string, x: string, run: string)
    requires Inline(m) && m <= x + run && IsRun(run)
    ensures m <= x
  {
    assert forall i :: 0 <= i < |m| ==> m[i] == (x + run)[i];
    assert run != [] ==> (x + run)[|x|] == run[0] && run[0] in run;
  }

  lemma NewlinesAdded(m: string, x: string, run: string)
    requires Inline(m) && !Occurs(m, x) && IsRun(run)
    ensures !Occurs(m, x + run)
  {
    BeforeNewlines(m, x, run);
    assert m[0] in m;
    OtherCharacters(m, run, []);
    assert run + [] == run;
    StartsNowhereIsAbsent(m, run, []);
    StartsNowhereIsAbsent(m, x, run);
  }

  lemma NotInText(m: string, lines: seq<string>, nl: string)
    requires Inline(m) && IsNewline(nl) && forall l :: l in lines ==> !Occurs(m, l)
    ensures !Occurs(m, TextOf(lines, nl))
  {
    NoneStartsInText(m, lines, nl, []);
    StartsNowhereIsAbsent(m, TextOf(lines, nl), []);
    assert TextOf(lines, nl) + [] == TextOf(lines, nl);
  }

  lemma NotBelow(m: string, after: seq<string>, nl: string)
    requires Inline(m) && IsNewline(nl) && forall l :: l in after ==> !Occurs(m, l)
    ensures !Occurs(m, Below(after, nl))
  {
    if after != [] {
      var lines := ["", ""] + after;
      assert lines[1..] == [""] + after && lines[1..][1..] == after;
      NotInText(m, lines, nl);
      JoinTerminated(after, nl);
      var s := nl + nl + Join(nl, after);
      assert TextOf(lines, nl) == s + nl;
      PrefixWithout(m, s, s + nl);
      PrefixWithout(m, StripEnd(s, nl), s);
    }
  }

  lemma PrefixWithout(m: string, p: string, s: string)
    requires p <= s && !Occurs(m, s)
    ensures !Occurs(m, p)
  {
    TakeDrop(s, |p|);
    if Occurs(m, p) {
      OccursEarlier(m, p, s[|p|..]);
    }
  }

  lemma NotAfterInsertion(m: string, readme: string)
    requires Inline(m) && !Occurs(m, readme)
    ensures !Occurs(m, InsertionPoint(readme).after)
  {
    var nl, lines := Newline(readme), SplitLines(readme);
    var rest := lines[InsertionIndex(lines)..];
    DropFirstBlanksHead(rest);
    KeptWithout(m, readme, rest, DropFirstBlanks(rest));
    NotBelow(m, DropFirstBlanks(rest), nl);
    TrailingIsRun(readme, nl);
    NewlinesAdded(m, Below(DropFirstBlanks(rest), nl), Trailing(readme, nl));
  }

  lemma KeptWithout(m: string, readme: string, rest: seq<string>, kept: seq<string>)
    requires !Occurs(m, readme) && (forall l :: l in rest ==> l in SplitLines(readme)) && forall l :: l in kept ==>
            l in rest
    ensures forall l :: l in kept ==> !Occurs(m, l)
  {
    LinesWithout(m, readme, kept);
  }

  // ---------------------------------------------------------------------------
  // Once, exactly
  // ---------------------------------------------------------------------------

  /** The README already holds a start marker behind its first block. */
  ghost predicate HasFurtherBlock(mk: Markers, readme: string) {
    Locate(mk, readme).Between? && Occurs(mk.start, Locate(mk, readme).tail)
  }

  lemma FurtherStart(mk: Markers, readme: string)
    requires FrameOf(mk, readme).Frame?
    ensures Occurs(mk.start, FrameOf(mk, readme).after) <==> HasFurtherBlock(mk, readme)
  {
    if Locate(mk, readme).Absent? {
      NotAfterInsertion(mk.start, readme);
    }
  }

  /** The written file holds the block once, unless the README already had a start marker behind
      its first block; then, and only then, that one stays. */
  lemma OnceExactly(mk: Markers, readme: string, block: string)
    requires Separate(mk) && WellFormed(mk, block) && !Occurs(mk.start, block[|mk.start|..])
    requires Upsert(mk, readme, block).Updated?
    ensures Occurs(mk.start, Upsert(mk, readme, block).text)
    ensures SecondStart(mk, Upsert(mk, readme, block).text) <==> HasFurtherBlock(mk, readme)
  {
    UpsertIsFramed(mk, readme, block);
    FrameBefore(mk, readme);
    FurtherStart(mk, readme);
    var f, nl := FrameOf(mk, readme), Newline(readme);
    var body := BlockBody(mk, block);
    FilledShape(mk.start, body, mk.end, nl);
    NoStartInside(mk.start, mk.end, block, body, nl);
    StartsOf(mk.start, mk.end, f.before, WithNewlines(body, nl), f.after, Upsert(mk, readme, block).text);
  }

  lemma NoStartInside(start: string, end: string, block: string, body: string, nl: string)
    requires Inline(start) && IsNewline(nl)
    requires block == start + body + end && !Occurs(start, block[|start|..])
    ensures NoneStarts(start, WithNewlines(body, nl), end)
  {
    assert block[|start|..] == body + end;
    AbsentStartsNowhere(start, body, end);
    NoneStartsStable(start, body, end, nl);
  }

  lemma StartsOf(start: string, end: string, before: string, body: string, after: string, text: string)
    requires AreSeparate(start, end) && NoneStarts(start, before, start)
    requires NoneStarts(end, body, end) && NoneStarts(start, body, end)
    requires text == before + (start + body + end) + after
    ensures Occurs(start, text) && (OccursTwice(start, text) <==> Occurs(start, after))
  {
    var rest := body + end + after;
    FirstStart(start, end, before, body, after, text, rest);
    OnlyAfterBlock(start, end, body, after);
    assert OccursTwice(start, text) <==> Occurs(start, rest);
  }

  lemma FirstStart(start: string, end: string, before: string, body: string, after: string, text: string, rest: string)
    requires NoneStarts(start, before, start) && NoneStarts(end, body, end)
    requires text == before + (start + body + end) + after && rest == body + end + after
    ensures Occurs(start, text) && (OccursTwice(start, text) <==> Occurs(start, rest))
  {
    Regroup(before, start, body, end, after);
    SplitsFound(start, end, before, body, after, rest, text);
  }

  /** A README made of the same block twice keeps the second one. */
  lemma SecondBlockStays(mk: Markers, block: string)
    requires WellFormed(mk, block)
    ensures HasFurtherBlock(mk, block + ("\n" + block))
  {
    var body := BlockBody(mk, block);
    var after := "\n" + block;
    assert block + after == [] + (mk.start + body + mk.end) + after;
    LocateFilled(mk, [], body, after, block + after);
    StartOccurs(mk.start, block);
    OccursLater(mk.start, "\n", block);
  }

  lemma StartOccurs(m: string, s: string)
    requires m <= s
    ensures Occurs(m, s)
  {
  }
}
