/** Rewriting the generated coverage-pointer block of a README in place. */
module PointerBlock {
  import opened Collections
  import opened Text
  import opened TextLines

  /** A non-empty text within one line. */
  predicate Inline(m: string) {
    m != [] && '\n' !in m && '\r' !in m
  }

  type Marker = m: string | Inline(m) witness "<"

  /** The comments that delimit a generated block; the results hold for any such pair. */
  datatype Markers = Markers(start: Marker, end: Marker)

  const COMMENT: Marker := "<!-- dcc-mcp-"
  const BLOCK_NAME: Marker := "coverage-pointer:"
  const POINTER_START: Marker := COMMENT + BLOCK_NAME + "start -->"
  const POINTER_END: Marker := COMMENT + BLOCK_NAME + "end -->"

  /** The pair the generator writes. */
  const COVERAGE_POINTER := Markers(POINTER_START, POINTER_END)

  const QUICKSTART_END := "<!-- dcc-mcp-agent-quickstart:end -->"

  lemma Regroup<T>(before: seq<T>, start: seq<T>, body: seq<T>, end: seq<T>, after: seq<T>)
    ensures before + (start + body + end) + after == before + start + (body + end + after)
  {
  }

  // ---------------------------------------------------------------------------
  // Substrings
  // ---------------------------------------------------------------------------

  /** Python's `m in s`. */
  predicate Occurs(m: string, s: string) {
    m <= s || (s != [] && Occurs(m, s[1..]))
  }

  /** The first occurrence, as `s.split(m, 1)` finds it. */
  function Find(m: string, s: string): (i: nat)
    requires Occurs(m, s)
    ensures i + |m| <= |s| && s[i..i + |m|] == m
  {
    if m <= s then 0 else 1 + Find(m, s[1..])
  }

  predicate OccursAt(m: string, s: string, i: nat) {
    i + |m| <= |s| && s[i..i + |m|] == m
  }

  ghost predicate Appears(m: string, s: string) {
    exists i: nat :: OccursAt(m, s, i)
  }

  ghost predicate FirstAppears(m: string, s: string, i: nat) {
    OccursAt(m, s, i) && forall k: nat :: k < i ==> !OccursAt(m, s, k)
  }

  lemma OccursShift(m: string, s: string, i: nat)
    requires s != []
    ensures OccursAt(m, s[1..], i) <==> OccursAt(m, s, i + 1)
    ensures OccursAt(m, s, 0) <==> m <= s
  {
    if i + |m| < |s| {
      assert s[1..][i..i + |m|] == s[i + 1..i + 1 + |m|];
    }
  }

  /** `Occurs` and `Find` are about positions: some position, and the first one. */
  lemma {:induction false} FoundExactly(m: string, s: string)
    ensures Occurs(m, s) <==> Appears(m, s)
    ensures Occurs(m, s) ==> FirstAppears(m, s, Find(m, s))
  {
    if s == [] {
      assert Occurs(m, s) ==> OccursAt(m, s, 0);
    } else {
      FoundExactly(m, s[1..]);
      forall i: nat ensures OccursAt(m, s[1..], i) <==> OccursAt(m, s, i + 1) {
        OccursShift(m, s, i);
      }
      OccursShift(m, s, 0);
      if Occurs(m, s) && !(m <= s) {
        var i := Find(m, s[1..]);
        assert OccursAt(m, s, i + 1);
        forall k: nat | k < i + 1 ensures !OccursAt(m, s, k) {
          assert k > 0 ==> !OccursAt(m, s[1..], k - 1);
        }
      }
      if i: nat :| OccursAt(m, s, i) {
        assert i > 0 ==> OccursAt(m, s[1..], i - 1);
      }
    }
  }

  lemma FirstIsUnique(m: string, s: string, i: nat, j: nat)
    requires FirstAppears(m, s, i) && FirstAppears(m, s, j)
    ensures i == j
  {
  }

  /** No occurrence of `m` in `y + t` starts inside `y`. */
  ghost predicate NoneStarts(m: string, y: string, t: string) {
    y == [] || (!(m <= y + t) && NoneStarts(m, y[1..], t))
  }

  lemma {:induction false} FindAfter(m: string, y: string, t: string)
    requires NoneStarts(m, y, t) && Occurs(m, t)
    ensures Occurs(m, y + t) && Find(m, y + t) == |y| + Find(m, t)
  {
    if y == [] {
      assert y + t == t;
    } else {
      assert (y + t)[1..] == y[1..] + t;
      FindAfter(m, y[1..], t);
    }
  }

  lemma {:induction false} FindSplits(m: string, s: string)
    requires Occurs(m, s)
    ensures NoneStarts(m, s[..Find(m, s)], s[Find(m, s)..])
  {
    if !(m <= s) {
      FindSplits(m, s[1..]);
      SliceShift(s, Find(m, s));
    }
  }

  lemma SliceShift<T>(s: seq<T>, i: nat)
    requires 0 < i <= |s|
    ensures s[..i][1..] == s[1..][..i - 1] && s[i..] == s[1..][i - 1..] && s[..i] + s[i..] == s
  {
  }

  /** Whether an occurrence starts inside `y` depends only on the next |m| characters. */
  lemma {:induction false} NoneStartsExtends(m: string, y: string, t: string, z: string)
    requires NoneStarts(m, y, t) && |t| >= |m|
    ensures NoneStarts(m, y, t + z)
  {
    if y != [] {
      NoneStartsExtends(m, y[1..], t, z);
      assert y + (t + z) == (y + t) + z;
      assert (y + t + z)[..|m|] == (y + t)[..|m|];
    }
  }

  lemma {:induction false} NoneStartsCut(m: string, y: string, t: string, z: string)
    requires NoneStarts(m, y, t + z) && |t| >= |m|
    ensures NoneStarts(m, y, t)
  {
    if y != [] {
      NoneStartsCut(m, y[1..], t, z);
      assert y + (t + z) == (y + t) + z;
      assert (y + t + z)[..|m|] == (y + t)[..|m|];
    }
  }

  lemma {:induction false} NoneStartsConcat(m: string, a: string, b: string, t: string)
    requires NoneStarts(m, a, b + t) && NoneStarts(m, b, t)
    ensures NoneStarts(m, a + b, t)
  {
    if a == [] {
      assert a + b == b;
    } else {
      NoneStartsConcat(m, a[1..], b, t);
      assert (a + b)[1..] == a[1..] + b;
      assert (a + b) + t == a + (b + t);
    }
  }

  // ---------------------------------------------------------------------------
  // Newlines and lines
  // ---------------------------------------------------------------------------

  /** The newline convention of a file. */
  function Newline(readme: string): (nl: string)
    ensures nl == "\n" || nl == "\r\n"
  {
    if Occurs("\r\n", readme) then "\r\n" else "\n"
  }

  /** The convention is CRLF exactly when the file has one somewhere. */
  lemma NewlineExactly(readme: string)
    ensures Newline(readme) == "\r\n" <==>
            exists i: nat :: i + 1 < |readme| && readme[i] == '\r' && readme[i + 1] == '\n'
  {
    FoundExactly("\r\n", readme);
    if i: nat :| OccursAt("\r\n", readme, i) {
      assert readme[i] == readme[i..i + 2][0] && readme[i + 1] == readme[i..i + 2][1];
    }
    if i: nat :| i + 1 < |readme| && readme[i] == '\r' && readme[i + 1] == '\n' {
      assert OccursAt("\r\n", readme, i);
    }
  }

  /** The trailing newline run of a file, or one newline if it has none. */
  function Trailing(readme: string, nl: string): string {
    var run := readme[|StripEnd(readme, nl)|..];
    if run == [] then nl else run
  }

  lemma TrailingIsRun(readme: string, nl: string)
    requires IsNewline(nl)
    ensures Trailing(readme, nl) != [] && IsRun(Trailing(readme, nl)) && forall c :: c in Trailing(readme, nl) ==>
            c in nl
  {
  }

  // ---------------------------------------------------------------------------
  // Where the block goes
  // ---------------------------------------------------------------------------

  predicate IsBlank(line: string) {
    Strip(line) == []
  }

  predicate IsQuickstartEnd(line: string) {
    Strip(line) == QUICKSTART_END
  }

  predicate IsTitle(line: string) {
    "# " <= line
  }

  function HashRun(line: string): nat {
    if line != [] && line[0] == '#' then 1 + HashRun(line[1..]) else 0
  }

  /** A heading of level one to six. */
  predicate IsHeading(line: string) {
    var n := HashRun(line);
    1 <= n <= 6 && n < |line| && line[n] == ' '
  }

  predicate IsSection(line: string) {
    IsHeading(line) && !IsTitle(line)
  }

  /** The first index from `start` whose line satisfies `p`, or |lines|. */
  function FirstFrom(lines: seq<string>, start: nat, p: string -> bool): (i: nat)
    requires start <= |lines|
    ensures start <= i <= |lines|
    ensures i < |lines| ==> p(lines[i])
    ensures forall k :: start <= k < i ==> !p(lines[k])
    decreases |lines| - start
  {
    if start == |lines| || p(lines[start]) then start else FirstFrom(lines, start + 1, p)
  }

  /** After the quickstart block, else before the first section below the title, else at the end. */
  function InsertionIndex(lines: seq<string>): (i: nat)
    ensures i <= |lines|
  {
    var quickstart := FirstFrom(lines, 0, IsQuickstartEnd);
    if quickstart < |lines| then quickstart + 1
    else
      var title := FirstFrom(lines, 0, IsTitle);
      FirstFrom(lines, if title < |lines| then title + 1 else 0, IsSection)
  }

  method FindInsertionIndex(lines: seq<string>) returns (index: nat)
    ensures index == InsertionIndex(lines)
    ensures HasQuickstart(lines) ==> BehindQuickstart(lines, index)
    ensures forall t: nat :: !HasQuickstart(lines) && TitleEnds(lines, t) ==> AtSection(lines, t, index)
  {
    forall t: nat
      ensures HasQuickstart(lines) ==> BehindQuickstart(lines, InsertionIndex(lines))
      ensures !HasQuickstart(lines) && TitleEnds(lines, t) ==> AtSection(lines, t, InsertionIndex(lines))
    {
      IndexExactly(lines, t);
    }
    for i := 0 to |lines|
      invariant FirstFrom(lines, 0, IsQuickstartEnd) == FirstFrom(lines, i, IsQuickstartEnd)
    {
      if IsQuickstartEnd(lines[i]) {
        return i + 1;
      }
    }
    var start := 0;
    var position := 0;
    while position < |lines|
      invariant position <= |lines| && start == 0
      invariant FirstFrom(lines, 0, IsTitle) == FirstFrom(lines, position, IsTitle)
    {
      if IsTitle(lines[position]) {
        start := position + 1;
        break;
      }
      position := position + 1;
    }
    for k := start to |lines|
      invariant FirstFrom(lines, start, IsSection) == FirstFrom(lines, k, IsSection)
    {
      if IsSection(lines[k]) {
        return k;
      }
    }
    return |lines|;
  }

  /** A line that begins with two to six hashes and a space. */
  ghost predicate BeginsSection(line: string) {
    exists n :: 2 <= n <= 6 && HashesThenSpace(line, n)
  }

  predicate HashesThenSpace(line: string, n: nat) {
    n < |line| && line[n] == ' ' && forall i :: 0 <= i < n ==> line[i] == '#'
  }

  lemma {:induction false} HashRunIs(line: string)
    ensures var n := HashRun(line);
            n <= |line| && (forall i :: 0 <= i < n ==> line[i] == '#') && (n < |line| ==> line[n] != '#')
  {
    if line != [] && line[0] == '#' {
      HashRunIs(line[1..]);
      var n := HashRun(line[1..]);
      assert forall i :: 0 <= i < n ==> line[1..][i] == line[i + 1];
      assert forall i :: 0 < i < n + 1 ==> line[i] == line[1..][i - 1];
    }
  }

  lemma TitleExactly(line: string)
    ensures IsTitle(line) <==> HashesThenSpace(line, 1)
  {
  }

  lemma SectionExactly(line: string)
    ensures IsSection(line) <==> BeginsSection(line)
  {
    var n := HashRun(line);
    HashRunIs(line);
    TitleExactly(line);
    assert IsHeading(line) ==> HashesThenSpace(line, n);
    if k :| 2 <= k <= 6 && HashesThenSpace(line, k) {
      assert n == k;
      assert line[1] == '#';
    }
  }

  /** `t` is one past the first line that begins with a hash and a space, or 0 without one. */
  ghost predicate TitleEnds(lines: seq<string>, t: nat) {
    if exists i :: 0 <= i < |lines| && "# " <= lines[i]
    then 0 < t <= |lines| && "# " <= lines[t - 1] && forall i :: 0 <= i < t - 1 ==> !("# " <= lines[i])
    else t == 0
  }

  ghost predicate HasQuickstart(lines: seq<string>) {
    exists i :: 0 <= i < |lines| && Strip(lines[i]) == QUICKSTART_END
  }

  /** Behind the first quickstart end. */
  ghost predicate BehindQuickstart(lines: seq<string>, index: nat) {
    && 0 < index <= |lines| && Strip(lines[index - 1]) == QUICKSTART_END
    && forall i :: 0 <= i < index - 1 ==> Strip(lines[i]) != QUICKSTART_END
  }

  /** At the first section heading from `t` on, or at the end. */
  ghost predicate AtSection(lines: seq<string>, t: nat, index: nat) {
    && t <= index <= |lines| && (index < |lines| ==> BeginsSection(lines[index]))
    && forall i :: t <= i < index ==> !BeginsSection(lines[i])
  }

  /** Where the block goes, told from the characters of the lines: behind the first quickstart end; without
      one, before the first section heading below the title; without one, at the end. */
  lemma IndexExactly(lines: seq<string>, t: nat)
    ensures HasQuickstart(lines) ==> BehindQuickstart(lines, InsertionIndex(lines))
    ensures !HasQuickstart(lines) && TitleEnds(lines, t) ==> AtSection(lines, t, InsertionIndex(lines))
  {
    QuickstartIs(lines);
    if TitleEnds(lines, t) {
      TitleIs(lines, t);
      SectionIs(lines, t);
    }
  }

  lemma QuickstartIs(lines: seq<string>)
    ensures var q := FirstFrom(lines, 0, IsQuickstartEnd);
            if HasQuickstart(lines) then q < |lines| && BehindQuickstart(lines, q + 1) else q == |lines|
  {
    var q := FirstFrom(lines, 0, IsQuickstartEnd);
    assert q < |lines| ==> IsQuickstartEnd(lines[q]);
    assert forall k :: 0 <= k < q ==> !IsQuickstartEnd(lines[k]);
  }

  lemma SectionIs(lines: seq<string>, t: nat)
    requires t <= |lines|
    ensures AtSection(lines, t, FirstFrom(lines, t, IsSection))
  {
    forall i | 0 <= i < |lines| ensures IsSection(lines[i]) <==> BeginsSection(lines[i]) {
      SectionExactly(lines[i]);
    }
  }

  lemma TitleIs(lines: seq<string>, t: nat)
    requires TitleEnds(lines, t)
    ensures t <= |lines|
    ensures var title := FirstFrom(lines, 0, IsTitle); t == if title < |lines| then title + 1 else 0
  {
    var title := FirstFrom(lines, 0, IsTitle);
    assert title < |lines| ==> IsTitle(lines[title]);
    if t > 0 {
      assert IsTitle(lines[t - 1]);
      SameFirst(lines, IsTitle, title, t - 1);
    }
  }

  lemma SameFirst(lines: seq<string>, p: string -> bool, i: nat, j: nat)
    requires j < |lines| && p(lines[j]) && forall k :: 0 <= k < j ==> !p(lines[k])
    requires i <= |lines| && (i < |lines| ==> p(lines[i])) && forall k :: 0 <= k < i ==> !p(lines[k])
    ensures i == j
  {
  }

  // ---------------------------------------------------------------------------
  // Upsert
  // ---------------------------------------------------------------------------

  datatype Upserted = Updated(text: string) | MissingEnd | OrphanedMarker

  function DropLastBlanks(lines: seq<string>): seq<string> {
    if lines != [] && IsBlank(lines[|lines| - 1]) then DropLastBlanks(lines[..|lines| - 1]) else lines
  }

  function DropFirstBlanks(lines: seq<string>): seq<string> {
    if lines != [] && IsBlank(lines[0]) then DropFirstBlanks(lines[1..]) else lines
  }

  /** The seam: the block fenced by one blank line on each side that has text. */
  function Seam(before: seq<string>, block: string, after: seq<string>): seq<string> {
    (if before == [] then [] else [""]) + [block] + (if after == [] then [] else [""])
  }

  function Placed(before: seq<string>, block: string, after: seq<string>, nl: string): string {
    StripEnd(Join(nl, before + Seam(before, block, after) + after), nl)
  }

  function Inserted(readme: string, block: string, nl: string): string {
    var lines := SplitLines(readme);
    var index := InsertionIndex(lines);
    Placed(DropLastBlanks(lines[..index]), block, DropFirstBlanks(lines[index..]), nl) + Trailing(readme, nl)
  }

  /** Where the block stands in the file: around an existing pair of markers, or nowhere yet. */
  datatype Spot = Between(head: string, tail: string) | Absent | NoEnd | Orphaned

  function LocateEnd(end: string, head: string, rest: string): Spot {
    if Occurs(end, rest) then Between(head, rest[Find(end, rest) + |end|..]) else NoEnd
  }

  function LocatePair(start: string, end: string, readme: string): Spot {
    if Occurs(start, readme) && Occurs(end, readme) then
      var i := Find(start, readme);
      LocateEnd(end, readme[..i], readme[i + |start|..])
    else if Occurs(start, readme) || Occurs(end, readme) then Orphaned
    else Absent
  }

  function Locate(mk: Markers, readme: string): Spot {
    LocatePair(mk.start, mk.end, readme)
  }

  function Upsert(mk: Markers, readme: string, block: string): Upserted {
    Settle(Locate(mk, readme), readme, WithNewlines(block, Newline(readme)))
  }

  function Settle(spot: Spot, readme: string, filled: string): Upserted {
    match spot
    case Between(head, tail) => Updated(head + filled + tail)
    case NoEnd => MissingEnd
    case Orphaned => OrphanedMarker
    case Absent => Updated(Inserted(readme, filled, Newline(readme)))
  }

  method InsertPointer(readme: string, filled: string, nl: string) returns (text: string)
    ensures text == Inserted(readme, filled, nl)
  {
    var lines := SplitLines(readme);
    var index := FindInsertionIndex(lines);
    var before := lines[..index];
    while before != [] && IsBlank(before[|before| - 1])
      invariant DropLastBlanks(before) == DropLastBlanks(lines[..index])
    {
      before := before[..|before| - 1];
    }
    var after := lines[index..];
    while after != [] && IsBlank(after[0])
      invariant DropFirstBlanks(after) == DropFirstBlanks(lines[index..])
    {
      after := after[1..];
    }
    var joined := Join(nl, before + Seam(before, filled, after) + after);
    var trailing := readme[|StripEnd(readme, nl)|..];
    if trailing == [] {
      trailing := nl;
    }
    return StripEnd(joined, nl) + trailing;
  }

  /** The text between the first start marker and the next end marker is replaced. */
  method ReplaceBlock(end: string, readme: string, head: string, rest: string, filled: string) returns (r: Upserted)
    ensures r == Settle(LocateEnd(end, head, rest), readme, filled)
  {
    if !Occurs(end, rest) {
      return MissingEnd;
    }
    return Updated(head + filled + rest[Find(end, rest) + |end|..]);
  }

  method InsertBlock(readme: string, filled: string) returns (r: Upserted)
    ensures r == Settle(Absent, readme, filled)
  {
    var text := InsertPointer(readme, filled, Newline(readme));
    return Updated(text);
  }

  method UpsertPair(start: string, end: string, readme: string, filled: string) returns (r: Upserted)
    ensures r == Settle(LocatePair(start, end, readme), readme, filled)
  {
    if Occurs(start, readme) && Occurs(end, readme) {
      var i := Find(start, readme);
      r := ReplaceBlock(end, readme, readme[..i], readme[i + |start|..], filled);
      return;
    }
    if Occurs(start, readme) || Occurs(end, readme) {
      assert LocatePair(start, end, readme) == Orphaned;
      return OrphanedMarker;
    }
    assert LocatePair(start, end, readme) == Absent;
    r := InsertBlock(readme, filled);
  }

  method UpsertPointer(mk: Markers, readme: string, block: string) returns (r: Upserted)
    ensures r == Upsert(mk, readme, block)
  {
    r := UpsertPair(mk.start, mk.end, readme, WithNewlines(block, Newline(readme)));
  }

  /** The four outcomes, told from where the markers stand: nothing there, one of them alone, no end
      behind the first start, and the text between the first start and the next end replaced. */
  lemma UpsertExactly(mk: Markers, readme: string, block: string, i: nat, j: nat)
    ensures !Appears(mk.start, readme) && !Appears(mk.end, readme) ==> Upsert(mk, readme, block).Updated?
    ensures (Appears(mk.start, readme) <==> !Appears(mk.end, readme)) ==> Upsert(mk, readme, block) == OrphanedMarker
    ensures FirstAppears(mk.start, readme, i) && Appears(mk.end, readme)
            && !Appears(mk.end, readme[i + |mk.start|..]) ==>
              Upsert(mk, readme, block) == MissingEnd
    ensures FirstAppears(mk.start, readme, i) && FirstAppears(mk.end, readme[i + |mk.start|..], j) ==>
              Upsert(mk, readme, block) ==
              Updated(readme[..i] + WithNewlines(block, Newline(readme)) + readme[i + |mk.start|..][j + |mk.end|..])
  {
    MarkersAppear(mk.start, mk.end, readme);
    if FirstAppears(mk.start, readme, i) {
      StartsAt(mk.start, mk.end, readme, i, readme[i + |mk.start|..], j);
    }
  }

  lemma MarkersAppear(start: string, end: string, readme: string)
    ensures !Appears(start, readme) && !Appears(end, readme) <==> LocatePair(start, end, readme) == Absent
    ensures (Appears(start, readme) <==> !Appears(end, readme)) <==> LocatePair(start, end, readme) == Orphaned
  {
    AppearsExactly(start, readme);
    AppearsExactly(end, readme);
  }

  lemma AppearsExactly(m: string, s: string)
    ensures Occurs(m, s) <==> Appears(m, s)
  {
    FoundExactly(m, s);
  }

  lemma FoundAt(m: string, s: string, i: nat)
    requires FirstAppears(m, s, i)
    ensures Occurs(m, s) && Find(m, s) == i
  {
    FoundExactly(m, s);
    FirstIsUnique(m, s, i, Find(m, s));
  }

  lemma StartsAt(start: string, end: string, readme: string, i: nat, rest: string, j: nat)
    requires FirstAppears(start, readme, i) && rest == readme[i + |start|..]
    ensures Appears(end, readme) && !Appears(end, rest) ==> LocatePair(start, end, readme) == NoEnd
    ensures FirstAppears(end, rest, j) ==> LocatePair(start, end, readme) == Between(readme[..i], rest[j + |end|..])
  {
    EndAppears(end, readme, i + |start|, rest);
    EndExactly(end, readme[..i], rest, j);
    if Appears(end, readme) {
      StartFound(start, end, readme, i, rest);
    }
  }

  lemma StartFound(start: string, end: string, readme: string, i: nat, rest: string)
    requires FirstAppears(start, readme, i) && Appears(end, readme) && rest == readme[i + |start|..]
    ensures LocatePair(start, end, readme) == LocateEnd(end, readme[..i], rest)
  {
    FoundAt(start, readme, i);
    AppearsExactly(end, readme);
  }

  lemma EndExactly(end: string, head: string, rest: string, j: nat)
    ensures !Appears(end, rest) ==> LocateEnd(end, head, rest) == NoEnd
    ensures FirstAppears(end, rest, j) ==> LocateEnd(end, head, rest) == Between(head, rest[j + |end|..])
  {
    AppearsExactly(end, rest);
    if FirstAppears(end, rest, j) {
      FoundAt(end, rest, j);
    }
  }

  lemma EndAppears(end: string, readme: string, n: nat, rest: string)
    requires n <= |readme| && rest == readme[n..]
    ensures Appears(end, rest) ==> Appears(end, readme)
  {
    if j: nat :| OccursAt(end, rest, j) {
      assert rest[j..j + |end|] == readme[n + j..n + j + |end|];
      assert OccursAt(end, readme, n + j);
    }
  }

  // ---------------------------------------------------------------------------
  // The frame: what stands around the block is fixed by the file alone
  // ---------------------------------------------------------------------------

  datatype Frame = Frame(before: string, after: string) | NoFrame(why: Upserted)

  function FrameOf(mk: Markers, readme: string): Frame {
    FrameAt(Locate(mk, readme), readme)
  }

  function FrameAt(spot: Spot, readme: string): Frame {
    match spot
    case Between(head, tail) => Frame(head, tail)
    case NoEnd => NoFrame(MissingEnd)
    case Orphaned => NoFrame(OrphanedMarker)
    case Absent => InsertionPoint(readme)
  }

  /** The frame around a block that is not there yet. */
  function InsertionPoint(readme: string): Frame {
    var nl := Newline(readme);
    var lines := SplitLines(readme);
    var index := InsertionIndex(lines);
    Frame(Above(DropLastBlanks(lines[..index]), nl),
          Below(DropFirstBlanks(lines[index..]), nl) + Trailing(readme, nl))
  }

  function Above(before: seq<string>, nl: string): string {
    if before == [] then [] else TextOf(before, nl) + nl
  }

  function Below(after: seq<string>, nl: string): string {
    if after == [] then [] else StripEnd(nl + nl + Join(nl, after), nl)
  }

  function Framed(mk: Markers, readme: string, block: string): Upserted {
    Fill(FrameOf(mk, readme), WithNewlines(block, Newline(readme)))
  }

  function Fill(f: Frame, filled: string): Upserted {
    match f
    case Frame(before, after) => Updated(before + filled + after)
    case NoFrame(why) => why
  }

  /** A block as the renderer lays it out: it starts with the start marker, ends with its only
      end marker, spans several lines and has no carriage return. */
  ghost predicate WellFormed(mk: Markers, block: string) {
    && mk.start <= block
    && '\n' in block && '\r' !in block
    && var body := block[|mk.start|..];
       Occurs(mk.end, body) && Find(mk.end, body) + |mk.end| == |body|
  }

  lemma {:induction false} TrimKeepsText(l: string)
    requires Strip(l) != []
    ensures exists c :: c in l && !IsSpace(c)
  {
    if forall c :: c in l ==> IsSpace(c) {
      TrimLeftOfSpaces(l);
    }
  }

  lemma {:induction false} TrimLeftOfSpaces(l: string)
    requires forall c :: c in l ==> IsSpace(c)
    ensures TrimLeft(l) == []
  {
    if l != [] {
      TrimLeftOfSpaces(l[1..]);
    }
  }

  lemma {:induction false} DropFirstBlanksHead(lines: seq<string>)
    ensures var d := DropFirstBlanks(lines);
            && |d| <= |lines| && d == lines[|lines| - |d|..]
            && (d != [] ==> !IsBlank(d[0]))
  {
    if lines != [] && IsBlank(lines[0]) {
      DropFirstBlanksHead(lines[1..]);
    }
  }

  lemma {:induction false} DropLastBlanksPrefix(lines: seq<string>)
    ensures var d := DropLastBlanks(lines);
            && d <= lines
            && (d != [] ==> !IsBlank(d[|d| - 1]))
            && (forall l :: l in lines[|d|..] ==> IsBlank(l))
  {
    if lines != [] && IsBlank(lines[|lines| - 1]) {
      var d := DropLastBlanks(lines);
      DropLastBlanksPrefix(lines[..|lines| - 1]);
      assert lines[|d|..] == lines[..|lines| - 1][|d|..] + [lines[|lines| - 1]];
    }
  }

  lemma JoinAbove(before: seq<string>, rest: seq<string>, nl: string)
    requires rest != []
    ensures Join(nl, before + (if before == [] then [] else [""]) + rest) == Above(before, nl) + Join(nl, rest)
  {
    if before == [] {
      assert before + [] + rest == rest;
    } else {
      JoinConcat(nl, before + [""], rest);
      TextOfConcat(before, [""], nl);
      assert TextOf([""], nl) == nl;
    }
  }

  function Gap(after: seq<string>, nl: string): string {
    if after == [] then [] else nl + nl + Join(nl, after)
  }

  lemma JoinBelow(filled: string, after: seq<string>, nl: string)
    ensures Join(nl, [filled] + (if after == [] then [] else [""]) + after) == filled + Gap(after, nl)
  {
    if after != [] {
      assert [filled] + [""] + after == [filled, ""] + after;
      JoinConcat(nl, [filled, ""], after);
      assert [filled, ""][1..] == [""];
      assert TextOf([""], nl) == nl;
      assert TextOf([filled, ""], nl) == filled + nl + nl;
    } else {
      assert [filled] + [] + after == [filled];
    }
  }

  lemma JoinSeam(before: seq<string>, filled: string, after: seq<string>, nl: string)
    ensures Join(nl, before + Seam(before, filled, after) + after) == Above(before, nl) + filled + Gap(after, nl)
  {
    var top: seq<string>, bottom: seq<string> := (if before == [] then [] else [""]),
        (if after == [] then [] else [""]);
    Regroup(before, top, [filled], bottom, after);
    JoinAbove(before, [filled] + bottom + after, nl);
    JoinBelow(filled, after, nl);
    Assoc(Above(before, nl), filled, Gap(after, nl));
  }

  lemma StripGap(x: string, after: seq<string>, nl: string)
    requires x != [] && x[|x| - 1] !in nl && IsNewline(nl)
    requires after != [] ==> !IsBlank(after[0])
    ensures StripEnd(x + Gap(after, nl), nl) == x + Below(after, nl)
  {
    if after == [] {
      assert x + Gap(after, nl) == x;
    } else {
      TrimKeepsText(after[0]);
      var c :| c in after[0] && !IsSpace(c);
      assert c in Join(nl, after);
      assert c in Gap(after, nl) && c !in nl;
      StripEndConcat(x, Gap(after, nl), nl);
    }
  }

  /** A block whose last character is no newline is untouched by the stripping around it. */
  lemma PlacedIsFramed(before: seq<string>, filled: string, after: seq<string>, nl: string)
    requires IsNewline(nl)
    requires filled != [] && filled[|filled| - 1] !in nl && (after != [] ==> !IsBlank(after[0]))
    ensures Placed(before, filled, after, nl) == Above(before, nl) + filled + Below(after, nl)
  {
    LastOf(Above(before, nl), filled);
    StripGap(Above(before, nl) + filled, after, nl);
    JoinSeam(before, filled, after, nl);
  }

  lemma WellFormedEnd(mk: Markers, block: string, nl: string)
    requires WellFormed(mk, block) && IsNewline(nl)
    ensures var filled := WithNewlines(block, nl);
            filled != [] && filled[|filled| - 1] !in "\r\n" && filled[0] !in "\r\n"
  {
    var body := BlockBody(mk, block);
    FilledShape(mk.start, body, mk.end, nl);
  }

  lemma InsertedIsFramed(readme: string, filled: string)
    requires filled != [] && filled[|filled| - 1] !in Newline(readme)
    ensures InsertionPoint(readme).Frame?
    ensures var f := InsertionPoint(readme); Inserted(readme, filled, Newline(readme)) == f.before + filled + f.after
  {
    var nl, lines := Newline(readme), SplitLines(readme);
    var index := InsertionIndex(lines);
    var before, after := DropLastBlanks(lines[..index]), DropFirstBlanks(lines[index..]);
    DropFirstBlanksHead(lines[index..]);
    PlacedIsFramed(before, filled, after, nl);
    Assoc(Above(before, nl) + filled, Below(after, nl), Trailing(readme, nl));
  }

  /** For a well-formed block, the source's upsert is the frame of the file filled with the block. */
  lemma UpsertIsFramed(mk: Markers, readme: string, block: string)
    requires WellFormed(mk, block)
    ensures Upsert(mk, readme, block) == Framed(mk, readme, block)
  {
    WellFormedEnd(mk, block, Newline(readme));
    SettleIsFilled(Locate(mk, readme), readme, WithNewlines(block, Newline(readme)));
  }

  lemma SettleIsFilled(spot: Spot, readme: string, filled: string)
    requires filled != [] && filled[|filled| - 1] !in Newline(readme)
    ensures Settle(spot, readme, filled) == Fill(FrameAt(spot, readme), filled)
  {
    InsertedIsFramed(readme, filled);
  }

  // ---------------------------------------------------------------------------
  // Newline replacement keeps markers in place
  // ---------------------------------------------------------------------------

  lemma {:induction false} PrefixStable(m: string, x: string, t: string, nl: string)
    requires '\n' !in m && '\r' !in m && IsNewline(nl)
    ensures m <= WithNewlines(x, nl) + t <==> m <= x + t
  {
    if x != [] && m != [] {
      var y := WithNewlines(x, nl) + t;
      if x[0] == '\n' {
        assert y[0] == nl[0] && (x + t)[0] == '\n';
      } else {
        PrefixStable(m[1..], x[1..], t, nl);
        assert y == [x[0]] + (WithNewlines(x[1..], nl) + t);
        assert x + t == [x[0]] + (x[1..] + t);
        assert m == [m[0]] + m[1..];
        PrefixCons(m, x[0], WithNewlines(x[1..], nl) + t);
        PrefixCons(m, x[0], x[1..] + t);
      }
    }
  }

  lemma PrefixCons(m: string, c: char, s: string)
    requires m != []
    ensures m <= [c] + s <==> m[0] == c && m[1..] <= s
  {
    if m[0] == c && m[1..] <= s {
      assert m == [c] + m[1..];
    }
    if m <= [c] + s {
      assert m[1..] == ([c] + s)[..|m|][1..];
    }
  }

  lemma {:induction false} NoneStartsStable(m: string, y: string, t: string, nl: string)
    requires Inline(m) && IsNewline(nl) && NoneStarts(m, y, t)
    ensures NoneStarts(m, WithNewlines(y, nl), t)
  {
    if y != [] {
      NoneStartsStable(m, y[1..], t, nl);
      var rest := WithNewlines(y[1..], nl);
      if y[0] == '\n' {
        NoneStartsNewline(m, nl, rest + t);
        NoneStartsConcat(m, nl, rest, t);
      } else {
        PrefixStable(m, y, t, nl);
        assert WithNewlines(y, nl)[1..] == rest;
      }
    }
  }

  lemma NoneStartsNewline(m: string, nl: string, t: string)
    requires Inline(m) && IsNewline(nl)
    ensures NoneStarts(m, nl, t)
  {
    assert (nl + t)[0] == nl[0];
    if nl == "\r\n" {
      assert nl[1..] == "\n";
      assert ("\n" + t)[0] == '\n';
      assert NoneStarts(m, "\n", t);
    }
  }

  /** The parts of a well-formed block. */
  lemma BlockBody(mk: Markers, block: string) returns (body: string)
    requires WellFormed(mk, block)
    ensures block == mk.start + body + mk.end
    ensures NoneStarts(mk.end, body, mk.end)
  {
    body := BlockParts(mk.start, mk.end, block, block[|mk.start|..]);
  }

  lemma BlockParts(start: string, end: string, block: string, tail: string) returns (body: string)
    requires start <= block && tail == block[|start|..]
    requires Occurs(end, tail) && Find(end, tail) + |end| == |tail|
    ensures block == start + body + end && NoneStarts(end, body, end)
  {
    body := BodyOf(end, tail);
    TakeDrop(block, |start|);
    Assoc(start, body, end);
  }

  lemma BodyOf(end: string, tail: string) returns (body: string)
    requires Occurs(end, tail) && Find(end, tail) + |end| == |tail|
    ensures tail == body + end && NoneStarts(end, body, end)
  {
    var k := Find(end, tail);
    body := tail[..k];
    FindSplits(end, tail);
    TakeDrop(tail, k);
  }

  lemma {:induction false} OccursLater(m: string, y: string, t: string)
    requires Occurs(m, t)
    ensures Occurs(m, y + t)
  {
    if y == [] {
      assert y + t == t;
    } else {
      OccursLater(m, y[1..], t);
      assert (y + t)[1..] == y[1..] + t;
    }
  }

  /** The first `m` after a stretch that starts none, and what follows it. */
  lemma SplitFound(m: string, y: string, z: string)
    requires NoneStarts(m, y, m)
    ensures var text := y + m + z;
            Occurs(m, text) && Find(m, text) == |y| && text[..|y|] == y && text[|y| + |m|..] == z
  {
    NoneStartsExtends(m, y, m, z);
    FindAfter(m, y, m + z);
    Assoc(y, m, z);
    Slices(y, m, z);
  }

  lemma Slices(y: string, m: string, z: string)
    ensures (y + m + z)[..|y|] == y && (y + m + z)[|y| + |m|..] == z
  {
  }

  /** Splitting at the first `start` and then at the first `end` recovers the three parts. */
  lemma SplitsFound(start: string, end: string, before: string, body: string, after: string, rest: string, text: string)
    requires NoneStarts(start, before, start) && NoneStarts(end, body, end)
    requires rest == body + end + after && text == before + start + rest
    ensures Occurs(start, text) && Occurs(end, text)
    ensures Find(start, text) == |before| && text[..|before|] == before && text[|before| + |start|..] == rest
    ensures Occurs(end, rest) && Find(end, rest) == |body| && rest[|body| + |end|..] == after
  {
    SplitFound(end, body, after);
    SplitFound(start, before, rest);
    OccursLater(end, before + start, rest);
  }

  lemma FilledShape(start: string, body: string, end: string, nl: string)
    requires Inline(start) && Inline(end) && IsNewline(nl)
    requires NoneStarts(end, body, end)
    ensures WithNewlines(start + body + end, nl) == start + WithNewlines(body, nl) + end
    ensures NoneStarts(end, WithNewlines(body, nl), end)
  {
    WithNewlinesConcat(start + body, end, nl);
    WithNewlinesConcat(start, body, nl);
    WithNewlinesFixes(start, nl);
    WithNewlinesFixes(end, nl);
    NoneStartsStable(end, body, end, nl);
  }

  lemma LocateFilled(mk: Markers, before: string, body: string, after: string, text: string)
    requires NoneStarts(mk.start, before, mk.start) && NoneStarts(mk.end, body, mk.end)
    requires text == before + (mk.start + body + mk.end) + after
    ensures Locate(mk, text) == Between(before, after)
  {
    LocateParts(mk.start, mk.end, before, body, after, text);
  }

  lemma LocateParts(start: string, end: string, before: string, body: string, after: string, text: string)
    requires NoneStarts(start, before, start) && NoneStarts(end, body, end)
    requires text == before + (start + body + end) + after
    ensures LocatePair(start, end, text) == Between(before, after)
  {
    Regroup(before, start, body, end, after);
    SplitsFound(start, end, before, body, after, body + end + after, text);
  }

  /** A filled frame is found again as the same frame. */
  lemma FrameFound(mk: Markers, before: string, block: string, after: string, nl: string)
    requires WellFormed(mk, block) && IsNewline(nl)
    requires NoneStarts(mk.start, before, mk.start)
    ensures FrameOf(mk, before + WithNewlines(block, nl) + after) == Frame(before, after)
  {
    var body := BlockBody(mk, block);
    FilledShape(mk.start, body, mk.end, nl);
    LocateFilled(mk, before, WithNewlines(body, nl), after, before + WithNewlines(block, nl) + after);
  }

  // ---------------------------------------------------------------------------
  // Absorption
  // ---------------------------------------------------------------------------

  lemma {:induction false} OccursEarlier(m: string, s: string, z: string)
    requires Occurs(m, s)
    ensures Occurs(m, s + z)
  {
    if !(m <= s) {
      OccursEarlier(m, s[1..], z);
      assert (s + z)[1..] == s[1..] + z;
    }
  }

  lemma {:induction false} LineOccurs(m: string, l: string, s: string)
    requires l in SplitLines(s) && Occurs(m, l)
    ensures Occurs(m, s)
  {
    var i := FirstBreak(s);
    if i < |s| {
      var next := i + BreakWidth(s[i..]);
      if l == s[..i] {
        TakeDrop(s, i);
        OccursEarlier(m, l, s[i..]);
      } else {
        TakeDrop(s, next);
        LineOccurs(m, l, s[next..]);
        OccursLater(m, s[..next], s[next..]);
      }
    }
  }

  lemma PrefixWithinLine(m: string, l: string, nl: string, t: string)
    requires Inline(m) && m <= l + (nl + t) && IsNewline(nl)
    ensures m <= l
  {
    var s := l + (nl + t);
    assert s[|l|] == nl[0];
    assert forall i :: 0 <= i < |m| ==> m[i] == s[i];
  }

  lemma {:induction false} NoneStartsInLine(m: string, l: string, nl: string, t: string)
    requires Inline(m) && !Occurs(m, l) && IsNewline(nl)
    ensures NoneStarts(m, l, nl + t)
  {
    if l != [] {
      NoneStartsInLine(m, l[1..], nl, t);
      if m <= l + (nl + t) {
        PrefixWithinLine(m, l, nl, t);
      }
    }
  }

  lemma {:induction false} NoneStartsInText(m: string, lines: seq<string>, nl: string, t: string)
    requires Inline(m) && IsNewline(nl)
    requires forall l :: l in lines ==> !Occurs(m, l)
    ensures NoneStarts(m, TextOf(lines, nl), t)
  {
    if lines != [] {
      var rest := TextOf(lines[1..], nl);
      NoneStartsInText(m, lines[1..], nl, t);
      NoneStartsNewline(m, nl, rest + t);
      NoneStartsConcat(m, nl, rest, t);
      NoneStartsInLine(m, lines[0], nl, rest + t);
      assert nl + (rest + t) == (nl + rest) + t;
      NoneStartsConcat(m, lines[0], nl + rest, t);
      assert lines[0] + nl + rest == lines[0] + (nl + rest);
    }
  }

  lemma NoneStartsAbove(m: string, before: seq<string>, nl: string)
    requires Inline(m) && IsNewline(nl)
    requires forall l :: l in before ==> !Occurs(m, l)
    ensures NoneStarts(m, Above(before, nl), m)
  {
    NoneStartsInText(m, before, nl, nl + m);
    NoneStartsNewline(m, nl, m);
    if before != [] {
      NoneStartsConcat(m, TextOf(before, nl), nl, m);
    }
  }

  lemma FindStarts(m: string, s: string)
    requires Occurs(m, s)
    ensures NoneStarts(m, s[..Find(m, s)], m)
  {
    var i := Find(m, s);
    FindSplits(m, s);
    assert s[i..] == m + s[i + |m|..];
    NoneStartsCut(m, s[..i], m, s[i + |m|..]);
  }

  lemma LinesWithout(m: string, s: string, kept: seq<string>)
    requires !Occurs(m, s)
    requires forall l :: l in kept ==> l in SplitLines(s)
    ensures forall l :: l in kept ==> !Occurs(m, l)
  {
    forall l | l in kept ensures !Occurs(m, l) {
      if Occurs(m, l) { LineOccurs(m, l, s); }
    }
  }

  lemma InsertionBefore(m: string, readme: string)
    requires Inline(m) && !Occurs(m, readme)
    ensures NoneStarts(m, InsertionPoint(readme).before, m)
  {
    var lines := SplitLines(readme);
    var kept := DropLastBlanks(lines[..InsertionIndex(lines)]);
    DropLastBlanksPrefix(lines[..InsertionIndex(lines)]);
    LinesWithout(m, readme, kept);
    NoneStartsAbove(m, kept, Newline(readme));
  }

  /** Nothing before the block starts a start marker. */
  lemma FrameBefore(mk: Markers, readme: string)
    requires FrameOf(mk, readme).Frame?
    ensures NoneStarts(mk.start, FrameOf(mk, readme).before, mk.start)
  {
    if Locate(mk, readme).Between? {
      FindStarts(mk.start, readme);
    } else {
      InsertionBefore(mk.start, readme);
    }
  }

  /** No carriage return is followed by a line feed. */
  ghost predicate NoPair(s: string) {
    forall i :: 0 <= i < |s| - 1 ==> !(s[i] == '\r' && s[i + 1] == '\n')
  }

  lemma {:induction false} PairOccurs(s: string)
    ensures Occurs("\r\n", s) <==> !NoPair(s)
  {
    if s != [] {
      PairOccurs(s[1..]);
      if "\r\n" <= s {
        assert s[0] == '\r' && s[1] == '\n';
      }
      if !NoPair(s) {
        var i :| 0 <= i < |s| - 1 && s[i] == '\r' && s[i + 1] == '\n';
        if i > 0 { assert s[1..][i - 1] == '\r' && s[1..][i] == '\n'; }
      }
      if !NoPair(s[1..]) {
        var i :| 0 <= i < |s[1..]| - 1 && s[1..][i] == '\r' && s[1..][i + 1] == '\n';
        assert s[i + 1] == '\r' && s[i + 2] == '\n';
      }
    }
  }

  lemma {:induction false} TextOfChars(lines: seq<string>, nl: string, c: char)
    requires forall l :: l in lines ==> c !in l
    requires c !in nl
    ensures c !in TextOf(lines, nl) && c !in Join(nl, lines)
  {
    if lines != [] {
      TextOfChars(lines[1..], nl, c);
    }
  }

  lemma LinesHaveNoReturn(kept: seq<string>)
    requires forall l :: l in kept ==> OneLine(l)
    ensures '\r' !in Above(kept, "\n") && '\r' !in Below(kept, "\n")
  {
    TextOfChars(kept, "\n", '\r');
    assert '\r' !in "\n" + "\n" + Join("\n", kept);
  }

  lemma InsertedNoPair(lines: seq<string>, index: nat, trailing: string)
    requires index <= |lines| && forall l :: l in lines ==> OneLine(l)
    requires '\r' !in trailing
    ensures NoPair(Above(DropLastBlanks(lines[..index]), "\n"))
    ensures NoPair(Below(DropFirstBlanks(lines[index..]), "\n") + trailing)
  {
    DropLastBlanksPrefix(lines[..index]);
    DropFirstBlanksHead(lines[index..]);
    LinesHaveNoReturn(DropLastBlanks(lines[..index]));
    LinesHaveNoReturn(DropFirstBlanks(lines[index..]));
  }

  lemma PartsNoPair(s: string, i: nat, j: nat)
    requires i <= |s| && j <= |s| && NoPair(s)
    ensures NoPair(s[..i]) && NoPair(s[j..])
  {
    assert forall k :: 0 <= k < |s| - j ==> s[j..][k] == s[j + k];
  }

  lemma FrameNoPair(mk: Markers, readme: string)
    requires FrameOf(mk, readme).Frame? && Newline(readme) == "\n"
    ensures NoPair(FrameOf(mk, readme).before) && NoPair(FrameOf(mk, readme).after)
  {
    var f := FrameOf(mk, readme);
    if Locate(mk, readme).Between? {
      PairOccurs(readme);
      PartsNoPair(readme, |f.before|, |readme| - |f.after|);
      BetweenParts(mk, readme);
    } else {
      var lines := SplitLines(readme);
      InsertedNoPair(lines, InsertionIndex(lines), Trailing(readme, "\n"));
    }
  }

  lemma BetweenParts(mk: Markers, readme: string)
    requires Locate(mk, readme).Between?
    ensures var b := Locate(mk, readme);
            b.head <= readme && |b.tail| <= |readme| && b.tail == readme[|readme| - |b.tail|..]
  {
  }

  lemma {:induction false} NewlineReplaced(block: string)
    requires '\n' in block
    ensures Occurs("\r\n", WithNewlines(block, "\r\n"))
  {
    if block[0] == '\n' {
      assert "\r\n" <= WithNewlines(block, "\r\n");
    } else {
      NewlineReplaced(block[1..]);
      OccursLater("\r\n", [block[0]], WithNewlines(block[1..], "\r\n"));
    }
  }

  /** The written file keeps the newline convention of the file it came from. */
  lemma NewlineKept(mk: Markers, readme: string, block: string)
    requires WellFormed(mk, block) && FrameOf(mk, readme).Frame?
    ensures Newline(Framed(mk, readme, block).text) == Newline(readme)
  {
    var f, nl := FrameOf(mk, readme), Newline(readme);
    var filled := WithNewlines(block, nl);
    var text := f.before + filled + f.after;
    if nl == "\r\n" {
      NewlineReplaced(block);
      OccursLater("\r\n", f.before, filled);
      OccursEarlier("\r\n", f.before + filled, f.after);
    } else {
      FrameNoPair(mk, readme);
      WithNewlinesFixes(block, nl);
      WellFormedEnd(mk, block, nl);
      PairOccurs(text);
      NoPairConcat(f.before, filled);
      NoPairConcat(f.before + filled, f.after);
    }
  }

  lemma NoPairConcat(a: string, b: string)
    requires NoPair(a) && NoPair(b)
    requires a == [] || b == [] || a[|a| - 1] != '\r' || b[0] != '\n'
    ensures NoPair(a + b)
  {
  }

  /** Upserting b1 and then b2 is upserting b2 alone. */
  lemma Absorption(mk: Markers, readme: string, b1: string, b2: string)
    requires WellFormed(mk, b1) && WellFormed(mk, b2)
    requires Upsert(mk, readme, b1).Updated?
    ensures Upsert(mk, readme, b2).Updated?
    ensures Upsert(mk, Upsert(mk, readme, b1).text, b2) == Upsert(mk, readme, b2)
  {
    UpsertIsFramed(mk, readme, b1);
    UpsertIsFramed(mk, readme, b2);
    var once := Upsert(mk, readme, b1).text;
    UpsertIsFramed(mk, once, b2);
    FrameBefore(mk, readme);
    FrameFound(mk, FrameOf(mk, readme).before, b1, FrameOf(mk, readme).after, Newline(readme));
    NewlineKept(mk, readme, b1);
  }

  // ---------------------------------------------------------------------------
  // The drift check
  // ---------------------------------------------------------------------------

  datatype Verdict = Current | Drifted | Missing | Error

  /** The verdict of the drift scan on a README it could read. */
  function DriftVerdict(mk: Markers, original: string, block: string): Verdict {
    if !Occurs(mk.start, original) then Missing
    else
      match Upsert(mk, original, block)
      case Updated(expected) => if expected == original then Current else Drifted
      case _ => Error
  }

  /** The drift scan: missing without a start marker, an error where the markers are broken, and else
      current exactly when writing the block again changes nothing. */
  lemma DriftExactly(mk: Markers, text: string, block: string)
    ensures DriftVerdict(mk, text, block) == Missing <==> !Appears(mk.start, text)
    ensures DriftVerdict(mk, text, block) == Current <==>
            Appears(mk.start, text) && Upsert(mk, text, block) == Updated(text)
    ensures DriftVerdict(mk, text, block) == Error <==> Appears(mk.start, text) && !Upsert(mk, text, block).Updated?
  {
    FoundExactly(mk.start, text);
  }

  lemma VerdictWhereLocated(mk: Markers, text: string, block: string)
    requires Locate(mk, text).Between?
    ensures Upsert(mk, text, block).Updated?
    ensures DriftVerdict(mk, text, block) == if Upsert(mk, text, block).text == text then Current else Drifted
  {
  }

  /** A README the generator has just written is current for the same block, and for another
      block it is current exactly when that block would have produced the same file. */
  lemma FreshlyWrittenIsCurrent(mk: Markers, readme: string, written: string, block: string)
    requires WellFormed(mk, written) && WellFormed(mk, block)
    requires Upsert(mk, readme, written).Updated?
    ensures DriftVerdict(mk, Upsert(mk, readme, written).text, written) == Current
    ensures DriftVerdict(mk, Upsert(mk, readme, written).text, block) ==
            if Upsert(mk, readme, block) == Upsert(mk, readme, written) then Current else Drifted
  {
    var text := Upsert(mk, readme, written).text;
    Absorption(mk, readme, written, written);
    Absorption(mk, readme, written, block);
    WrittenIsLocated(mk, readme, written);
    VerdictWhereLocated(mk, text, written);
    VerdictWhereLocated(mk, text, block);
  }

  lemma WrittenIsLocated(mk: Markers, readme: string, block: string)
    requires WellFormed(mk, block) && Upsert(mk, readme, block).Updated?
    ensures Locate(mk, Upsert(mk, readme, block).text).Between?
  {
    UpsertIsFramed(mk, readme, block);
    FrameBefore(mk, readme);
    var f, nl := FrameOf(mk, readme), Newline(readme);
    var body := BlockBody(mk, block);
    FilledShape(mk.start, body, mk.end, nl);
    LocateFilled(mk, f.before, WithNewlines(body, nl), f.after, Upsert(mk, readme, block).text);
  }
}
