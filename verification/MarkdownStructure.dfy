/** The documentation linter's view of a Markdown file: fenced code blocks,
    the heading stack and the structure findings. */
module MarkdownStructure {
  import opened Collections
  import opened Text

  // ---------------------------------------------------------------------------
  // Fenced code blocks
  // ---------------------------------------------------------------------------

  /** A run of `length` backticks or tildes. */
  datatype Marker = Marker(ch: char, length: nat)

  datatype FenceMatch = NoMatch | Match(marker: Marker, rest: string)

  function RunLength(c: char, s: string): (n: nat)
    ensures n <= |s|
  {
    if s != [] && s[0] == c then 1 + RunLength(c, s[1..]) else 0
  }

  /** At most three spaces, then three or more backticks or tildes. */
  function MatchFence(line: string): FenceMatch {
    var indent := RunLength(' ', line);
    var body := line[indent..];
    if indent > 3 || body == [] || (body[0] != '`' && body[0] != '~') then NoMatch
    else
      var n := RunLength(body[0], body);
      if n < 3 then NoMatch else Match(Marker(body[0], n), body[n..])
  }

  /** The fence open after `line`, and whether `line` is a delimiter. */
  function FenceStep(line: string, open: Option<Marker>): (Option<Marker>, bool) {
    match MatchFence(line)
    case NoMatch => (open, false)
    case Match(marker, rest) =>
      if open.None? then
        if marker.ch == '`' && '`' in rest then (None, false) else (Some(marker), true)
      else if marker.ch != open.value.ch || marker.length < open.value.length then (open, false)
      else if Strip(rest) != [] then (open, false)
      else (None, true)
  }

  lemma {:induction false} RunLengthIs(c: char, s: string)
    ensures var n := RunLength(c, s); (forall i :: 0 <= i < n ==> s[i] == c) && (n < |s| ==> s[n] != c)
  {
    if s != [] && s[0] == c {
      RunLengthIs(c, s[1..]);
      var n := RunLength(c, s[1..]);
      assert forall i :: 0 < i < n + 1 ==> s[i] == s[1..][i - 1];
    }
  }

  /** `indent` spaces, at most three, then a run of exactly `m.length` of `m.ch`, three or more backticks
      or tildes. */
  predicate IsDelimiter(line: string, indent: nat, m: Marker) {
    && indent <= 3 && m.length >= 3 && (m.ch == '`' || m.ch == '~') && indent + m.length <= |line|
    && (forall i :: 0 <= i < indent ==> line[i] == ' ')
    && (forall i :: indent <= i < indent + m.length ==> line[i] == m.ch)
    && (indent + m.length < |line| ==> line[indent + m.length] != m.ch)
  }

  lemma {:induction false} RunLengthExactly(c: char, s: string, n: nat)
    requires n <= |s| && (forall i :: 0 <= i < n ==> s[i] == c) && (n < |s| ==> s[n] != c)
    ensures RunLength(c, s) == n
  {
    if n > 0 {
      assert forall i :: 0 <= i < n - 1 ==> s[1..][i] == s[i + 1];
      RunLengthExactly(c, s[1..], n - 1);
    }
  }

  lemma MatchExactly(line: string, m: Marker, rest: string)
    ensures MatchFence(line) == Match(m, rest) <==>
            exists indent: nat :: IsDelimiter(line, indent, m) && rest == line[indent + m.length..]
  {
    if MatchFence(line) == Match(m, rest) {
      var indent := MatchIsDelimiter(line);
    }
    if k: nat :| IsDelimiter(line, k, m) && rest == line[k + m.length..] {
      DelimiterMatches(line, k, m, line[k..]);
    }
  }

  lemma MatchIsDelimiter(line: string) returns (indent: nat)
    requires MatchFence(line).Match?
    ensures var f := MatchFence(line); IsDelimiter(line, indent, f.marker) && f.rest == line[indent + f.marker.length..]
  {
    indent := RunLength(' ', line);
    var body := line[indent..];
    RunLengthIs(' ', line);
    RunLengthIs(body[0], body);
    RunBehind(line, indent, body, Marker(body[0], RunLength(body[0], body)));
  }

  lemma RunBehind(line: string, indent: nat, body: string, m: Marker)
    requires indent <= 3 && indent <= |line| && body == line[indent..] && 3 <= m.length <= |body|
    requires (m.ch == '`' || m.ch == '~') && forall i :: 0 <= i < indent ==> line[i] == ' '
    requires (forall i :: 0 <= i < m.length ==> body[i] == m.ch) && (m.length < |body| ==> body[m.length] != m.ch)
    ensures IsDelimiter(line, indent, m) && body[m.length..] == line[indent + m.length..]
  {
    assert forall i :: indent <= i < |line| ==> line[i] == body[i - indent];
  }

  lemma DelimiterMatches(line: string, k: nat, m: Marker, body: string)
    requires IsDelimiter(line, k, m) && body == line[k..]
    ensures MatchFence(line) == Match(m, line[k + m.length..])
  {
    assert line[k] == m.ch && forall i :: 0 <= i < |body| ==> body[i] == line[k + i];
    RunLengthExactly(' ', line, k);
    RunLengthExactly(m.ch, body, m.length);
    assert body[m.length..] == line[k + m.length..];
  }

  /** A line that opens a fence: a delimiter whose info string, for backticks, holds no backtick. */
  ghost predicate IsOpener(line: string, m: Marker) {
    exists indent: nat :: IsDelimiter(line, indent, m) && !(m.ch == '`' && '`' in line[indent + m.length..])
  }

  /** A line that closes a fence: a run of its character, at least as long, and only white space behind. */
  ghost predicate IsCloser(line: string, m: Marker) {
    exists indent: nat, n: nat :: n >= m.length && IsDelimiter(line, indent, Marker(m.ch, n))
        && AllSpace(line[indent + n..])
  }

  /** The fence machine: outside a fence exactly the openers change it, inside exactly the closers. */
  lemma FenceExactly(line: string, m: Marker)
    ensures FenceStep(line, None) == (Some(m), true) <==> IsOpener(line, m)
    ensures FenceStep(line, None) == (None, false) <==> forall o :: !IsOpener(line, o)
    ensures FenceStep(line, Some(m)) == if IsCloser(line, m) then (None, true) else (Some(m), false)
  {
    forall o: Marker, rest: string
      ensures MatchFence(line) == Match(o, rest) <==>
              exists indent: nat :: IsDelimiter(line, indent, o) && rest == line[indent + o.length..]
    {
      MatchExactly(line, o, rest);
    }
    OpenerExactly(line);
    CloserExactly(line, m);
  }

  lemma OpenerExactly(line: string)
    ensures forall o :: IsOpener(line, o) <==>
              var f := MatchFence(line); f.Match? && f.marker == o && !(o.ch == '`' && '`' in f.rest)
  {
    var f := MatchFence(line);
    forall o ensures IsOpener(line, o) <==> f.Match? && f.marker == o && !(o.ch == '`' && '`' in f.rest) {
      if indent: nat :| IsDelimiter(line, indent, o) && !(o.ch == '`' && '`' in line[indent + o.length..]) {
        MatchExactly(line, o, line[indent + o.length..]);
      }
      if f.Match? {
        MatchExactly(line, f.marker, f.rest);
      }
    }
  }

  lemma CloserExactly(line: string, m: Marker)
    ensures IsCloser(line, m) <==>
            var f := MatchFence(line);
            f.Match? && f.marker.ch == m.ch && f.marker.length >= m.length && Strip(f.rest) == []
  {
    var f := MatchFence(line);
    if indent: nat, n: nat :|
      n >= m.length && IsDelimiter(line, indent, Marker(m.ch, n)) && AllSpace(line[indent + n..]) {
      MatchExactly(line, Marker(m.ch, n), line[indent + n..]);
      BlankExactly(line[indent + n..]);
    }
    if f.Match? && f.marker.ch == m.ch {
      MatchExactly(line, f.marker, f.rest);
      BlankExactly(f.rest);
    }
  }

  /** `line` is body text when read with `open`. */
  predicate IsShown(line: string, open: Option<Marker>) {
    FenceStep(line, open) == (None, false)
  }

  /** The fence open after all of `lines`. */
  function OpenAfter(lines: seq<string>, open: Option<Marker>): Option<Marker> {
    if lines == [] then open else OpenAfter(lines[1..], FenceStep(lines[0], open).0)
  }

  // ---------------------------------------------------------------------------
  // What the rules see of a line
  // ---------------------------------------------------------------------------

  datatype Heading = Heading(line: nat, level: nat, title: string)

  /** An ATX heading: one to six hashes, white space, a title. */
  function ParseHeading(line: string): Option<(nat, string)> {
    var text := TrimRight(line);
    var level := RunLength('#', text);
    if 1 <= level <= 6 && level < |text| && IsSpace(text[level])
    then Some((level, TrimLeft(text[level..])))
    else None
  }

  /** One to six hashes, white space, a title without white space at its ends, white space. */
  ghost predicate IsAtx(line: string, n: nat, gap: string, title: string, trail: string) {
    && 1 <= n <= 6 && n <= |line| && (forall i :: 0 <= i < n ==> line[i] == '#')
    && line[n..] == gap + title + trail
    && gap != [] && AllSpace(gap) && AllSpace(trail) && title != [] && IsTight(title)
  }

  /** Exactly the lines of that shape are headings, with that level and title. */
  lemma HeadingExactly(line: string, n: nat, title: string)
    ensures ParseHeading(line) == Some((n, title)) <==> exists gap, trail :: IsAtx(line, n, gap, title, trail)
  {
    if ParseHeading(line) == Some((n, title)) {
      var gap, trail := HeadingParts(line, n, title);
    }
    if gap, trail :| IsAtx(line, n, gap, title, trail) {
      AtxIsHeading(line, n, gap, title, trail);
    }
  }

  lemma HeadingParts(line: string, n: nat, title: string) returns (gap: string, trail: string)
    requires ParseHeading(line) == Some((n, title))
    ensures IsAtx(line, n, gap, title, trail)
  {
    var text := TrimRight(line);
    trail := TrimRightParts(line);
    RunLengthIs('#', text);
    var tail := text[n..];
    gap := TrimLeftParts(tail);
    assert tail[0] == text[n] && text[|text| - 1] == tail[|tail| - 1];
    TitleIsText(tail, gap, title);
    assert line[n..] == tail + trail;
    assert forall i :: 0 <= i < n ==> line[i] == text[i];
  }

  lemma TitleIsText(tail: string, gap: string, title: string)
    requires tail != [] && IsSpace(tail[0]) && !IsSpace(tail[|tail| - 1]) && tail == gap + title && AllSpace(gap)
    requires title == [] || !IsSpace(title[0])
    ensures gap != [] && title != [] && IsTight(title)
  {
    assert tail[|tail| - 1] in tail;
    assert gap == [] ==> tail == title;
    assert title == [] ==> tail == gap;
  }

  lemma AtxIsHeading(line: string, n: nat, gap: string, title: string, trail: string)
    requires IsAtx(line, n, gap, title, trail)
    ensures ParseHeading(line) == Some((n, title))
  {
    var text := line[..n] + (gap + title);
    assert line == text + trail;
    assert text[|text| - 1] == title[|title| - 1];
    TrimRightBefore(text, trail);
    assert text[n..] == gap + title && text[n] == gap[0] && gap[0] in gap;
    RunLengthExactly('#', text, n);
    TrimLeftAfter(gap, title);
  }

  /** The anchor pattern, the slug and the case folding, as functions of the text. */
  datatype Lexis = Lexis(slug: string -> string, anchors: string -> seq<string>, lower: string -> string)

  /** A line is hidden by a fence, or it may carry a heading and anchors. */
  datatype View = Hidden | Body(heading: Option<(nat, string)>, anchors: seq<string>)

  function ViewOf(line: string, open: Option<Marker>, lexis: Lexis): View {
    if IsShown(line, open) then Body(ParseHeading(line), lexis.anchors(line)) else Hidden
  }

  function Views(lines: seq<string>, open: Option<Marker>, lexis: Lexis): (views: seq<View>)
    ensures |views| == |lines|
  {
    if lines == [] then []
    else [ViewOf(lines[0], open, lexis)] + Views(lines[1..], FenceStep(lines[0], open).0, lexis)
  }

  function HeadingIn(view: View, number: nat): (hs: seq<Heading>)
    ensures |hs| <= 1
  {
    if view.Body? && view.heading.Some? then [Heading(number, view.heading.value.0, view.heading.value.1)] else []
  }

  /** What `f` gives for each line and its number, in order. */
  function Collect<T>(views: seq<View>, number: nat, f: (View, nat) -> seq<T>): seq<T> {
    if views == [] then [] else f(views[0], number) + Collect(views[1..], number + 1, f)
  }

  /** The headings of a file whose first line has number `number`. */
  function Headings(views: seq<View>, number: nat): seq<Heading> {
    Collect(views, number, HeadingIn)
  }

  // ---------------------------------------------------------------------------
  // The heading stack, declaratively
  // ---------------------------------------------------------------------------

  /** Heading `j` is an open ancestor of the last heading: every later level is deeper. */
  ghost predicate IsAncestor(hs: seq<Heading>, j: nat) {
    j + 1 < |hs| && forall k :: j < k < |hs| ==> hs[j].level < hs[k].level
  }

  ghost function AncestorsBelow(hs: seq<Heading>, n: nat): (r: seq<nat>)
    requires n <= |hs|
    ensures forall j: nat :: j in r <==> j < n && IsAncestor(hs, j)
    ensures forall a, b :: 0 <= a < b < |r| ==> r[a] < r[b]
  {
    if n == 0 then [] else
    var less := AncestorsBelow(hs, n - 1);
    assert forall a :: 0 <= a < |less| ==> less[a] in less;
    if IsAncestor(hs, n - 1) then less + [n - 1] else less
  }

  /** The ancestor chain of the last heading, outermost first. */
  ghost function Ancestors(hs: seq<Heading>): (r: seq<nat>)
    ensures forall j: nat :: j in r <==> IsAncestor(hs, j)
    ensures forall a :: 0 <= a < |r| ==> r[a] + 1 < |hs|
    ensures forall a, b :: 0 <= a < b < |r| ==> r[a] < r[b]
  {
    var r := AncestorsBelow(hs, |hs|);
    assert forall a :: 0 <= a < |r| ==> r[a] in r && IsAncestor(hs, r[a]);
    r
  }

  /** The stack after the last heading: its ancestors and itself. */
  ghost function Chain(hs: seq<Heading>): (c: seq<nat>)
    ensures forall a :: 0 <= a < |c| ==> c[a] < |hs|
  {
    if hs == [] then [] else Ancestors(hs) + [|hs| - 1]
  }

  datatype Key = Key(level: nat, slug: string, ancestors: seq<string>)

  /** What a heading is compared by: level, slug and the slugs of its ancestors. */
  ghost function KeyOf(hs: seq<Heading>, slug: string -> string): Key
    requires hs != []
  {
    var last := hs[|hs| - 1];
    Key(last.level, slug(last.title), Slugs(hs, Ancestors(hs), slug))
  }

  ghost function Slugs(hs: seq<Heading>, chain: seq<nat>, slug: string -> string): (r: seq<string>)
    requires forall k :: 0 <= k < |chain| ==> chain[k] < |hs|
  {
    seq(|chain|, k requires 0 <= k < |chain| => slug(hs[chain[k]].title))
  }

  /** The key of every heading; a key depends on earlier headings only. */
  ghost function Keys(hs: seq<Heading>, slug: string -> string): (ks: seq<Key>)
    ensures |ks| == |hs|
  {
    if hs == [] then [] else Keys(hs[..|hs| - 1], slug) + [KeyOf(hs, slug)]
  }

  /** The first position of `x`. */
  ghost function FirstIndex<T>(s: seq<T>, x: T): (i: nat)
    requires x in s
    ensures i < |s| && s[i] == x
    ensures forall k :: 0 <= k < i ==> s[k] != x
  {
    if s[0] == x then 0
    else
      assert s == [s[0]] + s[1..];
      1 + FirstIndex(s[1..], x)
  }

  /** The first heading with the key of the last one. */
  ghost function FirstTwin(hs: seq<Heading>, slug: string -> string): (j: nat)
    requires hs != []
    ensures j < |hs|
  {
    FirstIndex(Keys(hs, slug), KeyOf(hs, slug))
  }

  // ---------------------------------------------------------------------------
  // Findings
  // ---------------------------------------------------------------------------

  datatype Finding =
    | DuplicateHeading(line: nat, firstSeen: nat)
    | LevelJump(line: nat, previousLine: nat, previousLevel: nat, level: nat)
    | UnclosedFence(line: nat)
    | MultipleH1(line: nat, count: nat)
    | BrokenAnchor(line: nat, anchor: string)
    | MissingTrailingNewline(line: nat)
    | TabIndentation

  /** What the last heading is reported for. */
  ghost function LastFindings(hs: seq<Heading>, slug: string -> string): seq<Finding>
    requires hs != []
  {
    var last, twin := hs[|hs| - 1], FirstTwin(hs, slug);
    (if twin < |hs| - 1 then [DuplicateHeading(last.line, hs[twin].line)] else []) +
    (if |hs| >= 2 && last.level > hs[|hs| - 2].level + 1
     then [LevelJump(last.line, hs[|hs| - 2].line, hs[|hs| - 2].level, last.level)] else [])
  }

  ghost function HeadingFindings(hs: seq<Heading>, slug: string -> string): seq<Finding> {
    if hs == [] then []
    else HeadingFindings(hs[..|hs| - 1], slug) + LastFindings(hs, slug)
  }

  function CountH1(hs: seq<Heading>): nat {
    if hs == [] then 0 else CountH1(hs[..|hs| - 1]) + (if hs[|hs| - 1].level == 1 then 1 else 0)
  }

  function BadAnchors(anchors: seq<string>, known: set<string>, lower: string -> string, number: nat): seq<Finding> {
    if anchors == [] then []
    else
      var init, last := anchors[..|anchors| - 1], anchors[|anchors| - 1];
      BadAnchors(init, known, lower, number) +
          (if known != {} && lower(last) !in known then [BrokenAnchor(number, last)] else [])
  }

  function AnchorsIn(view: View, known: set<string>, lower: string -> string, number: nat): seq<Finding> {
    if view.Body? then BadAnchors(view.anchors, known, lower, number) else []
  }

  function AnchorRule(known: set<string>, lower: string -> string): (View, nat) -> seq<Finding> {
    (view: View, n: nat) => AnchorsIn(view, known, lower, n)
  }

  function AnchorFindings(views: seq<View>, number: nat, known: set<string>, lower: string -> string): seq<Finding> {
    Collect(views, number, AnchorRule(known, lower))
  }

  function KnownSlugs(hs: seq<Heading>, slug: string -> string): set<string> {
    set h | h in hs :: slug(h.title)
  }

  function FenceFinding(open: Option<Marker>, lines: nat): seq<Finding> {
    if open.Some? then [UnclosedFence(lines)] else []
  }

  function TitleFinding(hs: seq<Heading>): seq<Finding> {
    if CountH1(hs) > 1 then [MultipleH1(if hs == [] then 1 else hs[0].line, CountH1(hs))] else []
  }

  /** The findings for a file seen as `views`, with `open` left open at its end. */
  ghost function Report(views: seq<View>, open: Option<Marker>, lexis: Lexis): seq<Finding> {
    var hs := Headings(views, 1);
    Compose(hs, FenceFinding(open, |views|), AnchorFindings(views, 1, KnownSlugs(hs, lexis.slug), lexis.lower),
        lexis.slug)
  }

  ghost function Compose(hs: seq<Heading>, fence: seq<Finding>, anchors: seq<Finding>,
                         slug: string -> string): seq<Finding> {
    HeadingFindings(hs, slug) + fence + TitleFinding(hs) + anchors
  }

  /** All structure findings of a file, in the order they are reported. */
  ghost function StructureFindings(lines: seq<string>, lexis: Lexis): seq<Finding> {
    Report(Views(lines, None, lexis), OpenAfter(lines, None), lexis)
  }

  // ---------------------------------------------------------------------------
  // The stack is the ancestor chain
  // ---------------------------------------------------------------------------

  lemma ChainIncreases(hs: seq<Heading>)
    ensures var c := Chain(hs);
            forall a, b :: 0 <= a < b < |c| ==> c[a] < c[b] && hs[c[a]].level < hs[c[b]].level
  {
    var c := Chain(hs);
    forall a, b | 0 <= a < b < |c| ensures c[a] < c[b] && hs[c[a]].level < hs[c[b]].level {
      assert c[a] in Ancestors(hs);
    }
  }

  /** An ancestor of the last heading was on the stack before it, with a smaller level. */
  lemma AncestorStep(hs: seq<Heading>, j: nat)
    requires |hs| >= 2
    ensures IsAncestor(hs, j) <==>
            j + 1 < |hs| && hs[j].level < hs[|hs| - 1].level && (j == |hs| - 2 || IsAncestor(hs[..|hs| - 1], j))
  {
    var prev := hs[..|hs| - 1];
    assert forall k :: 0 <= k < |prev| ==> prev[k] == hs[k];
    if j + 2 < |hs| && hs[j].level < hs[|hs| - 1].level && IsAncestor(prev, j) {
      forall k | j < k < |hs| ensures hs[j].level < hs[k].level {
        if k < |prev| { assert prev[j].level < prev[k].level; }
      }
    }
  }

  lemma OnChain(hs: seq<Heading>, j: nat)
    requires hs != []
    ensures j in Chain(hs) <==> j == |hs| - 1 || IsAncestor(hs, j)
  {
  }

  /** Keeping the stack entries of smaller level gives the ancestors of the new heading. */
  lemma PoppedIsAncestors(hs: seq<Heading>, prev: seq<Heading>, c: seq<nat>, kept: nat)
    requires hs != [] && prev == hs[..|hs| - 1] && c == Chain(prev) && kept <= |c|
    requires kept > 0 ==> hs[c[kept - 1]].level < hs[|hs| - 1].level
    requires kept < |c| ==> hs[c[kept]].level >= hs[|hs| - 1].level
    ensures c[..kept] == Ancestors(hs)
  {
    ChainIncreases(prev);
    forall j: nat ensures j in c[..kept] <==> j in Ancestors(hs) {
      KeptExactly(hs, prev, c, kept, j);
      AncestorWasOnStack(hs, prev, j);
    }
    SameIncreasing(c[..kept], Ancestors(hs));
  }

  lemma AncestorWasOnStack(hs: seq<Heading>, prev: seq<Heading>, j: nat)
    requires hs != [] && prev == hs[..|hs| - 1]
    ensures IsAncestor(hs, j) <==> j in Chain(prev) && hs[j].level < hs[|hs| - 1].level
  {
    if prev != [] {
      AncestorStep(hs, j);
      OnChain(prev, j);
    }
  }

  lemma KeptExactly(hs: seq<Heading>, prev: seq<Heading>, c: seq<nat>, kept: nat, j: nat)
    requires hs != [] && prev == hs[..|hs| - 1] && kept <= |c|
    requires forall a :: 0 <= a < |c| ==> c[a] < |prev|
    requires forall a, b :: 0 <= a < b < |c| ==> c[a] < c[b] && prev[c[a]].level < prev[c[b]].level
    requires kept > 0 ==> hs[c[kept - 1]].level < hs[|hs| - 1].level
    requires kept < |c| ==> hs[c[kept]].level >= hs[|hs| - 1].level
    ensures j in c[..kept] <==> j in c && j < |hs| && hs[j].level < hs[|hs| - 1].level
  {
    assert forall k :: 0 <= k < |prev| ==> prev[k] == hs[k];
    if j in c {
      var a :| 0 <= a < |c| && c[a] == j;
      if a < kept {
        assert c[..kept][a] == j;
      } else {
        assert hs[j].level >= hs[|hs| - 1].level;
        assert forall b :: 0 <= b < kept ==> c[b] != j;
      }
    }
  }

  // ---------------------------------------------------------------------------
  // Duplicates
  // ---------------------------------------------------------------------------

  lemma {:induction false} KeyAt(hs: seq<Heading>, slug: string -> string, j: nat)
    requires j < |hs|
    ensures Keys(hs, slug)[j] == KeyOf(hs[..j + 1], slug)
  {
    if j + 1 < |hs| {
      var init := hs[..|hs| - 1];
      KeyAt(init, slug, j);
      assert init[..j + 1] == hs[..j + 1];
    } else {
      assert hs[..j + 1] == hs;
    }
  }

  /** Heading `j` and the last one have the same level and slug, under ancestors with the same slugs. */
  ghost predicate AreTwins(hs: seq<Heading>, j: nat, slug: string -> string) {
    && j < |hs|
    && hs[j].level == hs[|hs| - 1].level && slug(hs[j].title) == slug(hs[|hs| - 1].title)
    && Slugs(hs[..j + 1], Ancestors(hs[..j + 1]), slug) == Slugs(hs, Ancestors(hs), slug)
  }

  /** A heading is reported as a duplicate exactly when an earlier heading has the same level, slug
      and ancestor chain, and the report names the first such heading. */
  lemma DuplicateExactly(hs: seq<Heading>, slug: string -> string, firstSeen: nat)
    requires hs != []
    ensures DuplicateHeading(hs[|hs| - 1].line, firstSeen) in LastFindings(hs, slug) <==>
            exists j: nat :: j + 1 < |hs| && AreTwins(hs, j, slug) && firstSeen == hs[j].line
                             && forall k: nat :: k < j ==> !AreTwins(hs, k, slug)
  {
    var twin := FirstTwin(hs, slug);
    forall k: nat | k < |hs| ensures AreTwins(hs, k, slug) <==> Keys(hs, slug)[k] == KeyOf(hs, slug) {
      KeyAt(hs, slug, k);
    }
  }

  // ---------------------------------------------------------------------------
  // The walk
  // ---------------------------------------------------------------------------

  /** The stack holds the level and slug of every heading on the chain. */
  ghost predicate IsStack(hs: seq<Heading>, stack: seq<(nat, string)>, chain: seq<nat>, slug: string -> string) {
    && |stack| == |chain|
    && (forall k :: 0 <= k < |chain| ==> chain[k] < |hs|)
    && forall k :: 0 <= k < |chain| ==> stack[k] == (hs[chain[k]].level, slug(hs[chain[k]].title))
  }

  /** The keys seen so far, each with the line of the first heading that has it. */
  ghost predicate IsSeen(hs: seq<Heading>, ks: seq<Key>, seen: map<Key, nat>) {
    && |ks| == |hs|
    && (forall k :: k in seen <==> k in ks)
    && forall k :: k in seen ==> seen[k] == hs[FirstIndex(ks, k)].line
  }

  lemma FirstIndexAppend<T>(s: seq<T>, y: T, x: T)
    requires x in s || x == y
    ensures FirstIndex(s + [y], x) == if x in s then FirstIndex(s, x) else |s|
  {
    assert forall k :: 0 <= k < |s| ==> (s + [y])[k] == s[k];
  }

  /** Looking up a new key finds its first twin, and recording it keeps the table. */
  lemma SeenStep(hs: seq<Heading>, ks: seq<Key>, seen: map<Key, nat>, h: Heading, key: Key)
    requires IsSeen(hs, ks, seen)
    ensures key in seen ==> seen[key] == (hs + [h])[FirstIndex(ks + [key], key)].line
    ensures key in seen <==> FirstIndex(ks + [key], key) < |hs|
    ensures IsSeen(hs + [h], ks + [key], if key in seen then seen else seen[key := h.line])
  {
    forall k | k in ks || k == key { FirstIndexAppend(ks, key, k); }
  }

  /** Pop every entry that is at least as deep as `level`. */
  method PopDeeper(stack: seq<(nat, string)>, level: nat) returns (kept: nat)
    ensures kept <= |stack|
    ensures kept > 0 ==> stack[kept - 1].0 < level
    ensures kept < |stack| ==> stack[kept].0 >= level
  {
    kept := |stack|;
    while kept > 0 && stack[kept - 1].0 >= level
      invariant kept <= |stack|
      invariant kept < |stack| ==> stack[kept].0 >= level
    {
      kept := kept - 1;
    }
  }

  lemma StackKey(hs: seq<Heading>, all: seq<Heading>, h: Heading, stack: seq<(nat, string)>, kept: nat,
                 slug: string -> string)
    requires all == hs + [h] && IsStack(hs, stack, Chain(hs), slug)
    requires kept <= |stack|
    requires kept > 0 ==> stack[kept - 1].0 < h.level
    requires kept < |stack| ==> stack[kept].0 >= h.level
    ensures KeyOf(all, slug) == Key(h.level, slug(h.title), SlugsOf(stack[..kept]))
    ensures IsStack(all, stack[..kept] + [(h.level, slug(h.title))], Chain(all), slug)
  {
    var c := Chain(hs);
    assert all[..|all| - 1] == hs;
    PoppedIsAncestors(all, hs, c, kept);
    var up := Ancestors(all);
    assert Chain(all) == up + [|all| - 1];
    assert forall k :: 0 <= k < kept ==> up[k] == c[k] && all[c[k]] == hs[c[k]];
    assert Slugs(all, up, slug) == SlugsOf(stack[..kept]);
  }

  function SlugsOf(stack: seq<(nat, string)>): seq<string> {
    seq(|stack|, k requires 0 <= k < |stack| => stack[k].1)
  }

  /** What the last heading is reported for, from the table of keys and the heading before it. */
  lemma LastFindingsAre(hs: seq<Heading>, all: seq<Heading>, h: Heading, key: Key, seen: map<Key, nat>,
                        slug: string -> string)
    requires all == hs + [h] && IsSeen(hs, Keys(hs, slug), seen) && key == KeyOf(all, slug)
    ensures LastFindings(all, slug) ==
            (if key in seen then [DuplicateHeading(h.line, seen[key])] else []) +
            (if hs != [] && h.level > hs[|hs| - 1].level + 1
             then [LevelJump(h.line, hs[|hs| - 1].line, hs[|hs| - 1].level, h.level)] else [])
    ensures IsSeen(all, Keys(all, slug), if key in seen then seen else seen[key := h.line])
  {
    assert all[..|hs|] == hs;
    SeenStep(hs, Keys(hs, slug), seen, h, key);
  }

  /** One heading: pop, compare, push, report. */
  method NoteHeading(ghost hs: seq<Heading>, previous: Option<Heading>, h: Heading,
                     stack: seq<(nat, string)>, seen: map<Key, nat>, slug: string -> string)
      returns (stack': seq<(nat, string)>, seen': map<Key, nat>, found: seq<Finding>)
    requires IsStack(hs, stack, Chain(hs), slug) && IsSeen(hs, Keys(hs, slug), seen)
    requires previous == if hs == [] then None else Some(hs[|hs| - 1])
    ensures IsStack(hs + [h], stack', Chain(hs + [h]), slug)
    ensures IsSeen(hs + [h], Keys(hs + [h], slug), seen')
    ensures found == LastFindings(hs + [h], slug)
  {
    ghost var all := hs + [h];
    var kept := PopDeeper(stack, h.level);
    StackKey(hs, all, h, stack, kept, slug);
    var key := Key(h.level, slug(h.title), SlugsOf(stack[..kept]));
    LastFindingsAre(hs, all, h, key, seen, slug);
    found, seen' := [], seen;
    if key in seen {
      found := [DuplicateHeading(h.line, seen[key])];
    } else {
      seen' := seen[key := h.line];
    }
    stack' := stack[..kept] + [(h.level, slug(h.title))];
    if previous.Some? && h.level > previous.value.level + 1 {
      found := found + [LevelJump(h.line, previous.value.line, previous.value.level, h.level)];
    }
  }

  method LineAnchors(anchors: seq<string>, known: set<string>, lower: string -> string, number: nat)
      returns (found: seq<Finding>)
    ensures found == BadAnchors(anchors, known, lower, number)
  {
    found := [];
    for k := 0 to |anchors|
      invariant found == BadAnchors(anchors[..k], known, lower, number)
    {
      assert anchors[..k + 1][..k] == anchors[..k];
      if known != {} && lower(anchors[k]) !in known {
        found := found + [BrokenAnchor(number, anchors[k])];
      }
    }
    assert anchors[..|anchors|] == anchors;
  }

  method CheckAnchors(lines: seq<string>, headings: seq<Heading>, lexis: Lexis) returns (findings: seq<Finding>)
    ensures findings == AnchorFindings(Views(lines, None, lexis), 1, KnownSlugs(headings, lexis.slug), lexis.lower)
  {
    findings := [];
    var known := set h | h in headings :: lexis.slug(h.title);
    var open: Option<Marker> := None;
    ghost var views := Views(lines, None, lexis);
    for i := 0 to |lines|
      invariant views[i..] == Views(lines[i..], open, lexis)
      invariant AnchorFindings(views, 1, known, lexis.lower) == findings +
              AnchorFindings(views[i..], i + 1, known, lexis.lower)
    {
      assert lines[i..][1..] == lines[i + 1..] && views[i..][1..] == views[i + 1..];
      var found := CheckLine(lines[i], open, i + 1, known, lexis);
      Assoc(findings, found, AnchorFindings(views[i + 1..], i + 2, known, lexis.lower));
      findings := findings + found;
      open := FenceStep(lines[i], open).0;
    }
  }

  method CheckLine(line: string, open: Option<Marker>, number: nat, known: set<string>, lexis: Lexis)
      returns (found: seq<Finding>)
    ensures found == AnchorsIn(ViewOf(line, open, lexis), known, lexis.lower, number)
  {
    var (open', isFence) := FenceStep(line, open);
    if open'.Some? || isFence {
      return [];
    }
    found := LineAnchors(lexis.anchors(line), known, lexis.lower, number);
  }

  /** The variables of the structure walk. */
  datatype Walk = Walk(open: Option<Marker>, headings: seq<Heading>, h1Count: nat,
                       stack: seq<(nat, string)>, seen: map<Key, nat>, findings: seq<Finding>)

  ghost predicate WalkInvariant(w: Walk, slug: string -> string) {
    && w.h1Count == CountH1(w.headings)
    && IsStack(w.headings, w.stack, Chain(w.headings), slug)
    && IsSeen(w.headings, Keys(w.headings, slug), w.seen)
    && w.findings == HeadingFindings(w.headings, slug)
  }

  lemma HeadingAppended(hs: seq<Heading>, h: Heading, slug: string -> string)
    ensures HeadingFindings(hs + [h], slug) == HeadingFindings(hs, slug) + LastFindings(hs + [h], slug)
    ensures CountH1(hs + [h]) == CountH1(hs) + (if h.level == 1 then 1 else 0)
  {
    assert (hs + [h])[..|hs|] == hs;
  }

  method AddHeading(w: Walk, h: Heading, open: Option<Marker>, slug: string -> string) returns (w': Walk)
    requires WalkInvariant(w, slug)
    ensures WalkInvariant(w', slug) && w'.open == open && w'.headings == w.headings + [h]
  {
    var previous := if w.headings == [] then None else Some(w.headings[|w.headings| - 1]);
    var stack, seen, found := NoteHeading(w.headings, previous, h, w.stack, w.seen, slug);
    HeadingAppended(w.headings, h, slug);
    var h1Count := if h.level == 1 then w.h1Count + 1 else w.h1Count;
    w' := Walk(open, w.headings + [h], h1Count, stack, seen, w.findings + found);
  }

  method StepLine(w: Walk, line: string, number: nat, lexis: Lexis) returns (w': Walk)
    requires WalkInvariant(w, lexis.slug)
    ensures WalkInvariant(w', lexis.slug)
    ensures w'.open == FenceStep(line, w.open).0
    ensures w'.headings == w.headings + HeadingIn(ViewOf(line, w.open, lexis), number)
  {
    var (open', isFence) := FenceStep(line, w.open);
    if open'.None? && !isFence {
      var parsed := ParseHeading(line);
      if parsed.Some? {
        w' := AddHeading(w, Heading(number, parsed.value.0, parsed.value.1), open', lexis.slug);
        return;
      }
    }
    w' := w.(open := open');
  }

  method WalkLines(lines: seq<string>, lexis: Lexis) returns (w: Walk)
    ensures WalkInvariant(w, lexis.slug)
    ensures w.headings == Headings(Views(lines, None, lexis), 1)
    ensures w.open == OpenAfter(lines, None)
  {
    w := Walk(None, [], 0, [], map[], []);
    ghost var views := Views(lines, None, lexis);
    for i := 0 to |lines|
      invariant WalkInvariant(w, lexis.slug)
      invariant views[i..] == Views(lines[i..], w.open, lexis)
      invariant Headings(views, 1) == w.headings + Headings(views[i..], i + 1)
      invariant OpenAfter(lines, None) == OpenAfter(lines[i..], w.open)
    {
      assert lines[i..][1..] == lines[i + 1..] && views[i..][1..] == views[i + 1..];
      Assoc(w.headings, HeadingIn(views[i], i + 1), Headings(views[i + 1..], i + 2));
      w := StepLine(w, lines[i], i + 1, lexis);
    }
  }

  method CheckLines(lines: seq<string>, lexis: Lexis) returns (findings: seq<Finding>)
    ensures findings == StructureFindings(lines, lexis)
  {
    var w := WalkLines(lines, lexis);
    var fence: seq<Finding> := if w.open.Some? then [UnclosedFence(|lines|)] else [];
    var titles: seq<Finding> := [];
    if w.h1Count > 1 {
      titles := [MultipleH1(if w.headings == [] then 1 else w.headings[0].line, w.h1Count)];
    }
    var broken := CheckAnchors(lines, w.headings, lexis);
    findings := w.findings + fence + titles + broken;
  }

  // ---------------------------------------------------------------------------
  // The whole text
  // ---------------------------------------------------------------------------

  /** `text.split("\n")`. */
  function SplitFeeds(text: string): (lines: seq<string>)
    ensures lines != []
  {
    if text == [] then [""]
    else
      var rest := SplitFeeds(text[1..]);
      if text[0] == '\n' then [""] + rest else [[text[0]] + rest[0]] + rest[1..]
  }

  /** The two findings that look at the text as a whole. */
  function TextFindings(text: string): seq<Finding> {
    (if text != [] && text[|text| - 1] != '\n' then [MissingTrailingNewline(|SplitFeeds(text)|)] else []) +
    (if '\t' in text then [TabIndentation] else [])
  }

  method CheckStructure(text: string, lexis: Lexis) returns (findings: seq<Finding>)
    ensures findings == StructureFindings(SplitFeeds(text), lexis) + TextFindings(text)
  {
    var lines := SplitFeeds(text);
    findings := CheckLines(lines, lexis);
    var ending: seq<Finding> := [];
    if text != [] && text[|text| - 1] != '\n' {
      ending := [MissingTrailingNewline(|lines|)];
    }
    if '\t' in text {
      ending := ending + [TabIndentation];
    }
    findings := findings + ending;
  }

  lemma {:induction false} LastFeed(text: string)
    ensures var lines := SplitFeeds(text);
            lines[|lines| - 1] != "" <==> text != [] && text[|text| - 1] != '\n'
  {
    if text != [] {
      var rest := text[1..];
      LastFeed(rest);
      assert rest != [] ==> rest[|rest| - 1] == text[|text| - 1];
    }
  }

  lemma {:induction false} FeedsHold(text: string, c: char)
    requires c != '\n'
    ensures c in text <==> exists k :: 0 <= k < |SplitFeeds(text)| && c in SplitFeeds(text)[k]
  {
    if text != [] {
      var rest := SplitFeeds(text[1..]);
      FeedsHold(text[1..], c);
      FeedsStep(text[0], rest, SplitFeeds(text), c);
      assert c in text <==> c == text[0] || c in text[1..];
    }
  }

  lemma FeedsStep(x: char, rest: seq<string>, lines: seq<string>, c: char)
    requires rest != [] && c != '\n'
    requires lines == if x == '\n' then [""] + rest else [[x] + rest[0]] + rest[1..]
    ensures (exists k :: 0 <= k < |lines| && c in lines[k]) <==> c == x || exists k :: 0 <= k < |rest| && c in rest[k]
  {
    if x == '\n' {
      assert forall k :: 0 <= k < |rest| ==> lines[k + 1] == rest[k];
    } else {
      assert lines[0] == [x] + rest[0];
      assert forall k :: 0 < k < |rest| ==> lines[k] == rest[k];
    }
  }

  /** The whole-text findings in terms of lines: the last line is open, some line holds a tab. */
  lemma TextFindingsByLines(text: string)
    ensures var lines := SplitFeeds(text);
            && (MissingTrailingNewline(|lines|) in TextFindings(text) <==> lines[|lines| - 1] != "")
            && (TabIndentation in TextFindings(text) <==> exists k :: 0 <= k < |lines| && '\t' in lines[k])
  {
    LastFeed(text);
    FeedsHold(text, '\t');
  }
}
