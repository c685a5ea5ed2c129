/** What a closed fence does to a file, and what a jump-free file's heading stack looks like. */
module MarkdownHiding {
  import opened Collections
  import opened MarkdownStructure

  // ---------------------------------------------------------------------------
  // The walk over a concatenation
  // ---------------------------------------------------------------------------

  lemma {:induction false} OpenAfterConcat(a: seq<string>, b: seq<string>, open: Option<Marker>)
    ensures OpenAfter(a + b, open) == OpenAfter(b, OpenAfter(a, open))
  {
    if a == [] {
      assert a + b == b;
    } else {
      assert (a + b)[1..] == a[1..] + b;
      OpenAfterConcat(a[1..], b, FenceStep(a[0], open).0);
    }
  }

  lemma {:induction false} ViewsConcat(a: seq<string>, b: seq<string>, open: Option<Marker>, lexis: Lexis)
    ensures Views(a + b, open, lexis) == Views(a, open, lexis) + Views(b, OpenAfter(a, open), lexis)
  {
    if a == [] {
      assert a + b == b;
    } else {
      assert (a + b)[1..] == a[1..] + b;
      var next := FenceStep(a[0], open).0;
      ViewsConcat(a[1..], b, next, lexis);
      Assoc([ViewOf(a[0], open, lexis)], Views(a[1..], next, lexis), Views(b, OpenAfter(a, open), lexis));
    }
  }

  lemma {:induction false} CollectConcat<T>(a: seq<View>, b: seq<View>, n: nat, f: (View, nat) -> seq<T>)
    ensures Collect(a + b, n, f) == Collect(a, n, f) + Collect(b, n + |a|, f)
  {
    if a == [] {
      assert a + b == b;
    } else {
      assert (a + b)[1..] == a[1..] + b;
      CollectConcat(a[1..], b, n + 1, f);
      Assoc(f(a[0], n), Collect(a[1..], n + 1, f), Collect(b, n + |a|, f));
    }
  }

  // ---------------------------------------------------------------------------
  // A fenced block
  // ---------------------------------------------------------------------------

  /** `line` would close a fence opened with `m`. */
  predicate Closes(line: string, m: Marker) {
    FenceStep(line, Some(m)) == (None, true)
  }

  predicate Opens(line: string, m: Marker) {
    FenceStep(line, None) == (Some(m), true)
  }

  /** Inside a fence a line either closes it or leaves it open as it is. */
  lemma InsideFence(line: string, m: Marker)
    ensures !Closes(line, m) ==> FenceStep(line, Some(m)) == (Some(m), false)
  {
  }

  function AllHidden(n: nat): seq<View> {
    seq(n, _ => Hidden)
  }

  lemma {:induction false} FencedBody(body: seq<string>, m: Marker, lexis: Lexis)
    requires forall l :: l in body ==> !Closes(l, m)
    ensures OpenAfter(body, Some(m)) == Some(m)
    ensures Views(body, Some(m), lexis) == AllHidden(|body|)
  {
    if body != [] {
      InsideFence(body[0], m);
      FencedBody(body[1..], m, lexis);
    }
  }

  function Fenced(opener: string, body: seq<string>, closer: string): seq<string> {
    [opener] + body + [closer]
  }

  lemma OneLine(line: string, open: Option<Marker>, lexis: Lexis)
    ensures OpenAfter([line], open) == FenceStep(line, open).0
    ensures Views([line], open, lexis) == [ViewOf(line, open, lexis)]
  {
    assert [line][1..] == [];
  }

  /** A closed fence shows nothing and leaves the state as it found it. */
  lemma FencedBlock(opener: string, body: seq<string>, closer: string, m: Marker, lexis: Lexis)
    requires Opens(opener, m) && Closes(closer, m)
    requires forall l :: l in body ==> !Closes(l, m)
    ensures OpenAfter(Fenced(opener, body, closer), None) == None
    ensures Views(Fenced(opener, body, closer), None, lexis) == AllHidden(|body| + 2)
  {
    FencedBody(body, m, lexis);
    OneLine(opener, None, lexis);
    OneLine(closer, Some(m), lexis);
    OpenAfterConcat([opener], body, None);
    OpenAfterConcat([opener] + body, [closer], None);
    ViewsConcat([opener], body, None, lexis);
    ViewsConcat([opener] + body, [closer], None, lexis);
  }

  // ---------------------------------------------------------------------------
  // Moving line numbers
  // ---------------------------------------------------------------------------

  function Moved(line: nat, cut: nat, d: nat): nat {
    if line > cut then line + d else line
  }

  lemma MapConcat<T>(a: seq<T>, b: seq<T>, g: T -> T)
    ensures Map(a + b, g) == Map(a, g) + Map(b, g)
  {
  }

  function MoveHeading(h: Heading, cut: nat, d: nat): Heading {
    h.(line := Moved(h.line, cut, d))
  }

  function MoveFinding(f: Finding, cut: nat, d: nat): Finding {
    match f
    case DuplicateHeading(line, first) => DuplicateHeading(Moved(line, cut, d), Moved(first, cut, d))
    case LevelJump(line, pline, plevel, level) => LevelJump(Moved(line, cut, d), Moved(pline, cut, d), plevel, level)
    case UnclosedFence(line) => UnclosedFence(Moved(line, cut, d))
    case MultipleH1(line, count) => MultipleH1(Moved(line, cut, d), count)
    case BrokenAnchor(line, anchor) => BrokenAnchor(Moved(line, cut, d), anchor)
    case MissingTrailingNewline(line) => MissingTrailingNewline(Moved(line, cut, d))
    case TabIndentation => TabIndentation
  }

  function MoveHeadings(hs: seq<Heading>, cut: nat, d: nat): (r: seq<Heading>)
    ensures |r| == |hs| && forall i :: 0 <= i < |hs| ==> r[i] == MoveHeading(hs[i], cut, d)
  {
    Map(hs, h => MoveHeading(h, cut, d))
  }

  function MoveFindings(fs: seq<Finding>, cut: nat, d: nat): (r: seq<Finding>)
    ensures |r| == |fs| && forall i :: 0 <= i < |fs| ==> r[i] == MoveFinding(fs[i], cut, d)
  {
    Map(fs, f => MoveFinding(f, cut, d))
  }

  lemma MoveFindingsConcat(a: seq<Finding>, b: seq<Finding>, cut: nat, d: nat)
    ensures MoveFindings(a + b, cut, d) == MoveFindings(a, cut, d) + MoveFindings(b, cut, d)
  {
    MapConcat(a, b, f => MoveFinding(f, cut, d));
  }

  /** `g` renumbers what `f` reports. */
  ghost predicate Renumbers<T(!new)>(f: (View, nat) -> seq<T>, g: T -> T, cut: nat, d: nat) {
    forall v, n: nat {:trigger f(v, Moved(n, cut, d))} :: f(v, Moved(n, cut, d)) == Map(f(v, n), g)
  }

  /** Lines above the cut keep their numbers, lines below it move. */
  lemma {:induction false} CollectMoved<T(!new)>(views: seq<View>, n: nat, f: (View, nat) -> seq<T>, g: T -> T,
                                          cut: nat, d: nat)
    requires Renumbers(f, g, cut, d)
    requires n + |views| <= cut + 1 || cut < n
    ensures Collect(views, Moved(n, cut, d), f) == Map(Collect(views, n, f), g)
  {
    if views != [] {
      CollectMoved(views[1..], n + 1, f, g, cut, d);
      MapConcat(f(views[0], n), Collect(views[1..], n + 1, f), g);
      assert f(views[0], Moved(n, cut, d)) == Map(f(views[0], n), g);
      if |views| == 1 {
        assert views[1..] == [];
      }
    }
  }

  lemma AppendNothing<T>(a: seq<T>, e: seq<T>)
    requires e == []
    ensures a + e == a
  {
  }

  lemma CollectSkip<T>(before: seq<View>, mid: seq<View>, after: seq<View>, f: (View, nat) -> seq<T>)
    requires Collect(mid, 1 + |before|, f) == []
    ensures Collect(before + mid + after, 1, f) == Collect(before, 1, f) + Collect(after, 1 + |before| + |mid|, f)
  {
    CollectConcat(before, mid, 1, f);
    AppendNothing(Collect(before, 1, f), Collect(mid, 1 + |before|, f));
    CollectConcat(before + mid, after, 1, f);
  }

  /** Lines that contribute nothing can be left out, if what follows is renumbered. */
  lemma CollectAround<T(!new)>(before: seq<View>, mid: seq<View>, after: seq<View>, f: (View, nat) -> seq<T>, g: T -> T)
    requires Renumbers(f, g, |before|, |mid|)
    requires Collect(mid, 1 + |before|, f) == []
    ensures Collect(before + mid + after, 1, f) == Map(Collect(before + after, 1, f), g)
  {
    CollectSkip(before, mid, after, f);
    CollectConcat(before, after, 1, f);
    TopUnmoved(before, f, g, |mid|);
    BelowMoved(before, after, f, g, |mid|);
    MapParts(Collect(before, 1, f), Collect(after, 1 + |before|, f), Collect(after, 1 + |before| + |mid|, f), g);
  }

  lemma MapParts<T>(top: seq<T>, below: seq<T>, moved: seq<T>, g: T -> T)
    requires top == Map(top, g) && moved == Map(below, g)
    ensures top + moved == Map(top + below, g)
  {
    MapConcat(top, below, g);
  }

  lemma TopUnmoved<T(!new)>(before: seq<View>, f: (View, nat) -> seq<T>, g: T -> T, d: nat)
    requires Renumbers(f, g, |before|, d)
    ensures Collect(before, 1, f) == Map(Collect(before, 1, f), g)
  {
    CollectMoved(before, 1, f, g, |before|, d);
    FirstUnmoved(before, f, |before|, d);
  }

  lemma BelowMoved<T(!new)>(before: seq<View>, after: seq<View>, f: (View, nat) -> seq<T>, g: T -> T, d: nat)
    requires Renumbers(f, g, |before|, d)
    ensures Collect(after, 1 + |before| + d, f) == Map(Collect(after, 1 + |before|, f), g)
  {
    CollectMoved(after, 1 + |before|, f, g, |before|, d);
    assert Moved(1 + |before|, |before|, d) == 1 + |before| + d;
  }

  lemma FirstUnmoved<T>(before: seq<View>, f: (View, nat) -> seq<T>, cut: nat, d: nat)
    requires cut == |before|
    ensures Collect(before, Moved(1, cut, d), f) == Collect(before, 1, f)
  {
  }

  lemma {:induction false} BadAnchorsMoved(anchors: seq<string>, known: set<string>, lower: string -> string, n: nat,
                                           cut: nat, d: nat)
    ensures BadAnchors(anchors, known, lower, Moved(n, cut, d)) ==
            MoveFindings(BadAnchors(anchors, known, lower, n), cut, d)
  {
    if anchors != [] {
      var init, last := anchors[..|anchors| - 1], anchors[|anchors| - 1];
      BadAnchorsMoved(init, known, lower, n, cut, d);
      var one := if known != {} && lower(last) !in known then [BrokenAnchor(n, last)] else [];
      MoveFindingsConcat(BadAnchors(init, known, lower, n), one, cut, d);
    }
  }

  // ---------------------------------------------------------------------------
  // Heading findings depend on line numbers only to report them
  // ---------------------------------------------------------------------------

  lemma {:induction false} AncestorsBelowMoved(hs: seq<Heading>, n: nat, cut: nat, d: nat)
    requires n <= |hs|
    ensures AncestorsBelow(MoveHeadings(hs, cut, d), n) == AncestorsBelow(hs, n)
  {
    if n > 0 {
      AncestorsBelowMoved(hs, n - 1, cut, d);
      AncestorMoved(hs, MoveHeadings(hs, cut, d), n - 1);
    }
  }

  lemma AncestorMoved(hs: seq<Heading>, moved: seq<Heading>, j: nat)
    requires |moved| == |hs| && forall k :: 0 <= k < |hs| ==> moved[k].level == hs[k].level
    ensures IsAncestor(moved, j) <==> IsAncestor(hs, j)
  {
  }

  lemma KeyMoved(hs: seq<Heading>, slug: string -> string, cut: nat, d: nat)
    requires hs != []
    ensures KeyOf(MoveHeadings(hs, cut, d), slug) == KeyOf(hs, slug)
  {
    AncestorsBelowMoved(hs, |hs|, cut, d);
    var moved := MoveHeadings(hs, cut, d);
    assert Slugs(moved, Ancestors(moved), slug) == Slugs(hs, Ancestors(hs), slug);
  }

  lemma {:induction false} KeysMoved(hs: seq<Heading>, slug: string -> string, cut: nat, d: nat)
    ensures Keys(MoveHeadings(hs, cut, d), slug) == Keys(hs, slug)
  {
    if hs != [] {
      KeysMoved(hs[..|hs| - 1], slug, cut, d);
      KeyMoved(hs, slug, cut, d);
      assert MoveHeadings(hs, cut, d)[..|hs| - 1] == MoveHeadings(hs[..|hs| - 1], cut, d);
    }
  }

  lemma LastMoved(hs: seq<Heading>, slug: string -> string, cut: nat, d: nat)
    requires hs != []
    ensures LastFindings(MoveHeadings(hs, cut, d), slug) == MoveFindings(LastFindings(hs, slug), cut, d)
  {
    KeyMoved(hs, slug, cut, d);
    KeysMoved(hs, slug, cut, d);
  }

  lemma InitMoved(hs: seq<Heading>, cut: nat, d: nat)
    requires hs != []
    ensures MoveHeadings(hs, cut, d)[..|hs| - 1] == MoveHeadings(hs[..|hs| - 1], cut, d)
  {
  }

  lemma LastHeading(hs: seq<Heading>, slug: string -> string)
    requires hs != []
    ensures HeadingFindings(hs, slug) == HeadingFindings(hs[..|hs| - 1], slug) + LastFindings(hs, slug)
  {
  }

  lemma {:induction false} HeadingFindingsMoved(hs: seq<Heading>, slug: string -> string, cut: nat, d: nat)
    ensures HeadingFindings(MoveHeadings(hs, cut, d), slug) == MoveFindings(HeadingFindings(hs, slug), cut, d)
  {
    if hs != [] {
      var init, moved := hs[..|hs| - 1], MoveHeadings(hs, cut, d);
      HeadingFindingsMoved(init, slug, cut, d);
      LastMoved(hs, slug, cut, d);
      InitMoved(hs, cut, d);
      LastHeading(hs, slug);
      LastHeading(moved, slug);
      MoveFindingsConcat(HeadingFindings(init, slug), LastFindings(hs, slug), cut, d);
    }
  }

  lemma {:induction false} CountMoved(hs: seq<Heading>, cut: nat, d: nat)
    ensures CountH1(MoveHeadings(hs, cut, d)) == CountH1(hs)
  {
    if hs != [] {
      CountMoved(hs[..|hs| - 1], cut, d);
      InitMoved(hs, cut, d);
    }
  }

  lemma KnownMoved(hs: seq<Heading>, slug: string -> string, cut: nat, d: nat)
    ensures KnownSlugs(MoveHeadings(hs, cut, d), slug) == KnownSlugs(hs, slug)
  {
    var moved := MoveHeadings(hs, cut, d);
    forall h | h in hs ensures slug(h.title) in KnownSlugs(moved, slug) {
      var i :| 0 <= i < |hs| && hs[i] == h;
      assert moved[i] in moved;
    }
  }

  // ---------------------------------------------------------------------------
  // Hiding
  // ---------------------------------------------------------------------------

  lemma {:induction false} NothingInHidden<T>(k: nat, n: nat, f: (View, nat) -> seq<T>)
    requires forall i: nat :: f(Hidden, i) == []
    ensures Collect(AllHidden(k), n, f) == []
  {
    if k > 0 {
      NothingInHidden(k - 1, n + 1, f);
      assert AllHidden(k)[1..] == AllHidden(k - 1);
    }
  }

  lemma HeadingsAround(before: seq<View>, k: nat, after: seq<View>)
    ensures Headings(before + AllHidden(k) + after, 1) == MoveHeadings(Headings(before + after, 1), |before|, k)
  {
    var cut := |before|;
    var g := (h: Heading) => MoveHeading(h, cut, k);
    NothingInHidden(k, 1 + cut, HeadingIn);
    assert Renumbers(HeadingIn, g, cut, k);
    CollectAround(before, AllHidden(k), after, HeadingIn, g);
    assert MoveHeadings(Headings(before + after, 1), cut, k) == Map(Headings(before + after, 1), g);
  }

  lemma AnchorsAround(before: seq<View>, k: nat, after: seq<View>, known: set<string>, lower: string -> string)
    ensures AnchorFindings(before + AllHidden(k) + after, 1, known, lower) ==
            MoveFindings(AnchorFindings(before + after, 1, known, lower), |before|, k)
  {
    var cut := |before|;
    var f := AnchorRule(known, lower);
    var g := (x: Finding) => MoveFinding(x, cut, k);
    NothingInHidden(k, 1 + cut, f);
    forall v, n: nat ensures f(v, Moved(n, cut, k)) == Map(f(v, n), g) {
      if v.Body? { BadAnchorsMoved(v.anchors, known, lower, n, cut, k); }
    }
    CollectAround(before, AllHidden(k), after, f, g);
  }

  lemma FenceFindingMoved(open: Option<Marker>, lines: nat, cut: nat, d: nat)
    requires open.Some? ==> lines > cut
    ensures FenceFinding(open, lines + d) == MoveFindings(FenceFinding(open, lines), cut, d)
  {
  }

  lemma TitleFindingMoved(hs: seq<Heading>, cut: nat, d: nat)
    ensures TitleFinding(MoveHeadings(hs, cut, d)) == MoveFindings(TitleFinding(hs), cut, d)
  {
    CountMoved(hs, cut, d);
  }

  lemma MoveFour(a: seq<Finding>, b: seq<Finding>, c: seq<Finding>, e: seq<Finding>, cut: nat, d: nat)
    ensures MoveFindings(a + b + c + e, cut, d) ==
            MoveFindings(a, cut, d) + MoveFindings(b, cut, d) + MoveFindings(c, cut, d) + MoveFindings(e, cut, d)
  {
    MoveFindingsConcat(a, b, cut, d);
    MoveFindingsConcat(a + b, c, cut, d);
    MoveFindingsConcat(a + b + c, e, cut, d);
  }

  lemma ComposeMoved(hs: seq<Heading>, fence: seq<Finding>, anchors: seq<Finding>, slug: string -> string, cut: nat,
                     d: nat)
    ensures Compose(MoveHeadings(hs, cut, d), MoveFindings(fence, cut, d), MoveFindings(anchors, cut, d), slug) ==
            MoveFindings(Compose(hs, fence, anchors, slug), cut, d)
  {
    HeadingFindingsMoved(hs, slug, cut, d);
    TitleFindingMoved(hs, cut, d);
    MoveFour(HeadingFindings(hs, slug), fence, TitleFinding(hs), anchors, cut, d);
  }

  lemma ReportParts(views: seq<View>, hs: seq<Heading>, known: set<string>, anchors: seq<Finding>,
                    open: Option<Marker>, lexis: Lexis)
    requires hs == Headings(views, 1) && known == KnownSlugs(hs, lexis.slug)
    requires anchors == AnchorFindings(views, 1, known, lexis.lower)
    ensures Report(views, open, lexis) == Compose(hs, FenceFinding(open, |views|), anchors, lexis.slug)
  {
  }

  /** The parts of the report of a file with hidden lines are the parts without them, renumbered. */
  lemma ReportAround(before: seq<View>, k: nat, after: seq<View>, hs: seq<Heading>, known: set<string>,
                     fence: seq<Finding>, anchors: seq<Finding>, open: Option<Marker>, lexis: Lexis)
    requires hs == Headings(before + after, 1) && known == KnownSlugs(hs, lexis.slug) && (open.Some? ==> after != [])
    requires fence == FenceFinding(open, |before + after|)
            && anchors == AnchorFindings(before + after, 1, known, lexis.lower)
    ensures Report(before + AllHidden(k) + after, open, lexis) ==
            Compose(MoveHeadings(hs, |before|, k), MoveFindings(fence, |before|, k),
                MoveFindings(anchors, |before|, k), lexis.slug)
  {
    var whole, cut := before + AllHidden(k) + after, |before|;
    HeadingsAround(before, k, after);
    KnownMoved(hs, lexis.slug, cut, k);
    AnchorsAround(before, k, after, known, lexis.lower);
    FenceFindingMoved(open, |before + after|, cut, k);
    ReportParts(whole, MoveHeadings(hs, cut, k), known, MoveFindings(anchors, cut, k), open, lexis);
  }

  /** The report of a file with hidden lines is the report without them, renumbered. */
  lemma HiddenLines(before: seq<View>, k: nat, after: seq<View>, open: Option<Marker>, lexis: Lexis)
    requires open.Some? ==> after != []
    ensures Report(before + AllHidden(k) + after, open, lexis) ==
            MoveFindings(Report(before + after, open, lexis), |before|, k)
  {
    var hs := Headings(before + after, 1);
    var known := KnownSlugs(hs, lexis.slug);
    var fence, anchors := FenceFinding(open, |before + after|), AnchorFindings(before + after, 1, known, lexis.lower);
    ReportAround(before, k, after, hs, known, fence, anchors, open, lexis);
    ReportParts(before + after, hs, known, anchors, open, lexis);
    ComposeMoved(hs, fence, anchors, lexis.slug, |before|, k);
  }

  lemma ViewsAround(before: seq<string>, block: seq<string>, after: seq<string>, lexis: Lexis)
    requires OpenAfter(before, None) == None == OpenAfter(block, None)
    ensures Views(before + block + after, None, lexis) == Views(before, None, lexis) + Views(block, None, lexis) +
            Views(after, None, lexis)
    ensures Views(before + after, None, lexis) == Views(before, None, lexis) + Views(after, None, lexis)
    ensures OpenAfter(before + block + after, None) == OpenAfter(after, None) == OpenAfter(before + after, None)
  {
    OpenAfterConcat(before, block, None);
    OpenAfterConcat(before + block, after, None);
    OpenAfterConcat(before, after, None);
    ViewsConcat(before, block, None, lexis);
    ViewsConcat(before + block, after, None, lexis);
    ViewsConcat(before, after, None, lexis);
  }

  /** Wrapping any lines in a fence that none of them can close hides them all: the lines before and
      after are read as if they were absent, and the report of the whole file is the report of the
      file without them, with the lines below renumbered. */
  lemma FenceHides(before: seq<string>, opener: string, body: seq<string>, closer: string, after: seq<string>,
                   m: Marker, lexis: Lexis)
    requires OpenAfter(before, None) == None
    requires Opens(opener, m) && Closes(closer, m)
    requires forall l :: l in body ==> !Closes(l, m)
    ensures var whole := before + Fenced(opener, body, closer) + after;
            && Views(whole, None, lexis) == Views(before, None, lexis) + AllHidden(|body| + 2) +
                Views(after, None, lexis)
            && Views(before + after, None, lexis) == Views(before, None, lexis) + Views(after, None, lexis)
            && StructureFindings(whole, lexis) ==
                MoveFindings(StructureFindings(before + after, lexis), |before|, |body| + 2)
  {
    FencedBlock(opener, body, closer, m, lexis);
    ViewsAround(before, Fenced(opener, body, closer), after, lexis);
    HiddenLines(Views(before, None, lexis), |body| + 2, Views(after, None, lexis), OpenAfter(after, None), lexis);
  }

  // ---------------------------------------------------------------------------
  // Every text can be hidden
  // ---------------------------------------------------------------------------

  function Ticks(n: nat): (s: string)
    ensures |s| == n && forall i :: 0 <= i < n ==> s[i] == '`'
  {
    seq(n, _ => '`')
  }

  function LongestLine(lines: seq<string>): (n: nat)
    ensures forall l :: l in lines ==> |l| <= n
  {
    if lines == [] then 0 else
    var n := LongestLine(lines[1..]);
    if |lines[0]| > n then |lines[0]| else n
  }

  lemma {:induction false} TickRun(n: nat)
    ensures RunLength('`', Ticks(n)) == n
  {
    if n > 0 {
      TickRun(n - 1);
      assert Ticks(n)[1..] == Ticks(n - 1);
    }
  }

  lemma TicksMatch(n: nat)
    requires n >= 3
    ensures MatchFence(Ticks(n)) == Match(Marker('`', n), "")
  {
    TickRun(n);
    assert RunLength(' ', Ticks(n)) == 0;
    assert Ticks(n)[0..] == Ticks(n);
  }

  /** A fence longer than every line cannot be closed by any of them. */
  lemma EveryTextCanBeHidden(body: seq<string>) returns (fence: string, m: Marker)
    ensures Opens(fence, m) && Closes(fence, m)
    ensures forall l :: l in body ==> !Closes(l, m)
  {
    var n := LongestLine(body) + 3;
    fence, m := Ticks(n), Marker('`', n);
    TicksMatch(n);
    forall l | l in body ensures !Closes(l, m) {
      assert MatchFence(l).Match? ==> MatchFence(l).marker.length <= |l|;
    }
  }

  // ---------------------------------------------------------------------------
  // Jump-free files
  // ---------------------------------------------------------------------------

  ghost predicate StartsAtH1(hs: seq<Heading>) {
    (hs != [] ==> hs[0].level == 1) && forall i :: 0 <= i < |hs| ==> hs[i].level >= 1
  }

  ghost predicate JumpFree(hs: seq<Heading>) {
    forall i :: 0 < i < |hs| ==> hs[i].level <= hs[i - 1].level + 1
  }

  ghost function Levels(hs: seq<Heading>, chain: seq<nat>): seq<nat>
    requires forall k :: 0 <= k < |chain| ==> chain[k] < |hs|
  {
    seq(|chain|, k requires 0 <= k < |chain| => hs[chain[k]].level)
  }

  function UpTo(n: nat): seq<nat> {
    seq(n, k requires 0 <= k => k + 1)
  }

  lemma NoAncestors(hs: seq<Heading>)
    requires |hs| == 1
    ensures Ancestors(hs) == []
  {
    HeadIsMember(Ancestors(hs));
  }

  lemma EveryLevelStep(hs: seq<Heading>, prev: seq<Heading>, c: seq<nat>)
    requires |hs| >= 2 && prev == hs[..|hs| - 1] && c == Chain(prev)
    requires 1 <= hs[|hs| - 1].level <= |c| + 1
    requires forall k :: 0 <= k < |c| ==> hs[c[k]].level == k + 1
    ensures Levels(hs, Chain(hs)) == UpTo(hs[|hs| - 1].level)
  {
    var level := hs[|hs| - 1].level;
    PoppedIsAncestors(hs, prev, c, level - 1);
    LevelsOfChain(hs, c, level - 1);
  }

  lemma LevelsOfChain(hs: seq<Heading>, c: seq<nat>, n: nat)
    requires hs != [] && hs[|hs| - 1].level == n + 1 && n <= |c|
    requires forall k :: 0 <= k < |c| ==> c[k] < |hs| && hs[c[k]].level == k + 1
    ensures Levels(hs, c[..n] + [|hs| - 1]) == UpTo(n + 1)
  {
  }

  /** In a jump-free file that starts at H1, the stack always holds the levels 1, 2, .., L. */
  lemma {:induction false} StackIsEveryLevel(hs: seq<Heading>)
    requires hs != [] && StartsAtH1(hs) && JumpFree(hs)
    ensures Levels(hs, Chain(hs)) == UpTo(hs[|hs| - 1].level)
  {
    if |hs| == 1 {
      NoAncestors(hs);
    } else {
      var prev := hs[..|hs| - 1];
      StackIsEveryLevel(prev);
      var c := Chain(prev);
      assert |Levels(prev, c)| == |c| == prev[|prev| - 1].level;
      assert forall k :: 0 <= k < |c| ==> hs[c[k]].level == Levels(prev, c)[k];
      EveryLevelStep(hs, prev, c);
    }
  }

  lemma {:induction false} JumpsAreReported(hs: seq<Heading>, slug: string -> string)
    ensures (forall f :: f in HeadingFindings(hs, slug) ==> !f.LevelJump?) <==> JumpFree(hs)
  {
    if hs != [] {
      var init := hs[..|hs| - 1];
      JumpsAreReported(init, slug);
      LastJump(hs, slug);
      JumpFreeStep(hs, init);
    }
  }

  lemma LastJump(hs: seq<Heading>, slug: string -> string)
    requires hs != []
    ensures (forall f :: f in LastFindings(hs, slug) ==> !f.LevelJump?) <==>
            (|hs| >= 2 ==> hs[|hs| - 1].level <= hs[|hs| - 2].level + 1)
  {
    var last, twin := hs[|hs| - 1], FirstTwin(hs, slug);
    if |hs| >= 2 && last.level > hs[|hs| - 2].level + 1 {
      assert LevelJump(last.line, hs[|hs| - 2].line, hs[|hs| - 2].level, last.level) in LastFindings(hs, slug);
    }
  }

  lemma JumpFreeStep(hs: seq<Heading>, init: seq<Heading>)
    requires hs != [] && init == hs[..|hs| - 1]
    ensures JumpFree(hs) <==> JumpFree(init) && (|hs| >= 2 ==> hs[|hs| - 1].level <= hs[|hs| - 2].level + 1)
  {
    assert forall i :: 0 <= i < |init| ==> init[i] == hs[i];
  }

  /** Only the heading walk reports level jumps. */
  lemma ReportJumps(views: seq<View>, open: Option<Marker>, lexis: Lexis, f: Finding)
    requires f in HeadingFindings(Headings(views, 1), lexis.slug)
    ensures f in Report(views, open, lexis)
  {
  }

  lemma {:induction false} LevelsArePositive(views: seq<View>, n: nat)
    requires forall v :: v in views && v.Body? && v.heading.Some? ==> v.heading.value.0 >= 1
    ensures forall h :: h in Headings(views, n) ==> h.level >= 1
  {
    if views != [] {
      LevelsArePositive(views[1..], n + 1);
      assert views[0] in views;
    }
  }

  lemma {:induction false} ViewLevels(lines: seq<string>, open: Option<Marker>, lexis: Lexis)
    ensures forall v :: v in Views(lines, open, lexis) && v.Body? && v.heading.Some? ==> v.heading.value.0 >= 1
  {
    if lines != [] {
      ViewLevels(lines[1..], FenceStep(lines[0], open).0, lexis);
    }
  }

  /** A document whose first heading is an H1 and for which the linter reports no level jump: after
      the walk, the stack holds one heading of each level 1, 2, .., L, L being the level of the last. */
  lemma DocumentStack(lines: seq<string>, lexis: Lexis, w: Walk)
    requires WalkInvariant(w, lexis.slug) && w.headings == Headings(Views(lines, None, lexis), 1)
    requires w.headings != [] && w.headings[0].level == 1
    requires forall f :: f in StructureFindings(lines, lexis) ==> !f.LevelJump?
    ensures |w.stack| == w.headings[|w.headings| - 1].level && forall k :: 0 <= k < |w.stack| ==> w.stack[k].0 == k + 1
  {
    var hs, views := w.headings, Views(lines, None, lexis);
    forall f | f in HeadingFindings(hs, lexis.slug) ensures !f.LevelJump? {
      ReportJumps(views, OpenAfter(lines, None), lexis, f);
    }
    JumpsAreReported(hs, lexis.slug);
    ViewLevels(lines, None, lexis);
    LevelsArePositive(views, 1);
    assert forall i :: 0 <= i < |hs| ==> hs[i] in hs;
    StackIsEveryLevel(hs);
    StackLevels(hs, w.stack, Chain(hs), lexis.slug);
  }

  lemma StackLevels(hs: seq<Heading>, stack: seq<(nat, string)>, chain: seq<nat>, slug: string -> string)
    requires hs != [] && IsStack(hs, stack, chain, slug) && Levels(hs, chain) == UpTo(hs[|hs| - 1].level)
    ensures |stack| == hs[|hs| - 1].level && forall k :: 0 <= k < |stack| ==> stack[k].0 == k + 1
  {
    assert |Levels(hs, chain)| == |stack|;
    assert forall k :: 0 <= k < |stack| ==> stack[k].0 == Levels(hs, chain)[k];
  }
}
