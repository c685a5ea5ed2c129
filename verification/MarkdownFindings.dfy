/** Every structure finding of the documentation linter, told from the lines of the file. */
module MarkdownFindings {
  import opened Collections
  import opened MarkdownStructure

  // ---------------------------------------------------------------------------
  // Lines inside and outside fences
  // ---------------------------------------------------------------------------

  lemma {:induction false} OpenAfterLast(lines: seq<string>, open: Option<Marker>)
    requires lines != []
    ensures OpenAfter(lines, open) == FenceStep(lines[|lines| - 1], OpenAfter(lines[..|lines| - 1], open)).0
  {
    if |lines| > 1 {
      var next := FenceStep(lines[0], open).0;
      OpenAfterLast(lines[1..], next);
      assert lines[1..][..|lines| - 2] == lines[..|lines| - 1][1..];
    }
  }

  /** The line at `j` stands outside every fence and opens one that no later line closes. */
  ghost predicate OpenedAt(lines: seq<string>, j: nat, m: Marker) {
    && j < |lines| && OpenAfter(lines[..j], None) == None && IsOpener(lines[j], m)
    && forall k :: j < k < |lines| ==> !IsCloser(lines[k], m)
  }

  /** A fence is open at the end exactly when some line opened it and none closed it. */
  lemma {:induction false} OpenExactly(lines: seq<string>, m: Marker)
    ensures OpenAfter(lines, None) == Some(m) <==> exists j: nat :: OpenedAt(lines, j, m)
  {
    if lines != [] {
      var init, last := lines[..|lines| - 1], lines[|lines| - 1];
      OpenExactly(init, m);
      OpenAfterLast(lines, None);
      OpenedEarlier(lines, init, m);
      LastDecides(last, OpenAfter(init, None), m);
    }
  }

  lemma LastDecides(last: string, open: Option<Marker>, m: Marker)
    ensures FenceStep(last, open).0 == Some(m) <==>
            (open == None && IsOpener(last, m)) || (open == Some(m) && !IsCloser(last, m))
  {
    FenceExactly(last, m);
    if open.Some? {
      FenceExactly(last, open.value);
    }
  }

  lemma OpenedEarlier(lines: seq<string>, init: seq<string>, m: Marker)
    requires lines != [] && init == lines[..|lines| - 1]
    ensures (exists j: nat :: OpenedAt(lines, j, m)) <==>
            || (OpenAfter(init, None) == None && IsOpener(lines[|lines| - 1], m))
            || ((exists j: nat :: OpenedAt(init, j, m)) && !IsCloser(lines[|lines| - 1], m))
  {
    if j: nat :| OpenedAt(lines, j, m) {
      assert j < |init| ==> init[..j] == lines[..j] && OpenedAt(init, j, m);
    }
    if j: nat :| OpenedAt(init, j, m) {
      assert init[..j] == lines[..j];
      assert !IsCloser(lines[|lines| - 1], m) ==> OpenedAt(lines, j, m);
    }
    if OpenAfter(init, None) == None && IsOpener(lines[|lines| - 1], m) {
      assert OpenedAt(lines, |lines| - 1, m);
    }
  }

  /** Line `i`, counted from 0, is body text: no fence is open before it and it opens none. */
  ghost predicate IsBodyLine(lines: seq<string>, i: int) {
    0 <= i < |lines| && OpenAfter(lines[..i], None) == None && forall m :: !IsOpener(lines[i], m)
  }

  lemma {:induction false} ViewAt(lines: seq<string>, open: Option<Marker>, lexis: Lexis, i: nat)
    requires i < |lines|
    ensures Views(lines, open, lexis)[i] == ViewOf(lines[i], OpenAfter(lines[..i], open), lexis)
  {
    if i > 0 {
      var next := FenceStep(lines[0], open).0;
      ViewAt(lines[1..], next, lexis, i - 1);
      assert lines[..i][1..] == lines[1..][..i - 1];
    }
  }

  lemma BodyExactly(lines: seq<string>, lexis: Lexis, i: nat)
    requires i < |lines|
    ensures IsBodyLine(lines, i) <==> Views(lines, None, lexis)[i].Body?
    ensures IsBodyLine(lines, i) ==>
              Views(lines, None, lexis)[i] == Body(ParseHeading(lines[i]), lexis.anchors(lines[i]))
  {
    var open := OpenAfter(lines[..i], None);
    ViewAt(lines, None, lexis, i);
    if open.Some? {
      FenceExactly(lines[i], open.value);
    } else {
      FenceExactly(lines[i], Marker('`', 3));
    }
  }

  // ---------------------------------------------------------------------------
  // Headings and anchors, line by line
  // ---------------------------------------------------------------------------

  lemma {:induction false} CollectedFrom<T>(views: seq<View>, number: nat, f: (View, nat) -> seq<T>, x: T)
      returns (i: nat)
    requires x in Collect(views, number, f)
    ensures i < |views| && x in f(views[i], number + i)
  {
    if x in f(views[0], number) {
      i := 0;
    } else {
      i := CollectedFrom(views[1..], number + 1, f, x);
      i := i + 1;
    }
  }

  lemma {:induction false} IsCollected<T>(views: seq<View>, number: nat, f: (View, nat) -> seq<T>, x: T, i: nat)
    requires i < |views| && x in f(views[i], number + i)
    ensures x in Collect(views, number, f)
  {
    if i > 0 {
      assert views[1..][i - 1] == views[i];
      IsCollected(views[1..], number + 1, f, x, i - 1);
    }
  }

  /** The heading `h` stands on its line, outside every fence. */
  ghost predicate IsHeadingOf(lines: seq<string>, h: Heading) {
    IsBodyLine(lines, h.line - 1) && ParseHeading(lines[h.line - 1]) == Some((h.level, h.title))
  }

  lemma HeadingOnLine(lines: seq<string>, lexis: Lexis, h: Heading, i: nat)
    requires i < |lines|
    ensures h in HeadingIn(Views(lines, None, lexis)[i], 1 + i) <==> h.line == i + 1 && IsHeadingOf(lines, h)
  {
    BodyExactly(lines, lexis, i);
  }

  /** The headings of a file are exactly the heading lines outside fences. */
  lemma HeadingsExactly(lines: seq<string>, lexis: Lexis, h: Heading)
    ensures h in Headings(Views(lines, None, lexis), 1) <==> IsHeadingOf(lines, h)
  {
    var views := Views(lines, None, lexis);
    if h in Headings(views, 1) {
      var i := CollectedFrom(views, 1, HeadingIn, h);
      HeadingOnLine(lines, lexis, h, i);
    }
    if IsHeadingOf(lines, h) {
      var i: nat := h.line - 1;
      HeadingOnLine(lines, lexis, h, i);
      IsCollected(views, 1, HeadingIn, h, i);
    }
  }

  lemma {:induction false} HeadingsInOrder(views: seq<View>, number: nat)
    ensures var hs := Headings(views, number);
            && (forall a, b :: 0 <= a < b < |hs| ==> hs[a].line < hs[b].line)
            && forall a :: 0 <= a < |hs| ==> hs[a].line >= number
  {
    if views != [] {
      HeadingsInOrder(views[1..], number + 1);
      assert Headings(views, number) == HeadingIn(views[0], number) + Headings(views[1..], number + 1);
    }
  }

  lemma {:induction false} BadAnchorsAre(anchors: seq<string>, known: set<string>, lower: string -> string,
                                         number: nat, f: Finding)
    ensures f in BadAnchors(anchors, known, lower, number) <==>
            f.BrokenAnchor? && f.line == number && f.anchor in anchors && known != {} && lower(f.anchor) !in known
  {
    if anchors != [] {
      var init, last := anchors[..|anchors| - 1], anchors[|anchors| - 1];
      BadAnchorsAre(init, known, lower, number, f);
      assert anchors == init + [last];
    }
  }

  lemma AnchorsOnLine(lines: seq<string>, lexis: Lexis, known: set<string>, f: Finding, i: nat)
    requires i < |lines|
    ensures f in AnchorsIn(Views(lines, None, lexis)[i], known, lexis.lower, 1 + i) <==>
            f.BrokenAnchor? && f.line == i + 1 && IsBroken(lines, lexis, known, f)
  {
    BodyExactly(lines, lexis, i);
    BadAnchorsAre(lexis.anchors(lines[i]), known, lexis.lower, i + 1, f);
  }

  /** The anchor stands on its line, outside every fence, and is none of the known slugs. */
  ghost predicate IsBroken(lines: seq<string>, lexis: Lexis, known: set<string>, f: Finding)
    requires f.BrokenAnchor?
  {
    && IsBodyLine(lines, f.line - 1) && f.anchor in lexis.anchors(lines[f.line - 1])
    && known != {} && lexis.lower(f.anchor) !in known
  }

  /** Exactly the anchors of body lines that match no heading, if there is a heading at all, are broken. */
  lemma AnchorsExactly(lines: seq<string>, lexis: Lexis, known: set<string>, f: Finding)
    ensures f in AnchorFindings(Views(lines, None, lexis), 1, known, lexis.lower) <==>
            f.BrokenAnchor? && IsBroken(lines, lexis, known, f)
  {
    var views := Views(lines, None, lexis);
    var g := AnchorRule(known, lexis.lower);
    if f in Collect(views, 1, g) {
      var i := CollectedFrom(views, 1, g, f);
      AnchorsOnLine(lines, lexis, known, f, i);
    }
    if f.BrokenAnchor? && IsBroken(lines, lexis, known, f) {
      var i: nat := f.line - 1;
      AnchorsOnLine(lines, lexis, known, f, i);
      IsCollected(views, 1, g, f, i);
    }
  }

  // ---------------------------------------------------------------------------
  // What the headings are reported for
  // ---------------------------------------------------------------------------

  lemma {:induction false} ReportedFor(hs: seq<Heading>, slug: string -> string, f: Finding) returns (n: nat)
    requires f in HeadingFindings(hs, slug)
    ensures 0 < n <= |hs| && f in LastFindings(hs[..n], slug)
  {
    if f in LastFindings(hs, slug) {
      n := |hs|;
      assert hs[..n] == hs;
    } else {
      n := ReportedFor(hs[..|hs| - 1], slug, f);
      assert hs[..|hs| - 1][..n] == hs[..n];
    }
  }

  lemma {:induction false} IsReportedFor(hs: seq<Heading>, slug: string -> string, f: Finding, n: nat)
    requires 0 < n <= |hs| && f in LastFindings(hs[..n], slug)
    ensures f in HeadingFindings(hs, slug)
  {
    if n == |hs| {
      assert hs[..n] == hs;
    } else {
      assert hs[..|hs| - 1][..n] == hs[..n];
      IsReportedFor(hs[..|hs| - 1], slug, f, n);
    }
  }

  /** The last heading repeats an earlier sibling, the first of which stands on line `first`. */
  ghost predicate Repeats(hs: seq<Heading>, slug: string -> string, first: nat) {
    exists j: nat :: j + 1 < |hs| && AreTwins(hs, j, slug) && first == hs[j].line
                     && forall k: nat :: k < j ==> !AreTwins(hs, k, slug)
  }

  /** Heading `n` is more than one level deeper than the one before. */
  predicate Jumps(hs: seq<Heading>, n: nat)
    requires n < |hs|
  {
    n > 0 && hs[n].level > hs[n - 1].level + 1
  }

  /** What heading `n` is reported for: it repeats an earlier sibling, or it jumps a level. */
  ghost predicate CallsFor(hs: seq<Heading>, slug: string -> string, n: nat, f: Finding)
    requires n < |hs|
  {
    match f
    case DuplicateHeading(line, first) => line == hs[n].line && Repeats(hs[..n + 1], slug, first)
    case LevelJump(line, previous, from, to) =>
      Jumps(hs, n) && line == hs[n].line && to == hs[n].level && previous == hs[n - 1].line && from == hs[n - 1].level
    case _ => false
  }

  lemma LastFindingsAre(hs: seq<Heading>, slug: string -> string, n: nat, f: Finding)
    requires n < |hs|
    ensures f in LastFindings(hs[..n + 1], slug) <==> CallsFor(hs, slug, n, f)
  {
    var part := hs[..n + 1];
    if f.DuplicateHeading? {
      DuplicateExactly(part, slug, f.firstSeen);
    }
  }

  predicate IsH1(h: Heading) {
    h.level == 1
  }

  lemma {:induction false} CountIsWhere(hs: seq<Heading>)
    ensures CountH1(hs) == |Where(hs, IsH1)|
  {
    if hs != [] {
      CountIsWhere(hs[..|hs| - 1]);
    }
  }

  /** When the linter reports `f`, told from the lines. */
  ghost predicate IsReported(lines: seq<string>, hs: seq<Heading>, lexis: Lexis, f: Finding) {
    match f
    case DuplicateHeading(_, _) => exists n: nat :: n < |hs| && CallsFor(hs, lexis.slug, n, f)
    case LevelJump(_, _, _, _) => exists n: nat :: n < |hs| && CallsFor(hs, lexis.slug, n, f)
    case UnclosedFence(line) => line == |lines| && exists j: nat, m :: OpenedAt(lines, j, m)
    case MultipleH1(line, count) => TwoOf(hs, IsH1) && line == hs[0].line && count == |Where(hs, IsH1)|
    case BrokenAnchor(line, anchor) =>
      && IsBodyLine(lines, line - 1) && anchor in lexis.anchors(lines[line - 1])
      && hs != [] && forall h :: h in hs ==> lexis.slug(h.title) != lexis.lower(anchor)
    case _ => false
  }

  lemma HeadingPart(hs: seq<Heading>, slug: string -> string, f: Finding)
    ensures f in HeadingFindings(hs, slug) <==> exists n: nat :: n < |hs| && CallsFor(hs, slug, n, f)
  {
    if f in HeadingFindings(hs, slug) {
      var n := CalledFor(hs, slug, f);
    }
    if n: nat :| n < |hs| && CallsFor(hs, slug, n, f) {
      CallIsReported(hs, slug, f, n);
    }
  }

  lemma CalledFor(hs: seq<Heading>, slug: string -> string, f: Finding) returns (n: nat)
    requires f in HeadingFindings(hs, slug)
    ensures n < |hs| && CallsFor(hs, slug, n, f)
  {
    n := ReportedFor(hs, slug, f);
    n := n - 1;
    LastFindingsAre(hs, slug, n, f);
  }

  lemma CallIsReported(hs: seq<Heading>, slug: string -> string, f: Finding, n: nat)
    requires n < |hs| && CallsFor(hs, slug, n, f)
    ensures f in HeadingFindings(hs, slug)
  {
    LastFindingsAre(hs, slug, n, f);
    IsReportedFor(hs, slug, f, n + 1);
  }

  lemma FencePart(lines: seq<string>, f: Finding)
    ensures f in FenceFinding(OpenAfter(lines, None), |lines|) <==>
            f == UnclosedFence(|lines|) && exists j: nat, m :: OpenedAt(lines, j, m)
  {
    var open := OpenAfter(lines, None);
    if open.Some? {
      OpenExactly(lines, open.value);
      var j: nat :| OpenedAt(lines, j, open.value);
    }
    if j: nat, m :| OpenedAt(lines, j, m) {
      OpenExactly(lines, m);
    }
  }

  lemma TitlePart(hs: seq<Heading>, f: Finding)
    ensures f in TitleFinding(hs) <==> TwoOf(hs, IsH1) && f == MultipleH1(hs[0].line, |Where(hs, IsH1)|)
  {
    CountIsWhere(hs);
    WhereTwo(hs, IsH1);
  }

  lemma AnchorPart(lines: seq<string>, hs: seq<Heading>, lexis: Lexis, f: Finding)
    ensures f in AnchorFindings(Views(lines, None, lexis), 1, KnownSlugs(hs, lexis.slug), lexis.lower) <==>
            f.BrokenAnchor? && IsReported(lines, hs, lexis, f)
  {
    var known := KnownSlugs(hs, lexis.slug);
    AnchorsExactly(lines, lexis, known, f);
    assert hs != [] ==> hs[0] in hs && lexis.slug(hs[0].title) in known;
  }

  /** The structure findings of a file are exactly those its lines call for; its headings are the heading
      lines outside fences, in order. */
  lemma FindingsExactly(lines: seq<string>, lexis: Lexis, f: Finding)
    ensures f in StructureFindings(lines, lexis) <==>
            IsReported(lines, Headings(Views(lines, None, lexis), 1), lexis, f)
  {
    var hs := Headings(Views(lines, None, lexis), 1);
    HeadingPart(hs, lexis.slug, f);
    FencePart(lines, f);
    TitlePart(hs, f);
    AnchorPart(lines, hs, lexis, f);
    PartsAre(lines, hs, lexis, f);
  }

  lemma PartsAre(lines: seq<string>, hs: seq<Heading>, lexis: Lexis, f: Finding)
    requires hs == Headings(Views(lines, None, lexis), 1)
    ensures f in StructureFindings(lines, lexis) <==>
            || f in HeadingFindings(hs, lexis.slug)
            || f in FenceFinding(OpenAfter(lines, None), |lines|)
            || f in TitleFinding(hs)
            || f in AnchorFindings(Views(lines, None, lexis), 1, KnownSlugs(hs, lexis.slug), lexis.lower)
  {
    var anchors := AnchorFindings(Views(lines, None, lexis), 1, KnownSlugs(hs, lexis.slug), lexis.lower);
    var fence := FenceFinding(OpenAfter(lines, None), |lines|);
    assert StructureFindings(lines, lexis) == Compose(hs, fence, anchors, lexis.slug);
    InFour(HeadingFindings(hs, lexis.slug), fence, TitleFinding(hs), anchors, f);
  }

  lemma InFour(a: seq<Finding>, b: seq<Finding>, c: seq<Finding>, d: seq<Finding>, f: Finding)
    ensures f in a + b + c + d <==> f in a || f in b || f in c || f in d
  {
  }
}
