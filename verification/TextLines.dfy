/** Texts and their lines, as Python's `splitlines`, `join`, `replace` and `rstrip` see them. */
module TextLines {
  import opened Collections

  predicate IsNewline(nl: string) {
    nl == "\n" || nl == "\r\n"
  }

  /** `block.replace("\n", nl)`. */
  function WithNewlines(s: string, nl: string): string {
    if s == [] then [] else (if s[0] == '\n' then nl else [s[0]]) + WithNewlines(s[1..], nl)
  }

  /** The characters Python's `splitlines` breaks at. */
  predicate IsBreak(c: char) {
    '\n' <= c <= '\r' || '\U{1C}' <= c <= '\U{1E}' || c == '\U{85}' || c == '\U{2028}' || c == '\U{2029}'
  }

  /** The line breaks one by one. */
  lemma BreaksAre(c: char)
    ensures IsBreak(c) <==>
            c in {'\n', '\U{0B}', '\U{0C}', '\r', '\U{1C}', '\U{1D}', '\U{1E}', '\U{85}', '\U{2028}', '\U{2029}'}
  {
  }

  predicate OneLine(s: string) {
    forall c :: c in s ==> !IsBreak(c)
  }

  function FirstBreak(s: string): (i: nat)
    ensures i <= |s| && OneLine(s[..i])
    ensures i < |s| ==> IsBreak(s[i])
  {
    if s == [] || IsBreak(s[0]) then 0
    else
      var i := 1 + FirstBreak(s[1..]);
      assert s[..i] == [s[0]] + s[1..][..i - 1];
      i
  }

  /** How many characters the line break at the front of `s` takes. */
  function BreakWidth(s: string): (w: nat)
    requires s != []
    ensures 1 <= w <= |s|
  {
    if "\r\n" <= s then 2 else 1
  }

  function SplitLines(s: string): (lines: seq<string>)
    ensures forall l :: l in lines ==> OneLine(l)
  {
    if s == [] then []
    else
      var i := FirstBreak(s);
      if i == |s| then
        assert s[..i] == s;
        [s]
      else [s[..i]] + SplitLines(s[i + BreakWidth(s[i..])..])
  }

  function Join(sep: string, parts: seq<string>): string {
    if parts == [] then []
    else if |parts| == 1 then parts[0]
    else parts[0] + sep + Join(sep, parts[1..])
  }

  /** Each line followed by the newline. */
  function TextOf(lines: seq<string>, nl: string): string {
    if lines == [] then [] else lines[0] + nl + TextOf(lines[1..], nl)
  }

  /** `s.rstrip(chars)`. */
  function StripEnd(s: string, chars: string): (r: string)
    ensures r <= s
    ensures r != [] ==> r[|r| - 1] !in chars
    ensures forall c :: c in s[|r|..] ==> c in chars
  {
    if s != [] && s[|s| - 1] in chars then
      var r := StripEnd(s[..|s| - 1], chars);
      assert s[|r|..] == s[..|s| - 1][|r|..] + [s[|s| - 1]];
      r
    else s
  }

  lemma {:induction false} JoinConcat(sep: string, a: seq<string>, b: seq<string>)
    requires b != []
    ensures Join(sep, a + b) == TextOf(a, sep) + Join(sep, b)
  {
    if a == [] {
      assert a + b == b;
    } else {
      assert (a + b)[1..] == a[1..] + b;
      JoinConcat(sep, a[1..], b);
    }
  }

  lemma {:induction false} StripEndConcat(x: string, q: string, chars: string)
    requires exists c :: c in q && c !in chars
    ensures StripEnd(x + q, chars) == x + StripEnd(q, chars)
  {
    var last := q[|q| - 1];
    assert (x + q)[|x + q| - 1] == last;
    if last in chars {
      var c :| c in q && c !in chars;
      assert q == q[..|q| - 1] + [last];
      assert c in q[..|q| - 1];
      StripEndConcat(x, q[..|q| - 1], chars);
      assert (x + q)[..|x + q| - 1] == x + q[..|q| - 1];
    }
  }

  lemma {:induction false} TextOfConcat(a: seq<string>, b: seq<string>, nl: string)
    ensures TextOf(a + b, nl) == TextOf(a, nl) + TextOf(b, nl)
  {
    if a == [] {
      assert a + b == b;
    } else {
      assert (a + b)[1..] == a[1..] + b;
      TextOfConcat(a[1..], b, nl);
    }
  }

  lemma {:induction false} WithNewlinesConcat(a: string, b: string, nl: string)
    ensures WithNewlines(a + b, nl) == WithNewlines(a, nl) + WithNewlines(b, nl)
  {
    if a == [] {
      assert a + b == b;
    } else {
      assert (a + b)[1..] == a[1..] + b;
      WithNewlinesConcat(a[1..], b, nl);
    }
  }

  lemma {:induction false} WithNewlinesFixes(s: string, nl: string)
    requires '\n' !in s || nl == "\n"
    ensures WithNewlines(s, nl) == s
  {
    if s != [] {
      WithNewlinesFixes(s[1..], nl);
      assert s == [s[0]] + s[1..];
    }
  }

  lemma {:induction false} JoinTerminated(lines: seq<string>, nl: string)
    requires lines != []
    ensures Join(nl, lines) + nl == TextOf(lines, nl)
  {
    if |lines| > 1 {
      JoinTerminated(lines[1..], nl);
    }
  }

  lemma TextOfCons(l: string, lines: seq<string>, nl: string)
    ensures TextOf([l] + lines, nl) == l + nl + TextOf(lines, nl)
  {
    assert ([l] + lines)[1..] == lines;
  }

  lemma TextOfLast(init: seq<string>, last: string, nl: string)
    ensures TextOf(init + [last], nl) == TextOf(init, nl) + last + nl
  {
    TextOfConcat(init, [last], nl);
    assert TextOf([last], nl) == last + nl;
    Assoc(TextOf(init, nl), last, nl);
  }

  // ---------------------------------------------------------------------------
  // One line at a time
  // ---------------------------------------------------------------------------

  /** `b` is one whole line break in front of `rest`. */
  predicate IsWholeBreak(b: string, rest: string) {
    b == "\r\n" || (|b| == 1 && IsBreak(b[0]) && !(b[0] == '\r' && rest != [] && rest[0] == '\n'))
  }

  lemma {:induction false} FirstBreakAfter(l: string, s: string)
    requires OneLine(l) && s != [] && IsBreak(s[0])
    ensures FirstBreak(l + s) == |l|
  {
    if l == [] {
      assert l + s == s;
    } else {
      assert l[0] in l;
      FirstBreakAfter(l[1..], s);
      assert (l + s)[1..] == l[1..] + s;
    }
  }

  lemma WidthOf(b: string, rest: string)
    requires IsWholeBreak(b, rest)
    ensures b != [] && IsBreak((b + rest)[0]) && BreakWidth(b + rest) == |b|
  {
    assert (b + rest)[0] == b[0];
    assert |b| == 1 && rest != [] ==> (b + rest)[1] == rest[0];
  }

  lemma Pieces(l: string, b: string, rest: string, s: string)
    requires s == l + b + rest
    ensures s[..|l|] == l && s[|l|..] == b + rest && s[|l| + |b|..] == rest
  {
  }

  lemma SplitStep(l: string, b: string, rest: string, s: string)
    requires OneLine(l) && IsWholeBreak(b, rest) && s == l + b + rest
    ensures SplitLines(s) == [l] + SplitLines(rest)
  {
    WidthOf(b, rest);
    Pieces(l, b, rest, s);
    Assoc(l, b, rest);
    FirstBreakAfter(l, b + rest);
  }

  lemma LoneLine(s: string)
    requires s != [] && OneLine(s)
    ensures FirstBreak(s) == |s| && SplitLines(s) == [s]
  {
    NoBreak(s);
    assert s[..|s|] == s;
  }

  lemma {:induction false} NoBreak(s: string)
    requires OneLine(s)
    ensures FirstBreak(s) == |s|
  {
    if s != [] {
      assert s[0] in s;
      NoBreak(s[1..]);
    }
  }

  lemma SomeBreak(s: string)
    requires !OneLine(s)
    ensures FirstBreak(s) < |s|
  {
    assert s[..|s|] == s;
  }

  lemma FirstLine(s: string) returns (l: string, b: string, rest: string)
    requires !OneLine(s)
    ensures s == l + b + rest && OneLine(l) && IsWholeBreak(b, rest)
    ensures SplitLines(s) == [l] + SplitLines(rest)
  {
    var i := FirstBreak(s);
    SomeBreak(s);
    TakeDrop(s, i);
    l := s[..i];
    b, rest := BreakParts(s[i..]);
    Assoc(l, b, rest);
    SplitStep(l, b, rest, s);
  }

  lemma BreakParts(s: string) returns (b: string, rest: string)
    requires s != [] && IsBreak(s[0])
    ensures s == b + rest && IsWholeBreak(b, rest)
  {
    var w := BreakWidth(s);
    b, rest := s[..w], s[w..];
    TakeDrop(s, w);
    assert w == 2 ==> b == "\r\n";
  }

  lemma LastOf(a: string, b: string)
    requires b != []
    ensures (a + b)[|a + b| - 1] == b[|b| - 1]
  {
  }

  /** Splitting distributes over a cut behind a whole line break. */
  lemma {:induction false} SplitConcat(a: string, b: string)
    requires a != [] ==> IsBreak(a[|a| - 1]) && !(a[|a| - 1] == '\r' && b != [] && b[0] == '\n')
    ensures SplitLines(a + b) == SplitLines(a) + SplitLines(b)
    decreases |a|
  {
    if a == [] {
      assert a + b == b;
    } else {
      assert a[|a| - 1] in a;
      var l, br, rest := FirstLine(a);
      LastPart(l, br, rest, a);
      SplitConcat(rest, b);
      SplitBehind(l, br, rest, b, a + b);
      Assoc([l], SplitLines(rest), SplitLines(b));
    }
  }

  lemma LastPart(l: string, br: string, rest: string, a: string)
    requires br != [] && a == l + br + rest
    ensures a != [] && a[|a| - 1] == if rest == [] then br[|br| - 1] else rest[|rest| - 1]
  {
  }

  lemma SplitBehind(l: string, br: string, rest: string, b: string, s: string)
    requires OneLine(l) && IsWholeBreak(br, rest) && s == l + br + rest + b
    requires rest == [] && br == "\r" && b != [] ==> b[0] != '\n'
    ensures SplitLines(s) == [l] + SplitLines(rest + b)
  {
    Assoc(l + br, rest, b);
    assert rest != [] ==> (rest + b)[0] == rest[0];
    assert rest == [] ==> rest + b == b;
    SplitStep(l, br, rest + b, s);
  }

  /** A line break behind an open line ends it and adds none. */
  lemma {:induction false} Terminated(x: string, b: string)
    requires x != [] && !IsBreak(x[|x| - 1]) && IsWholeBreak(b, [])
    ensures SplitLines(x + b) == SplitLines(x)
    decreases |x|
  {
    if OneLine(x) {
      LoneLine(x);
      assert x + b + [] == x + b;
      SplitStep(x, b, [], x + b);
    } else {
      var l, br, rest := FirstLine(x);
      LastPart(l, br, rest, x);
      Terminated(rest, b);
      SplitBehind(l, br, rest, b, x + b);
    }
  }

  function Blanks(k: nat): seq<string> {
    seq(k, _ => "")
  }

  ghost predicate IsRun(run: string) {
    forall c :: c in run ==> c == '\n' || c == '\r'
  }

  lemma RunBreak(run: string) returns (b: string, rest: string)
    requires IsRun(run) && run != []
    ensures run == b + rest && IsWholeBreak(b, rest) && IsRun(rest)
  {
    assert run[0] in run;
    b, rest := BreakParts(run);
    assert forall c :: c in rest ==> c in run;
  }

  lemma {:induction false} RunIsBlank(run: string) returns (k: nat)
    requires IsRun(run)
    ensures SplitLines(run) == Blanks(k)
    decreases |run|
  {
    if run == [] {
      k := 0;
    } else {
      var b, rest := RunBreak(run);
      k := RunIsBlank(rest);
      assert [] + b + rest == run;
      SplitStep([], b, rest, run);
      assert Blanks(k + 1) == [""] + Blanks(k);
      k := k + 1;
    }
  }

  /** A run of newline characters behind an open line adds only empty lines. */
  lemma SplitRun(x: string, run: string) returns (k: nat)
    requires x != [] && !IsBreak(x[|x| - 1]) && IsRun(run)
    ensures SplitLines(x + run) == SplitLines(x) + Blanks(k)
  {
    if run == [] {
      k := 0;
      assert x + run == x;
    } else {
      var b, rest := RunBreak(run);
      k := RunIsBlank(rest);
      Assoc(x, b, rest);
      LastOf(x, b);
      SplitConcat(x + b, rest);
      Terminated(x, b);
    }
  }

  /** Splitting a text into lines undoes terminating each line. */
  lemma {:induction false} SplitTextOf(lines: seq<string>, nl: string)
    requires IsNewline(nl) && forall l :: l in lines ==> OneLine(l)
    ensures SplitLines(TextOf(lines, nl)) == lines
  {
    if lines != [] {
      SplitTextOf(lines[1..], nl);
      SplitStep(lines[0], nl, TextOf(lines[1..], nl), TextOf(lines, nl));
      assert lines == [lines[0]] + lines[1..];
    }
  }

  /** Replacing line feeds by another newline keeps the lines. */
  lemma {:induction false} ReplacedLines(s: string, nl: string)
    requires IsNewline(nl) && '\r' !in s
    ensures SplitLines(WithNewlines(s, nl)) == SplitLines(s)
    decreases |s|
  {
    if OneLine(s) {
      WithNewlinesFixes(s, nl);
    } else {
      var l, b, rest := FirstLine(s);
      assert b[0] in s;
      ReplacedLines(rest, nl);
      ReplacedParts(l, b, rest, nl);
      var br := WithNewlines(b, nl);
      SplitStep(l, br, WithNewlines(rest, nl), WithNewlines(s, nl));
    }
  }

  lemma ReplacedParts(l: string, b: string, rest: string, nl: string)
    requires OneLine(l) && |b| == 1 && b[0] != '\r' && IsBreak(b[0]) && IsNewline(nl)
    ensures WithNewlines(l + b + rest, nl) == l + WithNewlines(b, nl) + WithNewlines(rest, nl)
    ensures IsWholeBreak(WithNewlines(b, nl), WithNewlines(rest, nl))
  {
    WithNewlinesConcat(l + b, rest, nl);
    WithNewlinesConcat(l, b, nl);
    assert '\n' !in l;
    WithNewlinesFixes(l, nl);
    assert WithNewlines(b, nl) == if b[0] == '\n' then nl else b;
  }

  // ---------------------------------------------------------------------------
  // Where a line starts
  // ---------------------------------------------------------------------------

  /** A line with the line break that ends it, if any. */
  datatype Piece = Piece(line: string, end: string)

  ghost function Flat(ps: seq<Piece>): string {
    if ps == [] then [] else ps[0].line + ps[0].end + Flat(ps[1..])
  }

  ghost function LinesOf(ps: seq<Piece>): (lines: seq<string>)
    ensures |lines| == |ps|
  {
    if ps == [] then [] else [ps[0].line] + LinesOf(ps[1..])
  }

  ghost predicate IsPiece(p: Piece, rest: string) {
    OneLine(p.line) && (IsWholeBreak(p.end, rest) || (p.end == [] && rest == [] && p.line != []))
  }

  ghost predicate ArePieces(ps: seq<Piece>) {
    ps == [] || (IsPiece(ps[0], Flat(ps[1..])) && ArePieces(ps[1..]))
  }

  lemma {:induction false} PiecesOf(s: string) returns (ps: seq<Piece>)
    ensures ArePieces(ps) && Flat(ps) == s
    decreases |s|
  {
    if s == [] {
      ps := [];
    } else if OneLine(s) {
      ps := [Piece(s, [])];
      assert Flat(ps) == s + [] + [];
    } else {
      var l, b, rest := FirstLine(s);
      var more := PiecesOf(rest);
      ps := [Piece(l, b)] + more;
      assert ps[1..] == more;
    }
  }

  lemma PieceSplits(p: Piece, rest: string, s: string)
    requires IsPiece(p, rest) && s == p.line + p.end + rest
    ensures SplitLines(s) == [p.line] + SplitLines(rest)
  {
    if p.end == [] {
      assert s == p.line;
      LoneLine(s);
    } else {
      SplitStep(p.line, p.end, rest, s);
    }
  }

  lemma {:induction false} FlatLines(ps: seq<Piece>)
    requires ArePieces(ps)
    ensures SplitLines(Flat(ps)) == LinesOf(ps)
  {
    if ps != [] {
      FlatLines(ps[1..]);
      PieceSplits(ps[0], Flat(ps[1..]), Flat(ps));
    }
  }

  lemma {:induction false} FlatParts(ps: seq<Piece>, n: nat)
    requires n <= |ps|
    ensures Flat(ps) == Flat(ps[..n]) + Flat(ps[n..])
    ensures LinesOf(ps)[..n] == LinesOf(ps[..n]) && LinesOf(ps)[n..] == LinesOf(ps[n..])
  {
    if n == 0 {
      assert ps[..0] == [] && ps[0..] == ps;
    } else {
      var a := ps[..n];
      assert a[1..] == ps[1..][..n - 1] && a[0] == ps[0] && ps[n..] == ps[1..][n - 1..];
      FlatParts(ps[1..], n - 1);
      Assoc(ps[0].line + ps[0].end, Flat(a[1..]), Flat(ps[n..]));
      ConsParts(ps[0].line, LinesOf(ps[1..]), n - 1);
    }
  }

  lemma ConsParts<T>(x: T, s: seq<T>, n: nat)
    requires n <= |s|
    ensures ([x] + s)[..n + 1] == [x] + s[..n] && ([x] + s)[n + 1..] == s[n..]
  {
  }

  lemma PieceBefore(p: Piece, a: string, b: string)
    requires IsPiece(p, a + b)
    ensures IsPiece(p, a)
  {
    assert a != [] ==> (a + b)[0] == a[0];
  }

  lemma {:induction false} PiecesPart(ps: seq<Piece>, n: nat)
    requires ArePieces(ps) && n <= |ps|
    ensures ArePieces(ps[..n]) && ArePieces(ps[n..])
  {
    if n > 0 {
      var a := ps[..n];
      assert a[1..] == ps[1..][..n - 1] && ps[n..] == ps[1..][n - 1..];
      PiecesPart(ps[1..], n - 1);
      FlatParts(ps[1..], n - 1);
      PieceBefore(ps[0], Flat(a[1..]), Flat(ps[n..]));
    } else {
      assert ps[0..] == ps;
    }
  }

  /** Position `i` is an end of the text or behind a whole line break. */
  predicate BetweenLines(s: string, i: nat)
    requires i <= |s|
  {
    0 < i < |s| ==> IsBreak(s[i - 1]) && !(s[i - 1] == '\r' && s[i] == '\n')
  }

  /** The lines on both sides of position `i` are the first `n` lines and the others. */
  ghost predicate IsCut(s: string, i: nat, n: nat) {
    && i <= |s| && n <= |SplitLines(s)| && BetweenLines(s, i)
    && SplitLines(s[..i]) == SplitLines(s)[..n] && SplitLines(s[i..]) == SplitLines(s)[n..]
  }

  /** A whole line break ends `a`, and `b` does not continue it. */
  predicate EndsBefore(a: string, b: string) {
    a != [] && b != [] && IsBreak(a[|a| - 1]) && !(a[|a| - 1] == '\r' && b[0] == '\n')
  }

  lemma {:induction false} PiecesEnd(ps: seq<Piece>, n: nat)
    requires ArePieces(ps) && 0 < n < |ps|
    ensures EndsBefore(Flat(ps[..n]), Flat(ps[n..]))
  {
    var p, rest := ps[0], ps[1..];
    if n == 1 {
      NonEmptyPieces(rest);
      FirstPieceEnds(p, Flat(rest));
      OnePieceFlat(ps[..n], p);
    } else {
      PiecesEnd(rest, n - 1);
      assert ps[n..] == rest[n - 1..];
      PiecesFrom(p, ps[..n], rest[..n - 1]);
      EndsLater(p.line + p.end, Flat(rest[..n - 1]), Flat(ps[n..]));
    }
  }

  lemma PiecesFrom(p: Piece, ps: seq<Piece>, rest: seq<Piece>)
    requires ps == [p] + rest
    ensures Flat(ps) == p.line + p.end + Flat(rest)
  {
    assert ps[1..] == rest;
  }

  lemma EndsLater(first: string, a: string, b: string)
    requires EndsBefore(a, b)
    ensures EndsBefore(first + a, b)
  {
    LastOf(first, a);
  }

  lemma OnePieceFlat(a: seq<Piece>, p: Piece)
    requires a == [p]
    ensures Flat(a) == p.line + p.end
  {
    assert p.line + p.end + [] == p.line + p.end;
  }

  lemma FirstPieceEnds(p: Piece, rest: string)
    requires IsPiece(p, rest) && rest != []
    ensures EndsBefore(p.line + p.end, rest)
  {
    LastOf(p.line, p.end);
  }

  lemma NonEmptyPieces(ps: seq<Piece>)
    requires ArePieces(ps) && ps != []
    ensures Flat(ps) != []
  {
  }

  lemma CutExists(s: string, n: nat) returns (i: nat)
    requires n <= |SplitLines(s)|
    ensures IsCut(s, i, n)
  {
    var ps := PiecesOf(s);
    FlatLines(ps);
    PiecesPart(ps, n);
    FlatParts(ps, n);
    FlatLines(ps[..n]);
    FlatLines(ps[n..]);
    var a, b := Flat(ps[..n]), Flat(ps[n..]);
    i := |a|;
    assert s[..i] == a && s[i..] == b;
    if 0 < n < |ps| {
      PiecesEnd(ps, n);
    } else {
      assert n == 0 ==> a == [];
      assert n == |ps| ==> ps[n..] == [] && b == [];
    }
  }

  /** How many characters the first `n` lines take, with their line breaks. */
  ghost function Cut(s: string, n: nat): (i: nat)
    requires n <= |SplitLines(s)|
    ensures IsCut(s, i, n)
  {
    assert exists i: nat :: IsCut(s, i, n) by { var i := CutExists(s, n); }
    var i: nat :| IsCut(s, i, n);
    i
  }

  // ---------------------------------------------------------------------------
  // Texts in one newline convention
  // ---------------------------------------------------------------------------

  /** The line break character at `i` belongs to an `nl`. */
  predicate BreakAt(s: string, i: nat, nl: string)
    requires i < |s|
  {
    if nl == "\n" then s[i] == '\n'
    else (s[i] == '\r' && i + 1 < |s| && s[i + 1] == '\n') || (s[i] == '\n' && i > 0 && s[i - 1] == '\r')
  }

  /** Every line break character belongs to an `nl`: no lone carriage return or line feed next to
      CRLF, no vertical tab, form feed, file, group or record separator, next line, line or
      paragraph separator. */
  ghost predicate OnlyBreaks(s: string, nl: string) {
    forall i: nat :: i < |s| && IsBreak(s[i]) ==> BreakAt(s, i, nl)
  }

  lemma OneLineBreaks(l: string, nl: string)
    requires OneLine(l)
    ensures OnlyBreaks(l, nl)
  {
    assert forall i: nat :: i < |l| ==> l[i] in l;
  }

  lemma OnlyBreaksConcat(a: string, b: string, nl: string)
    requires OnlyBreaks(a, nl) && OnlyBreaks(b, nl)
    ensures OnlyBreaks(a + b, nl)
  {
    var s := a + b;
    forall i: nat | i < |s| && IsBreak(s[i]) ensures BreakAt(s, i, nl) {
      if i < |a| {
        assert s[i] == a[i] && BreakAt(a, i, nl);
        assert i > 0 ==> s[i - 1] == a[i - 1];
        assert i + 1 < |a| ==> s[i + 1] == a[i + 1];
      } else {
        var j: nat := i - |a|;
        assert s[i] == b[j] && BreakAt(b, j, nl);
        assert j > 0 ==> s[i - 1] == b[j - 1];
        assert j + 1 < |b| ==> s[i + 1] == b[j + 1];
      }
    }
  }

  /** Taking away a part that does not begin with a line feed. */
  lemma OnlyBreaksBefore(a: string, b: string, nl: string)
    requires OnlyBreaks(a + b, nl) && (nl == "\n" || b == [] || b[0] != '\n')
    ensures OnlyBreaks(a, nl)
  {
    var s := a + b;
    forall i: nat | i < |a| && IsBreak(a[i]) ensures BreakAt(a, i, nl) {
      assert s[i] == a[i] && BreakAt(s, i, nl);
      assert i > 0 ==> s[i - 1] == a[i - 1];
      assert i + 1 < |a| ==> s[i + 1] == a[i + 1];
      assert i + 1 == |a| && b != [] ==> s[i + 1] == b[0];
    }
  }

  /** Taking away a part that does not end in a carriage return. */
  lemma OnlyBreaksAfter(a: string, b: string, nl: string)
    requires OnlyBreaks(a + b, nl) && (a == [] || a[|a| - 1] != '\r')
    ensures OnlyBreaks(b, nl)
  {
    var s := a + b;
    forall j: nat | j < |b| && IsBreak(b[j]) ensures BreakAt(b, j, nl) {
      var i: nat := |a| + j;
      assert s[i] == b[j] && BreakAt(s, i, nl);
      assert j > 0 ==> s[i - 1] == b[j - 1];
      assert j == 0 && a != [] ==> s[i - 1] == a[|a| - 1];
      assert j + 1 < |b| ==> s[i + 1] == b[j + 1];
    }
  }

  lemma NewlineBreaks(nl: string)
    requires IsNewline(nl)
    ensures OnlyBreaks(nl, nl)
  {
  }

  lemma {:induction false} TextOfBreaks(lines: seq<string>, nl: string)
    requires IsNewline(nl) && forall l :: l in lines ==> OneLine(l)
    ensures OnlyBreaks(TextOf(lines, nl), nl)
  {
    if lines != [] {
      TextOfBreaks(lines[1..], nl);
      OneLineBreaks(lines[0], nl);
      NewlineBreaks(nl);
      OnlyBreaksConcat(lines[0], nl, nl);
      OnlyBreaksConcat(lines[0] + nl, TextOf(lines[1..], nl), nl);
    }
  }

  /** The lines of `s`, each ended by `nl`, are `s`, up to the end of an open last line. */
  ghost predicate Rejoins(s: string, nl: string) {
    var text := TextOf(SplitLines(s), nl);
    text == s || text == s + nl
  }

  lemma FirstBreakIs(l: string, b: string, rest: string, nl: string)
    requires IsNewline(nl) && OneLine(l) && IsWholeBreak(b, rest) && OnlyBreaks(l + b + rest, nl)
    ensures b == nl && OnlyBreaks(rest, nl)
  {
    var s := l + b + rest;
    var i: nat := |l|;
    WidthOf(b, rest);
    Pieces(l, b, rest, s);
    assert s[i] == b[0] && BreakAt(s, i, nl);
    assert i > 0 ==> s[i - 1] == l[i - 1] && l[i - 1] in l;
    assert i + 1 < |s| && |b| == 1 ==> rest != [] && s[i + 1] == rest[0];
    LastOf(l, b);
    OnlyBreaksAfter(l + b, rest, nl);
  }

  /** Exactly the texts whose every line break is `nl` survive being split and joined with it. */
  lemma {:induction false} RejoinsExactly(s: string, nl: string)
    requires IsNewline(nl)
    ensures Rejoins(s, nl) <==> OnlyBreaks(s, nl)
    decreases |s|
  {
    if OnlyBreaks(s, nl) {
      RejoinsUniform(s, nl);
    }
    if Rejoins(s, nl) {
      var text := TextOf(SplitLines(s), nl);
      TextOfBreaks(SplitLines(s), nl);
      if text == s + nl {
        OnlyBreaksBefore(s, nl, nl);
      }
    }
  }

  lemma {:induction false} RejoinsUniform(s: string, nl: string)
    requires IsNewline(nl) && OnlyBreaks(s, nl)
    ensures TextOf(SplitLines(s), nl) == if s == [] || IsBreak(s[|s| - 1]) then s else s + nl
    decreases |s|
  {
    if s != [] && OneLine(s) {
      LoneLine(s);
      assert s[|s| - 1] in s;
      assert TextOf([s], nl) == s + nl;
    } else if s != [] {
      var l, b, rest := FirstLine(s);
      FirstBreakIs(l, b, rest, nl);
      LastPart(l, b, rest, s);
      RejoinsUniform(rest, nl);
      TextOfCons(l, SplitLines(rest), nl);
      Assoc(l + nl, rest, nl);
    }
  }

  /** Both sides of a cut between two lines keep the convention. */
  lemma OnlyBreaksCut(s: string, i: nat, nl: string)
    requires OnlyBreaks(s, nl) && i <= |s| && BetweenLines(s, i)
    ensures OnlyBreaks(s[..i], nl) && OnlyBreaks(s[i..], nl)
  {
    var a, b := s[..i], s[i..];
    TakeDrop(s, i);
    if 0 < i < |s| {
      assert BreakAt(s, i - 1, nl);
      assert a[|a| - 1] == s[i - 1] && b[0] == s[i];
      assert b[0] == '\n' ==> IsBreak(s[i]) && BreakAt(s, i, nl);
    }
    if a != [] && b != [] {
      OnlyBreaksBefore(a, b, nl);
      OnlyBreaksAfter(a, b, nl);
    } else {
      assert a == [] ==> b == s;
      assert b == [] ==> a == s;
    }
  }

  // ---------------------------------------------------------------------------
  // Stripping the end
  // ---------------------------------------------------------------------------

  lemma {:induction false} StripAll(y: string, t: string, chars: string)
    requires y == [] || y[|y| - 1] !in chars
    requires forall c :: c in t ==> c in chars
    ensures StripEnd(y + t, chars) == y
  {
    if t == [] {
      assert y + t == y;
    } else {
      assert (y + t)[..|y + t| - 1] == y + t[..|t| - 1];
      StripAll(y, t[..|t| - 1], chars);
    }
  }

  lemma StripEndIgnores(s: string, t: string, chars: string)
    requires forall c :: c in t ==> c in chars
    ensures StripEnd(s + t, chars) == StripEnd(s, chars)
  {
    var y := StripEnd(s, chars);
    var run := s[|y|..];
    assert s == y + run;
    Assoc(y, run, t);
    StripAll(y, run + t, chars);
  }

  lemma StripNonEmpty(s: string, c: char, chars: string)
    requires c in s && c !in chars
    ensures StripEnd(s, chars) != []
  {
    assert s[0..] == s;
  }

  /** What is left after stripping newline characters, in one convention, ends in text. */
  lemma StrippedEnd(s: string, nl: string)
    requires IsNewline(nl) && OnlyBreaks(s, nl) && s != [] && s[|s| - 1] !in nl
    ensures !IsBreak(s[|s| - 1])
  {
    var last: nat := |s| - 1;
    assert !IsBreak(s[last]) || BreakAt(s, last, nl);
  }

  // ---------------------------------------------------------------------------
  // Empty lines at the end
  // ---------------------------------------------------------------------------

  lemma BlanksText(k: nat, nl: string)
    ensures TextOf(Blanks(k + 1), nl) == TextOf(Blanks(k), nl) + nl
    ensures TextOf(Blanks(k + 1), nl) == nl + TextOf(Blanks(k), nl)
  {
    assert Blanks(k + 1) == Blanks(k) + [""];
    TextOfLast(Blanks(k), "", nl);
    assert Blanks(k + 1) == [""] + Blanks(k);
    TextOfCons("", Blanks(k), nl);
  }

  lemma {:induction false} BlanksChars(k: nat, nl: string)
    ensures forall c :: c in TextOf(Blanks(k), nl) ==> c in nl
  {
    if k > 0 {
      BlanksChars(k - 1, nl);
      BlanksText(k - 1, nl);
    }
  }

  /** Any list of lines is a list that ends in a non-empty line, followed by empty lines. */
  lemma {:induction false} TrimEmpty(lines: seq<string>) returns (core: seq<string>, e: nat)
    ensures lines == core + Blanks(e) && (core == [] || core[|core| - 1] != "")
  {
    core, e := lines, 0;
    if lines != [] && lines[|lines| - 1] == "" {
      core, e := TrimEmpty(lines[..|lines| - 1]);
      assert Blanks(e + 1) == Blanks(e) + [""];
      assert lines == core + Blanks(e) + [""];
      Assoc(core, Blanks(e), [""]);
      e := e + 1;
    }
  }

  /** An open text followed by empty lines strips back to it. */
  lemma StripBlanks(x: string, lines: seq<string>, core: seq<string>, e: nat, nl: string)
    requires lines == core + Blanks(e) && TextOf(core, nl) == x + nl && (x == [] || x[|x| - 1] !in nl)
    ensures StripEnd(TextOf(lines, nl), nl) == x
  {
    var run := nl + TextOf(Blanks(e), nl);
    TextOfConcat(core, Blanks(e), nl);
    Assoc(x, nl, TextOf(Blanks(e), nl));
    BlanksChars(e, nl);
    StripAll(x, run, nl);
  }

  lemma OpenLast(init: seq<string>, last: string, nl: string)
    requires OneLine(last) && last != [] && IsNewline(nl)
    ensures var x := TextOf(init, nl) + last; x != [] && !IsBreak(x[|x| - 1]) && x[|x| - 1] !in nl
    ensures TextOf(init + [last], nl) == TextOf(init, nl) + last + nl
  {
    assert last[|last| - 1] in last;
    LastOf(TextOf(init, nl), last);
    TextOfLast(init, last, nl);
  }
}
