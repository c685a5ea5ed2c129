/** Character and string facts shared by the models: Python's whitespace
    stripping and its code-point order on strings. */
module Text {

  /** The characters Python's `str.strip()` removes and `\s` matches. */
  predicate IsSpace(c: char) {
    || '\t' <= c <= '\r'
    || '\U{1C}' <= c <= ' '
    || c == '\U{85}' || c == '\U{A0}' || c == '\U{1680}'
    || '\U{2000}' <= c <= '\U{200A}'
    || c == '\U{2028}' || c == '\U{2029}' || c == '\U{202F}' || c == '\U{205F}' || c == '\U{3000}'
  }

  function TrimLeft(s: string): string {
    if s != [] && IsSpace(s[0]) then TrimLeft(s[1..]) else s
  }

  function TrimRight(s: string): string {
    if s != [] && IsSpace(s[|s| - 1]) then TrimRight(s[..|s| - 1]) else s
  }

  function Strip(s: string): string {
    TrimRight(TrimLeft(s))
  }

  /** Python's `<` on strings. */
  predicate LexLess(a: string, b: string) {
    b != [] && (a == [] || a[0] < b[0] || (a[0] == b[0] && LexLess(a[1..], b[1..])))
  }

  lemma {:induction false} LexIrreflexive(a: string)
    ensures !LexLess(a, a)
  {
    if a != [] {
      LexIrreflexive(a[1..]);
    }
  }

  lemma {:induction false} LexTransitive(a: string, b: string, c: string)
    requires LexLess(a, b) && LexLess(b, c)
    ensures LexLess(a, c)
  {
    if a != [] && a[0] == b[0] == c[0] {
      LexTransitive(a[1..], b[1..], c[1..]);
    }
  }

  lemma {:induction false} LexTotal(a: string, b: string)
    ensures LexLess(a, b) || a == b || LexLess(b, a)
  {
    if a != [] && b != [] && a[0] == b[0] {
      LexTotal(a[1..], b[1..]);
      assert a == [a[0]] + a[1..] && b == [b[0]] + b[1..];
    }
  }

  /** `a` and `b` agree up to `i`, where `a` ends or has the smaller code point. */
  predicate DiffersAt(a: string, b: string, i: nat) {
    i <= |a| && i < |b| && a[..i] == b[..i] && (i == |a| || a[i] < b[i])
  }

  /** Python's order on strings is decided at the first difference, a proper prefix coming first. */
  lemma {:induction false} LexExactly(a: string, b: string)
    ensures LexLess(a, b) <==> exists i: nat :: DiffersAt(a, b, i)
  {
    if LexLess(a, b) {
      var i := LexDifference(a, b);
    }
    if i: nat :| DiffersAt(a, b, i) {
      DifferenceIsLess(a, b, i);
    }
  }

  lemma {:induction false} LexDifference(a: string, b: string) returns (i: nat)
    requires LexLess(a, b)
    ensures DiffersAt(a, b, i)
  {
    i := 0;
    if a != [] && a[0] == b[0] {
      i := LexDifference(a[1..], b[1..]);
      assert a[..i + 1] == [a[0]] + a[1..][..i] && b[..i + 1] == [b[0]] + b[1..][..i];
      i := i + 1;
    }
  }

  lemma {:induction false} DifferenceIsLess(a: string, b: string, i: nat)
    requires DiffersAt(a, b, i)
    ensures LexLess(a, b)
  {
    if i > 0 {
      assert a[..i][0] == a[0] && b[..i][0] == b[0];
      assert a[1..][..i - 1] == a[..i][1..] && b[1..][..i - 1] == b[..i][1..];
      DifferenceIsLess(a[1..], b[1..], i - 1);
    }
  }

  // ---------------------------------------------------------------------------
  // Stripping
  // ---------------------------------------------------------------------------

  ghost predicate AllSpace(s: string) {
    forall c :: c in s ==> IsSpace(c)
  }

  /** No white space at either end. */
  predicate IsTight(s: string) {
    s == [] || (!IsSpace(s[0]) && !IsSpace(s[|s| - 1]))
  }

  /** The white space characters one by one. */
  lemma SpacesAre(c: char)
    ensures IsSpace(c) <==>
            c in {'\t', '\n', '\U{0B}', '\U{0C}', '\r', '\U{1C}', '\U{1D}', '\U{1E}', '\U{1F}', ' ', '\U{85}', '\U{A0}',
                  '\U{1680}', '\U{2000}', '\U{2001}', '\U{2002}', '\U{2003}', '\U{2004}', '\U{2005}', '\U{2006}',
                  '\U{2007}', '\U{2008}', '\U{2009}', '\U{200A}', '\U{2028}', '\U{2029}', '\U{202F}', '\U{205F}',
                  '\U{3000}'}
  {
  }

  lemma {:induction false} TrimLeftAfter(pre: string, s: string)
    requires AllSpace(pre) && (s == [] || !IsSpace(s[0]))
    ensures TrimLeft(pre + s) == s
  {
    if pre == [] {
      assert pre + s == s;
    } else {
      assert pre[0] in pre && (pre + s)[1..] == pre[1..] + s;
      TrimLeftAfter(pre[1..], s);
    }
  }

  lemma {:induction false} TrimRightBefore(s: string, post: string)
    requires AllSpace(post) && (s == [] || !IsSpace(s[|s| - 1]))
    ensures TrimRight(s + post) == s
  {
    if post == [] {
      assert s + post == s;
    } else {
      assert post[|post| - 1] in post && (s + post)[..|s + post| - 1] == s + post[..|post| - 1];
      TrimRightBefore(s, post[..|post| - 1]);
    }
  }

  lemma {:induction false} TrimLeftParts(s: string) returns (pre: string)
    ensures s == pre + TrimLeft(s) && AllSpace(pre) && (TrimLeft(s) == [] || !IsSpace(TrimLeft(s)[0]))
  {
    pre := [];
    if s != [] && IsSpace(s[0]) {
      pre := TrimLeftParts(s[1..]);
      assert s == [s[0]] + s[1..];
      pre := [s[0]] + pre;
    }
  }

  lemma {:induction false} TrimRightParts(s: string) returns (post: string)
    ensures s == TrimRight(s) + post && AllSpace(post)
    ensures TrimRight(s) == [] || !IsSpace(TrimRight(s)[|TrimRight(s)| - 1])
  {
    post := [];
    if s != [] && IsSpace(s[|s| - 1]) {
      post := TrimRightParts(s[..|s| - 1]);
      assert s == s[..|s| - 1] + [s[|s| - 1]];
      post := post + [s[|s| - 1]];
    }
  }

  /** Stripping is exactly taking the white space off both ends. */
  lemma StripExactly(s: string, t: string)
    ensures Strip(s) == t <==> exists pre, post :: s == pre + t + post && AllSpace(pre) && AllSpace(post) && IsTight(t)
  {
    if Strip(s) == t {
      var pre, post := StripEnds(s);
    }
    if pre, post :| s == pre + t + post && AllSpace(pre) && AllSpace(post) && IsTight(t) {
      StripParts(pre, t, post, s);
    }
  }

  /** Nothing is left of a text exactly when it is white space. */
  lemma BlankExactly(s: string)
    ensures Strip(s) == [] <==> AllSpace(s)
  {
    StripExactly(s, []);
    if AllSpace(s) {
      assert s == s + [] + [] && AllSpace([]);
    }
  }

  lemma StripEnds(s: string) returns (pre: string, post: string)
    ensures s == pre + Strip(s) + post && AllSpace(pre) && AllSpace(post) && IsTight(Strip(s))
  {
    var inner := TrimLeft(s);
    pre := TrimLeftParts(s);
    post := TrimRightParts(inner);
    assert pre + (Strip(s) + post) == pre + Strip(s) + post;
    assert Strip(s) != [] ==> inner[0] == Strip(s)[0];
  }

  lemma StripParts(pre: string, t: string, post: string, s: string)
    requires s == pre + t + post && AllSpace(pre) && AllSpace(post) && IsTight(t)
    ensures Strip(s) == t
  {
    if t == [] {
      assert s == pre + post + [];
      TrimLeftAfter(pre + post, []);
    } else {
      assert s == pre + (t + post) && (t + post)[0] == t[0];
      TrimLeftAfter(pre, t + post);
      TrimRightBefore(t, post);
    }
  }
}
