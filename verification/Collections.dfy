/** Options and facts about sequences shared by the models. */
module Collections {

  datatype Option<T> = None | Some(value: T)

  lemma Assoc<T>(a: seq<T>, b: seq<T>, c: seq<T>)
    ensures a + b + c == a + (b + c)
  {
  }

  lemma HeadIsMember<T>(s: seq<T>)
    ensures s != [] ==> s[0] in s
  {
  }

  lemma TakeDrop<T>(s: seq<T>, i: nat)
    requires i <= |s|
    ensures s == s[..i] + s[i..]
  {
  }

  ghost predicate Increasing(a: seq<nat>) {
    forall i, j :: 0 <= i < j < |a| ==> a[i] < a[j]
  }

  /** Two increasing sequences with the same elements are equal. */
  lemma {:induction false} SameIncreasing(a: seq<nat>, b: seq<nat>)
    requires Increasing(a) && Increasing(b) && forall x: nat :: x in a <==> x in b
    ensures a == b
  {
    if a != [] {
      var x := a[|a| - 1];
      assert x in b;
      var y := b[|b| - 1];
      assert y in a;
      assert x == y;
      var a', b' := a[..|a| - 1], b[..|b| - 1];
      assert a == a' + [x] && b == b' + [y];
      assert x !in a' && y !in b';
      forall z: nat ensures z in a' <==> z in b' {
        assert z in a <==> z in a' || z == x;
        assert z in b <==> z in b' || z == y;
      }
      SameIncreasing(a', b');
    } else {
      HeadIsMember(b);
    }
  }

  // ---------------------------------------------------------------------------
  // Filters
  // ---------------------------------------------------------------------------

  /** The elements that satisfy `p`, in order. */
  function Where<T(!new)>(s: seq<T>, p: T -> bool): (r: seq<T>)
    ensures forall x :: x in r <==> x in s && p(x)
  {
    if s == [] then []
    else
      var init, last := s[..|s| - 1], s[|s| - 1];
      assert s == init + [last];
      if p(last) then Where(init, p) + [last] else Where(init, p)
  }

  function Map<A, B>(s: seq<A>, f: A -> B): (r: seq<B>)
    ensures |r| == |s| && forall i :: 0 <= i < |s| ==> r[i] == f(s[i])
  {
    seq(|s|, i requires 0 <= i < |s| => f(s[i]))
  }

  lemma WhereAppend<T(!new)>(s: seq<T>, x: T, p: T -> bool)
    ensures Where(s + [x], p) == if p(x) then Where(s, p) + [x] else Where(s, p)
  {
    assert (s + [x])[..|s|] == s;
  }

  ghost predicate NoneOf<T>(s: seq<T>, p: T -> bool) {
    forall i :: 0 <= i < |s| ==> !p(s[i])
  }

  /** Position `i` is the first whose element satisfies `p`. */
  ghost predicate FirstAt<T>(s: seq<T>, p: T -> bool, i: nat) {
    i < |s| && p(s[i]) && forall j :: 0 <= j < i ==> !p(s[j])
  }

  ghost predicate TwoOf<T>(s: seq<T>, p: T -> bool) {
    exists i, j :: 0 <= i < j < |s| && p(s[i]) && p(s[j])
  }

  lemma WhereNone<T(!new)>(s: seq<T>, p: T -> bool)
    ensures Where(s, p) == [] <==> NoneOf(s, p)
  {
    if Where(s, p) == [] {
      forall i | 0 <= i < |s| ensures !p(s[i]) {
        assert s[i] in s && s[i] !in Where(s, p);
      }
    } else {
      var x := Where(s, p)[0];
      assert x in Where(s, p);
      var i :| 0 <= i < |s| && s[i] == x;
    }
  }

  lemma {:induction false} FindFirst<T(!new)>(s: seq<T>, p: T -> bool, j: nat) returns (i: nat)
    requires j < |s| && p(s[j])
    ensures FirstAt(s, p, i)
    decreases j
  {
    if earlier :| 0 <= earlier < j && p(s[earlier]) {
      i := FindFirst(s, p, earlier);
    } else {
      i := j;
    }
  }

  /** Either no element satisfies `p`, or there is a first one, and it is the first of the filter. */
  lemma {:induction false} WhereFirst<T(!new)>(s: seq<T>, p: T -> bool, i: nat)
    requires FirstAt(s, p, i)
    ensures Where(s, p) != [] && Where(s, p)[0] == s[i]
  {
    var init, last := s[..|s| - 1], s[|s| - 1];
    if i < |init| {
      WhereFirst(init, p, i);
    } else {
      WhereNone(init, p);
      assert init + [last] == s;
    }
  }

  lemma {:induction false} WhereTwo<T(!new)>(s: seq<T>, p: T -> bool)
    ensures |Where(s, p)| >= 2 <==> TwoOf(s, p)
  {
    if s != [] {
      var init, last := s[..|s| - 1], s[|s| - 1];
      WhereTwo(init, p);
      WhereNone(init, p);
      TwoInLonger(init, last, s, p);
    }
  }

  lemma TwoInLonger<T(!new)>(init: seq<T>, last: T, s: seq<T>, p: T -> bool)
    requires s == init + [last]
    ensures TwoOf(s, p) <==> TwoOf(init, p) || (p(last) && !NoneOf(init, p))
  {
    if TwoOf(s, p) {
      var i, j :| 0 <= i < j < |s| && p(s[i]) && p(s[j]);
      assert s[i] == init[i];
      assert j < |init| ==> s[j] == init[j];
    }
    if TwoOf(init, p) {
      var i, j :| 0 <= i < j < |init| && p(init[i]) && p(init[j]);
      assert s[i] == init[i] && s[j] == init[j];
    }
    if p(last) && !NoneOf(init, p) {
      var i :| 0 <= i < |init| && p(init[i]);
      assert s[i] == init[i] && s[|init|] == last;
    }
  }

  /** Filtering mapped elements is mapping the elements that pass. */
  lemma {:induction false} WhereMapped<A(!new), B(!new)>(s: seq<A>, f: A -> B, p: B -> bool, r: A -> bool)
    requires forall x :: x in s ==> (r(x) <==> p(f(x)))
    ensures Where(Map(s, f), p) == Map(Where(s, r), f)
  {
    if s != [] {
      var init, last := s[..|s| - 1], s[|s| - 1];
      assert s == init + [last];
      WhereMapped(init, f, p, r);
      MapAppend(init, last, f);
      WhereAppend(Map(init, f), f(last), p);
      MapAppend(Where(init, r), last, f);
    }
  }

  /** Filtering twice is filtering by both. */
  lemma {:induction false} WhereBoth<T(!new)>(s: seq<T>, p: T -> bool, q: T -> bool, r: T -> bool)
    requires forall x :: x in s ==> (r(x) <==> p(x) && q(x))
    ensures Where(Where(s, p), q) == Where(s, r)
  {
    if s != [] {
      var init, last := s[..|s| - 1], s[|s| - 1];
      assert s == init + [last];
      WhereBoth(init, p, q, r);
      WhereAppend(Where(init, p), last, q);
    }
  }

  lemma MapAppend<A, B>(s: seq<A>, x: A, f: A -> B)
    ensures Map(s + [x], f) == Map(s, f) + [f(x)]
  {
  }
}
