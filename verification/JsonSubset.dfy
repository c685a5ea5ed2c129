/** Recursive JSON subset matching and pointer lookup of the trace replayer. */
module JsonSubset {
  import opened Collections

  datatype Json =
    | Null
    | Bool(b: bool)
    | Number(n: real)
    | Text(s: string)
    | List(items: seq<Json>)
    | Object(fields: map<string, Json>)

  // ---------------------------------------------------------------------------
  // Subset matching
  // ---------------------------------------------------------------------------

  /** The number a JSON leaf stands for in a Python comparison, where True == 1. */
  function Numeric(a: Json): Option<real> {
    match a
    case Bool(b) => Some(if b then 1.0 else 0.0)
    case Number(n) => Some(n)
    case _ => None
  }

  predicate LeafEqual(a: Json, b: Json) {
    if Numeric(a).Some? && Numeric(b).Some? then Numeric(a) == Numeric(b) else a == b
  }

  /** Python's `==` on JSON values. */
  ghost predicate Equal(a: Json, b: Json)
    decreases b
  {
    match b
    case Object(fields) => a.Object? && a.fields.Keys == fields.Keys && forall k :: k in fields ==>
        Equal(a.fields[k], fields[k])
    case List(items) => a.List? && |a.items| == |items| && forall i :: 0 <= i < |items| ==> Equal(a.items[i], items[i])
    case _ => LeafEqual(a, b)
  }

  /** `small` matches inside `big`: objects by key, lists index by index, leaves by equality. */
  predicate Matches(big: Json, small: Json)
    decreases small
  {
    match small
    case Object(fields) =>
      big.Object? && forall k :: k in fields ==> k in big.fields && Matches(big.fields[k], fields[k])
    case List(items) =>
      big.List? && |items| <= |big.items| && forall i :: 0 <= i < |items| ==> Matches(big.items[i], items[i])
    case _ => LeafEqual(big, small)
  }

  lemma {:induction false} MatchesReflexive(a: Json)
    ensures Matches(a, a)
    decreases a
  {
    match a
    case Object(fields) => forall k | k in fields { MatchesReflexive(fields[k]); }
    case List(items) => forall i | 0 <= i < |items| { MatchesReflexive(items[i]); }
    case _ =>
  }

  lemma {:induction false} MatchesTransitive(a: Json, b: Json, c: Json)
    requires Matches(a, b) && Matches(b, c)
    ensures Matches(a, c)
    decreases c
  {
    match c
    case Object(fields) =>
      forall k | k in fields ensures k in a.fields && Matches(a.fields[k], fields[k]) {
        MatchesTransitive(a.fields[k], b.fields[k], fields[k]);
      }
    case List(items) =>
      forall i | 0 <= i < |items| ensures Matches(a.items[i], items[i]) {
        MatchesTransitive(a.items[i], b.items[i], items[i]);
      }
    case _ =>
  }

  /** Matching both ways is equality. */
  lemma {:induction false} MatchesAntisymmetric(a: Json, b: Json)
    ensures Matches(a, b) && Matches(b, a) <==> Equal(a, b)
    decreases b
  {
    match b
    case Object(fields) =>
      if a.Object? {
        forall k | k in fields && k in a.fields { MatchesAntisymmetric(a.fields[k], fields[k]); }
      }
    case List(items) =>
      if a.List? {
        forall i | 0 <= i < |items| && i < |a.items| { MatchesAntisymmetric(a.items[i], items[i]); }
      }
    case _ =>
  }

  /** A larger value still holds what it held: a new key, or an item at the end of a list, keeps a match. */
  lemma MatchGrows(fields: map<string, Json>, items: seq<Json>, key: string, extra: Json, small: Json)
    ensures key !in fields && Matches(Object(fields), small) ==> Matches(Object(fields[key := extra]), small)
    ensures Matches(List(items), small) ==> Matches(List(items + [extra]), small)
  {
  }

  /** What is asked for has to be there: a key or an item more than the value has is no match. */
  lemma MatchNeedsAll(fields: map<string, Json>, asked: map<string, Json>, key: string, items: seq<Json>,
                      more: seq<Json>)
    ensures key in asked && key !in fields ==> !Matches(Object(fields), Object(asked))
    ensures |more| > |items| ==> !Matches(List(items), List(more))
    ensures key in asked && key in fields && !Matches(fields[key], asked[key]) ==>
            !Matches(Object(fields), Object(asked))
  {
  }

  /** Leaves match by value, and a boolean is the number 0 or 1. */
  lemma LeafMatches(b: bool, n: real, m: real, s: string, t: string, big: Json)
    ensures Matches(Bool(b), Number(n)) <==> n == if b then 1.0 else 0.0
    ensures Matches(Number(n), Bool(b)) <==> n == if b then 1.0 else 0.0
    ensures Matches(Number(n), Number(m)) <==> n == m
    ensures Matches(Text(s), Text(t)) <==> s == t
    ensures Matches(big, Null) <==> big == Null
    ensures Matches(big, Text(t)) ==> big == Text(t)
  {
  }

  // ---------------------------------------------------------------------------
  // Pointer lookup
  // ---------------------------------------------------------------------------

  /** What a lookup gives: a value, or the ValueError / IndexError of a bad list index. */
  datatype Lookup = Raises | Value(v: Json)

  function StripSlashes(s: string): string {
    if s != [] && s[0] == '/' then StripSlashes(s[1..])
    else if s != [] && s[|s| - 1] == '/' then StripSlashes(s[..|s| - 1])
    else s
  }

  function SplitSlashes(s: string): (parts: seq<string>)
    ensures parts != []
  {
    if s == [] then [[]]
    else
      var rest := SplitSlashes(s[1..]);
      if s[0] == '/' then [[]] + rest else [[s[0]] + rest[0]] + rest[1..]
  }

  /** The steps of a pointer; the empty pointer and "/" denote the root. */
  function Parts(pointer: string): seq<string> {
    if pointer == "" || pointer == "/" then [] else SplitSlashes(StripSlashes(pointer))
  }

  /** Python list indexing, negative indices counted from the end. */
  function Index(items: seq<Json>, i: int): Lookup {
    if 0 <= i < |items| then Value(items[i])
    else if -|items| <= i < 0 then Value(items[|items| + i])
    else Raises
  }

  /** One step of a lookup; `parse` is Python's `int` on a path component. */
  function Step(cur: Json, part: string, parse: string -> Option<int>): Lookup {
    match cur
    case List(items) => if parse(part).Some? then Index(items, parse(part).value) else Raises
    case Object(fields) => Value(if part in fields then fields[part] else Null)
    case _ => Value(Null)
  }

  function Resolve(cur: Json, parts: seq<string>, parse: string -> Option<int>): Lookup
    decreases parts
  {
    if parts == [] then Value(cur)
    else
      var next := Step(cur, parts[0], parse);
      if next.Raises? then Raises else Resolve(next.v, parts[1..], parse)
  }

  function JoinSlashes(parts: seq<string>): string {
    if parts == [] then [] else if |parts| == 1 then parts[0] else parts[0] + "/" + JoinSlashes(parts[1..])
  }

  ghost predicate AllSlashes(s: string) {
    forall c :: c in s ==> c == '/'
  }

  lemma {:induction false} SplitJoins(s: string)
    ensures JoinSlashes(SplitSlashes(s)) == s && forall p :: p in SplitSlashes(s) ==> '/' !in p
  {
    if s != [] {
      var rest := SplitSlashes(s[1..]);
      SplitJoins(s[1..]);
      assert s == [s[0]] + s[1..];
      if s[0] == '/' {
        assert ([[]] + rest)[1..] == rest;
      } else {
        assert rest[0] in rest && forall p :: p in rest[1..] ==> p in rest;
        JoinFirst([s[0]], rest);
      }
    }
  }

  lemma JoinFirst(a: string, parts: seq<string>)
    requires parts != []
    ensures JoinSlashes([a + parts[0]] + parts[1..]) == a + JoinSlashes(parts)
  {
    var more := [a + parts[0]] + parts[1..];
    assert more[0] == a + parts[0] && more[1..] == parts[1..];
    if |parts| > 1 {
      Assoc(a, parts[0], "/");
      Assoc(a, parts[0] + "/", JoinSlashes(parts[1..]));
    }
  }

  lemma {:induction false} SlashesOff(s: string) returns (pre: string, post: string)
    ensures s == pre + StripSlashes(s) + post && AllSlashes(pre) && AllSlashes(post)
    ensures var t := StripSlashes(s); t == [] || (t[0] != '/' && t[|t| - 1] != '/')
    decreases |s|
  {
    pre, post := [], [];
    if s != [] && s[0] == '/' {
      pre, post := SlashesOff(s[1..]);
      assert s == [s[0]] + s[1..];
      pre := [s[0]] + pre;
    } else if s != [] && s[|s| - 1] == '/' {
      pre, post := SlashesOff(s[..|s| - 1]);
      assert s == s[..|s| - 1] + [s[|s| - 1]];
      post := post + [s[|s| - 1]];
    }
  }

  /** Any pointer but the root's is its parts, joined by slashes, between slashes; no part has one. */
  lemma PartsExactly(pointer: string) returns (pre: string, post: string)
    ensures (pointer == "" || pointer == "/") ==> Parts(pointer) == []
    ensures !(pointer == "" || pointer == "/") ==>
            var body := JoinSlashes(Parts(pointer));
            && Parts(pointer) != [] && pointer == pre + body + post && AllSlashes(pre) && AllSlashes(post)
            && (body == [] || (body[0] != '/' && body[|body| - 1] != '/'))
            && forall p :: p in Parts(pointer) ==> '/' !in p
  {
    pre, post := SlashesOff(pointer);
    SplitJoins(StripSlashes(pointer));
  }

  /** A lookup goes through the parts one by one. */
  lemma {:induction false} ResolveConcat(cur: Json, first: seq<string>, rest: seq<string>, parse: string -> Option<int>)
    ensures Resolve(cur, first + rest, parse) ==
            var middle := Resolve(cur, first, parse); if middle.Raises? then Raises else Resolve(middle.v, rest, parse)
    decreases first
  {
    if first == [] {
      assert first + rest == rest;
    } else {
      assert (first + rest)[0] == first[0] && (first + rest)[1..] == first[1..] + rest;
      var next := Step(cur, first[0], parse);
      if next.Value? {
        ResolveConcat(next.v, first[1..], rest, parse);
      }
    }
  }

  /** What one part gives: a field or null, an item counted from either end, an error, or null. */
  lemma OnePart(fields: map<string, Json>, items: seq<Json>, leaf: Json, part: string, parse: string -> Option<int>)
    ensures part in fields ==> Resolve(Object(fields), [part], parse) == Value(fields[part])
    ensures part !in fields ==> Resolve(Object(fields), [part], parse) == Value(Null)
    ensures parse(part).None? ==> Resolve(List(items), [part], parse) == Raises
    ensures parse(part).Some? ==>
              var i := parse(part).value;
              Resolve(List(items), [part], parse) ==
              if 0 <= i < |items| then Value(items[i])
              else if -|items| <= i < 0 then Value(items[|items| + i])
              else Raises
    ensures !leaf.Object? && !leaf.List? ==> Resolve(leaf, [part], parse) == Value(Null)
  {
  }

  lemma {:induction false} NullStaysNull(parts: seq<string>, cur: Json, parse: string -> Option<int>)
    requires !cur.List? && !cur.Object? && (parts != [] || cur.Null?)
    ensures Resolve(cur, parts, parse) == Value(Null)
  {
    if parts != [] {
      NullStaysNull(parts[1..], Null, parse);
    }
  }

  /** The loop, with its early returns, follows the pointer step by step. */
  method GetByPointer(data: Json, pointer: string, parse: string -> Option<int>) returns (r: Lookup)
    ensures r == Resolve(data, Parts(pointer), parse)
  {
    if pointer == "" || pointer == "/" {
      return Value(data);
    }
    var cur := data;
    var parts := SplitSlashes(StripSlashes(pointer));
    for k := 0 to |parts|
      invariant Resolve(data, parts, parse) == Resolve(cur, parts[k..], parse)
    {
      var part := parts[k];
      assert parts[k..][1..] == parts[k + 1..];
      if cur.Null? {
        NullStaysNull(parts[k..], cur, parse);
        return Value(Null);
      }
      if cur.List? {
        if parse(part).None? {
          return Raises;
        }
        var item := Index(cur.items, parse(part).value);
        if item.Raises? {
          return Raises;
        }
        cur := item.v;
      } else if cur.Object? {
        cur := if part in cur.fields then cur.fields[part] else Null;
      } else {
        NullStaysNull(parts[k..], cur, parse);
        return Value(Null);
      }
    }
    assert parts[|parts|..] == [];
    return Value(cur);
  }

  // ---------------------------------------------------------------------------
  // Lookup is monotone exactly for pointers without a negative index
  // ---------------------------------------------------------------------------

  /** Wherever `small` matches inside `big`, a non-null lookup in `small` succeeds in `big`,
      with a value the small one matches inside. */
  ghost predicate IsMonotone(parts: seq<string>, parse: string -> Option<int>) {
    forall big, small :: Matches(big, small) ==> Agrees(big, small, parts, parse)
  }

  ghost predicate Agrees(big: Json, small: Json, parts: seq<string>, parse: string -> Option<int>) {
    var low, high := Resolve(small, parts, parse), Resolve(big, parts, parse);
    low.Value? && low.v != Null ==> high.Value? && Matches(high.v, low.v)
  }

  predicate NoNegativeIndex(parts: seq<string>, parse: string -> Option<int>) {
    forall p :: p in parts && parse(p).Some? ==> parse(p).value >= 0
  }

  lemma {:induction false} LookupMonotone(big: Json, small: Json, parts: seq<string>, parse: string -> Option<int>)
    requires Matches(big, small) && NoNegativeIndex(parts, parse)
    ensures Agrees(big, small, parts, parse)
    decreases parts
  {
    if parts != [] {
      var p := parts[0];
      assert p in parts;
      if small.List? || small.Object? {
        var low, high := Step(small, p, parse), Step(big, p, parse);
        if small.Object? && p !in small.fields {
          NullStaysNull(parts[1..], Null, parse);
        } else if low.Value? {
          LookupMonotone(high.v, low.v, parts[1..], parse);
        }
      } else {
        NullStaysNull(parts, small, parse);
      }
    }
  }

  /** `leaf` placed under nested objects so that `parts` leads to it. */
  function Wrap(parts: seq<string>, leaf: Json): Json {
    if parts == [] then leaf else Object(map[parts[0] := Wrap(parts[1..], leaf)])
  }

  lemma {:induction false} ResolveWrapped(prefix: seq<string>, suffix: seq<string>, leaf: Json,
                                          parse: string -> Option<int>)
    ensures Resolve(Wrap(prefix, leaf), prefix + suffix, parse) == Resolve(leaf, suffix, parse)
  {
    if prefix == [] {
      assert prefix + suffix == suffix;
    } else {
      ResolveWrapped(prefix[1..], suffix, leaf, parse);
      assert (prefix + suffix)[1..] == prefix[1..] + suffix;
    }
  }

  lemma {:induction false} MatchesWrapped(parts: seq<string>, big: Json, small: Json)
    ensures Matches(Wrap(parts, big), Wrap(parts, small)) <==> Matches(big, small)
  {
    if parts != [] {
      MatchesWrapped(parts[1..], big, small);
      assert parts[0] in Wrap(parts, small).fields;
    }
  }

  /** A negative index -n reads the start of an n-element list and the middle of a 2n-element one. */
  lemma NegativeIndexBreaks(parts: seq<string>, i: nat, parse: string -> Option<int>)
    requires i < |parts| && parse(parts[i]).Some? && parse(parts[i]).value < 0
    ensures !IsMonotone(parts, parse)
  {
    var n := -parse(parts[i]).value;
    var before, after := parts[..i], parts[i + 1..];
    var x, y := Wrap(after, Number(0.0)), Wrap(after, Number(1.0));
    var short := List(seq(n, _ => x));
    var long := List(seq(2 * n, k => if k < n then x else y));
    assert parts[i..][1..] == after;
    assert before + parts[i..] == parts;
    MatchesReflexive(x);
    MatchesWrapped(before, long, short);
    ResolveWrapped(before, parts[i..], short, parse);
    ResolveWrapped(before, parts[i..], long, parse);
    ResolveWrapped(after, [], Number(0.0), parse);
    ResolveWrapped(after, [], Number(1.0), parse);
    assert after + [] == after;
    assert !Agrees(Wrap(before, long), Wrap(before, short), parts, parse);
  }

  /** The exact condition under which lookup respects the subset order. */
  lemma MonotoneExactly(pointer: string, parse: string -> Option<int>)
    ensures IsMonotone(Parts(pointer), parse) <==> NoNegativeIndex(Parts(pointer), parse)
  {
    var parts := Parts(pointer);
    if NoNegativeIndex(parts, parse) {
      forall big, small | Matches(big, small) ensures Agrees(big, small, parts, parse) {
        LookupMonotone(big, small, parts, parse);
      }
    } else {
      var p :| p in parts && parse(p).Some? && parse(p).value < 0;
      var i :| 0 <= i < |parts| && parts[i] == p;
      NegativeIndexBreaks(parts, i, parse);
    }
  }
}
