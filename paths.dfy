/** Resolution of a field path against the state snapshot: the path is split
    on '/', empty segments are dropped, and the remaining segments are walked
    from the root, indexing only into arrays and non-null objects. */
module Paths {
  import opened Types

  /** `s.split("/")`: the pieces between separators, always at least one. */
  function Split(s: string): (parts: seq<string>)
    ensures |parts| >= 1
  {
    if s == [] then [""]
    else
      var rest := Split(s[1..]);
      if s[0] == '/' then [""] + rest
      else [[s[0]] + rest[0]] + rest[1..]
  }

  /** `parts.join("/")`, the inverse of Split. */
  function Join(parts: seq<string>): string
    requires |parts| >= 1
  {
    if |parts| == 1 then parts[0] else parts[0] + "/" + Join(parts[1..])
  }

  /** `.filter(Boolean)` on strings: keeps the non-empty pieces, in order. */
  function NonEmpty(parts: seq<string>): seq<string> {
    if parts == [] then []
    else (if parts[0] == "" then [] else [parts[0]]) + NonEmpty(parts[1..])
  }

  /** The segments of a path, `path.split("/").filter(Boolean)`. */
  function Segments(path: string): seq<string> {
    NonEmpty(Split(path))
  }

  lemma {:induction false} JoinCons(c: char, parts: seq<string>)
    requires |parts| >= 1
    ensures Join([[c] + parts[0]] + parts[1..]) == [c] + Join(parts)
  {
    var q := [[c] + parts[0]] + parts[1..];
    if |parts| > 1 {
      assert q[1..] == parts[1..];
    }
  }

  /** Joining the pieces of a split gives the original string back. */
  lemma {:induction false} JoinSplit(s: string)
    ensures Join(Split(s)) == s
  {
    if s != [] {
      var rest := Split(s[1..]);
      JoinSplit(s[1..]);
      if s[0] == '/' {
        assert ([""] + rest)[1..] == rest;
      } else {
        JoinCons(s[0], rest);
      }
      assert s == [s[0]] + s[1..];
    }
  }

  /** No piece of a split contains the separator. */
  lemma {:induction false} SplitPiecesHaveNoSlash(s: string)
    ensures forall i :: 0 <= i < |Split(s)| ==> '/' !in Split(s)[i]
  {
    if s != [] {
      SplitPiecesHaveNoSlash(s[1..]);
    }
  }

  /** A string without a separator splits into itself alone. */
  lemma {:induction false} SplitWithoutSlash(w: string)
    requires '/' !in w
    ensures Split(w) == [w]
  {
    if w != [] {
      SplitWithoutSlash(w[1..]);
      assert w == [w[0]] + w[1..];
    }
  }

  /** Splitting at a separator concatenates the splits of both sides. */
  lemma {:induction false} SplitAtSlash(x: string, y: string)
    ensures Split(x + "/" + y) == Split(x) + Split(y)
  {
    var s := x + "/" + y;
    if x == [] {
      assert s[1..] == y;
    } else {
      assert s[1..] == x[1..] + "/" + y;
      SplitAtSlash(x[1..], y);
    }
  }

  /** Splitting a join of separator-free pieces gives the pieces back. */
  lemma {:induction false} SplitJoin(parts: seq<string>)
    requires |parts| >= 1
    requires forall i :: 0 <= i < |parts| ==> '/' !in parts[i]
    ensures Split(Join(parts)) == parts
  {
    SplitWithoutSlash(parts[0]);
    if |parts| > 1 {
      SplitJoin(parts[1..]);
      SplitAtSlash(parts[0], Join(parts[1..]));
      assert parts == [parts[0]] + parts[1..];
    }
  }

  lemma {:induction false} NonEmptyConcat(a: seq<string>, b: seq<string>)
    ensures NonEmpty(a + b) == NonEmpty(a) + NonEmpty(b)
  {
    if a != [] {
      assert (a + b)[0] == a[0];
      assert (a + b)[1..] == a[1..] + b;
      NonEmptyConcat(a[1..], b);
      var h := if a[0] == "" then [] else [a[0]];
      calc {
        NonEmpty(a + b);
        h + NonEmpty(a[1..] + b);
        h + (NonEmpty(a[1..]) + NonEmpty(b));
        (h + NonEmpty(a[1..])) + NonEmpty(b);
      }
    } else {
      assert a + b == b;
    }
  }

  /** The kept pieces are exactly the non-empty ones. */
  lemma {:induction false} NonEmptyKeeps(parts: seq<string>)
    ensures forall i :: 0 <= i < |NonEmpty(parts)| ==> NonEmpty(parts)[i] != "" && NonEmpty(parts)[i] in parts
    ensures forall p :: p in parts && p != "" ==> p in NonEmpty(parts)
  {
    if parts != [] {
      NonEmptyKeeps(parts[1..]);
    }
  }

  /** Every segment is non-empty and free of separators, and every non-empty
      piece between separators is a segment. */
  lemma SegmentsWellFormed(path: string)
    ensures forall i :: 0 <= i < |Segments(path)| ==> Segments(path)[i] != "" && '/' !in Segments(path)[i]
    ensures forall p :: p in Split(path) && p != "" ==> p in Segments(path)
  {
    NonEmptyKeeps(Split(path));
    SplitPiecesHaveNoSlash(path);
  }

  /** The segments of `x/y` are those of `x` followed by those of `y`; so a
      leading, trailing or doubled separator changes nothing. */
  lemma SegmentsAtSlash(x: string, y: string)
    ensures Segments(x + "/" + y) == Segments(x) + Segments(y)
  {
    SplitAtSlash(x, y);
    NonEmptyConcat(Split(x), Split(y));
  }

  /** A separator-free, non-empty name is a single segment. */
  lemma SegmentsOfName(w: string)
    requires w != [] && '/' !in w
    ensures Segments(w) == [w]
  {
    SplitWithoutSlash(w);
    assert [w][1..] == [];
    assert NonEmpty([w]) == [w] + NonEmpty([]);
  }

  /** The empty path and "/" have no segments. */
  lemma SegmentsOfRoot()
    ensures Segments("") == []
    ensures Segments("/") == []
  {
    SegmentsAtSlash("", "");
    assert "" + "/" + "" == "/";
  }

  predicate IsDigit(c: char) {
    '0' <= c <= '9'
  }

  /** The number a string of decimal digits denotes. */
  function DigitsValue(s: string): nat
    requires forall i :: 0 <= i < |s| ==> IsDigit(s[i])
  {
    if s == [] then 0
    else
      assert IsDigit(s[|s| - 1]);
      DigitsValue(s[..|s| - 1]) * 10 + (s[|s| - 1] as int - '0' as int)
  }

  /** The array index a property name denotes: a canonical decimal numeral
      (no sign, no leading zero except "0" itself). */
  function ParseIndex(seg: string): Option<nat> {
    if seg != [] && (forall i :: 0 <= i < |seg| ==> IsDigit(seg[i])) && (seg[0] != '0' || |seg| == 1)
    then Some(DigitsValue(seg))
    else None
  }

  /** The canonical decimal numeral of an index. */
  function IndexString(n: nat): string {
    if n < 10 then [('0' as int + n) as char]
    else IndexString(n / 10) + [('0' as int + n % 10) as char]
  }

  lemma {:induction false} IndexStringDigits(n: nat)
    ensures |IndexString(n)| >= 1
    ensures forall i :: 0 <= i < |IndexString(n)| ==> IsDigit(IndexString(n)[i])
    ensures IndexString(n)[0] == '0' <==> n == 0
    ensures DigitsValue(IndexString(n)) == n
  {
    if n >= 10 {
      IndexStringDigits(n / 10);
      var s := IndexString(n);
      assert s[..|s| - 1] == IndexString(n / 10);
    }
  }

  /** Parsing the numeral of an index gives the index back. */
  lemma IndexRoundTrip(n: nat)
    ensures ParseIndex(IndexString(n)) == Some(n)
  {
    IndexStringDigits(n);
  }

  /** `value[seg]` on an array or non-null object. Objects yield their own
      member or `undefined`; arrays yield the element at a canonical index,
      their length for "length", and `undefined` otherwise. */
  function Member(v: Json, seg: string): Json
    requires v.IsContainer()
  {
    match v
    case Obj(fields) => if seg in fields then fields[seg] else Undefined
    case Arr(items) =>
      if seg == "length" then Num(|items| as real)
      else match ParseIndex(seg)
        case Some(i) => if i < |items| then items[i] else Undefined
        case None => Undefined
  }

  /** The element at index `i` of an array is reached by the numeral of `i`. */
  lemma ArrayElement(items: seq<Json>, i: nat)
    requires i < |items|
    ensures Member(Arr(items), IndexString(i)) == items[i]
  {
    IndexRoundTrip(i);
    IndexStringDigits(i);
    assert IsDigit(IndexString(i)[0]);
    assert IndexString(i) != "length";
  }

  /** The value the walk reaches: stepping into containers only, and
      `undefined` as soon as a segment meets anything else. */
  function Lookup(v: Json, segs: seq<string>): Json
    decreases |segs|
  {
    if segs == [] then v
    else if v.IsContainer() then Lookup(Member(v, segs[0]), segs[1..])
    else Undefined
  }

  /** Walking from a value that is not a container reaches `undefined` as soon
      as there is a segment left. */
  lemma {:induction false} LookupFromLeaf(v: Json, segs: seq<string>)
    requires !v.IsContainer()
    ensures Lookup(v, segs) == if segs == [] then v else Undefined
  {
  }

  /** Walking a concatenation is walking the first part, then the second. */
  lemma {:induction false} LookupConcat(v: Json, s1: seq<string>, s2: seq<string>)
    ensures Lookup(v, s1 + s2) == Lookup(Lookup(v, s1), s2)
    decreases |s1|
  {
    if s1 == [] {
      assert s1 + s2 == s2;
    } else if v.IsContainer() {
      assert (s1 + s2)[1..] == s1[1..] + s2;
      LookupConcat(Member(v, s1[0]), s1[1..], s2);
    } else {
      LookupFromLeaf(Undefined, s2);
    }
  }

  /** Resolving `x/y` is resolving `y` from the value `x` resolves to. */
  lemma ResolveAtSlash(v: Json, x: string, y: string)
    ensures Lookup(v, Segments(x + "/" + y)) == Lookup(Lookup(v, Segments(x)), Segments(y))
  {
    SegmentsAtSlash(x, y);
    LookupConcat(v, Segments(x), Segments(y));
  }

  /** A path through a missing intermediate member resolves to `undefined`:
      "/a/b/c" against `{ a: {} }`. */
  lemma MissingIntermediate()
    ensures Lookup(Obj(map["a" := Obj(map[])]), Segments("/a/b/c")) == Undefined
  {
    assert "/a/b/c" == "" + "/" + ("a" + "/" + ("b" + "/" + "c"));
    SegmentsAtSlash("", "a" + "/" + ("b" + "/" + "c"));
    SegmentsAtSlash("a", "b" + "/" + "c");
    SegmentsAtSlash("b", "c");
    SegmentsOfRoot();
    SegmentsOfName("a");
    SegmentsOfName("b");
    SegmentsOfName("c");
    assert Segments("/a/b/c") == ["a", "b", "c"];
  }

  /** The walk of the provider's `validate`: starts at the snapshot root,
      indexes into containers, and stops with `undefined` at the first value
      it cannot index into. */
  method ResolvePath(state: Json, path: string) returns (value: Json)
    ensures value == Lookup(state, Segments(path))
  {
    var segments := Segments(path);
    value := state;
    var i := 0;
    while i < |segments|
      invariant 0 <= i <= |segments|
      invariant Lookup(value, segments[i..]) == Lookup(state, segments)
    {
      if value.IsContainer() {
        assert segments[i..][1..] == segments[i + 1..];
        value := Member(value, segments[i]);
      } else {
        value := Undefined;
        break;
      }
      i := i + 1;
    }
  }
}
