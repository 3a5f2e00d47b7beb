/** Python's ordering of strings (lexicographic by code point, a proper prefix
    first) and the `sorted(column.unique())` idiom the dashboard uses to build its
    selector choices and its group keys. */
module Order {

  /** Python's `a < b` on strings. */
  predicate Less(a: string, b: string)
    decreases |a|
  {
    if a == [] then b != []
    else if b == [] then false
    else if a[0] != b[0] then a[0] < b[0]
    else Less(a[1..], b[1..])
  }

  lemma {:induction false} LessIrreflexive(a: string)
    ensures !Less(a, a)
    decreases |a|
  {
    if a != [] {
      LessIrreflexive(a[1..]);
    }
  }

  lemma {:induction false} LessTransitive(a: string, b: string, c: string)
    requires Less(a, b) && Less(b, c)
    ensures Less(a, c)
    decreases |a|
  {
    if a != [] && a[0] == b[0] && b[0] == c[0] {
      LessTransitive(a[1..], b[1..], c[1..]);
    }
  }

  lemma {:induction false} LessAsymmetric(a: string, b: string)
    ensures Less(a, b) ==> !Less(b, a)
    decreases |a|
  {
    if a != [] && b != [] && a[0] == b[0] {
      LessAsymmetric(a[1..], b[1..]);
    }
  }

  /** Any two different strings are ordered one way or the other. */
  lemma {:induction false} LessTotal(a: string, b: string)
    requires a != b
    ensures Less(a, b) || Less(b, a)
    decreases |a|
  {
    if a != [] && b != [] && a[0] == b[0] {
      assert a == [a[0]] + a[1..] && b == [b[0]] + b[1..];
      LessTotal(a[1..], b[1..]);
    }
  }

  predicate StrictlySorted(s: seq<string>) {
    forall i, j :: 0 <= i < j < |s| ==> Less(s[i], s[j])
  }

  /** No value occurs twice. */
  predicate Distinct<T(==)>(s: seq<T>) {
    forall i, j :: 0 <= i < j < |s| ==> s[i] != s[j]
  }

  lemma SortedDistinct(s: seq<string>)
    requires StrictlySorted(s)
    ensures Distinct(s)
  {
    forall i, j | 0 <= i < j < |s| ensures s[i] != s[j] {
      LessIrreflexive(s[i]);
    }
  }

  /** The set of values of a sequence (`set(xs)` in Python). */
  function Elems<T(==)>(xs: seq<T>): set<T> {
    set x | x in xs
  }

  /** A duplicate-free sequence has as many elements as its set. */
  lemma {:induction false} DistinctCard<T>(s: seq<T>)
    requires Distinct(s)
    ensures |Elems(s)| == |s|
  {
    if s != [] {
      DistinctCard(s[1..]);
      assert Elems(s) == Elems(s[1..]) + {s[0]};
      assert s[0] !in Elems(s[1..]);
    }
  }

  /** A sequence has at least as many elements as its set. */
  lemma {:induction false} ElemsCardBound<T>(s: seq<T>)
    ensures |Elems(s)| <= |s|
  {
    if s != [] {
      ElemsCardBound(s[1..]);
      assert Elems(s) == Elems(s[1..]) + {s[0]};
    }
  }

  /** Inserts `x` at its place in a strictly sorted sequence, unless present. */
  function Insert(x: string, s: seq<string>): (r: seq<string>)
    requires StrictlySorted(s)
    ensures StrictlySorted(r)
    ensures forall y :: y in r <==> y == x || y in s
    decreases |s|
  {
    if s == [] then [x]
    else if x == s[0] then s
    else if Less(x, s[0]) then
      assert forall j :: 0 < j < |s| ==> Less(x, s[j]) by {
        forall j | 0 < j < |s| ensures Less(x, s[j]) { LessTransitive(x, s[0], s[j]); }
      }
      [x] + s
    else
      LessTotal(x, s[0]);
      var rest := Insert(x, s[1..]);
      assert forall y :: y in rest ==> Less(s[0], y);
      [s[0]] + rest
  }

  /** `sorted(xs.unique())`: the distinct values of `xs` in increasing order. */
  function SortedUnique(xs: seq<string>): (r: seq<string>)
    ensures StrictlySorted(r) && Distinct(r)
    ensures forall y :: y in r <==> y in xs
    ensures |r| == |Elems(xs)|
  {
    var r := if xs == [] then [] else Insert(xs[0], SortedUnique(xs[1..]));
    SortedDistinct(r);
    DistinctCard(r);
    assert Elems(r) == Elems(xs);
    r
  }
}
