/** The DataFrame operations the dashboard's core is built from, restated over a
    sequence of facility rows: reading a column, the boolean-mask selection
    `df[df[col] == v]`, summing a numeric column (missing values skipped, as
    pandas' `sum` does) and the fact that a group-by partitions the rows. */
module Tables {
  import opened Facilities
  import opened Order

  /** The text columns the dashboard selects and groups on. */
  datatype Column = RegionCol | DistrictCol | TypeCol | StatusCol

  function Field(r: Facility, c: Column): string {
    match c
    case RegionCol => r.region
    case DistrictCol => r.district
    case TypeCol => TypeLabel(r.ftype)
    case StatusCol => StatusLabel(r.status)
  }

  /** `df[col]` as a sequence of values, row by row. */
  function Values(rows: seq<Facility>, c: Column): (vs: seq<string>)
    ensures |vs| == |rows|
  {
    seq(|rows|, i requires 0 <= i < |rows| => Field(rows[i], c))
  }

  lemma ValuesMembership(rows: seq<Facility>, c: Column)
    ensures forall v :: v in Values(rows, c) <==> exists r :: r in rows && Field(r, c) == v
  {
    var vs := Values(rows, c);
    forall v | v in vs ensures exists r :: r in rows && Field(r, c) == v {
      var i :| 0 <= i < |vs| && vs[i] == v;
      assert rows[i] in rows;
    }
    forall r | r in rows ensures Field(r, c) in vs {
      var i :| 0 <= i < |rows| && rows[i] == r;
      assert vs[i] == Field(r, c);
    }
  }

  /** `len(col.unique())`: the number of distinct values of a column. */
  function UniqueCount(rows: seq<Facility>, c: Column): nat {
    |Elems(Values(rows, c))|
  }

  /** A set of rows has as many distinct values in a column as rows at most, and
      at least one when it is not empty. */
  lemma UniqueCountBounds(rows: seq<Facility>, c: Column)
    ensures UniqueCount(rows, c) <= |rows|
    ensures UniqueCount(rows, c) == 0 <==> rows == []
  {
    var vs := Values(rows, c);
    ElemsCardBound(vs);
    if rows != [] {
      assert vs[0] in Elems(vs);
    }
  }

  // ---------------------------------------------------------------- order

  /** `a` is obtained from `b` by deleting rows, keeping the order of the rest. */
  predicate IsSubsequence(a: seq<Facility>, b: seq<Facility>)
    decreases |b|
  {
    if a == [] then true
    else if b == [] then false
    else (a[0] == b[0] && IsSubsequence(a[1..], b[1..])) || IsSubsequence(a, b[1..])
  }

  lemma {:induction false} SubsequenceReflexive(a: seq<Facility>)
    ensures IsSubsequence(a, a)
  {
    if a != [] {
      SubsequenceReflexive(a[1..]);
    }
  }

  lemma {:induction false} SubsequenceTransitive(a: seq<Facility>, b: seq<Facility>, c: seq<Facility>)
    requires IsSubsequence(a, b) && IsSubsequence(b, c)
    ensures IsSubsequence(a, c)
    decreases |c|
  {
    if a != [] {
      assert b != [] && c != [];
      if b[0] == c[0] && IsSubsequence(b[1..], c[1..]) {
        if a[0] == b[0] && IsSubsequence(a[1..], b[1..]) {
          SubsequenceTransitive(a[1..], b[1..], c[1..]);
        } else {
          SubsequenceTransitive(a, b[1..], c[1..]);
        }
      } else {
        SubsequenceTransitive(a, b, c[1..]);
      }
    }
  }

  // ---------------------------------------------------------------- selection

  /** `rows[rows[c] == v]`: the rows whose column `c` equals `v`. */
  function Select(rows: seq<Facility>, c: Column, v: string): (out: seq<Facility>)
    ensures |out| <= |rows|
  {
    if rows == [] then []
    else if Field(rows[0], c) == v then [rows[0]] + Select(rows[1..], c, v)
    else Select(rows[1..], c, v)
  }

  /** The selection keeps the input order, and each row occurs in it exactly as
      often as in the input when it matches and not at all otherwise. */
  lemma {:induction false} SelectSpec(rows: seq<Facility>, c: Column, v: string)
    ensures IsSubsequence(Select(rows, c, v), rows)
    ensures forall x :: multiset(Select(rows, c, v))[x] == if Field(x, c) == v then multiset(rows)[x] else 0
  {
    if rows != [] {
      SelectSpec(rows[1..], c, v);
      var rest := Select(rows[1..], c, v);
      assert rows == [rows[0]] + rows[1..];
      if Field(rows[0], c) == v {
        assert ([rows[0]] + rest)[1..] == rest;
      }
    }
  }

  /** A row is selected exactly when it is an input row that matches. */
  lemma SelectMembership(rows: seq<Facility>, c: Column, v: string)
    ensures forall x :: x in Select(rows, c, v) <==> x in rows && Field(x, c) == v
  {
    var out := Select(rows, c, v);
    SelectSpec(rows, c, v);
    forall x ensures x in out <==> x in rows && Field(x, c) == v {
      assert x in out <==> multiset(out)[x] > 0;
      assert x in rows <==> multiset(rows)[x] > 0;
    }
  }

  /** Selecting from rows with one more row at the end selects that row last
      when it matches. */
  lemma {:induction false} SelectAppend(a: seq<Facility>, x: Facility, c: Column, v: string)
    ensures Select(a + [x], c, v) == Select(a, c, v) + (if Field(x, c) == v then [x] else [])
  {
    if a == [] {
      assert [x][1..] == [];
    } else {
      assert (a + [x])[0] == a[0] && (a + [x])[1..] == a[1..] + [x];
      SelectAppend(a[1..], x, c, v);
    }
  }

  /** The positions of the rows whose column `c` equals `v`. */
  function MatchIndices(rows: seq<Facility>, c: Column, v: string): set<int> {
    set i | 0 <= i < |rows| && Field(rows[i], c) == v
  }

  /** A selection holds one row per matching position of its input. */
  lemma {:induction false} SelectCountsMatches(rows: seq<Facility>, c: Column, v: string)
    ensures |Select(rows, c, v)| == |MatchIndices(rows, c, v)|
    decreases |rows|
  {
    if rows != [] {
      var n := |rows| - 1;
      var a := rows[..n];
      assert rows == a + [rows[n]];
      SelectAppend(a, rows[n], c, v);
      SelectCountsMatches(a, c, v);
      MatchIndicesLast(rows, c, v);
    }
  }

  /** The matching positions of `rows` are those of all rows but the last, plus
      the last position when its row matches. */
  lemma MatchIndicesLast(rows: seq<Facility>, c: Column, v: string)
    requires rows != []
    ensures |MatchIndices(rows, c, v)|
         == |MatchIndices(rows[..|rows| - 1], c, v)| + (if Field(rows[|rows| - 1], c) == v then 1 else 0)
  {
    var n := |rows| - 1;
    var before := MatchIndices(rows[..n], c, v);
    MatchIndicesSplit(rows, c, v);
    if Field(rows[n], c) == v {
      assert n !in before;
      assert |before + {n}| == |before| + 1;
    }
  }

  /** The matching indices of `rows` are those of all but its last row, plus
      the last index when the last row matches. */
  lemma MatchIndicesSplit(rows: seq<Facility>, c: Column, v: string)
    requires rows != []
    ensures MatchIndices(rows, c, v)
         == MatchIndices(rows[..|rows| - 1], c, v) + (if Field(rows[|rows| - 1], c) == v then {|rows| - 1} else {})
  {
    var n := |rows| - 1;
    var a := rows[..n];
    forall i | 0 <= i < n ensures rows[i] == a[i] {
    }
  }

  // ---------------------------------------------------------------- sums

  /** The sum of a numeric field over a sequence of records. */
  function ColumnSum<T>(xs: seq<T>, f: T -> nat): nat {
    if xs == [] then 0 else f(xs[0]) + ColumnSum(xs[1..], f)
  }

  /** The per-row quantities the group-bys add up: one per row (`count` of the
      always-present facility name), and the two convention counts. */
  datatype Measure = Structures | SignedConventions | NotSignedConventions

  /** A missing count adds nothing (pandas' `sum` skips NaN). */
  function CountOrZero(n: Option<nat>): nat {
    match n
    case Some(k) => k
    case None => 0
  }

  function Weight(r: Facility, m: Measure): nat {
    match m
    case Structures => 1
    case SignedConventions => CountOrZero(r.signed)
    case NotSignedConventions => CountOrZero(r.notSigned)
  }

  /** `rows[col].sum()` for the column behind `m`. */
  function Total(rows: seq<Facility>, m: Measure): nat {
    if rows == [] then 0 else Weight(rows[0], m) + Total(rows[1..], m)
  }

  /** Counting the facility name counts every row. */
  lemma {:induction false} TotalStructures(rows: seq<Facility>)
    ensures Total(rows, Structures) == |rows|
  {
    if rows != [] {
      TotalStructures(rows[1..]);
    }
  }

  /** The totals of the groups keyed by `ks`, added up. */
  function GroupTotals(ks: seq<string>, rows: seq<Facility>, c: Column, m: Measure): nat {
    if ks == [] then 0 else Total(Select(rows, c, ks[0]), m) + GroupTotals(ks[1..], rows, c, m)
  }

  lemma {:induction false} GroupTotalsCons(ks: seq<string>, r: Facility, rest: seq<Facility>, c: Column, m: Measure)
    requires Distinct(ks)
    ensures GroupTotals(ks, [r] + rest, c, m)
         == GroupTotals(ks, rest, c, m) + (if Field(r, c) in ks then Weight(r, m) else 0)
  {
    if ks != [] {
      var rows := [r] + rest;
      assert rows[0] == r && rows[1..] == rest;
      var g := Select(rows, c, ks[0]);
      if Field(r, c) == ks[0] {
        assert g == [r] + Select(rest, c, ks[0]);
        assert g[0] == r && g[1..] == Select(rest, c, ks[0]);
        assert Field(r, c) !in ks[1..];
      } else {
        assert g == Select(rest, c, ks[0]);
        assert Field(r, c) in ks <==> Field(r, c) in ks[1..];
      }
      GroupTotalsCons(ks[1..], r, rest, c, m);
    }
  }

  /** Grouping by column `c` over distinct keys that cover every row loses and
      duplicates nothing: the group totals add up to the overall total. */
  lemma {:induction false} PartitionSum(ks: seq<string>, rows: seq<Facility>, c: Column, m: Measure)
    requires Distinct(ks)
    requires forall r :: r in rows ==> Field(r, c) in ks
    ensures GroupTotals(ks, rows, c, m) == Total(rows, m)
  {
    if rows == [] {
      EmptyGroupTotals(ks, c, m);
    } else {
      assert rows == [rows[0]] + rows[1..];
      GroupTotalsCons(ks, rows[0], rows[1..], c, m);
      PartitionSum(ks, rows[1..], c, m);
    }
  }

  lemma {:induction false} EmptyGroupTotals(ks: seq<string>, c: Column, m: Measure)
    ensures GroupTotals(ks, [], c, m) == 0
  {
    if ks != [] {
      EmptyGroupTotals(ks[1..], c, m);
    }
  }
}
