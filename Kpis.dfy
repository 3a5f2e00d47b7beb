/** The headline indicators of the dashboard, computed over the working subset:
    the number of structures, regions and districts, the per-region averages,
    the dominant facility type and its share, the region with the most
    structures and the coverage of the country's regions. */
module Kpis {
  import opened Order
  import opened Facilities
  import opened Tables
  import opened Aggregates

  /** The number of administrative regions of Senegal, the denominator of the
      coverage rate. */
  const SenegalRegions: nat := 14

  /** `regions_couvertes`: the number of regions the subset touches. */
  function RegionsCovered(rows: seq<Facility>): (n: nat)
    ensures n <= |rows|
    ensures n == 0 <==> rows == []
  {
    UniqueCountBounds(rows, RegionCol);
    UniqueCount(rows, RegionCol)
  }

  /** `districts_sanitaires`: the number of districts the subset touches. */
  function DistrictsCovered(rows: seq<Facility>): (n: nat)
    ensures n <= |rows|
    ensures n == 0 <==> rows == []
  {
    UniqueCountBounds(rows, DistrictCol);
    UniqueCount(rows, DistrictCol)
  }

  /** A ratio with the dashboard's guard: 0 when there is no region. */
  function PerRegion(x: nat, regions: nat): real {
    if regions > 0 then (x as real) / (regions as real) else 0.0
  }

  /** `moy_structures_region`: 0 for an empty subset, otherwise at least one
      structure per region (every region counted has a row). */
  function AvgStructuresPerRegion(rows: seq<Facility>): (r: real)
    ensures r == 0.0 <==> rows == []
    ensures rows != [] ==> r >= 1.0
  {
    var n := RegionsCovered(rows);
    assert n > 0 ==> PerRegion(|rows|, n) >= 1.0 by {
      if n > 0 { QuotientAtLeastOne(|rows|, n); }
    }
    PerRegion(|rows|, n)
  }

  /** `moy_districts_region`: 0 for an empty subset, otherwise positive and at
      most the number of structures. */
  function AvgDistrictsPerRegion(rows: seq<Facility>): (r: real)
    ensures r == 0.0 <==> rows == []
    ensures rows != [] ==> 0.0 < r <= |rows| as real
  {
    var n := RegionsCovered(rows);
    var d := DistrictsCovered(rows);
    assert n > 0 ==> 0.0 < PerRegion(d, n) <= d as real by {
      if n > 0 { QuotientAtMost(d, n); }
    }
    PerRegion(d, n)
  }

  lemma QuotientAtMost(a: nat, b: nat)
    requires 0 < a && 0 < b
    ensures 0.0 < (a as real) / (b as real) <= a as real
  {
  }

  // ---------------------------------------------------------------- dominant type

  /** `type_counts.index[0]`: no type for an empty subset, otherwise a type of
      largest count that occurs in the subset. */
  function DominantType(rows: seq<Facility>): (t: Option<FacilityType>)
    ensures t.None? <==> rows == []
    ensures t.Some? ==> TypeCount(rows, t.value) >= 1
    ensures t.Some? ==> forall u :: TypeCount(rows, u) <= TypeCount(rows, t.value)
  {
    if rows == [] then None else Some(ModeType(rows))
  }

  /** `pourcentage_dominant`: the dominant type's share of the subset, in
      percent; 0 for an empty subset. */
  function DominantShare(rows: seq<Facility>): (r: real)
    ensures rows == [] ==> r == 0.0
    ensures rows != [] ==> 20.0 <= r <= 100.0
  {
    match DominantType(rows)
    case None => 0.0
    case Some(t) =>
      DominantCountBounds(rows, t);
      ShareBounds(TypeCount(rows, t), |rows|);
      (TypeCount(rows, t) as real) / (|rows| as real) * 100.0
  }

  /** The labels of the five types, in label order. */
  function TypeLabels(): (ls: seq<string>)
    ensures |ls| == |TypeOrder|
    ensures forall i :: 0 <= i < |ls| ==> ls[i] == TypeLabel(TypeOrder[i])
  {
    seq(|TypeOrder|, i requires 0 <= i < |TypeOrder| => TypeLabel(TypeOrder[i]))
  }

  /** Every row is counted under one of the five type labels, so a type of
      largest count holds at least a fifth of the rows, and at most all of them. */
  lemma DominantCountBounds(rows: seq<Facility>, t: FacilityType)
    requires forall u :: TypeCount(rows, u) <= TypeCount(rows, t)
    ensures |rows| <= 5 * TypeCount(rows, t)
    ensures TypeCount(rows, t) <= |rows|
  {
    var ls := TypeLabels();
    TypeOrderIsLabelOrder();
    SortedDistinct(ls);
    forall r | r in rows ensures Field(r, TypeCol) in ls {
      assert ls[TypeIndex(r.ftype)] == TypeLabel(r.ftype);
    }
    PartitionSum(ls, rows, TypeCol, Structures);
    TotalStructures(rows);
    forall k | k in ls ensures Total(Select(rows, TypeCol, k), Structures) <= TypeCount(rows, t) {
      var i :| 0 <= i < |ls| && ls[i] == k;
      TotalStructures(Select(rows, TypeCol, k));
      assert TypeCount(rows, TypeOrder[i]) == |Select(rows, TypeCol, k)|;
    }
    GroupTotalsBound(ls, rows, TypeCol, Structures, TypeCount(rows, t));
  }

  /** Groups each holding at most `b` add up to at most `b` times their number. */
  lemma {:induction false} GroupTotalsBound(ks: seq<string>, rows: seq<Facility>, c: Column, m: Measure, b: nat)
    requires forall k :: k in ks ==> Total(Select(rows, c, k), m) <= b
    ensures GroupTotals(ks, rows, c, m) <= |ks| * b
  {
    if ks != [] {
      assert ks[0] in ks;
      GroupTotalsBound(ks[1..], rows, c, m, b);
      MulSucc(|ks[1..]|, b);
    }
  }

  lemma MulSucc(n: nat, b: nat)
    ensures (n + 1) * b == n * b + b
  {
  }

  /** A count holding at least a fifth of the rows and at most all of them is a
      share between 20 % and 100 %. */
  lemma ShareBounds(m: nat, n: nat)
    requires 0 < n <= 5 * m && m <= n
    ensures 20.0 <= (m as real) / (n as real) * 100.0 <= 100.0
  {
    var q := (m as real) / (n as real);
    assert q * (n as real) == m as real;
    assert (5.0 * q - 1.0) * (n as real) >= 0.0;
    SignOfProduct(5.0 * q - 1.0, n as real);
    assert (1.0 - q) * (n as real) >= 0.0;
    SignOfProduct(1.0 - q, n as real);
  }

  lemma SignOfProduct(a: real, b: real)
    requires b > 0.0 && a * b >= 0.0
    ensures a >= 0.0
  {
  }

  // ---------------------------------------------------------------- top region

  /** `region_max` and `structures_max`: "N/A" and 0 for an empty subset,
      otherwise a region of the subset with its number of structures, which no
      other region of the subset exceeds. */
  function TopRegion(rows: seq<Facility>): (top: (string, nat))
    ensures rows == [] ==> top == ("N/A", 0)
    ensures rows != [] ==> InRows(rows, top.0) && top.1 == |Group(rows, top.0)| >= 1
    ensures forall x :: x in rows ==> |Group(rows, x.region)| <= top.1
  {
    if rows == [] then ("N/A", 0)
    else
      var ks := RegionKeys(rows);
      assert rows[0].region in ks;
      var i := ArgMax(ks, (g: string) => |Group(rows, g)|);
      TopRegionFacts(rows, ks, i);
      (ks[i], |Group(rows, ks[i])|)
  }

  lemma TopRegionFacts(rows: seq<Facility>, ks: seq<string>, i: nat)
    requires ks == RegionKeys(rows) && i < |ks|
    requires forall j :: 0 <= j < |ks| ==> |Group(rows, ks[j])| <= |Group(rows, ks[i])|
    ensures InRows(rows, ks[i]) && |Group(rows, ks[i])| >= 1
    ensures forall x :: x in rows ==> |Group(rows, x.region)| <= |Group(rows, ks[i])|
  {
    assert ks[i] in ks;
    GroupMembership(rows, ks[i]);
    forall x | x in rows ensures |Group(rows, x.region)| <= |Group(rows, ks[i])| {
      var j := IndexOf(ks, x.region);
      assert ks[j] == x.region;
    }
  }

  // ---------------------------------------------------------------- coverage

  /** The coverage rate: the share of the country's regions the subset touches,
      in percent; 0 for an empty subset. */
  function CoverageRate(rows: seq<Facility>): (r: real)
    ensures r == 0.0 <==> rows == []
    ensures RegionsCovered(rows) <= SenegalRegions ==> r <= 100.0
    ensures r == 100.0 <==> RegionsCovered(rows) == SenegalRegions
  {
    var n := RegionsCovered(rows);
    if n > 0 then (n as real) / (SenegalRegions as real) * 100.0 else 0.0
  }
}
