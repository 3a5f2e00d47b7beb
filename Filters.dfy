/** The sidebar filter of the dashboard: a region selector and a district
    selector, each with a sentinel choice that means "no restriction", and the
    working subset `filtered_df` that every chart and indicator reads. */
module Filters {
  import opened Text
  import opened Order
  import opened Facilities
  import opened Tables

  const AllRegions: string := "Toutes les régions"
  const AllDistricts: string := "Tous les districts"

  /** The condition the two selectors put on a row. */
  predicate Matches(x: Facility, region: string, district: string) {
    (region == AllRegions || x.region == region)
    && (district == AllDistricts || x.district == district)
  }

  /** The region choices: the sentinel, then every region of the data set once,
      in increasing order. */
  function RegionOptions(df: seq<Facility>): (opts: seq<string>)
    ensures |opts| >= 1 && opts[0] == AllRegions
    ensures StrictlySorted(opts[1..]) && Distinct(opts[1..])
    ensures forall v :: v in opts[1..] <==> exists r :: r in df && r.region == v
  {
    ValuesMembership(df, RegionCol);
    var opts := [AllRegions] + SortedUnique(Values(df, RegionCol));
    assert opts[1..] == SortedUnique(Values(df, RegionCol));
    opts
  }

  /** The rows left after the region selector. */
  function RegionStep(df: seq<Facility>, region: string): seq<Facility> {
    if region == AllRegions then df else Select(df, RegionCol, region)
  }

  /** The district choices: the sentinel, then every district of the rows left
      by the region selector once, in increasing order. */
  function DistrictOptions(df: seq<Facility>, region: string): (opts: seq<string>)
    ensures |opts| >= 1 && opts[0] == AllDistricts
    ensures StrictlySorted(opts[1..]) && Distinct(opts[1..])
    ensures forall v :: v in opts[1..] <==>
      exists r :: r in df && (region == AllRegions || r.region == region) && r.district == v
  {
    var base := RegionStep(df, region);
    SelectMembership(df, RegionCol, region);
    ValuesMembership(base, DistrictCol);
    var opts := [AllDistricts] + SortedUnique(Values(base, DistrictCol));
    assert opts[1..] == SortedUnique(Values(base, DistrictCol));
    opts
  }

  /** `filtered_df`: the region selector, then the district selector. The
      result keeps the order of `df`, and each row occurs in it exactly as often
      as in `df` when it matches both selectors and not at all otherwise. */
  function FilterView(df: seq<Facility>, region: string, district: string): (out: seq<Facility>)
    ensures IsSubsequence(out, df)
    ensures forall x :: multiset(out)[x] == if Matches(x, region, district) then multiset(df)[x] else 0
  {
    var byRegion := RegionStep(df, region);
    assert IsSubsequence(byRegion, df) by {
      if region == AllRegions { SubsequenceReflexive(df); } else { SelectSpec(df, RegionCol, region); }
    }
    SelectSpec(df, RegionCol, region);
    if district != AllDistricts then
      var out := Select(byRegion, DistrictCol, district);
      SelectSpec(byRegion, DistrictCol, district);
      SubsequenceTransitive(out, byRegion, df);
      out
    else
      byRegion
  }

  /** Filter soundness and completeness, row by row. */
  lemma FilterMembership(df: seq<Facility>, region: string, district: string)
    ensures forall x :: x in FilterView(df, region, district) <==> x in df && Matches(x, region, district)
  {
    var out := FilterView(df, region, district);
    forall x ensures x in out <==> x in df && Matches(x, region, district) {
      assert x in out <==> multiset(out)[x] > 0;
      assert x in df <==> multiset(df)[x] > 0;
    }
  }

  /** With both sentinels selected the working subset is the whole data set. */
  lemma FilterAllIsIdentity(df: seq<Facility>)
    ensures FilterView(df, AllRegions, AllDistricts) == df
  {
  }

  /** A selection no row matches gives the empty subset. */
  lemma FilterNoMatchIsEmpty(df: seq<Facility>, region: string, district: string)
    requires forall x :: x in df ==> !Matches(x, region, district)
    ensures FilterView(df, region, district) == []
  {
    var out := FilterView(df, region, district);
    forall x ensures multiset(out)[x] == 0 {
      assert x in df ==> !Matches(x, region, district);
      assert x !in df ==> multiset(df)[x] == 0;
    }
    assert multiset(out) == multiset{};
    assert |out| == |multiset(out)|;
  }

  /** Every real district choice selects at least one row. */
  lemma DistrictOptionSelectsRows(df: seq<Facility>, region: string, d: string)
    requires d in DistrictOptions(df, region)[1..]
    ensures FilterView(df, region, d) != []
  {
    var x :| x in df && (region == AllRegions || x.region == region) && x.district == d;
    assert Matches(x, region, d);
    FilterMembership(df, region, d);
  }

  /** No normalised region name can be taken for the region sentinel. */
  lemma SentinelIsNotARegion(s: string)
    ensures Normalize(s) != AllRegions
  {
    NoLowerIsNotSentinel(Normalize(s));
  }

  /** The sentinel holds lower-case letters, so no string without any is it. */
  lemma NoLowerIsNotSentinel(u: string)
    requires NoAsciiLower(u)
    ensures u != AllRegions
  {
    assert AllRegions[1] == 'o';
    if |u| > 1 {
      assert u[1] != 'o';
    }
  }

  /** Every region the sidebar offers selects at least one row. */
  lemma RegionOptionSelectsRows(df: seq<Facility>, v: string)
    requires v in RegionOptions(df)[1..]
    ensures FilterView(df, v, AllDistricts) != []
  {
    var x :| x in df && x.region == v;
    assert Matches(x, v, AllDistricts);
    FilterMembership(df, v, AllDistricts);
  }
}
