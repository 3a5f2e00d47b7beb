/** The per-region group-bys of the dashboard, computed over the working subset:
    `region_agg` (structures, districts and their ratio), `region_analysis`
    (the same with the dominant facility type), `region_perf` (summed
    conventions and the signature rate), the global signature rate and the
    counts of signed and non-signed facilities. Groups come out in increasing
    region order, as `groupby` sorts its keys. */
module Aggregates {
  import opened Order
  import opened Facilities
  import opened Tables

  // ---------------------------------------------------------------- maxima

  /** The first position of a largest value of `f` over `ks`. */
  function ArgMax<K>(ks: seq<K>, f: K -> nat): (i: nat)
    requires |ks| > 0
    ensures i < |ks|
    ensures forall j :: 0 <= j < |ks| ==> f(ks[j]) <= f(ks[i])
    ensures forall j :: 0 <= j < i ==> f(ks[j]) < f(ks[i])
    decreases |ks|
  {
    if |ks| == 1 then 0
    else
      var n := |ks| - 1;
      var i := ArgMax(ks[..n], f);
      assert forall j :: 0 <= j < n ==> ks[..n][j] == ks[j];
      if f(ks[n]) > f(ks[i]) then n else i
  }

  /** The five types in the order of their labels, the order in which
      `Series.mode()` lists tied values. */
  const TypeOrder: seq<FacilityType> := [Autre, CentreDeSante, Eps, Hopital, PosteDeSante]

  lemma TypeOrderIsLabelOrder()
    ensures forall t :: t in TypeOrder
    ensures forall i, j :: 0 <= i < j < |TypeOrder| ==>
      Less(TypeLabel(TypeOrder[i]), TypeLabel(TypeOrder[j]))
  {
    forall t ensures t in TypeOrder {
      assert TypeOrder[TypeIndex(t)] == t;
    }
    var ls := seq(5, i requires 0 <= i < 5 => TypeLabel(TypeOrder[i]));
    assert Less(ls[0], ls[1]) && Less(ls[1], ls[2]) && Less(ls[2], ls[3]) && Less(ls[3], ls[4]);
    forall i, j | 0 <= i < j < 5 ensures Less(ls[i], ls[j]) {
      var k := i;
      while k + 1 < j
        invariant i <= k < j && Less(ls[i], ls[k + 1])
      {
        LessTransitive(ls[i], ls[k + 1], ls[k + 2]);
        k := k + 1;
      }
    }
  }

  lemma TypeLabelInjective(t: FacilityType, u: FacilityType)
    ensures TypeLabel(t) == TypeLabel(u) ==> t == u
  {
  }

  /** The position of `t` in `TypeOrder`. */
  function TypeIndex(t: FacilityType): (i: nat)
    ensures i < |TypeOrder| && TypeOrder[i] == t
  {
    match t
    case Autre => 0
    case CentreDeSante => 1
    case Eps => 2
    case Hopital => 3
    case PosteDeSante => 4
  }

  /** The number of rows of type `t`. */
  function TypeCount(rows: seq<Facility>, t: FacilityType): nat {
    |Select(rows, TypeCol, TypeLabel(t))|
  }

  lemma TypeIndexAt(i: nat)
    requires i < |TypeOrder|
    ensures TypeIndex(TypeOrder[i]) == i
  {
    if i == 0 {} else if i == 1 {} else if i == 2 {} else if i == 3 {} else {}
  }

  /** A type that does not come before `t` in `TypeOrder` has a label that is
      not smaller than the label of `t`. */
  lemma TypeIndexOrder(u: FacilityType, t: FacilityType)
    ensures TypeIndex(u) >= TypeIndex(t) ==> !Less(TypeLabel(u), TypeLabel(t))
  {
    if TypeIndex(u) == TypeIndex(t) {
      assert u == t;
      LessIrreflexive(TypeLabel(t));
    } else if TypeIndex(u) > TypeIndex(t) {
      TypeOrderIsLabelOrder();
      assert Less(TypeLabel(TypeOrder[TypeIndex(t)]), TypeLabel(TypeOrder[TypeIndex(u)]));
      LessAsymmetric(TypeLabel(t), TypeLabel(u));
    }
  }

  /** `rows['Type'].mode()[0]` on a non-empty set of rows: a type of largest
      count that occurs in the rows, and among the tied ones the first label. */
  function ModeType(rows: seq<Facility>): (t: FacilityType)
    requires rows != []
    ensures TypeCount(rows, t) >= 1
    ensures forall u :: TypeCount(rows, u) <= TypeCount(rows, t)
    ensures forall u :: Less(TypeLabel(u), TypeLabel(t)) ==> TypeCount(rows, u) < TypeCount(rows, t)
  {
    var i := ArgMax(TypeOrder, (u: FacilityType) => TypeCount(rows, u));
    var t := TypeOrder[i];
    TypeIndexAt(i);
    ModeTypeFacts(rows, i);
    t
  }

  lemma ModeTypeFacts(rows: seq<Facility>, i: nat)
    requires rows != [] && i < |TypeOrder| && TypeIndex(TypeOrder[i]) == i
    requires forall j :: 0 <= j < |TypeOrder| ==> TypeCount(rows, TypeOrder[j]) <= TypeCount(rows, TypeOrder[i])
    requires forall j :: 0 <= j < i ==> TypeCount(rows, TypeOrder[j]) < TypeCount(rows, TypeOrder[i])
    ensures TypeCount(rows, TypeOrder[i]) >= 1
    ensures forall u :: TypeCount(rows, u) <= TypeCount(rows, TypeOrder[i])
    ensures forall u :: Less(TypeLabel(u), TypeLabel(TypeOrder[i])) ==> TypeCount(rows, u) < TypeCount(rows, TypeOrder[i])
  {
    var t := TypeOrder[i];
    var t0 := rows[0].ftype;
    SelectMembership(rows, TypeCol, TypeLabel(t0));
    assert rows[0] in Select(rows, TypeCol, TypeLabel(t0));
    assert TypeCount(rows, TypeOrder[TypeIndex(t0)]) >= 1;
    forall u ensures TypeCount(rows, u) <= TypeCount(rows, t) {
      assert TypeOrder[TypeIndex(u)] == u;
    }
    forall u | Less(TypeLabel(u), TypeLabel(t)) ensures TypeCount(rows, u) < TypeCount(rows, t) {
      TypeIndexOrder(u, t);
      assert TypeOrder[TypeIndex(u)] == u;
    }
  }

  // ---------------------------------------------------------------- region keys

  /** The group keys of `groupby('Région')`: the regions of the rows, each once,
      in increasing order. */
  function RegionKeys(rows: seq<Facility>): (ks: seq<string>)
    ensures StrictlySorted(ks) && Distinct(ks)
    ensures forall g :: g in ks <==> exists r :: r in rows && r.region == g
    ensures |ks| == |Elems(Values(rows, RegionCol))|
  {
    ValuesMembership(rows, RegionCol);
    SortedUnique(Values(rows, RegionCol))
  }

  /** The position of a key in a sequence of keys. */
  function IndexOf(ks: seq<string>, g: string): (i: nat)
    requires g in ks
    ensures i < |ks| && ks[i] == g
  {
    if ks[0] == g then 0 else 1 + IndexOf(ks[1..], g)
  }

  predicate InRows(rows: seq<Facility>, g: string) {
    exists r :: r in rows && r.region == g
  }

  /** The rows of region `g`. */
  function Group(rows: seq<Facility>, g: string): seq<Facility> {
    Select(rows, RegionCol, g)
  }

  /** The group of a region holds exactly the rows of that region, so the group
      of a region that occurs is not empty. */
  lemma GroupMembership(rows: seq<Facility>, g: string)
    ensures forall x :: x in Group(rows, g) <==> x in rows && x.region == g
    ensures InRows(rows, g) ==> Group(rows, g) != []
  {
    SelectMembership(rows, RegionCol, g);
  }

  // ---------------------------------------------------------------- region_agg

  /** One row of `region_agg`: 'Nb_Structures', 'Nb_Districts' and
      'Structures_par_District' for a region. */
  datatype DensityRow = DensityRow(region: string, structures: nat, districts: nat, perDistrict: real)

  /** The density figures of a region that occurs in the rows: it has at least
      one structure, between one district and as many districts as structures,
      and so at least one structure per district. */
  function Density(rows: seq<Facility>, g: string): (d: DensityRow)
    requires InRows(rows, g)
    ensures d.region == g
    ensures d.structures == |Group(rows, g)| >= 1
    ensures d.districts == UniqueCount(Group(rows, g), DistrictCol)
    ensures 1 <= d.districts <= d.structures
    ensures d.perDistrict == (d.structures as real) / (d.districts as real) >= 1.0
  {
    var grp := Group(rows, g);
    GroupMembership(rows, g);
    var n := UniqueCount(grp, DistrictCol);
    UniqueCountBounds(grp, DistrictCol);
    QuotientAtLeastOne(|grp|, n);
    DensityRow(g, |grp|, n, (|grp| as real) / (n as real))
  }

  lemma QuotientAtLeastOne(a: nat, b: nat)
    requires 0 < b <= a
    ensures (a as real) / (b as real) >= 1.0
  {
  }

  function DensityRows(ks: seq<string>, rows: seq<Facility>): (out: seq<DensityRow>)
    requires forall g :: g in ks ==> InRows(rows, g)
    ensures |out| == |ks|
    ensures forall i :: 0 <= i < |ks| ==> out[i] == Density(rows, ks[i]) && out[i].region == ks[i]
  {
    if ks == [] then [] else [Density(rows, ks[0])] + DensityRows(ks[1..], rows)
  }

  /** `region_agg`: one row per region of the subset, in increasing region
      order, each holding that region's density figures. */
  function RegionAgg(rows: seq<Facility>): (out: seq<DensityRow>)
    ensures |out| == |Elems(Values(rows, RegionCol))|
    ensures forall i, j :: 0 <= i < j < |out| ==> Less(out[i].region, out[j].region)
    ensures forall i :: 0 <= i < |out| ==> InRows(rows, out[i].region) && out[i] == Density(rows, out[i].region)
    ensures forall r :: r in rows ==> exists i :: 0 <= i < |out| && out[i].region == r.region
  {
    var ks := RegionKeys(rows);
    var out := DensityRows(ks, rows);
    assert forall r :: r in rows ==> exists i :: 0 <= i < |out| && out[i].region == r.region by {
      forall r | r in rows ensures exists i :: 0 <= i < |out| && out[i].region == r.region {
        var i := IndexOf(ks, r.region);
        assert out[i].region == r.region;
      }
    }
    out
  }

  /** The 'Nb_Structures' cell of a `region_agg` row. */
  function StructuresOf(d: DensityRow): nat {
    d.structures
  }

  lemma {:induction false} SumDensityRows(ks: seq<string>, rows: seq<Facility>)
    requires forall g :: g in ks ==> InRows(rows, g)
    ensures ColumnSum(DensityRows(ks, rows), StructuresOf) == GroupTotals(ks, rows, RegionCol, Structures)
  {
    if ks != [] {
      var out := DensityRows(ks, rows);
      assert out[1..] == DensityRows(ks[1..], rows);
      TotalStructures(Select(rows, RegionCol, ks[0]));
      SumDensityRows(ks[1..], rows);
    }
  }

  /** The 'Nb_Structures' column of `region_agg` adds up to the number of rows
      of the subset. */
  lemma RegionAggConservesRows(rows: seq<Facility>)
    ensures ColumnSum(RegionAgg(rows), StructuresOf) == |rows|
  {
    var ks := RegionKeys(rows);
    SumDensityRows(ks, rows);
    PartitionSum(ks, rows, RegionCol, Structures);
    TotalStructures(rows);
  }

  // ---------------------------------------------------------------- region_analysis

  /** One row of `region_analysis`: 'Nb_Districts', 'Type_Dominant',
      'Total_Structures' and 'Structures_par_District'. */
  datatype ProfileRow = ProfileRow(
    region: string, districts: nat, dominant: FacilityType, structures: nat, perDistrict: real)

  /** The profile of a region that occurs in the rows: its density figures and
      its most frequent type. */
  function Profile(rows: seq<Facility>, g: string): (p: ProfileRow)
    requires InRows(rows, g)
    ensures p.region == g
    ensures var d := Density(rows, g);
      p.districts == d.districts && p.structures == d.structures
      && p.perDistrict == d.perDistrict
  {
    var d := Density(rows, g);
    GroupMembership(rows, g);
    ProfileRow(g, d.districts, ModeType(Group(rows, g)), d.structures, d.perDistrict)
  }

  /** The dominant type of a profile is a type of largest count in the region,
      and the first label among the tied ones. */
  lemma ProfileDominant(rows: seq<Facility>, g: string)
    requires InRows(rows, g)
    ensures TypeCount(Group(rows, g), Profile(rows, g).dominant) >= 1
    ensures forall u :: TypeCount(Group(rows, g), u) <= TypeCount(Group(rows, g), Profile(rows, g).dominant)
    ensures forall u :: Less(TypeLabel(u), TypeLabel(Profile(rows, g).dominant)) ==>
      TypeCount(Group(rows, g), u) < TypeCount(Group(rows, g), Profile(rows, g).dominant)
  {
    GroupMembership(rows, g);
    assert Profile(rows, g).dominant == ModeType(Group(rows, g));
  }

  function ProfileRows(ks: seq<string>, rows: seq<Facility>): (out: seq<ProfileRow>)
    requires forall g :: g in ks ==> InRows(rows, g)
    ensures |out| == |ks|
    ensures forall i :: 0 <= i < |ks| ==> out[i] == Profile(rows, ks[i])
  {
    if ks == [] then [] else [Profile(rows, ks[0])] + ProfileRows(ks[1..], rows)
  }

  /** `region_analysis`: the profile of each group key, in key order. */
  function RegionAnalysis(rows: seq<Facility>): (out: seq<ProfileRow>)
    ensures |out| == |RegionKeys(rows)|
    ensures forall i :: 0 <= i < |out| ==> out[i].region == RegionKeys(rows)[i]
    ensures forall i :: 0 <= i < |out| ==>
      InRows(rows, RegionKeys(rows)[i]) && out[i] == Profile(rows, RegionKeys(rows)[i])
  {
    var ks := RegionKeys(rows);
    var out := ProfileRows(ks, rows);
    forall i | 0 <= i < |out| ensures InRows(rows, ks[i]) && out[i].region == ks[i] {
      assert ks[i] in ks;
      assert out[i] == Profile(rows, ks[i]);
    }
    out
  }

  /** `region_analysis` has one row per region of the subset, in increasing
      region order. */
  lemma RegionAnalysisRows(rows: seq<Facility>)
    ensures |RegionAnalysis(rows)| == |Elems(Values(rows, RegionCol))|
    ensures forall i, j :: 0 <= i < j < |RegionAnalysis(rows)| ==>
      Less(RegionAnalysis(rows)[i].region, RegionAnalysis(rows)[j].region)
    ensures forall r :: r in rows ==>
      exists i :: 0 <= i < |RegionAnalysis(rows)| && RegionAnalysis(rows)[i].region == r.region
  {
    var ks := RegionKeys(rows);
    var out := RegionAnalysis(rows);
    forall i, j | 0 <= i < j < |out| ensures Less(out[i].region, out[j].region) {
      assert out[i].region == ks[i] && out[j].region == ks[j];
    }
    forall r | r in rows ensures exists i :: 0 <= i < |out| && out[i].region == r.region {
      var i := IndexOf(ks, r.region);
      assert out[i].region == ks[i];
    }
  }

  /** The dominant type of row `i` of `region_analysis` is the type of a row of
      that region. */
  lemma RegionAnalysisDominant(rows: seq<Facility>, i: nat)
    requires i < |RegionAnalysis(rows)|
    ensures exists x :: x in rows && x.region == RegionAnalysis(rows)[i].region && x.ftype == RegionAnalysis(rows)[i].dominant
  {
    var g := RegionKeys(rows)[i];
    assert InRows(rows, g) && RegionAnalysis(rows)[i] == Profile(rows, g);
    DominantOccurs(rows, g);
  }

  /** The dominant type of a region is the type of one of its rows. */
  lemma DominantOccurs(rows: seq<Facility>, g: string)
    requires InRows(rows, g)
    ensures exists x :: x in rows && x.region == g && x.ftype == Profile(rows, g).dominant
  {
    var t := Profile(rows, g).dominant;
    ProfileDominant(rows, g);
    var grp := Group(rows, g);
    var sel := Select(grp, TypeCol, TypeLabel(t));
    assert |sel| >= 1;
    SelectMembership(grp, TypeCol, TypeLabel(t));
    GroupMembership(rows, g);
    assert sel[0] in sel;
    TypeLabelInjective(sel[0].ftype, t);
  }

  // ---------------------------------------------------------------- rates

  /** pandas' `signed / (signed + notSigned) * 100` on two sums of counts:
      `None` (NaN) when both are 0. */
  function RatioPercent(signed: nat, notSigned: nat): Option<real> {
    if signed + notSigned == 0 then None
    else Some((signed as real) / ((signed + notSigned) as real) * 100.0)
  }

  /** `fillna(v)`. */
  function FillNa(x: Option<real>, v: real): real {
    match x
    case Some(y) => y
    case None => v
  }

  /** The global signature rate with its explicit guard: signed over all
      conventions as a percentage, 0 when there are none. It lies in [0, 100],
      is 0 exactly when nothing is signed and 100 exactly when everything is. */
  function SignatureRate(signed: nat, notSigned: nat): (r: real)
    ensures 0.0 <= r <= 100.0
    ensures r == 0.0 <==> signed == 0
    ensures r == 100.0 <==> signed > 0 && notSigned == 0
  {
    var total := signed + notSigned;
    if total > 0 then
      RatioBounds(signed, notSigned);
      (signed as real) / (total as real) * 100.0
    else 0.0
  }

  /** The share of signed conventions among all of them lies in [0, 1], is 0
      exactly when nothing is signed and 1 exactly when everything is. */
  lemma RatioBounds(signed: nat, notSigned: nat)
    requires signed + notSigned > 0
    ensures var q := (signed as real) / ((signed + notSigned) as real);
      && 0.0 <= q <= 1.0
      && (q == 0.0 <==> signed == 0)
      && (q == 1.0 <==> notSigned == 0)
      && q * ((signed + notSigned) as real) == signed as real
  {
  }

  /** The per-region rate (`fillna(0)` after the division) and the guarded global
      rate are the same function of the two sums. */
  lemma FillNaMatchesGuard(signed: nat, notSigned: nat)
    ensures FillNa(RatioPercent(signed, notSigned), 0.0) == SignatureRate(signed, notSigned)
  {
  }

  // ---------------------------------------------------------------- region_perf

  /** One row of `region_perf`: the summed counts and 'Taux_Signature'. */
  datatype PerfRow = PerfRow(region: string, signed: nat, notSigned: nat, rate: real)

  function Perf(rows: seq<Facility>, g: string): (p: PerfRow)
    ensures p.region == g
    ensures p.signed == Total(Group(rows, g), SignedConventions)
    ensures p.notSigned == Total(Group(rows, g), NotSignedConventions)
    ensures 0.0 <= p.rate <= 100.0
    ensures p.rate == SignatureRate(p.signed, p.notSigned)
  {
    var grp := Group(rows, g);
    var s := Total(grp, SignedConventions);
    var n := Total(grp, NotSignedConventions);
    FillNaMatchesGuard(s, n);
    PerfRow(g, s, n, FillNa(RatioPercent(s, n), 0.0))
  }

  function PerfRows(ks: seq<string>, rows: seq<Facility>): (out: seq<PerfRow>)
    ensures |out| == |ks|
    ensures forall i :: 0 <= i < |ks| ==> out[i] == Perf(rows, ks[i]) && out[i].region == ks[i]
  {
    if ks == [] then [] else [Perf(rows, ks[0])] + PerfRows(ks[1..], rows)
  }

  /** `region_perf`: the figures of each group key, in key order. */
  function RegionPerf(rows: seq<Facility>): (out: seq<PerfRow>)
    ensures |out| == |RegionKeys(rows)|
    ensures forall i :: 0 <= i < |out| ==> out[i] == Perf(rows, RegionKeys(rows)[i])
  {
    PerfRows(RegionKeys(rows), rows)
  }

  /** `region_perf` has one row per region of the subset, in increasing region
      order, each with a rate in [0, 100]. */
  lemma RegionPerfRows(rows: seq<Facility>)
    ensures |RegionPerf(rows)| == |Elems(Values(rows, RegionCol))|
    ensures forall i, j :: 0 <= i < j < |RegionPerf(rows)| ==>
      Less(RegionPerf(rows)[i].region, RegionPerf(rows)[j].region)
    ensures forall i :: 0 <= i < |RegionPerf(rows)| ==>
      InRows(rows, RegionPerf(rows)[i].region) && 0.0 <= RegionPerf(rows)[i].rate <= 100.0
    ensures forall r :: r in rows ==> exists i :: 0 <= i < |RegionPerf(rows)| && RegionPerf(rows)[i].region == r.region
  {
    var ks := RegionKeys(rows);
    var out := RegionPerf(rows);
    forall i | 0 <= i < |out| ensures InRows(rows, out[i].region) && 0.0 <= out[i].rate <= 100.0 {
      var p := Perf(rows, ks[i]);
      assert out[i] == p && p.region == ks[i];
      assert ks[i] in ks;
    }
    forall r | r in rows ensures exists i :: 0 <= i < |out| && out[i].region == r.region {
      var i := IndexOf(ks, r.region);
      assert out[i].region == r.region;
    }
  }

  /** The signed and not-signed cells of a `region_perf` row. */
  function SignedOf(p: PerfRow): nat {
    p.signed
  }

  function NotSignedOf(p: PerfRow): nat {
    p.notSigned
  }

  lemma {:induction false} SumPerfRows(ks: seq<string>, rows: seq<Facility>)
    ensures ColumnSum(PerfRows(ks, rows), SignedOf) == GroupTotals(ks, rows, RegionCol, SignedConventions)
    ensures ColumnSum(PerfRows(ks, rows), NotSignedOf) == GroupTotals(ks, rows, RegionCol, NotSignedConventions)
  {
    if ks != [] {
      var out := PerfRows(ks, rows);
      assert out[1..] == PerfRows(ks[1..], rows);
      SumPerfRows(ks[1..], rows);
    }
  }

  /** The per-region sums of `region_perf` add up to the sums over the whole
      subset that the global rate uses. */
  lemma RegionPerfConservesTotals(rows: seq<Facility>)
    ensures ColumnSum(RegionPerf(rows), SignedOf) == Total(rows, SignedConventions)
    ensures ColumnSum(RegionPerf(rows), NotSignedOf) == Total(rows, NotSignedConventions)
  {
    var ks := RegionKeys(rows);
    SumPerfRows(ks, rows);
    PartitionSum(ks, rows, RegionCol, SignedConventions);
    PartitionSum(ks, rows, RegionCol, NotSignedConventions);
  }

  /** `taux_signature_global`: the guarded rate over the whole subset. */
  function GlobalSignatureRate(rows: seq<Facility>): (r: real)
    ensures 0.0 <= r <= 100.0
    ensures r == 0.0 <==> Total(rows, SignedConventions) == 0
    ensures Total(rows, SignedConventions) + Total(rows, NotSignedConventions) == 0 ==> r == 0.0
  {
    SignatureRate(Total(rows, SignedConventions), Total(rows, NotSignedConventions))
  }

  // ---------------------------------------------------------------- status counts

  /** `statut_counts.get('Signée', 0)` and `.get('Non Signée', 0)`: every row is
      counted under exactly one of the two statuses. */
  function StatusCounts(rows: seq<Facility>): (counts: (nat, nat))
    ensures counts.0 == |set i | 0 <= i < |rows| && rows[i].status == Signee|
    ensures counts.1 == |set i | 0 <= i < |rows| && rows[i].status == NonSignee|
    ensures counts.0 + counts.1 == |rows|
    ensures forall x :: x in rows && x.status == Signee ==> counts.0 >= 1
    ensures forall x :: x in rows && x.status == NonSignee ==> counts.1 >= 1
  {
    var signee := Select(rows, StatusCol, "Signée");
    var nonSignee := Select(rows, StatusCol, "Non Signée");
    var ks := ["Signée", "Non Signée"];
    assert Distinct(ks);
    PartitionSum(ks, rows, StatusCol, Structures);
    assert ks[0] == "Signée" && ks[1..] == ["Non Signée"] && ks[1..][1..] == [];
    assert GroupTotals(ks, rows, StatusCol, Structures)
        == Total(signee, Structures) + GroupTotals(ks[1..], rows, StatusCol, Structures);
    assert GroupTotals(ks[1..], rows, StatusCol, Structures)
        == Total(nonSignee, Structures) + GroupTotals([], rows, StatusCol, Structures);
    TotalStructures(signee);
    TotalStructures(nonSignee);
    TotalStructures(rows);
    SelectMembership(rows, StatusCol, "Signée");
    SelectMembership(rows, StatusCol, "Non Signée");
    StatusCountIs(rows, Signee);
    StatusCountIs(rows, NonSignee);
    (|signee|, |nonSignee|)
  }

  /** Selecting the rows labelled with a status keeps one row per position
      holding that status. */
  lemma StatusCountIs(rows: seq<Facility>, st: ConventionStatus)
    ensures |Select(rows, StatusCol, StatusLabel(st))| == |set i | 0 <= i < |rows| && rows[i].status == st|
  {
    SelectCountsMatches(rows, StatusCol, StatusLabel(st));
    forall i ensures i in MatchIndices(rows, StatusCol, StatusLabel(st)) <==> 0 <= i < |rows| && rows[i].status == st {
      if 0 <= i < |rows| {
        assert StatusLabel(rows[i].status) == StatusLabel(st) <==> rows[i].status == st;
      }
    }
    assert MatchIndices(rows, StatusCol, StatusLabel(st)) == set i | 0 <= i < |rows| && rows[i].status == st;
  }
}
