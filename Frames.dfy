/** The DataFrame `load_data` works on, column by column: the CSV columns as
    read, then the three assignments that add 'Type', replace 'Région' and add
    'Statut Convention' in place. Reading the frame back row by row gives the
    derived rows of `Facilities.LoadData`. */
module Frames {
  import opened Text
  import opened Facilities

  class Frame {
    var names: seq<string>
    var regions: seq<string>
    var districts: seq<string>
    var signed: seq<Option<nat>>
    var notSigned: seq<Option<nat>>
    /** 'Type' and 'Statut Convention': empty until they are assigned. */
    var types: seq<FacilityType>
    var statuses: seq<ConventionStatus>

    /** The CSV columns all have one entry per row. */
    predicate Valid()
      reads this
    {
      |regions| == |names| && |districts| == |names|
      && |signed| == |names| && |notSigned| == |names|
    }

    /** Both derived columns are present. */
    predicate Derived()
      reads this
    {
      Valid() && |types| == |names| && |statuses| == |names|
    }

    /** The frame as read from the CSV rows, before any derived column. */
    constructor (raws: seq<RawFacility>)
      ensures Valid() && |names| == |raws|
      ensures forall i :: 0 <= i < |raws| ==>
        && names[i] == raws[i].name && regions[i] == raws[i].region
        && districts[i] == raws[i].district
        && signed[i] == raws[i].signed && notSigned[i] == raws[i].notSigned
      ensures types == [] && statuses == []
    {
      names := seq(|raws|, i requires 0 <= i < |raws| => raws[i].name);
      regions := seq(|raws|, i requires 0 <= i < |raws| => raws[i].region);
      districts := seq(|raws|, i requires 0 <= i < |raws| => raws[i].district);
      signed := seq(|raws|, i requires 0 <= i < |raws| => raws[i].signed);
      notSigned := seq(|raws|, i requires 0 <= i < |raws| => raws[i].notSigned);
      types := [];
      statuses := [];
    }

    /** `data['Type'] = names.apply(classify)`: every row gets the type of its
        name; no other column changes. */
    method AssignTypes()
      requires Valid()
      modifies this
      ensures Valid() && |types| == |names|
      ensures forall i :: 0 <= i < |names| ==> types[i] == Classify(names[i])
      ensures names == old(names) && regions == old(regions) && districts == old(districts)
      ensures signed == old(signed) && notSigned == old(notSigned) && statuses == old(statuses)
    {
      var ns := names;
      types := seq(|ns|, i requires 0 <= i < |ns| => Classify(ns[i]));
    }

    /** `data['Région'] = data['Région'].str.strip().str.upper()`: every region
        is replaced by its normal form; no other column changes. */
    method NormalizeRegions()
      requires Valid()
      modifies this
      ensures Valid() && |old(regions)| == |names|
      ensures forall i :: 0 <= i < |names| ==>
        regions[i] == Normalize(old(regions)[i]) && NoEdgeSpace(regions[i]) && NoAsciiLower(regions[i])
      ensures names == old(names) && districts == old(districts) && types == old(types)
      ensures signed == old(signed) && notSigned == old(notSigned) && statuses == old(statuses)
    {
      var rs := regions;
      regions := seq(|rs|, i requires 0 <= i < |rs| => Normalize(rs[i]));
    }

    /** `data['Statut Convention'] = np.where(signed > 0, 'Signée', 'Non Signée')`:
        'Signée' exactly for the rows whose signed count is present and
        positive; no other column changes. */
    method AssignStatuses()
      requires Valid()
      modifies this
      ensures Valid() && |statuses| == |names|
      ensures forall i :: 0 <= i < |names| ==>
        (statuses[i] == Signee <==> signed[i].Some? && signed[i].value > 0)
      ensures names == old(names) && regions == old(regions) && districts == old(districts)
      ensures signed == old(signed) && notSigned == old(notSigned) && types == old(types)
    {
      var ss := signed;
      statuses := seq(|ss|, i requires 0 <= i < |ss| => StatusOf(ss[i]));
    }

    /** The frame read back row by row. */
    function Rows(): (rows: seq<Facility>)
      reads this
      requires Derived()
      ensures |rows| == |names|
    {
      var (ns, rs, ds, ss, nss, ts, sts) := (names, regions, districts, signed, notSigned, types, statuses);
      seq(|ns|, i requires 0 <= i < |ns| => Facility(ns[i], rs[i], ds[i], ss[i], nss[i], ts[i], sts[i]))
    }
  }

  /** `load_data` on rows already read from the CSV: the three column
      assignments in the source's order. The frame it returns holds exactly the
      rows `Facilities.LoadData` derives. */
  method LoadFrame(raws: seq<RawFacility>) returns (f: Frame)
    ensures fresh(f) && f.Derived()
    ensures f.Rows() == LoadData(raws)
  {
    f := new Frame(raws);
    f.AssignTypes();
    f.NormalizeRegions();
    f.AssignStatuses();
    StatusesAgree(f.signed, f.statuses);
    var rows := f.Rows();
    forall i | 0 <= i < |raws| ensures rows[i] == LoadData(raws)[i] {
      assert rows[i] == DeriveRow(raws[i]);
    }
  }

  /** A status column that agrees with the signed counts row by row is the
      column `StatusOf` gives. */
  lemma StatusesAgree(signed: seq<Option<nat>>, statuses: seq<ConventionStatus>)
    requires |statuses| == |signed|
    requires forall i :: 0 <= i < |signed| ==>
      (statuses[i] == Signee <==> signed[i].Some? && signed[i].value > 0)
    ensures forall i :: 0 <= i < |signed| ==> statuses[i] == StatusOf(signed[i])
  {
  }
}
