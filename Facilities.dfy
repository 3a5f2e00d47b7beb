/** The facility records of the dashboard and the three derived columns that
    `load_data` adds to every row: the facility type read off the name, the
    normalised region and the convention status. */
module Facilities {
  import opened Text

  /** A numeric cell of the CSV; `None` is a missing value (pandas' NaN). */
  datatype Option<T> = None | Some(value: T)

  /** The labels 'Hôpital', 'Centre de Santé', 'Poste de Santé', 'EPS', 'Autre'. */
  datatype FacilityType = Hopital | CentreDeSante | PosteDeSante | Eps | Autre

  function TypeLabel(t: FacilityType): string {
    match t
    case Hopital => "Hôpital"
    case CentreDeSante => "Centre de Santé"
    case PosteDeSante => "Poste de Santé"
    case Eps => "EPS"
    case Autre => "Autre"
  }

  /** The labels 'Signée' and 'Non Signée'. */
  datatype ConventionStatus = Signee | NonSignee

  function StatusLabel(s: ConventionStatus): string {
    match s
    case Signee => "Signée"
    case NonSignee => "Non Signée"
  }

  /** A row as read from the CSV: facility name ('NOM DES STRUCTURES SANITAIRES
      CIBLES'), region ('Région'), district ('District Sanitaire') and the counts
      'Nb Conventions Signées' and 'Nb Conventions Non Signées'. */
  datatype RawFacility = RawFacility(
    name: string, region: string, district: string,
    signed: Option<nat>, notSigned: Option<nat>)

  /** A row after `load_data`: the region is normalised and 'Type' and
      'Statut Convention' are added. */
  datatype Facility = Facility(
    name: string, region: string, district: string,
    signed: Option<nat>, notSigned: Option<nat>,
    ftype: FacilityType, status: ConventionStatus)

  // ---------------------------------------------------------------- type

  /** The keywords tested against the lower-cased name, in priority order, with
      the type each one selects. */
  const TypeRules: seq<(string, FacilityType)> := [
    ("hopital", Hopital),
    ("centre de santé", CentreDeSante),
    ("poste de santé", PosteDeSante),
    ("eps", Eps)
  ]

  /** The classification lambda: the first keyword found in `name.lower()`
      decides the type; no keyword gives 'Autre'. */
  function Classify(name: string): FacilityType {
    var low := Lower(name);
    if Contains(low, "hopital") then Hopital
    else if Contains(low, "centre de santé") then CentreDeSante
    else if Contains(low, "poste de santé") then PosteDeSante
    else if Contains(low, "eps") then Eps
    else Autre
  }

  /** The type is the label of keyword `j` exactly when keyword `j` occurs in the
      lower-cased name and no keyword before it does; it is 'Autre' exactly when
      no keyword occurs. */
  lemma ClassifyFirstMatch(name: string)
    ensures forall j :: 0 <= j < |TypeRules| ==>
      (Classify(name) == TypeRules[j].1 <==>
        Contains(Lower(name), TypeRules[j].0)
        && forall k :: 0 <= k < j ==> !Contains(Lower(name), TypeRules[k].0))
    ensures Classify(name) == Autre <==>
      forall j :: 0 <= j < |TypeRules| ==> !Contains(Lower(name), TypeRules[j].0)
  {
    assert |TypeRules| == 4;
    assert TypeRules[0] == ("hopital", Hopital) && TypeRules[1] == ("centre de santé", CentreDeSante);
    assert TypeRules[2] == ("poste de santé", PosteDeSante) && TypeRules[3] == ("eps", Eps);
  }

  /** The match ignores case: a name holding keyword `j` in any capitalisation
      (`k.lower()` is the keyword) and none of the earlier keywords gets type `j`. */
  lemma ClassifyAnyCase(name: string, k: string, j: nat)
    requires j < |TypeRules| && Lower(k) == TypeRules[j].0 && Contains(name, k)
    requires forall i :: 0 <= i < j ==> !Contains(Lower(name), TypeRules[i].0)
    ensures Classify(name) == TypeRules[j].1
  {
    ContainsLower(name, k);
    ClassifyFirstMatch(name);
  }

  /** The keywords are matched letter for letter, accents included: a name
      spelt with the accent of the 'Hôpital' label holds none of them and is
      classified 'Autre'. */
  lemma AccentedHospitalIsOther()
    ensures Classify("Hôpital") == Autre
  {
    var name := "Hôpital";
    var low := Lower(name);
    assert low[1] == LowerChar(name[1]) == 'ô';
    assert !Contains(low, "hopital") by {
      assert low[..7][1] != "hopital"[1];
    }
    forall i | 0 <= i < |low| ensures low[i] != "eps"[0] {
      assert low[i] == LowerChar(name[i]);
    }
    AbsentFirstChar(low, "eps");
  }

  // ---------------------------------------------------------------- status

  /** `np.where(signed > 0, 'Signée', 'Non Signée')`; a missing count compares
      false and so gives 'Non Signée'. */
  function StatusOf(signed: Option<nat>): (s: ConventionStatus)
    ensures s == Signee <==> signed.Some? && signed.value > 0
  {
    match signed
    case Some(n) => if n > 0 then Signee else NonSignee
    case None => NonSignee
  }

  // ---------------------------------------------------------------- load_data

  function DeriveRow(raw: RawFacility): Facility {
    Facility(raw.name, Normalize(raw.region), raw.district, raw.signed, raw.notSigned,
             Classify(raw.name), StatusOf(raw.signed))
  }

  /** The derivation step of `load_data`: one output row per input row, in the
      same order, with the name, district and counts kept, the region replaced
      by its normalised form and the two derived columns filled in. */
  function LoadData(raws: seq<RawFacility>): (rows: seq<Facility>)
    ensures |rows| == |raws|
    ensures forall i :: 0 <= i < |raws| ==>
      && rows[i].name == raws[i].name
      && rows[i].district == raws[i].district
      && rows[i].signed == raws[i].signed
      && rows[i].notSigned == raws[i].notSigned
      && rows[i].region == Normalize(raws[i].region)
      && rows[i].ftype == Classify(raws[i].name)
      && (rows[i].status == Signee <==> raws[i].signed.Some? && raws[i].signed.value > 0)
  {
    seq(|raws|, i requires 0 <= i < |raws| => DeriveRow(raws[i]))
  }

  /** Every loaded region is already in normal form: it has no surrounding
      whitespace and no ASCII lower-case letter, and normalising it again
      changes nothing. */
  lemma LoadedRegionsNormalized(raws: seq<RawFacility>)
    ensures forall r :: r in LoadData(raws) ==>
      Normalize(r.region) == r.region && NoEdgeSpace(r.region) && NoAsciiLower(r.region)
  {
    var rows := LoadData(raws);
    forall r | r in rows
      ensures Normalize(r.region) == r.region && NoEdgeSpace(r.region) && NoAsciiLower(r.region)
    {
      var i :| 0 <= i < |rows| && rows[i] == r;
      NormalizeIdempotent(raws[i].region);
    }
  }
}
