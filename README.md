# MSAS conventions dashboard: data model and aggregates

This project models the data side of the Streamlit dashboard `MSAS_app.py`. The
dashboard tracks the health facilities of Senegal's health insurance programme and
their conventions, signed and not signed. The model covers:

- **load_data**: the three columns derived from each CSV row.
  - The facility type comes from a keyword cascade over the lower-cased name.
  - The region is stripped and upper-cased.
  - The convention status depends on whether the signed count is positive.
- **The sidebar filter**: the region and district choices and the working subset `filtered_df`.
- **The headline indicators**: counts, averages, the dominant type and its share, the top region and the coverage rate.
- **The per-region group-bys**:
  - `region_agg`: structures, districts and their ratio.
  - `region_analysis`: the same figures plus the dominant type.
  - `region_perf`: summed conventions and the signature rate.
- **The global signature rate** and the signed / not-signed status counts.

`load_data` is modelled twice. `Frames.Frame` holds one field per column, and its three methods assign the derived columns in place. `Facilities.LoadData` derives the same rows as a value. Downstream of `load_data`, a DataFrame is a sequence of `Facilities.Facility` rows.

- The selection `df[df[col] == v]` is `Tables.Select`.
- Adding up a column (missing values skipped) is `Tables.Total`. Adding up a column of a group-by result is `Tables.ColumnSum`.
- `len(col.unique())` and `nunique` are `Tables.UniqueCount`.
- `groupby` keys are the sorted distinct values of the column (`Aggregates.RegionKeys`). `groupby` sorts its keys, so every group-by result comes out in increasing region order.
- Python's string order is `Order.Less`.

Python's string primitives are written out in `Text`:

- `str.isspace` uses the exact set of whitespace code points.
- `str.strip` removes whitespace at both ends.
- `str.lower` and `str.upper` are given on Latin-1, including the two-character upper case of `ß` and the mappings of `µ` and `ÿ`.
- The `in` substring test is `Text.Contains`.

Missing numeric cells are `None`. They compare false (`NaN > 0`) and add nothing to a sum. Rates and averages are exact `real` quotients.

The proofs cover the following properties:

- **Filter soundness and completeness.** It keeps exactly the matching rows, as often as they occur, in their original order.
- **Choices.** Every real region or district choice selects at least one row.
- **Normalisation.** Region normalisation is idempotent, and no normalised name can be taken for the "all regions" sentinel.
- **Classification.** The type is decided by the first keyword found. The keywords are matched with their accents as written, so an accented 'Hôpital' name is classified 'Autre'.
- **Conservation.** The group-bys lose and duplicate nothing: the per-region structure counts add up to the number of rows, and the per-region convention sums add up to the global sums.
- **Dominant type.**
  - It is a type of largest count that occurs in its group.
  - Among tied types it is the first label.
  - Its share is between 20 % and 100 % because there are five types.
- **Rates and averages.** Every signature rate lies in [0, 100]. The coverage rate does too when at most 14 regions are covered. The guarded averages are 0 exactly when the subset is empty.

## Model

| member | source | states |
|---|---|---|
| Text.Strip | MSAS_app.py:130 | `str.strip()`: the result has no whitespace at either end and is the input with only whitespace removed at the two ends |
| Text.StripFixed | MSAS_app.py:130 | stripping a string that already has no edge whitespace leaves it unchanged |
| Text.TrimStart | MSAS_app.py:130 | the result is a suffix of the input, and only whitespace was dropped before it |
| Text.TrimEnd | MSAS_app.py:130 | the result is a prefix of the input, and only whitespace was dropped after it |
| Text.Lower | MSAS_app.py:123-127 | `str.lower()` keeps the length of the string |
| Text.LowerSlice | MSAS_app.py:123-127 | lower-casing commutes with taking a slice |
| Text.LowerIdempotent | MSAS_app.py:123-127 | lower-casing twice is lower-casing once |
| Text.UpperChar | MSAS_app.py:130 | one character upper-cases to one or two characters |
| Text.UpperAppend | MSAS_app.py:130 | upper-casing distributes over concatenation |
| Text.UpperCharFixed | MSAS_app.py:130 | the upper case of a character is left unchanged by upper-casing |
| Text.UpperFixed | MSAS_app.py:130 | a string with no character that changes is left unchanged by upper-casing |
| Text.UpperIdempotent | MSAS_app.py:130 | upper-casing twice is upper-casing once |
| Text.UpperNoAsciiLower | MSAS_app.py:130 | an upper-cased string holds no ASCII lower-case letter |
| Text.UpperNoEdgeSpace | MSAS_app.py:130 | upper-casing a string with no edge whitespace adds none |
| Text.Normalize | MSAS_app.py:130 | `.str.strip().str.upper()`: the region has no edge whitespace and no ASCII lower-case letter |
| Text.NormalizeIdempotent | MSAS_app.py:130 | normalising a normalised region changes nothing |
| Text.ContainsIff | MSAS_app.py:123-127 | the `in` test holds exactly when the keyword occurs at some position |
| Text.ContainsLower | MSAS_app.py:123-127 | a keyword found in a name is found, lower-cased, in the lower-cased name |
| Text.AbsentFirstChar | MSAS_app.py:123-127 | a name without the first letter of a keyword does not contain that keyword |
| Order.SortedUnique | MSAS_app.py:164 | `sorted(col.unique())`: strictly increasing, duplicate-free, the same values as the column, as many as its distinct values |
| Order.Insert | MSAS_app.py:164 | inserting into a sorted sequence keeps it sorted and adds exactly the new value |
| Order.LessTransitive | MSAS_app.py:164 | Python's string order is transitive |
| Order.LessTotal | MSAS_app.py:164 | two different strings are ordered one way or the other |
| Order.LessIrreflexive | MSAS_app.py:164 | no string is smaller than itself |
| Order.LessAsymmetric | MSAS_app.py:164 | two strings are never each smaller than the other |
| Facilities.ClassifyFirstMatch | MSAS_app.py:123-127 | the type is keyword j's exactly when keyword j occurs in the lower-cased name and no earlier keyword does; 'Autre' exactly when none occurs |
| Facilities.ClassifyAnyCase | MSAS_app.py:123-127 | the keyword test ignores case: a name holding a keyword in any capitalisation, and no earlier keyword, gets that keyword's type |
| Facilities.AccentedHospitalIsOther | MSAS_app.py:123-128 | the name 'Hôpital', spelt with its accent, matches no keyword (the first keyword is 'hopital') and is classified 'Autre' |
| Facilities.StatusOf | MSAS_app.py:131 | 'Signée' exactly when the signed count is present and positive; a missing count gives 'Non Signée' |
| Facilities.LoadData | MSAS_app.py:117-132 | one row per input row, in order: the name, district and counts are kept, the region is normalised, and the type and status are derived |
| Facilities.LoadedRegionsNormalized | MSAS_app.py:130 | every loaded region is in normal form and is fixed by normalisation |
| Frames.Frame.constructor | MSAS_app.py:117-121 | the frame read from the CSV holds each raw column, row by row, and has no derived column yet |
| Frames.Frame.AssignTypes | MSAS_app.py:123-128 | the 'Type' column assignment: each row gets the type of its name, and no other column changes |
| Frames.Frame.NormalizeRegions | MSAS_app.py:130 | the 'Région' column is replaced in place by the normal form of each entry, and no other column changes |
| Frames.Frame.AssignStatuses | MSAS_app.py:131 | the 'Statut Convention' column assignment: 'Signée' exactly where the signed count is present and positive, and no other column changes |
| Frames.LoadFrame | MSAS_app.py:117-132 | the three column assignments in the source's order give a frame whose rows are exactly those `Facilities.LoadData` derives |
| Tables.ValuesMembership | MSAS_app.py:164 | a value is in a column exactly when some row carries it |
| Tables.Select | MSAS_app.py:171 | a boolean-mask selection is no longer than its input |
| Tables.SelectSpec | MSAS_app.py:171 | the selection keeps the input order; each row occurs as often as in the input if it matches, and otherwise not at all |
| Tables.SelectMembership | MSAS_app.py:171 | a row is selected exactly when it is an input row that matches |
| Tables.UniqueCountBounds | MSAS_app.py:202-203 | `len(col.unique())` and `nunique` are at most the number of rows, and 0 exactly for no rows |
| Tables.SelectAppend | MSAS_app.py:171 | selecting from rows with one more row at the end adds that row at the end exactly when it matches |
| Tables.SelectCountsMatches | MSAS_app.py:171 | the selection has one row per index of a matching input row |
| Tables.MatchIndicesLast | MSAS_app.py:171 | one more row at the end adds one matching index exactly when that row matches |
| Tables.MatchIndicesSplit | MSAS_app.py:171 | the matching indices of the rows are those of all rows but the last, plus the last index when that row matches |
| Tables.SubsequenceTransitive | MSAS_app.py:171-176 | applying one selection after another still keeps the original order |
| Tables.TotalStructures | MSAS_app.py:275 | counting the always-present name column counts every row |
| Tables.PartitionSum | MSAS_app.py:274-277 | over distinct keys that cover every row, the group totals add up to the overall total |
| Filters.RegionOptions | MSAS_app.py:164 | the sentinel first, then each region of the data set once, in increasing order |
| Filters.DistrictOptions | MSAS_app.py:167-172 | the sentinel first, then in increasing order each district of the whole data set, or of the selected region |
| Filters.FilterView | MSAS_app.py:167-176 | `filtered_df` keeps the order of the data set and holds each row as often as there when it matches both selectors, otherwise not at all |
| Filters.FilterMembership | MSAS_app.py:167-176 | a row is in the subset exactly when it is in the data set and matches both selectors |
| Filters.FilterAllIsIdentity | MSAS_app.py:167-176 | with both sentinels selected the subset is the whole data set |
| Filters.FilterNoMatchIsEmpty | MSAS_app.py:167-176 | a selection no row matches gives the empty subset |
| Filters.DistrictOptionSelectsRows | MSAS_app.py:167-176 | every real district choice selects at least one row |
| Filters.SentinelIsNotARegion | MSAS_app.py:164-167 | no normalised region name equals "Toutes les régions" |
| Filters.RegionOptionSelectsRows | MSAS_app.py:164-171 | every region the sidebar offers (any entry after the sentinel) selects at least one row |
| Aggregates.ArgMax | MSAS_app.py:373 | a first position of a largest value |
| Aggregates.TypeOrderIsLabelOrder | MSAS_app.py:373 | the five types listed in increasing label order, each once |
| Aggregates.ModeType | MSAS_app.py:373 | `mode()[0]`: a type that occurs, of largest count, and no type with a smaller label has the same count |
| Aggregates.RegionKeys | MSAS_app.py:274 | the `groupby('Région')` keys: sorted, distinct, exactly the regions of the rows |
| Aggregates.GroupMembership | MSAS_app.py:274 | a region's group holds exactly that region's rows, and is not empty when the region occurs |
| Aggregates.Density | MSAS_app.py:274-278 | for a region that occurs: its structures (at least one), its distinct districts (between one and the number of structures), and their ratio (at least one) |
| Aggregates.RegionAgg | MSAS_app.py:274-278 | one row per region of the subset, in increasing region order; each row holds that region's density figures, and every row's region is listed |
| Aggregates.RegionAggConservesRows | MSAS_app.py:274-277 | the 'Nb_Structures' column adds up to the number of rows of the subset |
| Aggregates.Profile | MSAS_app.py:373-374 | a region's profile carries that region's density figures: districts, structures and their ratio |
| Aggregates.ProfileDominant | MSAS_app.py:373 | the profile's dominant type occurs in the region with the largest count, and it is the first label among tied types |
| Aggregates.RegionAnalysis | MSAS_app.py:373-374 | one profile per group key, in key order; each row's region is its key, and that key occurs in the rows |
| Aggregates.RegionAnalysisRows | MSAS_app.py:373-374 | one row per region of the subset, in increasing region order, with every row's region listed |
| Aggregates.RegionAnalysisDominant | MSAS_app.py:373 | each row's dominant type is the type of some facility of that row's region |
| Aggregates.DominantOccurs | MSAS_app.py:373 | the dominant type of a region is the type of one of its rows |
| Aggregates.SignatureRate | MSAS_app.py:443 | the guarded rate lies in [0, 100]; it is 0 exactly when nothing is signed and 100 exactly when everything is |
| Aggregates.RatioBounds | MSAS_app.py:428 | the signed share lies in [0, 1] and, multiplied by the total, gives back the signed count |
| Aggregates.FillNaMatchesGuard | MSAS_app.py:428 | division followed by `fillna(0)` equals the explicitly guarded rate |
| Aggregates.Perf | MSAS_app.py:427-428 | a region's summed signed and not-signed counts, and their rate, in [0, 100] |
| Aggregates.RegionPerf | MSAS_app.py:427-428 | one performance row per group key, in key order |
| Aggregates.RegionPerfRows | MSAS_app.py:427-428 | one row per region of the subset, in increasing region order, each with a rate in [0, 100], and every row's region listed |
| Aggregates.RegionPerfConservesTotals | MSAS_app.py:427 | the per-region sums add up to the sums over the whole subset |
| Aggregates.GlobalSignatureRate | MSAS_app.py:440-443 | the global rate is in [0, 100]; it is 0 exactly when nothing is signed, and 0 when there are no conventions |
| Aggregates.StatusCounts | MSAS_app.py:382-384 | the 'Signée' count is exactly the number of rows with status 'Signée', and the 'Non Signée' count the number with 'Non Signée'; together they are the number of rows, and each is positive when a row has that status |
| Aggregates.StatusCountIs | MSAS_app.py:382-384 | selecting the rows of a status gives as many rows as there are indices with that status |
| Kpis.RegionsCovered | MSAS_app.py:202 | the number of regions is at most the number of rows, and 0 exactly for an empty subset |
| Kpis.DistrictsCovered | MSAS_app.py:203 | the number of districts is at most the number of rows, and 0 exactly for an empty subset |
| Kpis.AvgStructuresPerRegion | MSAS_app.py:201-204 | 0 exactly for an empty subset, otherwise at least one structure per region |
| Kpis.AvgDistrictsPerRegion | MSAS_app.py:219 | 0 exactly for an empty subset, otherwise positive and at most the number of structures |
| Kpis.DominantType | MSAS_app.py:213-214 | no type ("N/A") exactly for an empty subset, otherwise a type that occurs with the largest count |
| Kpis.DominantShare | MSAS_app.py:215 | 0 for an empty subset, otherwise between 20 % and 100 % |
| Kpis.DominantCountBounds | MSAS_app.py:213-215 | each row is counted under one of five labels, so the largest count is at least a fifth of the rows and at most all of them |
| Kpis.GroupTotalsBound | MSAS_app.py:213 | groups of at most b rows each add up to at most b times their number |
| Kpis.TopRegion | MSAS_app.py:216-218 | ("N/A", 0) for an empty subset; otherwise a region of the subset with its structure count, which no region of the subset exceeds |
| Kpis.CoverageRate | MSAS_app.py:223 | 0 exactly for an empty subset; at most 100 when no more than 14 regions are covered; exactly 100 when all 14 are |

## Left out

- User interface: the Streamlit layout, the Plotly charts and the animated chart, the styling, and the text of the indicators (including `:.1f` formatting and `round(2)`).
- Reading the CSV: the file name, the encoding fallback and the cache. The input rows are a parameter of `Facilities.LoadData`.
- `load_data` works on a pandas DataFrame. The model represents it as `Frames.Frame`, a class with one `seq` field per column. Each column assignment replaces a whole field. Aliasing between DataFrame views is not modelled.
- Missing text cells. Names, regions and districts are always present strings. `str(x)` of a missing name ("nan") is not modelled.
- Case mapping outside Latin-1. `Text.Lower` and `Text.Upper` are exact only on code points up to U+00FF.
- Floating point: rates and averages are exact rational numbers, so the model has no rounding error.
- Kpis.DominantType: `value_counts().index[0]` breaks ties in an order pandas does not specify. The contract claims a type of largest count and not which one. The model picks the first label.
- Kpis.TopRegion: likewise, the contract claims a region of largest count and not which one among ties.
- The other analyses the dashboard draws from the subset are not modelled:
  - the correlation matrix, quantiles and `describe`;
  - the type-by-region pivot;
  - the free-text search and the CSV export;
  - the sum of the 'Valeurs' column.
- The narrative recommendations built from `idxmax`/`idxmin` on `region_agg`.
- The guard on which numeric columns are present. The two count columns are always part of the model's row.
- The group-by frames get their ratio and rate columns assigned after construction (lines 278, 374, 428, 480). The model computes those values within each result row instead.
- `region_agg` is computed a second time for the summary (lines 479-480). That is the same computation, `Aggregates.RegionAgg`.
