# Hospital access in Peru: a Dafny model of the analysis core

This project models the analysis behind the Streamlit app that studies public
hospitals in Peru (`src/app.py`) and its notebook variant (`src/TASK4.py`).
The model covers:

- **Hospital cleaning.** The IPRESS hospital registry is cleaned into a layer of
  hospital points:
  - the operational status must be "EN FUNCIONAMIENTO" (only in `src/app.py`);
  - NORTE and ESTE must parse as numbers;
  - the point must lie inside Peru's envelope: latitude in [-18.5, 0] and
    longitude in [-81.5, -68.5], both ends included.

  The cleaning is modelled as the source does it. A `HospitalFrame` object is
  changed step by step, and the result is proved equal to a one-predicate
  specification.
- **Hospitals per district** (`analyze_districts`). This is a left spatial join,
  a count per IDDIST, a left merge and `fillna(0)`, modelled exactly as
  written:
  - A district that contains no hospital keeps one padding row in the left
    join, and `size()` counts it. So such a district gets 1, not 0.
  - Only a district without IDDIST gets 0. Consequently the "districts with
    zero hospitals" map flags only districts without an id.
  - The top-10 district selection is modelled too.
- **Hospitals per department** (`analyze_departments`). District counts are summed
  by department name. The rows come out in ascending name order, and a
  summary table holds the same rows sorted by count, largest first.
- **Proximity** (`analyze_proximity`). For each population centre of a
  department, the model counts the department's hospitals within 10 km. It
  then picks the first centre with the fewest (isolation) and the first with
  the most (concentration). With no centre in the department, the selection
  fails.
- **`src/TASK4.py`:**
  - the same cleaning, without the status filter;
  - the department names of the dissolved district layer;
  - the per-department hospital tally merged onto those names;
  - `make_proximity_map`. It either returns the national fallback map, or
    splits the department's centres into those covered and those not covered
    by the union of 10 km buffers around its hospitals.

All geometry is abstracted into predicates that the analysis receives as
parameters:

- `contains(district, hospital)` is the spatial join;
- `near(centre, hospital)` means within the 10 km buffer;
- `covered(centre, hospitals, bufferM)` means within the union of buffers;
- number parsing (`pd.to_numeric` with coercion) is `parse`.

A cell pandas reads as missing is `None`. The grouping operations (`groupby`,
`dissolve`, `value_counts`) drop missing keys. `groupby` and `dissolve` order
the names by Python's `str` order; `value_counts` orders its rows by count,
largest first.

Two behaviours of the code are modelled as written, although they are not
what the code around them suggests:

- **The district count.** A count of 0 is clearly meant for a district
  without hospitals:
  - `fillna(0)` fills the count of a district that has no group
    (src/app.py:89);
  - the second map, titled "Distritos con Cero Hospitales", flags the
    districts whose count is 0 (src/app.py:200-205).

  But the left spatial join keeps one padding row for such a district, and
  `size()` counts it, so the code gives it 1. Only a district without IDDIST
  gets 0 (see `AppDistricts.DistrictCountWithKey` and
  `AppDistricts.ZeroOnlyWithoutId`).
- **An empty region.**
  - `analyze_proximity` fails only when the region has no centre, because
    `idxmin` of an empty column raises (src/app.py:124). With no hospital,
    every count is 0 and both results are the first centre (see
    `AppProximity.NoHospitalsPickFirst`).
  - `make_proximity_map` raises in neither case. It returns the fallback
    map (src/TASK4.py:86-87).

## Model

| member | source | states |
|---|---|---|
| HospitalTable.CleanKeepsExactlyAdmissible | src/app.py:43-50 | a registry row is in the cleaned layer exactly when it is in the registry, is operating (when asked), both coordinates parse and the point lies in the inclusive envelope |
| HospitalTable.CleanRecords | src/app.py:43-50 | the rows behind the cleaned layer are the admissible registry rows in registry order |
| HospitalTable.CleanKeepsOrder | src/app.py:43-50 | the cleaned rows are a subsequence of the registry |
| HospitalTable.CleanIdempotent | src/app.py:43-50 | cleaning the cleaned rows again gives the same layer |
| HospitalTable.CleanHospitalFields | src/app.py:46-55 | every cleaned hospital lies in the envelope, took LATITUD from NORTE and LONGITUD from ESTE, has the point x = LONGITUD, y = LATITUD, and is operating when the status filter ran |
| HospitalTable.OperatingCleaningRefines | src/TASK4.py:45-49 | the cleaning with the status filter keeps exactly the operating rows of the cleaning without it |
| HospitalTable.HospitalFrame.constructor | src/app.py:37 | the frame starts as the registry rows without parsed coordinates |
| HospitalTable.HospitalFrame.KeepOperating | src/app.py:43 | the frame keeps exactly its operating rows, in order |
| HospitalTable.HospitalFrame.AssignCoordinates | src/app.py:46-47 | each row gains LATITUD parsed from NORTE and LONGITUD parsed from ESTE |
| HospitalTable.HospitalFrame.DropMissingCoordinates | src/app.py:48 | the frame keeps exactly the rows with both coordinates |
| HospitalTable.HospitalFrame.KeepLatitudeBetween | src/app.py:49 | the frame keeps exactly the rows whose latitude lies in the closed interval |
| HospitalTable.HospitalFrame.KeepLongitudeBetween | src/app.py:50 | the frame keeps exactly the rows whose longitude lies in the closed interval |
| HospitalTable.StepsClean | src/app.py:43-57 | the step-by-step frame updates, followed by building the points, give the one-predicate cleaning |
| AppLoading.LoadAndPrepareData | src/app.py:34-57 | the returned hospital layer is the cleaning with the status filter |
| Task4Loading.LoadData | src/TASK4.py:41-66 | the hospital layer is the cleaning without the status filter; the department list is the dissolved names |
| Task4Loading.DissolveNames | src/TASK4.py:61-64 | the dissolved layer has every department name of the districts exactly once, in strictly ascending order, and no other |
| AppDistricts.Matches | src/app.py:82 | the join rows for a district are as many as the hospitals it contains, all for that district |
| AppDistricts.AnalyzeDistricts | src/app.py:77-91 | one output row per district, in district order, with a non-negative count |
| AppDistricts.GroupSizeIsIdTotal | src/app.py:82-85 | the group size of an id is the sum, over the districts with that id, of their contained hospitals, or 1 for each that contains none |
| AppDistricts.DistrictCountAsWritten | src/app.py:82-89 | a district's count is 0 when its IDDIST is missing, and otherwise the group size of its id |
| AppDistricts.DistrictCountWithKey | src/app.py:82-89 | when no other district shares its IDDIST, a district's count is the number of hospitals it contains when that is at least 1, and 1 when it contains none |
| AppDistricts.ZeroOnlyWithoutId | src/app.py:85-89 | a district's count is 0 exactly when its IDDIST is missing |
| AppDistricts.SinHospital | src/app.py:202 | one flag per district, true exactly when its count is 0 |
| AppDistricts.SinHospitalFlagsOnlyMissingIds | src/app.py:202 | the zero-hospital flag holds exactly for districts without IDDIST, whatever the hospitals |
| AppTopDistricts.Insert | src/app.py:210 | inserting a position gives one entry more, holding exactly that position and the old ones |
| AppTopDistricts.InsertRanked | src/app.py:210 | inserting a new position into a ranked list keeps it ranked |
| AppTopDistricts.OrderPositions | src/app.py:210 | the order has one entry per district and holds every district position |
| AppTopDistricts.OrderRanked | src/app.py:210 | in the order, a larger count comes first, and among equal counts the smaller position comes first |
| AppTopDistricts.NLargest | src/app.py:210 | min(k, number of districts) rows, counts non-increasing; `TopDistricts` is this with k = 10 |
| AppTopDistricts.NLargestRows | src/app.py:210 | for every k, each returned row is the district at its selected position, and the selected positions are distinct positions of the layer |
| AppTopDistricts.NLargestSelectsTop | src/app.py:210 | every district left out has a smaller count than each selected one, or an equal count and a later position |
| Grouping.GroupSum | src/app.py:97 | grouping by name gives one row per name present, in strictly ascending name order |
| Grouping.GroupSumSums | src/app.py:97 | each group's count is the sum of the counts with its name, and the grand total is unchanged |
| Grouping.SortByCountDesc | src/app.py:101 | sorting by count gives a permutation of the rows with non-increasing counts |
| Grouping.SortSums | src/app.py:101 | sorting keeps every name's sum and the grand total |
| Grouping.SortKeys | src/app.py:101 | sorting keeps the set of names and their distinctness |
| AppDepartments.AnalyzeDepartments | src/app.py:95-102 | one department row per name in the districts, in ascending order; the summary is a permutation of it, non-increasing by count |
| AppDepartments.DepartmentCountIsDistrictSum | src/app.py:97-98 | each department's count is the sum of the counts of its districts |
| AppDepartments.DepartmentTotal | src/app.py:97 | department counts add up to the total of the named districts, and to the total of all districts when every district has a name |
| AppDepartments.SummaryRows | src/app.py:101 | the summary has one row per department name, each with the sum of its districts' counts, and the same total |
| AppProximity.Annotate | src/app.py:115-121 | one annotated row per regional centre in region order, each count at most the number of regional hospitals |
| AppProximity.IdxMin | src/app.py:124 | the position of the first smallest count |
| AppProximity.IdxMax | src/app.py:125 | the position of the first largest count |
| AppProximity.FirstMinUnique | src/app.py:124 | the first smallest position is unique |
| AppProximity.FirstMaxUnique | src/app.py:125 | the first largest position is unique |
| AppProximity.Proximity | src/app.py:106-127 | fails exactly when no centre has the department's name; otherwise both results are centres of the department, and isolation's count is at most concentration's |
| AppProximity.AssignCounts | src/app.py:115-121 | the counts collected centre by centre, assigned as a column, give each regional centre its number of nearby regional hospitals |
| AppProximity.AnalyzeProximity | src/app.py:106-127 | the counting loop and the selection return what the proximity specification says |
| AppProximity.ExtremesAreFirst | src/app.py:123-125 | isolation is the first regional centre with the fewest nearby hospitals, concentration the first with the most |
| AppProximity.UniformCountsPickFirst | src/app.py:115-125 | when all regional counts are equal, both results are the first regional centre |
| AppProximity.NoHospitalsPickFirst | src/app.py:108-125 | a department without hospitals gives both results as the first regional centre with count 0 |
| AppProximity.SameRegionalRowsSameResult | src/app.py:107-108 | two layers with the same regional centres and hospitals, in the same order, give the same result |
| AppProximity.OtherDepartmentsIgnored | src/app.py:107-108 | centres and hospitals of other departments, inserted at any point of the layers, change nothing |
| AppProximity.RegionalRowsSuffice | src/app.py:107-108 | running on the department's own rows gives the same result |
| Task4Departments.ValueCounts | src/TASK4.py:71-72 | one row per department name carried by a hospital, names distinct, counts non-increasing |
| Task4Departments.ValueCountsCounts | src/TASK4.py:71 | every name's count is the number of hospitals with that name, and the counts add up to the number of named hospitals |
| Task4Departments.Lookup | src/TASK4.py:75-79 | the merge brings no count exactly when the name is not in the tally |
| Task4Departments.LookupDistinct | src/TASK4.py:75-79 | for a name in the tally, the merge brings that name's count |
| Task4Departments.MergeLeft | src/TASK4.py:75-79 | the left merge keeps every department row, in order |
| Task4Departments.DepartmentTally | src/TASK4.py:71-80 | every department row is kept in order and carries the number of hospitals with its name, 0 when there are none |
| Task4Departments.TallyConserves | src/TASK4.py:75-80 | with distinct department names, the merged counts add up to the number of hospitals whose name is one of them |
| Task4Proximity.MakeProximityMap | src/TASK4.py:82-96 | the fallback map (location [-9.19, -75.01], zoom 5) exactly when the department has no centre or no hospital; otherwise the coverage map at zoom 7 |
| Task4Proximity.CoverageSplitsCenters | src/TASK4.py:91-93 | isolation and concentration together hold each regional centre as often as the layer does |
| Task4Proximity.CoverageKeepsOrder | src/TASK4.py:92-93 | both layers keep the order of the centre layer |
| Task4Proximity.CoverageMembership | src/TASK4.py:83-93 | a centre is in concentration exactly when it is a regional centre covered by the regional hospitals' buffers, in isolation exactly when it is a regional centre not covered, and never in both |
| Task4Proximity.SameRegionalRowsSameMap | src/TASK4.py:83-84 | two layers with the same regional centres and hospitals, in the same order, give the same map |
| Task4Proximity.OtherDepartmentsIgnored | src/TASK4.py:83-84 | centres and hospitals of other departments, inserted at any point of the layers, change nothing |
| Task4Proximity.RegionalRowsSuffice | src/TASK4.py:83-84 | drawing the map from the department's own rows gives the same map |
| Collections.Filter | src/app.py:43 | a boolean-mask selection keeps exactly the elements satisfying the mask, in order |
| Collections.Count | src/app.py:118 | a mask sum is at most the length, and 0 exactly when no element satisfies the mask |
| Collections.FilterPartition | src/TASK4.py:92-93 | a mask and its negation split the elements |

## Left out

- The Streamlit page, tabs, tables, matplotlib charts and folium maps (src/app.py:136-294, src/TASK4.py:105-118). These are presentation. The map layers, circles and markers are not modelled.
- Reading the CSV and shapefiles, including the latin-1 fallback. This is input and output. The registry rows, the district layer and the centre layer are parameters.
- Reprojection (`to_crs`), buffers, the union of buffers, centroids, and the `contains` and `within` predicates. These are floating-point geometry inside a library. They are the parameters `contains`, `near` and `covered`.
- The text-to-number rules of `pd.to_numeric`. The parser is the parameter `parse`.
- The `@st.cache_data` memoisation and the `pip install` lines of the notebook.
- The polygon union inside `dissolve`, and the other columns it sums. Only the department name and N_HOSPITALES are modelled.
- The map centre of `make_proximity_map` (the centroid of the regional centres) and its GeoJson layers. Only the zoom and the two centre layers are modelled.
- The conditional rename in `load_data` of `src/TASK4.py` (src/TASK4.py:58-59). It runs only when the centre layer has a DEPARTAMEN column, and then renames a `DEP` column to DEPARTAMENTO; a layer without `DEP` is left unchanged. The model reads the centre department from one field (see the line after next).
- The hospital department comes from one field. The source reads it as 'DEPARTAMENTO' in some places and 'Departamento' in others.
- The centre department comes from one field, although `src/TASK4.py` reads 'DEPARTAMENTO' from a layer whose name column is DEPARTAMEN. The model assumes the column exists.
- AppProximity.Proximity: `loc[idxmin()]` is modelled by position. This matches the source when the row labels are unique, as after reading a file. Duplicate labels are not modelled.
- Task4Departments.DepartmentTally: N_HOSPITALES is an integer. In the source it is a float column after `fillna(0)`.
- Grouping.SortByCountDesc: promises only a permutation with non-increasing counts and no order among equal counts, because pandas' default sort is not stable.
- Task4Departments.ValueCounts: promises no order among equal counts, for the same reason.
- HospitalTable.HospitalFrame: the `between` filters build new frames in the source. They are modelled as updates of the one frame object, which nothing else aliases.
