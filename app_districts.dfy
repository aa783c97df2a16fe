/** `analyze_districts` of src/app.py, and the two district views built on it
    (the "zero hospitals" flag and the top-10 districts).

    The count is computed as the source writes it: a LEFT spatial join of the
    districts to the hospitals their polygon contains, `groupby("IDDIST")
    .size()`, a left merge back onto the districts and `fillna(0)`. The left
    join keeps one padding row for a district that contains no hospital, and
    `size()` counts rows, so such a district gets 1, not 0. `groupby` drops a
    missing IDDIST, so `fillna(0)` fires only for a district without an id.
    Polygon containment is the parameter `contains`. */
module AppDistricts {
  import opened Collections
  import opened Records

  /** One row of the left "contains" spatial join of districts to hospitals:
      the district and the hospital it contains, or no hospital for the
      padding row of a district that contains none. */
  datatype JoinRow = JoinRow(district: District, hospital: Option<Hospital>)

  /** A row of `distritos_con_conteo`: the district and its N_HOSPITALES. */
  datatype DistrictCount = DistrictCount(district: District, nHospitales: int)

  function ContainedIn(contains: (District, Hospital) -> bool, d: District): Hospital -> bool
  {
    h => contains(d, h)
  }

  /** The join rows pairing `d` with each hospital it contains, in layer order. */
  function Matches(d: District, hospitals: seq<Hospital>, contains: (District, Hospital) -> bool): (rows: seq<JoinRow>)
    ensures |rows| == Count(hospitals, ContainedIn(contains, d))
    ensures forall i :: 0 <= i < |rows| ==> rows[i].district == d
  {
    if hospitals == [] then []
    else (if contains(d, hospitals[0]) then [JoinRow(d, Some(hospitals[0]))] else [])
         + Matches(d, hospitals[1..], contains)
  }

  /** What a left join emits for one district: its matches, or one padding row. */
  function JoinRowsFor(d: District, hospitals: seq<Hospital>, contains: (District, Hospital) -> bool): seq<JoinRow>
  {
    var m := Matches(d, hospitals, contains);
    if m == [] then [JoinRow(d, None)] else m
  }

  function SJoinLeft(districts: seq<District>, hospitals: seq<Hospital>, contains: (District, Hospital) -> bool): seq<JoinRow>
  {
    if districts == [] then []
    else JoinRowsFor(districts[0], hospitals, contains) + SJoinLeft(districts[1..], hospitals, contains)
  }

  function HasId(k: string): JoinRow -> bool
  {
    (r: JoinRow) => r.district.iddist == Some(k)
  }

  /** Group sizes by IDDIST: for every id present, the number of join
      rows carrying it; rows without an id form no group. */
  function GroupSizes(join: seq<JoinRow>): map<string, nat>
  {
    var ids := set r | r in join && r.district.iddist.Some? :: r.district.iddist.value;
    map k | k in ids :: Count(join, HasId(k))
  }

  /** The N_HOSPITALES cell a left merge on IDDIST brings: none when the id is
      missing or has no group. */
  function MergedCount(sizes: map<string, nat>, id: Option<string>): Option<nat>
  {
    if id.Some? && id.value in sizes then Some(sizes[id.value]) else None
  }

  function FillNa(cell: Option<nat>, fill: nat): nat
  {
    if cell.Some? then cell.value else fill
  }

  function MergeCounts(districts: seq<District>, sizes: map<string, nat>): (rows: seq<DistrictCount>)
    ensures |rows| == |districts|
    ensures forall i :: 0 <= i < |rows| ==> rows[i].district == districts[i] && rows[i].nHospitales >= 0
  {
    if districts == [] then []
    else [DistrictCount(districts[0], FillNa(MergedCount(sizes, districts[0].iddist), 0))]
         + MergeCounts(districts[1..], sizes)
  }

  /** `distritos_con_conteo`: one row per district, in district order, with a
      non-negative count. */
  function AnalyzeDistricts(districts: seq<District>, hospitals: seq<Hospital>, contains: (District, Hospital) -> bool): (rows: seq<DistrictCount>)
    ensures |rows| == |districts|
    ensures forall i :: 0 <= i < |rows| ==> rows[i].district == districts[i] && rows[i].nHospitales >= 0
  {
    MergeCounts(districts, GroupSizes(SJoinLeft(districts, hospitals, contains)))
  }

  // ---------------------------------------------------------------------
  // What the count is.

  /** The rows the left join emits for one district: its number of contained
      hospitals, or 1 when it contains none. */
  function Padded(n: nat): nat
  {
    if n == 0 then 1 else n
  }

  /** The sum, over the districts whose IDDIST is `k`, of the rows the left
      join emits for them. */
  function IdTotal(districts: seq<District>, hospitals: seq<Hospital>, contains: (District, Hospital) -> bool, k: string): nat
  {
    if districts == [] then 0
    else (if districts[0].iddist == Some(k) then Padded(Count(hospitals, ContainedIn(contains, districts[0]))) else 0)
         + IdTotal(districts[1..], hospitals, contains, k)
  }

  lemma JoinRowsForShape(d: District, hospitals: seq<Hospital>, contains: (District, Hospital) -> bool)
    ensures |JoinRowsFor(d, hospitals, contains)| == Padded(Count(hospitals, ContainedIn(contains, d)))
    ensures forall i :: 0 <= i < |JoinRowsFor(d, hospitals, contains)| ==> JoinRowsFor(d, hospitals, contains)[i].district == d
  {
  }

  /** A count of rows that all agree on `p`. */
  lemma {:induction false} CountUniform(s: seq<JoinRow>, p: JoinRow -> bool, b: bool)
    requires forall i :: 0 <= i < |s| ==> p(s[i]) == b
    ensures Count(s, p) == if b then |s| else 0
  {
    if s != [] {
      CountUniform(s[1..], p, b);
    }
  }

  /** The size of the group `k` is the sum of the join rows of the districts with id `k`. */
  lemma {:induction false} GroupSizeIsIdTotal(districts: seq<District>, hospitals: seq<Hospital>, contains: (District, Hospital) -> bool, k: string)
    ensures Count(SJoinLeft(districts, hospitals, contains), HasId(k)) == IdTotal(districts, hospitals, contains, k)
  {
    if districts != [] {
      var d := districts[0];
      var first := JoinRowsFor(d, hospitals, contains);
      GroupSizeIsIdTotal(districts[1..], hospitals, contains, k);
      CountConcat(first, SJoinLeft(districts[1..], hospitals, contains), HasId(k));
      JoinRowsForShape(d, hospitals, contains);
      CountUniform(first, HasId(k), d.iddist == Some(k));
    }
  }

  /** The count of a district, as written: 0 when its IDDIST is missing (the
      only case `fillna(0)` fills), and otherwise the join rows of every district
      sharing its id. */
  lemma DistrictCountAsWritten(districts: seq<District>, hospitals: seq<Hospital>, contains: (District, Hospital) -> bool, i: int)
    requires 0 <= i < |districts|
    ensures AnalyzeDistricts(districts, hospitals, contains)[i].nHospitales
         == if districts[i].iddist.None? then 0 else IdTotal(districts, hospitals, contains, districts[i].iddist.value)
  {
    var join := SJoinLeft(districts, hospitals, contains);
    var sizes := GroupSizes(join);
    MergeCountsAt(districts, sizes, i);
    if districts[i].iddist.Some? {
      var k := districts[i].iddist.value;
      GroupSizeIsIdTotal(districts, hospitals, contains, k);
      IdTotalAtLeast(districts, hospitals, contains, i);
      // The group of `k` is not empty, so some join row carries `k`.
      var j :| 0 <= j < |join| && HasId(k)(join[j]);
      assert join[j] in join;
      assert k in sizes;
    }
  }

  lemma {:induction false} MergeCountsAt(districts: seq<District>, sizes: map<string, nat>, i: int)
    requires 0 <= i < |districts|
    ensures MergeCounts(districts, sizes)[i].nHospitales == FillNa(MergedCount(sizes, districts[i].iddist), 0)
  {
    if i > 0 {
      MergeCountsAt(districts[1..], sizes, i - 1);
    }
  }

  lemma {:induction false} IdTotalAbsent(districts: seq<District>, hospitals: seq<Hospital>, contains: (District, Hospital) -> bool, k: string)
    requires forall j :: 0 <= j < |districts| ==> districts[j].iddist != Some(k)
    ensures IdTotal(districts, hospitals, contains, k) == 0
  {
    if districts != [] {
      IdTotalAbsent(districts[1..], hospitals, contains, k);
    }
  }

  lemma {:induction false} IdTotalAtLeast(districts: seq<District>, hospitals: seq<Hospital>, contains: (District, Hospital) -> bool, i: int)
    requires 0 <= i < |districts| && districts[i].iddist.Some?
    ensures IdTotal(districts, hospitals, contains, districts[i].iddist.value)
         >= Padded(Count(hospitals, ContainedIn(contains, districts[i])))
  {
    if i > 0 {
      assert districts[1..][i - 1] == districts[i];
      IdTotalAtLeast(districts[1..], hospitals, contains, i - 1);
    }
  }

  lemma {:induction false} IdTotalUnique(districts: seq<District>, hospitals: seq<Hospital>, contains: (District, Hospital) -> bool, i: int)
    requires 0 <= i < |districts| && districts[i].iddist.Some?
    requires forall j :: 0 <= j < |districts| && j != i ==> districts[j].iddist != districts[i].iddist
    ensures IdTotal(districts, hospitals, contains, districts[i].iddist.value)
         == Padded(Count(hospitals, ContainedIn(contains, districts[i])))
  {
    var k := districts[i].iddist.value;
    if i == 0 {
      forall j | 0 <= j < |districts[1..]| ensures districts[1..][j].iddist != Some(k) {
        assert districts[1..][j] == districts[j + 1];
      }
      IdTotalAbsent(districts[1..], hospitals, contains, k);
    } else {
      assert districts[1..][i - 1] == districts[i];
      assert districts[0].iddist != Some(k);
      IdTotalUnique(districts[1..], hospitals, contains, i - 1);
    }
  }

  /** When no other district shares its IDDIST, a district's count is the number of hospitals its
      polygon contains when that is at least 1, and 1 when it contains none. */
  lemma DistrictCountWithKey(districts: seq<District>, hospitals: seq<Hospital>, contains: (District, Hospital) -> bool, i: int)
    requires 0 <= i < |districts| && districts[i].iddist.Some?
    requires forall j :: 0 <= j < |districts| && j != i ==> districts[j].iddist != districts[i].iddist
    ensures var n := Count(hospitals, ContainedIn(contains, districts[i]));
            AnalyzeDistricts(districts, hospitals, contains)[i].nHospitales == if n == 0 then 1 else n
  {
    DistrictCountAsWritten(districts, hospitals, contains, i);
    IdTotalUnique(districts, hospitals, contains, i);
  }

  /** The count is 0 exactly for a district whose IDDIST is missing: a district
      that contains no hospital is never counted as 0. */
  lemma ZeroOnlyWithoutId(districts: seq<District>, hospitals: seq<Hospital>, contains: (District, Hospital) -> bool, i: int)
    requires 0 <= i < |districts|
    ensures AnalyzeDistricts(districts, hospitals, contains)[i].nHospitales == 0 <==> districts[i].iddist.None?
  {
    DistrictCountAsWritten(districts, hospitals, contains, i);
    if districts[i].iddist.Some? {
      IdTotalAtLeast(districts, hospitals, contains, i);
    }
  }

  /** `distritos['SIN_HOSPITAL'] = distritos['N_HOSPITALES'] == 0`. */
  function SinHospital(rows: seq<DistrictCount>): (flags: seq<bool>)
    ensures |flags| == |rows|
    ensures forall i :: 0 <= i < |rows| ==> flags[i] == (rows[i].nHospitales == 0)
  {
    seq(|rows|, i requires 0 <= i < |rows| => rows[i].nHospitales == 0)
  }

  /** The "districts with zero hospitals" map flags only districts without an
      IDDIST, whatever the hospitals are: never a district for containing none. */
  lemma SinHospitalFlagsOnlyMissingIds(districts: seq<District>, hospitals: seq<Hospital>, contains: (District, Hospital) -> bool, i: int)
    requires 0 <= i < |districts|
    ensures SinHospital(AnalyzeDistricts(districts, hospitals, contains))[i] <==> districts[i].iddist.None?
  {
    ZeroOnlyWithoutId(districts, hospitals, contains, i);
  }
}
