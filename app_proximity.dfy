/** `analyze_proximity` of src/app.py: for each population centre of a
    department, the number of the department's hospitals within 10 km of it,
    and the centres with the fewest (isolation) and the most (concentration).

    "Hospital `h` lies within the 10 km buffer of centre `c`", computed in the
    source on UTM zone 18S coordinates, is the parameter `near`. */
module AppProximity {
  import opened Collections
  import opened Records

  /** A population-centre row with its HOSP_IN_10KM column. */
  datatype Annotated = Annotated(center: Center, hospIn10km: nat)

  /** The pair `analyze_proximity` returns. */
  datatype Extremes = Extremes(isolation: Annotated, concentration: Annotated)

  /** `idxmin` of an empty column raises instead of returning a label. */
  datatype ProximityError = EmptyArgmin

  function NearTo(near: (Center, Hospital) -> bool, c: Center): Hospital -> bool
  {
    (h: Hospital) => near(c, h)
  }

  /** Adds the column of counts to the centres, row by row. */
  function Assign(centers: seq<Center>, counts: seq<nat>): (rows: seq<Annotated>)
    requires |counts| == |centers|
  {
    seq(|centers|, i requires 0 <= i < |centers| => Annotated(centers[i], counts[i]))
  }

  /** The number of hospitals `near` relates to centre `c`. */
  function NearCount(hospitals: seq<Hospital>, near: (Center, Hospital) -> bool, c: Center): nat
  {
    Count(hospitals, NearTo(near, c))
  }

  /** The regional centres, each with its HOSP_IN_10KM count. */
  function Annotate(centers: seq<Center>, hospitals: seq<Hospital>, near: (Center, Hospital) -> bool): (rows: seq<Annotated>)
    ensures |rows| == |centers|
    ensures forall i :: 0 <= i < |rows| ==> rows[i].center == centers[i] && rows[i].hospIn10km <= |hospitals|
  {
    seq(|centers|, i requires 0 <= i < |centers| => Annotated(centers[i], NearCount(hospitals, near, centers[i])))
  }

  function Counts(rows: seq<Annotated>): seq<int>
  {
    seq(|rows|, i requires 0 <= i < |rows| => rows[i].hospIn10km)
  }

  /** `i` is the first position of a smallest value of `xs`. */
  predicate IsFirstMin(xs: seq<int>, i: int)
  {
    0 <= i < |xs| && (forall j :: 0 <= j < |xs| ==> xs[i] <= xs[j]) && (forall j :: 0 <= j < i ==> xs[i] < xs[j])
  }

  /** `i` is the first position of a largest value of `xs`. */
  predicate IsFirstMax(xs: seq<int>, i: int)
  {
    0 <= i < |xs| && (forall j :: 0 <= j < |xs| ==> xs[j] <= xs[i]) && (forall j :: 0 <= j < i ==> xs[j] < xs[i])
  }

  /** `Series.idxmin()` on a non-empty column, by position. */
  function IdxMin(xs: seq<int>): (i: nat)
    requires xs != []
    ensures IsFirstMin(xs, i)
  {
    if |xs| == 1 then 0
    else
      var k := IdxMin(xs[1..]) + 1;
      if xs[0] <= xs[k] then 0 else k
  }

  /** `Series.idxmax()` on a non-empty column, by position. */
  function IdxMax(xs: seq<int>): (i: nat)
    requires xs != []
    ensures IsFirstMax(xs, i)
  {
    if |xs| == 1 then 0
    else
      var k := IdxMax(xs[1..]) + 1;
      if xs[k] <= xs[0] then 0 else k
  }

  /** There is one first minimum, so `IdxMin` is the only choice. */
  lemma FirstMinUnique(xs: seq<int>, i: int, j: int)
    requires IsFirstMin(xs, i) && IsFirstMin(xs, j)
    ensures i == j
  {
    assert xs[i] == xs[j];
  }

  lemma FirstMaxUnique(xs: seq<int>, i: int, j: int)
    requires IsFirstMax(xs, i) && IsFirstMax(xs, j)
    ensures i == j
  {
    assert xs[i] == xs[j];
  }

  /** The regional centres with their counts of regional hospitals nearby. */
  function RegionRows(ccpp: seq<Center>, hp: seq<Hospital>, near: (Center, Hospital) -> bool, region: string): seq<Annotated>
  {
    Annotate(Filter(ccpp, CenterIn(region)), Filter(hp, HospitalIn(region)), near)
  }

  /** What `analyze_proximity(ccpp, hp, region)` returns or raises. Both
      results are regional centres annotated with their counts; isolation has
      no more nearby hospitals than concentration. */
  function Proximity(ccpp: seq<Center>, hp: seq<Hospital>, near: (Center, Hospital) -> bool, region: string): (r: Result<Extremes, ProximityError>)
    ensures r.Err? <==> forall i :: 0 <= i < |ccpp| ==> ccpp[i].departamento != Some(region)
    ensures r.Ok? ==> r.value.isolation.center in ccpp && r.value.isolation.center.departamento == Some(region)
    ensures r.Ok? ==> r.value.concentration.center in ccpp && r.value.concentration.center.departamento == Some(region)
    ensures r.Ok? ==> r.value.isolation.hospIn10km <= r.value.concentration.hospIn10km
  {
    var rows := RegionRows(ccpp, hp, near, region);
    if rows == [] then
      assert forall i :: 0 <= i < |ccpp| ==> !CenterIn(region)(ccpp[i]);
      Err(EmptyArgmin)
    else
      assert Filter(ccpp, CenterIn(region))[0] in ccpp;
      var counts := Counts(rows);
      var lo, hi := IdxMin(counts), IdxMax(counts);
      assert counts[lo] <= counts[hi];
      Ok(Extremes(rows[lo], rows[hi]))
  }

  /** The loop of the source: one count per regional centre, appended in
      region order, then the first minimum and first maximum. */
  method AnalyzeProximity(ccpp: seq<Center>, hp: seq<Hospital>, near: (Center, Hospital) -> bool, region: string)
    returns (r: Result<Extremes, ProximityError>)
    ensures r == Proximity(ccpp, hp, near, region)
  {
    var ccppRegion := Filter(ccpp, CenterIn(region));
    var hpRegion := Filter(hp, HospitalIn(region));
    var hospitalCount: seq<nat> := [];
    for i := 0 to |ccppRegion|
      invariant |hospitalCount| == i
      invariant forall j :: 0 <= j < i ==> hospitalCount[j] == NearCount(hpRegion, near, ccppRegion[j])
    {
      var count := NearCount(hpRegion, near, ccppRegion[i]);
      hospitalCount := hospitalCount + [count];
    }
    var rows := Assign(ccppRegion, hospitalCount);
    AssignCounts(ccppRegion, hpRegion, near, hospitalCount);
    if |rows| == 0 {
      r := Err(EmptyArgmin);
    } else {
      var counts := Counts(rows);
      r := Ok(Extremes(rows[IdxMin(counts)], rows[IdxMax(counts)]));
    }
  }

  /** Assigning the counts the loop collected gives the annotated centres. */
  lemma AssignCounts(centers: seq<Center>, hospitals: seq<Hospital>, near: (Center, Hospital) -> bool, counts: seq<nat>)
    requires |counts| == |centers|
    requires forall j :: 0 <= j < |centers| ==> counts[j] == NearCount(hospitals, near, centers[j])
    ensures Assign(centers, counts) == Annotate(centers, hospitals, near)
  {
  }

  /** Isolation is the first regional centre, in region order, with the
      fewest hospitals nearby, and concentration the first with the most. */
  lemma ExtremesAreFirst(ccpp: seq<Center>, hp: seq<Hospital>, near: (Center, Hospital) -> bool, region: string)
    requires Proximity(ccpp, hp, near, region).Ok?
    ensures var rows := RegionRows(ccpp, hp, near, region);
            var e := Proximity(ccpp, hp, near, region).value;
            (exists i :: IsFirstMin(Counts(rows), i) && rows[i] == e.isolation) &&
            (exists i :: IsFirstMax(Counts(rows), i) && rows[i] == e.concentration)
  {
    var rows := RegionRows(ccpp, hp, near, region);
    var counts := Counts(rows);
    assert IsFirstMin(counts, IdxMin(counts)) && rows[IdxMin(counts)] == Proximity(ccpp, hp, near, region).value.isolation;
    assert IsFirstMax(counts, IdxMax(counts)) && rows[IdxMax(counts)] == Proximity(ccpp, hp, near, region).value.concentration;
  }

  /** When every regional centre has the same count (in particular when the
      department has no hospital, so that every count is 0), isolation and
      concentration are both the first regional centre. */
  lemma UniformCountsPickFirst(ccpp: seq<Center>, hp: seq<Hospital>, near: (Center, Hospital) -> bool, region: string)
    requires Proximity(ccpp, hp, near, region).Ok?
    requires var rows := RegionRows(ccpp, hp, near, region);
             forall i :: 0 <= i < |rows| ==> rows[i].hospIn10km == rows[0].hospIn10km
    ensures var e := Proximity(ccpp, hp, near, region).value;
            e.isolation == e.concentration == RegionRows(ccpp, hp, near, region)[0]
  {
    var rows := RegionRows(ccpp, hp, near, region);
    var counts := Counts(rows);
    assert counts[0] == rows[0].hospIn10km;
  }

  /** A department without hospitals gives every centre the count 0. */
  lemma NoHospitalsPickFirst(ccpp: seq<Center>, hp: seq<Hospital>, near: (Center, Hospital) -> bool, region: string)
    requires Proximity(ccpp, hp, near, region).Ok?
    requires forall i :: 0 <= i < |hp| ==> hp[i].record.departamento != Some(region)
    ensures var e := Proximity(ccpp, hp, near, region).value;
            e.isolation == e.concentration == Annotated(Filter(ccpp, CenterIn(region))[0], 0)
  {
    var hs := Filter(hp, HospitalIn(region));
    NoneKept(hp, HospitalIn(region));
    UniformCountsPickFirst(ccpp, hp, near, region);
  }

  /** Only the rows of the department take part: two layers with the same
      regional rows, in the same order, give the same result. */
  lemma SameRegionalRowsSameResult(ccpp: seq<Center>, hp: seq<Hospital>, ccpp': seq<Center>, hp': seq<Hospital>,
                                   near: (Center, Hospital) -> bool, region: string)
    requires Filter(ccpp, CenterIn(region)) == Filter(ccpp', CenterIn(region))
    requires Filter(hp, HospitalIn(region)) == Filter(hp', HospitalIn(region))
    ensures Proximity(ccpp, hp, near, region) == Proximity(ccpp', hp', near, region)
  {
  }

  /** Centres and hospitals of other departments, inserted at any point of
      the layers, change nothing. */
  lemma OtherDepartmentsIgnored(c1: seq<Center>, otherC: seq<Center>, c2: seq<Center>,
                                h1: seq<Hospital>, otherH: seq<Hospital>, h2: seq<Hospital>,
                                near: (Center, Hospital) -> bool, region: string)
    requires forall i :: 0 <= i < |otherC| ==> otherC[i].departamento != Some(region)
    requires forall i :: 0 <= i < |otherH| ==> otherH[i].record.departamento != Some(region)
    ensures Proximity(c1 + otherC + c2, h1 + otherH + h2, near, region) == Proximity(c1 + c2, h1 + h2, near, region)
  {
    FilterIgnoresRejected(c1, otherC, c2, CenterIn(region));
    FilterIgnoresRejected(h1, otherH, h2, HospitalIn(region));
    SameRegionalRowsSameResult(c1 + otherC + c2, h1 + otherH + h2, c1 + c2, h1 + h2, near, region);
  }

  /** Running the analysis on the department's own rows gives the same result. */
  lemma RegionalRowsSuffice(ccpp: seq<Center>, hp: seq<Hospital>, near: (Center, Hospital) -> bool, region: string)
    ensures Proximity(Filter(ccpp, CenterIn(region)), Filter(hp, HospitalIn(region)), near, region)
         == Proximity(ccpp, hp, near, region)
  {
    FilterIdempotent(ccpp, CenterIn(region));
    FilterIdempotent(hp, HospitalIn(region));
  }
}
