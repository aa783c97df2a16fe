/** `make_proximity_map` of src/TASK4.py: the population centres of a
    department split into those inside the union of the 10 km buffers around
    the department's hospitals (concentration) and those outside it
    (isolation), or the national fallback map when the department has no
    centre or no hospital.

    "Centre `c` lies within the union of the buffers of radius `bufferM`
    around `hospitals`", computed in the source on UTM zone 18S coordinates,
    is the parameter `covered`. The map layers themselves are not modelled. */
module Task4Proximity {
  import opened Collections
  import opened Records

  /** The default `buffer_m`, in metres. */
  const DefaultBufferM: real := 10000.0

  /** A map location as folium takes it: [latitude, longitude]. */
  datatype LatLon = LatLon(lat: real, lon: real)

  /** What the returned map shows: the national view, or the coverage layers
      of one department. */
  datatype ProximityMap =
    | FallbackMap(location: LatLon, zoomStart: nat)
    | CoverageMap(zoomStart: nat, isolation: seq<Center>, concentration: seq<Center>)

  const FallbackLocation: LatLon := LatLon(-9.19, -75.01)
  const FallbackZoom: nat := 5
  const CoverageZoom: nat := 7

  function CoveredBy(covered: (Center, seq<Hospital>, real) -> bool, hospitals: seq<Hospital>, bufferM: real): Center -> bool
  {
    (c: Center) => covered(c, hospitals, bufferM)
  }

  function MakeProximityMap(region: string, pop: seq<Center>, hp: seq<Hospital>,
                            covered: (Center, seq<Hospital>, real) -> bool, bufferM: real := DefaultBufferM): (m: ProximityMap)
    ensures m.FallbackMap? <==>
              (forall i :: 0 <= i < |pop| ==> pop[i].departamento != Some(region)) ||
              (forall i :: 0 <= i < |hp| ==> hp[i].record.departamento != Some(region))
    ensures m.FallbackMap? ==> m.location == LatLon(-9.19, -75.01) && m.zoomStart == 5
    ensures m.CoverageMap? ==> m.zoomStart == 7
  {
    var popReg := Filter(pop, CenterIn(region));
    var hpReg := Filter(hp, HospitalIn(region));
    if popReg == [] || hpReg == [] then
      assert popReg == [] ==> forall i :: 0 <= i < |pop| ==> !CenterIn(region)(pop[i]);
      assert hpReg == [] ==> forall i :: 0 <= i < |hp| ==> !HospitalIn(region)(hp[i]);
      FallbackMap(FallbackLocation, FallbackZoom)
    else
      assert popReg[0] in pop && hpReg[0] in hp;
      var inCoverage := CoveredBy(covered, hpReg, bufferM);
      CoverageMap(CoverageZoom, Filter(popReg, Not(inCoverage)), Filter(popReg, inCoverage))
  }

  /** The department's centres and the mask the buffers' union defines. */
  function RegionalCenters(region: string, pop: seq<Center>): seq<Center>
  {
    Filter(pop, CenterIn(region))
  }

  function Coverage(region: string, hp: seq<Hospital>, covered: (Center, seq<Hospital>, real) -> bool, bufferM: real): Center -> bool
  {
    CoveredBy(covered, Filter(hp, HospitalIn(region)), bufferM)
  }

  /** Together the two layers hold each of the department's centres as often
      as the layer does. */
  lemma CoverageSplitsCenters(region: string, pop: seq<Center>, hp: seq<Hospital>,
                              covered: (Center, seq<Hospital>, real) -> bool, bufferM: real)
    requires MakeProximityMap(region, pop, hp, covered, bufferM).CoverageMap?
    ensures var m := MakeProximityMap(region, pop, hp, covered, bufferM);
            multiset(m.isolation) + multiset(m.concentration) == multiset(RegionalCenters(region, pop))
  {
    FilterPartition(RegionalCenters(region, pop), Coverage(region, hp, covered, bufferM));
  }

  /** Each layer keeps the order of the population-centre layer. */
  lemma CoverageKeepsOrder(region: string, pop: seq<Center>, hp: seq<Hospital>,
                           covered: (Center, seq<Hospital>, real) -> bool, bufferM: real)
    requires MakeProximityMap(region, pop, hp, covered, bufferM).CoverageMap?
    ensures var m := MakeProximityMap(region, pop, hp, covered, bufferM);
            IsSubsequence(m.isolation, pop) && IsSubsequence(m.concentration, pop)
  {
    var popReg := RegionalCenters(region, pop);
    var inCoverage := Coverage(region, hp, covered, bufferM);
    FilterIsSubsequence(popReg, inCoverage);
    FilterIsSubsequence(popReg, Not(inCoverage));
    FilterIsSubsequence(pop, CenterIn(region));
    SubsequenceTransitive(Filter(popReg, inCoverage), popReg, pop);
    SubsequenceTransitive(Filter(popReg, Not(inCoverage)), popReg, pop);
  }

  /** A centre is in concentration exactly when it is one of the
      department's centres and the buffers of the department's hospitals
      cover it, in isolation exactly when they do not, and never in both. */
  lemma CoverageMembership(region: string, pop: seq<Center>, hp: seq<Hospital>,
                           covered: (Center, seq<Hospital>, real) -> bool, bufferM: real, c: Center)
    requires MakeProximityMap(region, pop, hp, covered, bufferM).CoverageMap?
    ensures var m := MakeProximityMap(region, pop, hp, covered, bufferM);
            var hpReg := Filter(hp, HospitalIn(region));
            (c in m.concentration <==> c in pop && c.departamento == Some(region) && covered(c, hpReg, bufferM)) &&
            (c in m.isolation <==> c in pop && c.departamento == Some(region) && !covered(c, hpReg, bufferM)) &&
            !(c in m.isolation && c in m.concentration)
  {
    var popReg := RegionalCenters(region, pop);
    var inCoverage := Coverage(region, hp, covered, bufferM);
    assert c in popReg <==> c in pop && c.departamento == Some(region) by {
      if c in pop && c.departamento == Some(region) {
        var i :| 0 <= i < |pop| && pop[i] == c;
      }
    }
    if c in popReg {
      var i :| 0 <= i < |popReg| && popReg[i] == c;
      assert inCoverage(popReg[i]) ==> popReg[i] in Filter(popReg, inCoverage);
      assert Not(inCoverage)(popReg[i]) ==> popReg[i] in Filter(popReg, Not(inCoverage));
    }
  }

  /** Only the rows of the department take part: two layers with the same
      regional rows, in the same order, give the same map. */
  lemma SameRegionalRowsSameMap(region: string, pop: seq<Center>, hp: seq<Hospital>, pop': seq<Center>, hp': seq<Hospital>,
                                covered: (Center, seq<Hospital>, real) -> bool, bufferM: real)
    requires Filter(pop, CenterIn(region)) == Filter(pop', CenterIn(region))
    requires Filter(hp, HospitalIn(region)) == Filter(hp', HospitalIn(region))
    ensures MakeProximityMap(region, pop, hp, covered, bufferM) == MakeProximityMap(region, pop', hp', covered, bufferM)
  {
  }

  /** Centres and hospitals of other departments, inserted at any point of
      the layers, change nothing. */
  lemma OtherDepartmentsIgnored(region: string, p1: seq<Center>, otherC: seq<Center>, p2: seq<Center>,
                                h1: seq<Hospital>, otherH: seq<Hospital>, h2: seq<Hospital>,
                                covered: (Center, seq<Hospital>, real) -> bool, bufferM: real)
    requires forall i :: 0 <= i < |otherC| ==> otherC[i].departamento != Some(region)
    requires forall i :: 0 <= i < |otherH| ==> otherH[i].record.departamento != Some(region)
    ensures MakeProximityMap(region, p1 + otherC + p2, h1 + otherH + h2, covered, bufferM)
         == MakeProximityMap(region, p1 + p2, h1 + h2, covered, bufferM)
  {
    FilterIgnoresRejected(p1, otherC, p2, CenterIn(region));
    FilterIgnoresRejected(h1, otherH, h2, HospitalIn(region));
    SameRegionalRowsSameMap(region, p1 + otherC + p2, h1 + otherH + h2, p1 + p2, h1 + h2, covered, bufferM);
  }

  /** Drawing the map from the department's own rows gives the same map. */
  lemma RegionalRowsSuffice(region: string, pop: seq<Center>, hp: seq<Hospital>,
                            covered: (Center, seq<Hospital>, real) -> bool, bufferM: real)
    ensures MakeProximityMap(region, Filter(pop, CenterIn(region)), Filter(hp, HospitalIn(region)), covered, bufferM)
         == MakeProximityMap(region, pop, hp, covered, bufferM)
  {
    FilterIdempotent(pop, CenterIn(region));
    FilterIdempotent(hp, HospitalIn(region));
    SameRegionalRowsSameMap(region, Filter(pop, CenterIn(region)), Filter(hp, HospitalIn(region)), pop, hp, covered, bufferM);
  }
}
