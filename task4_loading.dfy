/** `load_data` of src/TASK4.py: the hospital table cleaned as in src/app.py
    but without the status filter, and the district layer dissolved into one
    row per department. Only the DEPARTAMENTO column of the dissolved layer
    is modelled; the merged polygons and the summed attribute columns are not. */
module Task4Loading {
  import opened Collections
  import opened Records
  import opened Grouping
  import opened HospitalTable

  /** The department names of the district layer. */
  function DistrictNames(districts: seq<District>): set<string>
  {
    set d | d in districts && d.departamen.Some? :: d.departamen.value
  }

  /** One pair per named district; the dissolve keeps only the key. */
  function NamePairs(districts: seq<District>): seq<KeyCount>
  {
    if districts == [] then []
    else (if districts[0].departamen.Some? then [KeyCount(districts[0].departamen.value, 0)] else [])
         + NamePairs(districts[1..])
  }

  lemma {:induction false} NamePairsKeys(districts: seq<District>)
    ensures Keys(NamePairs(districts)) == DistrictNames(districts)
  {
    if districts != [] {
      var head := if districts[0].departamen.Some? then [KeyCount(districts[0].departamen.value, 0)] else [];
      NamePairsKeys(districts[1..]);
      assert NamePairs(districts) == head + NamePairs(districts[1..]);
      assert Keys(head + NamePairs(districts[1..])) == Keys(head) + Keys(NamePairs(districts[1..]));
      assert DistrictNames(districts) == DistrictNames(districts[..1]) + DistrictNames(districts[1..]) by {
        assert districts == districts[..1] + districts[1..];
        assert forall d :: d in districts <==> d in districts[..1] || d in districts[1..];
      }
    }
  }

  /** The DEPARTAMENTO column of the districts dissolved by DEPARTAMEN:
      every department name of the district layer once, in ascending order;
      districts without a name form no row. */
  function DissolveNames(districts: seq<District>): (names: seq<string>)
    ensures forall i, j :: 0 <= i < j < |names| ==> StrLess(names[i], names[j])
    ensures forall k :: k in names <==> k in DistrictNames(districts)
  {
    NamePairsKeys(districts);
    var t := GroupSum(NamePairs(districts));
    var names := seq(|t|, i requires 0 <= i < |t| => t[i].key);
    assert forall k :: k in names <==> k in Keys(t) by {
      forall k ensures k in names <==> k in Keys(t) {
        if k in Keys(t) {
          var e :| e in t && e.key == k;
          var i :| 0 <= i < |t| && t[i] == e;
          assert names[i] == k;
        }
      }
    }
    names
  }

  /** Loads the hospital table (the coordinate steps on the frame as read, no
      status filter) and the department names of the dissolved districts. */
  method LoadData(records: seq<IpressRow>, parse: string -> Option<real>, districts: seq<District>)
    returns (hp: seq<Hospital>, peruDptos: seq<string>)
    ensures hp == CleanHospitals(records, parse, false)
    ensures peruDptos == DissolveNames(districts)
  {
    var frame := new HospitalFrame(records);
    frame.AssignCoordinates(parse);
    frame.DropMissingCoordinates();
    frame.KeepLatitudeBetween(MinLatitude, MaxLatitude);
    frame.KeepLongitudeBetween(MinLongitude, MaxLongitude);
    StepsClean(records, parse, false);
    hp := GeoRows(frame.rows);
    peruDptos := DissolveNames(districts);
  }
}
