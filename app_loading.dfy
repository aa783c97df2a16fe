/** `load_and_prepare_data` of src/app.py: the hospital registry cleaned into
    the hospital point layer. Reading the files is left to the caller; the
    registry rows arrive as `ipress`, the district and population-centre
    layers are returned by the source unchanged and are not repeated here. */
module AppLoading {
  import opened Collections
  import opened Records
  import opened HospitalTable

  /** Keeps the operating rows, parses the coordinates, drops the rows where
      either is missing, keeps the rows inside the envelope and builds the
      points, changing one frame step by step. */
  method LoadAndPrepareData(ipress: seq<IpressRow>, parse: string -> Option<real>) returns (hp: seq<Hospital>)
    ensures hp == CleanHospitals(ipress, parse, true)
  {
    var frame := new HospitalFrame(ipress);
    frame.KeepOperating();
    frame.AssignCoordinates(parse);
    frame.DropMissingCoordinates();
    frame.KeepLatitudeBetween(MinLatitude, MaxLatitude);
    frame.KeepLongitudeBetween(MinLongitude, MaxLongitude);
    StepsClean(ipress, parse, true);
    hp := GeoRows(frame.rows);
  }
}
