/** Cleaning of the hospital registry into the hospital point layer.

    Both loaders run the same steps on a data frame that they change in
    place: keep the operating rows (only src/app.py does this), parse NORTE
    and ESTE into LATITUD and LONGITUD (`pd.to_numeric(errors='coerce')`),
    drop the rows where either is missing, keep the rows inside Peru's
    bounding envelope, and build point geometries with x = LONGITUD and
    y = LATITUD. `HospitalFrame` is that data frame; `CleanHospitals` says
    in one row predicate what the steps compute. */
module HospitalTable {
  import opened Collections
  import opened Records

  /** The status literal of an operating hospital, compared exactly. */
  const Operating: string := "EN FUNCIONAMIENTO"

  /** Peru's bounding envelope; `Series.between` includes both ends. */
  const MinLatitude: real := -18.5
  const MaxLatitude: real := 0.0
  const MinLongitude: real := -81.5
  const MaxLongitude: real := -68.5

  /** `pd.to_numeric(cell, errors='coerce')`: a missing cell stays missing and
      a text cell goes through the number parser `parse`, which answers None
      where pandas would coerce to NaN. */
  function ToNumeric(cell: Option<string>, parse: string -> Option<real>): Option<real>
  {
    match cell
    case None => None
    case Some(text) => parse(text)
  }

  /** The whole cleaning as one row predicate: the status is the operating
      literal (when `operatingOnly`), both coordinates parse, and the point
      lies inside the envelope, both ends included. */
  predicate Admissible(r: IpressRow, parse: string -> Option<real>, operatingOnly: bool)
  {
    var lat := ToNumeric(r.norte, parse);
    var lon := ToNumeric(r.este, parse);
    (!operatingOnly || r.situacion == Some(Operating)) &&
    lat.Some? && lon.Some? &&
    MinLatitude <= lat.value <= MaxLatitude &&
    MinLongitude <= lon.value <= MaxLongitude
  }

  function AdmissibleRow(parse: string -> Option<real>, operatingOnly: bool): IpressRow -> bool
  {
    (r: IpressRow) => Admissible(r, parse, operatingOnly)
  }

  /** The hospital point built from an admissible registry row. */
  function ToHospital(r: IpressRow, parse: string -> Option<real>): Hospital
    requires Admissible(r, parse, false)
  {
    var lat := ToNumeric(r.norte, parse).value;
    var lon := ToNumeric(r.este, parse).value;
    Hospital(r, lat, lon, Point(lon, lat))
  }

  function ToHospitals(rows: seq<IpressRow>, parse: string -> Option<real>): seq<Hospital>
    requires forall i :: 0 <= i < |rows| ==> Admissible(rows[i], parse, false)
  {
    if rows == [] then [] else [ToHospital(rows[0], parse)] + ToHospitals(rows[1..], parse)
  }

  /** The registry rows behind a hospital layer. */
  function RecordsOf(hs: seq<Hospital>): seq<IpressRow>
  {
    if hs == [] then [] else [hs[0].record] + RecordsOf(hs[1..])
  }

  /** The cleaned hospital layer: the admissible rows, in registry order, as points. */
  function CleanHospitals(records: seq<IpressRow>, parse: string -> Option<real>, operatingOnly: bool): seq<Hospital>
  {
    ToHospitals(Filter(records, AdmissibleRow(parse, operatingOnly)), parse)
  }

  lemma {:induction false} ToHospitalsAt(rows: seq<IpressRow>, parse: string -> Option<real>, i: int)
    requires forall j :: 0 <= j < |rows| ==> Admissible(rows[j], parse, false)
    requires 0 <= i < |rows|
    ensures |ToHospitals(rows, parse)| == |rows|
    ensures ToHospitals(rows, parse)[i] == ToHospital(rows[i], parse)
  {
    if i > 0 {
      ToHospitalsAt(rows[1..], parse, i - 1);
    } else if |rows| > 1 {
      ToHospitalsAt(rows[1..], parse, 0);
    }
  }

  lemma {:induction false} RecordsOfToHospitals(rows: seq<IpressRow>, parse: string -> Option<real>)
    requires forall j :: 0 <= j < |rows| ==> Admissible(rows[j], parse, false)
    ensures RecordsOf(ToHospitals(rows, parse)) == rows
  {
    if rows != [] {
      RecordsOfToHospitals(rows[1..], parse);
      assert ToHospitals(rows, parse)[1..] == ToHospitals(rows[1..], parse);
    }
  }

  /** The registry rows behind the cleaned layer are exactly the admissible
      rows, in their original order. */
  lemma CleanRecords(records: seq<IpressRow>, parse: string -> Option<real>, operatingOnly: bool)
    ensures RecordsOf(CleanHospitals(records, parse, operatingOnly))
         == Filter(records, AdmissibleRow(parse, operatingOnly))
  {
    RecordsOfToHospitals(Filter(records, AdmissibleRow(parse, operatingOnly)), parse);
  }

  /** No admissible row is dropped and every kept row is admissible. */
  lemma CleanKeepsExactlyAdmissible(records: seq<IpressRow>, parse: string -> Option<real>, operatingOnly: bool, r: IpressRow)
    ensures r in RecordsOf(CleanHospitals(records, parse, operatingOnly))
        <==> r in records && Admissible(r, parse, operatingOnly)
  {
    CleanRecords(records, parse, operatingOnly);
  }

  /** The cleaning keeps the registry order. */
  lemma CleanKeepsOrder(records: seq<IpressRow>, parse: string -> Option<real>, operatingOnly: bool)
    ensures IsSubsequence(RecordsOf(CleanHospitals(records, parse, operatingOnly)), records)
  {
    CleanRecords(records, parse, operatingOnly);
    FilterIsSubsequence(records, AdmissibleRow(parse, operatingOnly));
  }

  /** Cleaning the cleaned rows again changes nothing. */
  lemma CleanIdempotent(records: seq<IpressRow>, parse: string -> Option<real>, operatingOnly: bool)
    ensures var once := CleanHospitals(records, parse, operatingOnly);
            CleanHospitals(RecordsOf(once), parse, operatingOnly) == once
  {
    CleanRecords(records, parse, operatingOnly);
    FilterIdempotent(records, AdmissibleRow(parse, operatingOnly));
  }

  /** Every hospital of the cleaned layer is inside the envelope, took its
      latitude from NORTE and its longitude from ESTE, sits at the point
      (x, y) = (LONGITUD, LATITUD), and is operating when that was asked for. */
  lemma CleanHospitalFields(records: seq<IpressRow>, parse: string -> Option<real>, operatingOnly: bool, i: int)
    requires 0 <= i < |CleanHospitals(records, parse, operatingOnly)|
    ensures var h := CleanHospitals(records, parse, operatingOnly)[i];
            && MinLatitude <= h.latitud <= MaxLatitude
            && MinLongitude <= h.longitud <= MaxLongitude
            && ToNumeric(h.record.norte, parse) == Some(h.latitud)
            && ToNumeric(h.record.este, parse) == Some(h.longitud)
            && h.geometry == Point(h.longitud, h.latitud)
            && (operatingOnly ==> h.record.situacion == Some(Operating))
  {
    var rows := Filter(records, AdmissibleRow(parse, operatingOnly));
    assert forall j :: 0 <= j < |rows| ==> Admissible(rows[j], parse, operatingOnly);
    FilterCount(records, AdmissibleRow(parse, operatingOnly));
    ToHospitalsAt(rows, parse, 0);
    ToHospitalsAt(rows, parse, i);
  }

  /** The operating-only cleaning (src/app.py) keeps exactly the operating rows
      of the cleaning without a status test (src/TASK4.py). */
  lemma OperatingCleaningRefines(records: seq<IpressRow>, parse: string -> Option<real>, r: IpressRow)
    ensures r in RecordsOf(CleanHospitals(records, parse, true))
        <==> r in RecordsOf(CleanHospitals(records, parse, false)) && r.situacion == Some(Operating)
  {
    CleanRecords(records, parse, true);
    CleanRecords(records, parse, false);
  }

  // ---------------------------------------------------------------------
  // The data frame the loaders change step by step.

  /** A row of the frame being cleaned: the registry row and its LATITUD and
      LONGITUD cells, missing until they are parsed. */
  datatype FrameRow = FrameRow(record: IpressRow, latitud: Option<real>, longitud: Option<real>)

  function Unparsed(records: seq<IpressRow>): (rows: seq<FrameRow>)
  {
    if records == [] then [] else [FrameRow(records[0], None, None)] + Unparsed(records[1..])
  }

  predicate IsOperating(r: FrameRow)
  {
    r.record.situacion == Some(Operating)
  }

  /** LATITUD from NORTE, LONGITUD from ESTE. */
  function WithCoordinates(rows: seq<FrameRow>, parse: string -> Option<real>): seq<FrameRow>
  {
    if rows == [] then []
    else [FrameRow(rows[0].record, ToNumeric(rows[0].record.norte, parse), ToNumeric(rows[0].record.este, parse))]
         + WithCoordinates(rows[1..], parse)
  }

  predicate HasCoordinates(r: FrameRow)
  {
    r.latitud.Some? && r.longitud.Some?
  }

  /** The latitude lies in [lo, hi]; a missing value lies in no interval. */
  function LatitudeBetween(lo: real, hi: real): FrameRow -> bool
  {
    (r: FrameRow) => r.latitud.Some? && lo <= r.latitud.value <= hi
  }

  function LongitudeBetween(lo: real, hi: real): FrameRow -> bool
  {
    (r: FrameRow) => r.longitud.Some? && lo <= r.longitud.value <= hi
  }

  /** The point layer built from the cleaned frame, x = LONGITUD, y = LATITUD. */
  function GeoRows(rows: seq<FrameRow>): seq<Hospital>
    requires forall i :: 0 <= i < |rows| ==> HasCoordinates(rows[i])
  {
    if rows == [] then []
    else
      var r := rows[0];
      assert HasCoordinates(r);
      [Hospital(r.record, r.latitud.value, r.longitud.value, Point(r.longitud.value, r.latitud.value))]
      + GeoRows(rows[1..])
  }

  class HospitalFrame {
    var rows: seq<FrameRow>

    /** The frame of the registry rows, before any column is added. */
    constructor (records: seq<IpressRow>)
      ensures rows == Unparsed(records)
    {
      rows := Unparsed(records);
    }

    /** Keeps the rows whose status is exactly the operating literal. */
    method KeepOperating()
      modifies this
      ensures rows == Filter(old(rows), IsOperating)
    {
      rows := Filter(rows, IsOperating);
    }

    /** Adds LATITUD parsed from NORTE and LONGITUD parsed from ESTE, missing
        where the text does not parse. */
    method AssignCoordinates(parse: string -> Option<real>)
      modifies this
      ensures rows == WithCoordinates(old(rows), parse)
    {
      rows := WithCoordinates(rows, parse);
    }

    /** Drops, in place, the rows where either parsed coordinate is missing. */
    method DropMissingCoordinates()
      modifies this
      ensures rows == Filter(old(rows), HasCoordinates)
    {
      rows := Filter(rows, HasCoordinates);
    }

    /** Keeps the rows whose latitude lies in [lo, hi]. */
    method KeepLatitudeBetween(lo: real, hi: real)
      modifies this
      ensures rows == Filter(old(rows), LatitudeBetween(lo, hi))
    {
      rows := Filter(rows, LatitudeBetween(lo, hi));
    }

    /** Keeps the rows whose longitude lies in [lo, hi]. */
    method KeepLongitudeBetween(lo: real, hi: real)
      modifies this
      ensures rows == Filter(old(rows), LongitudeBetween(lo, hi))
    {
      rows := Filter(rows, LongitudeBetween(lo, hi));
    }
  }

  // ---------------------------------------------------------------------
  // The steps compose to the one-predicate cleaning.

  /** The steps after the status filter, as the loaders run them. */
  function CoordinateSteps(rows: seq<FrameRow>, parse: string -> Option<real>): seq<FrameRow>
  {
    Filter(Filter(Filter(WithCoordinates(rows, parse), HasCoordinates),
                  LatitudeBetween(MinLatitude, MaxLatitude)),
           LongitudeBetween(MinLongitude, MaxLongitude))
  }

  /** The frame the coordinate steps start from. */
  function StartFrame(records: seq<IpressRow>, operatingOnly: bool): seq<FrameRow>
  {
    if operatingOnly then Filter(Unparsed(records), IsOperating) else Unparsed(records)
  }

  lemma {:induction false} WithCoordinatesConcat(a: seq<FrameRow>, b: seq<FrameRow>, parse: string -> Option<real>)
    ensures WithCoordinates(a + b, parse) == WithCoordinates(a, parse) + WithCoordinates(b, parse)
  {
    if a == [] {
      assert a + b == b;
    } else {
      assert (a + b)[0] == a[0];
      assert (a + b)[1..] == a[1..] + b;
      WithCoordinatesConcat(a[1..], b, parse);
    }
  }

  lemma {:induction false} GeoRowsConcat(a: seq<FrameRow>, b: seq<FrameRow>)
    requires forall i :: 0 <= i < |a| ==> HasCoordinates(a[i])
    requires forall i :: 0 <= i < |b| ==> HasCoordinates(b[i])
    ensures forall i :: 0 <= i < |a + b| ==> HasCoordinates((a + b)[i])
    ensures GeoRows(a + b) == GeoRows(a) + GeoRows(b)
  {
    if a == [] {
      assert a + b == b;
    } else {
      assert (a + b)[0] == a[0];
      assert (a + b)[1..] == a[1..] + b;
      GeoRowsConcat(a[1..], b);
    }
  }

  lemma {:induction false} CoordinateStepsConcat(a: seq<FrameRow>, b: seq<FrameRow>, parse: string -> Option<real>)
    ensures CoordinateSteps(a + b, parse) == CoordinateSteps(a, parse) + CoordinateSteps(b, parse)
  {
    WithCoordinatesConcat(a, b, parse);
    var w1, w2 := WithCoordinates(a, parse), WithCoordinates(b, parse);
    FilterConcat(w1, w2, HasCoordinates);
    var h1, h2 := Filter(w1, HasCoordinates), Filter(w2, HasCoordinates);
    FilterConcat(h1, h2, LatitudeBetween(MinLatitude, MaxLatitude));
    var l1, l2 := Filter(h1, LatitudeBetween(MinLatitude, MaxLatitude)), Filter(h2, LatitudeBetween(MinLatitude, MaxLatitude));
    FilterConcat(l1, l2, LongitudeBetween(MinLongitude, MaxLongitude));
  }

  lemma StartFrameCons(records: seq<IpressRow>, operatingOnly: bool)
    requires records != []
    ensures StartFrame(records, operatingOnly)
         == StartFrame([records[0]], operatingOnly) + StartFrame(records[1..], operatingOnly)
  {
    var fr := FrameRow(records[0], None, None);
    assert Unparsed(records) == [fr] + Unparsed(records[1..]);
    assert Unparsed([records[0]]) == [fr];
    if operatingOnly {
      FilterConcat([fr], Unparsed(records[1..]), IsOperating);
    }
  }

  /** The loader's steps on one registry row. */
  lemma StepsOne(r: IpressRow, parse: string -> Option<real>, operatingOnly: bool)
    ensures var out := CoordinateSteps(StartFrame([r], operatingOnly), parse);
            && (forall i :: 0 <= i < |out| ==> HasCoordinates(out[i]))
            && GeoRows(out) == CleanHospitals([r], parse, operatingOnly)
  {
    var fr := FrameRow(r, None, None);
    assert Unparsed([r]) == [fr];
    var start := StartFrame([r], operatingOnly);
    assert start == if !operatingOnly || IsOperating(fr) then [fr] else [];
    var parsed := FrameRow(r, ToNumeric(r.norte, parse), ToNumeric(r.este, parse));
    assert WithCoordinates([fr], parse) == [parsed];
    var P := AdmissibleRow(parse, operatingOnly);
    assert Filter([r], P) == if P(r) then [r] else [];
    if P(r) {
      assert CoordinateSteps(start, parse) == [parsed];
      assert GeoRows([parsed]) == [ToHospital(r, parse)];
      assert ToHospitals([r], parse) == [ToHospital(r, parse)];
    } else {
      assert CoordinateSteps(start, parse) == [];
    }
  }

  /** The coordinate steps on the frame built from `records`. */
  function Steps(records: seq<IpressRow>, parse: string -> Option<real>, operatingOnly: bool): seq<FrameRow>
  {
    CoordinateSteps(StartFrame(records, operatingOnly), parse)
  }

  /** The steps on the registry split into the steps on its first row and on
      the rest. */
  lemma StepsCons(records: seq<IpressRow>, parse: string -> Option<real>, operatingOnly: bool)
    requires records != []
    requires forall i :: 0 <= i < |Steps(records[..1], parse, operatingOnly)| ==> HasCoordinates(Steps(records[..1], parse, operatingOnly)[i])
    requires forall i :: 0 <= i < |Steps(records[1..], parse, operatingOnly)| ==> HasCoordinates(Steps(records[1..], parse, operatingOnly)[i])
    ensures forall i :: 0 <= i < |Steps(records, parse, operatingOnly)| ==> HasCoordinates(Steps(records, parse, operatingOnly)[i])
    ensures GeoRows(Steps(records, parse, operatingOnly))
         == GeoRows(Steps(records[..1], parse, operatingOnly)) + GeoRows(Steps(records[1..], parse, operatingOnly))
  {
    StartFrameCons(records, operatingOnly);
    assert [records[0]] == records[..1];
    var head, tail := StartFrame(records[..1], operatingOnly), StartFrame(records[1..], operatingOnly);
    CoordinateStepsConcat(head, tail, parse);
    GeoRowsConcat(CoordinateSteps(head, parse), CoordinateSteps(tail, parse));
  }

  /** The cleaned layer of the registry split likewise. */
  lemma CleanHospitalsCons(records: seq<IpressRow>, parse: string -> Option<real>, operatingOnly: bool)
    requires records != []
    ensures CleanHospitals(records, parse, operatingOnly)
         == CleanHospitals(records[..1], parse, operatingOnly) + CleanHospitals(records[1..], parse, operatingOnly)
  {
    var P := AdmissibleRow(parse, operatingOnly);
    assert records == records[..1] + records[1..];
    FilterConcat(records[..1], records[1..], P);
    ToHospitalsConcat(Filter(records[..1], P), Filter(records[1..], P), parse);
  }

  /** Running the loader's steps on the registry gives the cleaned layer. */
  lemma {:induction false} StepsClean(records: seq<IpressRow>, parse: string -> Option<real>, operatingOnly: bool)
    ensures forall i :: 0 <= i < |Steps(records, parse, operatingOnly)| ==> HasCoordinates(Steps(records, parse, operatingOnly)[i])
    ensures GeoRows(Steps(records, parse, operatingOnly)) == CleanHospitals(records, parse, operatingOnly)
  {
    if records != [] {
      StepsClean(records[1..], parse, operatingOnly);
      assert records[..1] == [records[0]];
      StepsOne(records[0], parse, operatingOnly);
      StepsCons(records, parse, operatingOnly);
      CleanHospitalsCons(records, parse, operatingOnly);
    }
  }

  lemma {:induction false} ToHospitalsConcat(a: seq<IpressRow>, b: seq<IpressRow>, parse: string -> Option<real>)
    requires forall i :: 0 <= i < |a| ==> Admissible(a[i], parse, false)
    requires forall i :: 0 <= i < |b| ==> Admissible(b[i], parse, false)
    ensures forall i :: 0 <= i < |a + b| ==> Admissible((a + b)[i], parse, false)
    ensures ToHospitals(a + b, parse) == ToHospitals(a, parse) + ToHospitals(b, parse)
  {
    if a == [] {
      assert a + b == b;
    } else {
      assert (a + b)[0] == a[0];
      assert (a + b)[1..] == a[1..] + b;
      ToHospitalsConcat(a[1..], b, parse);
    }
  }
}
