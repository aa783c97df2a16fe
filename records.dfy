/** The rows the analysis works on. A cell that pandas reads as missing (NaN)
    is `None`. Geometry is kept only as data that the spatial predicates of
    the analysis receive; it is never computed on. */
module Records {
  import opened Collections

  /** A point geometry as `points_from_xy(x, y)` builds it: x is the longitude,
      y the latitude. */
  datatype Point = Point(x: real, y: real)

  /** One row of the IPRESS hospital registry as read from the CSV file. */
  datatype IpressRow = IpressRow(
    nombre: Option<string>,        // 'Nombre del establecimiento'
    situacion: Option<string>,     // 'Situación', the operational status
    norte: Option<string>,         // 'NORTE', read as the latitude
    este: Option<string>,          // 'ESTE', read as the longitude
    departamento: Option<string>)  // the hospital's department name

  /** A row of `hp_gdf`: the registry row, its parsed LATITUD and LONGITUD
      columns and its point geometry. */
  datatype Hospital = Hospital(record: IpressRow, latitud: real, longitud: real, geometry: Point)

  /** A row of the population-centre layer (`ccpp_gdf`, `pop_gdf`). */
  datatype Center = Center(nomccpp: Option<string>, departamento: Option<string>, geometry: Point)

  /** A row of the district layer: IDDIST, DEPARTAMEN and the polygon's ring. */
  datatype District = District(iddist: Option<string>, departamen: Option<string>, boundary: seq<Point>)

  /** `df['DEPARTAMENTO'] == region_name` on the hospital layer; a missing name matches nothing. */
  function HospitalIn(region: string): Hospital -> bool
  {
    (h: Hospital) => h.record.departamento == Some(region)
  }

  /** `df['DEPARTAMEN'] == region_name` on the population-centre layer. */
  function CenterIn(region: string): Center -> bool
  {
    (c: Center) => c.departamento == Some(region)
  }
}
