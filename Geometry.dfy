/**
 * The study-area geometries the request encoder reads: the six shapely kinds
 * it dispatches on, plus any other kind, which it skips. A shapely
 * `LinearRing` is a `LineString` subclass, so the `isinstance` dispatch
 * treats it as a `LineString`, and so does this model. Coordinates are
 * two-dimensional fixed-point integers (degrees scaled by 10^6), longitude
 * `x`, latitude `y`.
 */
module Geometry {
  import opened Wrappers

  datatype Coord = Coord(x: int, y: int)

  /** A geometry of one row. A polygon is represented by its exterior ring,
      the only ring the encoder reads; a ring keeps its closing vertex. */
  datatype Geometry =
    | Polygon(exterior: seq<Coord>)
    | MultiPolygon(polygons: seq<seq<Coord>>)
    | LineString(coords: seq<Coord>)
    | MultiLineString(lines: seq<seq<Coord>>)
    | Point(at: Coord)
    | MultiPoint(points: seq<Coord>)
    | Unsupported(typeName: string, empty: bool)

  /** A row's geometry column: `None` is a null geometry. */
  type Row = Option<Geometry>

  /** shapely's `is_empty`: a collection is empty when all its parts are. */
  predicate IsEmpty(g: Geometry)
  {
    match g
    case Polygon(ring) => ring == []
    case MultiPolygon(rings) => forall i :: 0 <= i < |rings| ==> rings[i] == []
    case LineString(cs) => cs == []
    case MultiLineString(lines) => forall i :: 0 <= i < |lines| ==> lines[i] == []
    case Point(_) => false
    case MultiPoint(pts) => pts == []
    case Unsupported(_, empty) => empty
  }

  /** The test `geom is None or geom.is_empty` fails: the row is processed. */
  predicate Present(row: Row)
  {
    row.Some? && !IsEmpty(row.value)
  }

  /** The three GML element shapes the encoder produces. */
  datatype GmlKind = PolygonKind | LineStringKind | PointKind

  /** The `isinstance` dispatch: which GML shape a geometry kind gets. */
  function KindOf(g: Geometry): (k: Option<GmlKind>)
    ensures k.None? <==> g.Unsupported?
  {
    match g
    case Polygon(_) => Some(PolygonKind)
    case MultiPolygon(_) => Some(PolygonKind)
    case LineString(_) => Some(LineStringKind)
    case MultiLineString(_) => Some(LineStringKind)
    case Point(_) => Some(PointKind)
    case MultiPoint(_) => Some(PointKind)
    case Unsupported(_, _) => None
  }

  /** The number of member parts: one for a single geometry, `len(geoms)`
      for a collection, none for an unsupported kind. */
  function PartCount(g: Geometry): nat
  {
    match g
    case Polygon(_) => 1
    case MultiPolygon(rings) => |rings|
    case LineString(_) => 1
    case MultiLineString(lines) => |lines|
    case Point(_) => 1
    case MultiPoint(pts) => |pts|
    case Unsupported(_, _) => 0
  }

  /** A present row of a single-part supported kind. */
  predicate SinglePart(row: Row)
  {
    Present(row) && (row.value.Polygon? || row.value.LineString? || row.value.Point?)
  }

  /** The coordinates of a single-part geometry, in vertex order. */
  function SoleCoords(g: Geometry): seq<Coord>
    requires g.Polygon? || g.LineString? || g.Point?
  {
    match g
    case Polygon(ring) => ring
    case LineString(cs) => cs
    case Point(c) => [c]
  }

  /** The member parts in order, each as its vertex sequence (a point part
      is its single vertex). */
  function Parts(g: Geometry): (ps: seq<seq<Coord>>)
    ensures |ps| == PartCount(g)
  {
    match g
    case Polygon(ring) => [ring]
    case MultiPolygon(rings) => rings
    case LineString(cs) => [cs]
    case MultiLineString(lines) => lines
    case Point(c) => [[c]]
    case MultiPoint(pts) => seq(|pts|, i requires 0 <= i < |pts| => [pts[i]])
    case Unsupported(_, _) => []
  }

  /** Every member part has at least one vertex. */
  predicate PartsHaveVertices(g: Geometry)
  {
    forall k :: 0 <= k < |Parts(g)| ==> Parts(g)[k] != []
  }
}
