/**
 * The GML 3.2 element builders (`_create_gml_polygon_element`,
 * `_create_gml_linestring_element`, `_create_gml_point_element`) and a
 * reader for the elements they build.
 */
module Gml {
  import opened Wrappers
  import opened Text
  import opened Geometry
  import opened Xml

  /** The CRS every GML geometry of the request declares. */
  const SrsUrn := "urn:ogc:def:crs:EPSG::4326"

  function SrsAttrs(): map<AttrName, string>
  {
    map[SrsName := SrsUrn]
  }

  /** The tag a GML shape is named after. */
  function KindTag(k: GmlKind): Tag
  {
    match k
    case PolygonKind => GmlPolygon
    case LineStringKind => GmlLineString
    case PointKind => GmlPoint
  }

  /** What a GML geometry element says: its shape and its coordinate text. */
  datatype GmlGeometry = GmlGeometry(kind: GmlKind, coordinates: string)

  /** Reads a GML 3.2 geometry in the EPSG:4326 CRS: a `Polygon` whose
      `exterior` holds one `LinearRing` with one `posList`, a `LineString`
      with one `posList`, or a `Point` with one `pos`. */
  function ReadGml(e: Element): Option<GmlGeometry>
  {
    if e.attrs != SrsAttrs() || e.text.Some? || |e.children| != 1 then None
    else
      var c := e.children[0];
      match e.tag
      case GmlPolygon =>
        if c.tag == GmlExterior && c.attrs == map[] && c.text.None? && |c.children| == 1 then
          var ring := c.children[0];
          if ring.tag == GmlLinearRing && ring.attrs == map[] && ring.text.None? && |ring.children| == 1 then
            ReadLeaf(PolygonKind, ring.children[0], GmlPosList)
          else None
        else None
      case GmlLineString => ReadLeaf(LineStringKind, c, GmlPosList)
      case GmlPoint => ReadLeaf(PointKind, c, GmlPos)
      case _ => None
  }

  function ReadLeaf(k: GmlKind, leaf: Element, tag: Tag): Option<GmlGeometry>
  {
    if leaf.tag == tag && leaf.attrs == map[] && leaf.text.Some? && leaf.children == [] then
      Some(GmlGeometry(k, leaf.text.value))
    else None
  }

  /** `_create_gml_polygon_element`: a `gml:Polygon` with `srsName`, whose
      exterior ring carries the stripped poslist. */
  function CreateGmlPolygonElement(poslist: string): Element
  {
    Element(GmlPolygon, SrsAttrs(), None,
      [Wrap(GmlExterior, Wrap(GmlLinearRing, Leaf(GmlPosList, Strip(poslist))))])
  }

  /** `_create_gml_linestring_element`: a `gml:LineString` with `srsName`
      and one `posList` child carrying the stripped poslist. */
  function CreateGmlLineStringElement(poslist: string): Element
  {
    Element(GmlLineString, SrsAttrs(), None, [Leaf(GmlPosList, Strip(poslist))])
  }

  /** `_create_gml_point_element`: a `gml:Point` with `srsName` and one
      `pos` child carrying the stripped poslist. */
  function CreateGmlPointElement(poslist: string): Element
  {
    Element(GmlPoint, SrsAttrs(), None, [Leaf(GmlPos, Strip(poslist))])
  }

  /** A polygon element reads back as a GML 3.2 polygon in EPSG:4326 whose
      exterior ring holds the stripped poslist. */
  lemma PolygonElementReads(poslist: string)
    ensures CreateGmlPolygonElement(poslist).tag == GmlPolygon
    ensures ReadGml(CreateGmlPolygonElement(poslist)) == Some(GmlGeometry(PolygonKind, Strip(poslist)))
  {
  }

  /** A line element reads back as a GML 3.2 line string in EPSG:4326 whose
      `posList` is the stripped poslist. */
  lemma LineStringElementReads(poslist: string)
    ensures CreateGmlLineStringElement(poslist).tag == GmlLineString
    ensures ReadGml(CreateGmlLineStringElement(poslist)) == Some(GmlGeometry(LineStringKind, Strip(poslist)))
  {
  }

  /** A point element reads back as a GML 3.2 point in EPSG:4326 whose
      `pos` is the stripped poslist. */
  lemma PointElementReads(poslist: string)
    ensures CreateGmlPointElement(poslist).tag == GmlPoint
    ensures ReadGml(CreateGmlPointElement(poslist)) == Some(GmlGeometry(PointKind, Strip(poslist)))
  {
  }

  /** The builder the filter loop picks for a geometry of kind `k`. */
  function GmlElement(k: GmlKind, poslist: string): Element
  {
    match k
    case PolygonKind => CreateGmlPolygonElement(poslist)
    case LineStringKind => CreateGmlLineStringElement(poslist)
    case PointKind => CreateGmlPointElement(poslist)
  }

  /** Whichever builder is picked, its element reads back as the shape of
      kind `k` carrying the stripped poslist. */
  lemma GmlElementReads(k: GmlKind, poslist: string)
    ensures GmlElement(k, poslist).tag == KindTag(k)
    ensures ReadGml(GmlElement(k, poslist)) == Some(GmlGeometry(k, Strip(poslist)))
  {
    match k
    case PolygonKind => PolygonElementReads(poslist);
    case LineStringKind => LineStringElementReads(poslist);
    case PointKind => PointElementReads(poslist);
  }

  /** Every element a builder makes has text only in its leaf, and that
      text is the stripped poslist. */
  lemma GmlElementText(k: GmlKind, poslist: string)
    requires Strip(poslist) != ""
    ensures NoEmptyText(GmlElement(k, poslist))
  {
    var leaf := Leaf(if k == PointKind then GmlPos else GmlPosList, Strip(poslist));
    assert NoEmptyText(leaf);
    if k == PolygonKind {
      assert NoEmptyText(Wrap(GmlLinearRing, leaf));
      assert NoEmptyText(Wrap(GmlExterior, Wrap(GmlLinearRing, leaf)));
    }
  }
}
