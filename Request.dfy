/**
 * The WFS 2.0 GetFeature envelope (`data_to_post`): a `wfs:GetFeature`
 * holding one `wfs:Query` for the layer, which holds the filter after its
 * trip through `ET.tostring` and `ET.fromstring`.
 */
module Request {
  import opened Wrappers
  import opened Text
  import opened Geometry
  import opened Xml
  import opened Filter

  const SchemaLocationText := "http://www.opengis.net/wfs/2.0 http://schemas.opengis.net/wfs/2.0/wfs.xsd"

  /** The query's CRS, in the short form the WFS query takes. */
  const QuerySrs := "EPSG:4326"

  function GetFeatureAttrs(): map<AttrName, string>
  {
    map[Service := "WFS", Version := "2.0.0", SchemaLocation := SchemaLocationText]
  }

  function QueryAttrs(layerName: string): map<AttrName, string>
  {
    map[TypeNames := layerName, SrsName := QuerySrs]
  }

  /** The envelope around a filter tree. */
  function Envelope(layerName: string, filter: Element): Element
  {
    Element(WfsGetFeature, GetFeatureAttrs(), None,
      [Element(WfsQuery, QueryAttrs(layerName), None, [filter])])
  }

  /** What a GetFeature request asks for: one layer, through one filter. */
  datatype Query = Query(layerName: string, filter: Element)

  /** Reads a WFS 2.0 GetFeature request with exactly one `wfs:Query` that
      names its layer and the EPSG:4326 CRS and holds exactly one filter. */
  function ReadGetFeature(e: Element): Option<Query>
  {
    if e.tag != WfsGetFeature || e.attrs != GetFeatureAttrs() || e.text.Some? || |e.children| != 1 then None
    else
      var q := e.children[0];
      if q.tag == WfsQuery && q.attrs.Keys == {TypeNames, SrsName} && q.attrs[SrsName] == QuerySrs
        && q.text.None? && |q.children| == 1
      then Some(Query(q.attrs[TypeNames], q.children[0]))
      else None
  }

  /** The request body `data_to_post` builds for the rows, as a tree. */
  function PostBody(rows: seq<Row>, layerName: string, layerGeometry: string): Element
  {
    Envelope(layerName, Reparse(FilterTree(layerGeometry, rows)))
  }

  /** `data_to_post`: build the envelope, build the filter, send it through
      text and back, and put it under the query. */
  method DataToPost(rows: seq<Row>, layerName: string, layerGeometry: string) returns (data: Element)
    ensures data == PostBody(rows, layerName, layerGeometry)
    ensures ReadGetFeature(data) == Some(Query(layerName, Reparse(FilterTree(layerGeometry, rows))))
  {
    var filter := CreatingXmlFilter(layerGeometry, rows);
    var parsed := Reparse(filter);
    var query := Element(WfsQuery, QueryAttrs(layerName), None, [parsed]);
    data := Element(WfsGetFeature, GetFeatureAttrs(), None, [query]);
    EnvelopeReads(layerName, parsed);
  }

  /** The envelope reads back as a query for the layer through the filter,
      whatever the layer name and the filter. */
  lemma EnvelopeReads(layerName: string, filter: Element)
    ensures ReadGetFeature(Envelope(layerName, filter)) == Some(Query(layerName, filter))
  {
    assert QueryAttrs(layerName).Keys == {TypeNames, SrsName};
  }

  /** When the geometry field name is not blank and every part has vertices,
      the posted query carries exactly the filter tree the builder made: the
      trip through text loses nothing. */
  lemma PostBodyCarriesFilter(rows: seq<Row>, layerName: string, layerGeometry: string)
    requires Strip(layerGeometry) != ""
    requires forall i :: 0 <= i < |rows| && Present(rows[i]) ==> PartsHaveVertices(rows[i].value)
    ensures ReadGetFeature(PostBody(rows, layerName, layerGeometry))
      == Some(Query(layerName, FilterTree(layerGeometry, rows)))
  {
    FilterSurvivesReparse(layerGeometry, rows);
    EnvelopeReads(layerName, FilterTree(layerGeometry, rows));
  }

  /** A blank geometry field name gives an empty `ValueReference` text,
      which the trip through text turns into no text at all: then the
      posted filter is not the tree the builder made, as soon as one
      `Intersects` was built. */
  lemma BlankGeometryKeyLostInTransit(layerName: string, layerGeometry: string, g: Geometry)
    requires Strip(layerGeometry) == "" && SinglePart(Some(g))
    ensures ReadGetFeature(PostBody([Some(g)], layerName, layerGeometry)).value.filter
      != FilterTree(layerGeometry, [Some(g)])
  {
    var rows := [Some(g)];
    var f := FilterTree(layerGeometry, rows);
    EnvelopeReads(layerName, Reparse(f));
    FilterOfSingleParts(layerGeometry, rows);
    var vr := f.children[0].children[0].children[0];
    assert vr == ValueReference(layerGeometry) && vr.text == Some("");
    assert !NoEmptyText(f.children[0].children[0]);
    assert !NoEmptyText(f.children[0]);
    ReparseIdentity(f);
  }
}
