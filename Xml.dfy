/**
 * The element tree that `xml.etree.ElementTree` builds: a qualified tag, an
 * attribute map, optional text and the ordered children. Byte serialisation
 * is not modelled; what `ET.tostring` followed by `ET.fromstring` does to a
 * tree is `Reparse`.
 */
module Xml {
  import opened Wrappers

  /** The element tags the request uses. ElementTree names each by
      `ET.QName(uri, local)`, i.e. `{uri}local`; `Uri` and `LocalName` give
      the two halves. */
  datatype Tag =
    | FesFilter | FesOr | FesIntersects | FesValueReference
    | GmlPolygon | GmlExterior | GmlLinearRing | GmlPosList | GmlLineString | GmlPoint | GmlPos
    | WfsGetFeature | WfsQuery

  /** The attribute names the request uses; all are plain names except the
      `xsi`-qualified `schemaLocation`. */
  datatype AttrName = SrsName | Service | Version | SchemaLocation | TypeNames | Nsmap

  const FesUri := "http://www.opengis.net/fes/2.0"
  const GmlUri := "http://www.opengis.net/gml/3.2"
  const WfsUri := "http://www.opengis.net/wfs/2.0"
  const XsiUri := "http://www.w3.org/2001/XMLSchema-instance"

  function Uri(t: Tag): string
  {
    match t
    case FesFilter | FesOr | FesIntersects | FesValueReference => FesUri
    case GmlPolygon | GmlExterior | GmlLinearRing | GmlPosList | GmlLineString | GmlPoint | GmlPos => GmlUri
    case WfsGetFeature | WfsQuery => WfsUri
  }

  function LocalName(t: Tag): string
  {
    match t
    case FesFilter => "Filter"
    case FesOr => "Or"
    case FesIntersects => "Intersects"
    case FesValueReference => "ValueReference"
    case GmlPolygon => "Polygon"
    case GmlExterior => "exterior"
    case GmlLinearRing => "LinearRing"
    case GmlPosList => "posList"
    case GmlLineString => "LineString"
    case GmlPoint => "Point"
    case GmlPos => "pos"
    case WfsGetFeature => "GetFeature"
    case WfsQuery => "Query"
  }

  /** The attribute's namespace URI (empty for a plain name) and local name. */
  function AttrQName(a: AttrName): (string, string)
  {
    match a
    case SrsName => ("", "srsName")
    case Service => ("", "service")
    case Version => ("", "version")
    case SchemaLocation => (XsiUri, "schemaLocation")
    case TypeNames => ("", "typeNames")
    case Nsmap => ("", "nsmap")
  }

  datatype Element = Element(tag: Tag, attrs: map<AttrName, string>, text: Option<string>, children: seq<Element>)

  function Leaf(tag: Tag, text: string): Element
  {
    Element(tag, map[], Some(text), [])
  }

  function Wrap(tag: Tag, child: Element): Element
  {
    Element(tag, map[], None, [child])
  }

  /** `ET.fromstring(ET.tostring(e))`: serialisation writes no characters
      for an empty text, so parsing gives the text back as `None`;
      everything else survives. The parse error on characters XML forbids
      is not modelled. */
  function Reparse(e: Element): Element
  {
    Element(e.tag, e.attrs, if e.text == Some("") then None else e.text,
            seq(|e.children|, i requires 0 <= i < |e.children| => Reparse(e.children[i])))
  }

  /** No element of the tree has an empty text. */
  predicate NoEmptyText(e: Element)
  {
    e.text != Some("") && forall i :: 0 <= i < |e.children| ==> NoEmptyText(e.children[i])
  }

  /** The round trip keeps every name, every attribute and every non-empty
      text, the shape of the tree included. */
  lemma {:induction false} ReparseKeepsShape(e: Element)
    ensures Reparse(e).tag == e.tag && Reparse(e).attrs == e.attrs
    ensures |Reparse(e).children| == |e.children|
    ensures e.text != Some("") ==> Reparse(e).text == e.text
    ensures e.text == Some("") ==> Reparse(e).text == None
    ensures forall i :: 0 <= i < |e.children| ==> Reparse(e).children[i] == Reparse(e.children[i])
  {
  }

  /** The round trip is the identity exactly on the trees without an empty
      text. */
  lemma {:induction false} ReparseIdentity(e: Element)
    ensures Reparse(e) == e <==> NoEmptyText(e)
    decreases e
  {
    if NoEmptyText(e) {
      forall i | 0 <= i < |e.children|
        ensures Reparse(e).children[i] == e.children[i]
      {
        ReparseIdentity(e.children[i]);
      }
      assert Reparse(e).children == e.children;
    } else if e.text != Some("") {
      var i :| 0 <= i < |e.children| && !NoEmptyText(e.children[i]);
      ReparseIdentity(e.children[i]);
      assert Reparse(e).children[i] != e.children[i];
    }
  }
}
