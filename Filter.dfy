/**
 * The FES 2.0 filter builder (`creating_xml_filter`): one `fes:Filter`
 * holding one `fes:Or`, with one `fes:Intersects` per pair of
 * `zip(poslists, geodataframe.geometry)` whose geometry is present.
 *
 * The pairing is positional and truncates to the shorter list: there is
 * one poslist per member part of a present supported row, but one geometry
 * per row. Only when every row is present and single-part do the two lists
 * line up (`FilterOfSingleParts`); otherwise poslists end up under the
 * wrong rows (`MultiPartShiftsPairing`, `NullRowShiftsPairing`,
 * `UnsupportedRowShiftsPairing`).
 */
module Filter {
  import opened Wrappers
  import opened Text
  import opened Geometry
  import opened PosList
  import opened Xml
  import opened Gml

  /** `ET.Element(..., nsmap=namespaces)`: ElementTree takes the keyword as
      an ordinary attribute named `nsmap`, and serialisation writes the
      dictionary's `str()`. */
  const NsmapText := "{'fes': 'http://www.opengis.net/fes/2.0', 'gml': 'http://www.opengis.net/gml/3.2'}"

  function FilterAttrs(): map<AttrName, string>
  {
    map[Nsmap := NsmapText]
  }

  function Min(a: nat, b: nat): nat
  {
    if a <= b then a else b
  }

  /** The `fes:ValueReference` naming the layer's geometry field. */
  function ValueReference(layerGeometry: string): Element
  {
    Leaf(FesValueReference, Strip(layerGeometry))
  }

  /** The `fes:Intersects` made for one zip pair whose geometry is present.
      It is created before the kind is looked at, so an unsupported kind
      leaves it holding only the `ValueReference`. */
  function IntersectsFor(layerGeometry: string, poslist: string, g: Geometry): (e: Element)
    ensures e.tag == FesIntersects && e.attrs == map[] && e.text.None?
    ensures |e.children| == (if g.Unsupported? then 1 else 2)
    ensures e.children[0] == ValueReference(layerGeometry)
  {
    var gml := match KindOf(g)
      case Some(k) => [GmlElement(k, poslist)]
      case None => [];
    Element(FesIntersects, map[], None, [ValueReference(layerGeometry)] + gml)
  }

  /** The second child of an `Intersects` for a supported kind is the GML
      shape of that kind carrying the stripped poslist. */
  lemma IntersectsGml(layerGeometry: string, poslist: string, g: Geometry)
    requires !g.Unsupported?
    ensures ReadGml(IntersectsFor(layerGeometry, poslist, g).children[1]) == Some(GmlGeometry(KindOf(g).value, Strip(poslist)))
  {
    GmlElementReads(KindOf(g).value, poslist);
  }

  /** The number of present rows among the first `n`. */
  function PresentCount(rows: seq<Row>, n: nat): (c: nat)
    requires n <= |rows|
    ensures c <= n
  {
    if n == 0 then 0 else PresentCount(rows, n - 1) + (if Present(rows[n - 1]) then 1 else 0)
  }

  /** The children of `fes:Or` after the first `n` zip pairs. */
  function OrChildren(layerGeometry: string, poslists: seq<string>, rows: seq<Row>, n: nat): (cs: seq<Element>)
    requires n <= |poslists| && n <= |rows|
    ensures |cs| == PresentCount(rows, n)
  {
    if n == 0 then []
    else
      OrChildren(layerGeometry, poslists, rows, n - 1)
      + (if Present(rows[n - 1]) then [IntersectsFor(layerGeometry, poslists[n - 1], rows[n - 1].value)] else [])
  }

  /** The tree `creating_xml_filter` builds. */
  function FilterTree(layerGeometry: string, rows: seq<Row>): Element
  {
    var poslists := PosListsOf(rows);
    Element(FesFilter, FilterAttrs(), None,
      [Element(FesOr, map[], None, OrChildren(layerGeometry, poslists, rows, Min(|poslists|, |rows|)))])
  }

  /** `creating_xml_filter`: extract the poslists, then walk the zip pairs,
      adding an `Intersects` under `Or` for each present geometry. */
  method CreatingXmlFilter(layerGeometry: string, rows: seq<Row>) returns (filter: Element)
    ensures filter == FilterTree(layerGeometry, rows)
  {
    var poslists := GetPosListsFromGdf(rows);
    var orChildren: seq<Element> := [];
    var idx := 0;
    while idx < |poslists| && idx < |rows|
      invariant 0 <= idx <= |poslists| && idx <= |rows|
      invariant orChildren == OrChildren(layerGeometry, poslists, rows, idx)
    {
      var poslist, geom := poslists[idx], rows[idx];
      if geom.Some? && !IsEmpty(geom.value) {
        var g := geom.value;
        var intersectsChildren := [ValueReference(layerGeometry)];
        if g.Polygon? || g.MultiPolygon? {
          intersectsChildren := intersectsChildren + [CreateGmlPolygonElement(poslist)];
        } else if g.LineString? || g.MultiLineString? {
          intersectsChildren := intersectsChildren + [CreateGmlLineStringElement(poslist)];
        } else if g.Point? || g.MultiPoint? {
          intersectsChildren := intersectsChildren + [CreateGmlPointElement(poslist)];
        }
        assert Element(FesIntersects, map[], None, intersectsChildren) == IntersectsFor(layerGeometry, poslist, g);
        orChildren := orChildren + [Element(FesIntersects, map[], None, intersectsChildren)];
      }
      idx := idx + 1;
    }
    filter := Element(FesFilter, FilterAttrs(), None, [Element(FesOr, map[], None, orChildren)]);
  }

  /** Every `Intersects` comes from a zip pair whose geometry is present. */
  lemma {:induction false} OrChildFromPair(layerGeometry: string, poslists: seq<string>, rows: seq<Row>, n: nat, c: nat)
    requires n <= |poslists| && n <= |rows|
    requires c < |OrChildren(layerGeometry, poslists, rows, n)|
    ensures exists j :: (0 <= j < n && Present(rows[j])
      && OrChildren(layerGeometry, poslists, rows, n)[c] == IntersectsFor(layerGeometry, poslists[j], rows[j].value))
    decreases n
  {
    var before := OrChildren(layerGeometry, poslists, rows, n - 1);
    if c < |before| {
      OrChildFromPair(layerGeometry, poslists, rows, n - 1, c);
    } else {
      assert OrChildren(layerGeometry, poslists, rows, n)[c]
        == IntersectsFor(layerGeometry, poslists[n - 1], rows[n - 1].value);
    }
  }

  /** The filter's shape: `fes:Filter` holding exactly one `fes:Or`, whose
      children are `Intersects` elements, each starting with the layer's
      `ValueReference`; one per present row among the zip pairs, so never
      more than the shorter of the two zipped lists. */
  lemma FilterShape(layerGeometry: string, rows: seq<Row>)
    ensures var f := FilterTree(layerGeometry, rows);
      && f.tag == FesFilter && f.attrs == FilterAttrs() && f.text.None?
      && |f.children| == 1
      && f.children[0].tag == FesOr && f.children[0].attrs == map[] && f.children[0].text.None?
    ensures var ors := FilterTree(layerGeometry, rows).children[0].children;
      var n := Min(|PosListsOf(rows)|, |rows|);
      && |ors| == PresentCount(rows, n) <= n
      && forall c :: 0 <= c < |ors| ==>
           ors[c].tag == FesIntersects && ors[c].children != []
           && ors[c].children[0] == ValueReference(layerGeometry)
  {
    var poslists := PosListsOf(rows);
    var n := Min(|poslists|, |rows|);
    var ors := OrChildren(layerGeometry, poslists, rows, n);
    forall c | 0 <= c < |ors|
      ensures ors[c].tag == FesIntersects && ors[c].children != []
        && ors[c].children[0] == ValueReference(layerGeometry)
    {
      OrChildFromPair(layerGeometry, poslists, rows, n, c);
    }
  }

  lemma {:induction false} AllPresentOrChildren(layerGeometry: string, poslists: seq<string>, rows: seq<Row>, n: nat)
    requires n <= |poslists| && n <= |rows|
    requires forall i :: 0 <= i < n ==> Present(rows[i])
    ensures |OrChildren(layerGeometry, poslists, rows, n)| == n
    ensures forall i :: 0 <= i < n ==>
      rows[i].Some? && OrChildren(layerGeometry, poslists, rows, n)[i] == IntersectsFor(layerGeometry, poslists[i], rows[i].value)
    decreases n
  {
    if n > 0 {
      AllPresentOrChildren(layerGeometry, poslists, rows, n - 1);
    }
  }

  /** When every row is present and single-part, the filter holds exactly
      one `Intersects` per row, in row order, and each carries that row's
      own vertices. */
  lemma FilterOfSingleParts(layerGeometry: string, rows: seq<Row>)
    requires forall i :: 0 <= i < |rows| ==> SinglePart(rows[i])
    ensures var ors := FilterTree(layerGeometry, rows).children[0].children;
      && |ors| == |rows|
      && forall i :: 0 <= i < |rows| ==>
           SinglePart(rows[i]) && ors[i] == IntersectsFor(layerGeometry, PosListText(SoleCoords(rows[i].value)), rows[i].value)
  {
    SinglePartTexts(rows, PosListText);
    AllPresentOrChildren(layerGeometry, PosListsOf(rows), rows, |rows|);
  }

  /** The `Intersects` for a single-part row: the layer's `ValueReference`,
      then the GML shape of the row's kind, whose coordinate text reads back
      as exactly the row's vertices. */
  lemma SinglePartIntersects(layerGeometry: string, g: Geometry)
    requires SinglePart(Some(g))
    ensures var e := IntersectsFor(layerGeometry, PosListText(SoleCoords(g)), g);
      && |e.children| == 2
      && e.children[0] == ValueReference(layerGeometry)
      && var read := ReadGml(e.children[1]);
         && read.Some? && read.value.kind == KindOf(g).value
         && ParsePosList(read.value.coordinates) == Some(SoleCoords(g))
  {
    var cs := SoleCoords(g);
    IntersectsGml(layerGeometry, PosListText(cs), g);
    PosListEnds(cs);
    StripUnchanged(PosListText(cs));
    PosListRoundTrip(cs);
  }

  /** The pairing quirk for a multi-part row: with a two-part MultiPolygon
      followed by a Point, the Point is paired with the polygon's second
      part and its own coordinates are never sent. */
  lemma MultiPartShiftsPairing(layerGeometry: string, ring1: seq<Coord>, ring2: seq<Coord>, p: Coord)
    requires ring1 != []
    ensures var rows := [Some(MultiPolygon([ring1, ring2])), Some(Point(p))];
      FilterTree(layerGeometry, rows).children[0].children
        == [IntersectsFor(layerGeometry, PosListText(ring1), MultiPolygon([ring1, ring2])),
            IntersectsFor(layerGeometry, PosListText(ring2), Point(p))]
  {
    var rows: seq<Row> := [Some(MultiPolygon([ring1, ring2])), Some(Point(p))];
    assert rows[..0] == [] && rows[..1] == [rows[0]] && rows[..1][..0] == [];
    assert [ring1, ring2][0] != [];
    assert TotalParts(rows[..1]) == 2;
    assert TotalParts(rows) == 3;
    TextsCount(rows, PosListText);
    TextsAt(rows, 0, 0, PosListText);
    TextsAt(rows, 0, 1, PosListText);
    var poslists := PosListsOf(rows);
    assert |poslists| == 3;
    assert OrChildren(layerGeometry, poslists, rows, 1) == [IntersectsFor(layerGeometry, poslists[0], rows[0].value)];
  }

  /** The pairing quirk for a null row: it takes no poslist but does take a
      zip position, so the next row gets the poslist and the last row's is
      cut off by the truncation: here no `Intersects` at all is built. */
  lemma NullRowShiftsPairing(layerGeometry: string, g: Geometry)
    requires SinglePart(Some(g))
    ensures FilterTree(layerGeometry, [None, Some(g)]).children[0].children == []
  {
    var rows: seq<Row> := [None, Some(g)];
    assert rows[..1] == [None] && rows[..1][..0] == [];
    assert TotalParts(rows[..1]) == 0;
    assert TotalParts(rows) == 1;
    TextsCount(rows, PosListText);
    assert |PosListsOf(rows)| == 1;
  }

  /** The pairing quirk for an unsupported kind: it takes no poslist but an
      `Intersects` is still made for it, holding only the `ValueReference`,
      and the following polygon is cut off. */
  lemma UnsupportedRowShiftsPairing(layerGeometry: string, typeName: string, ring: seq<Coord>)
    requires ring != []
    ensures FilterTree(layerGeometry, [Some(Unsupported(typeName, false)), Some(Polygon(ring))]).children[0].children
      == [Element(FesIntersects, map[], None, [ValueReference(layerGeometry)])]
  {
    var rows: seq<Row> := [Some(Unsupported(typeName, false)), Some(Polygon(ring))];
    assert rows[..1] == [rows[0]] && rows[..1][..0] == [];
    assert TotalParts(rows[..1]) == 0;
    assert TotalParts(rows) == 1;
    TextsCount(rows, PosListText);
    var poslists := PosListsOf(rows);
    assert |poslists| == 1;
    assert [ValueReference(layerGeometry)] + [] == [ValueReference(layerGeometry)];
    assert IntersectsFor(layerGeometry, poslists[0], rows[0].value)
      == Element(FesIntersects, map[], None, [ValueReference(layerGeometry)]);
    assert OrChildren(layerGeometry, poslists, rows, 1) == [IntersectsFor(layerGeometry, poslists[0], rows[0].value)];
  }

  /** Serialising the filter and parsing it back, as the envelope builder
      does, gives the same tree when the geometry field name is not blank
      and no part is without vertices. */
  lemma FilterSurvivesReparse(layerGeometry: string, rows: seq<Row>)
    requires Strip(layerGeometry) != ""
    requires forall i :: 0 <= i < |rows| && Present(rows[i]) ==> PartsHaveVertices(rows[i].value)
    ensures Reparse(FilterTree(layerGeometry, rows)) == FilterTree(layerGeometry, rows)
  {
    var poslists := PosListsOf(rows);
    var n := Min(|poslists|, |rows|);
    var ors := OrChildren(layerGeometry, poslists, rows, n);
    PosListsShape(rows);
    forall c | 0 <= c < |ors|
      ensures NoEmptyText(ors[c])
    {
      OrChildFromPair(layerGeometry, poslists, rows, n, c);
      var j :| 0 <= j < n && Present(rows[j]) && ors[c] == IntersectsFor(layerGeometry, poslists[j], rows[j].value);
      assert NoEmptyText(ValueReference(layerGeometry));
      StripUnchanged(poslists[j]);
      match KindOf(rows[j].value)
      case Some(k) => GmlElementText(k, poslists[j]);
      case None =>
    }
    var or := Element(FesOr, map[], None, ors);
    assert NoEmptyText(or);
    assert NoEmptyText(FilterTree(layerGeometry, rows));
    ReparseIdentity(FilterTree(layerGeometry, rows));
  }
}
