# WFS intersection diagnostic: a Dafny model of its request encoder and result loop

The program checks a study area against a list of environmental layers
served over WFS 2.0. For each layer it posts one `GetFeature` request whose
FES 2.0 filter asks for every feature that intersects one of the study
area's geometries. It then records, under the layer's label, what the
service answered.

This project models two parts of that program and proves properties of them.

The first part is the request encoder in `xml_builder.py`, modelled in these modules:

- `Geometry`: the study-area rows. There are six shapely kinds plus any other kind. A `LinearRing` row is a `LineString` here, as shapely's `isinstance` sees it. Coordinates are fixed point: degrees × 10^6.
- `Text`: Python's `strip`, `" ".join` and `split(" ")`.
- `Decimal`: `f"{v:.6f}"` for coordinates and `f"{code}"` for status codes, each with a reader that undoes it.
- `PosList`: the coordinate strings `get_poslists_from_gdf` produces, latitude first, one per member part. The module also holds the loop itself.
- `Xml`: an element tree with a qualified tag, an attribute map, optional text and children. It also models a serialise-then-parse trip.
- `Gml`: the three GML 3.2 element builders, with a reader for the shapes they make.
- `Filter`: `creating_xml_filter`, modelled with the `zip` pairing exactly as written.
- `Request`: `data_to_post` and its `wfs:GetFeature`/`wfs:Query` envelope.

The second part is the diagnostic loop of `main.py`, in the `Analysis` module.
The network exchange is a function parameter that stands for `requests.post`
and for reading the interested column out of the returned features.

Each modelled loop of the source is a Dafny `method` with invariants:
`GetPosListsFromGdf` with its inner loops `AppendRingTexts` and
`AppendPointTexts`, `CreatingXmlFilter` and `RunDiagnostic`. `DataToPost`
has no loop; it is a method because it calls `CreatingXmlFilter`. Each
method is proved equal to a specification function. The properties the
program relies on are proved as lemmas about those functions.

The model makes these choices:

- **Number formatting.** The poslist layout is proved for any number renderer that writes clean number texts and has a reader that undoes it (`PosList.PosListRoundTripWith`). It is then used with the six-decimal renderer `Decimal.FormatCoord`.
- **The `nsmap` keyword.** `ET.Element(..., nsmap=namespaces)` at `xml_builder.py:113` is not a namespace map in the standard ElementTree. It becomes an ordinary attribute named `nsmap`, whose serialised value is the dictionary's `str()`. The model keeps it as that attribute (`Filter.NsmapText`).
- **The trip through text.** `ET.tostring` followed by `ET.fromstring` (`xml_builder.py:148`, `:195`) is modelled as `Xml.Reparse`. It is the identity on the tree, except that an empty text comes back as no text. Texts the parser rejects or rewrites are not modelled (see "## Left out"). This matters when the geometry field name is blank (`Request.BlankGeometryKeyLostInTransit`).
- **The pairing.** `zip(poslists, geodataframe.geometry)` at `xml_builder.py:118` pairs one poslist per member part with one geometry per row. The model keeps this pairing as written. It lines up only when every row is present and single-part (`Filter.FilterOfSingleParts`). The lemmas for the other cases show exactly how it shifts.
- **The answer.** The exchange returns a `Response`: the status code and the interested column's values. The loop branches on these two, as the source does. `Analysis.Classify` names the three outcomes (no match, match, failure), and `Analysis.EntriesRenderOutcome` proves that the branches append the rendering of the outcome.
- **The result dictionary.** `analysis_results` is modelled as a sequence of `(label, list)` rows, because a dictionary keeps its keys in insertion order. `Analysis.Lookup` reads it as a dictionary.

## Model

| member | source | states |
|---|---|---|
| PosList.GetPosListsFromGdf | xml_builder.py:19-63 | The loop returns exactly `PosListsOf(rows)`: row after row, one text per member part, skipping null, empty and unsupported rows. |
| PosList.AppendRingTexts | xml_builder.py:39-42 | The inner polygon/line loop appends one poslist per ring, in ring order, after what was there. |
| PosList.AppendPointTexts | xml_builder.py:54-57 | The inner point loop appends one `"y x"` pair per point, in point order, after what was there. |
| PosList.RingBranch | xml_builder.py:37-50 | What the polygon and line branches append is the row's poslists, one per part. |
| PosList.PointBranch | xml_builder.py:53-57 | What the point branch appends, one pair per point, equals the poslists of the row's one-vertex parts. |
| PosList.TextsCount | xml_builder.py:37-57 | The number of poslists is the sum of the part counts of the present rows: 1 for a single kind, `len(geoms)` for a collection, 0 for an unsupported kind. |
| PosList.TextsAt | xml_builder.py:37-57 | Row order, then part order: part `k` of present row `i` is poslist number `TotalParts(rows[..i]) + k`. |
| PosList.TextOrigin | xml_builder.py:37-57 | Every poslist is the rendering of some member part of some present row. |
| PosList.TextsAppend | xml_builder.py:28-63 | Extraction works row by row: the texts of `a + b` are those of `a` followed by those of `b`. |
| PosList.SkippedRowAddsNothing | xml_builder.py:31-32 | A null, empty or unsupported row adds no poslist, and the rows after it are processed as if it were absent. |
| PosList.SinglePartTexts | xml_builder.py:37-57 | When every row is present and single-part, there is one poslist per row, and poslist `i` renders row `i`'s vertices. |
| PosList.RowPosListsParts | xml_builder.py:40-41 | Each poslist of a row is its part's text and reads back as exactly that part's vertices. |
| PosList.PosListsShape | xml_builder.py:41 | Every poslist is already stripped. None is empty when every part has a vertex. |
| PosList.PosListTokens | xml_builder.py:41 | Joining the `"y x"` pairs with spaces gives the same text as joining all numbers with spaces, latitude before longitude, vertex after vertex. |
| PosList.PosListRoundTripWith | xml_builder.py:41 | For any clean renderer and a reader that undoes it, reading the poslist back in (latitude, longitude) order gives every vertex, in order. |
| PosList.PosListLayoutWith | xml_builder.py:41 | The poslist has `2·|cs|` fields. Field `2i` is vertex `i`'s latitude and field `2i+1` its longitude. |
| PosList.PosListEndsWith | xml_builder.py:41 | The poslist is empty exactly when there are no vertices, and it has no whitespace at either end. |
| PosList.PosListRoundTrip | xml_builder.py:40-41 | The six-decimal poslist loses nothing: read back it gives every vertex in order, a ring's repeated closing vertex included. |
| PosList.PosListLayout | xml_builder.py:49 | Field `2i` of a six-decimal poslist is `f"{y:.6f}"` of vertex `i` and field `2i+1` is `f"{x:.6f}"`. |
| PosList.PosListEnds | xml_builder.py:41 | The six-decimal poslist is empty exactly when there are no vertices. It is never changed by `strip()`. |
| PosList.PointTextOnePair | xml_builder.py:56 | A point's text `f"{pt.y:.6f} {pt.x:.6f}"` is the poslist of that one vertex and reads back as exactly that one vertex. |
| PosList.ReadAxisTokens | xml_builder.py:41 | Reading the numbers two at a time as (latitude, longitude) gives back the vertices. |
| PosList.AxisTokensShape | xml_builder.py:41 | Every number in the poslist is a clean number text. |
| PosList.AxisTokensAt | xml_builder.py:41 | Number `2i` is vertex `i`'s latitude and number `2i+1` its longitude. |
| PosList.FormatCoordClean | xml_builder.py:41 | Every six-decimal number is a clean number text. |
| PosList.ParseCoordUndoes | xml_builder.py:41 | The coordinate reader undoes the six-decimal renderer for every value. |
| Decimal.FormatCoordRoundTrip | xml_builder.py:41 | `f"{v:.6f}"` of a six-decimal value reads back as that value. |
| Decimal.FormatCoordShape | xml_builder.py:41 | `f"{v:.6f}"` has at least 8 characters, only sign, point and digit characters, and ends in a digit. |
| Decimal.DigitsShape | main.py:78 | A decimal rendering is non-empty, all digits, without a leading zero. |
| Decimal.DigitsValue | main.py:78 | Reading a decimal rendering gives back the number. |
| Decimal.PaddedValue | xml_builder.py:41 | The six fraction digits read back as the fraction. |
| Decimal.FormatIntRoundTrip | main.py:78 | `f"{status_code}"` reads back as the status code. |
| Text.StripSpec | xml_builder.py:75 | `strip()` returns a contiguous piece of its input. Everything dropped is whitespace, and the result neither starts nor ends with whitespace. |
| Text.StripLeftSpec | xml_builder.py:129 | The left strip drops only leading whitespace and stops at the first other character. |
| Text.StripRightSpec | xml_builder.py:129 | The right strip drops only trailing whitespace and stops at the last other character. |
| Text.StripUnchanged | xml_builder.py:82 | `strip()` leaves a text unchanged exactly when it has no whitespace at either end. |
| Text.SplitJoin | xml_builder.py:41 | Splitting on single spaces undoes `" ".join` when no part holds a space. |
| Text.JoinSpaceEnds | xml_builder.py:41 | A join of non-empty parts starts with the first part's first character and ends with the last part's last character. |
| Gml.PolygonElementReads | xml_builder.py:70-76 | The polygon element is `gml:Polygon`, with the EPSG:4326 URN `srsName`, nesting `exterior`/`LinearRing`/`posList`, whose text is `poslist.strip()`. |
| Gml.LineStringElementReads | xml_builder.py:79-83 | The line element is `gml:LineString`, with the EPSG:4326 URN `srsName` and one `posList` child whose text is `poslist.strip()`. |
| Gml.PointElementReads | xml_builder.py:86-90 | The point element is `gml:Point`, with the EPSG:4326 URN `srsName` and one `pos` child whose text is `poslist.strip()`. |
| Gml.GmlElementReads | xml_builder.py:132-139 | The builder the dispatch picks for a kind gives that kind's element, which carries the stripped poslist. |
| Gml.GmlElementText | xml_builder.py:70-90 | When the stripped poslist is not empty, no element of the builder's tree has an empty text. Where the text sits is `Gml.GmlElementReads`. |
| Filter.CreatingXmlFilter | xml_builder.py:97-145 | The loop builds exactly `FilterTree`: `Filter/Or` with one `Intersects` per zip pair whose geometry is present. |
| Filter.IntersectsFor | xml_builder.py:125-145 | An `Intersects` has no attributes and no text. Its first child is the `ValueReference`. It has a second child, the GML element, only for a supported kind. |
| Filter.IntersectsGml | xml_builder.py:132-145 | For a supported kind, the second child of `Intersects` reads as that kind's GML shape carrying `poslist.strip()`. |
| Filter.OrChildren | xml_builder.py:118-120 | The `Or` holds as many children as there are present rows among the zip pairs. |
| Filter.OrChildFromPair | xml_builder.py:118-125 | Every `Intersects` comes from a zip pair whose geometry is present. |
| Filter.FilterShape | xml_builder.py:113-145 | The root is `fes:Filter` with exactly one child `fes:Or`. Each `Or` child is an `Intersects` that starts with the `ValueReference` of `layer_geometry.strip()`. There are never more of them than `min(#poslists, #rows)`. |
| Filter.FilterOfSingleParts | xml_builder.py:118-145 | When every row is present and single-part, there is one `Intersects` per row, in row order, carrying that row's own poslist. |
| Filter.SinglePartIntersects | xml_builder.py:125-145 | For a single-part row, `Intersects` holds the `ValueReference` and the row's GML shape, whose coordinates read back as the row's vertices. |
| Filter.MultiPartShiftsPairing | xml_builder.py:118 | With a two-part MultiPolygon followed by a Point, the Point is paired with the polygon's second ring. |
| Filter.NullRowShiftsPairing | xml_builder.py:118-120 | A null row followed by a single-part row gives an empty `Or`: the null row uses up the only zip position. |
| Filter.UnsupportedRowShiftsPairing | xml_builder.py:125-143 | An unsupported row followed by a polygon gives one `Intersects` holding only the `ValueReference`. The polygon is cut off. |
| Filter.FilterSurvivesReparse | xml_builder.py:148 | With a non-blank geometry field name and no part without vertices, the trip through text gives back the same tree. |
| Xml.ReparseKeepsShape | xml_builder.py:195 | The trip through text keeps every tag, attribute, child count and non-empty text, and turns an empty text into none. |
| Xml.ReparseIdentity | xml_builder.py:195 | The trip through text is the identity exactly on the trees without an empty text. |
| Request.DataToPost | xml_builder.py:158-196 | The request is `PostBody`. It reads back as a `GetFeature` whose single `Query` names the layer and holds the reparsed filter tree. |
| Request.EnvelopeReads | xml_builder.py:173-196 | `wfs:GetFeature` has `service="WFS"`, `version="2.0.0"` and the fixed `xsi:schemaLocation`. It has one `wfs:Query` with `typeNames` = layer name and `srsName="EPSG:4326"`, whose only child is the given filter. |
| Request.PostBodyCarriesFilter | xml_builder.py:194-196 | With a non-blank geometry field name and every part non-empty, the posted query carries exactly the filter tree built from the same inputs. |
| Request.BlankGeometryKeyLostInTransit | xml_builder.py:129 | A blank geometry field name gives an empty `ValueReference` text. That text does not survive the trip, so the posted filter differs from the built one. |
| Analysis.RunDiagnostic | main.py:50-78 | The loop's results are `ResultsAfter` of all the service's answers, taken in configuration order. |
| Analysis.QueryLayer | main.py:54-62 | Layer `i`'s answer is the exchange for the request built by `data_to_post` from its layer name and geometry key. |
| Analysis.RecordEntries | main.py:64-78 | The branch on the status code appends to layer `i`'s list exactly that response's entries. |
| Analysis.RecordResponse | main.py:52-78 | Recording a response changes only layer `i`'s list and appends that response's entries to it. Every other row and every label stays the same. |
| Analysis.EmptyResults | main.py:50 | At the start there is one row per configured label, in order, each with an empty list. |
| Analysis.Classify | main.py:65-78 | Status other than 200 is a failure carrying that code. 200 with no features is no match, and 200 with features is a match carrying the values. |
| Analysis.EntriesRenderOutcome | main.py:64-78 | What the branches append is the rendering of the response's outcome: `"-"` for no match, the values for a match, the code's text for a failure. |
| Analysis.EntriesMeaning | main.py:64-78 | 200 with no features appends exactly `["-"]`. 200 with features extends by the values in order. Any other status appends one entry that reads back as the code and is not `"-"`. |
| Analysis.ResultsAfterMeaning | main.py:52-78 | After `n` answers, row `j` keeps its label and holds exactly its own answer's entries if `j < n`, and nothing otherwise. |
| Analysis.EveryLayerRecorded | main.py:50-78 | At the end the labels are unchanged and every layer's list is non-empty: a layer answered with a non-200 status does not stop later ones. |
| Analysis.ResultsByLabel | main.py:50-78 | With distinct labels, looking up a layer's label in the final results gives exactly its own answer's entries. |
| Analysis.LookupFindsRow | main.py:50 | With distinct labels, a lookup by label finds that label's row. |
| Analysis.ThreeLayerExample | main.py:64-78 | The three answers no match, two matches and status 500 give `["-"]`, `["x", "y"]` and `["500"]`. |

## Left out

- Reading the study-area shapefile and the layer configuration file, and the reprojection to EPSG:4326 (`main.py:31-48`). The rows and the configuration entries are inputs, and the coordinates are taken to be in EPSG:4326 already.
- `requests.post`, the HTTP headers and parameters, and the JSON and GeoJSON decoding of the response (`main.py:60-73`). These are the `exchange` parameter of `Analysis.RunDiagnostic`. It returns the status code and the interested column's value in each feature, as text. A transport that raises (a connection error or a timeout at `main.py:62`) ends the source's loop and skips the CSV export; the model has no such exchange.
- A response that cannot be decoded, or a feature without the interested column, which would raise an exception in the source.
- Column values other than strings.
- The CSV export and every `print` (`main.py:67`, `:71`, `:77`, `:81-83`; `xml_builder.py:61`, `:142`).
- The bytes `ET.tostring` writes: the XML declaration, namespace prefixes, escaping and UTF-8 encoding, and `ET.register_namespace` (`xml_builder.py:148`, `:169-170`, `:199`). The request is the element tree, and the trip through text is `Xml.Reparse`.
- Floating-point coordinates and their rounding to six decimals. A coordinate is an integer number of millionths of a degree, so `f"{v:.6f}"` is exact here. A negative value that rounds to zero, which Python writes as `-0.000000`, cannot be expressed.
- Polygon holes, which the source never reads. A polygon is its exterior ring.
- Xml.Reparse: does not model the parse error `ET.fromstring` (`xml_builder.py:195`) raises when a text holds a character XML forbids (U+0000 to U+0008, U+000B, U+000C, U+000E to U+001F). `ET.tostring` writes such characters as they are, and `strip()` (`xml_builder.py:129`) removes them only at the ends, so a geometry field name with one inside makes `data_to_post` raise. The model keeps such a text, so `Filter.FilterSurvivesReparse` and `Request.PostBodyCarriesFilter` hold on inputs where the program raises instead.
- Filter.FilterSurvivesReparse: its conditions do not exclude a geometry field name with a character XML forbids inside it, on which the source's parse raises (see `Xml.Reparse` above).
- Request.PostBodyCarriesFilter: the same gap: on such a field name the source raises instead of posting.
- Coordinates are two-dimensional. With 3-D rows (a PolygonZ shapefile, which `to_crs` leaves 3-D), the polygon and line branches unpack `for x, y in coords` (`xml_builder.py:41`, `:49`) and raise `ValueError`, which stops the run before any request (`main.py:59`). The point branch reads only `pt.y` and `pt.x` (`xml_builder.py:56`) and drops z.
- End-of-line normalisation by the XML parser: a carriage return inside a poslist or field name would come back as a line feed. `Xml.Reparse` changes only empty texts.
- Analysis.RunDiagnostic: its contract states only the equality with `ResultsAfter`. The per-row meaning of that equality is `Analysis.ResultsAfterMeaning` and `Analysis.EveryLayerRecorded`.
- The result dictionary is a sequence of rows in insertion order. Distinct labels, which a dictionary guarantees, are a precondition only where a lemma reads the rows by label (`Analysis.ResultsByLabel`).
