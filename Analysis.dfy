/**
 * The diagnostic loop: for every configured environmental layer, post the
 * study area's GetFeature request and record under the layer's label what
 * the service answered: "-" when no feature intersects, the interested
 * column's values when some do, the status code when the request failed.
 */
module Analysis {
  import opened Wrappers
  import opened Decimal
  import opened Geometry
  import opened Xml
  import opened Request

  /** One layer's configuration: its layer name, its geometry field and
      the column whose values the diagnostic reports. */
  datatype LayerSpec = LayerSpec(layerName: string, geometryKey: string, interestedColumn: string)

  /** One entry of the layer configuration, under its label. */
  datatype LayerEntry = LayerEntry(item: string, spec: LayerSpec)

  /** What one exchange with the service yields: the status code and, for
      a successful request, the interested column's value in each returned
      feature (none when no feature intersects the study area). */
  datatype Response = Response(statusCode: int, columnValues: seq<string>)

  /** The configuration's labels are those of a dictionary: all distinct. */
  predicate DistinctLabels(dataset: seq<LayerEntry>)
  {
    forall i, j :: 0 <= i < j < |dataset| ==> dataset[i].item != dataset[j].item
  }

  /** The entries one response adds to its layer's list. */
  function Entries(r: Response): seq<string>
  {
    if r.statusCode == 200 then
      if r.columnValues == [] then ["-"] else r.columnValues
    else [FormatInt(r.statusCode)]
  }

  /** What an answer means for its layer: no feature intersects the study
      area, some do (with their values of the interested column), or the
      request failed with a status code. */
  datatype Outcome = NoMatch | Matched(values: seq<string>) | Failed(statusCode: int)

  /** Classifies a response: status 200 with no feature is no match, 200
      with features is a match, any other status a failure. */
  function Classify(r: Response): (o: Outcome)
    ensures o.Failed? <==> r.statusCode != 200
    ensures o.Failed? ==> o.statusCode == r.statusCode
    ensures o.NoMatch? <==> r.statusCode == 200 && r.columnValues == []
    ensures o.Matched? ==> o.values == r.columnValues && o.values != []
  {
    if r.statusCode != 200 then Failed(r.statusCode)
    else if r.columnValues == [] then NoMatch
    else Matched(r.columnValues)
  }

  /** What an outcome adds to its layer's list. */
  function Render(o: Outcome): seq<string>
  {
    match o
    case NoMatch => ["-"]
    case Matched(vs) => vs
    case Failed(code) => [FormatInt(code)]
  }

  /** The loop body's branches on the status code and on the feature list
      add exactly the rendering of the response's outcome. */
  lemma EntriesRenderOutcome(r: Response)
    ensures Entries(r) == Render(Classify(r))
  {
  }

  /** A response always adds something; what it adds tells a success with
      matches (the values), a success without (the one entry "-") and a
      failure (one entry that reads back as the status code) apart, as far
      as the column's own values allow. */
  lemma EntriesMeaning(r: Response)
    ensures Entries(r) != []
    ensures r.statusCode == 200 && r.columnValues != [] ==> Entries(r) == r.columnValues
    ensures r.statusCode == 200 && r.columnValues == [] ==> Entries(r) == ["-"]
    ensures r.statusCode != 200 ==> |Entries(r)| == 1 && ParseInt(Entries(r)[0]) == Some(r.statusCode)
    ensures r.statusCode != 200 ==> Entries(r)[0] != "-"
  {
    if r.statusCode != 200 {
      FormatIntRoundTrip(r.statusCode);
      DigitsShape(if r.statusCode < 0 then -r.statusCode else r.statusCode);
      assert FormatInt(r.statusCode)[|FormatInt(r.statusCode)| - 1] != '-';
    }
  }

  /** One item of `analysis_results`: a layer's label and its list. */
  datatype ResultRow = ResultRow(item: string, values: seq<string>)

  /** `{item: [] for item in dataset_dict}`: a dictionary keeps its keys in
      insertion order, so its items are one row per layer, in configuration
      order, each list empty. */
  function EmptyResults(dataset: seq<LayerEntry>): (m: seq<ResultRow>)
    ensures |m| == |dataset|
    ensures forall j :: 0 <= j < |m| ==> m[j] == ResultRow(dataset[j].item, [])
  {
    seq(|dataset|, j requires 0 <= j < |dataset| => ResultRow(dataset[j].item, []))
  }

  /** `analysis_results[item].append(...)` / `.extend(...)` for the layer at
      position `i`: its entries go at the end of its list; no other row and
      no label changes. */
  function RecordResponse(results: seq<ResultRow>, i: nat, r: Response): (m: seq<ResultRow>)
    requires i < |results|
    ensures |m| == |results|
    ensures m[i] == ResultRow(results[i].item, results[i].values + Entries(r))
    ensures forall j :: 0 <= j < |results| && j != i ==> m[j] == results[j]
  {
    results[i := ResultRow(results[i].item, results[i].values + Entries(r))]
  }

  /** `analysis_results[item]`: the list under the first row with that label. */
  function Lookup(results: seq<ResultRow>, item: string): Option<seq<string>>
  {
    if results == [] then None
    else if results[0].item == item then Some(results[0].values)
    else Lookup(results[1..], item)
  }

  /** The request the loop posts for a layer. */
  function LayerRequest(rows: seq<Row>, spec: LayerSpec): Element
  {
    PostBody(rows, spec.layerName, spec.geometryKey)
  }

  /** The service's answer to each layer's request, in configuration order;
      `exchange` stands for the network exchange and for reading the
      interested column out of the returned features. */
  function LayerResponses(dataset: seq<LayerEntry>, rows: seq<Row>, exchange: (Element, string) -> Response): (rs: seq<Response>)
    ensures |rs| == |dataset|
  {
    seq(|dataset|, j requires 0 <= j < |dataset| =>
      exchange(LayerRequest(rows, dataset[j].spec), dataset[j].spec.interestedColumn))
  }

  /** The results after the loop has recorded the first `n` responses. */
  function ResultsAfter(dataset: seq<LayerEntry>, responses: seq<Response>, n: nat): (m: seq<ResultRow>)
    requires |responses| == |dataset| && n <= |dataset|
    ensures |m| == |dataset|
  {
    if n == 0 then EmptyResults(dataset)
    else RecordResponse(ResultsAfter(dataset, responses, n - 1), n - 1, responses[n - 1])
  }

  /** After `n` responses, row `j` keeps its label and holds exactly its own
      response's entries if it has been handled, and nothing otherwise. */
  lemma {:induction false} ResultsAfterMeaning(dataset: seq<LayerEntry>, responses: seq<Response>, n: nat)
    requires |responses| == |dataset| && n <= |dataset|
    ensures forall j :: 0 <= j < |dataset| ==>
      ResultsAfter(dataset, responses, n)[j] == ResultRow(dataset[j].item, if j < n then Entries(responses[j]) else [])
    decreases n
  {
    if n > 0 {
      ResultsAfterMeaning(dataset, responses, n - 1);
      var before := ResultsAfter(dataset, responses, n - 1);
      assert before[n - 1].values == [];
      assert [] + Entries(responses[n - 1]) == Entries(responses[n - 1]);
    }
  }

  /** At the end of the loop the rows are still exactly the configured
      labels, in order, and no layer's list is empty: every layer was
      handled, whatever earlier layers answered. */
  lemma EveryLayerRecorded(dataset: seq<LayerEntry>, responses: seq<Response>)
    requires |responses| == |dataset|
    ensures forall j :: 0 <= j < |dataset| ==>
      ResultsAfter(dataset, responses, |dataset|)[j].item == dataset[j].item
      && ResultsAfter(dataset, responses, |dataset|)[j].values != []
  {
    ResultsAfterMeaning(dataset, responses, |dataset|);
  }

  /** With distinct labels, looking a layer's label up finds that layer's
      row. */
  lemma {:induction false} LookupFindsRow(results: seq<ResultRow>, j: nat)
    requires j < |results|
    requires forall i, k :: 0 <= i < k < |results| ==> results[i].item != results[k].item
    ensures Lookup(results, results[j].item) == Some(results[j].values)
    decreases j
  {
    if j > 0 {
      assert results[0].item != results[j].item;
      var rest := results[1..];
      assert rest[j - 1] == results[j];
      LookupFindsRow(rest, j - 1);
    }
  }

  /** Building and sending the POST request for layer `i`. */
  method QueryLayer(dataset: seq<LayerEntry>, rows: seq<Row>, exchange: (Element, string) -> Response, i: nat)
    returns (response: Response)
    requires i < |dataset|
    ensures response == LayerResponses(dataset, rows, exchange)[i]
  {
    var spec := dataset[i].spec;
    var data := DataToPost(rows, spec.layerName, spec.geometryKey);
    response := exchange(data, spec.interestedColumn);
    assert data == LayerRequest(rows, spec);
  }

  /** The `if`/`elif`/`else` of the loop body: append "-", extend with the
      column's values, or append the status code, to the list of the layer
      at position `i`. */
  method RecordEntries(results: seq<ResultRow>, i: nat, response: Response) returns (m: seq<ResultRow>)
    requires i < |results|
    ensures m == RecordResponse(results, i, response)
  {
    var row := results[i];
    if response.statusCode == 200 {
      if response.columnValues == [] {
        row := ResultRow(row.item, row.values + ["-"]);
      } else {
        row := ResultRow(row.item, row.values + response.columnValues);
      }
    } else {
      row := ResultRow(row.item, row.values + [FormatInt(response.statusCode)]);
    }
    m := results[i := row];
  }

  /** The diagnostic loop: for each layer in turn, build the request, post
      it, and record the answer in the layer's row. At the end every row
      holds exactly its own layer's entries. */
  method RunDiagnostic(dataset: seq<LayerEntry>, rows: seq<Row>, exchange: (Element, string) -> Response)
    returns (results: seq<ResultRow>)
    ensures results == ResultsAfter(dataset, LayerResponses(dataset, rows, exchange), |dataset|)
    ensures |results| == |dataset|
  {
    ghost var responses := LayerResponses(dataset, rows, exchange);
    results := EmptyResults(dataset);
    var i := 0;
    while i < |dataset|
      invariant 0 <= i <= |dataset|
      invariant results == ResultsAfter(dataset, responses, i)
    {
      var response := QueryLayer(dataset, rows, exchange, i);
      results := RecordEntries(results, i, response);
      i := i + 1;
    }
  }

  /** Read as a dictionary, the results map each configured label to its
      own layer's entries. */
  lemma ResultsByLabel(dataset: seq<LayerEntry>, responses: seq<Response>, j: nat)
    requires DistinctLabels(dataset) && |responses| == |dataset| && j < |dataset|
    ensures Lookup(ResultsAfter(dataset, responses, |dataset|), dataset[j].item) == Some(Entries(responses[j]))
  {
    var m := ResultsAfter(dataset, responses, |dataset|);
    ResultsAfterMeaning(dataset, responses, |dataset|);
    forall i, k | 0 <= i < k < |m|
      ensures m[i].item != m[k].item
    {
      assert m[i].item == dataset[i].item && m[k].item == dataset[k].item;
    }
    LookupFindsRow(m, j);
  }

  /** Three layers: one the study area misses, one it meets twice, one
      whose request fails with status 500. */
  lemma ThreeLayerExample(a: LayerSpec, b: LayerSpec, c: LayerSpec)
    ensures ResultsAfter([LayerEntry("A", a), LayerEntry("B", b), LayerEntry("C", c)],
        [Response(200, []), Response(200, ["x", "y"]), Response(500, [])], 3)
      == [ResultRow("A", ["-"]), ResultRow("B", ["x", "y"]), ResultRow("C", ["500"])]
  {
    var dataset := [LayerEntry("A", a), LayerEntry("B", b), LayerEntry("C", c)];
    var responses := [Response(200, []), Response(200, ["x", "y"]), Response(500, [])];
    ResultsAfterMeaning(dataset, responses, 3);
    assert Digits(500) == "500";
  }
}
