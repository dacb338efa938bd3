/**
 * The PosList extractor (`get_poslists_from_gdf`): one coordinate string per
 * member part of every present row, each pair written latitude first.
 */
module PosList {
  import opened Wrappers
  import opened Text
  import opened Decimal
  import opened Geometry

  // ---------------------------------------------------------------------
  // The text of one part
  //
  // The layout of a poslist does not depend on how a single number is
  // written, only on that text being a clean number (non-empty, without a
  // space, without whitespace at either end) that a reader gives back. So
  // it is stated for any renderer `fmt` and reader `parse` with those two
  // properties; the encoder is the instance `FormatCoord` / `ParseCoord`.
  // ---------------------------------------------------------------------

  /** A number as the encoder writes it: non-empty, no space inside, no
      whitespace at either end. */
  predicate IsNumberText(t: string)
  {
    t != [] && NoSpace(t) && !IsSpace(t[0]) && !IsSpace(t[|t| - 1])
  }

  /** Every number `fmt` writes is a clean number text. */
  ghost predicate CleanNumbers(fmt: int -> string)
  {
    forall v :: IsNumberText(fmt(v))
  }

  /** `parse` gives back every number `fmt` writes. */
  ghost predicate Undoes(parse: string -> Option<int>, fmt: int -> string)
  {
    forall v :: parse(fmt(v)) == Some(v)
  }

  /** One vertex, latitude first. */
  function PairTextWith(fmt: int -> string, c: Coord): string
  {
    fmt(c.y) + " " + fmt(c.x)
  }

  /** The pairs of a vertex sequence joined by single spaces. */
  function PosListTextWith(fmt: int -> string, cs: seq<Coord>): string
  {
    JoinSpace(seq(|cs|, i requires 0 <= i < |cs| => PairTextWith(fmt, cs[i])))
  }

  /** The numbers of a vertex sequence, in the order EPSG:4326 wants them:
      latitude then longitude, vertex after vertex. */
  function AxisTokens(fmt: int -> string, cs: seq<Coord>): (t: seq<string>)
    ensures |t| == 2 * |cs|
  {
    if cs == [] then [] else [fmt(cs[0].y), fmt(cs[0].x)] + AxisTokens(fmt, cs[1..])
  }

  /** Reads space-separated numbers two at a time as (latitude, longitude). */
  function ReadPairs(parse: string -> Option<int>, tokens: seq<string>): Option<seq<Coord>>
    decreases |tokens|
  {
    if tokens == [] then Some([])
    else if |tokens| == 1 then None
    else
      match (parse(tokens[0]), parse(tokens[1]), ReadPairs(parse, tokens[2..]))
      case (Some(lat), Some(lon), Some(rest)) => Some([Coord(lon, lat)] + rest)
      case _ => None
  }

  /** Reads a GML `posList` in EPSG:4326 axis order back into vertices. */
  function ParsePosListWith(parse: string -> Option<int>, s: string): Option<seq<Coord>>
  {
    if s == "" then Some([]) else ReadPairs(parse, SplitSpace(s))
  }

  lemma {:induction false} AxisTokensAt(fmt: int -> string, cs: seq<Coord>, i: nat)
    requires i < |cs|
    ensures AxisTokens(fmt, cs)[2 * i] == fmt(cs[i].y)
    ensures AxisTokens(fmt, cs)[2 * i + 1] == fmt(cs[i].x)
    decreases i
  {
    if i > 0 {
      AxisTokensAt(fmt, cs[1..], i - 1);
      assert cs[1..][i - 1] == cs[i];
    }
  }

  /** Joining the pairs with spaces is joining all the numbers with spaces:
      within a pair and between pairs the separator is one space. */
  lemma {:induction false} PosListTokens(fmt: int -> string, cs: seq<Coord>)
    ensures PosListTextWith(fmt, cs) == JoinSpace(AxisTokens(fmt, cs))
    decreases |cs|
  {
    var pairs := seq(|cs|, i requires 0 <= i < |cs| => PairTextWith(fmt, cs[i]));
    if |cs| == 1 {
      assert pairs == [PairTextWith(fmt, cs[0])];
      assert AxisTokens(fmt, cs) == [fmt(cs[0].y), fmt(cs[0].x)];
    } else if |cs| > 1 {
      var rest := cs[1..];
      PosListTokens(fmt, rest);
      assert pairs[1..] == seq(|rest|, i requires 0 <= i < |rest| => PairTextWith(fmt, rest[i]));
      var t := AxisTokens(fmt, rest);
      var all := [fmt(cs[0].y), fmt(cs[0].x)] + t;
      assert all[1..] == [fmt(cs[0].x)] + t;
      assert ([fmt(cs[0].x)] + t)[1..] == t;
      assert JoinSpace([fmt(cs[0].x)] + t) == fmt(cs[0].x) + " " + JoinSpace(t);
    }
  }

  lemma {:induction false} AxisTokensShape(fmt: int -> string, cs: seq<Coord>)
    requires CleanNumbers(fmt)
    ensures forall k :: 0 <= k < |AxisTokens(fmt, cs)| ==> IsNumberText(AxisTokens(fmt, cs)[k])
    decreases |cs|
  {
    if cs != [] {
      AxisTokensShape(fmt, cs[1..]);
      var t := AxisTokens(fmt, cs);
      forall k | 0 <= k < |t|
        ensures IsNumberText(t[k])
      {
        if k >= 2 {
          assert t[k] == AxisTokens(fmt, cs[1..])[k - 2];
        }
      }
    }
  }

  lemma {:induction false} ReadAxisTokens(fmt: int -> string, parse: string -> Option<int>, cs: seq<Coord>)
    requires Undoes(parse, fmt)
    ensures ReadPairs(parse, AxisTokens(fmt, cs)) == Some(cs)
    decreases |cs|
  {
    if cs != [] {
      var t := AxisTokens(fmt, cs);
      assert t[2..] == AxisTokens(fmt, cs[1..]);
      ReadAxisTokens(fmt, parse, cs[1..]);
      assert parse(t[0]) == Some(cs[0].y) && parse(t[1]) == Some(cs[0].x);
      assert [cs[0]] + cs[1..] == cs;
    }
  }

  /** The poslist layout loses nothing and swaps the axes, whatever the
      clean number renderer: read back with its reader it gives every
      vertex, in vertex order. */
  lemma PosListRoundTripWith(fmt: int -> string, parse: string -> Option<int>, cs: seq<Coord>)
    requires CleanNumbers(fmt) && Undoes(parse, fmt)
    ensures ParsePosListWith(parse, PosListTextWith(fmt, cs)) == Some(cs)
  {
    PosListTokens(fmt, cs);
    AxisTokensShape(fmt, cs);
    if cs != [] {
      JoinSpaceEnds(AxisTokens(fmt, cs));
      SplitJoin(AxisTokens(fmt, cs));
      ReadAxisTokens(fmt, parse, cs);
    }
  }

  /** The layout: `2 * |cs|` space-separated fields, field `2i` the
      latitude of vertex `i` and field `2i + 1` its longitude. */
  lemma PosListLayoutWith(fmt: int -> string, cs: seq<Coord>, i: nat)
    requires CleanNumbers(fmt) && i < |cs|
    ensures |SplitSpace(PosListTextWith(fmt, cs))| == 2 * |cs|
    ensures SplitSpace(PosListTextWith(fmt, cs))[2 * i] == fmt(cs[i].y)
    ensures SplitSpace(PosListTextWith(fmt, cs))[2 * i + 1] == fmt(cs[i].x)
  {
    PosListTokens(fmt, cs);
    AxisTokensShape(fmt, cs);
    SplitJoin(AxisTokens(fmt, cs));
    AxisTokensAt(fmt, cs, i);
  }

  /** An empty vertex sequence gives the empty text and nothing else does;
      the text never has whitespace at either end. */
  lemma PosListEndsWith(fmt: int -> string, cs: seq<Coord>)
    requires CleanNumbers(fmt)
    ensures PosListTextWith(fmt, cs) == "" <==> cs == []
    ensures Stripped(PosListTextWith(fmt, cs))
  {
    PosListTokens(fmt, cs);
    AxisTokensShape(fmt, cs);
    if cs != [] {
      JoinSpaceEnds(AxisTokens(fmt, cs));
    }
  }

  // ---------------------------------------------------------------------
  // The encoder's instance: six-decimal coordinates
  // ---------------------------------------------------------------------

  /** `f"{y:.6f} {x:.6f}"`: one vertex, latitude first. */
  function PairText(c: Coord): string
  {
    PairTextWith(FormatCoord, c)
  }

  /** `" ".join(f"{y:.6f} {x:.6f}" for x, y in coords)`. */
  function PosListText(cs: seq<Coord>): string
  {
    PosListTextWith(FormatCoord, cs)
  }

  /** Reads a poslist of six-decimal coordinates. */
  function ParsePosList(s: string): Option<seq<Coord>>
  {
    ParsePosListWith(ParseCoord, s)
  }

  lemma FormatCoordClean()
    ensures CleanNumbers(FormatCoord)
  {
    forall v: int
      ensures IsNumberText(FormatCoord(v))
    {
      FormatCoordShape(v);
    }
  }

  lemma ParseCoordUndoes()
    ensures Undoes(ParseCoord, FormatCoord)
  {
    forall v: int
      ensures ParseCoord(FormatCoord(v)) == Some(v)
    {
      FormatCoordRoundTrip(v);
    }
  }

  /** The poslist loses nothing and swaps the axes: read in EPSG:4326 order
      (latitude, longitude) it gives back every vertex, in vertex order,
      the ring's repeated closing vertex included. */
  lemma PosListRoundTrip(cs: seq<Coord>)
    ensures ParsePosList(PosListText(cs)) == Some(cs)
  {
    FormatCoordClean();
    ParseCoordUndoes();
    PosListRoundTripWith(FormatCoord, ParseCoord, cs);
  }

  /** The layout of a poslist: `2 * |cs|` space-separated fields, field
      `2i` the six-decimal latitude of vertex `i` and field `2i + 1` its
      longitude. */
  lemma PosListLayout(cs: seq<Coord>, i: nat)
    requires i < |cs|
    ensures |SplitSpace(PosListText(cs))| == 2 * |cs|
    ensures SplitSpace(PosListText(cs))[2 * i] == FormatCoord(cs[i].y)
    ensures SplitSpace(PosListText(cs))[2 * i + 1] == FormatCoord(cs[i].x)
  {
    FormatCoordClean();
    PosListLayoutWith(FormatCoord, cs, i);
  }

  /** A point's text, written directly as one pair, is the poslist of that
      one vertex, and reads back as exactly that vertex. */
  lemma PointTextOnePair(c: Coord)
    ensures PairText(c) == PosListText([c])
    ensures ParsePosList(PairText(c)) == Some([c])
  {
    assert seq(1, i requires 0 <= i < 1 => PairTextWith(FormatCoord, [c][i])) == [PairText(c)];
    PosListRoundTrip([c]);
  }

  /** An empty vertex sequence gives the empty poslist and nothing else
      does; a poslist never has whitespace at either end, so the GML
      builders' `strip()` leaves it as it is. */
  lemma PosListEnds(cs: seq<Coord>)
    ensures PosListText(cs) == "" <==> cs == []
    ensures Stripped(PosListText(cs))
  {
    FormatCoordClean();
    PosListEndsWith(FormatCoord, cs);
  }

  // ---------------------------------------------------------------------
  // Extraction over the rows
  //
  // The row-by-row structure of the extraction does not depend on how a
  // part is written, so it is stated for any part renderer `render`; the
  // extractor is the instance that writes every part with `PosListText`.
  // ---------------------------------------------------------------------

  /** The texts one row contributes: none for a null, empty or unsupported
      geometry, else one per member part, in part order. */
  function RowTexts(row: Row, render: seq<Coord> -> string): (r: seq<string>)
    ensures |r| == if Present(row) then PartCount(row.value) else 0
  {
    if !Present(row) then []
    else
      var ps := Parts(row.value);
      seq(|ps|, k requires 0 <= k < |ps| => render(ps[k]))
  }

  /** The texts of all rows, row after row. */
  function Texts(rows: seq<Row>, render: seq<Coord> -> string): seq<string>
  {
    if rows == [] then [] else Texts(rows[..|rows| - 1], render) + RowTexts(rows[|rows| - 1], render)
  }

  /** The poslists `get_poslists_from_gdf` makes for one row. A point part
      is written as its one pair, which is the poslist of that one vertex
      (`PointTextOnePair`). */
  function RowPosLists(row: Row): seq<string>
  {
    RowTexts(row, PosListText)
  }

  /** The list `get_poslists_from_gdf` returns. */
  function PosListsOf(rows: seq<Row>): seq<string>
  {
    Texts(rows, PosListText)
  }

  /** The number of member parts over the present rows. */
  function TotalParts(rows: seq<Row>): nat
  {
    if rows == [] then 0
    else
      var last := rows[|rows| - 1];
      TotalParts(rows[..|rows| - 1]) + (if Present(last) then PartCount(last.value) else 0)
  }

  /** One text per member part of every present row. */
  lemma {:induction false} TextsCount(rows: seq<Row>, render: seq<Coord> -> string)
    ensures |Texts(rows, render)| == TotalParts(rows)
    decreases |rows|
  {
    if rows != [] {
      TextsCount(rows[..|rows| - 1], render);
    }
  }

  /** Extraction works row by row: the texts of two row sequences put
      together are those of the first followed by those of the second. */
  lemma {:induction false} TextsAppend(a: seq<Row>, b: seq<Row>, render: seq<Coord> -> string)
    ensures Texts(a + b, render) == Texts(a, render) + Texts(b, render)
    decreases |b|
  {
    if b == [] {
      assert a + b == a;
    } else {
      var b', ab := b[..|b| - 1], a + b;
      assert ab[..|ab| - 1] == a + b';
      assert ab[|ab| - 1] == b[|b| - 1];
      var last := RowTexts(b[|b| - 1], render);
      assert Texts(ab, render) == Texts(a + b', render) + last;
      assert Texts(b, render) == Texts(b', render) + last;
      TextsAppend(a, b', render);
    }
  }

  lemma {:induction false} TotalPartsAppend(a: seq<Row>, b: seq<Row>)
    ensures TotalParts(a + b) == TotalParts(a) + TotalParts(b)
    decreases |b|
  {
    if b == [] {
      assert a + b == a;
    } else {
      var b' := b[..|b| - 1];
      assert (a + b)[..|a + b| - 1] == a + b';
      assert (a + b)[|a + b| - 1] == b[|b| - 1];
      TotalPartsAppend(a, b');
    }
  }

  lemma TextsOfPrefix(rows: seq<Row>, i: nat, render: seq<Coord> -> string)
    requires i < |rows|
    ensures Texts(rows[..i + 1], render) == Texts(rows[..i], render) + RowTexts(rows[i], render)
  {
    assert rows[..i + 1][..i] == rows[..i];
  }

  /** A null, empty or unsupported row adds no text and extraction goes on
      with the rows after it. */
  lemma SkippedRowAddsNothing(before: seq<Row>, row: Row, after: seq<Row>, render: seq<Coord> -> string)
    requires !Present(row) || row.value.Unsupported?
    ensures Texts(before + [row] + after, render) == Texts(before, render) + Texts(after, render)
  {
    var br := before + [row];
    TextsAppend(br, after, render);
    assert br[..|br| - 1] == before && br[|br| - 1] == row;
    assert RowTexts(row, render) == [];
    assert Texts(br, render) == Texts(before, render) + [];
  }

  /** Row order, then part order: part `k` of row `i` is text number
      `TotalParts(rows[..i]) + k`. */
  lemma TextsAt(rows: seq<Row>, i: nat, k: nat, render: seq<Coord> -> string)
    requires i < |rows| && Present(rows[i]) && k < PartCount(rows[i].value)
    ensures TotalParts(rows[..i]) + k < |Texts(rows, render)|
    ensures Texts(rows, render)[TotalParts(rows[..i]) + k] == render(Parts(rows[i].value)[k])
  {
    var pre, post := rows[..i + 1], rows[i + 1..];
    assert pre + post == rows;
    TextsAppend(pre, post, render);
    TextsOfPrefix(rows, i, render);
    TextsCount(rows[..i], render);
  }

  /** Every text is the rendering of some member part of some present row. */
  lemma {:induction false} TextOrigin(rows: seq<Row>, render: seq<Coord> -> string, n: nat)
    requires n < |Texts(rows, render)|
    ensures exists i, k ::
      && 0 <= i < |rows| && Present(rows[i]) && 0 <= k < |Parts(rows[i].value)|
      && Texts(rows, render)[n] == render(Parts(rows[i].value)[k])
    decreases |rows|
  {
    var init, last := rows[..|rows| - 1], rows[|rows| - 1];
    var before := Texts(init, render);
    if n < |before| {
      TextOrigin(init, render, n);
      var i, k :| 0 <= i < |init| && Present(init[i]) && 0 <= k < |Parts(init[i].value)|
        && before[n] == render(Parts(init[i].value)[k]);
      assert init[i] == rows[i];
    } else {
      var k := n - |before|;
      assert Texts(rows, render)[n] == RowTexts(last, render)[k];
      assert Texts(rows, render)[n] == render(Parts(rows[|rows| - 1].value)[k]);
    }
  }

  /** With every row present and single-part, part count and row count
      agree: text `i` is row `i`'s rendering of its vertices. */
  lemma {:induction false} SinglePartTexts(rows: seq<Row>, render: seq<Coord> -> string)
    requires forall i :: 0 <= i < |rows| ==> SinglePart(rows[i])
    ensures |Texts(rows, render)| == |rows|
    ensures forall i :: 0 <= i < |rows| ==>
      SinglePart(rows[i]) && Texts(rows, render)[i] == render(SoleCoords(rows[i].value))
    decreases |rows|
  {
    if rows != [] {
      var init, last := rows[..|rows| - 1], rows[|rows| - 1];
      assert forall i :: 0 <= i < |init| ==> init[i] == rows[i];
      SinglePartTexts(init, render);
      assert RowTexts(last, render) == [render(SoleCoords(last.value))];
    }
  }

  /** Every poslist of a row reads back as the corresponding part's
      vertices; for a point part that is exactly one pair. */
  lemma RowPosListsParts(row: Row, k: nat)
    requires Present(row) && k < PartCount(row.value)
    ensures RowPosLists(row)[k] == PosListText(Parts(row.value)[k])
    ensures ParsePosList(RowPosLists(row)[k]) == Some(Parts(row.value)[k])
  {
    PosListRoundTrip(Parts(row.value)[k]);
  }

  /** Every poslist is already stripped; none is empty when every part of
      every present row has vertices. */
  lemma PosListsShape(rows: seq<Row>)
    ensures forall n :: 0 <= n < |PosListsOf(rows)| ==> Stripped(PosListsOf(rows)[n])
    ensures (forall i :: 0 <= i < |rows| && Present(rows[i]) ==> PartsHaveVertices(rows[i].value))
      ==> forall n :: 0 <= n < |PosListsOf(rows)| ==> PosListsOf(rows)[n] != ""
  {
    forall n | 0 <= n < |PosListsOf(rows)|
      ensures Stripped(PosListsOf(rows)[n])
      ensures (forall i :: 0 <= i < |rows| && Present(rows[i]) ==> PartsHaveVertices(rows[i].value))
        ==> PosListsOf(rows)[n] != ""
    {
      TextOrigin(rows, PosListText, n);
      var i, k :| 0 <= i < |rows| && Present(rows[i]) && 0 <= k < |Parts(rows[i].value)|
        && PosListsOf(rows)[n] == PosListText(Parts(rows[i].value)[k]);
      PosListEnds(Parts(rows[i].value)[k]);
    }
  }

  function RingTexts(rings: seq<seq<Coord>>): seq<string>
  {
    seq(|rings|, i requires 0 <= i < |rings| => PosListText(rings[i]))
  }

  function PointTexts(pts: seq<Coord>): seq<string>
  {
    seq(|pts|, i requires 0 <= i < |pts| => PairText(pts[i]))
  }

  /** The inner `for poly in polygons` / `for line in lines` loop. */
  method AppendRingTexts(poslists: seq<string>, rings: seq<seq<Coord>>) returns (r: seq<string>)
    ensures r == poslists + RingTexts(rings)
  {
    r := poslists;
    var j := 0;
    while j < |rings|
      invariant 0 <= j <= |rings|
      invariant r == poslists + RingTexts(rings[..j])
    {
      assert RingTexts(rings[..j + 1]) == RingTexts(rings[..j]) + [PosListText(rings[j])];
      r := r + [PosListText(rings[j])];
      j := j + 1;
    }
    assert rings[..j] == rings;
  }

  /** The inner `for pt in points` loop. */
  method AppendPointTexts(poslists: seq<string>, points: seq<Coord>) returns (r: seq<string>)
    ensures r == poslists + PointTexts(points)
  {
    r := poslists;
    var j := 0;
    while j < |points|
      invariant 0 <= j <= |points|
      invariant r == poslists + PointTexts(points[..j])
    {
      assert PointTexts(points[..j + 1]) == PointTexts(points[..j]) + [PairText(points[j])];
      r := r + [PairText(points[j])];
      j := j + 1;
    }
    assert points[..j] == points;
  }

  /** What the polygon and line branches append is the row's poslists. */
  lemma RingBranch(row: Row, rings: seq<seq<Coord>>)
    requires Present(row) && Parts(row.value) == rings
    ensures RingTexts(rings) == RowPosLists(row)
  {
  }

  /** What the point branch appends is the row's poslists. */
  lemma PointBranch(row: Row, points: seq<Coord>)
    requires Present(row) && (row.value.Point? || row.value.MultiPoint?)
    requires points == if row.value.Point? then [row.value.at] else row.value.points
    ensures PointTexts(points) == RowPosLists(row)
  {
    forall j | 0 <= j < |points|
      ensures PointTexts(points)[j] == RowPosLists(row)[j]
    {
      assert Parts(row.value)[j] == [points[j]];
      PointTextOnePair(points[j]);
    }
  }

  /** `get_poslists_from_gdf`: the loop over the rows. */
  method GetPosListsFromGdf(rows: seq<Row>) returns (poslists: seq<string>)
    ensures poslists == PosListsOf(rows)
  {
    poslists := [];
    var i := 0;
    while i < |rows|
      invariant 0 <= i <= |rows|
      invariant poslists == PosListsOf(rows[..i])
    {
      TextsOfPrefix(rows, i, PosListText);
      var geom := rows[i];
      if geom.Some? && !IsEmpty(geom.value) {
        var g := geom.value;
        if g.Polygon? || g.MultiPolygon? {
          var polygons := if g.Polygon? then [g.exterior] else g.polygons;
          RingBranch(geom, polygons);
          poslists := AppendRingTexts(poslists, polygons);
        } else if g.LineString? || g.MultiLineString? {
          var lines := if g.LineString? then [g.coords] else g.lines;
          RingBranch(geom, lines);
          poslists := AppendRingTexts(poslists, lines);
        } else if g.Point? || g.MultiPoint? {
          var points := if g.Point? then [g.at] else g.points;
          PointBranch(geom, points);
          poslists := AppendPointTexts(poslists, points);
        }
      }
      i := i + 1;
    }
    assert rows[..i] == rows;
  }
}
