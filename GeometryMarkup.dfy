/**
 * Geometry to KML markup: the coordinate string of a Point, LineString or Polygon
 * and the element that wraps it.
 */
module GeometryMarkup {
  import opened Wrappers
  import opened Text

  /**
   * A coordinate number as the host prints it (`f"{x}"` on a float, such as `1.5`,
   * `-0.25`, `1e-05`): never a comma or a space.
   */
  type Token = s: string | ',' !in s && ' ' !in s

  /** A vertex; `z` is read from Z and 2.5D geometries but never written. */
  datatype Vertex = Vertex(x: real, y: real, z: real)

  /**
   * The host geometry, by WKB family: Point, LineString and Polygon (with or without
   * Z), and every other type, of which only emptiness is known.
   */
  datatype Geometry =
    | Point(at: Vertex)
    | LineString(vertices: seq<Vertex>)
    | Polygon(rings: seq<seq<Vertex>>)
    | Unsupported(empty: bool)

  /** `QgsGeometry.isEmpty()`: a polygon is empty when it has no outer ring or that ring has no vertex. */
  predicate IsEmpty(g: Geometry)
  {
    match g
    case Point(_) => false
    case LineString(vs) => |vs| == 0
    case Polygon(rings) => |rings| == 0 || |rings[0]| == 0
    case Unsupported(empty) => empty
  }

  /** `geometry.transform(ct)`: every vertex of every part goes through the coordinate transform. */
  function Transformed(g: Geometry, t: Vertex -> Vertex): Geometry
  {
    match g
    case Point(v) => Point(t(v))
    case LineString(vs) => LineString(seq(|vs|, k requires 0 <= k < |vs| => t(vs[k])))
    case Polygon(rings) =>
      Polygon(seq(|rings|, i requires 0 <= i < |rings| =>
        seq(|rings[i]|, j requires 0 <= j < |rings[i]| => t(rings[i][j]))))
    case Unsupported(e) => Unsupported(e)
  }

  /** `if transform: geometry.transform(transform)`. */
  function ApplyTransform(g: Geometry, transform: Option<Vertex -> Vertex>): Geometry
  {
    match transform
    case None => g
    case Some(t) => Transformed(g, t)
  }

  /** One vertex as `x,y,0`. */
  function Triple(v: Vertex, fmt: real -> Token): string
  {
    fmt(v.x) + "," + fmt(v.y) + ",0"
  }

  function Triples(vs: seq<Vertex>, fmt: real -> Token): seq<string>
  {
    seq(|vs|, k requires 0 <= k < |vs| => Triple(vs[k], fmt))
  }

  /** The coordinate string of an (already transformed) geometry, branch by branch. */
  function CoordinatesText(g: Geometry, fmt: real -> Token): string
  {
    match g
    case Point(v) => Triple(v, fmt)
    case LineString(vs) => Join(Triples(vs, fmt), ' ')
    case Polygon(rings) => if |rings| > 0 then Join(Triples(rings[0], fmt), ' ') else ""
    case Unsupported(_) => ""
  }

  /** The vertices whose coordinates are written: the point, the line, or the outer ring only. */
  function Vertices(g: Geometry): seq<Vertex>
  {
    match g
    case Point(v) => [v]
    case LineString(vs) => vs
    case Polygon(rings) => if |rings| > 0 then rings[0] else []
    case Unsupported(_) => []
  }

  /** Every branch writes the space-joined triples of the written vertices, in their own order. */
  lemma CoordinatesAreVertexTriples(g: Geometry, fmt: real -> Token)
    ensures CoordinatesText(g, fmt) == Join(Triples(Vertices(g), fmt), ' ')
  {
    if g.Point? {
      assert Triples([g.at], fmt) == [Triple(g.at, fmt)];
    }
  }

  lemma TripleSplit(v: Vertex, fmt: real -> Token)
    ensures ' ' !in Triple(v, fmt)
    ensures Split(Triple(v, fmt), ',') == [fmt(v.x), fmt(v.y), "0"]
  {
    var a, b := fmt(v.x), fmt(v.y);
    assert [a, b, "0"][1..] == [b, "0"] && [b, "0"][1..] == ["0"];
    assert Join(["0"], ',') == "0";
    assert Join([b, "0"], ',') == b + [','] + "0";
    assert Join([a, b, "0"], ',') == a + [','] + (b + [','] + "0");
    assert Triple(v, fmt) == Join([a, b, "0"], ',');
    SplitJoin([a, b, "0"], ',');
  }

  /**
   * Reading the coordinate string back (split on spaces, then on commas) gives one
   * `x,y,0` triple per written vertex, in order: no vertex is reordered, merged or lost.
   */
  lemma {:induction false} CoordinatesRoundTrip(g: Geometry, fmt: real -> Token)
    requires |Vertices(g)| > 0
    ensures |Split(CoordinatesText(g, fmt), ' ')| == |Vertices(g)|
    ensures forall k :: 0 <= k < |Vertices(g)| ==>
      Split(Split(CoordinatesText(g, fmt), ' ')[k], ',')
        == [fmt(Vertices(g)[k].x), fmt(Vertices(g)[k].y), "0"]
  {
    var vs := Vertices(g);
    var ts := Triples(vs, fmt);
    forall k | 0 <= k < |ts| ensures ' ' !in ts[k] && Split(ts[k], ',') == [fmt(vs[k].x), fmt(vs[k].y), "0"] {
      TripleSplit(vs[k], fmt);
    }
    CoordinatesAreVertexTriples(g, fmt);
    SplitJoin(ts, ' ');
  }

  /** The loop of `geometry_to_kml_coordinates`: one triple per vertex, joined by spaces. */
  method JoinedTriples(vs: seq<Vertex>, fmt: real -> Token) returns (text: string)
    ensures text == Join(Triples(vs, fmt), ' ')
  {
    var coords: seq<string> := [];
    for i := 0 to |vs|
      invariant |coords| == i
      invariant forall k :: 0 <= k < i ==> coords[k] == Triple(vs[k], fmt)
    {
      coords := coords + [Triple(vs[i], fmt)];
    }
    assert coords == Triples(vs, fmt);
    text := Join(coords, ' ');
  }

  /** `geometry_to_kml_coordinates(geometry, transform)`. */
  method GeometryToKmlCoordinates(g: Geometry, transform: Option<Vertex -> Vertex>, fmt: real -> Token)
    returns (coords: string)
    ensures coords == CoordinatesText(ApplyTransform(g, transform), fmt)
  {
    var h := ApplyTransform(g, transform);
    match h
    case Point(v) =>
      coords := Triple(v, fmt);
    case LineString(vs) =>
      coords := JoinedTriples(vs, fmt);
    case Polygon(rings) =>
      if |rings| > 0 {
        coords := JoinedTriples(rings[0], fmt);
      } else {
        coords := "";
      }
    case Unsupported(_) =>
      coords := "";
  }

  /**
   * `geometry_to_kml_element(geometry, transform)`: the geometry is transformed once,
   * its coordinates computed without a further transform, and wrapped in the element
   * of its type (a Polygon through `outerBoundaryIs` and `LinearRing`); any other type
   * gives the empty string.
   */
  function GeometryToKmlElement(g: Geometry, transform: Option<Vertex -> Vertex>, fmt: real -> Token): (r: string)
    ensures r == "" <==> g.Unsupported?
  {
    var h := ApplyTransform(g, transform);
    var c := CoordinatesText(h, fmt);
    match h
    case Point(_) => PointOpen + c + PointClose
    case LineString(_) => LineStringOpen + c + LineStringClose
    case Polygon(_) => PolygonOpen + c + PolygonClose
    case Unsupported(_) => ""
  }

  const PointOpen: string := "      <Point>\n        <coordinates>"
  const PointClose: string := "</coordinates>\n      </Point>"
  const LineStringOpen: string := "      <LineString>\n        <coordinates>"
  const LineStringClose: string := "</coordinates>\n      </LineString>"
  const PolygonOpen: string :=
    "      <Polygon>\n        <outerBoundaryIs>\n          <LinearRing>\n            <coordinates>"
  const PolygonClose: string :=
    "</coordinates>\n          </LinearRing>\n        </outerBoundaryIs>\n      </Polygon>"

  /** The transform is applied exactly once: passing it equals transforming first and passing none. */
  lemma TransformAppliedOnce(g: Geometry, t: Vertex -> Vertex, fmt: real -> Token)
    ensures GeometryToKmlElement(g, Some(t), fmt) == GeometryToKmlElement(Transformed(g, t), None, fmt)
  {
  }

  /** Transforming keeps the geometry's type and its emptiness. */
  lemma TransformKeepsShape(g: Geometry, t: Vertex -> Vertex)
    ensures Transformed(g, t).Point? == g.Point? && Transformed(g, t).LineString? == g.LineString?
    ensures Transformed(g, t).Polygon? == g.Polygon? && Transformed(g, t).Unsupported? == g.Unsupported?
    ensures IsEmpty(Transformed(g, t)) == IsEmpty(g)
    ensures |Vertices(Transformed(g, t))| == |Vertices(g)|
    ensures forall k :: 0 <= k < |Vertices(g)| ==> Vertices(Transformed(g, t))[k] == t(Vertices(g)[k])
  {
  }
}
