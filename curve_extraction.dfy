/**
  Turning the geometry of the selected DirectShape elements into a list of curves:
  every polyline becomes its chain of straight segments, every other geometry object
  is kept as a curve, or as `null` when it is not a curve.
 */
module CurveExtraction {
  import opened Wrappers

  /** A model point (`XYZ`); coordinates stand for the host's doubles. */
  datatype Point = Point(x: int, y: int, z: int)

  /** A bounded curve: a straight `Line`, or another kind (an arc, a spline) known by its ends. */
  datatype Curve =
    | Line(start: Point, end: Point)
    | OtherCurve(start: Point, end: Point)

  /** What `DirectShape.get_Geometry` yields: polylines, curves and non-curve objects (solids, meshes, points). */
  datatype GeometryObject =
    | PolyLine(points: seq<Point>)
    | Curve(c: Curve)
    | Other

  // ---------------------------------------------------------------------------
  // GetCurvesByPolyline
  // ---------------------------------------------------------------------------

  /** The segments of a polyline: one straight line between each pair of consecutive points. */
  function PolylineSegments(points: seq<Point>): (segments: seq<Curve>)
    ensures |segments| == if |points| == 0 then 0 else |points| - 1
    ensures forall i | 0 <= i < |segments| :: segments[i] == Line(points[i], points[i + 1])
    ensures forall i | 0 <= i < |segments| - 1 :: segments[i].end == segments[i + 1].start
  {
    if |points| < 2 then []
    else [Line(points[0], points[1])] + PolylineSegments(points[1..])
  }

  /** The points a chain of segments runs through: the first start, then every end. */
  function Vertices(segments: seq<Curve>): seq<Point>
  {
    if segments == [] then []
    else if |segments| == 1 then [segments[0].start, segments[0].end]
    else [segments[0].start] + Vertices(segments[1..])
  }

  /** A polyline is recovered from its segments: nothing is lost or reordered. */
  lemma {:induction false} VerticesOfSegments(points: seq<Point>)
    requires |points| >= 2
    ensures Vertices(PolylineSegments(points)) == points
  {
    if |points| == 2 {
      assert PolylineSegments(points) == [Line(points[0], points[1])];
    } else {
      VerticesOfSegments(points[1..]);
      assert PolylineSegments(points)[1..] == PolylineSegments(points[1..]);
      assert points == [points[0]] + points[1..];
    }
  }

  /** `GetCurvesByPolyline`: a bound line from coordinate `i` to `i + 1` for `i` below `NumberOfCoordinates - 1`. */
  method GetCurvesByPolyline(points: seq<Point>) returns (curves: seq<Curve>)
    ensures |curves| == if |points| == 0 then 0 else |points| - 1
    ensures forall i | 0 <= i < |curves| :: curves[i] == Line(points[i], points[i + 1])
    ensures curves == PolylineSegments(points)
  {
    curves := [];
    var i := 0;
    while i < |points| - 1
      invariant 0 <= i && (i <= |points| - 1 || i == 0)
      invariant |curves| == i
      invariant forall k | 0 <= k < i :: curves[k] == Line(points[k], points[k + 1])
    {
      curves := curves + [Line(points[i], points[i + 1])];
      i := i + 1;
    }
    var segments := PolylineSegments(points);
    assert |curves| == |segments|;
    forall k | 0 <= k < |curves| ensures curves[k] == segments[k] {
      assert segments[k] == Line(points[k], points[k + 1]);
    }
  }

  // ---------------------------------------------------------------------------
  // GetCurvesByDirectShapes
  // ---------------------------------------------------------------------------

  /** `directShapes.Select(d => d.get_Geometry(options)).SelectMany(g => g)`: the shapes' geometry, in order. */
  function Geometries(shapes: seq<seq<GeometryObject>>): (geometries: seq<GeometryObject>)
    ensures shapes != [] ==> |shapes[0]| <= |geometries| && geometries[..|shapes[0]|] == shapes[0]
    ensures (forall s | 0 <= s < |shapes| :: shapes[s] == []) ==> geometries == []
  {
    if shapes == [] then [] else shapes[0] + Geometries(shapes[1..])
  }

  /** Flattening keeps the shape order: the geometry of later shapes follows that of earlier ones. */
  lemma {:induction false} GeometriesAppend(a: seq<seq<GeometryObject>>, b: seq<seq<GeometryObject>>)
    ensures Geometries(a + b) == Geometries(a) + Geometries(b)
  {
    if a == [] {
      assert a + b == b;
    } else {
      assert (a + b)[0] == a[0] && (a + b)[1..] == a[1..] + b;
      GeometriesAppend(a[1..], b);
    }
  }

  /** `geom as Curve`: the curve itself, or `null` for any other kind of geometry. */
  function AsCurve(geom: GeometryObject): (r: Option<Curve>)
    ensures r.Some? <==> geom.Curve?
    ensures r.Some? ==> r.value == geom.c
  {
    match geom
    case Curve(c) => Some(c)
    case _ => None
  }

  /** A list of curves as entries of a `List<Curve>` (`AddRange`): none of them `null`. */
  function AsEntries(curves: seq<Curve>): (entries: seq<Option<Curve>>)
    ensures |entries| == |curves|
    ensures forall i | 0 <= i < |curves| :: entries[i] == Some(curves[i])
  {
    seq(|curves|, i requires 0 <= i < |curves| => Some(curves[i]))
  }

  /** What one geometry object adds to the list: a polyline its segments, anything else one entry. */
  function Contribution(geom: GeometryObject): (entries: seq<Option<Curve>>)
    ensures |entries| == ContributionCount(geom)
    ensures None in entries <==> geom == Other
  {
    match geom
    case PolyLine(points) => AsEntries(PolylineSegments(points))
    case _ => [AsCurve(geom)]
  }

  /** The curve list for a sequence of geometry objects, item by item in order. */
  function CurvesOf(geometries: seq<GeometryObject>): (curves: seq<Option<Curve>>)
    ensures |curves| == TotalCount(geometries)
  {
    if geometries == [] then [] else Contribution(geometries[0]) + CurvesOf(geometries[1..])
  }

  /** How many entries one geometry object adds: `max(n - 1, 0)` for a polyline of `n` points, 1 otherwise. */
  function ContributionCount(geom: GeometryObject): nat
  {
    match geom
    case PolyLine(points) => if |points| == 0 then 0 else |points| - 1
    case _ => 1
  }

  function TotalCount(geometries: seq<GeometryObject>): nat
  {
    if geometries == [] then 0 else ContributionCount(geometries[0]) + TotalCount(geometries[1..])
  }

  lemma {:induction false} CurvesOfAppend(a: seq<GeometryObject>, b: seq<GeometryObject>)
    ensures CurvesOf(a + b) == CurvesOf(a) + CurvesOf(b)
  {
    if a == [] {
      assert a + b == b;
    } else {
      assert (a + b)[0] == a[0] && (a + b)[1..] == a[1..] + b;
      CurvesOfAppend(a[1..], b);
    }
  }

  /** The curve list around one item: the entries before it, its own, and the entries after it. */
  lemma CurvesAround(before: seq<GeometryObject>, geom: GeometryObject, after: seq<GeometryObject>)
    ensures CurvesOf(before + [geom] + after) == CurvesOf(before) + Contribution(geom) + CurvesOf(after)
  {
    CurvesOfAppend(before + [geom], after);
    CurvesOfAppend(before, [geom]);
    CurvesOfSingle(geom);
  }

  lemma CurvesOfSingle(geom: GeometryObject)
    ensures CurvesOf([geom]) == Contribution(geom)
  {
    assert [geom][1..] == [];
  }

  /**
    Order is kept: the entries of an item sit, as one block, right after the entries of
    the items before it.
   */
  lemma ContributionInPlace(before: seq<GeometryObject>, geom: GeometryObject, after: seq<GeometryObject>)
    ensures TotalCount(before) + ContributionCount(geom) <= |CurvesOf(before + [geom] + after)|
    ensures CurvesOf(before + [geom] + after)[TotalCount(before)..TotalCount(before) + ContributionCount(geom)]
         == Contribution(geom)
  {
    CurvesAround(before, geom, after);
    MiddleOfThree(CurvesOf(before), Contribution(geom), CurvesOf(after));
  }

  lemma MiddleOfThree<T>(p: seq<T>, c: seq<T>, r: seq<T>)
    ensures |p| + |c| <= |p + c + r| && (p + c + r)[|p|..|p| + |c|] == c
  {
  }

  /** The list holds a `null` exactly when some geometry object is neither a polyline nor a curve. */
  lemma {:induction false} NullMarksNonCurve(geometries: seq<GeometryObject>)
    ensures None in CurvesOf(geometries) <==> Other in geometries
  {
    if geometries != [] {
      var first, rest := geometries[0], geometries[1..];
      NullMarksNonCurve(rest);
      assert geometries == [first] + rest;
      assert None in Contribution(first) <==> first == Other;
    }
  }

  /** `GetCurvesByDirectShapes`: walk the geometry, expanding each polyline in place and adding everything else as a curve or `null`. */
  method GetCurvesByDirectShapes(shapes: seq<seq<GeometryObject>>) returns (curves: seq<Option<Curve>>)
    ensures curves == CurvesOf(Geometries(shapes))
    ensures |curves| == TotalCount(Geometries(shapes))
  {
    var geometries := Geometries(shapes);
    curves := [];
    for i := 0 to |geometries|
      invariant curves == CurvesOf(geometries[..i])
    {
      assert geometries[..i + 1] == geometries[..i] + [geometries[i]];
      CurvesOfAppend(geometries[..i], [geometries[i]]);
      CurvesOfSingle(geometries[i]);
      match geometries[i]
      case PolyLine(points) =>
        var polyCurve := GetCurvesByPolyline(points);
        curves := curves + AsEntries(polyCurve);
      case _ =>
        curves := curves + [AsCurve(geometries[i])];
    }
    assert geometries[..|geometries|] == geometries;
  }

  /** Selecting more shapes appends their curves: the curves of earlier shapes keep their place. */
  lemma ShapesAppend(a: seq<seq<GeometryObject>>, b: seq<seq<GeometryObject>>)
    ensures CurvesOf(Geometries(a + b)) == CurvesOf(Geometries(a)) + CurvesOf(Geometries(b))
  {
    GeometriesAppend(a, b);
    CurvesOfAppend(Geometries(a), Geometries(b));
  }
}
