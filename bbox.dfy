/** The bounding-polygon assets: the largest part of a (multi)polygon, simplified, must be a
    polygon; the Earth Engine asset takes the stored polygon's exterior ring. Geometry is
    reduced to what these assets inspect: a polygon's exterior ring and its area. Reading
    the inputs, the union of shapes, reprojection and simplification are outside calls:
    simplification is a parameter. */
module Bbox {
  import opened Wrappers

  datatype Polygon = Polygon(exterior: seq<(real, real)>, area: real)

  datatype Geometry =
    | PolygonGeom(poly: Polygon)
    | MultiPolygon(parts: seq<Polygon>)
    | OtherGeometry(kind: string)    // any other shapely type, by its class name

  function TypeName(g: Geometry): string
  {
    match g
    case PolygonGeom(_) => "Polygon"
    case MultiPolygon(_) => "MultiPolygon"
    case OtherGeometry(kind) => kind
  }

  /** Part `k` is what the loop keeps: it has a positive area, no part is larger, and every
      earlier part is smaller (a tie does not replace it, the test being strict). */
  predicate IsLargest(parts: seq<Polygon>, k: nat)
  {
    k < |parts| && parts[k].area > 0.0
    && (forall q :: 0 <= q < |parts| ==> parts[q].area <= parts[k].area)
    && (forall q :: 0 <= q < k ==> parts[q].area < parts[k].area)
  }

  /** At most one part is the largest in that sense. */
  lemma LargestUnique(parts: seq<Polygon>, a: nat, b: nat)
    requires IsLargest(parts, a) && IsLargest(parts, b)
    ensures a == b
  {
  }

  /** The loop over `geoms` starting from `max_area = 0` with no polygon, replacing the
      kept part whenever a part's area is strictly greater. */
  method LargestPart(parts: seq<Polygon>) returns (best: Option<nat>)
    ensures best.None? <==> forall q :: 0 <= q < |parts| ==> parts[q].area <= 0.0
    ensures best.Some? ==> IsLargest(parts, best.value)
  {
    var maxArea: real := 0.0;
    best := None;
    for i := 0 to |parts|
      invariant best.None? ==> maxArea == 0.0 && forall q :: 0 <= q < i ==> parts[q].area <= 0.0
      invariant best.Some? ==> best.value < i && maxArea == parts[best.value].area && maxArea > 0.0
      invariant forall q :: 0 <= q < i ==> parts[q].area <= maxArea
      invariant best.Some? ==> forall q :: 0 <= q < best.value ==> parts[q].area < maxArea
    {
      var area := parts[i].area;
      if area > maxArea {
        maxArea := area;
        best := Some(i);
      }
    }
  }

  /** `isinstance(simplified, shapely.Polygon)`, or the TypeError. */
  function CheckPolygon(g: Geometry): (r: Result<Polygon>)
    ensures r.Ok? <==> g.PolygonGeom?
    ensures r.Ok? ==> r.value == g.poly
    ensures r.Err? ==> r.error == TypeError("Expected Polygon, got " + TypeName(g))
  {
    if g.PolygonGeom? then Ok(g.poly) else Err(TypeError("Expected Polygon, got " + TypeName(g)))
  }

  /** `shapely.simplify` then the polygon check: simplifying no polygon gives None, which is
      not a polygon. */
  function SimplifiedPolygon(selected: Option<Polygon>, simplify: Polygon -> Geometry): (r: Result<Polygon>)
    ensures selected.None? ==> r == Err(TypeError("Expected Polygon, got NoneType"))
    ensures selected.Some? ==> r == CheckPolygon(simplify(selected.value))
  {
    match selected
    case None => Err(TypeError("Expected Polygon, got NoneType"))
    case Some(p) => CheckPolygon(simplify(p))
  }

  /** `bbox_amazon` from the union of the raster's shapes. */
  method BboxAmazon(merged: Geometry, simplify: Polygon -> Geometry) returns (r: Result<Polygon>)
    ensures merged.OtherGeometry? ==>
              r == Err(TypeError("Expected MultiPolygon or Polygon, got " + TypeName(merged)))
    ensures merged.PolygonGeom? ==> r == CheckPolygon(simplify(merged.poly))
    ensures merged.MultiPolygon? && (forall q :: 0 <= q < |merged.parts| ==> merged.parts[q].area <= 0.0) ==>
              r == Err(TypeError("Expected Polygon, got NoneType"))
    ensures merged.MultiPolygon? && (exists q :: 0 <= q < |merged.parts| && merged.parts[q].area > 0.0) ==>
              exists k: nat :: IsLargest(merged.parts, k) && r == CheckPolygon(simplify(merged.parts[k]))
  {
    var maxPoly: Option<Polygon>;
    match merged {
      case MultiPolygon(parts) =>
        var best := LargestPart(parts);
        maxPoly := if best.Some? then Some(parts[best.value]) else None;
      case PolygonGeom(p) =>
        maxPoly := Some(p);
      case OtherGeometry(kind) =>
        return Err(TypeError("Expected MultiPolygon or Polygon, got " + kind));
    }
    r := SimplifiedPolygon(maxPoly, simplify);
  }

  /** `bbox_mexico` from the country's geometry; only a multi-part geometry has `geoms`. */
  method BboxMexico(geom: Geometry, simplify: Polygon -> Geometry) returns (r: Result<Polygon>)
    ensures !geom.MultiPolygon? ==> r == Err(AttributeError("geoms"))
    ensures geom.MultiPolygon? && (forall q :: 0 <= q < |geom.parts| ==> geom.parts[q].area <= 0.0) ==>
              r == Err(TypeError("Expected Polygon, got NoneType"))
    ensures geom.MultiPolygon? && (exists q :: 0 <= q < |geom.parts| && geom.parts[q].area > 0.0) ==>
              exists k: nat :: IsLargest(geom.parts, k) && r == CheckPolygon(simplify(geom.parts[k]))
  {
    if !geom.MultiPolygon? {
      return Err(AttributeError("geoms"));
    }
    var best := LargestPart(geom.parts);
    var maxGeom := if best.Some? then Some(geom.parts[best.value]) else None;
    r := SimplifiedPolygon(maxGeom, simplify);
  }

  /** The `ee` asset: the stored geometry must be a polygon; its exterior ring's points. */
  function EeBbox(stored: Geometry): (r: Result<seq<(real, real)>>)
    ensures r.Ok? <==> stored.PolygonGeom?
    ensures r.Ok? ==> r.value == stored.poly.exterior
    ensures r.Err? ==> r.error == TypeError("Expected Polygon, got " + TypeName(stored))
  {
    match CheckPolygon(stored)
    case Err(e) => Err(e)
    case Ok(p) => Ok(p.exterior)
  }

  /** Some part has a positive area exactly when a largest part exists: the loop's two
      outcomes cover every input. */
  lemma {:induction false} LargestExists(parts: seq<Polygon>)
    requires exists q :: 0 <= q < |parts| && parts[q].area > 0.0
    ensures exists k: nat :: IsLargest(parts, k)
  {
    var n := |parts| - 1;
    var front := parts[..n];
    assert forall q :: 0 <= q < n ==> front[q] == parts[q];
    if exists q :: 0 <= q < n && front[q].area > 0.0 {
      LargestExists(front);
      var k: nat :| IsLargest(front, k);
      if parts[n].area > parts[k].area {
        assert IsLargest(parts, n);
      } else {
        assert IsLargest(parts, k);
      }
    } else {
      assert IsLargest(parts, n);
    }
  }
}
