/**
 The approximate tangent-plane conversion between local CAD coordinates
 (metres, x east and y north of the design point once rotated) and
 longitude/latitude around an anchor point. Distances are turned into angles
 with the mean Earth radius; one metre east is `1 / (R * |cos(lat)|)` radians
 of longitude and one metre north `1 / R` radians of latitude.
 */
module Geo {
  import opened Results
  import opened Angles

  /** A local CAD vertex: only the first two components are read. */
  datatype Vertex = Vertex(x: real, y: real)

  /** A geographic position, longitude first as in GeoJSON. */
  datatype LonLat = LonLat(lon: real, lat: real)

  /** Mean Earth radius in metres. */
  const EarthRadius: real := 6371000.0

  /** Radians of latitude per metre north. */
  const Gy: real := 1.0 / (6371.0 * 1000.0)

  /** The cosine of the anchor latitude. */
  function CosLat(latp: real, t: Trig): real {
    t.cos(Radians(latp))
  }

  /** Radians of longitude per metre east at the anchor latitude. */
  function Gx(latp: real, t: Trig): (gx: real)
    requires CosLat(latp, t) != 0.0
    ensures gx > 0.0
    ensures gx * Abs(CosLat(latp, t)) == Gy
  {
    Gy * 1.0 / Abs(CosLat(latp, t))
  }

  /** Multiplies the components by the two scale factors. */
  function Scale(v: Vertex, xsc: real, ysc: real): Vertex {
    Vertex(v.x * xsc, v.y * ysc)
  }

  /** Counter-clockwise rotation by `rot` radians. */
  function Rotate(v: Vertex, rot: real, t: Trig): Vertex {
    Vertex(v.x * t.cos(rot) - v.y * t.sin(rot), v.x * t.sin(rot) + v.y * t.cos(rot))
  }

  /** The geographic position of one vertex: scale, rotate, then offset the
      anchor by the metric displacement turned into degrees. */
  function PlaceVertex(v: Vertex, longp: real, latp: real, rot: real, xsc: real, ysc: real,
                       gx: real, t: Trig): LonLat
  {
    var r := Rotate(Scale(v, xsc, ysc), rot, t);
    LonLat(longp + Degrees(r.x * gx), latp + Degrees(r.y * Gy))
  }

  /** The conversion loop of `xy2latlong`: one position per vertex, in order. */
  function PlaceAll(vert: seq<Vertex>, longp: real, latp: real, rot: real, xsc: real, ysc: real,
                    gx: real, t: Trig): (trans: seq<LonLat>)
    ensures |trans| == |vert|
    ensures forall i :: 0 <= i < |vert| ==>
      trans[i] == PlaceVertex(vert[i], longp, latp, rot, xsc, ysc, gx, t)
  {
    if vert == [] then []
    else
      PlaceAll(vert[..|vert| - 1], longp, latp, rot, xsc, ysc, gx, t)
        + [PlaceVertex(vert[|vert| - 1], longp, latp, rot, xsc, ysc, gx, t)]
  }

  /** `xy2latlong`: maps local vertices to `[long, lat]` around the anchor
      `(longp, latp)`. The longitude factor divides by `|cos(latp)|` before any
      vertex is read, so a zero cosine raises even for an empty list. */
  function XyToLatLong(vert: seq<Vertex>, longp: real, latp: real, rot: real, xsc: real, ysc: real,
                       t: Trig): (r: Result<seq<LonLat>>)
    ensures r.Failure? <==> CosLat(latp, t) == 0.0
    ensures r.Failure? ==> r.error == ZeroDivision
    ensures r.Success? ==> |r.value| == |vert|
    ensures r.Success? ==> forall i :: 0 <= i < |vert| ==>
      r.value[i] == PlaceVertex(vert[i], longp, latp, rot, xsc, ysc, Gx(latp, t), t)
    ensures r.Success? ==> forall i :: 0 <= i < |vert| && vert[i] == Vertex(0.0, 0.0) ==>
      r.value[i] == LonLat(longp, latp)
  {
    if CosLat(latp, t) == 0.0 then Failure(ZeroDivision)
    else Success(PlaceAll(vert, longp, latp, rot, xsc, ysc, Gx(latp, t), t))
  }

  /** The local position of one geographic point relative to the anchor. */
  function PlanePoint(p: LonLat, longp: real, latp: real, t: Trig): Vertex {
    Vertex(-EarthRadius * Radians(longp - p.lon) * CosLat(latp, t),
           -EarthRadius * Radians(latp - p.lat))
  }

  /** `latlong2xy`: maps `[long, lat]` points to local `(x, y)`, one per point,
      in order; the anchor itself lands on the origin. */
  function LatLongToXy(vert: seq<LonLat>, longp: real, latp: real, t: Trig): (trans: seq<Vertex>)
    ensures |trans| == |vert|
    ensures forall i :: 0 <= i < |vert| ==> trans[i] == PlanePoint(vert[i], longp, latp, t)
    ensures forall i :: 0 <= i < |vert| && vert[i] == LonLat(longp, latp) ==>
      trans[i] == Vertex(0.0, 0.0)
  {
    if vert == [] then []
    else LatLongToXy(vert[..|vert| - 1], longp, latp, t) + [PlanePoint(vert[|vert| - 1], longp, latp, t)]
  }

  /** The rotation step keeps the Euclidean length of the scaled vector. */
  lemma RotationPreservesLength(v: Vertex, rot: real, t: Trig)
    requires Valid(t)
    ensures var r := Rotate(v, rot, t); r.x * r.x + r.y * r.y == v.x * v.x + v.y * v.y
  {
  }

  /** Without rotation or scaling, the longitude offset is a function of x alone
      and the latitude offset a function of y alone. */
  lemma UnrotatedAxesSeparate(v: Vertex, longp: real, latp: real, t: Trig)
    requires Valid(t) && CosLat(latp, t) != 0.0
    ensures PlaceVertex(v, longp, latp, 0.0, 1.0, 1.0, Gx(latp, t), t)
         == LonLat(longp + Degrees(v.x * Gx(latp, t)), latp + Degrees(v.y * Gy))
  {
  }

  /** The same as a statement about pairs of vertices: equal x gives equal
      longitude and equal y gives equal latitude. */
  lemma UnrotatedOffsetsIndependent(v: Vertex, w: Vertex, longp: real, latp: real, t: Trig)
    requires Valid(t) && CosLat(latp, t) != 0.0
    ensures v.x == w.x ==>
      PlaceVertex(v, longp, latp, 0.0, 1.0, 1.0, Gx(latp, t), t).lon
        == PlaceVertex(w, longp, latp, 0.0, 1.0, 1.0, Gx(latp, t), t).lon
    ensures v.y == w.y ==>
      PlaceVertex(v, longp, latp, 0.0, 1.0, 1.0, Gx(latp, t), t).lat
        == PlaceVertex(w, longp, latp, 0.0, 1.0, 1.0, Gx(latp, t), t).lat
  {
  }

  /** Without rotation, a vertex due east of the design point lands due east of
      the anchor: a larger longitude and the same latitude. */
  lemma EastStaysEast(v: Vertex, longp: real, latp: real, t: Trig)
    requires Valid(t) && CosLat(latp, t) != 0.0
    requires v.x > 0.0 && v.y == 0.0
    ensures var p := PlaceVertex(v, longp, latp, 0.0, 1.0, 1.0, Gx(latp, t), t);
      p.lon > longp && p.lat == latp
  {
  }

  /** Scaling by 1 and rotating by 0 leaves a vertex in place. */
  lemma Identity(v: Vertex, t: Trig)
    requires Valid(t)
    ensures Rotate(Scale(v, 1.0, 1.0), 0.0, t) == v
  {
  }

  /** Converting a local vertex to a geographic point and back yields the vertex
      after scaling and rotation (the return trip does not undo them), provided the
      anchor latitude has a positive cosine. */
  lemma PointRoundTrip(v: Vertex, longp: real, latp: real, rot: real, xsc: real, ysc: real, t: Trig)
    requires CosLat(latp, t) > 0.0
    ensures PlanePoint(PlaceVertex(v, longp, latp, rot, xsc, ysc, Gx(latp, t), t), longp, latp, t)
         == Rotate(Scale(v, xsc, ysc), rot, t)
  {
  }

  /** At an anchor latitude with negative cosine the absolute value in the
      longitude factor is not undone on the way back: the x component comes back
      negated. */
  lemma PointRoundTripMirrored(v: Vertex, longp: real, latp: real, rot: real, xsc: real, ysc: real, t: Trig)
    requires CosLat(latp, t) < 0.0
    ensures var r := Rotate(Scale(v, xsc, ysc), rot, t);
      PlanePoint(PlaceVertex(v, longp, latp, rot, xsc, ysc, Gx(latp, t), t), longp, latp, t)
        == Vertex(-r.x, r.y)
  {
  }

  /** Converting a geographic point to local coordinates and back, without
      rotation or scaling, yields the point. */
  lemma PlaneRoundTrip(p: LonLat, longp: real, latp: real, t: Trig)
    requires Valid(t) && CosLat(latp, t) > 0.0
    ensures PlaceVertex(PlanePoint(p, longp, latp, t), longp, latp, 0.0, 1.0, 1.0, Gx(latp, t), t) == p
  {
  }

  /** At an anchor latitude with negative cosine `gx` divides by `|cos|` while
      `latlong2xy` multiplies by `cos`, so the longitude comes back reflected
      about the anchor (compare `PointRoundTripMirrored`). */
  lemma PlaneRoundTripMirrored(p: LonLat, longp: real, latp: real, t: Trig)
    requires Valid(t) && CosLat(latp, t) < 0.0
    ensures PlaceVertex(PlanePoint(p, longp, latp, t), longp, latp, 0.0, 1.0, 1.0, Gx(latp, t), t)
         == LonLat(2.0 * longp - p.lon, p.lat)
  {
  }

  /** `latlong2xy` undoes `xy2latlong` on every vertex list, when there is no
      rotation, the scales are 1 and the anchor latitude has a positive cosine. */
  lemma {:induction false} ListRoundTrip(vert: seq<Vertex>, longp: real, latp: real, t: Trig)
    requires Valid(t) && CosLat(latp, t) > 0.0
    ensures XyToLatLong(vert, longp, latp, 0.0, 1.0, 1.0, t).Success?
    ensures LatLongToXy(XyToLatLong(vert, longp, latp, 0.0, 1.0, 1.0, t).value, longp, latp, t) == vert
  {
    var geo := XyToLatLong(vert, longp, latp, 0.0, 1.0, 1.0, t).value;
    var back := LatLongToXy(geo, longp, latp, t);
    assert |back| == |vert|;
    forall i | 0 <= i < |vert|
      ensures back[i] == vert[i]
    {
      PointRoundTrip(vert[i], longp, latp, 0.0, 1.0, 1.0, t);
      Identity(vert[i], t);
    }
    assert back == vert;
  }

  /** `xy2latlong` undoes `latlong2xy` under the same conditions. */
  lemma {:induction false} ListRoundTripFromGeographic(pts: seq<LonLat>, longp: real, latp: real, t: Trig)
    requires Valid(t) && CosLat(latp, t) > 0.0
    ensures XyToLatLong(LatLongToXy(pts, longp, latp, t), longp, latp, 0.0, 1.0, 1.0, t)
         == Success(pts)
  {
    var local := LatLongToXy(pts, longp, latp, t);
    var geo := XyToLatLong(local, longp, latp, 0.0, 1.0, 1.0, t).value;
    forall i | 0 <= i < |pts|
      ensures geo[i] == pts[i]
    {
      PlaneRoundTrip(pts[i], longp, latp, t);
    }
    assert geo == pts;
  }
}
