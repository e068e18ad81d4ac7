/** The point selection of `generate_map` in main.py: which of the photo's
    GPS location and the host's IP location are plotted, when there is no
    map at all, and the one key the function writes back into the report. */
module MapPoints {
  import opened Builtins
  import G = GpsLocation

  datatype Point = Point(lat: real, lon: real)

  /** What one location entry contributes: nothing, an exception, or a point. */
  datatype Candidate = Skip | Fails | At(p: Point)

  /** One location entry of the report (`data.get(...)`, Null when absent).
      A falsy entry is skipped. A truthy entry that is not a dictionary
      raises at its first `.get`. A dictionary gives a point when both
      "latitude" and "longitude" are truthy, and raises when `float()` of
      either fails. */
  function PointOf(info: Json, rt: Runtime): (c: Candidate)
    ensures c.Fails? <==>
      (Truthy(info) && (!info.Obj? ||
        (Truthy(Get(info.fields, "latitude")) && Truthy(Get(info.fields, "longitude"))
         && (ToFloat(Get(info.fields, "latitude"), rt).None? || ToFloat(Get(info.fields, "longitude"), rt).None?))))
    ensures c.At? <==> Truthy(info) && info.Obj? && Truthy(Get(info.fields, "latitude"))
                       && Truthy(Get(info.fields, "longitude"))
                       && ToFloat(Get(info.fields, "latitude"), rt).Some?
                       && ToFloat(Get(info.fields, "longitude"), rt).Some?
    ensures c.At? ==> c.p == Point(ToFloat(Get(info.fields, "latitude"), rt).value,
                                   ToFloat(Get(info.fields, "longitude"), rt).value)
  {
    if !Truthy(info) then Skip
    else if !info.Obj? then Fails
    else
      var lat := Get(info.fields, "latitude");
      var lon := Get(info.fields, "longitude");
      if Truthy(lat) && Truthy(lon) then
        match (ToFloat(lat, rt), ToFloat(lon, rt))
        case (Some(a), Some(b)) => At(Point(a, b))
        case _ => Fails
      else Skip
  }

  function PointsOf(c: Candidate): seq<Point> {
    if c.At? then [c.p] else []
  }

  function GpsCandidate(data: map<string, Json>, rt: Runtime): Candidate {
    PointOf(Get(data, "gps_location"), rt)
  }

  function IpCandidate(data: map<string, Json>, rt: Runtime): Candidate {
    PointOf(Get(data, "ip_location"), rt)
  }

  /** The list `coords` ends up as, GPS first and IP second; None when
      building it raises. */
  function Points(data: map<string, Json>, rt: Runtime): (r: Option<seq<Point>>)
    ensures r.None? <==> GpsCandidate(data, rt).Fails? || IpCandidate(data, rt).Fails?
    ensures r.Some? ==> |r.value| <= 2
    ensures r.Some? ==> (r.value == [] <==> !GpsCandidate(data, rt).At? && !IpCandidate(data, rt).At?)
    ensures r.Some? ==> (|r.value| == 2 <==> GpsCandidate(data, rt).At? && IpCandidate(data, rt).At?)
    ensures r.Some? && GpsCandidate(data, rt).At? ==> |r.value| >= 1 && r.value[0] == GpsCandidate(data, rt).p
    ensures r.Some? && IpCandidate(data, rt).At? ==> |r.value| >= 1 && r.value[|r.value| - 1] == IpCandidate(data, rt).p
  {
    var g := GpsCandidate(data, rt);
    var i := IpCandidate(data, rt);
    if g.Fails? || i.Fails? then None else Some(PointsOf(g) + PointsOf(i))
  }

  /** The outcome of `generate_map`: an exception it lets escape, None
      before any drawing, or a drawn map of the plotted points, which
      `saved` says was written (the function returns its path) or not (the
      function returns None). */
  datatype MapOutcome = Raised | NoMap | Drawn(points: seq<Point>, saved: bool)

  const DistanceKey := "_map_distance_km"

  /** The report dictionary `generate_map` reads and writes. */
  class Report {
    var data: map<string, Json>

    constructor (data0: map<string, Json>)
      ensures data == data0
    {
      data := data0;
    }

    /** `generate_map(data)`. `hasFolium` says whether the import succeeds,
        `geodesic` is the distance in kilometres or None when it raises, and
        `saveOk` whether writing the HTML file succeeds. */
    method GenerateMap(hasFolium: bool, rt: Runtime, geodesic: (Point, Point) -> Option<real>, saveOk: bool)
      returns (outcome: MapOutcome)
      modifies this
      ensures !hasFolium ==> outcome == NoMap
      ensures hasFolium && Points(old(data), rt).None? ==> outcome == Raised
      ensures hasFolium && Points(old(data), rt) == Some([]) ==> outcome == NoMap
      ensures hasFolium && Points(old(data), rt).Some? && Points(old(data), rt).value != [] ==>
        outcome == Drawn(Points(old(data), rt).value, saveOk)
      ensures outcome.Drawn? && |outcome.points| == 2 && geodesic(outcome.points[0], outcome.points[1]).Some?
        ==> data == old(data)[DistanceKey := Num(geodesic(outcome.points[0], outcome.points[1]).value)]
      ensures !(outcome.Drawn? && |outcome.points| == 2 && geodesic(outcome.points[0], outcome.points[1]).Some?)
        ==> data == old(data)
    {
      if !hasFolium {
        return NoMap;
      }
      var gpsInfo := Get(data, "gps_location");
      var ipLoc := Get(data, "ip_location");
      var coords: seq<Point> := [];
      var g := PointOf(gpsInfo, rt);
      var i := PointOf(ipLoc, rt);
      if g.Fails? || i.Fails? {
        return Raised;
      }
      if g.At? {
        coords := coords + [g.p];
      }
      if i.At? {
        coords := coords + [i.p];
      }
      assert coords == PointsOf(g) + PointsOf(i);
      if coords == [] {
        return NoMap;
      }
      if |coords| >= 2 {
        var distance := geodesic(coords[0], coords[1]);
        if distance.Some? {
          data := data[DistanceKey := Num(distance.value)];
        }
      }
      return Drawn(coords, saveOk);
    }
  }

  // ---------------------------------------------------------------------------
  // Properties
  // ---------------------------------------------------------------------------

  /** A coordinate of exactly zero is falsy, so a location on the equator or
      the prime meridian is not plotted. */
  lemma ZeroCoordinateDropped(info: Json, rt: Runtime)
    requires info.Obj?
    requires Get(info.fields, "latitude") == Num(0.0) || Get(info.fields, "longitude") == Num(0.0)
    ensures PointOf(info, rt) == Skip
  {
  }

  /** The GPS record that `gps_to_location` returns, as the report stores it. */
  function PlaceJson(p: G.GpsPlace): Json {
    var base := map["latitude" := Num(p.latitude), "longitude" := Num(p.longitude), "address" := Str(p.address)];
    if p.place.Some? then Obj(base["country" := p.place.value.country]["city" := p.place.value.city])
    else Obj(base)
  }

  /** A record from `gps_to_location` is plotted at its own coordinates
      exactly when neither is zero, and never makes `generate_map` raise. */
  lemma PlacePlotted(p: G.GpsPlace, rt: Runtime)
    ensures PointOf(PlaceJson(p), rt) ==
      if p.latitude != 0.0 && p.longitude != 0.0 then At(Point(p.latitude, p.longitude)) else Skip
  {
    var f := PlaceJson(p).fields;
    assert "latitude" in f && f["latitude"] == Num(p.latitude);
    assert "longitude" in f && f["longitude"] == Num(p.longitude);
  }

  /** With both locations plotted, the GPS point comes first and the IP point
      second, and they are the points the distance is measured between. */
  lemma GpsBeforeIp(data: map<string, Json>, rt: Runtime)
    requires GpsCandidate(data, rt).At? && IpCandidate(data, rt).At?
    ensures Points(data, rt) == Some([GpsCandidate(data, rt).p, IpCandidate(data, rt).p])
  {
    assert Points(data, rt).Some?;
    var ps := Points(data, rt).value;
    assert |ps| == 2 && ps[0] == GpsCandidate(data, rt).p && ps[1] == IpCandidate(data, rt).p;
    assert ps == [ps[0], ps[1]];
  }
}
