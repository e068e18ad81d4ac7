/** `convert_to_degrees` and `gps_to_location` of main.py: the GPS values of
    an image turned into signed decimal degrees, then into a place by a
    reverse geocoder that is asked once through a rate limiter and then up
    to three more times. */
module GpsLocation {
  import opened Builtins

  /** A value of the GPS dictionary: a number (int or float), a string, or
      a tuple or list of values. */
  datatype GpsField = Number(x: real) | Text(s: string) | Items(items: seq<GpsField>)

  /** `d[0]/d[1]` for one component of a degrees/minutes/seconds triple;
      None when it raises (not a sequence, too short, not numbers, or a zero
      denominator). */
  function RatioOf(f: GpsField): (r: Option<real>)
    ensures r.Some? <==> f.Items? && |f.items| >= 2 && f.items[0].Number? && f.items[1].Number? && f.items[1].x != 0.0
    ensures r.Some? ==> r.value * f.items[1].x == f.items[0].x
  {
    if f.Items? && |f.items| >= 2 && f.items[0].Number? && f.items[1].Number? && f.items[1].x != 0.0
    then Some(f.items[0].x / f.items[1].x)
    else None
  }

  /** `convert_to_degrees(value)`: exactly three components, each a ratio,
      giving degrees + minutes/60 + seconds/3600; None instead of any
      exception. */
  function ConvertToDegrees(v: GpsField): (r: Option<real>)
    ensures r.Some? <==> v.Items? && |v.items| == 3 && RatioOf(v.items[0]).Some?
                         && RatioOf(v.items[1]).Some? && RatioOf(v.items[2]).Some?
    ensures r.Some? ==> r.value == RatioOf(v.items[0]).value + RatioOf(v.items[1]).value / 60.0
                                   + RatioOf(v.items[2]).value / 3600.0
  {
    if v.Items? && |v.items| == 3 then
      match (RatioOf(v.items[0]), RatioOf(v.items[1]), RatioOf(v.items[2]))
      case (Some(d), Some(m), Some(s)) => Some(d + m / 60.0 + s / 3600.0)
      case _ => None
    else None
  }

  /** A degrees/minutes/seconds triple written as whole-number ratios. */
  function Dms(d: int, m: int, s: int): GpsField {
    Items([Items([Number(d as real), Number(1.0)]),
           Items([Number(m as real), Number(1.0)]),
           Items([Number(s as real), Number(1.0)])])
  }

  /** `-x` when the reference under `key` is exactly the string `negative`. */
  function Signed(x: real, gps: map<string, GpsField>, key: string, negative: string): real {
    if key in gps && gps[key] == Text(negative) then -x else x
  }

  /** The signed coordinates `gps_to_location` works with, or None when it
      returns None before asking the geocoder: no data, a missing key, or a
      value `convert_to_degrees` rejects. */
  function GpsCoordinates(gps: Option<map<string, GpsField>>): (r: Option<(real, real)>)
    ensures r.Some? ==> gps.Some? && "GPSLatitude" in gps.value && "GPSLongitude" in gps.value
    ensures r.Some? <==> (gps.Some? && "GPSLatitude" in gps.value && "GPSLongitude" in gps.value
                          && ConvertToDegrees(gps.value["GPSLatitude"]).Some?
                          && ConvertToDegrees(gps.value["GPSLongitude"]).Some?)
  {
    if gps.None? || gps.value == map[] || "GPSLatitude" !in gps.value || "GPSLongitude" !in gps.value then None
    else
      var g := gps.value;
      match (ConvertToDegrees(g["GPSLatitude"]), ConvertToDegrees(g["GPSLongitude"]))
      case (Some(lat), Some(lon)) =>
        Some((Signed(lat, g, "GPSLatitudeRef", "S"), Signed(lon, g, "GPSLongitudeRef", "W")))
      case _ => None
  }

  // ---------------------------------------------------------------------------
  // Reverse geocoding
  // ---------------------------------------------------------------------------

  /** What one reverse-geocoding call gave: an exception, no location, or a
      location with its address line and the provider's raw JSON. */
  datatype GeoReply = GeoRaised | NoLocation | Located(address: string, raw: Json)

  datatype Place = Place(country: Json, city: Json)

  /** The result record; `place` is None for the "Not found" record, which
      has no country or city keys. */
  datatype GpsPlace = GpsPlace(latitude: real, longitude: real, address: string, place: Option<Place>)

  /** The "address" object of the raw reply, `{}` when the key is absent. */
  function AddressOf(reply: GeoReply): Json
    requires reply.Located? && reply.raw.Obj?
  {
    GetOr(reply.raw.fields, "address", Obj(map[]))
  }

  /** A reply an attempt returns from: a location whose raw reply and
      address are objects (otherwise a `.get` raises and the attempt is
      retried). */
  predicate Usable(reply: GeoReply) {
    reply.Located? && reply.raw.Obj? && AddressOf(reply).Obj?
  }

  /** The record returned for a usable reply. */
  function PlaceRecord(lat: real, lon: real, reply: GeoReply): (r: GpsPlace)
    requires Usable(reply)
    ensures r.latitude == lat && r.longitude == lon && r.address == reply.address && r.place.Some?
  {
    var a := AddressOf(reply).fields;
    GpsPlace(lat, lon, reply.address,
      Some(Place(GetOr(a, "country", Str("Unknown")),
                 Or(Or(Or(Get(a, "city"), Get(a, "town")), Get(a, "village")), Get(a, "state_district")))))
  }

  /** The index of the first usable attempt at or after `from`; 4 when none
      of attempts 1, 2 and 3 is usable. Call 0 is the rate-limited call made
      before the loop. */
  function FirstUsable(geocoder: (nat, real, real) -> GeoReply, lat: real, lon: real, from: nat): (k: nat)
    requires 1 <= from <= 4
    decreases 4 - from
    ensures from <= k <= 4
    ensures k < 4 ==> Usable(geocoder(k, lat, lon))
    ensures forall j :: from <= j < k ==> !Usable(geocoder(j, lat, lon))
  {
    if from == 4 then 4
    else if Usable(geocoder(from, lat, lon)) then from
    else FirstUsable(geocoder, lat, lon, from + 1)
  }

  /** `gps_to_location(gps_data)`. The geocoder answers call number `k` with
      `geocoder(k, lat, lon)`; `calls` counts the calls made. */
  method GpsToLocation(gps: Option<map<string, GpsField>>, geocoder: (nat, real, real) -> GeoReply)
    returns (r: Option<GpsPlace>, calls: nat)
    ensures GpsCoordinates(gps).None? ==> r.None? && calls == 0
    ensures GpsCoordinates(gps).Some? ==>
      var (lat, lon) := GpsCoordinates(gps).value;
      if geocoder(0, lat, lon).GeoRaised? then r.None? && calls == 1
      else
        var k := FirstUsable(geocoder, lat, lon, 1);
        if k < 4 then r == Some(PlaceRecord(lat, lon, geocoder(k, lat, lon))) && calls == k + 1
        else r == Some(GpsPlace(lat, lon, "Not found", None)) && calls == 4
    ensures r.Some? ==> GpsCoordinates(gps) == Some((r.value.latitude, r.value.longitude))
    ensures calls <= 4
  {
    calls := 0;
    var coords := GpsCoordinates(gps);
    if coords.None? {
      return None, calls;
    }
    var (lat, lon) := coords.value;
    var first := geocoder(0, lat, lon);
    calls := 1;
    if first.GeoRaised? {
      return None, calls;
    }
    var attempt := 1;
    while attempt <= 3
      invariant 1 <= attempt <= 4 && calls == attempt
      invariant forall j :: 1 <= j < attempt ==> !Usable(geocoder(j, lat, lon))
    {
      var location := geocoder(attempt, lat, lon);
      calls := calls + 1;
      if location.Located? && location.raw.Obj? {
        var address := GetOr(location.raw.fields, "address", Obj(map[]));
        if address.Obj? {
          return Some(PlaceRecord(lat, lon, location)), calls;
        }
      }
      attempt := attempt + 1;
    }
    return Some(GpsPlace(lat, lon, "Not found", None)), calls;
  }

  // ---------------------------------------------------------------------------
  // Properties
  // ---------------------------------------------------------------------------

  /** Whole degrees, minutes and seconds come back out of the decimal value:
      the conversion loses nothing. */
  lemma DmsRoundTrip(d: nat, m: nat, s: nat)
    requires m < 60 && s < 60
    ensures ConvertToDegrees(Dms(d, m, s)).Some?
    ensures var x := ConvertToDegrees(Dms(d, m, s)).value;
      x.Floor == d && ((x - d as real) * 60.0).Floor == m
      && (x - d as real - m as real / 60.0) * 3600.0 == s as real
  {
    var x := ConvertToDegrees(Dms(d, m, s)).value;
    assert x == d as real + m as real / 60.0 + s as real / 3600.0;
    assert (x - d as real) * 60.0 == m as real + s as real / 60.0;
  }

  /** A triple with a zero denominator, or a value with other than three
      components, converts to None. */
  lemma ConvertRejects(v: GpsField)
    requires !v.Items? || |v.items| != 3
      || exists i :: 0 <= i < |v.items| && v.items[i].Items? && |v.items[i].items| >= 2
                     && v.items[i].items[1] == Number(0.0)
    ensures ConvertToDegrees(v).None?
  {
  }

  /** The sign rule of main.py: latitude is negated exactly when its
      reference is the string "S", longitude exactly when it is "W"; a
      missing or any other reference keeps the unsigned value. */
  lemma SignRule(gps: map<string, GpsField>)
    requires GpsCoordinates(Some(gps)).Some?
    ensures var (lat, lon) := GpsCoordinates(Some(gps)).value;
      var ulat := ConvertToDegrees(gps["GPSLatitude"]).value;
      var ulon := ConvertToDegrees(gps["GPSLongitude"]).value;
      (lat == if "GPSLatitudeRef" in gps && gps["GPSLatitudeRef"] == Text("S") then -ulat else ulat) &&
      (lon == if "GPSLongitudeRef" in gps && gps["GPSLongitudeRef"] == Text("W") then -ulon else ulon)
  {
  }

  /** A usable reply's city falls back city, town, village, state_district,
      and its country defaults to "Unknown" only when the key is absent. */
  lemma PlaceFallbacks(lat: real, lon: real, reply: GeoReply)
    requires Usable(reply)
    ensures var a := AddressOf(reply).fields;
      var p := PlaceRecord(lat, lon, reply).place.value;
      (p.country == if "country" in a then a["country"] else Str("Unknown")) &&
      (Truthy(Get(a, "city")) ==> p.city == a["city"]) &&
      (!Truthy(Get(a, "city")) && Truthy(Get(a, "town")) ==> p.city == a["town"]) &&
      (!Truthy(Get(a, "city")) && !Truthy(Get(a, "town")) && Truthy(Get(a, "village")) ==> p.city == a["village"]) &&
      (!Truthy(Get(a, "city")) && !Truthy(Get(a, "town")) && !Truthy(Get(a, "village")) ==> p.city == Get(a, "state_district"))
  {
  }

  /** The first usable attempt is the one the loop returns from. */
  lemma {:induction false} FirstUsableIsLeast(geocoder: (nat, real, real) -> GeoReply, lat: real, lon: real, k: nat)
    requires 1 <= k < 4 && Usable(geocoder(k, lat, lon))
    requires forall j :: 1 <= j < k ==> !Usable(geocoder(j, lat, lon))
    ensures FirstUsable(geocoder, lat, lon, 1) == k
  {
    var f := FirstUsable(geocoder, lat, lon, 1);
    assert f <= k;
  }
}
