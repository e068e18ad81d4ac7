/** `ip_to_geolocation` of main.py: four geolocation services asked in a
    fixed order, the first usable answer normalised into one record, and a
    last ipwho.is request when none of them answered usably. */
module IpGeolocation {
  import opened Builtins

  /** What one HTTP request gave: an exception (network error, timeout), or
      a status code with the body decoded as JSON (None when `res.json()`
      raises). */
  datatype Reply = Raised | Response(status: int, body: Option<Json>)

  /** The normalised record. Every field except `ip` is a JSON value;
      `latitude` and `longitude` hold a float or None. */
  datatype IpLocation = IpLocation(
    ip: string, city: Json, region: Json, country: Json,
    latitude: Json, longitude: Json, org: Json)

  /** The services in the order they are asked. */
  function ServiceUrls(ip: string): (urls: seq<string>)
    ensures |urls| == 4
  {
    [ "https://ipinfo.io/" + ip + "/json",
      "https://ipapi.co/" + ip + "/json/",
      "https://ipwho.is/" + ip,
      "http://ip-api.com/json/" + ip ]
  }

  function FallbackUrl(ip: string): string {
    "https://ipwho.is/" + ip
  }

  /** A service answer the loop keeps: status 200, a JSON object, no truthy
      "error" and no "status" equal to "fail". A body that is not an object
      makes a later `data.get` raise, which also skips the service. */
  predicate Accepted(reply: Reply) {
    reply.Response? && reply.status == 200 && reply.body.Some? && reply.body.value.Obj?
    && !Truthy(Get(reply.body.value.fields, "error"))
    && Get(reply.body.value.fields, "status") != Str("fail")
  }

  /** The index of the first service whose answer is accepted, at or after
      `from`; 4 when there is none. The network answers call number `k`
      for `url` with `net(k, url)`. */
  function FirstAccepted(ip: string, net: (nat, string) -> Reply, from: nat): (k: nat)
    requires from <= 4
    decreases 4 - from
    ensures from <= k <= 4
    ensures k < 4 ==> Accepted(net(k, ServiceUrls(ip)[k]))
    ensures forall j :: from <= j < k ==> !Accepted(net(j, ServiceUrls(ip)[j]))
  {
    if from == 4 then 4
    else if Accepted(net(from, ServiceUrls(ip)[from])) then from
    else FirstAccepted(ip, net, from + 1)
  }

  // ---------------------------------------------------------------------------
  // Normalisation
  // ---------------------------------------------------------------------------

  /** The coordinates read from keys: `latitude`/`longitude` when both keys
      are present, replaced by `lat`/`lon` when both of those are. */
  function KeyedCoordinates(d: map<string, Json>): (r: (Json, Json))
    ensures "lat" in d && "lon" in d ==> r == (d["lat"], d["lon"])
    ensures !("lat" in d && "lon" in d) && "latitude" in d && "longitude" in d ==> r == (d["latitude"], d["longitude"])
    ensures !("lat" in d && "lon" in d) && !("latitude" in d && "longitude" in d) ==> r == (Null, Null)
  {
    var fromLong := if "latitude" in d && "longitude" in d then (d["latitude"], d["longitude"]) else (Null, Null);
    if "lat" in d && "lon" in d then (d["lat"], d["lon"]) else fromLong
  }

  /** The `loc` fallback: used only when the latitude found so far is falsy
      and `loc` is truthy; its text must split on ',' into exactly two parts,
      which are stripped. Otherwise the coordinates stay as they were. */
  function WithLoc(d: map<string, Json>, coords: (Json, Json), rt: Runtime): (r: (Json, Json))
    ensures r != coords ==> !Truthy(coords.0) && Truthy(Get(d, "loc"))
    ensures r != coords ==> var parts := Split(StrOf(Get(d, "loc"), rt), ",");
      |parts| == 2 && r == (Str(Strip(parts[0])), Str(Strip(parts[1])))
    ensures Truthy(coords.0) ==> r == coords
    ensures !Truthy(coords.0) && Truthy(Get(d, "loc")) ==> var parts := Split(StrOf(Get(d, "loc"), rt), ",");
      (|parts| == 2 ==> r == (Str(Strip(parts[0])), Str(Strip(parts[1])))) && (|parts| != 2 ==> r == coords)
    ensures !Truthy(Get(d, "loc")) ==> r == coords
  {
    if !Truthy(coords.0) && Truthy(Get(d, "loc")) then
      var parts := Split(StrOf(Get(d, "loc"), rt), ",");
      if |parts| == 2 then (Str(Strip(parts[0])), Str(Strip(parts[1]))) else coords
    else coords
  }

  /** `float(v) if v is not None else None`, None when `float` raises. */
  function FloatOrNone(v: Json, rt: Runtime): (r: Json)
    ensures r == Null || r.Num?
    ensures r.Num? <==> ToFloat(v, rt).Some?
    ensures r.Num? ==> r.n == ToFloat(v, rt).value
  {
    if v == Null then Null
    else match ToFloat(v, rt)
      case Some(x) => Num(x)
      case None => Null
  }

  /** The record built from an accepted answer `d`. */
  function Normalize(ip: string, d: map<string, Json>, rt: Runtime): (r: IpLocation)
    ensures r.ip == ip
    ensures r.latitude == Null || r.latitude.Num?
    ensures r.longitude == Null || r.longitude.Num?
  {
    var coords := WithLoc(d, KeyedCoordinates(d), rt);
    IpLocation(
      ip,
      Or(Or(Get(d, "city"), Get(d, "regionName")), Get(d, "region")),
      Or(Get(d, "region"), Get(d, "regionName")),
      Or(Get(d, "country_name"), Get(d, "country")),
      FloatOrNone(coords.0, rt),
      FloatOrNone(coords.1, rt),
      Or(Get(d, "org"), Get(d, "isp")))
  }

  /** The last ipwho.is request: kept when it answers 200 with an object
      whose "success" is truthy. The raw fields are copied; "org" comes from
      the "connection" object, and a "connection" that is not an object
      makes the `.get` raise, which gives None. */
  function FallbackRecord(ip: string, reply: Reply): (r: Option<IpLocation>)
    ensures r.Some? ==> reply.Response? && reply.status == 200 && reply.body.Some? && reply.body.value.Obj?
                        && Truthy(Get(reply.body.value.fields, "success"))
    ensures r.Some? ==> var d := reply.body.value.fields;
      r.value.ip == ip && r.value.latitude == Get(d, "latitude") && r.value.longitude == Get(d, "longitude")
      && r.value.city == Get(d, "city") && r.value.region == Get(d, "region") && r.value.country == Get(d, "country")
    ensures r.Some? ==> var c := GetOr(reply.body.value.fields, "connection", Obj(map[]));
      c.Obj? && r.value.org == Get(c.fields, "org")
    ensures (reply.Response? && reply.status == 200 && reply.body.Some? && reply.body.value.Obj?
             && Truthy(Get(reply.body.value.fields, "success"))
             && GetOr(reply.body.value.fields, "connection", Obj(map[])).Obj?) ==> r.Some?
  {
    if reply.Response? && reply.status == 200 && reply.body.Some? && reply.body.value.Obj?
       && Truthy(Get(reply.body.value.fields, "success")) then
      var d := reply.body.value.fields;
      var connection := GetOr(d, "connection", Obj(map[]));
      if connection.Obj? then
        Some(IpLocation(ip, Get(d, "city"), Get(d, "region"), Get(d, "country"),
                        Get(d, "latitude"), Get(d, "longitude"), Get(connection.fields, "org")))
      else None
    else None
  }

  // ---------------------------------------------------------------------------
  // The provider loop
  // ---------------------------------------------------------------------------

  /** `ip_to_geolocation(ip)`, where `ip` None stands for Python's None.
      `calls` lists the URLs requested, in order. */
  method IpToGeolocation(ip: Option<string>, net: (nat, string) -> Reply, rt: Runtime)
    returns (r: Option<IpLocation>, calls: seq<string>)
    ensures ip.None? || ip.value == [] ==> r.None? && calls == []
    ensures ip.Some? && ip.value != [] ==>
      var k := FirstAccepted(ip.value, net, 0);
      var urls := ServiceUrls(ip.value);
      if k < 4 then
        calls == urls[..k + 1] &&
        r == Some(Normalize(ip.value, net(k, urls[k]).body.value.fields, rt))
      else
        calls == urls + [FallbackUrl(ip.value)] &&
        r == FallbackRecord(ip.value, net(4, FallbackUrl(ip.value)))
  {
    calls := [];
    if ip.None? || ip.value == [] {
      return None, calls;
    }
    var services := ServiceUrls(ip.value);
    var i := 0;
    while i < 4
      invariant 0 <= i <= 4
      invariant calls == services[..i]
      invariant forall j :: 0 <= j < i ==> !Accepted(net(j, services[j]))
    {
      var reply := net(i, services[i]);
      calls := calls + [services[i]];
      if reply.Raised? || reply.status != 200 || reply.body.None? {
        i := i + 1;
        continue;
      }
      var data := reply.body.value;
      if !data.Obj? {
        i := i + 1;
        continue;
      }
      if Truthy(Get(data.fields, "error")) || Get(data.fields, "status") == Str("fail") {
        i := i + 1;
        continue;
      }
      assert services[..i + 1] == services[..i] + [services[i]];
      return Some(Normalize(ip.value, data.fields, rt)), calls;
    }
    assert services[..4] == services;
    var fallback := FallbackUrl(ip.value);
    calls := calls + [fallback];
    r := FallbackRecord(ip.value, net(4, fallback));
  }

  // ---------------------------------------------------------------------------
  // Properties
  // ---------------------------------------------------------------------------

  /** A truthy `lat` with a `lon` key decides the coordinates: `latitude`,
      `longitude` and `loc` are then ignored. */
  lemma LatLonWins(ip: string, d: map<string, Json>, rt: Runtime)
    requires "lat" in d && "lon" in d && Truthy(d["lat"])
    ensures Normalize(ip, d, rt).latitude == FloatOrNone(d["lat"], rt)
    ensures Normalize(ip, d, rt).longitude == FloatOrNone(d["lon"], rt)
  {
  }

  /** Without a `lat`/`lon` pair, a truthy `latitude` with a `longitude` key
      decides the coordinates. */
  lemma LatitudeLongitudeNext(ip: string, d: map<string, Json>, rt: Runtime)
    requires !("lat" in d && "lon" in d)
    requires "latitude" in d && "longitude" in d && Truthy(d["latitude"])
    ensures Normalize(ip, d, rt).latitude == FloatOrNone(d["latitude"], rt)
    ensures Normalize(ip, d, rt).longitude == FloatOrNone(d["longitude"], rt)
  {
  }

  /** ipinfo's `loc` "a,b": with no coordinate keys it gives the stripped
      halves, each converted by `float`. */
  lemma LocSplits(ip: string, d: map<string, Json>, rt: Runtime, a: string, b: string)
    requires "lat" !in d && "latitude" !in d
    requires ',' !in a && ',' !in b
    requires "loc" in d && d["loc"] == Str(a + "," + b)
    ensures Normalize(ip, d, rt).latitude == FloatOrNone(Str(Strip(a)), rt)
    ensures Normalize(ip, d, rt).longitude == FloatOrNone(Str(Strip(b)), rt)
  {
    LocCoordinates(d, rt, a, b);
  }

  /** The coordinates `LocSplits` reads off `loc`. */
  lemma LocCoordinates(d: map<string, Json>, rt: Runtime, a: string, b: string)
    requires "lat" !in d && "latitude" !in d
    requires ',' !in a && ',' !in b
    requires "loc" in d && d["loc"] == Str(a + "," + b)
    ensures WithLoc(d, KeyedCoordinates(d), rt) == (Str(Strip(a)), Str(Strip(b)))
  {
    var loc := a + "," + b;
    assert loc == a + [','] + b;
    SplitOnce(a, ',', b);
    assert Get(d, "loc") == Str(loc) && Truthy(Str(loc));
    assert StrOf(Get(d, "loc"), rt) == loc;
    var parts := Split(loc, ",");
    assert parts[0] == a && parts[1] == b;
    assert KeyedCoordinates(d) == (Null, Null) && !Truthy(Null);
  }

  /** A `loc` that does not cut into exactly two parts leaves the
      coordinates as the keys gave them. */
  lemma LocMalformedIgnored(ip: string, d: map<string, Json>, rt: Runtime)
    requires |Split(StrOf(Get(d, "loc"), rt), ",")| != 2
    ensures Normalize(ip, d, rt).latitude == FloatOrNone(KeyedCoordinates(d).0, rt)
    ensures Normalize(ip, d, rt).longitude == FloatOrNone(KeyedCoordinates(d).1, rt)
  {
  }

  /** `loc` is consulted only when the latitude from the keys is falsy. */
  lemma LocOnlyWhenLatFalsy(d: map<string, Json>, rt: Runtime)
    requires WithLoc(d, KeyedCoordinates(d), rt) != KeyedCoordinates(d)
    ensures !Truthy(KeyedCoordinates(d).0) && Truthy(Get(d, "loc"))
  {
  }

  /** The text fields take the first truthy key in their fallback chain. */
  lemma FieldFallbacks(ip: string, d: map<string, Json>, rt: Runtime)
    ensures var n := Normalize(ip, d, rt);
      (Truthy(n.city) <==> Truthy(Get(d, "city")) || Truthy(Get(d, "regionName")) || Truthy(Get(d, "region"))) &&
      (Truthy(Get(d, "city")) ==> n.city == d["city"]) &&
      (!Truthy(Get(d, "city")) && Truthy(Get(d, "regionName")) ==> n.city == d["regionName"]) &&
      (!Truthy(Get(d, "city")) && !Truthy(Get(d, "regionName")) ==> n.city == Get(d, "region")) &&
      (Truthy(n.region) <==> Truthy(Get(d, "region")) || Truthy(Get(d, "regionName"))) &&
      (Truthy(Get(d, "region")) ==> n.region == d["region"]) &&
      (!Truthy(Get(d, "region")) ==> n.region == Get(d, "regionName")) &&
      (Truthy(Get(d, "country_name")) ==> n.country == d["country_name"]) &&
      (!Truthy(Get(d, "country_name")) ==> n.country == Get(d, "country")) &&
      (Truthy(Get(d, "org")) ==> n.org == d["org"]) &&
      (!Truthy(Get(d, "org")) ==> n.org == Get(d, "isp"))
  {
  }

  /** An unparseable coordinate does not reject the answer: the accepted
      service's record is returned with None in that field. */
  lemma UnparseableStillAccepted(reply: Reply, ip: string, rt: Runtime)
    requires Accepted(reply)
    requires ToFloat(WithLoc(reply.body.value.fields, KeyedCoordinates(reply.body.value.fields), rt).0, rt).None?
    ensures Normalize(ip, reply.body.value.fields, rt).latitude == Null
  {
  }

  /** An ipwho.is failure answer (`success` false, with a message) has no
      "error" key and no "status", so the service loop accepts it and
      returns a record whose every field but `ip` is None. */
  lemma FailedLookupAccepted(ip: string, msg: string, rt: Runtime)
    ensures var d := map["success" := Bool(false), "message" := Str(msg)];
      Accepted(Response(200, Some(Obj(d))))
      && Normalize(ip, d, rt) == IpLocation(ip, Null, Null, Null, Null, Null, Null)
  {
    var d := map["success" := Bool(false), "message" := Str(msg)];
    assert "error" !in d && "status" !in d && "loc" !in d;
    assert "lat" !in d && "latitude" !in d;
    assert "city" !in d && "regionName" !in d && "region" !in d && "country_name" !in d;
    assert "country" !in d && "org" !in d && "isp" !in d;
  }

  /** An ipwho.is answer with a falsy "success" gives None, and so does one
      whose "connection" is present but not an object. */
  lemma FallbackRejects(ip: string, reply: Reply)
    requires reply.Response? && reply.body.Some? && reply.body.value.Obj?
    requires !Truthy(Get(reply.body.value.fields, "success"))
          || ("connection" in reply.body.value.fields && !reply.body.value.fields["connection"].Obj?)
    ensures FallbackRecord(ip, reply).None?
  {
  }

  /** The first accepted service is the answer: every service before it was
      skipped, and no later one is asked. */
  lemma {:induction false} FirstAcceptedIsLeast(ip: string, net: (nat, string) -> Reply, k: nat)
    requires k < 4 && Accepted(net(k, ServiceUrls(ip)[k]))
    requires forall j :: 0 <= j < k ==> !Accepted(net(j, ServiceUrls(ip)[j]))
    ensures FirstAccepted(ip, net, 0) == k
  {
    var f := FirstAccepted(ip, net, 0);
    assert f <= k;
  }
}
