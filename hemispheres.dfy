/** How the two GPS converters of the program relate: `convert_to_degrees`
    with the sign rule of `gps_to_location` (main.py) and `gps_from_exif`
    (extract_metadata.py). Both read the degrees/minutes/seconds triple of
    the Exif GPS Info IFD (GPSLatitude, GPSLatitudeRef, GPSLongitude,
    GPSLongitudeRef, section 4.6.6 of the Exif standard, JEITA CP-3451), but
    under different key names and with different rules for the sign. */
module Hemispheres {
  import opened Builtins
  import G = GpsLocation
  import E = ExifMetadata

  /** A triple of (numerator, denominator) pairs as main.py's GPS dictionary
      holds it. */
  function MainTriple(p: seq<(int, int)>): G.GpsField
    requires |p| == 3
  {
    G.Items([G.Items([G.Number(p[0].0 as real), G.Number(p[0].1 as real)]),
             G.Items([G.Number(p[1].0 as real), G.Number(p[1].1 as real)]),
             G.Items([G.Number(p[2].0 as real), G.Number(p[2].1 as real)])])
  }

  /** The same triple as an EXIF tag object. */
  function ExifTriple(p: seq<(int, int)>): E.TagValue
    requires |p| == 3
  {
    E.IfdTag([E.Ratio(p[0].0, p[0].1), E.Ratio(p[1].0, p[1].1), E.Ratio(p[2].0, p[2].1)])
  }

  /** Both converters compute the same unsigned value from the same triple,
      and both reject it exactly when a denominator is zero. */
  lemma ConversionsAgree(p: seq<(int, int)>)
    requires |p| == 3
    ensures G.ConvertToDegrees(MainTriple(p)) == E.Conv(ExifTriple(p))
    ensures E.Conv(ExifTriple(p)).Some? <==> p[0].1 != 0 && p[1].1 != 0 && p[2].1 != 0
  {
    var v := ExifTriple(p);
    var m := MainTriple(p);
    assert forall i :: 0 <= i < 3 ==> v.values[i] == E.Ratio(p[i].0, p[i].1);
    assert forall i :: 0 <= i < 3 ==>
      G.RatioOf(m.items[i]) == (if p[i].1 != 0 then Some(p[i].0 as real / p[i].1 as real) else None);
  }

  /** main.py's dictionary for a coordinate pair with the given references. */
  function MainGps(lat: seq<(int, int)>, latRef: string, lon: seq<(int, int)>, lonRef: string): map<string, G.GpsField>
    requires |lat| == 3 && |lon| == 3
  {
    map["GPSLatitude" := MainTriple(lat), "GPSLatitudeRef" := G.Text(latRef),
        "GPSLongitude" := MainTriple(lon), "GPSLongitudeRef" := G.Text(lonRef)]
  }

  /** extract_metadata.py's dictionary for the same pair. */
  function ExifGps(lat: seq<(int, int)>, latRef: string, lon: seq<(int, int)>, lonRef: string): map<string, E.TagValue>
    requires |lat| == 3 && |lon| == 3
  {
    map["GPS GPSLatitude" := ExifTriple(lat), "GPS GPSLatitudeRef" := E.Text(latRef),
        "GPS GPSLongitude" := ExifTriple(lon), "GPS GPSLongitudeRef" := E.Text(lonRef)]
  }

  /** On proper hemisphere references ("N" or "S", "E" or "W") the two
      converters give the same signed coordinates, or both give none. */
  lemma AgreeOnHemispheres(lat: seq<(int, int)>, latRef: string, lon: seq<(int, int)>, lonRef: string)
    requires |lat| == 3 && |lon| == 3
    requires latRef == "N" || latRef == "S"
    requires lonRef == "E" || lonRef == "W"
    ensures var g := G.GpsCoordinates(Some(MainGps(lat, latRef, lon, lonRef)));
      var e := E.GpsFromExif(Some(ExifGps(lat, latRef, lon, lonRef)));
      g.Some? == e.Some? && (g.Some? ==> g.value == (e.value.latitude, e.value.longitude))
  {
    ConversionsAgree(lat);
    ConversionsAgree(lon);
    var gm := MainGps(lat, latRef, lon, lonRef);
    var em := ExifGps(lat, latRef, lon, lonRef);
    assert gm["GPSLatitude"] == MainTriple(lat) && gm["GPSLongitude"] == MainTriple(lon);
    assert em["GPS GPSLatitude"] == ExifTriple(lat) && em["GPS GPSLongitude"] == ExifTriple(lon);
    assert gm["GPSLatitudeRef"] == G.Text(latRef) && em["GPS GPSLatitudeRef"] == E.Text(latRef);
    assert gm["GPSLongitudeRef"] == G.Text(lonRef) && em["GPS GPSLongitudeRef"] == E.Text(lonRef);
  }

  /** Any other latitude reference, and a missing one, splits them: main.py
      keeps the value positive, extract_metadata.py negates it. */
  lemma DisagreeOtherwise(x: real, ref: Option<string>)
    requires x != 0.0
    requires ref.None? || (ref.value != "N" && ref.value != "S")
    ensures var gm := if ref.Some? then map["GPSLatitudeRef" := G.Text(ref.value)] else map[];
      var em := if ref.Some? then map["GPS GPSLatitudeRef" := E.Text(ref.value)] else map[];
      G.Signed(x, gm, "GPSLatitudeRef", "S") == x &&
      E.SignedUnless(x, E.Lookup(em, "GPS GPSLatitudeRef"), "N") == -x &&
      G.Signed(x, gm, "GPSLatitudeRef", "S") != E.SignedUnless(x, E.Lookup(em, "GPS GPSLatitudeRef"), "N")
  {
  }
}
