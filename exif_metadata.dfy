/** extract_metadata.py: the tag-renaming loop of `extract_metadata` and the
    EXIF GPS converter `gps_from_exif`, whose hemisphere rule differs from
    the one in main.py. */
module ExifMetadata {
  import opened Builtins

  // ---------------------------------------------------------------------------
  // extract_metadata
  // ---------------------------------------------------------------------------

  /** A key of the metadata dictionary: the tag table's name for a known tag,
      the raw numeric tag id otherwise. */
  datatype TagKey = Named(name: string) | RawId(id: int)

  /** `TAGS.get(tag, tag)`. */
  function KeyOf(tag: int, tags: map<int, string>): (k: TagKey)
    ensures k.Named? <==> tag in tags
    ensures k.Named? ==> k.name == tags[tag]
    ensures k.RawId? ==> k.id == tag
  {
    if tag in tags then Named(tags[tag]) else RawId(tag)
  }

  /** The dictionary the loop has built after the given entries, in order:
      each entry stored under its key, a later entry overwriting an earlier
      one with the same key. */
  function Renamed<V>(entries: seq<(int, V)>, tags: map<int, string>): (m: map<TagKey, V>)
    ensures forall i :: 0 <= i < |entries| ==> KeyOf(entries[i].0, tags) in m
    ensures forall k :: k in m ==> exists i :: 0 <= i < |entries| && KeyOf(entries[i].0, tags) == k
  {
    if entries == [] then map[]
    else
      var init := entries[..|entries| - 1];
      var last := entries[|entries| - 1];
      var m := Renamed(init, tags)[KeyOf(last.0, tags) := last.1];
      assert forall i :: 0 <= i < |init| ==> init[i] == entries[i];
      m
  }

  /** `extract_metadata`: `info` is the image's EXIF block as (tag id, value)
      entries in dictionary order, None when the image has none. */
  method ExtractMetadata<V>(info: Option<seq<(int, V)>>, tags: map<int, string>)
    returns (metadata: map<TagKey, V>)
    ensures info.None? ==> metadata == map[]
    ensures info.Some? ==> metadata == Renamed(info.value, tags)
  {
    metadata := map[];
    if info.Some? {
      var entries := info.value;
      var i := 0;
      while i < |entries|
        invariant 0 <= i <= |entries|
        invariant metadata == Renamed(entries[..i], tags)
      {
        assert entries[..i + 1][..i] == entries[..i];
        metadata := metadata[KeyOf(entries[i].0, tags) := entries[i].1];
        i := i + 1;
      }
      assert entries[..|entries|] == entries;
    }
  }

  /** Each entry's value is the one stored under its key unless a later entry
      has the same key. */
  lemma {:induction false} RenamedLastWins<V>(entries: seq<(int, V)>, tags: map<int, string>, i: nat)
    requires i < |entries|
    requires forall j :: i < j < |entries| ==> KeyOf(entries[j].0, tags) != KeyOf(entries[i].0, tags)
    ensures Renamed(entries, tags)[KeyOf(entries[i].0, tags)] == entries[i].1
  {
    if i < |entries| - 1 {
      var init := entries[..|entries| - 1];
      assert init[i] == entries[i];
      forall j | i < j < |init|
        ensures KeyOf(init[j].0, tags) != KeyOf(init[i].0, tags)
      {
        assert init[j] == entries[j];
      }
      RenamedLastWins(init, tags, i);
    }
  }

  /** When the tag table gives distinct tags distinct names (and no name is
      also a raw id, which the key type already guarantees), the metadata
      holds every entry of the EXIF block unchanged. */
  lemma KeepsEveryEntry<V>(entries: seq<(int, V)>, tags: map<int, string>, i: nat)
    requires i < |entries|
    requires forall p, q :: 0 <= p < q < |entries| ==> entries[p].0 != entries[q].0
    requires forall a, b :: a in tags && b in tags && a != b ==> tags[a] != tags[b]
    ensures Renamed(entries, tags)[KeyOf(entries[i].0, tags)] == entries[i].1
  {
    RenamedLastWins(entries, tags, i);
  }

  // ---------------------------------------------------------------------------
  // gps_from_exif
  // ---------------------------------------------------------------------------

  /** One element of a tag's `values`: a rational with `num` and `den`, or a
      plain integer (which has neither attribute). */
  datatype TagItem = Ratio(num: int, den: int) | Plain(n: int)

  /** A value of the EXIF dictionary: a tag object carrying a list of values,
      or a string. */
  datatype TagValue = IfdTag(values: seq<TagItem>) | Text(s: string)

  /** Python truthiness of a looked-up value: a missing key gives None, a tag
      object is always true, a string when non-empty. */
  predicate Present(v: Option<TagValue>) {
    v.Some? && (v.value.IfdTag? || v.value.s != [])
  }

  function Lookup(d: map<string, TagValue>, key: string): Option<TagValue> {
    if key in d then Some(d[key]) else None
  }

  /** Every element converts: `float(x.num) / float(x.den)` raises for a
      plain integer and for a zero denominator. */
  predicate AllRatios(items: seq<TagItem>) {
    forall i :: 0 <= i < |items| ==> items[i].Ratio? && items[i].den != 0
  }

  function Part(x: TagItem): real
    requires x.Ratio? && x.den != 0
  {
    x.num as real / x.den as real
  }

  /** `conv(value)`: None for a value without `values`, for any element that
      does not convert, and for fewer than three elements. */
  function Conv(v: TagValue): (r: Option<real>)
    ensures r.Some? <==> v.IfdTag? && AllRatios(v.values) && |v.values| >= 3
    ensures r.Some? ==> r.value == Part(v.values[0]) + Part(v.values[1]) / 60.0 + Part(v.values[2]) / 3600.0
  {
    if v.IfdTag? && AllRatios(v.values) && |v.values| >= 3 then
      Some(Part(v.values[0]) + Part(v.values[1]) / 60.0 + Part(v.values[2]) / 3600.0)
    else None
  }

  /** `x` when the reference is exactly the string `positive`, `-x` for any
      other reference and for a missing one. */
  function SignedUnless(x: real, ref: Option<TagValue>, positive: string): real {
    if ref == Some(Text(positive)) then x else -x
  }

  datatype Coordinates = Coordinates(latitude: real, longitude: real)

  /** `gps_from_exif(exif_data)`; None when `exif_data` is None (the `.get`
      raises) and in every other case the function catches. */
  function GpsFromExif(exif: Option<map<string, TagValue>>): (r: Option<Coordinates>)
    ensures r.Some? ==> exif.Some? && Present(Lookup(exif.value, "GPS GPSLatitude"))
                        && Present(Lookup(exif.value, "GPS GPSLongitude"))
  {
    if exif.None? then None
    else
      var d := exif.value;
      var lat := Lookup(d, "GPS GPSLatitude");
      var lon := Lookup(d, "GPS GPSLongitude");
      if Present(lat) && Present(lon) then
        match (Conv(lat.value), Conv(lon.value))
        case (Some(la), Some(lo)) =>
          Some(Coordinates(SignedUnless(la, Lookup(d, "GPS GPSLatitudeRef"), "N"),
                           SignedUnless(lo, Lookup(d, "GPS GPSLongitudeRef"), "E")))
        case _ => None
      else None
  }

  /** The whole contract of `gps_from_exif`: a result exactly when both
      coordinates are present and convert; each coordinate is the unsigned
      conversion, negated unless its reference is exactly "N" (resp. "E"). */
  lemma GpsFromExifExact(d: map<string, TagValue>)
    ensures var r := GpsFromExif(Some(d));
      var lat := Lookup(d, "GPS GPSLatitude");
      var lon := Lookup(d, "GPS GPSLongitude");
      (r.Some? <==> lat.Some? && lon.Some? && Conv(lat.value).Some? && Conv(lon.value).Some?) &&
      (r.Some? ==>
        (r.value.latitude == if Lookup(d, "GPS GPSLatitudeRef") == Some(Text("N"))
                             then Conv(lat.value).value else -Conv(lat.value).value) &&
        (r.value.longitude == if Lookup(d, "GPS GPSLongitudeRef") == Some(Text("E"))
                              then Conv(lon.value).value else -Conv(lon.value).value))
  {
  }

  /** Values beyond the third never change the result, provided they
      convert: the comprehension converts every value. */
  lemma ExtraValuesIgnored(items: seq<TagItem>, extra: seq<TagItem>)
    requires |items| == 3 && AllRatios(items + extra)
    ensures Conv(IfdTag(items + extra)) == Conv(IfdTag(items))
  {
    assert (items + extra)[..3] == items;
    assert forall i :: 0 <= i < 3 ==> (items + extra)[i] == items[i];
  }

  /** A zero denominator anywhere in the list, a plain integer anywhere, or
      fewer than three values gives no conversion. */
  lemma ConvRejects(v: TagValue, i: nat)
    requires v.IfdTag? && i < |v.values|
    requires v.values[i].Plain? || v.values[i].den == 0
    ensures Conv(v).None?
  {
  }

  /** A reference stored as a tag object (as EXIF readers give the GPS Info
      IFD entries) never equals the string "N", so that latitude comes out
      negated whatever hemisphere the tag names. */
  lemma TagObjectRefNegates(d: map<string, TagValue>)
    requires GpsFromExif(Some(d)).Some?
    requires "GPS GPSLatitudeRef" in d && d["GPS GPSLatitudeRef"].IfdTag?
    ensures GpsFromExif(Some(d)).value.latitude == -Conv(d["GPS GPSLatitude"]).value
  {
  }

  /** Only the sign differs between a coordinate and its unsigned
      conversion. */
  lemma MagnitudeKept(d: map<string, TagValue>)
    requires GpsFromExif(Some(d)).Some?
    ensures var c := GpsFromExif(Some(d)).value;
      var la := Conv(d["GPS GPSLatitude"]).value;
      var lo := Conv(d["GPS GPSLongitude"]).value;
      (c.latitude == la || c.latitude == -la) && (c.longitude == lo || c.longitude == -lo)
  {
  }
}
