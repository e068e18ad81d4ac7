# Imgmapon location core, in Dafny

Imgmapon takes an image by path or URL and reports where it comes from: the
GPS position in its EXIF block (reverse-geocoded into an address), the
geolocation of the server that hosts it, and a map with both. This project
models the deterministic core of that pipeline and proves what it promises:

- **URL rewriting** (`main.py`). The Google Drive, Dropbox and Imgur
  resolvers and the Google Photos direct-link extractor are modelled. Their
  regular expressions become hand-written scanners (`Patterns`). The module
  also models the host split of `get_host_ip` and the candidate list that
  `download_image` builds before it starts downloading.
- **IP geolocation** (`main.py`). Four services are asked in a fixed order.
  The first usable answer is normalised by key-precedence rules, and a last
  ipwho.is request is made when none of them answers usably.
- **GPS** (`main.py`). `convert_to_degrees` turns degree/minute/second
  ratios into decimal degrees. The sign rule of `gps_to_location` follows,
  then its reverse-geocoding retry loop.
- **EXIF** (`extract_metadata.py`). The tag-renaming loop of
  `extract_metadata` is modelled, along with `gps_from_exif`. That converter
  has a different hemisphere rule, and `Hemispheres` proves where the two
  converters agree and where they part.
- **Map points** (`main.py`). The point selection of `generate_map` is
  modelled: which of the GPS and IP points are plotted, and the one key it
  writes back into the report.

Everything outside the program is a parameter:

- The network is a function from (call number, URL) to a reply.
- The reverse geocoder is a function from (call number, latitude,
  longitude) to a reply.
- `float()` parsing of strings and `str()` of non-strings are fields of a
  `Runtime` value.
- `html.unescape` is a function parameter.
- Whether `folium` imports, the geodesic distance and whether the map file
  is saved are parameters of `GenerateMap`.

JSON values are a datatype (`Builtins.Json`), and Python truthiness, `or`
and `dict.get` are written out over it. Numbers are exact reals.

Files, one module each:

| file | module |
|---|---|
| `builtins.dfy` | `Builtins` |
| `patterns.dfy` | `Patterns` |
| `url_helpers.dfy` | `UrlHelpers` |
| `download_candidates.dfy` | `DownloadCandidates` |
| `ip_geolocation.dfy` | `IpGeolocation` |
| `gps_location.dfy` | `GpsLocation` |
| `exif_metadata.dfy` | `ExifMetadata` |
| `hemispheres.dfy` | `Hemispheres` |
| `map_points.dfy` | `MapPoints` |

## Model

| member | source | states |
|---|---|---|
| Builtins.Or | main.py:351-355 | `a or b` is truthy iff either operand is, and it is `a` when `a` is truthy, else `b` |
| Builtins.Find | main.py:130-134 | `sub in s`: the index found holds an occurrence, and no earlier index does |
| Builtins.ReplaceAll | main.py:132 | `str.replace` over all non-overlapping occurrences, scanning left to right. Its contract for the `dl=0` → `dl=1` replacement is `UrlHelpers.ReplaceDlExact`: the last character of each `dl=0` occurrence becomes `1` and every other character stays |
| Builtins.Strip | main.py:336-337 | `str.strip` as `StripRight` after `StripLeft`: the result is no longer than the input and neither starts nor ends with whitespace |
| Builtins.StripBothEnds | main.py:336-337 | what `strip` cuts is whitespace only: the result is the slice of the input that starts where the leading whitespace ends, with only whitespace after it |
| Builtins.Split | main.py:283 | `str.split`: at least one part, the parts joined by the separator give back the string, and no part contains the separator. A single part exactly when the separator does not occur; otherwise the first part ends at the first occurrence |
| Builtins.SplitCutsAtFirst | main.py:283 | with more than one part, the first part ends at the first occurrence of the separator, and the remaining parts are the split of what follows that occurrence |
| Builtins.StripLeft | main.py:336-337 | `strip` removes exactly the leading whitespace: the result is a suffix, and everything cut off is whitespace and the first kept character is not |
| Builtins.StripRight | main.py:336-337 | the same for trailing whitespace |
| Builtins.SplitOnce | main.py:335 | a string with exactly one separator character splits into the two pieces around it |
| Patterns.Span | main.py:113 | a greedy `[class]+` run: a prefix of the input, all in the class, and maximal |
| Patterns.SpanOf | main.py:113 | a run followed by a character outside the class is exactly what the greedy run consumes |
| Patterns.MatchAt | main.py:113-118 | a match of the Drive, Imgur, Photos or og:image pattern captures a non-empty group of the pattern's character class; a Photos match starts with `https://lh` and occurs at the match position |
| Patterns.MatchNeeds | main.py:113-118 | the literal characters a Drive (`/d/`, `?id=`/`&id=`) or Imgur (`imgur.com/`) match needs at its position |
| Patterns.Search | main.py:149 | `re.search` finds the leftmost position where the pattern matches, and none before it |
| Patterns.SearchFindsFirst | main.py:149 | a match at an index with no match before it is exactly what `re.search` reports |
| Patterns.PhotosMatchAtStart | main.py:97-98 | a text starting with `https://lh`, digits, `.googleusercontent.com/` and a run of link characters matches the Photos pattern at index 0, and the group is exactly those pieces |
| Patterns.PhotosMatchWhole | main.py:97-98 | when those pieces make up the whole text the group is the whole text |
| UrlHelpers.ExtractGooglePhotosLink | main.py:90-101 | a link is found exactly when the pattern matches somewhere in the unescaped page; a found link is the group of the first (leftmost) match, is non-empty and starts with `https://lh` |
| UrlHelpers.ResolveGoogleDrive | main.py:104-122 | a link exactly when `/d/ID` or `[?&]id=ID` matches; it starts with the download prefix and is longer than it. A `/d/` match gives the prefix followed by its id; without one, the prefix followed by the id of the first `[?&]id=` match |
| UrlHelpers.ResolveDropbox | main.py:125-138 | a link exactly when the URL names `dropbox.com` and has `dl=0` or lacks `dl=1`. With `dl=0` the link is the URL with every `dl=0` replaced by `dl=1`; without `dl=0` and `dl=1` it is the URL with `&dl=1` appended when it has a `?`, else `?dl=1`; the link is non-empty |
| UrlHelpers.ResolveImgur | main.py:141-153 | a URL holding `i.imgur.com` is returned unchanged; otherwise a link exactly when the page pattern matches, and then it is `https://i.imgur.com/` + the id of the first match + `.jpg`; the link is non-empty |
| UrlHelpers.HostOf | main.py:283 | the host piece never contains `/` |
| UrlHelpers.NoSlashChar | main.py:283 | a text in which `/` does not occur holds no `/` character |
| UrlHelpers.SplitAtScheme | main.py:283 | `scheme//rest` splits on `//` into the scheme and the rest |
| UrlHelpers.FirstPieceIsHost | main.py:283 | the first `/`-piece of `host + path` is the host |
| UrlHelpers.HostOfUrl | main.py:283 | for `scheme://host/path`, where the scheme and host hold no `/` and the path holds no `//`, the host split gives exactly `host`, port and user information included. The path condition matters: the source keeps the piece after the LAST `//` |
| UrlHelpers.HostOfBareUrl | main.py:283 | without `//` the whole URL up to the first `/` is the host |
| UrlHelpers.DriveShareLink | main.py:113-116 | a `drive.google.com/file/d/ID...` link becomes `https://drive.google.com/uc?export=download&id=ID` |
| UrlHelpers.DriveDirectLinkParse | main.py:113-121 | in a direct download link `/d/` does not match, and the first `[?&]id=` match is at index 43 and captures the id |
| UrlHelpers.DriveResolveIsFixedPoint | main.py:104-122 | the Drive resolver maps its own output to itself |
| UrlHelpers.ReplaceDlPointwise | main.py:132 | replacing `dl=0` by `dl=1` keeps the length and changes at most `0`s into `1`s |
| UrlHelpers.ReplaceDlHitsEvery | main.py:132 | every `dl=0` occurrence has its `0` turned into `1` |
| UrlHelpers.ReplaceDlKeepsOthers | main.py:132 | a character that does not end a `dl=0` occurrence is unchanged |
| UrlHelpers.ReplaceDlExact | main.py:132 | the replacement character by character: same length, `1` where a `dl=0` occurrence ends, the input character everywhere else |
| UrlHelpers.ReplaceDlLeavesNoDl0 | main.py:132 | no `dl=0` survives the replacement |
| UrlHelpers.ReplaceDlTurnsDl0 | main.py:132 | each `dl=0` occurrence becomes a `dl=1` occurrence at the same index |
| UrlHelpers.ReplaceDlOutcome | main.py:130-132 | after the replacement the URL has no `dl=0`, has `dl=1`, and still names `dropbox.com` |
| UrlHelpers.DropboxAppendedIsDirect | main.py:133-137 | appending `&dl=1` or `?dl=1` to a Dropbox URL without `dl=0` gives one with `dl=1` and no `dl=0` |
| UrlHelpers.DropboxResolvedIsDirect | main.py:125-138 | every link the Dropbox resolver makes names `dropbox.com`, contains `dl=1` and no `dl=0` |
| UrlHelpers.DropboxResolveIsIdempotent | main.py:125-138 | resolving a resolved Dropbox link gives None: it already has `dl=1` and no `dl=0` |
| UrlHelpers.DirectImgurLinkMarked | main.py:152 | every link built by the Imgur resolver contains `i.imgur.com` |
| UrlHelpers.ImgurResolveIsIdempotent | main.py:141-153 | the Imgur resolver's output contains `i.imgur.com` and is mapped to itself |
| UrlHelpers.ImgurPageNotDirect | main.py:147 | an `https://imgur.com/...` page link without a dot after the host is not taken for a direct link |
| UrlHelpers.ImgurPageParse | main.py:149 | in `https://imgur.com/[gallery/\|a/]ID` the first match is at index 8 and captures the id |
| UrlHelpers.ImgurPageLink | main.py:141-153 | such a page link becomes `https://i.imgur.com/ID.jpg` |
| UrlHelpers.PhotosLinkParts | main.py:97-98 | a Photos match is `https://lh` + digits + `.googleusercontent.com/` + a non-empty tail of link characters |
| UrlHelpers.PhotosLinkReadsWhole | main.py:97-98 | a link of that shape matched at its start is captured whole |
| UrlHelpers.PhotosLinkSlices | main.py:97-98 | such a link starts with `https://lh`, and after the digits come `.googleusercontent.com/` and then the tail |
| UrlHelpers.PhotosLinkIsWholeMatch | main.py:90-101 | the extracted link starts with `https://lh`, occurs in the unescaped page, and is itself a whole match of the pattern |
| DownloadCandidates.PhotosPageLink | main.py:191-208 | a front link exists only for a Photos URL whose page answered 200 with a non-empty text (the empty text is falsy and skipped). For such a page the direct link is preferred whenever there is one, and there is a front link whenever the page has a direct link or an og:image tag; without a direct link it is the og:image content |
| DownloadCandidates.IsPhotosUrl | main.py:192 | the Photos test, with `or` binding looser than `and` |
| DownloadCandidates.Appended | main.py:178-189 | a non-empty link not yet present goes last, anything else leaves the list: the old list is a prefix, the length grows by at most one, no duplicates appear, and the members are the old ones plus that link |
| DownloadCandidates.Inserted | main.py:199-208 | a link not yet present goes first with the old list after it; a present link leaves the list as it was; no duplicates appear |
| DownloadCandidates.BaseCandidates | main.py:174-189 | the URL, then the Drive, Dropbox and Imgur rewrites in that order, each only when new |
| DownloadCandidates.CandidateList | main.py:174-208 | the base list with the Photos link inserted in front when there is one |
| DownloadCandidates.AppendedThree | main.py:174-189 | three append steps after the URL give a duplicate-free list of 1 to 4 entries that starts with the URL and holds exactly the URL and the non-empty links |
| DownloadCandidates.BaseCandidatesFacts | main.py:174-189 | the base list starts with the URL and holds exactly the URL and its rewrites, each once |
| DownloadCandidates.CandidateListFacts | main.py:174-208 | the whole list is duplicate-free with 1 to 5 entries, holds the URL, every rewrite and the Photos link and nothing else, and starts with the Photos link whenever that link is new |
| DownloadCandidates.AppendIfNew | main.py:176-189 | the list after one append step is exactly `Appended` of the list before |
| DownloadCandidates.InsertFrontIfNew | main.py:198-208 | the list after one insert step is exactly `Inserted` of the list before |
| DownloadCandidates.BuildCandidates | main.py:156-208 | None exactly for an empty URL. Otherwise the list is exactly `CandidateList`: the URL, its new rewrites in Drive, Dropbox, Imgur order, and the new Photos link in front. So it is duplicate-free with 1 to 5 entries, holds the URL, every rewrite and the Photos link and nothing else, and starts with the Photos link whenever that link is new |
| DownloadCandidates.PhotosPageLinkFromPage | main.py:191-208 | the front link comes only from a 200 Photos page and occurs in that page (decoded or raw) |
| DownloadCandidates.OgImageInPage | main.py:203-206 | the og:image content occurs in the page right after the tag |
| IpGeolocation.ServiceUrls | main.py:297-302 | four services, asked in order |
| IpGeolocation.FirstAccepted | main.py:304-316 | the first service at or after a position whose answer passes the checks (status 200, a JSON object, no truthy `error`, `status` not `"fail"`); none before it passes |
| IpGeolocation.Accepted | main.py:306-315 | an answer is kept when it is a 200 JSON object with no truthy `error` and no `status` of `"fail"` |
| IpGeolocation.FirstAcceptedIsLeast | main.py:304-316 | a passing service with no passing service before it is the one chosen |
| IpGeolocation.IpToGeolocation | main.py:289-389 | A falsy ip gives None with no request. Otherwise the services are requested in order up to and including the first that passes, whose normalised answer is returned. When none passes, all four are requested, then ipwho.is once more, and the fallback record decides the result |
| IpGeolocation.FloatOrNone | main.py:342-349 | the coordinate is a number exactly when `float()` succeeds, and then it is the value `float()` gives; otherwise None |
| IpGeolocation.KeyedCoordinates | main.py:325-330 | a `lat`/`lon` pair (both keys present) wins; else a `latitude`/`longitude` pair; else None for both |
| IpGeolocation.WithLoc | main.py:333-339 | the coordinates change only when the latitude so far is falsy and `loc` is truthy, and then to the stripped halves of a `loc` that splits into exactly two parts. Conversely, a falsy latitude and a truthy `loc` that splits into two parts set them to the stripped halves, and any other split keeps them; a truthy latitude or a falsy `loc` keeps them |
| IpGeolocation.FallbackRecord | main.py:371-387 | a record only for a 200 object answer with truthy `success`; it echoes the ip and copies the raw coordinates, city, region and country, and takes `org` from the `connection` object (an absent `connection` counts as an empty one); such an answer whose `connection` is an object or absent gives a record |
| IpGeolocation.Normalize | main.py:321-365 | the record echoes the ip, and each coordinate is a number or None |
| IpGeolocation.LatLonWins | main.py:325-330 | a truthy `lat`/`lon` pair overrides `latitude`/`longitude` |
| IpGeolocation.LatitudeLongitudeNext | main.py:325-327 | without a `lat`/`lon` pair a truthy `latitude`/`longitude` pair is used |
| IpGeolocation.LocSplits | main.py:333-337 | with no other coordinates, `loc` `"a,b"` gives the stripped halves, each converted by `float` |
| IpGeolocation.LocCoordinates | main.py:333-337 | with no other coordinates, `loc` `"a,b"` makes the coordinates the stripped halves |
| IpGeolocation.LocMalformedIgnored | main.py:333-339 | a `loc` that does not split into exactly two parts leaves the keyed coordinates |
| IpGeolocation.LocOnlyWhenLatFalsy | main.py:333 | `loc` changes the coordinates only when the latitude so far is falsy and `loc` is truthy |
| IpGeolocation.FieldFallbacks | main.py:351-355 | city falls back city, regionName, region; region falls back region, regionName; country falls back country_name, country; org falls back org, isp. A truthy primary key wins outright, and with falsy city and regionName the city is whatever region holds |
| IpGeolocation.UnparseableStillAccepted | main.py:342-357 | an unparseable latitude becomes None and the record is still returned |
| IpGeolocation.FallbackRejects | main.py:371-387 | the last ipwho.is answer gives None when `success` is falsy or `connection` is not an object |
| IpGeolocation.FailedLookupAccepted | main.py:306-365 | an ipwho.is failure answer (`success` false with a message) passes the checks of the service loop and gives a record whose every field but the ip is None |
| GpsLocation.RatioOf | main.py:398 | `x[0]/x[1]` exists exactly for a pair of numbers with a non-zero denominator, and times the denominator gives the numerator |
| GpsLocation.ConvertToDegrees | main.py:395-400 | a result exactly for three convertible ratios, equal to d + m/60 + s/3600 |
| GpsLocation.DmsRoundTrip | main.py:395-400 | whole degrees, minutes (< 60) and seconds (< 60) are recovered from the decimal value |
| GpsLocation.ConvertRejects | main.py:396-400 | a value with other than three components, or a zero denominator, gives None |
| GpsLocation.GpsCoordinates | main.py:403-414 | coordinates exist exactly when both keys are present and both values convert |
| GpsLocation.SignRule | main.py:411-414 | latitude is negated exactly for the reference `"S"` and longitude exactly for `"W"`; any other or missing reference keeps the sign |
| GpsLocation.Signed | main.py:411-414 | the sign step: negate exactly when the reference is the given string |
| GpsLocation.PlaceRecord | main.py:422-433 | the record carries the signed coordinates, the address line and a place |
| GpsLocation.PlaceFallbacks | main.py:424-426 | city falls back city, town, village, state_district; country defaults to "Unknown" only when absent |
| GpsLocation.FirstUsable | main.py:419-423 | the first attempt whose reply is a location with an object `raw` and an object `address`; none before it is |
| GpsLocation.Usable | main.py:422-423 | an attempt returns when its reply is a location whose `raw` and `address` are objects |
| GpsLocation.FirstUsableIsLeast | main.py:419-423 | a usable attempt with none usable before it is the one the loop returns from |
| GpsLocation.GpsToLocation | main.py:403-447 | None without a geocoder call when the coordinates are missing or unconvertible. None when the rate-limited first call raises. Otherwise the record of the first usable of at most three attempts, or the "Not found" record. At most four calls are made, and every record carries the signed coordinates |
| ExifMetadata.KeyOf | extract_metadata.py:12 | a known tag is keyed by its table name, an unknown one by its raw id |
| ExifMetadata.Renamed | extract_metadata.py:11-13 | every entry's key is in the result and every key comes from an entry |
| ExifMetadata.ExtractMetadata | extract_metadata.py:5-14 | an empty dictionary without an EXIF block, else the renamed entries |
| ExifMetadata.RenamedLastWins | extract_metadata.py:11-13 | an entry's value is stored under its key unless a later entry has the same key |
| ExifMetadata.KeepsEveryEntry | extract_metadata.py:11-13 | with distinct tag names every entry's value is kept |
| ExifMetadata.Conv | extract_metadata.py:24-26 | a value exactly for a tag whose every element is a ratio with a non-zero denominator and which has at least three, equal to v0 + v1/60 + v2/3600 |
| ExifMetadata.ExtraValuesIgnored | extract_metadata.py:25-26 | convertible values beyond the third do not change the result |
| ExifMetadata.ConvRejects | extract_metadata.py:25 | a zero denominator or a non-ratio element anywhere gives None |
| ExifMetadata.GpsFromExif | extract_metadata.py:19-28 | a result only when both coordinates are present and truthy |
| ExifMetadata.GpsFromExifExact | extract_metadata.py:17-38 | a result exactly when both coordinates are present and convert. Latitude is negated unless its reference is exactly "N", longitude unless exactly "E" |
| ExifMetadata.MagnitudeKept | extract_metadata.py:29-35 | each coordinate is the unsigned conversion or its negation |
| ExifMetadata.SignedUnless | extract_metadata.py:31-34 | the sign step: negate unless the reference is exactly the given string |
| ExifMetadata.TagObjectRefNegates | extract_metadata.py:31-32 | a latitude reference stored as a tag object never equals `"N"`, so the latitude is always negated |
| Hemispheres.ConversionsAgree | main.py:395-400 | `convert_to_degrees` and `gps_from_exif`'s `conv` give the same value for the same triple, and both reject exactly a zero denominator |
| Hemispheres.AgreeOnHemispheres | extract_metadata.py:28-35 | with references N/S and E/W both converters give the same signed coordinates |
| Hemispheres.DisagreeOtherwise | extract_metadata.py:31-32 | any other or a missing latitude reference: main.py keeps the value positive, extract_metadata.py negates it |
| MapPoints.PointOf | main.py:468-500 | a point exactly when the entry is a truthy dictionary with truthy latitude and longitude that `float()` accepts, at those values. An exception exactly for a truthy entry that is not a dictionary, or whose latitude and longitude are both truthy and one fails `float()` |
| MapPoints.Points | main.py:493-504 | at most two points. The GPS point comes first and the IP point last. Two points exactly when both qualify, none exactly when neither does |
| MapPoints.Report.constructor | main.py:453 | the report holds the given dictionary |
| MapPoints.Report.GenerateMap | main.py:453-556 | No map without folium or without points. An exception escapes when a location entry raises. Otherwise it draws the selected points. `_map_distance_km` is written only for two points whose distance is computed, and nothing else in the report changes |
| MapPoints.ZeroCoordinateDropped | main.py:495 | an exact 0.0 latitude or longitude drops the point |
| MapPoints.PlacePlotted | main.py:495-497 | a `gps_to_location` record is plotted at its own coordinates exactly when neither is zero |
| MapPoints.GpsBeforeIp | main.py:495-500 | with both points, the list is the GPS point followed by the IP point |

## Left out

- The download loop of `download_image` (main.py:210-278) is left out. It streams files over HTTP with retries, sleeps and file writes, which is I/O. The candidate list it walks is modelled.
- `socket.gethostbyname` in `get_host_ip` is left out. Only the host expression is modelled.
- An absent URL (Python None) is modelled as the empty string. Both are falsy and take the same early return.
- `Patterns`: `\d` is read as the ASCII digits only. Python's `\d` also matches other Unicode decimal digits.
- Python floats are exact reals. Rounding, `inf` and `nan` are not modelled, and `float()` of a string is an abstract partial function.
- The internals of geopy's `RateLimiter` (its own retries, delays and swallowed exceptions) are reduced to whether the first call raises. `time.sleep` is left out.
- `GpsLocation.GpsToLocation` omits the second `if location:` branch (main.py:435-442). It is unreachable: a geopy `Location` always has `raw`, so the first branch either returns or raises.
- `generate_map` is left out except for point selection: the printing, the averaged map centre, the markers, the polyline and `fit_bounds`. The HTML file is reduced to a `saved` flag, and the returned path is not modelled.
- The shape of the values PIL and exifread actually produce is not modelled. GPS values are modelled as nested sequences of numbers, and EXIF tags as lists of ratios or strings.
- The analysers (`analyze_content.py`), the updaters, `reverse_lookup.py`, `utils.py`, the command-line front ends and the summary printing in `main()` are outside this model. They are foreign libraries, process control and output.
- ReplaceAll: its properties are proved only for the `dl=0` → `dl=1` replacement that main.py:132 makes, the one use of `str.replace` in the core.
- `IpGeolocation.ServiceUrls` states only that there are four services. Their order is stated by `IpToGeolocation`, where `calls` is a prefix of that list.
