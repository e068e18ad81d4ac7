/** The link rewriting of main.py: share links of Google Drive, Dropbox and
    Imgur turned into direct download links, the direct image link found in a
    Google Photos page, and the host name cut out of a URL. */
module UrlHelpers {
  import opened Builtins
  import opened Patterns

  /** `https://drive.google.com/uc?export=download&id=`, written cut at its
      punctuation. */
  const DriveDownloadPrefix := "https:" + "//" + "drive.google.com" + "/" + "uc" + "?" + "export=download" + "&" + "id="
  const ImgurDirectPrefix := "https://i.imgur.com/"

  // ---------------------------------------------------------------------------
  // Operations
  // ---------------------------------------------------------------------------

  /** `_extract_google_photos_direct_link`: the first lh*.googleusercontent.com
      link in the page once HTML entities are decoded by `unescape`. */
  function ExtractGooglePhotosLink(page: string, unescape: string -> string): (r: Option<string>)
    ensures r.Some? ==> r.value != [] && StartsWith(r.value, PhotosScheme)
    ensures r.Some? ==> Search(PhotosLink, unescape(page), 0).Some?
                        && r.value == Search(PhotosLink, unescape(page), 0).value.group
    ensures r.None? <==> forall j :: 0 <= j <= |unescape(page)| ==> MatchAt(PhotosLink, unescape(page), j).None?
  {
    match Search(PhotosLink, unescape(page), 0)
    case Some(m) => Some(m.group)
    case None => None
  }

  /** `_resolve_google_drive`: a `/d/ID` path segment wins over an `id=ID`
      query parameter; either becomes the uc?export=download link. */
  function ResolveGoogleDrive(url: string): (r: Option<string>)
    ensures r.Some? <==> Search(DrivePath, url, 0).Some? || Search(DriveQuery, url, 0).Some?
    ensures r.Some? ==> |r.value| > |DriveDownloadPrefix| && r.value[..|DriveDownloadPrefix|] == DriveDownloadPrefix
    ensures Search(DrivePath, url, 0).Some? ==> r == Some(DriveDownloadPrefix + Search(DrivePath, url, 0).value.group)
    ensures Search(DrivePath, url, 0).None? && Search(DriveQuery, url, 0).Some? ==>
      r == Some(DriveDownloadPrefix + Search(DriveQuery, url, 0).value.group)
  {
    match Search(DrivePath, url, 0)
    case Some(m) => Some(DriveDownloadPrefix + m.group)
    case None =>
      match Search(DriveQuery, url, 0)
      case Some(m) => Some(DriveDownloadPrefix + m.group)
      case None => None
  }

  /** `_resolve_dropbox`. */
  function ResolveDropbox(url: string): (r: Option<string>)
    ensures r.Some? <==> In("dropbox.com", url) && (In("dl=0", url) || !In("dl=1", url))
    ensures r.Some? ==> r.value != []
    ensures In("dropbox.com", url) && In("dl=0", url) ==> r == Some(ReplaceAll(url, "dl=0", "dl=1"))
    ensures In("dropbox.com", url) && !In("dl=0", url) && !In("dl=1", url) ==>
      r == Some(url + (if In("?", url) then "&dl=1" else "?dl=1"))
  {
    if In("dropbox.com", url) then
      if In("dl=0", url) then Some(ReplaceAll(url, "dl=0", "dl=1"))
      else if !In("dl=1", url) then Some(if In("?", url) then url + "&dl=1" else url + "?dl=1")
      else None
    else None
  }

  /** `_resolve_imgur`. */
  function ResolveImgur(url: string): (r: Option<string>)
    ensures In("i.imgur.com", url) ==> r == Some(url)
    ensures !In("i.imgur.com", url) ==> (r.Some? <==> Search(ImgurPage, url, 0).Some?)
    ensures !In("i.imgur.com", url) && Search(ImgurPage, url, 0).Some? ==>
      r == Some(ImgurDirectPrefix + Search(ImgurPage, url, 0).value.group + ".jpg")
    ensures r.Some? ==> r.value != []
  {
    if In("i.imgur.com", url) then Some(url)
    else
      match Search(ImgurPage, url, 0)
      case Some(m) => Some(ImgurDirectPrefix + m.group + ".jpg")
      case None => None
  }

  /** The host expression of `get_host_ip`: the text after the last `//`
      up to the next `/`. Port and user information stay in it. */
  function HostOf(url: string): (host: string)
    ensures '/' !in host
  {
    var afterScheme := Split(url, "//");
    var host := Split(afterScheme[|afterScheme| - 1], "/")[0];
    NoSlashChar(host);
    host
  }

  /** A text in which `/` does not occur holds no '/' character. */
  lemma NoSlashChar(s: string)
    requires !In("/", s)
    ensures '/' !in s
  {
    forall j | 0 <= j < |s| ensures s[j] != '/' {
      assert s[j..j + 1] == [s[j]];
      if s[j] == '/' {
        OccursIn(s, "/", j);
      }
    }
  }

  // ---------------------------------------------------------------------------
  // Small facts about literals
  // ---------------------------------------------------------------------------

  lemma CharOfSegment(seg: string, k: int, c: char)
    requires 0 <= k < |seg| && c !in seg
    ensures seg[k] != c
  {
    assert seg[k] in seg;
  }

  /** With `x + y` a prefix of `v` and `c` absent from `y`, no index of the
      `y` part of `v` holds `c`. */
  lemma SegmentFree(v: string, x: string, y: string, c: char)
    requires x + y <= v && c !in y
    ensures forall j | |x| <= j < |x| + |y| :: v[j] != c
  {
    forall j | |x| <= j < |x| + |y| ensures v[j] != c {
      assert v[j] == (x + y)[j] == y[j - |x|];
      CharOfSegment(y, j - |x|, c);
    }
  }

  /** Identifiers hold none of the URL punctuation. */
  lemma ClassFree(k: CharClass, s: string)
    requires k.FileIdChar? || k.AlnumChar?
    requires AllIn(k, s)
    ensures '/' !in s && '.' !in s && '?' !in s && '&' !in s
  {
    forall j | 0 <= j < |s| ensures s[j] != '/' && s[j] != '.' && s[j] != '?' && s[j] != '&' {
      assert InClass(k, s[j]);
    }
  }

  // ---------------------------------------------------------------------------
  // Google Drive
  // ---------------------------------------------------------------------------

  /** Where the download prefix's '/' characters sit. */
  lemma DownloadPrefixSlashes()
    ensures |DriveDownloadPrefix| == 47
    ensures forall j | 0 <= j < 47 && j != 6 && j != 7 && j != 24 :: DriveDownloadPrefix[j] != '/'
  {
    var v := DriveDownloadPrefix;
    var s1, s2, s3, s4, s5, s6, s7, s8, s9 := "https:", "//", "drive.google.com", "/", "uc", "?", "export=download", "&", "id=";
    assert v == s1 + s2 + s3 + s4 + s5 + s6 + s7 + s8 + s9;
    SegmentFree(v, [], s1, '/');
    SegmentFree(v, s1 + s2, s3, '/');
    SegmentFree(v, s1 + s2 + s3 + s4, s5 + s6 + s7 + s8 + s9, '/');
  }

  /** Where the download prefix's '?' and '&' characters sit, and what
      follows the '?'. */
  lemma DownloadPrefixQueryMarks()
    ensures |DriveDownloadPrefix| == 47
    ensures forall j | 0 <= j < 47 && j != 27 && j != 43 ::
      DriveDownloadPrefix[j] != '?' && DriveDownloadPrefix[j] != '&'
    ensures DriveDownloadPrefix[28] != 'i'
  {
    var v := DriveDownloadPrefix;
    var s1, s2, s3, s4, s5, s6, s7, s8, s9 := "https:", "//", "drive.google.com", "/", "uc", "?", "export=download", "&", "id=";
    assert v == s1 + s2 + s3 + s4 + s5 + s6 + s7 + s8 + s9;
    SegmentFree(v, [], s1 + s2 + s3 + s4 + s5, '?');
    SegmentFree(v, [], s1 + s2 + s3 + s4 + s5, '&');
    SegmentFree(v, s1 + s2 + s3 + s4 + s5 + s6, s7, '?');
    SegmentFree(v, s1 + s2 + s3 + s4 + s5 + s6, s7, '&');
    SegmentFree(v, s1 + s2 + s3 + s4 + s5 + s6, s7, 'i');
    SegmentFree(v, s1 + s2 + s3 + s4 + s5 + s6 + s7 + s8, s9, '?');
    SegmentFree(v, s1 + s2 + s3 + s4 + s5 + s6 + s7 + s8, s9, '&');
  }

  /** Where the direct link's '/' characters sit. */
  lemma DriveDirectLinkSlashes(id: string)
    requires AllIn(FileIdChar, id)
    ensures forall j | 0 <= j < |DriveDownloadPrefix + id| && j != 6 && j != 7 && j != 24 ::
      (DriveDownloadPrefix + id)[j] != '/'
  {
    var v := DriveDownloadPrefix + id;
    DownloadPrefixSlashes();
    ClassFree(FileIdChar, id);
    forall j | 0 <= j < |v| && j != 6 && j != 7 && j != 24 ensures v[j] != '/' {
      if j < 47 {
        assert v[j] == DriveDownloadPrefix[j];
      } else {
        assert v[j] == id[j - 47];
        CharOfSegment(id, j - 47, '/');
      }
    }
  }

  /** Where the direct link's '?' and '&' characters sit, and what follows
      the '?'. */
  lemma DriveDirectLinkQueryMarks(id: string)
    requires AllIn(FileIdChar, id)
    ensures forall j | 0 <= j < |DriveDownloadPrefix + id| && j != 27 && j != 43 ::
      (DriveDownloadPrefix + id)[j] != '?' && (DriveDownloadPrefix + id)[j] != '&'
    ensures (DriveDownloadPrefix + id)[28] != 'i'
  {
    var v := DriveDownloadPrefix + id;
    DownloadPrefixQueryMarks();
    ClassFree(FileIdChar, id);
    forall j | 0 <= j < |v| && j != 27 && j != 43 ensures v[j] != '?' && v[j] != '&' {
      if j < 47 {
        assert v[j] == DriveDownloadPrefix[j];
      } else {
        assert v[j] == id[j - 47];
        CharOfSegment(id, j - 47, '?');
        CharOfSegment(id, j - 47, '&');
      }
    }
    assert v[28] == DriveDownloadPrefix[28];
  }

  /** The direct link's own form: no `/d/` segment, and `&id=` where the
      identifier starts. */
  lemma DriveDirectLinkParse(id: string)
    requires id != [] && AllIn(FileIdChar, id)
    ensures Search(DrivePath, DriveDownloadPrefix + id, 0).None?
    ensures Search(DriveQuery, DriveDownloadPrefix + id, 0) == Some(Match(43, id))
  {
    var v := DriveDownloadPrefix + id;
    DriveDirectLinkNoEarlyMatch(id);
    assert |DriveDownloadPrefix| == 47;
    assert v[43..][..4] == "&id=";
    assert v[43..][4..] == id + [];
    SpanOf(FileIdChar, id, []);
    assert MatchAt(DriveQuery, v, 43) == Some(id);
  }

  /** The direct link has no `/d/` match anywhere and no `&id=` match
      before index 43. */
  lemma DriveDirectLinkNoEarlyMatch(id: string)
    requires id != [] && AllIn(FileIdChar, id)
    ensures forall j :: 0 <= j <= |DriveDownloadPrefix + id| ==> MatchAt(DrivePath, DriveDownloadPrefix + id, j).None?
    ensures forall j :: 0 <= j < 43 ==> MatchAt(DriveQuery, DriveDownloadPrefix + id, j).None?
  {
    var v := DriveDownloadPrefix + id;
    DriveDirectLinkSlashes(id);
    DriveDirectLinkQueryMarks(id);
    forall j | 0 <= j <= |v| ensures MatchAt(DrivePath, v, j).None? {
      MatchNeeds(DrivePath, v, j);
    }
    forall j | 0 <= j < 43 ensures MatchAt(DriveQuery, v, j).None? {
      MatchNeeds(DriveQuery, v, j);
    }
  }

  /** Resolving a resolved Drive link gives the same link back. */
  lemma DriveResolveIsFixedPoint(url: string)
    requires ResolveGoogleDrive(url).Some?
    ensures ResolveGoogleDrive(ResolveGoogleDrive(url).value) == ResolveGoogleDrive(url)
  {
    var id := if Search(DrivePath, url, 0).Some? then Search(DrivePath, url, 0).value.group
              else Search(DriveQuery, url, 0).value.group;
    assert ResolveGoogleDrive(url) == Some(DriveDownloadPrefix + id);
    DriveDirectLinkParse(id);
  }

  const DriveSharePrefix := "https://drive.google.com/file/d/"

  /** The share link cut at its slashes. */
  lemma DriveShareLinkPieces()
    ensures DriveSharePrefix == "https:" + "//" + "drive.google.com" + "/" + "file" + "/" + "d" + "/"
  {
  }

  /** Where the share link's '/' characters sit before the identifier. */
  lemma DriveShareLinkChars(tail: string)
    ensures |DriveSharePrefix| == 32
    ensures forall j | 0 <= j < 32 && j != 6 && j != 7 && j != 24 && j != 29 && j != 31 ::
      (DriveSharePrefix + tail)[j] != '/'
  {
    var v := DriveSharePrefix + tail;
    DriveShareLinkPieces();
    var s1, s2, s3, s4, s5, s6, s7 := "https:", "//", "drive.google.com", "/", "file", "/", "d";
    assert v == s1 + s2 + s3 + s4 + s5 + s6 + s7 + "/" + tail;
    SegmentFree(v, [], s1, '/');
    SegmentFree(v, s1 + s2, s3, '/');
    SegmentFree(v, s1 + s2 + s3 + s4, s5, '/');
    SegmentFree(v, s1 + s2 + s3 + s4 + s5 + s6, s7, '/');
  }

  /** A share link `https://drive.google.com/file/d/ID/...` resolves to the
      direct link of ID. */
  lemma DriveShareLink(id: string, rest: string)
    requires id != [] && AllIn(FileIdChar, id)
    requires rest == [] || !InClass(FileIdChar, rest[0])
    ensures ResolveGoogleDrive(DriveSharePrefix + id + rest) == Some(DriveDownloadPrefix + id)
  {
    var v := DriveSharePrefix + id + rest;
    assert v == DriveSharePrefix + (id + rest);
    DriveShareLinkChars(id + rest);
    forall j | 0 <= j < 29 ensures MatchAt(DrivePath, v, j).None? {
      MatchNeeds(DrivePath, v, j);
    }
    DriveShareLinkPieces();
    assert v[29..][..3] == "/d/";
    assert v[29..][3..] == id + rest;
    SpanOf(FileIdChar, id, rest);
    assert MatchAt(DrivePath, v, 29) == Some(id);
  }
  // ---------------------------------------------------------------------------
  // Dropbox
  // ---------------------------------------------------------------------------

  /** `replace("dl=0", "dl=1")` keeps the length and only turns some '0'
      characters into '1'. */
  lemma {:induction false} ReplaceDlPointwise(s: string)
    decreases |s|
    ensures |ReplaceAll(s, "dl=0", "dl=1")| == |s|
    ensures forall i :: 0 <= i < |s| ==>
      ReplaceAll(s, "dl=0", "dl=1")[i] == s[i] || (s[i] == '0' && ReplaceAll(s, "dl=0", "dl=1")[i] == '1')
  {
    var r := ReplaceAll(s, "dl=0", "dl=1");
    if |s| < 4 {
    } else if s[..4] == "dl=0" {
      ReplaceDlPointwise(s[4..]);
      assert r == "dl=1" + ReplaceAll(s[4..], "dl=0", "dl=1");
      forall i | 0 <= i < |s|
        ensures r[i] == s[i] || (s[i] == '0' && r[i] == '1')
      {
        if i < 4 {
          assert s[i] == s[..4][i];
        } else {
          assert r[i] == ReplaceAll(s[4..], "dl=0", "dl=1")[i - 4];
          assert s[i] == s[4..][i - 4];
        }
      }
    } else {
      ReplaceDlPointwise(s[1..]);
      assert r == [s[0]] + ReplaceAll(s[1..], "dl=0", "dl=1");
      forall i | 0 <= i < |s|
        ensures r[i] == s[i] || (s[i] == '0' && r[i] == '1')
      {
        if i > 0 {
          assert r[i] == ReplaceAll(s[1..], "dl=0", "dl=1")[i - 1];
          assert s[i] == s[1..][i - 1];
        }
      }
    }
  }

  /** Every `dl=0` of the input has its '0' turned into '1': occurrences of
      `dl=0` cannot overlap, so the left-to-right scan meets each of them. */
  lemma {:induction false} ReplaceDlHitsEvery(s: string, j: int)
    requires OccursAt(s, "dl=0", j)
    decreases |s|
    ensures |ReplaceAll(s, "dl=0", "dl=1")| == |s|
    ensures ReplaceAll(s, "dl=0", "dl=1")[j + 3] == '1'
  {
    ReplaceDlPointwise(s);
    var r := ReplaceAll(s, "dl=0", "dl=1");
    assert s[j..j + 4] == "dl=0";
    assert s[j] == 'd' && s[j + 1] == 'l' && s[j + 2] == '=' && s[j + 3] == '0' by {
      assert s[j..j + 4][0] == s[j] && s[j..j + 4][1] == s[j + 1];
      assert s[j..j + 4][2] == s[j + 2] && s[j..j + 4][3] == s[j + 3];
    }
    if s[..4] == "dl=0" {
      assert s[1] == 'l' && s[2] == '=' && s[3] == '0';
      assert r == "dl=1" + ReplaceAll(s[4..], "dl=0", "dl=1");
      if j >= 4 {
        assert s[4..][j - 4..j] == s[j..j + 4];
        ReplaceDlHitsEvery(s[4..], j - 4);
        assert r[j + 3] == ReplaceAll(s[4..], "dl=0", "dl=1")[j - 1];
      } else {
        assert j == 0;
      }
    } else {
      assert j != 0;
      assert r == [s[0]] + ReplaceAll(s[1..], "dl=0", "dl=1");
      assert s[1..][j - 1..j + 3] == s[j..j + 4];
      ReplaceDlHitsEvery(s[1..], j - 1);
      assert r[j + 3] == ReplaceAll(s[1..], "dl=0", "dl=1")[j + 2];
    }
  }

  /** A window of the replaced text that reads a word without '1' read the
      same in the input. */
  lemma ReplaceDlWindowBack(s: string, j: int, w: string)
    requires '1' !in w
    ensures OccursAt(ReplaceAll(s, "dl=0", "dl=1"), w, j) ==> OccursAt(s, w, j)
  {
    var r := ReplaceAll(s, "dl=0", "dl=1");
    ReplaceDlPointwise(s);
    if OccursAt(r, w, j) {
      forall i | 0 <= i < |w| ensures s[j..j + |w|][i] == w[i] {
        assert r[j..j + |w|][i] == r[j + i];
        CharOfSegment(w, i, '1');
      }
    }
  }

  /** A window of the input that reads a word without '0' reads the same
      after the replacement. */
  lemma ReplaceDlWindowForward(s: string, j: int, w: string)
    requires '0' !in w
    ensures OccursAt(s, w, j) ==> OccursAt(ReplaceAll(s, "dl=0", "dl=1"), w, j)
  {
    var r := ReplaceAll(s, "dl=0", "dl=1");
    ReplaceDlPointwise(s);
    if OccursAt(s, w, j) {
      forall i | 0 <= i < |w| ensures r[j..j + |w|][i] == w[i] {
        assert s[j..j + |w|][i] == s[j + i];
        CharOfSegment(w, i, '0');
      }
    }
  }

  /** An occurrence in a suffix is an occurrence in the whole text. */
  lemma OccursInSuffix(s: string, k: int, w: string, j: int)
    requires 0 <= k <= |s|
    ensures OccursAt(s[k..], w, j) ==> OccursAt(s, w, j + k)
  {
    if OccursAt(s[k..], w, j) {
      assert s[k..][j..j + |w|] == s[j + k..j + k + |w|];
    }
  }

  /** One step of the scan that replaced a `dl=0` at the front: positions
      past it are read from the replacement of the rest. */
  lemma ReplaceDlStepHit(s: string, i: int)
    requires 4 <= i < |s| && s[..4] == "dl=0"
    requires |ReplaceAll(s[4..], "dl=0", "dl=1")| == |s| - 4
    requires ReplaceAll(s[4..], "dl=0", "dl=1")[i - 4] == s[4..][i - 4]
    ensures ReplaceAll(s, "dl=0", "dl=1")[i] == s[i]
  {
    assert ReplaceAll(s, "dl=0", "dl=1") == "dl=1" + ReplaceAll(s[4..], "dl=0", "dl=1");
  }

  /** One step of the scan that kept the first character. */
  lemma ReplaceDlStepSkip(s: string, i: int)
    requires 1 <= i < |s| && (|s| < 4 || s[..4] != "dl=0")
    requires |ReplaceAll(s[1..], "dl=0", "dl=1")| == |s| - 1
    requires ReplaceAll(s[1..], "dl=0", "dl=1")[i - 1] == s[1..][i - 1]
    ensures ReplaceAll(s, "dl=0", "dl=1")[i] == s[i]
  {
    if |s| < 4 {
      assert ReplaceAll(s, "dl=0", "dl=1") == s;
    } else {
      assert ReplaceAll(s, "dl=0", "dl=1") == [s[0]] + ReplaceAll(s[1..], "dl=0", "dl=1");
    }
  }

  /** A character of the input that does not end a `dl=0` occurrence is
      unchanged by `replace("dl=0", "dl=1")`. */
  lemma {:induction false} ReplaceDlKeepsOthers(s: string, i: int)
    requires 0 <= i < |s| && !OccursAt(s, "dl=0", i - 3)
    decreases |s|
    ensures |ReplaceAll(s, "dl=0", "dl=1")| == |s|
    ensures ReplaceAll(s, "dl=0", "dl=1")[i] == s[i]
  {
    ReplaceDlPointwise(s);
    if |s| < 4 {
      assert ReplaceAll(s, "dl=0", "dl=1") == s;
    } else if s[..4] == "dl=0" {
      if i < 3 {
        assert ReplaceAll(s, "dl=0", "dl=1") == "dl=1" + ReplaceAll(s[4..], "dl=0", "dl=1");
        assert s[i] == s[..4][i];
      } else if i == 3 {
        assert false;
      } else {
        OccursInSuffix(s, 4, "dl=0", i - 7);
        ReplaceDlKeepsOthers(s[4..], i - 4);
        ReplaceDlStepHit(s, i);
      }
    } else if i > 0 {
      OccursInSuffix(s, 1, "dl=0", i - 4);
      ReplaceDlKeepsOthers(s[1..], i - 1);
      ReplaceDlStepSkip(s, i);
    } else {
      assert ReplaceAll(s, "dl=0", "dl=1") == [s[0]] + ReplaceAll(s[1..], "dl=0", "dl=1");
    }
  }

  /** `replace("dl=0", "dl=1")` character by character: the last character
      of each `dl=0` occurrence becomes '1', every other character stays. */
  lemma ReplaceDlExact(s: string)
    ensures |ReplaceAll(s, "dl=0", "dl=1")| == |s|
    ensures forall i :: 0 <= i < |s| ==>
      ReplaceAll(s, "dl=0", "dl=1")[i] == if OccursAt(s, "dl=0", i - 3) then '1' else s[i]
  {
    ReplaceDlPointwise(s);
    forall i | 0 <= i < |s|
      ensures ReplaceAll(s, "dl=0", "dl=1")[i] == if OccursAt(s, "dl=0", i - 3) then '1' else s[i]
    {
      if OccursAt(s, "dl=0", i - 3) {
        ReplaceDlHitsEvery(s, i - 3);
      } else {
        ReplaceDlKeepsOthers(s, i);
      }
    }
  }

  /** After `replace("dl=0", "dl=1")` no `dl=0` is left. */
  lemma ReplaceDlLeavesNoDl0(s: string)
    ensures !In("dl=0", ReplaceAll(s, "dl=0", "dl=1"))
  {
    var r := ReplaceAll(s, "dl=0", "dl=1");
    forall j | 0 <= j ensures !OccursAt(r, "dl=0", j) {
      ReplaceDlWindowBack(s, j, "dl=0");
      if OccursAt(s, "dl=0", j) {
        ReplaceDlHitsEvery(s, j);
        assert r[j..j + 4][3] == r[j + 3];
      }
    }
  }

  /** Each `dl=0` of the input reads `dl=1` after the replacement. */
  lemma ReplaceDlTurnsDl0(s: string, j: int)
    requires OccursAt(s, "dl=0", j)
    ensures OccursAt(ReplaceAll(s, "dl=0", "dl=1"), "dl=1", j)
  {
    var r := ReplaceAll(s, "dl=0", "dl=1");
    ReplaceDlHitsEvery(s, j);
    assert s[j..j + 3] == s[j..j + 4][..3] == "dl=";
    ReplaceDlWindowForward(s, j, "dl=");
    assert r[j..j + 4] == r[j..j + 3] + [r[j + 3]];
  }

  /** After `replace("dl=0", "dl=1")` no `dl=0` is left, every former `dl=0`
      reads `dl=1`, and `dropbox.com` (which has no '0') is untouched. */
  lemma ReplaceDlOutcome(s: string)
    ensures !In("dl=0", ReplaceAll(s, "dl=0", "dl=1"))
    ensures In("dl=0", s) ==> In("dl=1", ReplaceAll(s, "dl=0", "dl=1"))
    ensures In("dropbox.com", s) ==> In("dropbox.com", ReplaceAll(s, "dl=0", "dl=1"))
  {
    var r := ReplaceAll(s, "dl=0", "dl=1");
    ReplaceDlLeavesNoDl0(s);
    if In("dl=0", s) {
      var j := Find(s, "dl=0", 0).value;
      ReplaceDlTurnsDl0(s, j);
      OccursIn(r, "dl=1", j);
    }
    if In("dropbox.com", s) {
      var j := Find(s, "dropbox.com", 0).value;
      ReplaceDlWindowForward(s, j, "dropbox.com");
      OccursIn(r, "dropbox.com", j);
    }
  }

  /** Appending the `dl=1` parameter to a Dropbox link without `dl=0`. */
  lemma DropboxAppendedIsDirect(url: string, suffix: string)
    requires suffix == "&dl=1" || suffix == "?dl=1"
    requires In("dropbox.com", url) && !In("dl=0", url)
    ensures In("dropbox.com", url + suffix)
    ensures In("dl=1", url + suffix)
    ensures !In("dl=0", url + suffix)
  {
    InConcatLeft("dropbox.com", url, suffix);
    assert suffix[1..5] == "dl=1";
    OccursIn(suffix, "dl=1", 1);
    InConcatRight("dl=1", url, suffix);
    NotInAppend("dl=0", url, suffix);
  }

  /** A resolved Dropbox link is still a Dropbox link, asks for `dl=1` and no
      longer holds `dl=0`. */
  lemma DropboxResolvedIsDirect(url: string)
    requires ResolveDropbox(url).Some?
    ensures In("dropbox.com", ResolveDropbox(url).value)
    ensures In("dl=1", ResolveDropbox(url).value)
    ensures !In("dl=0", ResolveDropbox(url).value)
  {
    if In("dl=0", url) {
      ReplaceDlOutcome(url);
    } else {
      DropboxAppendedIsDirect(url, if In("?", url) then "&dl=1" else "?dl=1");
    }
  }

  /** Resolving a resolved Dropbox link yields nothing more to do. */
  lemma DropboxResolveIsIdempotent(url: string)
    requires ResolveDropbox(url).Some?
    ensures ResolveDropbox(ResolveDropbox(url).value).None?
  {
    DropboxResolvedIsDirect(url);
  }

  // ---------------------------------------------------------------------------
  // Imgur
  // ---------------------------------------------------------------------------

  lemma DirectImgurLinkMarked(id: string)
    ensures In("i.imgur.com", ImgurDirectPrefix + id + ".jpg")
  {
    var v := ImgurDirectPrefix + id + ".jpg";
    assert v == "https://" + "i.imgur.com" + ("/" + id + ".jpg");
    assert v[8..19] == "i.imgur.com";
    OccursIn(v, "i.imgur.com", 8);
  }

  /** A resolved Imgur link is marked as direct, so resolving it again
      changes nothing. */
  lemma ImgurResolveIsIdempotent(url: string)
    requires ResolveImgur(url).Some?
    ensures In("i.imgur.com", ResolveImgur(url).value)
    ensures ResolveImgur(ResolveImgur(url).value) == ResolveImgur(url)
  {
    if !In("i.imgur.com", url) {
      DirectImgurLinkMarked(Search(ImgurPage, url, 0).value.group);
    }
  }

  const ImgurPagePrefix := "https://imgur.com/"

  /** An Imgur page link cut at its punctuation. */
  lemma ImgurPagePieces()
    ensures ImgurPagePrefix == "https://" + "i" + "mgur" + "." + "com/"
    ensures ImgurPagePrefix == "https://" + "imgur.com/"
  {
  }

  /** Where a page link's '.' and 'i' characters can sit. */
  lemma ImgurPageChars(u: string)
    requires '.' !in u
    ensures |ImgurPagePrefix| == 18
    ensures forall j | 0 <= j < |ImgurPagePrefix + u| && j != 13 :: (ImgurPagePrefix + u)[j] != '.'
    ensures forall j | 0 <= j < 13 && j != 8 :: (ImgurPagePrefix + u)[j] != 'i'
  {
    var v := ImgurPagePrefix + u;
    ImgurPagePieces();
    var s1, s2, s3, s4, s5 := "https://", "i", "mgur", ".", "com/";
    assert v == s1 + s2 + s3 + s4 + s5 + u;
    SegmentFree(v, [], s1 + s2 + s3, '.');
    SegmentFree(v, s1 + s2 + s3 + s4, s5 + u, '.');
    SegmentFree(v, [], s1, 'i');
    SegmentFree(v, s1 + s2, s3, 'i');
  }

  /** A page link does not hold `i.imgur.com`. */
  lemma ImgurPageNotDirect(u: string)
    requires '.' !in u
    ensures !In("i.imgur.com", ImgurPagePrefix + u)
  {
    var v := ImgurPagePrefix + u;
    ImgurPageChars(u);
    forall j | 0 <= j ensures !OccursAt(v, "i.imgur.com", j) {
      if j + 11 <= |v| {
        if j == 12 { assert v[j] != 'i'; } else { assert v[j + 1] != '.'; }
        assert v[j..j + 11][0] == v[j] && v[j..j + 11][1] == v[j + 1];
      }
    }
  }

  /** The identifier part of a page link, after `imgur.com/`. */
  lemma ImgurPageTail(middle: string, id: string)
    requires middle == "" || middle == "gallery/" || middle == "a/"
    requires id != [] && AllIn(AlnumChar, id)
    ensures '.' !in middle + id
    ensures MatchAt(ImgurPage, ImgurPagePrefix + (middle + id), 8) == Some(id)
  {
    var u := middle + id;
    var v := ImgurPagePrefix + u;
    ClassFree(AlnumChar, id);
    forall j | 0 <= j < |u| ensures u[j] != '.' {
      if j < |middle| { CharOfSegment(middle, j, '.'); } else { assert u[j] == id[j - |middle|]; CharOfSegment(id, j - |middle|, '.'); }
    }
    ImgurPagePieces();
    assert v == "https://" + ("imgur.com/" + u);
    assert v[8..] == "imgur.com/" + u;
    assert v[8..][..10] == "imgur.com/";
    assert v[8..][10..] == u;
    SpanOf(AlnumChar, id, []);
    if middle == "" {
      assert u == id + [];
      assert !StartsWith(u, "gallery/") && !StartsWith(u, "a/") by {
        if |u| >= 2 { assert u[..2][1] == u[1]; CharOfSegment(id, 1, '/'); }
        if |u| >= 8 { assert u[..8][7] == u[7]; CharOfSegment(id, 7, '/'); }
      }
    } else if middle == "gallery/" {
      assert u[..8] == "gallery/" && u[8..] == id + [];
    } else {
      assert u[..2] == "a/" && u[2..] == id + [];
      assert !StartsWith(u, "gallery/") by {
        if |u| >= 8 { assert u[..8][0] == u[0] == 'a'; }
      }
    }
  }

  /** Neither `https://imgur.com/ID` nor its `gallery/` and `a/` forms hold
      `i.imgur.com`, and the pattern matches first at index 8. */
  lemma ImgurPageParse(middle: string, id: string)
    requires middle == "" || middle == "gallery/" || middle == "a/"
    requires id != [] && AllIn(AlnumChar, id)
    ensures !In("i.imgur.com", ImgurPagePrefix + middle + id)
    ensures Search(ImgurPage, ImgurPagePrefix + middle + id, 0) == Some(Match(8, id))
  {
    var v := ImgurPagePrefix + (middle + id);
    assert v == ImgurPagePrefix + middle + id;
    ImgurPageTail(middle, id);
    ImgurPageNotDirect(middle + id);
    ImgurNoEarlyMatch(middle + id);
    SearchFindsFirst(ImgurPage, v, 8, id);
  }

  /** No Imgur page match starts inside the scheme of a page link. */
  lemma ImgurNoEarlyMatch(u: string)
    requires '.' !in u
    ensures forall j :: 0 <= j < 8 ==> MatchAt(ImgurPage, ImgurPagePrefix + u, j).None?
  {
    var v := ImgurPagePrefix + u;
    ImgurPageChars(u);
    forall j | 0 <= j < 8 ensures MatchAt(ImgurPage, v, j).None? {
      MatchNeeds(ImgurPage, v, j);
    }
  }

  /** The page forms `https://imgur.com/ID`, `.../gallery/ID` and `.../a/ID`
      resolve to `https://i.imgur.com/ID.jpg`. */
  lemma ImgurPageLink(middle: string, id: string)
    requires middle == "" || middle == "gallery/" || middle == "a/"
    requires id != [] && AllIn(AlnumChar, id)
    ensures ResolveImgur(ImgurPagePrefix + middle + id) == Some(ImgurDirectPrefix + id + ".jpg")
  {
    ImgurPageParse(middle, id);
  }
  // ---------------------------------------------------------------------------
  // Google Photos
  // ---------------------------------------------------------------------------

  /** A Google Photos link is built from the scheme, a run of digits, the
      host and a run of link characters. */
  lemma PhotosLinkParts(s: string, i: nat) returns (digits: string, tail: string)
    requires i <= |s| && MatchAt(PhotosLink, s, i).Some?
    ensures digits != [] && AllIn(DigitChar, digits)
    ensures tail != [] && AllIn(LinkChar, tail)
    ensures MatchAt(PhotosLink, s, i).value == PhotosScheme + digits + PhotosHost + tail
  {
    var t := s[i..];
    digits := Span(DigitChar, t[|PhotosScheme|..]);
    var after := |PhotosScheme| + |digits|;
    tail := Span(LinkChar, t[after + |PhotosHost|..]);
    assert MatchAt(PhotosLink, s, i).value == t[..after + |PhotosHost| + |tail|];
    assert t[..|PhotosScheme|] == PhotosScheme;
    PrefixExtends(t, |PhotosScheme|, digits);
    assert t[after..][..|PhotosHost|] == PhotosHost;
    PrefixExtends(t, after, PhotosHost);
    PrefixExtends(t, after + |PhotosHost|, tail);
  }

  /** A prefix of `t` followed by the text `w` found right after it is the
      longer prefix. */
  lemma PrefixExtends(t: string, k: nat, w: string)
    requires k + |w| <= |t| && t[k..][..|w|] == w
    ensures t[..k + |w|] == t[..k] + w
  {
    assert t[..k + |w|] == t[..k] + t[k..k + |w|];
    assert t[k..k + |w|] == t[k..][..|w|];
  }

  /** Matched at the start of its own text, a Google Photos link is read
      whole. */
  lemma PhotosLinkReadsWhole(digits: string, tail: string)
    requires digits != [] && AllIn(DigitChar, digits)
    requires tail != [] && AllIn(LinkChar, tail)
    ensures MatchAt(PhotosLink, PhotosScheme + digits + PhotosHost + tail, 0)
      == Some(PhotosScheme + digits + PhotosHost + tail)
  {
    var link := PhotosScheme + digits + PhotosHost + tail;
    var after := |PhotosScheme| + |digits|;
    PhotosLinkSlices(digits, tail);
    SpanOf(DigitChar, digits, PhotosHost + tail);
    SpanOf(LinkChar, tail, []);
    PhotosMatchWhole(link, digits, tail);
  }

  /** The slices of a Google Photos link that the pattern reads in turn. */
  lemma PhotosLinkSlices(digits: string, tail: string)
    ensures var link := PhotosScheme + digits + PhotosHost + tail;
      var after := |PhotosScheme| + |digits|;
      StartsWith(link, PhotosScheme) && link[|PhotosScheme|..] == digits + (PhotosHost + tail)
      && StartsWith(link[after..], PhotosHost) && link[after + |PhotosHost|..] == tail + []
  {
    var link := PhotosScheme + digits + PhotosHost + tail;
    var after := |PhotosScheme| + |digits|;
    var rest := PhotosHost + tail;
    assert link == PhotosScheme + (digits + rest);
    assert link[0..] == link;
    assert link[|PhotosScheme|..] == digits + rest;
    assert link[after..] == rest by {
      assert link[after..] == (digits + rest)[|digits|..];
    }
    assert link[after + |PhotosHost|..] == tail + [] by {
      assert link[after + |PhotosHost|..] == rest[|PhotosHost|..];
    }
  }

  /** The extracted link, searched again, matches itself from its first
      character to its last: the search reads the whole link and nothing
      else. */
  lemma PhotosLinkIsWholeMatch(page: string, unescape: string -> string)
    requires ExtractGooglePhotosLink(page, unescape).Some?
    ensures var link := ExtractGooglePhotosLink(page, unescape).value;
      StartsWith(link, PhotosScheme) && In(link, unescape(page)) &&
      Search(PhotosLink, link, 0) == Some(Match(0, link))
  {
    var s := unescape(page);
    var m := Search(PhotosLink, s, 0).value;
    OccursIn(s, m.group, m.start);
    var digits, tail := PhotosLinkParts(s, m.start);
    PhotosLinkReadsWhole(digits, tail);
  }

  // ---------------------------------------------------------------------------
  // Host
  // ---------------------------------------------------------------------------

  /** `scheme://rest` with no '/' in the scheme and no `//` in the rest
      splits on `//` into the scheme and the rest. */
  lemma SplitAtScheme(scheme: string, rest: string)
    requires '/' !in scheme && !In("//", rest)
    ensures Split(scheme + "//" + rest, "//") == [scheme, rest]
  {
    var url := scheme + "//" + rest;
    forall j | 0 <= j < |scheme| ensures !OccursAt(url, "//", j) {
      assert url[j] == scheme[j];
      CharOfSegment(scheme, j, '/');
      assert url[j..j + 2][0] == url[j];
    }
    assert url[|scheme|..|scheme| + 2] == "//";
    FindFirst(url, "//", |scheme|);
    assert url[|scheme| + 2..] == rest;
    assert url[..|scheme|] == scheme;
    assert Split(rest, "//") == [rest];
  }

  /** `host + path` with no '/' in the host and the path empty or starting
      with '/' has `host` as its first '/'-separated piece. */
  lemma FirstPieceIsHost(host: string, path: string)
    requires '/' !in host
    requires path == [] || path[0] == '/'
    ensures Split(host + path, "/")[0] == host
  {
    var rest := host + path;
    forall j | 0 <= j < |host| ensures !OccursAt(rest, "/", j) {
      assert rest[j] == host[j];
      CharOfSegment(host, j, '/');
      assert rest[j..j + 1][0] == rest[j];
    }
    if path == [] {
      assert rest == host;
      assert Find(rest, "/", 0).None?;
    } else {
      assert rest[|host|..|host| + 1] == [path[0]];
      FindFirst(rest, "/", |host|);
      assert rest[..|host|] == host;
    }
  }

  /** For `scheme://host/path` the host comes out whole, with any port or
      user information it carries. */
  lemma HostOfUrl(scheme: string, host: string, path: string)
    requires '/' !in scheme && '/' !in host
    requires path == [] || path[0] == '/'
    requires !In("//", path)
    ensures HostOf(scheme + "//" + host + path) == host
  {
    var rest := host + path;
    assert !In("//", rest) by {
      forall j | 0 <= j ensures !OccursAt(rest, "//", j) {
        if j + 2 <= |rest| {
          if j < |host| {
            assert rest[j] == host[j];
            CharOfSegment(host, j, '/');
            assert rest[j..j + 2][0] == rest[j];
          } else {
            assert rest[j..j + 2] == path[j - |host|..j - |host| + 2];
            assert !OccursAt(path, "//", j - |host|);
          }
        }
      }
    }
    assert scheme + "//" + host + path == scheme + "//" + rest;
    SplitAtScheme(scheme, rest);
    FirstPieceIsHost(host, path);
  }

  /** Without any `//` the host is the text before the first '/'. */
  lemma HostOfBareUrl(url: string)
    requires !In("//", url)
    ensures HostOf(url) == Split(url, "/")[0]
  {
  }
}
