/** The candidate list that `download_image` in main.py builds before it
    starts downloading: the URL as given, its Drive, Dropbox and Imgur
    rewrites, and in front a direct image link read off a Google Photos
    page. */
module DownloadCandidates {
  import opened Builtins
  import opened Patterns
  import opened UrlHelpers

  /** What fetching the Google Photos page gave: an exception, or a status
      code with the page text. */
  datatype PageReply = PageRaised | Page(status: int, text: string)

  predicate NoDuplicates(xs: seq<string>) {
    forall i, j :: 0 <= i < j < |xs| ==> xs[i] != xs[j]
  }

  function OptionSet(o: Option<string>): set<string> {
    if o.Some? then {o.value} else {}
  }

  /** Every link the three resolvers make of `url`. */
  function Rewrites(url: string): set<string> {
    OptionSet(ResolveGoogleDrive(url)) + OptionSet(ResolveDropbox(url)) + OptionSet(ResolveImgur(url))
  }

  /** The URL names a Google Photos share: `or` binds looser than `and`. */
  predicate IsPhotosUrl(url: string) {
    In("photos.app.goo.gl", url) || (In("googleusercontent.com", url) && In("photos", url))
  }

  /** The link the Google Photos branch puts in front, if any: the direct
      lh* link of the decoded page, else (only when there is none) the
      og:image content of the raw page. A fetch that raises, a status other
      than 200 or an empty page give none. */
  function PhotosPageLink(url: string, unescape: string -> string, page: PageReply): (r: Option<string>)
    ensures r.Some? ==> IsPhotosUrl(url) && page.Page? && page.status == 200 && page.text != [] && r.value != []
    ensures r.Some? && ExtractGooglePhotosLink(page.text, unescape).None? ==>
      Search(OgImage, page.text, 0).Some? && r.value == Search(OgImage, page.text, 0).value.group
    ensures IsPhotosUrl(url) && page.Page? && page.status == 200 && page.text != [] ==>
      (ExtractGooglePhotosLink(page.text, unescape).Some? ==> r == ExtractGooglePhotosLink(page.text, unescape)) &&
      (ExtractGooglePhotosLink(page.text, unescape).Some? || Search(OgImage, page.text, 0).Some? ==> r.Some?)
  {
    if IsPhotosUrl(url) && page.Page? && page.status == 200 && page.text != [] then
      match ExtractGooglePhotosLink(page.text, unescape)
      case Some(direct) => Some(direct)
      case None =>
        match Search(OgImage, page.text, 0)
        case Some(m) => Some(m.group)
        case None => None
    else None
  }

  /** The list after one `if x and x not in candidate_urls:
      candidate_urls.append(x)`: a non-empty link not yet listed goes last. */
  function Appended(xs: seq<string>, x: Option<string>): (ys: seq<string>)
    ensures NoDuplicates(xs) ==> NoDuplicates(ys)
    ensures |xs| <= |ys| <= |xs| + 1 && ys[..|xs|] == xs
    ensures forall v :: v in ys <==> v in xs || (x.Some? && x.value != [] && v == x.value)
  {
    if x.Some? && x.value != [] && x.value !in xs then xs + [x.value] else xs
  }

  /** The list after one `if x not in candidate_urls:
      candidate_urls.insert(0, x)`: a link not yet listed goes first. */
  function Inserted(xs: seq<string>, x: string): (ys: seq<string>)
    ensures NoDuplicates(xs) ==> NoDuplicates(ys)
    ensures x in ys && |xs| <= |ys| <= |xs| + 1
    ensures forall v :: v in ys <==> v in xs || v == x
    ensures x !in xs ==> ys[0] == x && ys[1..] == xs
    ensures x in xs ==> ys == xs
  {
    if x in xs then xs else [x] + xs
  }

  /** The URL followed by its Drive, Dropbox and Imgur rewrites, in that
      order, each only when new. */
  function BaseCandidates(url: string): seq<string> {
    Appended(Appended(Appended([url], ResolveGoogleDrive(url)), ResolveDropbox(url)), ResolveImgur(url))
  }

  /** The whole list `download_image` downloads from, in order. */
  function CandidateList(url: string, unescape: string -> string, page: PageReply): seq<string> {
    var base := BaseCandidates(url);
    match PhotosPageLink(url, unescape, page)
    case Some(front) => Inserted(base, front)
    case None => base
  }

  /** Before the Photos branch the list holds the URL first, then exactly
      its rewrites, each once. */
  lemma BaseCandidatesFacts(url: string)
    ensures var base := BaseCandidates(url);
      NoDuplicates(base) && 1 <= |base| <= 4 && base[0] == url
      && forall v :: v in base <==> v == url || v in Rewrites(url)
  {
    AppendedThree(url, ResolveGoogleDrive(url), ResolveDropbox(url), ResolveImgur(url));
  }

  lemma AppendedThree(url: string, gd: Option<string>, db: Option<string>, im: Option<string>)
    requires gd.Some? ==> gd.value != []
    requires db.Some? ==> db.value != []
    requires im.Some? ==> im.value != []
    ensures var base := Appended(Appended(Appended([url], gd), db), im);
      NoDuplicates(base) && 1 <= |base| <= 4 && base[0] == url
      && forall v :: v in base <==> v == url || v in OptionSet(gd) + OptionSet(db) + OptionSet(im)
  {
    var b1 := Appended([url], gd);
    var b2 := Appended(b1, db);
    var b3 := Appended(b2, im);
    assert NoDuplicates([url]);
    assert b1[..1] == [url];
    assert b2[..|b1|] == b1;
    assert b3[..|b2|] == b2;
    assert b3[0] == b2[0] == b1[0];
  }

  /** What the candidate list holds: no duplicates, the URL and every
      rewrite, nothing else but the Photos link, which is in front unless
      it was already listed. */
  lemma CandidateListFacts(url: string, unescape: string -> string, page: PageReply)
    ensures var r := CandidateList(url, unescape, page);
      NoDuplicates(r) && 1 <= |r| <= 5 && url in r
      && (forall v :: v in Rewrites(url) ==> v in r)
      && (forall v :: v in r ==> v == url || v in Rewrites(url) || Some(v) == PhotosPageLink(url, unescape, page))
      && (PhotosPageLink(url, unescape, page).Some? ==> PhotosPageLink(url, unescape, page).value in r)
      && (r[0] == url || Some(r[0]) == PhotosPageLink(url, unescape, page))
    ensures var r := CandidateList(url, unescape, page);
      var front := PhotosPageLink(url, unescape, page);
      front.Some? && front.value != url && front.value !in Rewrites(url) ==> r[0] == front.value
  {
    BaseCandidatesFacts(url);
  }

  /** One `if x and x not in candidate_urls: candidate_urls.append(x)`. */
  method AppendIfNew(xs: seq<string>, x: Option<string>) returns (ys: seq<string>)
    ensures ys == Appended(xs, x)
  {
    ys := xs;
    if x.Some? && x.value != [] && x.value !in xs {
      ys := xs + [x.value];
    }
  }

  /** One `if x not in candidate_urls: candidate_urls.insert(0, x)`. */
  method InsertFrontIfNew(xs: seq<string>, x: string) returns (ys: seq<string>)
    ensures ys == Inserted(xs, x)
  {
    ys := xs;
    if x !in xs {
      ys := [x] + xs;
    }
  }

  /** `candidate_urls` as `download_image` leaves it before the download
      loop; None when `url` is empty (the function returns early). */
  method BuildCandidates(url: string, unescape: string -> string, page: PageReply)
    returns (r: Option<seq<string>>)
    ensures r.None? <==> url == []
    ensures r.Some? ==> r.value == CandidateList(url, unescape, page)
    ensures r.Some? ==> NoDuplicates(r.value) && 1 <= |r.value| <= 5
    ensures r.Some? ==> url in r.value && forall v :: v in Rewrites(url) ==> v in r.value
    ensures r.Some? ==> forall v :: v in r.value ==>
      v == url || v in Rewrites(url) || Some(v) == PhotosPageLink(url, unescape, page)
    ensures r.Some? && PhotosPageLink(url, unescape, page).Some? ==>
      PhotosPageLink(url, unescape, page).value in r.value
    ensures r.Some? ==> r.value[0] == url || Some(r.value[0]) == PhotosPageLink(url, unescape, page)
    ensures r.Some? ==> var front := PhotosPageLink(url, unescape, page);
      front.Some? && front.value != url && front.value !in Rewrites(url) ==> r.value[0] == front.value
  {
    if url == [] {
      return None;
    }
    var candidates := [url];
    candidates := AppendIfNew(candidates, ResolveGoogleDrive(url));
    candidates := AppendIfNew(candidates, ResolveDropbox(url));
    candidates := AppendIfNew(candidates, ResolveImgur(url));
    assert candidates == BaseCandidates(url);
    var front := PhotosPageLink(url, unescape, page);
    if IsPhotosUrl(url) && page.Page? && page.status == 200 && page.text != [] {
      var direct := ExtractGooglePhotosLink(page.text, unescape);
      if direct.Some? && direct.value != [] {
        assert front == direct;
        candidates := InsertFrontIfNew(candidates, direct.value);
      } else {
        var meta := Search(OgImage, page.text, 0);
        if meta.Some? {
          assert front == Some(meta.value.group);
          candidates := InsertFrontIfNew(candidates, meta.value.group);
        } else {
          assert front.None?;
        }
      }
    } else {
      assert front.None?;
    }
    CandidateListFacts(url, unescape, page);
    return Some(candidates);
  }

  /** The Google Photos branch only ever adds a link for a Google Photos URL
      whose page came back with status 200, and what it adds occurs in the
      page (decoded for the direct link, raw for og:image). */
  lemma PhotosPageLinkFromPage(url: string, unescape: string -> string, page: PageReply)
    requires PhotosPageLink(url, unescape, page).Some?
    ensures IsPhotosUrl(url) && page.Page? && page.status == 200
    ensures In(PhotosPageLink(url, unescape, page).value, unescape(page.text))
         || In(PhotosPageLink(url, unescape, page).value, page.text)
  {
    var link := PhotosPageLink(url, unescape, page).value;
    if ExtractGooglePhotosLink(page.text, unescape).Some? {
      PhotosLinkIsWholeMatch(page.text, unescape);
    } else {
      var m := Search(OgImage, page.text, 0).value;
      OgImageInPage(page.text, m.start);
    }
  }

  /** The og:image content sits inside the page right after the tag. */
  lemma OgImageInPage(s: string, i: nat)
    requires i <= |s| && MatchAt(OgImage, s, i).Some?
    ensures OccursAt(s, MatchAt(OgImage, s, i).value, i + |OgImageTag|)
    ensures In(MatchAt(OgImage, s, i).value, s)
  {
    var t := s[i..];
    var u := t[|OgImageTag|..];
    var v := MatchAt(OgImage, s, i).value;
    assert v == Span(NonQuote, u) && v == u[..|v|];
    assert u[..|v|] == s[i + |OgImageTag|..i + |OgImageTag| + |v|];
    OccursIn(s, v, i + |OgImageTag|);
  }
}
