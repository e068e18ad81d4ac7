/** The regular expressions of main.py as hand-written scanners. `MatchAt`
    says whether a pattern matches at one index of a string and what its
    capturing group holds; `Search` is `re.search`, the leftmost such index. */
module Patterns {
  import opened Builtins

  /** The character classes the patterns use. */
  datatype CharClass =
    | FileIdChar  // [a-zA-Z0-9_-]
    | AlnumChar   // [A-Za-z0-9]
    | DigitChar   // \d, ASCII digits only
    | LinkChar    // [^\s"'<>]
    | NonQuote    // [^"]

  predicate IsAsciiAlnum(c: char) {
    ('a' <= c <= 'z') || ('A' <= c <= 'Z') || ('0' <= c <= '9')
  }

  predicate InClass(k: CharClass, c: char) {
    match k
    case FileIdChar => IsAsciiAlnum(c) || c == '_' || c == '-'
    case AlnumChar => IsAsciiAlnum(c)
    case DigitChar => '0' <= c <= '9'
    case LinkChar => !IsSpace(c) && c != '"' && c != '\'' && c != '<' && c != '>'
    case NonQuote => c != '"'
  }

  predicate AllIn(k: CharClass, s: string) {
    forall i :: 0 <= i < |s| ==> InClass(k, s[i])
  }

  /** The longest prefix of `s` made of class `k`: what a greedy `k+` consumes
      when nothing after it in the pattern can force it to give back. */
  function Span(k: CharClass, s: string): (r: string)
    ensures |r| <= |s| && r == s[..|r|]
    ensures AllIn(k, r)
    ensures |r| < |s| ==> !InClass(k, s[|r|])
  {
    if s != [] && InClass(k, s[0]) then [s[0]] + Span(k, s[1..]) else []
  }

  /** A run of class `k` followed by a character outside it (or by the end of
      the string) is exactly what `Span` consumes. */
  lemma SpanOf(k: CharClass, p: string, q: string)
    requires AllIn(k, p)
    requires q == [] || !InClass(k, q[0])
    ensures Span(k, p + q) == p
  {
    var r := Span(k, p + q);
    assert forall i :: 0 <= i < |p| ==> (p + q)[i] == p[i];
    assert q != [] ==> (p + q)[|p|] == q[0];
    assert |r| == |p|;
    assert r == (p + q)[..|p|] == p;
  }

  datatype Pattern =
    | DrivePath   // /d/([a-zA-Z0-9_-]+)
    | DriveQuery  // [?&]id=([a-zA-Z0-9_-]+)
    | ImgurPage   // imgur\.com/(?:gallery/|a/)?([A-Za-z0-9]+)
    | PhotosLink  // (https:\/\/lh\d+\.googleusercontent\.com\/[^\s"'<>]+)
    | OgImage     // <meta property="og:image" content="([^"]+)"

  const PhotosScheme := "https://lh"
  const PhotosHost := ".googleusercontent.com/"
  const OgImageTag := "<meta property=\"og:image\" content=\""

  function NonEmpty(s: string): Option<string> {
    if s == [] then None else Some(s)
  }

  /** The group that pattern `p` captures when matched at index `i` of `s`,
      or None when it does not match there. */
  function MatchAt(p: Pattern, s: string, i: nat): (r: Option<string>)
    requires i <= |s|
    ensures r.Some? ==> r.value != []
    ensures r.Some? && (p.DrivePath? || p.DriveQuery?) ==> AllIn(FileIdChar, r.value)
    ensures r.Some? && p.ImgurPage? ==> AllIn(AlnumChar, r.value)
    ensures r.Some? && p.PhotosLink? ==> StartsWith(r.value, PhotosScheme) && OccursAt(s, r.value, i)
    ensures r.Some? && p.OgImage? ==> AllIn(NonQuote, r.value)
  {
    var t := s[i..];
    match p
    case DrivePath =>
      if StartsWith(t, "/d/") then NonEmpty(Span(FileIdChar, t[3..])) else None
    case DriveQuery =>
      if t != [] && (t[0] == '?' || t[0] == '&') && StartsWith(t[1..], "id=")
      then NonEmpty(Span(FileIdChar, t[4..]))
      else None
    case ImgurPage =>
      if !StartsWith(t, "imgur.com/") then None
      else
        var u := t[10..];
        if StartsWith(u, "gallery/") && Span(AlnumChar, u[8..]) != [] then Some(Span(AlnumChar, u[8..]))
        else if StartsWith(u, "a/") && Span(AlnumChar, u[2..]) != [] then Some(Span(AlnumChar, u[2..]))
        else NonEmpty(Span(AlnumChar, u))
    case PhotosLink =>
      if !StartsWith(t, PhotosScheme) then None
      else
        var digits := Span(DigitChar, t[|PhotosScheme|..]);
        var afterDigits := |PhotosScheme| + |digits|;
        if digits == [] || !StartsWith(t[afterDigits..], PhotosHost) then None
        else
          var tail := Span(LinkChar, t[afterDigits + |PhotosHost|..]);
          if tail == [] then None
          else
            assert s[i..][..afterDigits + |PhotosHost| + |tail|] == s[i..i + afterDigits + |PhotosHost| + |tail|];
            Some(t[..afterDigits + |PhotosHost| + |tail|])
    case OgImage =>
      if !StartsWith(t, OgImageTag) then None
      else
        var u := t[|OgImageTag|..];
        var v := Span(NonQuote, u);
        if v != [] && |v| < |u| then Some(v) else None
  }

  /** The literal characters a match at `i` needs: what rules a match out. */
  lemma MatchNeeds(p: Pattern, s: string, i: nat)
    requires i <= |s|
    ensures MatchAt(p, s, i).Some? && p.DrivePath? ==> i + 3 <= |s| && s[i] == '/' && s[i + 1] == 'd' && s[i + 2] == '/'
    ensures MatchAt(p, s, i).Some? && p.DriveQuery? ==> i + 4 <= |s| && (s[i] == '?' || s[i] == '&') && s[i + 1] == 'i'
    ensures MatchAt(p, s, i).Some? && p.ImgurPage? ==> i + 10 <= |s| && s[i] == 'i' && s[i + 5] == '.'
  {
    var t := s[i..];
    if MatchAt(p, s, i).None? {
    } else if p.DrivePath? {
      assert t[..3] == "/d/";
      assert s[i] == t[..3][0] && s[i + 1] == t[..3][1] && s[i + 2] == t[..3][2];
    } else if p.DriveQuery? {
      assert t[1..][..3] == "id=";
      assert s[i + 1] == t[1..][..3][0];
    } else if p.ImgurPage? {
      assert t[..10] == "imgur.com/";
      assert s[i] == t[..10][0] && s[i + 5] == t[..10][5];
    }
  }

  /** The Photos pattern at the start of `s`: the scheme, a run of digits,
      the host and a run of link characters make the match. */
  lemma PhotosMatchAtStart(s: string, digits: string, tail: string)
    requires StartsWith(s, PhotosScheme)
    requires digits != [] && Span(DigitChar, s[|PhotosScheme|..]) == digits
    requires StartsWith(s[|PhotosScheme| + |digits|..], PhotosHost)
    requires tail != [] && Span(LinkChar, s[|PhotosScheme| + |digits| + |PhotosHost|..]) == tail
    ensures MatchAt(PhotosLink, s, 0) == Some(s[..|PhotosScheme| + |digits| + |PhotosHost| + |tail|])
  {
    assert s[0..] == s;
  }

  /** The same when those parts make up all of `s`: the match is `s`. */
  lemma PhotosMatchWhole(s: string, digits: string, tail: string)
    requires StartsWith(s, PhotosScheme)
    requires digits != [] && Span(DigitChar, s[|PhotosScheme|..]) == digits
    requires StartsWith(s[|PhotosScheme| + |digits|..], PhotosHost)
    requires tail != [] && Span(LinkChar, s[|PhotosScheme| + |digits| + |PhotosHost|..]) == tail
    requires |PhotosScheme| + |digits| + |PhotosHost| + |tail| == |s|
    ensures MatchAt(PhotosLink, s, 0) == Some(s)
  {
    PhotosMatchAtStart(s, digits, tail);
    assert s[..|s|] == s;
  }

  datatype Match = Match(start: nat, group: string)

  /** `re.search(p, s)` started at index `from`: the leftmost match. */
  function Search(p: Pattern, s: string, from: nat): (r: Option<Match>)
    requires from <= |s|
    decreases |s| - from
    ensures r.Some? ==> from <= r.value.start <= |s| && MatchAt(p, s, r.value.start) == Some(r.value.group)
    ensures forall j :: from <= j <= |s| && (r.None? || j < r.value.start) ==> MatchAt(p, s, j).None?
  {
    match MatchAt(p, s, from)
    case Some(g) => Some(Match(from, g))
    case None => if from == |s| then None else Search(p, s, from + 1)
  }

  /** A match at `k` with none before it is the one `re.search` reports. */
  lemma SearchFindsFirst(p: Pattern, s: string, k: nat, g: string)
    requires k <= |s| && MatchAt(p, s, k) == Some(g)
    requires forall j :: 0 <= j < k ==> MatchAt(p, s, j).None?
    ensures Search(p, s, 0) == Some(Match(k, g))
  {
    var r := Search(p, s, 0);
    assert r.Some? && r.value.start <= k;
  }
}
