/** The URL of a body part, and resolving a relative URL against a base into a counted buffer. */
module UrlMerge {
  import opened Octets
  import opened Composer

  /** The components of a parsed URI; None is a component that is not there. */
  datatype Uri = Uri(scheme: Option<string>, userinfo: Option<string>, host: Option<string>, port: Option<string>,
                     path: Option<string>, query: Option<string>)

  /** The URI parser of the platform; None when it rejects the text. */
  type Parser = string -> Option<Uri>

  /** A URL in a buffer of `capacity` characters; Left when the platform's checks leave. */
  datatype Url = Url(text: string, capacity: nat) | Left

  /** The last place of a character, or -1. */
  function LocateReverse(s: string, c: char): (i: int)
    ensures -1 <= i < |s| && (i >= 0 ==> s[i] == c)
    ensures forall k :: i < k < |s| ==> s[k] != c
  {
    if s == "" then -1
    else if s[|s| - 1] == c then |s| - 1
    else LocateReverse(s[..|s| - 1], c)
  }

  predicate Absolute(base: Uri) { base.scheme.Some? && base.host.Some? }

  /** Scheme and authority as section 5.3 of RFC 3986 puts them together. */
  function Front(base: Uri): string
    requires Absolute(base)
  {
    base.scheme.value + "://"
    + (match base.userinfo case None => "" case Some(u) => u + "@")
    + base.host.value
    + (match base.port case None => "" case Some(p) => ":" + p)
  }

  predicate Rooted(relative: string) { |relative| > 0 && relative[0] == '/' }

  function WithoutDotSlash(relative: string): (r: string)
    ensures relative == r || relative == "./" + r
    ensures relative == r <==> !("./" <= relative)
  {
    if |relative| >= 2 && relative[0] == '.' && relative[1] == '/' then relative[2..] else relative
  }

  /** The path a reference with a path has in section 5.2.2 of RFC 3986, before dot segments are
      removed: its own path when that is rooted, else the merge of section 5.2.3 for a base with an
      authority. */
  function MergedPath(path: Option<string>, relative: string): string {
    if Rooted(relative) then relative
    else if path.GetOr("") == "" then "/" + relative
    else path.value[..LocateReverse(path.value, '/') + 1] + relative
  }

  /** What is written in front of the relative URL: the base path cut behind its last slash, unless
      its last dot is its first character; then the whole base path, ending in a slash. */
  function Kept(path: Option<string>, relative: string): string {
    if Rooted(relative) || path.None? then ""
    else
      var p := path.value;
      if LocateReverse(p, '.') != 0 then p[..LocateReverse(p, '/') + 1]
      else if LocateReverse(p, '/') == |p| - 1 then p
      else p + "/"
  }

  /** What is kept of a base path for a reference that is not rooted: with a dot at its front and
      nowhere else all of it, with a slash behind; otherwise what its last slash ends. */
  lemma KeptIs(p: string, relative: string)
    requires relative == "" || relative[0] != '/'
    ensures var kept := Kept(Some(p), relative);
            if p != "" && p[0] == '.' && '.' !in p[1..] then
              kept == if p[|p| - 1] == '/' then p else p + "/"
            else
              kept <= p && (kept == "" || kept[|kept| - 1] == '/') && '/' !in p[|kept|..]
  {
  }

  /** The base path to copy and whether a slash goes behind it. */
  method KeptPath(base: Uri, relative: string) returns (path: Option<string>, appendSlash: bool)
    ensures path.GetOr("") + (if appendSlash then "/" else "") == Kept(base.path, relative)
  {
    path, appendSlash := None, false;
    if !Rooted(relative) {
      path := base.path;
      if path.Some? {
        if LocateReverse(path.value, '.') != 0 {
          var indexS2 := LocateReverse(path.value, '/');
          if indexS2 != 0 {
            path := Some(path.value[..indexS2 + 1]);
            CutEndsInSlash(base.path.value);
          } else {
            path := None;
          }
        }
        if path.Some? {
          if LocateReverse(path.value, '/') != |path.value| - 1 {
            appendSlash := true;
          }
        } else {
          appendSlash := true;
        }
      }
    }
  }

  lemma CutEndsInSlash(p: string)
    ensures var cut := p[..LocateReverse(p, '/') + 1]; LocateReverse(cut, '/') == |cut| - 1
  {
    var cut := p[..LocateReverse(p, '/') + 1];
    assert |cut| > 0 ==> cut[|cut| - 1] == '/';
  }

  /** The part of the base path that section 5.2.3 of RFC 3986 puts in front of a reference. */
  function Directory(path: Option<string>): string {
    if path.GetOr("") == "" then "/" else path.value[..LocateReverse(path.value, '/') + 1]
  }

  /** The path the standard gives a relative URL as it is written, but for one "./" in front of it,
      which stands for the directory of the base and is taken out behind that. */
  function StandardPath(path: Option<string>, url: string): string {
    var relative := WithoutDotSlash(url);
    if relative != url then Directory(path) + relative else MergedPath(path, url)
  }

  /** The base path is not empty and is cut behind its last slash. */
  predicate CutBehindSlash(path: Option<string>) {
    && path.GetOr("") != ""
    && (LocateReverse(path.value, '.') != 0 || LocateReverse(path.value, '/') == |path.value| - 1)
  }

  /** When the path written for a reference without "./" is the merged one: the reference is rooted, or
      the base has a path that is cut behind its last slash. A base without a path, as in
      "http://host", gets no slash between host and reference. */
  lemma ReferenceIsMerged(path: Option<string>, relative: string)
    ensures Kept(path, relative) + relative == MergedPath(path, relative)
            <==> Rooted(relative) || CutBehindSlash(path)
  {
    var merged := MergedPath(path, relative);
    assert |Kept(path, relative) + relative| == |Kept(path, relative)| + |relative|;
    if !Rooted(relative) && path.Some? {
      var p := path.value;
      assert p[..|p|] == p;
    }
  }

  lemma SameBehind(a: string, b: string, c: string)
    ensures a + c == b + c <==> a == b
  {
    if a + c == b + c {
      assert |a| == |b| && (a + c)[..|a|] == a && (b + c)[..|b|] == b;
    }
  }

  /** When the path written for a relative URL is the standard's. A "./" in front of a rooted rest is
      taken for the root: the base path is dropped, which is right only when nothing would be kept of
      it. In every other case the condition is that of the reference without "./". */
  lemma MergeIsExact(path: Option<string>, url: string)
    ensures var relative := WithoutDotSlash(url);
            Kept(path, relative) + relative == StandardPath(path, url)
            <==> if relative != url && Rooted(relative) then Directory(path) == ""
                 else Rooted(relative) || CutBehindSlash(path)
  {
    hide LocateReverse;
    var relative := WithoutDotSlash(url);
    ReferenceIsMerged(path, relative);
    SameBehind(Kept(path, relative), Directory(path), relative);
    assert !Rooted(relative) ==> MergedPath(path, relative) == Directory(path) + relative;
  }

  /** A base path that starts with a slash is merged as the standard has it, into a rooted path that
      ends in the relative URL, for every relative URL but one that goes on with a slash behind "./". */
  lemma RootedBaseMerges(p: string, url: string)
    requires Rooted(p)
    ensures var relative := WithoutDotSlash(url);
            var m := Kept(Some(p), relative) + relative;
            && (m == StandardPath(Some(p), url) <==> !(relative != url && Rooted(relative)))
            && Rooted(m) && |relative| <= |m| && m[|m| - |relative|..] == relative
            && (|m| > |relative| ==> m[|m| - |relative| - 1] == '/')
  {
    var relative := WithoutDotSlash(url);
    MergeIsExact(Some(p), url);
    assert LocateReverse(p, '.') != 0;
    var i := LocateReverse(p, '/');
    assert i >= 0;
  }

  /** ".//x" against "/a/b": the code writes "/x", the standard has "/a//x". */
  lemma DotSlashSlashDropsTheBase()
    ensures var relative := WithoutDotSlash(".//x");
            && Kept(Some("/a/b"), relative) + relative == "/x"
            && StandardPath(Some("/a/b"), ".//x") == "/a//x"
  {
    var p := "/a/b";
    assert p[3] == 'b' && p[2] == '/';
    assert p[..|p| - 1] == "/a/";
    assert LocateReverse(p, '/') == 2;
    assert ".//x"[2..] == "/x" && "/a/" + "/x" == "/a//x";
  }

  // ----- the whole URL

  predicate HasAuthority(url: string) { |url| >= 2 && url[0] == '/' && url[1] == '/' }

  predicate HasPath(url: string) { url != "" && url[0] != '?' && url[0] != '#' }

  /** What section 5.2.2 of RFC 3986 keeps of the base query: all, unless the reference has its own. */
  function KeptQuery(base: Uri, url: string): string {
    if base.query.None? || (url != "" && url[0] == '?') then "" else "?" + base.query.value
  }

  /** The URL that section 5.2.2 of RFC 3986 gives a relative one, before dot segments are removed. */
  function StandardUrl(base: Uri, url: string): string
    requires Absolute(base)
  {
    if HasAuthority(url) then base.scheme.value + ":" + url
    else if HasPath(url) then Front(base) + StandardPath(base.path, url)
    else Front(base) + (base.path.GetOr("") + KeptQuery(base, url) + url)
  }

  lemma SameFront(a: string, b: string, c: string)
    ensures a + b == a + c <==> b == c
  {
    if a + b == a + c {
      assert (a + b)[|a|..] == b && (a + c)[|a|..] == c;
    }
  }

  /** A reference without a path of its own: the code merges it like a path, and so loses the last
      segment of the base path and its query. */
  lemma PathlessIsMerged(base: Uri, url: string)
    requires !HasPath(url)
    ensures WithoutDotSlash(url) == url
    ensures var p := base.path.GetOr("");
            Kept(base.path, url) + url == p + KeptQuery(base, url) + url
            <==> (p == "" || p[|p| - 1] == '/') && KeptQuery(base, url) == ""
  {
    var p, q, kept := base.path.GetOr(""), KeptQuery(base, url), Kept(base.path, url);
    SameBehind(kept, p + q, url);
    assert q != "" ==> (p + q)[|p|] == '?';
    assert p[..|p|] == p;
  }

  /** Resolution, exactly: the merged URL is the standard's in none of the references with an authority,
      for one without a path only if the base path has no last segment and no query is lost, and for
      one with a path as said above. */
  lemma ResolutionIsExact(base: Uri, url: string)
    requires Absolute(base)
    ensures var relative, p := WithoutDotSlash(url), base.path.GetOr("");
            Front(base) + (Kept(base.path, relative) + relative) == StandardUrl(base, url)
            <==> if HasAuthority(url) then false
                 else if !HasPath(url) then (p == "" || p[|p| - 1] == '/') && KeptQuery(base, url) == ""
                 else if relative != url && Rooted(relative) then Directory(base.path) == ""
                 else Rooted(relative) || CutBehindSlash(base.path)
  {
    hide Kept, StandardPath, KeptQuery, Directory, CutBehindSlash;
    var relative := WithoutDotSlash(url);
    if HasAuthority(url) {
      AuthorityIsLost(base, url);
    } else if HasPath(url) {
      MergeIsExact(base.path, url);
      SameFront(Front(base), Kept(base.path, relative) + relative, StandardPath(base.path, url));
    } else {
      PathlessIsMerged(base, url);
      SameFront(Front(base), Kept(base.path, url) + url, base.path.GetOr("") + KeptQuery(base, url) + url);
    }
  }

  lemma AuthorityIsLost(base: Uri, url: string)
    requires Absolute(base) && HasAuthority(url)
    ensures WithoutDotSlash(url) == url && Kept(base.path, url) == ""
    ensures |Front(base) + ("" + url)| > |StandardUrl(base, url)|
  {
  }

  /** "http://host" and "x" give "http://hostx". */
  lemma NoPathNoSlash(base: Uri)
    requires base == Uri(Some("http"), None, Some("host"), None, None, None)
    ensures Front(base) + Kept(base.path, "x") + "x" == "http://hostx"
    ensures MergedPath(base.path, "x") == "/x"
  {
    assert "http" + "://" + "" + "host" + "" + "" + "x" == "http://hostx";
  }

  /** Scheme and authority with all their separators. */
  lemma FrontOfAll(base: Uri)
    requires base == Uri(Some("http"), Some("u:p"), Some("host"), Some("80"), None, None)
    ensures Front(base) == "http://u:p@host:80"
  {
    assert "http" + "://" + ("u:p" + "@") + "host" + (":" + "80") == "http://u:p@host:80";
  }

  /** UrlRelToAbsL: the URL is written into a buffer whose length was counted before, and with its
      terminator it always fits, although the colon in front of a port is not counted. */
  method UrlRelToAbs(parsed: Option<Uri>, relativeUrl: string) returns (r: Url)
    ensures r.Left? <==> parsed.None? || !Absolute(parsed.value)
    ensures r.Url? ==>
              var base, relative := parsed.value, WithoutDotSlash(relativeUrl);
              && r.text == Front(base) + (Kept(base.path, relative) + relative)
              && r.capacity == |r.text| + 2 - (if base.port.Some? then 1 else 0)
              && |r.text| + 1 <= r.capacity
  {
    if parsed.None? || parsed.value.scheme.None? || parsed.value.host.None? {
      return Left;
    }
    hide Kept, Front, WithoutDotSlash;
    var base := parsed.value;
    var len := CountFront(base);
    var relative := WithoutDotSlash(relativeUrl);
    len := len + |relative|;
    var path, appendSlash := KeptPath(base, relative);
    if path.Some? {
      len := len + |path.value|;
    }
    if appendSlash {
      len := len + 1;
    }
    len := len + 2;
    ghost var kept := path.GetOr("") + (if appendSlash then "/" else "");

    var urlAbs := new Descriptor(len);
    PrintFront(base, urlAbs);
    if path.Some? {
      urlAbs.Append(path.value);
    }
    if appendSlash {
      urlAbs.Append("/");
    }
    assert urlAbs.text == Front(base) + kept;
    urlAbs.Append(relative);
    assert (Front(base) + kept) + relative == Front(base) + (kept + relative);
    r := Url(urlAbs.text, len);
  }

  /** Scheme and authority as counted: without the colon in front of a port. */
  method CountFront(base: Uri) returns (len: nat)
    requires Absolute(base)
    ensures len == |Front(base)| - if base.port.Some? then 1 else 0
  {
    len := |base.scheme.value| + 3;
    if base.userinfo.Some? {
      len := len + |base.userinfo.value| + 1;
    }
    len := len + |base.host.value|;
    if base.port.Some? {
      len := len + |base.port.value|;
    }
  }

  method PrintFront(base: Uri, urlAbs: Descriptor)
    requires Absolute(base)
    requires urlAbs.text == "" && |Front(base)| <= urlAbs.max
    modifies urlAbs
    ensures urlAbs.text == Front(base)
  {
    urlAbs.Append(base.scheme.value);
    urlAbs.Append("://");
    if base.userinfo.Some? {
      urlAbs.Append(base.userinfo.value);
      urlAbs.Append("@");
    }
    urlAbs.Append(base.host.value);
    if base.port.Some? {
      urlAbs.Append(":");
      urlAbs.Append(base.port.value);
    }
  }

  /** IsUrlRelativeL; None when the parser rejects the URL. */
  function IsRelative(parse: Parser, url: string): Option<bool> {
    match parse(url)
    case None => None
    case Some(uri) => Some(uri.scheme.None?)
  }

  /** The base a part's location is resolved against: the part's own when it is absolute, else the
      URL of the response. */
  function BaseFor(parse: Parser, contentBase: Option<string>, responseUrl: string): string {
    if contentBase.Some? && IsRelative(parse, contentBase.value) == Some(false) then contentBase.value else responseUrl
  }

  /** The URL of a part; None when the platform's checks leave. */
  function PartUrl(parse: Parser, contentBase: Option<string>, contentLocation: Option<string>, responseUrl: string)
    : Option<string>
  {
    if contentBase.Some? && parse(contentBase.value).None? then None
    else
      var base := BaseFor(parse, contentBase, responseUrl);
      match contentLocation
      case None => Some(base)
      case Some(location) =>
        match IsRelative(parse, location)
        case None => None
        case Some(false) => Some(location)
        case Some(true) =>
          var uri := parse(base);
          if uri.None? || !Absolute(uri.value) then None
          else
            var relative := WithoutDotSlash(location);
            Some(Front(uri.value) + (Kept(uri.value.path, relative) + relative))
  }

  /** GetBodyPartUrlL: an absolute location stands alone, a relative one is resolved against the
      base, and without a location the base itself is the URL; every URL leaves room for a terminator. */
  method GetBodyPartUrl(parse: Parser, contentBase: Option<string>, contentLocation: Option<string>,
                        responseUrl: string)
    returns (r: Url)
    ensures contentBase.Some? && parse(contentBase.value).None? ==> r == Left
    ensures contentLocation.Some? && parse(contentLocation.value).None? ==> r == Left
    ensures r.Url? ==> |r.text| < r.capacity
    ensures PartUrl(parse, contentBase, contentLocation, responseUrl) == if r.Url? then Some(r.text) else None
    ensures contentBase.None? || parse(contentBase.value).Some? ==>
              var base := if contentBase.Some? && parse(contentBase.value).value.scheme.Some? then contentBase.value
                          else responseUrl;
              match contentLocation
              case None => r.Url? && r.text == base
              case Some(location) =>
                match parse(location)
                case None => r == Left
                case Some(uri) =>
                  if uri.scheme.Some? then r.Url? && r.text == location
                  else if parse(base).None? || !Absolute(parse(base).value) then r == Left
                  else
                    var uri, relative := parse(base).value, WithoutDotSlash(location);
                    r.Url? && r.text == Front(uri) + (Kept(uri.path, relative) + relative)
  {
    var contentBaseInvalid := true;
    if contentBase.Some? {
      var relative := IsRelative(parse, contentBase.value);
      if relative.None? {
        return Left;
      }
      contentBaseInvalid := relative.value;
    }
    var url := if contentBaseInvalid then responseUrl else contentBase.value;
    if contentLocation.None? {
      return Url(url, |url| + 1);
    }
    var relative := IsRelative(parse, contentLocation.value);
    if relative.None? {
      return Left;
    }
    if !relative.value {
      return Url(contentLocation.value, |contentLocation.value| + 1);
    }
    r := UrlRelToAbs(parse(url), contentLocation.value);
  }
}
