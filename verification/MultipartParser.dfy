/** The public parse of a multipart body: segmentation and header/body split put together. */
module MultipartParser {
  import opened Octets
  import opened Segmentation
  import opened DelimiterScan
  import opened BodyPartParser
  import UrlMerge

  datatype Status = Done | NotSupported | Panics | Leaves

  /** The platform under ParseBodyPartL: decoding and unzipping the body and cutting the attributes off
      the content type (None when that leaves), the URI parser, and the URL of the response. */
  datatype Platform = Platform(decode: Part -> Option<Part>, parse: UrlMerge.Parser, url: string)

  /** A body part with its URL, or how filling it in ends. */
  datatype Finished = Finished(part: Part, url: string) | PartPanics | PartLeaves

  predicate Supported(contentType: string) {
    CaseMatchAt(contentType, 0, "multipart/mixed") || CaseMatchAt(contentType, 0, "multipart/related")
  }

  predicate StartsUpToCase(s: string, t: string) {
    |t| <= |s| && forall i :: 0 <= i < |t| ==> Lower(s[i]) == Lower(t[i])
  }

  /** Supported are the two content types, in any letter case and with anything behind them. */
  lemma SupportedIs(contentType: string)
    ensures Supported(contentType) <==>
              StartsUpToCase(contentType, "multipart/mixed") || StartsUpToCase(contentType, "multipart/related")
  {
    var a, b := "multipart/mixed", "multipart/related";
    StartsIs(contentType, a);
    StartsIs(contentType, b);
  }

  lemma StartsIs(s: string, t: string)
    requires '\0' !in t
    ensures CaseMatchAt(s, 0, t) <==> StartsUpToCase(s, t)
  {
    if |t| <= |s| {
      CaseEqualPointwise(s[0..|t|], t);
      hide StrNCaseEqual;
    }
  }

  /** The slices of the body parts, without a limit on their number. */
  ghost function SegmentsOf(s: string, boundary: string): seq<Segment> {
    var eol := EolOf(s, boundary);
    Segments(Events(s, boundary, eol), Width(boundary), |eol|, 0)
  }

  /** aMaxToParse: -1 takes all parts. */
  function Limit(segments: seq<Segment>, maxToParse: int): seq<Segment> {
    if maxToParse == -1 then segments
    else if maxToParse < 0 then []
    else Take(segments, maxToParse)
  }

  /** A limit of -1 takes all parts, any other the first so many, which is none below zero. */
  lemma LimitIs(segments: seq<Segment>, maxToParse: int)
    ensures maxToParse == -1 ==> Limit(segments, maxToParse) == segments
    ensures maxToParse != -1 ==>
              var m := if maxToParse < 0 then 0 else maxToParse;
              Limit(segments, maxToParse) == segments[..if m < |segments| then m else |segments|]
  {
  }

  /** One slice as a body part; comparisons see the buffer behind it. */
  function PartOf(s: string, eol: Eol, segment: Segment): Outcome
    requires segment.Segment? && segment.start <= segment.end <= |s|
  {
    ScanFrom(s[segment.start..], segment.end - segment.start, eol, 0, None, EMPTY_PART)
  }

  function FieldOf(p: Part, f: Field): Option<string> { if f in p.fields then p.fields[f] else None }

  /** The whole of ParseBodyPartL on one slice. */
  function FinishedOf(s: string, eol: Eol, on: Platform, segment: Segment): Finished
    requires segment.Segment? && segment.start <= segment.end <= |s|
  {
    match PartOf(s, eol, segment)
    case Panicked => PartPanics
    case Parsed(p) =>
      match on.decode(p)
      case None => PartLeaves
      case Some(q) =>
        match UrlMerge.PartUrl(on.parse, FieldOf(q, ContentBase), FieldOf(q, ContentLocation), on.url)
        case None => PartLeaves
        case Some(u) => Finished(q, u)
  }

  /** The URL of a finished part. The body is decoded first. An absolute Content-Location is the URL;
      without a Content-Location it is the Content-Base when that is absolute, and otherwise the URL of
      the response. */
  lemma FinishedIs(s: string, eol: Eol, on: Platform, segment: Segment, q: Part)
    requires segment.Segment? && segment.start <= segment.end <= |s|
    requires PartOf(s, eol, segment).Parsed? && on.decode(PartOf(s, eol, segment).part) == Some(q)
    ensures var location := if ContentLocation in q.fields then q.fields[ContentLocation] else None;
            var base := if ContentBase in q.fields then q.fields[ContentBase] else None;
            var f := FinishedOf(s, eol, on, segment);
            && (base.Some? && on.parse(base.value).None? ==> f == PartLeaves)
            && (base.None? || on.parse(base.value).Some? ==>
                  && (location.Some? && on.parse(location.value).None? ==> f == PartLeaves)
                  && (location.Some? && on.parse(location.value).Some? && on.parse(location.value).value.scheme.Some?
                      ==> f == Finished(q, location.value))
                  && (location.None? ==>
                        f == Finished(q, if base.Some? && on.parse(base.value).value.scheme.Some? then base.value
                                         else on.url)))
  {
    hide PartOf;
  }

  /** On any octets at all: every part handed out is in bounds and not empty, starts right after a
      delimiter that an end of line follows, and holds no delimiter past its end of line and one
      octet; and there are at most as many as octets. */
  lemma PartsOfAnyInput(s: string, boundary: string, p: Segment)
    requires p in SegmentsOf(s, boundary)
    ensures var eol, w := EolOf(s, boundary), Width(boundary);
            && p.Segment? && w <= p.start < p.end <= |s|
            && DelimiterAt(s, boundary, p.start - w) && LineEndAt(s, eol, p.start)
            && (forall i :: p.start + |eol| < i < p.end ==> !DelimiterAt(s, boundary, i))
            && |SegmentsOf(s, boundary)| <= |s|
  {
    hide DelimiterAt, EolOf, Segments;
    var eol := EolOf(s, boundary);
    var e := Events(s, boundary, eol);
    SegmentsAreSlices(e, Width(boundary), |eol|, 0);
    assert IsSlice(e, Width(boundary), |eol|, p);
    forall i | p.start + |eol| < i < p.end ensures !DelimiterAt(s, boundary, i) {
      assert e[i] == Nothing;
      EventIsDelimiter(s, boundary, eol, i);
    }
  }

  /** `d` lists the delimiters of a multipart body up to the closing one, in octets: each but the
      last has an end of line behind it, the last two hyphens. */
  ghost predicate IsMultipart(s: string, boundary: string, d: seq<nat>) {
    && |d| > 0 && (forall k, m :: 0 <= k < m < |d| ==> d[k] < d[m])
    && d[|d| - 1] + Width(boundary) + 2 <= |s|
    && (forall i :: 0 <= i <= d[|d| - 1] ==> (DelimiterAt(s, boundary, i) <==> i in d))
    && (forall k :: 0 <= k < |d| - 1 ==> LineEndAt(s, EolOf(s, boundary), d[k] + Width(boundary)))
    && HyphensAt(s, d[|d| - 1] + Width(boundary))
  }

  lemma MultipartIsDelimited(s: string, boundary: string, d: seq<nat>)
    requires IsMultipart(s, boundary, d)
    ensures Delimited(Events(s, boundary, EolOf(s, boundary)), d)
  {
    hide CaseMatchAt, EolOf, LineEndAt;
    var eol, n := EolOf(s, boundary), |d| - 1;
    var e := Events(s, boundary, eol);
    forall i | 0 <= i <= d[n] ensures e[i] != Nothing <==> i in d {
      EventIsDelimiter(s, boundary, eol, i);
    }
    forall k | 0 <= k < n ensures e[d[k]] == Opening {
      assert d[k] < d[n] && d[k] in d && DelimiterAt(s, boundary, d[k]);
      assert e[d[k]] == EventAt(s, boundary, eol, d[k]);
    }
    assert d[n] in d && DelimiterAt(s, boundary, d[n]);
    HyphensAreNoEol(s, eol, d[n] + Width(boundary));
    assert e[d[n]] == EventAt(s, boundary, eol, d[n]);
  }

  lemma HyphensAreNoEol(s: string, eol: Eol, i: nat)
    requires HyphensAt(s, i)
    ensures !LineEndAt(s, eol, i)
  {
    hide LineEndAt;
    if LineEndAt(s, eol, i) {
      LineEndIsOctet(s, eol, i);
    }
  }

  /** Exact segmentation of a multipart body: although the start position moves by lengths, ParseL's
      slices are the parts between the delimiters, in order and once each, if and only if every part
      is longer than its end of line and longer than the preamble plus one delimiter for each part
      before it. */
  lemma ExactParse(s: string, boundary: string, d: seq<nat>)
    requires IsMultipart(s, boundary, d)
    ensures var w, eol := Width(boundary), EolOf(s, boundary);
            SegmentsOf(s, boundary) == PartsFrom(d, w, 0)
            <==> forall k :: 0 <= k < |d| - 1 ==>
                   Segmentation.Length(d, w, k) > |eol| && Segmentation.Length(d, w, k) > d[0] + k * w
  {
    hide EolOf, Segments, IsMultipart, Delimited, Events;
    var eol := EolOf(s, boundary);
    MultipartIsDelimited(s, boundary, d);
    ExactSegmentation(Events(s, boundary, eol), Width(boundary), |eol|, d);
  }

  /** With a limit m, the first m parts, or all of them if there are fewer, are handed out if and only
      if each of them is longer than its end of line and each but the m-th is longer than the preamble
      plus one delimiter for each part before it. */
  lemma LimitedParse(s: string, boundary: string, d: seq<nat>, m: nat)
    requires IsMultipart(s, boundary, d)
    ensures var w, eol, n := Width(boundary), EolOf(s, boundary), |d| - 1;
            Limit(SegmentsOf(s, boundary), m) == PartsFrom(d, w, 0)[..if m < n then m else n]
            <==> forall k :: 0 <= k < n && k < m ==>
                   Segmentation.Length(d, w, k) > |eol| && (k < m - 1 ==> Segmentation.Length(d, w, k) > d[0] + k * w)
  {
    hide EolOf, Segments, IsMultipart, Delimited, Events, PartsFrom;
    var eol, w := EolOf(s, boundary), Width(boundary);
    MultipartIsDelimited(s, boundary, d);
    FirstSegments(Events(s, boundary, eol), w, |eol|, d, m);
  }

  lemma SegmentsInBounds(s: string, boundary: string)
    ensures InBounds(s, SegmentsOf(s, boundary))
  {
    var eol := EolOf(s, boundary);
    SegmentsAreSlices(Events(s, boundary, eol), Width(boundary), |eol|, 0);
  }

  ghost predicate InBounds(s: string, segments: seq<Segment>) {
    forall p :: p in segments ==> p.Segment? && p.start < p.end <= |s|
  }

  predicate Holds(part: BodyPart, f: Finished)
    reads part
  {
    f.Finished? && part.View() == f.part && part.url == Some(f.url)
  }

  /** The body part objects hold what the slices one by one come to. */
  ghost predicate Filled(s: string, eol: Eol, on: Platform, segments: seq<Segment>, parts: seq<BodyPart>)
    requires InBounds(s, segments)
    reads parts
  {
    && |segments| == |parts|
    && forall k :: 0 <= k < |parts| ==> Holds(parts[k], FinishedOf(s, eol, on, segments[k]))
  }

  lemma OneMorePart(s: string, eol: Eol, on: Platform, segments: seq<Segment>, parts: seq<BodyPart>,
                    segment: Segment, part: BodyPart)
    requires InBounds(s, segments) && Filled(s, eol, on, segments, parts)
    requires segment.Segment? && segment.start < segment.end <= |s| && Holds(part, FinishedOf(s, eol, on, segment))
    ensures InBounds(s, segments + [segment]) && Filled(s, eol, on, segments + [segment], parts + [part])
  {
    hide FinishedOf, Holds;
  }

  lemma NoParts(s: string, eol: Eol, on: Platform)
    ensures InBounds(s, []) && Filled(s, eol, on, [], [])
  {
  }

  /** ParseBodyPartL on one slice: the octets, then the platform's decoding, then the URL. */
  method ParseSegment(s: string, eol: Eol, on: Platform, segment: Segment) returns (status: Status, part: BodyPart)
    requires segment.Segment? && segment.start <= segment.end <= |s|
    ensures fresh(part)
    ensures match status
            case Done => Holds(part, FinishedOf(s, eol, on, segment))
            case Panics => FinishedOf(s, eol, on, segment) == PartPanics
            case Leaves => FinishedOf(s, eol, on, segment) == PartLeaves
            case NotSupported => false
  {
    hide ScanFrom;
    part := new BodyPart();
    var panicked := ParseBodyPart(s[segment.start..], segment.end - segment.start, eol, part);
    if panicked {
      return Panics, part;
    }
    var decoded := on.decode(part.View());
    if decoded.None? {
      return Leaves, part;
    }
    part.headers, part.body, part.fields := decoded.value.headers, decoded.value.body, decoded.value.fields;
    var url := UrlMerge.GetBodyPartUrl(on.parse, FieldOf(part.View(), ContentBase),
                                       FieldOf(part.View(), ContentLocation), on.url);
    if url.Left? {
      return Leaves, part;
    }
    part.url := Some(url.text);
    status := Done;
  }

  /** How the parse ends with n of the wanted slices finished: with all of them, or at a slice that
      panics or leaves, or before the first. */
  ghost predicate EndsRight(status: Status, s: string, eol: Eol, on: Platform, wanted: seq<Segment>, n: nat)
    requires InBounds(s, wanted) && n <= |wanted|
  {
    match status
    case NotSupported => n == 0
    case Done => n == |wanted|
    case Panics => n < |wanted| && FinishedOf(s, eol, on, wanted[n]) == PartPanics
    case Leaves => n < |wanted| && FinishedOf(s, eol, on, wanted[n]) == PartLeaves
  }

  lemma LimitInBounds(s: string, segments: seq<Segment>, maxToParse: int)
    requires InBounds(s, segments)
    ensures InBounds(s, Limit(segments, maxToParse))
  {
  }

  lemma SegmentsOfIs(s: string, boundary: string)
    ensures SegmentsOf(s, boundary) ==
            Segments(Events(s, boundary, EolOf(s, boundary)), Width(boundary), |EolOf(s, boundary)|, 0)
  {
  }

  /** On any octets: the parts handed out are the finished slices, in order, up to the limit; the parse
      stops short only at a slice that panics or leaves. */
  method ParseL(s: string, contentType: string, boundary: string, on: Platform, maxToParse: int)
    returns (status: Status, bodyParts: seq<BodyPart>)
    requires |s| > 0
    ensures var wanted := Limit(SegmentsOf(s, boundary), maxToParse);
            && InBounds(s, wanted) && |bodyParts| <= |wanted|
            && Filled(s, EolOf(s, boundary), on, wanted[..|bodyParts|], bodyParts)
            && EndsRight(status, s, EolOf(s, boundary), on, wanted, |bodyParts|)
            && (status == NotSupported <==> !Supported(contentType))
  {
    hide Events, Segments, NextSegment, EolOf, FinishedOf, Limit, Supported, Filled, Holds, SegmentsOf;
    SegmentsInBounds(s, boundary);
    LimitInBounds(s, SegmentsOf(s, boundary), maxToParse);
    SegmentsOfIs(s, boundary);
    NoParts(s, EolOf(s, boundary), on);
    status, bodyParts := NotSupported, [];
    if !Supported(contentType) {
      assert Limit(SegmentsOf(s, boundary), maxToParse)[..0] == [];
      return;
    }
    var eol := SetEolCharacters(s, boundary);
    ghost var e := Events(s, boundary, eol);
    ghost var w := Width(boundary);
    ghost var done: seq<Segment> := [];
    var counter, startPosition := 0, 0;
    status := Done;
    while true
      invariant status == Done && counter == |bodyParts| == |done|
      invariant maxToParse == -1 || counter <= maxToParse || counter == 0
      invariant SegmentsOf(s, boundary) == done + Segments(e, w, |eol|, startPosition)
      invariant InBounds(s, done) && Filled(s, eol, on, done, bodyParts)
      decreases |s| - startPosition
    {
      if maxToParse != -1 && counter >= maxToParse {
        LimitReached(SegmentsOf(s, boundary), maxToParse, done);
        break;
      }
      SegmentsStep(e, w, |eol|, startPosition);
      var segment := GetNextBodyPartBuffer(startPosition, s, boundary, eol);
      if segment.NoSegment? {
        LimitReached(SegmentsOf(s, boundary), maxToParse, done);
        break;
      }
      startPosition := startPosition + (segment.end - segment.start);
      Regroup(done, segment, Segments(e, w, |eol|, startPosition));
      counter := counter + 1;
      var ended, bodyPart := ParseSegment(s, eol, on, segment);
      LimitHolds(SegmentsOf(s, boundary), maxToParse, done, segment);
      if ended != Done {
        status := ended;
        return;
      }
      OneMorePart(s, eol, on, done, bodyParts, segment, bodyPart);
      done := done + [segment];
      bodyParts := bodyParts + [bodyPart];
    }
  }

  lemma Regroup(done: seq<Segment>, next: Segment, rest: seq<Segment>)
    ensures done + ([next] + rest) == (done + [next]) + rest
    ensures done + [next] <= done + ([next] + rest)
  {
  }

  lemma LimitReached(segments: seq<Segment>, maxToParse: int, done: seq<Segment>)
    requires done <= segments
    requires maxToParse == -1 || |done| <= maxToParse || |done| == 0
    requires |done| == |segments| || (maxToParse != -1 && |done| >= maxToParse)
    ensures Limit(segments, maxToParse) == done == Limit(segments, maxToParse)[..|done|]
  {
  }

  lemma LimitHolds(segments: seq<Segment>, maxToParse: int, done: seq<Segment>, next: Segment)
    requires done + [next] <= segments
    requires maxToParse == -1 || |done| < maxToParse
    ensures var wanted := Limit(segments, maxToParse);
            |done| < |wanted| && wanted[..|done|] == done && wanted[|done|] == next
  {
  }
}
