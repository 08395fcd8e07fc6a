/** Composing a document and parsing it again. */
module RoundTrip {
  import opened Octets
  import opened Segmentation
  import opened DelimiterScan
  import opened BodyPartParser
  import opened HeaderSplit
  import opened PastTheEnd
  import opened Composer
  import opened ComposedDelimiters
  import opened MultipartParser

  /** The preamble ends its line, and the boundary occurs neither in it nor in a piece. */
  ghost predicate Composable(preamble: string, live: seq<Piece>, boundary: string) {
    && Plain(boundary)
    && |preamble| > 0 && preamble[|preamble| - 1] == '\n' && NoDelimiterIn(preamble, boundary)
    && Printable(live, boundary)
  }

  /** The boundary occurs in no piece, and no piece has headers of line breaks only. */
  ghost predicate Printable(live: seq<Piece>, boundary: string) {
    forall p :: p in live ==> !IsEmpty(p) && !OnlyBreaks(p) && NoDelimiterIn(PartText(p), boundary)
  }

  ghost function Text(preamble: string, live: seq<Piece>, boundary: string): string {
    preamble + BodyText(live, boundary)
  }

  lemma PieceStandsAt(preamble: string, live: seq<Piece>, boundary: string, k: nat)
    requires k < |live|
    ensures var s, a := Text(preamble, live, boundary), Offset(preamble, live, boundary, k);
            var t := PieceText(live[k], boundary);
            a + |t| <= |s| && s[a..a + |t|] == t
  {
    hide PieceText;
    TextAtOffset(live, boundary, k);
    var s, parts := Text(preamble, live, boundary), PartsText(live, boundary);
    PrefixSlice(preamble, parts, s);
    var a, t := |PartsText(live[..k], boundary)|, PieceText(live[k], boundary);
    SliceOfSlice(s, |preamble|, parts, a, a + |t|);
  }

  lemma CloseStandsAt(preamble: string, live: seq<Piece>, boundary: string)
    ensures var s, a := Text(preamble, live, boundary), Offset(preamble, live, boundary, |live|);
            |s| == a + Width(boundary) + 2 && s[a..] == CloseDelimiter(boundary)
  {
    assert live[..|live|] == live;
    var s := Text(preamble, live, boundary);
    assert s == (preamble + PartsText(live, boundary)) + CloseDelimiter(boundary);
  }

  /** Every position up to the closing delimiter lies in the preamble, in one piece, or on it. */
  lemma {:induction false} Locate(preamble: string, live: seq<Piece>, boundary: string, n: nat, i: nat) returns (k: nat)
    requires n <= |live| && |preamble| <= i < Offset(preamble, live, boundary, n)
    ensures k < n && Offset(preamble, live, boundary, k) <= i < Offset(preamble, live, boundary, k + 1)
  {
    if n > 0 {
      if i < Offset(preamble, live, boundary, n - 1) {
        k := Locate(preamble, live, boundary, n - 1, i);
      } else {
        k := n - 1;
      }
    }
  }

  lemma {:induction false} OffsetsIncrease(preamble: string, live: seq<Piece>, boundary: string, k: nat, m: nat)
    requires k < m <= |live| && forall p :: p in live ==> !IsEmpty(p)
    ensures Offset(preamble, live, boundary, k) < Offset(preamble, live, boundary, m)
    decreases m
  {
    NextOffset(preamble, live, boundary, m - 1);
    if k < m - 1 {
      OffsetsIncrease(preamble, live, boundary, k, m - 1);
    }
  }

  lemma OffsetsAreOrdered(preamble: string, live: seq<Piece>, boundary: string)
    requires forall p :: p in live ==> !IsEmpty(p)
    ensures var d := Offsets(preamble, live, boundary);
            forall k, m :: 0 <= k < m < |d| ==> d[k] < d[m]
  {
    forall k, m | 0 <= k < m <= |live|
      ensures Offset(preamble, live, boundary, k) < Offset(preamble, live, boundary, m)
    {
      OffsetsIncrease(preamble, live, boundary, k, m);
    }
  }

  /** Up to the closing delimiter, delimiters stand at the offsets and nowhere else. */
  lemma DelimitersAreOffsets(preamble: string, live: seq<Piece>, boundary: string, i: nat)
    requires Composable(preamble, live, boundary) && i <= Offset(preamble, live, boundary, |live|)
    ensures var s, d := Text(preamble, live, boundary), Offsets(preamble, live, boundary);
            DelimiterAt(s, boundary, i) <==> i in d
  {
    hide NoDelimiterIn, DelimiterAt, Text, Offset, IsEmpty, OnlyBreaks, PieceText, PartText;
    var s, d := Text(preamble, live, boundary), Offsets(preamble, live, boundary);
    FirstOffset(preamble, live, boundary);
    OffsetsAreOrdered(preamble, live, boundary);
    if i < |preamble| {
      PreambleFirst(preamble, live, boundary);
      NoneInside(s, boundary, 0, preamble, i);
      assert forall k :: 0 < k < |d| ==> d[0] < d[k];
    } else if i < d[|live|] {
      var k := Locate(preamble, live, boundary, |live|, i);
      PieceStandsAt(preamble, live, boundary, k);
      PieceFills(preamble, live, boundary, k);
      assert live[k] in live;
      OneDelimiter(s, boundary, d[k], live[k], i);
      NotBetween(d, k, i);
    } else {
      CloseStandsAt(preamble, live, boundary);
      assert d[|live|] in d;
      assert s[i..i + Width(boundary)] == s[i..][..Width(boundary)];
      assert CloseDelimiter(boundary)[..Width(boundary)] == HYPHENS + boundary;
      DelimiterWhereWritten(s, boundary, i);
    }
  }

  lemma NotBetween(d: seq<nat>, k: nat, i: nat)
    requires (forall k, m :: 0 <= k < m < |d| ==> d[k] < d[m]) && k + 1 < |d| && d[k] <= i < d[k + 1]
    ensures i in d <==> i == d[k]
  {
    assert d[k] in d;
    forall m | 0 <= m < |d| && m != k ensures d[m] != i {
      if m < k {
        assert d[m] < d[k];
      } else if k + 1 < m {
        assert d[k + 1] < d[m];
      }
    }
  }

  lemma FirstOffset(preamble: string, live: seq<Piece>, boundary: string)
    ensures Offset(preamble, live, boundary, 0) == |preamble|
  {
    assert live[..0] == [];
  }

  lemma PreambleFirst(preamble: string, live: seq<Piece>, boundary: string)
    ensures var s := Text(preamble, live, boundary);
            |preamble| <= |s| && s[0..0 + |preamble|] == preamble
  {
  }

  lemma PieceFills(preamble: string, live: seq<Piece>, boundary: string, k: nat)
    requires k < |live|
    ensures Offset(preamble, live, boundary, k + 1)
            == Offset(preamble, live, boundary, k) + |PieceText(live[k], boundary)|
  {
    assert live[..k + 1][..k] == live[..k];
  }

  // ----- the events of the composed document

  /** Each piece's delimiter opens a part: a CRLF stands behind it. */
  lemma OpensAt(preamble: string, live: seq<Piece>, boundary: string, k: nat)
    requires Composable(preamble, live, boundary) && k < |live|
    ensures var s, a := Text(preamble, live, boundary), Offset(preamble, live, boundary, k);
            && EventAt(s, boundary, CRLF, a) == Opening
            && a + Width(boundary) + |PartText(live[k])| <= |s|
            && s[a + Width(boundary)..a + Width(boundary) + |PartText(live[k])|] == PartText(live[k])
  {
    hide NoDelimiterIn, DelimiterAt, Text, Offset, Inside;
    var s, a := Text(preamble, live, boundary), Offset(preamble, live, boundary, k);
    var w, t := Width(boundary), PieceText(live[k], boundary);
    assert live[k] in live;
    PieceStandsAt(preamble, live, boundary, k);
    assert t == (HYPHENS + boundary) + PartText(live[k]);
    PrefixSlice(HYPHENS + boundary, PartText(live[k]), t);
    SliceOfSlice(s, a, t, 0, w);
    SliceOfSlice(s, a, t, w, |t|);
    DelimiterWhereWritten(s, boundary, a);
    SliceOfSlice(s, a + w, PartText(live[k]), 0, 2);
    assert PartText(live[k])[0..2] == CRLF;
  }

  lemma ClosesAt(preamble: string, live: seq<Piece>, boundary: string)
    ensures var s, a := Text(preamble, live, boundary), Offset(preamble, live, boundary, |live|);
            EventAt(s, boundary, CRLF, a) == Closing
  {
    hide DelimiterAt, Text, Offset;
    var s, a, w := Text(preamble, live, boundary), Offset(preamble, live, boundary, |live|), Width(boundary);
    CloseStandsAt(preamble, live, boundary);
    var c := CloseDelimiter(boundary);
    assert s[a..a + |c|] == c;
    SliceOfSlice(s, a, c, 0, w);
    assert c[0..w] == HYPHENS + boundary;
    DelimiterWhereWritten(s, boundary, a);
    assert s[a + w] == c[w] == '-' && s[a + w + 1] == c[w + 1] == '-';
  }

  /** A composed document is delimited at the composer's offsets. */
  lemma ComposedIsDelimited(preamble: string, live: seq<Piece>, boundary: string)
    requires Composable(preamble, live, boundary)
    ensures Delimited(Events(Text(preamble, live, boundary), boundary, CRLF), Offsets(preamble, live, boundary))
  {
    hide NoDelimiterIn, DelimiterAt, Text, Offset, EventAt, PartText, IsEmpty, OnlyBreaks;
    var s, d := Text(preamble, live, boundary), Offsets(preamble, live, boundary);
    var e := Events(s, boundary, CRLF);
    OffsetsAreOrdered(preamble, live, boundary);
    CloseStandsAt(preamble, live, boundary);
    ClosesAt(preamble, live, boundary);
    forall k | 0 <= k < |d| - 1 ensures e[d[k]] == Opening {
      OpensAt(preamble, live, boundary, k);
    }
    forall i | 0 <= i <= d[|d| - 1] ensures e[i] != Nothing <==> i in d {
      DelimitersAreOffsets(preamble, live, boundary, i);
      EventIsDelimiter(s, boundary, CRLF, i);
    }
  }

  /** Behind the first delimiter stands a CR or a hyphen. */
  lemma BehindTheFirst(preamble: string, live: seq<Piece>, boundary: string)
    requires Composable(preamble, live, boundary)
    ensures var s, at := Text(preamble, live, boundary), |preamble| + Width(boundary);
            at < |s| && s[at] != '\n'
  {
    hide NoDelimiterIn, DelimiterAt, Text, Offset, Plain, IsEmpty, OnlyBreaks, Inside;
    var s, w := Text(preamble, live, boundary), Width(boundary);
    FirstOffset(preamble, live, boundary);
    if |live| > 0 {
      OpensAt(preamble, live, boundary, 0);
      assert s[|preamble| + w] == PartText(live[0])[0] == '\r';
    } else {
      CloseStandsAt(preamble, live, boundary);
      var c := CloseDelimiter(boundary);
      assert s[|preamble|..][w] == c[w] == '-';
    }
  }

  lemma EolFromFirst(s: string, boundary: string, at: nat)
    requires DelimiterAt(s, boundary, at) && forall i :: 0 <= i < at ==> !DelimiterAt(s, boundary, i)
    requires at + Width(boundary) < |s| && s[at + Width(boundary)] != '\n'
    ensures EolOf(s, boundary) == CRLF
  {
    hide DelimiterAt, FirstDelimiter;
    assert FirstDelimiter(s, boundary, 0) == Some(at);
  }

  /** The parser settles on CRLF. */
  lemma ComposedEol(preamble: string, live: seq<Piece>, boundary: string)
    requires Composable(preamble, live, boundary)
    ensures EolOf(Text(preamble, live, boundary), boundary) == CRLF
  {
    hide NoDelimiterIn, DelimiterAt, Text, Offset, EolOf, Plain, IsEmpty, OnlyBreaks, PartText;
    var s, d := Text(preamble, live, boundary), Offsets(preamble, live, boundary);
    FirstOffset(preamble, live, boundary);
    OffsetsAreOrdered(preamble, live, boundary);
    BehindTheFirst(preamble, live, boundary);
    assert d[0] == |preamble| <= d[|live|] && d[0] in d;
    forall i | 0 <= i <= |preamble| ensures DelimiterAt(s, boundary, i) <==> i == |preamble| {
      DelimitersAreOffsets(preamble, live, boundary, i);
      assert forall k :: 0 < k < |d| ==> d[0] < d[k];
    }
    EolFromFirst(s, boundary, |preamble|);
  }

  // ----- the round trip

  /** Segmentation of a composed document: exact if and only if every part is longer than the
      preamble plus one delimiter for each part before it. */
  lemma ComposedSegmentation(preamble: string, live: seq<Piece>, boundary: string)
    requires Composable(preamble, live, boundary)
    ensures var d, w := Offsets(preamble, live, boundary), Width(boundary);
            SegmentsOf(Text(preamble, live, boundary), boundary) == PartsFrom(d, w, 0)
            <==> forall k :: 0 <= k < |live| ==> |PartText(live[k])| > |preamble| + k * w
  {
    hide NoDelimiterIn, DelimiterAt, Text, Offset, EventAt, PartText, IsEmpty, OnlyBreaks, Segments, EolOf;
    var s, d, w := Text(preamble, live, boundary), Offsets(preamble, live, boundary), Width(boundary);
    ComposedEol(preamble, live, boundary);
    ComposedIsDelimited(preamble, live, boundary);
    ExactSegmentation(Events(s, boundary, CRLF), w, 2, d);
    FirstOffset(preamble, live, boundary);
    forall k | 0 <= k < |live|
      ensures Segmentation.Length(d, w, k) == |PartText(live[k])| && |PartText(live[k])| > 2
    {
      assert live[k] in live;
      NextOffset(preamble, live, boundary, k);
      EndsInBreak(live[k]);
    }
  }

  /** No blank line within the headers, not one character of them, and no lone Content-ID '<' that is
      the first header on its line. */
  ghost predicate CleanHeaders(p: Piece) {
    !Overcounted(p) && NoBlankIn(CRLF + Strip(p.headers)) && !AngleMet(PartText(p), |PartText(p)|, CRLF, 0)
  }

  ghost predicate NoBlankIn(h: string) {
    forall i :: 0 <= i < |h| ==> !BlankAt(h, CRLF, i)
  }

  function HeaderEnd(h: string): nat { if h == "" then 0 else 2 + |h| }

  lemma TextOfPart(p: Piece)
    ensures var t, h := PartText(p), Strip(p.headers);
            && t == CRLF + h + (if |h| > 1 then CRLF + CRLF else CRLF) + ClosedBody(p.body)
            && MatchAt(t, 0, CRLF)
  {
  }

  /** A piece's text, taken alone, has its first blank line right behind the stripped headers. */
  lemma FirstBlankOfPiece(p: Piece)
    requires !Overcounted(p) && NoBlankIn(CRLF + Strip(p.headers))
    ensures var t, h := PartText(p), Strip(p.headers);
            && FirstBlank(t, |t|, CRLF, 0) == Some(HeaderEnd(h)) && BlankLength(t, CRLF, HeaderEnd(h)) == 4
            && MatchAt(t, 0, CRLF)
            && t == CRLF + h + (if h == "" then CRLF else CRLF + CRLF) + ClosedBody(p.body)
  {
    assert |Strip(p.headers)| != 1 by { hide Strip; }
    TextOfPart(p);
    hide Overcounted, ClosedBody, PartText, NoBlankIn;
    BlankBehindHeaders(PartText(p), Strip(p.headers), ClosedBody(p.body));
  }

  lemma BlankBehindHeaders(t: string, h: string, c: string)
    requires |h| != 1 && (h != "" ==> !IsBreak(h[|h| - 1])) && NoBlankIn(CRLF + h)
    requires t == CRLF + h + (if |h| > 1 then CRLF + CRLF else CRLF) + c
    ensures FirstBlank(t, |t|, CRLF, 0) == Some(HeaderEnd(h)) && BlankLength(t, CRLF, HeaderEnd(h)) == 4
    ensures t == CRLF + h + (if h == "" then CRLF else CRLF + CRLF) + c
  {
    if h == "" {
      assert t == (CRLF + CRLF) + c;
      assert t[0..4] == CRLF + CRLF;
    } else {
      var b := 2 + |h|;
      assert t == ((CRLF + h) + (CRLF + CRLF)) + c;
      assert t[b..b + 4] == CRLF + CRLF;
      hide BlankAt, MatchAt;
      forall i | 0 <= i < b ensures !BlankAt(t, CRLF, i) {
        NoBlankInHeaders(t, h, i);
      }
      assert BlankAt(t, CRLF, b) && BlankLength(t, CRLF, b) == 4 by { BlankOfTwo(t, b); }
      FirstBlankFrom(t, |t|, CRLF, 0, b);
    }
  }

  lemma BlankOfTwo(t: string, b: nat)
    requires b + 4 <= |t| && t[b..b + 4] == CRLF + CRLF
    ensures BlankAt(t, CRLF, b) && BlankLength(t, CRLF, b) == 4
  {
  }

  lemma NoBlankInHeaders(t: string, h: string, i: nat)
    requires CRLF + h <= t && |h| > 0 && !IsBreak(h[|h| - 1]) && i < 2 + |h|
    requires !BlankAt(CRLF + h, CRLF, i)
    ensures !BlankAt(t, CRLF, i)
  {
    var g := CRLF + h;
    assert t[1 + |h|] == g[1 + |h|] == h[|h| - 1];
    NoMatchInHeaders(t, g, i, CRLF + CRLF);
    NoMatchInHeaders(t, g, i, LF + LF);
  }

  lemma NoMatchInHeaders(t: string, g: string, i: nat, literal: string)
    requires g <= t && i < |g| && !IsBreak(g[|g| - 1]) && !MatchAt(g, i, literal)
    requires forall c :: c in literal ==> IsBreak(c)
    ensures !MatchAt(t, i, literal)
  {
    if i + |literal| <= |g| {
      assert g[i..i + |literal|] == t[i..i + |literal|];
    } else if i + |literal| <= |t| {
      assert t[|g| - 1] == t[i..i + |literal|][|g| - 1 - i];
    }
  }

  /** The parse of a part gave a piece back: its stripped headers and its closed body. */
  ghost predicate GivesBack(got: Outcome, p: Piece) {
    && got.Parsed?
    && got.part.headers == (if Strip(p.headers) == "" then None else Some(Strip(p.headers)))
    && got.part.body == Some(ClosedBody(p.body))
  }

  /** A piece's text, alone or in front of a delimiter, parses to the piece if and only if its headers
      are clean. */
  lemma PieceParses(mem: string, p: Piece)
    requires PartText(p) <= mem && EndsAtHyphens(mem, |PartText(p)|)
    ensures GivesBack(ScanFrom(mem, |PartText(p)|, CRLF, 0, None, EMPTY_PART), p) <==> CleanHeaders(p)
  {
    hide ScanFrom, PartText, GivesBack, CleanHeaders, EndsAtHyphens;
    var t := PartText(p);
    assert mem[..|t|] == t;
    PartParsesAlone(mem, |t|, CRLF, 0, None, EMPTY_PART);
    TextOfPart(p);
    if CleanHeaders(p) {
      CleanParses(p);
    } else {
      UncleanFails(p);
    }
  }

  lemma CleanParses(p: Piece)
    requires CleanHeaders(p)
    ensures GivesBack(ScanFrom(PartText(p), |PartText(p)|, CRLF, 0, None, EMPTY_PART), p)
  {
    hide PartText, ScanFrom, FirstBlank, BlankLength, AngleMet, NoBlankIn, MatchAt, Overcounted, Strip, ClosedBody;
    var t, h := PartText(p), Strip(p.headers);
    FirstBlankOfPiece(p);
    var b := HeaderEnd(h);
    HeaderBodySplit(t, |t|, CRLF, b);
    var got := ScanFrom(t, |t|, CRLF, 0, None, EMPTY_PART);
    assert t[..|t|] == t;
    SplitIsUnique(t, b, h, ClosedBody(p.body), got.part);
  }

  /** What is given back tells where the first blank line was. */
  lemma GivenBackSplit(p: Piece, b: nat)
    requires var t := PartText(p); FirstBlank(t, |t|, CRLF, 0) == Some(b)
    requires GivesBack(ScanFrom(PartText(p), |PartText(p)|, CRLF, 0, None, EMPTY_PART), p)
    ensures b == HeaderEnd(Strip(p.headers))
    ensures |PartText(p)| == b + BlankLength(PartText(p), CRLF, b) + |ClosedBody(p.body)|
  {
    hide PartText, ScanFrom, FirstBlank, AngleMet, MatchAt, Strip, ClosedBody, BlankLength;
    var t := PartText(p);
    TextOfPart(p);
    HeaderBodySplit(t, |t|, CRLF, b);
    assert t[..|t|] == t;
  }

  /** A blank line or one character in the headers, or a lone '<' that counts: the piece is not given
      back. */
  lemma UncleanFails(p: Piece)
    requires !CleanHeaders(p)
    ensures !GivesBack(ScanFrom(PartText(p), |PartText(p)|, CRLF, 0, None, EMPTY_PART), p)
  {
    hide PartText, ScanFrom, FirstBlank, AngleMet, BlankAt, BlankLength, Strip, ClosedBody;
    var t, h := PartText(p), Strip(p.headers);
    TextOfPart(p);
    if GivesBack(ScanFrom(t, |t|, CRLF, 0, None, EMPTY_PART), p) {
      if FirstBlank(t, |t|, CRLF, 0).None? {
        NoBlankNoSplit(t, |t|, CRLF);
      } else {
        var b := FirstBlank(t, |t|, CRLF, 0).value;
        HeaderBodySplit(t, |t|, CRLF, b);
        GivenBackSplit(p, b);
        if Overcounted(p) {
          OneCharacterBlank(t, h, ClosedBody(p.body));
        } else {
          var i :| 0 <= i < |CRLF + h| && BlankAt(CRLF + h, CRLF, i);
          BlankInFront(t, CRLF + h, i);
          NoBlankInCrlf(h, i);
        }
      }
    }
  }

  lemma OneCharacterBlank(t: string, h: string, body: string)
    requires |h| == 1 && t == CRLF + h + CRLF + body
    ensures !(BlankAt(t, CRLF, 3) && |t| == 3 + BlankLength(t, CRLF, 3) + |body|)
  {
    assert t[3] == '\r';
  }

  lemma BlankInFront(t: string, g: string, i: nat)
    requires g <= t && BlankAt(g, CRLF, i)
    ensures BlankAt(t, CRLF, i)
  {
    assert MatchAt(g, i, CRLF + CRLF) ==> g[i..i + 4] == t[i..i + 4];
    assert MatchAt(g, i, LF + LF) ==> g[i..i + 2] == t[i..i + 2];
  }

  lemma NoBlankInCrlf(h: string, i: nat)
    requires BlankAt(CRLF + h, CRLF, i)
    ensures h != ""
  {
    if MatchAt(CRLF + h, i, LF + LF) {
      MatchStarts(CRLF + h, i, LF + LF);
    }
  }

  lemma MatchStarts(s: string, i: nat, literal: string)
    requires MatchAt(s, i, literal) && literal != ""
    ensures i < |s| && s[i] == literal[0]
  {
    assert s[i..i + |literal|][0] == s[i];
  }

  lemma SplitIsUnique(t: string, b: nat, h: string, body: string, part: Part)
    requires b == (if h == "" then 0 else 2 + |h|) && b + 4 <= |t| && part.body.Some?
    requires t == CRLF + h + (if h == "" then CRLF else CRLF + CRLF) + body
    requires b == 0 ==> part.headers == None && t == t[0..4] + part.body.value
    requires b > 0 ==> part.headers.Some? && |part.headers.value| == b - 2
                       && t == CRLF + part.headers.value + t[b..b + 4] + part.body.value
    ensures part.body.value == body && (b > 0 ==> part.headers.value == h)
  {
    var got := part.body.value;
    if b == 0 {
      assert t[4..] == body && t[4..] == got;
    } else {
      assert t[2..b] == h && t[b + 4..] == body;
      assert t[2..b] == part.headers.value && t[b + 4..] == got;
    }
  }

  /** Behind every part stands a delimiter. */
  lemma HyphensBehind(preamble: string, live: seq<Piece>, boundary: string, k: nat)
    requires Composable(preamble, live, boundary) && k < |live|
    ensures var s, n := Text(preamble, live, boundary), |PartText(live[k])|;
            var a := Offset(preamble, live, boundary, k) + Width(boundary);
            a + n <= |s| && EndsAtHyphens(s[a..], n)
  {
    hide NoDelimiterIn, Text, Offset, PartText, IsEmpty, OnlyBreaks;
    assert live[k] in live;
    OpensAt(preamble, live, boundary, k);
    NextOffset(preamble, live, boundary, k);
    var next := Offset(preamble, live, boundary, k + 1);
    if k + 1 < |live| {
      assert live[k + 1] in live;
      OpensAt(preamble, live, boundary, k + 1);
    } else {
      ClosesAt(preamble, live, boundary);
    }
    assert DelimiterAt(Text(preamble, live, boundary), boundary, next);
  }

  /** Compose, then parse: with every part long enough, ParseL's slices of the composed text are the
      non-empty pieces, in order, once each, and a piece is given back if and only if its headers are
      clean. */
  lemma ParseUndoesCompose(preamble: string, pieces: seq<Piece>, boundary: string)
    requires Composable(preamble, Live(pieces), boundary)
    requires forall k :: 0 <= k < |Live(pieces)| ==>
               |PartText(Live(pieces)[k])| > |preamble| + k * Width(boundary)
    ensures var s := preamble + BodyText(pieces, boundary);
            var segments := SegmentsOf(s, boundary);
            && EolOf(s, boundary) == CRLF
            && InBounds(s, segments) && |segments| == |Live(pieces)|
            && forall k :: 0 <= k < |segments| ==>
                 (GivesBack(PartOf(s, CRLF, segments[k]), Live(pieces)[k]) <==> CleanHeaders(Live(pieces)[k]))
  {
    hide NoDelimiterIn, Text, Offset, PartText, Live, SegmentsOf, ScanFrom, CleanHeaders, IsEmpty, OnlyBreaks;
    hide GivesBack, EolOf, PartsText;
    var live := Live(pieces);
    var s, d, w := Text(preamble, live, boundary), Offsets(preamble, live, boundary), Width(boundary);
    OnlyLivePiecesPrint(pieces, boundary);
    assert s == preamble + BodyText(pieces, boundary) by { TextIs(preamble, live, boundary); }
    ComposedEol(preamble, live, boundary);
    ComposedSegmentation(preamble, live, boundary);
    SegmentsInBounds(s, boundary);
    var segments := SegmentsOf(s, boundary);
    forall k | 0 <= k < |segments|
      ensures GivesBack(PartOf(s, CRLF, segments[k]), live[k]) <==> CleanHeaders(live[k])
    {
      assert segments[k] == PartAt(d, w, k) && live[k] in live;
      NextOffset(preamble, live, boundary, k);
      OpensAt(preamble, live, boundary, k);
      HyphensBehind(preamble, live, boundary, k);
      var mem, t := s[d[k] + w..], PartText(live[k]);
      assert mem[..|t|] == t;
      PieceParses(mem, live[k]);
    }
  }

  lemma TextIs(preamble: string, live: seq<Piece>, boundary: string)
    ensures Text(preamble, live, boundary) == preamble + BodyText(live, boundary)
  {
  }

  // ----- the document's own fields hold no delimiter

  predicate NoTwoHyphens(s: string) {
    forall i :: 0 <= i < |s| ==> !HyphensAt(s, i)
  }

  lemma NoHyphensNoDelimiter(s: string, boundary: string)
    requires NoTwoHyphens(s)
    ensures NoDelimiterIn(s, boundary)
  {
    hide CaseMatchAt;
  }

  /** Text behind text that ends its line. */
  lemma NoDelimiterInBoth(a: string, b: string, boundary: string)
    requires Plain(boundary) && NoDelimiterIn(a, boundary) && NoDelimiterIn(b, boundary)
    requires a != "" ==> a[|a| - 1] == '\n'
    ensures NoDelimiterIn(a + b, boundary)
  {
    hide DelimiterAt, Plain;
    var s := a + b;
    forall i | 0 <= i < |s| ensures !DelimiterAt(s, boundary, i) {
      if i < |a| {
        assert s[0..0 + |a|] == a;
        NoneInside(s, boundary, 0, a, i);
      } else if DelimiterAt(s, boundary, i) {
        DelimiterFits(s, boundary, i);
        assert s[i..i + Width(boundary)] == b[i - |a|..i - |a| + Width(boundary)];
        SameTextSameDelimiter(s, b, boundary, i, i - |a|);
      }
    }
  }

  lemma DelimiterFits(s: string, boundary: string, i: nat)
    requires DelimiterAt(s, boundary, i)
    ensures i + Width(boundary) <= |s| && HyphensAt(s, i)
  {
  }

  /** In the Content-Type field the boundary stands behind a quotation mark, and is too short of room
      for two hyphens in front of it. */
  lemma TypeFieldHoldsNone(boundary: string)
    requires Plain(boundary)
    ensures NoDelimiterIn(TypeField(boundary), boundary)
  {
    hide DelimiterAt, Plain;
    var s, a := TypeField(boundary), |CONTENT_TYPE_HEAD|;
    HeadHasNoHyphens(s);
    forall i | 0 <= i < |s| ensures !DelimiterAt(s, boundary, i) {
      if DelimiterAt(s, boundary, i) {
        DelimiterFits(s, boundary, i);
        NoBreakAtEnd(s, boundary);
        NoBreakInDelimiter(s, boundary, i, a + |boundary| + 1);
      }
    }
  }

  lemma NoBreakAtEnd(s: string, boundary: string)
    requires s == TypeField(boundary)
    ensures var q := |CONTENT_TYPE_HEAD| + |boundary|;
            |s| == q + 3 && s[q] == '"' && s[q + 1] == '\r' && s[q + 2] == '\n'
  {
    assert s == CONTENT_TYPE_HEAD + boundary + CONTENT_TYPE_TAIL;
  }

  /** Its fixed text has one hyphen. */
  lemma HeadHasNoHyphens(s: string)
    requires CONTENT_TYPE_HEAD <= s
    ensures forall i :: 0 <= i < |CONTENT_TYPE_HEAD| ==> !HyphensAt(s, i)
  {
    forall i | 0 <= i < |CONTENT_TYPE_HEAD| ensures s[i] == '-' ==> i == 7 {
      assert s[i] == CONTENT_TYPE_HEAD[i];
    }
  }

  lemma LengthFieldHoldsNone(contentLength: nat, boundary: string)
    ensures NoDelimiterIn(LengthField(contentLength), boundary)
  {
    var s, d := LengthField(contentLength), Decimal(contentLength);
    DecimalDenotes(contentLength);
    assert s == "Content-Length: " + d + CRLF;
    forall i | 0 <= i < |s| ensures s[i] == '-' ==> i == 7 {
      if 16 <= i < 16 + |d| {
        assert s[i] == d[i - 16];
      }
    }
    NoHyphensNoDelimiter(s, boundary);
  }

  /** The date field holds no delimiter when the date has no two hyphens, as no date of RFC 1123 has. */
  lemma DateFieldHoldsNone(date: string, boundary: string)
    requires NoTwoHyphens(date)
    ensures NoDelimiterIn(DateField(date), boundary)
  {
    var s := DateField(date);
    assert s == "Last-Modified: " + date + CRLF;
    forall i | 0 <= i < |s| ensures !HyphensAt(s, i) {
      if 15 <= i < 15 + |date| {
        assert s[i] == date[i - 15] && (i + 1 < 15 + |date| ==> s[i + 1] == date[i - 14]);
        assert !HyphensAt(date, i - 15);
      }
    }
    NoHyphensNoDelimiter(s, boundary);
  }

  lemma FieldEndsLine(boundary: string, contentLength: nat, date: string)
    ensures var f := TypeField(boundary); f[|f| - 1] == '\n'
    ensures var f := LengthField(contentLength); f[|f| - 1] == '\n'
    ensures var f := DateField(date); f[|f| - 1] == '\n'
  {
  }

  lemma LastOfBoth(a: string, b: string)
    ensures b != "" ==> |a + b| > 0 && (a + b)[|a + b| - 1] == b[|b| - 1]
    ensures b == "" ==> a + b == a
  {
  }

  /** The field lines and the empty line behind them hold no delimiter, if the date field holds none. */
  lemma TopHoldsNone(boundary: string, mask: Mask, date: string, contentLength: nat)
    requires Plain(boundary) && (mask.lastModified ==> NoDelimiterIn(DateField(date), boundary))
    ensures NoDelimiterIn(TopHeaders(boundary, mask, date, contentLength) + CRLF, boundary)
  {
    hide NoDelimiterIn, TypeField, LengthField, DateField, Plain;
    TypeFieldHoldsNone(boundary);
    LengthFieldHoldsNone(contentLength, boundary);
    FieldEndsLine(boundary, contentLength, date);
    NoHyphensNoDelimiter("", boundary);
    NoHyphensNoDelimiter(CRLF, boundary);
    var a := if mask.contentType then TypeField(boundary) else "";
    var b := if mask.contentLength then LengthField(contentLength) else "";
    var c := if mask.lastModified then DateField(date) else "";
    LastOfBoth(a, b);
    LastOfBoth(a + b, c);
    NoDelimiterInBoth(a, b, boundary);
    NoDelimiterInBoth(a + b, c, boundary);
    NoDelimiterInBoth(a + b + c, CRLF, boundary);
  }

  /** The same for a whole document of ComposeMixed under any header mask: the field lines and the
      empty line are the preamble. */
  lemma ParseUndoesComposeMixed(pieces: seq<Piece>, boundary: string, mask: Mask, date: string, contentLength: nat)
    requires Plain(boundary) && Printable(Live(pieces), boundary)
    requires mask.lastModified ==> NoDelimiterIn(DateField(date), boundary)
    requires var preamble := TopHeaders(boundary, mask, date, contentLength) + CRLF;
             forall k :: 0 <= k < |Live(pieces)| ==>
               |PartText(Live(pieces)[k])| > |preamble| + k * Width(boundary)
    ensures var s := DocumentText(pieces, boundary, mask, date, contentLength);
            var segments := SegmentsOf(s, boundary);
            && EolOf(s, boundary) == CRLF
            && InBounds(s, segments) && |segments| == |Live(pieces)|
            && forall k :: 0 <= k < |segments| ==>
                 (GivesBack(PartOf(s, CRLF, segments[k]), Live(pieces)[k]) <==> CleanHeaders(Live(pieces)[k]))
  {
    hide *;
    var preamble := TopHeaders(boundary, mask, date, contentLength) + CRLF;
    TopHoldsNone(boundary, mask, date, contentLength);
    ComposableIs(preamble, Live(pieces), boundary);
    EndsInCrlf(TopHeaders(boundary, mask, date, contentLength));
    ParseUndoesCompose(preamble, pieces, boundary);
    DocumentIs(pieces, boundary, mask, date, contentLength);
  }

  lemma EndsInCrlf(top: string)
    ensures |top + CRLF| > 0 && (top + CRLF)[|top + CRLF| - 1] == '\n'
  {
  }

  lemma ComposableIs(preamble: string, live: seq<Piece>, boundary: string)
    ensures Composable(preamble, live, boundary) <==>
              && Plain(boundary) && Printable(live, boundary) && NoDelimiterIn(preamble, boundary)
              && |preamble| > 0 && preamble[|preamble| - 1] == '\n'
  {
  }

  lemma DocumentIs(pieces: seq<Piece>, boundary: string, mask: Mask, date: string, contentLength: nat)
    ensures DocumentText(pieces, boundary, mask, date, contentLength)
            == (TopHeaders(boundary, mask, date, contentLength) + CRLF) + BodyText(pieces, boundary)
  {
  }
}
