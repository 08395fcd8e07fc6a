/** Composing a multipart/mixed document: one pass that sizes it, one that prints it into a
    descriptor of that size. */
module Composer {
  import opened Octets

  /** The headers and the body of one CBodyPart, as the composer reads them. */
  datatype Piece = Piece(headers: string, body: string)

  /** The bits of aHeaderMask. */
  datatype Mask = Mask(contentType: bool, contentLength: bool, lastModified: bool)

  /** `capacity` is the maximum length of the descriptor that holds the text. */
  datatype Composed = Document(text: string, capacity: nat, contentLength: nat) | Panicked

  const DATE_LENGTH: nat := 29
  const CONTENT_TYPE_LENGTH: nat := 13
  const CONTENT_LENGTH_LENGTH: nat := 15
  const LAST_MODIFIED_LENGTH: nat := 14
  const CONTENT_TYPE_HEAD: string := "Content-Type: multipart/mixed; boundary=\""
  const CONTENT_TYPE_TAIL: string := "\"\r\n"

  /** A descriptor with a fixed maximum length; appending beyond it would stop the program. */
  class Descriptor {
    var text: string
    const max: nat

    constructor (max: nat)
      ensures text == "" && this.max == max
    {
      this.max := max;
      text := "";
    }

    method Append(more: string)
      requires |text| + |more| <= max
      modifies this
      ensures text == old(text) + more
    {
      text := text + more;
    }
  }

  function Decimal(n: nat): (r: string)
    ensures |r| > 0
  {
    if n < 10 then ['0' + n as char] else Decimal(n / 10) + ['0' + (n % 10) as char]
  }

  /** The number a string of digits denotes. */
  function DecimalValue(s: string): nat
    requires forall i :: 0 <= i < |s| ==> '0' <= s[i] <= '9'
  {
    if s == "" then 0
    else 10 * DecimalValue(s[..|s| - 1]) + (s[|s| - 1] as nat - '0' as nat)
  }

  /** Number printing loses nothing: digits only, none of them a leading zero, that denote the number. */
  lemma {:induction false} DecimalDenotes(n: nat)
    ensures forall i :: 0 <= i < |Decimal(n)| ==> '0' <= Decimal(n)[i] <= '9'
    ensures DecimalValue(Decimal(n)) == n && (n > 0 ==> Decimal(n)[0] != '0')
  {
    if n < 10 {
      assert Decimal(n)[..0] == "";
    } else {
      DecimalDenotes(n / 10);
      assert Decimal(n)[..|Decimal(n)| - 1] == Decimal(n / 10);
    }
  }

  /** `digits` is a decimal number without a leading zero, and denotes `n`. */
  predicate Denotes(digits: string, n: nat) {
    && |digits| > 0 && (forall i :: 0 <= i < |digits| ==> '0' <= digits[i] <= '9')
    && DecimalValue(digits) == n && (n > 0 ==> digits[0] != '0')
  }

  predicate IsBreak(c: char) { c == '\r' || c == '\n' }

  /** Headers without the CRs and LFs at their end. */
  function Strip(h: string): (r: string)
    ensures r <= h && (|r| > 0 ==> !IsBreak(r[|r| - 1]))
    ensures forall k :: |r| <= k < |h| ==> IsBreak(h[k])
  {
    if |h| > 0 && IsBreak(h[|h| - 1]) then Strip(h[..|h| - 1]) else h
  }

  predicate IsEmpty(p: Piece) { |p.headers| + |p.body| == 0 }

  /** Headers made of line breaks only: the sizing pass runs off their front. */
  predicate OnlyBreaks(p: Piece) { |p.headers| > 0 && Strip(p.headers) == "" }

  /** One character is left of the headers: the printing pass then leaves out a CRLF the sizing
      pass has counted. */
  predicate Overcounted(p: Piece) { |Strip(p.headers)| == 1 }

  /** Both by the characters of the headers. */
  lemma HeadersByCharacter(p: Piece)
    ensures OnlyBreaks(p) <==>
              |p.headers| > 0 && forall k :: 0 <= k < |p.headers| ==> p.headers[k] == '\r' || p.headers[k] == '\n'
    ensures Overcounted(p) <==>
              && |p.headers| > 0 && p.headers[0] != '\r' && p.headers[0] != '\n'
              && forall k :: 1 <= k < |p.headers| ==> p.headers[k] == '\r' || p.headers[k] == '\n'
  {
  }

  function DelimiterLine(boundary: string): string { HYPHENS + boundary + CRLF }

  function CloseDelimiter(boundary: string): string { HYPHENS + boundary + HYPHENS }

  /** The body, ending in CRLF unless it is empty. */
  function ClosedBody(body: string): (r: string)
    ensures body <= r && |r| <= |body| + 2 && (body == "" ==> r == "")
    ensures body != "" ==> |r| >= 2 && r[|r| - 2] == '\r' && r[|r| - 1] == '\n'
    ensures |body| >= 2 && body[|body| - 2] == '\r' && body[|body| - 1] == '\n' ==> r == body
  {
    if |body| > 0 && !(|body| >= 2 && body[|body| - 2..] == CRLF) then body + CRLF else body
  }

  /** The stripped headers and an empty line; the headers' own end of line is only printed for more
      than one character. */
  function HeaderText(p: Piece): string {
    var h := Strip(p.headers);
    h + if |h| > 1 then CRLF + CRLF else CRLF
  }

  /** What is printed behind the delimiter line of a piece. */
  function Inside(p: Piece): string { HeaderText(p) + ClosedBody(p.body) }

  function PieceText(p: Piece, boundary: string): string {
    if IsEmpty(p) then "" else DelimiterLine(boundary) + Inside(p)
  }

  function PartsText(pieces: seq<Piece>, boundary: string): string {
    if |pieces| == 0 then ""
    else PartsText(pieces[..|pieces| - 1], boundary) + PieceText(pieces[|pieces| - 1], boundary)
  }

  function Overcounts(pieces: seq<Piece>): nat {
    if |pieces| == 0 then 0
    else Overcounts(pieces[..|pieces| - 1]) + (if Overcounted(pieces[|pieces| - 1]) then 1 else 0)
  }

  function TypeField(boundary: string): string { CONTENT_TYPE_HEAD + boundary + CONTENT_TYPE_TAIL }

  function LengthField(contentLength: nat): string { "Content-Length: " + Decimal(contentLength) + CRLF }

  function DateField(date: string): string { "Last-Modified: " + date + CRLF }

  /** The header fields of the document, without the empty line behind them. */
  function TopHeaders(boundary: string, mask: Mask, date: string, contentLength: nat): string {
    (if mask.contentType then TypeField(boundary) else "")
    + (if mask.contentLength then LengthField(contentLength) else "")
    + (if mask.lastModified then DateField(date) else "")
  }

  /** Delimiters, headers and bodies: what Content-Length counts. */
  function BodyText(pieces: seq<Piece>, boundary: string): string {
    PartsText(pieces, boundary) + CloseDelimiter(boundary)
  }

  function DocumentText(pieces: seq<Piece>, boundary: string, mask: Mask, date: string, contentLength: nat): string {
    TopHeaders(boundary, mask, date, contentLength) + CRLF + BodyText(pieces, boundary)
  }

  /** The document spelled out, the announced length as digits that denote it. */
  lemma DocumentIsSpelled(pieces: seq<Piece>, boundary: string, mask: Mask, date: string, contentLength: nat)
    ensures Denotes(Decimal(contentLength), contentLength)
    ensures DocumentText(pieces, boundary, mask, date, contentLength) ==
            (if mask.contentType then "Content-Type: multipart/mixed; boundary=\"" + boundary + "\"\r\n" else "")
            + (if mask.contentLength then "Content-Length: " + Decimal(contentLength) + "\r\n" else "")
            + (if mask.lastModified then "Last-Modified: " + date + "\r\n" else "")
            + "\r\n" + BodyText(pieces, boundary)
  {
    hide BodyText, Decimal, DecimalValue;
    DecimalDenotes(contentLength);
  }

  lemma StripStep(h: string, n: nat)
    requires 0 < n <= |h| && IsBreak(h[n - 1])
    ensures Strip(h[..n]) == Strip(h[..n - 1])
  {
    assert h[..n][..n - 1] == h[..n - 1];
  }

  lemma StripEnds(h: string, n: nat)
    requires n <= |h| && Strip(h) == Strip(h[..n]) && (n > 0 ==> !IsBreak(h[n - 1]))
    ensures Strip(h) == h[..n]
  {
  }

  /** The sizing pass's headers loop, counted off `size`. */
  method CountHeaders(h: string, size: int) returns (panicked: bool, r: int)
    requires |h| > 0
    ensures panicked <==> Strip(h) == ""
    ensures !panicked ==> r == size - (|h| - |Strip(h)|)
  {
    hide Strip;
    var newEnd := |h| - 1;
    r := size;
    assert h[..|h|] == h;
    while newEnd >= 0 && IsBreak(h[newEnd])
      invariant -1 <= newEnd < |h| && r == size - (|h| - 1 - newEnd)
      invariant Strip(h) == Strip(h[..newEnd + 1])
    {
      StripStep(h, newEnd + 1);
      newEnd := newEnd - 1;
      r := r - 1;
    }
    StripEnds(h, newEnd + 1);
    panicked := newEnd < 0;
  }

  /** One round of the sizing pass; `size` already holds a delimiter line and a CRLF for the piece. */
  method SizePiece(p: Piece, boundary: string, size: int) returns (panicked: bool, r: int)
    ensures panicked <==> OnlyBreaks(p)
    ensures !panicked ==> r == size - (|boundary| + 6) + |PieceText(p, boundary)| + (if Overcounted(p) then 2 else 0)
  {
    panicked, r := false, size;
    if |p.headers| + |p.body| == 0 {
      r := r - (|boundary| + 6);
      return;
    }
    r := r + |p.headers|;
    if |p.headers| > 0 {
      panicked, r := CountHeaders(p.headers, r);
      if panicked {
        return;
      }
      r := r + 2;
    }
    r := r + |p.body|;
    if |p.body| > 0 && !(|p.body| >= 2 && p.body[|p.body| - 2..] == CRLF) {
      r := r + 2;
    }
  }

  lemma NoPieces(boundary: string)
    ensures PartsText([], boundary) == "" && Overcounts([]) == 0
  {
  }

  lemma OneMorePiece(pieces: seq<Piece>, boundary: string, i: nat)
    requires i < |pieces|
    ensures |PartsText(pieces[..i + 1], boundary)|
            == |PartsText(pieces[..i], boundary)| + |PieceText(pieces[i], boundary)|
    ensures Overcounts(pieces[..i + 1]) == Overcounts(pieces[..i]) + (if Overcounted(pieces[i]) then 1 else 0)
  {
    hide PieceText, Overcounted;
    assert pieces[..i + 1][..i] == pieces[..i];
  }

  lemma OneFewer(a: nat, n: nat)
    requires n > 0
    ensures a * n == a * (n - 1) + a
  {
  }

  /** bodySize of the sizing pass. */
  method SizeOfBody(pieces: seq<Piece>, boundary: string) returns (panicked: bool, bodySize: int)
    ensures panicked <==> exists p :: p in pieces && OnlyBreaks(p)
    ensures !panicked ==> bodySize == |BodyText(pieces, boundary)| + 2 * Overcounts(pieces)
  {
    hide OnlyBreaks, PieceText, Overcounted, PartsText, Overcounts;
    var line := |boundary| + 4;
    panicked := false;
    bodySize := (line + 2) * |pieces|;
    NoPieces(boundary);
    assert pieces[..0] == [];
    for i := 0 to |pieces|
      invariant !panicked && forall k :: 0 <= k < i ==> !OnlyBreaks(pieces[k])
      invariant bodySize == |PartsText(pieces[..i], boundary)| + 2 * Overcounts(pieces[..i])
                            + (line + 2) * (|pieces| - i)
    {
      OneMorePiece(pieces, boundary, i);
      OneFewer(line + 2, |pieces| - i);
      panicked, bodySize := SizePiece(pieces[i], boundary, bodySize);
      if panicked {
        assert pieces[i] in pieces;
        return;
      }
    }
    assert pieces[..|pieces|] == pieces;
    bodySize := bodySize + line;
  }

  /** Headers and their empty line in the printing pass. */
  method PrintHeaders(p: Piece, document: Descriptor)
    requires !OnlyBreaks(p) && |document.text| + |HeaderText(p)| <= document.max
    modifies document
    ensures document.text == old(document.text) + HeaderText(p)
  {
    hide Strip;
    var headerLength := |p.headers| - 1;
    assert p.headers[..|p.headers|] == p.headers;
    while headerLength > 0 && IsBreak(p.headers[headerLength])
      invariant -1 <= headerLength < |p.headers| && document.text == old(document.text)
      invariant Strip(p.headers) == Strip(p.headers[..headerLength + 1])
    {
      StripStep(p.headers, headerLength + 1);
      headerLength := headerLength - 1;
    }
    StripOfKept(p.headers, headerLength + 1);
    document.Append(p.headers[..headerLength + 1]);
    if headerLength > 0 {
      document.Append(CRLF + CRLF);
    } else {
      document.Append(CRLF);
    }
  }

  /** The body and, when it needs one, a CRLF behind it. */
  method PrintBody(body: string, document: Descriptor)
    requires |document.text| + |ClosedBody(body)| <= document.max
    modifies document
    ensures document.text == old(document.text) + ClosedBody(body)
  {
    document.Append(body);
    if |body| > 0 && !(|body| >= 2 && body[|body| - 2..] == CRLF) {
      document.Append(CRLF);
    }
  }

  /** One round of the printing pass. */
  method PrintPiece(p: Piece, boundary: string, document: Descriptor)
    requires !OnlyBreaks(p) && |document.text| + |PieceText(p, boundary)| <= document.max
    modifies document
    ensures document.text == old(document.text) + PieceText(p, boundary)
  {
    hide OnlyBreaks, HeaderText, ClosedBody, DelimiterLine;
    if |p.headers| + |p.body| == 0 {
      return;
    }
    ghost var before := document.text;
    document.Append(DelimiterLine(boundary));
    PrintHeaders(p, document);
    PrintBody(p.body, document);
    Grouped(before, DelimiterLine(boundary), HeaderText(p), ClosedBody(p.body));
  }

  lemma Grouped(a: string, b: string, c: string, d: string)
    ensures a + b + c + d == a + (b + (c + d))
  {
  }

  lemma StripOfKept(h: string, n: nat)
    requires n <= |h| && Strip(h) == Strip(h[..n]) && (|h| > 0 ==> Strip(h) != "")
    requires n <= 1 || !IsBreak(h[n - 1])
    ensures Strip(h) == h[..n]
  {
  }

  /** The part loop of the printing pass. */
  method PrintParts(pieces: seq<Piece>, boundary: string, document: Descriptor)
    requires forall k :: 0 <= k < |pieces| ==> !OnlyBreaks(pieces[k])
    requires |document.text| + |PartsText(pieces, boundary)| <= document.max
    modifies document
    ensures document.text == old(document.text) + PartsText(pieces, boundary)
  {
    hide PieceText, OnlyBreaks;
    for i := 0 to |pieces|
      invariant document.text == old(document.text) + PartsText(pieces[..i], boundary)
    {
      PrefixFits(pieces, boundary, i + 1);
      assert pieces[..i + 1][..i] == pieces[..i];
      PrintPiece(pieces[i], boundary, document);
    }
    assert pieces[..|pieces|] == pieces;
  }

  lemma {:induction false} PrefixFits(pieces: seq<Piece>, boundary: string, i: nat)
    requires i <= |pieces|
    ensures |PartsText(pieces[..i], boundary)| <= |PartsText(pieces, boundary)|
    decreases |pieces| - i
  {
    if i == |pieces| {
      assert pieces[..i] == pieces;
    } else {
      PrefixFits(pieces, boundary, i + 1);
      assert pieces[..i + 1][..i] == pieces[..i];
    }
  }

  /** docSize of the sizing pass; the date is only counted. */
  method SizeOfDocument(boundary: string, mask: Mask, bodySize: nat, ghost date: string) returns (docSize: nat)
    requires |date| == DATE_LENGTH
    ensures docSize == |TopHeaders(boundary, mask, date, bodySize)| + 2 + bodySize + if mask.contentType then 16 else 0
  {
    hide Decimal;
    docSize := bodySize;
    if mask.contentType {
      docSize := docSize + CONTENT_TYPE_LENGTH + 1;
      docSize := docSize + (|CONTENT_TYPE_HEAD| + 2 + |CONTENT_TYPE_TAIL|) - 2 + |boundary|;
      docSize := docSize + 2;
    }
    if mask.contentLength {
      docSize := docSize + CONTENT_LENGTH_LENGTH + 1;
      docSize := docSize + |Decimal(bodySize)|;
      docSize := docSize + 2;
    }
    if mask.lastModified {
      docSize := docSize + LAST_MODIFIED_LENGTH + 1;
      docSize := docSize + DATE_LENGTH;
      docSize := docSize + 2;
    }
    docSize := docSize + 2;
  }

  method PrintTop(boundary: string, mask: Mask, date: string, bodySize: nat, document: Descriptor)
    requires document.text == "" && |TopHeaders(boundary, mask, date, bodySize)| <= document.max
    modifies document
    ensures document.text == TopHeaders(boundary, mask, date, bodySize)
  {
    hide TypeField, LengthField, DateField;
    if mask.contentType {
      document.Append(TypeField(boundary));
    }
    if mask.contentLength {
      document.Append(LengthField(bodySize));
    }
    if mask.lastModified {
      document.Append(DateField(date));
    }
  }

  lemma {:induction false} NoneOvercounted(pieces: seq<Piece>)
    ensures Overcounts(pieces) == 0 <==> forall p :: p in pieces ==> !Overcounted(p)
  {
    hide Overcounted;
    if |pieces| > 0 {
      var last := |pieces| - 1;
      NoneOvercounted(pieces[..last]);
      assert pieces == pieces[..last] + [pieces[last]];
    }
  }

  /** The composed document is the printed text: the fields the mask asks for, with digits that denote
      the announced length, an empty line and the body. The length it announces counts the octets from
      the first delimiter to the end of the closing one, plus two for each overcounted piece; what is
      printed fits, with sixteen octets to spare for a Content-Type field and two per overcount. So
      announced and allocated lengths are exact if and only if no piece has a one-character header
      block. */
  method ComposeMixed(pieces: seq<Piece>, boundary: string, mask: Mask, date: string) returns (r: Composed)
    requires |date| == DATE_LENGTH
    ensures r.Panicked? <==> exists p :: p in pieces && OnlyBreaks(p)
    ensures r.Document? ==>
              && r.contentLength == |BodyText(pieces, boundary)| + 2 * Overcounts(pieces)
              && r.text == DocumentText(pieces, boundary, mask, date, r.contentLength)
              && r.capacity == |r.text| + (if mask.contentType then 16 else 0) + 2 * Overcounts(pieces)
    ensures r.Document? ==>
              && (r.contentLength == |BodyText(pieces, boundary)| <==> forall p :: p in pieces ==> !Overcounted(p))
              && (r.capacity == |r.text| + (if mask.contentType then 16 else 0)
                  <==> forall p :: p in pieces ==> !Overcounted(p))
    ensures r.Document? ==>
              exists digits :: Denotes(digits, r.contentLength) &&
                r.text ==
                (if mask.contentType then "Content-Type: multipart/mixed; boundary=\"" + boundary + "\"\r\n" else "")
                + (if mask.contentLength then "Content-Length: " + digits + "\r\n" else "")
                + (if mask.lastModified then "Last-Modified: " + date + "\r\n" else "")
                + "\r\n" + BodyText(pieces, boundary)
  {
    hide OnlyBreaks, Overcounted, PartsText, Overcounts, TopHeaders, Denotes;
    var panicked, bodySize := SizeOfBody(pieces, boundary);
    if panicked {
      return Panicked;
    }
    var docSize := SizeOfDocument(boundary, mask, bodySize, date);
    var document := new Descriptor(docSize);
    PrintTop(boundary, mask, date, bodySize, document);
    document.Append(CRLF);
    PrintParts(pieces, boundary, document);
    document.Append(CloseDelimiter(boundary));
    ghost var top := TopHeaders(boundary, mask, date, bodySize);
    assert top + CRLF + PartsText(pieces, boundary) + CloseDelimiter(boundary)
        == top + CRLF + (PartsText(pieces, boundary) + CloseDelimiter(boundary));
    NoneOvercounted(pieces);
    DocumentIsSpelled(pieces, boundary, mask, date, bodySize);
    return Document(document.text, docSize, bodySize);
  }

  /** One part with the header "a" and no body, under a boundary of one character: 13 octets are
      printed and 15 announced. */
  lemma OneCharacterIsOvercounted(boundary: string)
    requires boundary == "b"
    ensures var p := Piece("a", "");
            && !OnlyBreaks(p) && Overcounted(p) && Overcounts([p]) == 1
            && BodyText([p], boundary) == "--b\r\na\r\n--b--"
            && |BodyText([p], boundary)| == 13
  {
    var p := Piece("a", "");
    assert [p][..0] == [];
    TextOfOneCharacter(p, boundary);
    hide PieceText, Strip;
    assert PartsText([p], boundary) == "--b\r\na\r\n" && CloseDelimiter(boundary) == "--b--";
  }

  lemma TextOfOneCharacter(p: Piece, boundary: string)
    requires p == Piece("a", "") && boundary == "b"
    ensures PieceText(p, boundary) == "--b\r\na\r\n"
    ensures !OnlyBreaks(p) && Overcounted(p)
  {
  }
}
