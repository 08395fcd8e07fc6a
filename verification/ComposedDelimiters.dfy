/** Where the delimiters of a composed document stand: exactly where the composer put them. */
module ComposedDelimiters {
  import opened Octets
  import opened Segmentation
  import opened DelimiterScan
  import opened Composer

  /** A boundary without line breaks and NULs, as section 5.1.1 of RFC 2046 has it. */
  ghost predicate Plain(boundary: string) {
    '\0' !in boundary && '\r' !in boundary && '\n' !in boundary
  }

  ghost predicate NoDelimiterIn(s: string, boundary: string) {
    forall i :: 0 <= i < |s| ==> !DelimiterAt(s, boundary, i)
  }

  /** Pieces that are printed at all. */
  function Live(pieces: seq<Piece>): (r: seq<Piece>) {
    if |pieces| == 0 then []
    else
      var front, last := pieces[..|pieces| - 1], pieces[|pieces| - 1];
      if IsEmpty(last) then Live(front) else Live(front) + [last]
  }

  lemma {:induction false} LiveIsNonEmpty(pieces: seq<Piece>, p: Piece)
    ensures p in Live(pieces) <==> p in pieces && (p.headers != "" || p.body != "")
  {
    assert IsEmpty(p) <==> p.headers == "" && p.body == "";
    hide IsEmpty;
    if |pieces| > 0 {
      LiveIsNonEmpty(pieces[..|pieces| - 1], p);
      assert pieces == pieces[..|pieces| - 1] + [pieces[|pieces| - 1]];
    }
  }

  lemma PartsTextOfLast(front: seq<Piece>, last: Piece, boundary: string)
    ensures PartsText(front + [last], boundary) == PartsText(front, boundary) + PieceText(last, boundary)
  {
    assert (front + [last])[..|front|] == front;
  }

  lemma {:induction false} OnlyLivePiecesPrint(pieces: seq<Piece>, boundary: string)
    ensures PartsText(Live(pieces), boundary) == PartsText(pieces, boundary)
  {
    if |pieces| > 0 {
      var front, last := pieces[..|pieces| - 1], pieces[|pieces| - 1];
      OnlyLivePiecesPrint(front, boundary);
      assert IsEmpty(last) ==> PieceText(last, boundary) == "";
      hide PieceText, IsEmpty;
      if !IsEmpty(last) {
        PartsTextOfLast(Live(front), last, boundary);
      }
    }
  }

  /** The offsets of the delimiters in preamble + BodyText(live). */
  ghost function Offset(preamble: string, live: seq<Piece>, boundary: string, k: nat): nat
    requires k <= |live|
  {
    |preamble| + |PartsText(live[..k], boundary)|
  }

  ghost function Offsets(preamble: string, live: seq<Piece>, boundary: string): (d: seq<nat>)
    ensures |d| == |live| + 1
    ensures forall k :: 0 <= k <= |live| ==> d[k] == Offset(preamble, live, boundary, k)
  {
    seq(|live| + 1, k requires 0 <= k <= |live| => Offset(preamble, live, boundary, k))
  }

  /** What stands between two delimiters. */
  function PartText(p: Piece): string { CRLF + Inside(p) }

  lemma NextOffset(preamble: string, live: seq<Piece>, boundary: string, k: nat)
    requires k < |live| && !IsEmpty(live[k])
    ensures Offset(preamble, live, boundary, k + 1)
            == Offset(preamble, live, boundary, k) + Width(boundary) + |PartText(live[k])|
  {
    assert live[..k + 1][..k] == live[..k];
  }

  lemma {:induction false} TextAtOffset(live: seq<Piece>, boundary: string, k: nat)
    requires k <= |live|
    ensures PartsText(live[..k], boundary) <= PartsText(live, boundary)
    ensures k < |live| ==>
              var a := |PartsText(live[..k], boundary)|;
              var t := PieceText(live[k], boundary);
              a + |t| <= |PartsText(live, boundary)| && PartsText(live, boundary)[a..a + |t|] == t
    decreases |live| - k
  {
    hide PieceText;
    if k == |live| {
      assert live[..k] == live;
    } else {
      TextAtOffset(live, boundary, k + 1);
      assert live[..k + 1][..k] == live[..k];
      var a, t := PartsText(live[..k], boundary), PieceText(live[k], boundary);
      assert PartsText(live[..k + 1], boundary) == a + t;
      PrefixSlice(a, t, PartsText(live, boundary));
    }
  }

  lemma PrefixSlice(a: string, t: string, s: string)
    requires a + t <= s
    ensures a <= s && s[|a|..|a| + |t|] == t
  {
    assert s[..|a| + |t|] == a + t;
    assert s[|a|..|a| + |t|] == s[..|a| + |t|][|a|..];
  }

  lemma EndsInBreak(p: Piece)
    requires !OnlyBreaks(p)
    ensures |PartText(p)| >= 4 && PartText(p)[..2] == CRLF && PartText(p)[|PartText(p)| - 1] == '\n'
  {
    var c := ClosedBody(p.body);
    if |c| > 0 {
      assert c[|c| - 2..] == CRLF;
      assert c[|c| - 1] == c[|c| - 2..][1];
    }
  }

  /** A delimiter never reaches across a line break. */
  lemma NoBreakInDelimiter(s: string, boundary: string, i: nat, j: nat)
    requires Plain(boundary) && DelimiterAt(s, boundary, i) && i <= j < i + Width(boundary)
    ensures j < |s| && !IsBreak(s[j])
  {
    hide CaseMatchAt;
    if j >= i + 2 {
      CaseMatchIndex(s, i + 2, boundary, j - i - 2);
    }
  }

  /** Text `t` at `a` that ends in a line break and holds no delimiter of its own has none in the
      document either. */
  lemma NoneInside(s: string, boundary: string, a: nat, t: string, i: nat)
    requires Plain(boundary) && NoDelimiterIn(t, boundary)
    requires a + |t| <= |s| && s[a..a + |t|] == t && |t| > 0 && t[|t| - 1] == '\n'
    requires a <= i < a + |t|
    ensures !DelimiterAt(s, boundary, i)
  {
    if DelimiterAt(s, boundary, i) {
      var end := a + |t|;
      assert s[end - 1] == t[|t| - 1];
      if i + Width(boundary) >= end {
        NoBreakInDelimiter(s, boundary, i, end - 1);
      } else {
        SliceOfSlice(s, a, t, i - a, i - a + Width(boundary));
        SameTextSameDelimiter(s, t, boundary, i, i - a);
      }
    }
  }

  lemma SameTextSameDelimiter(s: string, t: string, boundary: string, i: nat, j: nat)
    requires i + Width(boundary) <= |s| && j + Width(boundary) <= |t|
    requires s[i..i + Width(boundary)] == t[j..j + Width(boundary)]
    requires DelimiterAt(s, boundary, i)
    ensures DelimiterAt(t, boundary, j)
  {
    var w := Width(boundary);
    var u := s[i..i + w];
    assert s[i] == u[0] == t[j] && s[i + 1] == u[1] == t[j + 1];
    assert s[i + 2..i + w] == u[2..] == t[j + 2..j + w];
  }

  lemma DelimiterWhereWritten(s: string, boundary: string, a: nat)
    requires a + Width(boundary) <= |s| && s[a..a + Width(boundary)] == HYPHENS + boundary
    ensures DelimiterAt(s, boundary, a)
  {
    var w := Width(boundary);
    var u := s[a..a + w];
    assert u[0] == '-' && u[1] == '-' && s[a] == u[0] && s[a + 1] == u[1];
    assert s[a + 2..a + w] == u[2..] == boundary;
    CaseEqualReflexive(boundary);
  }

  /** From delimiter k up to the next offset there is delimiter k and nothing else. */
  lemma OneDelimiter(s: string, boundary: string, a: nat, p: Piece, i: nat)
    requires Plain(boundary) && !IsEmpty(p) && !OnlyBreaks(p) && NoDelimiterIn(PartText(p), boundary)
    requires var t := PieceText(p, boundary); a + |t| <= |s| && s[a..a + |t|] == t && a <= i < a + |t|
    ensures DelimiterAt(s, boundary, i) <==> i == a
  {
    hide NoDelimiterIn, Inside, DelimiterAt, PieceText, PartText, IsEmpty, OnlyBreaks, Plain;
    var w, t, part := Width(boundary), PieceText(p, boundary), PartText(p);
    PieceIsDelimiterAndPart(p, boundary);
    PrefixSlice(HYPHENS + boundary, part, t);
    SliceOfSlice(s, a, t, 0, w);
    SliceOfSlice(s, a, t, w, |t|);
    EndsInBreak(p);
    assert s[a + w] == part[..2][0] by { assert s[a + w..a + |t|][0] == part[0] == part[..2][0]; }
    if i == a {
      DelimiterWhereWritten(s, boundary, a);
    } else if i < a + w {
      if DelimiterAt(s, boundary, i) {
        NoBreakInDelimiter(s, boundary, i, a + w);
      }
    } else {
      NoneInside(s, boundary, a + w, part, i);
    }
  }

  lemma PieceIsDelimiterAndPart(p: Piece, boundary: string)
    requires !IsEmpty(p)
    ensures PieceText(p, boundary) == (HYPHENS + boundary) + PartText(p)
    ensures |PieceText(p, boundary)| == Width(boundary) + |PartText(p)|
  {
    hide Inside;
  }
}
