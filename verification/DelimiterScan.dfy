/** The delimiter scanner of the multipart parser over octets. */
module DelimiterScan {
  import opened Octets
  import opened Segmentation

  function Width(boundary: string): nat { |HYPHENS| + |boundary| }

  predicate HyphensAt(s: string, i: nat) { i + 1 < |s| && s[i] == '-' && s[i + 1] == '-' }

  /** "--" and the boundary in any letter case, whatever follows. */
  predicate DelimiterAt(s: string, boundary: string, i: nat) {
    HyphensAt(s, i) && CaseMatchAt(s, i + 2, boundary)
  }

  function EventAt(s: string, boundary: string, eol: Eol, i: nat): (e: Event)
    ensures e.Opening? || e.Closing? ==> DelimiterAt(s, boundary, i) && i + Width(boundary) + 2 <= |s|
  {
    var after := i + Width(boundary);
    if !HyphensAt(s, i) then Nothing
    else if after > |s| then TooShort
    else if !CaseMatchAt(s, i + 2, boundary) then Nothing
    else if after + 2 > |s| then TooShort
    else if LineEndAt(s, eol, after) then Opening
    else if HyphensAt(s, after) then Closing
    else BadContent
  }

  /** The buffer reduced to what the scanner sees at each position. */
  ghost function Events(s: string, boundary: string, eol: Eol): (e: seq<Event>)
    ensures |e| == |s|
    ensures forall i :: 0 <= i < |e| ==> e[i] == EventAt(s, boundary, eol, i)
    ensures Scannable(e, Width(boundary), |eol|)
  {
    seq(|s|, i requires 0 <= i => EventAt(s, boundary, eol, i))
  }

  lemma EventIsDelimiter(s: string, boundary: string, eol: Eol, i: nat)
    ensures DelimiterAt(s, boundary, i) ==> EventAt(s, boundary, eol, i) != Nothing
    ensures i + Width(boundary) + 2 <= |s| && EventAt(s, boundary, eol, i) != Nothing ==> DelimiterAt(s, boundary, i)
  {
  }

  /** The first delimiter in the buffer, whether or not enough octets follow it. */
  function FirstDelimiter(s: string, boundary: string, from: nat): (r: Option<nat>)
    ensures r.Some? ==> from <= r.value && DelimiterAt(s, boundary, r.value)
    ensures forall i :: from <= i < (if r.Some? then r.value else |s|) ==> !DelimiterAt(s, boundary, i)
    decreases |s| - from
  {
    if from >= |s| then None
    else if DelimiterAt(s, boundary, from) then Some(from)
    else FirstDelimiter(s, boundary, from + 1)
  }

  /** LF when the first delimiter is followed by LF; CRLF in every other case. */
  function EolOf(s: string, boundary: string): Eol {
    match FirstDelimiter(s, boundary, 0)
    case None => CRLF
    case Some(i) =>
      var after := i + Width(boundary);
      if after < |s| && s[after] == '\n' then LF else CRLF
  }

  /** `d` is the first place of "--" and the boundary, in any letter case. */
  ghost predicate FirstAt(s: string, boundary: string, d: nat) {
    && DelimiterAt(s, boundary, d) && forall i :: 0 <= i < d ==> !DelimiterAt(s, boundary, i)
  }

  lemma {:induction false} FirstIsFound(s: string, boundary: string, from: nat, d: nat)
    requires from <= d && DelimiterAt(s, boundary, d) && forall i :: from <= i < d ==> !DelimiterAt(s, boundary, i)
    ensures FirstDelimiter(s, boundary, from) == Some(d)
    decreases d - from
  {
    if from < d {
      FirstIsFound(s, boundary, from + 1, d);
    }
  }

  /** `eol` is LF exactly when the octet behind the first delimiter is an LF; CRLF also without any
      delimiter. */
  ghost predicate EolChosen(s: string, boundary: string, eol: Eol) {
    && (eol == "\n" || eol == "\r\n")
    && (forall d: nat :: FirstAt(s, boundary, d) ==>
          (eol == "\n" <==> d + 2 + |boundary| < |s| && s[d + 2 + |boundary|] == '\n'))
    && ((forall i :: 0 <= i < |s| ==> !DelimiterAt(s, boundary, i)) ==> eol == "\r\n")
  }

  lemma EolIsChosen(s: string, boundary: string)
    ensures EolChosen(s, boundary, EolOf(s, boundary))
  {
    hide DelimiterAt, FirstDelimiter;
    forall d: nat | FirstAt(s, boundary, d) ensures FirstDelimiter(s, boundary, 0) == Some(d) {
      FirstIsFound(s, boundary, 0, d);
    }
  }

  method SetEolCharacters(s: string, boundary: string) returns (eol: Eol)
    requires |s| > 0
    ensures eol == EolOf(s, boundary)
    ensures EolChosen(s, boundary, eol)
  {
    EolIsChosen(s, boundary);
    hide EolChosen;
    var i := 0;
    eol := CRLF;
    while i + 1 < |s|
      invariant eol == CRLF
      invariant FirstDelimiter(s, boundary, 0) == FirstDelimiter(s, boundary, i)
      decreases |s| - i
    {
      if s[i..i + 2] == HYPHENS {
        if |s| >= i + |HYPHENS| + |boundary| {
          if StrNCaseEqual(s[i + 2..i + 2 + |boundary|], boundary) {
            assert DelimiterAt(s, boundary, i);
            i := i + |HYPHENS| + |boundary|;
            if |s| >= i + |LF| {
              if s[i..i + 1] == LF {
                eol := LF;
              }
            }
            return;
          }
        }
      }
      assert !DelimiterAt(s, boundary, i);
      i := i + 1;
    }
  }

  /** The event at `i` from the tests the scanner makes there, in its order. */
  lemma EventIs(s: string, boundary: string, eol: Eol, i: nat) returns (now: Event)
    requires i + 1 < |s|
    ensures now == Events(s, boundary, eol)[i]
    ensures var after := i + |HYPHENS| + |boundary|;
            if !(s[i] == '-' && s[i + 1] == '-') then now == Nothing
            else if |s| < after then now == TooShort
            else if !CaseMatchAt(s, i + |HYPHENS|, boundary) then now == Nothing
            else if |s| < after + |HYPHENS| then now == TooShort
            else if MatchAt(s, after, eol) || s[after] == '\n' then now == Opening
            else if MatchAt(s, after, HYPHENS) then now == Closing
            else now == BadContent
  {
    now := EventAt(s, boundary, eol, i);
  }

  method GetNextBodyPartBuffer(startPosition: nat, s: string, boundary: string, eol: Eol)
    returns (r: Segment)
    requires |s| > 0
    ensures r == NextSegment(Events(s, boundary, eol), Width(boundary), |eol|, startPosition)
  {
    hide NextSegment, NextEvent, Events, EventAt, MatchAt, CaseMatchAt, StrNCaseEqual, HyphensAt;
    ghost var e := Events(s, boundary, eol);
    ghost var first := NextEvent(e, startPosition);
    var startOffset, endOffset: int := -1, -1;
    var badContent := false;
    var i := startPosition;
    while i + 1 < |s|
      invariant i >= startPosition && endOffset == -1 && !badContent
      invariant startOffset == -1 ==> first == NextEvent(e, i)
      invariant startOffset != -1 ==>
                  && SeenAt(e, first) == Opening && startOffset == first + Width(boundary)
                  && NextEvent(e, startOffset + |eol| + 1) == NextEvent(e, i)
      decreases |s| - i
    {
      ghost var now := EventIs(s, boundary, eol, i);
      NextEventStep(e, i);
      if s[i] == '-' && s[i + 1] == '-' {
        if |s| >= i + |HYPHENS| + |boundary| {
          if CaseMatchAt(s, i + |HYPHENS|, boundary) {
            var offset := i + |HYPHENS| + |boundary|;
            if |s| >= offset + |HYPHENS| {
              if MatchAt(s, offset, eol) || s[offset] == '\n' {
                if startOffset == -1 {
                  startOffset := offset;
                  i := startOffset + |eol|;
                } else {
                  endOffset := offset - |boundary| - |HYPHENS|;
                  break;
                }
              } else if MatchAt(s, offset, HYPHENS) {
                endOffset := offset - |boundary| - |HYPHENS|;
                break;
              } else {
                badContent := true;
                break;
              }
            } else {
              endOffset := i;
              break;
            }
          }
        } else {
          endOffset := i;
          break;
        }
      }
      i := i + 1;
    }
    NextSegmentStep(e, Width(boundary), |eol|, startPosition);
    if endOffset == -1 {
      endOffset := i - 1;
    }
    if badContent {
      endOffset, startOffset := -1, -1;
    }
    if startOffset != -1 && endOffset != -1 {
      r := Segment(startOffset, endOffset);
    } else {
      r := NoSegment;
    }
  }

  /** Two hyphens that are no delimiter, but so close to the end that the scan stops at them. */
  predicate StopsAt(s: string, boundary: string, i: nat) {
    HyphensAt(s, i) && (i + Width(boundary) > |s| || DelimiterAt(s, boundary, i))
  }

  /** How the scan reads the two octets behind a delimiter. */
  predicate OpensPart(s: string, boundary: string, eol: Eol, i: nat) {
    i + Width(boundary) + 2 <= |s| && LineEndAt(s, eol, i + Width(boundary))
  }

  predicate ClosesBody(s: string, boundary: string, i: nat) {
    i + Width(boundary) + 2 <= |s| && HyphensAt(s, i + Width(boundary))
  }

  /** The first place at or after `from` where the scan stops, looking at octets only. */
  ghost predicate StopsFirst(s: string, boundary: string, from: nat, i: nat) {
    from <= i < |s| && StopsAt(s, boundary, i) && forall j :: from <= j < i ==> !StopsAt(s, boundary, j)
  }

  lemma StopIsEvent(s: string, boundary: string, eol: Eol, from: nat, i: nat)
    requires StopsFirst(s, boundary, from, i)
    ensures var e := Events(s, boundary, eol);
            && i + 1 < |s| && NextEvent(e, from) == i && SeenAt(e, i) == e[i]
            && (OpensPart(s, boundary, eol, i) <==> e[i] == Opening)
            && (e[i] == BadContent <==>
                  && i + Width(boundary) + 2 <= |s|
                  && !OpensPart(s, boundary, eol, i) && !ClosesBody(s, boundary, i))
            && e[i] != Nothing
  {
    hide CaseMatchAt;
    var e := Events(s, boundary, eol);
    assert HyphensAt(s, i);
    forall j | from <= j < i ensures e[j] == Nothing {
      assert !StopsAt(s, boundary, j);
    }
    QuietUntil(e, from, i);
    NextEventStep(e, i);
  }

  /** One scan, octet by octet: with its first stop at `f` and, behind what is skipped there, its next
      stop at `g`, it gives the part between them, unless the first stop does not open a part or the
      second is a delimiter with something else than an end of line or two hyphens behind it. */
  lemma ScanBetweenStops(s: string, boundary: string, eol: Eol, from: nat, f: nat, g: nat)
    requires StopsFirst(s, boundary, from, f)
    requires OpensPart(s, boundary, eol, f) ==> StopsFirst(s, boundary, f + Width(boundary) + |eol| + 1, g)
    ensures var w := Width(boundary);
            NextSegment(Events(s, boundary, eol), w, |eol|, from) ==
            if !OpensPart(s, boundary, eol, f) then NoSegment
            else if g + w + 2 <= |s| && !OpensPart(s, boundary, eol, g) && !ClosesBody(s, boundary, g) then NoSegment
            else Segment(f + w, g)
  {
    hide OpensPart, ClosesBody, StopsFirst, Events, NextSegment, NextEvent;
    StopIsEvent(s, boundary, eol, from, f);
    if OpensPart(s, boundary, eol, f) {
      StopIsEvent(s, boundary, eol, f + Width(boundary) + |eol| + 1, g);
    }
    NextSegmentStep(Events(s, boundary, eol), Width(boundary), |eol|, from);
  }

  /** A missing close delimiter, in octets: after the first delimiter nothing stops the scan any more.
      The part then ends two octets short of the buffer, although "the end of the body" is meant; it
      is complete only when nothing stands behind its end of line. */
  lemma LastOctetsAreLost(s: string, boundary: string, eol: Eol, from: nat, d: nat)
    requires from <= d && d + Width(boundary) + 2 <= |s|
    requires DelimiterAt(s, boundary, d) && LineEndAt(s, eol, d + Width(boundary))
    requires forall i :: from <= i < d ==> !StopsAt(s, boundary, i)
    requires forall i :: d + Width(boundary) + |eol| < i < |s| - 1 ==> !StopsAt(s, boundary, i)
    ensures var start := d + Width(boundary);
            var r := NextSegment(Events(s, boundary, eol), Width(boundary), |eol|, from);
            && r == Segment(start, if start + |eol| + 1 < |s| then |s| - 2 else start + |eol|)
            && (r.end == |s| <==> start + |eol| == |s|)
  {
    hide NextSegment, CaseMatchAt;
    var e := Events(s, boundary, eol);
    forall i | from <= i < d || d + Width(boundary) + |eol| < i < |s| - 1 ensures e[i] == Nothing {
      assert !StopsAt(s, boundary, i);
    }
    MissingClose(e, Width(boundary), |eol|, from, d);
  }

  /** "--b" CRLF "xy" without a close delimiter: the part is its end of line, and "xy" is lost. */
  lemma UnclosedBodyIsLost(s: string)
    requires s == "--b\r\nxy"
    ensures NextSegment(Events(s, "b", CRLF), Width("b"), |CRLF|, 0) == Segment(3, 5)
    ensures s[3..5] == CRLF && s[5..] == "xy"
  {
    assert s[2..3] == "b";
    CaseEqualReflexive("b");
    assert MatchAt(s, 3, CRLF);
    LastOctetsAreLost(s, "b", CRLF, 0, 0);
  }
}
