/** What the scan of a body part comes to: the jumps over header values change nothing, the part is
    split at its first blank line. */
module HeaderSplit {
  import opened Octets
  import opened BodyPartParser

  /** The first blank line that starts inside the part, at `from` or later. */
  function FirstBlank(mem: string, n: nat, eol: Eol, from: nat): (r: Option<nat>)
    requires n <= |mem|
    ensures r.Some? ==> from <= r.value < n && BlankAt(mem, eol, r.value)
    ensures forall i :: from <= i < (if r.Some? then r.value else n) ==> !BlankAt(mem, eol, i)
    decreases n - from
  {
    if from >= n then None
    else if BlankAt(mem, eol, from) then Some(from)
    else FirstBlank(mem, n, eol, from + 1)
  }

  /** A Content-ID whose value is a single '<': its length would come out as -1. */
  predicate LoneAngleAt(mem: string, n: nat, eol: Eol, i: nat)
    requires n <= |mem|
  {
    && HeaderAt(mem, i).Some?
    && var k := HeaderAt(mem, i).value;
    && FIELDS[k].1 == ContentId
    && var start := SkipSpaces(mem, i + NameLength(k));
    && ValueEnd(mem, n, eol, start) == Some(start + 1) && mem[start] == '<'
  }

  lemma NoBlankAtPlain(mem: string, eol: Eol, j: nat)
    requires j < |mem| && mem[j] != '\r' && mem[j] != '\n'
    ensures !BlankAt(mem, eol, j)
  {
  }

  /** No line end, and so no blank line, starts inside a header name. */
  lemma NoLineEndInName(mem: string, eol: Eol, i: nat, j: nat)
    requires HeaderAt(mem, i).Some? && i <= j < i + NameLength(HeaderAt(mem, i).value)
    ensures j < |mem| && mem[j] != '\r' && mem[j] != '\n' && !BlankAt(mem, eol, j)
  {
    hide CaseMatchAt, HeaderAt, BlankAt;
    var k := HeaderAt(mem, i).value;
    var name := FIELDS[k].0;
    NamesArePlain(k);
    CaseMatchIndex(mem, i, name, j - i);
    NoBlankAtPlain(mem, eol, j);
  }

  /** The jump behind a header never passes the first blank line. */
  lemma JumpStopsAtBlank(mem: string, n: nat, eol: Eol, i: nat)
    requires i < n <= |mem| && HeaderAt(mem, i).Some?
    ensures var start := SkipSpaces(mem, i + NameLength(HeaderAt(mem, i).value));
            var end := ValueEnd(mem, n, eol, start);
            var next := if end.Some? then end.value else i + 1;
            && i < next <= n
            && FirstBlank(mem, n, eol, i) == FirstBlank(mem, n, eol, next)
  {
    hide HeaderAt, HeaderFrom, BlankAt, LineEndAt, CaseMatchAt, FirstBlank, NameLength;
    var name := NameLength(HeaderAt(mem, i).value);
    var start := SkipSpaces(mem, i + name);
    var end := ValueEnd(mem, n, eol, start);
    var next := if end.Some? then end.value else i + 1;
    NamesArePlain(HeaderAt(mem, i).value);
    forall j | i <= j < next ensures !BlankAt(mem, eol, j) {
      if j < i + name {
        NoLineEndInName(mem, eol, i, j);
      } else if j < start {
        NoBlankAtPlain(mem, eol, j);
      } else {
        BlankIsLineEnd(mem, eol, j);
      }
    }
    FirstBlankFrom(mem, n, eol, i, next);
  }

  lemma FirstBlankStep(mem: string, n: nat, eol: Eol, from: nat)
    requires n <= |mem|
    ensures FirstBlank(mem, n, eol, from) ==
            if from >= n then None
            else if BlankAt(mem, eol, from) then Some(from)
            else FirstBlank(mem, n, eol, from + 1)
  {
  }

  lemma BlankIsLineEnd(mem: string, eol: Eol, j: nat)
    ensures BlankAt(mem, eol, j) ==> LineEndAt(mem, eol, j)
  {
    if MatchAt(mem, j, eol + eol) {
      assert mem[j..j + |eol|] == mem[j..j + 2 * |eol|][..|eol|];
    }
  }

  lemma {:induction false} FirstBlankFrom(mem: string, n: nat, eol: Eol, from: nat, upto: nat)
    requires n <= |mem| && from <= upto <= n
    requires forall j :: from <= j < upto ==> !BlankAt(mem, eol, j)
    ensures FirstBlank(mem, n, eol, from) == FirstBlank(mem, n, eol, upto)
    decreases upto - from
  {
    if from < upto {
      FirstBlankFrom(mem, n, eol, from + 1, upto);
    }
  }

  /** The same headers and body, or a panic on both sides. */
  ghost predicate SameSplit(a: Outcome, b: Outcome) {
    match (a, b)
    case (Parsed(p), Parsed(q)) => p.headers == q.headers && p.body == q.body
    case (Panicked, Panicked) => true
    case _ => false
  }

  predicate LineEndBetween(mem: string, eol: Eol, i: nat, m: nat) {
    exists j :: i < j < m && LineEndAt(mem, eol, j)
  }

  /** No header name stands on the line of position m in front of it. */
  ghost predicate FirstOnItsLine(mem: string, eol: Eol, from: nat, m: nat) {
    forall i :: from <= i < m && HeaderAt(mem, i).Some? ==> LineEndBetween(mem, eol, i, m)
  }

  /** A lone '<' in front of the first blank line whose Content-ID is the first header on its line: a
      header in front of it would have taken it for a part of its value. */
  ghost predicate AngleMet(mem: string, n: nat, eol: Eol, from: nat)
    requires n <= |mem|
  {
    exists m :: from <= m < FirstBlank(mem, n, eol, from).GetOr(n) && LoneAngleAt(mem, n, eol, m)
                && FirstOnItsLine(mem, eol, from, m)
  }

  /** The part as the plain search for its first blank line leaves it. */
  function PlainSplit(mem: string, n: nat, eol: Eol, from: nat, p: Part): Outcome
    requires n <= |mem|
  {
    match FirstBlank(mem, n, eol, from)
    case None => Parsed(p)
    case Some(b) => SplitAt(mem, n, eol, b, p)
  }

  lemma SplitIgnoresFields(mem: string, n: nat, eol: Eol, from: nat, p: Part, q: Part)
    requires n <= |mem| && p.headers == q.headers && p.body == q.body
    ensures SameSplit(PlainSplit(mem, n, eol, from, p), PlainSplit(mem, n, eol, from, q))
  {
  }

  /** One header: either it is a lone '<', or the scan goes on behind its value with the same
      headers and body and the same first blank line. */
  lemma HeaderStep(mem: string, n: nat, eol: Eol, i: nat, value: Option<string>, p: Part)
    returns (next: nat, v: Option<string>, q: Part)
    requires i < n <= |mem| && HeaderAt(mem, i).Some? && !LoneAngleAt(mem, n, eol, i)
    ensures GoesOnAt(mem, n, eol, i, next)
    ensures i < next <= n && FirstBlank(mem, n, eol, i) == FirstBlank(mem, n, eol, next)
    ensures p.headers == q.headers && p.body == q.body
    ensures ScanFrom(mem, n, eol, i, value, p) == ScanFrom(mem, n, eol, next, v, q)
  {
    hide HeaderAt, BlankAt, ValueEnd, SkipSpaces, ScanFrom, NameLength, FirstBlank;
    ScanStep(mem, n, eol, i, value, p);
    JumpStopsAtBlank(mem, n, eol, i);
    var k := HeaderAt(mem, i).value;
    var start := SkipSpaces(mem, i + NameLength(k));
    var end := ValueEnd(mem, n, eol, start);
    next := if end.Some? then end.value else i + 1;
    v := ValueOf(mem, n, eol, k, start, value).value;
    q := p.(fields := p.fields[FIELDS[k].1 := v]);
  }

  lemma LoneAngleStops(mem: string, n: nat, eol: Eol, i: nat, value: Option<string>, p: Part)
    requires i < n <= |mem| && LoneAngleAt(mem, n, eol, i)
    ensures ScanFrom(mem, n, eol, i, value, p) == Panicked && AngleMet(mem, n, eol, i)
  {
    hide HeaderAt, BlankAt, SkipSpaces, ScanFrom, NameLength;
    ScanStep(mem, n, eol, i, value, p);
    HeaderIsNoBlank(mem, eol, i);
    assert FirstOnItsLine(mem, eol, i, i);
  }

  lemma LineEndIsBreak(mem: string, eol: Eol, j: nat)
    requires LineEndAt(mem, eol, j)
    ensures j < |mem| && (mem[j] == '\r' || mem[j] == '\n') && HeaderAt(mem, j).None?
  {
    hide HeaderAt, LineEndAt;
    LineEndIsOctet(mem, eol, j);
    if HeaderAt(mem, j).Some? {
      NamesArePlain(HeaderAt(mem, j).value);
      NoLineEndInName(mem, eol, j, j);
      assert false;
    }
  }

  /** The line end nearest behind a header is the end of its value, if that has one. */
  lemma NextLineEnd(mem: string, n: nat, eol: Eol, i: nat, j: nat)
    requires i < n <= |mem| && HeaderAt(mem, i).Some? && i < j && LineEndAt(mem, eol, j) && j + |eol| <= n
    ensures var end := ValueEnd(mem, n, eol, SkipSpaces(mem, i + NameLength(HeaderAt(mem, i).value)));
            end.Some? && end.value <= j
  {
    hide HeaderAt, LineEndAt;
    var name := NameLength(HeaderAt(mem, i).value);
    LineEndIsBreak(mem, eol, j);
    if j < i + name {
      NoLineEndInName(mem, eol, i, j);
      assert false;
    }
  }

  /** A lone '<' lies in front of its line end. */
  lemma AngleEnds(mem: string, n: nat, eol: Eol, m: nat) returns (end: nat)
    requires n <= |mem| && LoneAngleAt(mem, n, eol, m)
    ensures HeaderAt(mem, m).Some? && m < end && LineEndAt(mem, eol, end) && end + |eol| <= n
  {
    hide HeaderAt, SkipSpaces;
    end := SkipSpaces(mem, m + NameLength(HeaderAt(mem, m).value)) + 1;
  }

  /** Where the scan goes on behind the header at `i`. */
  ghost predicate GoesOnAt(mem: string, n: nat, eol: Eol, i: nat, next: nat)
    requires n <= |mem|
  {
    && HeaderAt(mem, i).Some?
    && var end := ValueEnd(mem, n, eol, SkipSpaces(mem, i + NameLength(HeaderAt(mem, i).value)));
       next == if end.Some? then end.value else i + 1
  }

  lemma AngleIsBehind(mem: string, n: nat, eol: Eol, i: nat, next: nat, m: nat)
    requires i < n <= |mem| && GoesOnAt(mem, n, eol, i, next) && !LoneAngleAt(mem, n, eol, i)
    requires i <= m < n && LoneAngleAt(mem, n, eol, m) && FirstOnItsLine(mem, eol, i, m)
    ensures next <= m && FirstOnItsLine(mem, eol, next, m)
  {
    hide HeaderAt, LineEndAt, NameLength, SkipSpaces, LoneAngleAt;
    assert LineEndBetween(mem, eol, i, m);
    var j :| i < j < m && LineEndAt(mem, eol, j);
    var end := AngleEnds(mem, n, eol, m);
    NextLineEnd(mem, n, eol, i, j);
  }

  lemma AngleStaysFirst(mem: string, n: nat, eol: Eol, i: nat, next: nat, m: nat)
    requires i < n <= |mem| && GoesOnAt(mem, n, eol, i, next) && i < next
    requires next <= m < n && LoneAngleAt(mem, n, eol, m) && FirstOnItsLine(mem, eol, next, m)
    ensures FirstOnItsLine(mem, eol, i, m)
  {
    hide HeaderAt, LineEndAt, NameLength, SkipSpaces, LoneAngleAt, ValueEnd;
    var end := AngleEnds(mem, n, eol, m);
    NextLineEnd(mem, n, eol, i, end);
    ValueEndIsLineEnd(mem, n, eol, i, next);
    LineEndIsBreak(mem, eol, next);
    forall h | i <= h < next ensures LineEndBetween(mem, eol, h, m) {
      assert h < next < m;
    }
  }

  lemma ValueEndIsLineEnd(mem: string, n: nat, eol: Eol, i: nat, next: nat)
    requires n <= |mem| && GoesOnAt(mem, n, eol, i, next)
    requires ValueEnd(mem, n, eol, SkipSpaces(mem, i + NameLength(HeaderAt(mem, i).value))).Some?
    ensures LineEndAt(mem, eol, next)
  {
  }

  /** The jump over a value passes no lone '<' that counts, and none is added by it. */
  lemma JumpKeepsAngles(mem: string, n: nat, eol: Eol, i: nat, next: nat)
    requires i < n <= |mem| && GoesOnAt(mem, n, eol, i, next) && !LoneAngleAt(mem, n, eol, i) && i < next
    requires FirstBlank(mem, n, eol, i) == FirstBlank(mem, n, eol, next)
    ensures AngleMet(mem, n, eol, i) <==> AngleMet(mem, n, eol, next)
  {
    hide GoesOnAt, FirstOnItsLine, LoneAngleAt, FirstBlank;
    var blank := FirstBlank(mem, n, eol, i).GetOr(n);
    if AngleMet(mem, n, eol, i) {
      var m :| i <= m < blank && LoneAngleAt(mem, n, eol, m) && FirstOnItsLine(mem, eol, i, m);
      AngleIsBehind(mem, n, eol, i, next, m);
    }
    if AngleMet(mem, n, eol, next) {
      var m :| next <= m < blank && LoneAngleAt(mem, n, eol, m) && FirstOnItsLine(mem, eol, next, m);
      AngleStaysFirst(mem, n, eol, i, next, m);
    }
  }

  /** Where neither a header nor a blank line stands nothing changes. */
  lemma PlainStepKeepsAngles(mem: string, n: nat, eol: Eol, i: nat)
    requires i < n <= |mem| && HeaderAt(mem, i).None? && !BlankAt(mem, eol, i)
    ensures AngleMet(mem, n, eol, i) <==> AngleMet(mem, n, eol, i + 1)
  {
    hide HeaderAt, FirstBlank, LineEndBetween, BlankAt;
    FirstBlankStep(mem, n, eol, i);
    var blank := FirstBlank(mem, n, eol, i).GetOr(n);
    forall m | i < m < blank ensures FirstOnItsLine(mem, eol, i, m) == FirstOnItsLine(mem, eol, i + 1, m) {
    }
    if AngleMet(mem, n, eol, i) {
      var m :| i <= m < blank && LoneAngleAt(mem, n, eol, m) && FirstOnItsLine(mem, eol, i, m);
      var end := AngleEnds(mem, n, eol, m);
      assert m != i && FirstOnItsLine(mem, eol, i + 1, m);
    }
  }

  lemma NoAngleAtBlank(mem: string, n: nat, eol: Eol, i: nat)
    requires n <= |mem| && (i < n ==> BlankAt(mem, eol, i))
    ensures !AngleMet(mem, n, eol, i)
  {
    FirstBlankStep(mem, n, eol, i);
  }

  /** The scan with its jumps panics if a lone '<' is the first header on its line in front of the
      first blank line, and otherwise splits where the plain search for a blank line splits. */
  lemma {:induction false} ScanSplits(mem: string, n: nat, eol: Eol, i: nat, value: Option<string>, p: Part)
    requires i <= n <= |mem|
    ensures var got := ScanFrom(mem, n, eol, i, value, p);
            if AngleMet(mem, n, eol, i) then got == Panicked else SameSplit(got, PlainSplit(mem, n, eol, i, p))
    decreases n - i
  {
    hide HeaderAt, BlankAt, ScanFrom, FirstBlank, SplitAt, LoneAngleAt, AngleMet, NameLength, SkipSpaces, ValueEnd;
    ScanStep(mem, n, eol, i, value, p);
    FirstBlankStep(mem, n, eol, i);
    if i >= n || (HeaderAt(mem, i).None? && BlankAt(mem, eol, i)) {
      NoAngleAtBlank(mem, n, eol, i);
    } else if HeaderAt(mem, i).None? {
      PlainStepKeepsAngles(mem, n, eol, i);
      ScanSplits(mem, n, eol, i + 1, value, p);
    } else if LoneAngleAt(mem, n, eol, i) {
      LoneAngleStops(mem, n, eol, i, value, p);
    } else {
      var next, v, q := HeaderStep(mem, n, eol, i, value, p);
      JumpKeepsAngles(mem, n, eol, i, next);
      ScanSplits(mem, n, eol, next, v, q);
      SplitIgnoresFields(mem, n, eol, next, p, q);
    }
  }

  lemma Glue(s: string, a: nat, b: nat, c: nat, d: nat)
    requires a <= b <= c <= d <= |s|
    ensures s[a..d] == s[a..b] + s[b..c] + s[c..d]
  {
  }

  /** Header and body split of a part whose first blank line is at `b`. It panics exactly at a lone '<'
      as above, at a blank line that sticks out of the part, and at one inside the octets the part's own
      end of line is taken to have. Otherwise these octets, the headers, the blank line and the body are
      the part, in this order; at b = 0 there are no headers and the body is all behind the blank line. */
  lemma HeaderBodySplit(mem: string, n: nat, eol: Eol, b: nat)
    requires n <= |mem| && FirstBlank(mem, n, eol, 0) == Some(b)
    ensures var got := ScanFrom(mem, n, eol, 0, None, EMPTY_PART);
            var cut := b + BlankLength(mem, eol, b);
            && (got.Panicked? <==> AngleMet(mem, n, eol, 0) || cut > n || 0 < b < |eol|)
            && (got.Parsed? ==>
                  && cut <= n && got.part.body.Some?
                  && (b == 0 ==> got.part.headers == None && mem[..n] == mem[b..cut] + got.part.body.value)
                  && (b > 0 ==> |eol| <= b && got.part.headers == Some(mem[|eol|..b])
                                && mem[..n] == mem[..|eol|] + mem[|eol|..b] + mem[b..cut] + got.part.body.value))
  {
    hide ScanFrom, FirstBlank, AngleMet, BlankAt, BlankLength;
    ScanSplits(mem, n, eol, 0, None, EMPTY_PART);
    var cut := b + BlankLength(mem, eol, b);
    if cut <= n && !(0 < b < |eol|) {
      Glue(mem, 0, b, cut, n);
      if b > 0 {
        Glue(mem, 0, |eol|, b, b);
      }
    }
  }

  /** A part behind a lone LF, although CRLF was chosen: unless it panics, its header block loses its
      first octet. */
  lemma LoneLfLosesAnOctet(mem: string, n: nat, b: nat)
    requires 0 < n <= |mem| && mem[0] == '\n' && FirstBlank(mem, n, CRLF, 0) == Some(b) && b > 0
    ensures var got := ScanFrom(mem, n, CRLF, 0, None, EMPTY_PART);
            && (got.Panicked? <==> AngleMet(mem, n, CRLF, 0) || b + BlankLength(mem, CRLF, b) > n || b == 1)
            && (got.Parsed? ==> got.part.headers.Some? && mem[1..b] == [mem[1]] + got.part.headers.value)
  {
    hide ScanFrom, FirstBlank, AngleMet, BlankAt, BlankLength;
    HeaderBodySplit(mem, n, CRLF, b);
  }

  /** Without a blank line in the part there are neither headers nor a body. */
  lemma NoBlankNoSplit(mem: string, n: nat, eol: Eol)
    requires n <= |mem| && FirstBlank(mem, n, eol, 0) == None
    ensures var got := ScanFrom(mem, n, eol, 0, None, EMPTY_PART);
            && (got.Panicked? <==> AngleMet(mem, n, eol, 0))
            && (got.Parsed? ==> got.part.headers == None && got.part.body == None)
  {
    ScanSplits(mem, n, eol, 0, None, EMPTY_PART);
  }
}
